# Study-Room-Tracker: a verified model of the booking core

Study-Room-Tracker is a Flask application for booking study rooms. Students submit a
booking for a room, a date and an "HH:MM" start and end. The application checks the
request. It refuses an end that is not after the start and a booking longer than six
hours. It refuses a request that overlaps a booking of the same room on the same date, and
then suggests the next free slot of the same length. It also shows which rooms are occupied
right now, filters rooms by capacity and free time, lists and cancels a student's
bookings, and puts a session-based gate in front of staff-only cancellation.

This project models that core in Dafny and proves what it promises:

- `Clock` covers the time texts: the `to_min` and `fmt` helpers of `submit_booking`
  (minutes of the day and back, with clamping to 23:59), the `strptime("%H:%M")` parse,
  and `to_12h` (12-hour display, with "24:00" treated as "23:59"). It also proves that the
  string order the application uses on zero-padded "HH:MM" texts is the same as the order
  of their minute values.
- `Store` holds the bookings database in memory. `BookingStore` keeps the `rooms` and
  `bookings` tables as sequences and the next AUTOINCREMENT id. `create_booking` and
  `cancel_booking` are its methods. The read-only queries of database.py (`get_room`,
  `get_bookings`, `get_active_booking`, `booking_overlap`) are functions over the
  sequences, and the SQL `ORDER BY` clauses are a sort proved sorted and a permutation.
- `Scheduling` covers validation, the half-open conflict rule and the slot-suggestion
  sweep. The sweep is an imperative loop, proved to return the earliest free slot of the
  requested length at or after the requested start.
- `Routes` covers the handlers of app.py that hold logic: `submit_booking`,
  `cancel_booking`, `rooms`, `room_details`, `filter_rooms` and `history`.
- `StaffAccess` covers the staff session gate: `staff_required`, `staff_login`,
  `logout` and `staff_cancel_booking`.
- `Scenarios` holds small end-to-end runs whose answers follow from the handlers'
  contracts.

Times are modelled as integer minutes of the day. The tables store the texts the form
sent, so each stored time is a text that `strptime` accepted. For zero-padded "HH:MM"
texts, which the browser's time input sends, `Clock.ParseRoundTrip` shows that such a
text is `Fmt` of its minute value, so nothing is lost, and
`Clock.LexOrderMatchesMinutes` shows that the string comparisons in SQL and at app.py:228
agree with the minute comparisons of the sweep. A one-digit text such as "9:30" is also
accepted by `strptime` and stored as posted; the model does not read it (see `ParseTime`
under "Left out").

Notes on the code:

- `get_bookings` in database.py sorts ascending by date. The `history` handler of app.py
  runs its own query, sorted by date descending and then start time. Both are modelled:
  `Store.GetBookings` and `Routes.History`.
- For zero-padded "HH:MM" texts, the "Invalid time range." branch of `submit_booking`
  (app.py:239-244) cannot be reached. The earlier string test already refuses every end
  that is not later than the start, and for such texts string order is minute order.
  The branch can be reached with a one-digit hour: start "10:00" and end "9:30" pass the
  string test, because "9" sorts after "1", and then the duration is negative. The model
  reads only zero-padded texts (see `ParseTime` under "Left out"), so it refuses that
  request as `MalformedTime`. `Scheduling.Validate` never answering `InvalidRange` holds
  only because of that narrowed parse.
- `booking_overlap` in database.py matches on the email and the date, not on the room.
  `Store.BookingOverlap` models it that way. The room-based test that `submit_booking`
  really uses is `Scheduling.ConflictIn`.
- When every time text is zero-padded, the submission path never inserts a booking that
  overlaps another booking of the same room and date (`Scheduling.NoDoubleBooking`), and
  both cancellation paths keep that invariant. One-digit texts break it; the example is
  on the `ParseTime` line under "Left out".

## Model

| member | source | states |
|---|---|---|
| Clock.LexIrreflexive | app.py:228 | Python's string order is irreflexive: no text is less than itself |
| Clock.LexTransitive | app.py:228 | Python's string order is transitive |
| Clock.LexTotal | app.py:228 | any two different texts are ordered one way or the other |
| Clock.DigitValue | app.py:270 | a decimal digit character has a value from 0 to 9 |
| Clock.DigitChar | app.py:295 | the digit character for d reads back as d |
| Clock.TwoDigits | app.py:295 | the `:02d` text of n < 100 is two digits that read back as n |
| Clock.ClockMinutes | app.py:269-271 | on zero-padded texts of two-digit fields, `to_min` succeeds exactly when the minute field is below 60, and the value is 60 times the hour field plus the minute field |
| Clock.ParseTime | app.py:235-236 | `strptime("%H:%M")` accepts exactly the well-formed texts with hour < 24; the value lies in [0, 1440) and agrees with `to_min` |
| Clock.Fmt | app.py:291-295 | `fmt` always produces a text that `strptime` accepts |
| Clock.FmtRoundTrip | app.py:269-295 | for 0 <= m < 1440, `to_min(fmt(m)) == m`, and the parse gives back m too |
| Clock.FmtClamps | app.py:291-295 | every m >= 1440 is formatted as "23:59" |
| Clock.ParseRoundTrip | app.py:235-236 | a text that `strptime` accepts is `fmt` of its minute value, so minutes lose nothing of a stored time |
| Clock.LexOrderMatchesMinutes | app.py:258 | for well-formed times, string "<" holds iff the minute values are "<", and the texts are equal iff the minutes are |
| Clock.LexLeMatchesMinutes | app.py:228 | for well-formed times, `end <= start` as strings iff as minutes |
| Clock.Hour12 | app.py:104 | the `%I` hour lies in 1..12 and equals h modulo 12 (0 is shown as 12) |
| Clock.Clock12 | app.py:104 | the `%I:%M %p` text of a minute of the day has eight characters |
| Clock.To12h | app.py:97-104 | "24:00" is displayed exactly as 23:59 is; otherwise the display exists iff `strptime` accepts the text |
| Clock.From12h | app.py:104 | reading a 12-hour text back yields a minute of the day |
| Clock.Clock12ReadsBack | app.py:104 | the `%I:%M %p` text of a minute has a well-formed clock part with the 12-hour hour and the minute, the right suffix, and reads back to that minute |
| Clock.To12hFields | app.py:100-104 | the display's hour is `Hour12(h)`, the minutes are copied, the suffix is "AM" iff h < 12 and "PM" iff h >= 12, and it reads back to the same minute |
| Clock.FmtIsDisplayable | app.py:300 | `to_12h(fmt(m))` never fails, for any m |
| Clock.FmtDisplay | app.py:291-300 | `to_12h(fmt(m))` reads back to m within the day and is "11:59 PM" for m >= 1440 |
| Clock.SentinelDisplay | app.py:100-104 | "24:00" and "23:59" both display as "11:59 PM" |
| Rows.FetchOne | database.py:18-22 | `fetchone()` on the rows a WHERE clause selects: None iff no row satisfies it; otherwise a satisfying row with no satisfying row before it |
| Store.GetRoom | database.py:18-22 | None iff no room has the id; otherwise a room of the table with that id |
| Store.GetRoomIsTheRoom | database.py:18-22 | with unique ids, the room found for a room's id is that room |
| Store.BookingOverlap | database.py:68-78 | true iff some booking of that email and date has start < e and end > s, which is the same as the application's `NOT(end <= s OR start >= e)` rule |
| Store.ActiveBooking | database.py:53-64 | None iff no booking of that room and date has start <= now < end; otherwise such a booking whose end is the greatest among them |
| Store.BeforeTotal | database.py:42 | any two bookings are ordered one way or the other by each ORDER BY |
| Store.BeforeTransitive | database.py:42 | each ORDER BY is transitive, including the date-descending one |
| Store.PrependSorted | database.py:42 | putting a row ahead of a sorted list that it precedes keeps the list sorted |
| Store.PrependLeast | database.py:42 | putting ahead of a sorted list a row that precedes all of its rows keeps it sorted |
| Store.InsertSortedCorrect | database.py:42 | inserting into a sorted list keeps it sorted and adds exactly that row |
| Store.SortBookingsCorrect | database.py:42 | the ORDER BY result is sorted and is a permutation of its input |
| Store.Owned | database.py:38-41 | the join with `WHERE email = ?` keeps exactly the bookings of that email whose room exists, each exactly as often as in the table |
| Store.OwnedKeepsAll | database.py:38-41 | when every booking is that email's and its room exists, the join returns the whole table |
| Store.JoinedHistory | database.py:37-43 | the joined rows are sorted, are a permutation of that email's bookings, and carry their own room's number |
| Store.GetBookings | database.py:35-45 | `get_bookings(email)` is exactly that email's bookings (whose room exists), ascending by date and then start |
| Store.RemoveId | database.py:47-51 | the table after the DELETE keeps the rows of other ids with their counts and has no row of that id; an unknown id changes nothing |
| Store.RemoveIdKeepsUnique | database.py:49 | deleting by id keeps the booking ids unique |
| Store.RemoveIdRemovesOne | database.py:49 | with unique ids, deleting a present id removes exactly one row |
| Store.BookingStore.constructor | init_db.py:23-33 | a fresh database has the given rooms and an empty bookings table |
| Store.BookingStore.CreateBooking | database.py:26-33 | appends one row with the given fields under an id no existing row has; the existing rows and the rooms are unchanged |
| Store.BookingStore.CancelBooking | database.py:47-51 | the table becomes the table without that id's rows; an unknown id leaves it unchanged |
| Scheduling.Validate | app.py:228-251 | accepted iff both times parse and 0 < end - start <= 360 minutes, with the parsed minutes; an end not after the start is refused as such; a duration over 360 minutes is refused as too long; never "Invalid time range" |
| Scheduling.DurationBoundary | app.py:246-251 | exactly 360 minutes is accepted, 361 is refused as too long, and an end equal to the start is refused |
| Scheduling.ConflictIn | app.py:255-259 | the conflict query finds a row iff some booking of that room and date shares a minute with [s, e) |
| Scheduling.TouchingIsNoConflict | app.py:258 | bookings that only touch the request at an endpoint are no conflict |
| Scheduling.OfRoomDay | app.py:262-267 | keeps exactly the bookings of that room and date, each exactly as often as in the table |
| Scheduling.DayBookings | app.py:262-267 | a permutation of the day's bookings of the room, sorted by start |
| Scheduling.FreeWindowIsNoConflict | app.py:258-267 | a window meets none of the day's bookings iff the conflict query finds nothing for it |
| Scheduling.SuggestSlot | app.py:273-289 | the slot has the requested length, starts no earlier than requested, meets no booking of the day, and every earlier start from the requested one on meets a booking |
| Scheduling.EarliestFreeSlot | app.py:276-289 | the sweep's slot passes the conflict query, every earlier start from the requested one fails it, and the slot is strictly later than the refused request |
| Scheduling.InsertKeepsNoDoubleBooking | app.py:309-314 | inserting a booking that the conflict query lets through keeps every room's bookings on a date apart |
| Scheduling.PrependKeepsNoDoubleBooking | app.py:258 | a booking that meets none of the others of its room and date can be put in front without a double booking |
| Scheduling.RemoveKeepsNoDoubleBooking | app.py:375 | deleting by id never creates a double booking |
| Routes.SuggestionDisplay | app.py:291-301 | both suggestion texts exist; an end within the day reads back to its minute; an end at or past midnight shows "11:59 PM" |
| Routes.ResolveConflict | app.py:261-307 | on a conflict, answers with a slot of the same length, later than the request, that passes the conflict query and is the earliest such |
| Routes.PlaceBooking | app.py:253-314 | inserts exactly when the conflict query finds nothing, under a fresh id; on conflict the table is unchanged and the earliest free slot is suggested; no double booking is created |
| Routes.SubmitBooking | app.py:220-329 | a refused request changes nothing and gives the reason; an accepted one is booked iff it meets no booking of that room and date; otherwise the table is unchanged and the earliest free slot is suggested |
| Routes.BookingWithId | app.py:372 | None iff no booking has the id; otherwise a booking with that id |
| Routes.CancelOwnBooking | app.py:369-379 | deletes that id's rows; redirects with the owner's email iff the id existed, and changes nothing otherwise |
| Routes.RoomStatuses | app.py:127-158 | one entry per room in table order with its fields; Available iff no booking of it holds it now, otherwise the end of such a booking |
| Routes.LastHoldingEnd | app.py:179-182 | the loop ends with the end of the last row holding the room at `now`, and with None iff no row does |
| Routes.IdleDayIsIdleTable | app.py:171-182 | no booking in today's schedule holds the room now iff no booking in the whole table does |
| Routes.RoomDetails | app.py:164-205 | the room (None if unknown), today's bookings in start order, and the end of the last of them holding the room now (None iff none does) |
| Routes.CapacityAtLeast | app.py:579-581 | keeps exactly the rooms with at least that capacity |
| Routes.WithoutConflict | app.py:583-592 | keeps exactly the rooms with no booking on that date meeting [s, e) |
| Routes.SubsequenceTransitive | app.py:579-592 | a subsequence of a subsequence of the rooms keeps their table order |
| Routes.ShiftedMap | app.py:583-592 | the positions of a subsequence of the tail, moved on by one, are positions in the whole |
| Routes.ConsMap | app.py:583-592 | a position map that avoids the first room extends with the first room in front |
| Routes.SubsequenceOfTail | app.py:579-581 | a subsequence of the later rooms stays one with the first room before it, kept or dropped |
| Routes.CapacityAtLeastInOrder | app.py:579-581 | the capacity query returns its rooms in table order |
| Routes.WithoutConflictInOrder | app.py:583-592 | the loop that drops conflicting rooms keeps the others in their order |
| Routes.FilterRooms | app.py:567-603 | exactly the rooms with enough capacity and no overlapping booking that date, as a subsequence of the rooms' table order |
| Routes.History | app.py:335-366 | no rows iff the email is empty; otherwise exactly that email's bookings whose room exists, newest date first and by start within a date |
| StaffAccess.FindAccount | app.py:392-395 | None iff no account has the username; otherwise an account with it |
| StaffAccess.Session.StaffRequired | app.py:110-113 | the gate is open iff the session holds a truthy "staff_logged_in" |
| StaffAccess.Session.constructor | app.py:399-401 | a new session is empty and does not pass the staff gate |
| StaffAccess.Session.Login | app.py:385-407 | succeeds iff the account exists and the password checks against its hash; then both keys are set and the gate opens; otherwise the session is unchanged |
| StaffAccess.Session.Logout | app.py:410-414 | removes both keys and nothing else; afterwards the gate is closed |
| StaffAccess.StaffCancelBooking | app.py:476-485 | behind the gate deletes that id's rows; without a staff session changes nothing; never creates a double booking |
| Scenarios.NextSlotAfterOverlap | app.py:255-301 | with 10:00-11:00 booked, a request for 10:30-11:30 in that room is answered with the slot 11:00-12:00 |
| Scenarios.SampleTimes | app.py:228-251 | 10:00-11:00 and 10:30-11:30 pass validation with their minute values |
| Scenarios.OnlySlotAfter | app.py:276-289 | with only 10:00-11:00 booked, the earliest free hour from 10:30 on is at 11:00 |
| Scenarios.BackToBackBookings | app.py:255-314 | 09:00-10:00 and 10:00-11:00 in one room are both booked, and the owner's bookings are exactly those two rows under their new ids |
| Scenarios.WrongPasswordKeepsGateClosed | app.py:398-405 | a wrong password does not log in and the gate stays closed |

## Left out

- Flask routing, `render_template`, the HTML messages, `redirect`/`url_for`: the model returns the values the pages are rendered from.
- `send_confirmation_email` (app.py:321-327): SMTP network I/O.
- Routes.SubmitBooking: after the INSERT has committed, the source looks up the room number for the email (app.py:317). When the posted room id has no room, `room_row` is None and `room_row["room_number"]` (app.py:323) raises TypeError, an HTTP 500, although the booking is already stored. The model answers `Booked` for that request.
- init_db.py and init_staff.py: schema creation and seed data. The seed rows make the store's constructor argument.
- SQLite connections and commits: the tables are in-memory sequences. The check-then-insert race between the conflict query and the INSERT (app.py:255-314) is a concurrency issue and is not modelled.
- The floating-point `hours` and `req_min = int(hours * 60)` (app.py:237, 273): the model uses the exact difference of the minute values. The float product can fall just below a whole number and be truncated one minute short. The model does not capture that.
- `datetime.now()` (app.py:132-133, 168-169): "today" and "now" are parameters.
- Clock.ClockMinutes: `to_min` applies `int` to each field, so it also reads one-digit fields and minutes of 60 or more: `to_min("10:75")` is 675 and `to_min("9:5")` is 545. The model returns None for such texts. The model's minutes come only from texts `ParseTime` accepted, so its tables hold zero-padded texts only; the source's tables can also hold the one-digit texts `strptime` accepts.
- ParseTime: accepts only zero-padded "HH:MM". Python's `strptime` also accepts one-digit hours and minutes, and `to_min` accepts whatever `int` does. The browser's time input sends zero-padded texts. For other texts the string comparisons of the source do not agree with minute order, and the source can double-book: with "9:00"-"9:30" stored (the test at app.py:228 passes because "9:30" > "9:00" as strings, and app.py:310-313 inserts it), a request for "09:00"-"10:00" in the same room and date passes the conflict query at app.py:258, because "9:00" >= "10:00" as strings, and is inserted over minutes [540, 570). The model's `NoDoubleBooking` holds only for the zero-padded texts it reads.
- Scheduling.Validate: a text `strptime` rejects makes the source raise ValueError, an HTTP 500. The model answers `MalformedTime` instead. A one-digit text that `strptime` accepts is refused as `MalformedTime` too: start "10:00" and end "9:30" reach "Invalid time range." (app.py:239-244) in the source. The contract that `InvalidRange` is never answered depends on this narrowed parse.
- Routes.RoomStatuses: `LIMIT 1` without `ORDER BY` (app.py:141) picks some active booking, not a specified one. The contract states only that the end shown belongs to some active booking. The body happens to use the latest-ending one.
- Routes.RoomStatuses, Routes.RoomDetails, Routes.History: the `to_12h` display of each time (app.py:145, 186, 192-193, 357-358) is not applied. `Clock.To12hFields` states what that display is.
- Routes.FilterRooms: `int(request.form["capacity"])` (app.py:575) raises ValueError, an HTTP 500, on a text that is not an integer. The model takes the capacity as an integer.
- Routes.FilterRooms: the filter compares the form's unvalidated texts as strings. The model takes the window as minutes [start, end).
- `check_password_hash`/`generate_password_hash`: a function parameter of Login. The 20-minute permanent session lifetime (app.py:19, 399) is not modelled.
- The `home` and `book` pages: they only render templates.
- The staff dashboard and analytics aggregates (app.py:420-470, 609-656): read-only COUNT/GROUP BY queries with float hour sums and unspecified tie order.
- Room management (`manage_rooms`, `add_room`, `edit_room`, `delete_room`, app.py:491-561): plain INSERT/UPDATE/DELETE on the rooms table. It is outside the booking core. Deleting a room leaves its bookings, which the history join then drops (see `Store.Owned`).
- Store.BookingStore: `room_id` is posted as text. The column's INTEGER affinity stores a numeric text such as "1" as the integer 1, and keeps any other text as text, which then matches no room id. The model uses integer ids.
