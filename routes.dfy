/**
 * The request handlers of app.py that hold logic, over the in-memory database: booking
 * submission, self-service cancellation, the room list with live status, the room page's
 * live status and schedule, the room filter, and the history query. Page rendering and
 * redirects are reduced to the values the pages are rendered from; "today" and "now"
 * (which the source reads from the clock) are parameters.
 */
module Routes {
  import opened Rows
  import opened Clock
  import opened Store
  import opened Scheduling

  // ---------------------------------------------------------------------------
  // submit_booking
  // ---------------------------------------------------------------------------

  /** What `submit_booking` answers. */
  datatype SubmitOutcome =
    | Booked(id: int)               // inserted; redirect to the history page
    | Rejected(reason: Rejection)   // the form again, with a validation message
    | Conflict(suggestedStart: int, suggestedEnd: int, display: (string, string))
                                    // "Next available slot", shown as 12-hour texts

  /**
   * The two texts of the "Next available slot" message, `to_12h(fmt(..))` of each end.
   * Because `fmt` clamps, both are always displayable; a slot starting within the day
   * shows its real start, and an end at or past midnight shows as 11:59 PM.
   */
  function SuggestionDisplay(s: nat, e: nat): (r: (string, string))
    ensures s < MinutesPerDay ==> From12h(r.0) == Some(s)
    ensures e < MinutesPerDay ==> From12h(r.1) == Some(e)
    ensures e >= MinutesPerDay ==> r.1 == "11:59 PM"
  {
    FmtDisplay(s);
    FmtDisplay(e);
    (To12h(Fmt(s)).value, To12h(Fmt(e)).value)
  }

  /**
   * The conflict branch of `submit_booking`: sweep the day's bookings in start order and
   * report the earliest slot of the requested length, from the requested start on, that
   * the conflict query would let through, with its display texts.
   */
  method ResolveConflict(bookings: seq<Booking>, roomId: int, date: string, s: int, e: int)
    returns (outcome: SubmitOutcome)
    requires 0 <= s <= e && ConflictIn(bookings, roomId, date, s, e)
    ensures outcome.Conflict?
    ensures outcome.suggestedEnd - outcome.suggestedStart == e - s
    ensures outcome.suggestedStart > s
    ensures SlotFree(bookings, roomId, date, outcome.suggestedStart, e - s)
    ensures NoFreeStartBefore(bookings, roomId, date, s, outcome.suggestedStart, e - s)
    ensures outcome.display == SuggestionDisplay(outcome.suggestedStart, outcome.suggestedEnd)
  {
    var day := DayBookings(bookings, roomId, date);
    var reqMin := e - s;
    var suggestedStart, suggestedEnd := SuggestSlot(day, s, reqMin);
    EarliestFreeSlot(bookings, roomId, date, s, suggestedStart, reqMin);
    return Conflict(suggestedStart, suggestedEnd, SuggestionDisplay(suggestedStart, suggestedEnd));
  }

  /**
   * What placing the request [s, e) did to the bookings table: it was inserted under the
   * given id exactly when no booking of that room and date meets it; otherwise the table
   * is unchanged and the answer is the earliest later slot of the same length that the
   * conflict query lets through, with its display texts.
   */
  predicate Placed(before: seq<Booking>, after: seq<Booking>, outcome: SubmitOutcome,
                   email: string, roomId: int, date: string, s: int, e: int)
  {
    && (outcome.Booked? || outcome.Conflict?)
    && (outcome.Booked? <==> !ConflictIn(before, roomId, date, s, e))
    && (outcome.Booked? ==> after == before + [Booking(outcome.id, email, roomId, date, s, e)])
    && (outcome.Conflict? ==>
          && after == before
          && outcome.suggestedEnd - outcome.suggestedStart == e - s
          && outcome.suggestedStart > s
          && SlotFree(before, roomId, date, outcome.suggestedStart, e - s)
          && NoFreeStartBefore(before, roomId, date, s, outcome.suggestedStart, e - s)
          && 0 <= outcome.suggestedStart <= outcome.suggestedEnd
          && outcome.display == SuggestionDisplay(outcome.suggestedStart, outcome.suggestedEnd))
  }

  /**
   * `submit_booking` after validation, on the requested minutes [s, e): when a booking of
   * that room and date meets the request, leave the table alone and answer with the
   * suggestion; otherwise insert the booking under a fresh id. Since it only inserts what
   * the conflict query lets through, it keeps each room's bookings on a day apart.
   */
  method PlaceBooking(db: BookingStore, email: string, roomId: int, date: string, s: int, e: int)
    returns (outcome: SubmitOutcome)
    requires db.Valid() && 0 <= s < e
    modifies db
    ensures db.Valid() && db.rooms == old(db.rooms)
    ensures Placed(old(db.bookings), db.bookings, outcome, email, roomId, date, s, e)
    ensures outcome.Booked? ==> forall i :: 0 <= i < |old(db.bookings)| ==> old(db.bookings)[i].id != outcome.id
    ensures NoDoubleBooking(old(db.bookings)) ==> NoDoubleBooking(db.bookings)
  {
    if ConflictIn(db.bookings, roomId, date, s, e) {
      outcome := ResolveConflict(db.bookings, roomId, date, s, e);
    } else {
      if NoDoubleBooking(db.bookings) {
        InsertKeepsNoDoubleBooking(db.bookings, Booking(db.nextId, email, roomId, date, s, e));
      }
      var id := db.CreateBooking(email, roomId, date, s, e);
      outcome := Booked(id);
    }
  }

  /**
   * `submit_booking`: validate the two "HH:MM" texts and refuse with the reason, leaving
   * the table alone; otherwise place the booking on the parsed minutes.
   */
  method SubmitBooking(db: BookingStore, email: string, roomId: int, date: string, start: string, end: string)
    returns (outcome: SubmitOutcome)
    requires db.Valid()
    modifies db
    ensures db.Valid() && db.rooms == old(db.rooms)
    ensures Validate(start, end).Refused? ==>
              outcome == Rejected(Validate(start, end).reason) && db.bookings == old(db.bookings)
    ensures Validate(start, end).Accepted? ==>
              Placed(old(db.bookings), db.bookings, outcome, email, roomId, date,
                     Validate(start, end).startMin, Validate(start, end).endMin)
    ensures NoDoubleBooking(old(db.bookings)) ==> NoDoubleBooking(db.bookings)
  {
    var v := Validate(start, end);
    if v.Refused? {
      outcome := Rejected(v.reason);
    } else {
      outcome := PlaceBooking(db, email, roomId, date, v.startMin, v.endMin);
    }
  }

  // ---------------------------------------------------------------------------
  // cancel_booking (self-service)
  // ---------------------------------------------------------------------------

  /** `SELECT email FROM bookings WHERE id=?` with `fetchone`. */
  function BookingWithId(bookings: seq<Booking>, id: int): (r: Option<Booking>)
    ensures r.None? <==> forall i :: 0 <= i < |bookings| ==> bookings[i].id != id
    ensures r.Some? ==> r.value in bookings && r.value.id == id
  {
    FetchOne(bookings, (b: Booking) => b.id == id)
  }

  /**
   * `cancel_booking`: when a booking has the id, delete it and redirect to its owner's
   * history (the email returned); otherwise change nothing and redirect to the bare
   * history page (None). No ownership is checked.
   */
  method CancelOwnBooking(db: BookingStore, id: int) returns (redirectEmail: Option<string>)
    requires db.Valid()
    modifies db
    ensures db.Valid() && db.rooms == old(db.rooms)
    ensures db.bookings == RemoveId(old(db.bookings), id)
    ensures redirectEmail.None? <==> forall i :: 0 <= i < |old(db.bookings)| ==> old(db.bookings)[i].id != id
    ensures redirectEmail.None? ==> db.bookings == old(db.bookings)
    ensures redirectEmail.Some? ==>
              exists b :: b in old(db.bookings) && b.id == id && b.email == redirectEmail.value
    ensures NoDoubleBooking(old(db.bookings)) ==> NoDoubleBooking(db.bookings)
  {
    if NoDoubleBooking(db.bookings) {
      RemoveKeepsNoDoubleBooking(db.bookings, id);
    }
    var row := BookingWithId(db.bookings, id);
    if row.Some? {
      db.CancelBooking(id);
      return Some(row.value.email);
    }
    return None;
  }

  // ---------------------------------------------------------------------------
  // rooms: the list with live status
  // ---------------------------------------------------------------------------

  datatype RoomStatus = Available | OccupiedUntil(end: int)

  /** One entry of the room list page. */
  datatype RoomView = RoomView(id: int, number: string, capacity: int, kind: string, status: RoomStatus)

  /**
   * The entry shows the room's fields; it is Available exactly when no booking of that
   * room occupies it today at `now`, and otherwise shows the end of such a booking.
   */
  predicate ShowsStatus(v: RoomView, room: Room, bookings: seq<Booking>, today: string, now: int)
  {
    && v.id == room.id && v.number == room.number && v.capacity == room.capacity && v.kind == room.kind
    && (v.status.Available? <==> forall j :: 0 <= j < |bookings| ==> !ActiveAt(bookings[j], room.id, today, now))
    && (v.status.OccupiedUntil? ==>
          exists j :: 0 <= j < |bookings| && ActiveAt(bookings[j], room.id, today, now) && bookings[j].end == v.status.end)
  }

  /** `rooms`: every room in table order, each with its live status. */
  method RoomStatuses(db: BookingStore, today: string, now: int) returns (list: seq<RoomView>)
    ensures |list| == |db.rooms|
    ensures forall k :: 0 <= k < |list| ==> ShowsStatus(list[k], db.rooms[k], db.bookings, today, now)
  {
    list := [];
    for i := 0 to |db.rooms|
      invariant |list| == i
      invariant forall k :: 0 <= k < i ==> ShowsStatus(list[k], db.rooms[k], db.bookings, today, now)
    {
      var room := db.rooms[i];
      var active := ActiveBooking(db.bookings, room.id, today, now);
      var status := if active.Some? then OccupiedUntil(active.value.end) else Available;
      if active.Some? {
        var j :| 0 <= j < |db.bookings| && db.bookings[j] == active.value;
      }
      list := list + [RoomView(room.id, room.number, room.capacity, room.kind, status)];
    }
  }

  // ---------------------------------------------------------------------------
  // room_details: live status and today's schedule of one room
  // ---------------------------------------------------------------------------

  /**
   * The loop of `room_details` over the rows: `occupied_now` ends as the end of the last
   * row holding the room at `now`, None when no row does.
   */
  method LastHoldingEnd(rows: seq<Booking>, now: int) returns (until: Option<int>)
    ensures until.None? <==> forall j :: 0 <= j < |rows| ==> !HoldsAt(rows[j], now)
    ensures until.Some? ==>
              exists i :: 0 <= i < |rows| && HoldsAt(rows[i], now) && rows[i].end == until.value
                          && forall j :: i < j < |rows| ==> !HoldsAt(rows[j], now)
  {
    until := None;
    ghost var last := 0;
    for i := 0 to |rows|
      invariant until.None? <==> forall j :: 0 <= j < i ==> !HoldsAt(rows[j], now)
      invariant until.Some? ==>
                  && 0 <= last < i && HoldsAt(rows[last], now) && rows[last].end == until.value
                  && forall j :: last < j < i ==> !HoldsAt(rows[j], now)
    {
      var b := rows[i];
      if b.start <= now < b.end {
        until := Some(b.end);
        last := i;
      }
    }
  }

  /**
   * `room_details`: the room (None for an unknown id), today's bookings of it in start
   * order, and the end of the last of them (in that order) that holds the room at `now`,
   * None when none does.
   */
  method RoomDetails(db: BookingStore, id: int, today: string, now: int)
    returns (room: Option<Room>, occupiedUntil: Option<int>, schedule: seq<Booking>)
    ensures room == GetRoom(db.rooms, id)
    ensures schedule == DayBookings(db.bookings, id, today)
    ensures occupiedUntil.None? <==> forall j :: 0 <= j < |db.bookings| ==> !ActiveAt(db.bookings[j], id, today, now)
    ensures occupiedUntil.Some? ==>
              exists i :: 0 <= i < |schedule| && ActiveAt(schedule[i], id, today, now)
                          && schedule[i].end == occupiedUntil.value
                          && forall j :: i < j < |schedule| ==> !ActiveAt(schedule[j], id, today, now)
  {
    room := GetRoom(db.rooms, id);
    schedule := DayBookings(db.bookings, id, today);
    occupiedUntil := LastHoldingEnd(schedule, now);
    forall j | 0 <= j < |schedule|
      ensures ActiveAt(schedule[j], id, today, now) <==> HoldsAt(schedule[j], now)
    {
      assert schedule[j] in schedule;
    }
    IdleDayIsIdleTable(db.bookings, id, today, now);
  }

  /** No booking of today's schedule holds the room at `now` iff none in the whole table does. */
  lemma IdleDayIsIdleTable(bookings: seq<Booking>, room: int, date: string, now: int)
    ensures (forall j :: 0 <= j < |DayBookings(bookings, room, date)| ==> !ActiveAt(DayBookings(bookings, room, date)[j], room, date, now))
            <==> (forall j :: 0 <= j < |bookings| ==> !ActiveAt(bookings[j], room, date, now))
  {
    var day := DayBookings(bookings, room, date);
    if exists j :: 0 <= j < |bookings| && ActiveAt(bookings[j], room, date, now) {
      var j :| 0 <= j < |bookings| && ActiveAt(bookings[j], room, date, now);
      assert bookings[j] in day;
    }
    if exists j :: 0 <= j < |day| && ActiveAt(day[j], room, date, now) {
      var j :| 0 <= j < |day| && ActiveAt(day[j], room, date, now);
      assert day[j] in bookings;
    }
  }

  // ---------------------------------------------------------------------------
  // filter_rooms
  // ---------------------------------------------------------------------------

  /** `SELECT * FROM rooms WHERE capacity >= ?`, in table order. */
  function CapacityAtLeast(rooms: seq<Room>, capacity: int): (r: seq<Room>)
    ensures forall x :: x in r <==> x in rooms && x.capacity >= capacity
  {
    if rooms == [] then []
    else
      var rest := CapacityAtLeast(rooms[1..], capacity);
      assert rooms == [rooms[0]] + rooms[1..];
      if rooms[0].capacity >= capacity then [rooms[0]] + rest else rest
  }

  /** The given rooms, in order, that have no booking on that date meeting [s, e). */
  function WithoutConflict(rooms: seq<Room>, bookings: seq<Booking>, date: string, s: int, e: int): (r: seq<Room>)
    ensures forall x :: x in r <==> x in rooms && !ConflictIn(bookings, x.id, date, s, e)
  {
    if rooms == [] then []
    else
      var init := rooms[..|rooms| - 1];
      var last := rooms[|rooms| - 1];
      var rest := WithoutConflict(init, bookings, date, s, e);
      assert rooms == init + [last];
      if ConflictIn(bookings, last.id, date, s, e) then rest else rest + [last]
  }

  /** idx picks, in increasing positions of rooms, the elements of r one by one. */
  predicate IsIndexMap(idx: seq<int>, r: seq<Room>, rooms: seq<Room>)
  {
    && |idx| == |r|
    && (forall k :: 0 <= k < |r| ==> 0 <= idx[k] < |rooms| && rooms[idx[k]] == r[k])
    && (forall k, l :: 0 <= k < l < |r| ==> idx[k] < idx[l])
  }

  /** r is rooms with some rows left out, the others kept in their order. */
  ghost predicate Subsequence(r: seq<Room>, rooms: seq<Room>)
  {
    exists idx :: IsIndexMap(idx, r, rooms)
  }

  /** Keeping the subsequences of a subsequence keeps the table order. */
  lemma SubsequenceTransitive(a: seq<Room>, b: seq<Room>, c: seq<Room>)
    requires Subsequence(a, b) && Subsequence(b, c)
    ensures Subsequence(a, c)
  {
    var f :| IsIndexMap(f, a, b);
    var g :| IsIndexMap(g, b, c);
    var h := seq(|a|, k requires 0 <= k < |a| => g[f[k]]);
    assert IsIndexMap(h, a, c);
  }

  /** Every position moved one place on. */
  function Shift(f: seq<int>): seq<int>
  {
    seq(|f|, k requires 0 <= k < |f| => f[k] + 1)
  }

  /** Positions in the tail, moved one place on, are positions in the whole. */
  lemma ShiftedMap(f: seq<int>, r: seq<Room>, x: Room, tail: seq<Room>)
    requires IsIndexMap(f, r, tail)
    ensures IsIndexMap(Shift(f), r, [x] + tail)
  {
    var whole := [x] + tail;
    forall k | 0 <= k < |r|
      ensures whole[Shift(f)[k]] == r[k]
    {
      assert whole[f[k] + 1] == tail[f[k]];
    }
  }

  /** A map that avoids position 0 extends with the first element at position 0. */
  lemma ConsMap(g: seq<int>, r: seq<Room>, whole: seq<Room>)
    requires IsIndexMap(g, r, whole) && whole != []
    requires forall k :: 0 <= k < |g| ==> g[k] > 0
    ensures IsIndexMap([0] + g, [whole[0]] + r, whole)
  {
    var h := [0] + g;
    var r' := [whole[0]] + r;
    assert forall k :: 0 < k < |h| ==> h[k] == g[k - 1] && r'[k] == r[k - 1];
  }

  /** A subsequence of the tail is one of the whole, with or without the head in front. */
  lemma SubsequenceOfTail(r: seq<Room>, x: Room, tail: seq<Room>)
    requires Subsequence(r, tail)
    ensures Subsequence(r, [x] + tail)
    ensures Subsequence([x] + r, [x] + tail)
  {
    var f :| IsIndexMap(f, r, tail);
    ShiftedMap(f, r, x, tail);
    ConsMap(Shift(f), r, [x] + tail);
    assert ([x] + tail)[0] == x;
  }

  /** The capacity query keeps the rooms' table order. */
  lemma {:induction false} CapacityAtLeastInOrder(rooms: seq<Room>, capacity: int)
    ensures Subsequence(CapacityAtLeast(rooms, capacity), rooms)
  {
    if rooms == [] {
      assert IsIndexMap([], CapacityAtLeast(rooms, capacity), rooms);
    } else {
      CapacityAtLeastInOrder(rooms[1..], capacity);
      SubsequenceOfTail(CapacityAtLeast(rooms[1..], capacity), rooms[0], rooms[1..]);
      assert rooms == [rooms[0]] + rooms[1..];
    }
  }

  /** Dropping the conflicting rooms keeps the order of the rest. */
  lemma {:induction false} WithoutConflictInOrder(rooms: seq<Room>, bookings: seq<Booking>, date: string, s: int, e: int)
    ensures Subsequence(WithoutConflict(rooms, bookings, date, s, e), rooms)
  {
    var r := WithoutConflict(rooms, bookings, date, s, e);
    if rooms == [] {
      assert IsIndexMap([], r, rooms);
    } else {
      var init := rooms[..|rooms| - 1];
      WithoutConflictInOrder(init, bookings, date, s, e);
      var rest := WithoutConflict(init, bookings, date, s, e);
      var f :| IsIndexMap(f, rest, init);
      if ConflictIn(bookings, rooms[|rooms| - 1].id, date, s, e) {
        assert IsIndexMap(f, r, rooms);
      } else {
        assert IsIndexMap(f + [|rooms| - 1], r, rooms);
      }
    }
  }

  /**
   * `filter_rooms`: the rooms with at least that capacity and no booking on that date
   * meeting [start, end), in the rooms' table order.
   */
  method FilterRooms(db: BookingStore, date: string, start: int, end: int, capacity: int) returns (available: seq<Room>)
    ensures available == WithoutConflict(CapacityAtLeast(db.rooms, capacity), db.bookings, date, start, end)
    ensures forall x :: x in available <==>
              x in db.rooms && x.capacity >= capacity && !ConflictIn(db.bookings, x.id, date, start, end)
    ensures Subsequence(available, db.rooms)
  {
    var candidates := CapacityAtLeast(db.rooms, capacity);
    available := [];
    for i := 0 to |candidates|
      invariant available == WithoutConflict(candidates[..i], db.bookings, date, start, end)
    {
      var room := candidates[i];
      assert candidates[..i + 1][..i] == candidates[..i];
      if !ConflictIn(db.bookings, room.id, date, start, end) {
        available := available + [room];
      }
    }
    assert candidates[..|candidates|] == candidates;
    CapacityAtLeastInOrder(db.rooms, capacity);
    WithoutConflictInOrder(candidates, db.bookings, date, start, end);
    SubsequenceTransitive(available, candidates, db.rooms);
  }

  // ---------------------------------------------------------------------------
  // history
  // ---------------------------------------------------------------------------

  /**
   * `history`: no rows without an email; otherwise that email's bookings whose room
   * exists, with room numbers, newest date first and by start time within a date.
   */
  function History(bookings: seq<Booking>, rooms: seq<Room>, email: string): (r: Option<seq<HistoryRow>>)
    ensures r.None? <==> email == ""
    ensures r.Some? ==> SortedBy(RowBookings(r.value), ByDateThenStart(true))
    ensures r.Some? ==> multiset(RowBookings(r.value)) == multiset(Owned(bookings, rooms, email))
  {
    if email == "" then None else Some(JoinedHistory(bookings, rooms, email, ByDateThenStart(true)))
  }
}
