/**
 * The bookings database (database.py) held in memory: the `rooms` and `bookings` tables
 * as sequences of records in table order, the two statements that change the bookings
 * table (`create_booking`, `cancel_booking`) as methods of BookingStore, and the
 * read-only queries (`get_room`, `get_bookings`, `get_active_booking`,
 * `booking_overlap`) as functions over those sequences.
 *
 * Times are minutes of the day. The table stores zero-padded "HH:MM" texts and compares
 * them as strings; Clock.LexOrderMatchesMinutes shows the two orders are the same, and
 * Clock.ParseRoundTrip that the minute value loses nothing of the text.
 */
module Store {
  import opened Rows
  import opened Clock

  /** A row of the `rooms` table. */
  datatype Room = Room(id: int, number: string, capacity: int, kind: string, status: string)

  /** A row of the `bookings` table; [start, end) in minutes of the day. */
  datatype Booking = Booking(id: int, email: string, roomId: int, date: string, start: int, end: int)

  /** A row of the history query: the booking joined with its room's number. */
  datatype HistoryRow = HistoryRow(booking: Booking, roomNumber: string)

  /**
   * The application's overlap rule `NOT (end_time <= s OR start_time >= e)`: the booking
   * [start, end) and the window [s, e) share a minute. Touching endpoints do not.
   */
  predicate Intersects(b: Booking, s: int, e: int)
  {
    !(b.end <= s || b.start >= e)
  }

  // ---------------------------------------------------------------------------
  // get_room
  // ---------------------------------------------------------------------------

  /** `SELECT * FROM rooms WHERE id = ?` with `fetchone`: the first room with that id. */
  function GetRoom(rooms: seq<Room>, id: int): (r: Option<Room>)
    ensures r.None? <==> forall i :: 0 <= i < |rooms| ==> rooms[i].id != id
    ensures r.Some? ==> r.value in rooms && r.value.id == id
  {
    FetchOne(rooms, (room: Room) => room.id == id)
  }

  predicate UniqueRoomIds(rooms: seq<Room>)
  {
    forall i, j :: 0 <= i < |rooms| && 0 <= j < |rooms| && rooms[i].id == rooms[j].id ==> i == j
  }

  /** The id column is the primary key, so the room found is the one room with that id. */
  lemma GetRoomIsTheRoom(rooms: seq<Room>, k: nat)
    requires UniqueRoomIds(rooms) && k < |rooms|
    ensures GetRoom(rooms, rooms[k].id) == Some(rooms[k])
  {
    var r := GetRoom(rooms, rooms[k].id);
    var j :| 0 <= j < |rooms| && rooms[j] == r.value;
  }

  // ---------------------------------------------------------------------------
  // booking_overlap
  // ---------------------------------------------------------------------------

  /**
   * `booking_overlap`: some booking with this email on this date has
   * `start_time < end AND end_time > start`, which is the same as the application's rule.
   */
  function BookingOverlap(bookings: seq<Booking>, email: string, date: string, s: int, e: int): (r: bool)
    ensures r <==> exists i :: 0 <= i < |bookings| && bookings[i].email == email && bookings[i].date == date
                                 && bookings[i].start < e && bookings[i].end > s
    ensures r <==> exists i :: 0 <= i < |bookings| && bookings[i].email == email && bookings[i].date == date
                                 && Intersects(bookings[i], s, e)
  {
    if bookings == [] then false
    else
      var b := bookings[0];
      var rest := BookingOverlap(bookings[1..], email, date, s, e);
      assert forall i :: 1 <= i < |bookings| ==> bookings[i] == bookings[1..][i - 1];
      (b.email == email && b.date == date && b.start < e && b.end > s) || rest
  }

  // ---------------------------------------------------------------------------
  // get_active_booking
  // ---------------------------------------------------------------------------

  /** The booking holds its room at minute `now`: start <= now < end. */
  predicate HoldsAt(b: Booking, now: int)
  {
    b.start <= now < b.end
  }

  /** The booking occupies the room on that date at minute `now`. */
  predicate ActiveAt(b: Booking, room: int, date: string, now: int)
  {
    b.roomId == room && b.date == date && HoldsAt(b, now)
  }

  /**
   * `get_active_booking`: among the bookings of that room and date with
   * `start_time <= now AND end_time > now`, one with the greatest end (`ORDER BY end_time
   * DESC`, first row); None when there is none.
   */
  function ActiveBooking(bookings: seq<Booking>, room: int, date: string, now: int): (r: Option<Booking>)
    ensures r.None? <==> forall i :: 0 <= i < |bookings| ==> !ActiveAt(bookings[i], room, date, now)
    ensures r.Some? ==> r.value in bookings && ActiveAt(r.value, room, date, now)
    ensures r.Some? ==> forall i :: 0 <= i < |bookings| && ActiveAt(bookings[i], room, date, now) ==> bookings[i].end <= r.value.end
  {
    if bookings == [] then None
    else
      var b := bookings[0];
      var rest := ActiveBooking(bookings[1..], room, date, now);
      assert forall i :: 1 <= i < |bookings| ==> bookings[i] == bookings[1..][i - 1];
      if !ActiveAt(b, room, date, now) then rest
      else if rest.Some? && rest.value.end > b.end then rest
      else Some(b)
  }

  // ---------------------------------------------------------------------------
  // Ordering of query results
  // ---------------------------------------------------------------------------

  /** The ORDER BY clauses the queries use. */
  datatype Order =
    | ByStart                               // ORDER BY start_time
    | ByDateThenStart(dateDescending: bool) // ORDER BY date [DESC], start_time

  /** a may come before b in the given order. */
  predicate Before(a: Booking, b: Booking, o: Order)
  {
    match o
    case ByStart => a.start <= b.start
    case ByDateThenStart(desc) =>
      if a.date == b.date then a.start <= b.start
      else if desc then LexLess(b.date, a.date)
      else LexLess(a.date, b.date)
  }

  lemma BeforeTotal(a: Booking, b: Booking, o: Order)
    ensures Before(a, b, o) || Before(b, a, o)
  {
    if a.date != b.date {
      LexTotal(a.date, b.date);
    }
  }

  lemma BeforeTransitive(a: Booking, b: Booking, c: Booking, o: Order)
    requires Before(a, b, o) && Before(b, c, o)
    ensures Before(a, c, o)
  {
    if o.ByDateThenStart? {
      if a.date != b.date && b.date != c.date {
        if o.dateDescending {
          LexTransitive(c.date, b.date, a.date);
          LexIrreflexive(a.date);
        } else {
          LexTransitive(a.date, b.date, c.date);
          LexIrreflexive(a.date);
        }
      }
    }
  }

  predicate SortedBy(s: seq<Booking>, o: Order)
  {
    forall i, j :: 0 <= i < j < |s| ==> Before(s[i], s[j], o)
  }

  /** Inserts x before the first element it may precede. */
  function InsertSorted(x: Booking, s: seq<Booking>, o: Order): seq<Booking>
  {
    if s == [] then [x]
    else if Before(x, s[0], o) then [x] + s
    else [s[0]] + InsertSorted(x, s[1..], o)
  }

  /** The rows of s in the given order (the database's ORDER BY; ties keep table order). */
  function SortBookings(s: seq<Booking>, o: Order): seq<Booking>
  {
    if s == [] then [] else InsertSorted(s[0], SortBookings(s[1..], o), o)
  }

  /** Putting x in front of a sorted sequence it may precede keeps it sorted. */
  lemma PrependSorted(x: Booking, s: seq<Booking>, o: Order)
    requires SortedBy(s, o) && s != [] && Before(x, s[0], o)
    ensures SortedBy([x] + s, o)
  {
    var r := [x] + s;
    forall i, j | 0 <= i < j < |r| ensures Before(r[i], r[j], o) {
      if i == 0 && j > 1 {
        BeforeTransitive(x, s[0], s[j - 1], o);
      }
    }
  }

  /** Putting y in front of a sorted sequence of elements it precedes keeps it sorted. */
  lemma PrependLeast(y: Booking, rest: seq<Booking>, o: Order)
    requires SortedBy(rest, o)
    requires forall z :: z in multiset(rest) ==> Before(y, z, o)
    ensures SortedBy([y] + rest, o)
  {
    var r := [y] + rest;
    forall i, j | 0 <= i < j < |r| ensures Before(r[i], r[j], o) {
      if i == 0 {
        assert r[j] == rest[j - 1] && rest[j - 1] in multiset(rest);
      } else {
        assert r[i] == rest[i - 1] && r[j] == rest[j - 1];
      }
    }
  }

  /** The rows after the head of a sorted sequence are sorted, and the head precedes them all. */
  lemma SortedTail(s: seq<Booking>, o: Order)
    requires SortedBy(s, o) && s != []
    ensures SortedBy(s[1..], o)
    ensures forall z :: z in multiset(s[1..]) ==> Before(s[0], z, o)
  {
    var tail := s[1..];
    forall i, j | 0 <= i < j < |tail| ensures Before(tail[i], tail[j], o) {
      assert tail[i] == s[i + 1] && tail[j] == s[j + 1];
    }
    forall z | z in multiset(tail) ensures Before(s[0], z, o) {
      var k :| 0 <= k < |tail| && tail[k] == z;
      assert s[k + 1] == z;
    }
  }

  lemma {:induction false} InsertSortedCorrect(x: Booking, s: seq<Booking>, o: Order)
    requires SortedBy(s, o)
    ensures SortedBy(InsertSorted(x, s, o), o)
    ensures multiset(InsertSorted(x, s, o)) == multiset(s) + multiset{x}
  {
    if s == [] {
    } else if Before(x, s[0], o) {
      PrependSorted(x, s, o);
    } else {
      BeforeTotal(x, s[0], o);
      var tail := s[1..];
      assert s == [s[0]] + tail;
      SortedTail(s, o);
      InsertSortedCorrect(x, tail, o);
      var rest := InsertSorted(x, tail, o);
      assert forall z :: z in multiset(rest) ==> z == x || z in multiset(tail);
      PrependLeast(s[0], rest, o);
    }
  }

  /** The sorted result is ordered and holds exactly the rows it was given. */
  lemma {:induction false} SortBookingsCorrect(s: seq<Booking>, o: Order)
    ensures SortedBy(SortBookings(s, o), o)
    ensures multiset(SortBookings(s, o)) == multiset(s)
  {
    if s != [] {
      SortBookingsCorrect(s[1..], o);
      InsertSortedCorrect(s[0], SortBookings(s[1..], o), o);
      assert s == [s[0]] + s[1..];
    }
  }

  // ---------------------------------------------------------------------------
  // get_bookings
  // ---------------------------------------------------------------------------

  /**
   * `WHERE email = ?` over `bookings JOIN rooms ON rooms.id = bookings.room_id`: the
   * bookings of that email whose room still exists, in table order.
   */
  function Owned(bookings: seq<Booking>, rooms: seq<Room>, email: string): (r: seq<Booking>)
    ensures forall b :: b in r <==> b in bookings && b.email == email && GetRoom(rooms, b.roomId).Some?
    ensures forall b :: multiset(r)[b] == if b.email == email && GetRoom(rooms, b.roomId).Some? then multiset(bookings)[b] else 0
  {
    if bookings == [] then []
    else
      var b := bookings[0];
      var rest := Owned(bookings[1..], rooms, email);
      assert bookings == [b] + bookings[1..];
      if b.email == email && GetRoom(rooms, b.roomId).Some? then [b] + rest else rest
  }

  /** When every booking is that email's and its room exists, the join keeps them all. */
  lemma {:induction false} OwnedKeepsAll(bookings: seq<Booking>, rooms: seq<Room>, email: string)
    requires forall i :: 0 <= i < |bookings| ==> bookings[i].email == email && GetRoom(rooms, bookings[i].roomId).Some?
    ensures Owned(bookings, rooms, email) == bookings
  {
    if bookings != [] {
      OwnedKeepsAll(bookings[1..], rooms, email);
      assert bookings == [bookings[0]] + bookings[1..];
    }
  }

  /** The room number the join attaches to a booking. */
  function RoomNumberOf(rooms: seq<Room>, id: int): string
  {
    match GetRoom(rooms, id)
    case Some(room) => room.number
    case None => ""
  }

  /** The bookings of the joined rows, one per row. */
  function RowBookings(rows: seq<HistoryRow>): seq<Booking>
  {
    seq(|rows|, i requires 0 <= i < |rows| => rows[i].booking)
  }

  /** Each booking of `sorted` with its room's number attached, in order. */
  function WithRoomNumbers(sorted: seq<Booking>, rooms: seq<Room>): seq<HistoryRow>
  {
    seq(|sorted|, i requires 0 <= i < |sorted| => HistoryRow(sorted[i], RoomNumberOf(rooms, sorted[i].roomId)))
  }

  /** The joined rows carry the given bookings in order, each with its room's number. */
  lemma WithRoomNumbersRows(sorted: seq<Booking>, rooms: seq<Room>)
    ensures RowBookings(WithRoomNumbers(sorted, rooms)) == sorted
    ensures forall i :: 0 <= i < |sorted| ==>
              WithRoomNumbers(sorted, rooms)[i] == HistoryRow(sorted[i], RoomNumberOf(rooms, sorted[i].roomId))
  {
  }

  /** Every row of the sorted join is a booking of that email whose room exists. */
  lemma SortedOwnedRows(bookings: seq<Booking>, rooms: seq<Room>, email: string, o: Order)
    requires o.ByDateThenStart?
    ensures forall i :: 0 <= i < |SortBookings(Owned(bookings, rooms, email), o)| ==>
              var b := SortBookings(Owned(bookings, rooms, email), o)[i];
              b in bookings && b.email == email && GetRoom(rooms, b.roomId).Some?
  {
    var owned := Owned(bookings, rooms, email);
    var sorted := SortBookings(owned, o);
    SortBookingsCorrect(owned, o);
    forall i | 0 <= i < |sorted| ensures sorted[i] in owned {
      assert sorted[i] in multiset(owned);
    }
  }

  /** The rows of the history join for one email, in the given order. */
  function JoinedHistory(bookings: seq<Booking>, rooms: seq<Room>, email: string, o: Order): (r: seq<HistoryRow>)
    requires o.ByDateThenStart?
    ensures SortedBy(RowBookings(r), o)
    ensures multiset(RowBookings(r)) == multiset(Owned(bookings, rooms, email))
    ensures forall i :: 0 <= i < |r| ==>
              && r[i].booking in bookings && r[i].booking.email == email
              && GetRoom(rooms, r[i].booking.roomId).Some?
              && r[i].roomNumber == GetRoom(rooms, r[i].booking.roomId).value.number
  {
    var owned := Owned(bookings, rooms, email);
    var sorted := SortBookings(owned, o);
    var r := WithRoomNumbers(sorted, rooms);
    WithRoomNumbersRows(sorted, rooms);
    SortBookingsCorrect(owned, o);
    SortedOwnedRows(bookings, rooms, email, o);
    r
  }

  /**
   * `get_bookings(email)`: exactly that email's bookings (whose room exists), each with
   * its room number, ascending by (date, start_time).
   */
  function GetBookings(bookings: seq<Booking>, rooms: seq<Room>, email: string): (r: seq<HistoryRow>)
    ensures SortedBy(RowBookings(r), ByDateThenStart(false))
    ensures multiset(RowBookings(r)) == multiset(Owned(bookings, rooms, email))
  {
    JoinedHistory(bookings, rooms, email, ByDateThenStart(false))
  }

  // ---------------------------------------------------------------------------
  // Removing by id (DELETE FROM bookings WHERE id = ?)
  // ---------------------------------------------------------------------------

  /** The table after `DELETE ... WHERE id = ?`: every other row, in order. */
  function RemoveId(bookings: seq<Booking>, id: int): (r: seq<Booking>)
    ensures forall b :: multiset(r)[b] == if b.id == id then 0 else multiset(bookings)[b]
    ensures forall b :: b in r ==> b in bookings
    ensures (forall i :: 0 <= i < |bookings| ==> bookings[i].id != id) ==> r == bookings
  {
    if bookings == [] then []
    else
      var rest := RemoveId(bookings[1..], id);
      assert bookings == [bookings[0]] + bookings[1..];
      if bookings[0].id == id then rest else [bookings[0]] + rest
  }

  predicate UniqueBookingIds(bookings: seq<Booking>)
  {
    forall i, j :: 0 <= i < |bookings| && 0 <= j < |bookings| && bookings[i].id == bookings[j].id ==> i == j
  }

  /** The rows after the first of a table with unique ids still have unique ids. */
  lemma UniqueTail(bookings: seq<Booking>)
    requires bookings != [] && UniqueBookingIds(bookings)
    ensures UniqueBookingIds(bookings[1..])
  {
    var tail := bookings[1..];
    forall i, j | 0 <= i < |tail| && 0 <= j < |tail| && tail[i].id == tail[j].id ensures i == j {
      assert bookings[i + 1] == tail[i] && bookings[j + 1] == tail[j];
    }
  }

  /** A row whose id no row of a unique-id table has keeps the ids unique in front of it. */
  lemma UniqueCons(b: Booking, rest: seq<Booking>)
    requires UniqueBookingIds(rest)
    requires forall j :: 0 <= j < |rest| ==> rest[j].id != b.id
    ensures UniqueBookingIds([b] + rest)
  {
    var r := [b] + rest;
    forall i, j | 0 <= i < |r| && 0 <= j < |r| && r[i].id == r[j].id ensures i == j {
      if i > 0 && j > 0 {
        assert r[i] == rest[i - 1] && r[j] == rest[j - 1];
      }
    }
  }

  lemma {:induction false} RemoveIdKeepsUnique(bookings: seq<Booking>, id: int)
    requires UniqueBookingIds(bookings)
    ensures UniqueBookingIds(RemoveId(bookings, id))
  {
    if bookings != [] {
      var tail := bookings[1..];
      UniqueTail(bookings);
      RemoveIdKeepsUnique(tail, id);
      var rest := RemoveId(tail, id);
      if bookings[0].id != id {
        forall j | 0 <= j < |rest| ensures rest[j].id != bookings[0].id {
          assert rest[j] in rest;
          var k :| 0 <= k < |tail| && tail[k] == rest[j];
          assert bookings[k + 1] == tail[k];
        }
        UniqueCons(bookings[0], rest);
      }
    }
  }

  /** With unique ids, cancelling an id that is present removes exactly one row. */
  lemma {:induction false} RemoveIdRemovesOne(bookings: seq<Booking>, k: nat)
    requires UniqueBookingIds(bookings) && k < |bookings|
    ensures |RemoveId(bookings, bookings[k].id)| == |bookings| - 1
  {
    var id := bookings[k].id;
    var r := RemoveId(bookings, id);
    if k == 0 {
      forall i | 0 <= i < |bookings[1..]| ensures bookings[1..][i].id != id {
        assert bookings[1..][i] == bookings[i + 1];
      }
    } else {
      var tail := bookings[1..];
      UniqueTail(bookings);
      assert tail[k - 1] == bookings[k];
      RemoveIdRemovesOne(tail, k - 1);
    }
  }

  // ---------------------------------------------------------------------------
  // The tables
  // ---------------------------------------------------------------------------

  /** The two tables of the rooms database and the next AUTOINCREMENT booking id. */
  class BookingStore {
    var rooms: seq<Room>
    var bookings: seq<Booking>
    var nextId: int

    /** Primary keys are unique, and every booking id was handed out before nextId. */
    ghost predicate Valid()
      reads this
    {
      && UniqueRoomIds(rooms)
      && UniqueBookingIds(bookings)
      && (forall i :: 0 <= i < |bookings| ==> bookings[i].id < nextId)
    }

    /** A freshly initialised database with the given rooms and no bookings. */
    constructor (seedRooms: seq<Room>)
      requires UniqueRoomIds(seedRooms)
      ensures Valid() && rooms == seedRooms && bookings == []
    {
      rooms := seedRooms;
      bookings := [];
      nextId := 1;
    }

    /**
     * `create_booking`: INSERT one row with the given fields under a new id; every
     * existing row is kept, in order, and the rooms are untouched.
     */
    method CreateBooking(email: string, roomId: int, date: string, start: int, end: int) returns (id: int)
      requires Valid()
      modifies this
      ensures Valid() && rooms == old(rooms)
      ensures bookings == old(bookings) + [Booking(id, email, roomId, date, start, end)]
      ensures forall i :: 0 <= i < |old(bookings)| ==> old(bookings)[i].id != id
    {
      id := nextId;
      bookings := bookings + [Booking(id, email, roomId, date, start, end)];
      nextId := nextId + 1;
    }

    /**
     * `cancel_booking`: DELETE every row with that id and no other; when no row has it the
     * table is unchanged.
     */
    method CancelBooking(id: int)
      requires Valid()
      modifies this
      ensures Valid() && rooms == old(rooms) && nextId == old(nextId)
      ensures bookings == RemoveId(old(bookings), id)
      ensures (forall i :: 0 <= i < |old(bookings)| ==> old(bookings)[i].id != id) ==> bookings == old(bookings)
    {
      RemoveIdKeepsUnique(bookings, id);
      bookings := RemoveId(bookings, id);
      forall i | 0 <= i < |bookings| ensures bookings[i].id < nextId {
        assert bookings[i] in multiset(bookings);
      }
    }
  }
}
