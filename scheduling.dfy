/**
 * The booking rules of `submit_booking` (app.py): validation of the requested times, the
 * conflict query, and the sweep that proposes the next free slot of the same length.
 */
module Scheduling {
  import opened Rows
  import opened Clock
  import opened Store

  /** Longest booking accepted: 6 hours. */
  const MaxDuration: int := 6 * 60

  /** Why a request is refused before the conflict check. */
  datatype Rejection =
    | EndNotAfterStart // "End time must be after start time."
    | MalformedTime    // strptime raises: the request fails without a booking
    | InvalidRange     // "Invalid time range."
    | TooLong          // "You cannot book more than 6 hours."

  datatype Validation = Accepted(startMin: int, endMin: int) | Refused(reason: Rejection)

  /**
   * The checks of `submit_booking` in their order: the string comparison `end <= start`,
   * parsing both texts, then the duration (taken as the exact minute difference).
   */
  function Validate(start: string, end: string): (r: Validation)
    ensures r.Accepted? <==> && ParseTime(start).Some? && ParseTime(end).Some?
                             && 0 < ParseTime(end).value - ParseTime(start).value <= MaxDuration
    ensures r.Accepted? ==> r.startMin == ParseTime(start).value && r.endMin == ParseTime(end).value
    ensures ParseTime(start).Some? && ParseTime(end).Some? && ParseTime(end).value <= ParseTime(start).value
            ==> r == Refused(EndNotAfterStart)
    ensures ParseTime(start).Some? && ParseTime(end).Some? && ParseTime(end).value - ParseTime(start).value > MaxDuration
            ==> r == Refused(TooLong)
    ensures r != Refused(InvalidRange)
  {
    if LexLe(end, start) then
      if ParseTime(start).Some? && ParseTime(end).Some? then
        LexLeMatchesMinutes(end, start);
        Refused(EndNotAfterStart)
      else Refused(EndNotAfterStart)
    else
      match ParseTime(start)
      case None => Refused(MalformedTime)
      case Some(s) =>
        match ParseTime(end)
        case None => Refused(MalformedTime)
        case Some(e) =>
          LexLeMatchesMinutes(end, start);
          if e - s <= 0 then Refused(InvalidRange)
          else if e - s > MaxDuration then Refused(TooLong)
          else Accepted(s, e)
  }

  /** Exactly six hours passes validation; one minute more does not; an empty range never does. */
  lemma DurationBoundary(start: string, end: string)
    requires ParseTime(start).Some? && ParseTime(end).Some?
    ensures ParseTime(end).value - ParseTime(start).value == 360 ==> Validate(start, end).Accepted?
    ensures ParseTime(end).value - ParseTime(start).value == 361 ==> Validate(start, end) == Refused(TooLong)
    ensures start == end ==> Validate(start, end) == Refused(EndNotAfterStart)
  {
  }

  // ---------------------------------------------------------------------------
  // The conflict query
  // ---------------------------------------------------------------------------

  /**
   * `SELECT * FROM bookings WHERE room_id=? AND date=? AND NOT (end_time <= ? OR start_time >= ?)`
   * followed by `fetchone`: some booking of that room and date meets [s, e).
   */
  function ConflictIn(bookings: seq<Booking>, room: int, date: string, s: int, e: int): (r: bool)
    ensures r <==> exists i :: 0 <= i < |bookings| && bookings[i].roomId == room && bookings[i].date == date
                                 && Intersects(bookings[i], s, e)
  {
    if bookings == [] then false
    else
      var b := bookings[0];
      var rest := ConflictIn(bookings[1..], room, date, s, e);
      assert forall i :: 1 <= i < |bookings| ==> bookings[i] == bookings[1..][i - 1];
      (b.roomId == room && b.date == date && Intersects(b, s, e)) || rest
  }

  /** Back-to-back bookings do not conflict: a booking ending at s never meets [s, e). */
  lemma TouchingIsNoConflict(bookings: seq<Booking>, room: int, date: string, s: int, e: int)
    requires forall i :: 0 <= i < |bookings| ==> bookings[i].end <= s || bookings[i].start >= e
    ensures !ConflictIn(bookings, room, date, s, e)
  {
  }

  // ---------------------------------------------------------------------------
  // The day's bookings and the slot sweep
  // ---------------------------------------------------------------------------

  /** `WHERE room_id=? AND date=?`, in table order. */
  function OfRoomDay(bookings: seq<Booking>, room: int, date: string): (r: seq<Booking>)
    ensures forall b :: b in r <==> b in bookings && b.roomId == room && b.date == date
    ensures forall b :: multiset(r)[b] == if b.roomId == room && b.date == date then multiset(bookings)[b] else 0
  {
    if bookings == [] then []
    else
      var b := bookings[0];
      var rest := OfRoomDay(bookings[1..], room, date);
      assert bookings == [b] + bookings[1..];
      if b.roomId == room && b.date == date then [b] + rest else rest
  }

  /** The day's bookings of a room `ORDER BY start_time`. */
  function DayBookings(bookings: seq<Booking>, room: int, date: string): (r: seq<Booking>)
    ensures SortedBy(r, ByStart)
    ensures forall b :: b in r <==> b in bookings && b.roomId == room && b.date == date
    ensures multiset(r) == multiset(OfRoomDay(bookings, room, date))
  {
    SortBookingsCorrect(OfRoomDay(bookings, room, date), ByStart);
    var r := SortBookings(OfRoomDay(bookings, room, date), ByStart);
    assert forall b :: b in r <==> b in multiset(r);
    r
  }

  /** [t, t + len) meets none of the given bookings. */
  predicate FreeWindow(day: seq<Booking>, t: int, len: int)
  {
    forall j :: 0 <= j < |day| ==> !Intersects(day[j], t, t + len)
  }

  /** The conflict query lets the slot [t, t + len) of that room and date through. */
  predicate SlotFree(bookings: seq<Booking>, room: int, date: string, t: int, len: int)
  {
    !ConflictIn(bookings, room, date, t, t + len)
  }

  /** A window is free among the day's bookings exactly when the conflict query finds nothing. */
  lemma FreeWindowIsNoConflict(bookings: seq<Booking>, room: int, date: string, t: int, len: int)
    ensures FreeWindow(DayBookings(bookings, room, date), t, len) <==> SlotFree(bookings, room, date, t, len)
  {
    var day := DayBookings(bookings, room, date);
    if !FreeWindow(day, t, len) {
      var j :| 0 <= j < |day| && Intersects(day[j], t, t + len);
      assert day[j] in day;
    }
    if ConflictIn(bookings, room, date, t, t + len) {
      var i :| 0 <= i < |bookings| && bookings[i].roomId == room && bookings[i].date == date
               && Intersects(bookings[i], t, t + len);
      assert bookings[i] in bookings;
      assert bookings[i] in day;
    }
  }

  /**
   * The sweep of `submit_booking`: a cursor starts at the requested start; before each
   * booking (in start order) it stops if the requested length fits, otherwise it moves
   * past the booking's end. The result has the requested length, starts no earlier than
   * requested, is free, and no earlier start from the requested one on is free.
   */
  method SuggestSlot(day: seq<Booking>, start: int, req: nat) returns (s: int, e: int)
    requires SortedBy(day, ByStart)
    ensures e - s == req && s >= start
    ensures FreeWindow(day, s, req)
    ensures forall t :: start <= t < s ==> !FreeWindow(day, t, req)
  {
    var cursor := start;
    for i := 0 to |day|
      invariant start <= cursor
      invariant forall j :: 0 <= j < i ==> day[j].end <= cursor
      invariant forall t :: start <= t < cursor ==> !FreeWindow(day, t, req)
    {
      var b := day[i];
      if cursor + req <= b.start {
        forall j | i <= j < |day| ensures b.start <= day[j].start {
          if j > i { assert Before(day[i], day[j], ByStart); }
        }
        return cursor, cursor + req;
      }
      if cursor < b.end {
        forall t | cursor <= t < b.end ensures !FreeWindow(day, t, req) {
          assert Intersects(day[i], t, t + req);
        }
        cursor := b.end;
      }
    }
    return cursor, cursor + req;
  }

  /** No start t with from <= t < s gives a slot of length len that the conflict query lets through. */
  predicate NoFreeStartBefore(bookings: seq<Booking>, room: int, date: string, from: int, s: int, len: int)
  {
    forall t :: from <= t < s ==> !SlotFree(bookings, room, date, t, len)
  }

  /**
   * What the sweep's result means for the table: the conflict query lets the suggested
   * slot through, blocks every earlier start from the requested one on, and (since it
   * blocked the request itself) the suggestion is strictly later than requested.
   */
  lemma EarliestFreeSlot(bookings: seq<Booking>, room: int, date: string, from: int, s: int, len: int)
    requires FreeWindow(DayBookings(bookings, room, date), s, len)
    requires forall t :: from <= t < s ==> !FreeWindow(DayBookings(bookings, room, date), t, len)
    requires s >= from && !SlotFree(bookings, room, date, from, len)
    ensures SlotFree(bookings, room, date, s, len)
    ensures NoFreeStartBefore(bookings, room, date, from, s, len)
    ensures s > from
  {
    FreeWindowIsNoConflict(bookings, room, date, s, len);
    FreeWindowIsNoConflict(bookings, room, date, from, len);
    forall t | from <= t < s ensures !SlotFree(bookings, room, date, t, len) {
      FreeWindowIsNoConflict(bookings, room, date, t, len);
    }
  }

  // ---------------------------------------------------------------------------
  // No double booking
  // ---------------------------------------------------------------------------

  /** No two bookings of the same room and date meet. */
  predicate NoDoubleBooking(bookings: seq<Booking>)
  {
    forall i, j :: 0 <= i < j < |bookings| && bookings[i].roomId == bookings[j].roomId && bookings[i].date == bookings[j].date
                   ==> !Intersects(bookings[i], bookings[j].start, bookings[j].end)
  }

  /** Inserting only what the conflict query lets through keeps the bookings of each room and day apart. */
  lemma InsertKeepsNoDoubleBooking(bookings: seq<Booking>, b: Booking)
    requires NoDoubleBooking(bookings)
    requires !ConflictIn(bookings, b.roomId, b.date, b.start, b.end)
    ensures NoDoubleBooking(bookings + [b])
  {
    var r := bookings + [b];
    forall i, j | 0 <= i < j < |r| && r[i].roomId == r[j].roomId && r[i].date == r[j].date
      ensures !Intersects(r[i], r[j].start, r[j].end)
    {
      if j == |bookings| {
        assert r[i] == bookings[i];
      }
    }
  }

  /** A booking that meets none of its room and day's bookings may be put in front. */
  lemma PrependKeepsNoDoubleBooking(b: Booking, rest: seq<Booking>)
    requires NoDoubleBooking(rest)
    requires forall x: Booking :: x in multiset(rest) && x.roomId == b.roomId && x.date == b.date ==> !Intersects(b, x.start, x.end)
    ensures NoDoubleBooking([b] + rest)
  {
    var r := [b] + rest;
    forall i, j | 0 <= i < j < |r| && r[i].roomId == r[j].roomId && r[i].date == r[j].date
      ensures !Intersects(r[i], r[j].start, r[j].end)
    {
      assert r[j] == rest[j - 1];
      if i > 0 {
        assert r[i] == rest[i - 1];
      } else {
        assert rest[j - 1] in multiset(rest);
      }
    }
  }

  /** Deleting bookings keeps the bookings of each room and day apart. */
  lemma {:induction false} RemoveKeepsNoDoubleBooking(bookings: seq<Booking>, id: int)
    requires NoDoubleBooking(bookings)
    ensures NoDoubleBooking(RemoveId(bookings, id))
  {
    if bookings != [] {
      var b := bookings[0];
      var tail := bookings[1..];
      assert NoDoubleBooking(tail) by {
        forall i, j | 0 <= i < j < |tail| && tail[i].roomId == tail[j].roomId && tail[i].date == tail[j].date
          ensures !Intersects(tail[i], tail[j].start, tail[j].end)
        {
          assert tail[i] == bookings[i + 1] && tail[j] == bookings[j + 1];
        }
      }
      RemoveKeepsNoDoubleBooking(tail, id);
      var rest := RemoveId(tail, id);
      if b.id != id {
        forall x: Booking | x in multiset(rest) && x.roomId == b.roomId && x.date == b.date
          ensures !Intersects(b, x.start, x.end)
        {
          var k :| 0 <= k < |tail| && tail[k] == x;
          assert bookings[k + 1] == x;
        }
        PrependKeepsNoDoubleBooking(b, rest);
      }
    }
  }
}
