/**
 * End-to-end runs of the handlers on small databases, stated as what the handlers'
 * contracts force the answer to be.
 */
module Scenarios {
  import opened Rows
  import opened Clock
  import opened Store
  import opened Scheduling
  import opened Routes
  import opened StaffAccess

  /**
   * Room 101 holds 10:00-11:00 on 2024-01-01; asking for 10:30-11:30 there is answered
   * with a conflict whose suggestion is 11:00-12:00.
   */
  method NextSlotAfterOverlap() returns (first: SubmitOutcome, second: SubmitOutcome)
    ensures first.Booked?
    ensures second.Conflict? && second.suggestedStart == 11 * 60 && second.suggestedEnd == 12 * 60
  {
    var db := new BookingStore([Room(1, "101", 4, "Study", "Available")]);
    SampleTimes();
    first := SubmitBooking(db, "a@example.com", 1, "2024-01-01", "10:00", "11:00");
    var b := Booking(first.id, "a@example.com", 1, "2024-01-01", 600, 660);
    assert db.bookings == [b];
    assert Intersects(db.bookings[0], 630, 690);
    second := SubmitBooking(db, "b@example.com", 1, "2024-01-01", "10:30", "11:30");
    OnlySlotAfter(b, second.suggestedStart);
  }

  /** The four texts of the scenario above, as `submit_booking` validates them. */
  lemma SampleTimes()
    ensures Validate("10:00", "11:00") == Accepted(600, 660)
    ensures Validate("10:30", "11:30") == Accepted(630, 690)
  {
    assert ParseTime("10:00") == Some(600) && ParseTime("11:00") == Some(660);
    assert ParseTime("10:30") == Some(630) && ParseTime("11:30") == Some(690);
  }

  /**
   * With only 10:00-11:00 booked, the one hour-long start after 10:30 that the conflict
   * query lets through, with every start before it from 10:30 on blocked, is 11:00.
   */
  lemma OnlySlotAfter(b: Booking, s: int)
    requires b.roomId == 1 && b.date == "2024-01-01" && b.start == 600 && b.end == 660
    requires s > 630 && SlotFree([b], 1, "2024-01-01", s, 60)
    requires NoFreeStartBefore([b], 1, "2024-01-01", 630, s, 60)
    ensures s == 660
  {
    assert SlotFree([b], 1, "2024-01-01", 660, 60);
    if s < 660 {
      assert Intersects([b][0], s, s + 60);
    }
  }

  /**
   * 09:00-10:00 and 10:00-11:00 in one room on one date are both accepted (touching is
   * not overlapping), and both appear in the history of their email.
   */
  method BackToBackBookings() returns (first: SubmitOutcome, second: SubmitOutcome, history: seq<HistoryRow>)
    ensures first.Booked? && second.Booked?
    ensures multiset(RowBookings(history)) ==
              multiset{Booking(first.id, "a@example.com", 1, "2024-01-01", 540, 600),
                       Booking(second.id, "a@example.com", 1, "2024-01-01", 600, 660)}
  {
    var db := new BookingStore([Room(1, "101", 4, "Study", "Available")]);
    assert ParseTime("09:00") == Some(540) && ParseTime("10:00") == Some(600);
    assert ParseTime("11:00") == Some(660);
    first := SubmitBooking(db, "a@example.com", 1, "2024-01-01", "09:00", "10:00");
    second := SubmitBooking(db, "a@example.com", 1, "2024-01-01", "10:00", "11:00");
    assert db.bookings == [Booking(first.id, "a@example.com", 1, "2024-01-01", 540, 600),
                           Booking(second.id, "a@example.com", 1, "2024-01-01", 600, 660)];
    assert GetRoom(db.rooms, 1).Some?;
    OwnedKeepsAll(db.bookings, db.rooms, "a@example.com");
    history := GetBookings(db.bookings, db.rooms, "a@example.com");
  }

  /** A wrong password sets nothing, so the staff gate stays closed. */
  method WrongPasswordKeepsGateClosed() returns (ok: bool, gate: bool)
    ensures !ok && !gate
  {
    var session := new Session();
    var accounts := [StaffAccount("admin", "hash-of-right")];
    assert FindAccount(accounts, "admin") == Some(accounts[0]);
    assert ("hash-of-" + "wrong")[8] == 'w';
    ok := session.Login(accounts, "admin", "wrong", (hash, pw) => hash == "hash-of-" + pw);
    gate := session.StaffRequired();
  }
}
