/**
 * The staff gate of app.py: the session keys that `staff_login` sets and `logout` pops,
 * `staff_required` reading them, and the one staff-only operation over bookings,
 * `staff_cancel_booking`. The password check (`check_password_hash`) is a parameter.
 */
module StaffAccess {
  import opened Rows
  import opened Clock
  import opened Store
  import opened Scheduling

  /** A row of the `staff` table. */
  datatype StaffAccount = StaffAccount(username: string, passwordHash: string)

  /** The values the session stores. */
  datatype SessionValue = Flag(flag: bool) | Text(text: string)

  const LoggedInKey: string := "staff_logged_in"
  const UsernameKey: string := "staff_username"

  /** Python truthiness of a stored value. */
  predicate Truthy(v: SessionValue)
  {
    match v
    case Flag(b) => b
    case Text(t) => t != ""
  }

  /** `SELECT * FROM staff WHERE username=?` with `fetchone`. */
  function FindAccount(accounts: seq<StaffAccount>, username: string): (r: Option<StaffAccount>)
    ensures r.None? <==> forall i :: 0 <= i < |accounts| ==> accounts[i].username != username
    ensures r.Some? ==> r.value in accounts && r.value.username == username
  {
    FetchOne(accounts, (a: StaffAccount) => a.username == username)
  }

  /** One browser's session: a map from keys to stored values. */
  class Session {
    var data: map<string, SessionValue>

    constructor ()
      ensures data == map[] && !StaffRequired()
    {
      data := map[];
    }

    /** `session.get(key)`: the stored value, or None when the key is absent. */
    function Get(key: string): Option<SessionValue>
      reads this
    {
      if key in data then Some(data[key]) else None
    }

    /**
     * `staff_required`: false when `session.get("staff_logged_in")` is falsy (None,
     * False or an empty text), true otherwise.
     */
    predicate StaffRequired(): (open: bool)
      reads this
      ensures open <==> LoggedInKey in data && Truthy(data[LoggedInKey])
    {
      match Get(LoggedInKey)
      case None => false
      case Some(v) => Truthy(v)
    }

    /**
     * `staff_login` (POST): when an account has that username and the password checks
     * against its hash, set both keys; otherwise leave the session as it was.
     */
    method Login(accounts: seq<StaffAccount>, username: string, password: string,
                 checkPasswordHash: (string, string) -> bool) returns (ok: bool)
      modifies this
      ensures ok <==> FindAccount(accounts, username).Some?
                      && checkPasswordHash(FindAccount(accounts, username).value.passwordHash, password)
      ensures ok ==> data == old(data)[LoggedInKey := Flag(true)][UsernameKey := Text(username)]
      ensures ok ==> StaffRequired()
      ensures !ok ==> data == old(data)
    {
      var staff := FindAccount(accounts, username);
      ok := staff.Some? && checkPasswordHash(staff.value.passwordHash, password);
      if ok {
        data := data[LoggedInKey := Flag(true)][UsernameKey := Text(username)];
      }
    }

    /** `logout`: pop both keys (absent keys are fine); the gate is then closed. */
    method Logout()
      modifies this
      ensures data == old(data) - {LoggedInKey, UsernameKey}
      ensures !StaffRequired()
    {
      data := data - {LoggedInKey, UsernameKey};
    }
  }

  /**
   * `staff_cancel_booking`: behind the gate, delete the booking with that id (nothing when
   * there is none); without a staff session nothing changes (redirect to the login page).
   */
  method StaffCancelBooking(session: Session, db: BookingStore, id: int) returns (allowed: bool)
    requires db.Valid()
    modifies db
    ensures db.Valid() && db.rooms == old(db.rooms)
    ensures allowed == session.StaffRequired()
    ensures allowed ==> db.bookings == RemoveId(old(db.bookings), id)
    ensures !allowed ==> db.bookings == old(db.bookings)
    ensures NoDoubleBooking(old(db.bookings)) ==> NoDoubleBooking(db.bookings)
  {
    allowed := session.StaffRequired();
    if allowed {
      if NoDoubleBooking(db.bookings) {
        RemoveKeepsNoDoubleBooking(db.bookings, id);
      }
      db.CancelBooking(id);
    }
  }
}
