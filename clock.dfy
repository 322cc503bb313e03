/**
 * Wall-clock helpers of the booking application: the 24-hour "HH:MM" texts the forms
 * and the bookings table carry, their minute-of-day values (the local `to_min`), the
 * inverse formatting with its end-of-day clamp (the local `fmt`), and the 12-hour
 * display text (`to_12h`).
 *
 * The table compares these texts as strings; the model compares minutes. The lemma
 * LexOrderMatchesMinutes is what makes the two agree.
 */
module Clock {
  import opened Rows

  /** Minutes in a day; "24:00" would be this value. */
  const MinutesPerDay: int := 24 * 60

  // ---------------------------------------------------------------------------
  // Lexicographic (code point) order of strings, as Python and SQLite compare text.
  // ---------------------------------------------------------------------------

  /** a < b as Python compares two str values: first differing character, or proper prefix. */
  function LexLess(a: string, b: string): bool
  {
    if |b| == 0 then false
    else if |a| == 0 then true
    else if a[0] != b[0] then a[0] < b[0]
    else LexLess(a[1..], b[1..])
  }

  /** a <= b on strings. */
  predicate LexLe(a: string, b: string)
  {
    a == b || LexLess(a, b)
  }

  lemma {:induction false} LexIrreflexive(a: string)
    ensures !LexLess(a, a)
  {
    if |a| > 0 {
      LexIrreflexive(a[1..]);
    }
  }

  lemma {:induction false} LexTransitive(a: string, b: string, c: string)
    requires LexLess(a, b) && LexLess(b, c)
    ensures LexLess(a, c)
  {
    if |a| > 0 && a[0] == b[0] && b[0] == c[0] {
      LexTransitive(a[1..], b[1..], c[1..]);
    }
  }

  lemma {:induction false} LexTotal(a: string, b: string)
    requires a != b
    ensures LexLess(a, b) || LexLess(b, a)
  {
    if |a| > 0 && |b| > 0 && a[0] == b[0] {
      assert a == [a[0]] + a[1..] && b == [b[0]] + b[1..];
      LexTotal(a[1..], b[1..]);
    }
  }

  // ---------------------------------------------------------------------------
  // Zero-padded "HH:MM" texts
  // ---------------------------------------------------------------------------

  predicate IsDigit(c: char)
  {
    '0' <= c <= '9'
  }

  function DigitValue(c: char): (v: int)
    requires IsDigit(c)
    ensures 0 <= v < 10
  {
    (c as int) - ('0' as int)
  }

  function DigitChar(d: int): (c: char)
    requires 0 <= d < 10
    ensures IsDigit(c) && DigitValue(c) == d
  {
    (('0' as int) + d) as char
  }

  /** Two decimal digits, as Python's `:02d` writes a number below 100. */
  function TwoDigits(n: int): (r: string)
    requires 0 <= n < 100
    ensures |r| == 2 && IsDigit(r[0]) && IsDigit(r[1])
    ensures 10 * DigitValue(r[0]) + DigitValue(r[1]) == n
  {
    [DigitChar(n / 10), DigitChar(n % 10)]
  }

  /**
   * A clock text "HH:MM" with two digits each side and minutes below 60. The hour is
   * not bounded here, so "24:00" is well formed; `strptime` bounds it (ParseTime).
   */
  predicate WellFormedClock(s: string)
  {
    && |s| == 5
    && IsDigit(s[0]) && IsDigit(s[1]) && s[2] == ':' && IsDigit(s[3]) && IsDigit(s[4])
    && 10 * DigitValue(s[3]) + DigitValue(s[4]) < 60
  }

  function HourOf(s: string): int
    requires WellFormedClock(s)
  {
    10 * DigitValue(s[0]) + DigitValue(s[1])
  }

  function MinuteOf(s: string): int
    requires WellFormedClock(s)
  {
    10 * DigitValue(s[3]) + DigitValue(s[4])
  }

  /** The local `to_min`: "HH:MM" to h * 60 + m; None for text it cannot split into two numbers. */
  function ClockMinutes(s: string): (r: Option<int>)
    ensures r.Some? <==> WellFormedClock(s)
    ensures r.Some? ==> 0 <= r.value < 100 * 60 && r.value % 60 == MinuteOf(s) && r.value / 60 == HourOf(s)
  {
    if WellFormedClock(s) then Some(HourOf(s) * 60 + MinuteOf(s)) else None
  }

  /** `strptime(s, "%H:%M")` on zero-padded text: hours 00..23, minutes 00..59; None where it raises. */
  function ParseTime(s: string): (r: Option<int>)
    ensures r.Some? <==> WellFormedClock(s) && HourOf(s) < 24
    ensures r.Some? ==> 0 <= r.value < MinutesPerDay && ClockMinutes(s) == r
  {
    if WellFormedClock(s) && HourOf(s) < 24 then ClockMinutes(s) else None
  }

  /**
   * The local `fmt`: minutes to "HH:MM", clamping anything at or past midnight to 23:59
   * so that the text is always a valid time of day.
   */
  function Fmt(m: nat): (r: string)
    ensures ParseTime(r).Some?
  {
    var c := if m >= MinutesPerDay then MinutesPerDay - 1 else m;
    TwoDigits(c / 60) + ":" + TwoDigits(c % 60)
  }

  lemma FmtRoundTrip(m: nat)
    requires m < MinutesPerDay
    ensures ClockMinutes(Fmt(m)) == Some(m)
    ensures ParseTime(Fmt(m)) == Some(m)
  {
    var r := Fmt(m);
    assert HourOf(r) == m / 60 && MinuteOf(r) == m % 60;
  }

  lemma FmtClamps(m: nat)
    requires m >= MinutesPerDay
    ensures Fmt(m) == "23:59"
  {
    assert TwoDigits(23) == "23" && TwoDigits(59) == "59";
  }

  /** Parsing a valid time and formatting it again gives back the same text. */
  lemma ParseRoundTrip(s: string)
    requires ParseTime(s).Some?
    ensures Fmt(ParseTime(s).value) == s
  {
    var m := ParseTime(s).value;
    var r := Fmt(m);
    assert m / 60 == HourOf(s) && m % 60 == MinuteOf(s);
    assert r[0] == s[0] && r[1] == s[1] && r[3] == s[3] && r[4] == s[4];
  }

  lemma {:induction false} LexLessUnfold(a: string, b: string)
    requires |a| > 0 && |b| > 0
    ensures LexLess(a, b) == if a[0] != b[0] then a[0] < b[0] else LexLess(a[1..], b[1..])
  {
  }

  /**
   * Zero-padded clock texts compare as strings exactly as their minute values compare,
   * so the string comparisons of the source (`end <= start`, the SQL `start_time <= ?`)
   * mean the minute comparisons of the model.
   */
  lemma LexOrderMatchesMinutes(a: string, b: string)
    requires WellFormedClock(a) && WellFormedClock(b)
    ensures LexLess(a, b) <==> ClockMinutes(a).value < ClockMinutes(b).value
    ensures a == b <==> ClockMinutes(a).value == ClockMinutes(b).value
  {
    LexLessUnfold(a, b);
    LexLessUnfold(a[1..], b[1..]);
    LexLessUnfold(a[2..], b[2..]);
    LexLessUnfold(a[3..], b[3..]);
    LexLessUnfold(a[4..], b[4..]);
    assert a[1..][1..] == a[2..] && b[1..][1..] == b[2..];
    assert a[2..][1..] == a[3..] && b[2..][1..] == b[3..];
    assert a[3..][1..] == a[4..] && b[3..][1..] == b[4..];
    assert a[4..][1..] == [] && b[4..][1..] == [];
    if ClockMinutes(a).value == ClockMinutes(b).value {
      assert a == b;
    }
  }

  /** On well-formed texts, string `<=` is minute `<=`. */
  lemma LexLeMatchesMinutes(a: string, b: string)
    requires WellFormedClock(a) && WellFormedClock(b)
    ensures LexLe(a, b) <==> ClockMinutes(a).value <= ClockMinutes(b).value
  {
    LexOrderMatchesMinutes(a, b);
  }

  // ---------------------------------------------------------------------------
  // 12-hour display
  // ---------------------------------------------------------------------------

  /** The hour `%I` shows for a 24-hour hour: 12 for 0 and 12, otherwise h mod 12. */
  function Hour12(h: int): (r: int)
    requires 0 <= h < 24
    ensures 1 <= r <= 12 && r % 12 == h % 12
  {
    if h % 12 == 0 then 12 else h % 12
  }

  /** `strftime("%I:%M %p")` of a minute of the day. */
  function Clock12(m: int): (r: string)
    requires 0 <= m < MinutesPerDay
    ensures |r| == 8
  {
    var h := m / 60;
    TwoDigits(Hour12(h)) + ":" + TwoDigits(m % 60) + " " + (if h < 12 then "AM" else "PM")
  }

  /** `to_12h`: "24:00" is read as "23:59"; text `strptime` rejects yields None. */
  function To12h(s: string): (r: Option<string>)
    ensures s == "24:00" ==> r == Some(Clock12(MinutesPerDay - 1))
    ensures r.Some? <==> ParseTime(if s == "24:00" then "23:59" else s).Some?
  {
    var t := if s == "24:00" then "23:59" else s;
    match ParseTime(t)
    case None => None
    case Some(m) => Some(Clock12(m))
  }

  /** Reads a "HH:MM AM"/"HH:MM PM" text back to its minute of the day. */
  function From12h(r: string): (m: Option<int>)
    ensures m.Some? ==> 0 <= m.value < MinutesPerDay
  {
    if |r| == 8 && WellFormedClock(r[..5]) && r[5] == ' ' && (r[6..] == "AM" || r[6..] == "PM")
       && 1 <= HourOf(r[..5]) <= 12
    then
      var h := HourOf(r[..5]) % 12 + (if r[6..] == "PM" then 12 else 0);
      Some(h * 60 + MinuteOf(r[..5]))
    else None
  }

  /** The 12-hour text of minute m is well formed and reads back to m. */
  lemma Clock12ReadsBack(m: int)
    requires 0 <= m < MinutesPerDay
    ensures var r := Clock12(m); var h := m / 60;
      && WellFormedClock(r[..5]) && r[..5] == TwoDigits(Hour12(h)) + ":" + TwoDigits(m % 60)
      && HourOf(r[..5]) == Hour12(h) && MinuteOf(r[..5]) == m % 60
      && r[6..] == (if h < 12 then "AM" else "PM")
      && From12h(r) == Some(m)
  {
    var r := Clock12(m);
    var h := m / 60;
    assert r[..5] == TwoDigits(Hour12(h)) + ":" + TwoDigits(m % 60);
    assert r[5] == ' ';
    assert r[6..] == if h < 12 then "AM" else "PM";
    assert Hour12(h) % 12 + (if h < 12 then 0 else 12) == h;
  }

  /**
   * For hour h the display shows Hour12(h) (h mod 12, with 0 shown as 12), the same
   * minutes, and the suffix "AM" exactly when h < 12; and the 12-hour text reads back
   * to the same minute of the day.
   */
  lemma To12hFields(s: string)
    requires ParseTime(s).Some?
    ensures To12h(s).Some?
    ensures var r := To12h(s).value; var h := ParseTime(s).value / 60;
      && |r| == 8 && WellFormedClock(r[..5])
      && HourOf(r[..5]) == Hour12(h)
      && r[3..5] == s[3..5]
      && (r[6..] == "AM" <==> h < 12)
      && (r[6..] == "PM" <==> h >= 12)
      && From12h(r) == ParseTime(s)
  {
    var m := ParseTime(s).value;
    assert HourOf("24:00") == 24;
    assert s != "24:00";
    assert To12h(s) == Some(Clock12(m));
    Clock12ReadsBack(m);
    var r := Clock12(m);
    assert r[3..5] == r[..5][3..5] == TwoDigits(m % 60);
    assert MinuteOf(s) == m % 60;
  }

  /** Whatever minute value `fmt` is given, `to_12h` accepts its text. */
  lemma FmtIsDisplayable(m: nat)
    ensures To12h(Fmt(m)).Some?
  {
    var r := Fmt(m);
    assert HourOf("24:00") == 24;
    assert r != "24:00";
  }

  /**
   * The 12-hour text of `fmt(m)`: it always exists, reads back to m within the day, and
   * is 11:59 PM for every m at or past midnight.
   */
  lemma FmtDisplay(m: nat)
    ensures To12h(Fmt(m)).Some?
    ensures m < MinutesPerDay ==> From12h(To12h(Fmt(m)).value) == Some(m)
    ensures m >= MinutesPerDay ==> To12h(Fmt(m)).value == "11:59 PM"
  {
    FmtIsDisplayable(m);
    if m < MinutesPerDay {
      FmtRoundTrip(m);
      To12hFields(Fmt(m));
    } else {
      FmtClamps(m);
      SentinelDisplay();
    }
  }

  /** The sentinel "24:00" is displayed as 11:59 PM, like "23:59". */
  lemma SentinelDisplay()
    ensures To12h("24:00") == To12h("23:59") == Some("11:59 PM")
  {
    var m := 23 * 60 + 59;
    assert HourOf("23:59") == 23 && MinuteOf("23:59") == 59;
    assert ParseTime("23:59") == Some(m);
    assert m / 60 == 23 && m % 60 == 59;
    assert Hour12(23) == 11;
    assert TwoDigits(11) == ['1', '1'] && TwoDigits(59) == ['5', '9'];
    assert Clock12(m) == "11:59 PM";
  }
}
