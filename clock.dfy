/**
 * Wall-clock times as the timetable scripts read and write them:
 * `datetime.strptime(s, "%H%M")` and `t.strftime("%H%M")`, with a time of
 * day held as minutes since midnight.
 *
 * CPython turns "%H%M" into the regular expression
 * `(2[0-3]|[0-1]\d|\d)([0-5]\d|\d)`, takes the leftmost-first match at the
 * start of the string and raises when characters are left over. So "0900"
 * and "900" both read as 09:00 and "123" as 12:03; in "12" the hour gives
 * its second digit back to the minutes, so it reads as 01:02; "2400" and
 * "0960" raise.
 */
module Clock {
  import opened Wrappers
  import Strings

  const MinutesPerDay: nat := 1440

  predicate IsDigit(c: char) {
    '0' <= c <= '9'
  }

  function DigitValue(c: char): nat
    requires IsDigit(c)
  {
    c as int - '0' as int
  }

  function DigitChar(d: nat): char
    requires d < 10
  {
    ('0' as int + d) as char
  }

  /** How many characters `%H` takes from the front of `s`: 2, 1, or 0 when it does not match. */
  function HourWidth(s: string): nat {
    if |s| >= 2 && ((s[0] == '2' && '0' <= s[1] <= '3') || ('0' <= s[0] <= '1' && IsDigit(s[1]))) then 2
    else if |s| >= 1 && IsDigit(s[0]) then 1
    else 0
  }

  /** How many characters `%M` takes from the front of `s`: 2, 1, or 0 when it does not match. */
  function MinuteWidth(s: string): nat {
    if |s| >= 2 && '0' <= s[0] <= '5' && IsDigit(s[1]) then 2
    else if |s| >= 1 && IsDigit(s[0]) then 1
    else 0
  }

  function FieldValue(s: string): nat
    requires 1 <= |s| <= 2 && forall i :: 0 <= i < |s| ==> IsDigit(s[i])
  {
    if |s| == 1 then DigitValue(s[0]) else DigitValue(s[0]) * 10 + DigitValue(s[1])
  }

  /**
   * `datetime.strptime(s, "%H%M")` as minutes since midnight; None where
   * CPython raises ValueError. What it accepts is two to four ASCII digits
   * and always a time of day.
   */
  function Strptime(s: string): (r: Option<nat>)
    ensures r.Some? ==> r.value < MinutesPerDay
    ensures r.Some? ==> 2 <= |s| <= 4 && forall i :: 0 <= i < |s| ==> IsDigit(s[i])
  {
    if HourWidth(s) == 0 then None
    else
      // the regex backtracks: `%H` gives up its second digit when `%M` finds no digit after it
      var hw := if HourWidth(s) == 2 && MinuteWidth(s[2..]) == 0 then 1 else HourWidth(s);
      var mw := MinuteWidth(s[hw..]);
      if mw == 0 || hw + mw != |s| then None
      else
        assert forall i :: 0 <= i < |s| ==> IsDigit(s[i]) by {
          assert forall i :: hw <= i < |s| ==> s[i] == s[hw..][i - hw];
        }
        Some(FieldValue(s[..hw]) * 60 + FieldValue(s[hw..]))
  }

  /** Any two digits read as a one-digit hour and a one-digit minute: "12" is 01:02, "05" is 00:05. */
  lemma TwoDigitsReadAsHourAndMinute(s: string)
    requires |s| == 2 && IsDigit(s[0]) && IsDigit(s[1])
    ensures Strptime(s) == Some(DigitValue(s[0]) * 60 + DigitValue(s[1]))
  {
    assert s[2..] == [];
    assert s[1..][0] == s[1];
  }

  /** "123" reads as 12:03 and "930" as 09:30; "2400" and a lone digit raise. */
  lemma StrptimeExamples()
    ensures Strptime("123") == Some(723) && Strptime("930") == Some(570) && Strptime("12") == Some(62)
    ensures Strptime("2400") == None && Strptime("1") == None
  {
    assert "123"[2..] == "3" && "123"[..2] == "12";
    assert "930"[1..] == "30" && "930"[..1] == "9";
    TwoDigitsReadAsHourAndMinute("12");
    assert "2400"[1..] == "400";
  }

  /** `t.strftime("%H%M")`: hours and minutes, two digits each. */
  function Strftime(m: nat): (r: string)
    requires m < MinutesPerDay
    ensures |r| == 4
  {
    var h, mm := m / 60, m % 60;
    [DigitChar(h / 10), DigitChar(h % 10), DigitChar(mm / 10), DigitChar(mm % 10)]
  }

  /** Every time of day written by strftime reads back as itself. */
  lemma StrptimeOfStrftime(m: nat)
    requires m < MinutesPerDay
    ensures Strptime(Strftime(m)) == Some(m)
  {
    var s := Strftime(m);
    var h, mm := m / 60, m % 60;
    assert h <= 23 && mm <= 59;
    assert DigitValue(s[0]) == h / 10 && DigitValue(s[1]) == h % 10;
    assert DigitValue(s[2]) == mm / 10 && DigitValue(s[3]) == mm % 10;
    assert HourWidth(s) == 2;
    assert s[2..][0] == s[2] && s[2..][1] == s[3];
    assert MinuteWidth(s[2..]) == 2;
    assert FieldValue(s[..2]) == h;
    assert FieldValue(s[2..]) == mm;
  }

  /** A four-digit time that strptime accepts is written back by strftime unchanged. */
  /** A two-digit field's value gives its digits back. */
  lemma TwoDigitField(t: string)
    requires |t| == 2 && IsDigit(t[0]) && IsDigit(t[1])
    ensures DigitChar(FieldValue(t) / 10) == t[0] && DigitChar(FieldValue(t) % 10) == t[1]
  {
    var v := FieldValue(t);
    assert v / 10 == DigitValue(t[0]) && v % 10 == DigitValue(t[1]);
  }

  /** Hours and minutes are recovered from minutes since midnight. */
  lemma MinutesSplit(h: nat, mm: nat)
    requires mm < 60
    ensures (h * 60 + mm) / 60 == h && (h * 60 + mm) % 60 == mm
  {
  }

  lemma StrftimeOfStrptime(s: string)
    requires |s| == 4 && Strptime(s).Some?
    ensures Strftime(Strptime(s).value) == s
  {
    var hw := HourWidth(s);
    assert hw == 2 by {
      assert MinuteWidth(s[hw..]) <= 2;
    }
    var hs, ms := s[..2], s[2..];
    assert ms[0] == s[2] && ms[1] == s[3];
    assert Strptime(s).value == FieldValue(hs) * 60 + FieldValue(ms);
    assert FieldValue(hs) <= 23 && FieldValue(ms) <= 59;
    TwoDigitField(hs);
    TwoDigitField(ms);
    MinutesSplit(FieldValue(hs), FieldValue(ms));
    var r := Strftime(Strptime(s).value);
    assert r[0] == s[0] && r[1] == s[1] && r[2] == s[2] && r[3] == s[3];
  }

  /** `start.strftime('%H%M') + '-' + end.strftime('%H%M')`, each taken as a time of day. */
  function FormatRange(start: nat, end: nat): string {
    Strftime(start % MinutesPerDay) + "-" + Strftime(end % MinutesPerDay)
  }

  /** A range written the canonical way: two four-digit times that strptime accepts, joined by '-'. */
  predicate IsCanonicalRange(s: string) {
    |s| == 9 && s[4] == '-' && Strptime(s[..4]).Some? && Strptime(s[5..]).Some?
  }

  /** A canonical range, its end taken as the next day's when it lies before the start, is formatted back to itself. */
  lemma FormatOfCanonicalRange(s: string)
    requires IsCanonicalRange(s)
    ensures var start, end := Strptime(s[..4]).value, Strptime(s[5..]).value;
      FormatRange(start, if end < start then end + MinutesPerDay else end) == s
  {
    var start, end := Strptime(s[..4]).value, Strptime(s[5..]).value;
    StrftimeOfStrptime(s[..4]);
    StrftimeOfStrptime(s[5..]);
    FormatRangeWraps(start, if end < start then end + MinutesPerDay else end);
    assert s == s[..4] + "-" + s[5..];
  }

  /** A stored end past midnight is written as the next day's time of day. */
  lemma FormatRangeWraps(start: nat, end: nat)
    requires start < MinutesPerDay && end < 2 * MinutesPerDay
    ensures FormatRange(start, end) == Strftime(start) + "-" + Strftime(if end < MinutesPerDay then end else end - MinutesPerDay)
  {
    assert start % MinutesPerDay == start;
    if end < MinutesPerDay {
      assert end % MinutesPerDay == end;
    } else {
      assert end % MinutesPerDay == end - MinutesPerDay;
    }
  }

  /** A canonical range splits on '-' into exactly its two times. */
  lemma CanonicalRangeSplit(s: string)
    requires IsCanonicalRange(s)
    ensures Strings.Split(s, '-') == [s[..4], s[5..]]
  {
    var a, b := s[..4], s[5..];
    assert forall i :: 0 <= i < |a| ==> IsDigit(a[i]);
    assert forall i :: 0 <= i < |b| ==> IsDigit(b[i]);
    assert s == a + ['-'] + b;
    Strings.SplitTwo(a, b, '-');
  }
}
