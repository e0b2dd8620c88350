/**
 * `time.Now().Format("20060102150405")`: year, month, day, hour, minute and
 * second written as zero-padded decimal fields with no separators. The clock
 * reading is a value passed in; the model never reads a clock.
 */
module Timestamp {
  import opened Options

  /** A wall-clock reading in the local time zone, as Go's `time.Time` exposes it. */
  datatype Clock = Clock(year: nat, month: nat, day: nat, hour: nat, minute: nat, second: nat)

  predicate IsLeapYear(y: nat) {
    y % 4 == 0 && (y % 100 != 0 || y % 400 == 0)
  }

  function DaysIn(year: nat, month: nat): nat {
    if month == 2 then (if IsLeapYear(year) then 29 else 28)
    else if month == 4 || month == 6 || month == 9 || month == 11 then 30
    else 31
  }

  /** The readings a `time.Time` can hold (seconds run 0..59; Go has no leap second). */
  predicate ValidClock(c: Clock) {
    1 <= c.month <= 12 && 1 <= c.day <= DaysIn(c.year, c.month) &&
    c.hour < 24 && c.minute < 60 && c.second < 60
  }

  predicate IsDigit(c: char) {
    '0' <= c <= '9'
  }

  predicate AllDigits(s: string) {
    forall i :: 0 <= i < |s| ==> IsDigit(s[i])
  }

  function DigitChar(d: nat): (c: char)
    requires d < 10
    ensures IsDigit(c)
  {
    ('0' as int + d) as char
  }

  function DigitValue(c: char): (d: nat)
    requires IsDigit(c)
    ensures d < 10 && DigitChar(d) == c
  {
    c as int - '0' as int
  }

  function Pow10(n: nat): (p: nat)
    ensures p >= 1
  {
    if n == 0 then 1 else 10 * Pow10(n - 1)
  }

  /**
   * `n` in decimal, padded on the left with '0' to at least `width`
   * characters, and never empty: what Go's internal `appendInt` writes for a
   * non-negative field. A value too wide for the field keeps all its digits.
   */
  function Pad(n: nat, width: nat): (s: string)
    ensures AllDigits(s)
    ensures |s| >= 1 && |s| >= width
    decreases n + width
  {
    if n < 10 && width <= 1 then [DigitChar(n)]
    else Pad(n / 10, if width == 0 then 0 else width - 1) + [DigitChar(n % 10)]
  }

  /** The number a string of decimal digits denotes. */
  function Value(s: string): (v: nat)
    requires AllDigits(s)
    ensures v < Pow10(|s|)
  {
    if s == [] then 0
    else
      var d := DigitValue(s[|s| - 1]);
      var v' := Value(s[..|s| - 1]);
      assert v' * 10 + d <= (Pow10(|s| - 1) - 1) * 10 + 9;
      v' * 10 + d
  }

  /** Reading a padded field back gives the number written, whatever the width. */
  lemma {:induction false} ValuePad(n: nat, width: nat)
    ensures Value(Pad(n, width)) == n
    decreases n + width
  {
    if n < 10 && width <= 1 {
    } else {
      var w' := if width == 0 then 0 else width - 1;
      var s := Pad(n, width);
      ValuePad(n / 10, w');
      assert s[..|s| - 1] == Pad(n / 10, w');
    }
  }

  /** A value below 10^width fills its field exactly. */
  lemma {:induction false} PadWidth(n: nat, width: nat)
    requires 1 <= width && n < Pow10(width)
    ensures |Pad(n, width)| == width
    decreases width
  {
    if n < 10 && width <= 1 {
    } else {
      assert n / 10 < Pow10(width - 1);
      PadWidth(n / 10, width - 1);
    }
  }

  /** The layout "20060102150405": four digits of year, then two each of month, day, hour (24-hour), minute, second. */
  function Layout(c: Clock): (s: string)
    ensures AllDigits(s)
    ensures |s| >= 14
  {
    Pad(c.year, 4) + Pad(c.month, 2) + Pad(c.day, 2) +
    Pad(c.hour, 2) + Pad(c.minute, 2) + Pad(c.second, 2)
  }

  /** The inverse of Layout: a 14-digit string naming a valid reading, field by field. */
  function Parse(s: string): (r: Option<Clock>)
    ensures r.Some? ==> ValidClock(r.value) && r.value.year < 10000
    ensures r.Some? ==> |s| == 14 && AllDigits(s)
  {
    if |s| != 14 || !AllDigits(s) then None
    else
      var c := Clock(Value(s[0..4]), Value(s[4..6]), Value(s[6..8]),
                     Value(s[8..10]), Value(s[10..12]), Value(s[12..14]));
      if ValidClock(c) then Some(c) else None
  }

  /** Before year 10000 each field of a valid reading fills exactly its place in the 14 characters. */
  lemma LayoutFields(c: Clock)
    requires ValidClock(c) && c.year < 10000
    ensures var s := Layout(c);
      && |s| == 14
      && s[0..4] == Pad(c.year, 4) && s[4..6] == Pad(c.month, 2) && s[6..8] == Pad(c.day, 2)
      && s[8..10] == Pad(c.hour, 2) && s[10..12] == Pad(c.minute, 2) && s[12..14] == Pad(c.second, 2)
  {
    assert Pow10(4) == 10000 && Pow10(2) == 100;
    PadWidth(c.year, 4);
    PadWidth(c.month, 2);
    PadWidth(c.day, 2);
    PadWidth(c.hour, 2);
    PadWidth(c.minute, 2);
    PadWidth(c.second, 2);
  }

  /** Every reading before year 10000 is written as exactly 14 digits, and reading them back recovers it. */
  lemma ParseLayout(c: Clock)
    requires ValidClock(c) && c.year < 10000
    ensures |Layout(c)| == 14
    ensures Parse(Layout(c)) == Some(c)
  {
    LayoutFields(c);
    ValuePad(c.year, 4);
    ValuePad(c.month, 2);
    ValuePad(c.day, 2);
    ValuePad(c.hour, 2);
    ValuePad(c.minute, 2);
    ValuePad(c.second, 2);
  }

  /** A timestamp holds neither a path separator nor a '.', so it cannot disturb the name it is inserted into. */
  lemma LayoutHasNoDotOrSlash(c: Clock)
    ensures '.' !in Layout(c) && '/' !in Layout(c)
  {
  }

  /** Two distinct readings never share a timestamp. */
  lemma LayoutInjective(c1: Clock, c2: Clock)
    requires ValidClock(c1) && c1.year < 10000
    requires ValidClock(c2) && c2.year < 10000
    requires Layout(c1) == Layout(c2)
    ensures c1 == c2
  {
    ParseLayout(c1);
    ParseLayout(c2);
  }
}
