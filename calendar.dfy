/** Calendar days. A day is a number of days after the epoch, written as a
    fixed-width string of decimal digits; that rendering is injective and keeps the
    order of days as the string order `<`, which is what the archive's use of
    `YYYY-MM-DD` names relies on. A timestamp is valid when its part before `T`
    is such a day string. */
module Calendar {
  import opened Outcomes
  import opened Text

  const Width: nat := 8

  function Pow10(w: nat): (p: nat)
    ensures p >= 1
  {
    if w == 0 then 1 else 10 * Pow10(w - 1)
  }

  const DayCount: nat := 100_000_000

  type Day = d: nat | d < DayCount

  /** `1000 * 60 * 60 * 24`, the length of a day in milliseconds. */
  const MsPerDay: nat := 86_400_000

  lemma DayCountIsPow10()
    ensures DayCount == Pow10(Width)
  {
    assert Pow10(8) == 10 * Pow10(7);
  }

  /** `n` as exactly `w` digits, zero-padded, most significant first. */
  function Pad(n: nat, w: nat): (r: string)
    ensures |r| == w
    ensures forall k :: 0 <= k < |r| ==> IsDigit(r[k])
  {
    if w == 0 then "" else Pad(n / 10, w - 1) + [Digit(n % 10)]
  }

  lemma {:induction false} PadValue(n: nat, w: nat)
    requires n < Pow10(w)
    ensures DigitsValue(Pad(n, w)) == n
  {
    if w > 0 {
      assert n / 10 < Pow10(w - 1);
      PadValue(n / 10, w - 1);
      var r := Pad(n, w);
      assert r[..|r| - 1] == Pad(n / 10, w - 1);
      DigitRoundTrip(n % 10);
    }
  }

  lemma {:induction false} PadOfValue(s: string)
    requires forall k :: 0 <= k < |s| ==> IsDigit(s[k])
    ensures DigitsValue(s) < Pow10(|s|)
    ensures Pad(DigitsValue(s), |s|) == s
  {
    if s != [] {
      var init := s[..|s| - 1];
      var c := s[|s| - 1];
      PadOfValue(init);
      var v := DigitsValue(s);
      assert v == DigitsValue(init) * 10 + DigitValue(c);
      assert v / 10 == DigitsValue(init) && v % 10 == DigitValue(c);
      assert Digit(DigitValue(c)) == c;
      assert s == init + [c];
    }
  }

  /** Digits compare as the numbers they stand for. */
  lemma DigitOrder(x: nat, y: nat)
    requires x < 10 && y < 10
    ensures Digit(x) < Digit(y) <==> x < y
  {
    DigitRoundTrip(x);
    DigitRoundTrip(y);
  }

  /** Numbers compare by their tens first and their last digits second. */
  lemma TensFirst(a: nat, b: nat)
    ensures a < b <==> a / 10 < b / 10 || (a / 10 == b / 10 && a % 10 < b % 10)
  {
    assert a == 10 * (a / 10) + a % 10 && 0 <= a % 10 < 10;
    assert b == 10 * (b / 10) + b % 10 && 0 <= b % 10 < 10;
  }

  /** Equal-width paddings compare as the numbers do. */
  lemma {:induction false} PadOrder(a: nat, b: nat, w: nat)
    requires a < Pow10(w) && b < Pow10(w)
    ensures Less(Pad(a, w), Pad(b, w)) <==> a < b
  {
    if w == 0 {
      LessIrreflexive("");
    } else {
      var ha, hb := a / 10, b / 10;
      assert ha < Pow10(w - 1) && hb < Pow10(w - 1);
      PadOrder(ha, hb, w - 1);
      LessSnoc(Pad(ha, w - 1), Digit(a % 10), Pad(hb, w - 1), Digit(b % 10));
      PadValue(ha, w - 1);
      PadValue(hb, w - 1);
      DigitOrder(a % 10, b % 10);
      TensFirst(a, b);
    }
  }

  /** The name of day `d` (the model's `YYYY-MM-DD`). */
  function DayToString(d: Day): (r: string)
    ensures |r| == Width
  {
    Pad(d, Width)
  }

  /** `new Date(s)` for a date-only string: the day it names, if any. */
  function ParseDay(s: string): (r: Option<Day>)
  {
    if |s| == Width && forall k :: 0 <= k < |s| ==> IsDigit(s[k]) then
      PadOfValue(s);
      DayCountIsPow10();
      Some(DigitsValue(s))
    else None
  }

  /** Parsing a day's name gives the day back. */
  lemma ParseDayToString(d: Day)
    ensures ParseDay(DayToString(d)) == Some(d)
  {
    DayCountIsPow10();
    PadValue(d, Width);
  }

  /** Only names of days parse, and each parses to the day it names. */
  lemma DayToStringParse(s: string)
    requires ParseDay(s).Some?
    ensures DayToString(ParseDay(s).value) == s
  {
    PadOfValue(s);
  }

  lemma DayToStringInjective(a: Day, b: Day)
    requires DayToString(a) == DayToString(b)
    ensures a == b
  {
    ParseDayToString(a);
    ParseDayToString(b);
  }

  /** String order on day names is the order of the days. */
  lemma DayToStringOrder(a: Day, b: Day)
    ensures Less(DayToString(a), DayToString(b)) <==> a < b
  {
    DayCountIsPow10();
    PadOrder(a, b, Width);
  }

  /** A day's name is made of digits only. */
  lemma DayNameDigits(s: string, c: char)
    requires ParseDay(s).Some? && !IsDigit(c)
    ensures c !in s
  {
  }

  /** `new Date(s)` for a timestamp string such as `...T12:00:00.000Z`: valid when
      its day part is (the time of day is not examined). */
  function ParseTimestamp(s: string): Option<Day> {
    ParseDay(Before(s, 'T'))
  }

  /** `new Date(dayName).getTime()`: midnight of the day, in milliseconds. */
  function StartOfDay(d: Day): int {
    d * MsPerDay
  }

  /** The largest magnitude of a valid time value, in milliseconds. */
  const MaxTime: int := 8_640_000_000_000_000
}
