/**
 * The few JavaScript built-ins that the attestation policy relies on, stated
 * with their ECMAScript meaning: `null`/`undefined` slots, the `??` operator,
 * `String.prototype.slice`, `Number()` on a decimal string, `Math.ceil` of a
 * quotient and the local-time `Date` constructor.
 */
module JsRuntime {
  import opened Wrappers

  /** A property that may be `undefined`, `null` or hold an object. */
  datatype Nullish<+T> = Undefined | Null | Defined(value: T)
  {
    /** `!!x`: an object is always truthy, `null` and `undefined` never are. */
    predicate IsTruthy() { Defined? }

    /** `x !== undefined`: `null` passes this test. */
    predicate IsNotUndefined() { !Undefined? }
  }

  /** `a ?? b`: the left operand unless it is `null` or `undefined`. */
  function Coalesce<T>(a: Nullish<T>, b: Nullish<T>): Nullish<T>
  {
    if a.Defined? then a else b
  }

  /** `s.slice(from, to)` for non-negative bounds: both are clamped to the string. */
  function Slice(s: string, from: nat, to: nat): (r: string)
    ensures from <= to <= |s| ==> r == s[from..to]
    ensures |r| <= |s|
  {
    var lo := if from < |s| then from else |s|;
    var hi := if to < |s| then to else |s|;
    if lo <= hi then s[lo..hi] else ""
  }

  predicate IsDigit(c: char) { '0' <= c <= '9' }

  predicate AllDigits(s: string) { forall i :: 0 <= i < |s| ==> IsDigit(s[i]) }

  function Pow10(n: nat): (p: nat)
    ensures p >= 1
  {
    if n == 0 then 1 else 10 * Pow10(n - 1)
  }

  /** The decimal value of a string of ASCII digits; the empty string is 0. */
  function DigitsValue(s: string): (v: nat)
    requires AllDigits(s)
    ensures v < Pow10(|s|)
  {
    if s == [] then 0
    else DigitsValue(s[..|s| - 1]) * 10 + (s[|s| - 1] as int - '0' as int)
  }

  /**
   * `Number(s)` for the strings this model distinguishes: a run of ASCII
   * digits (possibly empty, which converts to 0) gives its value, anything
   * else is `NaN`, written `None`.
   */
  function ToNumber(s: string): (r: Option<nat>)
    ensures r.Some? <==> AllDigits(s)
    ensures r.Some? ==> r.value < Pow10(|s|)
    ensures s == "" ==> r == Some(0)
  {
    if AllDigits(s) then Some(DigitsValue(s)) else None
  }

  /** `Math.ceil(n / d)` for a positive divisor, on exact integers. */
  function CeilDiv(n: int, d: int): int
    requires d > 0
  {
    -((-n) / d)
  }

  lemma MulMonotone(a: int, b: int, d: int)
    requires a <= b && d > 0
    ensures a * d <= b * d
  {
    assert b * d - a * d == (b - a) * d;
  }

  /** A rounded-up quotient exceeds `k` exactly when the dividend exceeds `k` divisors. */
  lemma CeilDivExceeds(n: int, d: int, k: int)
    requires d > 0
    ensures CeilDiv(n, d) > k <==> n > k * d
  {
    var q, r := (-n) / d, (-n) % d;
    assert -n == q * d + r && 0 <= r < d;
    if -q > k {
      MulMonotone(k + 1, -q, d);
      assert n == (-q) * d - r;
      assert (k + 1) * d == k * d + d;
    } else {
      MulMonotone(-q, k, d);
      assert n == (-q) * d - r;
    }
  }

  /** A quotient in (0, 1] rounds up to 1: anything issued since the last midnight is one day old. */
  lemma CeilDivWithinOne(n: int, d: int)
    requires d > 0 && 0 < n <= d
    ensures CeilDiv(n, d) == 1
  {
    CeilDivExceeds(n, d, 0);
    CeilDivExceeds(n, d, 1);
  }

  /** ECMAScript's msPerDay. */
  const MsPerDay: int := 1000 * 60 * 60 * 24

  /**
   * Days from 1970-01-01 to day `d` of month `m` (1..12) of year `y` in the
   * proleptic Gregorian calendar; `d` may run past the end of the month.
   */
  function DaysFromCivil(y: int, m: int, d: int): int
    requires 1 <= m <= 12
  {
    var y' := if m <= 2 then y - 1 else y;
    var era := y' / 400;
    var yoe := y' - era * 400;
    var mp := if m > 2 then m - 3 else m + 9;
    var doy := (153 * mp + 2) / 5 + d - 1;
    var doe := yoe * 365 + yoe / 4 - yoe / 100 + doy;
    era * 146097 + doe - 719468
  }

  /** 1970-01-01 is day 0; 2024-01-01 is day 19723 and 2024-01-10 day 19732. */
  lemma DaysFromCivilAnchors()
    ensures DaysFromCivil(1970, 1, 1) == 0
    ensures DaysFromCivil(2024, 1, 1) == 19723
    ensures DaysFromCivil(2024, 1, 10) == 19732
  {
    assert 1969 / 400 == 4 && 2023 / 400 == 5;
    assert 369 / 4 == 92 && 369 / 100 == 3;
    assert 23 / 4 == 5 && 23 / 100 == 0;
    assert (153 * 10 + 2) / 5 == 306;
  }

  /**
   * MakeDay(year, month, date): `month` is 0-based and may fall outside
   * 0..11, `date` outside the month; both carry into the year and month.
   */
  function MakeDay(year: int, month: int, date: int): int
  {
    DaysFromCivil(year + month / 12, month % 12 + 1, 1) + date - 1
  }

  /** An in-range 0-based month is that calendar month, and `date` counts days within it. */
  lemma MakeDayInMonth(year: int, month: int, date: int)
    requires 0 <= month <= 11
    ensures MakeDay(year, month, date) == DaysFromCivil(year, month + 1, date)
  {
    assert month / 12 == 0 && month % 12 == month;
  }

  /** Month -1 is December of the year before. */
  lemma MakeDayMonthBefore(year: int, date: int)
    ensures MakeDay(year, -1, date) == DaysFromCivil(year - 1, 12, date)
  {
    assert -1 / 12 == -1 && -1 % 12 == 11;
  }

  /** The `Date` constructor reads years 0..99 as 1900..1999. */
  function FullYear(year: int): int
  {
    if 0 <= year <= 99 then 1900 + year else year
  }

  /**
   * `new Date(year, monthIndex, day).getTime()` for integral arguments, in a
   * zone `utcOffsetMs` ahead of UTC: years 0..99 stand for 1900..1999 and the
   * local midnight is converted to UTC milliseconds.
   */
  function LocalMidnight(year: int, monthIndex: int, day: int, utcOffsetMs: int): int
  {
    MakeDay(FullYear(year), monthIndex, day) * MsPerDay - utcOffsetMs
  }
}
