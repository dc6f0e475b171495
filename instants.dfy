/**
 * UTC instants at second precision, as produced by `strptime(...).replace(tzinfo=utc)`
 * and by Snapper's `--utc` dates. Every value of `Instant` is a date and time that
 * Python's `datetime` can hold.
 */
module Instants {

  datatype DateTime = DateTime(year: int, month: int, day: int, hour: int, minute: int, second: int)

  predicate IsLeapYear(y: int) {
    y % 4 == 0 && (y % 100 != 0 || y % 400 == 0)
  }

  /** Length of a month in the proleptic Gregorian calendar. */
  function DaysInMonth(y: int, m: int): (n: int)
    requires 1 <= m <= 12
    ensures 28 <= n <= 31
    ensures n == 29 <==> m == 2 && IsLeapYear(y)
  {
    if m == 2 then (if IsLeapYear(y) then 29 else 28)
    else if m == 4 || m == 6 || m == 9 || m == 11 then 30
    else 31
  }

  /** The range `datetime` accepts: years 1..9999, real calendar days, no leap seconds. */
  predicate ValidDateTime(t: DateTime) {
    && 1 <= t.year <= 9999
    && 1 <= t.month <= 12
    && 1 <= t.day <= DaysInMonth(t.year, t.month)
    && 0 <= t.hour < 24
    && 0 <= t.minute < 60
    && 0 <= t.second < 60
  }

  type Instant = t: DateTime | ValidDateTime(t) witness DateTime(1970, 1, 1, 0, 0, 0)

  /** Strictly earlier: comparison of two UTC instants, field by field. */
  predicate Before(a: Instant, b: Instant) {
    || a.year < b.year
    || (a.year == b.year && a.month < b.month)
    || (a.year == b.year && a.month == b.month && a.day < b.day)
    || (a.year == b.year && a.month == b.month && a.day == b.day && a.hour < b.hour)
    || (a.year == b.year && a.month == b.month && a.day == b.day && a.hour == b.hour
        && a.minute < b.minute)
    || (a.year == b.year && a.month == b.month && a.day == b.day && a.hour == b.hour
        && a.minute == b.minute && a.second < b.second)
  }

  /** Python's `a <= b` on UTC datetimes. */
  predicate AtOrBefore(a: Instant, b: Instant) {
    a == b || Before(a, b)
  }

  /**
   * An independent reading of the order: the instant's fields as one mixed-radix count,
   * most significant field first, with each radix above the field's largest value.
   */
  function Ordinal(t: Instant): int {
    t.second + 60 * (t.minute + 60 * (t.hour + 24 * (t.day + 32 * (t.month + 13 * t.year))))
  }

  /** Comparing a low digit below a higher-order part: `x + r * y` orders by `y` first, then by `x`. */
  lemma RadixLess(x1: int, y1: int, x2: int, y2: int, r: int)
    requires 0 <= x1 < r && 0 <= x2 < r
    ensures x1 + r * y1 < x2 + r * y2 <==> y1 < y2 || (y1 == y2 && x1 < x2)
    ensures x1 + r * y1 == x2 + r * y2 <==> y1 == y2 && x1 == x2
  {
    if y1 < y2 {
      RadixGap(y1, y2 - y1, r);
    } else if y2 < y1 {
      RadixGap(y2, y1 - y2, r);
    }
  }

  /** A higher-order part larger by `d >= 1` adds at least one whole radix. */
  lemma RadixGap(y: int, d: int, r: int)
    requires d >= 1 && r >= 1
    ensures r * (y + d) >= r * y + r
  {
    assert r * (y + d) == r * y + r * d;
    assert r * d == r + r * (d - 1);
    assert r * (d - 1) >= 0;
  }

  /** `Before` and `AtOrBefore` are `<` and `<=` on the count: the order Python compares datetimes by. */
  lemma OrderIsOrdinalOrder(a: Instant, b: Instant)
    ensures Before(a, b) <==> Ordinal(a) < Ordinal(b)
    ensures AtOrBefore(a, b) <==> Ordinal(a) <= Ordinal(b)
  {
    var ya, yb := a.month + 13 * a.year, b.month + 13 * b.year;
    RadixLess(a.month, a.year, b.month, b.year, 13);
    var da, db := a.day + 32 * ya, b.day + 32 * yb;
    RadixLess(a.day, ya, b.day, yb, 32);
    var ha, hb := a.hour + 24 * da, b.hour + 24 * db;
    RadixLess(a.hour, da, b.hour, db, 24);
    var ma, mb := a.minute + 60 * ha, b.minute + 60 * hb;
    RadixLess(a.minute, ha, b.minute, hb, 60);
    RadixLess(a.second, ma, b.second, mb, 60);
    assert Ordinal(a) == a.second + 60 * ma && Ordinal(b) == b.second + 60 * mb;
  }

  lemma BeforeIrreflexive(a: Instant)
    ensures !Before(a, a)
  {
  }

  lemma BeforeAsymmetric(a: Instant, b: Instant)
    ensures !(Before(a, b) && Before(b, a))
  {
  }

  lemma BeforeTransitive(a: Instant, b: Instant, c: Instant)
    requires Before(a, b) && Before(b, c)
    ensures Before(a, c)
  {
  }

  lemma BeforeTotal(a: Instant, b: Instant)
    ensures a == b || Before(a, b) || Before(b, a)
  {
  }

  lemma AtOrBeforeTransitive(a: Instant, b: Instant, c: Instant)
    requires AtOrBefore(a, b) && AtOrBefore(b, c)
    ensures AtOrBefore(a, c)
  {
    if a != b && b != c {
      BeforeTransitive(a, b, c);
    }
  }

  lemma AtOrBeforeThenBefore(a: Instant, b: Instant, c: Instant)
    requires AtOrBefore(a, b) && Before(b, c)
    ensures Before(a, c)
  {
    if a != b {
      BeforeTransitive(a, b, c);
    }
  }

  lemma AtOrBeforeAntisymmetric(a: Instant, b: Instant)
    requires AtOrBefore(a, b) && AtOrBefore(b, a)
    ensures a == b
  {
    if a != b {
      BeforeAsymmetric(a, b);
    }
  }

  /** Exactly one of `a < b`, `a == b`, `a > b`: the three branches of the merge loop. */
  lemma NotAtOrBeforeIsAfter(a: Instant, b: Instant)
    requires !AtOrBefore(a, b)
    ensures Before(b, a)
  {
    BeforeTotal(a, b);
  }
}
