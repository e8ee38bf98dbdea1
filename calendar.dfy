/** Timestamps as pandas stores them (nanoseconds since 1970-01-01T00:00, in an int64),
    the calendar day `.dt.date` takes (app.py:186-187) and the month key
    `.dt.to_period("M").astype(str)` produces (app.py:103). */
module Calendar {
  import opened Wrappers
  import opened Text

  /** pandas' Timestamp range: int64 nanoseconds, the smallest int64 being reserved for NaT. */
  type Timestamp = t: int | -0x7FFF_FFFF_FFFF_FFFF <= t <= 0x7FFF_FFFF_FFFF_FFFF

  const NanosPerDay: int := 86_400_000_000_000

  /** Days since 1970-01-01 of the calendar date of `t`; division rounds down, also before 1970. */
  function Day(t: Timestamp): (d: int)
    ensures d * NanosPerDay <= t < (d + 1) * NanosPerDay
    ensures -106752 <= d <= 106751
  {
    t / NanosPerDay
  }

  /** Later instants never fall on earlier days. */
  lemma DayMonotone(s: Timestamp, t: Timestamp)
    requires s <= t
    ensures Day(s) <= Day(t)
  {
  }

  predicate IsLeap(y: int) {
    y % 4 == 0 && (y % 100 != 0 || y % 400 == 0)
  }

  function DaysInYear(y: int): nat {
    if IsLeap(y) then 366 else 365
  }

  function DaysInMonth(y: int, m: int): nat
    requires 1 <= m <= 12
  {
    if m == 2 then (if IsLeap(y) then 29 else 28)
    else if m == 4 || m == 6 || m == 9 || m == 11 then 30
    else 31
  }

  /** Days from the first of month `m` to the end of year `y`. */
  function DaysFrom(y: int, m: int): nat
    requires 1 <= m <= 12
    decreases 12 - m
  {
    if m == 12 then DaysInMonth(y, 12) else DaysInMonth(y, m) + DaysFrom(y, m + 1)
  }

  lemma MonthsFillYear(y: int)
    ensures DaysFrom(y, 1) == DaysInYear(y)
  {
    assert DaysFrom(y, 9) == 122;
    assert DaysFrom(y, 5) == 245;
    assert DaysFrom(y, 2) == DaysInYear(y) - 31;
  }

  /** Days from 1970-01-01 to 1 January of year `y`, negative before 1970. */
  function DaysToYear(y: int): int
    decreases if y < 1970 then 1970 - y else y - 1970
  {
    if y == 1970 then 0
    else if y > 1970 then DaysToYear(y - 1) + DaysInYear(y - 1)
    else DaysToYear(y + 1) - DaysInYear(y)
  }

  lemma NextYear(y: int)
    ensures DaysToYear(y + 1) == DaysToYear(y) + DaysInYear(y)
  {
  }

  lemma {:induction false} DaysToYearMonotone(a: int, b: int)
    requires a <= b
    ensures DaysToYear(a) <= DaysToYear(b)
    decreases b - a
  {
    if a < b {
      NextYear(a);
      DaysToYearMonotone(a + 1, b);
    }
  }

  /** The year holding the day `d` days after 1 January of year `y`, and the ordinal day
      (counted from 0) within that year: the proleptic Gregorian calendar pandas uses. */
  function YearAndOrdinal(d: int, y: int): (r: (int, nat))
    ensures r.1 < DaysInYear(r.0)
    ensures DaysToYear(r.0) + r.1 == DaysToYear(y) + d
    ensures d >= 0 ==> y <= r.0 <= y + d / 365
    ensures d < 0 ==> y - 1 - (-d) / 365 <= r.0 < y
    decreases if d < 0 then 1 else 0, if d < 0 then -d else d
  {
    if d < 0 then
      NextYear(y - 1);
      YearAndOrdinal(d + DaysInYear(y - 1), y - 1)
    else if d >= DaysInYear(y) then
      NextYear(y);
      YearAndOrdinal(d - DaysInYear(y), y + 1)
    else (y, d)
  }

  /** Days from 1 January to the first of month `m` of year `y`. */
  function DaysToMonth(y: int, m: int): nat
    requires 1 <= m <= 12
  {
    if m == 1 then 0 else DaysToMonth(y, m - 1) + DaysInMonth(y, m - 1)
  }

  lemma {:induction false} DaysToMonthMonotone(y: int, a: int, b: int)
    requires 1 <= a <= b <= 12
    ensures DaysToMonth(y, a) <= DaysToMonth(y, b)
    decreases b - a
  {
    if a < b { DaysToMonthMonotone(y, a, b - 1); }
  }

  /** December starts 31 days before the end of the year. */
  lemma DecemberStart(y: int)
    ensures DaysToMonth(y, 12) + DaysInMonth(y, 12) == DaysInYear(y)
  {
    assert DaysToMonth(y, 2) == 31;
    assert DaysToMonth(y, 3) == DaysInYear(y) - 306;
    assert DaysToMonth(y, 5) == DaysInYear(y) - 245;
    assert DaysToMonth(y, 7) == DaysInYear(y) - 184;
    assert DaysToMonth(y, 9) == DaysInYear(y) - 122;
    assert DaysToMonth(y, 11) == DaysInYear(y) - 61;
  }

  /** Days from 1970-01-01 to the first day of month `m` of year `y`. */
  function FirstDayOf(y: int, m: int): int
    requires 1 <= m <= 12
  {
    DaysToYear(y) + DaysToMonth(y, m)
  }

  /** `(y1, m1)` is an earlier month than `(y2, m2)`. */
  predicate EarlierMonth(y1: int, m1: int, y2: int, m2: int) {
    y1 < y2 || (y1 == y2 && m1 < m2)
  }

  /** An earlier month ends no later than a later one begins. */
  lemma MonthsInOrder(y1: int, m1: int, y2: int, m2: int)
    requires 1 <= m1 <= 12 && 1 <= m2 <= 12 && EarlierMonth(y1, m1, y2, m2)
    ensures FirstDayOf(y1, m1) + DaysInMonth(y1, m1) <= FirstDayOf(y2, m2)
  {
    if y1 == y2 {
      DaysToMonthMonotone(y1, m1 + 1, m2);
    } else {
      if m1 < 12 {
        DaysToMonthMonotone(y1, m1 + 1, 12);
      }
      DecemberStart(y1);
      NextYear(y1);
      DaysToYearMonotone(y1 + 1, y2);
    }
  }

  /** The month (1-12) holding ordinal day `doy`, counting from month `m` of year `y`. */
  function MonthOf(y: int, doy: nat, m: int): (month: int)
    requires 1 <= m <= 12 && doy < DaysFrom(y, m)
    ensures m <= month <= 12
    ensures DaysToMonth(y, month) <= DaysToMonth(y, m) + doy < DaysToMonth(y, month) + DaysInMonth(y, month)
    decreases 12 - m
  {
    if doy < DaysInMonth(y, m) then m else MonthOf(y, doy - DaysInMonth(y, m), m + 1)
  }

  /** Calendar year and month of a timestamp: the month whose days hold the day of `t`. */
  function YearMonth(t: Timestamp): (ym: (int, int))
    ensures 1677 <= ym.0 <= 2262
    ensures 1 <= ym.1 <= 12
    ensures FirstDayOf(ym.0, ym.1) <= Day(t) < FirstDayOf(ym.0, ym.1) + DaysInMonth(ym.0, ym.1)
  {
    var (y, doy) := YearAndOrdinal(Day(t), 1970);
    MonthsFillYear(y);
    (y, MonthOf(y, doy, 1))
  }

  /** `n` written in decimal with exactly `width` digits, zero-padded on the left. */
  function Digits(n: nat, width: nat): (s: string)
    ensures |s| == width
    ensures forall k :: 0 <= k < width ==> '0' <= s[k] <= '9'
  {
    if width == 0 then "" else Digits(n / 10, width - 1) + ['0' + (n % 10) as char]
  }

  function Pow10(w: nat): nat {
    if w == 0 then 1 else 10 * Pow10(w - 1)
  }

  /** The number a string of decimal digits spells. */
  function DecimalValue(s: string): int {
    if s == [] then 0 else DecimalValue(s[..|s| - 1]) * 10 + (s[|s| - 1] as int - '0' as int)
  }

  /** Reading back the digits of a number that fits in the width gives the number. */
  lemma {:induction false} DigitsRoundTrip(n: nat, width: nat)
    requires n < Pow10(width)
    ensures DecimalValue(Digits(n, width)) == n
  {
    if width > 0 {
      DigitsRoundTrip(n / 10, width - 1);
      var s := Digits(n, width);
      assert s[..|s| - 1] == Digits(n / 10, width - 1);
    }
  }

  /** For numbers that fit in the width, digit strings sort as the numbers do. */
  lemma {:induction false} DigitsOrdered(a: nat, b: nat, width: nat)
    requires a < b < Pow10(width)
    ensures StrLt(Digits(a, width), Digits(b, width))
  {
    var da, db := Digits(a / 10, width - 1), Digits(b / 10, width - 1);
    var ca, cb := '0' + (a % 10) as char, '0' + (b % 10) as char;
    if a / 10 < b / 10 {
      DigitsOrdered(a / 10, b / 10, width - 1);
      StrLtAppend(da, db, [ca], [cb]);
    } else {
      assert ca < cb;
      assert StrLt([ca], [cb]);
      StrLtPrefix(da, [ca], [cb]);
    }
  }

  /** The text `to_period("M").astype(str)` gives a month: "YYYY-MM". */
  function MonthLabel(y: nat, m: nat): string {
    Digits(y, 4) + "-" + Digits(m, 2)
  }

  /** Labels of months sort as the months do. */
  lemma MonthLabelsOrdered(y1: nat, m1: nat, y2: nat, m2: nat)
    requires y1 < 10000 && y2 < 10000 && m1 < 100 && m2 < 100
    requires EarlierMonth(y1, m1, y2, m2)
    ensures StrLt(MonthLabel(y1, m1), MonthLabel(y2, m2))
  {
    assert Pow10(2) == 100 && Pow10(4) == 10000;
    if y1 < y2 {
      DigitsOrdered(y1, y2, 4);
      assert MonthLabel(y1, m1) == Digits(y1, 4) + ("-" + Digits(m1, 2));
      assert MonthLabel(y2, m2) == Digits(y2, 4) + ("-" + Digits(m2, 2));
      StrLtAppend(Digits(y1, 4), Digits(y2, 4), "-" + Digits(m1, 2), "-" + Digits(m2, 2));
    } else {
      DigitsOrdered(m1, m2, 2);
      StrLtPrefix(Digits(y1, 4) + "-", Digits(m1, 2), Digits(m2, 2));
    }
  }

  /** The month key of a shutdown timestamp: "YYYY-MM", or "NaT" when it is missing. */
  function MonthKey(t: Option<Timestamp>): (key: string)
    ensures t.None? <==> key == "NaT"
    ensures t.Some? ==> |key| == 7 && key[4] == '-'
  {
    match t
    case None => "NaT"
    case Some(v) =>
      var (y, m) := YearMonth(v);
      MonthLabel(y, m)
  }

  /** The key of a timestamp spells, in decimal, the year and the month of the calendar month
      holding it. */
  lemma MonthKeySpells(t: Timestamp)
    ensures DecimalValue(MonthKey(Some(t))[..4]) == YearMonth(t).0
    ensures DecimalValue(MonthKey(Some(t))[5..]) == YearMonth(t).1
  {
    var (y, m) := YearMonth(t);
    assert Pow10(2) == 100 && Pow10(4) == 10000;
    DigitsRoundTrip(y, 4);
    DigitsRoundTrip(m, 2);
    assert MonthKey(Some(t))[..4] == Digits(y, 4);
    assert MonthKey(Some(t))[5..] == Digits(m, 2);
  }

  /** A timestamp in a later month is a later timestamp. */
  lemma LaterMonthLaterTime(s: Timestamp, t: Timestamp)
    requires EarlierMonth(YearMonth(s).0, YearMonth(s).1, YearMonth(t).0, YearMonth(t).1)
    ensures s < t
  {
    MonthsInOrder(YearMonth(s).0, YearMonth(s).1, YearMonth(t).0, YearMonth(t).1);
    assert Day(s) < Day(t);
    assert (Day(s) + 1) * NanosPerDay <= Day(t) * NanosPerDay;
  }

  /** Month keys of timestamps sort in time order, so sorting the keys as strings puts the
      months in calendar order. */
  lemma MonthKeyOrdered(s: Timestamp, t: Timestamp)
    requires s <= t
    ensures StrLe(MonthKey(Some(s)), MonthKey(Some(t)))
  {
    var (ys, ms) := YearMonth(s);
    var (yt, mt) := YearMonth(t);
    if ys == yt && ms == mt {
      StrLeReflexive(MonthKey(Some(s)));
    } else if EarlierMonth(ys, ms, yt, mt) {
      MonthLabelsOrdered(ys, ms, yt, mt);
    } else {
      LaterMonthLaterTime(t, s);
      assert false;
    }
  }

  /** Two timestamps share a key exactly when they fall in the same calendar month. */
  lemma MonthKeySameMonth(s: Timestamp, t: Timestamp)
    ensures MonthKey(Some(s)) == MonthKey(Some(t)) <==> YearMonth(s) == YearMonth(t)
  {
    var (ys, ms) := YearMonth(s);
    var (yt, mt) := YearMonth(t);
    if EarlierMonth(ys, ms, yt, mt) {
      MonthLabelsOrdered(ys, ms, yt, mt);
    } else if EarlierMonth(yt, mt, ys, ms) {
      MonthLabelsOrdered(yt, mt, ys, ms);
    }
  }
}
