/**
 * Integer civil-calendar arithmetic standing in for the three `strftime`
 * renderings the retention rules use ("%Y-%m-%d", "%w", "%Y-%m") and for
 * `Time#to_i`. Instants are whole seconds since 1970-01-01T00:00:00 UTC;
 * the local zone is a fixed offset in seconds east of UTC.
 *
 * Days are counted from 1970-01-01 ("epoch days"). The conversion between
 * an epoch day and a proleptic Gregorian date follows the era-based
 * algorithm (400-year eras of 146097 days, years starting on March 1).
 */
module Calendar {

  const SecondsPerHour := 3600
  const SecondsPerDay := 86400

  /** Days in one 400-year Gregorian cycle. */
  const DaysPerEra := 146097
  /** Days from 0000-03-01 to 1970-01-01. */
  const EpochShift := 719468

  datatype Date = Date(year: int, month: int, day: int)

  /** Local calendar day (epoch day) of the instant `t` in a zone `utcOffset` seconds east of UTC. */
  function LocalDay(t: int, utcOffset: int): (day: int)
    ensures day * SecondsPerDay <= t + utcOffset < (day + 1) * SecondsPerDay
  {
    (t + utcOffset) / SecondsPerDay
  }

  lemma LocalDayMonotone(t1: int, t2: int, utcOffset: int)
    requires t1 <= t2
    ensures LocalDay(t1, utcOffset) <= LocalDay(t2, utcOffset)
  {}

  /** Moving an instant back by `k` whole days moves its local day back by `k`. */
  lemma LocalDayShift(t: int, utcOffset: int, k: int)
    ensures LocalDay(t - k * SecondsPerDay, utcOffset) == LocalDay(t, utcOffset) - k
  {}

  /** Day of the week, 0 = Sunday ... 6 = Saturday, as `%w` renders it; 1970-01-01 was a Thursday. */
  function Weekday(day: int): (w: int)
    ensures 0 <= w <= 6
    ensures day == 0 ==> w == 4
  {
    (day + 4) % 7
  }

  /** The Sunday on or before `day`. */
  function WeekStart(day: int): (sunday: int)
    ensures Weekday(sunday) == 0
    ensures sunday <= day < sunday + 7
  {
    day - Weekday(day)
  }

  lemma WeekStartMonotone(a: int, b: int)
    requires a <= b
    ensures WeekStart(a) <= WeekStart(b)
  {}

  // ---------------------------------------------------------------------
  // Epoch day <-> civil date

  /** Year within the era (March-based years) of the `doe`-th day of the era. */
  function YearOfEra(doe: int): int
  {
    (doe - doe / 1460 + doe / 36524 - doe / 146096) / 365
  }

  /** Days of the era before March 1 of its `yoe`-th year. */
  function DaysBeforeYear(yoe: int): int
  {
    365 * yoe + yoe / 4 - yoe / 100
  }

  /** Day within its March-based year of the `doe`-th day of the era. */
  function DayOfYear(doe: int): int
  {
    doe - DaysBeforeYear(YearOfEra(doe))
  }

  /** Month index counted from March (0 = March ... 11 = February) of a day of the year. */
  function MonthFromMarch(doy: int): int
  {
    (5 * doy + 2) / 153
  }

  /** Days of the March-based year before the first of month `mp`. */
  function DaysBeforeMonth(mp: int): int
  {
    (153 * mp + 2) / 5
  }

  /** `q` is the quotient of `x` by `d` when `x` lies in `q`'s interval. */
  lemma Quotient(x: int, d: int, q: int)
    requires 0 < d && d * q <= x < d * q + d
    ensures x / d == q
  {
    var q0 := x / d;
    if q0 < q {
      MulMonotone(d, q0 + 1, q);
    } else if q < q0 {
      MulMonotone(d, q + 1, q0);
    }
  }

  lemma MulMonotone(d: int, a: int, b: int)
    requires 0 <= d && a <= b
    ensures d * a <= d * b
  {
    assert d * b - d * a == d * (b - a);
  }

  lemma YearOfEraBounds(doe: int)
    requires 0 <= doe < DaysPerEra
    ensures 0 <= YearOfEra(doe) <= 399
  {
    var a, b, c := doe / 1460, doe / 36524, doe / 146096;
    assert 0 <= a <= 100 && 0 <= b <= 4 && 0 <= c <= 1;
    if c == 0 {
      assert 1460 * a <= doe;
      assert b <= a / 25 + 1;
    }
  }

  /**
   * Within the `k`-th century of an era the day of the year is what is
   * left of the century's 4-year cycle `j` after `m` whole years.
   */
  lemma DayOfYearBoundsInCentury(doe: int, k: int)
    requires 0 <= k <= 3 && 36524 * k <= doe < 36524 * (k + 1)
    ensures 0 <= DayOfYear(doe) <= 365
  {
    var e := doe - 36524 * k;
    var j, r := e / 1461, e % 1461;
    assert 0 <= j <= 24;
    var t := (24 * k + j + r) / 1460;
    assert 0 <= t <= 1;
    Quotient(doe, 1460, 25 * k + j + t);
    Quotient(doe, 36524, k);
    Quotient(doe, 146096, 0);
    var m := (r - t) / 365;
    assert 0 <= m <= 3;
    var y := 100 * k + 4 * j + m;
    Quotient(doe - doe / 1460 + doe / 36524 - doe / 146096, 365, y);
    Quotient(y, 4, 25 * k + j);
    Quotient(y, 100, k);
    assert YearOfEra(doe) == y;
    assert DaysBeforeYear(y) == 365 * y + 24 * k + j;
    assert DayOfYear(doe) == r - 365 * m;
  }

  lemma EraPartBounds(doe: int)
    requires 0 <= doe < DaysPerEra
    ensures 0 <= YearOfEra(doe) <= 399
    ensures 0 <= DayOfYear(doe) <= 365
  {
    YearOfEraBounds(doe);
    if doe < DaysPerEra - 1 {
      DayOfYearBoundsInCentury(doe, doe / 36524);
    }
  }

  lemma MonthPartBounds(doy: int)
    requires 0 <= doy <= 365
    ensures 0 <= MonthFromMarch(doy) <= 11
    ensures 0 <= doy - DaysBeforeMonth(MonthFromMarch(doy)) <= 30
  {}

  /** The civil date of the `doe`-th day of era `era`. */
  function CivilOfEra(era: int, doe: int): (date: Date)
    requires 0 <= doe < DaysPerEra
    ensures 1 <= date.month <= 12 && 1 <= date.day <= 31
  {
    EraPartBounds(doe);
    MonthPartBounds(DayOfYear(doe));
    var yoe := YearOfEra(doe);
    var doy := DayOfYear(doe);
    var mp := MonthFromMarch(doy);
    var m := if mp < 10 then mp + 3 else mp - 9;
    Date(era * 400 + yoe + (if m <= 2 then 1 else 0), m, doy - DaysBeforeMonth(mp) + 1)
  }

  /** The civil date of an epoch day: what `%Y-%m-%d` prints for it. */
  function CivilFromDays(z: int): (date: Date)
    ensures 1 <= date.month <= 12 && 1 <= date.day <= 31
  {
    var zs := z + EpochShift;
    CivilOfEra(zs / DaysPerEra, zs % DaysPerEra)
  }

  /** The epoch day of a civil date; the inverse of CivilFromDays. */
  function DaysFromCivil(date: Date): int
  {
    var y := date.year - (if date.month <= 2 then 1 else 0);
    var mp := if date.month > 2 then date.month - 3 else date.month + 9;
    var doy := DaysBeforeMonth(mp) + date.day - 1;
    (y / 400) * DaysPerEra + DaysBeforeYear(y % 400) + doy - EpochShift
  }

  lemma EraSplit(era: int, yoe: int)
    requires 0 <= yoe < 400
    ensures (era * 400 + yoe) / 400 == era && (era * 400 + yoe) % 400 == yoe
  {}

  lemma CivilOfEraInverse(era: int, doe: int)
    requires 0 <= doe < DaysPerEra
    ensures DaysFromCivil(CivilOfEra(era, doe)) == era * DaysPerEra + doe - EpochShift
  {
    EraPartBounds(doe);
    var yoe := YearOfEra(doe);
    var doy := DayOfYear(doe);
    MonthPartBounds(doy);
    var mp := MonthFromMarch(doy);
    var date := CivilOfEra(era, doe);
    assert date.year - (if date.month <= 2 then 1 else 0) == era * 400 + yoe;
    assert (if date.month > 2 then date.month - 3 else date.month + 9) == mp;
    EraSplit(era, yoe);
  }

  /** Round trip: converting an epoch day to a date and back gives the same day. */
  lemma DaysFromCivilInverse(z: int)
    ensures DaysFromCivil(CivilFromDays(z)) == z
  {
    var zs := z + EpochShift;
    CivilOfEraInverse(zs / DaysPerEra, zs % DaysPerEra);
  }

  /** Fixed point: day 0 of the epoch is 1970-01-01. */
  lemma EpochAnchor()
    ensures CivilFromDays(0) == Date(1970, 1, 1)
  {
    assert 719468 / DaysPerEra == 4 && 719468 % DaysPerEra == 135080;
    assert 135080 / 1460 == 92 && 135080 / 36524 == 3 && 135080 / 146096 == 0;
    assert YearOfEra(135080) == 369;
    assert DaysBeforeYear(369) == 134774;
    assert DayOfYear(135080) == 306;
    assert MonthFromMarch(306) == 10 && DaysBeforeMonth(10) == 306;
  }

  /** Fixed point: 2000, divisible by 400, has a leap day. */
  lemma LeapDayAnchor()
    ensures CivilFromDays(11016) == Date(2000, 2, 29)
  {
    assert 730484 / DaysPerEra == 4 && 730484 % DaysPerEra == 146096;
    assert 146096 / 1460 == 100 && 146096 / 36524 == 4 && 146096 / 146096 == 1;
    assert YearOfEra(146096) == 399;
    assert DaysBeforeYear(399) == 145731;
    assert DayOfYear(146096) == 365;
    assert MonthFromMarch(365) == 11 && DaysBeforeMonth(11) == 337;
  }

  /** Fixed point: 1900, divisible by 100 but not by 400, has no leap day: its February ends on the 28th ... */
  lemma LastDayOfFebruary1900()
    ensures CivilFromDays(-25509) == Date(1900, 2, 28)
  {
    assert 693959 / DaysPerEra == 4 && 693959 % DaysPerEra == 109571;
    assert 109571 / 1460 == 75 && 109571 / 36524 == 2 && 109571 / 146096 == 0;
    assert YearOfEra(109571) == 299;
    assert DaysBeforeYear(299) == 109207;
    assert DayOfYear(109571) == 364;
    assert MonthFromMarch(364) == 11 && DaysBeforeMonth(11) == 337;
  }

  /** ... and the next day is March 1. */
  lemma FirstDayOfMarch1900()
    ensures CivilFromDays(-25508) == Date(1900, 3, 1)
  {
    assert 693960 / DaysPerEra == 4 && 693960 % DaysPerEra == 109572;
    assert 109572 / 1460 == 75 && 109572 / 36524 == 3 && 109572 / 146096 == 0;
    assert YearOfEra(109572) == 300;
    assert DaysBeforeYear(300) == 109572;
    assert DayOfYear(109572) == 0;
    assert MonthFromMarch(0) == 0 && DaysBeforeMonth(0) == 0;
  }

  /** Fixed point: 2010-09-05 fell on a Sunday. */
  lemma SundayAnchor()
    ensures Weekday(DaysFromCivil(Date(2010, 9, 5))) == 0
  {
    assert DaysBeforeMonth(6) == 184;
    assert 2010 / 400 == 5 && 2010 % 400 == 10;
    assert DaysBeforeYear(10) == 3652;
    assert DaysFromCivil(Date(2010, 9, 5)) == 14857;
  }

  /** Distinct days render as distinct dates. */
  lemma CivilFromDaysInjective(a: int, b: int)
    ensures CivilFromDays(a) == CivilFromDays(b) <==> a == b
  {
    DaysFromCivilInverse(a);
    DaysFromCivilInverse(b);
  }

  // ---------------------------------------------------------------------
  // Months as intervals of days

  /** Months since year 0: orders (year, month) pairs. */
  function MonthIndex(date: Date): int
  {
    12 * date.year + date.month - 1
  }

  lemma MonthIndexOfEra(era: int, doe: int)
    requires 0 <= doe < DaysPerEra
    ensures MonthIndex(CivilOfEra(era, doe))
            == 4800 * era + 12 * YearOfEra(doe) + MonthFromMarch(DayOfYear(doe)) + 2
  {
    EraPartBounds(doe);
    MonthPartBounds(DayOfYear(doe));
  }

  /** The numerator YearOfEra divides: the day of the era less the era's leap days before it. */
  lemma YearOfEraStep(doe: int)
    requires 0 <= doe && doe + 1 < DaysPerEra
    ensures YearOfEra(doe) <= YearOfEra(doe + 1)
  {
    var a0, a1 := doe / 1460, (doe + 1) / 1460;
    var b0, b1 := doe / 36524, (doe + 1) / 36524;
    var c0, c1 := doe / 146096, (doe + 1) / 146096;
    assert a0 <= a1 <= a0 + 1 && b0 <= b1 && c0 <= c1 <= c0 + 1;
    if c1 == c0 + 1 {
      assert doe + 1 == 146096;
      assert a1 == a0;
    }
    var n0, n1 := doe - a0 + b0 - c0, doe + 1 - a1 + b1 - c1;
    assert n0 <= n1;
  }

  lemma MonthFromMarchMonotone(d0: int, d1: int)
    requires d0 <= d1
    ensures MonthFromMarch(d0) <= MonthFromMarch(d1)
  {}

  /** From one day of an era to the next, the (year, month-from-March) pair never goes back. */
  lemma YearMonthStep(doe: int)
    requires 0 <= doe && doe + 1 < DaysPerEra
    ensures 12 * YearOfEra(doe) + MonthFromMarch(DayOfYear(doe))
            <= 12 * YearOfEra(doe + 1) + MonthFromMarch(DayOfYear(doe + 1))
  {
    var y0, y1 := YearOfEra(doe), YearOfEra(doe + 1);
    YearOfEraStep(doe);
    EraPartBounds(doe);
    EraPartBounds(doe + 1);
    MonthPartBounds(DayOfYear(doe));
    MonthPartBounds(DayOfYear(doe + 1));
    if y0 == y1 {
      MonthFromMarchMonotone(DayOfYear(doe), DayOfYear(doe + 1));
    }
  }

  lemma MonthIndexStepInEra(era: int, doe: int)
    requires 0 <= doe && doe + 1 < DaysPerEra
    ensures MonthIndex(CivilOfEra(era, doe)) <= MonthIndex(CivilOfEra(era, doe + 1))
  {
    YearMonthStep(doe);
    MonthIndexOfEra(era, doe);
    MonthIndexOfEra(era, doe + 1);
  }

  lemma MonthIndexStepAcrossEra(era: int)
    ensures MonthIndex(CivilOfEra(era, DaysPerEra - 1)) <= MonthIndex(CivilOfEra(era + 1, 0))
  {
    MonthIndexOfEra(era, DaysPerEra - 1);
    MonthIndexOfEra(era + 1, 0);
    EraPartBounds(DaysPerEra - 1);
    MonthPartBounds(DayOfYear(DaysPerEra - 1));
  }

  lemma EraOfNextDay(zs: int)
    ensures zs % DaysPerEra + 1 < DaysPerEra ==>
      (zs + 1) / DaysPerEra == zs / DaysPerEra && (zs + 1) % DaysPerEra == zs % DaysPerEra + 1
    ensures zs % DaysPerEra + 1 == DaysPerEra ==>
      (zs + 1) / DaysPerEra == zs / DaysPerEra + 1 && (zs + 1) % DaysPerEra == 0
  {}

  lemma CivilFromDaysOfEra(z: int)
    ensures CivilFromDays(z)
            == CivilOfEra((z + EpochShift) / DaysPerEra, (z + EpochShift) % DaysPerEra)
  {}

  lemma MonthIndexStep(z: int)
    ensures MonthIndex(CivilFromDays(z)) <= MonthIndex(CivilFromDays(z + 1))
  {
    var zs := z + EpochShift;
    var era, doe := zs / DaysPerEra, zs % DaysPerEra;
    EraOfNextDay(zs);
    CivilFromDaysOfEra(z);
    CivilFromDaysOfEra(z + 1);
    if doe + 1 < DaysPerEra {
      MonthIndexStepInEra(era, doe);
    } else {
      MonthIndexStepAcrossEra(era);
    }
  }

  /** A function on days that never decreases from one day to the next never decreases at all. */
  lemma {:induction false} MonotoneBySteps(f: int -> int, a: int, b: int)
    requires forall x, y :: y == x + 1 ==> f(x) <= f(y)
    requires a <= b
    ensures f(a) <= f(b)
    decreases b - a
  {
    if a < b {
      assert f(a) <= f(a + 1);
      MonotoneBySteps(f, a + 1, b);
    }
  }

  /** Later days never fall in an earlier month. */
  lemma MonthIndexMonotone(a: int, b: int)
    requires a <= b
    ensures MonthIndex(CivilFromDays(a)) <= MonthIndex(CivilFromDays(b))
  {
    forall x, y | y == x + 1
      ensures MonthIndex(CivilFromDays(x)) <= MonthIndex(CivilFromDays(y))
    {
      MonthIndexStep(x);
    }
    MonotoneBySteps(z => MonthIndex(CivilFromDays(z)), a, b);
  }

  /** A calendar month is an unbroken run of days: a day between two days of one month lies in that month. */
  lemma MonthIsInterval(a: int, c: int, b: int)
    requires a <= c <= b
    requires CivilFromDays(a).year == CivilFromDays(b).year
    requires CivilFromDays(a).month == CivilFromDays(b).month
    ensures CivilFromDays(c).year == CivilFromDays(a).year
    ensures CivilFromDays(c).month == CivilFromDays(a).month
  {
    MonthIndexMonotone(a, c);
    MonthIndexMonotone(c, b);
  }
}
