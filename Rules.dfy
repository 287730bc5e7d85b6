/**
 * The retention rules: the two derived hour thresholds, the age of a
 * snapshot in whole hours, the tier an age falls in, and the bucket key
 * that names the day, week or month a snapshot is kept for.
 */
module Rules {
  import opened Wrappers
  import opened Calendar

  /** The four mandatory rules of the command line (`--hours`, `--days`, `--weeks`, `--months`). */
  datatype Policy = Policy(hours: int, days: int, weeks: int, months: int)

  /** The run's fixed clock: `NOW` in epoch seconds, and the local zone's offset from UTC in seconds. */
  datatype Clock = Clock(now: int, utcOffset: int)

  const HoursPerDay := 24
  const HoursPerWeek := 24 * 7

  /** START_WEEKS_AFTER: the age in hours past which one snapshot per week is kept instead of one per day. */
  function StartWeeksAfter(p: Policy): (hour: int)
    ensures p.days >= 0 ==> p.hours <= hour
    ensures p.days > 0 ==> p.hours < hour
  {
    p.hours + p.days * HoursPerDay
  }

  /** START_MONTHS_AFTER: the age in hours past which one snapshot per month is kept instead of one per week. */
  function StartMonthsAfter(p: Policy): (hour: int)
    ensures p.weeks >= 0 ==> StartWeeksAfter(p) <= hour
    ensures p.days >= 0 && p.weeks >= 0 ==> p.hours <= hour
  {
    StartWeeksAfter(p) + p.weeks * HoursPerWeek
  }

  /**
   * Age of a snapshot started at `t`, in whole hours at instant `now`: the
   * elapsed seconds over 3600, truncated toward zero (a snapshot dated in
   * the future has a non-positive age).
   */
  function AgeHours(now: int, t: int): (age: int)
    ensures now >= t ==> 0 <= age && age * SecondsPerHour <= now - t < (age + 1) * SecondsPerHour
    ensures now < t ==> age <= 0 && (age - 1) * SecondsPerHour < now - t <= age * SecondsPerHour
  {
    var elapsed := now - t;
    if elapsed >= 0 then elapsed / SecondsPerHour else -((-elapsed) / SecondsPerHour)
  }

  /** A later snapshot is never older. */
  lemma AgeAntitone(now: int, t1: int, t2: int)
    requires t1 <= t2
    ensures AgeHours(now, t2) <= AgeHours(now, t1)
  {}

  datatype Tier = Hourly | Daily | Weekly | Monthly

  /** Position of a tier from the youngest (hourly) to the oldest (monthly). */
  function Rank(tier: Tier): nat
  {
    match tier
    case Hourly => 0
    case Daily => 1
    case Weekly => 2
    case Monthly => 3
  }

  /**
   * The tier of an age: the first of "within the hourly window",
   * "up to START_WEEKS_AFTER", "up to START_MONTHS_AFTER" that holds, and
   * the monthly tier otherwise.
   */
  function TierOf(p: Policy, age: int): (tier: Tier)
    ensures tier == Hourly <==> age <= p.hours
    ensures tier == Daily <==> p.hours < age <= StartWeeksAfter(p)
    ensures tier == Weekly <==> p.hours < age && StartWeeksAfter(p) < age <= StartMonthsAfter(p)
    ensures tier == Monthly <==> p.hours < age && StartWeeksAfter(p) < age && StartMonthsAfter(p) < age
  {
    if age <= p.hours then Hourly
    else if age <= StartWeeksAfter(p) then Daily
    else if age <= StartMonthsAfter(p) then Weekly
    else Monthly
  }

  /** Older snapshots fall in the same or a coarser tier, whatever the rules. */
  lemma TierMonotone(p: Policy, younger: int, older: int)
    requires younger <= older
    ensures Rank(TierOf(p, younger)) <= Rank(TierOf(p, older))
  {}

  /**
   * A bucket key, as the script's `start_date_str`: a date ("%Y-%m-%d",
   * for the day and the week tiers alike) or a year and month ("%Y-%m").
   * The two tiers that use dates share one key space.
   */
  datatype Key = DateKey(date: Date) | MonthKey(year: int, month: int)

  /** Going back from `t` as many days as its weekday number lands on the Sunday of its week. */
  lemma SundayOf(t: int, utcOffset: int)
    ensures LocalDay(t - Weekday(LocalDay(t, utcOffset)) * SecondsPerDay, utcOffset) == WeekStart(LocalDay(t, utcOffset))
  {
    LocalDayShift(t, utcOffset, Weekday(LocalDay(t, utcOffset)));
  }

  /** The key of the bucket of tier `tier` that the snapshot started at `t` falls in. */
  function BucketKey(tier: Tier, t: int, utcOffset: int): (key: Key)
    requires tier != Hourly
    ensures key.MonthKey? <==> tier == Monthly
    ensures key.DateKey? ==> key.date == CivilFromDays(DaysFromCivil(key.date))
    ensures tier == Daily ==> DaysFromCivil(key.date) == LocalDay(t, utcOffset)
    ensures tier == Weekly ==> DaysFromCivil(key.date) == WeekStart(LocalDay(t, utcOffset))
    ensures tier == Monthly ==> key.year == CivilFromDays(LocalDay(t, utcOffset)).year
    ensures tier == Monthly ==> key.month == CivilFromDays(LocalDay(t, utcOffset)).month
  {
    match tier
    case Daily => DayKey(t, utcOffset)
    case Weekly => WeekKey(t, utcOffset)
    case Monthly => MonthKeyOf(t, utcOffset)
  }

  /** The local calendar date of `t`. */
  function DayKey(t: int, utcOffset: int): (key: Key)
    ensures key.DateKey? && key.date == CivilFromDays(DaysFromCivil(key.date))
    ensures DaysFromCivil(key.date) == LocalDay(t, utcOffset)
  {
    DaysFromCivilInverse(LocalDay(t, utcOffset));
    DateKey(CivilFromDays(LocalDay(t, utcOffset)))
  }

  /** The local date of `t` moved back by its weekday number: the Sunday starting its week. */
  function WeekKey(t: int, utcOffset: int): (key: Key)
    ensures key.DateKey? && key.date == CivilFromDays(DaysFromCivil(key.date))
    ensures DaysFromCivil(key.date) == WeekStart(LocalDay(t, utcOffset))
  {
    var sunday := LocalDay(t - Weekday(LocalDay(t, utcOffset)) * SecondsPerDay, utcOffset);
    SundayOf(t, utcOffset);
    DaysFromCivilInverse(sunday);
    DateKey(CivilFromDays(sunday))
  }

  /** The local year and month of `t`. */
  function MonthKeyOf(t: int, utcOffset: int): (key: Key)
    ensures key.MonthKey?
    ensures key.year == CivilFromDays(LocalDay(t, utcOffset)).year
    ensures key.month == CivilFromDays(LocalDay(t, utcOffset)).month
  {
    var date := CivilFromDays(LocalDay(t, utcOffset));
    MonthKey(date.year, date.month)
  }

  /** The bucket of a snapshot started at `t`: none within the hourly window, else its tier's key. */
  function BucketOf(p: Policy, clock: Clock, t: int): (bucket: Option<Key>)
    ensures bucket.None? <==> AgeHours(clock.now, t) <= p.hours
  {
    var tier := TierOf(p, AgeHours(clock.now, t));
    if tier == Hourly then None else Some(BucketKey(tier, t, clock.utcOffset))
  }

  lemma MonthKeysContiguous(t1: int, t2: int, t3: int, utcOffset: int)
    requires t1 <= t2 <= t3
    requires BucketKey(Monthly, t1, utcOffset) == BucketKey(Monthly, t3, utcOffset)
    ensures BucketKey(Monthly, t2, utcOffset) == BucketKey(Monthly, t1, utcOffset)
  {
    LocalDayMonotone(t1, t2, utcOffset);
    LocalDayMonotone(t2, t3, utcOffset);
    MonthIsInterval(LocalDay(t1, utcOffset), LocalDay(t2, utcOffset), LocalDay(t3, utcOffset));
  }

  lemma DayKeysContiguous(t1: int, t2: int, t3: int, utcOffset: int)
    requires t1 <= t2 <= t3
    requires BucketKey(Daily, t1, utcOffset) == BucketKey(Daily, t3, utcOffset)
    ensures BucketKey(Daily, t2, utcOffset) == BucketKey(Daily, t1, utcOffset)
  {
    var d1, d2, d3 := LocalDay(t1, utcOffset), LocalDay(t2, utcOffset), LocalDay(t3, utcOffset);
    LocalDayMonotone(t1, t2, utcOffset);
    LocalDayMonotone(t2, t3, utcOffset);
    var k1, k2, k3 := BucketKey(Daily, t1, utcOffset), BucketKey(Daily, t2, utcOffset), BucketKey(Daily, t3, utcOffset);
    assert d1 == DaysFromCivil(k1.date) == DaysFromCivil(k3.date) == d3;
    assert d2 == d1;
    assert k2.date == CivilFromDays(d2) == CivilFromDays(d1) == k1.date;
  }

  lemma WeekKeysContiguous(t1: int, t2: int, t3: int, utcOffset: int)
    requires t1 <= t2 <= t3
    requires BucketKey(Weekly, t1, utcOffset) == BucketKey(Weekly, t3, utcOffset)
    ensures BucketKey(Weekly, t2, utcOffset) == BucketKey(Weekly, t1, utcOffset)
  {
    var d1, d2, d3 := LocalDay(t1, utcOffset), LocalDay(t2, utcOffset), LocalDay(t3, utcOffset);
    LocalDayMonotone(t1, t2, utcOffset);
    LocalDayMonotone(t2, t3, utcOffset);
    WeekStartMonotone(d1, d2);
    WeekStartMonotone(d2, d3);
    var k1, k2, k3 := BucketKey(Weekly, t1, utcOffset), BucketKey(Weekly, t2, utcOffset), BucketKey(Weekly, t3, utcOffset);
    assert WeekStart(d1) == DaysFromCivil(k1.date) == DaysFromCivil(k3.date) == WeekStart(d3);
    assert WeekStart(d2) == WeekStart(d1);
    assert k2.date == CivilFromDays(WeekStart(d2)) == CivilFromDays(WeekStart(d1)) == k1.date;
  }

  /** A weekly key equal to a later daily key: then both snapshots, and any between, share one Sunday. */
  lemma WeekThenDayContiguous(tier2: Tier, t1: int, t2: int, t3: int, utcOffset: int)
    requires t1 <= t2 <= t3
    requires tier2 == Weekly || tier2 == Daily
    requires BucketKey(Weekly, t1, utcOffset) == BucketKey(Daily, t3, utcOffset)
    ensures BucketKey(tier2, t2, utcOffset) == BucketKey(Weekly, t1, utcOffset)
  {
    var d1, d2, d3 := LocalDay(t1, utcOffset), LocalDay(t2, utcOffset), LocalDay(t3, utcOffset);
    LocalDayMonotone(t1, t2, utcOffset);
    LocalDayMonotone(t2, t3, utcOffset);
    assert WeekStart(d1) == d3;
    assert d1 == d2 == d3;
    var k1, k2 := BucketKey(Weekly, t1, utcOffset), BucketKey(tier2, t2, utcOffset);
    assert DaysFromCivil(k1.date) == d1 == DaysFromCivil(k2.date);
    assert k2.date == CivilFromDays(d1) == k1.date;
  }

  /**
   * Buckets are unbroken runs in time: a snapshot started between two
   * snapshots of one bucket falls in that bucket too. This holds across
   * tiers, where a weekly key can equal a daily key.
   */
  lemma BucketsContiguous(p: Policy, clock: Clock, t1: int, t2: int, t3: int)
    requires t1 <= t2 <= t3
    requires BucketOf(p, clock, t1).Some?
    requires BucketOf(p, clock, t1) == BucketOf(p, clock, t3)
    ensures BucketOf(p, clock, t2) == BucketOf(p, clock, t1)
  {
    var a1, a2, a3 := AgeHours(clock.now, t1), AgeHours(clock.now, t2), AgeHours(clock.now, t3);
    AgeAntitone(clock.now, t1, t2);
    AgeAntitone(clock.now, t2, t3);
    TierMonotone(p, a2, a1);
    TierMonotone(p, a3, a2);
    var tier1, tier2, tier3 := TierOf(p, a1), TierOf(p, a2), TierOf(p, a3);
    var off := clock.utcOffset;
    assert BucketKey(tier1, t1, off) == BucketKey(tier3, t3, off);
    if tier1 == Monthly {
      MonthKeysContiguous(t1, t2, t3, off);
    } else if tier1 == Daily {
      DayKeysContiguous(t1, t2, t3, off);
    } else if tier3 == Weekly {
      WeekKeysContiguous(t1, t2, t3, off);
    } else {
      WeekThenDayContiguous(tier2, t1, t2, t3, off);
    }
  }
}
