/**
 * How the activity chart chooses its time resolution and where each reading's
 * bucket begins: the level follows from the length of the selected period,
 * and a reading is truncated, in local time, to the start of its 5-minute
 * slot, hour, day, Sunday-based week or month.
 */
module Buckets {
  import opened Calendar
  import opened JsDate
  import opened Outcomes
  import IsoText

  /** The aggregation levels; `Other` is any name the chart does not know,
      which it buckets like `Days`. */
  datatype Level = Minutes | Hours | Days | Weeks | Months | Other(name: string)

  /** The label formats the level selection hands to the chart's axis. */
  datatype LabelFormat = TimeOfDay | DayMonth | MonthYear

  /** Coarseness of a level, for comparing levels. */
  function Rank(level: Level): nat {
    match level
    case Minutes => 0
    case Hours => 1
    case Days => 2
    case Weeks => 3
    case Months => 4
    case Other(_) => 2
  }

  /** The chart's level for a period of `span` milliseconds, with the
      hour, day and year thresholds turned into whole milliseconds: 2 hours,
      2 days, 90 days and 2 Julian years of 365.25 days. */
  function LevelFor(span: int): (r: (Level, LabelFormat))
    ensures !r.0.Other?
    ensures r.1 == TimeOfDay <==> Rank(r.0) <= 1
    ensures r.1 == MonthYear <==> r.0 == Months
  {
    if span < 2 * MsPerHour then (Minutes, TimeOfDay)
    else if span <= 2 * MsPerDay then (Hours, TimeOfDay)
    else if span <= 90 * MsPerDay then (Days, DayMonth)
    else if span <= 730 * MsPerDay + MsPerDay / 2 then (Weeks, DayMonth)
    else (Months, MonthYear)
  }

  /** The rules as the source states them, on exact quotients: the span in
      hours, in days, and in years of 365.25 days. */
  function LevelByQuotients(span: int): (Level, LabelFormat) {
    var hours := span as real / 3600000.0;
    var days := hours / 24.0;
    var years := days / 365.25;
    if hours < 2.0 then (Minutes, TimeOfDay)
    else if days <= 2.0 then (Hours, TimeOfDay)
    else if days <= 90.0 then (Days, DayMonth)
    else if years <= 2.0 then (Weeks, DayMonth)
    else (Months, MonthYear)
  }

  /** The integer thresholds select the same level as the quotients. */
  lemma LevelForMatchesQuotients(span: int)
    ensures LevelFor(span) == LevelByQuotients(span)
  {
    var hours := span as real / 3600000.0;
    var days := hours / 24.0;
    var years := days / 365.25;
    assert hours * 3600000.0 == span as real;
    assert days * 86400000.0 == span as real;
    assert years * 31557600000.0 == span as real;
  }

  /** A longer period never gets a finer level; a negative span gets minutes. */
  lemma LevelForMonotone(span1: int, span2: int)
    requires span1 <= span2
    ensures Rank(LevelFor(span1).0) <= Rank(LevelFor(span2).0)
    ensures span1 < 0 ==> LevelFor(span1).0 == Minutes
  {
  }

  /** The start of t's bucket, computed as the chart does: a new local Date
      from t's own fields, with the finer fields zeroed. */
  function Bucket(t: int, level: Level): Option<int> {
    var year, month, date := GetFullYear(t), GetMonth(t), GetDate(t);
    match level
    case Minutes => NewLocalDate(year, month, date, GetHours(t), GetMinutes(t) / 5 * 5, 0, 0)
    case Hours => NewLocalDate(year, month, date, GetHours(t), 0, 0, 0)
    case Weeks => NewLocalDate(year, month, date - GetDay(t), 0, 0, 0, 0)
    case Months => NewLocalDate(year, month, 1, 0, 0, 0, 0)
    case _ => NewLocalDate(year, month, date, 0, 0, 0, 0)
  }

  /** Fixed bucket lengths, in milliseconds, of the levels that have one. */
  function Width(level: Level): int
    requires !level.Weeks? && !level.Months?
  {
    match level
    case Minutes => 5 * MsPerMinute
    case Hours => MsPerHour
    case _ => MsPerDay
  }

  /** Truncation of t in local time: down to a multiple of the width, to the
      same or preceding Sunday, or to the first of the month. */
  function Truncate(t: int, level: Level): int {
    var d := Day(LocalTime(t));
    match level
    case Weeks => Utc((d - WeekDay(d)) * MsPerDay)
    case Months => Utc((d - CivilFromDay(d).date + 1) * MsPerDay)
    case _ => t - LocalTime(t) % Width(level)
  }

  /** The truncation is the start of a bucket holding t: no later than t, less
      than one bucket earlier, at local midnight for days and longer, on a
      Sunday for weeks and on the first for months. */
  lemma TruncateBounds(t: int, level: Level)
    ensures Truncate(t, level) <= t
    ensures !level.Weeks? && !level.Months? ==>
      t < Truncate(t, level) + Width(level) && LocalTime(Truncate(t, level)) % Width(level) == 0
    ensures level.Weeks? ==> t < Truncate(t, level) + 7 * MsPerDay && SundayMidnight(Truncate(t, level))
    ensures level.Months? ==>
      t < Truncate(t, level) + 31 * MsPerDay && FirstOfMonthMidnight(Truncate(t, level), LocalCivil(t))
  {
    match level {
      case Weeks => TruncateWeek(t);
      case Months => TruncateMonth(t);
      case _ =>
        var l := LocalTime(t);
        var w := Width(level);
        DivUnique(l - l % w, w, l / w);
    }
  }

  /** Local midnight starting a Sunday. */
  predicate SundayMidnight(b: int) {
    TimeWithinDay(LocalTime(b)) == 0 && WeekDay(Day(LocalTime(b))) == 0
  }

  /** Local midnight starting the first of c's month. */
  predicate FirstOfMonthMidnight(b: int, c: CivilDate) {
    TimeWithinDay(LocalTime(b)) == 0 && LocalCivil(b) == CivilDate(c.year, c.month, 1)
  }

  lemma TruncateWeek(t: int)
    ensures var b := Truncate(t, Weeks); b <= t < b + 7 * MsPerDay && SundayMidnight(b)
  {
    var d := Day(LocalTime(t));
    var e := d - WeekDay(d);
    ShiftWholeDays(0, e);
    DivUnique(d + 4 - WeekDay(d), 7, (d + 4) / 7);
  }

  lemma TruncateMonth(t: int)
    ensures var b := Truncate(t, Months); b <= t < b + 31 * MsPerDay && FirstOfMonthMidnight(b, LocalCivil(t))
  {
    var d := Day(LocalTime(t));
    var c := CivilFromDay(d);
    var e := d - c.date + 1;
    ShiftWholeDays(0, e);
    CivilFromDayUnique(e, CivilDate(c.year, c.month, 1));
  }

  /** Truncating a bucket start leaves it where it is. */
  lemma TruncateIdempotent(t: int, level: Level)
    ensures Truncate(Truncate(t, level), level) == Truncate(t, level)
  {
    TruncateBounds(t, level);
    var b := Truncate(t, level);
    var d := Day(LocalTime(b));
    match level {
      case Weeks =>
        assert LocalTime(b) == d * MsPerDay;
      case Months =>
        assert LocalTime(b) == d * MsPerDay;
        assert CivilFromDay(d).date == 1;
      case _ =>
    }
  }

  /** The chart's construction from local fields computes the truncation, for
      every year the Date constructor does not reinterpret as 19xx. */
  lemma BucketIsTruncation(t: int, level: Level)
    requires !(0 <= GetFullYear(t) <= 99)
    ensures Bucket(t, level) == TimeClip(Truncate(t, level))
  {
    match level {
      case Minutes => MinuteBucket(t);
      case Hours => HourBucket(t);
      case Weeks => MakeDayShift(Day(LocalTime(t)), -GetDay(t));
      case Months => MakeDayShift(Day(LocalTime(t)), 1 - GetDate(t));
      case _ => DayBucket(t, level);
    }
  }

  lemma MinuteBucket(t: int)
    requires !(0 <= GetFullYear(t) <= 99)
    ensures Bucket(t, Minutes) == TimeClip(Truncate(t, Minutes))
  {
    var l := LocalTime(t);
    var d := Day(l);
    var h, mi := HourFromTime(l), MinFromTime(l);
    TimeDecomposition(l);
    FiveMinuteFloor(l, d, h, mi, SecFromTime(l), MsFromTime(l));
    MakeDayShift(d, 0);
  }

  /** The 5-minute slot of a clock reading starts at the reading less its
      remainder modulo 5 minutes. */
  lemma FiveMinuteFloor(l: int, d: int, h: int, mi: int, s: int, ms: int)
    requires 0 <= mi < 60 && 0 <= s < 60 && 0 <= ms < 1000
    requires l == MakeDate(d, MakeTime(h, mi, s, ms))
    ensures l - l % (5 * MsPerMinute) == MakeDate(d, MakeTime(h, mi / 5 * 5, 0, 0))
  {
    var q := 288 * d + 12 * h + mi / 5;
    assert l == 300000 * q + ((mi % 5) * 60000 + s * 1000 + ms);
    DivUnique(l, 300000, q);
  }

  lemma HourBucket(t: int)
    requires !(0 <= GetFullYear(t) <= 99)
    ensures Bucket(t, Hours) == TimeClip(Truncate(t, Hours))
  {
    var l := LocalTime(t);
    var d := Day(l);
    TimeDecomposition(l);
    MakeDayShift(d, 0);
    DivUnique(l, MsPerHour, 24 * d + HourFromTime(l));
  }

  lemma DayBucket(t: int, level: Level)
    requires !(0 <= GetFullYear(t) <= 99)
    requires !level.Minutes? && !level.Hours? && !level.Weeks? && !level.Months?
    ensures Bucket(t, level) == TimeClip(Truncate(t, level))
  {
    MakeDayShift(Day(LocalTime(t)), 0);
  }

  /** Bucketing a bucket start gives it back, when neither it nor the reading
      falls in a year the constructor reinterprets. */
  lemma BucketIdempotent(t: int, level: Level)
    requires !(0 <= GetFullYear(t) <= 99)
    requires Bucket(t, level).Some? && !(0 <= GetFullYear(Bucket(t, level).value) <= 99)
    ensures Bucket(Bucket(t, level).value, level) == Bucket(t, level)
  {
    BucketIsTruncation(t, level);
    BucketIsTruncation(Truncate(t, level), level);
    TruncateIdempotent(t, level);
  }

  /** A bucket start is no later than the reading and less than one bucket
      earlier. */
  lemma BucketBrackets(t: int, level: Level)
    requires !(0 <= GetFullYear(t) <= 99) && Bucket(t, level).Some?
    ensures Bucket(t, level).value <= t
    ensures !level.Weeks? && !level.Months? ==> t < Bucket(t, level).value + Width(level)
    ensures level.Weeks? ==> t < Bucket(t, level).value + 7 * MsPerDay
    ensures level.Months? ==> t < Bucket(t, level).value + 31 * MsPerDay
  {
    BucketIsTruncation(t, level);
    TruncateBounds(t, level);
  }

  /** Every reading with a four-digit year has a bucket, so building the
      bucket's ISO key never meets an Invalid Date. */
  lemma BucketDefined(t: int, level: Level)
    requires IsoText.InIsoYears(t)
    ensures Bucket(t, level).Some?
  {
    IsoText.IsoYearsAreTimeValues(t);
    if 0 <= GetFullYear(t) <= 99 {
      RemappedYearBucket(t, level);
    } else {
      BucketIsTruncation(t, level);
      TruncateBounds(t, level);
    }
  }

  /** Local years 0 to 99 are bucketed in 1900 to 1999, which is still a
      valid time value. */
  lemma RemappedYearBucket(t: int, level: Level)
    requires 0 <= GetFullYear(t) <= 99
    ensures Bucket(t, level).Some?
  {
    var c := LocalCivil(t);
    match level {
      case Minutes => TwoDigitYearDate(c.year, c.month, c.date, GetHours(t), GetMinutes(t) / 5 * 5);
      case Hours => TwoDigitYearDate(c.year, c.month, c.date, GetHours(t), 0);
      case Weeks => TwoDigitYearDate(c.year, c.month, c.date - GetDay(t), 0, 0);
      case Months => TwoDigitYearDate(c.year, c.month, 1, 0, 0);
      case _ => TwoDigitYearDate(c.year, c.month, c.date, 0, 0);
    }
  }

  lemma TwoDigitYearDate(year: int, month: int, date: int, h: int, mi: int)
    requires 0 <= year <= 99 && 0 <= month <= 11 && -6 <= date <= 31
    requires 0 <= h < 24 && 0 <= mi < 60
    ensures NewLocalDate(year, month, date, h, mi, 0, 0).Some?
  {
    var y := 1900 + year;
    IsoText.FourDigitYearDays(y);
    MakeDayInYear(y, month, date);
    DaysBeforeMonthGrows(y, month, 12);
    DayFromYearStep(y);
  }
}
