/**
 * The ECMAScript Date operations the pipeline uses (section 21.4 of ECMA-262),
 * in one fixed local time zone. A Date object is its time value: `Some(t)` for
 * a valid date, `None` for an Invalid Date (time value NaN).
 */
module JsDate {
  import opened Calendar
  import opened Outcomes

  /** Time values beyond this magnitude are clipped to NaN (TimeClip). */
  const MaxTimeValue := 8640000000000000

  /** The device's offset from UTC, fixed at UTC-03:00: a zone without daylight
      saving, so LocalTime and UTC are exact inverses. */
  const LocalTza := -3 * MsPerHour

  predicate IsTimeValue(t: int) {
    -MaxTimeValue <= t <= MaxTimeValue
  }

  function TimeClip(x: int): (r: Option<int>)
    ensures r.Some? <==> IsTimeValue(x)
    ensures r.Some? ==> r.value == x
  {
    if IsTimeValue(x) then Some(x) else None
  }

  function LocalTime(t: int): int { t + LocalTza }

  function Utc(l: int): int { l - LocalTza }

  /** The local calendar date of time value t. */
  function LocalCivil(t: int): CivilDate { CivilFromDay(Day(LocalTime(t))) }

  function GetFullYear(t: int): int { LocalCivil(t).year }
  function GetMonth(t: int): int { LocalCivil(t).month }
  function GetDate(t: int): int { LocalCivil(t).date }
  function GetDay(t: int): int { WeekDay(Day(LocalTime(t))) }
  function GetHours(t: int): int { HourFromTime(LocalTime(t)) }
  function GetMinutes(t: int): int { MinFromTime(LocalTime(t)) }

  /** `new Date(year, month, date, hours, minutes, seconds, ms)`: the fields are
      local time, years 0 to 99 mean 1900 to 1999, and every field may overflow
      into the next larger one. */
  function NewLocalDate(year: int, month: int, date: int, h: int, m: int, s: int, ms: int): Option<int> {
    var yr := if 0 <= year <= 99 then 1900 + year else year;
    TimeClip(Utc(MakeDate(MakeDay(yr, month, date), MakeTime(h, m, s, ms))))
  }

  /** `d.setDate(date)` on a valid date: same year, month and clock time. */
  function SetDate(t: int, date: int): Option<int> {
    var l := LocalTime(t);
    var c := CivilFromDay(Day(l));
    TimeClip(Utc(MakeDate(MakeDay(c.year, c.month, date), TimeWithinDay(l))))
  }

  /** `d.setMonth(month)` on a valid date: same year, day of the month and clock
      time; a day of the month the new month lacks overflows into the next. */
  function SetMonth(t: int, month: int): Option<int> {
    var l := LocalTime(t);
    var c := CivilFromDay(Day(l));
    TimeClip(Utc(MakeDate(MakeDay(c.year, month, c.date), TimeWithinDay(l))))
  }

  /** `d.setHours(h, m, s, ms)` on a valid date: same local day. */
  function SetHours(t: int, h: int, m: int, s: int, ms: int): Option<int> {
    TimeClip(Utc(MakeDate(Day(LocalTime(t)), MakeTime(h, m, s, ms))))
  }

  /** The instant at which t's local day begins. */
  function StartOfLocalDay(t: int): int {
    Utc(Day(LocalTime(t)) * MsPerDay)
  }

  lemma LocalDayBounds(t: int)
    ensures StartOfLocalDay(t) <= t < StartOfLocalDay(t) + MsPerDay
  {
  }

  /** Setting the day of the month to today's plus k moves exactly k whole days
      (there is no daylight saving in the fixed zone). */
  lemma SetDateMovesDays(t: int, k: int)
    ensures SetDate(t, GetDate(t) + k) == TimeClip(t + k * MsPerDay)
  {
    MakeDayShift(Day(LocalTime(t)), k);
  }

  /** Setting the month to the previous one keeps the day of the month and lets
      it overflow, so the date moves back by exactly the length of the previous
      month: March 31 becomes March 3 (March 2 in a leap year). */
  lemma SetMonthBackMovesPreviousMonthLength(t: int)
    ensures var p := PreviousMonth(LocalCivil(t));
      SetMonth(t, GetMonth(t) - 1) == TimeClip(t - DaysInMonth(p.year, p.month) * MsPerDay)
  {
    var l := LocalTime(t);
    var c := LocalCivil(t);
    var p := PreviousMonth(c);
    MakeDayPreviousMonth(Day(l));
    assert MakeDay(c.year, c.month - 1, c.date) == Day(l) - DaysInMonth(p.year, p.month);
  }

  /** Going back n whole days goes back n local days and keeps the local
      clock time. */
  lemma LocalDaysBack(t: int, n: int)
    ensures Day(LocalTime(t - n * MsPerDay)) == Day(LocalTime(t)) - n
    ensures TimeWithinDay(LocalTime(t - n * MsPerDay)) == TimeWithinDay(LocalTime(t))
  {
    assert LocalTime(t - n * MsPerDay) == LocalTime(t) + (-n) * MsPerDay;
    ShiftWholeDays(LocalTime(t), -n);
  }

  /** When the previous month has t's day of the month, going back the
      previous month's length lands on that day of the previous month
      (January goes to December of the year before) at the same local clock
      time. */
  lemma MonthBackSameDay(t: int)
    requires var p := PreviousMonth(LocalCivil(t)); GetDate(t) <= DaysInMonth(p.year, p.month)
    ensures var p := PreviousMonth(LocalCivil(t)); var n := DaysInMonth(p.year, p.month);
      var k := t - n * MsPerDay;
      && Day(LocalTime(k)) == Day(LocalTime(t)) - n
      && TimeWithinDay(LocalTime(k)) == TimeWithinDay(LocalTime(t))
      && CivilFromDay(Day(LocalTime(t)) - n) == CivilDate(p.year, p.month, GetDate(t))
  {
    var d := Day(LocalTime(t));
    var p := PreviousMonth(CivilFromDay(d));
    var n := DaysInMonth(p.year, p.month);
    LocalDaysBack(t, n);
    PreviousMonthSameDay(d);
  }

  /** When the previous month is shorter than t's day of the month, going
      back the previous month's length stays in t's month: from March 31 it
      lands on March 3, or March 2 in a leap year. */
  lemma MonthBackOverflows(t: int)
    requires var p := PreviousMonth(LocalCivil(t)); GetDate(t) > DaysInMonth(p.year, p.month)
    ensures var c := LocalCivil(t); var p := PreviousMonth(c); var n := DaysInMonth(p.year, p.month);
      var k := t - n * MsPerDay;
      && Day(LocalTime(k)) == Day(LocalTime(t)) - n
      && TimeWithinDay(LocalTime(k)) == TimeWithinDay(LocalTime(t))
      && CivilFromDay(Day(LocalTime(t)) - n) == CivilDate(c.year, c.month, c.date - n)
  {
    var d := Day(LocalTime(t));
    var p := PreviousMonth(CivilFromDay(d));
    var n := DaysInMonth(p.year, p.month);
    var c := CivilFromDay(d);
    PreviousMonthOverflow(d);
    assert CivilFromDay(d - n) == CivilDate(c.year, c.month, c.date - n);
    LocalDaysBack(t, n);
  }

  /** `setHours(0, 0, 0, 0)` and `setHours(23, 59, 59, 999)` bracket the local day. */
  lemma SetHoursBracketsDay(t: int)
    ensures SetHours(t, 0, 0, 0, 0) == TimeClip(StartOfLocalDay(t))
    ensures SetHours(t, 23, 59, 59, 999) == TimeClip(StartOfLocalDay(t) + MsPerDay - 1)
  {
  }

  /** `new Date(getFullYear(), getMonth(), getDate())` is local midnight, for
      every year the constructor does not reinterpret as 19xx. */
  lemma NewLocalDateOfOwnDate(t: int)
    requires !(0 <= GetFullYear(t) <= 99)
    ensures NewLocalDate(GetFullYear(t), GetMonth(t), GetDate(t), 0, 0, 0, 0) == TimeClip(StartOfLocalDay(t))
  {
    var l := LocalTime(t);
    var c := CivilFromDay(Day(l));
    MakeDayShift(Day(l), 0);
    assert MakeDay(c.year, c.month, c.date) == Day(l);
    assert MakeTime(0, 0, 0, 0) == 0;
  }
}
