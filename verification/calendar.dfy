/**
 * The proleptic Gregorian calendar as ECMAScript's Date object computes it
 * (section 21.4.1 of ECMA-262): time values are integral milliseconds since
 * 1970-01-01T00:00:00Z, days are numbered from that epoch, and months are
 * zero-based. Every Date getter, setter and constructor the pipeline calls is
 * defined from these functions in module JsDate.
 */
module Calendar {

  const MsPerSecond := 1000
  const MsPerMinute := 60000
  const MsPerHour := 3600000
  const MsPerDay := 86400000

  /** The number of the day holding time value t (floor division). */
  function Day(t: int): int { t / MsPerDay }

  /** Milliseconds elapsed since the start of t's day. */
  function TimeWithinDay(t: int): int { t % MsPerDay }

  predicate IsLeapYear(y: int) {
    y % 4 == 0 && (y % 100 != 0 || y % 400 == 0)
  }

  function DaysInYear(y: int): int {
    if IsLeapYear(y) then 366 else 365
  }

  /** Day number of the first day of year y: the days of the years from 1970
      up to y, counted backwards for years before 1970. */
  function DayFromYear(y: int): int
    decreases if y < 1970 then 1970 - y else y - 1970
  {
    if y == 1970 then 0
    else if y > 1970 then DayFromYear(y - 1) + DaysInYear(y - 1)
    else DayFromYear(y + 1) - DaysInYear(y)
  }

  lemma DayFromYearStep(y: int)
    ensures DayFromYear(y + 1) == DayFromYear(y) + DaysInYear(y)
  {
  }

  /** The closed form section 21.4.1.3 of ECMA-262 gives for DayFromYear. */
  lemma {:induction false} DayFromYearClosedForm(y: int)
    ensures DayFromYear(y) == 365 * (y - 1970) + (y - 1969) / 4 - (y - 1901) / 100 + (y - 1601) / 400
    decreases if y < 1970 then 1970 - y else y - 1970
  {
    if y > 1970 {
      DayFromYearClosedForm(y - 1);
      LeapDaysStep(y - 1);
    } else if y < 1970 {
      DayFromYearClosedForm(y + 1);
      LeapDaysStep(y);
    }
  }

  lemma LeapDaysStep(y: int)
    ensures (y - 1968) / 4 - (y - 1900) / 100 + (y - 1600) / 400
      == (y - 1969) / 4 - (y - 1901) / 100 + (y - 1601) / 400 + (if IsLeapYear(y) then 1 else 0)
  {
    FourYearStep(y);
    CenturyStep(y);
    QuadricentennialStep(y);
  }

  lemma FourYearStep(y: int)
    ensures (y - 1968) / 4 == (y - 1969) / 4 + (if y % 4 == 0 then 1 else 0)
  {
    FloorStep(y - 1969, 4);
    ModShift(y, 4, -492);
  }

  lemma CenturyStep(y: int)
    ensures (y - 1900) / 100 == (y - 1901) / 100 + (if y % 100 == 0 then 1 else 0)
  {
    FloorStep(y - 1901, 100);
    ModShift(y, 100, -19);
  }

  lemma QuadricentennialStep(y: int)
    ensures (y - 1600) / 400 == (y - 1601) / 400 + (if y % 400 == 0 then 1 else 0)
  {
    FloorStep(y - 1601, 400);
    ModShift(y, 400, -4);
  }

  /** Years start later the later they are, by at least 365 days per year. */
  lemma {:induction false} DayFromYearGrows(a: int, b: int)
    requires a <= b
    ensures DayFromYear(a) + 365 * (b - a) <= DayFromYear(b)
    decreases b - a
  {
    if a < b {
      DayFromYearStep(a);
      DayFromYearGrows(a + 1, b);
    }
  }

  /** The year holding day d: the one whose first day is at or before d and
      whose successor's first day is after d. */
  function YearFromDay(d: int): (y: int)
    ensures DayFromYear(y) <= d < DayFromYear(y + 1)
  {
    YearSearch(d, 1970)
  }

  function YearSearch(d: int, y: int): (r: int)
    ensures DayFromYear(r) <= d < DayFromYear(r + 1)
    decreases if d < DayFromYear(y) then DayFromYear(y) - d + 366 else d - DayFromYear(y)
  {
    DayFromYearStep(y);
    DayFromYearStep(y - 1);
    if d < DayFromYear(y) then YearSearch(d, y - 1)
    else if d >= DayFromYear(y + 1) then YearSearch(d, y + 1)
    else y
  }

  /** At most one year brackets a day. */
  lemma YearFromDayUnique(d: int, y: int)
    requires DayFromYear(y) <= d < DayFromYear(y + 1)
    ensures YearFromDay(d) == y
  {
    var r := YearFromDay(d);
    if r < y {
      DayFromYearGrows(r + 1, y);
    } else if r > y {
      DayFromYearGrows(y + 1, r);
    }
  }

  /** Days of a common year that precede zero-based month m. */
  function CommonDaysBeforeMonth(m: int): int
    requires 0 <= m <= 12
  {
    if m < 6 then
      if m < 3 then (if m == 0 then 0 else if m == 1 then 31 else 59)
      else (if m == 3 then 90 else if m == 4 then 120 else 151)
    else if m < 9 then (if m == 6 then 181 else if m == 7 then 212 else 243)
    else if m < 12 then (if m == 9 then 273 else if m == 10 then 304 else 334)
    else 365
  }

  /** Days of year y that precede zero-based month m; m == 12 gives the whole year. */
  function DaysBeforeMonth(y: int, m: int): int
    requires 0 <= m <= 12
  {
    CommonDaysBeforeMonth(m) + (if m >= 2 && IsLeapYear(y) then 1 else 0)
  }

  function DaysInMonth(y: int, m: int): (n: int)
    requires 0 <= m <= 11
    ensures 28 <= n <= 31
    ensures n == 28 <==> m == 1 && !IsLeapYear(y)
  {
    DaysBeforeMonth(y, m + 1) - DaysBeforeMonth(y, m)
  }

  /** The zero-based month holding day w (counted from 0) of year y. */
  function MonthSearch(y: int, w: int, m: int): (r: int)
    requires 0 <= m <= 11 && 0 <= w < DaysBeforeMonth(y, m + 1)
    ensures 0 <= r <= m
    ensures DaysBeforeMonth(y, r) <= w < DaysBeforeMonth(y, r + 1)
    decreases m
  {
    if DaysBeforeMonth(y, m) <= w then m else MonthSearch(y, w, m - 1)
  }

  /** A calendar date with a zero-based month, as ECMAScript's getters report it. */
  datatype CivilDate = CivilDate(year: int, month: int, date: int)

  predicate ValidCivil(c: CivilDate) {
    0 <= c.month <= 11 && 1 <= c.date <= DaysInMonth(c.year, c.month)
  }

  /** Year, month and day of the month of day number d. */
  function CivilFromDay(d: int): (c: CivilDate)
    ensures ValidCivil(c)
    ensures d == DayFromYear(c.year) + DaysBeforeMonth(c.year, c.month) + c.date - 1
  {
    var y := YearFromDay(d);
    DayFromYearStep(y);
    var w := d - DayFromYear(y);
    var m := MonthSearch(y, w, 11);
    CivilDate(y, m, w - DaysBeforeMonth(y, m) + 1)
  }

  /** MakeDay of ECMA-262: months outside 0..11 carry into the year and days
      outside the month carry into neighbouring months, so it never fails. */
  function MakeDay(year: int, month: int, date: int): int {
    var ym := year + month / 12;
    var mn := month % 12;
    DayFromYear(ym) + DaysBeforeMonth(ym, mn) + date - 1
  }

  function MakeTime(hour: int, min: int, sec: int, ms: int): int {
    hour * MsPerHour + min * MsPerMinute + sec * MsPerSecond + ms
  }

  function MakeDate(day: int, time: int): int {
    day * MsPerDay + time
  }

  /** Rebuilding a day from its own year and month with the day of the month
      shifted by k lands k days away: MakeDay normalises across months and years. */
  lemma MakeDayShift(d: int, k: int)
    ensures var c := CivilFromDay(d); MakeDay(c.year, c.month, c.date + k) == d + k
  {
    var c := CivilFromDay(d);
    MakeDayInYear(c.year, c.month, c.date + k);
  }

  /** The first day of the month before c's month: December of the previous
      year for January. */
  function PreviousMonth(c: CivilDate): (p: CivilDate)
    requires 0 <= c.month <= 11
    ensures 0 <= p.month <= 11 && p.date == 1
    ensures p.year == c.year || (c.month == 0 && p.year == c.year - 1 && p.month == 11)
  {
    if c.month == 0 then CivilDate(c.year - 1, 11, 1) else CivilDate(c.year, c.month - 1, 1)
  }

  /** Asking for the same day of the previous month lands exactly that month's
      length earlier: the day of the month is kept and overflows, never clamped. */
  lemma MakeDayPreviousMonth(d: int)
    ensures var c := CivilFromDay(d); var p := PreviousMonth(c);
      MakeDay(c.year, c.month - 1, c.date) == d - DaysInMonth(p.year, p.month)
  {
    var c := CivilFromDay(d);
    if c.month == 0 {
      DayFromYearStep(c.year - 1);
      DivUnique(-1, 12, -1);
    } else {
      MakeDayInYear(c.year, c.month - 1, c.date);
    }
  }

  /** Going back the previous month's length from a day that month also has
      lands on that same day of the previous month. */
  lemma PreviousMonthSameDay(d: int)
    requires var c := CivilFromDay(d); var p := PreviousMonth(c); c.date <= DaysInMonth(p.year, p.month)
    ensures var c := CivilFromDay(d); var p := PreviousMonth(c);
      CivilFromDay(d - DaysInMonth(p.year, p.month)) == CivilDate(p.year, p.month, c.date)
  {
    var c := CivilFromDay(d);
    if c.month == 0 {
      JanuaryBack(d, c);
    } else {
      SameYearBack(d, c);
    }
  }

  lemma JanuaryBack(d: int, c: CivilDate)
    requires ValidCivil(c) && d == DayFromYear(c.year) + DaysBeforeMonth(c.year, c.month) + c.date - 1
    requires c.month == 0 && c.date <= DaysInMonth(c.year - 1, 11)
    ensures var p := PreviousMonth(c);
      CivilFromDay(d - DaysInMonth(p.year, p.month)) == CivilDate(p.year, p.month, c.date)
  {
    var y := c.year - 1;
    DayFromYearStep(y);
    assert DaysInMonth(y, 11) == 31;
    assert DaysBeforeMonth(y, 11) + 31 == DaysInYear(y);
    CivilFromDayUnique(d - 31, CivilDate(y, 11, c.date));
  }

  lemma SameYearBack(d: int, c: CivilDate)
    requires ValidCivil(c) && d == DayFromYear(c.year) + DaysBeforeMonth(c.year, c.month) + c.date - 1
    requires 1 <= c.month && c.date <= DaysInMonth(c.year, c.month - 1)
    ensures var p := PreviousMonth(c);
      CivilFromDay(d - DaysInMonth(p.year, p.month)) == CivilDate(p.year, p.month, c.date)
  {
    var m := c.month - 1;
    var n := DaysInMonth(c.year, m);
    assert DaysBeforeMonth(c.year, c.month) == DaysBeforeMonth(c.year, m) + n;
    CivilFromDayUnique(d - n, CivilDate(c.year, m, c.date));
  }

  /** Going back the previous month's length from a day that month lacks
      stays in the current month, that many days earlier. */
  lemma PreviousMonthOverflow(d: int)
    requires var c := CivilFromDay(d); var p := PreviousMonth(c); c.date > DaysInMonth(p.year, p.month)
    ensures var c := CivilFromDay(d); var p := PreviousMonth(c);
      CivilFromDay(d - DaysInMonth(p.year, p.month)) == CivilDate(c.year, c.month, c.date - DaysInMonth(p.year, p.month))
  {
    var c := CivilFromDay(d);
    var p := PreviousMonth(c);
    CivilFromDayUnique(d - DaysInMonth(p.year, p.month), CivilDate(c.year, c.month, c.date - DaysInMonth(p.year, p.month)));
  }

  /** Moving a time value by whole days moves its day and keeps its clock time. */
  lemma ShiftWholeDays(t: int, n: int)
    ensures Day(t + n * MsPerDay) == Day(t) + n
    ensures TimeWithinDay(t + n * MsPerDay) == TimeWithinDay(t)
  {
    DivUnique(t + n * MsPerDay, MsPerDay, Day(t) + n);
  }

  /** MakeDay of a month within its year adds the days before that month. */
  lemma MakeDayInYear(y: int, m: int, date: int)
    requires 0 <= m <= 11
    ensures MakeDay(y, m, date) == DayFromYear(y) + DaysBeforeMonth(y, m) + date - 1
  {
    DivUnique(m, 12, 0);
  }

  /** The day a valid calendar date names lies in that date's year. */
  lemma YearOfCivilDay(d: int, c: CivilDate)
    requires ValidCivil(c)
    requires d == DayFromYear(c.year) + DaysBeforeMonth(c.year, c.month) + c.date - 1
    ensures YearFromDay(d) == c.year
  {
    DayFromYearStep(c.year);
    DaysBeforeMonthGrows(c.year, c.month + 1, 12);
    YearFromDayUnique(d, c.year);
  }

  /** The day a valid calendar date names is converted back to that date. */
  lemma CivilFromDayUnique(d: int, c: CivilDate)
    requires ValidCivil(c)
    requires d == DayFromYear(c.year) + DaysBeforeMonth(c.year, c.month) + c.date - 1
    ensures CivilFromDay(d) == c
  {
    YearOfCivilDay(d, c);
    MonthSearchUnique(c.year, d - DayFromYear(c.year), 11, c.month);
  }

  /** A valid calendar date survives the trip to a day number and back. */
  lemma CivilOfMakeDay(c: CivilDate)
    requires ValidCivil(c)
    ensures CivilFromDay(MakeDay(c.year, c.month, c.date)) == c
  {
    MakeDayInYear(c.year, c.month, c.date);
    CivilFromDayUnique(MakeDay(c.year, c.month, c.date), c);
  }

  lemma MonthSearchUnique(y: int, w: int, m: int, k: int)
    requires 0 <= k <= m <= 11
    requires DaysBeforeMonth(y, k) <= w < DaysBeforeMonth(y, k + 1)
    ensures MonthSearch(y, w, m) == k
    decreases m
  {
    if m > k {
      DaysBeforeMonthGrows(y, k + 1, m);
      MonthSearchUnique(y, w, m - 1, k);
    }
  }

  lemma DaysBeforeMonthGrows(y: int, a: int, b: int)
    requires 0 <= a <= b <= 12
    ensures DaysBeforeMonth(y, a) <= DaysBeforeMonth(y, b)
  {
  }

  /** Calendar dates ordered by year, then month, then day. */
  predicate CivilBefore(a: CivilDate, b: CivilDate) {
    a.year < b.year
    || (a.year == b.year && a.month < b.month)
    || (a.year == b.year && a.month == b.month && a.date < b.date)
  }

  /** Later days have later calendar dates. */
  lemma CivilFromDayOrdered(d1: int, d2: int)
    requires d1 < d2
    ensures CivilBefore(CivilFromDay(d1), CivilFromDay(d2))
  {
    var c1, c2 := CivilFromDay(d1), CivilFromDay(d2);
    YearFromDayOrdered(d1, d2);
    if c1.year == c2.year {
      MonthOrdered(d1, d2);
    }
  }

  lemma YearFromDayOrdered(d1: int, d2: int)
    requires d1 <= d2
    ensures YearFromDay(d1) <= YearFromDay(d2)
  {
    var y1, y2 := YearFromDay(d1), YearFromDay(d2);
    if y1 > y2 {
      DayFromYearGrows(y2 + 1, y1);
      assert false;
    }
  }

  lemma MonthOrdered(d1: int, d2: int)
    requires d1 <= d2
    requires CivilFromDay(d1).year == CivilFromDay(d2).year
    ensures CivilFromDay(d1).month <= CivilFromDay(d2).month
  {
    var c1, c2 := CivilFromDay(d1), CivilFromDay(d2);
    CivilFromDayBounds(d2);
    if c1.month > c2.month {
      DaysBeforeMonthGrows(c1.year, c2.month + 1, c1.month);
      assert false;
    }
  }

  /** Day d lies within its year and within its month. */
  lemma CivilFromDayBounds(d: int)
    ensures var c := CivilFromDay(d);
      && DayFromYear(c.year) + DaysBeforeMonth(c.year, c.month) <= d
      && d < DayFromYear(c.year) + DaysBeforeMonth(c.year, c.month + 1)
      && d < DayFromYear(c.year + 1)
  {
    var c := CivilFromDay(d);
    DaysBeforeMonthGrows(c.year, c.month + 1, 12);
    DayFromYearStep(c.year);
  }

  /** Day of the week, 0 for Sunday: day 0 (1970-01-01) was a Thursday. */
  function WeekDay(d: int): (w: int)
    ensures 0 <= w < 7
  {
    (d + 4) % 7
  }

  function HourFromTime(t: int): (h: int)
    ensures 0 <= h < 24
  {
    (t / MsPerHour) % 24
  }

  function MinFromTime(t: int): (m: int)
    ensures 0 <= m < 60
  {
    (t / MsPerMinute) % 60
  }

  function SecFromTime(t: int): (s: int)
    ensures 0 <= s < 60
  {
    (t / MsPerSecond) % 60
  }

  function MsFromTime(t: int): (ms: int)
    ensures 0 <= ms < 1000
  {
    t % MsPerSecond
  }

  lemma MulMonotone(k: int, a: int, b: int)
    requires k > 0 && a <= b
    ensures k * a <= k * b
  {
    assert k * b - k * a == k * (b - a);
  }

  /** Euclidean division is determined by its bounds. */
  lemma DivUnique(x: int, k: int, q: int)
    requires k > 0 && k * q <= x < k * q + k
    ensures x / k == q && x % k == x - k * q
  {
    if x / k > q {
      MulMonotone(k, q + 1, x / k);
      assert false;
    } else if x / k < q {
      MulMonotone(k, x / k + 1, q);
      assert false;
    }
  }

  /** Adding one to x raises x / k exactly when x + 1 is a multiple of k. */
  lemma FloorStep(x: int, k: int)
    requires k > 0
    ensures (x + 1) / k == x / k + (if (x + 1) % k == 0 then 1 else 0)
  {
    var q := x / k;
    if x % k == k - 1 {
      DivUnique(x + 1, k, q + 1);
    } else {
      DivUnique(x + 1, k, q);
    }
  }

  /** Shifting by a multiple of k leaves the remainder alone. */
  lemma ModShift(x: int, k: int, q: int)
    requires k > 0
    ensures (x + k * q) % k == x % k
  {
    DivUnique(x + k * q, k, x / k + q);
  }

  /** Clock fields within their ranges are read back unchanged. */
  lemma FieldsOfMakeDate(day: int, h: int, m: int, s: int, ms: int)
    requires 0 <= h < 24 && 0 <= m < 60 && 0 <= s < 60 && 0 <= ms < 1000
    ensures var t := MakeDate(day, MakeTime(h, m, s, ms));
      && Day(t) == day && TimeWithinDay(t) == MakeTime(h, m, s, ms)
      && HourFromTime(t) == h && MinFromTime(t) == m
      && SecFromTime(t) == s && MsFromTime(t) == ms
  {
    var t := MakeDate(day, MakeTime(h, m, s, ms));
    DivUnique(t, MsPerDay, day);
    DivUnique(t, MsPerHour, 24 * day + h);
    DivUnique(24 * day + h, 24, day);
    DivUnique(t, MsPerMinute, 1440 * day + 60 * h + m);
    DivUnique(1440 * day + 60 * h + m, 60, 24 * day + h);
    DivUnique(t, MsPerSecond, 86400 * day + 3600 * h + 60 * m + s);
    DivUnique(86400 * day + 3600 * h + 60 * m + s, 60, 1440 * day + 60 * h + m);
  }

  /** A time value is its day plus its clock fields. */
  lemma TimeDecomposition(t: int)
    ensures TimeWithinDay(t)
      == MakeTime(HourFromTime(t), MinFromTime(t), SecFromTime(t), MsFromTime(t))
    ensures t == MakeDate(Day(t), MakeTime(HourFromTime(t), MinFromTime(t), SecFromTime(t), MsFromTime(t)))
  {
    var w := TimeWithinDay(t);
    var h := w / MsPerHour;
    var r1 := w % MsPerHour;
    var m := r1 / MsPerMinute;
    var r2 := r1 % MsPerMinute;
    var s := r2 / MsPerSecond;
    var ms := r2 % MsPerSecond;
    assert t == MakeDate(Day(t), MakeTime(h, m, s, ms));
    FieldsOfMakeDate(Day(t), h, m, s, ms);
  }
}
