/**
 * The text form the pipeline stores and compares timestamps in: the output of
 * `Date.prototype.toISOString` (section 21.4.4.36 of ECMA-262), and the parse
 * of that same format by `new Date(string)` (section 21.4.1.32, the Date Time
 * String Format). For years 0 to 9999 the two are inverse, and comparing the
 * texts as SQLite does compares the instants.
 */
module IsoText {
  import opened Calendar
  import opened Decimal
  import opened JsDate
  import opened Outcomes
  import opened TextOrder

  /** The numbers an ISO text spells; the month counts from 1. */
  datatype IsoNumbers = IsoNumbers(year: int, month: nat, day: nat, hour: nat, minute: nat, second: nat, milli: nat)

  /** The fields of an ISO text, each written out. */
  datatype IsoFields = IsoFields(year: string, month: string, day: string,
                                 hour: string, minute: string, second: string, milli: string)

  /** Every field after the year has its fixed width. */
  predicate FixedWidths(f: IsoFields) {
    |f.month| == 2 && |f.day| == 2 && |f.hour| == 2 && |f.minute| == 2 && |f.second| == 2 && |f.milli| == 3
  }

  /** The clock part `HH:mm:ss.sssZ`. */
  function ClockText(h: string, mi: string, sec: string, ms: string): string {
    h + (":" + (mi + (":" + (sec + ("." + (ms + "Z"))))))
  }

  /** `YYYY-MM-DDTHH:mm:ss.sssZ`. */
  function Assemble(f: IsoFields): string {
    f.year + ("-" + (f.month + ("-" + (f.day + ("T" + ClockText(f.hour, f.minute, f.second, f.milli))))))
  }

  /** Four digits for years 0 to 9999; otherwise a sign and six digits. */
  function YearField(y: int): string {
    if 0 <= y <= 9999 then Pad(y, 4)
    else (if y < 0 then "-" else "+") + Pad(if y < 0 then -y else y, 6)
  }

  /** Each number zero-padded to its field's width. */
  function PadFields(n: IsoNumbers): (f: IsoFields)
    ensures FixedWidths(f)
  {
    IsoFields(YearField(n.year), Pad(n.month, 2), Pad(n.day, 2), Pad(n.hour, 2), Pad(n.minute, 2), Pad(n.second, 2), Pad(n.milli, 3))
  }

  /** The UTC calendar date and clock time of time value t. */
  function NumbersOf(t: int): (n: IsoNumbers)
    ensures 1 <= n.month <= 12 && 1 <= n.day <= 31
    ensures n.hour < 24 && n.minute < 60 && n.second < 60 && n.milli < 1000
  {
    var c := CivilFromDay(Day(t));
    IsoNumbers(c.year, c.month + 1, c.date, HourFromTime(t), MinFromTime(t), SecFromTime(t), MsFromTime(t))
  }

  /** `toISOString()` of a valid date. */
  function ToIsoString(t: int): string {
    Assemble(PadFields(NumbersOf(t)))
  }

  /** The instants whose ISO text has a four-digit year. */
  predicate InIsoYears(t: int) {
    0 <= CivilFromDay(Day(t)).year <= 9999
  }

  /** Years 0 to 9999 begin no earlier than 0000-01-01 and end no later than 9999-12-31. */
  lemma FourDigitYearDays(y: int)
    requires 0 <= y <= 9999
    ensures -719528 <= DayFromYear(y) && DayFromYear(y + 1) <= 2932897
  {
    DayFromYearClosedForm(y);
    DayFromYearClosedForm(y + 1);
  }

  /** Years 0 to 9999 lie well inside the range of valid time values. */
  lemma IsoYearsAreTimeValues(t: int)
    requires InIsoYears(t)
    ensures IsTimeValue(t)
    ensures -62167219200000 <= t < 253402300800000
  {
    FourDigitYearDays(CivilFromDay(Day(t)).year);
  }

  /** s has the shape `____-__-__T__:__:__.___Z`. */
  predicate IsoShaped(s: string) {
    |s| == 24 && s[4] == '-' && s[7] == '-' && s[10] == 'T' && s[13] == ':'
    && s[16] == ':' && s[19] == '.' && s[23] == 'Z'
  }

  /** The fields of a 24-character text, cut at the positions of the format. */
  function SplitIso(s: string): IsoFields
    requires |s| == 24
  {
    IsoFields(s[0..4], s[5..7], s[8..10], s[11..13], s[14..16], s[17..19], s[20..23])
  }

  /** The numbers the fields spell, if every field is all digits. */
  function ReadFields(f: IsoFields): Option<IsoNumbers> {
    var y, mo, d := ReadDigits(f.year), ReadDigits(f.month), ReadDigits(f.day);
    var h, mi, s, ms := ReadDigits(f.hour), ReadDigits(f.minute), ReadDigits(f.second), ReadDigits(f.milli);
    if y.Some? && mo.Some? && d.Some? && h.Some? && mi.Some? && s.Some? && ms.Some? then
      Some(IsoNumbers(y.value, mo.value, d.value, h.value, mi.value, s.value, ms.value))
    else None
  }

  /** The numbers name a real date with a four-digit year and a clock time no
      later than 23:59:59.999. */
  predicate ValidNumbers(n: IsoNumbers) {
    0 <= n.year <= 9999 && 1 <= n.month <= 12 && 1 <= n.day <= DaysInMonth(n.year, n.month - 1)
    && n.hour <= 23 && n.minute <= 59 && n.second <= 59 && n.milli <= 999
  }

  /** The instant valid numbers name. */
  function NumbersValue(n: IsoNumbers): (t: int)
    requires ValidNumbers(n)
  {
    MakeDate(MakeDay(n.year, n.month - 1, n.day), MakeTime(n.hour, n.minute, n.second, n.milli))
  }

  /** `new Date(s)` for a string in the Date Time String Format with a
      four-digit year, full time and `Z`; NaN (None) for any other text. */
  function ParseIso(s: string): (r: Option<int>)
    ensures r.Some? ==> IsTimeValue(r.value)
  {
    if !IsoShaped(s) then None
    else match ReadFields(SplitIso(s))
      case None => None
      case Some(n) =>
        if ValidNumbers(n) then
          NumbersOfValue(n);
          IsoYearsAreTimeValues(NumbersValue(n));
          Some(NumbersValue(n))
        else None
  }

  /** Valid numbers are read back from the instant they name. */
  lemma NumbersOfValue(n: IsoNumbers)
    requires ValidNumbers(n)
    ensures InIsoYears(NumbersValue(n)) && NumbersOf(NumbersValue(n)) == n
  {
    var c := CivilDate(n.year, n.month - 1, n.day);
    FieldsOfMakeDate(MakeDay(c.year, c.month, c.date), n.hour, n.minute, n.second, n.milli);
    CivilOfMakeDay(c);
  }

  /** An instant is rebuilt from its own calendar date and clock fields. */
  lemma RebuildFromFields(t: int)
    ensures var c := CivilFromDay(Day(t));
      MakeDate(MakeDay(c.year, c.month, c.date), MakeTime(HourFromTime(t), MinFromTime(t), SecFromTime(t), MsFromTime(t))) == t
  {
    TimeDecomposition(t);
    MakeDayShift(Day(t), 0);
  }

  /** The numbers of an instant with a four-digit year are valid and name it. */
  lemma ValueOfNumbers(t: int)
    requires InIsoYears(t)
    ensures ValidNumbers(NumbersOf(t)) && NumbersValue(NumbersOf(t)) == t
  {
    RebuildFromFields(t);
  }

  lemma SuffixSlice(s: string, k: nat, a: nat, b: nat)
    requires a <= b && k + b <= |s|
    ensures s[k + a..k + b] == s[k..][a..b]
  {
  }

  /** Where each field of a clock text sits, whatever its digits. */
  lemma ClockLayout(h: string, mi: string, sec: string, ms: string)
    requires |h| == 2 && |mi| == 2 && |sec| == 2 && |ms| == 3
    ensures var c := ClockText(h, mi, sec, ms);
      && |c| == 13
      && c[0..2] == h && c[2] == ':' && c[3..5] == mi && c[5] == ':'
      && c[6..8] == sec && c[8] == '.' && c[9..12] == ms && c[12] == 'Z'
  {
    var x := sec + ("." + (ms + "Z"));
    var m := mi + (":" + x);
    var c := h + (":" + m);
    assert c[3..] == m;
    assert m[3..] == x;
    assert c[6..] == x;
    SuffixSlice(c, 3, 0, 2);
    SuffixSlice(c, 6, 0, 2);
    SuffixSlice(c, 6, 4, 7);
  }

  /** Where each field of an ISO text sits, up to its clock part. */
  lemma DateLayout(y: string, mo: string, d: string, c: string)
    requires |y| == 4 && |mo| == 2 && |d| == 2
    ensures var s := y + ("-" + (mo + ("-" + (d + ("T" + c)))));
      && |s| == 11 + |c|
      && s[0..4] == y && s[4] == '-' && s[5..7] == mo && s[7] == '-'
      && s[8..10] == d && s[10] == 'T' && s[11..] == c
  {
    var e := d + ("T" + c);
    var r := "-" + (mo + ("-" + e));
    var s := y + r;
    assert s[4..] == r;
    assert s[8..] == e;
    assert s[11..] == c;
    SuffixSlice(s, 4, 1, 3);
    SuffixSlice(s, 8, 0, 2);
  }

  /** An assembled text with a four-character year has the shape of the
      format, and cutting it up gives back its fields. */
  lemma IsoLayout(f: IsoFields)
    requires |f.year| == 4 && FixedWidths(f)
    ensures IsoShaped(Assemble(f)) && SplitIso(Assemble(f)) == f
  {
    var c := ClockText(f.hour, f.minute, f.second, f.milli);
    var s := Assemble(f);
    ClockLayout(f.hour, f.minute, f.second, f.milli);
    DateLayout(f.year, f.month, f.day, c);
    SuffixSlice(s, 11, 0, 2);
    SuffixSlice(s, 11, 3, 5);
    SuffixSlice(s, 11, 6, 8);
    SuffixSlice(s, 11, 9, 12);
  }

  /** Two 24-character texts that agree field by field are equal. */
  lemma SameSlicesSameText(a: string, b: string)
    requires |a| == 24 && |b| == 24
    requires a[0..4] == b[0..4] && a[4] == b[4] && a[5..7] == b[5..7] && a[7] == b[7]
    requires a[8..10] == b[8..10] && a[10] == b[10] && a[11..13] == b[11..13] && a[13] == b[13]
    requires a[14..16] == b[14..16] && a[16] == b[16] && a[17..19] == b[17..19] && a[19] == b[19]
    requires a[20..23] == b[20..23] && a[23] == b[23]
    ensures a == b
  {
    forall i | 0 <= i < 24
      ensures a[i] == b[i]
    {
      if i < 4 { assert a[i] == a[0..4][i] && b[i] == b[0..4][i]; }
      else if 5 <= i < 7 { assert a[i] == a[5..7][i - 5] && b[i] == b[5..7][i - 5]; }
      else if 8 <= i < 10 { assert a[i] == a[8..10][i - 8] && b[i] == b[8..10][i - 8]; }
      else if 11 <= i < 13 { assert a[i] == a[11..13][i - 11] && b[i] == b[11..13][i - 11]; }
      else if 14 <= i < 16 { assert a[i] == a[14..16][i - 14] && b[i] == b[14..16][i - 14]; }
      else if 17 <= i < 19 { assert a[i] == a[17..19][i - 17] && b[i] == b[17..19][i - 17]; }
      else if 20 <= i < 23 { assert a[i] == a[20..23][i - 20] && b[i] == b[20..23][i - 20]; }
    }
  }

  /** A well-shaped text is the assembly of its own fields. */
  lemma ShapedIsAssembled(s: string)
    requires IsoShaped(s)
    ensures Assemble(SplitIso(s)) == s
  {
    var f := SplitIso(s);
    IsoLayout(f);
    SameSlicesSameText(s, Assemble(f));
  }

  /** The numbers fit their fields: four-digit year, two-digit fields, three-digit milliseconds. */
  predicate Fits(n: IsoNumbers) {
    0 <= n.year <= 9999 && n.month < 100 && n.day < 100
    && n.hour < 100 && n.minute < 100 && n.second < 100 && n.milli < 1000
  }

  /** Numbers that fit are read back from their padded fields. */
  lemma ReadPadFields(n: IsoNumbers)
    requires Fits(n)
    ensures ReadFields(PadFields(n)) == Some(n)
  {
    assert Pow10(2) == 100 && Pow10(3) == 1000 && Pow10(4) == 10000;
    ReadPad(n.year, 4);
    ReadPad(n.month, 2);
    ReadPad(n.day, 2);
    ReadPad(n.hour, 2);
    ReadPad(n.minute, 2);
    ReadPad(n.second, 2);
    ReadPad(n.milli, 3);
  }

  /** Fields that read as some numbers are those numbers padded. */
  lemma PadReadFields(f: IsoFields)
    requires |f.year| == 4 && FixedWidths(f) && ReadFields(f).Some?
    ensures Fits(ReadFields(f).value) && PadFields(ReadFields(f).value) == f
  {
    assert Pow10(2) == 100 && Pow10(3) == 1000 && Pow10(4) == 10000;
    PadOfRead(f.year);
    PadOfRead(f.month);
    PadOfRead(f.day);
    PadOfRead(f.hour);
    PadOfRead(f.minute);
    PadOfRead(f.second);
    PadOfRead(f.milli);
  }

  /** Parsing the ISO text of an instant with a four-digit year gives the instant back. */
  lemma ParseOfIso(t: int)
    requires InIsoYears(t)
    ensures ParseIso(ToIsoString(t)) == Some(t)
  {
    var n := NumbersOf(t);
    ReadPadFields(n);
    IsoLayout(PadFields(n));
    ValueOfNumbers(t);
  }

  /** Any text the parser accepts is the ISO text of the instant it yields. */
  lemma IsoOfParse(s: string)
    requires ParseIso(s).Some?
    ensures InIsoYears(ParseIso(s).value)
    ensures ToIsoString(ParseIso(s).value) == s
  {
    var n := ReadFields(SplitIso(s)).value;
    PadReadFields(SplitIso(s));
    NumbersOfValue(n);
    ShapedIsAssembled(s);
  }

  /** f1 precedes f2 field by field, the first field that differs deciding. */
  predicate FieldsBefore(f1: IsoFields, f2: IsoFields) {
    TextLess(f1.year, f2.year)
    || (f1.year == f2.year && TextLess(f1.month, f2.month))
    || (f1.year == f2.year && f1.month == f2.month && TextLess(f1.day, f2.day))
    || (f1.year == f2.year && f1.month == f2.month && f1.day == f2.day && ClockBefore(f1, f2))
  }

  predicate ClockBefore(f1: IsoFields, f2: IsoFields) {
    TextLess(f1.hour, f2.hour)
    || (f1.hour == f2.hour && TextLess(f1.minute, f2.minute))
    || (f1.hour == f2.hour && f1.minute == f2.minute && TextLess(f1.second, f2.second))
    || (f1.hour == f2.hour && f1.minute == f2.minute && f1.second == f2.second && TextLess(f1.milli, f2.milli))
  }

  /** Clock parts with fixed-width fields sort field by field. */
  lemma ClockTextOrdered(f1: IsoFields, f2: IsoFields)
    requires FixedWidths(f1) && FixedWidths(f2) && ClockBefore(f1, f2)
    ensures TextLess(ClockText(f1.hour, f1.minute, f1.second, f1.milli),
                     ClockText(f2.hour, f2.minute, f2.second, f2.milli))
  {
    var m1, m2 := f1.milli + "Z", f2.milli + "Z";
    var x1, x2 := f1.second + ("." + m1), f2.second + ("." + m2);
    var n1, n2 := f1.minute + (":" + x1), f2.minute + (":" + x2);
    if TextLess(f1.hour, f2.hour) {
      TextLessFirstPart(f1.hour, ":" + n1, f2.hour, ":" + n2);
    } else {
      if TextLess(f1.minute, f2.minute) {
        TextLessFirstPart(f1.minute, ":" + x1, f2.minute, ":" + x2);
      } else {
        if TextLess(f1.second, f2.second) {
          TextLessFirstPart(f1.second, "." + m1, f2.second, "." + m2);
        } else {
          TextLessFirstPart(f1.milli, "Z", f2.milli, "Z");
          TextLessSamePrefix(".", m1, m2);
          TextLessSamePrefix(f1.second, "." + m1, "." + m2);
        }
        TextLessSamePrefix(":", x1, x2);
        TextLessSamePrefix(f1.minute, ":" + x1, ":" + x2);
      }
      TextLessSamePrefix(":", n1, n2);
      TextLessSamePrefix(f1.hour, ":" + n1, ":" + n2);
    }
  }

  /** ISO texts with equally long years and fixed-width fields sort field by field. */
  lemma AssembleOrdered(f1: IsoFields, f2: IsoFields)
    requires |f1.year| == |f2.year| && FixedWidths(f1) && FixedWidths(f2) && FieldsBefore(f1, f2)
    ensures TextLess(Assemble(f1), Assemble(f2))
  {
    var c1 := ClockText(f1.hour, f1.minute, f1.second, f1.milli);
    var c2 := ClockText(f2.hour, f2.minute, f2.second, f2.milli);
    var d1, d2 := f1.day + ("T" + c1), f2.day + ("T" + c2);
    var o1, o2 := f1.month + ("-" + d1), f2.month + ("-" + d2);
    if TextLess(f1.year, f2.year) {
      TextLessFirstPart(f1.year, "-" + o1, f2.year, "-" + o2);
    } else {
      if TextLess(f1.month, f2.month) {
        TextLessFirstPart(f1.month, "-" + d1, f2.month, "-" + d2);
      } else {
        if TextLess(f1.day, f2.day) {
          TextLessFirstPart(f1.day, "T" + c1, f2.day, "T" + c2);
        } else {
          ClockTextOrdered(f1, f2);
          TextLessSamePrefix("T", c1, c2);
          TextLessSamePrefix(f1.day, "T" + c1, "T" + c2);
        }
        TextLessSamePrefix("-", d1, d2);
        TextLessSamePrefix(f1.month, "-" + d1, "-" + d2);
      }
      TextLessSamePrefix("-", o1, o2);
      TextLessSamePrefix(f1.year, "-" + o1, "-" + o2);
    }
  }

  /** Calendar date and clock time in lexicographic order. */
  predicate NumbersBefore(a: IsoNumbers, b: IsoNumbers) {
    a.year < b.year
    || (a.year == b.year && a.month < b.month)
    || (a.year == b.year && a.month == b.month && a.day < b.day)
    || (a.year == b.year && a.month == b.month && a.day == b.day && ClockNumbersBefore(a, b))
  }

  predicate ClockNumbersBefore(a: IsoNumbers, b: IsoNumbers) {
    a.hour < b.hour
    || (a.hour == b.hour && a.minute < b.minute)
    || (a.hour == b.hour && a.minute == b.minute && a.second < b.second)
    || (a.hour == b.hour && a.minute == b.minute && a.second == b.second && a.milli < b.milli)
  }

  /** Padded clock fields sort in the order of the clock times. */
  lemma PadClockOrdered(n1: IsoNumbers, n2: IsoNumbers)
    requires Fits(n1) && Fits(n2) && ClockNumbersBefore(n1, n2)
    ensures ClockBefore(PadFields(n1), PadFields(n2))
  {
    var f1, f2 := PadFields(n1), PadFields(n2);
    assert Pow10(2) == 100 && Pow10(3) == 1000;
    if n1.hour < n2.hour {
      PadOrdered(n1.hour, n2.hour, 2);
    } else if n1.minute < n2.minute {
      PadOrdered(n1.minute, n2.minute, 2);
      assert f1.hour == f2.hour;
    } else if n1.second < n2.second {
      PadOrdered(n1.second, n2.second, 2);
      assert f1.hour == f2.hour && f1.minute == f2.minute;
    } else {
      PadOrdered(n1.milli, n2.milli, 3);
      assert f1.hour == f2.hour && f1.minute == f2.minute && f1.second == f2.second;
    }
  }

  /** Padded fields sort in the order of the numbers they spell. */
  lemma PadFieldsOrdered(n1: IsoNumbers, n2: IsoNumbers)
    requires Fits(n1) && Fits(n2) && NumbersBefore(n1, n2)
    ensures FieldsBefore(PadFields(n1), PadFields(n2))
  {
    var f1, f2 := PadFields(n1), PadFields(n2);
    assert Pow10(2) == 100 && Pow10(4) == 10000;
    if n1.year < n2.year {
      PadOrdered(n1.year, n2.year, 4);
      assert TextLess(f1.year, f2.year);
    } else if n1.month < n2.month {
      PadOrdered(n1.month, n2.month, 2);
      assert f1.year == f2.year && TextLess(f1.month, f2.month);
    } else if n1.day < n2.day {
      PadOrdered(n1.day, n2.day, 2);
      assert f1.year == f2.year && f1.month == f2.month && TextLess(f1.day, f2.day);
    } else {
      PadClockOrdered(n1, n2);
      assert f1.year == f2.year && f1.month == f2.month && f1.day == f2.day;
    }
  }

  /** A later instant on the same day has a later clock time. */
  lemma SameDayClockOrdered(t1: int, t2: int)
    requires Day(t1) == Day(t2) && t1 < t2
    ensures ClockNumbersBefore(NumbersOf(t1), NumbersOf(t2))
  {
    TimeDecomposition(t1);
    TimeDecomposition(t2);
  }

  /** Later instants have later calendar dates and clock times. */
  lemma NumbersOrdered(t1: int, t2: int)
    requires t1 < t2
    ensures NumbersBefore(NumbersOf(t1), NumbersOf(t2))
  {
    if Day(t1) < Day(t2) {
      CivilFromDayOrdered(Day(t1), Day(t2));
    } else {
      SameDayClockOrdered(t1, t2);
    }
  }

  /** Later instants with four-digit years have ISO texts that sort later. */
  lemma IsoTextOrdered(t1: int, t2: int)
    requires InIsoYears(t1) && InIsoYears(t2) && t1 < t2
    ensures TextLess(ToIsoString(t1), ToIsoString(t2))
  {
    NumbersOrdered(t1, t2);
    PadFieldsOrdered(NumbersOf(t1), NumbersOf(t2));
    AssembleOrdered(PadFields(NumbersOf(t1)), PadFields(NumbersOf(t2)));
  }

  /** For instants with four-digit years, SQLite's text comparison of their ISO
      texts is exactly the comparison of the instants. */
  lemma IsoTextOrderIsTimeOrder(t1: int, t2: int)
    requires InIsoYears(t1) && InIsoYears(t2)
    ensures TextLess(ToIsoString(t1), ToIsoString(t2)) <==> t1 < t2
    ensures TextLeq(ToIsoString(t1), ToIsoString(t2)) <==> t1 <= t2
  {
    var s1, s2 := ToIsoString(t1), ToIsoString(t2);
    if t1 < t2 {
      IsoTextOrdered(t1, t2);
      TextLessDecides(s1, s2);
    } else if t2 < t1 {
      IsoTextOrdered(t2, t1);
      TextLessDecides(s2, s1);
    } else {
      TextLessIrreflexive(s1);
    }
  }
}
