/**
 * The two reads of `sensor_data` (api/database.js): rows of one local day and
 * rows of a range, both `WHERE dataHora BETWEEN ? AND ? ORDER BY dataHora ASC`
 * with the bounds written by `toISOString()`.
 */
module StoreQueries {
  import opened Calendar
  import opened IsoText
  import opened JsDate
  import opened Outcomes
  import opened SensorStore
  import opened TextOrder

  /** `dataHora BETWEEN lo AND hi`, comparing TEXT as SQLite does. */
  predicate Between(r: Row, lo: string, hi: string) {
    TextLeq(lo, r.dataHora) && TextLeq(r.dataHora, hi)
  }

  /** The rows satisfying the WHERE clause, in table order. */
  function SelectBetween(rows: seq<Row>, lo: string, hi: string): (out: seq<Row>)
    ensures |out| <= |rows|
    decreases |rows|
  {
    if |rows| == 0 then []
    else (if Between(rows[0], lo, hi) then [rows[0]] else []) + SelectBetween(rows[1..], lo, hi)
  }

  /** The selection holds exactly the table's rows that satisfy the clause. */
  lemma {:induction false} SelectBetweenExactly(rows: seq<Row>, lo: string, hi: string, x: Row)
    ensures x in SelectBetween(rows, lo, hi) <==> x in rows && Between(x, lo, hi)
    decreases |rows|
  {
    if |rows| > 0 {
      SelectBetweenExactly(rows[1..], lo, hi, x);
      assert rows == [rows[0]] + rows[1..];
    }
  }

  /** Rows in non-decreasing `dataHora` order. */
  predicate SortedByStamp(rows: seq<Row>) {
    forall i, j :: 0 <= i < j < |rows| ==> TextLeq(rows[i].dataHora, rows[j].dataHora)
  }

  /** Places x after every row whose stamp is not later than x's. */
  function InsertByStamp(sorted: seq<Row>, x: Row): (out: seq<Row>)
    ensures multiset(out) == multiset(sorted) + multiset{x}
    decreases |sorted|
  {
    if |sorted| == 0 then [x]
    else if TextLess(x.dataHora, sorted[0].dataHora) then [x] + sorted
    else
      assert sorted == [sorted[0]] + sorted[1..];
      [sorted[0]] + InsertByStamp(sorted[1..], x)
  }

  /** `ORDER BY dataHora ASC`. Rows with equal stamps keep table order, which
      is the order in which the `idx_dataHora` index lists them. */
  function SortByStamp(rows: seq<Row>): (out: seq<Row>)
    ensures multiset(out) == multiset(rows)
    decreases |rows|
  {
    if |rows| == 0 then []
    else
      assert rows == rows[..|rows| - 1] + [rows[|rows| - 1]];
      InsertByStamp(SortByStamp(rows[..|rows| - 1]), rows[|rows| - 1])
  }

  /** The head of a sorted sequence is not later than any row after it. */
  lemma SortedHead(sorted: seq<Row>, y: Row)
    requires SortedByStamp(sorted) && |sorted| > 0 && y in sorted[1..]
    ensures TextLeq(sorted[0].dataHora, y.dataHora)
  {
    var k :| 0 <= k < |sorted[1..]| && sorted[1..][k] == y;
    assert sorted[k + 1] == y;
  }

  /** Inserting x brings in no row other than x. */
  lemma InsertByStampMembers(sorted: seq<Row>, x: Row, y: Row)
    requires y in InsertByStamp(sorted, x)
    ensures y == x || y in sorted
  {
    assert y in multiset(InsertByStamp(sorted, x));
  }

  lemma {:induction false} InsertByStampSorted(sorted: seq<Row>, x: Row)
    requires SortedByStamp(sorted)
    ensures SortedByStamp(InsertByStamp(sorted, x))
    decreases |sorted|
  {
    var out := InsertByStamp(sorted, x);
    if |sorted| == 0 {
    } else if TextLess(x.dataHora, sorted[0].dataHora) {
      forall j | 0 < j < |out|
        ensures TextLeq(x.dataHora, out[j].dataHora)
      {
        TextLeqTransitive(x.dataHora, sorted[0].dataHora, out[j].dataHora);
      }
    } else {
      var rest := InsertByStamp(sorted[1..], x);
      InsertByStampSorted(sorted[1..], x);
      TextLessTotal(x.dataHora, sorted[0].dataHora);
      forall j | 0 <= j < |rest|
        ensures TextLeq(sorted[0].dataHora, rest[j].dataHora)
      {
        InsertByStampMembers(sorted[1..], x, rest[j]);
        if rest[j] != x {
          SortedHead(sorted, rest[j]);
        }
      }
      assert out == [sorted[0]] + rest;
    }
  }

  /** The sort orders the rows by stamp. */
  lemma {:induction false} SortByStampSorted(rows: seq<Row>)
    ensures SortedByStamp(SortByStamp(rows))
    decreases |rows|
  {
    if |rows| > 0 {
      SortByStampSorted(rows[..|rows| - 1]);
      InsertByStampSorted(SortByStamp(rows[..|rows| - 1]), rows[|rows| - 1]);
    }
  }

  /** The query: the matching rows, sorted by stamp. */
  function Query(rows: seq<Row>, lo: string, hi: string): seq<Row> {
    SortByStamp(SelectBetween(rows, lo, hi))
  }

  /** The query result is sorted and holds exactly the matching rows, each as
      often as in the table. */
  lemma QueryExactly(rows: seq<Row>, lo: string, hi: string)
    ensures SortedByStamp(Query(rows, lo, hi))
    ensures multiset(Query(rows, lo, hi)) == multiset(SelectBetween(rows, lo, hi))
    ensures forall x :: x in Query(rows, lo, hi) <==> x in rows && Between(x, lo, hi)
  {
    SortByStampSorted(SelectBetween(rows, lo, hi));
    forall x
      ensures x in Query(rows, lo, hi) <==> x in rows && Between(x, lo, hi)
    {
      SelectBetweenExactly(rows, lo, hi, x);
      assert x in Query(rows, lo, hi) <==> x in multiset(Query(rows, lo, hi));
      assert x in SelectBetween(rows, lo, hi) <==> x in multiset(SelectBetween(rows, lo, hi));
    }
  }

  /** `getSensorDataByRange(db, startDate, endDate)`: a date is `Some(t)` for a
      valid Date object and None for anything else (a non-Date or an Invalid
      Date). */
  function ByRange(db: Option<Store>, startDate: Option<int>, endDate: Option<int>): (r: Result<seq<Row>, Failure>)
    ensures db.None? ==> r == Err(NoDatabase)
    ensures db.Some? && startDate.None? ==> r == Err(InvalidStartDate)
    ensures db.Some? && startDate.Some? && endDate.None? ==> r == Err(InvalidEndDate)
    ensures r.Ok? <==> db.Some? && startDate.Some? && endDate.Some?
  {
    if db.None? then Err(NoDatabase)
    else if startDate.None? then Err(InvalidStartDate)
    else if endDate.None? then Err(InvalidEndDate)
    else Ok(Query(db.value.rows, ToIsoString(startDate.value), ToIsoString(endDate.value)))
  }

  /** For rows stamped by `toISOString()` and bounds with four-digit years,
      the query between the bounds' texts holds exactly the rows stamped from
      the first bound to the second, both included. */
  lemma QueryInstants(rows: seq<Row>, a: int, b: int, x: Row, u: int)
    requires InIsoYears(a) && InIsoYears(b)
    requires ParseIso(x.dataHora) == Some(u)
    ensures x in Query(rows, ToIsoString(a), ToIsoString(b)) <==> x in rows && a <= u <= b
  {
    QueryExactly(rows, ToIsoString(a), ToIsoString(b));
    IsoOfParse(x.dataHora);
    IsoTextOrderIsTimeOrder(a, u);
    IsoTextOrderIsTimeOrder(u, b);
  }

  /** For rows stamped by `toISOString()` and bounds with four-digit years, the
      range holds exactly the rows stamped from start to end, both included. */
  lemma ByRangeSelectsInstants(s: Store, start: int, end: int, x: Row, u: int)
    requires InIsoYears(start) && InIsoYears(end)
    requires ParseIso(x.dataHora) == Some(u)
    ensures x in ByRange(Some(s), Some(start), Some(end)).value <==> x in s.rows && start <= u <= end
  {
    QueryInstants(s.rows, start, end, x, u);
  }

  /** A range whose start lies after its end selects nothing; it is not an error. */
  lemma ReversedRangeEmpty(s: Store, start: int, end: int)
    requires InIsoYears(start) && InIsoYears(end) && end < start
    ensures ByRange(Some(s), Some(start), Some(end)) == Ok([])
  {
    var lo, hi := ToIsoString(start), ToIsoString(end);
    QueryExactly(s.rows, lo, hi);
    IsoTextOrderIsTimeOrder(end, start);
    var q := Query(s.rows, lo, hi);
    if |q| > 0 {
      assert q[0] in q;
      TextLeqTransitive(lo, q[0].dataHora, hi);
      TextLessDecides(hi, lo);
      assert false;
    }
  }

  /** `getSensorDataByDate(db, date)`: the range from local 00:00:00.000 to
      23:59:59.999 of the date's day. Writing a bound that fell outside the
      representable dates throws a RangeError, reported as a failed fetch. */
  function ByDate(db: Option<Store>, date: Option<int>): (r: Result<seq<Row>, Failure>)
    ensures db.None? ==> r == Err(NoDatabase)
    ensures db.Some? && date.None? ==> r == Err(InvalidDate)
    ensures r.Ok? ==> db.Some? && date.Some?
  {
    if db.None? then Err(NoDatabase)
    else if date.None? then Err(InvalidDate)
    else
      var startOfDay := SetHours(date.value, 0, 0, 0, 0);
      var endOfDay := SetHours(date.value, 23, 59, 59, 999);
      if startOfDay.None? || endOfDay.None? then Err(FetchFailed)
      else Ok(Query(db.value.rows, ToIsoString(startOfDay.value), ToIsoString(endOfDay.value)))
  }

  /** When the day's first and last milliseconds have four-digit years, the
      day query runs between their ISO texts. */
  lemma ByDateBounds(s: Store, t: int)
    requires InIsoYears(StartOfLocalDay(t)) && InIsoYears(StartOfLocalDay(t) + MsPerDay - 1)
    ensures ByDate(Some(s), Some(t))
      == Ok(Query(s.rows, ToIsoString(StartOfLocalDay(t)), ToIsoString(StartOfLocalDay(t) + MsPerDay - 1)))
  {
    SetHoursBracketsDay(t);
    IsoYearsAreTimeValues(StartOfLocalDay(t));
    IsoYearsAreTimeValues(StartOfLocalDay(t) + MsPerDay - 1);
  }

  /** For rows stamped by `toISOString()`, the day's rows are exactly those
      stamped during the date's local day. */
  lemma ByDateSelectsLocalDay(s: Store, t: int, x: Row, u: int)
    requires InIsoYears(StartOfLocalDay(t)) && InIsoYears(StartOfLocalDay(t) + MsPerDay - 1)
    requires ParseIso(x.dataHora) == Some(u)
    ensures ByDate(Some(s), Some(t)).Ok?
    ensures x in ByDate(Some(s), Some(t)).value <==> x in s.rows && Day(LocalTime(u)) == Day(LocalTime(t))
  {
    ByDateBounds(s, t);
    QueryInstants(s.rows, StartOfLocalDay(t), StartOfLocalDay(t) + MsPerDay - 1, x, u);
    SameLocalDay(t, u);
  }

  /** An instant lies in t's local day exactly when it falls between the day's
      first and last millisecond. */
  lemma SameLocalDay(t: int, u: int)
    ensures StartOfLocalDay(t) <= u < StartOfLocalDay(t) + MsPerDay <==> Day(LocalTime(u)) == Day(LocalTime(t))
  {
    var d := Day(LocalTime(t));
    if StartOfLocalDay(t) <= u < StartOfLocalDay(t) + MsPerDay {
      DivUnique(LocalTime(u), MsPerDay, d);
    }
    LocalDayBounds(u);
  }
}
