/**
 * The summary card of the history screen (components/AggregateCard.js): the
 * total entries and exits over the fetched rows, and the row of peak
 * activity. The card's title and the peak's display text are locale
 * formatting; the model keeps the instant the peak line shows.
 */
module ActivitySummary {
  import opened Outcomes
  import opened SensorStore
  import opened IsoText
  import Aggregation
  import Buckets

  /** A row's activity: entries plus exits. */
  function Activity(r: Row): int { r.numEntradas + r.numSaidas }

  /** `data.reduce((soma, r) => soma + r.numEntradas, 0)`. */
  function TotalEntradas(rows: seq<Row>): int
    decreases |rows|
  {
    if |rows| == 0 then 0 else TotalEntradas(rows[..|rows| - 1]) + rows[|rows| - 1].numEntradas
  }

  /** `data.reduce((soma, r) => soma + r.numSaidas, 0)`. */
  function TotalSaidas(rows: seq<Row>): int
    decreases |rows|
  {
    if |rows| == 0 then 0 else TotalSaidas(rows[..|rows| - 1]) + rows[|rows| - 1].numSaidas
  }

  /** The totals of a concatenation are the sums of the parts' totals, so the
      order in which rows arrive does not change them. */
  lemma {:induction false} TotalsAppend(a: seq<Row>, b: seq<Row>)
    ensures TotalEntradas(a + b) == TotalEntradas(a) + TotalEntradas(b)
    ensures TotalSaidas(a + b) == TotalSaidas(a) + TotalSaidas(b)
    decreases |b|
  {
    if |b| == 0 {
      assert a + b == a;
    } else {
      var b' := b[..|b| - 1];
      assert (a + b)[..|a + b| - 1] == a + b';
      TotalsAppend(a, b');
    }
  }

  /** Row p is where the card's scan settles: its activity beats the initial
      maximum of -1, no row has more, and every earlier row has strictly less
      (the scan replaces the maximum only on a strictly larger activity). */
  predicate FirstPeak(rows: seq<Row>, p: int) {
    && 0 <= p < |rows|
    && Activity(rows[p]) > -1
    && (forall i :: 0 <= i < |rows| ==> Activity(rows[i]) <= Activity(rows[p]))
    && (forall i :: 0 <= i < p ==> Activity(rows[i]) < Activity(rows[p]))
  }

  /** There is at most one first peak. */
  lemma FirstPeakUnique(rows: seq<Row>, p: int, q: int)
    requires FirstPeak(rows, p) && FirstPeak(rows, q)
    ensures p == q
  {
  }

  /** The `forEach` scan: the index of the first row of greatest activity, or
      -1 when no row's activity exceeds -1. */
  method PeakIndex(rows: seq<Row>) returns (peak: int)
    ensures -1 <= peak < |rows|
    ensures peak == -1 <==> forall i :: 0 <= i < |rows| ==> Activity(rows[i]) <= -1
    ensures peak >= 0 ==> FirstPeak(rows, peak)
  {
    var max := -1;
    peak := -1;
    var k := 0;
    while k < |rows|
      invariant 0 <= k <= |rows| && -1 <= peak < k
      invariant peak == -1 ==> max == -1
      invariant peak >= 0 ==> max == Activity(rows[peak]) && max > -1
      invariant forall i :: 0 <= i < k ==> Activity(rows[i]) <= max
      invariant peak >= 0 ==> forall i :: 0 <= i < peak ==> Activity(rows[i]) < max
    {
      if Activity(rows[k]) > max {
        max := Activity(rows[k]);
        peak := k;
      }
      k := k + 1;
    }
  }

  /** The peak line: 'N/A' when no row was picked or its `dataHora` is empty,
      'Not Set' when the text is not a date, else the instant shown. */
  datatype PeakLine = NotAvailable | NotSet | Shown(time: int)

  /** The card: totals and the peak line. */
  datatype Card = Card(totalEntradas: int, totalSaidas: int, peak: PeakLine)

  /** The peak line for the picked row's `dataHora` (None when no row was
      picked). */
  function PeakLineOf(stamp: Option<string>): (l: PeakLine)
    ensures l == NotAvailable <==> stamp.None? || stamp.value == ""
    ensures l.Shown? <==> stamp.Some? && ParseIso(stamp.value).Some?
    ensures l.Shown? ==> ParseIso(stamp.value) == Some(l.time)
  {
    match stamp
    case None => NotAvailable
    case Some(s) =>
      if s == "" then NotAvailable
      else match ParseIso(s)
        case None => NotSet
        case Some(t) => Shown(t)
  }

  /** `AggregateCard`: no card for missing or empty data; otherwise the totals
      and the line of the first row of greatest activity. With counts that are
      never negative, a row is always picked, so 'N/A' means its `dataHora`
      is empty. */
  method Summarize(data: Option<seq<Row>>) returns (card: Option<Card>)
    ensures card.None? <==> data.None? || |data.value| == 0
    ensures card.Some? ==> card.value.totalEntradas == TotalEntradas(data.value)
    ensures card.Some? ==> card.value.totalSaidas == TotalSaidas(data.value)
    ensures card.Some? && (forall i :: 0 <= i < |data.value| ==> Activity(data.value[i]) <= -1) ==>
      card.value.peak == NotAvailable
    ensures card.Some? ==> forall p :: FirstPeak(data.value, p) ==>
      card.value.peak == PeakLineOf(Some(data.value[p].dataHora))
  {
    if data.None? || |data.value| == 0 {
      return None;
    }
    var rows := data.value;
    var peak := PeakIndex(rows);
    var stamp := if peak == -1 then None else Some(rows[peak].dataHora);
    card := Some(Card(TotalEntradas(rows), TotalSaidas(rows), PeakLineOf(stamp)));
    forall p | FirstPeak(rows, p)
      ensures card.value.peak == PeakLineOf(Some(rows[p].dataHora))
    {
      FirstPeakUnique(rows, p, peak);
    }
  }

  /** When every row's `dataHora` parses, the chart's points carry the card's
      totals: aggregation loses no entries and no exits. */
  lemma ChartKeepsCardTotals(rows: seq<Row>, level: Buckets.Level, ps: seq<Aggregation.Point>)
    requires forall i :: 0 <= i < |rows| ==> ParseIso(rows[i].dataHora).Some?
    requires Aggregation.Aggregate(Some(rows), level) == Some(ps)
    ensures Aggregation.SumEntradas(ps) == TotalEntradas(rows)
    ensures Aggregation.SumSaidas(ps) == TotalSaidas(rows)
  {
    var rs := Aggregation.ReadingsOf(rows, level);
    Aggregation.AggregateOfRows(Some(rows), level);
    forall i | 0 <= i < |rows|
      ensures rs[i].place.InBucket? && rs[i].numEntradas == rows[i].numEntradas && rs[i].numSaidas == rows[i].numSaidas
    {
      Aggregation.ReadingAt(rows, level, i);
    }
    AllBucketed(rs, rows);
    if |rows| > 0 {
      Aggregation.AggregateConservesSums(rs, ps);
    }
  }

  /** Readings that all land in a bucket, with the rows' counts, sum to the
      rows' totals. */
  lemma {:induction false} AllBucketed(rs: seq<Aggregation.Reading>, rows: seq<Row>)
    requires |rs| == |rows|
    requires forall i :: 0 <= i < |rows| ==>
      rs[i].place.InBucket? && rs[i].numEntradas == rows[i].numEntradas && rs[i].numSaidas == rows[i].numSaidas
    ensures Aggregation.BucketedEntradas(rs) == TotalEntradas(rows)
    ensures Aggregation.BucketedSaidas(rs) == TotalSaidas(rows)
    decreases |rows|
  {
    if |rows| > 0 {
      AllBucketed(rs[..|rs| - 1], rows[..|rows| - 1]);
    }
  }
}
