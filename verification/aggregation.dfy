/**
 * The activity chart's aggregation: every reading whose `dataHora` parses is
 * put in the bucket its time falls in, keyed by the bucket start's ISO text;
 * each bucket sums the entries and exits of its readings; the buckets are
 * returned as points sorted by date.
 */
module Aggregation {
  import opened Outcomes
  import opened IsoText
  import opened Buckets
  import opened SensorStore

  /** One point of the chart: a bucket start and the bucket's sums. */
  datatype Point = Point(date: int, numEntradas: int, numSaidas: int)

  /** A bucket under construction, under its key. */
  datatype Group = Group(key: string, point: Point)

  /** Where one row goes: nowhere (its `dataHora` is not a date), into a
      bucket, or nowhere because its bucket start is an Invalid Date, on
      which building the key throws. */
  datatype Placement = Unparsed | NoBucket | InBucket(key: string, start: int)

  function PlacementOf(r: Row, level: Level): Placement {
    match ParseIso(r.dataHora)
    case None => Unparsed
    case Some(t) =>
      match Bucket(t, level)
      case None => NoBucket
      case Some(b) => InBucket(ToIsoString(b), b)
  }

  /** A stored row is never placed in an invalid bucket: `dataHora` that
      parses has a four-digit year, and such readings have buckets. */
  lemma PlacementNeverInvalid(r: Row, level: Level)
    ensures !PlacementOf(r, level).NoBucket?
    ensures PlacementOf(r, level).Unparsed? <==> ParseIso(r.dataHora).None?
  {
    if ParseIso(r.dataHora).Some? {
      IsoOfParse(r.dataHora);
      BucketDefined(ParseIso(r.dataHora).value, level);
    }
  }

  /** Adds one reading to the bucket under `key`, opening the bucket at the
      end when there is none. */
  function AddToGroups(gs: seq<Group>, key: string, start: int, e: int, s: int): (r: seq<Group>)
    ensures |gs| <= |r| <= |gs| + 1
    decreases |gs|
  {
    if |gs| == 0 then [Group(key, Point(start, e, s))]
    else if gs[0].key == key then
      [Group(key, Point(gs[0].point.date, gs[0].point.numEntradas + e, gs[0].point.numSaidas + s))] + gs[1..]
    else [gs[0]] + AddToGroups(gs[1..], key, start, e, s)
  }

  /** A row as the aggregation sees it: where it goes and its counts (the
      INTEGER columns, which `|| 0` leaves as they are). */
  datatype Reading = Reading(place: Placement, numEntradas: int, numSaidas: int)

  function ReadingsOf(rows: seq<Row>, level: Level): (rs: seq<Reading>)
    ensures |rs| == |rows|
  {
    seq(|rows|, i requires 0 <= i < |rows| => Reading(PlacementOf(rows[i], level), rows[i].numEntradas, rows[i].numSaidas))
  }

  /** The buckets after the readings of `rs`, in order; `None` when building
      some key throws. */
  function Accumulate(rs: seq<Reading>): Option<seq<Group>>
    decreases |rs|
  {
    if |rs| == 0 then Some([])
    else
      var last := rs[|rs| - 1];
      match Accumulate(rs[..|rs| - 1])
      case None => None
      case Some(gs) =>
        match last.place
        case Unparsed => Some(gs)
        case NoBucket => None
        case InBucket(key, start) => Some(AddToGroups(gs, key, start, last.numEntradas, last.numSaidas))
  }

  function PointsOf(gs: seq<Group>): (ps: seq<Point>)
    ensures |ps| == |gs|
    decreases |gs|
  {
    if |gs| == 0 then [] else [gs[0].point] + PointsOf(gs[1..])
  }

  /** The chart's aggregation of `data`; `None` when it throws. */
  function Aggregate(data: Option<seq<Row>>, level: Level): Option<seq<Point>> {
    if data.None? || |data.value| == 0 then Some([])
    else AggregateReadings(ReadingsOf(data.value, level))
  }

  /** Buckets the readings, then sorts the points by date. */
  function AggregateReadings(rs: seq<Reading>): Option<seq<Point>> {
    match Accumulate(rs)
    case None => None
    case Some(gs) => Some(SortByDate(PointsOf(gs)))
  }

  // Sums

  function SumEntradas(ps: seq<Point>): int
    decreases |ps|
  {
    if |ps| == 0 then 0 else ps[0].numEntradas + SumEntradas(ps[1..])
  }

  function SumSaidas(ps: seq<Point>): int
    decreases |ps|
  {
    if |ps| == 0 then 0 else ps[0].numSaidas + SumSaidas(ps[1..])
  }

  /** How many readings land in some bucket. */
  function BucketedCount(rs: seq<Reading>): nat
    decreases |rs|
  {
    if |rs| == 0 then 0
    else BucketedCount(rs[..|rs| - 1]) + (if rs[|rs| - 1].place.InBucket? then 1 else 0)
  }

  predicate PlacedUnder(p: Placement, key: string) {
    p.InBucket? && p.key == key
  }

  /** Entries of the readings that land in a bucket under `key`. */
  function KeyEntradas(rs: seq<Reading>, key: string): int
    decreases |rs|
  {
    if |rs| == 0 then 0
    else
      var last := rs[|rs| - 1];
      KeyEntradas(rs[..|rs| - 1], key) + (if PlacedUnder(last.place, key) then last.numEntradas else 0)
  }

  /** Exits of the readings that land in a bucket under `key`. */
  function KeySaidas(rs: seq<Reading>, key: string): int
    decreases |rs|
  {
    if |rs| == 0 then 0
    else
      var last := rs[|rs| - 1];
      KeySaidas(rs[..|rs| - 1], key) + (if PlacedUnder(last.place, key) then last.numSaidas else 0)
  }

  /** Entries of the readings that land in any bucket. */
  function BucketedEntradas(rs: seq<Reading>): int
    decreases |rs|
  {
    if |rs| == 0 then 0
    else
      var last := rs[|rs| - 1];
      BucketedEntradas(rs[..|rs| - 1]) + (if last.place.InBucket? then last.numEntradas else 0)
  }

  /** Exits of the readings that land in any bucket. */
  function BucketedSaidas(rs: seq<Reading>): int
    decreases |rs|
  {
    if |rs| == 0 then 0
    else
      var last := rs[|rs| - 1];
      BucketedSaidas(rs[..|rs| - 1]) + (if last.place.InBucket? then last.numSaidas else 0)
  }

  /** The entries recorded under `key`, 0 when there is no such bucket. */
  function GroupEntradas(gs: seq<Group>, key: string): int
    decreases |gs|
  {
    if |gs| == 0 then 0 else (if gs[0].key == key then gs[0].point.numEntradas else 0) + GroupEntradas(gs[1..], key)
  }

  /** The exits recorded under `key`, 0 when there is no such bucket. */
  function GroupSaidas(gs: seq<Group>, key: string): int
    decreases |gs|
  {
    if |gs| == 0 then 0 else (if gs[0].key == key then gs[0].point.numSaidas else 0) + GroupSaidas(gs[1..], key)
  }

  // Bucket bookkeeping

  function Keys(gs: seq<Group>): set<string>
    decreases |gs|
  {
    if |gs| == 0 then {} else {gs[0].key} + Keys(gs[1..])
  }

  /** The (key, start) pairs of the buckets. */
  function Starts(gs: seq<Group>): set<(string, int)>
    decreases |gs|
  {
    if |gs| == 0 then {} else {(gs[0].key, gs[0].point.date)} + Starts(gs[1..])
  }

  predicate DistinctKeys(gs: seq<Group>)
    decreases |gs|
  {
    |gs| == 0 || (gs[0].key !in Keys(gs[1..]) && DistinctKeys(gs[1..]))
  }

  /** Each key is the ISO text of its bucket's start. */
  predicate KeysMatchDates(gs: seq<Group>)
    decreases |gs|
  {
    |gs| == 0 || (gs[0].key == ToIsoString(gs[0].point.date) && KeysMatchDates(gs[1..]))
  }

  /** The keys of the readings that land in a bucket. */
  function PlacedKeys(rs: seq<Reading>): set<string>
    decreases |rs|
  {
    if |rs| == 0 then {}
    else
      var p := rs[|rs| - 1].place;
      PlacedKeys(rs[..|rs| - 1]) + (if p.InBucket? then {p.key} else {})
  }

  /** The (key, start) pairs of the readings that land in a bucket. */
  function PlacedStarts(rs: seq<Reading>): set<(string, int)>
    decreases |rs|
  {
    if |rs| == 0 then {}
    else
      var p := rs[|rs| - 1].place;
      PlacedStarts(rs[..|rs| - 1]) + (if p.InBucket? then {(p.key, p.start)} else {})
  }

  /** Adding a reading adds its amounts to the totals. */
  lemma {:induction false} AddToGroupsSums(gs: seq<Group>, key: string, start: int, e: int, s: int)
    ensures SumEntradas(PointsOf(AddToGroups(gs, key, start, e, s))) == SumEntradas(PointsOf(gs)) + e
    ensures SumSaidas(PointsOf(AddToGroups(gs, key, start, e, s))) == SumSaidas(PointsOf(gs)) + s
    decreases |gs|
  {
    var r := AddToGroups(gs, key, start, e, s);
    if |gs| > 0 {
      assert r[1..] == (if gs[0].key == key then gs[1..] else AddToGroups(gs[1..], key, start, e, s));
      assert PointsOf(r)[1..] == PointsOf(r[1..]);
      assert PointsOf(gs)[1..] == PointsOf(gs[1..]);
      if gs[0].key != key {
        AddToGroupsSums(gs[1..], key, start, e, s);
      }
    } else {
      assert PointsOf(r)[1..] == [];
    }
  }

  /** Adding a reading adds its amounts to its own key's bucket only. */
  lemma {:induction false} AddToGroupsKeySums(gs: seq<Group>, key: string, start: int, e: int, s: int, k: string)
    ensures GroupEntradas(AddToGroups(gs, key, start, e, s), k) == GroupEntradas(gs, k) + (if k == key then e else 0)
    ensures GroupSaidas(AddToGroups(gs, key, start, e, s), k) == GroupSaidas(gs, k) + (if k == key then s else 0)
    decreases |gs|
  {
    var r := AddToGroups(gs, key, start, e, s);
    if |gs| > 0 {
      assert r[1..] == (if gs[0].key == key then gs[1..] else AddToGroups(gs[1..], key, start, e, s));
      if gs[0].key != key {
        AddToGroupsKeySums(gs[1..], key, start, e, s, k);
      }
    } else {
      assert r[1..] == [];
    }
  }

  /** A bucket is opened only for a new key, at the reading's bucket start;
      an existing bucket keeps its start. */
  lemma {:induction false} AddToGroupsKeys(gs: seq<Group>, key: string, start: int, e: int, s: int)
    ensures Keys(AddToGroups(gs, key, start, e, s)) == Keys(gs) + {key}
    ensures Starts(AddToGroups(gs, key, start, e, s)) <= Starts(gs) + {(key, start)}
    ensures DistinctKeys(gs) ==> DistinctKeys(AddToGroups(gs, key, start, e, s))
    ensures KeysMatchDates(gs) && key == ToIsoString(start) ==> KeysMatchDates(AddToGroups(gs, key, start, e, s))
    decreases |gs|
  {
    var r := AddToGroups(gs, key, start, e, s);
    if |gs| > 0 {
      assert r[1..] == (if gs[0].key == key then gs[1..] else AddToGroups(gs[1..], key, start, e, s));
      if gs[0].key != key {
        AddToGroupsKeys(gs[1..], key, start, e, s);
      }
    } else {
      assert r[1..] == [];
    }
  }

  /** What the buckets hold after the readings of `rs`. */
  lemma {:induction false} AccumulateInvariant(rs: seq<Reading>)
    requires Accumulate(rs).Some?
    ensures var gs := Accumulate(rs).value;
      && DistinctKeys(gs)
      && Keys(gs) == PlacedKeys(rs)
      && Starts(gs) <= PlacedStarts(rs)
      && |gs| <= BucketedCount(rs)
      && SumEntradas(PointsOf(gs)) == BucketedEntradas(rs)
      && SumSaidas(PointsOf(gs)) == BucketedSaidas(rs)
    decreases |rs|
  {
    if |rs| > 0 {
      var last := rs[|rs| - 1];
      AccumulateInvariant(rs[..|rs| - 1]);
      var gs := Accumulate(rs[..|rs| - 1]).value;
      match last.place {
        case Unparsed =>
        case InBucket(key, start) =>
          AddToGroupsKeys(gs, key, start, last.numEntradas, last.numSaidas);
          AddToGroupsSums(gs, key, start, last.numEntradas, last.numSaidas);
      }
    }
  }

  /** Every key built from a placement is the ISO text of its start. */
  predicate KeysFromStarts(rs: seq<Reading>) {
    forall i :: 0 <= i < |rs| && rs[i].place.InBucket? ==> rs[i].place.key == ToIsoString(rs[i].place.start)
  }

  /** Buckets keep the ISO text of their start as key. */
  lemma {:induction false} AccumulateKeysMatch(rs: seq<Reading>)
    requires Accumulate(rs).Some? && KeysFromStarts(rs)
    ensures KeysMatchDates(Accumulate(rs).value)
    decreases |rs|
  {
    if |rs| > 0 {
      var last := rs[|rs| - 1];
      assert KeysFromStarts(rs[..|rs| - 1]);
      AccumulateKeysMatch(rs[..|rs| - 1]);
      var gs := Accumulate(rs[..|rs| - 1]).value;
      match last.place {
        case Unparsed =>
        case InBucket(key, start) =>
          AddToGroupsKeys(gs, key, start, last.numEntradas, last.numSaidas);
      }
    }
  }

  /** Each bucket holds the sums of exactly the readings under its key. */
  lemma {:induction false} AccumulateKeySums(rs: seq<Reading>, k: string)
    requires Accumulate(rs).Some?
    ensures GroupEntradas(Accumulate(rs).value, k) == KeyEntradas(rs, k)
    ensures GroupSaidas(Accumulate(rs).value, k) == KeySaidas(rs, k)
    decreases |rs|
  {
    if |rs| > 0 {
      var last := rs[|rs| - 1];
      AccumulateKeySums(rs[..|rs| - 1], k);
      var gs := Accumulate(rs[..|rs| - 1]).value;
      match last.place {
        case Unparsed =>
        case InBucket(key, start) =>
          AddToGroupsKeySums(gs, key, start, last.numEntradas, last.numSaidas, k);
      }
    }
  }

  /** Building the buckets throws only for a reading without a valid bucket. */
  lemma {:induction false} AccumulateDefined(rs: seq<Reading>)
    ensures Accumulate(rs).Some? <==> forall i :: 0 <= i < |rs| ==> !rs[i].place.NoBucket?
    decreases |rs|
  {
    if |rs| > 0 {
      var init := rs[..|rs| - 1];
      AccumulateDefined(init);
      if forall i :: 0 <= i < |init| ==> !init[i].place.NoBucket? {
        assert forall i :: 0 <= i < |init| ==> init[i] == rs[i];
      } else {
        var i :| 0 <= i < |init| && init[i].place.NoBucket?;
        assert rs[i] == init[i];
      }
    }
  }

  /** What a bucket at index i says about the buckets as a whole. */
  lemma {:induction false} GroupAt(gs: seq<Group>, i: int)
    requires 0 <= i < |gs|
    ensures PointsOf(gs)[i] == gs[i].point
    ensures gs[i].key in Keys(gs) && (gs[i].key, gs[i].point.date) in Starts(gs)
    ensures KeysMatchDates(gs) ==> gs[i].key == ToIsoString(gs[i].point.date)
    ensures DistinctKeys(gs) ==> GroupEntradas(gs, gs[i].key) == gs[i].point.numEntradas
    ensures DistinctKeys(gs) ==> GroupSaidas(gs, gs[i].key) == gs[i].point.numSaidas
    decreases |gs|
  {
    if i > 0 {
      GroupAt(gs[1..], i - 1);
    } else if DistinctKeys(gs) {
      GroupsWithoutKey(gs[1..], gs[0].key);
    }
  }

  /** With no bucket under `key`, nothing is recorded under it. */
  lemma {:induction false} GroupsWithoutKey(gs: seq<Group>, key: string)
    requires key !in Keys(gs)
    ensures GroupEntradas(gs, key) == 0 && GroupSaidas(gs, key) == 0
    decreases |gs|
  {
    if |gs| > 0 {
      GroupsWithoutKey(gs[1..], key);
    }
  }

  /** Buckets with distinct keys that match their starts have distinct starts. */
  lemma DistinctKeysDistinctDates(gs: seq<Group>)
    requires DistinctKeys(gs) && KeysMatchDates(gs)
    ensures DistinctDates(PointsOf(gs))
  {
    var ps := PointsOf(gs);
    forall i, j | 0 <= i < j < |ps| ensures ps[i].date != ps[j].date {
      GroupAt(gs, i);
      GroupAt(gs, j);
      DistinctKeysAt(gs, i, j);
    }
  }

  lemma {:induction false} DistinctKeysAt(gs: seq<Group>, i: int, j: int)
    requires DistinctKeys(gs) && 0 <= i < j < |gs|
    ensures gs[i].key != gs[j].key
    decreases |gs|
  {
    if i > 0 {
      DistinctKeysAt(gs[1..], i - 1, j - 1);
    } else {
      GroupAt(gs[1..], j - 1);
    }
  }

  /** Membership in the readings' key set, by index. */
  lemma {:induction false} PlacedKeysAt(rs: seq<Reading>, k: string)
    ensures k in PlacedKeys(rs) <==> exists i :: 0 <= i < |rs| && PlacedUnder(rs[i].place, k)
    decreases |rs|
  {
    if |rs| > 0 {
      var init := rs[..|rs| - 1];
      PlacedKeysAt(init, k);
      if k in PlacedKeys(init) {
        var i :| 0 <= i < |init| && PlacedUnder(init[i].place, k);
        assert rs[i] == init[i];
      }
      if exists i :: 0 <= i < |rs| && PlacedUnder(rs[i].place, k) {
        var i :| 0 <= i < |rs| && PlacedUnder(rs[i].place, k);
        if i < |init| {
          assert rs[i] == init[i];
        }
      }
    }
  }

  /** Membership in the readings' start set, by index. */
  lemma {:induction false} PlacedStartsAt(rs: seq<Reading>, k: string, d: int)
    requires (k, d) in PlacedStarts(rs)
    ensures exists i :: 0 <= i < |rs| && rs[i].place == InBucket(k, d)
    decreases |rs|
  {
    var init := rs[..|rs| - 1];
    if (k, d) in PlacedStarts(init) {
      PlacedStartsAt(init, k, d);
      var i :| 0 <= i < |init| && init[i].place == InBucket(k, d);
      assert rs[i] == init[i];
    } else {
      assert rs[|rs| - 1].place == InBucket(k, d);
    }
  }

  // Sorting by date

  /** Inserts x before the first point that is not earlier. */
  function InsertByDate(x: Point, s: seq<Point>): (r: seq<Point>)
    ensures multiset(r) == multiset(s) + multiset{x}
    decreases |s|
  {
    if |s| == 0 then [x]
    else if x.date <= s[0].date then [x] + s
    else
      assert s == [s[0]] + s[1..];
      [s[0]] + InsertByDate(x, s[1..])
  }

  /** `Array.prototype.sort` with comparator `a.date - b.date`, as an
      insertion sort. */
  function SortByDate(s: seq<Point>): (r: seq<Point>)
    ensures multiset(r) == multiset(s)
    decreases |s|
  {
    if |s| == 0 then []
    else
      assert s == [s[0]] + s[1..];
      InsertByDate(s[0], SortByDate(s[1..]))
  }

  predicate StrictlyAscending(ps: seq<Point>) {
    forall i, j :: 0 <= i < j < |ps| ==> ps[i].date < ps[j].date
  }

  predicate DistinctDates(ps: seq<Point>) {
    forall i, j :: 0 <= i < j < |ps| ==> ps[i].date != ps[j].date
  }

  lemma InsertByDateMembers(x: Point, s: seq<Point>)
    ensures forall p :: p in InsertByDate(x, s) <==> p == x || p in s
  {
    var r := InsertByDate(x, s);
    forall p ensures p in r <==> p == x || p in s {
      assert p in r <==> p in multiset(r);
      assert p in s <==> p in multiset(s);
    }
  }

  /** A point earlier than every point of a strictly ascending sequence can
      be put in front of it. */
  lemma PrependAscending(a: Point, rest: seq<Point>)
    requires StrictlyAscending(rest)
    requires forall p :: p in rest ==> a.date < p.date
    ensures StrictlyAscending([a] + rest)
  {
    var r := [a] + rest;
    forall i, j | 0 <= i < j < |r| ensures r[i].date < r[j].date {
      assert r[j] == rest[j - 1];
      if i > 0 {
        assert r[i] == rest[i - 1];
      }
    }
  }

  lemma {:induction false} InsertByDateAscending(x: Point, s: seq<Point>)
    requires StrictlyAscending(s)
    requires forall p :: p in s ==> p.date != x.date
    ensures StrictlyAscending(InsertByDate(x, s))
    decreases |s|
  {
    if |s| == 0 {
    } else if x.date <= s[0].date {
      forall p | p in s ensures x.date < p.date {
        var k :| 0 <= k < |s| && s[k] == p;
      }
      PrependAscending(x, s);
    } else {
      assert StrictlyAscending(s[1..]);
      var rest := InsertByDate(x, s[1..]);
      InsertByDateAscending(x, s[1..]);
      InsertByDateMembers(x, s[1..]);
      forall p | p in rest ensures s[0].date < p.date {
        if p != x {
          var k :| 0 <= k < |s[1..]| && s[1..][k] == p;
          assert s[1 + k] == p;
        }
      }
      PrependAscending(s[0], rest);
    }
  }

  /** Distinct dates come out strictly ascending. */
  lemma {:induction false} SortByDateAscending(s: seq<Point>)
    requires DistinctDates(s)
    ensures StrictlyAscending(SortByDate(s))
    decreases |s|
  {
    if |s| > 0 {
      var rest := SortByDate(s[1..]);
      assert DistinctDates(s[1..]);
      SortByDateAscending(s[1..]);
      forall p | p in rest ensures p.date != s[0].date {
        assert p in multiset(rest);
        assert p in s[1..];
        var k :| 0 <= k < |s[1..]| && s[1..][k] == p;
        assert s[1 + k] == p;
      }
      InsertByDateAscending(s[0], rest);
    }
  }

  lemma {:induction false} InsertByDateSums(x: Point, s: seq<Point>)
    ensures SumEntradas(InsertByDate(x, s)) == x.numEntradas + SumEntradas(s)
    ensures SumSaidas(InsertByDate(x, s)) == x.numSaidas + SumSaidas(s)
    decreases |s|
  {
    if |s| > 0 && x.date > s[0].date {
      InsertByDateSums(x, s[1..]);
      assert ([s[0]] + InsertByDate(x, s[1..]))[1..] == InsertByDate(x, s[1..]);
    } else if |s| > 0 {
      assert ([x] + s)[1..] == s;
    }
  }

  /** Sorting moves points without changing the sums. */
  lemma {:induction false} SortByDateSums(s: seq<Point>)
    ensures SumEntradas(SortByDate(s)) == SumEntradas(s)
    ensures SumSaidas(SortByDate(s)) == SumSaidas(s)
    decreases |s|
  {
    if |s| > 0 {
      SortByDateSums(s[1..]);
      InsertByDateSums(s[0], SortByDate(s[1..]));
    }
  }

  // The aggregation as a whole

  lemma {:induction false} KeysAt(gs: seq<Group>, k: string)
    requires k in Keys(gs)
    ensures exists i :: 0 <= i < |gs| && gs[i].key == k
    decreases |gs|
  {
    if gs[0].key != k {
      KeysAt(gs[1..], k);
      var i :| 0 <= i < |gs[1..]| && gs[1..][i].key == k;
      assert gs[1 + i].key == k;
    }
  }

  /** Reading i is row i as the aggregation sees it: its counts, and a
      bucket exactly when its `dataHora` parses, keyed by the ISO text of the
      bucket start. */
  lemma ReadingAt(rows: seq<Row>, level: Level, i: int)
    requires 0 <= i < |rows|
    ensures var r := ReadingsOf(rows, level)[i];
      && r == Reading(PlacementOf(rows[i], level), rows[i].numEntradas, rows[i].numSaidas)
      && !r.place.NoBucket?
      && (r.place.InBucket? <==> ParseIso(rows[i].dataHora).Some?)
      && (r.place.InBucket? ==> r.place.key == ToIsoString(r.place.start))
  {
    PlacementNeverInvalid(rows[i], level);
  }

  /** The readings of stored rows meet what the theorems below ask of them. */
  lemma StoredReadings(rows: seq<Row>, level: Level)
    ensures KeysFromStarts(ReadingsOf(rows, level))
    ensures forall i :: 0 <= i < |rows| ==> !ReadingsOf(rows, level)[i].place.NoBucket?
  {
    forall i | 0 <= i < |rows| {
      ReadingAt(rows, level, i);
    }
  }

  /** The aggregation never throws on stored rows, no data or empty data gives
      no points, and otherwise it aggregates the rows' readings. */
  lemma AggregateOfRows(data: Option<seq<Row>>, level: Level)
    ensures Aggregate(data, level).Some?
    ensures data.None? || data == Some([]) ==> Aggregate(data, level) == Some([])
    ensures data.Some? ==> Aggregate(data, level) == AggregateReadings(ReadingsOf(data.value, level))
  {
    if data.Some? {
      StoredReadings(data.value, level);
      AccumulateDefined(ReadingsOf(data.value, level));
    }
  }

  /** Sums are conserved: the points hold, between them, the entries and the
      exits of exactly the readings that land in a bucket. */
  lemma AggregateConservesSums(rs: seq<Reading>, ps: seq<Point>)
    requires AggregateReadings(rs) == Some(ps)
    ensures SumEntradas(ps) == BucketedEntradas(rs)
    ensures SumSaidas(ps) == BucketedSaidas(rs)
  {
    var gs := Accumulate(rs).value;
    AccumulateInvariant(rs);
    SortByDateSums(PointsOf(gs));
  }

  /** The points have strictly ascending dates, and there are no more of them
      than readings that land in a bucket. */
  lemma AggregateAscending(rs: seq<Reading>, ps: seq<Point>)
    requires AggregateReadings(rs) == Some(ps) && KeysFromStarts(rs)
    ensures StrictlyAscending(ps)
    ensures |ps| <= BucketedCount(rs)
  {
    var gs := Accumulate(rs).value;
    AccumulateInvariant(rs);
    AccumulateKeysMatch(rs);
    DistinctKeysDistinctDates(gs);
    SortByDateAscending(PointsOf(gs));
    assert |ps| == |multiset(ps)| == |multiset(PointsOf(gs))|;
  }

  /** The aggregation's points are its buckets' points, sorted. */
  lemma AggregateReadingsSorted(rs: seq<Reading>, ps: seq<Point>)
    requires AggregateReadings(rs) == Some(ps)
    ensures Accumulate(rs).Some?
    ensures ps == SortByDate(PointsOf(Accumulate(rs).value))
  {
  }

  /** A point's bucket, as an index into the buckets. */
  lemma PointGroup(rs: seq<Reading>, ps: seq<Point>, p: Point) returns (i: int)
    requires AggregateReadings(rs) == Some(ps) && KeysFromStarts(rs) && p in ps
    ensures var gs := Accumulate(rs).value;
      && 0 <= i < |gs| && gs[i].point == p && gs[i].key == ToIsoString(p.date)
      && (gs[i].key, p.date) in PlacedStarts(rs)
      && GroupEntradas(gs, gs[i].key) == p.numEntradas
      && GroupSaidas(gs, gs[i].key) == p.numSaidas
  {
    AggregateReadingsSorted(rs, ps);
    var gs := Accumulate(rs).value;
    AccumulateInvariant(rs);
    AccumulateKeysMatch(rs);
    assert p in multiset(PointsOf(gs));
    i :| 0 <= i < |gs| && PointsOf(gs)[i] == p;
    GroupAt(gs, i);
  }

  /** Every point is the bucket of some reading, at that bucket's start and
      keyed by the ISO text of its date. */
  lemma AggregatePointOrigin(rs: seq<Reading>, ps: seq<Point>, p: Point)
    requires AggregateReadings(rs) == Some(ps) && KeysFromStarts(rs) && p in ps
    ensures exists i :: 0 <= i < |rs| && rs[i].place == InBucket(ToIsoString(p.date), p.date)
  {
    var i := PointGroup(rs, ps, p);
    PlacedStartsAt(rs, ToIsoString(p.date), p.date);
  }

  /** Every point holds the sums of exactly the readings in its bucket. */
  lemma AggregatePointSums(rs: seq<Reading>, ps: seq<Point>, p: Point)
    requires AggregateReadings(rs) == Some(ps) && KeysFromStarts(rs) && p in ps
    ensures p.numEntradas == KeyEntradas(rs, ToIsoString(p.date))
    ensures p.numSaidas == KeySaidas(rs, ToIsoString(p.date))
  {
    var i := PointGroup(rs, ps, p);
    AccumulateKeySums(rs, ToIsoString(p.date));
  }

  /** Every reading that lands in a bucket is counted in some point. */
  lemma AggregateCoversReading(rs: seq<Reading>, ps: seq<Point>, i: int)
    requires AggregateReadings(rs) == Some(ps) && KeysFromStarts(rs)
    requires 0 <= i < |rs| && rs[i].place.InBucket?
    ensures exists p :: p in ps && ToIsoString(p.date) == rs[i].place.key
  {
    var k := rs[i].place.key;
    var gs := Accumulate(rs).value;
    AccumulateInvariant(rs);
    AccumulateKeysMatch(rs);
    assert PlacedUnder(rs[i].place, k);
    PlacedKeysAt(rs, k);
    KeysAt(gs, k);
    var j :| 0 <= j < |gs| && gs[j].key == k;
    GroupAt(gs, j);
    var p := gs[j].point;
    assert p in PointsOf(gs);
    assert p in multiset(PointsOf(gs));
    assert p in ps;
  }
}
