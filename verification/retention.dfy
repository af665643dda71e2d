/**
 * The retention sweep (api/database.js): the stored retention token, the
 * cutoff it selects, and `DELETE FROM sensor_data WHERE dataHora < cutoff`.
 */
module Retention {
  import opened Calendar
  import opened IsoText
  import opened JsDate
  import opened Outcomes
  import opened SensorStore
  import opened TextOrder

  /** The token used when none is stored or storage fails. */
  const DefaultRetention := "1_week"

  /** `getRetentionSetting()`. `read` is what AsyncStorage returned: None when
      the read threw, `Some(None)` when no value is stored. */
  function GetRetentionSetting(read: Option<Option<string>>): (r: string)
    ensures r != ""
    ensures r == DefaultRetention || read == Some(Some(r))
  {
    match read
    case Some(Some(s)) => if s != "" then s else DefaultRetention
    case _ => DefaultRetention
  }

  /** `setRetentionSetting(value)`: the stored value after the write; a write
      that throws is logged and leaves the stored value as it was. */
  function SetRetentionSetting(stored: Option<string>, value: string, writeFails: bool): (r: Option<string>)
    ensures writeFails ==> r == stored
  {
    if writeFails then stored else Some(value)
  }

  /** A written token is read back, unless it is empty, which reads as the default. */
  lemma RetentionRoundTrip(stored: Option<string>, value: string)
    ensures GetRetentionSetting(Some(SetRetentionSetting(stored, value, false)))
      == (if value == "" then DefaultRetention else value)
  {
  }

  /** The cutoff `cleanOldData` computes from the current time and the token:
      one day back for '1_day', the same day of the previous month for
      '1_month' (overflowing into the current month when the previous month
      is shorter), and seven days back for '1_week' and any other token. None
      when the result is not a representable date. */
  function Cutoff(now: int, retention: string): Option<int> {
    if retention == "1_day" then SetDate(now, GetDate(now) - 1)
    else if retention == "1_week" then SetDate(now, GetDate(now) - 7)
    else if retention == "1_month" then SetMonth(now, GetMonth(now) - 1)
    else SetDate(now, GetDate(now) - 7)
  }

  /** '1_day' goes back exactly one day (the zone has no daylight saving). */
  lemma CutoffOneDay(now: int)
    ensures Cutoff(now, "1_day") == TimeClip(now - MsPerDay)
  {
    SetDateMovesDays(now, -1);
  }

  /** '1_week', and every token that is neither '1_day' nor '1_month', goes
      back exactly seven days. */
  lemma CutoffOneWeek(now: int, retention: string)
    requires retention != "1_day" && retention != "1_month"
    ensures Cutoff(now, retention) == TimeClip(now - 7 * MsPerDay)
  {
    SetDateMovesDays(now, -7);
  }

  /** '1_month' goes back exactly the length of the previous month. */
  lemma CutoffOneMonth(now: int)
    ensures var p := PreviousMonth(LocalCivil(now));
      Cutoff(now, "1_month") == TimeClip(now - DaysInMonth(p.year, p.month) * MsPerDay)
  {
    SetMonthBackMovesPreviousMonthLength(now);
  }

  /** The rows `dataHora < cutoff` spares, in table order. */
  function Sweep(rows: seq<Row>, cutoff: string): (kept: seq<Row>)
    ensures |kept| <= |rows|
    decreases |rows|
  {
    if |rows| == 0 then []
    else (if TextLess(rows[0].dataHora, cutoff) then [] else [rows[0]]) + Sweep(rows[1..], cutoff)
  }

  /** How many rows are older than the cutoff. */
  function CountOlder(rows: seq<Row>, cutoff: string): nat
    decreases |rows|
  {
    if |rows| == 0 then 0
    else (if TextLess(rows[0].dataHora, cutoff) then 1 else 0) + CountOlder(rows[1..], cutoff)
  }

  /** The sweep keeps exactly the rows not older than the cutoff. */
  lemma {:induction false} SweepExactly(rows: seq<Row>, cutoff: string, x: Row)
    ensures x in Sweep(rows, cutoff) <==> x in rows && !TextLess(x.dataHora, cutoff)
    decreases |rows|
  {
    if |rows| > 0 {
      SweepExactly(rows[1..], cutoff, x);
      assert rows == [rows[0]] + rows[1..];
    }
  }

  /** The sweep removes exactly as many rows as are older than the cutoff. */
  lemma {:induction false} SweepCount(rows: seq<Row>, cutoff: string)
    ensures |Sweep(rows, cutoff)| + CountOlder(rows, cutoff) == |rows|
    decreases |rows|
  {
    if |rows| > 0 {
      SweepCount(rows[1..], cutoff);
    }
  }

  /** Sweeping twice with the same cutoff removes nothing the second time. */
  lemma {:induction false} SweepIdempotent(rows: seq<Row>, cutoff: string)
    ensures Sweep(Sweep(rows, cutoff), cutoff) == Sweep(rows, cutoff)
    ensures CountOlder(Sweep(rows, cutoff), cutoff) == 0
    decreases |rows|
  {
    if |rows| > 0 {
      SweepIdempotent(rows[1..], cutoff);
      var rest := Sweep(rows[1..], cutoff);
      if !TextLess(rows[0].dataHora, cutoff) {
        var kept := [rows[0]] + rest;
        assert kept[0] == rows[0] && kept[1..] == rest;
      } else {
        assert Sweep(rows, cutoff) == rest;
      }
    }
  }

  /** Deleting rows keeps the table valid. */
  lemma {:induction false} SweepKeepsValid(s: Store, cutoff: string)
    requires Valid(s)
    ensures Valid(Store(Sweep(s.rows, cutoff), s.nextId))
    decreases |s.rows|
  {
    var kept := Sweep(s.rows, cutoff);
    if |s.rows| > 0 {
      var tail := Store(s.rows[1..], s.nextId);
      SweepKeepsValid(tail, cutoff);
      var rest := Sweep(s.rows[1..], cutoff);
      forall j | 0 <= j < |rest|
        ensures s.rows[0].id < rest[j].id
      {
        assert rest[j] in rest;
        SweepExactly(s.rows[1..], cutoff, rest[j]);
        var k :| 0 <= k < |s.rows[1..]| && s.rows[1..][k] == rest[j];
        assert s.rows[k + 1] == rest[j];
      }
    }
  }

  /** `cleanOldData(db)`: `now` is the current time, `read` the outcome of
      reading the retention setting. Writing a cutoff that is not a
      representable date throws a RangeError, reported as a failed clean.
      Returns the table after the DELETE and the number of rows it removed. */
  function CleanOldData(db: Option<Store>, now: int, read: Option<Option<string>>): (r: Result<(Store, nat), Failure>)
    ensures db.None? ==> r == Err(NoDatabase)
    ensures r.Ok? ==>
      && db.Some? && r.value.0.nextId == db.value.nextId
      && r.value.1 + |r.value.0.rows| == |db.value.rows|
  {
    match db
    case None => Err(NoDatabase)
    case Some(s) =>
      match Cutoff(now, GetRetentionSetting(read))
      case None => Err(CleanFailed)
      case Some(cutoff) =>
        var kept := Sweep(s.rows, ToIsoString(cutoff));
        Ok((Store(kept, s.nextId), |s.rows| - |kept|))
  }

  /** The clean deletes exactly the rows older than the cutoff, keeps the rest
      in order, reports how many it deleted, and keeps the table valid. */
  lemma CleanRemovesOlder(s: Store, now: int, read: Option<Option<string>>)
    requires Valid(s) && CleanOldData(Some(s), now, read).Ok?
    ensures var cutoff := ToIsoString(Cutoff(now, GetRetentionSetting(read)).value);
      var (t, n) := CleanOldData(Some(s), now, read).value;
      && t == Store(Sweep(s.rows, cutoff), s.nextId)
      && n == CountOlder(s.rows, cutoff)
      && Valid(t)
  {
    var cutoff := ToIsoString(Cutoff(now, GetRetentionSetting(read)).value);
    SweepCount(s.rows, cutoff);
    SweepKeepsValid(s, cutoff);
  }

  /** For rows stamped by `toISOString()` and a cutoff with a four-digit year,
      a row survives exactly when it was stamped at or after the cutoff. */
  lemma CleanKeepsInstants(s: Store, now: int, read: Option<Option<string>>, x: Row, u: int)
    requires Cutoff(now, GetRetentionSetting(read)).Some?
    requires InIsoYears(Cutoff(now, GetRetentionSetting(read)).value)
    requires ParseIso(x.dataHora) == Some(u)
    ensures x in CleanOldData(Some(s), now, read).value.0.rows
      <==> x in s.rows && Cutoff(now, GetRetentionSetting(read)).value <= u
  {
    var k := Cutoff(now, GetRetentionSetting(read)).value;
    SweepExactly(s.rows, ToIsoString(k), x);
    IsoOfParse(x.dataHora);
    IsoTextOrderIsTimeOrder(u, k);
  }

  /** Cleaning again at the same time with the same setting removes nothing. */
  lemma CleanTwiceRemovesNothing(s: Store, now: int, read: Option<Option<string>>)
    requires CleanOldData(Some(s), now, read).Ok?
    ensures var t := CleanOldData(Some(s), now, read).value.0;
      CleanOldData(Some(t), now, read) == Ok((t, 0))
  {
    var cutoff := ToIsoString(Cutoff(now, GetRetentionSetting(read)).value);
    SweepIdempotent(s.rows, cutoff);
  }
}
