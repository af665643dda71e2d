/**
 * The range picker of the history screen (components/screens/HistoryScreen.js)
 * as a state machine: choosing the start or the end date, confirming or
 * cancelling the picker, and fetching the rows of the chosen range. Alerts
 * are returned rather than shown; a picked date is `Some(t)` for a valid Date
 * and `None` for a missing value, a non-Date or an Invalid Date.
 */
module HistoryScreen {
  import opened Outcomes
  import opened SensorStore
  import opened StoreQueries
  import IsoText

  /** The screen's state: the chosen dates, the rows shown, whether the picker
      is visible and the picker's target (the string `showDateTimePicker`
      received, or None once cleared). */
  datatype Screen = Screen(
    startDate: Option<int>,
    endDate: Option<int>,
    data: seq<Row>,
    pickerVisible: bool,
    target: Option<string>)

  /** The alerts the screen raises. */
  datatype Alert =
    | InvalidPick    // 'Data inválida. Por favor, selecione novamente.'
    | MissingDates   // 'Por favor, selecione a data inicial e final.'
    | InvalidRange   // 'A data inicial deve ser anterior à data final.'
    | NoDataFound    // 'Nenhum dado encontrado para o período selecionado.'
    | FetchError     // 'Falha ao buscar dados.'

  /** No dates, no rows, picker hidden. */
  const Initial := Screen(None, None, [], false, None)

  /** `showDateTimePicker(target)`. */
  function ShowPicker(sc: Screen, target: string): (r: Screen)
    ensures r.pickerVisible && r.target == Some(target)
    ensures r.startDate == sc.startDate && r.endDate == sc.endDate && r.data == sc.data
  {
    sc.(pickerVisible := true, target := Some(target))
  }

  /** `hideDateTimePicker()`, also the picker's cancel. */
  function HidePicker(sc: Screen): (r: Screen)
    ensures !r.pickerVisible && r.target.None?
    ensures r.startDate == sc.startDate && r.endDate == sc.endDate && r.data == sc.data
  {
    sc.(pickerVisible := false, target := None)
  }

  /** `handleConfirm(selectedDate)`: an invalid pick raises an alert and sets
      nothing; a valid one sets the start date when the target is 'start' and
      the end date for any other target. The picker closes either way. */
  function Confirm(sc: Screen, selected: Option<int>): (r: (Screen, Option<Alert>))
    ensures !r.0.pickerVisible && r.0.target.None? && r.0.data == sc.data
    ensures selected.None? ==> r == (HidePicker(sc), Some(InvalidPick))
    ensures selected.Some? ==> r.1.None?
    ensures selected.Some? && sc.target == Some("start") ==>
      r.0.startDate == selected && r.0.endDate == sc.endDate
    ensures selected.Some? && sc.target != Some("start") ==>
      r.0.endDate == selected && r.0.startDate == sc.startDate
  {
    if selected.None? then (HidePicker(sc), Some(InvalidPick))
    else if sc.target == Some("start") then (HidePicker(sc.(startDate := selected)), None)
    else (HidePicker(sc.(endDate := selected)), None)
  }

  /** The range `fetchData` queries, or the alert that stops it first. */
  function RangeToFetch(sc: Screen): (r: Result<(int, int), Alert>)
    ensures r.Ok? <==> sc.startDate.Some? && sc.endDate.Some? && sc.startDate.value < sc.endDate.value
    ensures r.Ok? ==> r.value == (sc.startDate.value, sc.endDate.value)
    ensures r.Err? ==> r.error == (if sc.startDate.None? || sc.endDate.None? then MissingDates else InvalidRange)
  {
    if sc.startDate.None? || sc.endDate.None? then Err(MissingDates)
    else if sc.startDate.value >= sc.endDate.value then Err(InvalidRange)
    else Ok((sc.startDate.value, sc.endDate.value))
  }

  /** One `fetchData` call against the table (None when the app holds no
      connection): the new state, the alert raised, and the range queried. */
  datatype Fetched = Fetched(screen: Screen, alert: Option<Alert>, queried: Option<(int, int)>)

  function Fetch(sc: Screen, db: Option<Store>): (r: Fetched)
    ensures r.queried.Some? <==> RangeToFetch(sc).Ok?
    ensures r.queried.Some? ==> r.queried.value.0 < r.queried.value.1
    ensures r.queried.None? ==> r.screen == sc
    ensures r.screen.startDate == sc.startDate && r.screen.endDate == sc.endDate
    ensures r.screen.pickerVisible == sc.pickerVisible && r.screen.target == sc.target
  {
    match RangeToFetch(sc)
    case Err(a) => Fetched(sc, Some(a), None)
    case Ok((start, end)) =>
      match ByRange(db, Some(start), Some(end))
      case Err(_) => Fetched(sc, Some(FetchError), Some((start, end)))
      case Ok(rows) => Fetched(sc.(data := rows), if |rows| == 0 then Some(NoDataFound) else None, Some((start, end)))
  }

  /** A successful fetch shows the query's rows; a failed one (no connection)
      keeps the rows shown before. */
  lemma FetchReplacesOrKeeps(sc: Screen, db: Option<Store>)
    requires RangeToFetch(sc).Ok?
    ensures var (start, end) := RangeToFetch(sc).value;
      Fetch(sc, db).screen.data == (if db.Some? then ByRange(db, Some(start), Some(end)).value else sc.data)
    ensures db.None? ==> Fetch(sc, db).alert == Some(FetchError)
  {
  }

  /** With four-digit years at both ends, a successful fetch shows exactly
      the stored rows stamped from the start to the end, both included. */
  lemma FetchShowsRange(sc: Screen, s: Store, x: Row, u: int)
    requires RangeToFetch(sc).Ok?
    requires IsoText.InIsoYears(sc.startDate.value) && IsoText.InIsoYears(sc.endDate.value)
    requires IsoText.ParseIso(x.dataHora) == Some(u)
    ensures x in Fetch(sc, Some(s)).screen.data <==> x in s.rows && sc.startDate.value <= u <= sc.endDate.value
  {
    ByRangeSelectsInstants(s, sc.startDate.value, sc.endDate.value, x, u);
  }

  /** What the user does on the screen. */
  datatype Event = Pick(target: string) | Cancel | ConfirmPick(selected: Option<int>) | Refresh

  /** The state after one event and the range it queried, if any. */
  function Step(sc: Screen, e: Event, db: Option<Store>): (r: (Screen, Option<(int, int)>))
  {
    match e
    case Pick(target) => (ShowPicker(sc, target), None)
    case Cancel => (HidePicker(sc), None)
    case ConfirmPick(selected) => (Confirm(sc, selected).0, None)
    case Refresh =>
      var f := Fetch(sc, db);
      (f.screen, f.queried)
  }

  /** The state after a sequence of events and the ranges queried, in order. */
  function Run(sc: Screen, es: seq<Event>, db: Option<Store>): (r: (Screen, seq<(int, int)>))
    decreases |es|
  {
    if |es| == 0 then (sc, [])
    else
      var (next, q) := Step(sc, es[0], db);
      var (last, qs) := Run(next, es[1..], db);
      (last, (if q.Some? then [q.value] else []) + qs)
  }

  /** Every row the screen shows is a row of the table. */
  predicate ShowsStoredRows(sc: Screen, s: Store) {
    forall r :: r in sc.data ==> r in s.rows
  }

  /** Whatever the user does, every range the screen queries starts strictly
      before it ends, and the screen only ever shows rows of the table. */
  lemma {:induction false} RunQueriesForwardRanges(sc: Screen, es: seq<Event>, s: Store)
    requires ShowsStoredRows(sc, s)
    ensures forall k :: 0 <= k < |Run(sc, es, Some(s)).1| ==> Run(sc, es, Some(s)).1[k].0 < Run(sc, es, Some(s)).1[k].1
    ensures ShowsStoredRows(Run(sc, es, Some(s)).0, s)
    decreases |es|
  {
    if |es| > 0 {
      var (next, q) := Step(sc, es[0], Some(s));
      StepShowsStoredRows(sc, es[0], s);
      RunQueriesForwardRanges(next, es[1..], s);
    }
  }

  lemma StepShowsStoredRows(sc: Screen, e: Event, s: Store)
    requires ShowsStoredRows(sc, s)
    ensures ShowsStoredRows(Step(sc, e, Some(s)).0, s)
    ensures Step(sc, e, Some(s)).1.Some? ==> Step(sc, e, Some(s)).1.value.0 < Step(sc, e, Some(s)).1.value.1
  {
    if e.Refresh? && RangeToFetch(sc).Ok? {
      var (start, end) := RangeToFetch(sc).value;
      QueryExactly(s.rows, IsoText.ToIsoString(start), IsoText.ToIsoString(end));
    }
  }
}
