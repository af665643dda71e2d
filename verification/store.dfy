/**
 * The `sensor_data` table and its handle (api/database.js): the memoised
 * connection, and the insert that turns an MQTT payload into a row.
 *
 * The table is a sequence of rows in rowid order plus the next rowid
 * AUTOINCREMENT will assign. The handle a caller passes is `Some(store)`, or
 * `None` when the caller has no connection.
 */
module SensorStore {
  import opened Decimal
  import opened JsValues
  import opened Outcomes

  /** One row of `sensor_data`. The five measurements are REAL columns the
      pipeline never computes with; they keep the value the payload gave. */
  datatype Row = Row(
    id: int,
    numSaidas: int,
    numEntradas: int,
    humidadeInterna: JsValue,
    humidadeExterna: JsValue,
    temperaturaInterna: JsValue,
    temperaturaExterna: JsValue,
    luminosidade: JsValue,
    dataHora: string)

  /** The table: rows in rowid order, and the rowid the next insert receives. */
  datatype Store = Store(rows: seq<Row>, nextId: int)

  /** What the database functions throw. */
  datatype Failure =
    | OpenFailed        // "Failed to open database"
    | NoDatabase        // "Database instance not available ..."
    | InsertFailed      // "Failed to insert sensor data"
    | InvalidDate       // "Invalid Date object provided to getSensorDataByDate."
    | InvalidStartDate  // "Invalid startDate provided ..."
    | InvalidEndDate    // "Invalid endDate provided ..."
    | FetchFailed       // "Failed to fetch data by date" / "... by date range"
    | CleanFailed       // "Failed to clean old data"

  /** Rowids are positive, ascend in storage order and stay below the next one
      to assign, so AUTOINCREMENT never hands out an id twice. */
  predicate Valid(s: Store) {
    && 1 <= s.nextId
    && (forall i :: 0 <= i < |s.rows| ==> 1 <= s.rows[i].id < s.nextId)
    && (forall i, j :: 0 <= i < j < |s.rows| ==> s.rows[i].id < s.rows[j].id)
  }

  /** A freshly created table. */
  const EmptyStore := Store([], 1)

  lemma EmptyStoreValid()
    ensures Valid(EmptyStore)
  {
  }

  /** An open connection. */
  datatype Handle = Handle(serial: nat)

  /** `getDb()`: the cached handle if there is one; otherwise the outcome of
      opening the database (a parameter, None when opening throws), cached
      only on success. Returns the new cache and the result. */
  function GetDb(cache: Option<Handle>, open: Option<Handle>): (r: (Option<Handle>, Result<Handle, Failure>))
    ensures cache.Some? ==> r == (cache, Ok(cache.value))
    ensures cache.None? && open.Some? ==> r == (open, Ok(open.value))
    ensures cache.None? && open.None? ==> r == (None, Err(OpenFailed))
  {
    if cache.Some? then (cache, Ok(cache.value))
    else match open
      case Some(h) => (Some(h), Ok(h))
      case None => (None, Err(OpenFailed))
  }

  /** Once a call succeeds, every later call returns the same handle and never
      opens the database again. */
  lemma GetDbStable(cache: Option<Handle>, first: Option<Handle>, later: Option<Handle>)
    requires GetDb(cache, first).1.Ok?
    ensures var (c, h) := GetDb(cache, first); GetDb(c, later) == (c, h)
  {
  }

  /** A failed open leaves nothing cached, so the next call tries again as if
      it were the first. */
  lemma GetDbRetries(cache: Option<Handle>, first: Option<Handle>, later: Option<Handle>)
    requires GetDb(cache, first).1.Err?
    ensures GetDb(GetDb(cache, first).0, later) == GetDb(None, later)
  {
  }

  /** The eight values an INSERT binds, in column order. */
  datatype Bound = Bound(
    numSaidas: JsValue,
    numEntradas: JsValue,
    humidadeInterna: JsValue,
    humidadeExterna: JsValue,
    temperaturaInterna: JsValue,
    temperaturaExterna: JsValue,
    luminosidade: JsValue,
    dataHora: JsValue)

  /** The bindings `insertSensorData` computes: each counter and climate value
      is the camelCase field if truthy, else the snake_case field;
      `luminosidade` and `dataHora` are taken as they are. */
  function BoundOf(data: Payload): Bound {
    Bound(
      Or(Get(data, "numSaidas"), Get(data, "num_saidas")),
      Or(Get(data, "numEntradas"), Get(data, "num_entradas")),
      Or(Get(data, "humidadeInterna"), Get(data, "humidade_interna")),
      Or(Get(data, "humidadeExterna"), Get(data, "humidade_externa")),
      Or(Get(data, "temperaturaInterna"), Get(data, "temperatura_interna")),
      Or(Get(data, "temperaturaExterna"), Get(data, "temperatura_externa")),
      Get(data, "luminosidade"),
      Get(data, "dataHora"))
  }

  /** The same bindings with `??` in place of `||`: a present zero is kept. */
  function BoundOfNullish(data: Payload): Bound {
    Bound(
      Coalesce(Get(data, "numSaidas"), Get(data, "num_saidas")),
      Coalesce(Get(data, "numEntradas"), Get(data, "num_entradas")),
      Coalesce(Get(data, "humidadeInterna"), Get(data, "humidade_interna")),
      Coalesce(Get(data, "humidadeExterna"), Get(data, "humidade_externa")),
      Coalesce(Get(data, "temperaturaInterna"), Get(data, "temperatura_interna")),
      Coalesce(Get(data, "temperaturaExterna"), Get(data, "temperatura_externa")),
      Get(data, "luminosidade"),
      Get(data, "dataHora"))
  }

  /** An `INTEGER NOT NULL` column holds an integral number. */
  function IntegerColumn(v: JsValue): Option<int> {
    if v.Num? then Some(v.n) else None
  }

  /** A `REAL NOT NULL` column holds any value but null and undefined. */
  function RealColumn(v: JsValue): Option<JsValue> {
    if Nullish(v) then None else Some(v)
  }

  /** A `TEXT NOT NULL` column holds text; an integral number is stored as its
      decimal text. */
  function TextColumn(v: JsValue): Option<string> {
    match v
    case Str(s) => Some(s)
    case Num(n) => Some(IntText(n))
    case _ => None
  }

  /** The row the bindings make under rowid id, or None when a column refuses
      its value. */
  function RowOf(id: int, b: Bound): (r: Option<Row>)
    ensures r.Some? ==> r.value.id == id
    ensures r.Some? <==>
      && b.numSaidas.Num? && b.numEntradas.Num?
      && !Nullish(b.humidadeInterna) && !Nullish(b.humidadeExterna)
      && !Nullish(b.temperaturaInterna) && !Nullish(b.temperaturaExterna)
      && !Nullish(b.luminosidade) && (b.dataHora.Str? || b.dataHora.Num?)
  {
    var saidas, entradas := IntegerColumn(b.numSaidas), IntegerColumn(b.numEntradas);
    var hi, he := RealColumn(b.humidadeInterna), RealColumn(b.humidadeExterna);
    var ti, te := RealColumn(b.temperaturaInterna), RealColumn(b.temperaturaExterna);
    var lum, stamp := RealColumn(b.luminosidade), TextColumn(b.dataHora);
    if saidas.Some? && entradas.Some? && hi.Some? && he.Some? && ti.Some? && te.Some? && lum.Some? && stamp.Some? then
      Some(Row(id, saidas.value, entradas.value, hi.value, he.value, ti.value, te.value, lum.value, stamp.value))
    else None
  }

  /** Runs the INSERT with the given bindings: the new row gets the next rowid
      and goes last. Returns the new table and the row's id. */
  function InsertBound(db: Option<Store>, b: Bound): (r: Result<(Store, int), Failure>)
    ensures db.None? ==> r == Err(NoDatabase)
    ensures db.Some? ==> (r.Ok? <==> RowOf(db.value.nextId, b).Some?)
    ensures r.Ok? ==>
      && db.Some? && r.value.1 == db.value.nextId
      && r.value.0 == Store(db.value.rows + [RowOf(r.value.1, b).value], r.value.1 + 1)
  {
    match db
    case None => Err(NoDatabase)
    case Some(s) =>
      match RowOf(s.nextId, b)
      case None => Err(InsertFailed)
      case Some(row) => Ok((Store(s.rows + [row], s.nextId + 1), s.nextId))
  }

  /** `insertSensorData(db, data)` as written, with `||` fallbacks. */
  function Insert(db: Option<Store>, data: Payload): Result<(Store, int), Failure> {
    InsertBound(db, BoundOf(data))
  }

  /** `insertSensorData(db, data)` with `??` fallbacks: a zero reading is stored. */
  function InsertNullish(db: Option<Store>, data: Payload): Result<(Store, int), Failure> {
    InsertBound(db, BoundOfNullish(data))
  }

  /** An insert adds exactly one row at the end, keeps every earlier row, and
      gives it an id larger than every id in the table; the table stays valid. */
  lemma InsertAppends(db: Option<Store>, b: Bound)
    requires db.Some? && Valid(db.value) && InsertBound(db, b).Ok?
    ensures var (s, id) := InsertBound(db, b).value;
      && Valid(s)
      && |s.rows| == |db.value.rows| + 1
      && s.rows[..|db.value.rows|] == db.value.rows
      && s.rows[|db.value.rows|].id == id
      && (forall i :: 0 <= i < |db.value.rows| ==> db.value.rows[i].id < id)
      && s.nextId > db.value.nextId
  {
    var (s, id) := InsertBound(db, b).value;
    var old_ := db.value.rows;
    assert s.rows == old_ + [RowOf(id, b).value];
    assert s.rows[|old_|].id == id;
    assert s.rows[..|old_|] == old_;
    forall i, j | 0 <= i < j < |s.rows|
      ensures s.rows[i].id < s.rows[j].id
    {
      if j < |old_| {
        assert s.rows[i] == old_[i] && s.rows[j] == old_[j];
      } else {
        assert s.rows[i] == old_[i];
      }
    }
  }

  /** The stored row holds the payload's values: each counter and climate column
      the camelCase field when truthy, else the snake_case field;
      `luminosidade` and `dataHora` as given. */
  lemma InsertStoresPayload(db: Option<Store>, data: Payload)
    requires Insert(db, data).Ok?
    ensures var (s, id) := Insert(db, data).value; var row := s.rows[|s.rows| - 1];
      && Num(row.numSaidas) == Or(Get(data, "numSaidas"), Get(data, "num_saidas"))
      && Num(row.numEntradas) == Or(Get(data, "numEntradas"), Get(data, "num_entradas"))
      && row.humidadeInterna == Or(Get(data, "humidadeInterna"), Get(data, "humidade_interna"))
      && row.humidadeExterna == Or(Get(data, "humidadeExterna"), Get(data, "humidade_externa"))
      && row.temperaturaInterna == Or(Get(data, "temperaturaInterna"), Get(data, "temperatura_interna"))
      && row.temperaturaExterna == Or(Get(data, "temperaturaExterna"), Get(data, "temperatura_externa"))
      && row.luminosidade == Get(data, "luminosidade")
      && TextColumn(Get(data, "dataHora")) == Some(row.dataHora)
  {
  }

  /** With no handle the insert throws before touching the table. */
  lemma InsertWithoutDb(data: Payload)
    ensures Insert(None, data) == Err(NoDatabase)
  {
  }

  /** A reading that spells every field in camelCase, as the sensor sends it. */
  predicate CamelCaseReading(data: Payload) {
    && Get(data, "numSaidas").Num? && Get(data, "numEntradas").Num?
    && !Nullish(Get(data, "humidadeInterna")) && !Nullish(Get(data, "humidadeExterna"))
    && !Nullish(Get(data, "temperaturaInterna")) && !Nullish(Get(data, "temperaturaExterna"))
    && !Nullish(Get(data, "luminosidade")) && Get(data, "dataHora").Str?
  }

  /** As written, a reading with `numSaidas: 0` and no `num_saidas` binds
      `0 || undefined`, that is undefined, into `numSaidas INTEGER NOT NULL`:
      the insert throws and nothing is stored. */
  lemma ZeroCountRefused(db: Option<Store>, data: Payload)
    requires Get(data, "numSaidas") == Num(0) && "num_saidas" !in data
    ensures Insert(db, data) == Err(if db.None? then NoDatabase else InsertFailed)
  {
    assert BoundOf(data).numSaidas == Undefined;
  }

  /** With `??`, the same complete reading is stored, its zero count as 0. */
  lemma ZeroCountStored(s: Store, data: Payload)
    requires CamelCaseReading(data) && Get(data, "numSaidas") == Num(0)
    ensures InsertNullish(Some(s), data).Ok?
    ensures InsertNullish(Some(s), data).value.0.rows[|s.rows|].numSaidas == 0
  {
    assert BoundOfNullish(data).numSaidas == Num(0);
  }

  /** With `??` every present camelCase value is stored as given, zero or not;
      the snake_case field is consulted only when the camelCase one is missing. */
  lemma InsertNullishKeepsPresentValues(db: Option<Store>, data: Payload)
    requires InsertNullish(db, data).Ok?
    ensures var (s, id) := InsertNullish(db, data).value; var row := s.rows[|s.rows| - 1];
      && (!Nullish(Get(data, "numSaidas")) ==> Num(row.numSaidas) == Get(data, "numSaidas"))
      && (!Nullish(Get(data, "numEntradas")) ==> Num(row.numEntradas) == Get(data, "numEntradas"))
      && (!Nullish(Get(data, "humidadeInterna")) ==> row.humidadeInterna == Get(data, "humidadeInterna"))
      && (!Nullish(Get(data, "humidadeExterna")) ==> row.humidadeExterna == Get(data, "humidadeExterna"))
      && (!Nullish(Get(data, "temperaturaInterna")) ==> row.temperaturaInterna == Get(data, "temperaturaInterna"))
      && (!Nullish(Get(data, "temperaturaExterna")) ==> row.temperaturaExterna == Get(data, "temperaturaExterna"))
  {
  }
}
