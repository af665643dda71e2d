/**
 * The reading card (components/DataCard.js): the timestamp line and one text
 * per field, each field falling back from its camelCase to its snake_case
 * key under `||`, as the insert does. The timestamp's display text is locale
 * formatting; the model keeps the instant shown.
 */
module DataCard {
  import opened Decimal
  import opened IsoText
  import opened JsDate
  import opened JsValues
  import opened Outcomes
  import opened SensorStore

  const NotAvailable := "N/A"

  /** `safeDisplay(value, suffix)`: null, undefined and the empty string show
      'N/A'; any other value shows its text followed by the suffix. */
  function SafeDisplay(v: JsValue, suffix: string): (r: string)
    ensures Nullish(v) || v == Str("") ==> r == NotAvailable
    ensures !(Nullish(v) || v == Str("")) ==> r == ToText(v) + suffix
  {
    if Nullish(v) || v == Str("") then NotAvailable else ToText(v) + suffix
  }

  /** `new Date(value)`: a string is parsed, a number is a time value, null
      is 0 and a boolean 0 or 1; undefined is an Invalid Date. */
  function DateOf(v: JsValue): (d: Option<int>)
    ensures v.Str? ==> d == ParseIso(v.s)
    ensures d.Some? ==> IsTimeValue(d.value)
  {
    match v
    case Undefined => None
    case Null => Some(0)
    case Bool(b) => Some(if b then 1 else 0)
    case Num(n) => TimeClip(n)
    case Frac(_) => None
    case Str(s) => ParseIso(s)
  }

  /** The card's lines: the instant shown (None for 'N/A') and the text of
      each field. */
  datatype Card = Card(
    time: Option<int>,
    entradas: string,
    saidas: string,
    temperaturaInterna: string,
    temperaturaExterna: string,
    humidadeInterna: string,
    humidadeExterna: string,
    luminosidade: string)

  /** One field with its snake_case fallback. */
  function FieldText(data: Payload, camel: string, snake: string, suffix: string): string {
    SafeDisplay(Or(Get(data, camel), Get(data, snake)), suffix)
  }

  /** `DataCard({ data })`: nothing without data. */
  function CardOf(data: Option<Payload>): (c: Option<Card>)
    ensures c.None? <==> data.None?
    ensures c.Some? ==> c.value.time == DateOf(Get(data.value, "dataHora"))
    ensures c.Some? ==> c.value.luminosidade == SafeDisplay(Get(data.value, "luminosidade"), "")
  {
    match data
    case None => None
    case Some(p) =>
      Some(Card(
        DateOf(Get(p, "dataHora")),
        FieldText(p, "numEntradas", "num_entradas", ""),
        FieldText(p, "numSaidas", "num_saidas", ""),
        FieldText(p, "temperaturaInterna", "temperatura_interna", "°C"),
        FieldText(p, "temperaturaExterna", "temperatura_externa", "°C"),
        FieldText(p, "humidadeInterna", "humidade_interna", "%"),
        FieldText(p, "humidadeExterna", "humidade_externa", "%"),
        SafeDisplay(Get(p, "luminosidade"), "")))
  }

  /** A count of zero under its camelCase key, with no snake_case key, shows
      'N/A', not 0: `||` discards the zero. */
  lemma ZeroCountShowsNotAvailable(p: Payload)
    requires Get(p, "numEntradas") == Num(0) && "num_entradas" !in p
    ensures CardOf(Some(p)).value.entradas == NotAvailable
  {
  }

  /** A truthy camelCase field wins over its snake_case one. */
  lemma CamelCaseWins(p: Payload, camel: string, snake: string, suffix: string)
    requires Truthy(Get(p, camel))
    ensures FieldText(p, camel, snake, suffix) == SafeDisplay(Get(p, camel), suffix)
  {
  }

  /** A count the card shows reads back as the count, once its suffix is
      removed. */
  lemma ShownCountReadsBack(v: JsValue, suffix: string, n: int)
    requires v == Num(n)
    ensures var r := SafeDisplay(v, suffix);
      && |r| >= |suffix| && r[|r| - |suffix|..] == suffix
      && ReadInt(r[..|r| - |suffix|]) == Some(n)
  {
    var r := SafeDisplay(v, suffix);
    assert r == IntText(n) + suffix;
    assert r[..|r| - |suffix|] == IntText(n);
    ReadIntText(n);
  }

  /** The card shows the values the insert binds, each from the same
      camelCase/snake_case pair: the counts and light bare, the temperatures
      in °C and the humidities in %. */
  lemma CardShowsBindings(p: Payload)
    ensures var c := CardOf(Some(p)).value; var b := BoundOf(p);
      && c.entradas == SafeDisplay(b.numEntradas, "")
      && c.saidas == SafeDisplay(b.numSaidas, "")
      && c.temperaturaInterna == SafeDisplay(b.temperaturaInterna, "°C")
      && c.temperaturaExterna == SafeDisplay(b.temperaturaExterna, "°C")
      && c.humidadeInterna == SafeDisplay(b.humidadeInterna, "%")
      && c.humidadeExterna == SafeDisplay(b.humidadeExterna, "%")
      && c.luminosidade == SafeDisplay(b.luminosidade, "")
      && c.time == DateOf(b.dataHora)
  {
  }

  /** A card for a payload the insert stored shows the counts of the stored
      row and the instant its `dataHora` text spells. */
  lemma CardShowsStoredRow(db: Option<Store>, p: Payload)
    requires Insert(db, p).Ok?
    ensures var (s, id) := Insert(db, p).value; var row := s.rows[|s.rows| - 1];
      && ReadInt(CardOf(Some(p)).value.entradas) == Some(row.numEntradas)
      && ReadInt(CardOf(Some(p)).value.saidas) == Some(row.numSaidas)
      && (Get(p, "dataHora").Str? ==> CardOf(Some(p)).value.time == ParseIso(row.dataHora))
  {
    CardShowsBindings(p);
    StoredBindings(db, BoundOf(p));
  }

  /** The counts an insert binds read back, as the card shows them, as the
      stored row's counts, and a text stamp is stored as it is. */
  lemma StoredBindings(db: Option<Store>, b: Bound)
    requires InsertBound(db, b).Ok?
    ensures var s := InsertBound(db, b).value.0; var row := s.rows[|s.rows| - 1];
      && ReadInt(SafeDisplay(b.numEntradas, "")) == Some(row.numEntradas)
      && ReadInt(SafeDisplay(b.numSaidas, "")) == Some(row.numSaidas)
      && (b.dataHora.Str? ==> DateOf(b.dataHora) == ParseIso(row.dataHora))
  {
    var row := RowOf(db.value.nextId, b).value;
    ShownCountReadsBack(b.numEntradas, "", row.numEntradas);
    ShownCountReadsBack(b.numSaidas, "", row.numSaidas);
    var r1 := SafeDisplay(b.numEntradas, "");
    var r2 := SafeDisplay(b.numSaidas, "");
    assert r1[..|r1| - 0] == r1;
    assert r2[..|r2| - 0] == r2;
  }
}
