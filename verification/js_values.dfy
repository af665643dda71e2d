/**
 * The JavaScript values a decoded MQTT payload carries, with the two
 * operators the pipeline applies to them: truthiness (`||`, `if (x)`) and
 * conversion to text (template literals).
 */
module JsValues {
  import opened Decimal
  import opened Outcomes

  /** A value read from a payload. An integral number is exact; a number with
      a fractional part is carried as its decimal text. */
  datatype JsValue = Undefined | Null | Bool(b: bool) | Num(n: int) | Frac(text: string) | Str(s: string)

  /** `null` or `undefined`. */
  predicate Nullish(v: JsValue) {
    v.Undefined? || v.Null?
  }

  /** ToBoolean: undefined, null, false, 0 and "" are falsy. A number with a
      fractional part is never 0, so it is truthy. */
  predicate Truthy(v: JsValue) {
    match v
    case Undefined => false
    case Null => false
    case Bool(b) => b
    case Num(n) => n != 0
    case Frac(_) => true
    case Str(s) => |s| > 0
  }

  /** `a || b`: the first operand when it is truthy, otherwise the second. */
  function Or(a: JsValue, b: JsValue): (r: JsValue)
    ensures Truthy(r) <==> Truthy(a) || Truthy(b)
    ensures r == a || r == b
  {
    if Truthy(a) then a else b
  }

  /** `a ?? b`: the first operand unless it is null or undefined. */
  function Coalesce(a: JsValue, b: JsValue): (r: JsValue)
    ensures Nullish(r) <==> Nullish(a) && Nullish(b)
    ensures r == a || r == b
  {
    if Nullish(a) then b else a
  }

  /** `||` and `??` differ exactly on a present falsy first operand (0, false,
      ""): `||` discards it, `??` keeps it. */
  lemma OrCoalesceDiffer(a: JsValue, b: JsValue)
    ensures Or(a, b) == Coalesce(a, b) <==> Truthy(a) || Nullish(a) || a == b
  {
  }

  /** A zero count under `||` is replaced by its fallback, however it is spelled. */
  lemma OrDropsZero(b: JsValue)
    ensures Or(Num(0), b) == b && Coalesce(Num(0), b) == Num(0)
  {
  }

  /** A payload: a decoded JSON object. */
  type Payload = map<string, JsValue>

  /** Property access: a missing key reads as undefined. */
  function Get(p: Payload, k: string): (v: JsValue)
    ensures k !in p ==> v == Undefined
    ensures k in p ==> v == p[k]
  {
    if k in p then p[k] else Undefined
  }

  /** `${v}`, ToString of a value. */
  function ToText(v: JsValue): string {
    match v
    case Undefined => "undefined"
    case Null => "null"
    case Bool(b) => if b then "true" else "false"
    case Num(n) => IntText(n)
    case Frac(t) => t
    case Str(s) => s
  }

  /** An integral number's text reads back as that number. */
  lemma NumTextReadsBack(n: int)
    ensures ReadInt(ToText(Num(n))) == Some(n)
  {
    ReadIntText(n);
  }
}
