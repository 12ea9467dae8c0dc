/** The durable storage's value codec: composite values travel as JSON text,
    scalars as their `toString`, and text read back is parsed as JSON when it
    parses and kept as the raw string when it does not.

    `JSON.stringify` and `JSON.parse` are not part of this model: they are a
    parameter (`Json`), and what the model proves about round trips is proved
    for every parameter obeying `JsonLaw`. A failing `stringify` (on a cyclic
    object, say) is the parameter returning `None`. */
module ValueCodec {
  import opened Wrappers
  import opened Values

  datatype Json = Json(stringify: Value -> Option<string>, parse: string -> Option<Value>)

  /** A value JSON carries unchanged: no `undefined` and no time object
      anywhere inside it (JSON drops the first and turns the second into a
      date string). */
  predicate JsonSafe(v: Value) {
    match v
    case Undefined => false
    case Moment(_) => false
    case Arr(a) => forall i :: 0 <= i < |a| ==> JsonSafe(a[i])
    case Obj(f) => forall k :: k in f ==> JsonSafe(f[k])
    case _ => true
  }

  function DigitChar(d: nat): char
    requires d < 10
  {
    ('0' as int + d) as char
  }

  /** The decimal text of a natural number. */
  function NatToString(n: nat): (r: string)
    ensures |r| >= 1
    ensures forall i :: 0 <= i < |r| ==> IsDigit(r[i])
    ensures DecimalValue(r) == n
  {
    if n < 10 then [DigitChar(n)]
    else
      var r := NatToString(n / 10) + [DigitChar(n % 10)];
      assert r[..|r| - 1] == NatToString(n / 10);
      r
  }

  /** `Number.prototype.toString()` on an integer. */
  function NumberToString(n: int): string {
    if n >= 0 then NatToString(n) else "-" + NatToString(-n)
  }

  /** What the model needs of JSON: a value it stringifies parses back to
      itself, and number and boolean literals parse to their values. */
  ghost predicate JsonLaw(json: Json) {
    && (forall v :: JsonSafe(v) && json.stringify(v).Some? ==> json.parse(json.stringify(v).value) == Some(v))
    && (forall n :: json.parse(NumberToString(n)) == Some(Num(n)))
    && json.parse("true") == Some(Bool(true))
    && json.parse("false") == Some(Bool(false))
  }

  /** `serialize`: objects, arrays and time objects (those Ember's `typeOf`
      calls `'object'`, plus arrays) go through `JSON.stringify`, and its
      failure gives `None` (`serialize` returns `false`); scalars give their
      `toString`. `null` and `undefined` have no `toString`: `serialize`
      throws on them, and its only caller never passes them. */
  function Serialize(json: Json, v: Value): (r: Option<string>)
    requires !IsNone(v)
    ensures (v.Obj? || v.Arr? || v.Moment?) ==> r == json.stringify(v)
    ensures v.Str? ==> r == Some(v.s)
    ensures (v.Num? || v.Bool?) ==> r.Some?
  {
    match v
    case Obj(_) => json.stringify(v)
    case Arr(_) => json.stringify(v)
    case Moment(_) => json.stringify(v)
    case Str(s) => Some(s)
    case Num(n) => Some(NumberToString(n))
    case Bool(b) => Some(if b then "true" else "false")
  }

  /** `deserialize`: the parsed JSON, or the raw text when it does not parse.
      (Wrapping a parsed array as an Ember array does not change it.) */
  function Deserialize(json: Json, text: string): (r: Value)
    ensures json.parse(text).Some? ==> r == json.parse(text).value
    ensures json.parse(text).None? ==> r == Str(text)
  {
    match json.parse(text)
    case Some(v) => v
    case None => Str(text)
  }

  /** Every JSON-safe value the codec serializes comes back unchanged,
      except a string that itself parses as JSON. */
  lemma ValueRoundTrip(json: Json, v: Value)
    requires JsonLaw(json)
    requires JsonSafe(v) && !IsNone(v)
    requires Serialize(json, v).Some?
    requires v.Str? ==> json.parse(v.s).None?
    ensures Deserialize(json, Serialize(json, v).value) == v
  {
    match v
    case Obj(_) =>
    case Arr(_) =>
    case Str(_) =>
    case Num(n) =>
      assert json.parse(NumberToString(n)) == Some(Num(n));
    case Bool(b) =>
  }

  /** A string that reads as JSON does not come back as a string: `"123"`
      returns as the number 123 and `"true"` as the boolean. */
  lemma StringsThatParseChangeType(json: Json)
    requires JsonLaw(json)
    ensures Deserialize(json, Serialize(json, Str("123")).value) == Num(123)
    ensures Deserialize(json, Serialize(json, Str("true")).value) == Bool(true)
  {
    assert NumberToString(123) == "123" by {
      assert NatToString(123) == NatToString(12) + ['3'];
      assert NatToString(12) == NatToString(1) + ['2'];
    }
    assert json.parse(NumberToString(123)) == Some(Num(123));
  }
}
