/** The JavaScript values the stores hold, with the tests Ember applies to
    them (`isNone`, `isEmpty`, `isBlank`, `isPresent`, truthiness) and Ember's
    `get`/`set` on a dotted path. Objects are maps from property name to
    value, so two objects with the same properties are equal whatever order
    the properties were added in. Numbers are integers. */
module Values {
  import opened Wrappers

  datatype Value =
    | Undefined
    | Null
    | Bool(b: bool)
    | Num(n: int)
    | Str(s: string)
      /** A time object (a `moment`), known by its epoch milliseconds. */
    | Moment(ms: int)
    | Arr(items: seq<Value>)
    | Obj(fields: map<string, Value>)

  /** Ember's `isNone`: `null` or `undefined`. */
  predicate IsNone(v: Value) {
    v.Undefined? || v.Null?
  }

  /** JavaScript truthiness: `undefined`, `null`, `false`, `0` and `""` are
      falsy, every object is truthy. */
  predicate Truthy(v: Value) {
    match v
    case Undefined => false
    case Null => false
    case Bool(b) => b
    case Num(n) => n != 0
    case Str(s) => s != ""
    case _ => true
  }

  /** Ember's `isEmpty`: none, or a numeric `size` of zero, or a numeric
      `length` of zero (strings and arrays by their length, plain objects by
      a `size` or `length` property they may carry). */
  predicate IsEmpty(v: Value) {
    match v
    case Undefined => true
    case Null => true
    case Str(s) => |s| == 0
    case Arr(a) => |a| == 0
    case Obj(f) =>
      if "size" in f && f["size"].Num? then f["size"].n == 0
      else if "length" in f && f["length"].Num? then f["length"].n == 0
      else false
    case _ => false
  }

  /** The characters JavaScript's `\s` matches. */
  predicate IsWhitespace(c: char) {
    || c == ' ' || c == '\t' || c == '\n' || c == '\r' || c == '\U{000B}' || c == '\U{000C}'
    || c == '\U{00A0}' || c == '\U{1680}' || ('\U{2000}' <= c <= '\U{200A}')
    || c == '\U{2028}' || c == '\U{2029}' || c == '\U{202F}' || c == '\U{205F}'
    || c == '\U{3000}' || c == '\U{FEFF}'
  }

  /** Ember's `isBlank`: empty, or a string of whitespace only. */
  predicate IsBlank(v: Value) {
    IsEmpty(v) || (v.Str? && forall i :: 0 <= i < |v.s| ==> IsWhitespace(v.s[i]))
  }

  /** Ember's `isPresent`: not blank. */
  predicate IsPresent(v: Value) {
    !IsBlank(v)
  }

  /** A present value is never none, and `false` and `0` are present. */
  lemma PresentIsNotNone(v: Value)
    ensures IsPresent(v) ==> !IsNone(v)
    ensures IsPresent(Bool(false)) && IsPresent(Num(0))
    ensures !IsPresent(Str("")) && !IsPresent(Arr([]))
  {
  }

  predicate IsDigit(c: char) {
    '0' <= c <= '9'
  }

  /** The number a string of decimal digits denotes. */
  function DecimalValue(s: string): nat
    requires forall i :: 0 <= i < |s| ==> IsDigit(s[i])
  {
    if s == [] then 0
    else
      assert IsDigit(s[|s| - 1]);
      DecimalValue(s[..|s| - 1]) * 10 + (s[|s| - 1] as int - '0' as int)
  }

  /** The largest array length JavaScript allows, plus one. */
  const ArrayIndexLimit: int := 4294967295

  /** A canonical array index: decimal digits, no leading zero, below 2^32 - 1. */
  predicate IsIndex(k: string) {
    && |k| >= 1
    && (forall i :: 0 <= i < |k| ==> IsDigit(k[i]))
    && (|k| == 1 || k[0] != '0')
    && DecimalValue(k) < ArrayIndexLimit
  }

  /** The value of property `k` of `v` (`v[k]`, or Ember's `get` on a key
      without dots): an object's own property; an array's element or its
      `length`; a string's character or its `length`; `undefined` for
      everything else. */
  function GetField(v: Value, k: string): Value {
    match v
    case Obj(f) => if k in f then f[k] else Undefined
    case Arr(a) =>
      if IsIndex(k) && DecimalValue(k) < |a| then a[DecimalValue(k)]
      else if k == "length" then Num(|a|)
      else Undefined
    case Str(s) =>
      if IsIndex(k) && DecimalValue(k) < |s| then Str([s[DecimalValue(k)]])
      else if k == "length" then Num(|s|)
      else Undefined
    case _ => Undefined
  }

  /** An array and a string report their length under `length`. */
  lemma LengthField(a: seq<Value>, s: string)
    ensures GetField(Arr(a), "length") == Num(|a|)
    ensures GetField(Str(s), "length") == Num(|s|)
  {
    assert !IsDigit("length"[0]);
  }

  /** Ember's `get` on a path: one property per segment; a none value along
      the way gives `undefined`. */
  function GetIn(v: Value, path: seq<string>): Value
    decreases |path|
  {
    if path == [] then v else GetIn(GetField(v, path[0]), path[1..])
  }

  /** Holes JavaScript leaves in an array when an element is assigned past
      its end; they read as `undefined`. */
  function Holes(n: nat): (r: seq<Value>)
    ensures |r| == n && forall i :: 0 <= i < n ==> r[i] == Undefined
  {
    seq(n, _ => Undefined)
  }

  /** `v[k] = x` as Ember's `set` does it. Objects take the property, arrays
      the element (growing with holes when the index is past the end), and
      a named property on an array or on a time object is accepted but not
      represented. Setting on anything else throws: `None`. */
  function SetField(v: Value, k: string, x: Value): Option<Value> {
    match v
    case Obj(f) => Some(Obj(f[k := x]))
    case Arr(a) =>
      if !IsIndex(k) then Some(v)
      else if DecimalValue(k) < |a| then Some(Arr(a[DecimalValue(k) := x]))
      else Some(Arr(a + Holes(DecimalValue(k) - |a|) + [x]))
    case Moment(_) => Some(v)
    case _ => None
  }

  /** Ember's `set` on a path: the container named by all but the last
      segment receives the last one. A missing or primitive container along
      the way throws: `None`. */
  function SetIn(v: Value, path: seq<string>, x: Value): Option<Value>
    requires path != []
    decreases |path|
  {
    if |path| == 1 then SetField(v, path[0], x)
    else
      match SetIn(GetField(v, path[0]), path[1..], x)
      case None => None
      case Some(child) => SetField(v, path[0], child)
  }

  /** `k` names something `GetField` can read back on `v`: any property of
      an object, or an index of an array. */
  predicate Addressable(v: Value, k: string) {
    v.Obj? || (v.Arr? && IsIndex(k))
  }

  /** Every container along `path` in `v` exists and can hold the next
      segment. */
  predicate PathOpen(v: Value, path: seq<string>)
    requires path != []
    decreases |path|
  {
    Addressable(v, path[0]) && (|path| == 1 || PathOpen(GetField(v, path[0]), path[1..]))
  }

  /** Writing one property and reading it back gives what was written. */
  lemma GetAfterSetField(v: Value, k: string, x: Value)
    requires Addressable(v, k)
    ensures SetField(v, k, x).Some? && GetField(SetField(v, k, x).value, k) == x
  {
    if v.Arr? {
      var i := DecimalValue(k);
      var w := SetField(v, k, x).value;
      if i >= |v.items| {
        assert w.items == v.items + Holes(i - |v.items|) + [x];
        assert |w.items| == i + 1 && w.items[i] == x;
      }
    }
  }

  /** A path write through open containers succeeds, and reading the same
      path back gives the value written. */
  lemma {:induction false} GetAfterSetIn(v: Value, path: seq<string>, x: Value)
    requires path != [] && PathOpen(v, path)
    ensures SetIn(v, path, x).Some?
    ensures GetIn(SetIn(v, path, x).value, path) == x
    decreases |path|
  {
    GetAfterSetField(v, path[0], if |path| == 1 then x else SetIn(GetField(v, path[0]), path[1..], x).GetOr(x));
    if |path| > 1 {
      GetAfterSetIn(GetField(v, path[0]), path[1..], x);
    }
  }

  /** A path write into an object leaves every other top-level property of
      that object as it was. */
  lemma SetInKeepsSiblings(f: map<string, Value>, path: seq<string>, x: Value, k: string)
    requires path != [] && k != path[0]
    requires SetIn(Obj(f), path, x).Some?
    ensures GetField(SetIn(Obj(f), path, x).value, k) == GetField(Obj(f), k)
  {
  }

  /** Something `SetField` can write a property of: an object, an array or
      a time object. */
  predicate Container(v: Value) {
    v.Obj? || v.Arr? || v.Moment?
  }

  /** A path write throws exactly when some container it passes through,
      the root included, is missing or primitive. */
  lemma {:induction false} SetInFailsOnPrimitive(v: Value, path: seq<string>, x: Value)
    requires path != []
    ensures SetIn(v, path, x).None? <==> exists i :: 0 <= i < |path| && !Container(GetIn(v, path[..i]))
    decreases |path|
  {
    assert GetIn(v, path[..0]) == v;
    if |path| > 1 {
      var child := GetField(v, path[0]);
      var rest := path[1..];
      SetInFailsOnPrimitive(child, rest, x);
      forall i | 0 <= i < |rest| ensures GetIn(child, rest[..i]) == GetIn(v, path[..i + 1]) {
        assert path[..i + 1][1..] == rest[..i];
      }
      if SetIn(v, path, x).None? && Container(v) {
        var i :| 0 <= i < |rest| && !Container(GetIn(child, rest[..i]));
        assert !Container(GetIn(v, path[..i + 1]));
      }
      if exists i :: 0 <= i < |path| && !Container(GetIn(v, path[..i])) {
        var i :| 0 <= i < |path| && !Container(GetIn(v, path[..i]));
        if i > 0 {
          assert !Container(GetIn(child, rest[..i - 1]));
        }
      }
    }
  }
}
