/** The cache's blocks: every cached value is stored as
    `{data: value, meta: {updated, expire, ...}}`, valid while `meta.expire`
    is empty or later than now. "Now" is a parameter: epoch milliseconds. */
module Expiry {
  import opened Wrappers
  import opened Strings
  import opened Values
  import opened ValueCodec

  /** The text without the leading and trailing whitespace. */
  function Trim(s: string): (r: string)
    ensures |r| <= |s|
    decreases |s|
  {
    if s == [] then s
    else if IsWhitespace(s[0]) then Trim(s[1..])
    else if IsWhitespace(s[|s| - 1]) then Trim(s[..|s| - 1])
    else s
  }

  predicate AllWhitespace(s: string) {
    forall i :: 0 <= i < |s| ==> IsWhitespace(s[i])
  }

  /** The trimmed text, unless empty, neither starts nor ends with
      whitespace. */
  lemma {:induction false} TrimEnds(s: string)
    ensures Trim(s) == [] || (!IsWhitespace(Trim(s)[0]) && !IsWhitespace(Trim(s)[|Trim(s)| - 1]))
    decreases |s|
  {
    if s != [] {
      if IsWhitespace(s[0]) {
        TrimEnds(s[1..]);
      } else if IsWhitespace(s[|s| - 1]) {
        TrimEnds(s[..|s| - 1]);
      }
    }
  }

  /** Trimming removes only whitespace, from the two ends: the text is some
      whitespace, the trimmed text and some whitespace. With `TrimEnds`, it
      removes exactly the leading and trailing whitespace. */
  lemma {:induction false} TrimStrips(s: string)
    ensures exists p, q :: AllWhitespace(p) && AllWhitespace(q) && s == p + Trim(s) + q
    decreases |s|
  {
    if s == [] {
      var none: string := [];
      assert AllWhitespace(none) && s == none + Trim(s) + none;
    } else if IsWhitespace(s[0]) {
      TrimStrips(s[1..]);
      assert Trim(s) == Trim(s[1..]);
      var p, q :| AllWhitespace(p) && AllWhitespace(q) && s[1..] == p + Trim(s[1..]) + q;
      WhitespaceCons(s[0], p);
      PrependPiece(s, p, Trim(s[1..]), q);
    } else if IsWhitespace(s[|s| - 1]) {
      TrimStrips(s[..|s| - 1]);
      assert Trim(s) == Trim(s[..|s| - 1]);
      var p, q :| AllWhitespace(p) && AllWhitespace(q) && s[..|s| - 1] == p + Trim(s[..|s| - 1]) + q;
      WhitespaceSnoc(q, s[|s| - 1]);
      AppendPiece(s, p, Trim(s[..|s| - 1]), q);
    } else {
      var none: string := [];
      assert Trim(s) == s && AllWhitespace(none) && s == none + Trim(s) + none;
    }
  }

  /** One more whitespace character in front is still whitespace. */
  lemma WhitespaceCons(c: char, p: string)
    requires IsWhitespace(c) && AllWhitespace(p)
    ensures AllWhitespace([c] + p)
  {
    assert forall i :: 0 < i < |p| + 1 ==> ([c] + p)[i] == p[i - 1];
  }

  /** One more whitespace character behind is still whitespace. */
  lemma WhitespaceSnoc(q: string, c: char)
    requires IsWhitespace(c) && AllWhitespace(q)
    ensures AllWhitespace(q + [c])
  {
    assert forall i :: 0 <= i < |q| ==> (q + [c])[i] == q[i];
  }

  /** Putting the first character back in front of the pieces of the rest. */
  lemma PrependPiece(s: string, p: string, t: string, q: string)
    requires s != [] && s[1..] == p + t + q
    ensures s == ([s[0]] + p) + t + q
  {
    assert s == [s[0]] + s[1..];
  }

  /** Putting the last character back behind the pieces of the rest. */
  lemma AppendPiece(s: string, p: string, t: string, q: string)
    requires s != [] && s[..|s| - 1] == p + t + q
    ensures s == p + t + (q + [s[|s| - 1]])
  {
    assert s == s[..|s| - 1] + [s[|s| - 1]];
  }

  predicate AllDigits(s: string) {
    forall i :: 0 <= i < |s| ==> IsDigit(s[i])
  }

  /** The value of a run of decimal digits, `None` when some character is
      not a digit. */
  function Digits(s: string): Option<nat>
    decreases |s|
  {
    if s == [] then Some(0)
    else if !IsDigit(s[|s| - 1]) then None
    else match Digits(s[..|s| - 1])
      case None => None
      case Some(n) => Some(n * 10 + (s[|s| - 1] as int - '0' as int))
  }

  /** `Digits` reads exactly the all-digit texts, as their decimal value. */
  lemma {:induction false} DigitsValue(s: string)
    ensures Digits(s).Some? <==> AllDigits(s)
    ensures AllDigits(s) ==> Digits(s) == Some(DecimalValue(s))
    decreases |s|
  {
    if s != [] {
      var init := s[..|s| - 1];
      DigitsValue(init);
      assert forall i :: 0 <= i < |init| ==> init[i] == s[i];
      if !IsDigit(s[|s| - 1]) {
        assert !AllDigits(s);
      }
    }
  }

  /** `Number(s)` on integer texts: surrounding whitespace is ignored, the
      empty text is 0, an optional sign followed by decimal digits is their
      value. Every other text is read as NaN (`None`), which `Number()`
      agrees with except for fractions, exponents, radix prefixes and
      `Infinity`. */
  function StringToNumber(s: string): Option<int> {
    var t := Trim(s);
    if t == [] then Some(0)
    else if (t[0] == '-' || t[0] == '+') && |t| > 1 && Digits(t[1..]).Some? then
      var magnitude: int := Digits(t[1..]).value;
      Some(if t[0] == '-' then -magnitude else magnitude)
    else Digits(t)
  }

  /** A text that neither starts nor ends with whitespace is its own trim. */
  lemma TrimUntouched(s: string)
    requires s != [] && !IsWhitespace(s[0]) && !IsWhitespace(s[|s| - 1])
    ensures Trim(s) == s
  {
  }

  /** A text of digits converts to its decimal value. */
  lemma StringToNumberDigits(s: string)
    requires |s| >= 1 && AllDigits(s)
    ensures StringToNumber(s) == Some(DecimalValue(s))
  {
    DigitsValue(s);
    TrimUntouched(s);
  }

  /** A minus sign followed by digits converts to the negated value. */
  lemma StringToNumberNegative(s: string)
    requires |s| >= 1 && AllDigits(s)
    ensures StringToNumber("-" + s) == Some(-(DecimalValue(s) as int))
  {
    DigitsValue(s);
    var t := "-" + s;
    assert t[1..] == s && t[|t| - 1] == s[|s| - 1];
    TrimUntouched(t);
    var magnitude: int := DecimalValue(s);
    assert Digits(t[1..]) == Some(magnitude);
  }

  /** Every character `Number()` can accept inside a trimmed text: digits,
      signs, the decimal point, exponent and radix letters, hexadecimal
      digits and the letters of `Infinity`. */
  const NumeralChars: string := "0123456789+-.eExXoObBaAcCdDfFIinty"

  /** A trimmed text holding a character no numeral can hold converts to
      NaN, as it does in JavaScript. */
  lemma StringToNumberRejectsWords(s: string, i: nat)
    requires i < |Trim(s)| && Trim(s)[i] !in NumeralChars
    ensures StringToNumber(s) == None
  {
    var t := Trim(s);
    assert !IsDigit(t[i]) && t[i] != '-' && t[i] != '+' by {
      assert forall c :: IsDigit(c) || c == '-' || c == '+' ==> c in NumeralChars;
    }
    DigitsValue(t);
    if i > 0 {
      DigitsValue(t[1..]);
      assert t[1..][i - 1] == t[i];
    }
  }

  /** The number a value converts to when compared with a number, or `None`
      for NaN. A time object gives its epoch milliseconds; an array goes
      through its text, so `[]` is 0, `[x]` is what the text of `x` gives, and
      two or more elements are NaN. */
  function ToNumber(v: Value): Option<int> {
    match v
    case Undefined => None
    case Null => Some(0)
    case Bool(b) => Some(if b then 1 else 0)
    case Num(n) => Some(n)
    case Str(s) => StringToNumber(s)
    case Moment(ms) => Some(ms)
    case Obj(_) => None
    case Arr(a) =>
      if |a| == 0 then Some(0)
      else if |a| > 1 then None
      else
        match a[0]
        case Undefined => Some(0)
        case Null => Some(0)
        case Num(n) => Some(n)
        case Str(s) => StringToNumber(s)
        case Arr(_) => ToNumber(a[0])
        case _ => None
  }

  /** `expire > now`: false whenever `expire` is NaN. */
  predicate Later(expire: Value, now: int) {
    ToNumber(expire).Some? && ToNumber(expire).value > now
  }

  /** `meta.expire` of a block, `undefined` when missing. */
  function ExpireOf(block: Value): Value {
    GetField(GetField(block, "meta"), "expire")
  }

  /** `checkBlock`: a block is valid when its expiry is empty or later
      than now. */
  predicate CheckBlock(block: Value, now: int) {
    IsEmpty(ExpireOf(block)) || Later(ExpireOf(block), now)
  }

  /** A block whose numeric expiry equals now has expired; one with no
      expiry never does. */
  lemma CheckBlockBoundary(data: Value, meta: map<string, Value>, expire: int, now: int)
    ensures CheckBlock(Obj(map["data" := data, "meta" := Obj(meta["expire" := Num(expire)])]), now) <==> expire > now
    ensures !CheckBlock(Obj(map["data" := data, "meta" := Obj(meta["expire" := Num(now)])]), now)
    ensures "expire" !in meta ==> CheckBlock(Obj(map["data" := data, "meta" := Obj(meta)]), now)
  {
  }

  /** A block valid at some time was valid at every earlier time. */
  lemma CheckBlockMonotonic(block: Value, earlier: int, later: int)
    requires earlier <= later && CheckBlock(block, later)
    ensures CheckBlock(block, earlier)
  {
  }

  /** `checkMeta` on a truthy meta: anything but a plain object becomes
      `{expire: meta}`; a time-object expiry becomes its epoch
      milliseconds, a plain-object one NaN; the meta is refused (`None`) when
      that expiry has already passed. */
  function CheckMeta(meta: Value, now: int): Option<map<string, Value>> {
    var fields := if meta.Obj? then meta.fields else map["expire" := meta];
    var expire := if "expire" in fields then fields["expire"] else Undefined;
    if expire.Obj? then None
    else
      var normal := if expire.Moment? then fields["expire" := Num(expire.ms)] else fields;
      if CheckBlock(Obj(map["meta" := Obj(normal)]), now) then Some(normal) else None
  }

  /** A meta that is kept makes a live block. */
  lemma CheckMetaLive(meta: Value, now: int)
    ensures CheckMeta(meta, now).Some? ==> CheckBlock(Obj(map["meta" := Obj(CheckMeta(meta, now).value)]), now)
  {
  }

  /** A bare number or time object is taken as the expiry, kept when it is
      later than now and refused otherwise. */
  lemma CheckMetaBareExpiry(expire: int, ms: int, now: int)
    ensures CheckMeta(Num(expire), now) == if expire > now then Some(map["expire" := Num(expire)]) else None
    ensures CheckMeta(Moment(ms), now) == if ms > now then Some(map["expire" := Num(ms)]) else None
  {
    assert map["expire" := Moment(ms)]["expire" := Num(ms)] == map["expire" := Num(ms)];
  }

  /** A plain-object meta with no expiry comes back unchanged. */
  lemma CheckMetaKeepsFields(fields: map<string, Value>, now: int)
    requires "expire" !in fields
    ensures CheckMeta(Obj(fields), now) == Some(fields)
  {
  }

  /** `wrap(data, meta)`: the block of the data and the meta, with
      `meta.updated` set to now. */
  function Wrap(data: Value, meta: map<string, Value>, now: int): Value {
    Obj(map["data" := data, "meta" := Obj(meta["updated" := Num(now)])])
  }

  /** The wrapped block holds the data, `updated` is now, and every other
      meta field is the one given. */
  lemma WrapFields(data: Value, meta: map<string, Value>, now: int, k: string)
    ensures GetField(Wrap(data, meta, now), "data") == data
    ensures GetField(GetField(Wrap(data, meta, now), "meta"), k)
      == if k == "updated" then Num(now) else GetField(Obj(meta), k)
  {
  }

  /** The own enumerable properties `Object.assign` copies from a source:
      an object's fields, an array's elements and a string's characters under
      their indices, and nothing for other values. */
  function OwnProperties(v: Value): map<string, Value> {
    match v
    case Obj(f) => f
    case Arr(a) => Indexed(a)
    case Str(s) => Indexed(Characters(s))
    case _ => map[]
  }

  /** The elements of a sequence under their decimal indices. */
  function Indexed(xs: seq<Value>): map<string, Value>
    decreases |xs|
  {
    if xs == [] then map[]
    else Indexed(xs[..|xs| - 1])[NatToString(|xs| - 1) := xs[|xs| - 1]]
  }

  /** A string's characters, each as a one-character string. */
  function Characters(s: string): (r: seq<Value>)
    ensures |r| == |s|
    decreases |s|
  {
    if s == [] then []
    else Characters(s[..|s| - 1]) + [Str([s[|s| - 1]])]
  }

  /** Element `i` is found under the text of `i`, and nothing is found
      under a text that is not an index. */
  lemma {:induction false} IndexedAt(xs: seq<Value>, i: nat, k: string)
    requires i < |xs|
    ensures NatToString(i) in Indexed(xs) && Indexed(xs)[NatToString(i)] == xs[i]
    ensures (forall j :: 0 <= j < |xs| ==> k != NatToString(j)) ==> k !in Indexed(xs)
    decreases |xs|
  {
    var init := xs[..|xs| - 1];
    if i < |init| {
      IndexedAt(init, i, k);
      assert DecimalValue(NatToString(i)) != DecimalValue(NatToString(|xs| - 1));
    } else if |init| > 0 {
      IndexedAt(init, 0, k);
    }
  }


  /** The block `_makeBlock` stores for a present value and a checked meta:
      the wrapped block, whose meta, when the old block has a truthy meta,
      is `assign({}, oldBlock.meta, meta)`. */
  function NewBlock(oldBlock: Value, data: Value, meta: map<string, Value>, now: int): Value {
    var block := Wrap(data, meta, now);
    var oldMeta := GetField(oldBlock, "meta");
    if Truthy(oldBlock) && Truthy(oldMeta) then
      Obj(block.fields["meta" := Obj(OwnProperties(oldMeta) + block.fields["meta"].fields)])
    else block
  }

  /** The new block holds the data it is made of. */
  lemma NewBlockKeepsData(oldBlock: Value, data: Value, meta: map<string, Value>, now: int)
    ensures GetField(NewBlock(oldBlock, data, meta, now), "data") == data
  {
    WrapFields(data, meta, now, "data");
  }

  /** A rewrite keeps the data, stamps `updated`, and merges the metas field
      by field, the new one winning. */
  lemma NewBlockMergesMeta(oldBlock: Value, data: Value, meta: map<string, Value>, now: int, k: string)
    requires Truthy(oldBlock) && GetField(oldBlock, "meta").Obj?
    ensures GetField(NewBlock(oldBlock, data, meta, now), "data") == data
    ensures GetField(GetField(NewBlock(oldBlock, data, meta, now), "meta"), k)
      == if k == "updated" then Num(now)
         else if k in meta then meta[k]
         else GetField(GetField(oldBlock, "meta"), k)
  {
  }

  /** How `_makeBlock` ends: it throws, it refuses an already-expired meta
      (`[false, false]`), or it returns the block to store (`undefined` to
      delete) and the output value. */
  datatype Outcome = Thrown | Rejected | Store(block: Value, output: Value)

  /** `_makeBlock`'s outcome, and the old block as changed in place first
      when a nested write went into its data. */
  datatype Made = Made(touched: Option<Value>, outcome: Outcome)

  /** The second half of `_makeBlock`, once the value to store is known. A
      falsy meta other than `undefined` reaches `wrap`, which then throws
      setting `updated` on it. */
  function Finish(oldBlock: Value, value: Value, meta: Value, now: int): Outcome {
    if !IsPresent(value) then Store(Undefined, value)
    else if Truthy(meta) then
      match CheckMeta(meta, now)
      case None => Rejected
      case Some(checked) => Store(NewBlock(oldBlock, value, checked, now), value)
    else if meta.Undefined? then Store(NewBlock(oldBlock, value, map[], now), value)
    else Thrown
  }

  /** A value that is not present deletes; a present one is refused exactly
      when a truthy meta is refused, throws exactly when the meta is falsy
      but not `undefined`, and is otherwise stored as the block's data. */
  lemma FinishOutcome(oldBlock: Value, value: Value, meta: Value, now: int)
    ensures var r := Finish(oldBlock, value, meta, now);
      && (!IsPresent(value) ==> r == Store(Undefined, value))
      && (r.Rejected? <==> IsPresent(value) && Truthy(meta) && CheckMeta(meta, now).None?)
      && (r.Thrown? <==> IsPresent(value) && !Truthy(meta) && !meta.Undefined?)
      && (r.Store? && IsPresent(value) ==> GetField(r.block, "data") == value)
  {
    if IsPresent(value) {
      if Truthy(meta) {
        if CheckMeta(meta, now).Some? {
          NewBlockKeepsData(oldBlock, value, CheckMeta(meta, now).value, now);
        }
      } else if meta.Undefined? {
        NewBlockKeepsData(oldBlock, value, map[], now);
      }
    }
  }

  /** A stored block is live when it is made, unless it inherits from the
      old block's meta an expiry that has already passed: the new meta's
      expiry, when there is one, wins, and an inherited one is live exactly
      when the old block was. */
  lemma FinishBlockIsLive(oldBlock: Value, value: Value, meta: Value, now: int)
    requires IsPresent(value) && Finish(oldBlock, value, meta, now).Store?
    requires || "expire" !in OwnProperties(GetField(oldBlock, "meta"))
             || (Truthy(meta) && "expire" in CheckMeta(meta, now).value)
             || CheckBlock(oldBlock, now)
    ensures CheckBlock(Finish(oldBlock, value, meta, now).block, now)
  {
    var oldMeta := GetField(oldBlock, "meta");
    var checked := if Truthy(meta) then CheckMeta(meta, now).value else map[];
    assert Finish(oldBlock, value, meta, now).block == NewBlock(oldBlock, value, checked, now);
    NewBlockExpire(oldBlock, value, checked, now);
    if "expire" in checked {
      CheckMetaLive(meta, now);
    }
  }

  /** The new block's expiry is the new meta's, or else the one it
      inherits from the old block's meta, which is the old block's own. */
  lemma NewBlockExpire(oldBlock: Value, data: Value, meta: map<string, Value>, now: int)
    ensures ExpireOf(NewBlock(oldBlock, data, meta, now))
      == if "expire" in meta then meta["expire"]
         else if Truthy(oldBlock) && "expire" in OwnProperties(GetField(oldBlock, "meta")) then ExpireOf(oldBlock)
         else Undefined
  {
    var oldMeta := GetField(oldBlock, "meta");
    var stamped := meta["updated" := Num(now)];
    var block := Wrap(data, meta, now);
    assert ExpireOf(block) == if "expire" in meta then meta["expire"] else Undefined;
    if Truthy(oldBlock) && Truthy(oldMeta) {
      var merged := OwnProperties(oldMeta) + stamped;
      assert NewBlock(oldBlock, data, meta, now) == Obj(block.fields["meta" := Obj(merged)]);
      assert ExpireOf(NewBlock(oldBlock, data, meta, now)) == if "expire" in merged then merged["expire"] else Undefined;
      if oldMeta.Arr? {
        ExpireNotIndexed(oldMeta.items);
      } else if oldMeta.Str? {
        ExpireNotIndexed(Characters(oldMeta.s));
      }
    } else if Truthy(oldBlock) {
      assert OwnProperties(oldMeta) == map[];
    }
  }

  /** No decimal index is `expire`, so an array or a string never lends a
      block an expiry. */
  lemma ExpireNotIndexed(xs: seq<Value>)
    ensures "expire" !in Indexed(xs)
  {
    if xs != [] {
      forall j | 0 <= j < |xs| ensures "expire" != NatToString(j) {
        assert !IsDigit("expire"[0]);
      }
      IndexedAt(xs, 0, "expire");
    }
  }

  /** Rewriting an expired block without a new expiry stores a block that
      is already expired: the old `expire` survives the meta merge. */
  lemma StaleExpireQuirk()
    ensures var oldBlock := Obj(map["data" := Num(1), "meta" := Obj(map["expire" := Num(5)])]);
      var out := Finish(oldBlock, Str("x"), Undefined, 10);
      out.Store? && !CheckBlock(out.block, 10)
  {
    var oldMeta := map["expire" := Num(5)];
    var oldBlock := Obj(map["data" := Num(1), "meta" := Obj(oldMeta)]);
    var block := NewBlock(oldBlock, Str("x"), map[], 10);
    assert IsPresent(Str("x")) by {
      assert !IsWhitespace("x"[0]);
    }
    assert Finish(oldBlock, Str("x"), Undefined, 10) == Store(block, Str("x"));
    assert GetField(block, "meta") == Obj(oldMeta + map["updated" := Num(10)]);
    assert ExpireOf(block) == Num(5);
  }

  /** `_makeBlock(oldBlock, dataKey, value, meta)`: with an old block and a
      present data key, the value is written at that path inside the old
      block's data (in place), and that whole data becomes the value; the
      write throws when the path has no container. */
  function MakeBlock(oldBlock: Value, dataKey: string, value: Value, meta: Value, now: int): Made {
    if Truthy(oldBlock) && IsPresent(Str(dataKey)) then
      match SetIn(GetField(oldBlock, "data"), Split(dataKey, '.'), value)
      case None => Made(None, Thrown)
      case Some(data) =>
        var touched := SetField(oldBlock, "data", data).GetOr(oldBlock);
        Made(Some(touched), Finish(touched, data, meta, now))
    else Made(None, Finish(oldBlock, value, meta, now))
  }

  /** A nested write into an existing block stores the old data with the
      value written at the path, and carries the old meta over. */
  lemma MakeBlockNested(data: Value, oldMeta: map<string, Value>, path: seq<string>, value: Value, now: int)
    requires path != [] && (forall i :: 0 <= i < |path| ==> '.' !in path[i])
    requires IsPresent(Str(Join(path, '.'))) && PathOpen(data, path)
    requires IsPresent(SetIn(data, path, value).GetOr(data))
    ensures var made := MakeBlock(Obj(map["data" := data, "meta" := Obj(oldMeta)]), Join(path, '.'), value, Undefined, now);
      && made.touched.Some?
      && made.outcome.Store?
      && made.outcome.block.Obj?
      && GetIn(made.outcome.block, ["data"] + path) == value
      && (forall k :: k != "updated" ==> GetField(GetField(made.outcome.block, "meta"), k) == GetField(Obj(oldMeta), k))
      && (CheckBlock(Obj(map["data" := data, "meta" := Obj(oldMeta)]), now) ==> CheckBlock(made.outcome.block, now))
  {
    var oldBlock := Obj(map["data" := data, "meta" := Obj(oldMeta)]);
    GetAfterSetIn(data, path, value);
    var written := SetIn(data, path, value).value;
    var touched := Obj(oldBlock.fields["data" := written]);
    NestedTouch(data, oldMeta, path, value, now);
    var block := NewBlock(touched, written, map[], now);
    assert GetField(touched, "meta") == Obj(oldMeta);
    assert GetIn(block, ["data"] + path) == GetIn(written, path) by {
      NewBlockKeepsData(touched, written, map[], now);
      assert (["data"] + path)[1..] == path;
    }
    forall k | k != "updated" ensures GetField(GetField(block, "meta"), k) == GetField(Obj(oldMeta), k) {
      NewBlockMergesMeta(touched, written, map[], now, k);
    }
    assert ExpireOf(block) == ExpireOf(oldBlock);
  }

  /** The first half of a nested write: the value is written inside the
      old data, that block is changed in place, and `Finish` makes the new
      block from it with no meta. */
  lemma NestedTouch(data: Value, oldMeta: map<string, Value>, path: seq<string>, value: Value, now: int)
    requires path != [] && (forall i :: 0 <= i < |path| ==> '.' !in path[i])
    requires IsPresent(Str(Join(path, '.'))) && PathOpen(data, path)
    requires IsPresent(SetIn(data, path, value).GetOr(data))
    ensures SetIn(data, path, value).Some?
    ensures var oldBlock := Obj(map["data" := data, "meta" := Obj(oldMeta)]);
      var written := SetIn(data, path, value).value;
      var touched := Obj(oldBlock.fields["data" := written]);
      MakeBlock(oldBlock, Join(path, '.'), value, Undefined, now)
        == Made(Some(touched), Store(NewBlock(touched, written, map[], now), written))
  {
    var oldBlock := Obj(map["data" := data, "meta" := Obj(oldMeta)]);
    SplitJoin(path, '.');
    GetAfterSetIn(data, path, value);
    var written := SetIn(data, path, value).value;
    var touched := Obj(oldBlock.fields["data" := written]);
    assert SetField(oldBlock, "data", written) == Some(touched);
    assert MakeBlock(oldBlock, Join(path, '.'), value, Undefined, now) == Made(Some(touched), Finish(touched, written, Undefined, now));
  }

  /** With a value, whether the block's `meta.<field>` is that value;
      without, whether it is truthy. */
  predicate MetaMatches(block: Value, field: string, provided: Option<Value>) {
    var cur := GetIn(block, ["meta"] + Split(field, '.'));
    if provided.Some? then cur == provided.value else Truthy(cur)
  }

  /** `_iter(field, value)`: the `filter` callback that tests the block. */
  function Iter(field: string, provided: Option<Value>): (string, Value, nat, seq<string>) -> bool {
    (key: string, block: Value, index: nat, keys: seq<string>) => MetaMatches(block, field, provided)
  }
}
