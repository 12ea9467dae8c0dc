/** The expiring cache service: every value lives in a medium-backed
    storage as a block `{data, meta}` under the first segment of its key,
    and is served only while its block is live. "Now" is a parameter;
    observers are a log of the keys whose change was announced. */
module CacheService {
  import opened Wrappers
  import opened Strings
  import opened Values
  import opened OrderedMaps
  import opened KeyCodec
  import opened Storages
  import opened Expiry
  import opened ValueCodec

  /** A block the cache serves: present (truthy) and not expired. */
  predicate Live(block: Value, now: int) {
    Truthy(block) && CheckBlock(block, now)
  }

  /** `_get` on a block: its data while it is live, `null` otherwise. */
  function DataOf(block: Value, now: int): Value {
    if Live(block, now) then GetField(block, "data") else Null
  }

  /** `get(cache, key)`: the first segment goes through `unknownProperty`
      (`_get`), the rest of the path is read inside the data it returns.
      Reading deletes nothing. */
  function CacheRead(content: OMap<Value>, namespace: string, key: string, now: int): Value {
    var parts := Split(key, '.');
    GetIn(DataOf(Read(content, namespace, parts[0]), now), parts[1..])
  }

  /** What one `_set` does: whether it went through (`false` when it
      threw), the storage afterwards, and whether the key's change is
      announced. */
  datatype Step = Step(ok: bool, state: State, notify: bool)

  /** `_set(key, value, meta)`: the old block of the key's first segment is
      read, `_makeBlock` builds the block (changing a nested old block in
      memory first), and the block is set on the storage under that
      segment, or the call returns at once when the meta was refused. The
      change is announced when the output is not none or an old block
      existed. */
  function Cached(s: State, namespace: string, queued: bool, key: string, value: Value, meta: Value, now: int): (r: Step)
    ensures r.notify ==> r.ok
    ensures !queued ==> r.state.pending == s.pending
    ensures '.' !in namespace ==>
      forall k :: k != SerializeKey(namespace, Split(key, '.')[0]) ==> r.state.content.Get(k) == s.content.Get(k)
  {
    var parts := Split(key, '.');
    var rootKey := parts[0];
    var physical := SerializeKey(namespace, rootKey);
    SplitPieces(key, '.');
    SerializeKeyAvoids(namespace, rootKey, '.');
    var oldBlock := Read(s.content, namespace, rootKey);
    var made := MakeBlock(oldBlock, Join(parts[1..], '.'), value, meta, now);
    var touched := if made.touched.Some? then State(s.content.Put(physical, made.touched.value), s.pending) else s;
    match made.outcome
    case Thrown => Step(false, touched, false)
    case Rejected => Step(true, touched, false)
    case Store(block, output) =>
      match Assigned(touched, namespace, queued, rootKey, block)
      case None => Step(false, touched, false)
      case Some(next) => Step(true, next, !IsNone(output) || Truthy(oldBlock))
  }

  /** `init`'s sweep over the first keys: every key whose block is not live
      is set to `undefined` on the storage. */
  function Swept(s: State, namespace: string, queued: bool, keys: seq<string>, now: int): State
    decreases |keys|
  {
    if keys == [] then s
    else
      var before := Swept(s, namespace, queued, keys[..|keys| - 1], now);
      var key := keys[|keys| - 1];
      if Live(Read(before.content, namespace, key), now) then before
      else Assigned(before, namespace, queued, key, Undefined).GetOr(before)
  }

  lemma SweptStep(s: State, namespace: string, queued: bool, keys: seq<string>, i: nat, now: int)
    requires i < |keys|
    ensures var before := Swept(s, namespace, queued, keys[..i], now);
      Swept(s, namespace, queued, keys[..i + 1], now)
      == if Live(Read(before.content, namespace, keys[i]), now) then before
         else Assigned(before, namespace, queued, keys[i], Undefined).GetOr(before)
  {
    assert keys[..i + 1][..i] == keys[..i];
  }

  /** The sweep over serialized keys removes exactly the swept keys whose
      entry is not live, adds and changes nothing, and leaves every other
      key alone. */
  lemma {:induction false} SweptLeavesLive(s: State, namespace: string, queued: bool, keys: seq<string>, now: int)
    requires s.content.Valid() && '.' !in namespace
    requires forall k :: k in keys ==> '.' !in k && Separator in k
    ensures Swept(s, namespace, queued, keys, now).content.Valid()
    ensures forall k ::
      (Swept(s, namespace, queued, keys, now).content.Get(k)
       == if k in keys && !(s.content.Get(k).Some? && Live(s.content.Get(k).value, now)) then None else s.content.Get(k))
    decreases |keys|
  {
    if keys != [] {
      var prefix := keys[..|keys| - 1];
      var key := keys[|keys| - 1];
      assert forall k :: k in keys <==> k in prefix || k == key;
      SweptLeavesLive(s, namespace, queued, prefix, now);
      var before := Swept(s, namespace, queued, prefix, now);
      assert SerializeKey(namespace, key) == key;
      if !Live(Read(before.content, namespace, key), now) {
        StoreFlat(before.content, key, Undefined);
      }
    }
  }

  /** After the sweep over every content key of a namespaced storage, only
      live entries remain. */
  lemma SweepLeavesOnlyLive(s: State, namespace: string, queued: bool, now: int)
    requires s.content.Valid() && '.' !in namespace
    requires forall k :: k in s.content.entries ==> '.' !in k && Separator in k
    ensures forall k :: (k in Swept(s, namespace, queued, s.content.order, now).content.entries
      ==> Live(Swept(s, namespace, queued, s.content.order, now).content.entries[k], now))
  {
    SweptLeavesLive(s, namespace, queued, s.content.order, now);
    var r := Swept(s, namespace, queued, s.content.order, now);
    forall k | k in r.content.entries ensures Live(r.content.entries[k], now) {
      assert r.content.Get(k).Some?;
    }
  }

  /** The listed keys whose entry is missing or not live, in list order. */
  function Stale(content: OMap<Value>, keys: seq<string>, now: int): seq<string>
    decreases |keys|
  {
    if keys == [] then []
    else
      var key := keys[|keys| - 1];
      Stale(content, keys[..|keys| - 1], now) + if Live(Root(content, key), now) then [] else [key]
  }

  /** A key is stale exactly when it is listed and its entry is not live. */
  lemma {:induction false} StaleMembers(content: OMap<Value>, keys: seq<string>, now: int, k: string)
    ensures k in Stale(content, keys, now) <==> k in keys && !Live(Root(content, k), now)
    decreases |keys|
  {
    if keys != [] {
      var prefix := keys[..|keys| - 1];
      assert keys == prefix + [keys[|keys| - 1]];
      StaleMembers(content, prefix, now, k);
    }
  }

  /** With a medium, the sweep queues one removal per stale key, in the
      order of the keys; without one it queues nothing. */
  lemma {:induction false} SweptQueuesStale(s: State, namespace: string, queued: bool, keys: seq<string>, now: int)
    requires s.content.Valid() && '.' !in namespace
    requires forall k :: k in keys ==> '.' !in k && Separator in k
    ensures Swept(s, namespace, queued, keys, now).pending
      == s.pending + if queued then Deletions(Stale(s.content, keys, now)) else []
    decreases |keys|
  {
    if keys != [] {
      var prefix := keys[..|keys| - 1];
      var key := keys[|keys| - 1];
      assert forall k :: k in prefix ==> k in keys;
      SweptQueuesStale(s, namespace, queued, prefix, now);
      var before := Swept(s, namespace, queued, prefix, now);
      SweptJudgesOriginal(s, namespace, queued, keys, now);
      var stale := Stale(s.content, prefix, now);
      if Live(Root(s.content, key), now) {
        assert Swept(s, namespace, queued, keys, now) == before;
        assert Stale(s.content, keys, now) == stale;
      } else {
        assert Stale(s.content, keys, now) == stale + [key];
        SweptRemovesLast(s, namespace, queued, keys, now);
        RemovalStep(s.content, s.pending, stale, key);
        if queued {
          assert Deletions(stale + [key]) == Deletions(stale) + [Delete(key)];
        }
      }
    }
  }

  /** The sweep judges the last key by its entry before the sweep: an
      earlier removal of the same key only removes an entry that was not
      live. */
  lemma SweptJudgesOriginal(s: State, namespace: string, queued: bool, keys: seq<string>, now: int)
    requires s.content.Valid() && '.' !in namespace
    requires keys != [] && forall k :: k in keys ==> '.' !in k && Separator in k
    ensures var key := keys[|keys| - 1];
      Live(Read(Swept(s, namespace, queued, keys[..|keys| - 1], now).content, namespace, key), now)
      <==> Live(Root(s.content, key), now)
  {
    var prefix := keys[..|keys| - 1];
    var key := keys[|keys| - 1];
    assert forall k :: k in prefix ==> k in keys;
    SweptLeavesLive(s, namespace, queued, prefix, now);
    assert SerializeKey(namespace, key) == key;
  }

  /** When the last key is not live, the sweep sets it to `undefined`,
      which queues its removal. */
  lemma SweptRemovesLast(s: State, namespace: string, queued: bool, keys: seq<string>, now: int)
    requires s.content.Valid() && '.' !in namespace
    requires keys != [] && forall k :: k in keys ==> '.' !in k && Separator in k
    requires !Live(Root(s.content, keys[|keys| - 1]), now)
    ensures var before := Swept(s, namespace, queued, keys[..|keys| - 1], now);
      Swept(s, namespace, queued, keys, now).pending
      == before.pending + if queued then [Delete(keys[|keys| - 1])] else []
  {
    var prefix := keys[..|keys| - 1];
    var key := keys[|keys| - 1];
    assert forall k :: k in prefix ==> k in keys;
    SweptJudgesOriginal(s, namespace, queued, keys, now);
    var before := Swept(s, namespace, queued, prefix, now);
    SweptLeavesLive(s, namespace, queued, prefix, now);
    assert SerializeKey(namespace, key) == key;
    StoreFlat(before.content, key, Undefined);
  }

  /** After `init` on a storage with a removable medium and the flush that
      follows, no key whose block was not live is left on the medium. */
  lemma SweepClearsMedium(s: State, namespace: string, items: OMap<string>, json: Json,
                          accepts: (string, string) -> bool, now: int, k: string)
    requires s.content.Valid() && '.' !in namespace
    requires forall k :: k in s.content.entries ==> '.' !in k && Separator in k
    requires k in s.content.entries && !Live(s.content.entries[k], now)
    ensures var after := Swept(s, namespace, true, s.content.order, now);
      Flushed(items, after.content, json, accepts, true, after.pending).Get(k) == None
  {
    var after := Swept(s, namespace, true, s.content.order, now);
    SweptQueuesStale(s, namespace, true, s.content.order, now);
    StaleMembers(s.content, s.content.order, now, k);
    FlushedTrailingDeletes(items, after.content, json, accepts, s.pending, Stale(s.content, s.content.order, now), k);
  }

  /** The keys of the list whose entry is live, in list order. */
  function LiveKeys(keys: seq<string>, content: OMap<Value>, namespace: string, now: int): seq<string>
    decreases |keys|
  {
    if keys == [] then []
    else
      LiveKeys(keys[..|keys| - 1], content, namespace, now)
      + if Live(Read(content, namespace, keys[|keys| - 1]), now) then [keys[|keys| - 1]] else []
  }

  lemma LiveKeysStep(keys: seq<string>, content: OMap<Value>, namespace: string, now: int, i: nat)
    requires i < |keys|
    ensures LiveKeys(keys[..i + 1], content, namespace, now)
      == LiveKeys(keys[..i], content, namespace, now) + if Live(Read(content, namespace, keys[i]), now) then [keys[i]] else []
  {
    assert keys[..i + 1][..i] == keys[..i];
  }

  /** A key is kept exactly when it is listed and its entry is live. */
  lemma {:induction false} LiveKeysMembers(keys: seq<string>, content: OMap<Value>, namespace: string, now: int)
    ensures forall x :: x in LiveKeys(keys, content, namespace, now) <==> x in keys && Live(Read(content, namespace, x), now)
    decreases |keys|
  {
    if keys != [] {
      LiveKeysMembers(keys[..|keys| - 1], content, namespace, now);
      assert forall x :: x in keys <==> x in keys[..|keys| - 1] || x == keys[|keys| - 1];
    }
  }

  /** The blocks of `keys`, in order. */
  function Blocks(keys: seq<string>, content: OMap<Value>, namespace: string): seq<Value> {
    seq(|keys|, i requires 0 <= i < |keys| => Read(content, namespace, keys[i]))
  }

  /** The callback accepts the key at position `i`, whose block is
      `blocks[i]`. */
  predicate Accepts(all: seq<string>, blocks: seq<Value>, pred: (string, Value, nat, seq<string>) -> bool, i: nat)
    requires i < |all| == |blocks|
  {
    pred(all[i], blocks[i], i, all)
  }

  /** The keys among the first `n` of `all` the callback accepts, in
      order; the callback sees each key, its block, its index and the
      whole list. */
  function Chosen(all: seq<string>, blocks: seq<Value>, pred: (string, Value, nat, seq<string>) -> bool, n: nat): seq<string>
    requires n <= |all| == |blocks|
  {
    if n == 0 then []
    else
      Chosen(all, blocks, pred, n - 1)
      + if Accepts(all, blocks, pred, n - 1) then [all[n - 1]] else []
  }

  lemma ChosenStep(all: seq<string>, blocks: seq<Value>, pred: (string, Value, nat, seq<string>) -> bool, i: nat)
    requires i < |all| == |blocks|
    ensures Chosen(all, blocks, pred, i + 1)
      == Chosen(all, blocks, pred, i) + if pred(all[i], blocks[i], i, all) then [all[i]] else []
  {
  }

  /** Every chosen key is accepted at one of the first `n` positions. */
  lemma {:induction false} ChosenSound(all: seq<string>, blocks: seq<Value>,
                                      pred: (string, Value, nat, seq<string>) -> bool, n: nat, x: string)
    requires n <= |all| == |blocks| && x in Chosen(all, blocks, pred, n)
    ensures exists i :: 0 <= i < n && all[i] == x && Accepts(all, blocks, pred, i)
  {
    var prev := Chosen(all, blocks, pred, n - 1);
    if x in prev {
      ChosenSound(all, blocks, pred, n - 1, x);
      var i :| 0 <= i < n - 1 && all[i] == x && Accepts(all, blocks, pred, i);
      assert 0 <= i < n && all[i] == x && Accepts(all, blocks, pred, i);
    } else {
      assert 0 <= n - 1 < n && all[n - 1] == x && Accepts(all, blocks, pred, n - 1);
    }
  }

  /** Every key accepted at one of the first `n` positions is chosen. */
  lemma {:induction false} ChosenComplete(all: seq<string>, blocks: seq<Value>,
                                         pred: (string, Value, nat, seq<string>) -> bool, n: nat, i: nat)
    requires i < n <= |all| == |blocks| && Accepts(all, blocks, pred, i)
    ensures all[i] in Chosen(all, blocks, pred, n)
  {
    var prev := Chosen(all, blocks, pred, n - 1);
    if i == n - 1 {
      assert Chosen(all, blocks, pred, n) == prev + [all[i]];
      assert (prev + [all[i]])[|prev|] == all[i];
    } else {
      ChosenComplete(all, blocks, pred, n - 1, i);
    }
  }

  /** A key is chosen exactly when the callback accepts it at one of its
      positions. */
  lemma ChosenMembers(all: seq<string>, blocks: seq<Value>,
                      pred: (string, Value, nat, seq<string>) -> bool, n: nat, x: string)
    requires n <= |all| == |blocks|
    ensures x in Chosen(all, blocks, pred, n)
      <==> exists i :: 0 <= i < n && all[i] == x && Accepts(all, blocks, pred, i)
  {
    if x in Chosen(all, blocks, pred, n) {
      ChosenSound(all, blocks, pred, n, x);
    }
    if exists i :: 0 <= i < n && all[i] == x && Accepts(all, blocks, pred, i) {
      var i :| 0 <= i < n && all[i] == x && Accepts(all, blocks, pred, i);
      ChosenComplete(all, blocks, pred, n, i);
    }
  }

  /** `filterBy(field[, value])` selects a live key exactly when the block's
      `meta.<field>` is the value given, or is truthy when none is given. */
  lemma FilterByMembers(live: seq<string>, content: OMap<Value>, namespace: string,
                        field: string, provided: Option<Value>, x: string)
    ensures x in Chosen(live, Blocks(live, content, namespace), Iter(field, provided), |live|)
      <==> x in live && MetaMatches(Read(content, namespace, x), field, provided)
  {
    var blocks := Blocks(live, content, namespace);
    var f := Iter(field, provided);
    ChosenMembers(live, blocks, f, |live|, x);
    forall i | 0 <= i < |live|
      ensures Accepts(live, blocks, f, i) <==> MetaMatches(Read(content, namespace, live[i]), field, provided)
    {
      assert blocks[i] == Read(content, namespace, live[i]);
    }
  }

  /** The arguments of `clear(...keys)`: a key, or an array of keys. */
  datatype ClearArg = One(key: string) | Many(keys: seq<string>)

  /** `[].concat(...args)`: arrays are spread one level, keys kept. */
  function Flatten(args: seq<ClearArg>): (r: seq<string>)
    ensures forall x :: x in r <==> exists i :: 0 <= i < |args| && (args[i] == One(x) || (args[i].Many? && x in args[i].keys))
  {
    if args == [] then []
    else
      var rest := Flatten(args[1..]);
      assert forall i :: 1 <= i < |args| ==> args[i] == args[1..][i - 1];
      (match args[0] case One(k) => [k] case Many(ks) => ks) + rest
  }

  /** How a run of `_set` calls ended: whether all went through, the
      storage afterwards, and the keys announced. */
  datatype Run = Run(ok: bool, state: State, notified: seq<string>)

  /** One turn of `clear`'s loop: `_set(key, null)` unless an earlier key
      threw, in which case the run stays as it was. */
  function ClearedNext(before: Run, namespace: string, queued: bool, key: string, now: int): Run
  {
    if !before.ok then before
    else
      var step := Cached(before.state, namespace, queued, key, Null, Undefined, now);
      Run(step.ok, step.state, before.notified + if step.notify then [key] else [])
  }

  /** `clear`'s loop: `_set(key, null)` for each key in turn, stopping at
      the first that throws. */
  function ClearedAll(s: State, namespace: string, queued: bool, keys: seq<string>, now: int): Run
    decreases |keys|
  {
    if keys == [] then Run(true, s, [])
    else ClearedNext(ClearedAll(s, namespace, queued, keys[..|keys| - 1], now), namespace, queued, keys[|keys| - 1], now)
  }

  /** A turn after keys that went through is the `_set` of its key, and
      the key is announced after those announced so far. */
  lemma ClearedNextNotifies(run: Run, namespace: string, queued: bool, key: string, now: int, announced: seq<string>)
    requires run.ok
    ensures var step := Cached(run.state, namespace, queued, key, Null, Undefined, now);
      var next := ClearedNext(run, namespace, queued, key, now);
      && next.ok == step.ok && next.state == step.state
      && announced + next.notified == announced + run.notified + if step.notify then [key] else []
  {
  }

  lemma ClearedStep(s: State, namespace: string, queued: bool, keys: seq<string>, i: nat, now: int)
    requires i < |keys|
    ensures ClearedAll(s, namespace, queued, keys[..i + 1], now)
      == ClearedNext(ClearedAll(s, namespace, queued, keys[..i], now), namespace, queued, keys[i], now)
  {
    var prefix := keys[..i + 1];
    assert prefix[..|prefix| - 1] == keys[..i];
  }

  /** A run that has thrown stays as it was when it threw. */
  lemma {:induction false} ClearedFailureSticks(s: State, namespace: string, queued: bool, keys: seq<string>, i: nat, now: int)
    requires i <= |keys| && !ClearedAll(s, namespace, queued, keys[..i], now).ok
    ensures ClearedAll(s, namespace, queued, keys, now) == ClearedAll(s, namespace, queued, keys[..i], now)
    decreases |keys|
  {
    if i < |keys| {
      var prefix := keys[..|keys| - 1];
      assert prefix[..i] == keys[..i];
      ClearedFailureSticks(s, namespace, queued, prefix, i, now);
    } else {
      assert keys[..i] == keys;
    }
  }

  /** `clear`'s loop ends with the whole run once every key went through
      or one threw. */
  lemma ClearedDone(s: State, namespace: string, queued: bool, keys: seq<string>, i: nat, now: int)
    requires i <= |keys|
    requires i == |keys| || !ClearedAll(s, namespace, queued, keys[..i], now).ok
    ensures ClearedAll(s, namespace, queued, keys, now) == ClearedAll(s, namespace, queued, keys[..i], now)
  {
    if i == |keys| {
      assert keys[..i] == keys;
    } else {
      ClearedFailureSticks(s, namespace, queued, keys, i, now);
    }
  }

  /** `_set` in terms of the key's first segment and the rest of its path. */
  lemma CachedRooted(s: State, namespace: string, queued: bool, key: string, root: string, rest: string,
                     value: Value, meta: Value, now: int)
    requires Split(key, '.')[0] == root && Join(Split(key, '.')[1..], '.') == rest
    ensures var oldBlock := Read(s.content, namespace, root);
      var made := MakeBlock(oldBlock, rest, value, meta, now);
      var touched := if made.touched.Some? then State(s.content.Put(SerializeKey(namespace, root), made.touched.value), s.pending) else s;
      Cached(s, namespace, queued, key, value, meta, now)
        == match made.outcome
           case Thrown => Step(false, touched, false)
           case Rejected => Step(true, touched, false)
           case Store(block, output) =>
             match Assigned(touched, namespace, queued, root, block)
             case None => Step(false, touched, false)
             case Some(next) => Step(true, next, !IsNone(output) || Truthy(oldBlock))
  {
  }

  /** For a key without dots, `_set` stores what `Finish` makes of the old
      block under that key, with no write in place. */
  lemma CachedFlat(s: State, namespace: string, queued: bool, key: string, value: Value, meta: Value, now: int)
    requires '.' !in key
    ensures var oldBlock := Read(s.content, namespace, key);
      Cached(s, namespace, queued, key, value, meta, now)
        == match Finish(oldBlock, value, meta, now)
           case Thrown => Step(false, s, false)
           case Rejected => Step(true, s, false)
           case Store(block, output) =>
             match Assigned(s, namespace, queued, key, block)
             case None => Step(false, s, false)
             case Some(next) => Step(true, next, !IsNone(output) || Truthy(oldBlock))
  {
    assert Split(key, '.') == [key];
    assert Join([], '.') == "";
    assert !IsPresent(Str(""));
    var oldBlock := Read(s.content, namespace, key);
    assert MakeBlock(oldBlock, "", value, meta, now) == Made(None, Finish(oldBlock, value, meta, now));
  }

  /** Setting a key without dots to a value that is not present deletes its
      entry, whatever the meta: the key then reads `null`, the medium
      removal is queued, and the change is announced only when the value
      is not none or an old block existed. */
  lemma BlankValueDeletes(s: State, namespace: string, queued: bool, key: string, value: Value, meta: Value, now: int)
    requires s.content.Valid() && '.' !in namespace && '.' !in key && !IsPresent(value)
    ensures var r := Cached(s, namespace, queued, key, value, meta, now);
      && Assigned(s, namespace, queued, key, Undefined).Some?
      && r == Step(true, Assigned(s, namespace, queued, key, Undefined).value,
                   !IsNone(value) || Truthy(Read(s.content, namespace, key)))
      && r.state.content.Get(SerializeKey(namespace, key)) == None
      && CacheRead(r.state.content, namespace, key, now) == Null
  {
    var oldBlock := Read(s.content, namespace, key);
    CachedFlat(s, namespace, queued, key, value, meta, now);
    FinishOutcome(oldBlock, value, meta, now);
    assert Finish(oldBlock, value, meta, now) == Store(Undefined, value);
    ReadAfterAssign(s, namespace, queued, key, Undefined);
    SerializeKeyAvoids(namespace, key, '.');
    StoreFlat(s.content, SerializeKey(namespace, key), Undefined);
    var next := Assigned(s, namespace, queued, key, Undefined).value;
    assert Split(key, '.') == [key];
    assert CacheRead(next.content, namespace, key, now) == DataOf(Read(next.content, namespace, key), now);
  }

  /** A present value set under a key without dots reads back, the change
      is announced, and every other key reads as before, as long as the
      meta is accepted and the block does not inherit from the old meta an
      expiry that has already passed. */
  lemma SetThenGet(s: State, namespace: string, queued: bool, key: string, value: Value, meta: Value, now: int, other: string)
    requires s.content.Valid() && '.' !in namespace && '.' !in key && '.' !in other
    requires SerializeKey(namespace, other) != SerializeKey(namespace, key)
    requires IsPresent(value)
    requires meta.Undefined? || (Truthy(meta) && CheckMeta(meta, now).Some?)
    requires || "expire" !in OwnProperties(GetField(Read(s.content, namespace, key), "meta"))
             || (Truthy(meta) && CheckMeta(meta, now).Some? && "expire" in CheckMeta(meta, now).value)
             || CheckBlock(Read(s.content, namespace, key), now)
    ensures var r := Cached(s, namespace, queued, key, value, meta, now);
      && r.ok && r.notify
      && CacheRead(r.state.content, namespace, key, now) == value
      && CacheRead(r.state.content, namespace, other, now) == CacheRead(s.content, namespace, other, now)
  {
    var oldBlock := Read(s.content, namespace, key);
    CachedFlat(s, namespace, queued, key, value, meta, now);
    FinishOutcome(oldBlock, value, meta, now);
    var out := Finish(oldBlock, value, meta, now);
    assert out.Store? && out.output == value;
    FinishBlockIsLive(oldBlock, value, meta, now);
    assert out.block.Obj? && Live(out.block, now);
    ReadAfterAssign(s, namespace, queued, key, out.block);
    AssignKeepsOthers(s, namespace, queued, key, out.block, other);
    var next := Assigned(s, namespace, queued, key, out.block).value;
    assert Cached(s, namespace, queued, key, value, meta, now) == Step(true, next, !IsNone(value) || Truthy(oldBlock));
    PresentIsNotNone(value);
    assert Split(key, '.') == [key];
    assert CacheRead(next.content, namespace, key, now) == DataOf(out.block, now);
    assert Split(other, '.') == [other];
    assert CacheRead(next.content, namespace, other, now) == DataOf(Read(next.content, namespace, other), now);
    assert CacheRead(s.content, namespace, other, now) == DataOf(Read(s.content, namespace, other), now);
  }

  /** A meta whose expiry has already passed makes `_set` a no-op for a key
      without dots: nothing is stored and nothing is announced. */
  lemma ExpiredMetaIsNoOp(s: State, namespace: string, queued: bool, key: string, value: Value, meta: Value, now: int)
    requires '.' !in key && IsPresent(value) && Truthy(meta) && CheckMeta(meta, now).None?
    ensures Cached(s, namespace, queued, key, value, meta, now) == Step(true, s, false)
  {
    CachedFlat(s, namespace, queued, key, value, meta, now);
    FinishOutcome(Read(s.content, namespace, key), value, meta, now);
  }

  /** Setting `root.a.b` when `root` holds a live block writes the value at
      `a.b` inside the block's data, which then reads back through the
      dotted key, and the change is announced. */
  lemma NestedSetThenGet(s: State, namespace: string, queued: bool, root: string, path: seq<string>,
                         value: Value, data: Value, oldMeta: map<string, Value>, now: int)
    requires s.content.Valid() && '.' !in namespace && '.' !in root
    requires path != [] && (forall i :: 0 <= i < |path| ==> '.' !in path[i])
    requires IsPresent(Str(Join(path, '.'))) && PathOpen(data, path)
    requires IsPresent(SetIn(data, path, value).GetOr(data))
    requires Read(s.content, namespace, root) == Obj(map["data" := data, "meta" := Obj(oldMeta)])
    requires Live(Read(s.content, namespace, root), now)
    ensures var r := Cached(s, namespace, queued, Join([root] + path, '.'), value, Undefined, now);
      && r.ok && r.notify
      && CacheRead(r.state.content, namespace, Join([root] + path, '.'), now) == value
  {
    var key := Join([root] + path, '.');
    SplitJoinCons(root, path, '.');
    assert ([root] + path)[1..] == path;
    CachedRooted(s, namespace, queued, key, root, Join(path, '.'), value, Undefined, now);
    MakeBlockNested(data, oldMeta, path, value, now);
    var oldBlock := Read(s.content, namespace, root);
    var made := MakeBlock(oldBlock, Join(path, '.'), value, Undefined, now);
    var block := made.outcome.block;
    var physical := SerializeKey(namespace, root);
    SerializeKeyAvoids(namespace, root, '.');
    var touched := State(s.content.Put(physical, made.touched.value), s.pending);
    assert touched.content.Valid();
    ReadAfterAssign(touched, namespace, queued, root, block);
    var next := Assigned(touched, namespace, queued, root, block).value;
    assert Truthy(oldBlock);
    assert Cached(s, namespace, queued, key, value, Undefined, now) == Step(true, next, true);
    assert Read(next.content, namespace, root) == block by {
      PresentIsNotNone(block);
    }
    assert Live(block, now);
    assert CacheRead(next.content, namespace, key, now) == GetIn(GetField(block, "data"), path);
    assert GetIn(block, ["data"] + path) == GetIn(GetField(block, "data"), path);
  }

  /** Setting `root.a.b` when `root` holds no block stores the raw value as
      the whole data of `root`. */
  lemma NestedSetWithoutBlock(s: State, namespace: string, queued: bool, root: string, rest: string, value: Value, now: int)
    requires s.content.Valid() && '.' !in namespace && '.' !in root
    requires !Truthy(Read(s.content, namespace, root)) && IsPresent(value)
    ensures var r := Cached(s, namespace, queued, root + "." + rest, value, Undefined, now);
      && r.ok && r.notify
      && CacheRead(r.state.content, namespace, root, now) == value
  {
    var key := root + "." + rest;
    SplitPrefix(root, rest, '.');
    assert key == root + ['.'] + rest;
    var parts := Split(key, '.');
    assert parts[0] == root;
    var oldBlock := Read(s.content, namespace, root);
    assert MakeBlock(oldBlock, Join(parts[1..], '.'), value, Undefined, now) == Made(None, Finish(oldBlock, value, Undefined, now));
    FinishOutcome(oldBlock, value, Undefined, now);
    var out := Finish(oldBlock, value, Undefined, now);
    assert out.Store? && out.output == value;
    FinishBlockIsLive(oldBlock, value, Undefined, now);
    assert out.block.Obj? && Live(out.block, now);
    ReadAfterAssign(s, namespace, queued, root, out.block);
    var next := Assigned(s, namespace, queued, root, out.block).value;
    PresentIsNotNone(value);
    assert Cached(s, namespace, queued, key, value, Undefined, now) == Step(true, next, true);
    assert Split(root, '.') == [root];
    assert CacheRead(next.content, namespace, root, now) == DataOf(out.block, now);
  }

  /** Clearing keys without dots removes their serialized keys from memory
      and queues their removal from the medium, in order; each then reads
      `null`. */
  lemma {:induction false} ClearedRemoves(s: State, namespace: string, queued: bool, keys: seq<string>, now: int)
    requires s.content.Valid() && '.' !in namespace
    requires forall k :: k in keys ==> '.' !in k
    ensures var r := ClearedAll(s, namespace, queued, keys, now);
      && r.ok
      && r.state.content == RemovedAll(s.content, Physical(namespace, keys))
      && r.state.pending == s.pending + if queued then Deletions(Physical(namespace, keys)) else []
    decreases |keys|
  {
    if keys != [] {
      var prefix := keys[..|keys| - 1];
      var key := keys[|keys| - 1];
      assert forall k :: k in prefix ==> k in keys;
      ClearedRemoves(s, namespace, queued, prefix, now);
      var before := ClearedAll(s, namespace, queued, prefix, now);
      var physical := SerializeKey(namespace, key);
      BlankValueDeletes(before.state, namespace, queued, key, Null, Undefined, now);
      SerializeKeyAvoids(namespace, key, '.');
      StoreFlat(before.state.content, physical, Undefined);
      RemovalStep(s.content, s.pending, Physical(namespace, prefix), physical);
    }
  }

  /** A key without dots whose physical key holds nothing reads `null`. */
  lemma MissingReadsNull(content: OMap<Value>, namespace: string, key: string, now: int)
    requires '.' !in key && content.Get(SerializeKey(namespace, key)) == None
    ensures CacheRead(content, namespace, key, now) == Null
  {
    assert Read(content, namespace, key) == Undefined;
  }

  /** After clearing keys without dots, each of them reads `null`. */
  lemma ClearedReadsNull(s: State, namespace: string, queued: bool, keys: seq<string>, now: int)
    requires s.content.Valid() && '.' !in namespace
    requires forall k :: k in keys ==> '.' !in k
    ensures forall k :: k in keys ==> CacheRead(ClearedAll(s, namespace, queued, keys, now).state.content, namespace, k, now) == Null
  {
    ClearedRemoves(s, namespace, queued, keys, now);
    PhysicalAt(namespace, keys);
    var content := ClearedAll(s, namespace, queued, keys, now).state.content;
    var doomed := Physical(namespace, keys);
    assert content == RemovedAll(s.content, doomed);
    forall k | k in keys ensures CacheRead(content, namespace, k, now) == Null {
      var i :| 0 <= i < |keys| && keys[i] == k;
      assert doomed[i] == SerializeKey(namespace, k);
      assert content.Get(SerializeKey(namespace, k)) == None;
      MissingReadsNull(content, namespace, k, now);
    }
  }

  class Cache {
    /** The `storage` (`storageFor('cache')`). */
    const storage: Storage
    /** Keys whose change was announced, oldest first. */
    var notified: seq<string>

    ghost predicate Valid()
      reads storage, storage.medium
    {
      storage.Valid()
    }

    /** `init`: every key of the storage's content whose block is not live
        is set to `undefined`. */
    constructor (storage: Storage, now: int)
      requires storage.Valid()
      modifies storage
      ensures Valid() && this.storage == storage && notified == []
      ensures storage.Snapshot()
        == Swept(old(storage.Snapshot()), storage.namespace, storage.medium != null, old(storage.content.order), now)
      ensures storage.namespace != "" ==>
        forall k :: k in storage.content.entries ==> Live(storage.content.entries[k], now)
      ensures storage.namespace != "" ==>
        storage.pending == old(storage.pending)
          + if storage.medium != null then Deletions(Stale(old(storage.content), old(storage.content.order), now)) else []
    {
      this.storage := storage;
      notified := [];
      new;
      Sweep(storage.content.order, now);
      if storage.namespace != "" {
        SweepLeavesOnlyLive(old(storage.Snapshot()), storage.namespace, storage.medium != null, now);
        SweptQueuesStale(old(storage.Snapshot()), storage.namespace, storage.medium != null, old(storage.content.order), now);
      }
    }

    /** The loop of `init`: every listed key whose block is not live is set
        to `undefined`. */
    method Sweep(keys: seq<string>, now: int)
      requires Valid()
      modifies storage
      ensures Valid()
      ensures storage.Snapshot()
        == Swept(old(storage.Snapshot()), storage.namespace, storage.medium != null, keys, now)
    {
      var i := 0;
      while i < |keys|
        invariant 0 <= i <= |keys|
        invariant Valid()
        invariant storage.Snapshot()
          == Swept(old(storage.Snapshot()), storage.namespace, storage.medium != null, keys[..i], now)
      {
        SweptStep(old(storage.Snapshot()), storage.namespace, storage.medium != null, keys, i, now);
        var block := storage.Get(keys[i]);
        if !Live(block, now) {
          var ok := storage.Set(keys[i], Undefined);
        }
        i := i + 1;
      }
      assert keys[..i] == keys;
    }

    /** `get(key)`: reads memory only and deletes nothing. */
    function Get(key: string, now: int): Value
      reads this, storage
    {
      CacheRead(storage.content, storage.namespace, key, now)
    }

    /** `set(key, value, meta)` (`_set`). */
    method Set(key: string, value: Value, meta: Value, now: int) returns (ok: bool)
      requires Valid()
      modifies this, storage
      ensures Valid()
      ensures var r := Cached(old(storage.Snapshot()), storage.namespace, storage.medium != null, key, value, meta, now);
        && ok == r.ok && storage.Snapshot() == r.state
        && notified == old(notified) + if r.notify then [key] else []
    {
      ghost var before := storage.Snapshot();
      ghost var r := Cached(before, storage.namespace, storage.medium != null, key, value, meta, now);
      var parts := Split(key, '.');
      SplitPieces(key, '.');
      var rootKey := parts[0];
      var oldBlock := storage.Get(rootKey);
      var made := MakeBlock(oldBlock, Join(parts[1..], '.'), value, meta, now);
      var physical := SerializeKey(storage.namespace, rootKey);
      ghost var touched := if made.touched.Some? then State(before.content.Put(physical, made.touched.value), before.pending) else before;
      if made.touched.Some? {
        storage.Overwrite(physical, made.touched.value);
      }
      assert storage.Snapshot() == touched && Valid();
      match made.outcome {
        case Thrown =>
          ok := false;
          assert r == Step(false, touched, false);
        case Rejected =>
          ok := true;
          assert r == Step(true, touched, false);
        case Store(block, output) =>
          var announce := !IsNone(output) || Truthy(oldBlock);
          ok := StoreBlock(key, rootKey, block, announce, touched);
          assert r == match Assigned(touched, storage.namespace, storage.medium != null, rootKey, block)
                      case None => Step(false, touched, false)
                      case Some(next) => Step(true, next, announce);
      }
    }

    /** The end of `_set` once the block is made: it is set on the storage
        under the key's first segment, and the key is announced when the set
        went through and `announce` holds. */
    method StoreBlock(key: string, rootKey: string, block: Value, announce: bool, ghost touched: State) returns (ok: bool)
      requires Valid() && storage.Snapshot() == touched
      modifies this, storage
      ensures Valid()
      ensures var a := Assigned(touched, storage.namespace, storage.medium != null, rootKey, block);
        && ok == a.Some? && storage.Snapshot() == a.GetOr(touched)
        && notified == old(notified) + if ok && announce then [key] else []
    {
      ok := storage.Set(rootKey, block);
      if ok && announce {
        notified := notified + [key];
      }
    }

    /** `keys()`: the storage's keys whose block is live. */
    method Keys(now: int) returns (keys: seq<string>)
      requires Valid()
      ensures keys == LiveKeys(storage.KeyList(), storage.content, storage.namespace, now)
    {
      var all := storage.Keys();
      keys := [];
      var i := 0;
      while i < |all|
        invariant 0 <= i <= |all|
        invariant keys == LiveKeys(all[..i], storage.content, storage.namespace, now)
      {
        LiveKeysStep(all, storage.content, storage.namespace, now, i);
        var block := storage.Get(all[i]);
        keys := keys + if Live(block, now) then [all[i]] else [];
        i := i + 1;
      }
      assert all[..i] == all;
    }

    /** The keys of `live` the callback accepts, in order. */
    method Select(live: seq<string>, pred: (string, Value, nat, seq<string>) -> bool) returns (selected: seq<string>)
      ensures selected == Chosen(live, Blocks(live, storage.content, storage.namespace), pred, |live|)
    {
      ghost var blocks := Blocks(live, storage.content, storage.namespace);
      selected := [];
      var i := 0;
      while i < |live|
        invariant 0 <= i <= |live|
        invariant selected == Chosen(live, blocks, pred, i)
      {
        var block := storage.Get(live[i]);
        ChosenStep(live, blocks, pred, i);
        assert block == blocks[i];
        selected := selected + if pred(live[i], block, i, live) then [live[i]] else [];
        i := i + 1;
      }
    }

    /** `filter(callback)`: the live keys the callback accepts, in order. */
    method Filter(pred: (string, Value, nat, seq<string>) -> bool, now: int) returns (selected: seq<string>)
      requires Valid()
      ensures var live := LiveKeys(storage.KeyList(), storage.content, storage.namespace, now);
        selected == Chosen(live, Blocks(live, storage.content, storage.namespace), pred, |live|)
    {
      var live := Keys(now);
      selected := Select(live, pred);
    }

    /** `filterBy(field[, value])`. */
    method FilterBy(field: string, provided: Option<Value>, now: int) returns (selected: seq<string>)
      requires Valid()
      ensures var live := LiveKeys(storage.KeyList(), storage.content, storage.namespace, now);
        selected == Chosen(live, Blocks(live, storage.content, storage.namespace), Iter(field, provided), |live|)
    {
      selected := Filter(Iter(field, provided), now);
    }

    /** One turn of `clear`'s loop: `_set(keys[i], null)` after the first
        `i` keys went through, as the `i + 1`-th step of `ClearedAll`. */
    method ClearNext(keys: seq<string>, i: nat, now: int, ghost s0: State, ghost run: Run, ghost announced: seq<string>)
      returns (ok: bool, ghost next: Run)
      requires Valid() && i < |keys| && run.ok
      requires run == ClearedAll(s0, storage.namespace, storage.medium != null, keys[..i], now)
      requires storage.Snapshot() == run.state && notified == announced + run.notified
      modifies this, storage
      ensures Valid()
      ensures next == ClearedAll(s0, storage.namespace, storage.medium != null, keys[..i + 1], now)
      ensures ok == next.ok && storage.Snapshot() == next.state && notified == announced + next.notified
    {
      ok := Set(keys[i], Null, Undefined, now);
      ClearedStep(s0, storage.namespace, storage.medium != null, keys, i, now);
      next := ClearedNext(run, storage.namespace, storage.medium != null, keys[i], now);
      ClearedNextNotifies(run, storage.namespace, storage.medium != null, keys[i], now, announced);
    }

    /** `_set(key, null)` for each key in turn, stopping at the first that
        throws. */
    method ClearKeys(keys: seq<string>, now: int) returns (ok: bool)
      requires Valid()
      modifies this, storage
      ensures Valid()
      ensures var r := ClearedAll(old(storage.Snapshot()), storage.namespace, storage.medium != null, keys, now);
        && ok == r.ok && storage.Snapshot() == r.state
        && notified == old(notified) + r.notified
    {
      ghost var s0 := storage.Snapshot();
      ghost var run := Run(true, s0, []);
      ok := true;
      var i := 0;
      while i < |keys| && ok
        invariant 0 <= i <= |keys|
        invariant Valid()
        invariant run == ClearedAll(s0, storage.namespace, storage.medium != null, keys[..i], now)
        invariant ok == run.ok && storage.Snapshot() == run.state && notified == old(notified) + run.notified
      {
        ok, run := ClearNext(keys, i, now, s0, run, old(notified));
        i := i + 1;
      }
      ClearedDone(s0, storage.namespace, storage.medium != null, keys, i, now);
    }

    /** `clear(...keys)`: with no argument the live keys, otherwise the
        arguments spread one level, are each set to `null` in turn. */
    method Clear(args: seq<ClearArg>, now: int) returns (ok: bool)
      requires Valid()
      modifies this, storage
      ensures Valid()
      ensures var keys := if args == [] then LiveKeys(old(storage.KeyList()), old(storage.content), storage.namespace, now)
                          else Flatten(args);
        var r := ClearedAll(old(storage.Snapshot()), storage.namespace, storage.medium != null, keys, now);
        && ok == r.ok && storage.Snapshot() == r.state
        && notified == old(notified) + r.notified
    {
      var keys;
      if args == [] {
        keys := Keys(now);
      } else {
        keys := Flatten(args);
      }
      ok := ClearKeys(keys, now);
    }
  }
}
