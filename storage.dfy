/** The namespaced two-tier store: an in-memory content map from physical
    key to value (`StorageMixin` on an `ObjectProxy`), optionally backed by a
    durable medium (`LocalStorage` and the storages built on it). Memory is
    written at once; medium calls are queued and carried out by `Flush`, the
    end of the run loop's `actions` queue, which reads memory as it is then. */
module Storages {
  import opened Wrappers
  import opened Strings
  import opened Values
  import opened OrderedMaps
  import opened KeyCodec
  import opened ValueCodec
  import opened Media

  /** A medium call waiting for the end of the run loop. */
  datatype Action = Save(key: string) | Delete(key: string)

  /** The value held under a physical key, `undefined` when there is none. */
  function Root(content: OMap<Value>, key: string): Value {
    content.Get(key).GetOr(Undefined)
  }

  /** `get(storage, key)`: the first segment of the path is serialized and
      looked up in content, the rest is read inside that value. */
  function Read(content: OMap<Value>, namespace: string, key: string): (r: Value)
    ensures '.' !in key ==> r == Root(content, SerializeKey(namespace, key))
  {
    var parts := Split(key, '.');
    GetIn(Root(content, SerializeKey(namespace, parts[0])), parts[1..])
  }

  /** Ember's `set(content, key, value)`: a key without dots becomes (or
      replaces) a top-level entry; a dotted key writes inside the entry its
      first segment names, and throws (`None`) when that entry or a
      container below it is missing. A dotted key never adds an entry. */
  function Written(content: OMap<Value>, key: string, value: Value): (r: Option<OMap<Value>>)
    ensures '.' !in key ==> r == Some(content.Put(key, value))
    ensures r.Some? && content.Valid() ==> r.value.Valid()
    ensures r.Some? ==> forall k :: k in r.value.entries ==> k in content.entries || (k == key && '.' !in key)
  {
    var parts := Split(key, '.');
    if |parts| == 1 then Some(content.Put(key, value))
    else
      SetInUndefined(parts[1..], value);
      match SetIn(Root(content, parts[0]), parts[1..], value)
      case None => None
      case Some(root) => Some(content.Put(parts[0], root))
  }

  /** No path write succeeds on `undefined`. */
  lemma {:induction false} SetInUndefined(path: seq<string>, x: Value)
    requires path != []
    ensures SetIn(Undefined, path, x) == None
    decreases |path|
  {
    if |path| > 1 {
      SetInUndefined(path[1..], x);
    }
  }

  /** The memory half of `setUnknownProperty(key, value)` once the key is
      serialized: the write, then, for a none value, `delete content[key]`. */
  function StoreAt(content: OMap<Value>, key: string, value: Value): (r: Option<OMap<Value>>)
    ensures r.Some? <==> Written(content, key, value).Some?
    ensures r.Some? && content.Valid() ==> r.value.Valid()
    ensures r.Some? ==> forall k :: k in r.value.entries ==> k in content.entries || (k == key && '.' !in key)
  {
    match Written(content, key, value)
    case None => None
    case Some(c) => Some(if IsNone(value) then c.Remove(key) else c)
  }

  /** For a key without dots, storing a none value is removing the key and
      storing anything else is putting it; in both cases every other key
      keeps its value. */
  lemma StoreFlat(content: OMap<Value>, key: string, value: Value)
    requires content.Valid() && '.' !in key
    ensures StoreAt(content, key, value) == Some(if IsNone(value) then content.Remove(key) else content.Put(key, value))
    ensures forall k :: k != key ==> StoreAt(content, key, value).value.Get(k) == content.Get(k)
  {
    if IsNone(value) {
      PutThenRemove(content, key, value);
    }
  }

  /** Putting a key and removing it again is removing it. */
  lemma PutThenRemove<V>(m: OMap<V>, k: string, v: V)
    ensures m.Put(k, v).Remove(k) == m.Remove(k)
  {
    var put := m.Put(k, v);
    if k !in m.entries {
      WithoutAppended(m.order, k);
    }
    assert put.Remove(k).order == m.Remove(k).order;
    UpdateThenRemove(m.entries, k, v);
  }

  lemma UpdateThenRemove<V>(e: map<string, V>, k: string, v: V)
    ensures e[k := v] - {k} == e - {k}
  {
    assert forall j :: j in e[k := v] - {k} <==> j in e - {k};
  }

  lemma {:induction false} WithoutAppended(s: seq<string>, k: string)
    ensures Without(s + [k], k) == Without(s, k)
  {
    if s != [] {
      assert (s + [k])[1..] == s[1..] + [k];
      WithoutAppended(s[1..], k);
    }
  }

  /** The queue entry `setUnknownProperty` leaves for a medium-backed
      storage: a none value schedules a removal, anything else a save. */
  function Scheduled(key: string, value: Value): Action {
    if IsNone(value) then Delete(key) else Save(key)
  }

  /** What a storage holds between two flushes. */
  datatype State = State(content: OMap<Value>, pending: seq<Action>)

  /** `set(key, value)` on a storage (`setUnknownProperty`): the key is
      serialized, memory is updated, and a storage with a medium queues the
      medium call; `None` when the write throws. */
  function Assigned(s: State, namespace: string, queued: bool, key: string, value: Value): (r: Option<State>)
    ensures r.Some? <==> StoreAt(s.content, SerializeKey(namespace, key), value).Some?
    ensures r.Some? ==> r.value.content == StoreAt(s.content, SerializeKey(namespace, key), value).value
    ensures r.Some? ==> r.value.pending == s.pending + (if queued then [Scheduled(SerializeKey(namespace, key), value)] else [])
  {
    var pk := SerializeKey(namespace, key);
    match StoreAt(s.content, pk, value)
    case None => None
    case Some(c) => Some(State(c, if queued then s.pending + [Scheduled(pk, value)] else s.pending))
  }

  /** Reading a key right after setting it gives the value set, or
      `undefined` when the value set was none. */
  lemma ReadAfterAssign(s: State, namespace: string, queued: bool, key: string, value: Value)
    requires s.content.Valid() && '.' !in namespace && '.' !in key
    ensures Assigned(s, namespace, queued, key, value).Some?
    ensures Read(Assigned(s, namespace, queued, key, value).value.content, namespace, key)
      == if IsNone(value) then Undefined else value
  {
    SerializeKeyAvoids(namespace, key, '.');
    StoreFlat(s.content, SerializeKey(namespace, key), value);
  }

  /** Setting a key leaves every key with another physical key reading as
      before. */
  lemma AssignKeepsOthers(s: State, namespace: string, queued: bool, key: string, value: Value, other: string)
    requires s.content.Valid() && '.' !in namespace && '.' !in key && '.' !in other
    requires SerializeKey(namespace, other) != SerializeKey(namespace, key)
    ensures Assigned(s, namespace, queued, key, value).Some?
    ensures Read(Assigned(s, namespace, queued, key, value).value.content, namespace, other)
      == Read(s.content, namespace, other)
  {
    SerializeKeyAvoids(namespace, key, '.');
    StoreFlat(s.content, SerializeKey(namespace, key), value);
  }

  /** Setting a dotted key `root.a.b` writes inside the entry of `root`, and
      reading the same dotted key back gives the value set; a key whose root
      has another physical key reads as before. */
  lemma ReadAfterAssignNested(s: State, namespace: string, queued: bool, root: string, path: seq<string>,
                              value: Value, other: string)
    requires s.content.Valid() && '.' !in namespace
    requires '.' !in root && Separator !in root
    requires path != [] && forall i :: 0 <= i < |path| ==> '.' !in path[i] && Separator !in path[i]
    requires !IsNone(value) && PathOpen(Read(s.content, namespace, root), path)
    ensures var key := Join([root] + path, '.');
      var r := Assigned(s, namespace, queued, key, value);
      && r.Some?
      && Read(r.value.content, namespace, key) == value
      && ('.' !in other && SerializeKey(namespace, other) != SerializeKey(namespace, root) ==>
            Read(r.value.content, namespace, other) == Read(s.content, namespace, other))
  {
    var key := Join([root] + path, '.');
    var rootKey := SerializeKey(namespace, root);
    NestedKeySplits(namespace, root, path);
    var before := Root(s.content, rootKey);
    GetAfterSetIn(before, path, value);
    var written := SetIn(before, path, value).value;
    var after := s.content.Put(rootKey, written);
    NestedWrite(s.content, SerializeKey(namespace, key), rootKey, path, value);
    assert Assigned(s, namespace, queued, key, value).value.content == after;
    assert Read(after, namespace, key) == GetIn(Root(after, rootKey), path);
  }

  /** The dotted key `root.a.b` splits into its segments, and so does its
      physical key, whose first segment is the physical key of `root`. */
  lemma NestedKeySplits(namespace: string, root: string, path: seq<string>)
    requires '.' !in namespace && '.' !in root && Separator !in root
    requires path != [] && forall i :: 0 <= i < |path| ==> '.' !in path[i] && Separator !in path[i]
    ensures Split(Join([root] + path, '.'), '.') == [root] + path
    ensures Split(SerializeKey(namespace, Join([root] + path, '.')), '.') == [SerializeKey(namespace, root)] + path
  {
    SplitJoinCons(root, path, '.');
    var tail := Join(path, '.');
    JoinAvoids(path, '.', Separator);
    JoinUnfolds(root, path, '.');
    DottedSerialized(namespace, root, tail);
    var rootKey := SerializeKey(namespace, root);
    SerializeKeyAvoids(namespace, root, '.');
    SplitPrefix(rootKey, tail, '.');
    SplitJoin(path, '.');
  }

  /** Joining a first piece before at least one more is that piece, the
      separator and the join of the rest. */
  lemma JoinUnfolds(head: string, tail: seq<string>, sep: char)
    requires tail != []
    ensures Join([head] + tail, sep) == head + [sep] + Join(tail, sep)
  {
    assert ([head] + tail)[1..] == tail;
  }

  /** A dotted key with no separator is namespaced as a whole, so its
      physical key is the physical key of its first segment, a dot and the
      rest. */
  lemma DottedSerialized(namespace: string, root: string, tail: string)
    requires Separator !in root && Separator !in tail
    ensures SerializeKey(namespace, root + ['.'] + tail) == SerializeKey(namespace, root) + ['.'] + tail
  {
    var key := root + ['.'] + tail;
    assert forall i :: 0 <= i < |key| ==> key[i] == if i < |root| then root[i] else if i == |root| then '.' else tail[i - |root| - 1];
    assert namespace + [Separator] + key == (namespace + [Separator] + root) + ['.'] + tail;
  }

  /** Ember's `set` on a physical key that splits into a root and an open
      path writes inside the root's entry. */
  lemma NestedWrite(content: OMap<Value>, physical: string, rootKey: string, path: seq<string>, value: Value)
    requires path != [] && Split(physical, '.') == [rootKey] + path
    requires SetIn(Root(content, rootKey), path, value).Some?
    ensures Written(content, physical, value) == Some(content.Put(rootKey, SetIn(Root(content, rootKey), path, value).value))
  {
    assert ([rootKey] + path)[1..] == path;
  }

  /** A key whose later segment holds the separator is set and read through
      different entries: `get('a.b:c')` reads inside `ns:a`, while
      `set('a.b:c', v)` leaves the key un-namespaced, looks for an entry `a`,
      and throws when there is none. */
  lemma ColonInPathQuirk()
    ensures var content := Empty<Value>().Put("ns:a", Obj(map["b:c" := Num(1)]));
      && Read(content, "ns", "a.b:c") == Num(1)
      && Assigned(State(content, []), "ns", false, "a.b:c", Num(2)).None?
  {
    var content := Empty<Value>().Put("ns:a", Obj(map["b:c" := Num(1)]));
    ColonKeySplits();
    ColonReadsInside(content);
    ColonWriteThrows(content);
  }

  /** `get` reads `a.b:c` inside the entry `ns:a`. */
  lemma ColonReadsInside(content: OMap<Value>)
    requires content.Get("ns:a") == Some(Obj(map["b:c" := Num(1)]))
    requires Split("a.b:c", '.') == ["a", "b:c"]
    ensures Read(content, "ns", "a.b:c") == Num(1)
  {
    assert SerializeKey("ns", "a") == "ns:a";
    assert ["a", "b:c"][1..] == ["b:c"];
  }

  /** `set` takes `a.b:c` as already serialized and throws without an
      entry `a`. */
  lemma ColonWriteThrows(content: OMap<Value>)
    requires content.Get("a") == None
    requires Split("a.b:c", '.') == ["a", "b:c"] && SerializeKey("ns", "a.b:c") == "a.b:c"
    ensures Assigned(State(content, []), "ns", false, "a.b:c", Num(2)).None?
  {
    assert ["a", "b:c"][1..] == ["b:c"];
    SetInUndefined(["b:c"], Num(2));
    assert Written(content, "a.b:c", Num(2)) == None;
  }

  /** `a.b:c` splits on dots into `a` and `b:c`, and is already serialized. */
  lemma ColonKeySplits()
    ensures Split("a.b:c", '.') == ["a", "b:c"]
    ensures SerializeKey("ns", "a.b:c") == "a.b:c"
  {
    assert "a.b:c" == "a" + ['.'] + "b:c";
    SplitPrefix("a", "b:c", '.');
    assert "a.b:c"[3] == Separator;
  }

  /** `setProperties(props)`: each key is serialized and set in turn; the
      first set that throws stops the rest, whose earlier effects stay. The
      flag tells whether every set went through. `props` lists the keys of
      the object passed in, as `Object.keys` gives them: without duplicates,
      integer-like keys first. The order only matters when two of them
      reach the same physical key. */
  function AssignedAll(s: State, namespace: string, queued: bool, props: seq<(string, Value)>): (r: (State, bool))
    decreases |props|
  {
    if props == [] then (s, true)
    else
      match Assigned(s, namespace, queued, SerializeKey(namespace, props[0].0), props[0].1)
      case None => (s, false)
      case Some(next) => AssignedAll(next, namespace, queued, props[1..])
  }

  /** Setting a single property through `setProperties` is the same as
      setting it with `set`: the extra serialization changes nothing. */
  lemma SetPropertiesIsSet(s: State, namespace: string, queued: bool, key: string, value: Value)
    ensures AssignedAll(s, namespace, queued, [(key, value)])
      == match Assigned(s, namespace, queued, key, value)
         case None => (s, false)
         case Some(next) => (next, true)
  {
    SerializeKeyIdempotent(namespace, key);
  }

  /** What initialization keeps of a medium entry: its deserialized value,
      when the key carries the storage's namespace and the value is
      present. */
  function Kept(namespace: string, json: Json, items: OMap<string>, key: string): Option<Value> {
    if key in items.entries && DeserializeKey(key).namespace == namespace then
      var value := Deserialize(json, items.entries[key]);
      if IsPresent(value) then Some(value) else None
    else None
  }

  /** The content `initialContent` builds from the first `n` positions of
      the medium: every entry of the storage's namespace whose text
      deserializes to a present value is set in content, in medium order;
      `None` when such a set throws (a dotted key whose root is missing). */
  function Loaded(namespace: string, json: Json, items: OMap<string>, n: nat): (r: Option<OMap<Value>>)
    requires n <= |items.order|
  {
    if n == 0 then Some(Empty())
    else
      match Loaded(namespace, json, items, n - 1)
      case None => None
      case Some(c) =>
        var key := items.order[n - 1];
        match Kept(namespace, json, items, key)
        case None => Some(c)
        case Some(value) => Written(c, key, value)
  }

  /** A load that succeeds gives a well-formed content whose keys are
      undotted and carry the storage's namespace. */
  lemma {:induction false} LoadedWellFormed(namespace: string, json: Json, items: OMap<string>, n: nat)
    requires n <= |items.order|
    ensures Loaded(namespace, json, items, n).Some? ==> Loaded(namespace, json, items, n).value.Valid()
    ensures Loaded(namespace, json, items, n).Some? ==>
      forall k :: k in Loaded(namespace, json, items, n).value.entries ==> '.' !in k && DeserializeKey(k).namespace == namespace
  {
    if n > 0 {
      LoadedWellFormed(namespace, json, items, n - 1);
    }
  }

  /** One more position read: the entry there, when kept, is set in the
      content loaded so far. */
  lemma LoadedNext(namespace: string, json: Json, items: OMap<string>, i: nat, loaded: OMap<Value>)
    requires i < |items.order|
    requires Loaded(namespace, json, items, i) == Some(loaded)
    ensures Loaded(namespace, json, items, i + 1)
            == match Kept(namespace, json, items, items.order[i])
               case Some(value) => Written(loaded, items.order[i], value)
               case None => Some(loaded)
  {
  }

  /** A load that has thrown stays thrown. */
  lemma {:induction false} LoadedFailureSticks(namespace: string, json: Json, items: OMap<string>, i: nat, n: nat)
    requires i <= n <= |items.order|
    requires Loaded(namespace, json, items, i).None?
    ensures Loaded(namespace, json, items, n).None?
    decreases n - i
  {
    if i < n {
      LoadedFailureSticks(namespace, json, items, i + 1, n);
    }
  }

  /** When the medium has no dotted key in the storage's namespace, the
      loaded content holds exactly the kept entries of the positions read:
      other namespaces and blank values stay out. */
  lemma {:induction false} LoadedExactly(namespace: string, json: Json, items: OMap<string>, n: nat, k: string)
    requires items.Valid() && n <= |items.order|
    requires forall k {:trigger DeserializeKey(k)} :: k in items.entries && DeserializeKey(k).namespace == namespace ==> '.' !in k
    ensures Loaded(namespace, json, items, n).Some?
    ensures Loaded(namespace, json, items, n).value.Get(k)
            == if k in items.order[..n] then Kept(namespace, json, items, k) else None
  {
    if n > 0 {
      LoadedExactly(namespace, json, items, n - 1, k);
      LoadedStepAt(namespace, json, items, n, k);
    }
  }

  /** One position read, seen from one key: the key read gets its kept
      value, every other key keeps what it had. */
  lemma LoadedStepAt(namespace: string, json: Json, items: OMap<string>, n: nat, k: string)
    requires items.Valid() && 0 < n <= |items.order|
    requires forall k {:trigger DeserializeKey(k)} :: k in items.entries && DeserializeKey(k).namespace == namespace ==> '.' !in k
    requires Loaded(namespace, json, items, n - 1).Some?
    requires Loaded(namespace, json, items, n - 1).value.Get(k)
             == if k in items.order[..n - 1] then Kept(namespace, json, items, k) else None
    ensures Loaded(namespace, json, items, n).Some?
    ensures Loaded(namespace, json, items, n).value.Get(k)
            == if k in items.order[..n] then Kept(namespace, json, items, k) else None
  {
    LoadedUnfoldAt(namespace, json, items, n, k);
    PrefixStep(items.order, n, k);
  }

  /** Growing a prefix of a sequence without repetitions by one position
      adds exactly the element there, which was not in it before. */
  lemma PrefixStep(s: seq<string>, n: nat, k: string)
    requires Distinct(s) && 0 < n <= |s|
    ensures s[n - 1] !in s[..n - 1]
    ensures k in s[..n] <==> k in s[..n - 1] || k == s[n - 1]
  {
    DistinctPrefixExcludes(s, n);
    assert s[..n] == s[..n - 1] + [s[n - 1]];
  }

  /** One position read, seen from one key: only the key read can change. */
  lemma LoadedUnfoldAt(namespace: string, json: Json, items: OMap<string>, n: nat, k: string)
    requires items.Valid() && 0 < n <= |items.order|
    requires forall k {:trigger DeserializeKey(k)} :: k in items.entries && DeserializeKey(k).namespace == namespace ==> '.' !in k
    requires Loaded(namespace, json, items, n - 1).Some?
    ensures Loaded(namespace, json, items, n).Some?
    ensures var key := items.order[n - 1];
      Loaded(namespace, json, items, n).value.Get(k)
      == if k == key && Kept(namespace, json, items, key).Some? then Kept(namespace, json, items, key)
         else Loaded(namespace, json, items, n - 1).value.Get(k)
  {
    LoadedUnfold(namespace, json, items, n, Loaded(namespace, json, items, n - 1).value);
  }

  lemma LoadedUnfold(namespace: string, json: Json, items: OMap<string>, n: nat, c: OMap<Value>)
    requires items.Valid() && 0 < n <= |items.order|
    requires forall k {:trigger DeserializeKey(k)} :: k in items.entries && DeserializeKey(k).namespace == namespace ==> '.' !in k
    requires Loaded(namespace, json, items, n - 1) == Some(c)
    ensures var key := items.order[n - 1];
      Loaded(namespace, json, items, n)
      == Some(match Kept(namespace, json, items, key) case Some(v) => c.Put(key, v) case None => c)
  {
    var key := items.order[n - 1];
    assert key in items.entries;
  }

  /** The medium's entries after one queued call is carried out against
      memory as it is now. A save stores the serialized root entry of its
      key when that value is truthy and serializes to non-empty text; a
      removal deletes its key; a call the medium refuses changes nothing. */
  function Applied(items: OMap<string>, content: OMap<Value>, json: Json,
                   accepts: (string, string) -> bool, removable: bool, action: Action): OMap<string>
  {
    match action
    case Save(key) =>
      var root := Split(key, '.')[0];
      var value := Root(content, root);
      if !Truthy(value) then items
      else
        (match Serialize(json, value)
         case Some(text) => if text != "" && accepts(root, text) then items.Put(root, text) else items
         case None => items)
    case Delete(key) => if removable then items.Remove(key) else items
  }

  /** The medium's entries after the queued calls are carried out in order. */
  function Flushed(items: OMap<string>, content: OMap<Value>, json: Json,
                   accepts: (string, string) -> bool, removable: bool, actions: seq<Action>): (r: OMap<string>)
    ensures items.Valid() ==> r.Valid()
    decreases |actions|
  {
    if actions == [] then items
    else
      Applied(Flushed(items, content, json, accepts, removable, actions[..|actions| - 1]),
              content, json, accepts, removable, actions[|actions| - 1])
  }

  /** The medium key a queued call may change. */
  function Target(action: Action): string {
    match action
    case Save(key) => Split(key, '.')[0]
    case Delete(key) => key
  }

  /** A flush leaves alone every medium key no queued call targets. */
  lemma {:induction false} FlushedKeepsUntouched(items: OMap<string>, content: OMap<Value>, json: Json,
                                                accepts: (string, string) -> bool, removable: bool,
                                                actions: seq<Action>, key: string)
    requires forall i :: 0 <= i < |actions| ==> Target(actions[i]) != key
    ensures Flushed(items, content, json, accepts, removable, actions).Get(key) == items.Get(key)
    decreases |actions|
  {
    if actions != [] {
      FlushedKeepsUntouched(items, content, json, accepts, removable, actions[..|actions| - 1], key);
    }
  }

  /** Whatever a flush writes to the medium is the serialization of memory
      at flush time: a value set and replaced before the flush never reaches
      the medium. */
  lemma {:induction false} FlushedWritesMemory(items: OMap<string>, content: OMap<Value>, json: Json,
                                              accepts: (string, string) -> bool, removable: bool,
                                              actions: seq<Action>, key: string)
    ensures var after := Flushed(items, content, json, accepts, removable, actions).Get(key);
      || after == items.Get(key)
      || after == None
      || (Truthy(Root(content, key)) && after == Serialize(json, Root(content, key)))
    decreases |actions|
  {
    if actions != [] {
      FlushedWritesMemory(items, content, json, accepts, removable, actions[..|actions| - 1], key);
    }
  }

  /** A save of a dotted key persists its whole root entry under the root
      key: `ns:foo.bar.foz` is written as `ns:foo`. */
  lemma SaveWritesRoot(items: OMap<string>, content: OMap<Value>, json: Json,
                       accepts: (string, string) -> bool, removable: bool, root: string, path: string)
    requires '.' !in root && Truthy(Root(content, root))
    requires Serialize(json, Root(content, root)).Some?
    requires Serialize(json, Root(content, root)).value != ""
    requires accepts(root, Serialize(json, Root(content, root)).value)
    ensures Flushed(items, content, json, accepts, removable, [Save(root + "." + path)]).Get(root)
      == Serialize(json, Root(content, root))
  {
    SplitPrefix(root, path, '.');
    assert Flushed(items, content, json, accepts, removable, [Save(root + "." + path)])
      == Applied(items, content, json, accepts, removable, Save(root + "." + path));
  }

  /** The last queued save of a key writes the serialization of memory's
      root entry, as it is at flush time, under the key's first segment,
      when that value is truthy, serializes to non-empty text the medium
      accepts, and no later call targets that medium key. */
  lemma {:induction false} FlushedLastSaveWrites(items: OMap<string>, content: OMap<Value>, json: Json,
                                                accepts: (string, string) -> bool, removable: bool,
                                                before: seq<Action>, key: string, after: seq<Action>)
    requires var root := Split(key, '.')[0];
      && Truthy(Root(content, root))
      && Serialize(json, Root(content, root)).Some?
      && Serialize(json, Root(content, root)).value != ""
      && accepts(root, Serialize(json, Root(content, root)).value)
    requires forall i :: 0 <= i < |after| ==> Target(after[i]) != Split(key, '.')[0]
    ensures var root := Split(key, '.')[0];
      Flushed(items, content, json, accepts, removable, before + [Save(key)] + after).Get(root)
      == Serialize(json, Root(content, root))
    decreases |after|
  {
    var all := before + [Save(key)] + after;
    var prior := Flushed(items, content, json, accepts, removable, all[..|all| - 1]);
    assert Flushed(items, content, json, accepts, removable, all)
      == Applied(prior, content, json, accepts, removable, all[|all| - 1]);
    if after == [] {
      assert all[|all| - 1] == Save(key);
      AppliedSaveWrites(prior, content, json, accepts, removable, key);
    } else {
      var shorter := after[..|after| - 1];
      assert all[..|all| - 1] == before + [Save(key)] + shorter;
      FlushedLastSaveWrites(items, content, json, accepts, removable, before, key, shorter);
      AppliedKeepsUntargeted(prior, content, json, accepts, removable, after[|after| - 1], Split(key, '.')[0]);
    }
  }

  /** A save the medium accepts writes the serialized root entry. */
  lemma AppliedSaveWrites(items: OMap<string>, content: OMap<Value>, json: Json,
                          accepts: (string, string) -> bool, removable: bool, key: string)
    requires var root := Split(key, '.')[0];
      && Truthy(Root(content, root))
      && Serialize(json, Root(content, root)).Some?
      && Serialize(json, Root(content, root)).value != ""
      && accepts(root, Serialize(json, Root(content, root)).value)
    ensures var root := Split(key, '.')[0];
      Applied(items, content, json, accepts, removable, Save(key)).Get(root) == Serialize(json, Root(content, root))
  {
  }

  /** One call leaves alone every medium key it does not target. */
  lemma AppliedKeepsUntargeted(items: OMap<string>, content: OMap<Value>, json: Json,
                               accepts: (string, string) -> bool, removable: bool, action: Action, key: string)
    requires Target(action) != key
    ensures Applied(items, content, json, accepts, removable, action).Get(key) == items.Get(key)
  {
  }

  /** `set(key, value)` on a medium-backed storage followed by the flush
      puts the serialized value under the key's physical key, whatever was
      queued before. */
  lemma SetThenFlushWrites(s: State, namespace: string, key: string, value: Value, items: OMap<string>,
                           json: Json, accepts: (string, string) -> bool, removable: bool)
    requires s.content.Valid() && '.' !in namespace && '.' !in key && Truthy(value)
    requires Serialize(json, value).Some? && Serialize(json, value).value != ""
    requires accepts(SerializeKey(namespace, key), Serialize(json, value).value)
    ensures var r := Assigned(s, namespace, true, key, value);
      && r.Some?
      && Flushed(items, r.value.content, json, accepts, removable, r.value.pending).Get(SerializeKey(namespace, key))
         == Serialize(json, value)
  {
    var physical := SerializeKey(namespace, key);
    SerializeKeyAvoids(namespace, key, '.');
    StoreFlat(s.content, physical, value);
    var r := Assigned(s, namespace, true, key, value).value;
    assert !IsNone(value);
    assert r.pending == s.pending + [Save(physical)] + [];
    assert Root(r.content, physical) == value;
    FlushedLastSaveWrites(items, r.content, json, accepts, removable, s.pending, physical, []);
  }

  /** Removals queued after everything else leave their keys absent from
      the medium, when the medium allows removal. */
  lemma {:induction false} FlushedTrailingDeletes(items: OMap<string>, content: OMap<Value>, json: Json,
                                                 accepts: (string, string) -> bool,
                                                 before: seq<Action>, keys: seq<string>, key: string)
    requires key in keys
    ensures Flushed(items, content, json, accepts, true, before + Deletions(keys)).Get(key) == None
    decreases |keys|
  {
    var all := before + Deletions(keys);
    assert all[..|all| - 1] == before + Deletions(keys[..|keys| - 1]);
    if keys[|keys| - 1] != key {
      assert key in keys[..|keys| - 1];
      FlushedTrailingDeletes(items, content, json, accepts, before, keys[..|keys| - 1], key);
    }
  }

  /** A removal queued for each key, in order. */
  function Deletions(keys: seq<string>): seq<Action> {
    if keys == [] then [] else Deletions(keys[..|keys| - 1]) + [Delete(keys[|keys| - 1])]
  }

  /** Removing one more key, and queueing its removal, extends the
      removals by that key. */
  lemma RemovalStep(content: OMap<Value>, before: seq<Action>, doomed: seq<string>, physical: string)
    ensures RemovedAll(content, doomed + [physical]) == RemovedAll(content, doomed).Remove(physical)
    ensures before + Deletions(doomed + [physical]) == before + Deletions(doomed) + [Delete(physical)]
  {
    assert (doomed + [physical])[..|doomed|] == doomed;
  }

  /** Each logical key serialized with the namespace, in order. */
  function Physical(namespace: string, keys: seq<string>): seq<string> {
    if keys == [] then [] else Physical(namespace, keys[..|keys| - 1]) + [SerializeKey(namespace, keys[|keys| - 1])]
  }

  lemma PhysicalSnoc(namespace: string, keys: seq<string>, i: nat)
    requires i < |keys|
    ensures Physical(namespace, keys[..i + 1]) == Physical(namespace, keys[..i]) + [SerializeKey(namespace, keys[i])]
  {
    assert keys[..i + 1][..i] == keys[..i];
  }

  lemma {:induction false} PhysicalAt(namespace: string, keys: seq<string>)
    ensures |Physical(namespace, keys)| == |keys|
    ensures forall i :: 0 <= i < |keys| ==> Physical(namespace, keys)[i] == SerializeKey(namespace, keys[i])
  {
    if keys != [] {
      var prefix := keys[..|keys| - 1];
      PhysicalAt(namespace, prefix);
      var physical := Physical(namespace, keys);
      assert physical == Physical(namespace, prefix) + [SerializeKey(namespace, keys[|keys| - 1])];
      forall i | 0 <= i < |keys| - 1 ensures physical[i] == SerializeKey(namespace, keys[i]) {
        assert physical[i] == Physical(namespace, prefix)[i] && prefix[i] == keys[i];
      }
    }
  }

  /** The mixin's `keys()`: the logical part of every content key, one per
      entry, in content order. */
  function LogicalKeys(order: seq<string>): (r: seq<string>)
    ensures |r| == |order|
  {
    Mapped(LogicalKey, order)
  }

  /** The logical part of a physical key. */
  function LogicalKey(serialized: string): string {
    DeserializeKey(serialized).key
  }

  /** `keys()` lists, position by position, the logical part of each
      content key. */
  lemma LogicalKeysAt(order: seq<string>, i: nat)
    requires i < |order|
    ensures LogicalKeys(order)[i] == DeserializeKey(order[i]).key
  {
    MappedAt(LogicalKey, order, i);
  }

  /** The medium-backed `keys()` after the memory keys: `addObject` of the
      logical key of every medium key in the namespace, in medium order. */
  function WithMediumKeys(keys: seq<string>, namespace: string, order: seq<string>): seq<string>
    decreases |order|
  {
    if order == [] then keys
    else
      var listed := WithMediumKeys(keys, namespace, order[..|order| - 1]);
      var keyData := DeserializeKey(order[|order| - 1]);
      if keyData.namespace == namespace && keyData.key !in listed then listed + [keyData.key] else listed
  }

  /** `f` applied to each element of `s`, in order. */
  function Mapped<A, B>(f: A -> B, s: seq<A>): (r: seq<B>)
    ensures |r| == |s|
    decreases |s|
  {
    if s == [] then [] else Mapped(f, s[..|s| - 1]) + [f(s[|s| - 1])]
  }

  lemma {:induction false} MappedAt<A, B>(f: A -> B, s: seq<A>, i: nat)
    requires i < |s|
    ensures Mapped(f, s)[i] == f(s[i])
    decreases |s|
  {
    var prefix := s[..|s| - 1];
    if i < |prefix| {
      MappedAt(f, prefix, i);
      assert prefix[i] == s[i];
    }
  }

  /** Each key of the medium order, deserialized. */
  function Decoded(order: seq<string>): (r: seq<KeyData>)
    ensures |r| == |order|
  {
    Mapped(DeserializeKey, order)
  }

  /** Some key of the medium order carries the namespace and the logical key. */
  predicate Lists(order: seq<string>, namespace: string, key: string) {
    KeyData(namespace, key) in Decoded(order)
  }

  /** The medium-backed `keys()` starts with the memory keys, unchanged. */
  lemma {:induction false} MediumKeysExtend(keys: seq<string>, namespace: string, order: seq<string>)
    ensures |WithMediumKeys(keys, namespace, order)| >= |keys|
    ensures WithMediumKeys(keys, namespace, order)[..|keys|] == keys
    decreases |order|
  {
    if order != [] {
      MediumKeysExtend(keys, namespace, order[..|order| - 1]);
    }
  }

  /** A key is listed exactly when memory lists it or a medium key of the
      namespace carries it. */
  lemma {:induction false} MediumKeysMembers(keys: seq<string>, namespace: string, order: seq<string>)
    ensures forall x :: x in WithMediumKeys(keys, namespace, order) <==> x in keys || Lists(order, namespace, x)
    decreases |order|
  {
    if order != [] {
      MediumKeysMembers(keys, namespace, order[..|order| - 1]);
      forall x {
        ListsStep(order, namespace, x);
      }
    }
  }

  lemma ListsStep(order: seq<string>, namespace: string, x: string)
    requires order != []
    ensures Lists(order, namespace, x)
      <==> Lists(order[..|order| - 1], namespace, x) || DeserializeKey(order[|order| - 1]) == KeyData(namespace, x)
  {
  }

  /** What the medium adds to `keys()` is listed once and is not among the
      memory keys (`addObject` skips what is already there). */
  lemma {:induction false} MediumKeysFresh(keys: seq<string>, namespace: string, order: seq<string>)
    ensures var all := WithMediumKeys(keys, namespace, order);
      && (forall i, j :: |keys| <= i < j < |all| ==> all[i] != all[j])
      && (forall i :: |keys| <= i < |all| ==> all[i] !in keys)
    decreases |order|
  {
    if order != [] {
      var prefix := order[..|order| - 1];
      MediumKeysFresh(keys, namespace, prefix);
      MediumKeysExtend(keys, namespace, prefix);
      var listed := WithMediumKeys(keys, namespace, prefix);
      var keyData := DeserializeKey(order[|order| - 1]);
      if keyData.namespace == namespace && keyData.key !in listed {
        var all := listed + [keyData.key];
        assert keyData.key !in keys by {
          assert listed[..|keys|] == keys;
          assert forall x :: x in keys ==> x in listed;
        }
        forall i, j | |keys| <= i < j < |all| ensures all[i] != all[j] {
          if j == |all| - 1 {
            assert all[i] == listed[i];
          }
        }
      }
    }
  }

  /** Content with every key in the listed keys removed. */
  function RemovedAll(content: OMap<Value>, keys: seq<string>): (r: OMap<Value>)
    ensures content.Valid() ==> r.Valid()
    ensures forall k :: r.Get(k) == if k in keys then None else content.Get(k)
    ensures r.entries.Keys <= content.entries.Keys
    decreases |keys|
  {
    if keys == [] then content
    else
      var rest := RemovedAll(content, keys[..|keys| - 1]);
      assert forall k :: k in keys <==> k in keys[..|keys| - 1] || k == keys[|keys| - 1];
      rest.Remove(keys[|keys| - 1])
  }

  /** A valid map without any key is the empty map. */
  lemma NoKeysIsEmpty<V>(m: OMap<V>)
    requires m.Valid() && forall k :: m.Get(k) == None
    ensures m == Empty()
  {
    assert forall k :: k !in m.entries by {
      forall k ensures k !in m.entries {
        assert m.Get(k) == None;
      }
    }
    assert m.entries == map[];
    SizeIsLength(m);
  }

  /** The medium-backed `clear()` empties memory when every content key
      is the serialization of its own logical key. */
  lemma ClearEmptiesWellFormed(content: OMap<Value>, namespace: string, order: seq<string>)
    requires content.Valid()
    requires forall k :: k in content.entries ==> SerializeKey(namespace, DeserializeKey(k).key) == k
    ensures RemovedAll(content, Physical(namespace, WithMediumKeys(LogicalKeys(content.order), namespace, order))) == Empty()
  {
    var logical := LogicalKeys(content.order);
    var listed := WithMediumKeys(logical, namespace, order);
    MediumKeysExtend(logical, namespace, order);
    var doomed := Physical(namespace, listed);
    PhysicalAt(namespace, listed);
    forall k | k in content.entries ensures k in doomed {
      var i :| 0 <= i < |content.order| && content.order[i] == k;
      LogicalKeysAt(content.order, i);
      assert listed[i] == DeserializeKey(k).key;
      assert SerializeKey(namespace, DeserializeKey(k).key) == k;
      assert doomed[i] == k;
    }
    NoKeysIsEmpty(RemovedAll(content, doomed));
  }

  /** A content key that names another namespace survives the
      medium-backed `clear()`: `keys()` lists `"<before>:<after>"` as
      `"<after>"`, which `clear` serializes under its own namespace. */
  lemma ClearMissesForeignKey(namespace: string, before: string, after: string, value: Value)
    requires Separator !in namespace && Separator !in before && Separator !in after
    requires before != namespace
    ensures var key := before + [Separator] + after;
      var content := Empty<Value>().Put(key, value);
      RemovedAll(content, Physical(namespace, LogicalKeys(content.order))).Get(key) == Some(value)
  {
    var key := before + [Separator] + after;
    var content := Empty<Value>().Put(key, value);
    assert content.order == [key];
    DeserializeOneSeparator(before, after);
    SingleKeyLists(key);
    DeserializeOneSeparator(namespace, after);
    SingleKeyPhysical(namespace, after);
  }

  /** `keys()` over a single content key. */
  lemma SingleKeyLists(key: string)
    ensures LogicalKeys([key]) == [DeserializeKey(key).key]
  {
  }

  /** `clear`'s serialization of a single logical key. */
  lemma SingleKeyPhysical(namespace: string, key: string)
    ensures Physical(namespace, [key]) == [SerializeKey(namespace, key)]
  {
    assert Physical(namespace, [key]) == Physical(namespace, []) + [SerializeKey(namespace, key)];
  }

  /** A medium key of the namespace that is the serialization of its own
      deserialized key is removed from the medium by `clear()` followed by a
      flush, when the medium allows removal. A key such as `ns:a:b` is not
      one: it deserializes to the key `ns`, so `clear()` removes `ns:ns`
      instead. */
  lemma ClearEmptiesMedium(items: OMap<string>, content: OMap<Value>, json: Json,
                           accepts: (string, string) -> bool, before: seq<Action>,
                           namespace: string, mediumKey: string)
    requires mediumKey in items.order
    requires DeserializeKey(mediumKey).namespace == namespace
    requires SerializeKey(namespace, DeserializeKey(mediumKey).key) == mediumKey
    ensures var doomed := Physical(namespace, WithMediumKeys(LogicalKeys(content.order), namespace, items.order));
      Flushed(items, content, json, accepts, true, before + Deletions(doomed)).Get(mediumKey) == None
  {
    var logical := LogicalKeys(content.order);
    var listed := WithMediumKeys(logical, namespace, items.order);
    MediumKeysMembers(logical, namespace, items.order);
    var i :| 0 <= i < |items.order| && items.order[i] == mediumKey;
    MappedAt(DeserializeKey, items.order, i);
    assert Lists(items.order, namespace, DeserializeKey(mediumKey).key);
    var j :| 0 <= j < |listed| && listed[j] == DeserializeKey(mediumKey).key;
    var doomed := Physical(namespace, listed);
    PhysicalAt(namespace, listed);
    assert doomed[j] == mediumKey;
    FlushedTrailingDeletes(items, content, json, accepts, before, doomed, mediumKey);
  }

  /** One position of `initialContent`: the key's namespace is compared
      with the storage's, and only then is its text read, deserialized and,
      when present, set in content. */
  method LoadNext(namespace: string, json: Json, medium: Medium, i: nat, loaded: OMap<Value>)
    returns (next: Option<OMap<Value>>)
    requires i < medium.Length()
    requires Loaded(namespace, json, medium.items, i) == Some(loaded)
    ensures next == Loaded(namespace, json, medium.items, i + 1)
  {
    var key := medium.Key(i);
    next := Some(loaded);
    var keyData := DeserializeKey(key);
    if namespace == keyData.namespace {
      var text := medium.GetItem(key);
      if text.Some? {
        var value := Deserialize(json, text.value);
        if IsPresent(value) {
          next := Written(loaded, key, value);
        }
      }
    }
    LoadedNext(namespace, json, medium.items, i, loaded);
  }

  /** `initialContent`: reads the medium position by position. */
  method Load(namespace: string, json: Json, medium: Medium) returns (content: Option<OMap<Value>>)
    ensures content == Loaded(namespace, json, medium.items, |medium.items.order|)
  {
    var loaded := Empty();
    var i := 0;
    while i < medium.Length()
      invariant 0 <= i <= medium.Length()
      invariant Loaded(namespace, json, medium.items, i) == Some(loaded)
    {
      var next := LoadNext(namespace, json, medium, i, loaded);
      if next.None? {
        LoadedFailureSticks(namespace, json, medium.items, i + 1, medium.Length());
        return None;
      }
      loaded := next.value;
      i := i + 1;
    }
    return Some(loaded);
  }

  class Storage {
    const namespace: string
    /** Whether `keys` and `clear` are those of the medium-backed storages
        (`LocalStorage` and its descendants) rather than the mixin's own. */
    const durable: bool
    /** The `adapter`; `null` when there is none. */
    const medium: Medium?
    const json: Json
    /** The proxied `content` object. */
    var content: OMap<Value>
    /** Medium calls scheduled in the current run loop. */
    var pending: seq<Action>

    ghost predicate Valid()
      reads this, medium
    {
      && content.Valid()
      && '.' !in namespace
      && (forall k :: k in content.entries ==> '.' !in k && (namespace != "" ==> Separator in k))
      && (!durable ==> medium == null)
      && (medium == null ==> pending == [])
      && (medium != null ==> medium.Valid())
    }

    function Snapshot(): State
      reads this
    {
      State(content, pending)
    }

    /** `init`: content is `initialContent`, loaded from the medium when
        there is one. Loading throws when a dotted medium key of the
        namespace has no root entry; callers make sure it does not. */
    constructor (namespace: string, durable: bool, medium: Medium?, json: Json)
      requires '.' !in namespace
      requires !durable ==> medium == null
      requires medium != null ==> medium.Valid() && Loaded(namespace, json, medium.items, |medium.items.order|).Some?
      ensures Valid()
      ensures this.namespace == namespace && this.durable == durable && this.medium == medium && this.json == json
      ensures medium == null ==> content == Empty()
      ensures medium != null ==> content == Loaded(namespace, json, medium.items, |medium.items.order|).value
      ensures pending == []
    {
      var loaded := Some(Empty());
      if medium != null {
        loaded := Load(namespace, json, medium);
        LoadedWellFormed(namespace, json, medium.items, |medium.items.order|);
      }
      this.namespace := namespace;
      this.durable := durable;
      this.medium := medium;
      this.json := json;
      content := loaded.value;
      pending := [];
    }

    /** `get(key)` (`unknownProperty`): reads memory only, never the medium. */
    function Get(key: string): Value
      reads this
    {
      Read(content, namespace, key)
    }

    /** `set(key, value)` (`setUnknownProperty`). */
    method Set(key: string, value: Value) returns (ok: bool)
      requires Valid()
      modifies this
      ensures Valid()
      ensures var r := Assigned(old(Snapshot()), namespace, medium != null, key, value);
        ok == r.Some? && Snapshot() == r.GetOr(old(Snapshot()))
    {
      var physical := SerializeKey(namespace, key);
      var written := Written(content, physical, value);
      if written.None? {
        return false;
      }
      content := written.value;
      if IsNone(value) {
        content := content.Remove(physical);
        if medium != null {
          pending := pending + [Delete(physical)];
        }
      } else if medium != null {
        pending := pending + [Save(physical)];
      }
      ok := true;
    }

    /** `setProperties(props)`. */
    method SetProperties(props: seq<(string, Value)>) returns (ok: bool)
      requires Valid()
      modifies this
      ensures Valid()
      ensures (Snapshot(), ok) == AssignedAll(old(Snapshot()), namespace, medium != null, props)
    {
      ok := true;
      var i := 0;
      while i < |props| && ok
        invariant 0 <= i <= |props|
        invariant Valid()
        invariant ok ==> AssignedAll(old(Snapshot()), namespace, medium != null, props)
                         == AssignedAll(Snapshot(), namespace, medium != null, props[i..])
        invariant !ok ==> AssignedAll(old(Snapshot()), namespace, medium != null, props) == (Snapshot(), false)
      {
        var key := SerializeKey(namespace, props[i].0);
        assert props[i..][1..] == props[i + 1..];
        ok := Set(key, props[i].1);
        i := i + 1;
      }
      if ok {
        assert props[i..] == [];
      }
    }

    /** Overwrites, in memory only and with no medium call, the value held
        under a physical key: the effect of changing in place an object the
        storage holds. */
    method Overwrite(physical: string, value: Value)
      requires Valid() && physical in content.entries
      modifies this
      ensures Valid()
      ensures content == old(content).Put(physical, value) && pending == old(pending)
    {
      content := content.Put(physical, value);
    }

    /** The end of the run loop: every scheduled medium call is carried out
        in order, against memory as it is now; refused calls are swallowed. */
    method Flush()
      requires Valid()
      modifies this, medium
      ensures Valid()
      ensures content == old(content) && pending == []
      ensures medium != null ==>
        medium.items == Flushed(old(medium.items), content, json, medium.accepts, medium.removable, old(pending))
    {
      if medium != null {
        var i := 0;
        while i < |pending|
          invariant 0 <= i <= |pending|
          decreases |pending| - i
          invariant medium.Valid()
          invariant content == old(content) && pending == old(pending)
          invariant medium.items == Flushed(old(medium.items), content, json, medium.accepts, medium.removable, pending[..i])
        {
          assert pending[..i + 1][..i] == pending[..i];
          match pending[i] {
            case Save(key) =>
              var root := Split(key, '.')[0];
              var value := Root(content, root);
              if Truthy(value) {
                var text := Serialize(json, value);
                if text.Some? && text.value != "" {
                  var stored := medium.SetItem(root, text.value);
                }
              }
            case Delete(key) =>
              var removed := medium.RemoveItem(key);
          }
          i := i + 1;
        }
        assert pending[..i] == pending;
      }
      pending := [];
    }

    /** The list `keys()` returns. */
    function KeyList(): seq<string>
      reads this, medium
    {
      if durable && medium != null then WithMediumKeys(LogicalKeys(content.order), namespace, medium.items.order)
      else LogicalKeys(content.order)
    }

    /** The mixin's `keys()`: the logical keys of memory, in order. */
    method ContentKeys() returns (keys: seq<string>)
      ensures keys == LogicalKeys(content.order)
    {
      keys := [];
      var i := 0;
      while i < |content.order|
        invariant 0 <= i <= |content.order|
        invariant keys == LogicalKeys(content.order[..i])
      {
        assert content.order[..i + 1][..i] == content.order[..i];
        keys := keys + [DeserializeKey(content.order[i]).key];
        i := i + 1;
      }
      assert content.order[..i] == content.order;
    }

    /** `keys()`: the logical keys of memory, then, for a medium-backed
        storage, those of the medium's keys in its namespace. */
    method Keys() returns (keys: seq<string>)
      requires Valid()
      ensures keys == KeyList()
    {
      keys := ContentKeys();
      if durable && medium != null {
        var j := 0;
        while j < medium.Length()
          invariant 0 <= j <= medium.Length()
          invariant keys == WithMediumKeys(LogicalKeys(content.order), namespace, medium.items.order[..j])
        {
          assert medium.items.order[..j + 1][..j] == medium.items.order[..j];
          var keyData := DeserializeKey(medium.Key(j));
          if namespace == keyData.namespace && keyData.key !in keys {
            keys := keys + [keyData.key];
          }
          j := j + 1;
        }
        assert medium.items.order[..j] == medium.items.order;
      }
    }

    /** `clear()`: the mixin's for the in-memory storage, the medium-backed
        one otherwise. */
    method Clear()
      requires Valid()
      modifies this
      ensures Valid()
      ensures !durable ==> content == Empty() && pending == old(pending)
      ensures durable ==>
        var doomed := Physical(namespace, old(KeyList()));
        && content == RemovedAll(old(content), doomed)
        && pending == old(pending) + (if medium != null then Deletions(doomed) else [])
    {
      if durable {
        ClearListed();
      } else {
        ClearContent();
      }
    }

    /** The mixin's `clear()`: deletes every content key. */
    method ClearContent()
      requires Valid()
      modifies this
      ensures Valid()
      ensures content == Empty() && pending == old(pending)
    {
      var keys := content.order;
      var i := 0;
      while i < |keys|
        invariant 0 <= i <= |keys|
        invariant content == RemovedAll(old(content), keys[..i])
        invariant pending == old(pending)
      {
        assert keys[..i + 1][..i] == keys[..i];
        content := content.Remove(keys[i]);
        i := i + 1;
      }
      assert keys[..i] == keys;
      NoKeysIsEmpty(content);
    }

    /** The medium-backed `clear()`: serializes every key `keys()` lists and
        deletes that, from memory at once and from the medium at the flush. */
    method ClearListed()
      requires Valid()
      modifies this
      ensures Valid()
      ensures var doomed := Physical(namespace, old(KeyList()));
        && content == RemovedAll(old(content), doomed)
        && pending == old(pending) + (if medium != null then Deletions(doomed) else [])
    {
      var keys := Keys();
      RemoveListed(keys);
    }

    /** The loop of the medium-backed `clear()`: each listed key is
        serialized, deleted from memory and its removal queued. */
    method RemoveListed(keys: seq<string>)
      requires Valid()
      modifies this
      ensures Valid()
      ensures var doomed := Physical(namespace, keys);
        && content == RemovedAll(old(content), doomed)
        && pending == old(pending) + (if medium != null then Deletions(doomed) else [])
    {
      ghost var c0, p0 := content, pending;
      var doomed := [];
      var i := 0;
      while i < |keys|
        invariant 0 <= i <= |keys|
        invariant Valid()
        invariant doomed == Physical(namespace, keys[..i])
        invariant content == RemovedAll(c0, doomed)
        invariant pending == p0 + if medium != null then Deletions(doomed) else []
      {
        var physical := SerializeKey(namespace, keys[i]);
        PhysicalSnoc(namespace, keys, i);
        RemovalStep(c0, p0, doomed, physical);
        RemoveOne(physical);
        doomed := doomed + [physical];
        i := i + 1;
      }
      assert keys[..i] == keys;
    }

    /** `delete content[key]`, queueing the medium's removal when there is
        a medium. */
    method RemoveOne(physical: string)
      requires Valid()
      modifies this
      ensures Valid()
      ensures content == old(content).Remove(physical)
      ensures pending == old(pending) + if medium != null then [Delete(physical)] else []
    {
      content := content.Remove(physical);
      pending := pending + if medium != null then [Delete(physical)] else [];
    }
  }
}
