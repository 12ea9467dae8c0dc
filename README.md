# ember-storages in Dafny

A model of the core of `ember-storages`. It has three layers.

- **The storage mixin** (`StorageMixin`). This is a namespaced in-memory store. A logical key `k` lives in memory under the physical key `"<namespace>:k"`, unless `k` already holds a `':'`.
  - `get` and `set` on a dotted key reach inside the value stored under the key's first segment.
  - `keys()` lists the logical part of each physical key.
  - `clear()` deletes them all.
- **The durable storage** (`LocalStorage` and the storages built on it). It puts a string-to-string medium, the browser's `localStorage` or `sessionStorage`, behind that memory.
  - Initialization loads the medium's entries of the storage's own namespace.
  - `keys()` adds the medium's keys of the namespace.
  - Every write to memory also queues a medium call, carried out at the end of the run loop. That call reads memory as it is by then.
  - Values travel through a codec: JSON for objects, arrays and time objects, `toString` for scalars. Text read back is parsed as JSON, or kept raw when it does not parse.
- **The cache service.** Every value is stored as a block `{data, meta}`:
  - The block sits under the first segment of its key and is served only while `meta.expire` is empty or later than now.
  - A write merges the old meta under the new one and stamps `meta.updated`.
  - An already-expired meta makes a write a no-op.
  - A dotted key writes inside the old block's data.
  - A key's change is announced when the output is not none or an old block existed.
  - `keys`, `filter`, `filterBy` and `clear` see only live blocks, and construction sweeps the expired ones out.

## Modules

| Module | File | Contents |
|---|---|---|
| `Wrappers` | `wrappers.dfy` | `Option` |
| `Strings` | `strings.dfy` | `split` and `join` on a one-character separator, and their inverse laws |
| `Values` | `values.dfy` | the JavaScript values the stores hold, Ember's `isNone`, `isEmpty`, `isBlank` and `isPresent`, and Ember's `get` and `set` on a path |
| `OrderedMaps` | `ordered_maps.dfy` | a string-keyed map that keeps insertion order, as a JavaScript object does; the medium's `key(i)` order is taken to be the same |
| `KeyCodec` | `key_codec.dfy` | `isKeySerialized`, `serializeKey` and `deserializeKey` |
| `ValueCodec` | `value_codec.dfy` | `serialize` and `deserialize` over a JSON parameter |
| `Media` | `medium.dfy` | the durable medium, as a class |
| `Storages` | `storage.dfy` | the storage class (`Storage`) and the pure functions that specify it |
| `Expiry` | `expiry.dfy` | `checkBlock`, `checkMeta`, `wrap`, `_makeBlock` and `_iter` |
| `CacheService` | `cache.dfy` | the cache class (`Cache`) and the functions that specify it |

The model is imperative where ember-storages changes state.

- `Storage` holds the content map and the queue of pending medium calls, with `modifies` clauses on its methods.
  - `Flush` is the end of the run loop, which carries out the queue.
  - Each method is proved against a pure function of the old state: `Assigned`, `AssignedAll`, `Loaded`, `Flushed`, `RemovedAll` and `Physical`.
- `Cache` holds its storage and the log of announced keys. Its methods are proved against `Cached`, `Swept`, `LiveKeys`, `Chosen` and `ClearedAll`.
- The properties ember-storages promises are lemmas about those functions.

## Where the model follows the code, not the comments or the tests

- The cache never deletes an expired block on read. Only construction sweeps (`CacheService.CacheRead`).
- There is no default expiry. A value set without meta has no `expire` and never expires (`Expiry.CheckBlockBoundary`).
- A `null` value set with a meta is deleted, not stored. `_makeBlock` returns an undefined block for any value that is not present (`CacheService.BlankValueDeletes`).
- For a key with two or more `':'`, `deserializeKey` gives the first piece as both the namespace and the key (`KeyCodec.DeserializeManySeparators`).
- `get` namespaces only the first segment of a dotted key, but `set` leaves a key unnamespaced when any segment holds a `':'`. So `get('a.b:c')` reads inside `ns:a`, while `set('a.b:c', v)` looks for an entry `a` and throws when there is none (`Storages.ColonInPathQuirk`).

## Model

| member | source | states |
|---|---|---|
| `KeyCodec.IsKeySerialized` | addon/mixins/storage.js:36-38 | A key counts as serialized exactly when it holds a `':'`. |
| `KeyCodec.SerializeKey` | addon/mixins/storage.js:47-51 | A key holding `':'` is returned unchanged; any other key becomes `namespace + ":" + key`; the result always holds `':'`. |
| `KeyCodec.DeserializeKey` | addon/mixins/storage.js:60-69 | A key without `':'` has the empty namespace and is itself the logical key. |
| `KeyCodec.DeserializeOneSeparator` | addon/mixins/storage.js:60-69 | A key with exactly one `':'` deserializes to (text before, text after). |
| `KeyCodec.DeserializeManySeparators` | addon/mixins/storage.js:62-63 | A key with two or more `':'` gives its first piece as both namespace and key. |
| `KeyCodec.SerializeKeyIdempotent` | addon/mixins/storage.js:121-132 | Serializing twice is serializing once, so `setProperties` serializing before `setUnknownProperty` serializes again changes nothing. |
| `KeyCodec.SerializeKeyAvoids` | addon/mixins/storage.js:47-51 | Serialization adds no character other than `':'`, so a dot-free namespace and key give a dot-free physical key. |
| `KeyCodec.KeyRoundTrip` | addon/mixins/storage.js:47-69 | For `':'`-free namespace and key, deserializing the serialized key gives both back. |
| `KeyCodec.NamespacesIsolate` | addon/mixins/storage.js:47-69 | Different namespaces never share a physical key for the same logical key, and the physical key carries its own namespace. |
| `KeyCodec.ForeignKeyKeepsItsNamespace` | addon/mixins/storage.js:36-51 | A key like `user:wow` is never namespaced and keeps the namespace `user`, whatever the storage's namespace. |
| `Strings.Split` | addon/services/cache.js:383-390 | A split is never empty, and has a single piece, the whole string, exactly when the separator is absent. |
| `Strings.SplitPieces` | addon/services/cache.js:383-390 | No piece of a split holds the separator, and joining the pieces gives the string back. |
| `Strings.SplitJoin` | addon/services/cache.js:383-390 | Splitting the join of separator-free pieces gives the pieces back. |
| `Strings.SplitJoinCons` | addon/services/cache.js:383-390 | Splitting `root.a.b` gives `root` followed by the pieces of `a.b`. |
| `Strings.JoinAvoids` | addon/services/cache.js:383-390 | Joining pieces that lack a character other than the separator gives a text that lacks it too. |
| `Strings.SplitPrefix` | addon/services/cache.js:383-390 | Splitting `a + sep + b`, with `a` separator-free, puts `a` in front of the pieces of `b`. |
| `Values.PresentIsNotNone` | addon/services/cache.js:346-347 | A present value is never none; `false` and `0` are present, `""` and `[]` are not. |
| `Values.GetAfterSetField` | addon/services/cache.js:342 | Setting a property of an object or an index of an array and reading it back gives the value set, arrays growing with holes. |
| `Values.GetAfterSetIn` | addon/services/cache.js:342 | A path write through existing containers succeeds, and reading the path back gives the value written. |
| `Values.SetInKeepsSiblings` | addon/services/cache.js:342 | A path write into an object leaves its other top-level properties unchanged. |
| `Values.SetInFailsOnPrimitive` | addon/services/cache.js:342 | A path write throws exactly when some value along the path, the starting value included and the last one excluded, is not an object, an array or a time object. |
| `Values.LengthField` | addon/mixins/storage.js:78-82 | Reading `length` of an array or a string gives its number of elements or characters. |
| `OrderedMaps.OMap.Put` | addon/mixins/storage.js:91-102 | After `obj[k] = v`, `k` holds `v` and nothing else changes; a new key goes last, an existing one keeps its place. |
| `OrderedMaps.OMap.Remove` | addon/mixins/storage.js:220-222 | After `delete obj[k]`, `k` is absent and nothing else changes; the rest keep their relative order. |
| `OrderedMaps.SizeIsLength` | addon/mixins/storage.js:153-162 | A well-formed object has as many keys as listed positions, so `keys()` lists each entry once. |
| `Storages.Read` | addon/mixins/storage.js:78-82 | A dot-free key reads the value under its serialized key. |
| `Storages.Written` | addon/mixins/storage.js:91-102 | Ember's `set`: a dot-free key is put, and a dotted key never adds an entry. |
| `Storages.StoreAt` | addon/mixins/storage.js:91-102 | The memory part of `setUnknownProperty` throws exactly when the write throws, and adds no key other than a dot-free written one. |
| `Storages.StoreFlat` | addon/mixins/storage.js:91-102 | For a dot-free key, a none value removes it and any other value puts it; every other key keeps its value. |
| `Storages.PutThenRemove` | addon/mixins/storage.js:97-98 | Writing a key and then deleting it is deleting it. |
| `Storages.Assigned` | addon/mixins/storage.js:91-102 | `set` serializes the key, stores in memory, and queues `Delete` for a none value or `Save` otherwise on a medium-backed storage; with no medium the queue is unchanged. |
| `Storages.ReadAfterAssign` | addon/mixins/storage.js:78-102 | Reading a dot-free key right after setting it gives the value set, or `undefined` for a none value. |
| `Storages.ReadAfterAssignNested` | addon/mixins/storage.js:78-102 | Setting a dotted key whose segments hold neither `.` nor `':'`, through existing containers, goes through; reading the same key back gives the value set, and every key with another root reads as before. |
| `Storages.NestedKeySplits` | addon/mixins/storage.js:47-51 | Such a dotted key, and its physical key, split into the root (serialized) followed by the path segments. |
| `Storages.ColonInPathQuirk` | addon/mixins/storage.js:47-51 | With `ns:a` holding `{"b:c": 1}`, `get('a.b:c')` reads 1, while `set('a.b:c', 2)` throws. |
| `Storages.AssignKeepsOthers` | addon/mixins/storage.js:91-102 | Setting a key leaves every key with another physical key reading as before. |
| `Storages.SetPropertiesIsSet` | addon/mixins/storage.js:121-132 | `setProperties` with one property is `set` of that property. |
| `Storages.LoadedWellFormed` | addon/storages/local.js:37-62 | A load that succeeds gives a well-formed content whose keys are dot-free and carry the storage's namespace. |
| `Storages.LoadedExactly` | addon/storages/local.js:37-62 | With no dotted medium key in the namespace, the loaded content holds exactly the medium's entries of the namespace whose value deserializes to a present value; every other key is absent. |
| `Storages.LoadedFailureSticks` | addon/storages/local.js:46-59 | A load that has thrown stays thrown. |
| `Storages.LoadNext` | addon/storages/local.js:46-59 | One position of the loading loop advances `Loaded` by that position. |
| `Storages.Load` | addon/storages/local.js:37-62 | `initialContent` is `Loaded` over every position of the medium. |
| `Storages.Storage.constructor` | addon/mixins/storage.js:23-27 | Content starts as the loaded medium content, or empty without a medium; nothing is pending. |
| `Storages.Storage.Set` | addon/mixins/storage.js:91-102 | The new content and queue are `Assigned` of the old ones, and the storage stays well-formed. |
| `Storages.Storage.SetProperties` | addon/mixins/storage.js:121-132 | The new state is `AssignedAll` of the old one: each property is set in turn. |
| `Storages.Storage.Overwrite` | addon/services/cache.js:342 | Changing a held object in place changes that one entry in memory and queues no medium call. |
| `Storages.Flushed` | addon/storages/local.js:117-163 | Carrying out the queued calls keeps the medium well-formed. |
| `Storages.Storage.Flush` | addon/storages/local.js:117-195 | The medium becomes `Flushed` of the old medium and the queue, read against memory as it is now; memory is unchanged and the queue is empty. |
| `Storages.FlushedKeepsUntouched` | addon/storages/local.js:117-195 | A medium key no queued call targets is unchanged by the flush. |
| `Storages.FlushedWritesMemory` | addon/storages/local.js:138-144 | After a flush, a medium key is unchanged, absent, or holds the serialization of memory's truthy value at flush time; values replaced within a burst never reach the medium. |
| `Storages.SaveWritesRoot` | addon/storages/local.js:138-144 | A save of `root.a.b` writes the serialized root entry under `root`. |
| `Storages.FlushedLastSaveWrites` | addon/storages/local.js:126-145 | In any queue, a save followed by no call on the same medium key writes the serialization of memory's root entry at flush time under the key's first segment, when that value is truthy and its non-empty text is accepted. |
| `Storages.AppliedKeepsUntargeted` | addon/storages/local.js:126-145 | One queued call leaves every medium key it does not target alone. |
| `Storages.SetThenFlushWrites` | addon/storages/local.js:117-145 | `set(k, v)` with a truthy `v` on a medium-backed storage, then the flush, leaves the serialization of `v` under the physical key of `k`, whatever was queued before. |
| `Storages.FlushedTrailingDeletes` | addon/storages/local.js:187-195 | Removals queued last leave their keys absent from a medium that allows removal. |
| `Storages.Deletions` | addon/storages/local.js:171-179 | One queued removal per key, in order. |
| `Storages.Physical` | addon/storages/local.js:78-83 | `clear` deletes the serialization of each listed key, in order. |
| `Storages.PhysicalAt` | addon/storages/local.js:78-83 | `clear` deletes one physical key per listed key: the serialization of the key at the same position. |
| `Storages.LogicalKeysAt` | addon/mixins/storage.js:153-162 | `keys()` lists, position by position, the logical part of each content key. |
| `Storages.Storage.ContentKeys` | addon/mixins/storage.js:153-162 | The mixin's `keys()` is the logical key of each content key, in content order. |
| `Storages.MediumKeysExtend` | addon/storages/local.js:91-108 | The medium-backed `keys()` starts with the memory keys, unchanged and in order. |
| `Storages.MediumKeysMembers` | addon/storages/local.js:91-108 | A key is listed exactly when memory lists it or a medium key of the namespace carries it. |
| `Storages.MediumKeysFresh` | addon/storages/local.js:91-108 | The keys added from the medium are listed once each and are not among the memory keys. |
| `Storages.Storage.Keys` | addon/storages/local.js:91-108 | `keys()` returns `KeyList`: the memory keys, then the medium's keys of the namespace not yet listed. |
| `Storages.RemovedAll` | addon/storages/local.js:78-83 | Deleting listed keys makes exactly those absent, keeps every other key, and adds none. |
| `Storages.NoKeysIsEmpty` | addon/mixins/storage.js:139-145 | A well-formed object without keys is the empty object. |
| `Storages.Storage.ClearContent` | addon/mixins/storage.js:139-145 | The mixin's `clear()` leaves content empty (so `keys()` is empty) and queues nothing. |
| `Storages.Storage.Clear` | addon/storages/local.js:78-83 | The in-memory storage empties memory. A medium-backed one deletes the serialization of every key `keys()` listed, from memory and, queued, from the medium. |
| `Storages.Storage.ClearListed` | addon/storages/local.js:78-83 | The medium-backed `clear()` deletes the serialization of every key `keys()` listed before the call. |
| `Storages.Storage.RemoveListed` | addon/storages/local.js:78-83 | Each given key is serialized, deleted from memory and its removal queued, in order. |
| `Storages.Storage.RemoveOne` | addon/storages/local.js:171-179 | `_delete` removes the key from memory at once and queues its medium removal when there is a medium. |
| `Storages.ClearEmptiesWellFormed` | addon/storages/local.js:78-83 | When every content key is the serialization of its own logical key, `clear()` empties memory. |
| `Storages.ClearEmptiesMedium` | addon/storages/local.js:78-83 | A medium key of the namespace that is the serialization of its own deserialized key is gone from the medium after `clear()` and the flush, including keys only the medium held. |
| `Storages.ClearMissesForeignKey` | addon/storages/local.js:78-83 | A content key naming another namespace, such as `other:k`, survives `clear()`. |
| `ValueCodec.NatToString` | addon/storages/local.js:216 | The decimal text of a number is a non-empty run of digits denoting it. |
| `ValueCodec.Serialize` | addon/storages/local.js:205-217 | Objects, arrays and time objects go through `JSON.stringify`, failing with it; a string is itself; numbers and booleans always give text. |
| `ValueCodec.Deserialize` | addon/storages/local.js:227-239 | Text that parses gives the parsed value; other text comes back as the raw string. |
| `ValueCodec.ValueRoundTrip` | addon/storages/local.js:205-239 | A JSON-safe value the codec serializes comes back unchanged, unless it is a string that itself parses as JSON. |
| `ValueCodec.StringsThatParseChangeType` | addon/storages/local.js:227-239 | `"123"` comes back as the number 123 and `"true"` as the boolean. |
| `Expiry.TrimStrips` | addon/services/cache.js:30 | The text is some whitespace, the trimmed text, and some whitespace. |
| `Expiry.TrimEnds` | addon/services/cache.js:30 | The trimmed text is empty or neither starts nor ends with whitespace, so trimming removes exactly the leading and trailing whitespace. |
| `Expiry.DigitsValue` | addon/services/cache.js:30 | A text reads as digits exactly when every character is a digit, giving its decimal value. |
| `Expiry.StringToNumberDigits` | addon/services/cache.js:30 | A text of digits compares as its decimal value. |
| `Expiry.StringToNumberNegative` | addon/services/cache.js:30 | A minus sign and digits compares as the negated value. |
| `Expiry.StringToNumberRejectsWords` | addon/services/cache.js:30 | A text holding, after trimming, a character no JavaScript numeral can hold is NaN, so it never compares later than now. |
| `Expiry.CheckBlockBoundary` | addon/services/cache.js:25-31 | A numeric expiry is live exactly when it is later than now, so an expiry equal to now has expired; a block with no expiry is live. |
| `Expiry.CheckBlockMonotonic` | addon/services/cache.js:25-31 | A block live at some time was live at every earlier time. |
| `Expiry.CheckMetaLive` | addon/services/cache.js:40-59 | A meta that is kept makes a live block. |
| `Expiry.CheckMetaBareExpiry` | addon/services/cache.js:40-59 | A bare number or time object becomes `{expire: ms}`, kept exactly when it is later than now. |
| `Expiry.CheckMetaKeepsFields` | addon/services/cache.js:40-59 | A plain-object meta without an expiry is kept unchanged. |
| `Expiry.WrapFields` | addon/services/cache.js:69-75 | The wrapped block holds the data, `updated` is now, and every other meta field is the one given. |
| `Expiry.Characters` | addon/services/cache.js:361-363 | A string contributes one property per character. |
| `Expiry.IndexedAt` | addon/services/cache.js:361-363 | An array's element `i` is copied under the text of `i`, and nothing is copied under any other text. |
| `Expiry.NewBlockKeepsData` | addon/services/cache.js:358-363 | The new block holds the data it is made of. |
| `Expiry.NewBlockMergesMeta` | addon/services/cache.js:358-363 | A rewrite keeps the data, stamps `updated`, and merges the metas field by field, the new meta winning. |
| `Expiry.FinishOutcome` | addon/services/cache.js:346-366 | A value that is not present deletes. A present one is refused exactly when a truthy meta is refused, and throws exactly when the meta is falsy but not `undefined`. Otherwise it is stored as the block's data. |
| `Expiry.FinishBlockIsLive` | addon/services/cache.js:346-366 | A stored block is live when made if the new meta sets an expiry, the old meta has none, or the old block is still live. |
| `Expiry.NewBlockExpire` | addon/services/cache.js:358-363 | The new block's expiry is the new meta's, else the old block's own expiry when its meta has one, else none. |
| `Expiry.ExpireNotIndexed` | addon/services/cache.js:361-362 | An array or string meta never contributes an `expire` property to the merge. |
| `Expiry.StaleExpireQuirk` | addon/services/cache.js:358-363 | Rewriting an expired block without a new expiry stores a block that is already expired. |
| `Expiry.MakeBlockNested` | addon/services/cache.js:333-367 | A nested write into an existing block stores the old data with the value written at the path, keeps the old meta fields, and stays live if the old block was. |
| `Expiry.NestedTouch` | addon/services/cache.js:338-344 | A nested write changes the old block's data in place first, then makes the new block from it with no meta. |
| `CacheService.Cached` | addon/services/cache.js:378-410 | `_set` announces only when it went through; without a medium it queues nothing; no physical key changes except the one of the key's first segment. |
| `CacheService.CachedFlat` | addon/services/cache.js:378-410 | For a dot-free key, `_set` stores what `_makeBlock` makes of the old block, with no write in place. |
| `CacheService.SweptLeavesLive` | addon/services/cache.js:164-179 | The construction sweep removes from memory exactly the swept keys whose block is not live, and adds or changes nothing else. |
| `CacheService.SweepLeavesOnlyLive` | addon/services/cache.js:164-179 | After the sweep over every content key, only live blocks remain in memory. |
| `CacheService.StaleMembers` | addon/services/cache.js:170-178 | A key is stale exactly when it is swept and its block is missing or not live. |
| `CacheService.SweptQueuesStale` | addon/services/cache.js:164-179 | With a medium, the sweep queues one medium removal per stale key, in key order; without one it queues nothing. |
| `CacheService.SweepClearsMedium` | addon/services/cache.js:164-179 | After construction over a medium that allows removal and the flush that follows, no key whose block was not live is left on the medium. |
| `CacheService.Cache.constructor` | addon/services/cache.js:164-179 | The storage becomes `Swept` over its content keys. For a namespaced storage every remaining block is live, and the queue gains one medium removal per stale key. |
| `CacheService.Cache.Sweep` | addon/services/cache.js:170-178 | The sweep loop sets each listed key whose block is not live to `undefined`, as `Swept` says. |
| `CacheService.LiveKeysMembers` | addon/services/cache.js:208-215 | A key is in the cache's `keys()` exactly when the storage lists it and its block is live. |
| `CacheService.Cache.Keys` | addon/services/cache.js:208-215 | `keys()` is the storage's key list filtered to live blocks, in order. |
| `CacheService.ChosenSound` | addon/services/cache.js:257-269 | Every key `filter` returns was accepted by the callback at one of its positions. |
| `CacheService.ChosenComplete` | addon/services/cache.js:257-269 | Every key the callback accepts at some position is returned. |
| `CacheService.ChosenMembers` | addon/services/cache.js:257-269 | `filter` returns a key exactly when the callback accepts it at one of its positions. |
| `CacheService.Cache.Select` | addon/services/cache.js:260-266 | The loop keeps, in order, the keys the callback accepts, seeing each key, its block, its index and the whole list. |
| `CacheService.Cache.Filter` | addon/services/cache.js:257-269 | `filter` is the live keys the callback accepts, in `keys()` order. |
| `CacheService.FilterByMembers` | addon/services/cache.js:294-302 | `filterBy(f, v)` selects a live key exactly when its `meta.f` is `v`; `filterBy(f)` when `meta.f` is truthy. |
| `CacheService.Cache.FilterBy` | addon/services/cache.js:281-283 | `filterBy` is `filter` with the `_iter` callback. |
| `CacheService.Flatten` | addon/services/cache.js:237-238 | A key is in the flattened arguments exactly when it is one of them or in one of the arrays among them. |
| `CacheService.Cache.Set` | addon/services/cache.js:378-410 | The new storage state, the result and the announcement log follow `Cached`; the storage stays well-formed. |
| `CacheService.Cache.StoreBlock` | addon/services/cache.js:403-407 | The block is set under the first segment, and the key is announced when the set went through and the announcement rule holds. |
| `CacheService.BlankValueDeletes` | addon/services/cache.js:346-347 | Setting a dot-free key to a value that is not present deletes its entry whatever the meta. The key then reads `null`, and the change is announced only when the value is not none or an old block existed. |
| `CacheService.SetThenGet` | addon/services/cache.js:378-410 | A present value set under a dot-free key with an accepted meta reads back and is announced, and every other key reads as before, unless the block inherits an already-passed expiry from the old meta. |
| `CacheService.ExpiredMetaIsNoOp` | addon/services/cache.js:348-355 | For a key without dots, a meta that has already expired makes `_set` a no-op: nothing stored, nothing announced. |
| `CacheService.NestedSetThenGet` | addon/services/cache.js:379-403 | Setting `root.a.b` over a live block writes inside the old data; the dotted key then reads the value, and the change is announced. |
| `CacheService.NestedSetWithoutBlock` | addon/services/cache.js:379-403 | Setting `root.a.b` with no block under `root` stores the raw value as the whole data of `root`. |
| `CacheService.ClearedFailureSticks` | addon/services/cache.js:243-245 | Once a `_set` of `clear` throws, the rest of the keys are not set. |
| `CacheService.ClearedRemoves` | addon/services/cache.js:233-245 | Clearing dot-free keys removes their physical keys from memory and queues their medium removals, in order. |
| `CacheService.ClearedReadsNull` | addon/services/cache.js:233-245 | After clearing dot-free keys, each reads `null`. |
| `CacheService.MissingReadsNull` | addon/services/cache.js:312-321 | A key with no block reads `null`. |
| `CacheService.Cache.ClearKeys` | addon/services/cache.js:243-245 | `clear`'s loop sets each key to `null` in turn, as `ClearedAll` says. |
| `CacheService.Cache.ClearNext` | addon/services/cache.js:243-245 | One turn of the loop is the next step of `ClearedAll`. |
| `CacheService.Cache.Clear` | addon/services/cache.js:233-245 | With no argument, `clear` sets the live keys to `null`; otherwise it sets the flattened arguments, in order. |
| `Media.Medium.SetItem` | addon/storages/local.js:155-163 | `setItem` stores the text unless the medium refuses it, and reports which. |
| `Media.Medium.RemoveItem` | addon/storages/local.js:187-195 | `removeItem` removes the key unless the medium refuses it, and reports which. |

## Left out

- The Ember observation machinery (`notifyPropertyChange`, observers, `beginPropertyChanges`) is not modelled. The cache's announcements are a log of keys (`Cache.notified`); the storages' own property notifications are not recorded.
- The browser `storage` event listeners, their teardown and `handleStorageEvent` (addon/mixins/storage.js:170-201, addon/storages/local.js:248-258) are host event plumbing.
- The run loop's `schedule('actions', ...)` is a queue of pending medium calls (`Storage.pending`) carried out by `Storage.Flush`. Scheduling itself, and interleaving with other run loops, are not modelled.
- Time (`moment()`, `Date`) is a parameter `now` in epoch milliseconds. A time object is a `Moment(ms)` value.
- `JSON.stringify` and `JSON.parse` are a parameter (`Json`). Round trips are proved for every parameter obeying `JsonLaw`. A failing `stringify`, such as on a cyclic object, is the parameter returning `None`.
- Numbers are integers: fractions, `NaN` and `Infinity` as stored values are not modelled. NaN arising from a comparison with `now` is modelled as `None`.
- Objects are maps, so the order of the properties inside a stored value is not modelled. The order of the storage's own keys is modelled.
- The configuration-only storages (addon/storages/memory.js, session.js, cache.js) are the `namespace`, `durable` and `medium` parameters of `Storage`'s constructor.
- addon/utils/storage-for.js is an owner lookup; the cache receives its storage directly.
- Storage.constructor: requires a dot-free namespace and a medium whose load succeeds. A dotted medium key of the namespace whose root entry is missing throws during `initialContent`; that throw is modelled by `Loaded` returning `None` but not as a constructor outcome.
- Storages.LoadedExactly: states exactly which entries are loaded only when no medium key of the namespace is dotted. Dotted keys write inside an earlier entry, which `Loaded` models but the lemma does not characterize.
- Storages.Storage.Clear: the medium-backed `clear()` deletes the serialization of each logical key. `ClearEmptiesWellFormed` states that memory ends empty only when every content key is its own serialization, and `ClearMissesForeignKey` shows a content key it misses.
- Cache.Set's medium-side effect of a write in place into a nested old block that is then refused or throws is modelled (memory changes, no save is queued). Aliasing between the returned data and the stored block is not modelled.
- A medium's refusals (full quota, disabled storage) are fixed when the medium is made (`accepts`, `removable`), not chosen per call.
- Ember's `get`/`set` on a path through a computed property, a proxy or an Ember array's `objectAt` are not modelled; paths go through plain objects and arrays.
- Expiry.StringToNumber: reads only optionally signed decimal integers. `Number()` also reads fractions, exponents (`"1e3"`), radix prefixes (`"0x10"`, `"0b101"`) and `"Infinity"`, which the model reads as NaN, so a block whose `expire` is such text counts as expired.
- CacheService.FilterByMembers: compares `meta.f` with `v` by structural equality. `_iter` uses `===`, which for objects, arrays and time objects compares identity; modelled values carry no identity.
- The medium's `key(i)` order is whatever the browser gives; the model fixes it to insertion order, with overwrites keeping their place. Only the order of `keys()` depends on it.
- Storages.ClearEmptiesMedium: covers medium keys that are the serialization of their own deserialized key. A medium key such as `ns:a:b` deserializes to the key `ns`, so `clear()` deletes `ns:ns` and `ns:a:b` stays on the medium.
- Values.SetField: a named property that is not an index, `length` included, written on an array, and any property written on a time object, is accepted and dropped. JavaScript keeps such a property, so `get` would read it back, and assigning `length` would truncate or extend the array. Reading `length` is modelled (`Values.LengthField`).
- Values.LengthField: strings are sequences of Unicode characters, while JavaScript's `length`, string indexing and `Object.assign` of a string count UTF-16 code units. A character outside the Basic Multilingual Plane counts once here and twice in JavaScript, in `Values.GetField` and in `Expiry.Characters` alike.
- Storages.ReadAfterAssign, CacheService.SetThenGet: reading assumes the key names no own member of the storage or cache object. Ember's `get` reaches `unknownProperty` only for a missing property, so after `set('keys', 1)` or a set of `clear`, `filter`, `storage`, `namespace`, `content` or `adapter`, `get` returns the member, not the value set. `set` is overridden, so the write itself is modelled.
