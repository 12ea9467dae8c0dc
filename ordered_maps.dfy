/** A string-keyed map that remembers the order its keys were first added
    in, as a JavaScript object does for its (non-numeric) keys: a new key
    goes last, overwriting a key keeps its place, deleting a key closes the
    gap. The durable medium's `key(i)` order is the browser's choice; the
    model fixes it to this one. */
module OrderedMaps {
  import opened Wrappers

  /** `s` without any occurrence of `k`, the rest in order. */
  function Without(s: seq<string>, k: string): (r: seq<string>)
    ensures forall x :: x in r <==> x in s && x != k
    ensures |r| <= |s|
    ensures k !in s ==> r == s
  {
    if s == [] then []
    else if s[0] == k then Without(s[1..], k)
    else [s[0]] + Without(s[1..], k)
  }

  /** Removing from a sequence without repetitions leaves one without. */
  lemma {:induction false} WithoutDistinct(s: seq<string>, k: string)
    ensures Distinct(s) ==> Distinct(Without(s, k))
  {
    if s != [] && Distinct(s) {
      assert Distinct(s[1..]) by {
        forall i, j | 0 <= i < j < |s| - 1 ensures s[1..][i] != s[1..][j] {
          assert s[1..][i] == s[i + 1] && s[1..][j] == s[j + 1];
        }
      }
      WithoutDistinct(s[1..], k);
      if s[0] != k {
        assert s[0] !in s[1..] by {
          forall j | 0 <= j < |s| - 1 ensures s[1..][j] != s[0] {
            assert s[1..][j] == s[j + 1];
          }
        }
        var w := Without(s[1..], k);
        assert Without(s, k) == [s[0]] + w;
        forall i, j | 0 <= i < j < |w| + 1 ensures ([s[0]] + w)[i] != ([s[0]] + w)[j] {
          if i > 0 {
            assert ([s[0]] + w)[i] == w[i - 1] && ([s[0]] + w)[j] == w[j - 1];
          } else {
            assert ([s[0]] + w)[j] == w[j - 1] && w[j - 1] in w;
          }
        }
      }
    }
  }

  ghost predicate Distinct(s: seq<string>) {
    forall i, j :: 0 <= i < j < |s| ==> s[i] != s[j]
  }

  /** In a sequence without repetitions, no element occurs before its own
      position. */
  lemma DistinctPrefixExcludes(s: seq<string>, n: nat)
    requires Distinct(s) && 0 < n <= |s|
    ensures s[n - 1] !in s[..n - 1]
  {
    var prefix := s[..n - 1];
    forall i | 0 <= i < |prefix| ensures prefix[i] != s[n - 1] {
      assert prefix[i] == s[i];
    }
  }

  datatype OMap<V> = OMap(order: seq<string>, entries: map<string, V>) {

    /** Every key listed once, and the listed keys are exactly the keys. */
    ghost predicate Valid() {
      Distinct(order) && forall k :: k in entries <==> k in order
    }

    function Get(k: string): Option<V> {
      if k in entries then Some(entries[k]) else None
    }

    /** `obj[k] = v`: afterwards `k` holds `v` and nothing else changed; an
        existing key keeps its position, a new one is appended. */
    function Put(k: string, v: V): (r: OMap<V>)
      ensures r.Get(k) == Some(v)
      ensures forall j :: j != k ==> r.Get(j) == Get(j)
      ensures k in entries ==> r.order == order
      ensures k !in entries ==> r.order == order + [k]
      ensures Valid() ==> r.Valid()
    {
      if k in entries then OMap(order, entries[k := v])
      else OMap(order + [k], entries[k := v])
    }

    /** `delete obj[k]`: afterwards `k` is absent, nothing else changed, and
        the remaining keys keep their relative order. */
    function Remove(k: string): (r: OMap<V>)
      ensures r.Get(k) == None
      ensures forall j :: j != k ==> r.Get(j) == Get(j)
      ensures r.order == Without(order, k)
      ensures Valid() ==> r.Valid()
    {
      WithoutDistinct(order, k);
      OMap(Without(order, k), entries - {k})
    }
  }

  /** An object with no keys. */
  function Empty<V>(): (r: OMap<V>)
    ensures r.Valid() && r.order == [] && forall k :: r.Get(k) == None
  {
    OMap([], map[])
  }

  /** In a valid map, the keys are as many as the listed positions. */
  lemma {:induction false} SizeIsLength<V>(m: OMap<V>)
    requires m.Valid()
    ensures |m.entries| == |m.order|
    decreases |m.order|
  {
    if m.order != [] {
      var k := m.order[|m.order| - 1];
      var rest := OMap(m.order[..|m.order| - 1], m.entries - {k});
      DropLast(m);
      SizeIsLength(rest);
      assert |m.entries.Keys| == |rest.entries.Keys| + 1;
    }
  }

  /** Dropping the last listed key of a valid map leaves a valid map with
      one key fewer. */
  lemma DropLast<V>(m: OMap<V>)
    requires m.Valid() && m.order != []
    ensures var k := m.order[|m.order| - 1];
      var rest := OMap(m.order[..|m.order| - 1], m.entries - {k});
      && rest.Valid() && k !in rest.entries.Keys && m.entries.Keys == rest.entries.Keys + {k}
  {
    var n := |m.order|;
    var k := m.order[n - 1];
    var prefix := m.order[..n - 1];
    DistinctPrefixExcludes(m.order, n);
    assert Distinct(prefix) by {
      forall i, j | 0 <= i < j < |prefix| ensures prefix[i] != prefix[j] {
        assert prefix[i] == m.order[i] && prefix[j] == m.order[j];
      }
    }
    assert forall j :: j in m.order <==> j in prefix || j == k by {
      assert m.order == prefix + [k];
    }
  }
}
