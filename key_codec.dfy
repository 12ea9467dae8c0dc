/** The storage's key codec: a logical key becomes the physical key
    `"<namespace>:<key>"`, and a physical key is split back on `':'`. */
module KeyCodec {
  import opened Strings

  const Separator: char := ':'

  /** `isKeySerialized`: splitting on the separator gives more than one
      piece, that is, the key already holds a separator. */
  function IsKeySerialized(key: string): (b: bool)
    ensures b <==> Separator in key
  {
    |Split(key, Separator)| > 1
  }

  /** `serializeKey`: a key holding a separator is taken as already
      namespaced and returned as it is; any other key gets the namespace and
      the separator in front. Either way the result holds a separator. */
  function SerializeKey(namespace: string, key: string): (r: string)
    ensures Separator in key ==> r == key
    ensures Separator !in key ==> r == namespace + [Separator] + key
    ensures Separator in r
  {
    if IsKeySerialized(key) then key
    else
      assert (namespace + [Separator] + key)[|namespace|] == Separator;
      namespace + [Separator] + key
  }

  /** The `{namespace, key}` record `deserializeKey` returns. */
  datatype KeyData = KeyData(namespace: string, key: string)

  /** `deserializeKey`: with no separator the namespace is empty and the key
      is the whole string; with exactly one it is (before, after); with two
      or more both fields are the first piece. */
  function DeserializeKey(serialized: string): (r: KeyData)
    ensures Separator !in serialized ==> r == KeyData("", serialized)
  {
    var parts := Split(serialized, Separator);
    var namespace := if |parts| == 1 then "" else parts[0];
    var key := if |parts| == 2 then parts[1] else parts[0];
    KeyData(namespace, key)
  }

  /** A key with exactly one separator splits into the text before and the
      text after it. */
  lemma DeserializeOneSeparator(before: string, after: string)
    requires Separator !in before && Separator !in after
    ensures DeserializeKey(before + [Separator] + after) == KeyData(before, after)
  {
    SplitPrefix(before, after, Separator);
  }

  /** A key with two or more separators yields its first piece as both the
      namespace and the key: `"ns:a:b"` gives `{namespace: "ns", key: "ns"}`. */
  lemma DeserializeManySeparators(before: string, after: string)
    requires Separator !in before && Separator in after
    ensures DeserializeKey(before + [Separator] + after) == KeyData(before, before)
  {
    SplitPrefix(before, after, Separator);
  }

  /** Serializing a key that is already serialized changes nothing, so a
      caller may serialize before handing a key to a setter that serializes
      again. */
  lemma SerializeKeyIdempotent(namespace: string, key: string)
    ensures SerializeKey(namespace, SerializeKey(namespace, key)) == SerializeKey(namespace, key)
  {
  }

  /** A character other than the separator that neither the namespace nor
      the key holds does not appear in the serialized key. */
  lemma SerializeKeyAvoids(namespace: string, key: string, c: char)
    ensures c != Separator && c !in namespace && c !in key ==> c !in SerializeKey(namespace, key)
  {
    if Separator !in key {
      var r := namespace + [Separator] + key;
      assert forall i :: 0 <= i < |r| ==> r[i] == if i < |namespace| then namespace[i] else if i == |namespace| then Separator else key[i - |namespace| - 1];
    }
  }

  /** For a namespace and a key both free of separators, deserializing the
      serialized key gives both back. */
  lemma KeyRoundTrip(namespace: string, key: string)
    requires Separator !in namespace && Separator !in key
    ensures DeserializeKey(SerializeKey(namespace, key)) == KeyData(namespace, key)
  {
    DeserializeOneSeparator(namespace, key);
  }

  /** Storages with different namespaces never share a physical key for
      the same separator-free logical key. */
  lemma NamespacesIsolate(ns1: string, ns2: string, key: string)
    requires Separator !in ns1 && Separator !in ns2 && Separator !in key
    requires ns1 != ns2
    ensures SerializeKey(ns1, key) != SerializeKey(ns2, key)
    ensures DeserializeKey(SerializeKey(ns1, key)).namespace == ns1
  {
    KeyRoundTrip(ns1, key);
    KeyRoundTrip(ns2, key);
  }

  /** A key that already holds a separator is never namespaced, whatever
      the storage's namespace: `"user:wow"` stays `"user:wow"`. */
  lemma ForeignKeyKeepsItsNamespace(namespace: string, before: string, after: string)
    requires Separator !in before && Separator !in after
    ensures SerializeKey(namespace, before + [Separator] + after) == before + [Separator] + after
    ensures DeserializeKey(SerializeKey(namespace, before + [Separator] + after)).namespace == before
  {
    assert (before + [Separator] + after)[|before|] == Separator;
    DeserializeOneSeparator(before, after);
  }
}
