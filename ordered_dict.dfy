/** A Python `dict`: a map that remembers the order in which its keys were first inserted.
    Assigning to a key that is present replaces its value and keeps its position. */
module OrderedDict {

  datatype Dict<K(!new), V> = Dict(keys: seq<K>, entries: map<K, V>) {

    /** The keys, in insertion order, are exactly the keys of the map, each once. */
    ghost predicate Valid() {
      (forall k :: k in entries <==> k in keys) &&
      (forall i, j :: 0 <= i < j < |keys| ==> keys[i] != keys[j])
    }

    /** `d[k] = v`: a new key goes to the end of the order, a present one keeps its place. */
    function Put(k: K, v: V): Dict<K, V> {
      if k in entries then Dict(keys, entries[k := v]) else Dict(keys + [k], entries[k := v])
    }

    /** `d.values()`, in key order. */
    function Values(): (vs: seq<V>)
      requires Valid()
      ensures |vs| == |keys|
      ensures forall i :: 0 <= i < |keys| ==> vs[i] == entries[keys[i]]
    {
      seq(|keys|, i requires 0 <= i < |keys| => entries[keys[i]])
    }
  }

  /** Assignment keeps the dictionary well formed, maps `k` to `v`, leaves every other key as
      it was, and adds `k` to the order exactly when it was absent. */
  lemma {:induction false} PutValid<K(!new), V>(d: Dict<K, V>, k: K, v: V)
    requires d.Valid()
    ensures d.Put(k, v).Valid()
    ensures k in d.Put(k, v).entries && d.Put(k, v).entries[k] == v
    ensures forall j :: j in d.entries && j != k ==> j in d.Put(k, v).entries && d.Put(k, v).entries[j] == d.entries[j]
    ensures d.Put(k, v).entries.Keys == d.entries.Keys + {k}
    ensures d.keys <= d.Put(k, v).keys
    ensures |d.Put(k, v).keys| == if k in d.entries then |d.keys| else |d.keys| + 1
  {
  }

  /** `{}`. */
  function Empty<K(!new), V>(): (d: Dict<K, V>)
    ensures d.Valid() && d.keys == [] && d.entries == map[]
  {
    Dict([], map[])
  }
}
