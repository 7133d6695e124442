/** Ruby's Hash: a dictionary that remembers the order in which its keys were
    first stored, and is enumerated in that order. */
module RubyHash {

  /** keys holds every key once, in insertion order; values maps each key to
      its current value. */
  datatype Dict<K(==), V> = Dict(keys: seq<K>, values: map<K, V>) {

    ghost predicate Valid()
    {
      && (forall i, j | 0 <= i < j < |keys| :: keys[i] != keys[j])
      && (forall k | k in values :: k in keys)
      && (forall k | k in keys :: k in values)
    }

    /** hash[k] = v: a new key goes to the end of the order; a key already
        present keeps its place and only takes the new value. */
    function Store(k: K, v: V): (d: Dict<K, V>)
      requires Valid()
      ensures d.Valid()
      ensures d.values == values[k := v]
      ensures k in values ==> d.keys == keys
      ensures k !in values ==> d.keys == keys + [k]
    {
      if k in values then Dict(keys, values[k := v]) else Dict(keys + [k], values[k := v])
    }

    predicate IsEmpty()
    {
      |keys| == 0
    }
  }

  /** Storing a key the hash does not hold yet appends it to the order. */
  lemma StoreNewKey<K, V>(d: Dict<K, V>, k: K, v: V)
    requires d.Valid() && forall i | 0 <= i < |d.keys| :: d.keys[i] != k
    ensures d.Store(k, v).keys == d.keys + [k] && d.Store(k, v).values == d.values[k := v]
  {
    assert k !in d.keys;
  }

  /** Hash.new / {} */
  function Empty<K(==), V>(): (d: Dict<K, V>)
    ensures d.Valid() && d.IsEmpty() && d.values == map[]
  {
    Dict([], map[])
  }

  lemma EmptyIffNoKeys<K, V>(d: Dict<K, V>)
    requires d.Valid()
    ensures d.IsEmpty() <==> d.values == map[]
  {
    if !d.IsEmpty() {
      assert d.keys[0] in d.values;
    }
  }
}
