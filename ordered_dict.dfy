/**
 * A Python dict as the scripts use it: `d[k] = v`, `d.items()` and `d == {}`.
 * Keys keep their insertion order; assigning to an existing key replaces its
 * value and leaves it where it was.
 */
module OrderedDict {

  datatype Dict<K(==,!new), V> = Dict(keys: seq<K>, values: map<K, V>)
  {
    /** Every key listed once, and exactly the keys of the map listed. */
    ghost predicate Valid()
    {
      && (forall i, j :: 0 <= i < j < |keys| ==> keys[i] != keys[j])
      && (forall k :: k in values <==> k in keys)
    }

    /** `d == {}`. */
    predicate IsEmpty()
    {
      keys == []
    }

    /** `d[k] = v`. */
    function Put(k: K, v: V): (d: Dict<K, V>)
      requires Valid()
      ensures d.Valid()
      ensures k in d.values && d.values[k] == v && !d.IsEmpty()
      ensures forall x :: x != k ==> (x in d.values <==> x in values)
      ensures forall x :: x != k && x in values ==> d.values[x] == values[x]
      ensures |keys| <= |d.keys| <= |keys| + 1 && d.keys[..|keys|] == keys
      ensures k in values ==> d.keys == keys
    {
      if k in values then Dict(keys, values[k := v])
      else Dict(keys + [k], values[k := v])
    }

    /** Assigning to a key already present only replaces its value. */
    lemma PutExisting(k: K, v: V)
      requires Valid() && k in values
      ensures Put(k, v) == Dict(keys, values[k := v])
    {
    }

    /** Assigning to a new key appends it, and its pair, at the end. */
    lemma PutNew(k: K, v: V)
      requires Valid() && k !in values
      ensures Put(k, v).keys == keys + [k]
      ensures Put(k, v).Items() == Items() + [(k, v)]
    {
      var d := Put(k, v);
      forall i | 0 <= i < |keys| ensures d.Items()[i] == Items()[i] {
        assert keys[i] in values;
      }
    }

    /** `list(d.items())`: the pairs in key insertion order. */
    function Items(): (r: seq<(K, V)>)
      requires Valid()
      ensures |r| == |keys|
      ensures forall i :: 0 <= i < |r| ==> r[i].0 == keys[i] && r[i].1 == values[keys[i]]
    {
      seq(|keys|, i requires 0 <= i < |keys| => (keys[i], values[keys[i]]))
    }
  }

  /** `{}`. */
  function Empty<K(==,!new), V>(): (d: Dict<K, V>)
    ensures d.Valid() && d.IsEmpty()
  {
    Dict([], map[])
  }
}
