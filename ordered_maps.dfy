/**
  A JavaScript `Map` with string keys: a finite map together with the order in which
  its keys were first inserted. That order is the one `forEach` and
  `Array.from(map.entries())` follow. `set` on a key that is already present keeps its
  position, `delete` drops it, and a later `set` of the same key appends it again.
 */
module OrderedMaps {
  import opened Sequences

  datatype OrderedMap<V> = OrderedMap(keys: seq<string>, values: map<string, V>)

  /** The keys are listed once each, and exactly the keys of `values` are listed. */
  ghost predicate Valid<V>(m: OrderedMap<V>) {
    Distinct(m.keys) && (forall k :: k in m.values <==> k in m.keys)
  }

  function Empty<V>(): (m: OrderedMap<V>)
    ensures Valid(m) && m.values == map[]
  {
    OrderedMap([], map[])
  }

  /** `m.set(k, v)`. */
  function Set<V>(m: OrderedMap<V>, k: string, v: V): (r: OrderedMap<V>)
    requires Valid(m)
    ensures Valid(r)
    ensures r.values == m.values[k := v]
    // An existing key keeps its position; a new key goes last.
    ensures k in m.values ==> r.keys == m.keys
    ensures k !in m.values ==> r.keys == m.keys + [k]
  {
    if k in m.values then OrderedMap(m.keys, m.values[k := v])
    else OrderedMap(m.keys + [k], m.values[k := v])
  }

  /** Everything but `k`. */
  function Other(k: string): string -> bool {
    x => x != k
  }

  /** `m.delete(k)`. */
  function Delete<V>(m: OrderedMap<V>, k: string): (r: OrderedMap<V>)
    requires Valid(m)
    ensures Valid(r)
    ensures r.values == m.values - {k}
    ensures k !in m.values ==> r == m
    // The other keys keep their relative order.
    ensures r.keys == Filter(m.keys, Other(k))
  {
    DeleteKeys(m, k);
    OrderedMap(Filter(m.keys, Other(k)), m.values - {k})
  }

  lemma DeleteKeys<V>(m: OrderedMap<V>, k: string)
    requires Valid(m)
    ensures Distinct(Filter(m.keys, Other(k)))
    ensures forall x :: x in Filter(m.keys, Other(k)) <==> x in m.keys && x != k
    ensures k !in m.values ==> Filter(m.keys, Other(k)) == m.keys
  {
    forall x ensures x in Filter(m.keys, Other(k)) <==> x in m.keys && x != k {
      FilterMember(m.keys, Other(k), x);
    }
    FilterDistinct(m.keys, Other(k));
    FilterAllOrNone(m.keys, Other(k));
  }

  /** `Array.from(m.entries())`: the key/value pairs in key order. */
  function Entries<V>(m: OrderedMap<V>): (r: seq<(string, V)>)
    requires Valid(m)
    ensures |r| == |m.keys|
    ensures forall i :: 0 <= i < |r| ==> r[i] == (m.keys[i], m.values[m.keys[i]])
  {
    seq(|m.keys|, i requires 0 <= i < |m.keys| => (m.keys[i], m.values[m.keys[i]]))
  }

  /** Two entries have different keys. */
  function DifferentKeys<V>(a: (string, V), b: (string, V)): bool {
    a.0 != b.0
  }

  /** The entries of a valid map have pairwise different keys. */
  lemma EntriesHaveDifferentKeys<V>(m: OrderedMap<V>)
    requires Valid(m)
    ensures Pairwise(Entries(m), DifferentKeys)
  {
    var es := Entries(m);
    forall i, j | 0 <= i < |es| && 0 <= j < |es| && i != j
      ensures DifferentKeys(es[i], es[j])
    {
      if i < j { assert m.keys[i] != m.keys[j]; } else { assert m.keys[j] != m.keys[i]; }
    }
  }

  /** `m.size`, the number of entries, equals the number of listed keys. */
  lemma {:induction false} SizeIsKeyCount<V>(m: OrderedMap<V>)
    requires Valid(m)
    ensures |m.values| == |m.keys|
  {
    var ks := m.keys;
    DistinctCardinality(ks);
    assert m.values.Keys == set x | x in ks;
  }

  lemma {:induction false} DistinctCardinality(s: seq<string>)
    requires Distinct(s)
    ensures |set x | x in s| == |s|
    decreases |s|
  {
    if s != [] {
      var s' := s[..|s| - 1];
      var x := s[|s| - 1];
      assert s == s' + [x];
      DistinctCardinality(s');
      assert (set y | y in s) == (set y | y in s') + {x};
      assert x !in s';
    }
  }

  lemma {:induction false} FilterDistinct(s: seq<string>, p: string -> bool)
    requires Distinct(s)
    ensures Distinct(Filter(s, p))
    decreases |s|
  {
    if s != [] {
      var s' := s[..|s| - 1];
      var x := s[|s| - 1];
      assert s == s' + [x];
      FilterDistinct(s', p);
      FilterMember(s', p, x);
    }
  }
}
