/** A `defaultdict(list)` as the scripts use it: keys in insertion order, each
    with the list of values appended under it. Lookup of an absent key yields
    the empty list, as reading a `defaultdict` does. */
module AssocList {

  datatype Binding<K, V> = Binding(key: K, values: seq<V>)

  /** The position of key `k`, or -1. */
  function KeyIndex<K(==), V>(m: seq<Binding<K, V>>, k: K): (r: int)
    ensures -1 <= r < |m|
    ensures r >= 0 ==> m[r].key == k
  {
    if m == [] then -1
    else if m[|m| - 1].key == k then |m| - 1
    else KeyIndex(m[..|m| - 1], k)
  }

  /** `KeyIndex` finds the last binding of `k`, and finds none exactly when
      no binding carries `k`. */
  lemma {:induction false} KeyIndexLast<K, V>(m: seq<Binding<K, V>>, k: K)
    ensures forall j :: KeyIndex(m, k) < j < |m| ==> m[j].key != k
    ensures KeyIndex(m, k) == -1 <==> forall j :: 0 <= j < |m| ==> m[j].key != k
  {
    if m != [] && m[|m| - 1].key != k {
      var init := m[..|m| - 1];
      KeyIndexLast(init, k);
      assert forall j :: 0 <= j < |init| ==> init[j] == m[j];
    }
  }

  /** `m[k]`: the values stored under `k`, empty for a key never appended. */
  function Lookup<K(==), V>(m: seq<Binding<K, V>>, k: K): seq<V>
  {
    var i := KeyIndex(m, k);
    if i >= 0 then m[i].values else []
  }

  /** `m[k].append(v)`. */
  function Append<K(==), V>(m: seq<Binding<K, V>>, k: K, v: V): seq<Binding<K, V>>
  {
    var i := KeyIndex(m, k);
    if i >= 0 then m[i := Binding(k, m[i].values + [v])] else m + [Binding(k, [v])]
  }

  function Keys<K, V>(m: seq<Binding<K, V>>): (ks: seq<K>)
    ensures |ks| == |m| && forall i :: 0 <= i < |m| ==> ks[i] == m[i].key
  {
    seq(|m|, i requires 0 <= i < |m| => m[i].key)
  }

  predicate DistinctKeys<K(==), V>(m: seq<Binding<K, V>>)
  {
    forall i, j :: 0 <= i < j < |m| ==> m[i].key != m[j].key
  }

  predicate NonEmptyValues<K, V>(m: seq<Binding<K, V>>)
  {
    forall i :: 0 <= i < |m| ==> m[i].values != []
  }

  /** The number of values stored under all keys. */
  function Total<K, V>(m: seq<Binding<K, V>>): nat
  {
    if m == [] then 0 else Total(m[..|m| - 1]) + |m[|m| - 1].values|
  }

  lemma {:induction false} KeyIndexOfKeys<K, V>(m: seq<Binding<K, V>>, n: seq<Binding<K, V>>, k: K)
    requires Keys(m) == Keys(n)
    ensures KeyIndex(m, k) == KeyIndex(n, k)
  {
    if m != [] {
      assert Keys(m[..|m| - 1]) == Keys(n[..|n| - 1]) by {
        forall i | 0 <= i < |m| - 1 ensures m[i].key == n[i].key {
          assert Keys(m)[i] == Keys(n)[i];
        }
      }
      assert m[|m| - 1].key == Keys(n)[|n| - 1];
      KeyIndexOfKeys(m[..|m| - 1], n[..|n| - 1], k);
    }
  }

  /** Appending adds `v` at the end of the list under `k` and leaves every
      other key's list as it was. */
  lemma LookupAppend<K, V>(m: seq<Binding<K, V>>, k: K, v: V, k2: K)
    ensures Lookup(Append(m, k, v), k2) == if k2 == k then Lookup(m, k) + [v] else Lookup(m, k2)
  {
    var i := KeyIndex(m, k);
    var n := Append(m, k, v);
    if i >= 0 {
      assert Keys(n) == Keys(m);
      KeyIndexOfKeys(n, m, k2);
    } else {
      assert n[..|n| - 1] == m;
    }
  }

  /** Looking up in a list with one more binding at its end. */
  lemma LookupSnoc<K, V>(m: seq<Binding<K, V>>, b: Binding<K, V>, k: K)
    ensures Lookup(m + [b], k) == if b.key == k then b.values else Lookup(m, k)
  {
    var n := m + [b];
    assert n[..|n| - 1] == m;
  }

  /** Without its last binding a list with distinct keys still has distinct
      keys, and none of them is the last binding's. */
  lemma DistinctKeysInit<K, V>(m: seq<Binding<K, V>>)
    requires DistinctKeys(m) && m != []
    ensures DistinctKeys(m[..|m| - 1])
    ensures Lookup(m[..|m| - 1], m[|m| - 1].key) == []
  {
    var init := m[..|m| - 1];
    forall j | 0 <= j < |init| ensures init[j].key != m[|m| - 1].key {
      assert init[j] == m[j];
    }
    LookupAbsent(init, m[|m| - 1].key);
  }

  /** A key no binding carries has the empty list. */
  lemma LookupAbsent<K, V>(m: seq<Binding<K, V>>, k: K)
    requires forall j :: 0 <= j < |m| ==> m[j].key != k
    ensures Lookup(m, k) == []
  {
    KeyIndexLast(m, k);
  }

  /** Appending keeps insertion order: an existing key stays where it is, a
      new key goes last. */
  lemma KeysAppend<K, V>(m: seq<Binding<K, V>>, k: K, v: V)
    ensures Keys(Append(m, k, v)) == if k in Keys(m) then Keys(m) else Keys(m) + [k]
  {
    var i := KeyIndex(m, k);
    if i >= 0 {
      assert Keys(m)[i] == k;
    } else {
      KeyIndexLast(m, k);
      assert k !in Keys(m) by {
        forall j | 0 <= j < |m| ensures Keys(m)[j] != k { }
      }
    }
  }

  /** Appending keeps keys distinct and lists non-empty, and stores one more
      value in all. */
  lemma AppendInvariant<K, V>(m: seq<Binding<K, V>>, k: K, v: V)
    requires DistinctKeys(m) && NonEmptyValues(m)
    ensures DistinctKeys(Append(m, k, v)) && NonEmptyValues(Append(m, k, v))
    ensures Total(Append(m, k, v)) == Total(m) + 1
  {
    var i := KeyIndex(m, k);
    var n := Append(m, k, v);
    if i >= 0 {
      TotalUpdate(m, i, Binding(k, m[i].values + [v]));
    } else {
      KeyIndexLast(m, k);
      assert n[..|n| - 1] == m;
    }
  }

  lemma {:induction false} TotalUpdate<K, V>(m: seq<Binding<K, V>>, i: nat, b: Binding<K, V>)
    requires i < |m|
    ensures Total(m[i := b]) == Total(m) - |m[i].values| + |b.values|
  {
    var n := m[i := b];
    if i < |m| - 1 {
      assert n[..|n| - 1] == m[..|m| - 1][i := b];
      TotalUpdate(m[..|m| - 1], i, b);
    } else {
      assert n[..|n| - 1] == m[..|m| - 1];
    }
  }
}
