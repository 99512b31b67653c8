/** Python dictionaries as the generator uses them: key/value pairs kept in
    insertion order, each key at most once. Assigning to an existing key
    replaces its value in place; assigning to a new key appends it. */
module OrderedMaps {

  import opened Wrappers

  function Keys<K, V>(m: seq<(K, V)>): (ks: seq<K>)
    ensures |ks| == |m|
    ensures forall i :: 0 <= i < |m| ==> ks[i] == m[i].0
  {
    seq(|m|, i requires 0 <= i < |m| => m[i].0)
  }

  /** `dict.values()`, in insertion order. */
  function Values<K, V>(m: seq<(K, V)>): (vs: seq<V>)
    ensures |vs| == |m|
    ensures forall i :: 0 <= i < |m| ==> vs[i] == m[i].1
  {
    seq(|m|, i requires 0 <= i < |m| => m[i].1)
  }

  /** No key occurs twice: the representation invariant of a dictionary. */
  predicate DistinctKeys<K(==), V>(m: seq<(K, V)>) {
    forall i, j :: 0 <= i < j < |m| ==> m[i].0 != m[j].0
  }

  /** Position of the first entry stored under `k`. */
  function IndexOf<K(==), V>(m: seq<(K, V)>, k: K): (i: nat)
    requires k in Keys(m)
    ensures i < |m| && m[i].0 == k
    ensures forall j :: 0 <= j < i ==> m[j].0 != k
    decreases |m|
  {
    if m[0].0 == k then 0
    else
      assert Keys(m) == [m[0].0] + Keys(m[1..]);
      1 + IndexOf(m[1..], k)
  }

  /** Two first positions of the same key coincide. */
  lemma {:induction false} FirstIndexUnique<K, V>(m: seq<(K, V)>, k: K, i: nat, j: nat)
    requires i < |m| && m[i].0 == k && forall x :: 0 <= x < i ==> m[x].0 != k
    requires j < |m| && m[j].0 == k && forall x :: 0 <= x < j ==> m[x].0 != k
    ensures i == j
  {
  }

  /** `d.get(k)`: the value stored under `k`, if any. */
  function Get<K(==), V>(m: seq<(K, V)>, k: K): (r: Option<V>)
    ensures r.None? <==> k !in Keys(m)
    ensures r.Some? ==> (k, r.value) in m
  {
    if k in Keys(m) then Some(m[IndexOf(m, k)].1) else None
  }

  /** In a dictionary, each entry is what its key looks up. */
  lemma {:induction false} GetEntry<K, V>(m: seq<(K, V)>, i: nat)
    requires DistinctKeys(m)
    requires i < |m|
    ensures Get(m, m[i].0) == Some(m[i].1)
  {
    assert Keys(m)[i] == m[i].0;
  }

  /** `d[k] = v`: replaces the value in place when `k` is present, appends otherwise. */
  function Put<K(==), V>(m: seq<(K, V)>, k: K, v: V): (r: seq<(K, V)>)
    ensures k in Keys(m) ==> Keys(r) == Keys(m)
    ensures k !in Keys(m) ==> Keys(r) == Keys(m) + [k]
    ensures forall i :: 0 <= i < |m| && m[i].0 != k ==> r[i] == m[i]
  {
    if k in Keys(m) then
      var r := m[IndexOf(m, k) := (k, v)];
      assert Keys(r) == Keys(m);
      r
    else
      var r := m + [(k, v)];
      assert Keys(r) == Keys(m) + [k];
      r
  }

  /** After `d[k] = v`, `d[k]` is `v` and every other key reads as before. */
  lemma {:induction false} PutGet<K, V>(m: seq<(K, V)>, k: K, v: V, k': K)
    ensures Get(Put(m, k, v), k') == if k' == k then Some(v) else Get(m, k')
  {
    var r := Put(m, k, v);
    if k' in Keys(m) {
      assert k' in Keys(r);
      FirstIndexUnique(r, k', IndexOf(r, k'), IndexOf(m, k'));
    } else if k' == k {
      assert Keys(r)[|m|] == k;
    }
  }

  /** Assigning a key that no later entry repeats appends it. */
  lemma {:induction false} PutFresh<K, V>(m: seq<(K, V)>, k: K, v: V, rest: seq<(K, V)>)
    requires DistinctKeys(m + [(k, v)] + rest)
    ensures Put(m, k, v) == m + [(k, v)]
  {
    var all := m + [(k, v)] + rest;
    assert all[|m|] == (k, v);
    forall j | 0 <= j < |m| ensures Keys(m)[j] != k {
      assert all[j] == m[j];
    }
  }

  /** Assignment keeps the keys distinct. */
  lemma {:induction false} PutDistinct<K, V>(m: seq<(K, V)>, k: K, v: V)
    requires DistinctKeys(m)
    ensures DistinctKeys(Put(m, k, v))
  {
    var r := Put(m, k, v);
    assert forall i :: 0 <= i < |r| ==> r[i].0 == Keys(r)[i];
  }
}
