/** Python's insertion-ordered `dict`, as the sequence of its (key, value)
    pairs in insertion order. Only the two operations the natal chart uses
    are modelled: the subscript assignment `d[k] = v` and the lookup
    `d[k]` / `d.get(k)`. */
module PyDict {
  import opened Exceptions

  type Dict<K, V> = seq<(K, V)>

  /** The keys in insertion order, as `list(d)` gives them. */
  function Keys<K, V>(d: Dict<K, V>): (ks: seq<K>)
    ensures |ks| == |d|
    ensures forall i :: 0 <= i < |d| ==> ks[i] == d[i].0
  {
    seq(|d|, i requires 0 <= i < |d| => d[i].0)
  }

  /** No key occurs twice, which every dict guarantees. */
  predicate DistinctKeys<K(==), V>(d: Dict<K, V>) {
    forall i, j :: 0 <= i < j < |d| ==> d[i].0 != d[j].0
  }

  /** Where key `k` stands: the first pair that carries it. */
  function IndexOf<K(==), V>(d: Dict<K, V>, k: K): (i: nat)
    requires k in Keys(d)
    ensures i < |d| && d[i].0 == k
    ensures forall j :: 0 <= j < i ==> d[j].0 != k
  {
    if d[0].0 == k then 0
    else
      assert Keys(d) == [d[0].0] + Keys(d[1..]);
      1 + IndexOf(d[1..], k)
  }

  /** `d.get(k)`: the value stored under `k`, if any; absent exactly when
      `k` is not a key, and otherwise a value paired with `k` in `d`. */
  function Get<K(==), V>(d: Dict<K, V>, k: K): (r: Option<V>)
    ensures r.None? <==> k !in Keys(d)
    ensures r.Some? ==> (k, r.value) in d
  {
    if k in Keys(d) then Some(d[IndexOf(d, k)].1) else None
  }

  /** `d[k] = v`: replaces the value of an existing key where it stands,
      and appends a new key at the end. */
  function Put<K(==), V>(d: Dict<K, V>, k: K, v: V): (r: Dict<K, V>)
    ensures |r| == if k in Keys(d) then |d| else |d| + 1
    ensures k !in Keys(d) ==> r == d + [(k, v)]
  {
    if k in Keys(d) then d[IndexOf(d, k) := (k, v)] else d + [(k, v)]
  }

  /** The first position of a key is the one with no earlier occurrence. */
  lemma {:induction false} IndexOfIsFirst<K, V>(d: Dict<K, V>, k: K, i: nat)
    requires i < |d| && d[i].0 == k
    requires forall j :: 0 <= j < i ==> d[j].0 != k
    ensures k in Keys(d) && IndexOf(d, k) == i
  {
    assert Keys(d)[i] == k;
    if i > 0 {
      assert Keys(d) == [d[0].0] + Keys(d[1..]);
      assert d[1..][i - 1] == d[i];
      IndexOfIsFirst(d[1..], k, i - 1);
    }
  }

  /** The laws of subscript assignment: the key list grows only by a new
      key, the key now maps to the new value, and every other key keeps
      its value (or its absence). */
  lemma PutLaws<K, V>(d: Dict<K, V>, k: K, v: V)
    ensures Keys(Put(d, k, v)) == if k in Keys(d) then Keys(d) else Keys(d) + [k]
    ensures Get(Put(d, k, v), k) == Some(v)
    ensures forall k' :: k' != k ==> Get(Put(d, k, v), k') == Get(d, k')
  {
    var r := Put(d, k, v);
    if k in Keys(d) {
      var i := IndexOf(d, k);
      IndexOfIsFirst(r, k, i);
    } else {
      IndexOfIsFirst(r, k, |d|);
    }
    forall k' | k' != k
      ensures Get(r, k') == Get(d, k')
    {
      if k' in Keys(d) {
        var j := IndexOf(d, k');
        IndexOfIsFirst(r, k', j);
      }
      assert k' in Keys(r) <==> k' in Keys(d);
    }
  }

  /** In a dict with distinct keys, looking up the key of the i-th pair
      gives the i-th value. */
  lemma {:induction false} GetAt<K, V>(d: Dict<K, V>, i: nat)
    requires DistinctKeys(d)
    requires i < |d|
    ensures Get(d, d[i].0) == Some(d[i].1)
  {
    if i > 0 {
      assert d[0].0 != d[i].0;
      assert d[1..][i - 1] == d[i];
      GetAt(d[1..], i - 1);
    }
  }
}
