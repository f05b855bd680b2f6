/** An insertion-ordered map with the semantics of JavaScript's `Map`:
    `set` on a present key replaces its value and keeps its position, `set`
    on a new key appends it, `delete` removes a key and keeps the order of
    the rest, and iteration visits the entries in insertion order. It is an
    association list whose keys are pairwise distinct. */
module OrderedMaps {

  /** `map.has(k)`: `k` is the key of some entry of `m`. */
  predicate Has<K(==), V>(m: seq<(K, V)>, k: K)
    decreases |m|
  {
    m != [] && (m[0].0 == k || Has(m[1..], k))
  }

  /** No key occurs twice. */
  predicate DistinctKeys<K(==), V>(m: seq<(K, V)>)
    decreases |m|
  {
    m == [] || (!Has(m[1..], m[0].0) && DistinctKeys(m[1..]))
  }

  type OrderedMap<K(==), V> = m: seq<(K, V)> | DistinctKeys(m) witness []

  /** `Has` is membership of some index. */
  lemma {:induction false} HasAt<K, V>(m: seq<(K, V)>, k: K)
    ensures Has(m, k) <==> exists i :: 0 <= i < |m| && m[i].0 == k
    decreases |m|
  {
    if m != [] {
      HasAt(m[1..], k);
      if Has(m[1..], k) {
        var i :| 0 <= i < |m[1..]| && m[1..][i].0 == k;
        assert m[i + 1].0 == k;
      }
      if i :| 0 < i < |m| && m[i].0 == k {
        assert m[1..][i - 1].0 == k;
      }
    }
  }

  /** Distinct keys means no two positions share a key. */
  lemma {:induction false} DistinctKeysAt<K, V>(m: seq<(K, V)>, i: nat, j: nat)
    requires DistinctKeys(m) && i < j < |m|
    ensures m[i].0 != m[j].0
    decreases |m|
  {
    if i == 0 {
      HasAt(m[1..], m[0].0);
      assert m[1..][j - 1] == m[j];
    } else {
      DistinctKeysAt(m[1..], i - 1, j - 1);
    }
  }

  /** `map.get(k)`: the value stored under `k`. */
  function Get<K(==), V>(m: OrderedMap<K, V>, k: K): (v: V)
    requires Has(m, k)
    ensures (k, v) in m
    decreases |m|
  {
    if m[0].0 == k then m[0].1 else Get(m[1..], k)
  }

  /** In a map, the value at a position is what `Get` returns for its key. */
  lemma {:induction false} GetAt<K, V>(m: OrderedMap<K, V>, i: nat)
    requires i < |m|
    ensures Has(m, m[i].0) && Get(m, m[i].0) == m[i].1
    decreases |m|
  {
    HasAt(m, m[i].0);
    if i > 0 {
      DistinctKeysAt(m, 0, i);
      GetAt(m[1..], i - 1);
    }
  }

  /** `map.set(k, v)`: a present key keeps its position and gets the new
      value; a new key goes at the end (see `SetGet` and `SetPositions`). */
  function Set<K(==,!new), V>(m: OrderedMap<K, V>, k: K, v: V): (r: OrderedMap<K, V>)
    ensures forall k' :: Has(r, k') <==> Has(m, k') || k' == k
    decreases |m|
  {
    if m == [] then
      assert [(k, v)][1..] == [];
      [(k, v)]
    else if m[0].0 == k then
      var r := [(k, v)] + m[1..];
      assert r[1..] == m[1..];
      r
    else
      var tail := Set(m[1..], k, v);
      var r := [m[0]] + tail;
      assert r[1..] == tail;
      r
  }

  /** After `map.set(k, v)`, `k` maps to `v` and every other key keeps its
      value. */
  lemma {:induction false} SetGet<K(!new), V>(m: OrderedMap<K, V>, k: K, v: V, k': K)
    requires k' == k || Has(m, k')
    ensures Get(Set(m, k, v), k') == if k' == k then v else Get(m, k')
    decreases |m|
  {
    if m != [] && m[0].0 != k {
      var r := Set(m, k, v);
      assert r[1..] == Set(m[1..], k, v);
      if m[0].0 != k' {
        SetGet(m[1..], k, v, k');
      }
    }
  }

  /** `map.set(k, v)` keeps every key at its position and puts a new key
      last. */
  lemma {:induction false} SetPositions<K(!new), V>(m: OrderedMap<K, V>, k: K, v: V)
    ensures |Set(m, k, v)| == if Has(m, k) then |m| else |m| + 1
    ensures forall i :: 0 <= i < |m| ==> Set(m, k, v)[i].0 == m[i].0
    ensures !Has(m, k) ==> Set(m, k, v)[|m|].0 == k
    decreases |m|
  {
    if m != [] && m[0].0 != k {
      SetPositions(m[1..], k, v);
      var r := Set(m, k, v);
      assert r[1..] == Set(m[1..], k, v);
      forall i | 0 < i < |m| ensures r[i].0 == m[i].0 {
        assert r[i] == r[1..][i - 1];
      }
    }
  }

  /** The entries of `m` whose key is not in `ks`, in their order in `m`. */
  function Without<K(==,!new), V>(m: OrderedMap<K, V>, ks: set<K>): (r: OrderedMap<K, V>)
    ensures forall k :: Has(r, k) <==> Has(m, k) && k !in ks
    decreases |m|
  {
    if m == [] then []
    else
      var tail := Without(m[1..], ks);
      if m[0].0 in ks then tail
      else
        var r := [m[0]] + tail;
        assert r[1..] == tail;
        r
  }

  /** `Without` keeps the values of the keys it keeps. */
  lemma {:induction false} WithoutGet<K(!new), V>(m: OrderedMap<K, V>, ks: set<K>, k: K)
    requires Has(Without(m, ks), k)
    ensures Get(Without(m, ks), k) == Get(m, k)
    decreases |m|
  {
    var tail := Without(m[1..], ks);
    if m[0].0 in ks {
      WithoutGet(m[1..], ks, k);
    } else if m[0].0 != k {
      var r := Without(m, ks);
      assert r[1..] == tail;
      WithoutGet(m[1..], ks, k);
    }
  }

  /** `map.delete(k)`. */
  function Delete<K(==,!new), V>(m: OrderedMap<K, V>, k: K): (r: OrderedMap<K, V>)
    ensures !Has(r, k)
    ensures forall k' :: k' != k ==> (Has(r, k') <==> Has(m, k'))
  {
    Without(m, {k})
  }

  /** `map.delete(k)` keeps the values of the other keys. */
  lemma {:induction false} DeleteGet<K(!new), V>(m: OrderedMap<K, V>, k: K, k': K)
    requires k' != k && Has(m, k')
    ensures Get(Delete(m, k), k') == Get(m, k')
  {
    WithoutGet(m, {k}, k');
  }

  /** The set of keys of `m`; it has one element per entry. */
  ghost function KeySet<K(!new), V>(m: OrderedMap<K, V>): (ks: set<K>)
    ensures forall k :: k in ks <==> Has(m, k)
    ensures |ks| == |m|
    decreases |m|
  {
    if m == [] then {} else {m[0].0} + KeySet(m[1..])
  }

  /** Removing keys in two steps removes their union. */
  lemma {:induction false} WithoutWithout<K(!new), V>(m: OrderedMap<K, V>, a: set<K>, b: set<K>)
    ensures Without(Without(m, a), b) == Without(m, a + b)
    decreases |m|
  {
    if m != [] {
      WithoutWithout(m[1..], a, b);
      if m[0].0 !in a {
        var r := Without(m, a);
        assert r[1..] == Without(m[1..], a);
      }
    }
  }

  /** Removing keys that are not present changes nothing. */
  lemma {:induction false} WithoutAbsent<K(!new), V>(m: OrderedMap<K, V>, ks: set<K>)
    requires forall k :: k in ks ==> !Has(m, k)
    ensures Without(m, ks) == m
    decreases |m|
  {
    if m != [] {
      WithoutAbsent(m[1..], ks);
      assert m == [m[0]] + m[1..];
    }
  }

  /** The keys of `m` are strictly increasing under `rank`. */
  ghost predicate IncreasingBy<K, V>(m: seq<(K, V)>, rank: K -> int) {
    forall p, q :: 0 <= p < q < |m| ==> rank(m[p].0) < rank(m[q].0)
  }

  /** In an increasing map, the first key ranks below every later key. */
  lemma {:induction false} FirstRanksLowest<K, V>(m: seq<(K, V)>, rank: K -> int, k: K)
    requires m != [] && IncreasingBy(m, rank) && Has(m[1..], k)
    ensures rank(m[0].0) < rank(k)
  {
    HasAt(m[1..], k);
    var j :| 0 <= j < |m[1..]| && m[1..][j].0 == k;
    assert m[1..][j] == m[j + 1];
  }

  /** `Without` keeps the relative order of the entries it keeps. */
  lemma {:induction false} WithoutKeepsOrder<K(!new), V>(m: OrderedMap<K, V>, ks: set<K>, rank: K -> int)
    requires IncreasingBy(m, rank)
    ensures IncreasingBy(Without(m, ks), rank)
    decreases |m|
  {
    if m != [] {
      var rest := m[1..];
      assert IncreasingBy(rest, rank) by {
        forall p, q | 0 <= p < q < |rest| ensures rank(rest[p].0) < rank(rest[q].0) {
          assert rest[p] == m[p + 1] && rest[q] == m[q + 1];
        }
      }
      WithoutKeepsOrder(rest, ks, rank);
      var tail := Without(rest, ks);
      if m[0].0 !in ks {
        var r := [m[0]] + tail;
        assert r[1..] == tail;
        forall p, q | 0 <= p < q < |r| ensures rank(r[p].0) < rank(r[q].0) {
          HasAt(tail, r[q].0);
          if p == 0 {
            FirstRanksLowest(m, rank, r[q].0);
          }
        }
      }
    }
  }
}
