/**
  The insertion-ordered dictionary: a value store and an order index kept
  side by side under the same keys. A key's position in the order index is
  assigned when the key is first inserted, is left alone by later updates,
  and is renumbered (never reordered) after every removal.
 */
module OrderedDictionary {
  import opened Wrappers
  import opened FiniteSets

  /** `store` maps each key to its value, `indices` maps each key to its position. */
  datatype OrderedDict<K, V> = OrderedDict(store: map<K, V>, indices: map<K, int>)

  /** The representation invariant every reachable dictionary keeps: both maps
      have the same keys, and the positions are n distinct integers in [0, n). */
  ghost predicate Valid<K, V>(d: OrderedDict<K, V>)
  {
    && d.store.Keys == d.indices.Keys
    && (forall k :: k in d.indices ==> 0 <= d.indices[k] < |d.indices|)
    && Injective(d.indices)
  }

  /** The freshly constructed dictionary. */
  function Empty<K, V>(): (d: OrderedDict<K, V>)
    ensures Valid(d)
    ensures d.store.Keys == {}
  {
    OrderedDict(map[], map[])
  }

  /** Lookup: the value stored under `k`, if any. In a valid dictionary a key
      reads as present exactly when it holds a position in the order index. */
  function Get<K, V>(d: OrderedDict<K, V>, k: K): (r: Option<V>)
    ensures Valid(d) ==> (r.Some? <==> k in d.indices)
  {
    if k in d.store then Some(d.store[k]) else None
  }

  /** Store `v` under `k`. A new key takes the position equal to the number of
      keys already indexed; a present key keeps its position. */
  function Set<K, V>(d: OrderedDict<K, V>, k: K, v: V): (r: OrderedDict<K, V>)
    ensures Valid(d) ==> Valid(r)
    ensures Get(r, k) == Some(v)
    ensures r.store.Keys == d.store.Keys + {k}
    ensures forall j :: j in d.store && j != k ==> r.store[j] == d.store[j]
    ensures r.indices.Keys == d.indices.Keys + {k}
    ensures forall j :: j in d.indices ==> r.indices[j] == d.indices[j]
    ensures k !in d.indices ==> r.indices[k] == |d.indices|
  {
    if k in d.indices then OrderedDict(d.store[k := v], d.indices)
    else
      assert Valid(d) ==> Valid(OrderedDict(d.store[k := v], d.indices[k := |d.indices|])) by {
        if Valid(d) {
          AppendedPositionKeepsValid(d, k, v);
        }
      }
      OrderedDict(d.store[k := v], d.indices[k := |d.indices|])
  }

  /** A new key given the next position keeps the dictionary valid. */
  lemma AppendedPositionKeepsValid<K, V>(d: OrderedDict<K, V>, k: K, v: V)
    requires Valid(d) && k !in d.indices
    ensures Valid(OrderedDict(d.store[k := v], d.indices[k := |d.indices|]))
  {
    var n := |d.indices|;
    var indices := d.indices[k := n];
    assert indices.Keys == d.indices.Keys + {k};
    assert |indices| == n + 1;
    forall a, b | a in indices && b in indices && indices[a] == indices[b]
      ensures a == b
    {
      if a != k && b != k {
        assert d.indices[a] == d.indices[b];
      }
    }
  }

  /** The number of keys whose position is strictly below that of `k`. */
  function Rank<K>(m: map<K, int>, k: K): nat
    requires k in m
  {
    |Below(m, k)|
  }

  function Below<K>(m: map<K, int>, k: K): set<K>
    requires k in m
  {
    set j | j in m.Keys && m[j] < m[k]
  }

  lemma RankBounded<K>(m: map<K, int>, k: K)
    requires k in m
    ensures Rank(m, k) < |m|
  {
    ProperSubsetCard(Below(m, k), m.Keys);
    MapCard(m);
  }

  lemma RankMonotone<K>(m: map<K, int>, a: K, b: K)
    requires a in m && b in m && m[a] < m[b]
    ensures Rank(m, a) < Rank(m, b)
  {
    assert a in Below(m, b);
    ProperSubsetCard(Below(m, a), Below(m, b));
  }

  /** Renumber the positions to 0..n-1 in ascending order of the old positions.
      The value store is untouched. */
  function Reindex<K, V>(d: OrderedDict<K, V>): (r: OrderedDict<K, V>)
    ensures r.store == d.store
    ensures r.indices.Keys == d.indices.Keys
    ensures forall k :: k in r.indices ==> 0 <= r.indices[k] < |r.indices|
    ensures forall a, b :: a in d.indices && b in d.indices && d.indices[a] < d.indices[b] ==>
              r.indices[a] < r.indices[b]
    ensures Injective(d.indices) ==>
              forall a, b :: a in d.indices && b in d.indices ==>
                (d.indices[a] < d.indices[b] <==> r.indices[a] < r.indices[b])
    ensures Injective(d.indices) ==> Injective(r.indices)
  {
    var r := d.(indices := map k | k in d.indices :: Rank(d.indices, k));
    assert r.indices.Keys == d.indices.Keys;
    forall k | k in r.indices
      ensures 0 <= r.indices[k] < |r.indices|
    {
      RankBounded(d.indices, k);
    }
    forall a, b | a in d.indices && b in d.indices && d.indices[a] < d.indices[b]
      ensures r.indices[a] < r.indices[b]
    {
      RankMonotone(d.indices, a, b);
    }
    r
  }

  /** Delete `k` from both maps, then renumber the survivors. */
  function Remove<K, V>(d: OrderedDict<K, V>, k: K): (r: OrderedDict<K, V>)
    ensures Valid(d) ==> Valid(r)
    ensures Get(r, k) == None
    ensures r.store == d.store - {k}
    ensures r.indices.Keys == d.indices.Keys - {k}
    ensures forall a, b :: a in r.indices && b in r.indices && d.indices[a] < d.indices[b] ==>
              r.indices[a] < r.indices[b]
  {
    var dropped := OrderedDict(d.store - {k}, d.indices - {k});
    assert Valid(d) ==> Injective(dropped.indices);
    Reindex(dropped)
  }

  /** The subscript setter: a value stores, `nil` removes. */
  function Assign<K, V>(d: OrderedDict<K, V>, k: K, v: Option<V>): (r: OrderedDict<K, V>)
    ensures Valid(d) ==> Valid(r)
    ensures Get(r, k) == v
    ensures r.store.Keys - {k} == d.store.Keys - {k}
    ensures forall j :: j in d.store && j != k ==> j in r.store && r.store[j] == d.store[j]
  {
    match v
    case Some(value) => Set(d, k, value)
    case None => Remove(d, k)
  }

  /** In a valid dictionary the positions are exactly 0..n-1. */
  lemma PositionsAreExactlyRange<K, V>(d: OrderedDict<K, V>)
    requires Valid(d)
    ensures d.indices.Values == Range(|d.indices|)
    ensures |d.store| == |d.indices|
  {
    InjectiveIntoRangeIsOnto(d.indices);
    MapCard(d.store);
    MapCard(d.indices);
  }

  /** The key sitting at position `i`. */
  function KeyAt<K, V>(d: OrderedDict<K, V>, i: int): (k: K)
    requires Valid(d) && 0 <= i < |d.indices|
    ensures k in d.indices && d.indices[k] == i
  {
    PositionsAreExactlyRange(d);
    assert i in d.indices.Values;
    var k :| k in d.indices && d.indices[k] == i;
    k
  }

  /** The keys in insertion order: the i-th element is the key at position i. */
  function KeysByPosition<K, V>(d: OrderedDict<K, V>): (ks: seq<K>)
    requires Valid(d)
    ensures |ks| == |d.indices|
    ensures forall i :: 0 <= i < |ks| ==> ks[i] in d.indices && d.indices[ks[i]] == i
  {
    seq(|d.indices|, i requires 0 <= i < |d.indices| && Valid(d) => KeyAt(d, i))
  }

  /** The values in insertion order, aligned with `KeysByPosition`. */
  function ValuesByPosition<K, V>(d: OrderedDict<K, V>): (vs: seq<V>)
    requires Valid(d)
    ensures |vs| == |KeysByPosition(d)|
    ensures forall i :: 0 <= i < |vs| ==> Get(d, KeysByPosition(d)[i]) == Some(vs[i])
  {
    var ks := KeysByPosition(d);
    seq(|ks|, i requires 0 <= i < |ks| && Valid(d) => d.store[ks[i]])
  }
}
