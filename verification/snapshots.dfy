/**
  The ordered snapshots as the dictionary computes them: sort the order index
  by position, then read keys (and values, through the store) off the sorted
  entries. Each is shown to agree with the position-indexed insertion order.
  The sort-and-enumerate renumbering is here too, shown to agree with `Reindex`.
 */
module Snapshots {
  import opened Wrappers
  import opened FiniteSets
  import opened OrderedDictionary
  import opened OrderProperties

  /** `es` lists every entry of `m` exactly once. */
  ghost predicate ListsEntries<K>(es: seq<(K, int)>, m: map<K, int>)
  {
    && (forall i :: 0 <= i < |es| ==> es[i].0 in m && m[es[i].0] == es[i].1)
    && (forall i, j :: 0 <= i < j < |es| ==> es[i].0 != es[j].0)
    && (forall k :: k in m ==> exists i :: 0 <= i < |es| && es[i].0 == k)
  }

  /** `es` is in ascending order of position (ties in either order). */
  ghost predicate AscendingByPosition<K>(es: seq<(K, int)>)
  {
    forall i, j :: 0 <= i < j < |es| ==> es[i].1 <= es[j].1
  }

  /** A key of least position in a non-empty map. */
  lemma {:induction false} MinimumKey<K>(m: map<K, int>) returns (least: K)
    requires m != map[]
    ensures least in m && forall j :: j in m ==> m[least] <= m[j]
    decreases |m.Keys|
  {
    var x :| x in m;
    var rest := m - {x};
    assert rest.Keys == m.Keys - {x};
    if rest == map[] {
      least := x;
      forall j | j in m
        ensures m[x] <= m[j]
      {
        assert j !in rest.Keys;
      }
    } else {
      var y := MinimumKey(rest);
      least := if m[x] < m[y] then x else y;
      forall j | j in m
        ensures m[least] <= m[j]
      {
        if j != x {
          assert j in rest && rest[j] == m[j];
        }
      }
    }
  }

  lemma MinimumExists<K>(m: map<K, int>)
    requires m != map[]
    ensures exists k :: k in m && forall j :: j in m ==> m[k] <= m[j]
  {
    var least := MinimumKey(m);
  }

  /** Midway through sorting `m`: `es` holds the entries taken so far, in
      ascending position and none above what is left; `rest` holds the others. */
  ghost predicate SelectionState<K>(m: map<K, int>, es: seq<(K, int)>, rest: map<K, int>)
  {
    Taken(m, es, rest) && Pending(m, es, rest)
  }

  /** The entries taken so far are entries of `m`, distinct, ascending and no
      longer pending. */
  ghost predicate Taken<K>(m: map<K, int>, es: seq<(K, int)>, rest: map<K, int>)
  {
    && (forall i :: 0 <= i < |es| ==> es[i].0 in m && m[es[i].0] == es[i].1 && es[i].0 !in rest)
    && (forall i, j :: 0 <= i < j < |es| ==> es[i].0 != es[j].0)
    && AscendingByPosition(es)
  }

  /** The pending entries are the rest of `m`, none below an entry already taken. */
  ghost predicate Pending<K>(m: map<K, int>, es: seq<(K, int)>, rest: map<K, int>)
  {
    && rest.Keys <= m.Keys
    && (forall k :: k in rest ==> rest[k] == m[k])
    && (forall k :: k in m ==> k in rest || exists i :: 0 <= i < |es| && es[i].0 == k)
    && (forall i, k :: 0 <= i < |es| && k in rest ==> es[i].1 <= rest[k])
    && |es| + |rest.Keys| == |m.Keys|
  }

  /** Taking an entry of least position from what is left keeps the sort on track. */
  lemma SelectionStep<K>(m: map<K, int>, es: seq<(K, int)>, rest: map<K, int>, k: K)
    requires SelectionState(m, es, rest)
    requires k in rest && forall j :: j in rest ==> rest[k] <= rest[j]
    ensures SelectionState(m, es + [(k, rest[k])], rest - {k})
  {
    TakenStep(m, es, rest, k);
    PendingStep(m, es, rest, k);
  }

  lemma TakenStep<K>(m: map<K, int>, es: seq<(K, int)>, rest: map<K, int>, k: K)
    requires SelectionState(m, es, rest)
    requires k in rest && forall j :: j in rest ==> rest[k] <= rest[j]
    ensures Taken(m, es + [(k, rest[k])], rest - {k})
  {
    var es' := es + [(k, rest[k])];
    assert forall i :: 0 <= i < |es| ==> es'[i] == es[i];
    assert es'[|es|] == (k, rest[k]);
    forall i | 0 <= i < |es'|
      ensures es'[i].0 in m && m[es'[i].0] == es'[i].1 && es'[i].0 !in rest - {k}
    {
    }
    forall i, j | 0 <= i < j < |es'|
      ensures es'[i].0 != es'[j].0 && es'[i].1 <= es'[j].1
    {
    }
  }

  lemma PendingStep<K>(m: map<K, int>, es: seq<(K, int)>, rest: map<K, int>, k: K)
    requires SelectionState(m, es, rest)
    requires k in rest && forall j :: j in rest ==> rest[k] <= rest[j]
    ensures Pending(m, es + [(k, rest[k])], rest - {k})
  {
    var es' := es + [(k, rest[k])];
    var rest' := rest - {k};
    assert rest'.Keys == rest.Keys - {k};
    assert forall i :: 0 <= i < |es| ==> es'[i] == es[i];
    forall key | key in m && key !in rest'
      ensures exists i :: 0 <= i < |es'| && es'[i].0 == key
    {
      if key == k {
        assert es'[|es|].0 == key;
      } else {
        var i :| 0 <= i < |es| && es[i].0 == key;
        assert es'[i] == es[i];
      }
    }
    forall i, key | 0 <= i < |es'| && key in rest'
      ensures es'[i].1 <= rest'[key]
    {
    }
  }

  /** The order index sorted by position: repeatedly take an entry of least
      position from what is left. */
  method OrderedIndices<K, V>(d: OrderedDict<K, V>) returns (es: seq<(K, int)>)
    ensures ListsEntries(es, d.indices)
    ensures AscendingByPosition(es)
    ensures |es| == |d.indices|
  {
    es := [];
    var rest := d.indices;
    MapCard(d.indices);
    while rest != map[]
      invariant SelectionState(d.indices, es, rest)
      decreases |rest.Keys|
    {
      MinimumExists(rest);
      var k :| k in rest && forall j :: j in rest ==> rest[k] <= rest[j];
      SelectionStep(d.indices, es, rest, k);
      es := es + [(k, rest[k])];
      rest := rest - {k};
    }
  }

  /** In a valid dictionary the sorted entries are exactly the keys by position,
      each paired with its own index. */
  lemma SortedEntriesAreKeysByPosition<K, V>(d: OrderedDict<K, V>, es: seq<(K, int)>)
    requires Valid(d)
    requires ListsEntries(es, d.indices) && AscendingByPosition(es) && |es| == |d.indices|
    ensures forall i :: 0 <= i < |es| ==> es[i].0 == KeysByPosition(d)[i] && es[i].1 == i
  {
    var ks := KeysOf(es);
    EntriesStrictlyAscending(d.indices, es);
    AscendingListingFillsRange(d.indices, ks);
    var expected := KeysByPosition(d);
    forall i | 0 <= i < |es|
      ensures es[i].0 == expected[i]
    {
      assert d.indices[ks[i]] == d.indices[expected[i]];
    }
  }

  /** The keys in insertion order, read off the sorted order index. */
  method OrderedKeys<K, V>(d: OrderedDict<K, V>) returns (ks: seq<K>)
    ensures |ks| == |d.indices|
    ensures forall i :: 0 <= i < |ks| ==> ks[i] in d.indices
    ensures forall i, j :: 0 <= i < j < |ks| ==> ks[i] != ks[j] && d.indices[ks[i]] <= d.indices[ks[j]]
    ensures Valid(d) ==> ks == KeysByPosition(d)
  {
    var es := OrderedIndices(d);
    ks := KeysOf(es);
    if Valid(d) {
      SortedEntriesAreKeysByPosition(d, es);
    }
  }

  /** The pairs `compactMap` builds from sorted entries: each key paired with
      its stored value, keys with no stored value skipped. */
  function CompactPairs<K, V>(store: map<K, V>, es: seq<(K, int)>): (ps: seq<(K, V)>)
    ensures |ps| <= |es|
    ensures forall i :: 0 <= i < |ps| ==> ps[i].0 in store && ps[i].1 == store[ps[i].0]
    ensures (forall i :: 0 <= i < |es| ==> es[i].0 in store) ==>
              |ps| == |es| && forall i :: 0 <= i < |es| ==> ps[i].0 == es[i].0
  {
    if |es| == 0 then []
    else
      var key := es[|es| - 1].0;
      var front := CompactPairs(store, es[..|es| - 1]);
      if key in store then front + [(key, store[key])] else front
  }

  /** One more sorted entry adds its pair, or nothing when the key has no value. */
  lemma CompactPairsStep<K, V>(store: map<K, V>, es: seq<(K, int)>, i: nat)
    requires i < |es|
    ensures es[i].0 in store ==>
              CompactPairs(store, es[..i + 1]) == CompactPairs(store, es[..i]) + [(es[i].0, store[es[i].0])]
    ensures es[i].0 !in store ==> CompactPairs(store, es[..i + 1]) == CompactPairs(store, es[..i])
  {
    assert es[..i + 1][..i] == es[..i];
  }

  /** The `compactMap` pass over sorted entries. */
  method CompactMap<K, V>(store: map<K, V>, es: seq<(K, int)>) returns (ps: seq<(K, V)>)
    ensures ps == CompactPairs(store, es)
  {
    ps := [];
    var i := 0;
    while i < |es|
      invariant 0 <= i <= |es|
      invariant ps == CompactPairs(store, es[..i])
    {
      var key := es[i].0;
      CompactPairsStep(store, es, i);
      if key in store {
        ps := ps + [(key, store[key])];
      }
      i := i + 1;
    }
    assert es[..|es|] == es;
  }

  /** The (key, value) pairs in insertion order: the sorted order index with
      each key paired with its stored value. */
  method OrderedKeyValuePairs<K, V>(d: OrderedDict<K, V>) returns (ps: seq<(K, V)>)
    ensures forall i :: 0 <= i < |ps| ==> ps[i].0 in d.store && ps[i].1 == d.store[ps[i].0]
    ensures Valid(d) ==> |ps| == |KeysByPosition(d)|
    ensures Valid(d) ==> forall i :: 0 <= i < |ps| ==>
              ps[i].0 == KeysByPosition(d)[i] && ps[i].1 == ValuesByPosition(d)[i]
  {
    var es := OrderedIndices(d);
    ps := CompactMap(d.store, es);
    if Valid(d) {
      PairsOfValidAreByPosition(d, es, ps);
    }
  }

  /** In a valid dictionary no sorted entry is dropped: the pairs are the keys
      by position with their values. */
  lemma PairsOfValidAreByPosition<K, V>(d: OrderedDict<K, V>, es: seq<(K, int)>, ps: seq<(K, V)>)
    requires Valid(d)
    requires ListsEntries(es, d.indices) && AscendingByPosition(es) && |es| == |d.indices|
    requires ps == CompactPairs(d.store, es)
    ensures |ps| == |KeysByPosition(d)|
    ensures forall i :: 0 <= i < |ps| ==>
              ps[i].0 == KeysByPosition(d)[i] && ps[i].1 == ValuesByPosition(d)[i]
  {
    SortedEntriesAreKeysByPosition(d, es);
    var ks := KeysByPosition(d);
    var vs := ValuesByPosition(d);
    forall i | 0 <= i < |es|
      ensures ps[i].0 == ks[i] && ps[i].1 == vs[i]
    {
      assert Get(d, ks[i]) == Some(vs[i]);
    }
  }

  /** The values in insertion order. */
  method OrderedValues<K, V>(d: OrderedDict<K, V>) returns (vs: seq<V>)
    ensures forall i :: 0 <= i < |vs| ==> exists k :: k in d.store && d.store[k] == vs[i]
    ensures Valid(d) ==> vs == ValuesByPosition(d)
  {
    var ps := OrderedKeyValuePairs(d);
    vs := [];
    var i := 0;
    while i < |ps|
      invariant 0 <= i <= |ps|
      invariant |vs| == i
      invariant forall j :: 0 <= j < i ==> vs[j] == ps[j].1
    {
      vs := vs + [ps[i].1];
      i := i + 1;
    }
    forall j | 0 <= j < |vs|
      ensures exists k :: k in d.store && d.store[k] == vs[j]
    {
      assert ps[j].0 in d.store && d.store[ps[j].0] == vs[j];
    }
    if Valid(d) {
      var expected := ValuesByPosition(d);
      assert |vs| == |expected|;
      forall j | 0 <= j < |vs|
        ensures vs[j] == expected[j]
      {
      }
    }
  }

  /** Renumbering as the dictionary does it: sort the order index by position
      and give the entry at offset i the position i. */
  method ReindexBySorting<K, V>(d: OrderedDict<K, V>) returns (r: OrderedDict<K, V>)
    ensures r.store == d.store
    ensures r.indices.Keys == d.indices.Keys
    ensures forall k :: k in r.indices ==> 0 <= r.indices[k] < |r.indices|
    ensures Injective(r.indices)
    ensures forall a, b :: a in d.indices && b in d.indices && d.indices[a] < d.indices[b] ==>
              r.indices[a] < r.indices[b]
    ensures Injective(d.indices) ==> r == Reindex(d)
  {
    var es := OrderedIndices(d);
    var indices := Enumerate(d.indices, es);
    r := d.(indices := indices);
    RenumberedBySortFacts(d.indices, es, indices);
    RenumberingAgreesWithRank(d, es, r);
  }

  /** The `forEach` pass that writes each sorted entry's offset into `m`. */
  method Enumerate<K>(m: map<K, int>, es: seq<(K, int)>) returns (indices: map<K, int>)
    requires forall j :: 0 <= j < |es| ==> es[j].0 in m
    requires forall i, j :: 0 <= i < j < |es| ==> es[i].0 != es[j].0
    ensures indices.Keys == m.Keys
    ensures forall j :: 0 <= j < |es| ==> indices[es[j].0] == j
  {
    indices := m;
    var i := 0;
    while i < |es|
      invariant 0 <= i <= |es|
      invariant indices.Keys == m.Keys
      invariant forall j :: 0 <= j < i ==> indices[es[j].0] == j
    {
      indices := indices[es[i].0 := i];
      i := i + 1;
    }
  }

  /** Where a key of `m` appears in a listing of its entries. */
  lemma IndexInListing<K>(es: seq<(K, int)>, m: map<K, int>, k: K) returns (j: nat)
    requires ListsEntries(es, m) && k in m
    ensures j < |es| && es[j].0 == k
  {
    j :| 0 <= j < |es| && es[j].0 == k;
  }

  /** Giving each sorted entry its offset yields positions 0..n-1 in the old order. */
  lemma RenumberedBySortFacts<K>(m: map<K, int>, es: seq<(K, int)>, r: map<K, int>)
    requires ListsEntries(es, m) && AscendingByPosition(es) && |es| == |m|
    requires r.Keys == m.Keys
    requires forall j :: 0 <= j < |es| ==> r[es[j].0] == j
    ensures forall k :: k in r ==> 0 <= r[k] < |r|
    ensures Injective(r)
    ensures forall a, b :: a in m && b in m && m[a] < m[b] ==> r[a] < r[b]
  {
    MapCard(r);
    MapCard(m);
    forall k | k in r
      ensures 0 <= r[k] < |r|
    {
      var j := IndexInListing(es, m, k);
    }
    forall a, b | a in r && b in r && r[a] == r[b]
      ensures a == b
    {
      var i := IndexInListing(es, m, a);
      var j := IndexInListing(es, m, b);
    }
    forall a, b | a in m && b in m && m[a] < m[b]
      ensures r[a] < r[b]
    {
      RenumberedPairInOrder(m, es, r, a, b);
    }
  }

  lemma RenumberedPairInOrder<K>(m: map<K, int>, es: seq<(K, int)>, r: map<K, int>, a: K, b: K)
    requires ListsEntries(es, m) && AscendingByPosition(es)
    requires r.Keys == m.Keys
    requires forall j :: 0 <= j < |es| ==> r[es[j].0] == j
    requires a in m && b in m && m[a] < m[b]
    ensures r[a] < r[b]
  {
    var i := IndexInListing(es, m, a);
    var j := IndexInListing(es, m, b);
    AscendingIndexOrder(es, i, j);
  }

  /** In an ascending listing, an entry of smaller position comes first.
      A solver hint: stated once so that callers need not unfold the ordering. */
  lemma AscendingIndexOrder<K>(es: seq<(K, int)>, i: nat, j: nat)
    requires AscendingByPosition(es)
    requires i < |es| && j < |es| && es[i].1 < es[j].1
    ensures i < j
  {
  }

  /** With distinct positions, a sorted listing is strictly ascending. */
  lemma EntriesStrictlyAscending<K>(m: map<K, int>, es: seq<(K, int)>)
    requires Injective(m) && ListsEntries(es, m) && AscendingByPosition(es)
    ensures forall i, j :: 0 <= i < j < |es| ==> m[es[i].0] < m[es[j].0]
  {
    forall i, j | 0 <= i < j < |es|
      ensures m[es[i].0] < m[es[j].0]
    {
      assert es[i].1 <= es[j].1 && es[i].0 != es[j].0;
    }
  }

  lemma RenumberingAgreesWithRank<K, V>(d: OrderedDict<K, V>, es: seq<(K, int)>, r: OrderedDict<K, V>)
    requires ListsEntries(es, d.indices) && AscendingByPosition(es) && |es| == |d.indices|
    requires r.store == d.store && r.indices.Keys == d.indices.Keys
    requires forall j :: 0 <= j < |es| ==> r.indices[es[j].0] == j
    ensures Injective(d.indices) ==> r == Reindex(d)
  {
    if Injective(d.indices) {
      SortRenumberingIsRank(d, es, r);
    }
  }

  /** When no two keys share a position, the sort-based renumbering is the rank map. */
  lemma SortRenumberingIsRank<K, V>(d: OrderedDict<K, V>, es: seq<(K, int)>, r: OrderedDict<K, V>)
    requires Injective(d.indices)
    requires ListsEntries(es, d.indices) && AscendingByPosition(es) && |es| == |d.indices|
    requires r.store == d.store && r.indices.Keys == d.indices.Keys
    requires forall j :: 0 <= j < |es| ==> r.indices[es[j].0] == j
    ensures r == Reindex(d)
  {
    var ranked := Reindex(d).indices;
    RankOfSortedListing(d, es);
    forall k | k in d.indices
      ensures ranked[k] == r.indices[k]
    {
      var j := IndexInListing(es, d.indices, k);
    }
    assert ranked == r.indices;
  }

  /** The rank of the entry at offset j of a sorted listing is j. */
  lemma RankOfSortedListing<K, V>(d: OrderedDict<K, V>, es: seq<(K, int)>)
    requires Injective(d.indices)
    requires ListsEntries(es, d.indices) && AscendingByPosition(es) && |es| == |d.indices|
    ensures forall j :: 0 <= j < |es| ==> Reindex(d).indices[es[j].0] == j
  {
    var ranked := Reindex(d).indices;
    RenumberedListing(d.indices, ranked, es);
  }

  /** An order-preserving renumbering onto [0, n) gives the entry at offset j
      of a sorted listing the position j. */
  lemma RenumberedListing<K>(m: map<K, int>, after: map<K, int>, es: seq<(K, int)>)
    requires Injective(m) && ListsEntries(es, m) && AscendingByPosition(es) && |es| == |m|
    requires after.Keys == m.Keys
    requires forall k :: k in after ==> 0 <= after[k] < |after|
    requires forall a, b :: a in m && b in m && m[a] < m[b] ==> after[a] < after[b]
    ensures forall j :: 0 <= j < |es| ==> after[es[j].0] == j
  {
    var ks := KeysOf(es);
    EntriesStrictlyAscending(m, es);
    AscendingTransfers(m, after, ks);
    MapCard(after);
    MapCard(m);
    AscendingListingFillsRange(after, ks);
  }

  /** A listing ascending in `before` stays ascending under an order-preserving
      renumbering. A solver hint that instantiates the two quantifiers for callers. */
  lemma AscendingTransfers<K>(before: map<K, int>, after: map<K, int>, ks: seq<K>)
    requires after.Keys == before.Keys
    requires forall a, b :: a in before && b in before && before[a] < before[b] ==> after[a] < after[b]
    requires forall i :: 0 <= i < |ks| ==> ks[i] in before
    requires forall i, j :: 0 <= i < j < |ks| ==> before[ks[i]] < before[ks[j]]
    ensures forall i, j :: 0 <= i < j < |ks| ==> after[ks[i]] < after[ks[j]]
  {
  }
}
