/** Cardinality facts about finite sets and maps that the order proofs rest on. */
module FiniteSets {

  /** The integers 0, 1, ..., n-1. */
  function Range(n: nat): (s: set<int>)
    ensures forall i :: i in s <==> 0 <= i < n
  {
    if n == 0 then {} else Range(n - 1) + {n - 1}
  }

  /** No two keys of `m` share a value. */
  ghost predicate Injective<K, V>(m: map<K, V>)
  {
    forall a, b :: a in m && b in m && m[a] == m[b] ==> a == b
  }

  lemma {:induction false} RangeCard(n: nat)
    ensures |Range(n)| == n
  {
    if n > 0 {
      var smaller := Range(n - 1);
      RangeCard(n - 1);
      assert n - 1 !in smaller;
      assert Range(n) == smaller + {n - 1};
      assert |smaller + {n - 1}| == |smaller| + 1;
    }
  }

  lemma {:induction false} SubsetCard<T>(a: set<T>, b: set<T>)
    requires a <= b
    ensures |a| <= |b|
    decreases |a|
  {
    if a != {} {
      var x :| x in a;
      SubsetCard(a - {x}, b - {x});
    }
  }

  lemma ProperSubsetCard<T>(a: set<T>, b: set<T>)
    requires a < b
    ensures |a| < |b|
  {
    var x :| x in b && x !in a;
    SubsetCard(a, b - {x});
  }

  /** A subset as large as its superset is the superset. */
  lemma SubsetOfEqualCard<T>(a: set<T>, b: set<T>)
    requires a <= b && |a| == |b|
    ensures a == b
  {
    if a != b {
      ProperSubsetCard(a, b);
    }
  }

  /** A map has as many entries as keys. A solver hint: Dafny knows it, but
      does not bring it into play unless asked. */
  lemma MapCard<K, V>(m: map<K, V>)
    ensures |m| == |m.Keys|
  {
  }

  /** An injective map has as many distinct values as it has keys. */
  lemma {:induction false} InjectiveValuesCard<K, V>(m: map<K, V>)
    requires Injective(m)
    ensures |m.Values| == |m.Keys|
    decreases |m.Keys|
  {
    if m.Keys != {} {
      var k :| k in m;
      var m' := m - {k};
      assert m'.Keys == m.Keys - {k};
      forall v | v in m.Values - {m[k]}
        ensures v in m'.Values
      {
        var j :| j in m && m[j] == v;
        assert m'[j] == v;
      }
      assert m'.Values == m.Values - {m[k]};
      InjectiveValuesCard(m');
    }
  }

  /** An injective map from n keys into [0, n) hits every position of [0, n). */
  lemma InjectiveIntoRangeIsOnto<K>(m: map<K, int>)
    requires Injective(m)
    requires forall k :: k in m ==> 0 <= m[k] < |m|
    ensures m.Values == Range(|m|)
  {
    InjectiveValuesCard(m);
    RangeCard(|m|);
    MapCard(m);
    SubsetOfEqualCard(m.Values, Range(|m|));
  }

  /** In a strictly increasing integer sequence, entries i < j are at least j - i apart. */
  lemma {:induction false} GapAtLeastDistance(s: seq<int>, i: nat, j: nat)
    requires i <= j < |s|
    requires forall a, b :: 0 <= a < b < |s| ==> s[a] < s[b]
    ensures s[j] - s[i] >= j - i
    decreases j - i
  {
    if i < j {
      GapAtLeastDistance(s, i + 1, j);
    }
  }

  /** A strictly increasing sequence of n integers drawn from [0, n) is 0, 1, ..., n-1. */
  lemma StrictlyIncreasingFillsRange(s: seq<int>)
    requires forall i :: 0 <= i < |s| ==> 0 <= s[i] < |s|
    requires forall a, b :: 0 <= a < b < |s| ==> s[a] < s[b]
    ensures forall i :: 0 <= i < |s| ==> s[i] == i
  {
    forall i | 0 <= i < |s|
      ensures s[i] == i
    {
      GapAtLeastDistance(s, 0, i);
      GapAtLeastDistance(s, i, |s| - 1);
    }
  }

  /** Keys listed in strictly ascending position, as many as the map has and
      all with positions in [0, n), sit at positions 0, 1, ..., n-1. */
  lemma AscendingListingFillsRange<K>(m: map<K, int>, ks: seq<K>)
    requires forall k :: k in m ==> 0 <= m[k] < |m|
    requires |ks| == |m|
    requires forall i :: 0 <= i < |ks| ==> ks[i] in m
    requires forall i, j :: 0 <= i < j < |ks| ==> m[ks[i]] < m[ks[j]]
    ensures forall i :: 0 <= i < |ks| ==> m[ks[i]] == i
  {
    var ps := seq(|ks|, i requires 0 <= i < |ks| => m[ks[i]]);
    StrictlyIncreasingFillsRange(ps);
    forall i | 0 <= i < |ks|
      ensures m[ks[i]] == i
    {
      assert ps[i] == m[ks[i]];
    }
  }
}
