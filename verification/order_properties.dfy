/**
  What the operations promise about insertion order: new keys land at the end,
  updates move nothing, removal keeps the survivors' relative order, and
  renumbering never reorders.
 */
module OrderProperties {
  import opened Wrappers
  import opened FiniteSets
  import opened OrderedDictionary

  /** Any listing of all the keys in strictly ascending position is the
      insertion order. */
  lemma KeysByPositionUnique<K, V>(d: OrderedDict<K, V>, ks: seq<K>)
    requires Valid(d)
    requires |ks| == |d.indices|
    requires forall i :: 0 <= i < |ks| ==> ks[i] in d.indices
    requires forall i, j :: 0 <= i < j < |ks| ==> d.indices[ks[i]] < d.indices[ks[j]]
    ensures ks == KeysByPosition(d)
  {
    AscendingListingFillsRange(d.indices, ks);
    var expected := KeysByPosition(d);
    forall i | 0 <= i < |ks|
      ensures ks[i] == expected[i]
    {
      assert d.indices[ks[i]] == d.indices[expected[i]];
    }
  }

  /** The dictionary is determined by its values and its insertion order. */
  lemma SameOrderSameIndices<K, V>(d: OrderedDict<K, V>, e: OrderedDict<K, V>)
    requires Valid(d) && Valid(e)
    requires d.indices.Keys == e.indices.Keys
    requires KeysByPosition(d) == KeysByPosition(e)
    ensures d.indices == e.indices
  {
    var ks := KeysByPosition(d);
    forall k | k in d.indices
      ensures d.indices[k] == e.indices[k]
    {
      var i := d.indices[k];
      assert ks[i] in d.indices && d.indices[ks[i]] == i;
      assert ks[i] == k;
    }
  }

  /** Setting a key not yet present appends it to the insertion order. */
  lemma SetNewKeyAppends<K, V>(d: OrderedDict<K, V>, k: K, v: V)
    requires Valid(d) && k !in d.indices
    ensures KeysByPosition(Set(d, k, v)) == KeysByPosition(d) + [k]
  {
    var r := Set(d, k, v);
    var ks := KeysByPosition(d) + [k];
    KeysByPositionUnique(r, ks);
  }

  /** Setting a key already present changes its value only: no position moves. */
  lemma SetExistingKeyKeepsOrder<K, V>(d: OrderedDict<K, V>, k: K, v: V)
    requires Valid(d) && k in d.indices
    ensures Set(d, k, v).indices == d.indices
    ensures KeysByPosition(Set(d, k, v)) == KeysByPosition(d)
    ensures Get(Set(d, k, v), k) == Some(v)
  {
    var r := Set(d, k, v);
    KeysByPositionUnique(r, KeysByPosition(d));
  }

  /** Renumbering a dictionary whose keys carry distinct positions yields a
      valid dictionary whose insertion order is the old ascending-position order. */
  lemma ReindexKeepsOrder<K, V>(d: OrderedDict<K, V>, ks: seq<K>)
    requires d.store.Keys == d.indices.Keys && Injective(d.indices)
    requires |ks| == |d.indices|
    requires forall i :: 0 <= i < |ks| ==> ks[i] in d.indices
    requires forall i, j :: 0 <= i < j < |ks| ==> d.indices[ks[i]] < d.indices[ks[j]]
    ensures Valid(Reindex(d))
    ensures KeysByPosition(Reindex(d)) == ks
  {
    var r := Reindex(d);
    MapCard(r.indices);
    MapCard(d.indices);
    KeysByPositionUnique(r, ks);
  }

  /** Renumbering a valid dictionary changes nothing. */
  lemma ReindexOfValidIsIdentity<K, V>(d: OrderedDict<K, V>)
    requires Valid(d)
    ensures Reindex(d) == d
  {
    var ks := KeysByPosition(d);
    ReindexKeepsOrder(d, ks);
    SameOrderSameIndices(Reindex(d), d);
  }

  /** Removing a key drops it from the insertion order and keeps the rest in order. */
  lemma RemoveKeepsRelativeOrder<K, V>(d: OrderedDict<K, V>, k: K)
    requires Valid(d) && k in d.indices
    ensures KeysByPosition(d)[d.indices[k]] == k
    ensures KeysByPosition(Remove(d, k)) == Drop(KeysByPosition(d), d.indices[k])
  {
    var ks := KeysByPosition(d);
    var p := d.indices[k];
    KeyAtOwnPosition(d, k);
    RemoveListsOthers(d, k, ks);
  }

  /** Every key sits at its own position in the insertion order. */
  lemma KeyAtOwnPosition<K, V>(d: OrderedDict<K, V>, k: K)
    requires Valid(d) && k in d.indices
    ensures KeysByPosition(d)[d.indices[k]] == k
  {
    var ks := KeysByPosition(d);
    assert d.indices[ks[d.indices[k]]] == d.indices[k];
  }

  /** A key is live exactly when it appears in the insertion order. */
  lemma LiveKeysAreListed<K, V>(d: OrderedDict<K, V>)
    requires Valid(d)
    ensures forall k :: k in d.indices <==> k in KeysByPosition(d)
  {
    forall k | k in d.indices
      ensures k in KeysByPosition(d)
    {
      KeyAtOwnPosition(d, k);
    }
  }

  lemma RemoveListsOthers<K, V>(d: OrderedDict<K, V>, k: K, ks: seq<K>)
    requires Valid(d) && k in d.indices
    requires ks == KeysByPosition(d)
    ensures KeysByPosition(Remove(d, k)) == Drop(ks, d.indices[k])
  {
    var p := d.indices[k];
    var r := Remove(d, k);
    var rest := Drop(ks, p);
    DropListsOthersAscending(d.indices, ks, p);
    AscendingCarriesOver(d.indices, r.indices, k, rest);
    MapCard(r.indices);
    MapCard(d.indices);
    KeysByPositionUnique(r, rest);
  }

  /** Keys other than `k` listed in ascending old position are also in
      ascending new position, when the renumbering preserves order. A solver
      hint that instantiates the order-preservation quantifier for callers. */
  lemma AscendingCarriesOver<K>(before: map<K, int>, after: map<K, int>, k: K, rest: seq<K>)
    requires k in before && after.Keys == before.Keys - {k}
    requires forall a, b :: a in after && b in after && before[a] < before[b] ==> after[a] < after[b]
    requires forall i :: 0 <= i < |rest| ==> rest[i] in before && before[rest[i]] != before[k]
    requires forall i, j :: 0 <= i < j < |rest| ==> before[rest[i]] < before[rest[j]]
    ensures forall i :: 0 <= i < |rest| ==> rest[i] in after
    ensures forall i, j :: 0 <= i < j < |rest| ==> after[rest[i]] < after[rest[j]]
  {
  }

  /** Dropping the entry at position `p` from a listing of keys by position
      leaves the other keys, still in ascending position. */
  lemma DropListsOthersAscending<K>(m: map<K, int>, ks: seq<K>, p: nat)
    requires p < |ks|
    requires forall i :: 0 <= i < |ks| ==> ks[i] in m && m[ks[i]] == i
    ensures forall i :: 0 <= i < |Drop(ks, p)| ==> Drop(ks, p)[i] in m && m[Drop(ks, p)[i]] != p
    ensures forall i, j :: 0 <= i < j < |Drop(ks, p)| ==> m[Drop(ks, p)[i]] < m[Drop(ks, p)[j]]
  {
    var rest := Drop(ks, p);
    forall i | 0 <= i < |rest|
      ensures m[rest[i]] == if i < p then i else i + 1
    {
    }
  }

  /** `s` without its element at index `p`. */
  function Drop<T>(s: seq<T>, p: nat): (r: seq<T>)
    requires p < |s|
    ensures |r| == |s| - 1
    ensures forall i :: 0 <= i < |r| ==> r[i] == if i < p then s[i] else s[i + 1]
  {
    s[..p] + s[p + 1..]
  }

  /** Removing an absent key leaves the dictionary exactly as it was. */
  lemma RemoveAbsentIsIdentity<K, V>(d: OrderedDict<K, V>, k: K)
    requires Valid(d) && k !in d.store
    ensures Remove(d, k) == d
  {
    assert d.store - {k} == d.store;
    assert d.indices - {k} == d.indices;
    ReindexOfValidIsIdentity(d);
  }

  /** Setting a new key and removing it again restores the dictionary. */
  lemma RemoveUndoesNewSet<K, V>(d: OrderedDict<K, V>, k: K, v: V)
    requires Valid(d) && k !in d.store
    ensures Remove(Set(d, k, v), k) == d
  {
    var s := Set(d, k, v);
    assert s.store - {k} == d.store;
    assert s.indices - {k} == d.indices;
    ReindexOfValidIsIdentity(d);
  }

  /** A key removed and set again lands at the end; the others keep their order. */
  lemma ReinsertMovesToEnd<K, V>(d: OrderedDict<K, V>, k: K, v: V)
    requires Valid(d) && k in d.indices
    ensures KeysByPosition(Set(Remove(d, k), k, v)) == Drop(KeysByPosition(d), d.indices[k]) + [k]
  {
    RemoveKeepsRelativeOrder(d, k);
    SetNewKeyAppends(Remove(d, k), k, v);
  }

  /** The keys of a sequence of (key, value) pairs. */
  function KeysOf<K, V>(kvs: seq<(K, V)>): (ks: seq<K>)
    ensures |ks| == |kvs|
    ensures forall i :: 0 <= i < |kvs| ==> ks[i] == kvs[i].0
  {
    if |kvs| == 0 then [] else [kvs[0].0] + KeysOf(kvs[1..])
  }

  /** Set each pair of `kvs` in turn. */
  function SetAll<K, V>(d: OrderedDict<K, V>, kvs: seq<(K, V)>): (r: OrderedDict<K, V>)
    ensures Valid(d) ==> Valid(r)
    ensures forall k :: k in r.store ==> k in d.store || k in KeysOf(kvs)
    ensures forall k :: k in d.store ==> k in r.store
    ensures forall i :: 0 <= i < |kvs| ==> kvs[i].0 in r.store
    decreases |kvs|
  {
    if |kvs| == 0 then d else SetAll(Set(d, kvs[0].0, kvs[0].1), kvs[1..])
  }

  ghost predicate DistinctKeys<K, V>(kvs: seq<(K, V)>)
  {
    forall i, j :: 0 <= i < j < |kvs| ==> kvs[i].0 != kvs[j].0
  }

  /** Concatenation is associative. A solver hint: stated on its own, it keeps
      sequence extensionality out of the larger proof that uses it. */
  lemma AppendAssociative<T>(a: seq<T>, b: seq<T>, c: seq<T>)
    ensures (a + b) + c == a + (b + c)
  {
  }

  /** Inserting distinct new keys one after another appends them in the order given. */
  lemma {:induction false} SetAllAppends<K, V>(d: OrderedDict<K, V>, kvs: seq<(K, V)>)
    requires Valid(d) && DistinctKeys(kvs)
    requires forall i :: 0 <= i < |kvs| ==> kvs[i].0 !in d.indices
    ensures KeysByPosition(SetAll(d, kvs)) == KeysByPosition(d) + KeysOf(kvs)
    decreases |kvs|
  {
    if |kvs| > 0 {
      var k := kvs[0].0;
      var tail := kvs[1..];
      var d' := Set(d, k, kvs[0].1);
      SetNewKeyAppends(d, k, kvs[0].1);
      forall i | 0 <= i < |tail|
        ensures tail[i].0 !in d'.indices
      {
        assert tail[i] == kvs[i + 1];
      }
      assert DistinctKeys(tail) by {
        forall i, j | 0 <= i < j < |tail|
          ensures tail[i].0 != tail[j].0
        {
          assert tail[i] == kvs[i + 1] && tail[j] == kvs[j + 1];
        }
      }
      SetAllAppends(d', tail);
      assert SetAll(d, kvs) == SetAll(d', tail);
      assert KeysOf(kvs) == [k] + KeysOf(tail);
      AppendAssociative(KeysByPosition(d), [k], KeysOf(tail));
    } else {
      assert SetAll(d, kvs) == d;
      assert KeysOf(kvs) == [];
    }
  }

  /** After inserting pairs with distinct keys, each key reads back as the value
      it was given. */
  lemma {:induction false} SetAllReadsBack<K, V>(d: OrderedDict<K, V>, kvs: seq<(K, V)>)
    requires DistinctKeys(kvs)
    ensures forall i :: 0 <= i < |kvs| ==> Get(SetAll(d, kvs), kvs[i].0) == Some(kvs[i].1)
    decreases |kvs|
  {
    if |kvs| > 0 {
      var d' := Set(d, kvs[0].0, kvs[0].1);
      SetAllReadsBack(d', kvs[1..]);
      SetAllKeepsOthers(d', kvs[1..], kvs[0].0);
      forall i | 1 <= i < |kvs|
        ensures Get(SetAll(d, kvs), kvs[i].0) == Some(kvs[i].1)
      {
        assert kvs[1..][i - 1] == kvs[i];
      }
    }
  }

  /** A key that `kvs` does not mention keeps its value through `SetAll`. */
  lemma {:induction false} SetAllKeepsOthers<K, V>(d: OrderedDict<K, V>, kvs: seq<(K, V)>, k: K)
    requires forall i :: 0 <= i < |kvs| ==> kvs[i].0 != k
    ensures Get(SetAll(d, kvs), k) == Get(d, k)
    decreases |kvs|
  {
    if |kvs| > 0 {
      SetAllKeepsOthers(Set(d, kvs[0].0, kvs[0].1), kvs[1..], k);
    }
  }

  /** Filling an empty dictionary with distinct keys yields exactly those keys, in order. */
  lemma InsertionOrderFromEmpty<K, V>(kvs: seq<(K, V)>)
    requires DistinctKeys(kvs)
    ensures KeysByPosition(SetAll(Empty(), kvs)) == KeysOf(kvs)
    ensures forall i :: 0 <= i < |kvs| ==> Get(SetAll(Empty(), kvs), kvs[i].0) == Some(kvs[i].1)
  {
    var e: OrderedDict<K, V> := Empty();
    SetAllAppends(e, kvs);
    SetAllReadsBack(e, kvs);
    assert KeysByPosition(e) == [];
  }

  /** Remove each key of `ks` in turn. */
  function RemoveAll<K, V>(d: OrderedDict<K, V>, ks: seq<K>): (r: OrderedDict<K, V>)
    ensures Valid(d) ==> Valid(r)
    ensures forall k :: k in r.store ==> k in d.store && k !in ks
    ensures forall k :: k in d.store && k !in ks ==> k in r.store
    decreases |ks|
  {
    if |ks| == 0 then d else RemoveAll(Remove(d, ks[0]), ks[1..])
  }

  /** Setting each key and clearing it straight away leaves the dictionary as it was. */
  function SetAndClearEach<K, V>(d: OrderedDict<K, V>, kvs: seq<(K, V)>): (r: OrderedDict<K, V>)
    decreases |kvs|
  {
    if |kvs| == 0 then d
    else SetAndClearEach(Remove(Set(d, kvs[0].0, kvs[0].1), kvs[0].0), kvs[1..])
  }

  lemma {:induction false} SetAndClearEachRestores<K, V>(d: OrderedDict<K, V>, kvs: seq<(K, V)>)
    requires Valid(d)
    requires forall i :: 0 <= i < |kvs| ==> kvs[i].0 !in d.store
    ensures SetAndClearEach(d, kvs) == d
    decreases |kvs|
  {
    if |kvs| > 0 {
      var k, v := kvs[0].0, kvs[0].1;
      RemoveUndoesNewSet(d, k, v);
      var rest := kvs[1..];
      forall i | 0 <= i < |rest|
        ensures rest[i].0 !in d.store
      {
        assert rest[i] == kvs[i + 1];
      }
      SetAndClearEachRestores(d, rest);
      assert SetAndClearEach(d, kvs) == SetAndClearEach(Remove(Set(d, k, v), k), rest);
    }
  }

  /** Setting every pair and then clearing every key empties the dictionary. */
  lemma SetThenClearEmpties<K, V>(kvs: seq<(K, V)>)
    ensures RemoveAll(SetAll(Empty(), kvs), KeysOf(kvs)).store == map[]
    ensures Valid(RemoveAll(SetAll(Empty(), kvs), KeysOf(kvs)))
    ensures KeysByPosition(RemoveAll(SetAll(Empty(), kvs), KeysOf(kvs))) == []
  {
    var r := RemoveAll(SetAll(Empty(), kvs), KeysOf(kvs));
    assert r.store.Keys == {};
  }

  /** Setting a key twice in a row is the same as setting it once to the later value. */
  lemma SetOverwrites<K, V>(d: OrderedDict<K, V>, k: K, v: V, w: V)
    ensures Set(Set(d, k, v), k, w) == Set(d, k, w)
  {
    assert d.store[k := v][k := w] == d.store[k := w];
  }

  /** The keys of `kvs`, each paired with `w`. */
  function WithValue<K, V>(kvs: seq<(K, V)>, w: V): (r: seq<(K, V)>)
    ensures |r| == |kvs|
    ensures forall i :: 0 <= i < |r| ==> r[i] == (kvs[i].0, w)
  {
    seq(|kvs|, i requires 0 <= i < |kvs| => (kvs[i].0, w))
  }

  /** Set each pair of `kvs`, immediately overwriting its value with `w`. */
  function SetEachTwice<K, V>(d: OrderedDict<K, V>, kvs: seq<(K, V)>, w: V): (r: OrderedDict<K, V>)
    ensures Valid(d) ==> Valid(r)
    decreases |kvs|
  {
    if |kvs| == 0 then d
    else SetEachTwice(Set(Set(d, kvs[0].0, kvs[0].1), kvs[0].0, w), kvs[1..], w)
  }

  lemma {:induction false} SetEachTwiceIsSetAll<K, V>(d: OrderedDict<K, V>, kvs: seq<(K, V)>, w: V)
    ensures SetEachTwice(d, kvs, w) == SetAll(d, WithValue(kvs, w))
    decreases |kvs|
  {
    if |kvs| > 0 {
      SetOverwrites(d, kvs[0].0, kvs[0].1, w);
      SetEachTwiceIsSetAll(Set(d, kvs[0].0, w), kvs[1..], w);
      assert WithValue(kvs, w)[1..] == WithValue(kvs[1..], w);
    }
  }

  /** Overwriting each freshly inserted key keeps the insertion order and leaves
      every key reading back as the overwriting value. */
  lemma SetTwiceKeepsInsertionOrder<K, V>(kvs: seq<(K, V)>, w: V)
    requires DistinctKeys(kvs)
    ensures KeysByPosition(SetEachTwice(Empty(), kvs, w)) == KeysOf(kvs)
    ensures forall i :: 0 <= i < |kvs| ==> Get(SetEachTwice(Empty(), kvs, w), kvs[i].0) == Some(w)
  {
    var ws := WithValue(kvs, w);
    assert DistinctKeys(ws) by {
      forall i, j | 0 <= i < j < |ws|
        ensures ws[i].0 != ws[j].0
      {
        assert ws[i].0 == kvs[i].0 && ws[j].0 == kvs[j].0;
      }
    }
    SetEachTwiceIsSetAll(Empty(), kvs, w);
    InsertionOrderFromEmpty(ws);
    assert KeysOf(ws) == KeysOf(kvs);
  }
}
