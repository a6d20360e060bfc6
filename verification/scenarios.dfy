/**
  A worked sequence of subscript assignments: keys are set, overwritten,
  removed and set again, and the insertion order and values are read off.
 */
module Scenarios {
  import opened Wrappers
  import opened OrderedDictionary
  import opened OrderProperties

  /** foo := FOO, bar := BAR, bar := nil, baz := BAZ, foo := JAX gives the order
      foo, baz with values JAX, BAZ; then foo := nil, foo := FOO moves foo last. */
  lemma OrderConsistency<K, V>(foo: K, bar: K, baz: K, fooV: V, barV: V, bazV: V, jaxV: V)
      returns (edited: OrderedDict<K, V>, reinserted: OrderedDict<K, V>)
    requires foo != bar && foo != baz && bar != baz
    ensures edited == Assign(Assign(Assign(Assign(Assign(Empty(),
                        foo, Some(fooV)), bar, Some(barV)), bar, None), baz, Some(bazV)), foo, Some(jaxV))
    ensures reinserted == Assign(Assign(edited, foo, None), foo, Some(fooV))
    ensures Valid(edited) && Valid(reinserted)
    ensures KeysByPosition(edited) == [foo, baz]
    ensures ValuesByPosition(edited) == [jaxV, bazV]
    ensures KeysByPosition(reinserted) == [baz, foo]
    ensures ValuesByPosition(reinserted) == [bazV, fooV]
  {
    var d2 := InsertTwo(foo, bar, fooV, barV);
    edited := DropInsertOverwrite(d2, foo, bar, baz, bazV, jaxV);
    reinserted := RemoveAndReinsert(edited, baz, foo, bazV, fooV);
  }

  lemma InsertTwo<K, V>(foo: K, bar: K, fooV: V, barV: V) returns (d: OrderedDict<K, V>)
    requires foo != bar
    ensures d == Assign(Assign(Empty(), foo, Some(fooV)), bar, Some(barV))
    ensures Valid(d) && KeysByPosition(d) == [foo, bar]
  {
    var d0: OrderedDict<K, V> := Empty();
    assert KeysByPosition(d0) == [];
    var d1 := Set(d0, foo, fooV);
    SetNewKeyAppends(d0, foo, fooV);
    d := Set(d1, bar, barV);
    SetNewKeyAppends(d1, bar, barV);
  }

  lemma DropInsertOverwrite<K, V>(d: OrderedDict<K, V>, foo: K, bar: K, baz: K, bazV: V, jaxV: V)
      returns (r: OrderedDict<K, V>)
    requires Valid(d) && KeysByPosition(d) == [foo, bar]
    requires baz != foo && baz != bar
    ensures r == Assign(Assign(Assign(d, bar, None), baz, Some(bazV)), foo, Some(jaxV))
    ensures Valid(r) && KeysByPosition(r) == [foo, baz] && ValuesByPosition(r) == [jaxV, bazV]
  {
    LiveKeysAreListed(d);
    assert KeysByPosition(d)[1] == bar;
    var d3 := Remove(d, bar);
    RemoveKeepsRelativeOrder(d, bar);
    assert d.indices[bar] == 1;
    assert KeysByPosition(d3) == [foo];
    var d4 := Set(d3, baz, bazV);
    AppendToSingleton(d3, foo, baz, bazV);
    LiveKeysAreListed(d4);
    r := Set(d4, foo, jaxV);
    SetExistingKeyKeepsOrder(d4, foo, jaxV);
    ValuesOfTwo(r, foo, baz, jaxV, bazV);
  }

  lemma RemoveAndReinsert<K, V>(d: OrderedDict<K, V>, baz: K, foo: K, bazV: V, fooV: V)
      returns (r: OrderedDict<K, V>)
    requires Valid(d) && KeysByPosition(d) == [foo, baz] && Get(d, baz) == Some(bazV)
    ensures r == Assign(Assign(d, foo, None), foo, Some(fooV))
    ensures Valid(r) && KeysByPosition(r) == [baz, foo] && ValuesByPosition(r) == [bazV, fooV]
  {
    LiveKeysAreListed(d);
    assert KeysByPosition(d)[0] == foo;
    var d6 := Remove(d, foo);
    RemoveKeepsRelativeOrder(d, foo);
    assert d.indices[foo] == 0;
    assert KeysByPosition(d6) == [baz];
    assert d.indices[baz] == 1;
    assert Get(d6, baz) == Some(bazV);
    r := Set(d6, foo, fooV);
    AppendToSingleton(d6, baz, foo, fooV);
    ValuesOfTwo(r, baz, foo, bazV, fooV);
  }

  lemma AppendToSingleton<K, V>(d: OrderedDict<K, V>, a: K, b: K, v: V)
    requires Valid(d) && KeysByPosition(d) == [a] && b != a
    ensures KeysByPosition(Set(d, b, v)) == [a, b]
  {
    LiveKeysAreListed(d);
    SetNewKeyAppends(d, b, v);
  }

  /** With two keys in order, the values by position are their two values. */
  lemma ValuesOfTwo<K, V>(d: OrderedDict<K, V>, a: K, b: K, va: V, vb: V)
    requires Valid(d) && KeysByPosition(d) == [a, b]
    requires Get(d, a) == Some(va) && Get(d, b) == Some(vb)
    ensures ValuesByPosition(d) == [va, vb]
  {
    var vs := ValuesByPosition(d);
    assert Get(d, KeysByPosition(d)[0]) == Some(vs[0]);
    assert Get(d, KeysByPosition(d)[1]) == Some(vs[1]);
  }
}
