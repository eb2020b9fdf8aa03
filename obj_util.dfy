/**
  Typed helpers over plain objects: the list of an object's own properties,
  the object built from such a list, and an object whose property values are
  computed from the properties of another.

  An object is its own property keys in enumeration order together with the
  value held under each key.
*/
module ObjUtil {
  datatype Object<K, V> = Object(keys: seq<K>, values: map<K, V>)

  /** The argument passed to the function given to `MapValues`. */
  datatype Entry<K, V> = Entry(key: K, value: V)

  predicate Distinct<K(==)>(ks: seq<K>)
  {
    forall i, j :: 0 <= i < j < |ks| ==> ks[i] != ks[j]
  }

  /** Each key is listed once, and exactly the keys with a value are listed. */
  predicate Valid<K(==), V>(o: Object<K, V>)
  {
    && Distinct(o.keys)
    && (forall k | k in o.values :: k in o.keys)
    && (forall i | 0 <= i < |o.keys| :: o.keys[i] in o.values)
  }

  function Empty<K(==), V>(): (o: Object<K, V>)
    ensures Valid(o) && o.keys == []
  {
    Object([], map[])
  }

  /** Defining property `k`: an existing property keeps its place and takes
      the new value, a new one is added last. */
  function Define<K(==), V>(o: Object<K, V>, k: K, v: V): (r: Object<K, V>)
    requires Valid(o)
    ensures Valid(r)
    ensures r.values == o.values[k := v]
    ensures r.keys == if k in o.values then o.keys else o.keys + [k]
  {
    if k in o.values then Object(o.keys, o.values[k := v]) else Object(o.keys + [k], o.values[k := v])
  }

  /** `Object.entries`: the own properties as key/value pairs, in order. */
  function Entries<K(==), V>(o: Object<K, V>): (es: seq<(K, V)>)
    requires Valid(o)
    ensures |es| == |o.keys|
    ensures forall i :: 0 <= i < |es| ==> es[i].0 == o.keys[i] && es[i].1 == o.values[o.keys[i]]
  {
    seq(|o.keys|, i requires 0 <= i < |o.keys| => (o.keys[i], o.values[o.keys[i]]))
  }

  /** `Object.fromEntries`: define each pair's property in turn. */
  function FromEntries<K(==), V>(es: seq<(K, V)>): (o: Object<K, V>)
    ensures Valid(o)
  {
    if es == [] then Empty()
    else
      var last := es[|es| - 1];
      Define(FromEntries(es[..|es| - 1]), last.0, last.1)
  }

  function KeysOf<K(==), V>(es: seq<(K, V)>): (ks: seq<K>)
    ensures |ks| == |es| && forall i :: 0 <= i < |es| ==> ks[i] == es[i].0
  {
    seq(|es|, i requires 0 <= i < |es| => es[i].0)
  }

  /** The built object has exactly the keys the pairs name, and each key
      holds the value of the last pair that names it. */
  lemma {:induction false} FromEntriesValues<K, V>(es: seq<(K, V)>)
    ensures forall k :: k in FromEntries(es).values <==> k in KeysOf(es)
    ensures forall i :: 0 <= i < |es| && (forall j :: i < j < |es| ==> es[j].0 != es[i].0) ==>
      FromEntries(es).values[es[i].0] == es[i].1
  {
    if es != [] {
      var init := es[..|es| - 1];
      FromEntriesValues(init);
      assert forall i :: 0 <= i < |init| ==> init[i] == es[i];
      forall k
        ensures k in FromEntries(es).values <==> k in KeysOf(es)
      {
        assert KeysOf(es) == KeysOf(init) + [es[|es| - 1].0];
      }
    }
  }

  /** With distinct keys, the keys of the built object are the keys of the
      pairs, in the same order. */
  lemma {:induction false} FromEntriesKeys<K, V>(es: seq<(K, V)>)
    requires Distinct(KeysOf(es))
    ensures FromEntries(es).keys == KeysOf(es)
  {
    if es != [] {
      var init := es[..|es| - 1];
      assert KeysOf(init) == KeysOf(es)[..|es| - 1];
      FromEntriesKeys(init);
      FromEntriesValues(init);
      assert es[|es| - 1].0 !in KeysOf(init);
      assert KeysOf(es) == KeysOf(init) + [es[|es| - 1].0];
    }
  }

  /** Building an object from its own entries gives the object back. */
  lemma FromEntriesOfEntries<K, V>(o: Object<K, V>)
    requires Valid(o)
    ensures FromEntries(Entries(o)) == o
  {
    var es := Entries(o);
    assert KeysOf(es) == o.keys;
    FromEntriesKeys(es);
    FromEntriesValues(es);
    var r := FromEntries(es);
    forall k | k in o.values
      ensures k in r.values && r.values[k] == o.values[k]
    {
      var i :| 0 <= i < |o.keys| && o.keys[i] == k;
      assert es[i].0 == k;
    }
    assert r.values == o.values;
  }

  /** Listing the entries of an object built from pairs with distinct keys
      gives the pairs back. */
  lemma EntriesOfFromEntries<K, V>(es: seq<(K, V)>)
    requires Distinct(KeysOf(es))
    ensures Entries(FromEntries(es)) == es
  {
    FromEntriesKeys(es);
    FromEntriesValues(es);
  }

  /** The object with the same keys, in the same order, whose value under
      each key is `fn` applied to that property. */
  function MapValues<K(==), V, U>(o: Object<K, V>, fn: Entry<K, V> -> U): (r: Object<K, U>)
    requires Valid(o)
    ensures Valid(r)
  {
    var es := Entries(o);
    FromEntries(seq(|es|, i requires 0 <= i < |es| => (es[i].0, fn(Entry(es[i].0, es[i].1)))))
  }

  lemma MapValuesMeaning<K, V, U>(o: Object<K, V>, fn: Entry<K, V> -> U)
    requires Valid(o)
    ensures MapValues(o, fn).keys == o.keys
    ensures forall k :: k in MapValues(o, fn).values <==> k in o.values
    ensures forall k :: k in o.values ==> MapValues(o, fn).values[k] == fn(Entry(k, o.values[k]))
  {
    var es := Entries(o);
    var mapped := seq(|es|, i requires 0 <= i < |es| => (es[i].0, fn(Entry(es[i].0, es[i].1))));
    assert KeysOf(mapped) == o.keys;
    FromEntriesKeys(mapped);
    FromEntriesValues(mapped);
    forall k | k in o.values
      ensures MapValues(o, fn).values[k] == fn(Entry(k, o.values[k]))
    {
      var i :| 0 <= i < |o.keys| && o.keys[i] == k;
      assert mapped[i].0 == k;
    }
  }
}
