/** A JavaScript `Map`: each key bound once, iterated in the order in which
    keys were first inserted; setting a bound key replaces its value but
    keeps its place. */
module JsMaps {

  ghost predicate Distinct<K>(s: seq<K>)
  {
    forall i, j :: 0 <= i < j < |s| ==> s[i] != s[j]
  }

  datatype JsMap<K(==), V> = JsMap(keys: seq<K>, entries: map<K, V>)
  {
    /** The iteration order lists every bound key exactly once. */
    ghost predicate Valid()
    {
      && Distinct(keys)
      && (forall k | k in entries :: k in keys)
      && (forall i | 0 <= i < |keys| :: keys[i] in entries)
    }

    /** `map.has(k)` */
    predicate Has(k: K)
    {
      k in entries
    }

    /** `map.set(k, v)` */
    function Set(k: K, v: V): (m: JsMap<K, V>)
      requires Valid()
      ensures m.Valid()
      ensures m.entries == entries[k := v]
      ensures k in entries ==> m.keys == keys
      ensures k !in entries ==> m.keys == keys + [k]
    {
      if k in entries then JsMap(keys, entries[k := v]) else JsMap(keys + [k], entries[k := v])
    }

    /** `Array.from(map.values())` */
    function Values(): (vs: seq<V>)
      requires Valid()
      ensures |vs| == |keys|
      ensures forall i :: 0 <= i < |keys| ==> vs[i] == entries[keys[i]]
    {
      seq(|keys|, i requires 0 <= i < |keys| => entries[keys[i]])
    }
  }

  /** `new Map()` */
  function EmptyMap<K, V>(): (m: JsMap<K, V>)
    ensures m.Valid() && m.keys == []
  {
    JsMap([], map[])
  }

  /** `new Map(entries)`: the pairs are set one after the other. */
  function FromEntries<K, V>(es: seq<(K, V)>): (m: JsMap<K, V>)
    ensures m.Valid()
  {
    if es == [] then EmptyMap() else FromEntries(es[..|es| - 1]).Set(es[|es| - 1].0, es[|es| - 1].1)
  }

  /** Some pair of `es` has key `k`. */
  predicate KeyIn<K(==), V>(es: seq<(K, V)>, k: K)
  {
    exists i :: 0 <= i < |es| && es[i].0 == k
  }

  /** The position of the first pair with key `k`. */
  ghost function FirstIndex<K, V>(es: seq<(K, V)>, k: K): (i: nat)
    requires KeyIn(es, k)
    ensures i < |es| && es[i].0 == k
    ensures forall j :: 0 <= j < i ==> es[j].0 != k
  {
    var w :| 0 <= w < |es| && es[w].0 == k;
    FirstAtOrBefore(es, k, w);
    var i :| 0 <= i <= w && es[i].0 == k && forall j :: 0 <= j < i ==> es[j].0 != k;
    i
  }

  /** A pair with key `k` at `w` means some pair at or before `w` is the first one. */
  lemma {:induction false} FirstAtOrBefore<K, V>(es: seq<(K, V)>, k: K, w: nat)
    requires w < |es| && es[w].0 == k
    ensures exists i :: 0 <= i <= w && es[i].0 == k && forall j :: 0 <= j < i ==> es[j].0 != k
    decreases w
  {
    if j :| 0 <= j < w && es[j].0 == k {
      FirstAtOrBefore(es, k, j);
    }
  }

  /** The position of the last pair with key `k`. */
  function LastIndex<K(==), V>(es: seq<(K, V)>, k: K): (i: nat)
    requires KeyIn(es, k)
    ensures i < |es| && es[i].0 == k
    ensures forall j :: i < j < |es| ==> es[j].0 != k
  {
    if es[|es| - 1].0 == k then |es| - 1 else
      assert KeyIn(es[..|es| - 1], k) by {
        var i :| 0 <= i < |es| && es[i].0 == k;
        assert es[..|es| - 1][i].0 == k;
      }
      LastIndex(es[..|es| - 1], k)
  }

  /** `new Map(entries)` binds exactly the keys of the pairs. */
  lemma {:induction false} FromEntriesKeys<K, V>(es: seq<(K, V)>)
    ensures forall k :: k in FromEntries(es).entries <==> KeyIn(es, k)
  {
    if es != [] {
      var n := |es| - 1;
      var init := es[..n];
      FromEntriesKeys(init);
      forall k
        ensures k in FromEntries(es).entries <==> KeyIn(es, k)
      {
        if KeyIn(es, k) && k != es[n].0 {
          var i :| 0 <= i < |es| && es[i].0 == k;
          assert init[i].0 == k;
        }
        if KeyIn(init, k) {
          var i :| 0 <= i < |init| && init[i].0 == k;
          assert es[i].0 == k;
        }
      }
    }
  }

  /** Each key is bound to the value of its LAST pair: later duplicates win. */
  lemma {:induction false} FromEntriesValues<K, V>(es: seq<(K, V)>)
    ensures forall k :: k in FromEntries(es).entries ==>
              KeyIn(es, k) && FromEntries(es).entries[k] == es[LastIndex(es, k)].1
  {
    if es != [] {
      var n := |es| - 1;
      var init := es[..n];
      FromEntriesValues(init);
      forall k | k in FromEntries(es).entries
        ensures KeyIn(es, k) && FromEntries(es).entries[k] == es[LastIndex(es, k)].1
      {
        if k != es[n].0 {
          var i := LastIndex(init, k);
          assert es[i].0 == k;
          assert LastIndex(es, k) == i;
        }
      }
    }
  }

  /** Appending a pair does not move the first pair of a key already present. */
  lemma {:induction false} FirstIndexExtend<K, V>(es: seq<(K, V)>, k: K)
    requires es != [] && KeyIn(es[..|es| - 1], k)
    ensures KeyIn(es, k) && FirstIndex(es, k) == FirstIndex(es[..|es| - 1], k)
  {
    var init := es[..|es| - 1];
    var j := FirstIndex(init, k);
    assert es[j].0 == init[j].0;
  }

  /** Every key of `ks` has a pair in `es`, and `ks` lists them in the
      order of their first pairs. */
  ghost predicate InFirstOrder<K, V>(es: seq<(K, V)>, ks: seq<K>)
  {
    && (forall k :: k in ks ==> KeyIn(es, k))
    && (forall a, b :: 0 <= a < b < |ks| ==> FirstIndex(es, ks[a]) < FirstIndex(es, ks[b]))
  }

  /** Appending a pair keeps the first-pair order of the keys already listed. */
  lemma InFirstOrderExtend<K, V>(es: seq<(K, V)>, ks: seq<K>)
    requires es != [] && InFirstOrder(es[..|es| - 1], ks)
    ensures InFirstOrder(es, ks)
  {
    forall k | k in ks
      ensures KeyIn(es, k) && FirstIndex(es, k) == FirstIndex(es[..|es| - 1], k)
    {
      FirstIndexExtend(es, k);
    }
  }

  /** A key whose first pair is the last pair goes after every listed key. */
  lemma InFirstOrderAppend<K, V>(es: seq<(K, V)>, ks: seq<K>, k: K)
    requires InFirstOrder(es, ks) && k !in ks && KeyIn(es, k) && FirstIndex(es, k) == |es| - 1
    ensures InFirstOrder(es, ks + [k])
  {
    var ks' := ks + [k];
    forall a | 0 <= a < |ks|
      ensures FirstIndex(es, ks[a]) < |es| - 1
    {
      var x := ks[a];
      assert x in ks && x != k;
      var i := FirstIndex(es, x);
      assert es[i].0 == x && es[|es| - 1].0 == k;
    }
    forall a, b | 0 <= a < b < |ks'|
      ensures FirstIndex(es, ks'[a]) < FirstIndex(es, ks'[b])
    {
      if b < |ks| {
        assert ks'[a] == ks[a] && ks'[b] == ks[b];
      } else {
        assert ks'[a] == ks[a] && ks'[b] == k;
      }
    }
  }

  /** Keys are iterated in the order of their FIRST pairs. */
  lemma {:induction false} FromEntriesOrder<K, V>(es: seq<(K, V)>)
    ensures forall k :: k in FromEntries(es).keys ==> KeyIn(es, k)
    ensures forall a, b :: 0 <= a < b < |FromEntries(es).keys| ==>
              FirstIndex(es, FromEntries(es).keys[a]) < FirstIndex(es, FromEntries(es).keys[b])
  {
    if es != [] {
      var n := |es| - 1;
      var init := es[..n];
      FromEntriesOrder(init);
      var m0 := FromEntries(init);
      InFirstOrderExtend(es, m0.keys);
      var last := es[n].0;
      if last !in m0.entries {
        FromEntriesKeys(init);
        assert KeyIn(es, last);
        assert FirstIndex(es, last) == n;
        InFirstOrderAppend(es, m0.keys, last);
      }
    }
  }
}
