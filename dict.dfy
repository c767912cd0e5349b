/**
 * Python's `dict` with its insertion order: the keys in the order they were
 * first inserted, and the mapping.  Assigning an existing key keeps its place.
 */
module Dicts {
  datatype Dict<K(==), V> = Dict(keys: seq<K>, values: map<K, V>)

  predicate Distinct<K(==)>(s: seq<K>) {
    forall i, j :: 0 <= i < j < |s| ==> s[i] != s[j]
  }

  predicate Valid<K(==), V>(d: Dict<K, V>) {
    Distinct(d.keys) && d.values.Keys == (set i | 0 <= i < |d.keys| :: d.keys[i])
  }

  function Empty<K(==), V>(): (d: Dict<K, V>)
    ensures Valid(d) && d.values == map[]
  {
    Dict([], map[])
  }

  /** `d[k] = v`: a new key goes to the end, an existing key keeps its place. */
  function Put<K(==), V>(d: Dict<K, V>, k: K, v: V): (r: Dict<K, V>) {
    if k in d.values then Dict(d.keys, d.values[k := v]) else Dict(d.keys + [k], d.values[k := v])
  }

  /** Assigning a key twice keeps only the second value. */
  lemma PutOver<K, V>(d: Dict<K, V>, k: K, v: V, w: V)
    ensures k !in d.values ==> Put(Put(d, k, v), k, w) == Put(d, k, w)
  {
    if k !in d.values {
      assert d.values[k := v][k := w] == d.values[k := w];
    }
  }

  /** Assignment keeps the keys distinct and in step with the mapping. */
  lemma PutValid<K, V>(d: Dict<K, V>, k: K, v: V)
    requires Valid(d)
    ensures Valid(Put(d, k, v))
  {
    if k !in d.values {
      var ks := d.keys + [k];
      assert (set i | 0 <= i < |ks| :: ks[i]) == d.values.Keys + {k} by {
        forall x | x in d.values.Keys + {k} ensures x in (set i | 0 <= i < |ks| :: ks[i]) {
          if x == k { assert ks[|d.keys|] == k; }
          else { var i :| 0 <= i < |d.keys| && d.keys[i] == x; assert ks[i] == x; }
        }
      }
    }
  }

  /** Every listed key is mapped, and every mapped key is listed. */
  lemma KeysStored<K, V>(d: Dict<K, V>)
    requires Valid(d)
    ensures forall i :: 0 <= i < |d.keys| ==> d.keys[i] in d.values
    ensures forall k :: k in d.values <==> k in d.keys
  {
    forall i | 0 <= i < |d.keys| ensures d.keys[i] in d.values {
      var k := d.keys[i];
      assert k in (set j | 0 <= j < |d.keys| :: d.keys[j]);
    }
    forall k | k in d.values ensures k in d.keys {
      var i :| 0 <= i < |d.keys| && d.keys[i] == k;
    }
  }

  /** The pairs assigned one after another, left to right: `for k, v in es: d[k] = v`. */
  function PutAll<K(==), V>(d: Dict<K, V>, es: seq<(K, V)>): Dict<K, V>
    decreases |es|
  {
    if es == [] then d
    else Put(PutAll(d, es[..|es| - 1]), es[|es| - 1].0, es[|es| - 1].1)
  }

  /** One more assignment at the end. */
  lemma PutAllSnoc<K, V>(d: Dict<K, V>, es: seq<(K, V)>, e: (K, V))
    ensures PutAll(d, es + [e]) == Put(PutAll(d, es), e.0, e.1)
  {
    assert (es + [e])[..|es|] == es;
  }

  lemma {:induction false} PutAllValid<K, V>(d: Dict<K, V>, es: seq<(K, V)>)
    requires Valid(d)
    ensures Valid(PutAll(d, es))
    decreases |es|
  {
    if es != [] {
      PutAllValid(d, es[..|es| - 1]);
      PutValid(PutAll(d, es[..|es| - 1]), es[|es| - 1].0, es[|es| - 1].1);
    }
  }

  /** The keys the pairs mention. */
  function KeysOf<K, V>(es: seq<(K, V)>): set<K> {
    set k | 0 <= k < |es| :: es[k].0
  }

  /** Pair `k` is the last one with its key. */
  predicate LastOfKey<K(==), V>(es: seq<(K, V)>, k: nat)
    requires k < |es|
  {
    forall j :: k < j < |es| ==> es[j].0 != es[k].0
  }

  /** The keys after the assignments: the old keys and the new ones. */
  lemma {:induction false} PutAllKeys<K, V>(d: Dict<K, V>, es: seq<(K, V)>)
    ensures PutAll(d, es).values.Keys == d.values.Keys + KeysOf(es)
    decreases |es|
  {
    if es != [] {
      var init := es[..|es| - 1];
      var last := es[|es| - 1];
      PutAllKeys(d, init);
      assert KeysOf(es) == KeysOf(init) + {last.0} by {
        forall x | x in KeysOf(es) ensures x in KeysOf(init) + {last.0} {
          var k :| 0 <= k < |es| && es[k].0 == x;
          if k < |init| { assert init[k] == es[k]; }
        }
        forall x | x in KeysOf(init) ensures x in KeysOf(es) {
          var k :| 0 <= k < |init| && init[k].0 == x;
          assert es[k] == init[k];
        }
        assert es[|es| - 1].0 == last.0;
      }
    }
  }

  /** The last pair with a key gives that key's value. */
  lemma {:induction false} PutAllLast<K, V>(d: Dict<K, V>, es: seq<(K, V)>)
    ensures forall k :: 0 <= k < |es| && LastOfKey(es, k) ==>
      es[k].0 in PutAll(d, es).values && PutAll(d, es).values[es[k].0] == es[k].1
    decreases |es|
  {
    if es != [] {
      var init := es[..|es| - 1];
      var last := es[|es| - 1];
      assert PutAll(d, es) == Put(PutAll(d, init), last.0, last.1);
      PutAllLast(d, init);
      forall k | 0 <= k < |es| && LastOfKey(es, k)
        ensures es[k].0 in PutAll(d, es).values && PutAll(d, es).values[es[k].0] == es[k].1
      {
        if k < |init| {
          assert init[k] == es[k];
          assert LastOfKey(init, k);
          assert es[k].0 != last.0;
        }
      }
    }
  }

  /** Keys no pair mentions keep their value. */
  lemma {:induction false} PutAllUntouched<K, V>(d: Dict<K, V>, es: seq<(K, V)>, c: K)
    requires c in d.values && forall k :: 0 <= k < |es| ==> es[k].0 != c
    ensures c in PutAll(d, es).values && PutAll(d, es).values[c] == d.values[c]
    decreases |es|
  {
    if es != [] {
      var init := es[..|es| - 1];
      assert forall k :: 0 <= k < |init| ==> init[k] == es[k];
      PutAllUntouched(d, init, c);
    }
  }
}
