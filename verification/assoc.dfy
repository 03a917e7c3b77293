/**
 * Ordered string-keyed entries: the model of a plain JavaScript object whose
 * keys iterate in insertion order (no integer-like keys). Reading a key finds
 * its entry; assigning a key replaces the value in place when the key exists
 * and appends a new entry otherwise.
 */
module Assoc {
  import opened Wrappers

  type Entries<V> = seq<(string, V)>

  /** The keys in iteration (`for ... in`) order. */
  function Keys<V>(es: Entries<V>): (ks: seq<string>)
    ensures |ks| == |es|
    ensures forall i :: 0 <= i < |es| ==> ks[i] == es[i].0
  {
    if |es| == 0 then [] else [es[0].0] + Keys(es[1..])
  }

  /** No key occurs twice. */
  predicate Distinct(ks: seq<string>) {
    forall i, j :: 0 <= i < j < |ks| ==> ks[i] != ks[j]
  }

  /** `obj[key]`: the value of the first entry for `key`, if any. */
  function Find<V>(es: Entries<V>, key: string): (r: Option<V>)
    ensures r.None? <==> key !in Keys(es)
    ensures r.Some? ==> exists i :: 0 <= i < |es| && es[i] == (key, r.value)
  {
    if |es| == 0 then None
    else if es[0].0 == key then Some(es[0].1)
    else Find(es[1..], key)
  }

  /** `obj[key] = v`. */
  function Put<V>(es: Entries<V>, key: string, v: V): (r: Entries<V>)
    ensures Find(r, key) == Some(v)
    ensures forall k :: k != key ==> Find(r, k) == Find(es, k)
    ensures key in Keys(es) ==> Keys(r) == Keys(es)
    ensures key !in Keys(es) ==> Keys(r) == Keys(es) + [key]
  {
    PutFinds(es, key, v);
    PutKeys(es, key, v);
    Assign(es, key, v)
  }

  /** The assignment itself: replace the first entry for `key`, or append one. */
  function Assign<V>(es: Entries<V>, key: string, v: V): Entries<V> {
    if |es| == 0 then [(key, v)]
    else if es[0].0 == key then [(key, v)] + es[1..]
    else [es[0]] + Assign(es[1..], key, v)
  }

  /** After assigning `key`, reading it yields the new value and every other key reads as before. */
  lemma {:induction false} PutFinds<V>(es: Entries<V>, key: string, v: V)
    ensures Find(Assign(es, key, v), key) == Some(v)
    ensures forall k :: k != key ==> Find(Assign(es, key, v), k) == Find(es, k)
  {
    var r := Assign(es, key, v);
    if |es| > 0 {
      if es[0].0 == key {
        assert r[1..] == es[1..];
      } else {
        PutFinds(es[1..], key, v);
        assert r[1..] == Assign(es[1..], key, v);
      }
    }
  }

  /** Assigning an existing key keeps the key order; a new key is appended. */
  lemma {:induction false} PutKeys<V>(es: Entries<V>, key: string, v: V)
    ensures key in Keys(es) ==> Keys(Assign(es, key, v)) == Keys(es)
    ensures key !in Keys(es) ==> Keys(Assign(es, key, v)) == Keys(es) + [key]
  {
    var r := Assign(es, key, v);
    if |es| > 0 {
      KeysCons(es[0], es[1..]);
      assert [es[0]] + es[1..] == es;
      if es[0].0 == key {
        KeysCons((key, v), es[1..]);
      } else {
        PutKeys(es[1..], key, v);
        KeysCons(es[0], Assign(es[1..], key, v));
      }
    }
  }

  /** The keys of an object with one more entry in front. */
  lemma KeysCons<V>(e: (string, V), es: Entries<V>)
    ensures Keys([e] + es) == [e.0] + Keys(es)
  {
    assert ([e] + es)[1..] == es;
  }

  /** In an object without repeated keys, each entry is what reading its key yields. */
  lemma {:induction false} FindDistinct<V>(es: Entries<V>, i: nat)
    requires Distinct(Keys(es))
    requires i < |es|
    ensures Find(es, es[i].0) == Some(es[i].1)
  {
    if i > 0 {
      assert Keys(es[1..]) == Keys(es)[1..];
      assert es[0].0 != es[i].0 by { assert Keys(es)[0] != Keys(es)[i]; }
      FindDistinct(es[1..], i - 1);
    }
  }

  /** After an assignment the keys are the old keys and the assigned one. */
  lemma PutKeySet<V>(es: Entries<V>, key: string, v: V)
    ensures forall k :: k in Keys(Put(es, key, v)) <==> k in Keys(es) || k == key
  {
    if key !in Keys(es) {
      assert Keys(Put(es, key, v)) == Keys(es) + [key];
    }
  }

  /** Assignment never introduces a repeated key. */
  lemma PutKeepsDistinct<V>(es: Entries<V>, key: string, v: V)
    requires Distinct(Keys(es))
    ensures Distinct(Keys(Put(es, key, v)))
  {
  }
}
