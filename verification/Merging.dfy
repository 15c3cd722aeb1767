/**
 * Entries put one after the other under keys, of which some may be equal: the first key stays, the last value
 * counts.
 */
module Merging {

  /** What a key is equal to; some keys are equal to no other. */
  datatype Lookup<Q> = Alone | Equal(q: Q)

  predicate Same<Q(==)>(a: Lookup<Q>, b: Lookup<Q>) {
    a.Equal? && a == b
  }

  /** The position of a key among entries, or their number when it is not there. */
  function Find<K, V, Q(==)>(es: seq<(K, V)>, key: K -> Lookup<Q>, q: Lookup<Q>): (i: nat)
    ensures i <= |es|
    ensures i < |es| ==> Same(key(es[i].0), q)
    ensures forall j :: 0 <= j < i ==> !Same(key(es[j].0), q)
  {
    if es == [] || Same(key(es[0].0), q) then 0 else 1 + Find(es[1..], key, q)
  }

  function Put<K, V, Q(==)>(es: seq<(K, V)>, key: K -> Lookup<Q>, k: K, v: V): seq<(K, V)> {
    var i := Find(es, key, key(k));
    if i == |es| then es + [(k, v)] else es[i := (es[i].0, v)]
  }

  function Merged<K, V, Q(==)>(es: seq<(K, V)>, key: K -> Lookup<Q>): seq<(K, V)> {
    if es == [] then []
    else
      var (k, v) := es[|es| - 1];
      Put(Merged(es[..|es| - 1], key), key, k, v)
  }

  ghost predicate DistinctBy<K, V, Q(!new)>(es: seq<(K, V)>, key: K -> Lookup<Q>) {
    forall i, j :: 0 <= i < j < |es| ==> !Same(key(es[i].0), key(es[j].0))
  }

  function Mapped<K, V, L, W>(es: seq<(K, V)>, f: K -> L, g: V -> W): (r: seq<(L, W)>)
    ensures |r| == |es| && forall i :: 0 <= i < |r| ==> r[i] == (f(es[i].0), g(es[i].1))
  {
    seq(|es|, i requires 0 <= i < |es| => (f(es[i].0), g(es[i].1)))
  }

  lemma PutLast<K, V, Q>(es: seq<(K, V)>, key: K -> Lookup<Q>, i: nat)
    requires i < |es|
    ensures Merged(es[..i + 1], key) == Put(Merged(es[..i], key), key, es[i].0, es[i].1)
  {
    assert es[..i + 1][..i] == es[..i];
  }

  lemma {:induction false} MergedIsDistinct<K, V, Q(!new)>(es: seq<(K, V)>, key: K -> Lookup<Q>)
    ensures DistinctBy(Merged(es, key), key) && |Merged(es, key)| <= |es|
  {
    if es != [] {
      MergedIsDistinct(es[..|es| - 1], key);
    }
  }

  /** Nothing is merged where all keys differ. */
  lemma {:induction false} MergedOfDistinct<K, V, Q(!new)>(es: seq<(K, V)>, key: K -> Lookup<Q>)
    requires DistinctBy(es, key)
    ensures Merged(es, key) == es
  {
    if es != [] {
      var n := |es| - 1;
      MergedOfDistinct(es[..n], key);
      assert es == es[..n] + [es[n]];
    }
  }

  /** Keys and values are those there were. */
  lemma {:induction false} MergedKeeps<K, V, Q>(es: seq<(K, V)>, key: K -> Lookup<Q>, p: K -> bool, q: V -> bool)
    requires forall i :: 0 <= i < |es| ==> p(es[i].0) && q(es[i].1)
    ensures forall i :: 0 <= i < |Merged(es, key)| ==> p(Merged(es, key)[i].0) && q(Merged(es, key)[i].1)
  {
    if es != [] {
      MergedKeeps(es[..|es| - 1], key, p, q);
    }
  }

  /** No key is lost, up to equality. */
  lemma {:induction false} MergedHasKey<K, V, Q>(es: seq<(K, V)>, key: K -> Lookup<Q>, i: nat) returns (j: nat)
    requires i < |es|
    ensures j < |Merged(es, key)| && key(Merged(es, key)[j].0) == key(es[i].0)
  {
    var n := |es| - 1;
    if i == n {
      j := Find(Merged(es[..n], key), key, key(es[n].0));
    } else {
      j := MergedHasKey(es[..n], key, i);
    }
  }

  /** The value put last under a key is the one that counts, as is any under a key equal to no other. */
  lemma {:induction false} LastValueCounts<K, V, Q>(es: seq<(K, V)>, key: K -> Lookup<Q>, i: nat) returns (j: nat)
    requires i < |es| && forall k :: i < k < |es| ==> !Same(key(es[k].0), key(es[i].0))
    ensures j < |Merged(es, key)| && key(Merged(es, key)[j].0) == key(es[i].0) && Merged(es, key)[j].1 == es[i].1
  {
    var n := |es| - 1;
    if i == n {
      j := Find(Merged(es[..n], key), key, key(es[n].0));
    } else {
      j := LastValueCounts(es[..n], key, i);
    }
  }

  /** A key stays as it was put first, before any equal one. */
  lemma {:induction false} FirstKeyStays<K, V, Q>(es: seq<(K, V)>, key: K -> Lookup<Q>, i: nat) returns (j: nat)
    requires i < |es| && forall k :: 0 <= k < i ==> !Same(key(es[k].0), key(es[i].0))
    ensures j < |Merged(es, key)| && Merged(es, key)[j].0 == es[i].0
  {
    var n := |es| - 1;
    if i == n {
      MergedKeeps(es[..n], key, k => !Same(key(k), key(es[n].0)), v => true);
      j := |Merged(es[..n], key)|;
    } else {
      j := FirstKeyStays(es[..n], key, i);
    }
  }

  /** There are no keys but those put first. */
  lemma {:induction false} EachWasFirst<K, V, Q>(es: seq<(K, V)>, key: K -> Lookup<Q>, j: nat) returns (i: nat)
    requires j < |Merged(es, key)|
    ensures i < |es| && Merged(es, key)[j].0 == es[i].0
    ensures forall k :: 0 <= k < i ==> !Same(key(es[k].0), key(es[i].0))
  {
    var n := |es| - 1;
    var rest := Merged(es[..n], key);
    if j < |rest| {
      i := EachWasFirst(es[..n], key, j);
    } else {
      i := n;
      if k :| 0 <= k < n && Same(key(es[k].0), key(es[n].0)) {
        var there := MergedHasKey(es[..n], key, k);
        assert false;
      }
    }
  }

  /** Merging and converting entry by entry commute when the conversion keeps what keys are equal to. */
  lemma {:induction false} MergedCommutes<K, V, L, W, Q>(
    es: seq<(K, V)>, key: K -> Lookup<Q>, f: K -> L, g: V -> W, key': L -> Lookup<Q>)
    requires forall i :: 0 <= i < |es| ==> key'(f(es[i].0)) == key(es[i].0)
    ensures Mapped(Merged(es, key), f, g) == Merged(Mapped(es, f, g), key')
  {
    if es != [] {
      var n := |es| - 1;
      var rest, last := es[..n], es[n];
      MergedCommutes(rest, key, f, g, key');
      assert Mapped(es, f, g)[..n] == Mapped(rest, f, g);
      MergedKeeps(rest, key, k => key'(f(k)) == key(k), v => true);
      PutCommutes(Merged(rest, key), key, f, g, key', last.0, last.1);
    }
  }

  lemma PutCommutes<K, V, L, W, Q>(
    es: seq<(K, V)>, key: K -> Lookup<Q>, f: K -> L, g: V -> W, key': L -> Lookup<Q>, k: K, v: V)
    requires forall i :: 0 <= i < |es| ==> key'(f(es[i].0)) == key(es[i].0)
    requires key'(f(k)) == key(k)
    ensures Mapped(Put(es, key, k, v), f, g) == Put(Mapped(es, f, g), key', f(k), g(v))
  {
    var i := Find(es, key, key(k));
    var j := Find(Mapped(es, f, g), key', key'(f(k)));
    if i < |es| {
      assert Same(key'(Mapped(es, f, g)[i].0), key'(f(k)));
    }
    if j < |es| {
      assert Same(key(es[j].0), key(k));
    }
    assert i == j;
  }
}
