/** What the normal form of a Go value is, apart from how it comes about. */
module NormalForms {
  import opened PyHeap
  import opened Keys
  import opened Merging
  import opened Values

  /**
   * Values as they come out of Python: integers are int64 where they fit and big otherwise, a map has string keys
   * exactly if all its keys are strings, and no two keys are equal for Python.
   */
  predicate IsNormal(v: GoValue) {
    match v
    case GoNilPointer => false
    case GoUint(_) => false
    case GoBigInt(z) => z < MIN_INT64 || MAX_INT64 < z
    case GoSlice(items) => forall i :: 0 <= i < |items| ==> IsNormal(items[i])
    case GoMap(stringKeys, entries) =>
      && (stringKeys <==> AllStrings(entries))
      && (forall i :: 0 <= i < |entries| ==> IsNormal(entries[i].0) && IsNormal(entries[i].1))
      && (forall i, j :: 0 <= i < j < |entries| ==> !Same(KeyOfValue(entries[i].0), KeyOfValue(entries[j].0)))
    case _ => true
  }

  /** A value is normal exactly if it is its own normal form, and normal forms are normal. */
  lemma {:induction false} NormalIff(v: GoValue)
    ensures IsNormal(NormalForm(v))
    ensures IsNormal(v) <==> NormalForm(v) == v
    ensures KeyOfValue(NormalForm(v)) == KeyOfValue(v) && (NormalForm(v).GoString? <==> v.GoString?)
    decreases v
  {
    match v
    case GoSlice(items) =>
      forall i | 0 <= i < |items|
        ensures IsNormal(NormalForm(items[i])) && (IsNormal(items[i]) <==> NormalForm(items[i]) == items[i])
      {
        NormalIff(items[i]);
      }
      SliceIsNormal(v);
    case GoMap(_, entries) =>
      forall i | 0 <= i < |entries| ensures PartIsNormal(entries[i].0) && PartIsNormal(entries[i].1) {
        NormalIff(entries[i].0);
        NormalIff(entries[i].1);
      }
      MapIsNormal(v);
      if IsNormal(v) {
        NormalMapStays(v);
      }
    case _ =>
  }

  predicate PartIsNormal(v: GoValue) {
    && IsNormal(NormalForm(v)) && (IsNormal(v) <==> NormalForm(v) == v)
    && KeyOfValue(NormalForm(v)) == KeyOfValue(v) && (NormalForm(v).GoString? <==> v.GoString?)
  }

  lemma SliceIsNormal(v: GoValue)
    requires v.GoSlice?
    requires forall i :: 0 <= i < |v.items| ==>
               IsNormal(NormalForm(v.items[i])) && (IsNormal(v.items[i]) <==> NormalForm(v.items[i]) == v.items[i])
    ensures IsNormal(NormalForm(v)) && (IsNormal(v) <==> NormalForm(v) == v)
  {
    var nfs := NormalForm(v).items;
    assert forall i :: 0 <= i < |v.items| ==> nfs[i] == NormalForm(v.items[i]);
    if IsNormal(v) {
      assert nfs == v.items;
    }
  }

  lemma MapIsNormal(v: GoValue)
    requires v.GoMap?
    requires forall i :: 0 <= i < |v.entries| ==> PartIsNormal(v.entries[i].0) && PartIsNormal(v.entries[i].1)
    ensures IsNormal(NormalForm(v)) && NormalForm(v).GoMap?
  {
    NormalIsMerged(v);
    var es := NormalPairs(v);
    MergedIsDistinct(es, KeyOfValue);
    MergedKeeps(es, KeyOfValue, k => IsNormal(k), w => IsNormal(w));
    StringsStay(v);
  }

  /** All keys are strings exactly if all keys of the normal form are. */
  lemma StringsStay(v: GoValue)
    requires v.GoMap?
    requires forall i :: 0 <= i < |v.entries| ==> PartIsNormal(v.entries[i].0) && PartIsNormal(v.entries[i].1)
    ensures AllStrings(v.entries) <==> AllStrings(Merged(NormalPairs(v), KeyOfValue))
  {
    hide IsNormal, NormalForm, KeyOfValue, PartIsNormal;
    var es := NormalPairs(v);
    forall i | 0 <= i < |es| ensures es[i].0.GoString? <==> v.entries[i].0.GoString? {
      StringStays(v.entries[i].0);
    }
    if AllStrings(v.entries) {
      MergedKeeps(es, KeyOfValue, (k: GoValue) => k.GoString?, (w: GoValue) => true);
    }
    if AllStrings(Merged(es, KeyOfValue)) {
      forall i | 0 <= i < |v.entries| ensures v.entries[i].0.GoString? {
        var j := MergedHasKey(es, KeyOfValue, i);
        OnlyStringsHaveStrKeys(Merged(es, KeyOfValue)[j].0, es[i].0);
      }
    }
  }

  lemma StringStays(k: GoValue)
    ensures PartIsNormal(k) ==> (NormalForm(k).GoString? <==> k.GoString?)
  {
  }

  lemma OnlyStringsHaveStrKeys(a: GoValue, b: GoValue)
    ensures a.GoString? && KeyOfValue(a) == KeyOfValue(b) ==> b.GoString?
  {
  }

  lemma NormalMapStays(v: GoValue)
    requires v.GoMap? && IsNormal(v)
    requires forall i :: 0 <= i < |v.entries| ==> PartIsNormal(v.entries[i].0) && PartIsNormal(v.entries[i].1)
    ensures NormalForm(v) == v
  {
    NormalIsMerged(v);
    assert NormalPairs(v) == v.entries;
    MergedOfDistinct(v.entries, KeyOfValue);
  }

  /** Values have one normal form exactly if Python cannot tell them apart: if they have one structure. */
  lemma NormalFormIsCanonical(v: GoValue, w: GoValue)
    requires HasTree(v, []) && HasTree(w, [])
    ensures NormalForm(v) == NormalForm(w) <==> ToTree(v, []) == ToTree(w, [])
  {
    hide HasTree, NormalForm, ToTree;
    NormalFormIsNormal(v);
    NormalFormIsNormal(w);
    RoundTrip(v);
    RoundTrip(w);
  }
}
