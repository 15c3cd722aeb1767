/** What has been read converts back to what was there. */
module Copies {
  import opened PyHeap
  import opened Keys
  import opened Python
  import opened Merging
  import opened Values

  /**
   * The structure a structure has after it has been read and converted again: every sequence is a list, and a
   * bytearray is bytes. All else is the same, and other objects are the very same ones.
   */
  function Copied(t: Tree): Tree {
    match t
    case TByteArray(b) => TBytes(b)
    case TSequence(_, ts) => TSequence(ListKind, seq(|ts|, i requires 0 <= i < |ts| => Copied(ts[i])))
    case TDict(es) => TDict(seq(|es|, i requires 0 <= i < |es| => (Copied(es[i].0), Copied(es[i].1))))
    case _ => t
  }

  /** The slots from c on refer to the objects, in order. */
  predicate Names(slots: seq<Ref>, c: nat, objs: seq<Addr>) {
    c + |objs| <= |slots| && forall j :: 0 <= j < |objs| ==> slots[c + j] == Ref.Ref(objs[j])
  }

  lemma NamesOfParts(slots: seq<Ref>, c: nat, a: seq<Addr>, b: seq<Addr>)
    requires Names(slots, c, a + b)
    ensures Names(slots, c, a) && Names(slots, c + |a|, b)
  {
    forall j | 0 <= j < |a| ensures slots[c + j] == Ref.Ref(a[j]) {
      assert (a + b)[j] == a[j];
    }
    forall j | 0 <= j < |b| ensures slots[c + |a| + j] == Ref.Ref(b[j]) {
      assert (a + b)[|a| + j] == b[j];
    }
  }

  /** The handles of a part are among those of the whole. */
  lemma NamesOfItem(slots: seq<Ref>, c: nat, t: Tree, i: nat)
    requires t.TSequence? && i < |t.items| && Names(slots, c, Objects(t))
    ensures Names(slots, c + |ItemObjects(t, i)|, Objects(t.items[i]))
  {
    var a, b := ItemObjects(t, i), Objects(t.items[i]);
    ItemObjectsFirst(t, i, |t.items|);
    assert Objects(t) == (a + b) + Objects(t)[|a + b|..];
    NamesOfParts(slots, c, a + b, Objects(t)[|a + b|..]);
    NamesOfParts(slots, c, a, b);
  }

  lemma NamesOfEntry(slots: seq<Ref>, c: nat, t: Tree, i: nat)
    requires t.TDict? && i < |t.entries| && Names(slots, c, Objects(t))
    ensures var (k, v) := t.entries[i];
            var d := c + |EntryObjects(t, i)|;
            Names(slots, d, Objects(k)) && Names(slots, d + |Objects(k)|, Objects(v))
  {
    var objs, a, b := EntryObjects(t, i), Objects(t.entries[i].0), Objects(t.entries[i].1);
    EntryObjectsFirst(t, i, |t.entries|);
    assert Objects(t) == (objs + a + b) + Objects(t)[|objs + a + b|..];
    NamesOfParts(slots, c, objs + a + b, Objects(t)[|objs + a + b|..]);
    NamesOfParts(slots, c, objs + a, b);
    NamesOfParts(slots, c, objs, a);
  }

  /** The value can be converted, and has the structure, with handles that refer to objects of the heap. */
  predicate IsBack(h: Heap, v: GoValue, t: Tree, slots: seq<Ref>) {
    Plain(v, Targets(slots, h)) && ToTree(v, Targets(slots, h)) == Copied(t)
  }

  /**
   * Reading keeps everything: the value read, with the handles made for it, converts back to the structure it was
   * read from, with the same other objects in the same places.
   */
  lemma {:induction false} ReadBack(h: Heap, t: Tree, c: nat, slots: seq<Ref>)
    requires Legible(h, t) && Names(slots, c, Objects(t))
    ensures IsBack(h, FromTree(t, c), t, slots)
    decreases t, 1
  {
    match t
    case TSequence(_, ts) => SequenceBack(h, t, c, slots);
    case TDict(es) =>
      EntriesBack(h, t, c, slots);
      MapBack(h, t, FromTree(t, c), slots);
    case TObject(_, _) =>
      assert slots[c + 0] == Ref.Ref(Objects(t)[0]);
    case _ =>
  }

  lemma {:induction false} SequenceBack(h: Heap, t: Tree, c: nat, slots: seq<Ref>)
    requires Legible(h, t) && t.TSequence? && Names(slots, c, Objects(t))
    ensures IsBack(h, FromTree(t, c), t, slots)
    decreases t, 0
  {
    hide Names, Objects;
    var v := FromTree(t, c);
    forall i | 0 <= i < |t.items| ensures IsBack(h, v.items[i], t.items[i], slots) {
      ItemOf(t, |t.items|, c, i);
      NamesOfItem(slots, c, t, i);
      ReadBack(h, t.items[i], c + |ItemObjects(t, i)|, slots);
    }
    hide FromTree, Legible;
    assert ToTree(v, Targets(slots, h)).items == Copied(t).items;
  }

  lemma {:induction false} EntriesBack(h: Heap, t: Tree, c: nat, slots: seq<Ref>)
    requires Legible(h, t) && t.TDict? && Names(slots, c, Objects(t))
    ensures forall i :: 0 <= i < |t.entries| ==>
              && IsBack(h, FromTree(t, c).entries[i].0, t.entries[i].0, slots)
              && IsBack(h, FromTree(t, c).entries[i].1, t.entries[i].1, slots)
    decreases t, 0
  {
    hide IsBack, Names, Objects;
    forall i | 0 <= i < |t.entries|
      ensures IsBack(h, FromTree(t, c).entries[i].0, t.entries[i].0, slots)
      ensures IsBack(h, FromTree(t, c).entries[i].1, t.entries[i].1, slots)
    {
      var d := c + |EntryObjects(t, i)|;
      EntryOf(t, |t.entries|, c, i);
      NamesOfEntry(slots, c, t, i);
      ReadBack(h, t.entries[i].0, d, slots);
      ReadBack(h, t.entries[i].1, d + |Objects(t.entries[i].0)|, slots);
    }
  }

  /** The keys stay apart, so that no entries are merged. */
  lemma MapBack(h: Heap, t: Tree, v: GoValue, slots: seq<Ref>)
    requires Legible(h, t) && t.TDict? && v.GoMap? && |v.entries| == |t.entries|
    requires forall i :: 0 <= i < |v.entries| ==>
               IsBack(h, v.entries[i].0, t.entries[i].0, slots) && IsBack(h, v.entries[i].1, t.entries[i].1, slots)
    ensures IsBack(h, v, t, slots)
  {
    var es := CopiedEntries(t);
    CopiesStayApart(h, t);
    SamePairs(h, v, t, slots);
    KeysCanBe(h, t);
    hide IsBack, Copied, Legible, ToTree, CanBeKey;
    MapIsMerged(v, Targets(slots, h));
    MergedOfDistinct(es, KeyOfTree);
    assert ToTree(v, Targets(slots, h)) == TDict(es);
    CopyOfDict(t);
    PartsHaveTrees(h, v, t, slots);
  }

  function CopiedEntries(t: Tree): (es: seq<(Tree, Tree)>)
    requires t.TDict?
    ensures |es| == |t.entries|
    ensures forall i :: 0 <= i < |es| ==> es[i] == (Copied(t.entries[i].0), Copied(t.entries[i].1))
  {
    seq(|t.entries|, i requires 0 <= i < |t.entries| => (Copied(t.entries[i].0), Copied(t.entries[i].1)))
  }

  lemma CopyOfDict(t: Tree)
    requires t.TDict?
    ensures Copied(t) == TDict(CopiedEntries(t))
  {
    assert CopiedEntries(t) == seq(|t.entries|, i requires 0 <= i < |t.entries| =>
        (Copied(t.entries[i].0), Copied(t.entries[i].1)));
  }

  lemma SamePairs(h: Heap, v: GoValue, t: Tree, slots: seq<Ref>)
    requires t.TDict? && v.GoMap? && |v.entries| == |t.entries|
    requires forall i :: 0 <= i < |v.entries| ==>
               IsBack(h, v.entries[i].0, t.entries[i].0, slots) && IsBack(h, v.entries[i].1, t.entries[i].1, slots)
    ensures Pairs(v, Targets(slots, h)) == CopiedEntries(t)
  {
    hide Copied, ToTree, HasTree;
  }

  lemma PartsHaveTrees(h: Heap, v: GoValue, t: Tree, slots: seq<Ref>)
    requires t.TDict? && v.GoMap? && |v.entries| == |t.entries| && ToTree(v, Targets(slots, h)) == Copied(t)
    requires forall i :: 0 <= i < |v.entries| ==>
               IsBack(h, v.entries[i].0, t.entries[i].0, slots) && IsBack(h, v.entries[i].1, t.entries[i].1, slots)
    requires forall i :: 0 <= i < |v.entries| ==> CanBeKey(t.entries[i].0)
    ensures IsBack(h, v, t, slots)
  {
    forall i | 0 <= i < |v.entries| ensures PlainKey(v.entries[i].0, Targets(slots, h)) {
      KeyIsPlain(h, v.entries[i].0, t.entries[i].0, slots);
    }
    hide Copied, ToTree, PlainKey, CanBeKey, KeyAt;
  }

  lemma KeyIsPlain(h: Heap, k: GoValue, t: Tree, slots: seq<Ref>)
    requires IsBack(h, k, t, slots) && CanBeKey(t)
    ensures PlainKey(k, Targets(slots, h))
  {
    hide KeyAt;
    KeyOfCopy(t);
  }

  lemma KeysCanBe(h: Heap, t: Tree)
    requires Legible(h, t) && t.TDict?
    ensures forall i :: 0 <= i < |t.entries| ==> CanBeKey(t.entries[i].0)
  {
    hide CanBeKey;
  }

  /** Keys that differ stay different. */
  lemma CopiesStayApart(h: Heap, t: Tree)
    requires Legible(h, t) && t.TDict?
    ensures DistinctBy(CopiedEntries(t), KeyOfTree)
  {
    var es := t.entries;
    forall i, j | 0 <= i < j < |es| ensures !Same(KeyOfTree(Copied(es[i].0)), KeyOfTree(Copied(es[j].0))) {
      KeyOfCopy(es[i].0);
      KeyOfCopy(es[j].0);
      assert !Same(KeyOfTree(es[i].0), KeyOfTree(es[j].0));
    }
  }

  lemma KeyOfCopy(k: Tree)
    requires KeyTree(k)
    ensures Copied(k) == k
  {
  }
}
