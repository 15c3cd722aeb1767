/** What Go values become and what Python objects are read as, told by the objects alone. */
module Meanings {
  import opened PyHeap
  import opened Keys
  import opened Python
  import opened Merging
  import opened Values
  import opened Copies
  import opened Structures

  // ----- from Go to Python -----

  /** What a key of a map is equal to for Python; a handle is equal to what its object is. */
  function KeyFor(h: Heap, k: GoValue, slots: seq<Ref>): Lookup<Key> {
    if k.GoHandle? && k.id < |slots| && slots[k.id].Ref? then Equal(KeyAt(h, slots[k.id].addr)) else KeyOfValue(k)
  }

  /** No earlier key of the map is equal to the i-th. */
  predicate IsFirst(h: Heap, v: GoValue, i: nat, slots: seq<Ref>)
    requires v.GoMap? && i < |v.entries|
  {
    forall k :: 0 <= k < i ==> !Same(KeyFor(h, v.entries[k].0, slots), KeyFor(h, v.entries[i].0, slots))
  }

  /** No later key of the map is equal to the i-th. */
  predicate IsLast(h: Heap, v: GoValue, i: nat, slots: seq<Ref>)
    requires v.GoMap? && i < |v.entries|
  {
    forall k :: i < k < |v.entries| ==> !Same(KeyFor(h, v.entries[k].0, slots), KeyFor(h, v.entries[i].0, slots))
  }

  /** The object at p is what the value becomes. */
  ghost predicate Becomes(h: Heap, p: Addr, v: GoValue, slots: seq<Ref>)
    decreases v, 2
  {
    && p < |h|
    && match v
       case GoNil => h[p].payload == NoneObject
       case GoNilPointer => h[p].payload == NoneObject
       case GoHandle(id) => id < |slots| && slots[id] == Ref.Ref(p)
       case GoBool(b) => h[p].payload == BoolObject(b)
       case GoInt(i) => h[p].payload == IntObject(i)
       case GoUint(u) => h[p].payload == IntObject(u)
       case GoBigInt(z) => h[p].payload == IntObject(z)
       case GoFloat(f) => h[p].payload == FloatObject(f)
       case GoString(s) => h[p].payload == StrObject(s)
       case GoBytes(b) => h[p].payload == BytesObject(b)
       case GoSlice(values) =>
         && h[p].payload.SequenceObject? && h[p].payload.kind == ListKind && |h[p].payload.items| == |values|
         && forall i :: 0 <= i < |values| ==>
              h[p].payload.items[i].Item? && Becomes(h, h[p].payload.items[i].addr, values[i], slots)
       case GoMap(_, es) =>
         && h[p].payload.DictObject?
         && (forall i :: 0 <= i < |es| && IsFirst(h, v, i, slots) ==> HasKeyFor(h, h[p].payload.entries, v, i, slots))
         && (forall i :: 0 <= i < |es| && IsLast(h, v, i, slots) ==> HasValueFor(h, h[p].payload.entries, v, i, slots))
         && (forall j :: 0 <= j < |h[p].payload.entries| ==> HasOrigin(h, h[p].payload.entries[j], v, slots))
         && KeysApart(h[p].payload.entries)
       case _ => false
  }

  /** Some entry has the i-th key. */
  ghost predicate HasKeyFor(h: Heap, entries: seq<Entry>, v: GoValue, i: nat, slots: seq<Ref>)
    requires v.GoMap? && i < |v.entries|
    decreases v, 1
  {
    exists j :: 0 <= j < |entries| && Becomes(h, entries[j].key, v.entries[i].0, slots)
  }

  /** Some entry has the i-th value, under a key equal to the i-th. */
  ghost predicate HasValueFor(h: Heap, entries: seq<Entry>, v: GoValue, i: nat, slots: seq<Ref>)
    requires v.GoMap? && i < |v.entries|
    decreases v, 1
  {
    exists j :: 0 <= j < |entries| && IsEntryFor(h, entries[j], v, i, slots)
  }

  ghost predicate IsEntryFor(h: Heap, entry: Entry, v: GoValue, i: nat, slots: seq<Ref>)
    requires v.GoMap? && i < |v.entries|
    decreases v, 0
  {
    var (k, e) := v.entries[i];
    && (if KeyFor(h, k, slots).Equal? then KeyAt(h, entry.key) == KeyFor(h, k, slots).q
        else Becomes(h, entry.key, k, slots))
    && Becomes(h, entry.value, e, slots)
  }

  /** The key of the entry is one of the map's that is the first among its equals. */
  ghost predicate HasOrigin(h: Heap, entry: Entry, v: GoValue, slots: seq<Ref>)
    requires v.GoMap?
    decreases v, 1
  {
    exists i :: 0 <= i < |v.entries| && IsFirst(h, v, i, slots) && Becomes(h, entry.key, v.entries[i].0, slots)
  }

  /** The key of a structure is what the heap says. */
  predicate IsTrueKey(h: Heap, t: Tree) {
    CanBeKey(t) && (t.TObject? ==> KeyAt(h, t.addr) == t.key)
  }

  lemma KeyOfPlain(h: Heap, k: GoValue, slots: seq<Ref>)
    requires PlainKey(k, Targets(slots, h)) && HasTree(k, Targets(slots, h))
    ensures var t := ToTree(k, Targets(slots, h));
            && KeyOfTree(t) == KeyFor(h, k, slots) && IsTrueKey(h, t)
            && (KeyOfTree(t) == Alone ==> k == GoFloat(NaN))
  {
    if !k.GoHandle? {
      KeyWithoutHandles(k, Targets(slots, h));
    }
  }

  lemma KeyThatIsTrue(h: Heap, p: Addr, t: Tree, n: nat, lo: nat)
    requires Represents(h, p, t, n, lo) && IsTrueKey(h, t)
    ensures KeyOfTree(t).Equal? ==> KeyAt(h, p) == KeyOfTree(t).q
    ensures !KeyOfTree(t).Equal? ==> t == TFloat(NaN)
  {
    if !t.TObject? {
      KeyOfRepresented(h, p, t, n, lo);
    }
  }

  lemma DictHolds(h: Heap, d: Addr, es: seq<(Tree, Tree)>, n: nat, lo: nat, j: nat)
    requires Represents(h, d, TDict(es), n, lo) && j < |es|
    ensures d < |h| && h[d].payload.DictObject? && |h[d].payload.entries| == |es| && KeysApart(h[d].payload.entries)
    ensures Represents(h, h[d].payload.entries[j].key, es[j].0, n, lo)
    ensures Represents(h, h[d].payload.entries[j].value, es[j].1, n, lo)
  {
  }

  function DictOf(h: Heap, d: Addr, es: seq<(Tree, Tree)>, n: nat, lo: nat): (entries: seq<Entry>)
    requires Represents(h, d, TDict(es), n, lo)
    ensures d < |h| && h[d].payload == DictObject(entries) && |entries| == |es| && KeysApart(entries)
  {
    h[d].payload.entries
  }

  lemma PlainParts(v: GoValue, targets: seq<Target>, i: nat)
    requires v.GoMap? && Plain(v, targets) && i < |v.entries|
    ensures PlainKey(v.entries[i].0, targets) && Plain(v.entries[i].0, targets) && Plain(v.entries[i].1, targets)
  {
    assert PlainKey(v.entries[i].0, targets);
  }

  lemma KeyIsThere(h: Heap, entries: seq<Entry>, v: GoValue, i: nat, slots: seq<Ref>, j: nat)
    requires v.GoMap? && i < |v.entries| && j < |entries| && Becomes(h, entries[j].key, v.entries[i].0, slots)
    ensures HasKeyFor(h, entries, v, i, slots)
  {
    hide Becomes;
  }

  lemma OriginIsThere(h: Heap, entry: Entry, v: GoValue, i: nat, slots: seq<Ref>)
    requires v.GoMap? && i < |v.entries| && IsFirst(h, v, i, slots) && Becomes(h, entry.key, v.entries[i].0, slots)
    ensures HasOrigin(h, entry, v, slots)
  {
    hide Becomes;
  }

  lemma ValueIsThere(h: Heap, entries: seq<Entry>, v: GoValue, i: nat, slots: seq<Ref>, j: nat, kt: Tree, n: nat,
                     lo: nat)
    requires v.GoMap? && i < |v.entries| && j < |entries| && Becomes(h, entries[j].value, v.entries[i].1, slots)
    requires PlainKey(v.entries[i].0, Targets(slots, h)) && HasTree(v.entries[i].0, Targets(slots, h))
    requires IsTrueKey(h, kt) && KeyOfTree(kt) == KeyFor(h, v.entries[i].0, slots)
    requires Represents(h, entries[j].key, kt, n, lo)
    ensures HasValueFor(h, entries, v, i, slots)
  {
    var k := v.entries[i].0;
    KeyThatIsTrue(h, entries[j].key, kt, n, lo);
    KeyOfPlain(h, k, slots);
    hide KeyAt, KeyOfTree, KeyFor;
    assert k == GoFloat(NaN) && kt == TFloat(NaN) ==> Becomes(h, entries[j].key, k, slots);
    hide Becomes;
    assert IsEntryFor(h, entries[j], v, i, slots);
  }

  /** An object of the structure of a value is what the value becomes. */
  lemma {:induction false} PlainBecomes(h: Heap, p: Addr, v: GoValue, slots: seq<Ref>, n: nat, lo: nat)
    requires Plain(v, Targets(slots, h)) && Represents(h, p, ToTree(v, Targets(slots, h)), n, lo)
    ensures Becomes(h, p, v, slots)
    decreases v, 1
  {
    match v
    case GoSlice(values) =>
      forall i | 0 <= i < |values|
        ensures h[p].payload.items[i].Item? && Becomes(h, h[p].payload.items[i].addr, values[i], slots)
      {
        PlainBecomes(h, h[p].payload.items[i].addr, values[i], slots, n, lo);
      }
    case GoMap(_, _) => MapBecomes(h, p, v, slots, n, lo);
    case _ =>
  }

  lemma {:induction false} MapBecomes(h: Heap, p: Addr, v: GoValue, slots: seq<Ref>, n: nat, lo: nat)
    requires v.GoMap? && Plain(v, Targets(slots, h)) && Represents(h, p, ToTree(v, Targets(slots, h)), n, lo)
    ensures Becomes(h, p, v, slots)
    decreases v, 0
  {
    hide KeyAt, Represents, IsTrueKey, KeyOfTree, KeyFor, ToTree, Merged, PlainKey;
    hide HasKeyFor, HasValueFor, HasOrigin;
    var ts := Targets(slots, h);
    var es := Pairs(v, ts);
    var all := Merged(es, KeyOfTree);
    MapIsMerged(v, ts);
    forall k | 0 <= k < |es|
      ensures Plain(v.entries[k].0, ts) && PlainKey(v.entries[k].0, ts) && Plain(v.entries[k].1, ts)
      ensures KeyOfTree(es[k].0) == KeyFor(h, v.entries[k].0, slots) && IsTrueKey(h, es[k].0)
    {
      PlainParts(v, ts, k);
      KeyOfPlain(h, v.entries[k].0, slots);
    }
    MergedKeeps(es, KeyOfTree, k => IsTrueKey(h, k), (t: Tree) => true);
    var entries := DictOf(h, p, all, n, lo);
    forall i | 0 <= i < |es| && IsFirst(h, v, i, slots) ensures HasKeyFor(h, entries, v, i, slots) {
      var j := FirstKeyStays(es, KeyOfTree, i);
      DictHolds(h, p, all, n, lo, j);
      PlainBecomes(h, entries[j].key, v.entries[i].0, slots, n, lo);
      KeyIsThere(h, entries, v, i, slots, j);
    }
    forall i | 0 <= i < |es| && IsLast(h, v, i, slots) ensures HasValueFor(h, entries, v, i, slots) {
      var j := LastValueCounts(es, KeyOfTree, i);
      DictHolds(h, p, all, n, lo, j);
      PlainBecomes(h, entries[j].value, v.entries[i].1, slots, n, lo);
      ValueIsThere(h, entries, v, i, slots, j, all[j].0, n, lo);
    }
    forall j | 0 <= j < |entries| ensures HasOrigin(h, entries[j], v, slots) {
      var i := EachWasFirst(es, KeyOfTree, j);
      DictHolds(h, p, all, n, lo, j);
      PlainBecomes(h, entries[j].key, v.entries[i].0, slots, n, lo);
      OriginIsThere(h, entries[j], v, i, slots);
    }
  }

  // ----- from Python to Go -----

  /**
   * The value is what the object at p is read as: an integer is an int64 if it fits, sequences keep their order, a
   * dictionary has string keys exactly if all are strings, and anything else is a handle to that very object.
   */
  ghost predicate ReadsAs(h: Heap, p: Addr, v: GoValue, slots: seq<Ref>)
    decreases v
  {
    && p < |h|
    && match h[p].payload
       case NoneObject => v == GoNil
       case BoolObject(b) => v == GoBool(b)
       case IntObject(i) => if MIN_INT64 <= i <= MAX_INT64 then v == GoInt(i) else v == GoBigInt(i)
       case FloatObject(f) => v == GoFloat(f)
       case StrObject(s) => v == GoString(s)
       case BytesObject(b) => v == GoBytes(b)
       case ByteArrayObject(b) => v == GoBytes(b)
       case SequenceObject(_, items) =>
         && v.GoSlice? && |v.items| == |items|
         && forall i :: 0 <= i < |items| ==> items[i].Item? && ReadsAs(h, items[i].addr, v.items[i], slots)
       case DictObject(entries) =>
         && v.GoMap? && |v.entries| == |entries| && (v.stringKeys <==> AllStrings(v.entries))
         && forall i :: 0 <= i < |entries| ==>
              && ReadsAs(h, entries[i].key, v.entries[i].0, slots)
              && ReadsAs(h, entries[i].value, v.entries[i].1, slots)
       case _ => v.GoHandle? && v.id < |slots| && slots[v.id] == Ref.Ref(p)
  }

  lemma StrIsString(t: Tree, c: nat)
    ensures FromTree(t, c).GoString? <==> t.TStr?
  {
  }

  /** The keys are strings exactly where the keys of the structure are. */
  lemma {:induction false} KeysAreStrings(t: Tree, n: nat, c: nat)
    requires t.TDict? && n <= |t.entries|
    ensures AllStrings(FromEntries(t, n, c)) <==> AllStr(t.entries[..n])
    ensures t.entries[..|t.entries|] == t.entries
  {
    if n > 0 {
      KeysAreStrings(t, n - 1, c);
      var e := FromEntry(t, n - 1, c);
      StrIsString(t.entries[n - 1].0, c + |EntryObjects(t, n - 1)|);
      assert FromEntries(t, n, c) == FromEntries(t, n - 1, c) + [e];
      assert t.entries[..n] == t.entries[..n - 1] + [t.entries[n - 1]];
      AppendStrings(FromEntries(t, n - 1, c), e, t.entries[..n - 1], t.entries[n - 1]);
    }
  }

  lemma AppendStrings(vs: seq<(GoValue, GoValue)>, v: (GoValue, GoValue), es: seq<(Tree, Tree)>, e: (Tree, Tree))
    ensures AllStrings(vs + [v]) <==> AllStrings(vs) && v.0.GoString?
    ensures AllStr(es + [e]) <==> AllStr(es) && e.0.TStr?
  {
    if AllStrings(vs + [v]) {
      assert (vs + [v])[|vs|] == v;
      forall i | 0 <= i < |vs| ensures vs[i].0.GoString? {
        assert (vs + [v])[i] == vs[i];
      }
    }
    if AllStr(es + [e]) {
      assert (es + [e])[|es|] == e;
      forall i | 0 <= i < |es| ensures es[i].0.TStr? {
        assert (es + [e])[i] == es[i];
      }
    }
  }

  /** The value of a structure is what its object is read as, with the handles made for it. */
  lemma {:induction false} StructureReadsAs(h: Heap, p: Addr, t: Tree, c: nat, slots: seq<Ref>)
    requires Represents(h, p, t, |h|, 0) && Legible(h, t) && Names(slots, c, Objects(t))
    ensures ReadsAs(h, p, FromTree(t, c), slots)
    decreases t, 1
  {
    match t
    case TSequence(_, _) => ItemsReadAs(h, h[p].payload.items, t, c, slots);
    case TDict(es) =>
      EntriesReadAs(h, h[p].payload.entries, t, c, slots);
      KeysAreStrings(t, |es|, c);
    case TObject(_, _) =>
      assert slots[c + 0] == Ref.Ref(Objects(t)[0]);
    case _ =>
  }

  lemma {:induction false} ItemsReadAs(h: Heap, items: seq<Slot>, t: Tree, c: nat, slots: seq<Ref>)
    requires Legible(h, t) && t.TSequence? && |items| == |t.items| && Names(slots, c, Objects(t))
    requires forall i :: 0 <= i < |items| ==> items[i].Item? && Represents(h, items[i].addr, t.items[i], |h|, 0)
    ensures forall i :: 0 <= i < |items| ==> ReadsAs(h, items[i].addr, FromTree(t, c).items[i], slots)
    decreases t, 0
  {
    hide Represents, ReadsAs, Names, Objects;
    forall i | 0 <= i < |items| ensures ReadsAs(h, items[i].addr, FromTree(t, c).items[i], slots) {
      ItemOf(t, |t.items|, c, i);
      NamesOfItem(slots, c, t, i);
      StructureReadsAs(h, items[i].addr, t.items[i], c + |ItemObjects(t, i)|, slots);
    }
  }

  lemma {:induction false} EntriesReadAs(h: Heap, entries: seq<Entry>, t: Tree, c: nat, slots: seq<Ref>)
    requires Legible(h, t) && t.TDict? && |entries| == |t.entries| && Names(slots, c, Objects(t))
    requires forall i :: 0 <= i < |entries| ==>
               && Represents(h, entries[i].key, t.entries[i].0, |h|, 0)
               && Represents(h, entries[i].value, t.entries[i].1, |h|, 0)
    ensures forall i :: 0 <= i < |entries| ==>
              && ReadsAs(h, entries[i].key, FromTree(t, c).entries[i].0, slots)
              && ReadsAs(h, entries[i].value, FromTree(t, c).entries[i].1, slots)
    decreases t, 0
  {
    hide Represents, ReadsAs, Names, Objects;
    forall i | 0 <= i < |entries|
      ensures ReadsAs(h, entries[i].key, FromTree(t, c).entries[i].0, slots)
      ensures ReadsAs(h, entries[i].value, FromTree(t, c).entries[i].1, slots)
    {
      var d := c + |EntryObjects(t, i)|;
      EntryOf(t, |t.entries|, c, i);
      NamesOfEntry(slots, c, t, i);
      StructureReadsAs(h, entries[i].key, t.entries[i].0, d, slots);
      StructureReadsAs(h, entries[i].value, t.entries[i].1, d + |Objects(t.entries[i].0)|, slots);
    }
  }
}
