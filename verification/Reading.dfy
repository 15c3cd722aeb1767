/** What reading Python objects into Go values promises, on values. */
module Reading {
  import opened PyHeap
  import opened Keys
  import opened Python
  import opened Merging
  import opened Values
  import opened Copies
  import opened Meanings
  import opened Handles
  import opened Conversions

  datatype Fetch = Got(value: GoValue) | Missed(error: Error)

  // ----- handles made on the way -----

  function AsRefs(objs: seq<Addr>): (s: seq<Ref>)
    ensures |s| == |objs| && forall i :: 0 <= i < |s| ==> s[i] == Ref.Ref(objs[i])
  {
    seq(|objs|, i requires 0 <= i < |objs| => Ref.Ref(objs[i]))
  }

  function HeldFates(n: nat): (s: seq<Fate>)
    ensures |s| == n && forall i :: 0 <= i < n ==> s[i] == Held
  {
    seq(n, _ => Held)
  }

  /** The moment with handles to some objects, each with a reference of its own, but for the counts. */
  ghost function WithHandles(m: Moment, objs: seq<Addr>): Moment {
    m.(slots := m.slots + AsRefs(objs), origin := m.origin + objs, fates := m.fates + HeldFates(|objs|),
       owned := m.owned + multiset(objs))
  }

  lemma WithoutHandles(m: Moment)
    ensures WithHandles(m, []) == m
  {
    assert m.slots + AsRefs([]) == m.slots && m.fates + HeldFates(0) == m.fates;
  }

  lemma MoreHandles(m: Moment, objs: seq<Addr>, more: seq<Addr>)
    ensures WithHandles(WithHandles(m, objs), more) == WithHandles(m, objs + more)
  {
    assert AsRefs(objs) + AsRefs(more) == AsRefs(objs + more);
    assert HeldFates(|objs|) + HeldFates(|more|) == HeldFates(|objs + more|);
    assert m.owned + multiset(objs) + multiset(more) == m.owned + multiset(objs + more);
    assert (m.slots + AsRefs(objs)) + AsRefs(more) == m.slots + (AsRefs(objs) + AsRefs(more));
    assert (m.origin + objs) + more == m.origin + (objs + more);
    assert (m.fates + HeldFates(|objs|)) + HeldFates(|more|) == m.fates + (HeldFates(|objs|) + HeldFates(|more|));
  }

  /** The handles and the references owned are the same. */
  ghost predicate SameAccount(m: Moment, m': Moment) {
    SameHandles(m, m') && m'.owned == m.owned
  }

  /** A failure after handles to the first of some objects have been made. */
  ghost predicate FailureAmid(m: Moment, m': Moment, objs: seq<Addr>, error: Error) {
    exists k :: 0 <= k <= |objs| && Failure(WithHandles(m, objs[..k]), m', error)
  }

  lemma FailureAtOnce(m: Moment, m': Moment, objs: seq<Addr>, error: Error)
    requires Failure(m, m', error)
    ensures FailureAmid(m, m', objs, error)
  {
    WithoutHandles(m);
    assert objs[..0] == [];
  }

  // ----- reading -----

  /** The object at p has the structure t, and that can be read. */
  predicate HasStructure(h: Heap, p: Addr, t: Tree) {
    Represents(h, p, t, |h|, 0) && Legible(h, t)
  }

  /** The object at p has had the structure t since the heap was h0. */
  ghost predicate Readable(h0: Heap, m: Moment, p: Addr, t: Tree) {
    && WellFormed(h0) && Valid(m) && Extends(h0, m.heap) && Ordered(m.heap, |h0|)
    && Represents(h0, p, t, |h0|, 0) && Legible(h0, t)
  }

  /**
   * Reading gives the Go value of the structure, with new handles to the other objects it refers to, and leaves every
   * other reference as it was; or it fails after some of the handles have been made.
   */
  ghost predicate Fetched(m: Moment, m': Moment, r: Fetch, t: Tree, n: nat) {
    && Valid(m') && Continues(m.heap, m'.heap, n)
    && match r
       case Got(v) => v == FromTree(t, |m.slots|) && SameAccount(WithHandles(m, Objects(t)), m')
       case Missed(error) => FailureAmid(m, m', Objects(t), error)
  }

  /** The value is what the object is read as, and converts back to its structure, with the handles made for it. */
  ghost predicate ComesBack(h: Heap, m': Moment, p: Addr, t: Tree, v: GoValue) {
    ReadsAs(h, p, v, m'.slots) && IsBack(h, v, t, m'.slots)
  }

  lemma ReadingIsRight(h0: Heap, m: Moment, m': Moment, p: Addr, t: Tree, r: Fetch)
    requires Readable(h0, m, p, t) && Fetched(m, m', r, t, |h0|) && r.Got?
    ensures ComesBack(h0, m', p, t, r.value)
  {
    hide Balanced, Ordered, Extends, FromTree, ToTree, IsBack, ReadsAs, Represents, Legible, Objects;
    HandlesNameObjects(m, m', Objects(t));
    ReadBack(h0, t, |m.slots|, m'.slots);
    StructureReadsAs(h0, p, t, |m.slots|, m'.slots);
  }

  lemma HandlesNameObjects(m: Moment, m': Moment, objs: seq<Addr>)
    requires SameAccount(WithHandles(m, objs), m')
    ensures Names(m'.slots, |m.slots|, objs)
  {
  }

  /** The caller owns the handles made so far, and one more object, made for the time of a call. */
  ghost predicate WithTemporary(m: Moment, m': Moment, objs: seq<Addr>, l: Addr, payload: Payload, n: nat) {
    && Valid(m) && Valid(m') && SameHandles(WithHandles(m, objs), m') && Continues(m.heap, m'.heap, n)
    && m'.owned == m.owned + multiset(objs) + multiset{l}
    && |m.heap| <= l < |m'.heap| && m'.heap[l].payload == payload
  }

  lemma CopyHasItem(m: Moment, m': Moment, objs: seq<Addr>, l: Addr, items: seq<Addr>, n: nat, i: nat)
    requires WithTemporary(m, m', objs, l, SequenceObject(ListKind, AsSlots(items)), n) && i < |items|
    ensures l < |m'.heap| && m'.heap[l].payload.SequenceObject? && i < |m'.heap[l].payload.items|
    ensures m'.heap[l].payload.items[i] == Item(items[i]) && Extends(m.heap, m'.heap)
  {
    hide Balanced, Ordered, Extends;
  }

  /** A part has been read, and the temporary object is still there. */
  lemma TemporaryStays(m: Moment, m1: Moment, m2: Moment, objs: seq<Addr>, more: seq<Addr>,
                                          l: Addr, payload: Payload, n: nat)
    requires WithTemporary(m, m1, objs, l, payload, n) && payload != Freed
    requires Valid(m2) && Continues(m1.heap, m2.heap, n) && SameAccount(WithHandles(m1, more), m2)
    ensures WithTemporary(m, m2, objs + more, l, payload, n)
  {
    hide Balanced, Ordered;
    OwnedIsAlive(m1.heap, m1.owned, l);
    ExtendsTransitive(m.heap, m1.heap, m2.heap);
    MoreHandles(m, objs, more);
    HandlesCarryOver(m, m1, objs, more);
    assert m2.owned == m.owned + multiset(objs + more) + multiset{l};
  }

  lemma HandlesCarryOver(m: Moment, m1: Moment, objs: seq<Addr>, more: seq<Addr>)
    requires SameHandles(WithHandles(m, objs), m1)
    ensures SameHandles(WithHandles(WithHandles(m, objs), more), WithHandles(m1, more))
  {
  }

  /** A failure in a part is one of the whole, when what was owned besides has been given back. */
  lemma FailureInPart(m: Moment, m1: Moment, m2: Moment, objs: seq<Addr>, more: seq<Addr>,
                                         all: seq<Addr>, k: nat, error: Error)
    requires SameHandles(WithHandles(m, objs), m1) && |m.heap| <= |m1.heap|
    requires objs + more <= all && k <= |more|
    requires m1.owned == m.owned + multiset(objs) && Failure(WithHandles(m1, more[..k]), m2, error)
    ensures FailureAmid(m, m2, all, error)
  {
    var part := more[..k];
    MoreHandles(m, objs, part);
    HandlesCarryOver(m, m1, objs, part);
    assert all[..|objs| + k] == objs + part;
    FailureOfWhole(WithHandles(m, objs + part), WithHandles(m1, part), m2, error);
  }

  /** Handles made do not matter to a reference given back. */
  lemma GiveBackBesides(m: Moment, objs: seq<Addr>, p: Addr)
    requires p in m.owned
    ensures WithHandles(Without(m, p), objs) == Without(WithHandles(m, objs), p)
  {
    assert m.owned - multiset{p} + multiset(objs) == m.owned + multiset(objs) - multiset{p};
  }

  lemma ReadableLater(h0: Heap, m: Moment, m': Moment, p: Addr, t: Tree, q: Addr, u: Tree)
    requires Readable(h0, m, p, t) && Valid(m') && Continues(m.heap, m'.heap, |h0|)
    requires Represents(h0, q, u, |h0|, 0) && Legible(h0, u)
    ensures Readable(h0, m', q, u)
  {
    hide Balanced, Ordered, Represents, Legible;
    ExtendsTransitive(h0, m.heap, m'.heap);
  }

  function ItemAddrs(items: seq<Slot>): (s: seq<Addr>)
    requires forall i :: 0 <= i < |items| ==> items[i].Item?
    ensures |s| == |items| && forall i :: 0 <= i < |s| ==> items[i] == Item(s[i])
  {
    seq(|items|, i requires 0 <= i < |items| => items[i].addr)
  }

  function KeyAddrs(entries: seq<Entry>): (s: seq<Addr>)
    ensures |s| == |entries| && forall i :: 0 <= i < |s| ==> s[i] == entries[i].key
  {
    seq(|entries|, i requires 0 <= i < |entries| => entries[i].key)
  }

  /** The list of the keys of a dictionary. */
  function KeyList(entries: seq<Entry>): Payload {
    SequenceObject(ListKind, AsSlots(KeyAddrs(entries)))
  }

  lemma RepresentedIsAlive(h: Heap, p: Addr, t: Tree, n: nat, lo: nat)
    requires Represents(h, p, t, n, lo)
    ensures p < |h| && Live(h[p])
  {
  }

  /** The items of a readable list are alive. */
  lemma ItemsAlive(h0: Heap, m: Moment, p: Addr, t: Tree)
    requires Readable(h0, m, p, t) && t.TSequence?
    ensures Valid(m) && Ordered(m.heap, |h0|)
    ensures p < |h0| <= |m.heap| && m.heap[p].payload == h0[p].payload
    ensures h0[p].payload.SequenceObject? && |h0[p].payload.items| == |t.items|
    ensures forall i :: 0 <= i < |t.items| ==>
              var e := h0[p].payload.items[i]; e.Item? && e.addr < |h0| && Live(m.heap[e.addr])
  {
    hide Balanced, Ordered, WellFormed, Legible;
    forall i | 0 <= i < |t.items|
      ensures var e := h0[p].payload.items[i]; e.Item? && e.addr < |h0| && Live(m.heap[e.addr])
    {
      RepresentedIsAlive(h0, h0[p].payload.items[i].addr, t.items[i], |h0|, 0);
    }
  }

  lemma ItemIsReadable(h0: Heap, m: Moment, p: Addr, t: Tree, i: nat)
    requires Readable(h0, m, p, t) && t.TSequence? && i < |t.items|
    ensures p < |h0| && h0[p].payload.SequenceObject? && |h0[p].payload.items| == |t.items|
    ensures var e := h0[p].payload.items[i]; e.Item? && Represents(h0, e.addr, t.items[i], |h0|, 0)
    ensures Legible(h0, t.items[i])
  {
    hide Balanced, Ordered, WellFormed;
  }

  lemma ItemAt(h0: Heap, m: Moment, p: Addr, t: Tree, items: seq<Addr>, i: nat)
    requires Readable(h0, m, p, t) && t.TSequence? && i < |t.items| == |items| && p < |m.heap|
    requires m.heap[p].payload.SequenceObject? && m.heap[p].payload.items == AsSlots(items)
    ensures Represents(h0, items[i], t.items[i], |h0|, 0) && Legible(h0, t.items[i])
  {
    hide Represents, Legible;
    ItemsAlive(h0, m, p, t);
    ItemIsReadable(h0, m, p, t, i);
  }

  /** The keys and the values of a readable dictionary are alive. */
  lemma EntriesAlive(h0: Heap, m: Moment, p: Addr, t: Tree)
    requires Readable(h0, m, p, t) && t.TDict?
    ensures Valid(m) && Ordered(m.heap, |h0|) && Legible(h0, t)
    ensures p < |h0| <= |m.heap| && m.heap[p].payload == h0[p].payload
    ensures h0[p].payload.DictObject? && |h0[p].payload.entries| == |t.entries|
    ensures forall i :: 0 <= i < |t.entries| ==>
              var e := h0[p].payload.entries[i]; e.key < |h0| && e.value < |h0| && Live(m.heap[e.key])
  {
    hide Balanced, Ordered, WellFormed, Legible;
    forall i | 0 <= i < |t.entries|
      ensures var e := h0[p].payload.entries[i]; e.key < |h0| && e.value < |h0| && Live(m.heap[e.key])
    {
      RepresentedIsAlive(h0, h0[p].payload.entries[i].key, t.entries[i].0, |h0|, 0);
      RepresentedIsAlive(h0, h0[p].payload.entries[i].value, t.entries[i].1, |h0|, 0);
    }
  }

  lemma EntryIsReadable(h0: Heap, m: Moment, p: Addr, t: Tree, i: nat)
    requires Readable(h0, m, p, t) && t.TDict? && i < |t.entries|
    ensures p < |h0| && h0[p].payload.DictObject? && |h0[p].payload.entries| == |t.entries|
    ensures var e := h0[p].payload.entries[i];
            && Represents(h0, e.key, t.entries[i].0, |h0|, 0) && Represents(h0, e.value, t.entries[i].1, |h0|, 0)
    ensures CanBeKey(t.entries[i].0) && Legible(h0, t.entries[i].0) && Legible(h0, t.entries[i].1)
  {
    hide Balanced, Ordered, WellFormed;
  }

  lemma KeysDiffer(h0: Heap, m: Moment, p: Addr, t: Tree, i: nat, j: nat)
    requires Readable(h0, m, p, t) && t.TDict? && i < j < |t.entries|
    ensures !Same(KeyOfTree(t.entries[i].0), KeyOfTree(t.entries[j].0))
    ensures p < |h0| && h0[p].payload.DictObject? && |h0[p].payload.entries| == |t.entries|
    ensures h0[p].payload.entries[i].key != h0[p].payload.entries[j].key
  {
    hide Balanced, Ordered, WellFormed, KeyOfTree, CanBeKey;
  }

  /** A key leads to its value. */
  lemma KeyLeadsToValue(h0: Heap, m: Moment, p: Addr, t: Tree, i: nat)
    requires Readable(h0, m, p, t) && t.TDict? && i < |t.entries|
    ensures p < |h0| <= |m.heap| && m.heap[p].payload == h0[p].payload
    ensures h0[p].payload.DictObject? && |h0[p].payload.entries| == |t.entries|
    ensures var entries := h0[p].payload.entries;
            FindKey(m.heap, entries, KeyAt(m.heap, entries[i].key)) == i
  {
    hide Balanced, Ordered, Represents, Legible, KeyAt, KeyOfTree;
    EntriesAlive(h0, m, p, t);
    var entries := h0[p].payload.entries;
    forall j | 0 <= j < i ensures KeyAt(m.heap, entries[j].key) != KeyAt(m.heap, entries[i].key) {
      EntryIsReadable(h0, m, p, t, i);
      EntryIsReadable(h0, m, p, t, j);
      KeysDiffer(h0, m, p, t, j, i);
      KeyRead(h0, m.heap, entries[i].key, t.entries[i].0);
      KeyRead(h0, m.heap, entries[j].key, t.entries[j].0);
    }
  }

  /** A readable key is found by its value, or by the object it is. */
  lemma KeyRead(h0: Heap, h: Heap, k: Addr, t: Tree)
    requires Represents(h0, k, t, |h0|, 0) && Legible(h0, t) && Extends(h0, h)
    ensures CanBeKey(t) && KeyAt(h, k).ObjectKey? ==> KeyAt(h, k) == ObjectKey(k)
    ensures CanBeKey(t) ==>
              if KeyOfTree(t).Equal? then KeyAt(h, k) == KeyOfTree(t).q else KeyAt(h, k).ObjectKey?
    ensures k < |h| && (h[k].payload.StrObject? <==> t.TStr?)
  {
  }

  lemma DictLater(h0: Heap, m: Moment, m': Moment, objs: seq<Addr>, l: Addr, payload: Payload,
                                     p: Addr, t: Tree)
    requires Readable(h0, m, p, t) && t.TDict? && WithTemporary(m, m', objs, l, payload, |h0|)
    ensures Readable(h0, m', p, t) && p < |m.heap| && p < |m'.heap| && m'.heap[p].payload == m.heap[p].payload
    ensures |m'.slots| == |m.slots| + |objs|
  {
    hide Balanced, Ordered, Legible;
    ReadableLater(h0, m, m', p, t, p, t);
  }

  lemma ListOfItems(t: Tree, c: nat)
    requires t.TSequence?
    ensures FromTree(t, c) == GoSlice(FromItems(t, |t.items|, c)) && Objects(t) == ItemObjects(t, |t.items|)
  {
  }

  lemma DictOfEntries(t: Tree, strKeys: bool, c: nat)
    requires t.TDict? && (strKeys <==> forall j :: 0 <= j < |t.entries| ==> t.entries[j].0.TStr?)
    ensures FromTree(t, c) == GoMap(strKeys, FromEntries(t, |t.entries|, c))
    ensures Objects(t) == EntryObjects(t, |t.entries|)
  {
  }

  /** The keys and the values of the first n entries have been read. */
  ghost predicate PairsRead(t: Tree, ks: seq<GoValue>, vs: seq<GoValue>, n: nat, c: nat) {
    && t.TDict? && n <= |t.entries| && |ks| == |vs| == n
    && forall j :: 0 <= j < n ==> (ks[j], vs[j]) == FromEntry(t, j, c)
  }

  lemma KeyIsReadable(h0: Heap, m: Moment, m': Moment, p: Addr, t: Tree, entries: seq<Entry>, i: nat)
    requires Readable(h0, m, p, t) && t.TDict? && i < |t.entries| == |entries| && p < |m.heap|
    requires m.heap[p].payload == DictObject(entries) && Extends(m.heap, m'.heap)
    ensures var k := entries[i].key;
            && k < |m'.heap| && (m'.heap[k].payload.StrObject? <==> t.entries[i].0.TStr?)
            && Represents(h0, k, t.entries[i].0, |h0|, 0) && Legible(h0, t.entries[i].0)
  {
    hide Balanced, Ordered, Represents, Legible;
    EntriesAlive(h0, m, p, t);
    EntryIsReadable(h0, m, p, t, i);
    ExtendsTransitive(h0, m.heap, m'.heap);
    KeyRead(h0, m'.heap, entries[i].key, t.entries[i].0);
  }

  /** A structure that can be read stays so while its root lives. */
  lemma {:induction false} LegibleSurvives(h: Heap, h': Heap, owned: multiset<Addr>, p: Addr, t: Tree, n: nat, lo: nat)
    requires Represents(h, p, t, n, lo) && Legible(h, t) && Represents(h', p, t, n, lo)
    requires Balanced(h', owned) && Survives(h, h')
    ensures Legible(h', t)
    decreases t
  {
    match t
    case TSequence(_, ts) =>
      forall i | 0 <= i < |ts| ensures Legible(h', ts[i]) {
        assert h'[p].payload == h[p].payload;
        LegibleSurvives(h, h', owned, h[p].payload.items[i].addr, ts[i], n, lo);
      }
    case TDict(es) =>
      forall i | 0 <= i < |es| ensures Legible(h', es[i].0) && Legible(h', es[i].1) {
        assert h'[p].payload == h[p].payload;
        LegibleSurvives(h, h', owned, h[p].payload.entries[i].key, es[i].0, n, lo);
        LegibleSurvives(h, h', owned, h[p].payload.entries[i].value, es[i].1, n, lo);
      }
    case _ =>
  }

  // ----- balance of references -----

  /** After reading, each other object has one reference more for each handle to it; nothing else has changed. */
  lemma ReadingLeavesHandles(m: Moment, m': Moment, objs: seq<Addr>)
    requires Valid(m) && Valid(m') && Continues(m.heap, m'.heap, |m.heap|) && m'.owned == m.owned + multiset(objs)
    requires forall i :: 0 <= i < |objs| ==> objs[i] < |m.heap|
    ensures LeftBut(m.heap, m'.heap, multiset(objs))
  {
    hide Balanced, Extends;
    NothingLeaks(m.heap, m'.heap, m.owned, multiset(objs));
  }

  /** A failure leaves the handles made before it, and the exception. */
  lemma ReadFailureLeavesHandles(m: Moment, m': Moment, objs: seq<Addr>, error: Error)
    requires Valid(m) && Valid(m') && Continues(m.heap, m'.heap, |m.heap|)
    requires Failure(WithHandles(m, objs), m', error) && forall i :: 0 <= i < |objs| ==> objs[i] < |m.heap|
    ensures LeftBut(m.heap, m'.heap, multiset(objs) + KeptBy(WithHandles(m, objs), m', error))
  {
    hide Balanced, Extends;
    var kept := multiset(objs) + KeptBy(WithHandles(m, objs), m', error);
    assert m'.owned == m.owned + kept;
    NothingLeaks(m.heap, m'.heap, m.owned, kept);
  }

  /** The other objects of a readable structure are old ones. */
  lemma ObjectsAreOld(h: Heap, t: Tree)
    requires Legible(h, t)
    ensures forall i :: 0 <= i < |Objects(t)| ==> Objects(t)[i] < |h|
    decreases t, 1
  {
    match t
    case TSequence(_, ts) => ItemObjectsAreOld(h, t, |ts|);
    case TDict(es) => EntryObjectsAreOld(h, t, |es|);
    case _ =>
  }

  lemma {:induction false} ItemObjectsAreOld(h: Heap, t: Tree, n: nat)
    requires Legible(h, t) && t.TSequence? && n <= |t.items|
    ensures forall i :: 0 <= i < |ItemObjects(t, n)| ==> ItemObjects(t, n)[i] < |h|
    decreases t, 0, n
  {
    if n > 0 {
      ItemObjectsAreOld(h, t, n - 1);
      ObjectsAreOld(h, t.items[n - 1]);
    }
  }

  lemma {:induction false} EntryObjectsAreOld(h: Heap, t: Tree, n: nat)
    requires Legible(h, t) && t.TDict? && n <= |t.entries|
    ensures forall i :: 0 <= i < |EntryObjects(t, n)| ==> EntryObjects(t, n)[i] < |h|
    decreases t, 0, n
  {
    if n > 0 {
      EntryObjectsAreOld(h, t, n - 1);
      ObjectsAreOld(h, t.entries[n - 1].0);
      ObjectsAreOld(h, t.entries[n - 1].1);
    }
  }
}
