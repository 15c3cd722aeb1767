/**
 * The part of the Python C API the conversions use, over a reference-counted heap. `owned` records, for the proofs,
 * the strong references held outside the heap; any call that can fail does so when the next of `faults` says so.
 */
module Python {
  import opened PyHeap
  import opened Keys

  datatype Ref = Null | Ref(addr: Addr)

  /** The position of a key among the entries, or their number when it is not there. */
  function FindKey(h: Heap, entries: seq<Entry>, key: Key): (i: nat)
    ensures i <= |entries|
    ensures i < |entries| ==> KeyAt(h, entries[i].key) == key
    ensures forall j :: 0 <= j < i ==> KeyAt(h, entries[j].key) != key
  {
    if entries == [] || KeyAt(h, entries[0].key) == key then 0 else 1 + FindKey(h, entries[1..], key)
  }

  /** New objects are counted and structures built in order. */
  ghost predicate Ordered(h: Heap, n: nat) {
    BuiltInOrder(h, n) && NewOnesCounted(h, n)
  }

  // ----- facts about the steps -----

  /** Objects hold what they held or have been freed. */
  ghost predicate SameOrFreed(h: Heap, h': Heap) {
    && |h| == |h'|
    && forall p :: 0 <= p < |h| ==>
         h'[p].immortal == h[p].immortal && (h'[p].payload == h[p].payload || h'[p].payload == Freed)
  }

  lemma SameRefsKeepOrder(h: Heap, h': Heap, n: nat)
    requires SameOrFreed(h, h') && Ordered(h, n)
    ensures Ordered(h', n)
  {
  }

  lemma {:induction false} SlotRefsOf(items: seq<Slot>, i: nat, e: Addr, q: Addr)
    requires i < |items| && items[i] == Empty
    ensures Count(SlotRefs(items[i := Item(e)]), q) == Count(SlotRefs(items), q) + if e == q then 1 else 0
    ensures forall a :: a in SlotRefs(items[i := Item(e)]) ==> a in SlotRefs(items) || a == e
  {
    var next := items[i := Item(e)];
    var head := if items[0].Item? then [items[0].addr] else [];
    if i == 0 {
      assert next[1..] == items[1..];
      CountOfConcat([e], SlotRefs(items[1..]), q);
      assert SlotRefs(items) == SlotRefs(items[1..]);
    } else {
      assert next[1..] == items[1..][i - 1 := Item(e)];
      SlotRefsOf(items[1..], i - 1, e, q);
      CountOfConcat(head, SlotRefs(next[1..]), q);
      CountOfConcat(head, SlotRefs(items[1..]), q);
    }
  }

  lemma {:induction false} EmptySlotsHoldNothing(items: seq<Slot>)
    requires forall i :: 0 <= i < |items| ==> items[i] == Empty
    ensures SlotRefs(items) == []
  {
    if items != [] {
      EmptySlotsHoldNothing(items[1..]);
    }
  }

  lemma {:induction false} EntryRefsOfAppend(entries: seq<Entry>, e: Entry)
    ensures EntryRefs(entries + [e]) == EntryRefs(entries) + [e.key, e.value]
  {
    if entries == [] {
      assert entries + [e] == [e] && [e][1..] == [];
    } else {
      assert (entries + [e])[1..] == entries[1..] + [e];
      EntryRefsOfAppend(entries[1..], e);
    }
  }

  lemma {:induction false} EntryRefsOfReplace(entries: seq<Entry>, i: nat, v: Addr, q: Addr)
    requires i < |entries|
    ensures Count(EntryRefs(entries[i := Entry(entries[i].key, v)]), q) + (if entries[i].value == q then 1 else 0)
         == Count(EntryRefs(entries), q) + if v == q then 1 else 0
    ensures forall a :: a in EntryRefs(entries[i := Entry(entries[i].key, v)]) ==> a in EntryRefs(entries) || a == v
    ensures entries[i].value in EntryRefs(entries)
  {
    var next := entries[i := Entry(entries[i].key, v)];
    if i == 0 {
      assert next[1..] == entries[1..];
      CountOfConcat([entries[0].key, v], EntryRefs(entries[1..]), q);
      CountOfConcat([entries[0].key, entries[0].value], EntryRefs(entries[1..]), q);
      PairCount(entries[0].key, v, q);
      PairCount(entries[0].key, entries[0].value, q);
    } else {
      assert next[1..] == entries[1..][i - 1 := Entry(entries[i].key, v)];
      EntryRefsOfReplace(entries[1..], i - 1, v, q);
      CountOfConcat([entries[0].key, entries[0].value], EntryRefs(entries[1..]), q);
      CountOfConcat([entries[0].key, entries[0].value], EntryRefs(next[1..]), q);
    }
  }

  lemma PairCount(a: Addr, b: Addr, q: Addr)
    ensures Count([a, b], q) == (if a == q then 1 else 0) + (if b == q then 1 else 0)
  {
    assert [a, b][1..] == [b] && [b][1..] == [];
    assert Count([b], q) == if b == q then 1 else 0;
  }

  /** What is owned and what `base` itself holds keeps the objects of `base` alive in h. */
  ghost predicate Keeps(base: Heap, h: Heap, owned: multiset<Addr>) {
    WellFormed(base) && Supported(base, owned) && Extends(base, h)
  }

  /** While references are being dropped. */
  ghost predicate Dropping(before: Heap, h: Heap, owned: multiset<Addr>, work: seq<Addr>) {
    && WellFormed(before) && SameOrFreed(before, h) && Counted(h, owned, work)
    && forall base :: Keeps(base, before, owned) ==> Extends(base, h)
  }

  lemma DropStep(before: Heap, h: Heap, owned: multiset<Addr>, work: seq<Addr>)
    requires Dropping(before, h, owned, work) && work != []
    ensures work[0] < |h| && Live(h[work[0]])
    ensures var (h', more) := DropOne(h, work[0]);
            && Dropping(before, h', owned, more + work[1..])
            && EdgeTotal(h') + |more| == EdgeTotal(h)
  {
    hide Counted, Extends, Supported, EdgeTotal, WellFormed;
    assert work == [work[0]] + work[1..];
    DropOneKeepsCount(h, work[0], owned, work[1..]);
    DropOneFrees(h, work[0]);
    hide DropOne;
    forall base | Keeps(base, before, owned) ensures Extends(base, DropOne(h, work[0]).0) {
      DropOneKeepsExtension(base, h, work[0], owned, work[1..]);
    }
  }

  lemma DropOneFrees(h: Heap, p: Addr)
    requires p < |h| && Live(h[p])
    ensures SameOrFreed(h, DropOne(h, p).0)
  {
  }

  lemma DroppingBegins(h: Heap, owned: multiset<Addr>, p: Addr)
    requires Balanced(h, owned) && p in owned
    ensures Dropping(h, h, owned - multiset{p}, [p])
  {
    StartDropping(h, owned, p);
  }

  lemma DroppingEnds(before: Heap, h: Heap, owned: multiset<Addr>)
    requires Dropping(before, h, owned, [])
    ensures Survives(before, h)
    ensures forall n :: Ordered(before, n) ==> Ordered(h, n)
  {
    forall n | Ordered(before, n) ensures Ordered(h, n) {
      SameRefsKeepOrder(before, h, n);
    }
  }

  class Runtime {
    var heap: Heap
    ghost var owned: multiset<Addr>
    var faults: seq<bool>

    constructor (objects: Heap, faults: seq<bool>)
      requires Balanced(objects, multiset{})
      ensures Valid() && heap == objects && owned == multiset{} && this.faults == faults
    {
      heap, owned, this.faults := objects, multiset{}, faults;
    }

    ghost predicate Valid()
      reads this
    {
      Balanced(heap, owned)
    }

    ghost predicate NoFaults()
      reads this
    {
      forall i :: 0 <= i < |faults| ==> !faults[i]
    }

    /** Does the next call that can fail do so? */
    method Faulty() returns (f: bool)
      modifies this`faults
      ensures old(NoFaults()) ==> !f && NoFaults()
    {
      f := false;
      if faults != [] {
        f := faults[0];
        faults := faults[1..];
      }
    }

    method NewRef(p: Addr)
      requires Valid() && p < |heap| && Live(heap[p])
      modifies this`heap, this`owned
      ensures Valid() && owned == old(owned) + multiset{p} && heap == IncRef(old(heap), p)
      ensures Extends(old(heap), heap) && Survives(old(heap), heap)
      ensures forall n :: Ordered(old(heap), n) ==> Ordered(heap, n)
    {
      IncRefOwns(heap, p, owned);
      ghost var before := heap;
      heap := IncRef(heap, p);
      owned := owned + multiset{p};
      forall n | Ordered(before, n) ensures Ordered(heap, n) {
        SameRefsKeepOrder(before, heap, n);
      }
    }

    /**
     * Drop a reference, and when it was the last one free the object and drop the references it held, and so on.
     * What is otherwise owned or held survives.
     */
    method DecRef(p: Addr)
      requires Valid() && p in owned
      modifies this`heap, this`owned
      ensures Valid() && owned == old(owned) - multiset{p} && |heap| == |old(heap)|
      ensures Survives(old(heap), heap)
      ensures forall base :: Keeps(base, old(heap), owned) ==> Extends(base, heap)
      ensures forall n :: Ordered(old(heap), n) ==> Ordered(heap, n)
    {
      hide Extends, Supported, Ordered, Survives;
      ghost var before := heap;
      ghost var keep := owned - multiset{p};
      var work := [p];
      DroppingBegins(heap, owned, p);
      owned := keep;
      while work != []
        invariant owned == keep && Dropping(before, heap, keep, work)
        decreases EdgeTotal(heap) + |work|
      {
        DropStep(before, heap, keep, work);
        var (h, more) := DropOne(heap, work[0]);
        heap := h;
        work := more + work[1..];
      }
      DroppingEnds(before, heap, keep);
    }

    /** A new object without references, or an immortal one that is the same; null on failure. */
    method Leaf(payload: Payload) returns (r: Ref)
      requires Valid() && payload != Freed && Refs(payload) == []
      modifies this
      ensures Valid() && Extends(old(heap), heap) && Survives(old(heap), heap)
      ensures forall n :: Ordered(old(heap), n) ==> Ordered(heap, n)
      ensures r.Null? ==> heap == old(heap) && owned == old(owned) && !old(NoFaults())
      ensures r.Ref? ==> owned == old(owned) + multiset{r.addr}
      ensures r.Ref? ==> r.addr < |heap| && Live(heap[r.addr]) && heap[r.addr].payload == payload
      ensures r.Ref? ==> r.addr == |old(heap)| || (heap[r.addr].immortal && !payload.FloatObject?)
      ensures old(NoFaults()) ==> NoFaults()
    {
      var f := Faulty();
      if f {
        return Null;
      }
      var share := *;
      share := share && !payload.FloatObject?;
      if share && exists q :: 0 <= q < |heap| && heap[q].immortal && heap[q].payload == payload {
        var q :| 0 <= q < |heap| && heap[q].immortal && heap[q].payload == payload;
        NewRef(q);
        return Ref(q);
      }
      var p := Allocate(payload);
      r := Ref(p);
    }

    method Allocate(payload: Payload) returns (p: Addr)
      requires Valid() && payload != Freed && Refs(payload) == []
      modifies this`heap, this`owned
      ensures Valid() && Extends(old(heap), heap) && Survives(old(heap), heap)
      ensures forall n :: Ordered(old(heap), n) ==> Ordered(heap, n)
      ensures p == |old(heap)| && heap == old(heap) + [Cell(1, false, payload)]
      ensures owned == old(owned) + multiset{p}
    {
      AllocationOwns(heap, payload, owned);
      p := |heap|;
      owned := owned + multiset{p};
      heap := heap + [Cell(1, false, payload)];
    }

    /** A new list of n empty slots. */
    method ListNew(n: nat) returns (r: Ref)
      requires Valid()
      modifies this
      ensures Valid() && Extends(old(heap), heap) && Survives(old(heap), heap)
      ensures forall n :: Ordered(old(heap), n) ==> Ordered(heap, n)
      ensures r.Null? ==> heap == old(heap) && owned == old(owned) && !old(NoFaults())
      ensures r.Ref? ==> owned == old(owned) + multiset{r.addr} && r.addr == |old(heap)|
      ensures r.Ref? ==> heap == old(heap) + [Cell(1, false, SequenceObject(ListKind, seq(n, _ => Empty)))]
      ensures old(NoFaults()) ==> NoFaults()
    {
      var f := Faulty();
      if f {
        return Null;
      }
      EmptySlotsHoldNothing(seq(n, _ => Empty));
      var p := Allocate(SequenceObject(ListKind, seq(n, _ => Empty)));
      r := Ref(p);
    }

    /** Fill an empty slot of a list; the list takes over the caller's reference to the item. */
    method ListSetItem(l: Addr, i: nat, e: Addr)
      requires Valid() && l < |heap| && heap[l].payload.SequenceObject?
      requires i < |heap[l].payload.items| && heap[l].payload.items[i] == Empty && e in owned
      modifies this`heap, this`owned
      ensures Valid() && owned == old(owned) - multiset{e}
      ensures heap == SlotFilled(old(heap), l, i, e)
      ensures forall n :: Ordered(old(heap), n) && (e < n || l < e) ==> Ordered(heap, n)
    {
      ghost var before := heap;
      var payload := SequenceObject(heap[l].payload.kind, heap[l].payload.items[i := Item(e)]);
      SlotTakesOver(heap, l, i, e, owned);
      owned := owned - multiset{e};
      heap := heap[l := heap[l].(payload := payload)];
      forall n | Ordered(before, n) && (e < n || l < e) ensures Ordered(heap, n) {
        UpdateKeepsOrder(before, l, payload, n);
      }
    }

    /** A new list of given objects below n, with references of its own. */
    method ListOf(items: seq<Addr>, ghost n: nat) returns (r: Ref)
      requires Valid() && n <= |heap| && Ordered(heap, n)
      requires forall i :: 0 <= i < |items| ==> items[i] < n && Live(heap[items[i]])
      modifies this
      ensures Valid() && Extends(old(heap), heap) && Ordered(heap, n)
      ensures r.Null? ==> heap == old(heap) && owned == old(owned) && !old(NoFaults())
      ensures r.Ref? ==> owned == old(owned) + multiset{r.addr} && r.addr == |old(heap)| < |heap|
      ensures r.Ref? ==> Live(heap[r.addr]) && heap[r.addr].payload == SequenceObject(ListKind, AsSlots(items))
      ensures old(NoFaults()) ==> NoFaults()
    {
      hide Balanced, Ordered;
      ghost var h0, owned0 := heap, owned;
      r := ListNew(|items|);
      if r.Null? {
        return;
      }
      var l := r.addr;
      var i := 0;
      while i < |items|
        invariant 0 <= i <= |items|
        invariant Valid() && Extends(h0, heap) && Ordered(heap, n) && |heap| == l + 1 && l == |h0|
        invariant owned == owned0 + multiset{l}
        invariant heap[l].payload == SequenceObject(ListKind, SlotsUpTo(items, i))
        invariant old(NoFaults()) ==> NoFaults()
      {
        CopySlot(l, items, i, n, h0);
        i := i + 1;
      }
      OwnedIsAlive(heap, owned, l);
      assert SlotsUpTo(items, |items|) == AsSlots(items);
    }

    method CopySlot(l: Addr, items: seq<Addr>, i: nat, ghost n: nat, ghost h0: Heap)
      requires Valid() && Extends(h0, heap) && n <= |h0| == l < |heap| && Ordered(heap, n) && l in owned
      requires heap[l].payload == SequenceObject(ListKind, SlotsUpTo(items, i))
      requires i < |items| && items[i] < n && Live(h0[items[i]])
      modifies this`heap, this`owned
      ensures Valid() && Extends(h0, heap) && |heap| == |old(heap)| && Ordered(heap, n) && owned == old(owned)
      ensures heap[l].payload == SequenceObject(ListKind, SlotsUpTo(items, i + 1))
    {
      hide Balanced, Ordered;
      NewRef(items[i]);
      OwnedIsAlive(heap, owned, l);
      NextSlot(items, i);
      ghost var h1 := heap;
      ListSetItem(l, i, items[i]);
      ExtendsAfterFill(h0, h1, l, i, items[i]);
    }

    method DictNew() returns (r: Ref)
      requires Valid()
      modifies this
      ensures Valid() && Extends(old(heap), heap) && Survives(old(heap), heap)
      ensures forall n :: Ordered(old(heap), n) ==> Ordered(heap, n)
      ensures r.Null? ==> heap == old(heap) && owned == old(owned) && !old(NoFaults())
      ensures r.Ref? ==> owned == old(owned) + multiset{r.addr} && r.addr == |old(heap)|
      ensures r.Ref? ==> heap == old(heap) + [Cell(1, false, DictObject([]))]
      ensures old(NoFaults()) ==> NoFaults()
    {
      var f := Faulty();
      if f {
        return Null;
      }
      var p := Allocate(DictObject([]));
      r := Ref(p);
    }

    /**
     * Set an entry of a dictionary. The dictionary takes references of its own to what it stores; an equal key that
     * is there already stays, and the value stored under it is dropped.
     */
    method DictSetItem(d: Addr, k: Addr, v: Addr, ghost base: Heap) returns (ok: bool)
      requires Valid() && d < |heap| && heap[d].payload.DictObject? && d in owned && k in owned && v in owned
      requires WellFormed(base) && Extends(base, heap) && Supported(base, owned) && |base| <= d
      modifies this
      ensures Valid() && owned == old(owned) && |heap| == |old(heap)|
      ensures Extends(base, heap) && SurvivesExcept(old(heap), heap, d)
      ensures forall n :: Ordered(old(heap), n) && (k < n || d < k) && (v < n || d < v) ==> Ordered(heap, n)
      ensures ok ==> heap[d].payload == DictObject(WithEntry(old(heap), old(heap)[d].payload.entries, k, v))
      ensures ok ==> KeyAt(old(heap), k) != Unhashable
      ensures k < |old(heap)| && IsMutable(old(heap)[k].payload) ==> !ok
      ensures old(NoFaults()) && k < |old(heap)| && IsHashable(old(heap)[k].payload) ==> ok
      ensures !ok ==> heap == old(heap)
      ensures old(NoFaults()) ==> NoFaults() && (!ok ==> KeyAt(old(heap), k) == Unhashable)
    {
      if k < |heap| && IsMutable(heap[k].payload) {
        NoKeyOfMutable(heap, k);
      }
      if k < |heap| && IsHashable(heap[k].payload) {
        HashableHasKey(heap, k);
      }
      hide IsMutable, IsHashable, KeyAt;
      var f := Faulty();
      if f || KeyAt(heap, k) == Unhashable {
        return false;
      }
      ok := true;
      var i := FindKey(heap, heap[d].payload.entries, KeyAt(heap, k));
      if i == |heap[d].payload.entries| {
        InsertEntry(d, k, v, base);
      } else {
        ReplaceEntry(d, i, v, base);
      }
    }

    /** A new reference to the value stored under a key; null when there is none or the call fails. */
    method DictGetItem(d: Addr, k: Addr) returns (r: Ref)
      requires Valid() && d < |heap| && heap[d].payload.DictObject?
      modifies this
      ensures Valid() && Extends(old(heap), heap) && Survives(old(heap), heap)
      ensures forall n :: Ordered(old(heap), n) ==> Ordered(heap, n)
      ensures r.Null? ==> heap == old(heap) && owned == old(owned)
      ensures r.Ref? ==> owned == old(owned) + multiset{r.addr} && |heap| == |old(heap)|
      ensures var entries := old(heap[d].payload.entries);
              var i := FindKey(old(heap), entries, KeyAt(old(heap), k));
              && (r.Ref? ==> i < |entries| && r.addr == entries[i].value)
              && (old(NoFaults()) ==> NoFaults() && (r.Null? ==> i == |entries|))
    {
      hide Balanced, Ordered;
      var f := Faulty();
      var i := FindKey(heap, heap[d].payload.entries, KeyAt(heap, k));
      if f || i == |heap[d].payload.entries| {
        return Null;
      }
      EntryIsReferred(heap[d].payload.entries, i);
      ReferredIsLive(heap, owned, heap[d].payload.entries[i].value, d);
      r := Ref(heap[d].payload.entries[i].value);
      NewRef(r.addr);
    }

    method InsertEntry(d: Addr, k: Addr, v: Addr, ghost base: Heap)
      requires Valid() && d < |heap| && heap[d].payload.DictObject? && d in owned && k in owned && v in owned
      requires Extends(base, heap) && |base| <= d
      modifies this`heap, this`owned
      ensures Valid() && owned == old(owned) && |heap| == |old(heap)|
      ensures Extends(base, heap) && SurvivesExcept(old(heap), heap, d)
      ensures forall n :: Ordered(old(heap), n) && (k < n || d < k) && (v < n || d < v) ==> Ordered(heap, n)
      ensures heap[d].payload == DictObject(old(heap)[d].payload.entries + [Entry(k, v)])
    {
      InsertedIsBalanced(heap, owned, d, k, v);
      InsertedFacts(base, heap, d, k, v);
      heap := Inserted(heap, d, k, v);
    }

    method ReplaceEntry(d: Addr, i: nat, v: Addr, ghost base: Heap)
      requires Valid() && d < |heap| && heap[d].payload.DictObject? && d in owned && v in owned
      requires i < |heap[d].payload.entries|
      requires WellFormed(base) && Extends(base, heap) && Supported(base, owned) && |base| <= d
      modifies this`heap, this`owned
      ensures Valid() && owned == old(owned) && |heap| == |old(heap)|
      ensures Extends(base, heap) && SurvivesExcept(old(heap), heap, d)
      ensures forall n :: Ordered(old(heap), n) && (v < n || d < v) ==> Ordered(heap, n)
      ensures heap[d].payload
           == DictObject(old(heap)[d].payload.entries[i := Entry(old(heap)[d].payload.entries[i].key, v)])
    {
      ghost var h0, owned0 := heap, owned;
      var previous := heap[d].payload.entries[i].value;
      ReplacedIsBalanced(heap, owned, d, i, v);
      ReplacedFacts(base, heap, d, i, v);
      heap := Replaced(heap, d, i, v);
      owned := owned + multiset{previous};
      assert owned - multiset{previous} == owned0;
      assert Keeps(base, heap, owned - multiset{previous});
      DecRef(previous);
      OwnedIsAlive(heap, owned, d);
      SurvivesAfter(h0, Replaced(h0, d, i, v), heap, d);
    }
  }

  /** The heap after an item has been put into a slot of a list. */
  function SlotFilled(h: Heap, l: Addr, i: nat, e: Addr): Heap
    requires l < |h| && h[l].payload.SequenceObject? && i < |h[l].payload.items|
  {
    h[l := h[l].(payload := SequenceObject(h[l].payload.kind, h[l].payload.items[i := Item(e)]))]
  }

  function AsSlots(items: seq<Addr>): (s: seq<Slot>)
    ensures |s| == |items| && forall i :: 0 <= i < |s| ==> s[i] == Item(items[i])
  {
    SlotsUpTo(items, |items|)
  }

  /** The slots of a list of which the first i have been filled. */
  function SlotsUpTo(items: seq<Addr>, i: nat): (s: seq<Slot>)
    ensures |s| == |items|
    ensures forall j :: 0 <= j < |s| ==> s[j] == if j < i then Item(items[j]) else Empty
  {
    seq(|items|, j requires 0 <= j < |items| => if j < i then Item(items[j]) else Empty)
  }

  lemma NextSlot(items: seq<Addr>, i: nat)
    requires i < |items|
    ensures SlotsUpTo(items, i)[i := Item(items[i])] == SlotsUpTo(items, i + 1)
  {
  }

  lemma ExtendsAfterFill(h0: Heap, h: Heap, l: Addr, i: nat, e: Addr)
    requires Extends(h0, h) && |h0| <= l < |h| && h[l].payload.SequenceObject? && i < |h[l].payload.items|
    ensures Extends(h0, SlotFilled(h, l, i, e))
  {
  }

  /** The heap after a new entry has been set, with its references counted. */
  function Inserted(h: Heap, d: Addr, k: Addr, v: Addr): Heap
    requires d < |h| && k < |h| && v < |h| && h[d].payload.DictObject?
  {
    var counted := IncRef(IncRef(h, v), k);
    counted[d := counted[d].(payload := DictObject(h[d].payload.entries + [Entry(k, v)]))]
  }

  lemma InsertedIsBalanced(h: Heap, owned: multiset<Addr>, d: Addr, k: Addr, v: Addr)
    requires Balanced(h, owned) && d in owned && k in owned && v in owned
    requires d < |h| && h[d].payload.DictObject?
    ensures k < |h| && v < |h| && Live(h[d]) && Live(h[k]) && Live(h[v])
    ensures Balanced(Inserted(h, d, k, v), owned)
  {
    OwnedIsAlive(h, owned, d);
    OwnedIsAlive(h, owned, k);
    OwnedIsAlive(h, owned, v);
    IncRefOwns(h, v, owned);
    IncRefOwns(IncRef(h, v), k, owned + multiset{v});
    EntryAppended(IncRef(IncRef(h, v), k), d, k, v, owned);
  }

  lemma InsertedFacts(base: Heap, h: Heap, d: Addr, k: Addr, v: Addr)
    requires |base| <= d < |h| && k < |h| && v < |h| && h[d].payload.DictObject?
    requires Live(h[d]) && Live(h[k]) && Live(h[v]) && Extends(base, h)
    ensures var h' := Inserted(h, d, k, v);
            && |h'| == |h| && Extends(base, h') && SurvivesExcept(h, h', d)
            && (forall n :: Ordered(h, n) && (k < n || d < k) && (v < n || d < v) ==> Ordered(h', n))
  {
    var counted := IncRef(IncRef(h, v), k);
    forall n | Ordered(h, n) ensures Ordered(counted, n) {
      SameRefsKeepOrder(h, counted, n);
    }
    EntryRefsOfAppend(h[d].payload.entries, Entry(k, v));
    UpdateFacts(base, h, counted, d, DictObject(h[d].payload.entries + [Entry(k, v)]), k, v);
  }

  /** The heap after the value of an entry has been replaced, before the previous value is dropped. */
  function Replaced(h: Heap, d: Addr, i: nat, v: Addr): Heap
    requires d < |h| && v < |h| && h[d].payload.DictObject? && i < |h[d].payload.entries|
  {
    var counted := IncRef(h, v);
    var entries := h[d].payload.entries;
    counted[d := counted[d].(payload := DictObject(entries[i := Entry(entries[i].key, v)]))]
  }

  lemma ReplacedIsBalanced(h: Heap, owned: multiset<Addr>, d: Addr, i: nat, v: Addr)
    requires Balanced(h, owned) && d in owned && v in owned
    requires d < |h| && h[d].payload.DictObject? && i < |h[d].payload.entries|
    ensures v < |h| && Live(h[d]) && Live(h[v])
    ensures Balanced(Replaced(h, d, i, v), owned + multiset{h[d].payload.entries[i].value})
  {
    OwnedIsAlive(h, owned, d);
    OwnedIsAlive(h, owned, v);
    IncRefOwns(h, v, owned);
    EntryReplaced(IncRef(h, v), d, i, v, owned);
  }

  lemma ReplacedFacts(base: Heap, h: Heap, d: Addr, i: nat, v: Addr)
    requires |base| <= d < |h| && v < |h| && h[d].payload.DictObject? && i < |h[d].payload.entries|
    requires Live(h[d]) && Live(h[v]) && Extends(base, h)
    ensures var h' := Replaced(h, d, i, v);
            && |h'| == |h| && Extends(base, h') && SurvivesExcept(h, h', d)
            && (forall n :: Ordered(h, n) && (v < n || d < v) ==> Ordered(h', n))
  {
    var counted := IncRef(h, v);
    var entries := h[d].payload.entries;
    forall n | Ordered(h, n) ensures Ordered(counted, n) {
      SameRefsKeepOrder(h, counted, n);
    }
    EntryRefsOfReplace(entries, i, v, 0);
    UpdateFacts(base, h, counted, d, DictObject(entries[i := Entry(entries[i].key, v)]), v, v);
  }

  lemma SurvivesAfter(h: Heap, h': Heap, h'': Heap, d: Addr)
    requires SurvivesExcept(h, h', d) && Survives(h', h'') && d < |h| && Live(h''[d])
    ensures SurvivesExcept(h, h'', d) && h''[d].payload == h'[d].payload
  {
  }

  /** The entries after setting one. */
  function WithEntry(h: Heap, entries: seq<Entry>, k: Addr, v: Addr): seq<Entry> {
    var i := FindKey(h, entries, KeyAt(h, k));
    if i == |entries| then entries + [Entry(k, v)] else entries[i := Entry(entries[i].key, v)]
  }

  /** Is there an entry with the key, and does it hold the value? */
  predicate Leads(h: Heap, entries: seq<Entry>, key: Key, v: Addr) {
    var i := FindKey(h, entries, key);
    i < |entries| && entries[i].value == v
  }

  /**
   * After an entry has been set, its key leads to the new value and all others to what they led to; the keys there
   * were stay in place, and at most the new one is added after them.
   */
  lemma SettingLeads(h: Heap, entries: seq<Entry>, k: Addr, v: Addr)
    ensures var next := WithEntry(h, entries, k, v);
            && Leads(h, next, KeyAt(h, k), v)
            && (forall key, w :: key != KeyAt(h, k) ==> (Leads(h, next, key, w) <==> Leads(h, entries, key, w)))
            && |entries| <= |next| <= |entries| + 1
            && (forall j :: 0 <= j < |entries| ==> next[j].key == entries[j].key)
            && (|next| > |entries| ==> next[|entries|].key == k)
  {
    hide KeyAt;
    var next, i := WithEntry(h, entries, k, v), FindKey(h, entries, KeyAt(h, k));
    assert KeyAt(h, next[i].key) == KeyAt(h, k);
    forall j | 0 <= j < i ensures KeyAt(h, next[j].key) != KeyAt(h, k) {
      assert next[j].key == entries[j].key;
    }
    forall key, w | key != KeyAt(h, k) ensures Leads(h, next, key, w) <==> Leads(h, entries, key, w) {
      var a, b := FindKey(h, entries, key), FindKey(h, next, key);
      if a < |entries| {
        assert KeyAt(h, next[a].key) == key;
      }
      if b < |entries| {
        assert KeyAt(h, entries[b].key) == key;
      }
    }
  }

  /** Every object alive in h' but one was alive in h and holds what it held; that one is alive as well. */
  ghost predicate SurvivesExcept(h: Heap, h': Heap, d: Addr) {
    && |h| <= |h'| && d < |h'| && Live(h'[d])
    && forall p :: 0 <= p < |h| && p != d && Live(h'[p]) ==> Live(h[p]) && h'[p].payload == h[p].payload
  }

  lemma OwnedIsAlive(h: Heap, owned: multiset<Addr>, p: Addr)
    requires Balanced(h, owned) && p in owned
    ensures p < |h| && Live(h[p])
  {
  }

  lemma EntryAppended(h: Heap, d: Addr, k: Addr, v: Addr, owned: multiset<Addr>)
    requires Balanced(h, owned + multiset{v} + multiset{k}) && d < |h| && h[d].payload.DictObject?
    ensures Balanced(h[d := h[d].(payload := DictObject(h[d].payload.entries + [Entry(k, v)]))], owned)
  {
    var entries := h[d].payload.entries;
    var next := entries + [Entry(k, v)];
    var taken := owned + multiset{v} + multiset{k};
    AppendedInHeap(h, d, k, v, owned);
    hide Balanced;
    forall q ensures Count(EntryRefs(next), q) + owned[q] == Count(EntryRefs(entries), q) + taken[q] {
      EntryRefsOfAppend(entries, Entry(k, v));
      CountOfConcat(EntryRefs(entries), [k, v], q);
      PairCount(k, v, q);
    }
    UpdateMovesOwnership(h, d, DictObject(next), taken, owned);
  }

  lemma AppendedInHeap(h: Heap, d: Addr, k: Addr, v: Addr, owned: multiset<Addr>)
    requires Balanced(h, owned + multiset{v} + multiset{k}) && d < |h| && h[d].payload.DictObject?
    ensures InHeap(EntryRefs(h[d].payload.entries + [Entry(k, v)]), h) && Live(h[d])
    ensures forall q :: q in owned ==> q < |h|
  {
    var taken := owned + multiset{v} + multiset{k};
    EntryRefsOfAppend(h[d].payload.entries, Entry(k, v));
    assert k in taken && v in taken;
    assert InHeap(Refs(h[d].payload), h);
    forall q | q in owned ensures q < |h| {
      assert q in taken;
    }
  }

  lemma EntryReplaced(h: Heap, d: Addr, i: nat, v: Addr, owned: multiset<Addr>)
    requires Balanced(h, owned + multiset{v}) && d < |h| && h[d].payload.DictObject?
    requires i < |h[d].payload.entries|
    ensures var entries := h[d].payload.entries;
            Balanced(h[d := h[d].(payload := DictObject(entries[i := Entry(entries[i].key, v)]))],
                     owned + multiset{entries[i].value})
  {
    var entries := h[d].payload.entries;
    var next := entries[i := Entry(entries[i].key, v)];
    var before, after := owned + multiset{v}, owned + multiset{entries[i].value};
    ReplacedInHeap(h, entries, i, v, owned);
    forall q ensures Count(EntryRefs(next), q) + after[q] == Count(EntryRefs(entries), q) + before[q] {
      EntryRefsOfReplace(entries, i, v, q);
    }
    UpdateMovesOwnership(h, d, DictObject(next), before, after);
  }

  lemma ReplacedInHeap(h: Heap, entries: seq<Entry>, i: nat, v: Addr, owned: multiset<Addr>)
    requires i < |entries| && InHeap(EntryRefs(entries), h)
    requires forall q :: q in owned + multiset{v} ==> q < |h|
    ensures InHeap(EntryRefs(entries[i := Entry(entries[i].key, v)]), h)
    ensures forall q :: q in owned + multiset{entries[i].value} ==> q < |h|
  {
    var next := entries[i := Entry(entries[i].key, v)];
    EntryRefsOfReplace(entries, i, v, 0);
    assert v in owned + multiset{v};
    forall q | q in EntryRefs(next) || q in EntryRefs(entries) ensures q < |h| {
      if q in EntryRefs(entries) {
        var j :| 0 <= j < |EntryRefs(entries)| && EntryRefs(entries)[j] == q;
      }
    }
    AllInHeap(EntryRefs(next), h);
    forall q | q in owned + multiset{entries[i].value} ensures q < |h| {
      if q in owned {
        assert q in owned + multiset{v};
      }
    }
  }

  lemma AllInHeap(s: seq<Addr>, h: Heap)
    requires forall q :: q in s ==> q < |h|
    ensures InHeap(s, h)
  {
    forall i | 0 <= i < |s| ensures s[i] < |h| {
      assert s[i] in s;
    }
  }

  /** What an update of a new dictionary by a key and a value leaves as it was. */
  lemma UpdateFacts(base: Heap, h0: Heap, h: Heap, d: Addr, payload: Payload, k: Addr, v: Addr)
    requires |base| <= d < |h| == |h0| && Live(h[d]) && payload != Freed
    requires Extends(base, h) && Survives(h0, h)
    requires forall n :: Ordered(h0, n) ==> Ordered(h, n)
    requires forall a :: a in Refs(payload) ==> a in Refs(h[d].payload) || a == k || a == v
    ensures var h' := h[d := h[d].(payload := payload)];
            && Extends(base, h') && SurvivesExcept(h0, h', d)
            && (forall n :: Ordered(h0, n) && (k < n || d < k) && (v < n || d < v) ==> Ordered(h', n))
  {
    var h' := h[d := h[d].(payload := payload)];
    forall n | Ordered(h0, n) && (k < n || d < k) && (v < n || d < v) ensures Ordered(h', n) {
      UpdateKeepsOrder(h, d, payload, n);
    }
  }

  lemma SlotTakesOver(h: Heap, l: Addr, i: nat, e: Addr, owned: multiset<Addr>)
    requires Balanced(h, owned) && l < |h| && h[l].payload.SequenceObject? && e in owned
    requires i < |h[l].payload.items| && h[l].payload.items[i] == Empty
    ensures var payload := SequenceObject(h[l].payload.kind, h[l].payload.items[i := Item(e)]);
            && Balanced(h[l := h[l].(payload := payload)], owned - multiset{e})
            && (forall a :: a in Refs(payload) ==> a in Refs(h[l].payload) || a == e)
  {
    var items := h[l].payload.items;
    var next := items[i := Item(e)];
    forall q ensures Count(SlotRefs(next), q) == Count(SlotRefs(items), q) + if e == q then 1 else 0 {
      SlotRefsOf(items, i, e, q);
    }
    SlotRefsOf(items, i, e, e);
    assert Refs(h[l].payload) == SlotRefs(items);
    assert e < |h| && InHeap(Refs(h[l].payload), h);
    forall k | 0 <= k < |SlotRefs(next)| ensures SlotRefs(next)[k] < |h| {
      var a := SlotRefs(next)[k];
      if a != e {
        assert a in SlotRefs(items);
        var j :| 0 <= j < |SlotRefs(items)| && SlotRefs(items)[j] == a;
      }
    }
    UpdateMovesOwnership(h, l, SequenceObject(h[l].payload.kind, next), owned, owned - multiset{e});
  }

  /** An update keeps the order if the references it adds do. */
  lemma UpdateKeepsOrder(h: Heap, l: Addr, payload: Payload, n: nat)
    requires l < |h| && Ordered(h, n)
    requires forall a :: a in Refs(payload) ==> a in Refs(h[l].payload) || a < n || l < a
    ensures Ordered(h[l := h[l].(payload := payload)], n)
  {
    var h' := h[l := h[l].(payload := payload)];
    forall p, i | n <= p < |h'| && 0 <= i < |Refs(h'[p].payload)|
      ensures Refs(h'[p].payload)[i] < n || Refs(h'[p].payload)[i] > p
    {
      if p == l {
        var a := Refs(payload)[i];
        if a in Refs(h[l].payload) {
          var j :| 0 <= j < |Refs(h[l].payload)| && Refs(h[l].payload)[j] == a;
        }
      }
    }
  }

  lemma StartDropping(h: Heap, owned: multiset<Addr>, p: Addr)
    requires Balanced(h, owned) && p in owned
    ensures Counted(h, owned - multiset{p}, [p])
  {
    var keep := owned - multiset{p};
    forall q | 0 <= q < |h| && !h[q].immortal
      ensures h[q].rc == keep[q] + Count([p], q) + EdgeCount(h, q)
    {
      assert [p][1..] == [];
      assert Count([p], q) == if p == q then 1 else 0;
    }
  }
}
