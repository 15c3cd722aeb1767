/** A reference-counted heap of Python objects, on values. */
module PyHeap {

  type Addr = nat

  /** Floating point numbers, taken exactly. */
  datatype Float = Finite(value: real) | NegativeZero | Infinite(negative: bool) | NaN

  /** What an object is. A slot of a sequence that has not been filled yet is empty. */
  datatype Payload =
    | Freed
    | NoneObject
    | BoolObject(b: bool)
    | IntObject(i: int)
    | FloatObject(f: Float)
    | StrObject(text: string)
    | BytesObject(bytes: seq<bv8>)
    | ByteArrayObject(bytes: seq<bv8>)
    | SequenceObject(kind: Kind, items: seq<Slot>)
    | DictObject(entries: seq<Entry>)
    | ExceptionObject(name: string)
    | OpaqueObject(key: OpaqueKey)

  /** How an object of any other type compares as a key: by identity, with its equals, with a number, or not at all. */
  datatype OpaqueKey = ByIdentity | ByClass(id: nat) | AsNumber(value: real) | AsInfinity(negative: bool) | NoHash

  datatype Kind = ListKind | TupleKind | SetKind | FrozenSetKind

  datatype Slot = Empty | Item(addr: Addr)

  datatype Entry = Entry(key: Addr, value: Addr)

  /** Immortal objects are never counted and never freed. */
  datatype Cell = Cell(rc: nat, immortal: bool, payload: Payload)

  type Heap = seq<Cell>

  predicate Live(c: Cell) {
    c.immortal || c.rc > 0
  }

  /** The references an object holds, in order. */
  function Refs(p: Payload): seq<Addr> {
    match p
    case SequenceObject(_, items) => SlotRefs(items)
    case DictObject(entries) => EntryRefs(entries)
    case _ => []
  }

  function SlotRefs(items: seq<Slot>): seq<Addr> {
    if items == [] then []
    else (if items[0].Item? then [items[0].addr] else []) + SlotRefs(items[1..])
  }

  function EntryRefs(entries: seq<Entry>): seq<Addr> {
    if entries == [] then [] else [entries[0].key, entries[0].value] + EntryRefs(entries[1..])
  }

  /** How often an address occurs. */
  function Count(s: seq<Addr>, q: Addr): nat {
    if s == [] then 0 else (if s[0] == q then 1 else 0) + Count(s[1..], q)
  }

  /** How many references objects of the heap hold to q. */
  function EdgeCount(h: Heap, q: Addr): nat {
    if h == [] then 0 else Count(Refs(h[0].payload), q) + EdgeCount(h[1..], q)
  }

  /** How many references objects of the heap hold. */
  function EdgeTotal(h: Heap): nat {
    if h == [] then 0 else |Refs(h[0].payload)| + EdgeTotal(h[1..])
  }

  predicate InHeap(s: seq<Addr>, h: Heap) {
    forall i :: 0 <= i < |s| ==> s[i] < |h|
  }

  /** Freed objects are marked and hold nothing; references point into the heap. */
  predicate WellFormed(h: Heap) {
    && (forall p :: 0 <= p < |h| ==> (h[p].payload == Freed <==> !Live(h[p])))
    && (forall p :: 0 <= p < |h| && h[p].immortal ==> h[p].rc == 0)
    && (forall p :: 0 <= p < |h| ==> InHeap(Refs(h[p].payload), h))
  }

  /**
   * The counts are exact: a counted object has one reference for each one held by an object of the heap, for each
   * one owned from outside, and for each one still to be dropped.
   */
  ghost predicate Counted(h: Heap, owned: multiset<Addr>, work: seq<Addr>) {
    && WellFormed(h) && InHeap(work, h)
    && (forall q :: q in owned ==> q < |h|)
    && (forall p :: 0 <= p < |h| && !h[p].immortal ==> h[p].rc == owned[p] + Count(work, p) + EdgeCount(h, p))
  }

  ghost predicate Balanced(h: Heap, owned: multiset<Addr>) {
    Counted(h, owned, [])
  }

  // ----- counting -----

  lemma {:induction false} CountOfConcat(a: seq<Addr>, b: seq<Addr>, q: Addr)
    ensures Count(a + b, q) == Count(a, q) + Count(b, q)
  {
    if a == [] {
      assert a + b == b;
    } else {
      assert (a + b)[1..] == a[1..] + b;
      CountOfConcat(a[1..], b, q);
    }
  }

  lemma {:induction false} CountPositive(s: seq<Addr>, q: Addr)
    ensures Count(s, q) > 0 <==> q in s
  {
    if s != [] {
      CountPositive(s[1..], q);
      assert s == [s[0]] + s[1..];
    }
  }

  lemma {:induction false} EdgesAfterUpdate(h: Heap, p: Addr, c: Cell, q: Addr)
    requires p < |h|
    ensures EdgeCount(h[p := c], q) == EdgeCount(h, q) - Count(Refs(h[p].payload), q) + Count(Refs(c.payload), q)
    ensures Count(Refs(h[p].payload), q) <= EdgeCount(h, q)
    ensures EdgeTotal(h[p := c]) == EdgeTotal(h) - |Refs(h[p].payload)| + |Refs(c.payload)|
  {
    hide Refs, Count;
    if p == 0 {
      assert h[0 := c][1..] == h[1..];
    } else {
      assert h[p := c][1..] == h[1..][p - 1 := c];
      EdgesAfterUpdate(h[1..], p - 1, c, q);
    }
  }

  lemma {:induction false} EdgesOfConcat(a: Heap, b: Heap, q: Addr)
    ensures EdgeCount(a + b, q) == EdgeCount(a, q) + EdgeCount(b, q)
  {
    if a == [] {
      assert a + b == b;
    } else {
      assert (a + b)[1..] == a[1..] + b;
      EdgesOfConcat(a[1..], b, q);
    }
  }

  /** An object referred to is referred to by some object. */
  lemma {:induction false} EdgeHasSource(h: Heap, q: Addr) returns (p: Addr)
    requires EdgeCount(h, q) > 0
    ensures p < |h| && q in Refs(h[p].payload)
  {
    if Count(Refs(h[0].payload), q) > 0 {
      CountPositive(Refs(h[0].payload), q);
      p := 0;
    } else {
      p := EdgeHasSource(h[1..], q);
      p := p + 1;
    }
  }

  /** Heaps whose objects hold the same references have the same edges. */
  lemma {:induction false} SameRefsSameEdges(a: Heap, b: Heap, q: Addr)
    requires |a| == |b| && forall p :: 0 <= p < |a| ==> Refs(a[p].payload) == Refs(b[p].payload)
    ensures EdgeCount(a, q) == EdgeCount(b, q)
  {
    if a != [] {
      SameRefsSameEdges(a[1..], b[1..], q);
    }
  }

  // ----- taking references -----

  function IncRef(h: Heap, p: Addr): Heap
    requires p < |h|
  {
    if h[p].immortal then h else h[p := h[p].(rc := h[p].rc + 1)]
  }

  lemma IncRefOwns(h: Heap, p: Addr, owned: multiset<Addr>)
    requires p < |h| && Live(h[p]) && Balanced(h, owned)
    ensures Balanced(IncRef(h, p), owned + multiset{p})
  {
    var h' := IncRef(h, p);
    forall q | 0 <= q < |h| && !h[q].immortal
      ensures h'[q].rc == (owned + multiset{p})[q] + EdgeCount(h', q)
    {
      EdgesAfterUpdate(h, p, h[p].(rc := h[p].rc + 1), q);
    }
  }

  /** A new object at the end of the heap is owned once. */
  lemma AllocationOwns(h: Heap, payload: Payload, owned: multiset<Addr>)
    requires Balanced(h, owned) && payload != Freed && Refs(payload) == []
    ensures Balanced(h + [Cell(1, false, payload)], owned + multiset{|h|})
  {
    var c := Cell(1, false, payload);
    var h' := h + [c];
    forall q | 0 <= q < |h'| && !h'[q].immortal
      ensures h'[q].rc == (owned + multiset{|h|})[q] + EdgeCount(h', q)
    {
      EdgesOfConcat(h, [c], q);
      assert EdgeCount([c], q) == 0;
      if q == |h| {
        NoEdgeBeyond(h, q);
      }
    }
  }

  lemma NoEdgeBeyond(h: Heap, q: Addr)
    requires WellFormed(h) && q >= |h|
    ensures EdgeCount(h, q) == 0
  {
    if EdgeCount(h, q) > 0 {
      var p := EdgeHasSource(h, q);
    }
  }

  /** An object can take over references from the owner, or hand some over to it. */
  lemma UpdateMovesOwnership(h: Heap, p: Addr, payload: Payload, owned: multiset<Addr>, owned': multiset<Addr>)
    requires p < |h| && Live(h[p]) && Balanced(h, owned) && payload != Freed
    requires InHeap(Refs(payload), h) && forall q :: q in owned' ==> q < |h|
    requires forall q :: Count(Refs(payload), q) + owned'[q] == Count(Refs(h[p].payload), q) + owned[q]
    ensures Balanced(h[p := h[p].(payload := payload)], owned')
  {
    var h' := h[p := h[p].(payload := payload)];
    UpdateIsWellFormed(h, p, payload);
    hide Refs, WellFormed;
    forall q | 0 <= q < |h'| && !h'[q].immortal
      ensures h'[q].rc == owned'[q] + EdgeCount(h', q)
    {
      EdgesAfterUpdate(h, p, h[p].(payload := payload), q);
    }
  }

  lemma UpdateIsWellFormed(h: Heap, p: Addr, payload: Payload)
    requires p < |h| && Live(h[p]) && WellFormed(h) && payload != Freed && InHeap(Refs(payload), h)
    ensures WellFormed(h[p := h[p].(payload := payload)])
  {
    hide Refs;
  }

  // ----- dropping references -----

  /** Drop one reference; the references of an object freed by that are to be dropped next. */
  function DropOne(h: Heap, p: Addr): (Heap, seq<Addr>)
    requires p < |h| && Live(h[p])
  {
    if h[p].immortal then (h, [])
    else if h[p].rc > 1 then (h[p := h[p].(rc := h[p].rc - 1)], [])
    else (h[p := Cell(0, false, Freed)], Refs(h[p].payload))
  }

  /** The reference to be dropped next is one of those counted. */
  lemma NextToDrop(h: Heap, p: Addr, owned: multiset<Addr>, rest: seq<Addr>)
    requires Counted(h, owned, [p] + rest)
    ensures p < |h| && Live(h[p]) && InHeap(rest, h)
    ensures forall q :: 0 <= q < |h| && !h[q].immortal ==>
              h[q].rc == owned[q] + (if q == p then 1 else 0) + Count(rest, q) + EdgeCount(h, q)
  {
    var work := [p] + rest;
    assert work[0] == p && work[1..] == rest;
    forall i | 0 <= i < |rest| ensures rest[i] < |h| {
      assert rest[i] == work[i + 1];
    }
  }

  /** Dropping a reference hands its object's references to the list when it was the last one. */
  lemma DropOneKeepsCount(h: Heap, p: Addr, owned: multiset<Addr>, rest: seq<Addr>)
    requires Counted(h, owned, [p] + rest)
    ensures p < |h| && Live(h[p])
    ensures var (h', more) := DropOne(h, p);
            && |h'| == |h| && Counted(h', owned, more + rest)
            && EdgeTotal(h') + |more| == EdgeTotal(h)
  {
    NextToDrop(h, p, owned, rest);
    var (h', more) := DropOne(h, p);
    if h[p].immortal || h[p].rc > 1 {
      assert more + rest == rest;
    }
    if !h[p].immortal && h[p].rc > 1 {
      DropNotLast(h, p, owned, rest);
    } else if !h[p].immortal {
      DropLast(h, p, owned, rest);
    }
  }

  /** The heap with the counts it has when the reference to p is the next one to drop. */
  ghost predicate CountedNext(h: Heap, p: Addr, owned: multiset<Addr>, rest: seq<Addr>) {
    && p < |h| && WellFormed(h) && InHeap(rest, h) && Live(h[p]) && !h[p].immortal
    && (forall q :: q in owned ==> q < |h|)
    && (forall q :: 0 <= q < |h| && !h[q].immortal ==>
          h[q].rc == owned[q] + (if q == p then 1 else 0) + Count(rest, q) + EdgeCount(h, q))
  }

  lemma DropNotLast(h: Heap, p: Addr, owned: multiset<Addr>, rest: seq<Addr>)
    requires CountedNext(h, p, owned, rest) && h[p].rc > 1
    ensures var h' := h[p := h[p].(rc := h[p].rc - 1)]; Counted(h', owned, rest) && EdgeTotal(h') == EdgeTotal(h)
  {
    var c := h[p].(rc := h[p].rc - 1);
    forall q | 0 <= q < |h| && !h[q].immortal
      ensures h[p := c][q].rc == owned[q] + Count(rest, q) + EdgeCount(h[p := c], q)
    {
      EdgesAfterUpdate(h, p, c, q);
    }
    EdgesAfterUpdate(h, p, c, 0);
  }

  lemma DropLast(h: Heap, p: Addr, owned: multiset<Addr>, rest: seq<Addr>)
    requires CountedNext(h, p, owned, rest) && h[p].rc == 1
    ensures var h', more := h[p := Cell(0, false, Freed)], Refs(h[p].payload);
            Counted(h', owned, more + rest) && EdgeTotal(h') + |more| == EdgeTotal(h)
  {
    var c, more := Cell(0, false, Freed), Refs(h[p].payload);
    forall q | 0 <= q < |h| && !h[q].immortal
      ensures h[p := c][q].rc == owned[q] + Count(more + rest, q) + EdgeCount(h[p := c], q)
    {
      EdgesAfterUpdate(h, p, c, q);
      CountOfConcat(more, rest, q);
    }
    EdgesAfterUpdate(h, p, c, 0);
  }

  // ----- what survives -----

  /** Every object of h0 that was alive is alive in h and holds what it held. */
  ghost predicate Extends(h0: Heap, h: Heap) {
    && |h0| <= |h|
    && (forall p :: 0 <= p < |h0| && Live(h0[p]) ==>
          Live(h[p]) && h[p].payload == h0[p].payload && h[p].immortal == h0[p].immortal)
    && (forall p :: 0 <= p < |h0| && !Live(h0[p]) ==> h[p] == h0[p])
  }

  /** Every counted object of h0 that is alive is held from outside or by an object of h0. */
  ghost predicate Supported(h0: Heap, owned: multiset<Addr>) {
    forall p :: 0 <= p < |h0| && Live(h0[p]) && !h0[p].immortal ==> owned[p] + EdgeCount(h0, p) > 0
  }

  lemma ExtensionKeepsEdges(h0: Heap, h: Heap, q: Addr)
    requires Extends(h0, h) && WellFormed(h0)
    ensures EdgeCount(h, q) == EdgeCount(h0, q) + EdgeCount(h[|h0|..], q)
  {
    var n := |h0|;
    assert h == h[..n] + h[n..];
    EdgesOfConcat(h[..n], h[n..], q);
    forall p | 0 <= p < n ensures Refs(h0[p].payload) == Refs(h[..n][p].payload) {
      assert h[..n][p] == h[p];
    }
    SameRefsSameEdges(h0, h[..n], q);
  }

  /** Dropping references that h0 does not need frees none of its objects. */
  lemma DropOneKeepsExtension(h0: Heap, h: Heap, p: Addr, owned: multiset<Addr>, rest: seq<Addr>)
    requires Counted(h, owned, [p] + rest) && WellFormed(h0)
    requires Extends(h0, h) && Supported(h0, owned)
    ensures p < |h| && Live(h[p]) && Extends(h0, DropOne(h, p).0)
  {
    NextToDrop(h, p, owned, rest);
    if p < |h0| && Live(h0[p]) && !h0[p].immortal {
      ExtensionKeepsEdges(h0, h, p);
      assert h[p].rc > 1;
    }
  }

  lemma ExtendsTransitive(a: Heap, b: Heap, c: Heap)
    requires Extends(a, b) && Extends(b, c)
    ensures Extends(a, c)
  {
  }

  /** Every object alive in h' was alive in h and holds what it held. */
  ghost predicate Survives(h: Heap, h': Heap) {
    |h| <= |h'| && forall p :: 0 <= p < |h| && Live(h'[p]) ==> Live(h[p]) && h'[p].payload == h[p].payload
  }

  lemma SurvivesTransitive(a: Heap, b: Heap, c: Heap)
    requires Survives(a, b) && Survives(b, c)
    ensures Survives(a, c)
  {
  }

  lemma BalancedSupports(h: Heap, owned: multiset<Addr>, more: multiset<Addr>)
    requires Balanced(h, owned)
    ensures WellFormed(h) && Supported(h, owned + more)
  {
    forall p | 0 <= p < |h| && Live(h[p]) && !h[p].immortal ensures (owned + more)[p] + EdgeCount(h, p) > 0 {
      assert h[p].rc == owned[p] + EdgeCount(h, p);
    }
  }

  /** What is owned or referred to by an object is alive. */
  lemma ReferredIsLive(h: Heap, owned: multiset<Addr>, q: Addr, p: Addr)
    requires Balanced(h, owned) && p < |h| && q in Refs(h[p].payload)
    ensures q < |h| && Live(h[q])
  {
    CountPositive(Refs(h[p].payload), q);
    EdgesAfterUpdate(h, p, h[p], q);
    assert InHeap(Refs(h[p].payload), h);
  }

  // ----- what containers refer to -----

  lemma {:induction false} ItemIsReferred(items: seq<Slot>, i: nat)
    requires i < |items| && items[i].Item?
    ensures items[i].addr in SlotRefs(items)
  {
    if i > 0 {
      ItemIsReferred(items[1..], i - 1);
    }
  }

  lemma {:induction false} EntryIsReferred(entries: seq<Entry>, i: nat)
    requires i < |entries|
    ensures entries[i].key in EntryRefs(entries) && entries[i].value in EntryRefs(entries)
  {
    if i > 0 {
      EntryIsReferred(entries[1..], i - 1);
    }
  }

  // ----- structures under construction -----

  /**
   * Objects from address n on are counted, and refer only to objects below n or to objects made after themselves.
   * A structure is built that way: a container before its elements.
   */
  ghost predicate BuiltInOrder(h: Heap, n: nat) {
    forall p, i :: n <= p < |h| && 0 <= i < |Refs(h[p].payload)| ==>
      Refs(h[p].payload)[i] < n || Refs(h[p].payload)[i] > p
  }

  ghost predicate NewOnesCounted(h: Heap, n: nat) {
    forall p :: n <= p < |h| ==> !h[p].immortal
  }

  /** The owner keeps some objects; of the new ones only such as hold nothing. */
  ghost predicate KeepsLeaves(h: Heap, n: nat, extra: multiset<Addr>) {
    forall q :: q in extra && n <= q < |h| ==> Refs(h[q].payload) == []
  }

  /** New objects that are not kept are dead. */
  lemma {:induction false} NewObjectsDie(h0: Heap, h: Heap, owned: multiset<Addr>, extra: multiset<Addr>, p: Addr)
    requires Balanced(h0, owned) && Balanced(h, owned + extra) && Extends(h0, h)
    requires BuiltInOrder(h, |h0|) && NewOnesCounted(h, |h0|) && KeepsLeaves(h, |h0|, extra)
    requires |h0| <= p < |h|
    ensures h[p].rc == extra[p] && Refs(h[p].payload) == []
    decreases p
  {
    assert owned[p] == 0;
    if EdgeCount(h, p) > 0 {
      var q := EdgeHasSource(h, p);
      var i :| 0 <= i < |Refs(h[q].payload)| && Refs(h[q].payload)[i] == p;
      if q >= |h0| {
        NewObjectsDie(h0, h, owned, extra, q);
      }
    }
  }

  /**
   * Every old object is as it was, count and all, but for the references in `kept`; of the new ones exactly those in
   * `kept` are alive.
   */
  ghost predicate LeftBut(h: Heap, h': Heap, kept: multiset<Addr>) {
    && |h| <= |h'|
    && (forall q :: 0 <= q < |h| ==> h'[q] == if h[q].immortal then h[q] else h[q].(rc := h[q].rc + kept[q]))
    && (forall q :: |h| <= q < |h'| ==> (Live(h'[q]) <==> q in kept))
  }

  /**
   * Nothing leaks and nothing is lost. When the owner has given back everything but `extra`, exactly the new
   * objects it keeps are alive, and the count of each old object differs by the references it keeps.
   */
  lemma NothingLeaks(h0: Heap, h: Heap, owned: multiset<Addr>, extra: multiset<Addr>)
    requires Balanced(h0, owned) && Balanced(h, owned + extra) && Extends(h0, h)
    requires BuiltInOrder(h, |h0|) && NewOnesCounted(h, |h0|) && KeepsLeaves(h, |h0|, extra)
    ensures LeftBut(h0, h, extra)
  {
    forall p | |h0| <= p < |h| ensures Live(h[p]) <==> p in extra {
      NewObjectsDie(h0, h, owned, extra, p);
    }
    forall p | 0 <= p < |h0|
      ensures h[p] == if h0[p].immortal then h0[p] else h0[p].(rc := h0[p].rc + extra[p])
    {
      ExtensionKeepsEdges(h0, h, p);
      if EdgeCount(h[|h0|..], p) > 0 {
        var q := EdgeHasSource(h[|h0|..], p);
      }
      if !Live(h0[p]) {
        OwnedIsLive(h, owned + extra, p);
      }
    }
  }

  lemma OwnedIsLive(h: Heap, owned: multiset<Addr>, p: Addr)
    requires Balanced(h, owned) && p < |h| && !Live(h[p])
    ensures owned[p] == 0 && EdgeCount(h, p) == 0
  {
  }

  /**
   * When the owner keeps a new structure, the count of each old object rises by what the structure holds, and by
   * one if it is kept itself.
   */
  lemma CountsRiseByStructure(h0: Heap, h: Heap, owned: multiset<Addr>, r: Addr, p: Addr)
    requires Balanced(h0, owned) && Balanced(h, owned + multiset{r}) && Extends(h0, h)
    requires p < |h0| && !h0[p].immortal && Live(h0[p])
    ensures h[p].rc == h0[p].rc + (if p == r then 1 else 0) + EdgeCount(h[|h0|..], p)
  {
    ExtensionKeepsEdges(h0, h, p);
  }

  /** q can be reached from p along references. */
  least predicate Reaches[nat](h: Heap, p: Addr, q: Addr) {
    p == q || exists m: Addr :: m < |h| && q in Refs(h[m].payload) && Reaches(h, p, m)
  }

  /** All new objects alive belong to the structure kept. */
  lemma {:induction false} NewObjectsAreReached(h0: Heap, h: Heap, owned: multiset<Addr>, r: Addr, q: Addr)
    requires Balanced(h0, owned) && Balanced(h, owned + multiset{r}) && Extends(h0, h)
    requires BuiltInOrder(h, |h0|) && NewOnesCounted(h, |h0|)
    requires |h0| <= q < |h| && Live(h[q])
    ensures Reaches(h, r, q)
    decreases q
  {
    if q != r {
      assert EdgeCount(h, q) > 0;
      var p := EdgeHasSource(h, q);
      var i :| 0 <= i < |Refs(h[p].payload)| && Refs(h[p].payload)[i] == q;
      if p >= |h0| {
        NewObjectsAreReached(h0, h, owned, r, p);
      }
    }
  }
}
