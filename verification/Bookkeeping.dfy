/** The books an interpreter keeps: every reference a handle has taken is accounted for. */
module Bookkeeping {
  import opened PyHeap
  import opened Python
  import opened Values
  import opened Copies
  import opened Meanings
  import opened Handles
  import opened Conversions
  import opened Reading

  /** A handle holds its reference or nothing. */
  ghost predicate SlotsMatch(slots: seq<Ref>, origin: seq<Addr>, fates: seq<Fate>) {
    && |slots| == |origin| == |fates|
    && forall i :: 0 <= i < |slots| ==> slots[i] == if fates[i] == Held then Ref.Ref(origin[i]) else Null
  }

  ghost predicate NoneAbandoned(fates: seq<Fate>) {
    forall i :: 0 <= i < |fates| ==> fates[i] != Abandoned
  }

  /** The references owned are exactly those taken by handles and not given back, and `extra`. */
  ghost predicate OpenBooks(m: Moment, extra: multiset<Addr>) {
    && |m.origin| == |m.fates| && Valid(m) && Extends(Singletons(), m.heap) && NoneAbandoned(m.fates)
    && m.owned == Outstanding(m.origin, m.fates) + extra
  }

  /** The queue is what finalizers have queued, and while the interpreter is open no reference is lost. */
  ghost predicate Books(m: Moment, pending: seq<Addr>, open: bool, extra: multiset<Addr>) {
    && SlotsMatch(m.slots, m.origin, m.fates)
    && multiset(pending) == With(m.origin, m.fates, Queued)
    && (open ==> OpenBooks(m, extra))
  }

  /** Handles hold live objects. */
  lemma HandlesAlive(m: Moment, pending: seq<Addr>, extra: multiset<Addr>)
    requires Books(m, pending, true, extra)
    ensures SlotsAlive(m.slots, m.heap, |m.heap|)
  {
    hide Balanced, Outstanding;
    forall i | 0 <= i < |m.slots| && m.slots[i].Ref?
      ensures m.slots[i].addr < |m.heap| && Live(m.heap[m.slots[i].addr])
    {
      HeldIsOutstanding(m.origin, m.fates, i);
      OwnedIsAlive(m.heap, m.owned, m.origin[i]);
    }
  }

  lemma ReadyNow(m: Moment, pending: seq<Addr>, extra: multiset<Addr>)
    requires Books(m, pending, true, extra)
    ensures Ready(m, |m.heap|)
  {
    hide Balanced;
    HandlesAlive(m, pending, extra);
  }

  /** A handle takes over a reference the caller had. */
  lemma BooksAfterTaking(m: Moment, m': Moment, pending: seq<Addr>, open: bool, extra: multiset<Addr>, p: Addr)
    requires Books(m, pending, open, extra + multiset{p}) && NewHandle(m, m', p)
    requires m'.heap == m.heap && m'.owned == m.owned
    ensures Books(m', pending, open, extra)
  {
    hide Balanced, Extends, With, Outstanding;
    WithAfterAppend(m.origin, m.fates, p, Held, Queued);
    OutstandingAfterAppend(m.origin, m.fates, p);
    if open {
      MoveOne(m.owned, Outstanding(m.origin, m.fates), extra, p);
    }
  }

  lemma MoveOne(o: multiset<Addr>, t: multiset<Addr>, extra: multiset<Addr>, p: Addr)
    requires o == t + (extra + multiset{p})
    ensures o == t + multiset{p} + extra
  {
  }

  /** One handle's reference changes its fate; it holds nothing from then on. */
  lemma BooksAfterChange(m: Moment, m': Moment, pending: seq<Addr>, pending': seq<Addr>,
                         extra: multiset<Addr>, extra': multiset<Addr>, open: bool, i: nat, g: Fate)
    requires Books(m, pending, open, extra) && i < |m.fates| && g != Held
    requires m'.slots == m.slots[i := Null] && m'.origin == m.origin && m'.fates == m.fates[i := g]
    requires open ==> g != Abandoned && Valid(m') && Extends(Singletons(), m'.heap)
    requires open ==>
      Owning(m'.owned, m.fates[i], m.origin[i], extra) == Owning(m.owned, g, m.origin[i], extra')
    requires multiset(pending') + Only(m.fates[i] == Queued, m.origin[i])
          == multiset(pending) + Only(g == Queued, m.origin[i])
    ensures Books(m', pending', open, extra')
  {
    hide Balanced, Extends, With, Outstanding, Only;
    WithAfterChange(m.origin, m.fates, i, g, Queued);
    Same(multiset(pending'), With(m.origin, m'.fates, Queued), Only(m.fates[i] == Queued, m.origin[i]));
    if open {
      OutstandingAfterChange(m.origin, m.fates, i, g);
      Transfer(m'.owned, Only(IsOutstanding(m.fates[i]), m.origin[i]), extra, m.owned,
               Only(IsOutstanding(g), m.origin[i]), extra',
               Outstanding(m.origin, m.fates), Outstanding(m.origin, m'.fates));
    }
  }

  function Owning(owned: multiset<Addr>, f: Fate, p: Addr, extra: multiset<Addr>): multiset<Addr> {
    owned + Only(IsOutstanding(f), p) + extra
  }

  lemma Same(a: multiset<Addr>, b: multiset<Addr>, c: multiset<Addr>)
    requires a + c == b + c
    ensures a == b
  {
    forall q ensures a[q] == b[q] {
      assert (a + c)[q] == (b + c)[q];
    }
  }

  lemma Transfer(o': multiset<Addr>, a: multiset<Addr>, x: multiset<Addr>, o: multiset<Addr>, b: multiset<Addr>,
                 x': multiset<Addr>, t: multiset<Addr>, t': multiset<Addr>)
    requires o' + a + x == o + b + x' && o == t + x && t' + a == t + b
    ensures o' == t' + x'
  {
    forall q ensures o'[q] == (t' + x')[q] {
      assert (o' + a + x)[q] == (o + b + x')[q];
      assert (t' + a)[q] == (t + b)[q];
    }
  }

  /** The queue has been emptied. */
  lemma BooksAfterSettling(m: Moment, m': Moment, pending: seq<Addr>, open: bool, extra: multiset<Addr>, g: Fate)
    requires Books(m, pending, open, extra) && (g == Dropped || g == Abandoned)
    requires m'.slots == m.slots && m'.origin == m.origin && m'.fates == Settled(m.fates, g)
    requires open ==> g == Dropped && Valid(m') && Extends(Singletons(), m'.heap)
    requires open ==> m'.owned + multiset(pending) == m.owned
    ensures Books(m', [], open, extra)
  {
    hide Balanced, Extends, With, Outstanding;
    SettledMoves(m.origin, m.fates, g);
    if open {
      OutstandingSettled(m.origin, m.fates, g);
      Shrink(m'.owned, multiset(pending), m.owned, Outstanding(m.origin, m.fates), Outstanding(m'.origin, m'.fates),
             extra);
    }
  }

  lemma Shrink(o': multiset<Addr>, q: multiset<Addr>, o: multiset<Addr>, t: multiset<Addr>,
                                  t': multiset<Addr>, x: multiset<Addr>)
    requires o' + q == o && o == t + x && t == t' + q
    ensures o' == t' + x
  {
    forall p ensures o'[p] == (t' + x)[p] {
      assert (o' + q)[p] == o[p];
    }
  }

  /** A failed call has taken nothing but the reference to its exception. */
  lemma BooksAfterFailure(m: Moment, m': Moment, pending: seq<Addr>, extra: multiset<Addr>, error: Error)
    requires Books(m, pending, true, extra) && Failure(m, m', error)
    requires Valid(m') && Extends(m.heap, m'.heap)
    ensures Books(m', pending, true, extra)
  {
    hide Balanced, Extends, With, Outstanding;
    ExtendsTransitive(Singletons(), m.heap, m'.heap);
    if error.PythonError? {
      var e := m'.origin[|m.origin|];
      var m1 := m.(heap := m'.heap, owned := m'.owned);
      assert m1.owned == Outstanding(m.origin, m.fates) + (extra + multiset{e});
      BooksAfterTaking(m1, m', pending, true, extra, e);
    }
  }

  lemma QueueIsOwned(m: Moment, pending: seq<Addr>, extra: multiset<Addr>)
    requires Books(m, pending, true, extra)
    ensures multiset(pending) <= m.owned
  {
  }

  lemma InHandIsOwned(m: Moment, pending: seq<Addr>, extra: multiset<Addr>, i: nat)
    requires Books(m, pending, true, extra) && i < |m.fates| && m.fates[i] == InHand
    ensures m.origin[i] in m.owned && Valid(m) && Extends(Singletons(), m.heap)
  {
    HeldIsOutstanding(m.origin, m.fates, i);
  }

  lemma FirstOfRest(rest: multiset<Addr>, p: seq<Addr>, i: nat, owned: multiset<Addr>)
    requires i < |p| && owned == rest + multiset(p[i..])
    ensures p[i] in owned && owned - multiset{p[i]} == rest + multiset(p[i + 1..])
  {
    assert p[i..] == [p[i]] + p[i + 1..];
  }

  // ----- whole calls -----

  datatype Made = Made(id: nat) | NotMade(error: Error)

  /** Between two calls an open interpreter has only dropped what was queued. */
  ghost predicate Drained(m: Moment, m': Moment) {
    && m'.slots == m.slots && m'.origin == m.origin && m'.fates == Settled(m.fates, Dropped)
    && |m'.heap| == |m.heap| && Survives(m.heap, m'.heap)
  }

  /** A new handle owns a new structure, the value's if it has one; or nothing has been made. */
  ghost predicate MadeFrom(m: Moment, m': Moment, v: GoValue, r: Made) {
    && Continues(m.heap, m'.heap, |m.heap|)
    && match r
       case Made(id) =>
         && id == |m.slots| && |m.origin| < |m'.origin|
         && var p := m'.origin[|m.origin|];
            && NewHandle(m, m', p) && GrownByStructure(m.heap, m'.heap, p)
            && (Plain(v, Aims(m)) ==>
                  && Represents(m'.heap, p, ToTree(v, Aims(m)), |m.heap|, |m.heap|)
                  && Becomes(m'.heap, p, v, m.slots))
       case NotMade(error) => Failure(m, m', error) && LeftBut(m.heap, m'.heap, KeptBy(m, m', error))
  }

  /**
   * Reading gives the value of the structure, which converts back to it, and leaves the heap as it was but for the
   * handles it has made; these are there even when it has failed.
   */
  ghost predicate ReadFrom(m: Moment, m': Moment, t: Tree, r: Fetch) {
    && Continues(m.heap, m'.heap, |m.heap|)
    && match r
       case Got(v) =>
         && v == FromTree(t, |m.slots|) && IsBack(m.heap, v, t, m'.slots)
         && SameAccount(WithHandles(m, Objects(t)), m')
         && LeftBut(m.heap, m'.heap, multiset(Objects(t)))
       case Missed(error) => exists k :: 0 <= k <= |Objects(t)| && MissedAfter(m, m', Objects(t)[..k], error)
  }

  /** Handles to some objects have been made when reading failed. */
  ghost predicate MissedAfter(m: Moment, m': Moment, objs: seq<Addr>, error: Error) {
    && Failure(WithHandles(m, objs), m', error)
    && LeftBut(m.heap, m'.heap, multiset(objs) + KeptBy(WithHandles(m, objs), m', error))
  }

  /** Handles made for references that the call owns keep the books. */
  lemma BooksWithHandles(m: Moment, m': Moment, pending: seq<Addr>, extra: multiset<Addr>, objs: seq<Addr>)
    requires Books(m, pending, true, extra) && SameAccount(WithHandles(m, objs), m')
    requires Valid(m') && Extends(m.heap, m'.heap)
    ensures Books(m', pending, true, extra)
  {
    hide Balanced, Extends, With, Outstanding;
    ExtendsTransitive(Singletons(), m.heap, m'.heap);
    WithAfterHandles(m.origin, m.fates, objs, Queued);
    OutstandingAfterHandles(m.origin, m.fates, objs);
    assert m'.owned == Outstanding(m.origin, m.fates) + multiset(objs) + extra;
  }

  lemma {:induction false} WithAfterHandles(origin: seq<Addr>, fates: seq<Fate>, objs: seq<Addr>, f: Fate)
    requires |origin| == |fates|
    ensures With(origin + objs, fates + HeldFates(|objs|), f)
         == With(origin, fates, f) + (if f == Held then multiset(objs) else multiset{})
  {
    hide With;
    if objs == [] {
      assert origin + [] == origin && fates + HeldFates(0) == fates;
    } else {
      var n := |objs| - 1;
      var rest, p := objs[..n], objs[n];
      assert multiset(rest + [p]) == multiset(rest) + multiset{p};
      WithAfterHandles(origin, fates, rest, f);
      WithAfterAppend(origin + rest, fates + HeldFates(n), p, Held, f);
      assert objs == rest + [p] && HeldFates(n) + [Held] == HeldFates(n + 1);
      assert origin + objs == (origin + rest) + [p];
      assert fates + HeldFates(n + 1) == (fates + HeldFates(n)) + [Held];
    }
  }

  lemma OutstandingAfterHandles(origin: seq<Addr>, fates: seq<Fate>, objs: seq<Addr>)
    requires |origin| == |fates|
    ensures Outstanding(origin + objs, fates + HeldFates(|objs|)) == Outstanding(origin, fates) + multiset(objs)
  {
    hide With;
    WithAfterHandles(origin, fates, objs, Held);
    WithAfterHandles(origin, fates, objs, Queued);
    WithAfterHandles(origin, fates, objs, InHand);
  }

  lemma ConversionIsMade(m: Moment, m1: Moment, m': Moment, pending: seq<Addr>, v: GoValue, p: Addr)
    requires Books(m, pending, true, multiset{})
    requires Outcome(m, m1, Converted(p), |m.heap|) && Exact(m, m1.heap, v, p, |m.heap|)
    requires NewHandle(m1, m', p) && m'.heap == m1.heap && m'.owned == m1.owned
    ensures MadeFrom(m, m', v, Made(|m.slots|)) && Books(m', pending, true, multiset{})
  {
    hide Balanced, Extends, Ordered, GrownByStructure, With, Outstanding, Represents, Becomes, Plain, ToTree;
    ReadyNow(m, pending, multiset{});
    ExactBecomes(m, m1, v, p, |m.heap|);
    SuccessGrows(m, m1, p);
    ExtendsTransitive(Singletons(), m.heap, m1.heap);
    assert m1.owned == Outstanding(m1.origin, m1.fates) + (multiset{} + multiset{p});
    BooksAfterTaking(m1, m', pending, true, multiset{}, p);
  }

  lemma ConversionIsNotMade(m: Moment, m': Moment, pending: seq<Addr>, v: GoValue, error: Error)
    requires Books(m, pending, true, multiset{}) && Outcome(m, m', Failed(error), |m.heap|)
    ensures MadeFrom(m, m', v, NotMade(error)) && Books(m', pending, true, multiset{})
  {
    hide Balanced, Extends, Ordered, LeftBut, With, Outstanding;
    FailureLeavesNothing(m, m', error);
    BooksAfterFailure(m, m', pending, multiset{}, error);
  }

  lemma ReadingIsDone(m: Moment, m': Moment, pending: seq<Addr>, t: Tree, r: Fetch)
    requires Books(m, pending, true, multiset{}) && Fetched(m, m', r, t, |m.heap|) && Legible(m.heap, t)
    requires r.Got? ==> IsBack(m.heap, r.value, t, m'.slots)
    ensures ReadFrom(m, m', t, r) && Books(m', pending, true, multiset{})
  {
    hide Balanced, Extends, Ordered, LeftBut, With, Outstanding, Legible, FromTree, Failure, IsBack;
    var objs := Objects(t);
    ObjectsAreOld(m.heap, t);
    if r.Got? {
      ReadingLeavesHandles(m, m', objs);
      BooksWithHandles(m, m', pending, multiset{}, objs);
    } else {
      var k :| 0 <= k <= |objs| && Failure(WithHandles(m, objs[..k]), m', r.error);
      ReadFailureLeavesHandles(m, m', objs[..k], r.error);
      BooksAfterReadFailure(m, m', pending, objs[..k], r.error);
      assert MissedAfter(m, m', objs[..k], r.error);
    }
  }

  lemma BooksAfterReadFailure(m: Moment, m': Moment, pending: seq<Addr>, objs: seq<Addr>, error: Error)
    requires Books(m, pending, true, multiset{}) && Failure(WithHandles(m, objs), m', error)
    requires Valid(m') && Extends(m.heap, m'.heap)
    ensures Books(m', pending, true, multiset{})
  {
    hide Balanced, Extends, With, Outstanding, Books;
    if error.PythonError? {
      var e := m'.origin[|m.origin| + |objs|];
      MoreHandles(m, objs, [e]);
      assert AsRefs([e]) == [Ref.Ref(e)] && HeldFates(1) == [Held];
      BooksWithHandles(m, m', pending, multiset{}, objs + [e]);
    } else {
      BooksWithHandles(m, m', pending, multiset{}, objs);
    }
  }

  /** What a handle holds keeps its structure while the queue is drained. */
  lemma ReadableAfterDraining(m: Moment, m': Moment, pending: seq<Addr>, extra: multiset<Addr>, id: nat, t: Tree)
    requires Drained(m, m') && Books(m', pending, true, extra)
    requires id < |m.slots| && m.slots[id].Ref?
    requires HasStructure(m.heap, m.slots[id].addr, t)
    ensures Readable(m'.heap, m', m'.slots[id].addr, t) && Legible(m'.heap, t)
  {
    hide Outstanding, With;
    HandlesAlive(m', pending, extra);
    RepresentsSurvives(m.heap, m'.heap, m'.owned, m.slots[id].addr, t, |m.heap|, 0);
    LegibleSurvives(m.heap, m'.heap, m'.owned, m.slots[id].addr, t, |m.heap|, 0);
  }

  /** A structure made by one call and given back by another leaves the heap as it was. */
  lemma HeapIsAsItWas(base: Moment, m: Moment, m': Moment, p: Addr)
    requires Books(base, [], true, multiset{}) && Books(m', [], true, multiset{})
    requires m'.origin == base.origin + [p] && m'.fates == base.fates + [Dropped]
    requires Extends(base.heap, m.heap) && Ordered(m.heap, |base.heap|)
    requires forall h :: Keeps(h, m.heap, m'.owned) ==> Extends(h, m'.heap)
    requires forall n :: Ordered(m.heap, n) ==> Ordered(m'.heap, n)
    ensures LeftBut(base.heap, m'.heap, multiset{})
  {
    hide Extends, Ordered, LeftBut, With, Outstanding, WellFormed, Supported;
    MadeAndReleased(base.origin, base.fates, p);
    BalancedSupports(base.heap, base.owned, multiset{});
    assert base.owned + multiset{} == base.owned == m'.owned;
    assert Keeps(base.heap, m.heap, m'.owned);
    var none: seq<Addr> := [];
    assert multiset(none) == multiset{};
    ReadingLeavesHandles(base, m', none);
  }

  lemma StillExtends(base: Moment, m: Moment, m1: Moment, m': Moment, v: GoValue, o: Made, t: Tree,
                                        r: Fetch)
    requires MadeFrom(base, m, v, o) && ReadFrom(m1, m', t, r) && o.Made? && r.Got? && Objects(t) == []
    requires m1.heap == m.heap
    requires Books(m, [], true, multiset{}) && Books(m', [], true, multiset{})
    ensures Extends(base.heap, m'.heap) && Ordered(m'.heap, |base.heap|)
  {
    hide Balanced, Extends, Ordered, LeftBut, With, Outstanding, GrownByStructure;
    ExtendsTransitive(base.heap, m.heap, m'.heap);
    assert multiset(Objects(t)) == multiset{};
    OrderedAfterReading(m, m', |base.heap|);
  }

  /** New handles are held. */
  ghost predicate HandlesAdded(m: Moment, m': Moment) {
    && m.origin <= m'.origin && m.fates <= m'.fates
    && forall i :: |m.fates| <= i < |m'.fates| ==> m'.fates[i] == Held
  }

  lemma FailureAddsHandles(m: Moment, m': Moment, objs: seq<Addr>, error: Error)
    requires Failure(WithHandles(m, objs), m', error)
    ensures HandlesAdded(m, m')
  {
  }

  lemma ReadingIsAlong(m: Moment, m': Moment, t: Tree, r: Fetch)
    requires ReadFrom(m, m', t, r)
    ensures Along(m.fates, m'.fates) && m.origin <= m'.origin
  {
    hide LeftBut, Continues, Failure, Objects, FromTree;
    if r.Missed? {
      var k :| 0 <= k <= |Objects(t)| && MissedAfter(m, m', Objects(t)[..k], r.error);
      FailureAddsHandles(m, m', Objects(t)[..k], r.error);
    }
    assert HandlesAdded(m, m');
  }

  lemma CloseIsAlong(fates: seq<Fate>, ids: seq<nat>)
    requires forall i :: 0 <= i < |ids| ==> ids[i] < |fates|
    ensures Along(fates, AfterFinalizers(Settled(fates, Dropped), ids))
    ensures Along(fates, Settled(AfterFinalizers(Settled(fates, Dropped), ids), Abandoned))
  {
    var a := Settled(fates, Dropped);
    var b := AfterFinalizers(a, ids);
    AlongSettled(fates, Dropped);
    AlongFinalizers(a, ids);
    AlongSettled(b, Abandoned);
    AlongTransitive(fates, a, b);
    AlongTransitive(fates, b, Settled(b, Abandoned));
  }

  lemma {:induction false} NoneWith(origin: seq<Addr>, fates: seq<Fate>, f: Fate)
    requires |origin| == |fates| && forall i :: 0 <= i < |fates| ==> fates[i] != f
    ensures With(origin, fates, f) == multiset{}
  {
    if fates != [] {
      NoneWith(origin[1..], fates[1..], f);
    }
  }

  /** What was taken is what is held, queued, dropped and abandoned, and nothing is abandoned while open. */
  lemma AllAccountedFor(m: Moment, pending: seq<Addr>, open: bool)
    requires Books(m, pending, open, multiset{}) && NoneInHand(m.fates)
    ensures multiset(m.origin) == With(m.origin, m.fates, Held) + multiset(pending)
                                  + With(m.origin, m.fates, Dropped) + With(m.origin, m.fates, Abandoned)
    ensures open ==> With(m.origin, m.fates, Abandoned) == multiset{}
  {
    hide With, Balanced, Extends, Outstanding;
    Conservation(m.origin, m.fates);
    NoneWith(m.origin, m.fates, InHand);
    if open {
      NoneWith(m.origin, m.fates, Abandoned);
    }
  }
}
