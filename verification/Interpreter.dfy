/** The Go side of the embedding: conversions in both directions, handles, and the life of an interpreter. */
module Embedding {
  import opened PyHeap
  import opened Keys
  import opened Python
  import opened Values
  import opened Copies
  import opened Meanings
  import opened Structures
  import opened Handles
  import opened Conversions
  import opened Reading
  import opened Bookkeeping

  /** What a program does with the interpreter. A handle is read by what its object's structure is. */
  datatype Op = MakeObject(v: GoValue) | ReadHandle(id: nat, t: Tree) | ReleaseHandle(id: nat)
    | FinalizeHandle(id: nat) | CloseInterpreter(meanwhile: seq<nat>, ending: Ending) | Panic

  /** How the finalization of an interpreter ends: by returning, by a panic, or by an exit. */
  datatype Ending = Returns | Panics | Exits(code: Int64)

  datatype Admission = Admitted | Refused(error: Error)

  /** What closing an open interpreter reports. */
  predicate Closing(a: Admission, ending: Ending, noFaults: bool) {
    match ending
    case Panics => a == Refused(Panicked)
    case Exits(code) => a == Refused(Exit(code))
    case Returns => a.Admitted? || (a == Refused(OwnError("RuntimeError")) && !noFaults)
  }

  class Interpreter {
    const rt: Runtime
    /**
     * What each handle holds: a strong reference, or nothing once it has been released. A handle is known by its
     * position, and Go values name it by that.
     */
    var slots: seq<Ref>
    var pending: seq<Addr>
    var closed: bool
    var crashed: bool
    /** The reference each handle took, and what has become of it. */
    ghost var origin: seq<Addr>
    ghost var fates: seq<Fate>

    constructor (faults: seq<bool>)
      ensures fresh(rt) && rt.Valid() && rt.heap == Singletons() && rt.owned == multiset{} && rt.faults == faults
      ensures slots == [] && pending == [] && !closed && !crashed && origin == [] && fates == []
      ensures Kept(multiset{})
    {
      SingletonsBalanced();
      rt := new Runtime(Singletons(), faults);
      slots, pending, closed, crashed := [], [], false, false;
      origin, fates := [], [];
    }

    ghost function Now(): Moment
      reads this, rt
    {
      Moment(slots, origin, fates, rt.heap, rt.owned)
    }

    /**
     * Turn what has been raised into an error. The new handle to an exception owns the one reference to it that is
     * left; an exit, and a failure without an exception, leave none.
     */
    method PyError(exc: Exc) returns (error: Error)
      requires rt.Valid()
      modifies rt`heap, rt`owned, this`slots, this`origin, this`fates
      ensures rt.Valid() && Extends(old(rt.heap), rt.heap) && Survives(old(rt.heap), rt.heap)
      ensures forall n :: Ordered(old(rt.heap), n) ==> Ordered(rt.heap, n)
      ensures Failure(old(Now()), Now(), error) && Reports(error, exc)
      ensures exc.NothingRaised? ==> error == OwnError("SystemError")
      ensures exc.SystemExit? ==> error.Exit?
      ensures exc.SystemExit? && (exc.code.NoCode? || exc.code.NoneCode?) ==> error.code == 0
      ensures exc.SystemExit? && exc.code.OtherCode? ==> error.code == 1
      ensures exc.SystemExit? && exc.code.IntCode? ==>
        error.code == if MIN_INT64 <= exc.code.i <= MAX_INT64 then exc.code.i else -1
      ensures exc.Exception? ==> error.PythonError? && error.kind == exc.kind
    {
      match exc
      case NothingRaised => error := OwnError("SystemError");
      case SystemExit(code) => error := ExitError(code);
      case Exception(kind) => error := ExceptionError(kind);
    }

    method ExceptionError(kind: string) returns (error: Error)
      requires rt.Valid()
      modifies rt`heap, rt`owned, this`slots, this`origin, this`fates
      ensures rt.Valid() && Extends(old(rt.heap), rt.heap) && Survives(old(rt.heap), rt.heap)
      ensures forall n :: Ordered(old(rt.heap), n) ==> Ordered(rt.heap, n)
      ensures Raised(old(Now()), Now(), error) && error.kind == kind
    {
      hide Balanced, BuiltInOrder, NewOnesCounted, Kept;
      ghost var h0, owned0 := rt.heap, rt.owned;
      var e := rt.Allocate(ExceptionObject(kind));
      rt.NewRef(e);
      var id := Obj(e);
      Cleanup(e, h0, owned0);
      OwnedIsAlive(rt.heap, rt.owned, e);
      error := PythonError(kind, id);
    }

    method ExitError(code: ExitCode) returns (error: Error)
      requires rt.Valid()
      modifies rt`heap, rt`owned
      ensures rt.Valid() && Extends(old(rt.heap), rt.heap) && Survives(old(rt.heap), rt.heap)
      ensures forall n :: Ordered(old(rt.heap), n) ==> Ordered(rt.heap, n)
      ensures rt.owned == old(rt.owned) && error.Exit? && IsStatus(error.code, code)
    {
      hide Balanced, BuiltInOrder, NewOnesCounted;
      ghost var h0, owned0 := rt.heap, rt.owned;
      var e := rt.Allocate(ExceptionObject("SystemExit"));
      Cleanup(e, h0, owned0);
      assert rt.owned == owned0;
      match code
      case NoCode => error := Exit(0);
      case NoneCode => error := Exit(0);
      case IntCode(i) => error := Exit(if MIN_INT64 <= i <= MAX_INT64 then i else -1);
      case OtherCode => error := Exit(1);
    }

    /** A new handle takes over a strong reference of the caller's. */
    method Obj(p: Addr) returns (id: nat)
      modifies this`slots, this`origin, this`fates
      ensures id == |old(slots)| && NewHandle(old(Now()), Now(), p)
      ensures forall extra :: old(Kept(extra + multiset{p})) ==> Kept(extra)
    {
      hide Books;
      ghost var m := Now();
      id := |slots|;
      slots, origin, fates := slots + [Ref.Ref(p)], origin + [p], fates + [Held];
      forall extra | old(Kept(extra + multiset{p})) ensures Kept(extra) {
        BooksAfterTaking(m, Now(), pending, Open(), extra, p);
      }
    }

    /** Drop a reference to an object that did not exist at first, or that something else still holds. */
    method Cleanup(p: Addr, ghost h0: Heap, ghost owned0: multiset<Addr>)
      requires rt.Valid() && Balanced(h0, owned0) && Extends(h0, rt.heap)
      requires p in rt.owned && owned0 <= rt.owned - multiset{p}
      modifies rt`heap, rt`owned
      ensures rt.Valid() && rt.owned == old(rt.owned) - multiset{p} && |rt.heap| == |old(rt.heap)|
      ensures Extends(h0, rt.heap) && Survives(old(rt.heap), rt.heap)
      ensures forall n :: Ordered(old(rt.heap), n) ==> Ordered(rt.heap, n)
    {
      ghost var more := rt.owned - multiset{p} - owned0;
      assert rt.owned - multiset{p} == owned0 + more;
      BalancedSupports(h0, owned0, more);
      assert Keeps(h0, rt.heap, rt.owned - multiset{p});
      rt.DecRef(p);
    }

    /** After a failure since m1, drop a reference that was owned then. */
    method Unwind(ghost m: Moment, ghost n: nat, ghost m1: Moment, p: Addr, ghost error: Error)
      requires rt.Valid() && Failure(m1, Now(), error)
      requires Valid(m) && Continues(m.heap, rt.heap, n) && p in m1.owned && m.owned <= m1.owned - multiset{p}
      modifies rt`heap, rt`owned
      ensures rt.Valid() && Failure(Without(m1, p), Now(), error)
      ensures Continues(m.heap, rt.heap, n)
    {
      hide Balanced, Ordered, Extends;
      ghost var m2 := Now();
      Cleanup(p, m.heap, m.owned);
      FailureAfterDrop(m1, m2, Now(), error, p);
    }

    method UnwindBoth(ghost m: Moment, ghost n: nat, ghost m1: Moment, k: Addr, d: Addr, ghost error: Error)
      requires rt.Valid() && Failure(m1, Now(), error) && Valid(m) && Continues(m.heap, rt.heap, n)
      requires SameHandles(m, m1) && |m.heap| <= |m1.heap| && m1.owned == m.owned + multiset{d} + multiset{k}
      modifies rt`heap, rt`owned
      ensures rt.Valid() && Failure(m, Now(), error) && Continues(m.heap, rt.heap, n)
    {
      hide Balanced, Ordered, Extends, Failure;
      assert Without(m1, k).owned == m.owned + multiset{d};
      assert Without(Without(m1, k), d).owned == m.owned;
      Unwind(m, n, m1, k, error);
      Unwind(m, n, Without(m1, k), d, error);
      FailureOfWhole(m, Without(Without(m1, k), d), Now(), error);
    }

    method Raise(kind: string, ghost n: nat) returns (r: Conversion)
      requires rt.Valid() && Ordered(rt.heap, n)
      modifies rt`heap, rt`owned, this`slots, this`origin, this`fates
      ensures r.Failed? && Outcome(old(Now()), Now(), r, n) && IsPythonError(r.error, kind)
    {
      var error := PyError(Exception(kind));
      r := Failed(error);
    }

    /** A new object without references. */
    method NewToPy(payload: Payload, ghost n: nat) returns (r: Conversion)
      requires Ready(Now(), n) && payload != Freed && Refs(payload) == []
      modifies rt, this`slots, this`origin, this`fates
      ensures Outcome(old(Now()), Now(), r, n)
      ensures r.Converted? ==> rt.heap[r.p].payload == payload
      ensures r.Converted? ==> slots == old(slots) && r.p < |rt.heap|
      ensures r.Converted? && payload.FloatObject? ==> r.p == |old(rt.heap)|
      ensures old(rt.NoFaults()) ==> rt.NoFaults() && r.Converted?
    {
      var x := rt.Leaf(payload);
      if x.Null? {
        r := Raise("MemoryError", n);
        return;
      }
      r := Converted(x.addr);
    }

    /** A new reference to an old object. */
    method SharedToPy(p: Addr, ghost n: nat) returns (r: Conversion)
      requires Ready(Now(), n) && p < n && Live(rt.heap[p])
      modifies rt`heap, rt`owned
      ensures Outcome(old(Now()), Now(), r, n) && r == Converted(p) && p < |rt.heap|
      ensures rt.heap[p].payload == old(rt.heap[p].payload)
    {
      rt.NewRef(p);
      r := Converted(p);
    }

    /** A new reference to what a handle refers to. */
    method HandleToPy(id: nat, ghost n: nat) returns (r: Conversion)
      requires Ready(Now(), n)
      modifies rt`heap, rt`owned
      ensures Outcome(old(Now()), Now(), r, n)
      ensures if id < |slots| && slots[id].Ref? then r == Converted(slots[id].addr) else r == Failed(Released)
    {
      Unchanged(Now(), n);
      if id >= |slots| || slots[id].Null? {
        return Failed(Released);
      }
      r := SharedToPy(slots[id].addr, n);
    }

    method SimpleToPy(v: GoValue, ghost n: nat) returns (r: Conversion)
      requires Ready(Now(), n) && !v.GoSlice? && !v.GoMap?
      modifies rt, this`slots, this`origin, this`fates
      ensures Outcome(old(Now()), Now(), r, n)
      ensures r.Converted? ==> Simple(old(Now()), rt.heap, v, r.p)
      ensures v.GoHandle? && (v.id >= |old(slots)| || old(slots[v.id]).Null?) ==> r == Failed(Released)
      ensures v.GoError? || v.GoOther? ==> r == Failed(Unsupported)
      ensures v.GoNilBigInt? ==> r.Failed? && IsPythonError(r.error, "ValueError")
      ensures v.GoInvalidString? ==> r.Failed? && IsPythonError(r.error, "UnicodeDecodeError")
      ensures old(rt.NoFaults()) ==> rt.NoFaults() && (r.Converted? <==> old(Convertible(v, slots, rt.heap)))
    {
      hide Balanced, Ordered, Extends, Outcome, KeyAt, Represents, SlotsAlive;
      SingletonsStay(Now(), n);
      Unchanged(Now(), n);
      match v
      case GoNil => r := SharedToPy(NONE, n);
      case GoNilPointer => r := SharedToPy(NONE, n);
      case GoHandle(id) => r := HandleToPy(id, n);
      case GoBool(b) => r := SharedToPy(if b then TRUE else FALSE, n);
      case GoInt(i) => r := NewToPy(IntObject(i), n);
      case GoUint(u) =>
        // Above MAX_INT64 by way of a big integer.
        r := NewToPy(IntObject(u), n);
      case GoBigInt(z) => r := NewToPy(IntObject(z), n);
      case GoFloat(f) => r := NewToPy(FloatObject(f), n);
      case GoString(s) => r := NewToPy(StrObject(s), n);
      case GoNilBigInt => r := Raise("ValueError", n);
      case GoInvalidString =>
        r := Raise("UnicodeDecodeError", n);
      case GoBytes(b) => r := NewToPy(BytesObject(b), n);
      case GoError => r := Failed(Unsupported);
      case GoOther => r := Failed(Unsupported);
    }

    method ToPy(v: GoValue, ghost n: nat) returns (r: Conversion)
      requires Ready(Now(), n)
      modifies rt, this`slots, this`origin, this`fates
      ensures Outcome(old(Now()), Now(), r, n)
      ensures r.Converted? ==> Exact(old(Now()), rt.heap, v, r.p, n)
      ensures r.Converted? && Plain(v, old(Aims(Now()))) ==> Becomes(rt.heap, r.p, v, old(slots))
      ensures old(rt.NoFaults()) ==> rt.NoFaults() && (r.Converted? <==> old(Convertible(v, slots, rt.heap)))
      ensures old(rt.NoFaults()) && r.Failed? ==> FailsAs(v, old(slots), old(rt.heap), r.error)
      decreases v, 2
    {
      hide Ready, Outcome, Exact, Convertible, FailsAs, Plain, Becomes;
      if v.GoSlice? {
        r := SliceToPy(v, n);
      } else if v.GoMap? {
        r := MapToPy(v, n);
      } else {
        r := LeafToPy(v, n);
      }
    }

    method LeafToPy(v: GoValue, ghost n: nat) returns (r: Conversion)
      requires Ready(Now(), n) && !v.GoSlice? && !v.GoMap?
      modifies rt, this`slots, this`origin, this`fates
      ensures Outcome(old(Now()), Now(), r, n)
      ensures r.Converted? ==> Exact(old(Now()), rt.heap, v, r.p, n)
      ensures r.Converted? && Plain(v, old(Aims(Now()))) ==> Becomes(rt.heap, r.p, v, old(slots))
      ensures old(rt.NoFaults()) ==> rt.NoFaults() && (r.Converted? <==> old(Convertible(v, slots, rt.heap)))
      ensures old(rt.NoFaults()) && r.Failed? ==> FailsAs(v, old(slots), old(rt.heap), r.error)
    {
      hide Balanced, Ordered, KeyAt, Represents, Simple, Outcome, Exact, Becomes, Plain;
      ghost var m := Now();
      r := SimpleToPy(v, n);
      if r.Converted? {
        SimpleIsExact(m, Now(), v, r.p, n);
        ExactBecomes(m, Now(), v, r.p, n);
      }
    }

    method SliceToPy(v: GoValue, ghost n: nat) returns (r: Conversion)
      requires Ready(Now(), n) && v.GoSlice?
      modifies rt, this`slots, this`origin, this`fates
      ensures Outcome(old(Now()), Now(), r, n)
      ensures r.Converted? ==> Exact(old(Now()), rt.heap, v, r.p, n)
      ensures r.Converted? && Plain(v, old(Aims(Now()))) ==> Becomes(rt.heap, r.p, v, old(slots))
      ensures old(rt.NoFaults()) ==> rt.NoFaults() && (r.Converted? <==> old(Convertible(v, slots, rt.heap)))
      ensures old(rt.NoFaults()) && r.Failed? ==> FailsAs(v, old(slots), old(rt.heap), r.error)
      decreases v, 1
    {
      hide Balanced, Ordered, Represents, Extends;
      ghost var m := Now();
      var x := rt.ListNew(|v.items|);
      if x.Null? {
        r := Raise("MemoryError", n);
        return;
      }
      var l := x.addr;
      FillingBegins(m, Now(), v, n);
      hide Filling, Outcome, Exact, FailsAs, Becomes, Plain;
      var i := 0;
      while i < |v.items|
        invariant 0 <= i <= |v.items| && Filling(m, Now(), v, n, i)
        invariant old(rt.NoFaults()) ==>
          rt.NoFaults() && forall j :: 0 <= j < i ==> Convertible(v.items[j], m.slots, m.heap)
      {
        r := ItemToPy(m, v, n, l, i);
        if r.Failed? {
          if old(rt.NoFaults()) {
            ItemFails(v, i, m.slots, m.heap, r.error);
          }
          return;
        }
        i := i + 1;
      }
      FillingEnds(m, Now(), v, n);
      ExactBecomes(m, Now(), v, l, n);
      r := Converted(l);
    }

    /** One item of a slice. */
    method ItemToPy(ghost m: Moment, v: GoValue, ghost n: nat, l: Addr, i: nat) returns (r: Conversion)
      requires v.GoSlice? && i < |v.items| && Filling(m, Now(), v, n, i) && l == |m.heap|
      modifies rt, this`slots, this`origin, this`fates
      ensures r.Converted? ==> Filling(m, Now(), v, n, i + 1)
      ensures r.Failed? ==> Outcome(m, Now(), r, n)
      ensures old(rt.NoFaults()) ==> rt.NoFaults() && (r.Converted? <==> Convertible(v.items[i], m.slots, m.heap))
      ensures old(rt.NoFaults()) && r.Failed? ==> FailsAs(v.items[i], m.slots, m.heap, r.error)
      decreases v, 0
    {
      hide Balanced, Ordered, HoldsItems, SlotsAlive, Convertible, Plain, HashableKey, Represents, KeyAt, FailsAs;
      ghost var m1 := Now();
      r := ToPy(v.items[i], n);
      if old(rt.NoFaults()) && r.Failed? {
        FailsLater(m, m1, v.items[i], n, r.error);
      }
      ConvertibleCarriesOver(v.items[i], m.slots, m.heap, m.owned, m1.heap, n);
      ghost var m2 := Now();
      if r.Failed? {
        ExtendsTransitive(m.heap, m1.heap, m2.heap);
        Unwind(m, n, m1, l, r.error);
        FailureOfWhole(m, Without(m1, l), Now(), r.error);
      } else {
        FillingStep(m, m1, m2, v, n, i, r.p);
        PutItem(m, v, n, l, i, r.p);
      }
    }

    /** The list takes over the reference to the item. */
    method PutItem(ghost m: Moment, ghost v: GoValue, ghost n: nat, l: Addr, i: nat, p: Addr)
      requires v.GoSlice? && i < |v.items| && HasNext(m, Now(), v, n, i, p) && l == |m.heap|
      modifies rt`heap, rt`owned
      ensures Filling(m, Now(), v, n, i + 1)
    {
      hide Balanced, Ordered, HoldsItems, SlotsAlive, Plain, Extends;
      ghost var m1 := Now();
      rt.ListSetItem(l, i, p);
      FillingNext(m, m1, Now(), v, n, i, p);
    }

    method MapToPy(v: GoValue, ghost n: nat) returns (r: Conversion)
      requires Ready(Now(), n) && v.GoMap?
      modifies rt, this`slots, this`origin, this`fates
      ensures Outcome(old(Now()), Now(), r, n)
      ensures r.Converted? ==> Exact(old(Now()), rt.heap, v, r.p, n)
      ensures r.Converted? && Plain(v, old(Aims(Now()))) ==> Becomes(rt.heap, r.p, v, old(slots))
      ensures old(rt.NoFaults()) ==> rt.NoFaults() && (r.Converted? <==> old(Convertible(v, slots, rt.heap)))
      ensures old(rt.NoFaults()) && r.Failed? ==> FailsAs(v, old(slots), old(rt.heap), r.error)
      decreases v, 1
    {
      hide Balanced, Ordered, Represents, Extends, HoldsEntries, Convertible, Exact, ConvertibleUpTo, ConvertibleEntry;
      hide FailsAs, EntryFailsAs, Becomes, Plain;
      ghost var m := Now();
      NothingYet(v, m.slots, m.heap);
      var x := rt.DictNew();
      if x.Null? {
        r := Raise("MemoryError", n);
        return;
      }
      var d := x.addr;
      MappingBegins(m, Now(), v, n);
      hide Mapping, Outcome;
      var i := 0;
      while i < |v.entries|
        invariant 0 <= i <= |v.entries| && Mapping(m, Now(), v, n, i, multiset{})
        invariant old(rt.NoFaults()) ==> rt.NoFaults() && ConvertibleUpTo(v, i, m.slots, m.heap)
      {
        OneMore(v, i, m.slots, m.heap);
        r := EntryToPy(m, v, n, d, i);
        if r.Failed? {
          if old(rt.NoFaults()) {
            EntryFails(v, i, m.slots, m.heap, r.error);
          }
          return;
        }
        i := i + 1;
      }
      MappingEnds(m, Now(), v, n);
      ExactBecomes(m, Now(), v, d, n);
      r := Converted(d);
    }

    /** One entry of a map: its key, its value, and the dictionary with both. */
    method EntryToPy(ghost m: Moment, v: GoValue, ghost n: nat, d: Addr, i: nat) returns (r: Conversion)
      requires v.GoMap? && i < |v.entries| && Mapping(m, Now(), v, n, i, multiset{}) && d == |m.heap|
      modifies rt, this`slots, this`origin, this`fates
      ensures r.Converted? ==> Mapping(m, Now(), v, n, i + 1, multiset{})
      ensures r.Failed? ==> Outcome(m, Now(), r, n)
      ensures old(rt.NoFaults()) ==>
        rt.NoFaults() && (r.Converted? <==> ConvertibleEntry(v.entries[i], m.slots, m.heap))
      ensures old(rt.NoFaults()) && r.Failed? ==> EntryFailsAs(v, i, m.slots, m.heap, r.error)
      decreases v, 0, 1
    {
      hide Mapping, Outcome, Prepared;
      r := KeyToPy(m, v, n, d, i);
      if r.Converted? {
        var k := r.p;
        r := ValueToPy(m, v, n, d, i, k);
        if r.Converted? {
          r := StoreEntry(m, v, n, d, i, k, r.p);
        }
      }
    }

    method KeyToPy(ghost m: Moment, v: GoValue, ghost n: nat, d: Addr, i: nat) returns (r: Conversion)
      requires v.GoMap? && i < |v.entries| && Mapping(m, Now(), v, n, i, multiset{}) && d == |m.heap|
      modifies rt, this`slots, this`origin, this`fates
      ensures r.Converted? ==>
        Mapping(m, Now(), v, n, i, multiset{r.p}) && Prepared(m, rt.heap, v.entries[i].0, n, r.p)
      ensures r.Failed? ==> Outcome(m, Now(), r, n)
      ensures old(rt.NoFaults()) ==> rt.NoFaults() && (r.Converted? <==> Convertible(v.entries[i].0, m.slots, m.heap))
      ensures old(rt.NoFaults()) && r.Failed? ==> FailsAs(v.entries[i].0, m.slots, m.heap, r.error)
      decreases v, 0, 0
    {
      hide Balanced, Ordered, Represents, Extends, HoldsEntries, Plain, Convertible, HashableKey, FailsAs;
      ghost var m1 := Now();
      ReadyLater(m, m1, n);
      r := ToPy(v.entries[i].0, n);
      ghost var m2 := Now();
      ConvertibleLater(m, m1, v.entries[i].0, n);
      if old(rt.NoFaults()) && r.Failed? {
        FailsLater(m, m1, v.entries[i].0, n, r.error);
      }
      if r.Failed? {
        ExtendsTransitive(m.heap, m1.heap, m2.heap);
        Unwind(m, n, m1, d, r.error);
        assert Without(m1, d).owned == m.owned;
        FailureOfWhole(m, Without(m1, d), Now(), r.error);
      } else {
        MappingGoesOn(m, m1, m2, v, n, i, multiset{}, r.p);
        PartIsPrepared(m, m1, m2, v.entries[i].0, n, r.p);
        assert multiset{} + multiset{r.p} == multiset{r.p};
      }
    }

    method ValueToPy(ghost m: Moment, v: GoValue, ghost n: nat, d: Addr, i: nat, k: Addr) returns (r: Conversion)
      requires v.GoMap? && i < |v.entries| && Mapping(m, Now(), v, n, i, multiset{k}) && d == |m.heap|
      requires Prepared(m, rt.heap, v.entries[i].0, n, k)
      modifies rt, this`slots, this`origin, this`fates
      ensures r.Converted? ==>
        && Mapping(m, Now(), v, n, i, multiset{k, r.p})
        && Prepared(m, rt.heap, v.entries[i].0, n, k) && Prepared(m, rt.heap, v.entries[i].1, n, r.p)
      ensures r.Failed? ==> Outcome(m, Now(), r, n)
      ensures old(rt.NoFaults()) ==> rt.NoFaults() && (r.Converted? <==> Convertible(v.entries[i].1, m.slots, m.heap))
      ensures old(rt.NoFaults()) && r.Failed? ==> FailsAs(v.entries[i].1, m.slots, m.heap, r.error)
      decreases v, 0, 0
    {
      hide Balanced, Ordered, Represents, Extends, HoldsEntries, Plain, Convertible, HashableKey, FailsAs;
      ghost var m1 := Now();
      ReadyLater(m, m1, n);
      r := ToPy(v.entries[i].1, n);
      ghost var m2 := Now();
      ConvertibleLater(m, m1, v.entries[i].1, n);
      if old(rt.NoFaults()) && r.Failed? {
        FailsLater(m, m1, v.entries[i].1, n, r.error);
      }
      if r.Failed? {
        ExtendsTransitive(m.heap, m1.heap, m2.heap);
        UnwindBoth(m, n, m1, k, d, r.error);
      } else {
        MappingGoesOn(m, m1, m2, v, n, i, multiset{k}, r.p);
        PartIsPrepared(m, m1, m2, v.entries[i].1, n, r.p);
        PreparedLater(m, m1.heap, m1.owned, m2.heap, v.entries[i].0, n, k);
      }
    }

    /** Set an entry of the new dictionary and drop the references to its key and value. */
    method StoreEntry(ghost m: Moment, v: GoValue, ghost n: nat, d: Addr, i: nat, k: Addr, e: Addr)
      returns (r: Conversion)
      requires v.GoMap? && i < |v.entries| && Mapping(m, Now(), v, n, i, multiset{k, e}) && d == |m.heap|
      requires Prepared(m, rt.heap, v.entries[i].0, n, k) && Prepared(m, rt.heap, v.entries[i].1, n, e)
      modifies rt, this`slots, this`origin, this`fates
      ensures r.Converted? ==> Mapping(m, Now(), v, n, i + 1, multiset{})
      ensures r.Failed? ==> Outcome(m, Now(), r, n)
      ensures old(rt.NoFaults()) ==> rt.NoFaults() && (r.Converted? <==> HashableKey(v.entries[i].0, m.slots, m.heap))
      ensures old(rt.NoFaults()) && r.Failed? ==> IsPythonError(r.error, "TypeError")
    {
      hide Mapping, Prepared, Outcome, HashableKey;
      var ok := SetEntry(m, v, n, d, i, k, e);
      ghost var j := if ok then i + 1 else i;
      DropPart(m, v, n, j, multiset{k, e}, k);
      DropPart(m, v, n, j, multiset{k, e} - multiset{k}, e);
      assert multiset{k, e} - multiset{k} - multiset{e} == multiset{};
      r := Converted(d);
      if !ok {
        r := Discard(m, v, n, d, i);
      }
    }

    method SetEntry(ghost m: Moment, ghost v: GoValue, ghost n: nat, d: Addr, ghost i: nat, k: Addr, e: Addr)
      returns (ok: bool)
      requires v.GoMap? && i < |v.entries| && Mapping(m, Now(), v, n, i, multiset{k, e}) && d == |m.heap|
      requires Prepared(m, rt.heap, v.entries[i].0, n, k) && Prepared(m, rt.heap, v.entries[i].1, n, e)
      modifies rt
      ensures Mapping(m, Now(), v, n, if ok then i + 1 else i, multiset{k, e})
      ensures old(rt.NoFaults()) ==> rt.NoFaults() && (ok <==> HashableKey(v.entries[i].0, m.slots, m.heap))
    {
      hide Balanced, Ordered, Represents, Extends, HoldsEntries, Plain, Convertible, HashableKey;
      ghost var m1 := Now();
      BalancedSupports(m.heap, m.owned, multiset{d} + multiset{k, e});
      ok := rt.DictSetItem(d, k, e, m.heap);
      if ok {
        MappingStored(m, m1, Now(), v, n, i, multiset{k, e}, k, e);
      }
    }

    method DropPart(ghost m: Moment, ghost v: GoValue, ghost n: nat, ghost i: nat, ghost extra: multiset<Addr>, p: Addr)
      requires v.GoMap? && i <= |v.entries| && Mapping(m, Now(), v, n, i, extra) && p in extra
      modifies rt`heap, rt`owned
      ensures Mapping(m, Now(), v, n, i, extra - multiset{p})
    {
      hide Balanced, Ordered, Represents, Extends, HoldsEntries, Plain, Survives;
      ghost var m1 := Now();
      Cleanup(p, m.heap, m.owned);
      MappingShrinks(m, m1, Now(), v, n, i, extra, p);
    }

    /** The key has no hash: drop the dictionary and report the exception. */
    method Discard(ghost m: Moment, ghost v: GoValue, ghost n: nat, d: Addr, ghost i: nat) returns (r: Conversion)
      requires v.GoMap? && i <= |v.entries| && Mapping(m, Now(), v, n, i, multiset{}) && d == |m.heap|
      modifies rt`heap, rt`owned, this`slots, this`origin, this`fates
      ensures r.Failed? && Outcome(m, Now(), r, n) && IsPythonError(r.error, "TypeError")
    {
      hide Balanced, Ordered, Represents, Extends, HoldsEntries, Plain;
      Cleanup(d, m.heap, m.owned);
      ghost var m1 := Now();
      assert m1.owned == m.owned;
      ReadyLater(m, m1, n);
      r := Raise("TypeError", n);
      FailureLater(m, m1, Now(), r.error, n);
    }

    method FromPy(p: Addr, ghost t: Tree, ghost h0: Heap) returns (r: Fetch)
      requires Readable(h0, Now(), p, t)
      modifies rt, this`slots, this`origin, this`fates
      ensures Fetched(old(Now()), Now(), r, t, |h0|)
      ensures r.Got? ==> ReadsAs(h0, p, r.value, slots) && IsBack(h0, r.value, t, slots)
      ensures old(rt.NoFaults()) ==> rt.NoFaults() && r.Got?
      decreases t, 3
    {
      hide Balanced, Ordered, FromTree, ReadsAs, IsBack;
      ghost var m := Now();
      r := PayloadFromPy(p, t, h0);
      if r.Got? {
        ReadingIsRight(h0, m, Now(), p, t, r);
      }
    }

    method PayloadFromPy(p: Addr, ghost t: Tree, ghost h0: Heap) returns (r: Fetch)
      requires Readable(h0, Now(), p, t)
      modifies rt, this`slots, this`origin, this`fates
      ensures Fetched(old(Now()), Now(), r, t, |h0|)
      ensures old(rt.NoFaults()) ==> rt.NoFaults() && r.Got?
      decreases t, 2
    {
      hide Balanced, Ordered;
      WithoutHandles(Now());
      match rt.heap[p].payload
      case NoneObject => r := Got(GoNil);
      case BoolObject(b) => r := Got(GoBool(b));
      case IntObject(i) => r := IntFromPy(p, i, h0);
      case FloatObject(f) => r := Got(GoFloat(f));
      case StrObject(s) => r := StrFromPy(p, s, h0);
      case BytesObject(b) => r := Got(GoBytes(b));
      case ByteArrayObject(b) => r := ByteArrayFromPy(p, b, h0);
      case SequenceObject(_, _) => r := SequenceFromPy(p, t, h0);
      case DictObject(_) => r := DictFromPy(p, t, h0);
      case ExceptionObject(_) => r := OtherFromPy(p, h0);
      case OpaqueObject(_) => r := OtherFromPy(p, h0);
    }

    /** Any other object becomes a handle with a reference of its own. */
    method OtherFromPy(p: Addr, ghost h0: Heap) returns (r: Fetch)
      requires Readable(h0, Now(), p, TObject(p, KeyAt(h0, p)))
      modifies rt`heap, rt`owned, this`slots, this`origin, this`fates
      ensures Fetched(old(Now()), Now(), r, TObject(p, KeyAt(h0, p)), |h0|) && r.Got?
      ensures r.value.GoHandle? && r.value.id < |slots| && slots[r.value.id] == Ref.Ref(p)
    {
      hide Balanced, Ordered;
      rt.NewRef(p);
      var id := Obj(p);
      assert AsRefs([p]) == [Ref.Ref(p)] && HeldFates(1) == [Held];
      r := Got(GoHandle(id));
    }

    method Miss(kind: string, ghost objs: seq<Addr>, ghost n: nat) returns (r: Fetch)
      requires rt.Valid() && Ordered(rt.heap, n)
      modifies rt`heap, rt`owned, this`slots, this`origin, this`fates
      ensures r.Missed? && rt.Valid() && Continues(old(rt.heap), rt.heap, n)
      ensures FailureAmid(old(Now()), Now(), objs, r.error)
    {
      hide Balanced, Ordered, Extends, Failure;
      ghost var m := Now();
      var error := PyError(Exception(kind));
      FailureAtOnce(m, Now(), objs, error);
      r := Missed(error);
    }

    /** An integer; by way of a big integer, and its text, when it does not fit. */
    method IntFromPy(p: Addr, i: int, ghost h0: Heap) returns (r: Fetch)
      requires Readable(h0, Now(), p, TInt(i))
      modifies rt, this`slots, this`origin, this`fates
      ensures Fetched(old(Now()), Now(), r, TInt(i), |h0|)
      ensures r.Got? ==> r.value == if MIN_INT64 <= i <= MAX_INT64 then GoInt(i) else GoBigInt(i)
      ensures old(rt.NoFaults()) ==> rt.NoFaults() && r.Got?
    {
      hide Balanced, Ordered;
      ghost var m := Now();
      WithoutHandles(m);
      if MIN_INT64 <= i <= MAX_INT64 {
        return Got(GoInt(i));
      }
      var f := rt.Faulty();
      if f {
        r := Miss("MemoryError", [], |h0|);
        return;
      }
      TakeAndDrop(p, |h0|);
      f := rt.Faulty();
      if f {
        FailureAtOnce(m, Now(), [], OwnError("ValueError"));
        r := Missed(OwnError("ValueError"));
      } else {
        r := Got(GoBigInt(i));
      }
    }

    /** A reference taken for the time of a call. */
    method TakeAndDrop(p: Addr, ghost n: nat)
      requires rt.Valid() && Ordered(rt.heap, n) && p < |rt.heap| && Live(rt.heap[p])
      modifies rt`heap, rt`owned
      ensures rt.Valid() && Continues(old(rt.heap), rt.heap, n) && rt.owned == old(rt.owned)
    {
      ghost var m := Now();
      rt.NewRef(p);
      Cleanup(p, m.heap, m.owned);
      assert rt.owned == m.owned;
    }

    method StrFromPy(p: Addr, s: string, ghost h0: Heap) returns (r: Fetch)
      requires Readable(h0, Now(), p, TStr(s))
      modifies rt, this`slots, this`origin, this`fates
      ensures Fetched(old(Now()), Now(), r, TStr(s), |h0|)
      ensures old(rt.NoFaults()) ==> rt.NoFaults() && r.Got?
    {
      hide Balanced, Ordered;
      WithoutHandles(Now());
      var f := rt.Faulty();
      if f {
        r := Miss("MemoryError", [], |h0|);
      } else {
        r := Got(GoString(s));
      }
    }

    /** A bytearray, by way of a bytes object. */
    method ByteArrayFromPy(p: Addr, b: seq<bv8>, ghost h0: Heap) returns (r: Fetch)
      requires Readable(h0, Now(), p, TByteArray(b))
      modifies rt, this`slots, this`origin, this`fates
      ensures Fetched(old(Now()), Now(), r, TByteArray(b), |h0|)
      ensures old(rt.NoFaults()) ==> rt.NoFaults() && r.Got?
    {
      hide Balanced, Ordered;
      ghost var m := Now();
      WithoutHandles(m);
      var copy := rt.Leaf(BytesObject(b));
      if copy.Null? {
        r := Miss("MemoryError", [], |h0|);
        return;
      }
      assert rt.owned - multiset{copy.addr} == m.owned;
      Cleanup(copy.addr, m.heap, m.owned);
      r := Got(GoBytes(b));
    }

    /** A list, tuple or set, by way of a list of its items. */
    method SequenceFromPy(p: Addr, ghost t: Tree, ghost h0: Heap) returns (r: Fetch)
      requires Readable(h0, Now(), p, t) && t.TSequence?
      modifies rt, this`slots, this`origin, this`fates
      ensures Fetched(old(Now()), Now(), r, t, |h0|)
      ensures old(rt.NoFaults()) ==> rt.NoFaults() && r.Got?
      decreases t, 1
    {
      hide Balanced, Ordered, Represents, Extends, Legible, Readable, WithTemporary, FailureAmid;
      hide FromTree, Objects, SameAccount, AsSlots;
      ghost var m := Now();
      ItemsAlive(h0, m, p, t);
      var items := ItemAddrs(rt.heap[p].payload.items);
      ghost var copy := SequenceObject(ListKind, AsSlots(items));
      var x := Temporary(items, Objects(t), |h0|);
      if x.Failed? {
        return Missed(x.error);
      }
      var list := x.p;
      var values: seq<GoValue> := [];
      var i := 0;
      while i < |items|
        invariant 0 <= i <= |items| && WithTemporary(m, Now(), ItemObjects(t, i), list, copy, |h0|)
        invariant values == FromItems(t, i, |m.slots|)
        invariant old(rt.NoFaults()) ==> rt.NoFaults()
      {
        r := ItemFromPy(m, list, items, p, t, i, h0);
        if r.Missed? {
          return;
        }
        values := values + [r.value];
        i := i + 1;
      }
      DropTemporary(m, ItemObjects(t, i), list, copy, |h0|);
      ListOfItems(t, |m.slots|);
      r := Got(GoSlice(values));
    }

    method ItemFromPy(ghost m: Moment, list: Addr, ghost items: seq<Addr>, ghost p: Addr, ghost t: Tree, i: nat,
                      ghost h0: Heap) returns (r: Fetch)
      requires Readable(h0, m, p, t) && t.TSequence? && i < |t.items| == |items| && p < |m.heap|
      requires m.heap[p].payload.SequenceObject? && m.heap[p].payload.items == AsSlots(items)
      requires WithTemporary(m, Now(), ItemObjects(t, i), list, SequenceObject(ListKind, AsSlots(items)), |h0|)
      modifies rt, this`slots, this`origin, this`fates
      ensures r.Got? ==>
        && WithTemporary(m, Now(), ItemObjects(t, i + 1), list, SequenceObject(ListKind, AsSlots(items)), |h0|)
        && r.value == FromTree(t.items[i], |m.slots| + |ItemObjects(t, i)|)
      ensures r.Missed? ==> Fetched(m, Now(), r, t, |h0|)
      ensures old(rt.NoFaults()) ==> rt.NoFaults() && r.Got?
      decreases t, 0, 1
    {
      hide Readable, WithTemporary, Fetched, AsSlots, Represents, Legible, FromTree, Objects;
      ItemAt(h0, m, p, t, items, i);
      ItemObjectsFirst(t, i, |t.items|);
      CopyHasItem(m, Now(), ItemObjects(t, i), list, items, |h0|, i);
      var item := rt.heap[list].payload.items[i].addr;
      r := ReadPart(m, ItemObjects(t, i), list, SequenceObject(ListKind, AsSlots(items)), p, t, item, t.items[i], h0);
    }

    /** A list made for the time of a call. */
    method Temporary(items: seq<Addr>, ghost objs: seq<Addr>, ghost n: nat) returns (x: Conversion)
      requires rt.Valid() && n <= |rt.heap| && Ordered(rt.heap, n)
      requires forall i :: 0 <= i < |items| ==> items[i] < n && Live(rt.heap[items[i]])
      modifies rt, this`slots, this`origin, this`fates
      ensures x.Converted? ==> WithTemporary(old(Now()), Now(), [], x.p, SequenceObject(ListKind, AsSlots(items)), n)
      ensures x.Failed? ==>
        rt.Valid() && Continues(old(rt.heap), rt.heap, n) && FailureAmid(old(Now()), Now(), objs, x.error)
      ensures old(rt.NoFaults()) ==> rt.NoFaults() && x.Converted?
    {
      hide Balanced, Ordered, FailureAmid, Failure;
      ghost var m := Now();
      WithoutHandles(m);
      var list := rt.ListOf(items, n);
      if list.Null? {
        x := Raise("MemoryError", n);
        FailureAtOnce(m, Now(), objs, x.error);
      } else {
        x := Converted(list.addr);
      }
    }

    method DropTemporary(ghost m: Moment, ghost objs: seq<Addr>, l: Addr, ghost payload: Payload, ghost n: nat)
      requires WithTemporary(m, Now(), objs, l, payload, n)
      modifies rt`heap, rt`owned
      ensures rt.Valid() && SameAccount(WithHandles(m, objs), Now()) && Continues(m.heap, rt.heap, n)
    {
      hide Balanced, Ordered, Extends;
      assert rt.owned - multiset{l} == m.owned + multiset(objs);
      Cleanup(l, m.heap, m.owned);
    }

    /** Read a part while a temporary object is owned, and drop that if the part cannot be read. */
    method ReadPart(ghost m: Moment, ghost objs: seq<Addr>, l: Addr, ghost payload: Payload, ghost p: Addr,
                    ghost t: Tree, q: Addr, ghost u: Tree, ghost h0: Heap) returns (r: Fetch)
      requires Readable(h0, m, p, t) && WithTemporary(m, Now(), objs, l, payload, |h0|) && payload != Freed
      requires Represents(h0, q, u, |h0|, 0) && Legible(h0, u) && u < t && objs + Objects(u) <= Objects(t)
      modifies rt, this`slots, this`origin, this`fates
      ensures r.Got? ==> WithTemporary(m, Now(), objs + Objects(u), l, payload, |h0|)
      ensures r.Got? ==> r.value == FromTree(u, |m.slots| + |objs|)
      ensures r.Missed? ==> Fetched(m, Now(), r, t, |h0|)
      ensures old(rt.NoFaults()) ==> rt.NoFaults() && r.Got?
      decreases t, 0, 0
    {
      hide Balanced, Ordered, Represents, Extends, Legible, Fetched;
      ghost var m1 := Now();
      ReadableLater(h0, m, m1, p, t, q, u);
      r := FromPy(q, u, h0);
      KeepOrDrop(m, m1, objs, l, payload, r, u, t, |h0|);
    }

    /** A temporary object is kept while reading goes on, and dropped when it has failed. */
    method KeepOrDrop(ghost m: Moment, ghost m1: Moment, ghost objs: seq<Addr>, l: Addr, ghost payload: Payload,
                      r: Fetch, ghost u: Tree, ghost t: Tree, ghost n: nat)
      requires WithTemporary(m, m1, objs, l, payload, n) && payload != Freed && Fetched(m1, Now(), r, u, n)
      requires objs + Objects(u) <= Objects(t)
      modifies rt`heap, rt`owned
      ensures r.Got? ==> WithTemporary(m, Now(), objs + Objects(u), l, payload, n)
      ensures r.Got? ==> r.value == FromTree(u, |m.slots| + |objs|)
      ensures r.Missed? ==> Fetched(m, Now(), r, t, n)
    {
      hide Balanced, Ordered, Extends, FailureAmid, Objects, FromTree;
      ghost var m2 := Now();
      if r.Got? {
        TemporaryStays(m, m1, m2, objs, Objects(u), l, payload, n);
      } else {
        ExtendsTransitive(m.heap, m1.heap, m2.heap);
        assert Without(m1, l).owned == m.owned + multiset(objs);
        DropAfterMiss(m, m1, objs, l, Objects(u), Objects(t), r.error, n);
      }
    }

    /** After a failure in a part that has left handles behind, drop what was owned besides. */
    method DropAfterMiss(ghost m: Moment, ghost m1: Moment, ghost objs: seq<Addr>, l: Addr, ghost more: seq<Addr>,
                         ghost all: seq<Addr>, ghost error: Error, ghost n: nat)
      requires rt.Valid() && Valid(m) && Continues(m.heap, rt.heap, n) && |m.heap| <= |m1.heap|
      requires SameHandles(WithHandles(m, objs), m1) && l in m1.owned
      requires Without(m1, l).owned == m.owned + multiset(objs)
      requires FailureAmid(m1, Now(), more, error) && objs + more <= all
      modifies rt`heap, rt`owned
      ensures rt.Valid() && Continues(m.heap, rt.heap, n) && FailureAmid(m, Now(), all, error)
    {
      hide Balanced, Ordered, Extends, Failure;
      ghost var k :| 0 <= k <= |more| && Failure(WithHandles(m1, more[..k]), Now(), error);
      hide FailureAmid;
      GiveBackBesides(m1, more[..k], l);
      Unwind(m, n, WithHandles(m1, more[..k]), l, error);
      FailureInPart(m, Without(m1, l), Now(), objs, more, all, k, error);
    }

    /** Look up the value of the i-th key and read it; the reference to it is dropped either way. */
    method FetchValue(d: Addr, ghost t: Tree, ghost i: nat, k: Addr, ghost h0: Heap) returns (r: Fetch)
      requires Readable(h0, Now(), d, t) && t.TDict? && i < |t.entries|
      requires d < |rt.heap| && rt.heap[d].payload.DictObject? && |rt.heap[d].payload.entries| == |t.entries|
      requires k == rt.heap[d].payload.entries[i].key
      modifies rt, this`slots, this`origin, this`fates
      ensures Fetched(old(Now()), Now(), r, t.entries[i].1, |h0|)
      ensures old(rt.NoFaults()) ==> rt.NoFaults() && r.Got?
      decreases t, 0, 0
    {
      hide Balanced, Ordered, Represents, Extends, Legible, FailureAmid;
      ghost var m, n := Now(), |h0|;
      EntryIsReadable(h0, m, d, t, i);
      KeyLeadsToValue(h0, m, d, t, i);
      var x := rt.DictGetItem(d, k);
      if x.Null? {
        r := Miss("KeyError", Objects(t.entries[i].1), n);
        return;
      }
      ghost var m1 := Now();
      ReadableLater(h0, m, m1, d, t, x.addr, t.entries[i].1);
      r := FromPy(x.addr, t.entries[i].1, h0);
      DropValue(m, m1, x.addr, r, t.entries[i].1, n);
    }

    method DropValue(ghost m: Moment, ghost m1: Moment, v: Addr, r: Fetch, ghost u: Tree, ghost n: nat)
      requires Valid(m) && SameHandles(m, m1) && Extends(m.heap, m1.heap) && m1.owned == m.owned + multiset{v}
      requires Fetched(m1, Now(), r, u, n) && |m.heap| <= |m1.heap|
      modifies rt`heap, rt`owned
      ensures Fetched(m, Now(), r, u, n)
    {
      hide Balanced, Ordered, Extends, FailureAmid, Objects, FromTree;
      ghost var m2, objs := Now(), Objects(u);
      ExtendsTransitive(m.heap, m1.heap, m2.heap);
      if r.Got? {
        DropBesides(m, m1, v, objs, n);
      } else {
        WithoutHandles(m);
        assert Without(m1, v).owned == m.owned;
        assert [] + objs == objs;
        DropAfterMiss(m, m1, [], v, objs, objs, r.error, n);
      }
    }

    method DropBesides(ghost m: Moment, ghost m1: Moment, v: Addr, ghost objs: seq<Addr>, ghost n: nat)
      requires Valid(m) && SameHandles(m, m1) && m1.owned == m.owned + multiset{v}
      requires rt.Valid() && Continues(m.heap, rt.heap, n) && SameAccount(WithHandles(m1, objs), Now())
      modifies rt`heap, rt`owned
      ensures rt.Valid() && Continues(m.heap, rt.heap, n) && SameAccount(WithHandles(m, objs), Now())
    {
      hide Balanced, Ordered, Extends;
      assert rt.owned - multiset{v} == m.owned + multiset(objs);
      Cleanup(v, m.heap, m.owned);
    }

    /** Make the map of keys and values. */
    method AssignAll(ks: seq<GoValue>, vs: seq<GoValue>, ghost t: Tree, ghost h: Heap, ghost c: nat)
      returns (all: seq<(GoValue, GoValue)>)
      requires t.TDict? && Legible(h, t) && PairsRead(t, ks, vs, |t.entries|, c)
      ensures all == FromEntries(t, |t.entries|, c)
    {
      all := [];
      var i := 0;
      while i < |ks|
        invariant 0 <= i <= |ks| && all == FromEntries(t, i, c)
      {
        assert (ks[i], vs[i]) == FromEntry(t, i, c);
        NoEntryIsLost(h, t, i, c);
        all := Assigned(all, ks[i], vs[i]);
        i := i + 1;
      }
    }

    /** One key with its value. */
    method PairFromPy(ghost m: Moment, keys: Addr, ghost entries: seq<Entry>, p: Addr, ghost t: Tree, i: nat,
                      ghost h0: Heap)
      returns (isStr: bool, gk: GoValue, r: Fetch)
      requires Readable(h0, m, p, t) && t.TDict? && i < |t.entries| == |entries| && p < |m.heap|
      requires m.heap[p].payload == DictObject(entries)
      requires WithTemporary(m, Now(), EntryObjects(t, i), keys, KeyList(entries), |h0|)
      modifies rt, this`slots, this`origin, this`fates
      ensures r.Got? ==>
        && WithTemporary(m, Now(), EntryObjects(t, i + 1), keys, KeyList(entries), |h0|)
        && (gk, r.value) == FromEntry(t, i, |m.slots|) && isStr == t.entries[i].0.TStr?
      ensures r.Missed? ==> Fetched(m, Now(), r, t, |h0|)
      ensures old(rt.NoFaults()) ==> rt.NoFaults() && r.Got?
      decreases t, 0, 2
    {
      hide Readable, WithTemporary, Fetched, Objects, FromTree;
      var k;
      k, isStr, r := KeyFromPy(m, keys, entries, p, t, i, h0);
      gk := GoNil;
      if r.Got? {
        gk := r.value;
        r := ValueFromPy(m, keys, entries, p, t, i, k, h0);
      }
    }

    method KeyFromPy(ghost m: Moment, keys: Addr, ghost entries: seq<Entry>, ghost p: Addr, ghost t: Tree, i: nat,
                     ghost h0: Heap) returns (k: Addr, isStr: bool, r: Fetch)
      requires Readable(h0, m, p, t) && t.TDict? && i < |t.entries| == |entries| && p < |m.heap|
      requires m.heap[p].payload == DictObject(entries)
      requires WithTemporary(m, Now(), EntryObjects(t, i), keys, KeyList(entries), |h0|)
      modifies rt, this`slots, this`origin, this`fates
      ensures k == entries[i].key && isStr == t.entries[i].0.TStr?
      ensures r.Got? ==>
        && WithTemporary(m, Now(), EntryObjects(t, i) + Objects(t.entries[i].0), keys, KeyList(entries), |h0|)
        && r.value == FromTree(t.entries[i].0, |m.slots| + |EntryObjects(t, i)|)
      ensures r.Missed? ==> Fetched(m, Now(), r, t, |h0|)
      ensures old(rt.NoFaults()) ==> rt.NoFaults() && r.Got?
      decreases t, 0, 1
    {
      hide Readable, WithTemporary, Fetched, AsSlots, Represents, Legible, FromTree, Objects;
      CopyHasItem(m, Now(), EntryObjects(t, i), keys, KeyAddrs(entries), |h0|, i);
      k := rt.heap[keys].payload.items[i].addr;
      EntryObjectsFirst(t, i, |t.entries|);
      KeyIsReadable(h0, m, Now(), p, t, entries, i);
      isStr := rt.heap[k].payload.StrObject?;
      r := ReadPart(m, EntryObjects(t, i), keys, KeyList(entries), p, t, k, t.entries[i].0, h0);
    }

    method ValueFromPy(ghost m: Moment, keys: Addr, ghost entries: seq<Entry>, p: Addr, ghost t: Tree, ghost i: nat,
                       k: Addr, ghost h0: Heap)
      returns (r: Fetch)
      requires Readable(h0, m, p, t) && t.TDict? && i < |t.entries| == |entries| && p < |m.heap|
      requires m.heap[p].payload == DictObject(entries) && k == entries[i].key
      requires WithTemporary(m, Now(), EntryObjects(t, i) + Objects(t.entries[i].0), keys, KeyList(entries), |h0|)
      modifies rt, this`slots, this`origin, this`fates
      ensures r.Got? ==>
        && WithTemporary(m, Now(), EntryObjects(t, i + 1), keys, KeyList(entries), |h0|)
        && r.value == FromTree(t.entries[i].1, |m.slots| + |EntryObjects(t, i)| + |Objects(t.entries[i].0)|)
      ensures r.Missed? ==> Fetched(m, Now(), r, t, |h0|)
      ensures old(rt.NoFaults()) ==> rt.NoFaults() && r.Got?
      decreases t, 0, 1
    {
      hide Balanced, Ordered, Represents, Extends, Legible, Readable, Fetched, WithTemporary;
      ghost var copy := KeyList(entries);
      ghost var objs, m1 := EntryObjects(t, i) + Objects(t.entries[i].0), Now();
      EntryObjectsFirst(t, i, |t.entries|);
      DictLater(h0, m, m1, objs, keys, copy, p, t);
      r := FetchValue(p, t, i, k, h0);
      KeepOrDrop(m, m1, objs, keys, copy, r, t.entries[i].1, t, |h0|);
    }

    /** A dictionary, by way of a list of its keys. */
    method DictFromPy(p: Addr, ghost t: Tree, ghost h0: Heap) returns (r: Fetch)
      requires Readable(h0, Now(), p, t) && t.TDict?
      modifies rt, this`slots, this`origin, this`fates
      ensures Fetched(old(Now()), Now(), r, t, |h0|)
      ensures old(rt.NoFaults()) ==> rt.NoFaults() && r.Got?
      decreases t, 1
    {
      hide Balanced, Ordered, Represents, Extends, Legible, Readable, WithTemporary, Failure, AsSlots, FailureAmid;
      hide FromTree, Objects, SameAccount;
      ghost var m := Now();
      EntriesAlive(h0, m, p, t);
      var entries := rt.heap[p].payload.entries;
      ghost var copy := KeyList(entries);
      var x := Temporary(KeyAddrs(entries), Objects(t), |h0|);
      if x.Failed? {
        return Missed(x.error);
      }
      var keys := x.p;
      var strKeys := true;
      var ks: seq<GoValue>, vs: seq<GoValue> := [], [];
      var i := 0;
      while i < |entries|
        invariant 0 <= i <= |entries| && WithTemporary(m, Now(), EntryObjects(t, i), keys, copy, |h0|)
        invariant PairsRead(t, ks, vs, i, |m.slots|)
        invariant strKeys <==> forall j :: 0 <= j < i ==> t.entries[j].0.TStr?
        invariant old(rt.NoFaults()) ==> rt.NoFaults()
      {
        var isStr, gk;
        isStr, gk, r := PairFromPy(m, keys, entries, p, t, i, h0);
        if r.Missed? {
          return;
        }
        strKeys := strKeys && isStr;
        ks, vs := ks + [gk], vs + [r.value];
        i := i + 1;
      }
      var all := AssignAll(ks, vs, t, h0, |m.slots|);
      DropTemporary(m, EntryObjects(t, i), keys, copy, |h0|);
      DictOfEntries(t, strKeys, |m.slots|);
      r := Got(GoMap(strKeys, all));
    }

    // ----- the life of handles -----

    predicate Open()
      reads this
    {
      !closed && !crashed
    }

    /** The books are kept; the caller owns `extra` besides. */
    ghost predicate Kept(extra: multiset<Addr>)
      reads this, rt
    {
      Books(Now(), pending, Open(), extra)
    }

    method Check() returns (a: Admission)
      ensures a.Admitted? <==> Open()
      ensures crashed ==> a == Refused(Crashed)
      ensures closed && !crashed ==> a == Refused(Closed)
    {
      if crashed {
        return Refused(Crashed);
      }
      if closed {
        return Refused(Closed);
      }
      a := Admitted;
    }

    /** Every call begins here: an open interpreter first drops what finalizers have queued. */
    method Enter(ghost extra: multiset<Addr>) returns (a: Admission)
      requires Kept(extra)
      modifies rt`heap, rt`owned, this`pending, this`fates
      ensures Kept(extra) && |rt.heap| == |old(rt.heap)|
      ensures a.Admitted? <==> Open()
      ensures crashed ==> a == Refused(Crashed)
      ensures closed && !crashed ==> a == Refused(Closed)
      ensures a.Refused? ==> Now() == old(Now()) && pending == old(pending)
      ensures a.Admitted? ==>
        pending == [] && fates == Settled(old(fates), Dropped) && Survives(old(rt.heap), rt.heap)
      ensures old(pending) == [] ==> rt.heap == old(rt.heap)
    {
      hide Balanced, Extends, Survives;
      a := Check();
      if a.Admitted? {
        Drain(extra);
      }
    }

    /** Drop the references queued by finalizers, each once. */
    method Drain(ghost extra: multiset<Addr>)
      requires Kept(extra) && Open()
      modifies rt`heap, rt`owned, this`pending, this`fates
      ensures Kept(extra) && |rt.heap| == |old(rt.heap)|
      ensures pending == [] && fates == Settled(old(fates), Dropped) && Survives(old(rt.heap), rt.heap)
      ensures old(pending) == [] ==> rt.heap == old(rt.heap)
    {
      hide Balanced, With, Outstanding;
      ghost var m := Now();
      var p := pending;
      pending := [];
      QueueIsOwned(m, p, extra);
      DropAll(p);
      fates := Settled(fates, Dropped);
      BooksAfterSettling(m, Now(), p, true, extra, Dropped);
    }

    method DropAll(p: seq<Addr>)
      requires rt.Valid() && multiset(p) <= rt.owned && Extends(Singletons(), rt.heap)
      modifies rt`heap, rt`owned
      ensures rt.Valid() && rt.owned == old(rt.owned) - multiset(p) && |rt.heap| == |old(rt.heap)|
      ensures Extends(Singletons(), rt.heap) && Survives(old(rt.heap), rt.heap)
      ensures p == [] ==> rt.heap == old(rt.heap)
    {
      hide Balanced, Extends;
      ghost var rest, h0 := rt.owned - multiset(p), rt.heap;
      var i := 0;
      while i < |p|
        invariant 0 <= i <= |p| && rt.Valid() && rt.owned == rest + multiset(p[i..]) && |rt.heap| == |h0|
        invariant Extends(Singletons(), rt.heap) && Survives(h0, rt.heap)
        invariant i == 0 ==> rt.heap == h0
      {
        FirstOfRest(rest, p, i, rt.owned);
        Drop(p[i]);
        i := i + 1;
      }
    }

    /** Drop a reference, whatever it keeps alive. */
    method Drop(p: Addr)
      requires rt.Valid() && p in rt.owned && Extends(Singletons(), rt.heap)
      modifies rt`heap, rt`owned
      ensures rt.Valid() && rt.owned == old(rt.owned) - multiset{p} && |rt.heap| == |old(rt.heap)|
      ensures Extends(Singletons(), rt.heap) && Survives(old(rt.heap), rt.heap)
      ensures forall base :: Keeps(base, old(rt.heap), rt.owned) ==> Extends(base, rt.heap)
      ensures forall n :: Ordered(old(rt.heap), n) ==> Ordered(rt.heap, n)
    {
      SingletonsBalanced();
      assert Keeps(Singletons(), rt.heap, rt.owned - multiset{p});
      rt.DecRef(p);
    }

    /** The finalizer of a handle queues its reference. */
    method Finalize(id: nat, ghost extra: multiset<Addr>)
      requires Kept(extra) && id < |slots|
      modifies this`slots, this`pending, this`fates
      ensures Kept(extra)
      ensures slots == old(slots)[id := Null]
      ensures pending == old(pending) + if old(slots[id]).Ref? then [old(slots[id]).addr] else []
      ensures fates == if old(slots[id]).Ref? then old(fates)[id := Queued] else old(fates)
    {
      hide Balanced, Extends, With, Outstanding;
      ghost var m := Now();
      var p := slots[id];
      slots := slots[id := Null];
      if p.Null? {
        return;
      }
      ghost var before := pending;
      pending := pending + [p.addr];
      fates := fates[id := Queued];
      BooksAfterChange(m, Now(), before, pending, extra, extra, Open(), id, Queued);
    }

    /** Drop a handle's reference now; once only, and not any more when the interpreter is closed or has crashed. */
    method Release(id: nat)
      requires Kept(multiset{}) && id < |slots|
      modifies rt`heap, rt`owned, this`slots, this`pending, this`fates
      ensures Kept(multiset{}) && |rt.heap| == |old(rt.heap)|
      ensures slots == old(slots)[id := Null]
      ensures old(slots[id]).Null? ==> rt.heap == old(rt.heap) && pending == old(pending) && fates == old(fates)
      ensures old(slots[id]).Ref? && Open() ==>
        pending == [] && fates == Settled(old(fates), Dropped)[id := Dropped] && Survives(old(rt.heap), rt.heap)
      ensures old(pending) == [] && old(slots[id]).Ref? && Open() ==>
        && (forall base :: Keeps(base, old(rt.heap), rt.owned) ==> Extends(base, rt.heap))
        && (forall n :: Ordered(old(rt.heap), n) ==> Ordered(rt.heap, n))
      ensures old(slots[id]).Ref? && !Open() ==>
        rt.heap == old(rt.heap) && pending == old(pending) && fates == old(fates)[id := Abandoned]
    {
      hide Balanced, Extends, With, Outstanding, Ordered, Keeps, Survives;
      ghost var m := Now();
      var p := slots[id];
      slots := slots[id := Null];
      if p.Null? {
        return;
      }
      fates := fates[id := InHand];
      BooksAfterChange(m, Now(), pending, pending, multiset{}, multiset{}, Open(), id, InHand);
      GiveBack(id, p.addr);
    }

    method GiveBack(ghost id: nat, p: Addr)
      requires Kept(multiset{}) && id < |slots| && fates[id] == InHand && p == origin[id]
      modifies rt`heap, rt`owned, this`pending, this`fates
      ensures Kept(multiset{}) && |rt.heap| == |old(rt.heap)|
      ensures Open() ==>
        pending == [] && fates == Settled(old(fates), Dropped)[id := Dropped] && Survives(old(rt.heap), rt.heap)
      ensures old(pending) == [] && Open() ==>
        && (forall base :: Keeps(base, old(rt.heap), rt.owned) ==> Extends(base, rt.heap))
        && (forall n :: Ordered(old(rt.heap), n) ==> Ordered(rt.heap, n))
      ensures !Open() ==> rt.heap == old(rt.heap) && pending == old(pending) && fates == old(fates)[id := Abandoned]
    {
      hide Balanced, Extends, With, Outstanding, Ordered, Keeps, Survives, OpenBooks;
      var a := Enter(multiset{});
      ghost var m := Now();
      assert slots[id := Null] == slots;
      if a.Refused? {
        fates := fates[id := Abandoned];
        BooksAfterChange(m, Now(), pending, pending, multiset{}, multiset{}, false, id, Abandoned);
      } else {
        DropInHand(id, p);
        SurvivesTransitive(old(rt.heap), m.heap, rt.heap);
      }
    }

    method DropInHand(ghost id: nat, p: Addr)
      requires Kept(multiset{}) && Open() && id < |slots| && slots[id].Null? && fates[id] == InHand && p == origin[id]
      modifies rt`heap, rt`owned, this`fates
      ensures Kept(multiset{}) && |rt.heap| == |old(rt.heap)| && fates == old(fates)[id := Dropped]
      ensures Survives(old(rt.heap), rt.heap)
      ensures forall base :: Keeps(base, old(rt.heap), rt.owned) ==> Extends(base, rt.heap)
      ensures forall n :: Ordered(old(rt.heap), n) ==> Ordered(rt.heap, n)
    {
      hide Balanced, Extends, With, Outstanding, Ordered, Keeps, Survives, OpenBooks;
      ghost var m := Now();
      assert slots[id := Null] == slots;
      InHandIsOwned(m, pending, multiset{}, id);
      Drop(p);
      fates := fates[id := Dropped];
      BooksAfterChange(m, Now(), pending, pending, multiset{}, multiset{}, true, id, Dropped);
    }

    /**
     * Close the interpreter; `meanwhile` are the handles whose finalizers run while it is being finalized. What they
     * queue is abandoned when finalization returns, and stays queued otherwise.
     */
    method Close(meanwhile: seq<nat>, ending: Ending) returns (a: Admission)
      requires Kept(multiset{}) && forall i :: 0 <= i < |meanwhile| ==> meanwhile[i] < |slots|
      modifies rt, this`slots, this`pending, this`fates, this`closed, this`crashed
      ensures Kept(multiset{}) && closed
      ensures old(crashed) ==> a == Refused(Crashed)
      ensures old(closed) && !old(crashed) ==> a.Admitted?
      ensures !old(Open()) ==> slots == old(slots) && pending == old(pending) && fates == old(fates)
      ensures crashed == (old(crashed) || (old(Open()) && ending.Panics?))
      ensures old(Open()) ==> Closing(a, ending, old(rt.NoFaults()))
      ensures old(Open()) && ending.Returns? ==>
        pending == [] && fates == Settled(AfterFinalizers(Settled(old(fates), Dropped), meanwhile), Abandoned)
      ensures old(Open()) && !ending.Returns? ==> fates == AfterFinalizers(Settled(old(fates), Dropped), meanwhile)
    {
      hide Balanced, Extends, With, Outstanding, OpenBooks, Survives;
      a := Enter(multiset{});
      if a.Refused? {
        closed := true;
        if a.error == Closed {
          a := Admitted;
        }
        return;
      }
      closed := true;
      Lose();
      RunFinalizers(meanwhile);
      match ending
      case Panics =>
        crashed := true;
        a := Refused(Panicked);
      case Exits(code) => a := Refused(Exit(code));
      case Returns =>
        var failed := rt.Faulty();
        if failed {
          a := Refused(OwnError("RuntimeError"));
        }
        Forget();
    }

    /** What is queued is abandoned. */
    method Forget()
      requires Kept(multiset{}) && !Open()
      modifies this`pending, this`fates
      ensures Kept(multiset{}) && pending == [] && fates == Settled(old(fates), Abandoned)
    {
      hide Balanced, Extends, With, Outstanding, OpenBooks;
      ghost var m := Now();
      ghost var p := pending;
      pending := [];
      fates := Settled(fates, Abandoned);
      BooksAfterSettling(m, Now(), p, false, multiset{}, Abandoned);
    }

    method RunFinalizers(ids: seq<nat>)
      requires Kept(multiset{}) && forall i :: 0 <= i < |ids| ==> ids[i] < |slots|
      modifies this`slots, this`pending, this`fates
      ensures Kept(multiset{}) && |slots| == |old(slots)| && fates == AfterFinalizers(old(fates), ids)
    {
      hide Balanced, Extends, With, Outstanding, OpenBooks;
      var i := 0;
      assert ids[..0] == [];
      while i < |ids|
        invariant 0 <= i <= |ids| && Kept(multiset{}) && |slots| == |old(slots)|
        invariant fates == AfterFinalizers(old(fates), ids[..i])
      {
        Finalize(ids[i], multiset{});
        assert ids[..i + 1][..i] == ids[..i];
        i := i + 1;
      }
      assert ids[..i] == ids;
    }

    /** A panic in transpiled code. */
    method Crash()
      requires Kept(multiset{})
      modifies rt`heap, rt`owned, this`crashed
      ensures Kept(multiset{}) && crashed
    {
      crashed := true;
      Lose();
    }

    /** Nothing is known of the heap any more. */
    method Lose()
      requires !Open()
      modifies rt`heap, rt`owned
    {
      rt.heap := *;
      rt.owned := *;
    }

    // ----- whole calls -----

    /** A handle to the Python object a Go value is converted to. `base` is the moment the conversion begins. */
    method Object(v: GoValue) returns (r: Made, ghost base: Moment)
      requires Kept(multiset{})
      modifies rt, this`slots, this`origin, this`fates, this`pending
      ensures Kept(multiset{})
      ensures !Open() ==> r == NotMade(if crashed then Crashed else Closed)
      ensures !Open() ==> Now() == old(Now()) && pending == old(pending)
      ensures Open() ==> Drained(old(Now()), base) && Books(base, [], true, multiset{}) && pending == []
      ensures Open() ==> MadeFrom(base, Now(), v, r)
      ensures Open() && old(pending) == [] ==> base.heap == old(rt.heap)
      ensures Open() && old(rt.NoFaults()) ==> rt.NoFaults() && (r.Made? <==> Convertible(v, base.slots, base.heap))
      ensures Open() && old(rt.NoFaults()) && r.NotMade? ==> FailsAs(v, base.slots, base.heap, r.error)
    {
      hide Balanced, Extends, With, Outstanding, Ordered, Survives, Convertible, Exact, Outcome, OpenBooks, FailsAs;
      hide Becomes, Represents, Plain, ToTree, LeftBut, GrownByStructure;
      var a := Enter(multiset{});
      base := Now();
      if a.Refused? {
        return NotMade(a.error), base;
      }
      ReadyNow(base, pending, multiset{});
      var c := ToPy(v, |rt.heap|);
      if c.Failed? {
        ConversionIsNotMade(base, Now(), pending, v, c.error);
        return NotMade(c.error), base;
      }
      ghost var m := Now();
      var id := Obj(c.p);
      ConversionIsMade(base, m, Now(), pending, v, c.p);
      r := Made(id);
    }

    /** The Go value of what a handle holds, an object of the structure t. */
    method Value(id: nat, ghost t: Tree) returns (r: Fetch, ghost base: Moment)
      requires Kept(multiset{}) && id < |slots|
      requires slots[id].Ref? && Open() ==> HasStructure(rt.heap, slots[id].addr, t)
      modifies rt, this`slots, this`origin, this`fates, this`pending
      ensures Kept(multiset{})
      ensures !Open() ==> r == Missed(if crashed then Crashed else Closed)
      ensures !Open() ==> Now() == old(Now()) && pending == old(pending)
      ensures Open() ==> Drained(old(Now()), base) && pending == []
      ensures Open() && old(slots[id]).Ref? ==> ReadFrom(base, Now(), t, r)
      ensures Open() && old(slots[id]).Ref? && r.Got? ==>
        ReadsAs(base.heap, base.slots[id].addr, r.value, slots)
      ensures Open() && old(slots[id]).Null? ==> r == Missed(Released) && Now() == base
      ensures Open() && old(pending) == [] ==> base.heap == old(rt.heap)
      ensures Open() && old(rt.NoFaults()) ==> rt.NoFaults() && (r.Got? <==> old(slots[id]).Ref?)
    {
      hide Balanced, Extends, With, Outstanding, Ordered, Survives, Represents, OpenBooks, Readable, Fetched;
      hide Legible, FromTree, Objects, LeftBut, IsBack, ReadsAs;
      ghost var m := Now();
      var a := Enter(multiset{});
      base := Now();
      if a.Refused? {
        return Missed(a.error), base;
      }
      if slots[id].Null? {
        return Missed(Released), base;
      }
      ReadableAfterDraining(m, base, pending, multiset{}, id, t);
      r := FromPy(slots[id].addr, t, rt.heap);
      ReadingIsDone(base, Now(), pending, t, r);
    }

    /** A value goes through Python and back and comes out in its normal form; the heap is as it was. */
    method RoundTripThroughPython(v: GoValue) returns (r: Fetch, ghost base: Moment)
      requires Kept(multiset{}) && Open() && rt.NoFaults() && Plain(v, [])
      modifies rt, this`slots, this`origin, this`fates, this`pending
      ensures Kept(multiset{}) && rt.NoFaults() && r == Got(NormalForm(v))
      ensures Drained(old(Now()), base) && slots == old(slots) + [Null] && pending == []
      ensures LeftBut(base.heap, rt.heap, multiset{})
    {
      hide Balanced, Extends, With, Outstanding, Ordered, Survives, Keeps, OpenBooks;
      hide Represents, LeftBut, GrownByStructure, Convertible, FromTree, NormalForm, ToTree, Legible, Whole;
      hide FailsAs, IsBack, ReadsAs, Becomes, HasTree, PlainKeys, KeyAt;
      ghost var f0 := fates;
      var o;
      o, base := Object(v);
      PlainWithoutHandles(v, Targets(base.slots, base.heap));
      PlainIffConvertible(v, base.slots, base.heap);
      ghost var m := Now();
      ghost var p := m.origin[|base.origin|];
      RepresentsAnywhere(m.heap, p, ToTree(v, []), |base.heap|, |base.heap|, |m.heap|);
      SettledAlready(f0);
      PlainIsLegible(v, m.heap);
      RoundTrip(v);
      WholeIsRead(ToTree(v, []), |m.slots|);
      ghost var base';
      r, base' := Value(o.id, ToTree(v, []));
      WithoutHandles(base');
      ghost var m' := Now();
      StillExtends(base, m, base', m', v, o, ToTree(v, []), r);
      Release(o.id);
      HeapIsAsItWas(base, m', Now(), p);
    }

    /** One step of a program that uses the interpreter. */
    method Perform(op: Op)
      requires Kept(multiset{})
      modifies rt, this`slots, this`origin, this`fates, this`pending, this`closed, this`crashed
      ensures Kept(multiset{}) && Along(old(fates), fates) && old(origin) <= origin
      ensures Open() ==> old(Open())
    {
      hide Balanced, Extends, With, Outstanding, OpenBooks, Along;
      AlongAppend(fates);
      match op
      case MakeObject(v) =>
        MakeAlong(v);
      case ReadHandle(id, t) =>
        if id < |slots| && (slots[id].Ref? && Open() ==> HasStructure(rt.heap, slots[id].addr, t)) {
          ReadAlong(id, t);
        }
      case ReleaseHandle(id) =>
        if id < |slots| {
          if slots[id].Ref? {
            AlongReleased(fates, id);
            AlongChange(fates, id, Abandoned);
          }
          Release(id);
        }
      case FinalizeHandle(id) =>
        if id < |slots| {
          if slots[id].Ref? {
            AlongChange(fates, id, Queued);
          }
          Finalize(id, multiset{});
        }
      case CloseInterpreter(meanwhile, ending) =>
        if forall i :: 0 <= i < |meanwhile| ==> meanwhile[i] < |slots| {
          CloseIsAlong(fates, meanwhile);
          var a := Close(meanwhile, ending);
        }
      case Panic => Crash();
    }

    method MakeAlong(v: GoValue)
      requires Kept(multiset{})
      modifies rt, this`slots, this`origin, this`fates, this`pending
      ensures Kept(multiset{}) && Along(old(fates), fates) && old(origin) <= origin
    {
      hide Balanced, Extends, With, Outstanding, OpenBooks, Along;
      ghost var before := fates;
      AlongAppend(before);
      var o;
      ghost var base;
      o, base := Object(v);
      AlongSettled(before, Dropped);
      AlongAppend(Settled(before, Dropped));
      if Open() {
        AlongTransitive(before, Settled(before, Dropped), fates);
      }
    }

    method ReadAlong(id: nat, t: Tree)
      requires Kept(multiset{}) && id < |slots|
      requires slots[id].Ref? && Open() ==> HasStructure(rt.heap, slots[id].addr, t)
      modifies rt, this`slots, this`origin, this`fates, this`pending
      ensures Kept(multiset{}) && Along(old(fates), fates) && old(origin) <= origin
    {
      hide Balanced, Extends, With, Outstanding, OpenBooks, Along, Represents, Legible;
      ghost var before, held := fates, slots[id].Ref?;
      var r;
      ghost var base;
      r, base := Value(id, t);
      AlongAppend(before);
      if Open() {
        AlongSettled(before, Dropped);
        if held {
          ReadingIsAlong(base, Now(), t, r);
          AlongTransitive(before, base.fates, fates);
        }
      }
    }

    /**
     * Any run: every reference a handle took has one fate, so none is dropped twice; fates only move on, and what has
     * been dropped or abandoned stays so; and none is abandoned while the interpreter is open.
     */
    method Run(ops: seq<Op>)
      requires Kept(multiset{}) && NoneInHand(fates)
      modifies rt, this`slots, this`origin, this`fates, this`pending, this`closed, this`crashed
      ensures Kept(multiset{}) && Progress(old(fates), fates) && old(origin) <= origin
      ensures |origin| == |fates| && multiset(pending) == With(origin, fates, Queued)
      ensures multiset(origin)
           == With(origin, fates, Held) + multiset(pending)
              + With(origin, fates, Dropped) + With(origin, fates, Abandoned)
      ensures |old(origin)| == |old(fates)|
      ensures With(old(origin), old(fates), Dropped) <= With(origin, fates, Dropped)
      ensures With(old(origin), old(fates), Abandoned) <= With(origin, fates, Abandoned)
      ensures With(origin, fates, Abandoned) != multiset{} ==> closed || crashed
    {
      hide Balanced, Extends, With, Outstanding, OpenBooks;
      var i := 0;
      AlongAppend(fates);
      while i < |ops|
        invariant 0 <= i <= |ops| && Kept(multiset{}) && Along(old(fates), fates) && old(origin) <= origin
      {
        ghost var before := fates;
        Perform(ops[i]);
        AlongTransitive(old(fates), before, fates);
        i := i + 1;
      }
      AllAccountedFor(Now(), pending, Open());
      DroppedOnce(old(origin), old(fates), origin, fates);
    }
  }
}
