/** What conversions between Go values and Python objects promise, on values. */
module Conversions {
  import opened PyHeap
  import opened Keys
  import opened Python
  import opened Merging
  import opened Values
  import opened Structures
  import opened Meanings
  import opened Handles

  /**
   * What a failed call reports. A Python error carries a handle to the exception object; an error of the embedding's
   * own and an exit do not.
   */
  datatype Error = Released | Closed | Crashed | Panicked | Unsupported | PythonError(kind: string, exception: nat)
    | OwnError(kind: string) | Exit(code: Int64)

  /** What a failed Python call has raised. */
  datatype Exc = NothingRaised | SystemExit(code: ExitCode) | Exception(kind: string)

  /** The code attribute of a SystemExit. */
  datatype ExitCode = NoCode | NoneCode | IntCode(i: int) | OtherCode

  /**
   * The exit status is 0 exactly for no code, None and the integer 0; an integer that fits is itself and one that does
   * not reads as -1; anything else is 1.
   */
  predicate IsStatus(status: Int64, code: ExitCode) {
    && (status == 0 <==> code.NoCode? || code.NoneCode? || code == IntCode(0))
    && (code.OtherCode? ==> status == 1)
    && (code.IntCode? ==> status == if MIN_INT64 <= code.i <= MAX_INT64 then code.i else -1)
  }

  /** The error reported for what has been raised. */
  predicate Reports(error: Error, exc: Exc) {
    match exc
    case NothingRaised => error == OwnError("SystemError")
    case SystemExit(code) => error.Exit? && IsStatus(error.code, code)
    case Exception(kind) => error.PythonError? && error.kind == kind
  }

  datatype Conversion = Converted(p: Addr) | Failed(error: Error)

  /** Keys that have a hash: anything but lists, dictionaries and handles to objects without a hash. */
  predicate HashableKey(k: GoValue, slots: seq<Ref>, h: Heap) {
    match k
    case GoSlice(_) => false
    case GoMap(_, _) => false
    case GoHandle(id) => id < |slots| && slots[id].Ref? && KeyAt(h, slots[id].addr) != Unhashable
    case _ => true
  }

  /** The values that can be converted. */
  predicate Convertible(v: GoValue, slots: seq<Ref>, h: Heap) {
    match v
    case GoHandle(id) => id < |slots| && slots[id].Ref?
    case GoNilBigInt => false
    case GoInvalidString => false
    case GoError => false
    case GoOther => false
    case GoSlice(items) => forall i :: 0 <= i < |items| ==> Convertible(items[i], slots, h)
    case GoMap(_, entries) =>
      forall i :: 0 <= i < |entries| ==>
        && Convertible(entries[i].0, slots, h) && HashableKey(entries[i].0, slots, h)
        && Convertible(entries[i].1, slots, h)
    case _ => true
  }

  predicate ConvertibleEntry(e: (GoValue, GoValue), slots: seq<Ref>, h: Heap) {
    Convertible(e.0, slots, h) && HashableKey(e.0, slots, h) && Convertible(e.1, slots, h)
  }

  /** The first i entries of a map can be converted. */
  predicate ConvertibleUpTo(v: GoValue, i: nat, slots: seq<Ref>, h: Heap)
    requires v.GoMap? && i <= |v.entries|
  {
    forall j :: 0 <= j < i ==> ConvertibleEntry(v.entries[j], slots, h)
  }

  lemma NothingYet(v: GoValue, slots: seq<Ref>, h: Heap)
    requires v.GoMap?
    ensures ConvertibleUpTo(v, 0, slots, h)
    ensures ConvertibleUpTo(v, |v.entries|, slots, h) ==> Convertible(v, slots, h)
  {
    if ConvertibleUpTo(v, |v.entries|, slots, h) {
      forall j | 0 <= j < |v.entries|
        ensures Convertible(v.entries[j].0, slots, h) && HashableKey(v.entries[j].0, slots, h)
        ensures Convertible(v.entries[j].1, slots, h)
      {
        assert ConvertibleEntry(v.entries[j], slots, h);
      }
    }
  }

  lemma OneMore(v: GoValue, i: nat, slots: seq<Ref>, h: Heap)
    requires v.GoMap? && i < |v.entries|
    ensures ConvertibleUpTo(v, i, slots, h) && ConvertibleEntry(v.entries[i], slots, h)
        ==> ConvertibleUpTo(v, i + 1, slots, h)
    ensures Convertible(v, slots, h) ==> ConvertibleEntry(v.entries[i], slots, h)
  {
  }

  /** Handles refer to objects that stay what they are. */
  predicate SlotsAlive(slots: seq<Ref>, h: Heap, n: nat) {
    forall i :: 0 <= i < |slots| && slots[i].Ref? ==> slots[i].addr < |h| && slots[i].addr < n && Live(h[slots[i].addr])
  }

  lemma {:induction false} ConvertibleCarriesOver(v: GoValue, slots: seq<Ref>, h: Heap, owned: multiset<Addr>,
                                                  h': Heap, n: nat)
    requires SlotsAlive(slots, h, n) && Balanced(h, owned) && Extends(h, h')
    ensures Convertible(v, slots, h') == Convertible(v, slots, h)
    ensures HashableKey(v, slots, h') == HashableKey(v, slots, h)
    decreases v
  {
    hide Balanced, Extends, KeyAt;
    match v
    case GoHandle(id) =>
      if id < |slots| && slots[id].Ref? {
        KeyCarriesOver(h, owned, h', slots[id].addr);
      }
    case GoSlice(items) =>
      forall i | 0 <= i < |items| ensures Convertible(items[i], slots, h') == Convertible(items[i], slots, h) {
        ConvertibleCarriesOver(items[i], slots, h, owned, h', n);
      }
    case GoMap(_, entries) =>
      forall i | 0 <= i < |entries|
        ensures Convertible(entries[i].0, slots, h') == Convertible(entries[i].0, slots, h)
        ensures HashableKey(entries[i].0, slots, h') == HashableKey(entries[i].0, slots, h)
        ensures Convertible(entries[i].1, slots, h') == Convertible(entries[i].1, slots, h)
      {
        ConvertibleCarriesOver(entries[i].0, slots, h, owned, h', n);
        ConvertibleCarriesOver(entries[i].1, slots, h, owned, h', n);
      }
    case _ =>
  }

  /** An object alive keeps the key it has. */
  lemma KeyCarriesOver(h: Heap, owned: multiset<Addr>, h': Heap, p: Addr)
    requires Balanced(h, owned) && Extends(h, h') && p < |h| && Live(h[p])
    ensures KeyAt(h', p) == KeyAt(h, p)
  {
    hide Balanced, KeyAt;
    KeyStays(h, owned, h', p);
  }

  /**
   * A handle can be a key as its object can: always if that is compared by what it is, never if it can change, and a
   * tuple or frozenset if all its items can.
   */
  lemma HandleAsKey(id: nat, slots: seq<Ref>, h: Heap)
    requires id < |slots| && slots[id].Ref? && slots[id].addr < |h|
    ensures var payload := h[slots[id].addr].payload;
            && (IsHashable(payload) ==> HashableKey(GoHandle(id), slots, h))
            && (IsMutable(payload) ==> !HashableKey(GoHandle(id), slots, h))
            && (IsCompound(payload) ==> (HashableKey(GoHandle(id), slots, h) <==> AllHaveKeys(h, payload.items)))
  {
    hide KeyAt, IsHashable, IsMutable, IsCompound;
    var p := slots[id].addr;
    if IsHashable(h[p].payload) {
      HashableHasKey(h, p);
    }
    if IsMutable(h[p].payload) {
      NoKeyOfMutable(h, p);
    }
    if IsCompound(h[p].payload) {
      KeyOfCompound(h, p);
    }
  }

  predicate IsPythonError(error: Error, kind: string) {
    error.PythonError? && error.kind == kind
  }

  /** What a value that cannot be converted fails with: the first of its parts that cannot be converted decides. */
  ghost predicate FailsAs(v: GoValue, slots: seq<Ref>, h: Heap, error: Error)
    decreases v, 1
  {
    match v
    case GoHandle(_) => error == Released
    case GoNilBigInt => IsPythonError(error, "ValueError")
    case GoInvalidString => IsPythonError(error, "UnicodeDecodeError")
    case GoError => error == Unsupported
    case GoOther => error == Unsupported
    case GoSlice(items) =>
      exists i :: 0 <= i < |items| && IsFirstItem(v, i, slots, h) && FailsAs(items[i], slots, h, error)
    case GoMap(_, entries) =>
      exists i :: 0 <= i < |entries| && IsFirstEntry(v, i, slots, h) && EntryFailsAs(v, i, slots, h, error)
    case _ => false
  }

  /** All items before the i-th can be converted, and that cannot. */
  ghost predicate IsFirstItem(v: GoValue, i: nat, slots: seq<Ref>, h: Heap)
    requires v.GoSlice? && i < |v.items|
  {
    !Convertible(v.items[i], slots, h) && forall j :: 0 <= j < i ==> Convertible(v.items[j], slots, h)
  }

  ghost predicate IsFirstEntry(v: GoValue, i: nat, slots: seq<Ref>, h: Heap)
    requires v.GoMap? && i < |v.entries|
  {
    !ConvertibleEntry(v.entries[i], slots, h) && ConvertibleUpTo(v, i, slots, h)
  }

  /** The key is converted before the value, and whether it has a hash shows last. */
  ghost predicate EntryFailsAs(v: GoValue, i: nat, slots: seq<Ref>, h: Heap, error: Error)
    requires v.GoMap? && i < |v.entries|
    decreases v, 0
  {
    var (k, e) := v.entries[i];
    if !Convertible(k, slots, h) then FailsAs(k, slots, h, error)
    else if !Convertible(e, slots, h) then FailsAs(e, slots, h, error)
    else !HashableKey(k, slots, h) && IsPythonError(error, "TypeError")
  }

  lemma ItemFails(v: GoValue, i: nat, slots: seq<Ref>, h: Heap, error: Error)
    requires v.GoSlice? && i < |v.items| && FailsAs(v.items[i], slots, h, error)
    requires !Convertible(v.items[i], slots, h) && forall j :: 0 <= j < i ==> Convertible(v.items[j], slots, h)
    ensures FailsAs(v, slots, h, error)
  {
    hide Convertible;
    assert IsFirstItem(v, i, slots, h);
  }

  lemma EntryFails(v: GoValue, i: nat, slots: seq<Ref>, h: Heap, error: Error)
    requires v.GoMap? && i < |v.entries| && EntryFailsAs(v, i, slots, h, error)
    requires !ConvertibleEntry(v.entries[i], slots, h) && ConvertibleUpTo(v, i, slots, h)
    ensures FailsAs(v, slots, h, error)
  {
    hide ConvertibleEntry, ConvertibleUpTo, EntryFailsAs;
    assert IsFirstEntry(v, i, slots, h);
  }

  /** A failure in a heap that has grown is one in the heap there was. */
  lemma {:induction false} FailureCarriesOver(v: GoValue, slots: seq<Ref>, h: Heap, owned: multiset<Addr>, h': Heap,
                                              n: nat, error: Error)
    requires SlotsAlive(slots, h, n) && Balanced(h, owned) && Extends(h, h') && FailsAs(v, slots, h', error)
    ensures FailsAs(v, slots, h, error)
    decreases v
  {
    hide Balanced, Extends, HashableKey, Convertible, SlotsAlive;
    match v
    case GoSlice(items) =>
      var i :| 0 <= i < |items| && IsFirstItem(v, i, slots, h') && FailsAs(items[i], slots, h', error);
      forall j | 0 <= j < |items| ensures Convertible(items[j], slots, h') == Convertible(items[j], slots, h) {
        ConvertibleCarriesOver(items[j], slots, h, owned, h', n);
      }
      FailureCarriesOver(items[i], slots, h, owned, h', n, error);
    case GoMap(_, entries) =>
      var i :| 0 <= i < |entries| && IsFirstEntry(v, i, slots, h') && EntryFailsAs(v, i, slots, h', error);
      forall j | 0 <= j < |entries|
        ensures Convertible(entries[j].0, slots, h') == Convertible(entries[j].0, slots, h)
        ensures HashableKey(entries[j].0, slots, h') == HashableKey(entries[j].0, slots, h)
        ensures Convertible(entries[j].1, slots, h') == Convertible(entries[j].1, slots, h)
      {
        ConvertibleCarriesOver(entries[j].0, slots, h, owned, h', n);
        ConvertibleCarriesOver(entries[j].1, slots, h, owned, h', n);
      }
      if FailsAs(entries[i].0, slots, h', error) {
        FailureCarriesOver(entries[i].0, slots, h, owned, h', n, error);
      }
      if FailsAs(entries[i].1, slots, h', error) {
        FailureCarriesOver(entries[i].1, slots, h, owned, h', n, error);
      }
      assert IsFirstEntry(v, i, slots, h) && EntryFailsAs(v, i, slots, h, error);
    case _ =>
  }

  /** The heap of a new interpreter holds the immortal None, False and True. */
  function Singletons(): Heap {
    [Cell(0, true, NoneObject), Cell(0, true, BoolObject(false)), Cell(0, true, BoolObject(true))]
  }

  const NONE: Addr := 0
  const FALSE: Addr := 1
  const TRUE: Addr := 2

  lemma SingletonsBalanced()
    ensures Balanced(Singletons(), multiset{})
  {
    forall q ensures EdgeCount(Singletons(), q) == 0 {
      if EdgeCount(Singletons(), q) > 0 {
        var p := EdgeHasSource(Singletons(), q);
      }
    }
  }

  /** What a call finds when it begins. */
  datatype Moment = Moment(slots: seq<Ref>, origin: seq<Addr>, fates: seq<Fate>, heap: Heap, owned: multiset<Addr>)

  ghost predicate Valid(m: Moment) {
    Balanced(m.heap, m.owned)
  }

  /** Ready to convert: the counts are exact, and all that handles refer to or objects share is below n. */
  ghost predicate Ready(m: Moment, n: nat) {
    && Valid(m) && Extends(Singletons(), m.heap) && 3 <= n <= |m.heap| && Ordered(m.heap, n)
    && SlotsAlive(m.slots, m.heap, n)
  }

  /** What the handles refer to. */
  ghost function Aims(m: Moment): seq<Target> {
    Targets(m.slots, m.heap)
  }

  ghost predicate SameHandles(m: Moment, m': Moment) {
    m'.slots == m.slots && m'.origin == m.origin && m'.fates == m.fates
  }

  /** One more handle. */
  ghost predicate NewHandle(m: Moment, m': Moment, p: Addr) {
    m'.slots == m.slots + [Ref.Ref(p)] && m'.origin == m.origin + [p] && m'.fates == m.fates + [Held]
  }

  /** The heap has changed, but no object alive is lost, and no old one has changed. */
  ghost predicate Continues(h: Heap, h': Heap, n: nat) {
    Extends(h, h') && Ordered(h', n)
  }

  /** The error's handle, and only that, has been made: it owns the exception. */
  ghost predicate Raised(m: Moment, m': Moment, error: Error) {
    && error.PythonError? && error.exception == |m.slots| && |m.origin| < |m'.origin|
    && var e := m'.origin[|m.origin|];
       && NewHandle(m, m', e)
       && |m.heap| <= e < |m'.heap| && Live(m'.heap[e]) && m'.heap[e].payload == ExceptionObject(error.kind)
       && m'.owned == m.owned + multiset{e}
  }

  /** A failure has left no reference behind but the one to the exception, which the error's handle owns. */
  ghost predicate Failure(m: Moment, m': Moment, error: Error) {
    if error.PythonError? then Raised(m, m', error) else SameHandles(m, m') && m'.owned == m.owned
  }

  ghost predicate Success(m: Moment, m': Moment, p: Addr, n: nat) {
    && SameHandles(m, m') && m'.owned == m.owned + multiset{p}
    && p < |m'.heap| && Live(m'.heap[p]) && (p < n || |m.heap| <= p)
  }

  /** A conversion gives the caller one reference, to an old object below n or to a new one, or it fails. */
  ghost predicate Outcome(m: Moment, m': Moment, r: Conversion, n: nat) {
    && Valid(m') && Continues(m.heap, m'.heap, n)
    && match r
       case Failed(error) => Failure(m, m', error)
       case Converted(p) => Success(m, m', p, n)
  }

  /** The object is the value's structure, and can be a key if the value can; a NaN is an object of its own. */
  ghost predicate Exact(m: Moment, h: Heap, v: GoValue, p: Addr, n: nat) {
    && (Plain(v, Aims(m)) ==> Represents(h, p, ToTree(v, Aims(m)), n, |m.heap|))
    && (KeyAt(h, p) != Unhashable <==> HashableKey(v, m.slots, m.heap))
    && (v == GoFloat(NaN) ==> |m.heap| <= p)
  }

  lemma SingletonsStay(m: Moment, n: nat)
    requires Ready(m, n)
    ensures NONE < n && Live(m.heap[NONE]) && m.heap[NONE].payload == NoneObject
    ensures FALSE < n && Live(m.heap[FALSE]) && m.heap[FALSE].payload == BoolObject(false)
    ensures TRUE < n && Live(m.heap[TRUE]) && m.heap[TRUE].payload == BoolObject(true)
  {
    assert Live(Singletons()[NONE]) && Live(Singletons()[FALSE]) && Live(Singletons()[TRUE]);
  }

  lemma Unchanged(m: Moment, n: nat)
    requires Ready(m, n)
    ensures Outcome(m, m, Failed(Released), n) && Outcome(m, m, Failed(Unsupported), n)
  {
  }

  /** A failure that begins where nothing is left of what was tried before. */
  lemma FailureLater(m: Moment, m1: Moment, m2: Moment, error: Error, n: nat)
    requires SameHandles(m, m1) && m1.owned == m.owned && Extends(m.heap, m1.heap)
    requires Outcome(m1, m2, Failed(error), n)
    ensures Outcome(m, m2, Failed(error), n)
  {
    hide Balanced, Ordered;
    ExtendsTransitive(m.heap, m1.heap, m2.heap);
  }

  lemma ConvertibleLater(m: Moment, m': Moment, v: GoValue, n: nat)
    requires Ready(m, n) && Continues(m.heap, m'.heap, n) && m'.slots == m.slots
    ensures Convertible(v, m'.slots, m'.heap) == Convertible(v, m.slots, m.heap)
    ensures HashableKey(v, m'.slots, m'.heap) == HashableKey(v, m.slots, m.heap)
  {
    ConvertibleCarriesOver(v, m.slots, m.heap, m.owned, m'.heap, n);
  }

  /** The moment without a reference the caller has had. */
  ghost function Without(m: Moment, p: Addr): Moment {
    m.(owned := m.owned - multiset{p})
  }

  /** A failure stays one while references are dropped. */
  lemma FailureAfterDrop(m1: Moment, m2: Moment, m3: Moment, error: Error, p: Addr)
    requires Failure(m1, m2, error) && SameHandles(m2, m3) && p in m1.owned
    requires |m2.heap| <= |m3.heap| && Survives(m2.heap, m3.heap)
    requires m3.owned == m2.owned - multiset{p} && Balanced(m3.heap, m3.owned)
    ensures Failure(Without(m1, p), m3, error)
  {
    if error.PythonError? {
      var e := m2.origin[|m1.origin|];
      assert m3.owned == m1.owned - multiset{p} + multiset{e};
      OwnedIsAlive(m3.heap, m3.owned, e);
    }
  }

  /** A failure in a part is a failure of the whole, once what has been made of the whole is dropped. */
  lemma FailureOfWhole(m: Moment, m1: Moment, m2: Moment, error: Error)
    requires SameHandles(m, m1) && m1.owned == m.owned && |m.heap| <= |m1.heap|
    requires Failure(m1, m2, error)
    ensures Failure(m, m2, error)
  {
  }

  /** The payload of the new object a simple value becomes. */
  function PayloadOf(v: GoValue): Payload {
    match v
    case GoNil => NoneObject
    case GoNilPointer => NoneObject
    case GoBool(b) => BoolObject(b)
    case GoInt(i) => IntObject(i)
    case GoUint(u) => IntObject(u)
    case GoBigInt(z) => IntObject(z)
    case GoFloat(f) => FloatObject(f)
    case GoString(s) => StrObject(s)
    case GoBytes(b) => BytesObject(b)
    case _ => Freed
  }

  /** A simple value becomes an object of its own or a shared one, a handle the object it refers to. */
  ghost predicate Simple(m: Moment, h: Heap, v: GoValue, p: Addr) {
    && !v.GoSlice? && !v.GoMap? && (v.GoFloat? ==> p == |m.heap|)
    && if v.GoHandle? then v.id < |m.slots| && m.slots[v.id] == Ref.Ref(p)
       else HasTree(v, Aims(m)) && p < |h| && h[p].payload == PayloadOf(v)
  }

  lemma SimpleIsExact(m: Moment, m': Moment, v: GoValue, p: Addr, n: nat)
    requires Ready(m, n) && Outcome(m, m', Converted(p), n) && Simple(m, m'.heap, v, p)
    ensures Exact(m, m'.heap, v, p, n)
  {
    hide Balanced, Ordered, Extends;
    if v.GoHandle? {
      KeyCarriesOver(m.heap, m.owned, m'.heap, p);
    }
  }

  /** Handles refer to what they referred to. */
  lemma SameAims(m: Moment, m': Moment, n: nat)
    requires Ready(m, n) && m'.slots == m.slots && Extends(m.heap, m'.heap)
    ensures Aims(m') == Aims(m)
  {
    hide Balanced, Ordered, Extends, KeyAt;
    forall i | 0 <= i < |m.slots| && m.slots[i].Ref?
      ensures KeyAt(m'.heap, m.slots[i].addr) == KeyAt(m.heap, m.slots[i].addr)
    {
      KeyCarriesOver(m.heap, m.owned, m'.heap, m.slots[i].addr);
    }
  }

  lemma ExactBecomes(m: Moment, m': Moment, v: GoValue, p: Addr, n: nat)
    requires Ready(m, n) && Outcome(m, m', Converted(p), n) && Exact(m, m'.heap, v, p, n)
    ensures Plain(v, Aims(m)) ==> Becomes(m'.heap, p, v, m.slots)
  {
    hide Becomes, Represents, Plain, Balanced, Ordered, Extends;
    SameAims(m, m', n);
    if Plain(v, Aims(m)) {
      PlainBecomes(m'.heap, p, v, m.slots, n, |m.heap|);
    }
  }

  // ----- a slice being converted -----

  /** The new list, the first object made since m, has been filled up to i. */
  ghost predicate Filling(m: Moment, m': Moment, v: GoValue, n: nat, i: nat)
    requires v.GoSlice? && i <= |v.items|
  {
    && Ready(m, n) && Ready(m', n) && SameHandles(m, m')
    && Extends(m.heap, m'.heap) && m'.owned == m.owned + multiset{|m.heap|}
    && EmptyFrom(m'.heap, |m.heap|, i, |v.items|)
    && (Plain(v, Aims(m)) ==> HoldsItems(m'.heap, |m.heap|, ToTree(v, Aims(m)).items[..i], n))
  }

  lemma FillingBegins(m: Moment, m': Moment, v: GoValue, n: nat)
    requires v.GoSlice? && Ready(m, n) && Valid(m') && SameHandles(m, m')
    requires Extends(m.heap, m'.heap) && Ordered(m'.heap, n) && m'.owned == m.owned + multiset{|m.heap|}
    requires m'.heap == m.heap + [Cell(1, false, SequenceObject(ListKind, seq(|v.items|, _ => Empty)))]
    ensures Filling(m, m', v, n, 0)
  {
  }

  /** The list and the item that is to go into its next slot. */
  ghost predicate HasNext(m: Moment, m': Moment, v: GoValue, n: nat, i: nat, p: Addr)
    requires v.GoSlice? && i < |v.items|
  {
    var l := |m.heap|;
    && Ready(m, n) && Valid(m') && SameHandles(m, m') && Continues(m.heap, m'.heap, n)
    && m'.owned == m.owned + multiset{l} + multiset{p}
    && l < |m'.heap| && EmptyFrom(m'.heap, l, i, |v.items|) && (p < n || l < p)
    && (Plain(v, Aims(m)) ==> HoldsItems(SlotFilled(m'.heap, l, i, p), l, ToTree(v, Aims(m)).items[..i + 1], n))
  }

  lemma FillingStep(m: Moment, m1: Moment, m2: Moment, v: GoValue, n: nat, i: nat, p: Addr)
    requires v.GoSlice? && i < |v.items| && Filling(m, m1, v, n, i)
    requires Outcome(m1, m2, Converted(p), n) && Exact(m1, m2.heap, v.items[i], p, n)
    ensures HasNext(m, m2, v, n, i, p)
  {
    hide Balanced, Ordered;
    var l := |m.heap|;
    OwnedIsAlive(m1.heap, m1.owned, l);
    ExtendsTransitive(m.heap, m1.heap, m2.heap);
    SameAims(m, m1, n);
    if Plain(v, Aims(m)) {
      var ts := ToTree(v, Aims(m)).items;
      ItemsCarryOver(m1.heap, m2.heap, l, ts[..i], n);
      RepresentsFromLower(m2.heap, p, ts[i], n, |m1.heap|, l + 1);
      ItemAdded(m2.heap, l, ts[..i], n, p, ts[i]);
      assert ts[..i + 1] == ts[..i] + [ts[i]];
    }
  }

  lemma FillingNext(m: Moment, m': Moment, m'': Moment, v: GoValue, n: nat, i: nat, p: Addr)
    requires v.GoSlice? && i < |v.items| && HasNext(m, m', v, n, i, p)
    requires SameHandles(m', m'') && Valid(m'') && Ordered(m''.heap, n) && m''.owned == m'.owned - multiset{p}
    requires m''.heap == SlotFilled(m'.heap, |m.heap|, i, p)
    ensures Filling(m, m'', v, n, i + 1)
  {
    hide Balanced, Ordered, HoldsItems, Represents;
    assert m''.owned == m.owned + multiset{|m.heap|};
  }

  lemma FillingEnds(m: Moment, m': Moment, v: GoValue, n: nat)
    requires v.GoSlice? && Filling(m, m', v, n, |v.items|)
    ensures Outcome(m, m', Converted(|m.heap|), n) && Exact(m, m'.heap, v, |m.heap|, n)
  {
    hide Balanced, Ordered, Extends;
    OwnedIsAlive(m'.heap, m'.owned, |m.heap|);
    if Plain(v, Aims(m)) {
      assert ToTree(v, Aims(m)).items[..|v.items|] == ToTree(v, Aims(m)).items;
      ItemsComplete(m'.heap, |m.heap|, ToTree(v, Aims(m)).items, n);
    }
  }

  // ----- a map being converted -----

  /**
   * The new dictionary, the first object made since m, holds the first i entries, and the caller owns it and the
   * references in `extra`.
   */
  ghost predicate Mapping(m: Moment, m': Moment, v: GoValue, n: nat, i: nat, extra: multiset<Addr>)
    requires v.GoMap? && i <= |v.entries|
  {
    var d := |m.heap|;
    && Ready(m, n) && Valid(m') && SameHandles(m, m') && Continues(m.heap, m'.heap, n)
    && m'.owned == m.owned + multiset{d} + extra
    && d < |m'.heap| && m'.heap[d].payload.DictObject?
    && (Plain(v, Aims(m)) ==> HoldsEntries(m'.heap, d, Merged(Pairs(v, Aims(m))[..i], KeyOfTree), n))
  }

  /** p is a key or a value ready to be stored. */
  ghost predicate Prepared(m: Moment, h: Heap, v: GoValue, n: nat, p: Addr) {
    && p < |h| && Live(h[p]) && (p < n || |m.heap| < p)
    && (Plain(v, Aims(m)) ==> Represents(h, p, ToTree(v, Aims(m)), n, |m.heap| + 1))
    && (KeyAt(h, p) != Unhashable <==> HashableKey(v, m.slots, m.heap))
    && (v == GoFloat(NaN) ==> IsNoKey(h, |m.heap|, p))
  }

  lemma FailsLater(m: Moment, m': Moment, v: GoValue, n: nat, error: Error)
    requires Ready(m, n) && Continues(m.heap, m'.heap, n) && m'.slots == m.slots
    requires FailsAs(v, m'.slots, m'.heap, error)
    ensures FailsAs(v, m.slots, m.heap, error)
  {
    hide Balanced, Ordered, Extends, FailsAs;
    FailureCarriesOver(v, m.slots, m.heap, m.owned, m'.heap, n, error);
  }

  lemma ReadyLater(m: Moment, m': Moment, n: nat)
    requires Ready(m, n) && Valid(m') && Continues(m.heap, m'.heap, n) && m'.slots == m.slots
    ensures Ready(m', n)
  {
    hide Balanced, Ordered;
  }

  lemma MappingBegins(m: Moment, m': Moment, v: GoValue, n: nat)
    requires v.GoMap? && Ready(m, n) && Valid(m') && SameHandles(m, m') && Continues(m.heap, m'.heap, n)
    requires m'.owned == m.owned + multiset{|m.heap|}
    requires m'.heap == m.heap + [Cell(1, false, DictObject([]))]
    ensures Mapping(m, m', v, n, 0, multiset{})
  {
  }

  /** A part has been converted. */
  lemma MappingGoesOn(m: Moment, m1: Moment, m2: Moment, v: GoValue, n: nat, i: nat,
                                         extra: multiset<Addr>, p: Addr)
    requires v.GoMap? && i <= |v.entries| && Mapping(m, m1, v, n, i, extra)
    requires Outcome(m1, m2, Converted(p), n)
    ensures Mapping(m, m2, v, n, i, extra + multiset{p})
  {
    hide Balanced, Ordered;
    var d := |m.heap|;
    OwnedIsAlive(m1.heap, m1.owned, d);
    ExtendsTransitive(m.heap, m1.heap, m2.heap);
    assert m2.owned == m.owned + multiset{d} + (extra + multiset{p});
    if Plain(v, Aims(m)) {
      EntriesCarryOver(m1.heap, m2.heap, d, Merged(Pairs(v, Aims(m))[..i], KeyOfTree), n);
    }
  }

  lemma PartIsPrepared(m: Moment, m1: Moment, m2: Moment, v: GoValue, n: nat, p: Addr)
    requires Ready(m, n) && SameHandles(m, m1) && Continues(m.heap, m1.heap, n) && Valid(m1)
    requires |m.heap| < |m1.heap| && |m.heap| in m1.owned && m1.heap[|m.heap|].payload.DictObject?
    requires Outcome(m1, m2, Converted(p), n) && Exact(m1, m2.heap, v, p, n)
    ensures Prepared(m, m2.heap, v, n, p)
  {
    hide Balanced, Ordered, KeyAt, IsNoKey, Extends, HashableKey, Convertible, Plain, ToTree, Represents;
    SameAims(m, m1, n);
    NewIsNoKey(m1.heap, m1.owned, m2.heap, |m.heap|);
    if Plain(v, Aims(m)) {
      RepresentsFromLower(m2.heap, p, ToTree(v, Aims(m)), n, |m1.heap|, |m.heap| + 1);
    }
    ConvertibleCarriesOver(v, m.slots, m.heap, m.owned, m1.heap, n);
  }

  /** An object made after a dictionary's entries is no key of it. */
  lemma NewIsNoKey(h: Heap, owned: multiset<Addr>, h': Heap, d: Addr)
    requires Balanced(h, owned) && Extends(h, h') && d in owned && d < |h| && h[d].payload.DictObject?
    ensures forall p :: p >= |h| ==> IsNoKey(h', d, p)
  {
    OwnedIsAlive(h, owned, d);
    var entries := h[d].payload.entries;
    forall i | 0 <= i < |entries| ensures entries[i].key < |h| {
      EntryIsReferred(entries, i);
      ReferredIsLive(h, owned, entries[i].key, d);
    }
  }

  lemma PreparedLater(m: Moment, h: Heap, owned: multiset<Addr>, h': Heap, v: GoValue, n: nat, p: Addr)
    requires Prepared(m, h, v, n, p) && Balanced(h, owned) && Extends(h, h') && |m.heap| in owned
    ensures Prepared(m, h', v, n, p)
  {
    OwnedIsAlive(h, owned, |m.heap|);
    hide Balanced, KeyAt;
    KeyCarriesOver(h, owned, h', p);
    if Plain(v, Aims(m)) {
      RepresentsCarriesOver(h, h', p, ToTree(v, Aims(m)), n, |m.heap| + 1);
    }
  }

  /** The keys of an exact value are found by what they are. */
  lemma PlainEntry(m: Moment, h: Heap, v: GoValue, n: nat, i: nat)
    requires Ready(m, n) && Extends(m.heap, h) && v.GoMap? && i < |v.entries| && Plain(v, Aims(m))
    ensures Plain(v.entries[i].0, Aims(m)) && Plain(v.entries[i].1, Aims(m))
    ensures var es := Pairs(v, Aims(m));
            SoundKeys(h, Merged(es[..i], KeyOfTree), n) && IsSoundKey(h, es[i].0, n)
            && (es[i].0 == TFloat(NaN) ==> v.entries[i].0 == GoFloat(NaN))
  {
    hide Balanced, Ordered, Extends, KeyAt, IsSoundKey, KeyOfTree, ToTree;
    var es := Pairs(v, Aims(m));
    forall j | 0 <= j <= i
      ensures Plain(v.entries[j].0, Aims(m)) && Plain(v.entries[j].1, Aims(m)) && IsSoundKey(h, es[j].0, n)
      ensures es[j].0 == TFloat(NaN) ==> v.entries[j].0 == GoFloat(NaN)
    {
      PlainParts(v, Aims(m), j);
      PlainKeyIsSound(m, h, v.entries[j].0, n);
    }
    MergedKeeps(es[..i], KeyOfTree, k => IsSoundKey(h, k, n), (t: Tree) => true);
  }

  lemma PlainKeyIsSound(m: Moment, h: Heap, k: GoValue, n: nat)
    requires Ready(m, n) && Extends(m.heap, h) && PlainKey(k, Aims(m)) && HasTree(k, Aims(m))
    ensures IsSoundKey(h, ToTree(k, Aims(m)), n)
    ensures ToTree(k, Aims(m)) == TFloat(NaN) ==> k == GoFloat(NaN)
  {
    hide Balanced, Ordered, KeyAt;
    if k.GoHandle? {
      KeyCarriesOver(m.heap, m.owned, h, m.slots[k.id].addr);
    } else {
      KeyWithoutHandles(k, Aims(m));
    }
  }

  /** The entry has been stored. */
  lemma MappingStored(m: Moment, m1: Moment, m2: Moment, v: GoValue, n: nat, i: nat,
                                         extra: multiset<Addr>, k: Addr, e: Addr)
    requires v.GoMap? && i < |v.entries| && Mapping(m, m1, v, n, i, extra)
    requires Prepared(m, m1.heap, v.entries[i].0, n, k) && Prepared(m, m1.heap, v.entries[i].1, n, e)
    requires Valid(m2) && SameHandles(m1, m2) && Continues(m.heap, m2.heap, n) && m2.owned == m1.owned
    requires SurvivesExcept(m1.heap, m2.heap, |m.heap|)
    requires m2.heap[|m.heap|].payload == DictObject(WithEntry(m1.heap, m1.heap[|m.heap|].payload.entries, k, e))
    ensures Mapping(m, m2, v, n, i + 1, extra)
  {
    hide Balanced, Ordered, Represents, Extends, WithEntry, ToTree, Merged, IsSoundKey, KeyAt;
    var d := |m.heap|;
    if Plain(v, Aims(m)) {
      var es := Pairs(v, Aims(m));
      PlainEntry(m, m1.heap, v, n, i);
      EntryStored(m1.heap, m2.heap, m2.owned, d, Merged(es[..i], KeyOfTree), n, k, e, es[i].0, es[i].1);
      PutLast(es, KeyOfTree, i);
    }
  }

  /** A reference of the caller's has been dropped. */
  lemma MappingShrinks(m: Moment, m1: Moment, m2: Moment, v: GoValue, n: nat, i: nat,
                                          extra: multiset<Addr>, p: Addr)
    requires v.GoMap? && i <= |v.entries| && Mapping(m, m1, v, n, i, extra) && p in extra
    requires Valid(m2) && SameHandles(m1, m2) && Continues(m.heap, m2.heap, n)
    requires m2.owned == m1.owned - multiset{p} && Survives(m1.heap, m2.heap)
    ensures Mapping(m, m2, v, n, i, extra - multiset{p})
  {
    hide Balanced, Ordered, Represents, Extends;
    var d := |m.heap|;
    assert m2.owned == m.owned + multiset{d} + (extra - multiset{p});
    OwnedIsAlive(m2.heap, m2.owned, d);
    if Plain(v, Aims(m)) {
      EntriesSurvive(m1.heap, m2.heap, m2.owned, d, Merged(Pairs(v, Aims(m))[..i], KeyOfTree), n);
    }
  }

  lemma MappingEnds(m: Moment, m': Moment, v: GoValue, n: nat)
    requires v.GoMap? && Mapping(m, m', v, n, |v.entries|, multiset{})
    ensures Outcome(m, m', Converted(|m.heap|), n) && Exact(m, m'.heap, v, |m.heap|, n)
  {
    hide Balanced, Ordered, Extends, Represents, HoldsEntries, ToTree, Merged, PlainKeys, HasTree;
    OwnedIsAlive(m'.heap, m'.owned, |m.heap|);
    if Plain(v, Aims(m)) {
      MapIsMerged(v, Aims(m));
      assert Pairs(v, Aims(m))[..|v.entries|] == Pairs(v, Aims(m));
      EntriesComplete(m'.heap, |m.heap|, ToTree(v, Aims(m)).entries, n);
    }
  }

  // ----- balance of references -----

  /** The counts have risen by what the new structure at r holds, and all that is new belongs to it. */
  ghost predicate GrownByStructure(h: Heap, h': Heap, r: Addr) {
    && |h| <= |h'|
    && (forall q :: 0 <= q < |h| && Live(h[q]) && !h[q].immortal ==>
          h'[q].payload == h[q].payload && h'[q].rc == h[q].rc + (if q == r then 1 else 0) + EdgeCount(h'[|h|..], q))
    && (forall q :: |h| <= q < |h'| && Live(h'[q]) ==> Reaches(h', r, q))
  }

  /** A failure leaves the exception. */
  function KeptBy(m: Moment, m': Moment, error: Error): multiset<Addr> {
    if error.PythonError? && |m.origin| < |m'.origin| then multiset{m'.origin[|m.origin|]} else multiset{}
  }

  /** Whatever depth a conversion fails at, it leaves every count as it was, but for the exception. */
  lemma FailureLeavesNothing(m: Moment, m': Moment, error: Error)
    requires Valid(m) && Valid(m') && Continues(m.heap, m'.heap, |m.heap|) && Failure(m, m', error)
    ensures LeftBut(m.heap, m'.heap, KeptBy(m, m', error))
  {
    hide Balanced, Extends;
    assert m'.owned == m.owned + KeptBy(m, m', error);
    NothingLeaks(m.heap, m'.heap, m.owned, KeptBy(m, m', error));
  }

  lemma OrderedAfterReading(m: Moment, m': Moment, n: nat)
    requires Valid(m) && Valid(m') && LeftBut(m.heap, m'.heap, multiset{}) && Ordered(m.heap, n)
    ensures Ordered(m'.heap, n)
  {
  }

  lemma SuccessGrows(m: Moment, m': Moment, p: Addr)
    requires Valid(m) && Valid(m') && Continues(m.heap, m'.heap, |m.heap|) && m'.owned == m.owned + multiset{p}
    ensures GrownByStructure(m.heap, m'.heap, p)
  {
    var h, h' := m.heap, m'.heap;
    forall q | 0 <= q < |h| && Live(h[q]) && !h[q].immortal
      ensures h'[q].payload == h[q].payload && h'[q].rc == h[q].rc + (if q == p then 1 else 0) + EdgeCount(h'[|h|..], q)
    {
      CountsRiseByStructure(h, h', m.owned, p, q);
    }
    forall q | |h| <= q < |h'| && Live(h'[q]) ensures Reaches(h', p, q) {
      NewObjectsAreReached(h, h', m.owned, p, q);
    }
  }

  /** No key of a map is a byte slice: Go does not allow that, while bytes have a hash. */
  predicate AllowedKeys(v: GoValue) {
    match v
    case GoSlice(items) => forall i :: 0 <= i < |items| ==> AllowedKeys(items[i])
    case GoMap(_, entries) =>
      forall i :: 0 <= i < |entries| ==>
        !entries[i].0.GoBytes? && AllowedKeys(entries[i].0) && AllowedKeys(entries[i].1)
    case _ => true
  }

  /** Values have an exact structure exactly if Go allows their keys and they can be converted. */
  lemma {:induction false} PlainIffConvertible(v: GoValue, slots: seq<Ref>, h: Heap)
    ensures Plain(v, Targets(slots, h)) <==> Convertible(v, slots, h) && AllowedKeys(v)
    ensures Plain(v, Targets(slots, h)) ==>
              (PlainKey(v, Targets(slots, h)) <==> HashableKey(v, slots, h) && !v.GoBytes?)
    decreases v
  {
    hide KeyAt;
    var ts := Targets(slots, h);
    match v
    case GoSlice(items) =>
      forall i | 0 <= i < |items|
        ensures Plain(items[i], ts) <==> Convertible(items[i], slots, h) && AllowedKeys(items[i])
      {
        PlainIffConvertible(items[i], slots, h);
      }
    case GoMap(_, entries) =>
      forall i | 0 <= i < |entries|
        ensures HasTree(entries[i].0, ts) && HasTree(entries[i].1, ts) && PlainKey(entries[i].0, ts)
                && PlainKeys(entries[i].1, ts) <==>
                  && Convertible(entries[i].0, slots, h) && HashableKey(entries[i].0, slots, h)
                  && Convertible(entries[i].1, slots, h)
                  && !entries[i].0.GoBytes? && AllowedKeys(entries[i].0) && AllowedKeys(entries[i].1)
      {
        PlainIffConvertible(entries[i].0, slots, h);
        PlainIffConvertible(entries[i].1, slots, h);
      }
    case _ =>
  }
}
