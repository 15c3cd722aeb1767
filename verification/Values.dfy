/** Go values, the Python structures they are converted to, and what comes back. */
module Values {
  import opened PyHeap
  import opened Keys
  import opened Python
  import opened Merging

  const MAX_INT64 := 9_223_372_036_854_775_807
  const MIN_INT64 := -9_223_372_036_854_775_808
  const MAX_UINT64 := 18_446_744_073_709_551_615

  type Int64 = i: int | MIN_INT64 <= i <= MAX_INT64
  type Uint64 = u: int | 0 <= u <= MAX_UINT64

  /**
   * Go values by how they are converted. A string that is not valid UTF-8 has no text. The entries of a map are in
   * the order the iteration takes them.
   */
  datatype GoValue =
    | GoNil
    | GoNilPointer
    | GoHandle(id: nat)
    | GoBool(b: bool)
    | GoInt(i: Int64)
    | GoUint(u: Uint64)
    | GoBigInt(z: int)
    | GoNilBigInt
    | GoFloat(f: Float)
    | GoString(text: string)
    | GoInvalidString
    | GoBytes(bytes: seq<bv8>)
    | GoSlice(items: seq<GoValue>)
    | GoMap(stringKeys: bool, entries: seq<(GoValue, GoValue)>)
    | GoError
    | GoOther

  /**
   * Python structures. An object that is only referred to, as by a handle, is itself whatever its structure is; what
   * it is equal to as a key goes with it.
   */
  datatype Tree =
    | TNone
    | TBool(b: bool)
    | TInt(i: int)
    | TFloat(f: Float)
    | TStr(text: string)
    | TBytes(bytes: seq<bv8>)
    | TByteArray(bytes: seq<bv8>)
    | TSequence(kind: Kind, items: seq<Tree>)
    | TDict(entries: seq<(Tree, Tree)>)
    | TObject(addr: Addr, key: Key)

  /** What a structure is equal to as a key. A NaN is equal to no other, nor is what cannot be a key. */
  function KeyOfTree(t: Tree): Lookup<Key> {
    match t
    case TNone => Equal(NoneKey)
    case TBool(b) => Equal(NumberKey(if b then 1.0 else 0.0))
    case TInt(i) => Equal(NumberKey(i as real))
    case TFloat(Finite(r)) => Equal(NumberKey(r))
    case TFloat(NegativeZero) => Equal(NumberKey(0.0))
    case TFloat(Infinite(n)) => Equal(InfiniteKey(n))
    case TStr(s) => Equal(StrKey(s))
    case TBytes(b) => Equal(BytesKey(b))
    case TObject(_, key) => Equal(key)
    case _ => Alone
  }

  /** What a handle refers to: nothing any more, or an object, which is equal to something as a key. */
  datatype Target = Gone | Known(addr: Addr, key: Key)

  function Targets(slots: seq<Ref>, h: Heap): (ts: seq<Target>)
    ensures |ts| == |slots|
    ensures forall i :: 0 <= i < |ts| ==>
              ts[i] == if slots[i].Null? then Gone else Known(slots[i].addr, KeyAt(h, slots[i].addr))
  {
    seq(|slots|, i requires 0 <= i < |slots| =>
        if slots[i].Null? then Gone else Known(slots[i].addr, KeyAt(h, slots[i].addr)))
  }

  /**
   * The values with a Python structure of their own: no errors, invalid strings, released handles or unsupported
   * kinds.
   */
  predicate HasTree(v: GoValue, targets: seq<Target>) {
    match v
    case GoHandle(id) => id < |targets| && targets[id].Known?
    case GoNilBigInt => false
    case GoInvalidString => false
    case GoError => false
    case GoOther => false
    case GoSlice(items) => forall i :: 0 <= i < |items| ==> HasTree(items[i], targets)
    case GoMap(_, entries) =>
      forall i :: 0 <= i < |entries| ==> HasTree(entries[i].0, targets) && HasTree(entries[i].1, targets)
    case _ => true
  }

  /** The structure of a value. Entries of a map whose keys are equal for Python become one. */
  function ToTree(v: GoValue, targets: seq<Target>): Tree {
    match v
    case GoHandle(id) =>
      if id < |targets| && targets[id].Known? then TObject(targets[id].addr, targets[id].key) else TNone
    case GoBool(b) => TBool(b)
    case GoInt(i) => TInt(i)
    case GoUint(u) => TInt(u)
    case GoBigInt(z) => TInt(z)
    case GoFloat(f) => TFloat(f)
    case GoString(s) => TStr(s)
    case GoBytes(b) => TBytes(b)
    case GoSlice(items) =>
      TSequence(ListKind, seq(|items|, i requires 0 <= i < |items| => ToTree(items[i], targets)))
    case GoMap(_, entries) => TDict(Merged(seq(|entries|, i requires 0 <= i < |entries| =>
        (ToTree(entries[i].0, targets), ToTree(entries[i].1, targets))), KeyOfTree))
    case _ => TNone
  }

  /** The entries of a map before equal keys are merged. */
  function Pairs(v: GoValue, targets: seq<Target>): (es: seq<(Tree, Tree)>)
    requires v.GoMap?
    ensures |es| == |v.entries|
    ensures forall i :: 0 <= i < |es| ==> es[i] == (ToTree(v.entries[i].0, targets), ToTree(v.entries[i].1, targets))
  {
    seq(|v.entries|, i requires 0 <= i < |v.entries| =>
        (ToTree(v.entries[i].0, targets), ToTree(v.entries[i].1, targets)))
  }

  lemma MapIsMerged(v: GoValue, targets: seq<Target>)
    requires v.GoMap?
    ensures ToTree(v, targets) == TDict(Merged(Pairs(v, targets), KeyOfTree))
  {
    assert Pairs(v, targets) == seq(|v.entries|, i requires 0 <= i < |v.entries| =>
        (ToTree(v.entries[i].0, targets), ToTree(v.entries[i].1, targets)));
  }

  /** A key that can be a key of a Go map again: not a list, tuple, set, dictionary, bytes or bytearray. */
  predicate KeyTree(t: Tree) {
    match t
    case TBytes(_) => false
    case TByteArray(_) => false
    case TSequence(_, _) => false
    case TDict(_) => false
    case _ => true
  }

  /** A key of a Go map: a handle to an object with a hash, or a value Go allows. */
  predicate PlainKey(k: GoValue, targets: seq<Target>) {
    if k.GoHandle? then k.id < |targets| && targets[k.id].Known? && targets[k.id].key != Unhashable
    else KeyTree(ToTree(k, []))
  }

  predicate PlainKeys(v: GoValue, targets: seq<Target>) {
    match v
    case GoSlice(items) => forall i :: 0 <= i < |items| ==> PlainKeys(items[i], targets)
    case GoMap(_, entries) =>
      forall i :: 0 <= i < |entries| ==> PlainKey(entries[i].0, targets) && PlainKeys(entries[i].1, targets)
    case _ => true
  }

  /** The values whose Python structure is exact: all that Go allows and that can be converted. */
  predicate Plain(v: GoValue, targets: seq<Target>) {
    HasTree(v, targets) && PlainKeys(v, targets)
  }

  /** An object without a Go value of its own: it is read as a handle. */
  predicate IsOther(p: Payload) {
    p.OpaqueObject? || p.ExceptionObject?
  }

  /** Structures that can be read: what they only refer to is read as a handle, and no two keys are equal. */
  predicate Legible(h: Heap, t: Tree) {
    match t
    case TSequence(_, ts) => forall i :: 0 <= i < |ts| ==> Legible(h, ts[i])
    case TDict(es) =>
      && (forall i :: 0 <= i < |es| ==> CanBeKey(es[i].0) && Legible(h, es[i].0) && Legible(h, es[i].1))
      && (forall i, j :: 0 <= i < j < |es| ==> !Same(KeyOfTree(es[i].0), KeyOfTree(es[j].0)))
    case TObject(a, key) => a < |h| && IsOther(h[a].payload) && KeyAt(h, a) == key
    case _ => true
  }

  predicate CanBeKey(t: Tree) {
    KeyTree(t) && KeyOfTree(t) != Equal(Unhashable)
  }

  /** A plain key has a structure of its own. */
  lemma KeyWithoutHandles(k: GoValue, targets: seq<Target>)
    requires PlainKey(k, targets) && !k.GoHandle?
    ensures ToTree(k, targets) == ToTree(k, []) && !ToTree(k, []).TObject?
  {
  }

  /** Values without handles have their structure wherever handles point. */
  lemma {:induction false} TreeWithoutHandles(v: GoValue, targets: seq<Target>)
    requires HasTree(v, [])
    ensures HasTree(v, targets) && ToTree(v, targets) == ToTree(v, [])
    decreases v
  {
    match v
    case GoSlice(items) =>
      forall i | 0 <= i < |items|
        ensures HasTree(items[i], targets) && ToTree(items[i], targets) == ToTree(items[i], [])
      {
        TreeWithoutHandles(items[i], targets);
      }
    case GoMap(_, entries) =>
      forall i | 0 <= i < |entries|
        ensures HasTree(entries[i].0, targets) && ToTree(entries[i].0, targets) == ToTree(entries[i].0, [])
        ensures HasTree(entries[i].1, targets) && ToTree(entries[i].1, targets) == ToTree(entries[i].1, [])
      {
        TreeWithoutHandles(entries[i].0, targets);
        TreeWithoutHandles(entries[i].1, targets);
      }
      MapIsMerged(v, targets);
      MapIsMerged(v, []);
      assert Pairs(v, targets) == Pairs(v, []);
    case _ =>
  }

  /** Values without handles are exact wherever handles point. */
  lemma {:induction false} PlainWithoutHandles(v: GoValue, targets: seq<Target>)
    requires Plain(v, [])
    ensures Plain(v, targets) && ToTree(v, targets) == ToTree(v, [])
    decreases v
  {
    TreeWithoutHandles(v, targets);
    match v
    case GoSlice(items) =>
      forall i | 0 <= i < |items| ensures PlainKeys(items[i], targets) {
        PlainWithoutHandles(items[i], targets);
      }
    case GoMap(_, entries) =>
      forall i | 0 <= i < |entries| ensures PlainKey(entries[i].0, targets) && PlainKeys(entries[i].1, targets) {
        assert PlainKey(entries[i].0, []);
        PlainWithoutHandles(entries[i].1, targets);
      }
    case _ =>
  }

  /** The structure of a plain value without handles can be read in any heap, and refers to no other object. */
  lemma {:induction false} PlainIsLegible(v: GoValue, h: Heap)
    requires Plain(v, [])
    ensures Legible(h, ToTree(v, [])) && Whole(ToTree(v, []))
    decreases v
  {
    match v
    case GoSlice(items) =>
      forall i | 0 <= i < |items| ensures Legible(h, ToTree(items[i], [])) && Whole(ToTree(items[i], [])) {
        PlainIsLegible(items[i], h);
      }
    case GoMap(_, entries) =>
      var es := Pairs(v, []);
      forall i | 0 <= i < |es|
        ensures LegibleKey(h, es[i].0) && Legible(h, es[i].1) && Whole(es[i].1)
      {
        assert PlainKey(entries[i].0, []);
        KeyWithoutHandles(entries[i].0, []);
        PlainIsLegible(entries[i].1, h);
      }
      MapIsMerged(v, []);
      MergedKeeps(es, KeyOfTree, k => LegibleKey(h, k), t => Legible(h, t) && Whole(t));
      MergedIsDistinct(es, KeyOfTree);
      DictIsLegible(h, Merged(es, KeyOfTree));
    case _ =>
  }

  predicate LegibleKey(h: Heap, k: Tree) {
    CanBeKey(k) && Legible(h, k) && Whole(k)
  }

  lemma DictIsLegible(h: Heap, es: seq<(Tree, Tree)>)
    requires forall i :: 0 <= i < |es| ==> LegibleKey(h, es[i].0) && Legible(h, es[i].1) && Whole(es[i].1)
    requires DistinctBy(es, KeyOfTree)
    ensures Legible(h, TDict(es)) && Whole(TDict(es))
  {
  }

  /** No object is the key of two entries. */
  predicate KeysApart(entries: seq<Entry>) {
    forall i, j :: 0 <= i < j < |entries| ==> entries[i].key != entries[j].key
  }

  /** The object at p has the structure t, in objects below n or from lo on. */
  predicate Represents(h: Heap, p: Addr, t: Tree, n: nat, lo: nat)
    decreases t
  {
    && p < |h| && Live(h[p]) && (p < n || lo <= p)
    && match t
       case TNone => h[p].payload == NoneObject
       case TBool(b) => h[p].payload == BoolObject(b)
       case TInt(i) => h[p].payload == IntObject(i)
       case TFloat(f) => h[p].payload == FloatObject(f)
       case TStr(s) => h[p].payload == StrObject(s)
       case TBytes(b) => h[p].payload == BytesObject(b)
       case TObject(a, _) => p == a
       case TByteArray(b) => h[p].payload == ByteArrayObject(b)
       case TSequence(kind, ts) =>
         && h[p].payload.SequenceObject? && h[p].payload.kind == kind && |h[p].payload.items| == |ts|
         && forall i :: 0 <= i < |ts| ==>
              h[p].payload.items[i].Item? && Represents(h, h[p].payload.items[i].addr, ts[i], n, lo)
       case TDict(es) =>
         && h[p].payload.DictObject? && |h[p].payload.entries| == |es| && KeysApart(h[p].payload.entries)
         && forall i :: 0 <= i < |es| ==>
              && Represents(h, h[p].payload.entries[i].key, es[i].0, n, lo)
              && Represents(h, h[p].payload.entries[i].value, es[i].1, n, lo)
  }

  /** A structure stays while its objects stay what they are. */
  lemma {:induction false} RepresentsCarriesOver(h: Heap, h': Heap, p: Addr, t: Tree, n: nat, lo: nat)
    requires Represents(h, p, t, n, lo) && |h| <= |h'|
    requires forall q :: 0 <= q < |h| && (q < n || lo <= q) && Live(h[q]) ==>
               Live(h'[q]) && h'[q].payload == h[q].payload
    ensures Represents(h', p, t, n, lo)
    decreases t
  {
    match t
    case TSequence(_, ts) =>
      forall i | 0 <= i < |ts| ensures Represents(h', h[p].payload.items[i].addr, ts[i], n, lo) {
        RepresentsCarriesOver(h, h', h[p].payload.items[i].addr, ts[i], n, lo);
      }
    case TDict(es) =>
      forall i | 0 <= i < |es|
        ensures Represents(h', h[p].payload.entries[i].key, es[i].0, n, lo)
        ensures Represents(h', h[p].payload.entries[i].value, es[i].1, n, lo)
      {
        RepresentsCarriesOver(h, h', h[p].payload.entries[i].key, es[i].0, n, lo);
        RepresentsCarriesOver(h, h', h[p].payload.entries[i].value, es[i].1, n, lo);
      }
    case _ =>
  }

  /** A structure stays while its root lives, whatever else is dropped. */
  lemma {:induction false} RepresentsSurvives(h: Heap, h': Heap, owned: multiset<Addr>, p: Addr, t: Tree, n: nat,
                                              lo: nat)
    requires Represents(h, p, t, n, lo) && Balanced(h', owned) && |h| <= |h'| && Live(h'[p])
    requires forall q :: 0 <= q < |h| && (q < n || lo <= q) && Live(h'[q]) ==> h'[q].payload == h[q].payload
    ensures Represents(h', p, t, n, lo)
    decreases t
  {
    match t
    case TSequence(_, ts) =>
      forall i | 0 <= i < |ts| ensures Represents(h', h[p].payload.items[i].addr, ts[i], n, lo) {
        ItemIsReferred(h[p].payload.items, i);
        ReferredIsLive(h', owned, h[p].payload.items[i].addr, p);
        RepresentsSurvives(h, h', owned, h[p].payload.items[i].addr, ts[i], n, lo);
      }
    case TDict(es) =>
      forall i | 0 <= i < |es|
        ensures Represents(h', h[p].payload.entries[i].key, es[i].0, n, lo)
        ensures Represents(h', h[p].payload.entries[i].value, es[i].1, n, lo)
      {
        EntryIsReferred(h[p].payload.entries, i);
        ReferredIsLive(h', owned, h[p].payload.entries[i].key, p);
        ReferredIsLive(h', owned, h[p].payload.entries[i].value, p);
        RepresentsSurvives(h, h', owned, h[p].payload.entries[i].key, es[i].0, n, lo);
        RepresentsSurvives(h, h', owned, h[p].payload.entries[i].value, es[i].1, n, lo);
      }
    case _ =>
  }

  lemma {:induction false} RepresentsFromLower(h: Heap, p: Addr, t: Tree, n: nat, lo: nat, lo': nat)
    requires Represents(h, p, t, n, lo) && lo' <= lo
    ensures Represents(h, p, t, n, lo')
    decreases t
  {
    match t
    case TSequence(_, ts) =>
      forall i | 0 <= i < |ts| ensures Represents(h, h[p].payload.items[i].addr, ts[i], n, lo') {
        RepresentsFromLower(h, h[p].payload.items[i].addr, ts[i], n, lo, lo');
      }
    case TDict(es) =>
      forall i | 0 <= i < |es|
        ensures Represents(h, h[p].payload.entries[i].key, es[i].0, n, lo')
        ensures Represents(h, h[p].payload.entries[i].value, es[i].1, n, lo')
      {
        RepresentsFromLower(h, h[p].payload.entries[i].key, es[i].0, n, lo, lo');
        RepresentsFromLower(h, h[p].payload.entries[i].value, es[i].1, n, lo, lo');
      }
    case _ =>
  }

  /** Without a bound on where its objects are. */
  lemma {:induction false} RepresentsAnywhere(h: Heap, p: Addr, t: Tree, n: nat, lo: nat, n': nat)
    requires Represents(h, p, t, n, lo)
    ensures Represents(h, p, t, n', 0)
    decreases t
  {
    match t
    case TSequence(_, ts) =>
      forall i | 0 <= i < |ts| ensures Represents(h, h[p].payload.items[i].addr, ts[i], n', 0) {
        RepresentsAnywhere(h, h[p].payload.items[i].addr, ts[i], n, lo, n');
      }
    case TDict(es) =>
      forall i | 0 <= i < |es|
        ensures Represents(h, h[p].payload.entries[i].key, es[i].0, n', 0)
        ensures Represents(h, h[p].payload.entries[i].value, es[i].1, n', 0)
      {
        RepresentsAnywhere(h, h[p].payload.entries[i].key, es[i].0, n, lo, n');
        RepresentsAnywhere(h, h[p].payload.entries[i].value, es[i].1, n, lo, n');
      }
    case _ =>
  }

  /** A key that is a value is found by that, and a NaN by the object it is. */
  lemma KeyOfRepresented(h: Heap, p: Addr, t: Tree, n: nat, lo: nat)
    requires Represents(h, p, t, n, lo) && !t.TObject? && (KeyOfTree(t).Equal? || t == TFloat(NaN))
    ensures KeyAt(h, p) == if KeyOfTree(t).Equal? then KeyOfTree(t).q else ObjectKey(p)
  {
  }

  // ----- back to Go -----

  predicate AllStr(es: seq<(Tree, Tree)>) {
    forall i :: 0 <= i < |es| ==> es[i].0.TStr?
  }

  predicate AllStrings(entries: seq<(GoValue, GoValue)>) {
    forall i :: 0 <= i < |entries| ==> entries[i].0.GoString?
  }

  /** The other objects a structure refers to, in the order they are read. */
  function Objects(t: Tree): seq<Addr>
    decreases t, 2
  {
    match t
    case TObject(a, _) => [a]
    case TSequence(_, ts) => ItemObjects(t, |ts|)
    case TDict(es) => EntryObjects(t, |es|)
    case _ => []
  }

  function ItemObjects(t: Tree, n: nat): seq<Addr>
    requires t.TSequence? && n <= |t.items|
    decreases t, 1, n
  {
    if n == 0 then [] else ItemObjects(t, n - 1) + Objects(t.items[n - 1])
  }

  function EntryObjects(t: Tree, n: nat): seq<Addr>
    requires t.TDict? && n <= |t.entries|
    decreases t, 1, n
  {
    if n == 0 then [] else EntryObjects(t, n - 1) + Objects(t.entries[n - 1].0) + Objects(t.entries[n - 1].1)
  }

  /** The Go value of a Python structure; the handles to other objects are numbered from c on. */
  function FromTree(t: Tree, c: nat): GoValue
    decreases t, 2
  {
    match t
    case TNone => GoNil
    case TBool(b) => GoBool(b)
    case TInt(i) => if MIN_INT64 <= i <= MAX_INT64 then GoInt(i) else GoBigInt(i)
    case TFloat(f) => GoFloat(f)
    case TStr(s) => GoString(s)
    case TBytes(b) => GoBytes(b)
    case TByteArray(b) => GoBytes(b)
    case TObject(_, _) => GoHandle(c)
    case TSequence(_, ts) => GoSlice(FromItems(t, |ts|, c))
    case TDict(es) => GoMap(AllStr(es), FromEntries(t, |es|, c))
  }

  function FromItems(t: Tree, n: nat, c: nat): (s: seq<GoValue>)
    requires t.TSequence? && n <= |t.items|
    ensures |s| == n
    decreases t, 1, n
  {
    if n == 0 then []
    else FromItems(t, n - 1, c) + [FromTree(t.items[n - 1], c + |ItemObjects(t, n - 1)|)]
  }

  function FromEntries(t: Tree, n: nat, c: nat): (s: seq<(GoValue, GoValue)>)
    requires t.TDict? && n <= |t.entries|
    ensures |s| == n
    decreases t, 1, n
  {
    if n == 0 then [] else FromEntries(t, n - 1, c) + [FromEntry(t, n - 1, c)]
  }

  function FromEntry(t: Tree, i: nat, c: nat): (GoValue, GoValue)
    requires t.TDict? && i < |t.entries|
    decreases t, 0, i
  {
    var (k, v) := t.entries[i];
    var d := c + |EntryObjects(t, i)|;
    (FromTree(k, d), FromTree(v, d + |Objects(k)|))
  }

  /** Equality of Go map keys. Big integers are pointers, and no two conversions give the same one. */
  predicate SameGoKey(a: GoValue, b: GoValue) {
    match a
    case GoBigInt(_) => false
    case GoFloat(f) => b.GoFloat? && SameFloat(f, b.f)
    case _ => a == b
  }

  predicate SameFloat(f: Float, g: Float) {
    if IsZero(f) then IsZero(g) else f == g && !f.NaN?
  }

  predicate IsZero(f: Float) {
    f == NegativeZero || f == Finite(0.0)
  }

  function FindGoKey(entries: seq<(GoValue, GoValue)>, k: GoValue): (i: nat)
    ensures i <= |entries|
    ensures i < |entries| ==> SameGoKey(entries[i].0, k)
    ensures forall j :: 0 <= j < i ==> !SameGoKey(entries[j].0, k)
  {
    if entries == [] || SameGoKey(entries[0].0, k) then 0 else 1 + FindGoKey(entries[1..], k)
  }

  /** A Go map after an assignment. */
  function Assigned(entries: seq<(GoValue, GoValue)>, k: GoValue, v: GoValue): seq<(GoValue, GoValue)> {
    var i := FindGoKey(entries, k);
    if i == |entries| then entries + [(k, v)] else entries[i := (entries[i].0, v)]
  }

  /** Equality of Go keys is an equivalence, except that a NaN and a big integer are not equal to themselves. */
  lemma GoKeysAreEquivalent(a: GoValue, b: GoValue, c: GoValue)
    ensures SameGoKey(a, a) <==> !a.GoBigInt? && a != GoFloat(NaN)
    ensures SameGoKey(a, b) ==> SameGoKey(b, a)
    ensures SameGoKey(a, b) && SameGoKey(b, c) ==> SameGoKey(a, c)
  {
  }

  /** Does the key lead to the value? */
  predicate GoLeads(entries: seq<(GoValue, GoValue)>, k: GoValue, v: GoValue) {
    var i := FindGoKey(entries, k);
    i < |entries| && entries[i].1 == v
  }

  /** After an assignment a key that is equal to itself leads to the value. */
  lemma AssignedLeads(entries: seq<(GoValue, GoValue)>, k: GoValue, v: GoValue)
    requires SameGoKey(k, k)
    ensures GoLeads(Assigned(entries, k, v), k, v)
  {
    hide SameGoKey;
    var next, i := Assigned(entries, k, v), FindGoKey(entries, k);
    forall j | 0 <= j < i ensures !SameGoKey(next[j].0, k) {
      assert next[j].0 == entries[j].0;
    }
    FirstGoKey(next, k, i);
  }

  /** All other keys lead where they led. */
  lemma OthersLead(entries: seq<(GoValue, GoValue)>, k: GoValue, v: GoValue, k': GoValue, w: GoValue)
    requires !SameGoKey(k, k')
    ensures GoLeads(Assigned(entries, k, v), k', w) <==> GoLeads(entries, k', w)
  {
    var i, a := FindGoKey(entries, k), FindGoKey(entries, k');
    if a == i < |entries| {
      GoKeysAreEquivalent(entries[i].0, k, k);
      GoKeysAreEquivalent(k, entries[i].0, k');
      assert false;
    } else {
      OtherIsFound(entries, k, v, k');
    }
    hide SameGoKey, FindGoKey;
  }

  lemma OtherIsFound(entries: seq<(GoValue, GoValue)>, k: GoValue, v: GoValue, k': GoValue)
    requires !SameGoKey(k, k')
    ensures var a := FindGoKey(entries, k');
            FindGoKey(Assigned(entries, k, v), k') == if a < |entries| then a else |Assigned(entries, k, v)|
  {
    hide SameGoKey;
    var i, a := FindGoKey(entries, k), FindGoKey(entries, k');
    var next := if i == |entries| then entries + [(k, v)] else entries[i := (entries[i].0, v)];
    assert next == Assigned(entries, k, v);
    if a < |entries| {
      FirstGoKey(next, k', a);
    } else {
      NoGoKey(next, k');
    }
  }

  lemma {:induction false} FirstGoKey(entries: seq<(GoValue, GoValue)>, k: GoValue, i: nat)
    requires i < |entries| && SameGoKey(entries[i].0, k)
    requires forall j :: 0 <= j < i ==> !SameGoKey(entries[j].0, k)
    ensures FindGoKey(entries, k) == i
  {
    hide SameGoKey;
    if i > 0 {
      FirstGoKey(entries[1..], k, i - 1);
    }
  }

  lemma NoGoKey(entries: seq<(GoValue, GoValue)>, k: GoValue)
    requires forall j :: 0 <= j < |entries| ==> !SameGoKey(entries[j].0, k)
    ensures FindGoKey(entries, k) == |entries|
  {
    hide SameGoKey;
  }

  /** Keys that Python tells apart, Go tells apart; each other object has a handle of its own. */
  lemma KeysStayDistinct(a: Tree, c: nat, b: Tree, d: nat)
    requires KeyTree(a) && KeyTree(b) && !Same(KeyOfTree(a), KeyOfTree(b))
    requires a.TObject? && b.TObject? ==> c != d
    ensures !SameGoKey(FromTree(a, c), FromTree(b, d))
  {
  }

  lemma {:induction false} ObjectsGrow(t: Tree, i: nat, j: nat)
    requires t.TDict? && i < j <= |t.entries|
    ensures |EntryObjects(t, i)| + |Objects(t.entries[i].0)| <= |EntryObjects(t, j)|
  {
    if i + 1 < j {
      ObjectsGrow(t, i, j - 1);
    }
  }

  /** The objects of the parts read so far come first among those of the whole. */
  lemma {:induction false} ItemObjectsFirst(t: Tree, i: nat, n: nat)
    requires t.TSequence? && i < n <= |t.items|
    ensures ItemObjects(t, i) + Objects(t.items[i]) <= ItemObjects(t, n)
    ensures Objects(t) == ItemObjects(t, |t.items|)
  {
    if i + 1 < n {
      ItemObjectsFirst(t, i, n - 1);
    }
  }

  lemma {:induction false} EntryObjectsFirst(t: Tree, i: nat, n: nat)
    requires t.TDict? && i < n <= |t.entries|
    ensures EntryObjects(t, i) + Objects(t.entries[i].0) <= EntryObjects(t, n)
    ensures EntryObjects(t, i) + Objects(t.entries[i].0) + Objects(t.entries[i].1) <= EntryObjects(t, n)
    ensures Objects(t) == EntryObjects(t, |t.entries|)
  {
    if i + 1 < n {
      EntryObjectsFirst(t, i, n - 1);
    }
  }

  lemma {:induction false} ItemOf(t: Tree, n: nat, c: nat, i: nat)
    requires t.TSequence? && i < n <= |t.items|
    ensures FromItems(t, n, c)[i] == FromTree(t.items[i], c + |ItemObjects(t, i)|)
  {
    if i < n - 1 {
      ItemOf(t, n - 1, c, i);
    }
  }

  lemma {:induction false} EntryOf(t: Tree, n: nat, c: nat, i: nat)
    requires t.TDict? && i < n <= |t.entries|
    ensures FromEntries(t, n, c)[i] == FromEntry(t, i, c)
  {
    if i < n - 1 {
      EntryOf(t, n - 1, c, i);
    }
  }

  /** Assigning the entries of a dictionary one after the other loses none. */
  lemma NoEntryIsLost(h: Heap, t: Tree, i: nat, c: nat)
    requires t.TDict? && Legible(h, t) && i < |t.entries|
    ensures var e := FromEntry(t, i, c);
            Assigned(FromEntries(t, i, c), e.0, e.1) == FromEntries(t, i + 1, c)
  {
    var es, k := t.entries, FromEntry(t, i, c).0;
    var j := FindGoKey(FromEntries(t, i, c), k);
    if j < i {
      EntryOf(t, i, c, j);
      ObjectsGrow(t, j, i);
      assert KeyTree(es[j].0) && KeyTree(es[i].0);
      KeysStayDistinct(es[j].0, c + |EntryObjects(t, j)|, es[i].0, c + |EntryObjects(t, i)|);
    }
  }

  // ----- structures of their own -----

  /** No part is only referred to. */
  predicate Whole(t: Tree) {
    match t
    case TSequence(_, ts) => forall i :: 0 <= i < |ts| ==> Whole(ts[i])
    case TDict(es) => forall i :: 0 <= i < |es| ==> Whole(es[i].0) && Whole(es[i].1)
    case TObject(_, _) => false
    case _ => true
  }

  /** The value of a structure that needs no handles. */
  function WholeValue(t: Tree): GoValue {
    FromTree(t, 0)
  }

  lemma {:induction false} WholeIsRead(t: Tree, c: nat)
    requires Whole(t)
    ensures Objects(t) == [] && FromTree(t, c) == WholeValue(t)
    decreases t, 2
  {
    match t
    case TSequence(_, ts) =>
      ItemsAreRead(t, |ts|, c);
      ItemsAreRead(t, |ts|, 0);
    case TDict(es) =>
      EntriesAreRead(t, |es|, c);
      EntriesAreRead(t, |es|, 0);
    case _ =>
  }

  lemma {:induction false} ItemsAreRead(t: Tree, n: nat, c: nat)
    requires Whole(t) && t.TSequence? && n <= |t.items|
    ensures ItemObjects(t, n) == [] && forall i :: 0 <= i < n ==> FromItems(t, n, c)[i] == WholeValue(t.items[i])
    decreases t, 1, n
  {
    if n > 0 {
      ItemsAreRead(t, n - 1, c);
      WholeIsRead(t.items[n - 1], c);
    }
  }

  lemma {:induction false} EntriesAreRead(t: Tree, n: nat, c: nat)
    requires Whole(t) && t.TDict? && n <= |t.entries|
    ensures EntryObjects(t, n) == [] && FromEntries(t, n, c) == Mapped(t.entries[..n], WholeValue, WholeValue)
    decreases t, 1, n
  {
    if n > 0 {
      EntriesAreRead(t, n - 1, c);
      WholeIsRead(t.entries[n - 1].0, c);
      WholeIsRead(t.entries[n - 1].1, c);
      assert t.entries[..n] == t.entries[..n - 1] + [t.entries[n - 1]];
    }
  }

  // ----- the round trip -----

  /** What a Go value is equal to as a key, for Python. */
  function KeyOfValue(v: GoValue): Lookup<Key> {
    match v
    case GoNil => Equal(NoneKey)
    case GoNilPointer => Equal(NoneKey)
    case GoBool(b) => Equal(NumberKey(if b then 1.0 else 0.0))
    case GoInt(i) => Equal(NumberKey(i as real))
    case GoUint(u) => Equal(NumberKey(u as real))
    case GoBigInt(z) => Equal(NumberKey(z as real))
    case GoFloat(Finite(r)) => Equal(NumberKey(r))
    case GoFloat(NegativeZero) => Equal(NumberKey(0.0))
    case GoFloat(Infinite(n)) => Equal(InfiniteKey(n))
    case GoString(s) => Equal(StrKey(s))
    case GoBytes(b) => Equal(BytesKey(b))
    case _ => Alone
  }

  /**
   * What a value becomes when it has been through Python: one integer type, one slice type, one or two map types, and
   * one entry for keys that are equal for Python, with the first key and the last value.
   */
  function NormalForm(v: GoValue): GoValue {
    match v
    case GoNilPointer => GoNil
    case GoUint(u) => if u <= MAX_INT64 then GoInt(u) else GoBigInt(u)
    case GoBigInt(z) => if MIN_INT64 <= z <= MAX_INT64 then GoInt(z) else GoBigInt(z)
    case GoSlice(items) => GoSlice(seq(|items|, i requires 0 <= i < |items| => NormalForm(items[i])))
    case GoMap(_, entries) =>
      GoMap(AllStrings(entries), Merged(seq(|entries|, i requires 0 <= i < |entries| =>
          (NormalForm(entries[i].0), NormalForm(entries[i].1))), KeyOfValue))
    case _ => v
  }

  lemma WholeKey(t: Tree)
    requires Whole(t) && !t.TByteArray?
    ensures KeyOfValue(WholeValue(t)) == KeyOfTree(t)
  {
  }

  /** All keys are strings before merging exactly if they are afterwards. */
  lemma StringsStayStrings(es: seq<(Tree, Tree)>)
    requires forall i :: 0 <= i < |es| ==> !es[i].0.TObject?
    ensures AllStr(Merged(es, KeyOfTree)) <==> AllStr(es)
  {
    hide KeyOfTree, Merged;
    if AllStr(es) {
      MergedKeeps(es, KeyOfTree, (k: Tree) => k.TStr?, (v: Tree) => true);
    }
    if AllStr(Merged(es, KeyOfTree)) {
      forall i | 0 <= i < |es| ensures es[i].0.TStr? {
        var j := MergedHasKey(es, KeyOfTree, i);
        StrIsStr(Merged(es, KeyOfTree)[j].0, es[i].0);
      }
    }
  }

  /** Only a str has the key of a str, other objects apart. */
  lemma StrIsStr(a: Tree, b: Tree)
    ensures a.TStr? && KeyOfTree(a) == KeyOfTree(b) && !b.TObject? ==> b.TStr?
  {
  }

  /** Converting to a Python structure and back gives the normal form. */
  lemma {:induction false} RoundTrip(v: GoValue)
    requires HasTree(v, [])
    ensures Whole(ToTree(v, [])) && WholeValue(ToTree(v, [])) == NormalForm(v)
    ensures ToTree(v, []).TStr? <==> v.GoString?
    decreases v
  {
    match v
    case GoSlice(items) =>
      forall i | 0 <= i < |items|
        ensures Whole(ToTree(items[i], [])) && WholeValue(ToTree(items[i], [])) == NormalForm(items[i])
      {
        RoundTrip(items[i]);
      }
      ItemsAreRead(ToTree(v, []), |items|, 0);
      assert WholeValue(ToTree(v, [])).items == NormalForm(v).items;
    case GoMap(_, entries) =>
      forall i | 0 <= i < |entries|
        ensures Whole(ToTree(entries[i].0, [])) && WholeValue(ToTree(entries[i].0, [])) == NormalForm(entries[i].0)
        ensures Whole(ToTree(entries[i].1, [])) && WholeValue(ToTree(entries[i].1, [])) == NormalForm(entries[i].1)
        ensures ToTree(entries[i].0, []).TStr? <==> entries[i].0.GoString?
      {
        RoundTrip(entries[i].0);
        RoundTrip(entries[i].1);
      }
      MapRoundTrip(v);
    case _ =>
  }

  /** The keys and the values of the map come back in their normal forms. */
  predicate PartsRoundTrip(v: GoValue)
    requires v.GoMap?
  {
    forall i :: 0 <= i < |v.entries| ==>
      && Whole(ToTree(v.entries[i].0, [])) && WholeValue(ToTree(v.entries[i].0, [])) == NormalForm(v.entries[i].0)
      && Whole(ToTree(v.entries[i].1, [])) && WholeValue(ToTree(v.entries[i].1, [])) == NormalForm(v.entries[i].1)
      && (ToTree(v.entries[i].0, []).TStr? <==> v.entries[i].0.GoString?)
  }

  lemma MapIsWhole(v: GoValue)
    requires v.GoMap? && PartsRoundTrip(v)
    ensures Whole(ToTree(v, []))
  {
    MapIsMerged(v, []);
    MergedKeeps(Pairs(v, []), KeyOfTree, k => Whole(k), w => Whole(w));
  }

  lemma MapEntriesComeBack(v: GoValue)
    requires v.GoMap? && PartsRoundTrip(v) && Whole(ToTree(v, []))
    ensures var t := ToTree(v, []);
            t.TDict? && FromEntries(t, |t.entries|, 0) == Merged(NormalPairs(v), KeyOfValue)
  {
    var es, t := Pairs(v, []), ToTree(v, []);
    MapIsMerged(v, []);
    PairsComeBack(v);
    hide Whole, PartsRoundTrip, ToTree, Merged, Mapped;
    EntriesAreRead(t, |t.entries|, 0);
    assert t.entries[..|t.entries|] == t.entries;
    ReadMerged(es);
  }

  lemma PairsComeBack(v: GoValue)
    requires v.GoMap? && PartsRoundTrip(v)
    ensures Mapped(Pairs(v, []), WholeValue, WholeValue) == NormalPairs(v)
    ensures forall i :: 0 <= i < |v.entries| ==> Whole(Pairs(v, [])[i].0) && !Pairs(v, [])[i].0.TByteArray?
  {
  }

  lemma MapIsStringKeyed(v: GoValue)
    requires v.GoMap? && PartsRoundTrip(v)
    ensures ToTree(v, []).TDict? && (AllStr(ToTree(v, []).entries) <==> AllStrings(v.entries))
  {
    MapIsMerged(v, []);
    StringsStayStrings(Pairs(v, []));
    StringsAreStrs(Pairs(v, []), v.entries);
  }

  lemma MapRoundTrip(v: GoValue)
    requires v.GoMap? && PartsRoundTrip(v)
    ensures Whole(ToTree(v, [])) && WholeValue(ToTree(v, [])) == NormalForm(v)
  {
    hide Whole, PartsRoundTrip, ToTree, NormalForm, Merged;
    MapIsWhole(v);
    MapEntriesComeBack(v);
    MapIsStringKeyed(v);
    NormalIsMerged(v);
  }

  /** The entries of a map in their normal forms, before equal keys are merged. */
  function NormalPairs(v: GoValue): (es: seq<(GoValue, GoValue)>)
    requires v.GoMap?
    ensures |es| == |v.entries|
    ensures forall i :: 0 <= i < |es| ==> es[i] == (NormalForm(v.entries[i].0), NormalForm(v.entries[i].1))
  {
    seq(|v.entries|, i requires 0 <= i < |v.entries| => (NormalForm(v.entries[i].0), NormalForm(v.entries[i].1)))
  }

  lemma NormalIsMerged(v: GoValue)
    requires v.GoMap?
    ensures NormalForm(v) == GoMap(AllStrings(v.entries), Merged(NormalPairs(v), KeyOfValue))
  {
    assert NormalPairs(v) == seq(|v.entries|, i requires 0 <= i < |v.entries| =>
        (NormalForm(v.entries[i].0), NormalForm(v.entries[i].1)));
  }

  /** Reading what has been merged is merging what has been read. */
  lemma ReadMerged(es: seq<(Tree, Tree)>)
    requires forall i :: 0 <= i < |es| ==> Whole(es[i].0) && !es[i].0.TByteArray?
    ensures Mapped(Merged(es, KeyOfTree), WholeValue, WholeValue)
         == Merged(Mapped(es, WholeValue, WholeValue), KeyOfValue)
  {
    forall i | 0 <= i < |es| ensures KeyOfValue(WholeValue(es[i].0)) == KeyOfTree(es[i].0) {
      WholeKey(es[i].0);
    }
    MergedCommutes(es, KeyOfTree, WholeValue, WholeValue, KeyOfValue);
  }

  lemma StringsAreStrs(es: seq<(Tree, Tree)>, entries: seq<(GoValue, GoValue)>)
    requires |es| == |entries|
    requires forall i :: 0 <= i < |es| ==> (es[i].0.TStr? <==> entries[i].0.GoString?)
    ensures AllStr(es) <==> AllStrings(entries)
  {
    if AllStr(es) {
      forall i | 0 <= i < |entries| ensures entries[i].0.GoString? {
        assert es[i].0.TStr?;
      }
    }
  }

  /** Normal forms come back as they are, and have the structure of the value they come from. */
  lemma NormalFormIsNormal(v: GoValue)
    requires HasTree(v, [])
    ensures HasTree(NormalForm(v), []) && ToTree(NormalForm(v), []) == ToTree(v, [])
    ensures NormalForm(NormalForm(v)) == NormalForm(v)
  {
    NormalFormHasTree(v);
    RoundTrip(v);
    RoundTrip(NormalForm(v));
  }

  function OwnTree(v: GoValue): Tree {
    ToTree(v, [])
  }

  lemma {:induction false} NormalFormHasTree(v: GoValue)
    requires HasTree(v, [])
    ensures HasTree(NormalForm(v), []) && OwnTree(NormalForm(v)) == OwnTree(v)
    decreases v
  {
    match v
    case GoSlice(items) =>
      forall i | 0 <= i < |items|
        ensures HasTree(NormalForm(items[i]), []) && OwnTree(NormalForm(items[i])) == OwnTree(items[i])
      {
        NormalFormHasTree(items[i]);
      }
      assert OwnTree(NormalForm(v)).items == OwnTree(v).items;
    case GoMap(_, entries) =>
      forall i | 0 <= i < |entries|
        ensures HasTree(NormalForm(entries[i].0), []) && OwnTree(NormalForm(entries[i].0)) == OwnTree(entries[i].0)
        ensures HasTree(NormalForm(entries[i].1), []) && OwnTree(NormalForm(entries[i].1)) == OwnTree(entries[i].1)
      {
        NormalFormHasTree(entries[i].0);
        NormalFormHasTree(entries[i].1);
      }
      NormalMapHasTree(v);
    case _ =>
  }

  predicate PartsKeepTrees(v: GoValue)
    requires v.GoMap?
  {
    forall i :: 0 <= i < |v.entries| ==>
      && HasTree(NormalPairs(v)[i].0, []) && OwnTree(NormalPairs(v)[i].0) == OwnTree(v.entries[i].0)
      && HasTree(NormalPairs(v)[i].1, []) && OwnTree(NormalPairs(v)[i].1) == OwnTree(v.entries[i].1)
  }

  lemma NormalMapHasTree(v: GoValue)
    requires v.GoMap? && PartsKeepTrees(v)
    ensures HasTree(NormalForm(v), []) && OwnTree(NormalForm(v)) == OwnTree(v)
  {
    MergedHaveTrees(v);
    SamePairs(v);
    hide HasTree, Merged, Mapped, NormalForm, ToTree, PartsKeepTrees;
    NormalIsMerged(v);
    MapIsMerged(v, []);
    TreeOfMerged(NormalForm(v), NormalPairs(v));
  }

  lemma MergedHaveTrees(v: GoValue)
    requires v.GoMap? && PartsKeepTrees(v)
    ensures HasTree(NormalForm(v), [])
  {
    NormalIsMerged(v);
    MergedKeeps(NormalPairs(v), KeyOfValue, k => HasTree(k, []), w => HasTree(w, []));
  }

  lemma SamePairs(v: GoValue)
    requires v.GoMap? && PartsKeepTrees(v)
    ensures Mapped(NormalPairs(v), OwnTree, OwnTree) == Pairs(v, [])
    ensures forall i :: 0 <= i < |NormalPairs(v)| ==> HasTree(NormalPairs(v)[i].0, [])
  {
  }

  lemma KeyOfOwnTree(k: GoValue)
    requires HasTree(k, [])
    ensures KeyOfTree(OwnTree(k)) == KeyOfValue(k)
  {
  }

  /** Merging the entries of a map before its structure is taken changes nothing. */
  lemma TreeOfMerged(v: GoValue, nfs: seq<(GoValue, GoValue)>)
    requires v.GoMap? && v.entries == Merged(nfs, KeyOfValue)
    requires forall i :: 0 <= i < |nfs| ==> HasTree(nfs[i].0, [])
    ensures OwnTree(v) == TDict(Merged(Mapped(nfs, OwnTree, OwnTree), KeyOfTree))
  {
    var es := Mapped(nfs, OwnTree, OwnTree);
    forall i | 0 <= i < |nfs| ensures KeyOfTree(OwnTree(nfs[i].0)) == KeyOfValue(nfs[i].0) {
      KeyOfOwnTree(nfs[i].0);
    }
    MergedCommutes(nfs, KeyOfValue, OwnTree, OwnTree, KeyOfTree);
    assert Pairs(v, []) == Mapped(v.entries, OwnTree, OwnTree);
    MergedIsDistinct(es, KeyOfTree);
    MergedOfDistinct(Merged(es, KeyOfTree), KeyOfTree);
    MapIsMerged(v, []);
  }
}
