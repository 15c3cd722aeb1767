/** What objects are equal to as dictionary keys. */
module Keys {
  import opened PyHeap

  /** Two objects are the same key when their keys are equal; some objects have none. */
  datatype Key = NoneKey | NumberKey(value: real) | InfiniteKey(negative: bool) | StrKey(text: string)
    | BytesKey(bytes: seq<bv8>) | ObjectKey(addr: Addr) | ClassKey(id: nat)
    | TupleKey(keys: seq<Key>) | FrozenSetKey(members: set<Key>) | Unhashable

  /** The key of an object that does not depend on others; a NaN is equal to itself only. */
  function OwnKey(payload: Payload, p: Addr): Key {
    match payload
    case NoneObject => NoneKey
    case BoolObject(b) => NumberKey(if b then 1.0 else 0.0)
    case IntObject(i) => NumberKey(i as real)
    case FloatObject(Finite(r)) => NumberKey(r)
    case FloatObject(NegativeZero) => NumberKey(0.0)
    case FloatObject(Infinite(n)) => InfiniteKey(n)
    case FloatObject(NaN) => ObjectKey(p)
    case StrObject(s) => StrKey(s)
    case BytesObject(b) => BytesKey(b)
    case ExceptionObject(_) => ObjectKey(p)
    case OpaqueObject(ByIdentity) => ObjectKey(p)
    case OpaqueObject(ByClass(id)) => ClassKey(id)
    case OpaqueObject(AsNumber(r)) => NumberKey(r)
    case OpaqueObject(AsInfinity(n)) => InfiniteKey(n)
    case _ => Unhashable
  }

  /** Tuples and frozensets are compared by what is in them. */
  predicate IsCompound(payload: Payload) {
    payload.SequenceObject? && (payload.kind.TupleKind? || payload.kind.FrozenSetKind?)
  }

  ghost function Unseen(h: Heap, seen: set<Addr>): set<Addr> {
    set a: Addr | a < |h| && a !in seen
  }

  lemma UnseenShrinks(h: Heap, seen: set<Addr>, p: Addr)
    requires p < |h| && p !in seen
    ensures |Unseen(h, seen + {p})| < |Unseen(h, seen)|
  {
    assert Unseen(h, seen) == Unseen(h, seen + {p}) + {p};
  }

  /** The key of an object, found by going through what is in it; there is none inside itself. */
  function KeyIn(h: Heap, p: Addr, seen: set<Addr>): Key
    decreases |Unseen(h, seen)|, 0
  {
    if p >= |h| || p in seen then Unhashable
    else if !IsCompound(h[p].payload) then OwnKey(h[p].payload, p)
    else
      UnseenShrinks(h, seen, p);
      var keys := KeysIn(h, h[p].payload.items, seen + {p});
      if Unhashable in keys then Unhashable
      else if h[p].payload.kind.TupleKind? then TupleKey(keys)
      else FrozenSetKey(set k | k in keys)
  }

  function KeysIn(h: Heap, items: seq<Slot>, seen: set<Addr>): (keys: seq<Key>)
    ensures |keys| == |items|
    ensures forall i :: 0 <= i < |items| ==>
              keys[i] == if items[i].Item? then KeyIn(h, items[i].addr, seen) else Unhashable
    decreases |Unseen(h, seen)|, 1
  {
    seq(|items|, i requires 0 <= i < |items| => if items[i].Item? then KeyIn(h, items[i].addr, seen) else Unhashable)
  }

  function KeyAt(h: Heap, p: Addr): Key {
    KeyIn(h, p, {})
  }

  /** k is the key of the object at p. */
  ghost predicate HasKey(h: Heap, p: Addr, k: Key)
    decreases k, 2
  {
    && p < |h| && k != Unhashable
    && if !IsCompound(h[p].payload) then k == OwnKey(h[p].payload, p)
       else if h[p].payload.kind.TupleKind? then k.TupleKey? && HaveKeys(h, h[p].payload.items, k)
       else k.FrozenSetKey? && HaveMembers(h, h[p].payload.items, k)
  }

  /** The items have the keys of the tuple, one by one. */
  ghost predicate HaveKeys(h: Heap, items: seq<Slot>, k: Key)
    requires k.TupleKey?
    decreases k, 0
  {
    && |items| == |k.keys|
    && forall i :: 0 <= i < |items| ==> items[i].Item? && HasKey(h, items[i].addr, k.keys[i])
  }

  /** The keys of the items are the members of the set. */
  ghost predicate HaveMembers(h: Heap, items: seq<Slot>, k: Key)
    requires k.FrozenSetKey?
    decreases k, 1
  {
    && (forall i :: 0 <= i < |items| ==> items[i].Item? && HasMember(h, items[i].addr, k))
    && (forall x :: x in k.members ==> AnyHasKey(h, items, x))
  }

  /** The key of the object at q is a member of the set. */
  ghost predicate HasMember(h: Heap, q: Addr, k: Key)
    requires k.FrozenSetKey?
    decreases k, 0
  {
    exists x :: x in k.members && HasKey(h, q, x)
  }

  ghost predicate AnyHasKey(h: Heap, items: seq<Slot>, x: Key)
    decreases x, 3
  {
    exists i :: 0 <= i < |items| && items[i].Item? && HasKey(h, items[i].addr, x)
  }

  // ----- the key found is the key there is -----

  lemma {:induction false} KeyIsUnique(h: Heap, p: Addr, k: Key, k': Key)
    requires HasKey(h, p, k) && HasKey(h, p, k')
    ensures k == k'
    decreases k, 1
  {
    hide HaveKeys, HaveMembers;
    if k.TupleKey? && k'.TupleKey? {
      KeysAreUnique(h, h[p].payload.items, k, k');
    } else if k.FrozenSetKey? && k'.FrozenSetKey? {
      MembersAreUnique(h, h[p].payload.items, k, k');
    }
  }

  lemma {:induction false} KeysAreUnique(h: Heap, items: seq<Slot>, k: Key, k': Key)
    requires k.TupleKey? && k'.TupleKey? && HaveKeys(h, items, k) && HaveKeys(h, items, k')
    ensures k == k'
    decreases k, 0
  {
    hide HasKey;
    forall i | 0 <= i < |items| ensures k.keys[i] == k'.keys[i] {
      KeyIsUnique(h, items[i].addr, k.keys[i], k'.keys[i]);
    }
  }

  lemma {:induction false} MembersAreUnique(h: Heap, items: seq<Slot>, k: Key, k': Key)
    requires k.FrozenSetKey? && k'.FrozenSetKey? && HaveMembers(h, items, k) && HaveMembers(h, items, k')
    ensures k == k'
    decreases k, 0
  {
    hide HasKey, HaveMembers;
    forall x | x in k.members ensures x in k'.members {
      var i := MemberIsAt(h, items, k, x);
      var y := ItemIsMember(h, items, k', i);
      KeyIsUnique(h, items[i].addr, x, y);
    }
    forall y | y in k'.members ensures y in k.members {
      var i := MemberIsAt(h, items, k', y);
      var x := ItemIsMember(h, items, k, i);
      KeyIsUnique(h, items[i].addr, x, y);
    }
  }

  lemma MemberIsAt(h: Heap, items: seq<Slot>, k: Key, x: Key) returns (i: nat)
    requires k.FrozenSetKey? && HaveMembers(h, items, k) && x in k.members
    ensures i < |items| && items[i].Item? && HasKey(h, items[i].addr, x) && x < k
  {
    hide HasKey, HasMember;
    assert AnyHasKey(h, items, x);
    i :| 0 <= i < |items| && items[i].Item? && HasKey(h, items[i].addr, x);
  }

  lemma ItemIsMember(h: Heap, items: seq<Slot>, k: Key, i: nat) returns (x: Key)
    requires k.FrozenSetKey? && HaveMembers(h, items, k) && i < |items|
    ensures x in k.members && items[i].Item? && HasKey(h, items[i].addr, x) && x < k
  {
    hide HasKey, AnyHasKey;
    assert HasMember(h, items[i].addr, k);
    x :| x in k.members && HasKey(h, items[i].addr, x);
  }

  lemma {:induction false} FoundIsKey(h: Heap, p: Addr, seen: set<Addr>)
    requires KeyIn(h, p, seen) != Unhashable
    ensures HasKey(h, p, KeyIn(h, p, seen))
    decreases |Unseen(h, seen)|
  {
    hide HaveKeys, HaveMembers;
    if IsCompound(h[p].payload) {
      UnseenShrinks(h, seen, p);
      var items := h[p].payload.items;
      var keys := KeysIn(h, items, seen + {p});
      forall i | 0 <= i < |items| ensures items[i].Item? && HasKey(h, items[i].addr, keys[i]) {
        assert keys[i] in keys;
        FoundIsKey(h, items[i].addr, seen + {p});
      }
      KeysAreThose(h, items, keys);
    }
  }

  lemma KeysAreThose(h: Heap, items: seq<Slot>, keys: seq<Key>)
    requires |keys| == |items|
    requires forall i :: 0 <= i < |items| ==> items[i].Item? && HasKey(h, items[i].addr, keys[i])
    ensures HaveKeys(h, items, TupleKey(keys))
    ensures HaveMembers(h, items, FrozenSetKey(set x | x in keys))
  {
    hide HasKey;
    var members := set x | x in keys;
    forall i | 0 <= i < |items| ensures HasMember(h, items[i].addr, FrozenSetKey(members)) {
      assert keys[i] in members;
      MemberIsHad(h, items[i].addr, FrozenSetKey(members), keys[i]);
    }
    forall x | x in members ensures AnyHasKey(h, items, x) {
      var i :| 0 <= i < |keys| && keys[i] == x;
      KeyIsHad(h, items, i, x);
    }
  }

  /** Going through an object finds its key, as long as what has been seen is what the object is in. */
  lemma {:induction false} KeyIsFound(h: Heap, p: Addr, k: Key, seen: set<Addr>)
    requires HasKey(h, p, k) && Around(h, seen, k)
    ensures KeyIn(h, p, seen) == k
    decreases k
  {
    hide HaveKeys, HaveMembers;
    if p in seen {
      assert false;
    }
    if IsCompound(h[p].payload) {
      var items := h[p].payload.items;
      var keys := KeysIn(h, items, seen + {p});
      forall i | 0 <= i < |items| ensures items[i].Item? && HasKey(h, items[i].addr, keys[i]) {
        var x := PartHasKey(h, p, k, i);
        MoreAround(h, seen, k, p, x);
        KeyIsFound(h, items[i].addr, x, seen + {p});
      }
      KeysAreThose(h, items, keys);
      KeyIsUnique(h, p, k, if k.TupleKey? then TupleKey(keys) else FrozenSetKey(set x | x in keys));
    }
  }

  /** Whatever has been seen and has a key has a larger one. */
  ghost predicate Around(h: Heap, seen: set<Addr>, k: Key) {
    forall q, x :: q in seen && HasKey(h, q, x) ==> k < x
  }

  lemma MoreAround(h: Heap, seen: set<Addr>, k: Key, p: Addr, x: Key)
    requires Around(h, seen, k) && HasKey(h, p, k) && x < k
    ensures Around(h, seen + {p}, x)
  {
    forall q, y | q in seen + {p} && HasKey(h, q, y) ensures x < y {
      if q == p {
        KeyIsUnique(h, p, k, y);
      }
    }
  }

  lemma PartHasKey(h: Heap, p: Addr, k: Key, i: nat) returns (x: Key)
    requires HasKey(h, p, k) && IsCompound(h[p].payload) && i < |h[p].payload.items|
    ensures h[p].payload.items[i].Item? && HasKey(h, h[p].payload.items[i].addr, x) && x < k
  {
    if k.TupleKey? {
      x := k.keys[i];
    } else {
      x := ItemIsMember(h, h[p].payload.items, k, i);
    }
  }

  /** An object has a key exactly when one is found for it, and then it is the one found. */
  lemma KeyAtIff(h: Heap, p: Addr, k: Key)
    requires k != Unhashable
    ensures KeyAt(h, p) == k <==> HasKey(h, p, k)
  {
    if KeyAt(h, p) == k {
      FoundIsKey(h, p, {});
    }
    if HasKey(h, p, k) {
      KeyIsFound(h, p, k, {});
    }
  }

  // ----- keys stay -----

  /** What is alive in g is the same in h. */
  ghost predicate AgreeOnLiving(g: Heap, h: Heap) {
    forall q :: 0 <= q < |g| && Live(g[q]) ==> q < |h| && h[q].payload == g[q].payload
  }

  /** An object has the key it has wherever what it holds is the same. */
  lemma {:induction false} SameKey(g: Heap, owned: multiset<Addr>, h: Heap, p: Addr, k: Key)
    requires Balanced(g, owned) && AgreeOnLiving(g, h) && p < |g| && Live(g[p])
    ensures HasKey(g, p, k) <==> HasKey(h, p, k)
    decreases k
  {
    hide Balanced, HaveKeys, HaveMembers;
    if IsCompound(g[p].payload) && (k.TupleKey? || k.FrozenSetKey?) {
      var items := g[p].payload.items;
      forall i, x | 0 <= i < |items| && items[i].Item? && x < k
        ensures HasKey(g, items[i].addr, x) <==> HasKey(h, items[i].addr, x)
      {
        ItemIsReferred(items, i);
        ReferredIsLive(g, owned, items[i].addr, p);
        SameKey(g, owned, h, items[i].addr, x);
      }
      PartsAgree(g, h, items, k);
    }
  }

  ghost predicate SameKeysBelow(g: Heap, h: Heap, items: seq<Slot>, k: Key) {
    forall i, x :: 0 <= i < |items| && items[i].Item? && x < k ==>
      (HasKey(g, items[i].addr, x) <==> HasKey(h, items[i].addr, x))
  }

  lemma PartsAgree(g: Heap, h: Heap, items: seq<Slot>, k: Key)
    requires SameKeysBelow(g, h, items, k)
    ensures k.TupleKey? ==> (HaveKeys(g, items, k) <==> HaveKeys(h, items, k))
    ensures k.FrozenSetKey? ==> (HaveMembers(g, items, k) <==> HaveMembers(h, items, k))
  {
    hide HasKey, HaveMembers;
    if k.FrozenSetKey? && HaveMembers(g, items, k) {
      SameMembers(g, h, items, k);
    }
    if k.FrozenSetKey? && HaveMembers(h, items, k) {
      SameMembers(h, g, items, k);
    }
  }

  lemma SameMembers(g: Heap, h: Heap, items: seq<Slot>, k: Key)
    requires SameKeysBelow(g, h, items, k) && k.FrozenSetKey? && HaveMembers(g, items, k)
    ensures HaveMembers(h, items, k)
  {
    hide HasKey, HasMember, AnyHasKey;
    forall i | 0 <= i < |items| ensures items[i].Item? && HasMember(h, items[i].addr, k) {
      var x := ItemIsMember(g, items, k, i);
      MemberIsHad(h, items[i].addr, k, x);
    }
    forall x | x in k.members ensures AnyHasKey(h, items, x) {
      var i := MemberIsAt(g, items, k, x);
      KeyIsHad(h, items, i, x);
    }
  }

  lemma MemberIsHad(h: Heap, q: Addr, k: Key, x: Key)
    requires k.FrozenSetKey? && x in k.members && HasKey(h, q, x)
    ensures HasMember(h, q, k)
  {
    hide HasKey;
  }

  lemma KeyIsHad(h: Heap, items: seq<Slot>, i: nat, x: Key)
    requires i < |items| && items[i].Item? && HasKey(h, items[i].addr, x)
    ensures AnyHasKey(h, items, x)
  {
    hide HasKey;
  }

  lemma KeyStays(g: Heap, owned: multiset<Addr>, h: Heap, p: Addr)
    requires Balanced(g, owned) && AgreeOnLiving(g, h) && p < |g| && Live(g[p])
    ensures KeyAt(h, p) == KeyAt(g, p)
  {
    hide Balanced, HasKey, KeyAt;
    var k := if KeyAt(g, p) != Unhashable then KeyAt(g, p) else KeyAt(h, p);
    if k != Unhashable {
      SameKey(g, owned, h, p, k);
      KeyAtIff(g, p, k);
      KeyAtIff(h, p, k);
    }
  }

  // ----- what hashability and equality mean -----

  /** Has every item a key? */
  predicate AllHaveKeys(h: Heap, items: seq<Slot>) {
    forall i :: 0 <= i < |items| ==> items[i].Item? && KeyAt(h, items[i].addr) != Unhashable
  }

  /** Is the object equal to one of the items? */
  predicate IsAmong(h: Heap, q: Addr, items: seq<Slot>) {
    exists j :: 0 <= j < |items| && items[j].Item? && KeyAt(h, items[j].addr) == KeyAt(h, q)
  }

  /** Is every item of the one equal to some item of the other? */
  predicate EachAmong(h: Heap, items: seq<Slot>, items': seq<Slot>) {
    forall i :: 0 <= i < |items| ==> items[i].Item? && IsAmong(h, items[i].addr, items')
  }

  /** Are the items equal one by one? */
  predicate SameItems(h: Heap, items: seq<Slot>, items': seq<Slot>) {
    && |items| == |items'|
    && forall i :: 0 <= i < |items| ==>
         items[i].Item? && items'[i].Item? && KeyAt(h, items[i].addr) == KeyAt(h, items'[i].addr)
  }

  /** A tuple or frozenset has a key exactly when all its items have one, and then it is made of theirs. */
  lemma KeyOfCompound(h: Heap, p: Addr)
    requires p < |h| && IsCompound(h[p].payload)
    ensures KeyAt(h, p) != Unhashable <==> AllHaveKeys(h, h[p].payload.items)
    ensures AllHaveKeys(h, h[p].payload.items) ==>
              var keys := KeysIn(h, h[p].payload.items, {});
              KeyAt(h, p) == if h[p].payload.kind.TupleKind? then TupleKey(keys) else FrozenSetKey(set x | x in keys)
  {
    hide HaveKeys, HaveMembers;
    var items := h[p].payload.items;
    var keys := KeysIn(h, items, {});
    if AllHaveKeys(h, items) {
      forall i | 0 <= i < |items| ensures items[i].Item? && HasKey(h, items[i].addr, keys[i]) {
        KeyAtIff(h, items[i].addr, keys[i]);
      }
      KeysAreThose(h, items, keys);
      KeyAtIff(h, p, if h[p].payload.kind.TupleKind? then TupleKey(keys) else FrozenSetKey(set x | x in keys));
    }
    if KeyAt(h, p) != Unhashable {
      KeyAtIff(h, p, KeyAt(h, p));
      forall i | 0 <= i < |items| ensures items[i].Item? && KeyAt(h, items[i].addr) != Unhashable {
        var x := PartHasKey(h, p, KeyAt(h, p), i);
        KeyAtIff(h, items[i].addr, x);
      }
    }
  }

  /**
   * Tuples are the same key exactly when they are as long and their items are the same keys one by one, frozensets
   * exactly when each has the items of the other.
   */
  lemma EqualCompounds(h: Heap, p: Addr, q: Addr)
    requires p < |h| && IsCompound(h[p].payload) && AllHaveKeys(h, h[p].payload.items)
    requires q < |h| && IsCompound(h[q].payload) && AllHaveKeys(h, h[q].payload.items)
    ensures var a, b := h[p].payload, h[q].payload;
            KeyAt(h, p) == KeyAt(h, q) <==>
              && a.kind == b.kind
              && if a.kind.TupleKind? then SameItems(h, a.items, b.items)
                 else EachAmong(h, a.items, b.items) && EachAmong(h, b.items, a.items)
  {
    hide KeyAt, EachAmong, AllIn;
    var a, b := h[p].payload.items, h[q].payload.items;
    KeyOfCompound(h, p);
    KeyOfCompound(h, q);
    ItemKeys(h, a);
    ItemKeys(h, b);
    var ka, kb := KeysIn(h, a, {}), KeysIn(h, b, {});
    AmongIff(h, a, b);
    AmongIff(h, b, a);
    if h[p].payload.kind == h[q].payload.kind == TupleKind {
      assert SameItems(h, a, b) <==> ka == kb;
    } else if h[p].payload.kind == h[q].payload.kind {
      SubsetOf(ka, kb);
      SubsetOf(kb, ka);
    }
  }

  predicate AllIn(a: seq<Key>, b: seq<Key>) {
    forall x :: x in a ==> x in b
  }

  lemma SubsetOf(a: seq<Key>, b: seq<Key>)
    ensures (set x | x in a) <= (set x | x in b) <==> AllIn(a, b)
  {
    var s, s' := set x | x in a, set x | x in b;
    if s <= s' {
      forall x | x in a ensures x in b {
        assert x in s;
        assert x in s';
      }
    }
  }

  lemma ItemKeys(h: Heap, items: seq<Slot>)
    requires AllHaveKeys(h, items)
    ensures forall i :: 0 <= i < |items| ==> KeysIn(h, items, {})[i] == KeyAt(h, items[i].addr)
  {
  }

  lemma AmongIff(h: Heap, items: seq<Slot>, items': seq<Slot>)
    requires AllHaveKeys(h, items) && AllHaveKeys(h, items')
    ensures EachAmong(h, items, items') <==> AllIn(KeysIn(h, items, {}), KeysIn(h, items', {}))
  {
    hide EachAmong, KeyAt, AllIn;
    if EachAmong(h, items, items') {
      EqualsAreThere(h, items, items');
    }
    if AllIn(KeysIn(h, items, {}), KeysIn(h, items', {})) {
      WhatIsThereIsEqual(h, items, items');
    }
  }

  lemma EqualsAreThere(h: Heap, items: seq<Slot>, items': seq<Slot>)
    requires AllHaveKeys(h, items) && AllHaveKeys(h, items') && EachAmong(h, items, items')
    ensures AllIn(KeysIn(h, items, {}), KeysIn(h, items', {}))
  {
    hide KeyAt, KeyIn;
    var ks, ks' := KeysIn(h, items, {}), KeysIn(h, items', {});
    ItemKeys(h, items);
    ItemKeys(h, items');
    forall x | x in ks ensures x in ks' {
      var i :| 0 <= i < |ks| && ks[i] == x;
      assert IsAmong(h, items[i].addr, items');
      var j :| 0 <= j < |items'| && items'[j].Item? && KeyAt(h, items'[j].addr) == x;
      assert ks'[j] == x;
    }
  }

  lemma WhatIsThereIsEqual(h: Heap, items: seq<Slot>, items': seq<Slot>)
    requires AllHaveKeys(h, items) && AllHaveKeys(h, items')
    requires AllIn(KeysIn(h, items, {}), KeysIn(h, items', {}))
    ensures EachAmong(h, items, items')
  {
    hide KeyAt, KeyIn;
    var ks, ks' := KeysIn(h, items, {}), KeysIn(h, items', {});
    ItemKeys(h, items);
    ItemKeys(h, items');
    forall i | 0 <= i < |items| ensures IsAmong(h, items[i].addr, items') {
      assert ks[i] in ks;
      var j :| 0 <= j < |ks'| && ks'[j] == ks[i];
      assert items'[j].Item? && KeyAt(h, items'[j].addr) == ks[i];
    }
  }

  lemma OwnObjectKey(h: Heap, p: Addr)
    ensures KeyAt(h, p).ObjectKey? ==> KeyAt(h, p) == ObjectKey(p)
  {
  }

  // ----- what objects that are not compared by their items are equal to -----

  /** Objects equal to themselves only: exceptions, NaNs, and others that are compared by identity. */
  predicate IsItself(payload: Payload) {
    payload.ExceptionObject? || payload == FloatObject(NaN) || payload == OpaqueObject(ByIdentity)
  }

  /** The object is a number of the value r, of whatever type. */
  predicate IsNumber(payload: Payload, r: real) {
    match payload
    case IntObject(i) => r == i as real
    case BoolObject(b) => r == if b then 1.0 else 0.0
    case FloatObject(Finite(x)) => r == x
    case FloatObject(NegativeZero) => r == 0.0
    case OpaqueObject(AsNumber(x)) => r == x
    case _ => false
  }

  predicate IsInfinity(payload: Payload, negative: bool) {
    payload == FloatObject(Infinite(negative)) || payload == OpaqueObject(AsInfinity(negative))
  }

  /** Objects that are equal to those that hold the same. */
  predicate IsContents(payload: Payload) {
    payload.NoneObject? || payload.StrObject? || payload.BytesObject? || (payload.OpaqueObject? && payload.key.ByClass?)
  }

  /** Objects that can never be keys. */
  predicate IsMutable(payload: Payload) {
    match payload
    case SequenceObject(kind, _) => kind.ListKind? || kind.SetKind?
    case DictObject(_) => true
    case ByteArrayObject(_) => true
    case OpaqueObject(NoHash) => true
    case _ => false
  }

  /** Objects that can be keys whatever they hold. */
  ghost predicate IsHashable(payload: Payload) {
    || IsItself(payload) || IsContents(payload)
    || (exists r :: IsNumber(payload, r)) || (exists n :: IsInfinity(payload, n))
  }

  /** An object compared by identity is a key, and equal to no other object. */
  lemma KeyOfItself(h: Heap, p: Addr, q: Addr)
    requires p < |h| && IsItself(h[p].payload)
    ensures KeyAt(h, p) != Unhashable
    ensures KeyAt(h, q) == KeyAt(h, p) <==> q == p
  {
  }

  /** A number is a key, and equal to all numbers of its value and to nothing else. */
  lemma KeyOfNumber(h: Heap, p: Addr, q: Addr, r: real)
    requires p < |h| && q < |h| && IsNumber(h[p].payload, r)
    ensures KeyAt(h, p) != Unhashable
    ensures KeyAt(h, q) == KeyAt(h, p) <==> IsNumber(h[q].payload, r)
  {
  }

  lemma KeyOfInfinity(h: Heap, p: Addr, q: Addr, negative: bool)
    requires p < |h| && q < |h| && IsInfinity(h[p].payload, negative)
    ensures KeyAt(h, p) != Unhashable
    ensures KeyAt(h, q) == KeyAt(h, p) <==> IsInfinity(h[q].payload, negative)
  {
  }

  /** None, a str, bytes and an object compared by its class are keys, and equal to what holds the same. */
  lemma KeyOfContents(h: Heap, p: Addr, q: Addr)
    requires p < |h| && q < |h| && IsContents(h[p].payload)
    ensures KeyAt(h, p) != Unhashable
    ensures KeyAt(h, q) == KeyAt(h, p) <==> h[q].payload == h[p].payload
  {
  }

  /** Lists, sets, dictionaries, bytearrays and objects without a hash are no keys. */
  lemma NoKeyOfMutable(h: Heap, p: Addr)
    requires p < |h| && IsMutable(h[p].payload)
    ensures KeyAt(h, p) == Unhashable
  {
  }

  lemma HashableHasKey(h: Heap, p: Addr)
    requires p < |h| && IsHashable(h[p].payload)
    ensures KeyAt(h, p) != Unhashable
  {
    if n :| IsInfinity(h[p].payload, n) {
      KeyOfInfinity(h, p, p, n);
    } else if r :| IsNumber(h[p].payload, r) {
      KeyOfNumber(h, p, p, r);
    }
  }

  /** Every object that is not compared by its items either always is a key or never is one. */
  lemma HashableOrNot(payload: Payload)
    requires payload != Freed && !IsCompound(payload)
    ensures IsHashable(payload) <==> !IsMutable(payload)
  {
    match payload
    case IntObject(i) => assert IsNumber(payload, i as real);
    case BoolObject(b) => assert IsNumber(payload, if b then 1.0 else 0.0);
    case FloatObject(Finite(x)) => assert IsNumber(payload, x);
    case FloatObject(NegativeZero) => assert IsNumber(payload, 0.0);
    case FloatObject(Infinite(n)) => assert IsInfinity(payload, n);
    case OpaqueObject(AsNumber(x)) => assert IsNumber(payload, x);
    case OpaqueObject(AsInfinity(n)) => assert IsInfinity(payload, n);
    case _ =>
  }
}
