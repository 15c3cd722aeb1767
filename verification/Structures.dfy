/** Lists and dictionaries while a conversion fills them. */
module Structures {
  import opened PyHeap
  import opened Keys
  import opened Python
  import opened Merging
  import opened Values

  /** The first slots of the list at l hold the structures ts, in objects below n or made after the list. */
  ghost predicate HoldsItems(h: Heap, l: Addr, ts: seq<Tree>, n: nat) {
    && l < |h| && Live(h[l]) && h[l].payload.SequenceObject? && h[l].payload.kind == ListKind
    && |ts| <= |h[l].payload.items|
    && forall i :: 0 <= i < |ts| ==>
         h[l].payload.items[i].Item? && Represents(h, h[l].payload.items[i].addr, ts[i], n, l + 1)
  }

  /** The slots of the list at l from k on are empty. */
  ghost predicate EmptyFrom(h: Heap, l: Addr, k: nat, length: nat) {
    && l < |h| && h[l].payload.SequenceObject? && h[l].payload.kind == ListKind && |h[l].payload.items| == length
    && forall i :: k <= i < length ==> h[l].payload.items[i] == Empty
  }

  /**
   * The entries of the dictionary at d hold the structures es, in objects below n or made after the dictionary; a NaN
   * that is a key has been made after it.
   */
  ghost predicate HoldsEntries(h: Heap, d: Addr, es: seq<(Tree, Tree)>, n: nat) {
    && d < |h| && Live(h[d]) && h[d].payload.DictObject? && |es| == |h[d].payload.entries|
    && KeysApart(h[d].payload.entries)
    && forall i :: 0 <= i < |es| ==>
         && Represents(h, h[d].payload.entries[i].key, es[i].0, n, d + 1)
         && Represents(h, h[d].payload.entries[i].value, es[i].1, n, d + 1)
         && (es[i].0 == TFloat(NaN) ==> d < h[d].payload.entries[i].key)
  }

  lemma ItemsCarryOver(h: Heap, h': Heap, l: Addr, ts: seq<Tree>, n: nat)
    requires HoldsItems(h, l, ts, n) && Extends(h, h')
    ensures HoldsItems(h', l, ts, n)
  {
    forall i | 0 <= i < |ts| ensures Represents(h', h[l].payload.items[i].addr, ts[i], n, l + 1) {
      RepresentsCarriesOver(h, h', h[l].payload.items[i].addr, ts[i], n, l + 1);
    }
  }

  lemma ItemAdded(h: Heap, l: Addr, ts: seq<Tree>, n: nat, e: Addr, t: Tree)
    requires HoldsItems(h, l, ts, n) && n <= l && |ts| < |h[l].payload.items|
    requires Represents(h, e, t, n, l + 1)
    ensures HoldsItems(SlotFilled(h, l, |ts|, e), l, ts + [t], n)
  {
    var h' := SlotFilled(h, l, |ts|, e);
    RepresentsCarriesOver(h, h', e, t, n, l + 1);
    forall i | 0 <= i < |ts| ensures Represents(h', h[l].payload.items[i].addr, ts[i], n, l + 1) {
      RepresentsCarriesOver(h, h', h[l].payload.items[i].addr, ts[i], n, l + 1);
    }
  }

  lemma ItemsComplete(h: Heap, l: Addr, ts: seq<Tree>, n: nat)
    requires HoldsItems(h, l, ts, n) && |ts| == |h[l].payload.items|
    ensures Represents(h, l, TSequence(ListKind, ts), n, l)
  {
    forall i | 0 <= i < |ts| ensures Represents(h, h[l].payload.items[i].addr, ts[i], n, l) {
      RepresentsFromLower(h, h[l].payload.items[i].addr, ts[i], n, l + 1, l);
    }
  }

  lemma EntriesCarryOver(h: Heap, h': Heap, d: Addr, es: seq<(Tree, Tree)>, n: nat)
    requires HoldsEntries(h, d, es, n) && Extends(h, h')
    ensures HoldsEntries(h', d, es, n)
  {
    forall i | 0 <= i < |es|
      ensures Represents(h', h[d].payload.entries[i].key, es[i].0, n, d + 1)
      ensures Represents(h', h[d].payload.entries[i].value, es[i].1, n, d + 1)
    {
      RepresentsCarriesOver(h, h', h[d].payload.entries[i].key, es[i].0, n, d + 1);
      RepresentsCarriesOver(h, h', h[d].payload.entries[i].value, es[i].1, n, d + 1);
    }
  }

  /** Dropping references frees nothing the dictionary holds. */
  lemma EntriesSurvive(h: Heap, h': Heap, owned: multiset<Addr>, d: Addr, es: seq<(Tree, Tree)>, n: nat)
    requires HoldsEntries(h, d, es, n) && Survives(h, h') && Balanced(h', owned) && Live(h'[d])
    ensures HoldsEntries(h', d, es, n)
  {
    var entries := h[d].payload.entries;
    forall i | 0 <= i < |es|
      ensures Represents(h', entries[i].key, es[i].0, n, d + 1)
      ensures Represents(h', entries[i].value, es[i].1, n, d + 1)
    {
      EntryIsReferred(entries, i);
      ReferredIsLive(h', owned, entries[i].key, d);
      ReferredIsLive(h', owned, entries[i].value, d);
      RepresentsSurvives(h, h', owned, entries[i].key, es[i].0, n, d + 1);
      RepresentsSurvives(h, h', owned, entries[i].value, es[i].1, n, d + 1);
    }
  }

  /** A key that Python finds where the structure has it: a value, or an object below n by what that is equal to. */
  predicate IsSoundKey(h: Heap, k: Tree, n: nat) {
    CanBeKey(k) && (k.TObject? ==> k.addr < n && k.addr < |h| && KeyAt(h, k.addr) == k.key)
  }

  ghost predicate SoundKeys(h: Heap, es: seq<(Tree, Tree)>, n: nat) {
    forall i :: 0 <= i < |es| ==> IsSoundKey(h, es[i].0, n)
  }

  /** The object is not a key of the dictionary, and has been made after it. */
  predicate IsNoKey(h: Heap, d: Addr, k: Addr) {
    && d < |h| && h[d].payload.DictObject? && d < k
    && forall i :: 0 <= i < |h[d].payload.entries| ==> h[d].payload.entries[i].key != k
  }

  /** A key is found where the structure has it; a NaN is not, since it is an object of its own. */
  lemma KeyIsFoundThere(h: Heap, d: Addr, es: seq<(Tree, Tree)>, n: nat, k: Addr, kt: Tree)
    requires HoldsEntries(h, d, es, n) && SoundKeys(h, es, n) && IsSoundKey(h, kt, n) && n <= d
    requires Represents(h, k, kt, n, d + 1) && (kt == TFloat(NaN) ==> IsNoKey(h, d, k))
    ensures FindKey(h, h[d].payload.entries, KeyAt(h, k)) == Find(es, KeyOfTree, KeyOfTree(kt))
  {
    var entries := h[d].payload.entries;
    var i := FindKey(h, entries, KeyAt(h, k));
    var j := Find(es, KeyOfTree, KeyOfTree(kt));
    hide KeyAt, Represents;
    SoundKeyAt(h, k, kt, n, d + 1);
    forall x | 0 <= x < |es|
      ensures KeyAt(h, entries[x].key) == KeyAt(h, k) <==> Same(KeyOfTree(es[x].0), KeyOfTree(kt))
    {
      SoundKeyAt(h, entries[x].key, es[x].0, n, d + 1);
    }
  }

  lemma SoundKeyAt(h: Heap, p: Addr, t: Tree, n: nat, lo: nat)
    requires Represents(h, p, t, n, lo) && IsSoundKey(h, t, n)
    ensures KeyOfTree(t).Equal? ==> KeyAt(h, p) == KeyOfTree(t).q
    ensures KeyOfTree(t).Equal? && KeyAt(h, p).ObjectKey? ==> t == TObject(p, ObjectKey(p))
    ensures !KeyOfTree(t).Equal? ==> KeyAt(h, p) == ObjectKey(p) && t == TFloat(NaN)
    ensures t.TObject? ==> p == t.addr && p < n
  {
    if t.TObject? {
      OwnObjectKey(h, p);
    } else {
      KeyOfRepresented(h, p, t, n, lo);
    }
  }

  /** An entry under an old key or under an object that is no key leaves the keys apart. */
  lemma KeysStayApart(h: Heap, entries: seq<Entry>, k: Addr, v: Addr)
    requires KeysApart(entries)
    ensures KeysApart(WithEntry(h, entries, k, v))
  {
    hide KeyAt;
  }

  /** The dictionary holds what it held with the new entry put into it. */
  lemma EntryStored(h: Heap, h': Heap, owned: multiset<Addr>, d: Addr, es: seq<(Tree, Tree)>, n: nat,
                                       k: Addr, v: Addr, kt: Tree, vt: Tree)
    requires HoldsEntries(h, d, es, n) && n <= d && SoundKeys(h, es, n) && IsSoundKey(h, kt, n)
    requires kt == TFloat(NaN) ==> IsNoKey(h, d, k)
    requires Represents(h, k, kt, n, d + 1) && Represents(h, v, vt, n, d + 1)
    requires SurvivesExcept(h, h', d) && Balanced(h', owned)
    requires h'[d].payload == DictObject(WithEntry(h, h[d].payload.entries, k, v))
    ensures HoldsEntries(h', d, Put(es, KeyOfTree, kt, vt), n)
  {
    hide Balanced, Represents, SurvivesExcept, KeyAt;
    OtherLives(h, h', d);
    KeyIsFoundThere(h, d, es, n, k, kt);
    KeysStayApart(h, h[d].payload.entries, k, v);
    var entries' := h'[d].payload.entries;
    var es' := Put(es, KeyOfTree, kt, vt);
    forall j | 0 <= j < |es'|
      ensures Represents(h', entries'[j].key, es'[j].0, n, d + 1)
      ensures Represents(h', entries'[j].value, es'[j].1, n, d + 1)
    {
      EntryIsReferred(entries', j);
      PartSurvives(h, h', owned, d, entries'[j].key, es'[j].0, n);
      PartSurvives(h, h', owned, d, entries'[j].value, es'[j].1, n);
    }
  }

  lemma OtherLives(h: Heap, h': Heap, d: Addr)
    requires SurvivesExcept(h, h', d)
    ensures d < |h'| && Live(h'[d])
  {
  }

  lemma PartSurvives(h: Heap, h': Heap, owned: multiset<Addr>, d: Addr, p: Addr, t: Tree, n: nat)
    requires Represents(h, p, t, n, d + 1) && n <= d
    requires SurvivesExcept(h, h', d) && Balanced(h', owned) && p in Refs(h'[d].payload)
    ensures Represents(h', p, t, n, d + 1)
  {
    hide Balanced;
    ReferredIsLive(h', owned, p, d);
    RepresentsSurvives(h, h', owned, p, t, n, d + 1);
  }

  lemma EntriesComplete(h: Heap, d: Addr, es: seq<(Tree, Tree)>, n: nat)
    requires HoldsEntries(h, d, es, n)
    ensures Represents(h, d, TDict(es), n, d)
  {
    forall i | 0 <= i < |es|
      ensures Represents(h, h[d].payload.entries[i].key, es[i].0, n, d)
      ensures Represents(h, h[d].payload.entries[i].value, es[i].1, n, d)
    {
      RepresentsFromLower(h, h[d].payload.entries[i].key, es[i].0, n, d + 1, d);
      RepresentsFromLower(h, h[d].payload.entries[i].value, es[i].1, n, d + 1, d);
    }
  }
}
