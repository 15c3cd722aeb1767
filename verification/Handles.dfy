/** What becomes of the references that handles take: an account, on values. */
module Handles {
  import opened PyHeap

  /**
   * A handle's reference is held by the handle, queued by its finalizer, in the hands of a call that releases it,
   * dropped, or abandoned.
   */
  datatype Fate = Held | Queued | InHand | Dropped | Abandoned

  function Only(c: bool, p: Addr): multiset<Addr> {
    if c then multiset{p} else multiset{}
  }

  /** The references with the given fate. */
  function With(origin: seq<Addr>, fates: seq<Fate>, f: Fate): multiset<Addr>
    requires |origin| == |fates|
  {
    if fates == [] then multiset{}
    else Only(fates[0] == f, origin[0]) + With(origin[1..], fates[1..], f)
  }

  /** The references that have been taken and not given back. */
  function Outstanding(origin: seq<Addr>, fates: seq<Fate>): multiset<Addr>
    requires |origin| == |fates|
  {
    With(origin, fates, Held) + With(origin, fates, Queued) + With(origin, fates, InHand)
  }

  lemma {:induction false} WithAfterChange(origin: seq<Addr>, fates: seq<Fate>, i: nat, g: Fate, f: Fate)
    requires |origin| == |fates| && i < |fates|
    ensures With(origin, fates[i := g], f) + Only(fates[i] == f, origin[i])
         == With(origin, fates, f) + Only(g == f, origin[i])
  {
    var next := fates[i := g];
    if i == 0 {
      assert next[1..] == fates[1..];
      Rotate(With(origin[1..], fates[1..], f), Only(g == f, origin[0]), Only(fates[0] == f, origin[0]));
    } else {
      assert next[1..] == fates[1..][i - 1 := g];
      WithAfterChange(origin[1..], fates[1..], i - 1, g, f);
      Prefixed(Only(fates[0] == f, origin[0]), With(origin[1..], next[1..], f), Only(fates[i] == f, origin[i]),
               With(origin[1..], fates[1..], f), Only(g == f, origin[i]));
    }
  }

  lemma Prefixed(h: multiset<Addr>, a: multiset<Addr>, x: multiset<Addr>, b: multiset<Addr>, y: multiset<Addr>)
    requires a + x == b + y
    ensures h + a + x == h + b + y
  {
    assert h + a + x == h + (a + x);
    assert h + b + y == h + (b + y);
  }

  lemma Rotate(a: multiset<Addr>, b: multiset<Addr>, c: multiset<Addr>)
    ensures b + a + c == c + a + b
  {
  }

  lemma {:induction false} WithAfterAppend(origin: seq<Addr>, fates: seq<Fate>, p: Addr, g: Fate, f: Fate)
    requires |origin| == |fates|
    ensures With(origin + [p], fates + [g], f) == With(origin, fates, f) + Only(g == f, p)
  {
    if fates == [] {
      assert (origin + [p])[1..] == [] && (fates + [g])[1..] == [];
      assert With((origin + [p])[1..], (fates + [g])[1..], f) == multiset{};
    } else {
      assert (origin + [p])[1..] == origin[1..] + [p] && (fates + [g])[1..] == fates[1..] + [g];
      WithAfterAppend(origin[1..], fates[1..], p, g, f);
    }
  }

  /** Every reference taken has one fate: what was taken is what is held, queued, in hand, dropped and abandoned. */
  lemma {:induction false} Conservation(origin: seq<Addr>, fates: seq<Fate>)
    requires |origin| == |fates|
    ensures multiset(origin)
         == With(origin, fates, Held) + With(origin, fates, Queued) + With(origin, fates, InHand)
            + With(origin, fates, Dropped) + With(origin, fates, Abandoned)
  {
    if fates != [] {
      assert origin == [origin[0]] + origin[1..];
      Conservation(origin[1..], fates[1..]);
      var o, f, p, g := origin[1..], fates[1..], origin[0], fates[0];
      OneFate(g, p);
      SumOfFive(Only(g == Held, p), With(o, f, Held), Only(g == Queued, p), With(o, f, Queued),
                Only(g == InHand, p), With(o, f, InHand), Only(g == Dropped, p), With(o, f, Dropped),
                Only(g == Abandoned, p), With(o, f, Abandoned));
    }
  }

  lemma OneFate(g: Fate, p: Addr)
    ensures multiset{p} == Only(g == Held, p) + Only(g == Queued, p) + Only(g == InHand, p)
                           + Only(g == Dropped, p) + Only(g == Abandoned, p)
  {
  }

  lemma SumOfFive(a: multiset<Addr>, a': multiset<Addr>, b: multiset<Addr>, b': multiset<Addr>,
                                     c: multiset<Addr>, c': multiset<Addr>, d: multiset<Addr>, d': multiset<Addr>,
                                     e: multiset<Addr>, e': multiset<Addr>)
    ensures (a + b + c + d + e) + (a' + b' + c' + d' + e')
         == (a + a') + (b + b') + (c + c') + (d + d') + (e + e')
  {
  }

  /** A fate moves on in one direction; once dropped or abandoned it stays. */
  predicate MovesOn(f: Fate, g: Fate) {
    match f
    case Held => true
    case Queued => g != Held && g != InHand
    case InHand => g != Held && g != Queued
    case _ => g == f
  }

  ghost predicate Progress(before: seq<Fate>, after: seq<Fate>) {
    |before| <= |after| && forall i :: 0 <= i < |before| ==> MovesOn(before[i], after[i])
  }

  lemma ProgressTransitive(a: seq<Fate>, b: seq<Fate>, c: seq<Fate>)
    requires Progress(a, b) && Progress(b, c)
    ensures Progress(a, c)
  {
  }

  /** Along a run, what has been dropped or abandoned stays so, whatever handles are made meanwhile. */
  lemma {:induction false} DroppedOnce(origin: seq<Addr>, before: seq<Fate>, origin': seq<Addr>, after: seq<Fate>)
    requires |before| == |origin| && |after| == |origin'| && origin <= origin' && Progress(before, after)
    ensures With(origin, before, Dropped) <= With(origin', after, Dropped)
    ensures With(origin, before, Abandoned) <= With(origin', after, Abandoned)
  {
    if before != [] {
      assert MovesOn(before[0], after[0]);
      forall i | 0 <= i < |before[1..]| ensures MovesOn(before[1..][i], after[1..][i]) {
        assert MovesOn(before[i + 1], after[i + 1]);
      }
      DroppedOnce(origin[1..], before[1..], origin'[1..], after[1..]);
    }
  }

  /** The queue is emptied: what was queued is dropped or abandoned. */
  function Settled(fates: seq<Fate>, g: Fate): (s: seq<Fate>)
    ensures |s| == |fates|
  {
    seq(|fates|, i requires 0 <= i < |fates| => if fates[i] == Queued then g else fates[i])
  }

  lemma {:induction false} SettledKeeps(origin: seq<Addr>, fates: seq<Fate>, g: Fate, f: Fate)
    requires |origin| == |fates| && f != Queued && f != g
    ensures With(origin, Settled(fates, g), f) == With(origin, fates, f)
  {
    if fates != [] {
      assert Settled(fates, g)[1..] == Settled(fates[1..], g);
      SettledKeeps(origin[1..], fates[1..], g, f);
    }
  }

  lemma {:induction false} SettledMoves(origin: seq<Addr>, fates: seq<Fate>, g: Fate)
    requires |origin| == |fates| && g != Queued
    ensures With(origin, Settled(fates, g), Queued) == multiset{}
    ensures With(origin, Settled(fates, g), g) == With(origin, fates, g) + With(origin, fates, Queued)
  {
    if fates != [] {
      assert Settled(fates, g)[1..] == Settled(fates[1..], g);
      SettledMoves(origin[1..], fates[1..], g);
    }
  }

  /** After the queue has been emptied, the rest and the queue are what was outstanding. */
  lemma OutstandingSettled(origin: seq<Addr>, fates: seq<Fate>, g: Fate)
    requires |origin| == |fates| && (g == Dropped || g == Abandoned)
    ensures Outstanding(origin, fates) == Outstanding(origin, Settled(fates, g)) + With(origin, fates, Queued)
  {
    SettledKeeps(origin, fates, g, Held);
    SettledKeeps(origin, fates, g, InHand);
    SettledMoves(origin, fates, g);
  }

  lemma OutstandingAfterChange(origin: seq<Addr>, fates: seq<Fate>, i: nat, g: Fate)
    requires |origin| == |fates| && i < |fates|
    ensures Outstanding(origin, fates[i := g]) + Only(IsOutstanding(fates[i]), origin[i])
         == Outstanding(origin, fates) + Only(IsOutstanding(g), origin[i])
  {
    hide With;
    WithAfterChange(origin, fates, i, g, Held);
    WithAfterChange(origin, fates, i, g, Queued);
    WithAfterChange(origin, fates, i, g, InHand);
    var p, f := origin[i], fates[i];
    assert Only(IsOutstanding(f), p) == Only(f == Held, p) + Only(f == Queued, p) + Only(f == InHand, p);
    assert Only(IsOutstanding(g), p) == Only(g == Held, p) + Only(g == Queued, p) + Only(g == InHand, p);
    SumOfThree(With(origin, fates[i := g], Held), Only(f == Held, p), With(origin, fates, Held), Only(g == Held, p),
               With(origin, fates[i := g], Queued), Only(f == Queued, p),
               With(origin, fates, Queued), Only(g == Queued, p),
               With(origin, fates[i := g], InHand), Only(f == InHand, p),
               With(origin, fates, InHand), Only(g == InHand, p));
  }

  lemma SumOfThree(a: multiset<Addr>, b: multiset<Addr>, c: multiset<Addr>, d: multiset<Addr>,
                   a': multiset<Addr>, b': multiset<Addr>, c': multiset<Addr>, d': multiset<Addr>,
                   a'': multiset<Addr>, b'': multiset<Addr>, c'': multiset<Addr>, d'': multiset<Addr>)
    requires a + b == c + d && a' + b' == c' + d' && a'' + b'' == c'' + d''
    ensures a + a' + a'' + (b + b' + b'') == c + c' + c'' + (d + d' + d'')
  {
    assert a + a' + a'' + (b + b' + b'') == (a + b) + (a' + b') + (a'' + b'');
    assert c + c' + c'' + (d + d' + d'') == (c + d) + (c' + d') + (c'' + d'');
  }

  predicate IsOutstanding(f: Fate) {
    f == Held || f == Queued || f == InHand
  }

  lemma OutstandingAfterAppend(origin: seq<Addr>, fates: seq<Fate>, p: Addr)
    requires |origin| == |fates|
    ensures Outstanding(origin + [p], fates + [Held]) == Outstanding(origin, fates) + multiset{p}
  {
    WithAfterAppend(origin, fates, p, Held, Held);
    WithAfterAppend(origin, fates, p, Held, Queued);
    WithAfterAppend(origin, fates, p, Held, InHand);
  }

  lemma {:induction false} HeldIsOutstanding(origin: seq<Addr>, fates: seq<Fate>, i: nat)
    requires |origin| == |fates| && i < |fates| && IsOutstanding(fates[i])
    ensures origin[i] in Outstanding(origin, fates)
  {
    if i > 0 {
      HeldIsOutstanding(origin[1..], fates[1..], i - 1);
    }
  }

  /** The finalizers of some handles have run. */
  function AfterFinalizers(fates: seq<Fate>, ids: seq<nat>): (s: seq<Fate>)
    requires forall i :: 0 <= i < |ids| ==> ids[i] < |fates|
    ensures |s| == |fates|
  {
    if ids == [] then fates
    else
      var s := AfterFinalizers(fates, ids[..|ids| - 1]);
      var id := ids[|ids| - 1];
      if s[id] == Held then s[id := Queued] else s
  }

  /** A finalizer queues what its handle holds, once, and nothing else. */
  lemma {:induction false} FinalizersQueue(fates: seq<Fate>, ids: seq<nat>, id: nat)
    requires (forall i :: 0 <= i < |ids| ==> ids[i] < |fates|) && id < |fates|
    ensures AfterFinalizers(fates, ids)[id] == if id in ids && fates[id] == Held then Queued else fates[id]
  {
    if ids != [] {
      FinalizersQueue(fates, ids[..|ids| - 1], id);
    }
  }

  ghost predicate NoneInHand(fates: seq<Fate>) {
    forall i :: 0 <= i < |fates| ==> fates[i] != InHand
  }

  /** Between calls: fates have moved on, and no call has a reference in hand. */
  ghost predicate Along(before: seq<Fate>, after: seq<Fate>) {
    Progress(before, after) && (NoneInHand(before) ==> NoneInHand(after))
  }

  lemma AlongTransitive(a: seq<Fate>, b: seq<Fate>, c: seq<Fate>)
    requires Along(a, b) && Along(b, c)
    ensures Along(a, c)
  {
    ProgressTransitive(a, b, c);
  }

  lemma AlongAppend(a: seq<Fate>)
    ensures Along(a, a) && Along(a, a + [Held])
  {
  }

  lemma AlongChange(a: seq<Fate>, i: nat, g: Fate)
    requires i < |a| && MovesOn(a[i], g) && g != InHand
    ensures Along(a, a[i := g])
  {
  }

  lemma AlongSettled(a: seq<Fate>, g: Fate)
    requires g == Dropped || g == Abandoned
    ensures Along(a, Settled(a, g))
  {
  }

  lemma {:induction false} AlongFinalizers(a: seq<Fate>, ids: seq<nat>)
    requires forall i :: 0 <= i < |ids| ==> ids[i] < |a|
    ensures Along(a, AfterFinalizers(a, ids))
  {
    if ids != [] {
      AlongFinalizers(a, ids[..|ids| - 1]);
    }
  }

  /** A handle released after the queue has been emptied. */
  lemma AlongReleased(a: seq<Fate>, i: nat)
    requires i < |a| && a[i] == Held
    ensures Along(a, Settled(a, Dropped)[i := Dropped])
  {
    AlongSettled(a, Dropped);
  }

  /** A handle made and released again leaves what is outstanding. */
  lemma MadeAndReleased(origin: seq<Addr>, fates: seq<Fate>, p: Addr)
    requires |origin| == |fates|
    ensures Outstanding(origin + [p], fates + [Dropped]) == Outstanding(origin, fates)
  {
    WithAfterAppend(origin, fates, p, Dropped, Held);
    WithAfterAppend(origin, fates, p, Dropped, Queued);
    WithAfterAppend(origin, fates, p, Dropped, InHand);
  }

  lemma SettledAlready(fates: seq<Fate>)
    ensures Settled(Settled(fates, Dropped) + [Held], Dropped) == Settled(fates, Dropped) + [Held]
    ensures Settled(Settled(fates, Dropped) + [Held], Dropped)[|fates| := Dropped]
         == Settled(fates, Dropped) + [Dropped]
  {
  }
}
