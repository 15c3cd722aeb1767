/** What histories of word operations say, told by events, results and single bits alone. */
module WordLaws {
  import opened Words
  import opened WordAtomics
  import opened Histories
  import opened Runs

  type Log = seq<Event<Op, Result>>

  // ----- bits -----

  /** Is bit k set? */
  predicate Bit(w: nat, k: nat) {
    (w / Pow2(k)) % 2 == 1
  }

  lemma BitOfHalf(w: nat, k: nat)
    ensures Bit(w, k + 1) <==> Bit(w / 2, k)
  {
    var p, h := Pow2(k), w / 2;
    var q, r := h / p, h % p;
    assert h == p * q + r;
    Twice(p, q, r, w % 2);
    DivModUnique(w, 2 * p, q, 2 * r + w % 2);
  }

  lemma Twice(p: nat, q: nat, r: nat, b: nat)
    ensures 2 * (p * q + r) + b == (2 * p) * q + (2 * r + b)
  {
  }

  lemma LowestBit(w: nat)
    ensures Bit(w, 0) <==> w % 2 == 1
  {
    assert Pow2(0) == 1;
  }

  lemma NoBitOfZero(k: nat)
    ensures !Bit(0, k)
  {
    SmallMod(0, Pow2(k));
    DivModUnique(0, Pow2(k), 0, 0);
  }

  lemma {:induction false} BitsOfAnd(a: nat, b: nat, k: nat)
    ensures Bit(BitAnd(a, b), k) <==> Bit(a, k) && Bit(b, k)
  {
    hide Bit;
    if a == 0 || b == 0 {
      NoBitOfZero(k);
    } else if k == 0 {
      LowestBit(a);
      LowestBit(b);
      LowestBit(BitAnd(a, b));
    } else {
      BitsOfAnd(a / 2, b / 2, k - 1);
      BitOfHalf(a, k - 1);
      BitOfHalf(b, k - 1);
      BitOfHalf(BitAnd(a, b), k - 1);
      assert BitAnd(a, b) / 2 == BitAnd(a / 2, b / 2);
    }
  }

  lemma {:induction false} BitsOfOr(a: nat, b: nat, k: nat)
    ensures Bit(BitOr(a, b), k) <==> Bit(a, k) || Bit(b, k)
  {
    hide Bit;
    if a == 0 || b == 0 {
      NoBitOfZero(k);
    } else if k == 0 {
      LowestBit(a);
      LowestBit(b);
      LowestBit(BitOr(a, b));
    } else {
      BitsOfOr(a / 2, b / 2, k - 1);
      BitOfHalf(a, k - 1);
      BitOfHalf(b, k - 1);
      BitOfHalf(BitOr(a, b), k - 1);
      assert BitOr(a, b) / 2 == BitOr(a / 2, b / 2);
    }
  }

  /** A number is known by its bits. */
  lemma {:induction false} BitsDetermine(a: nat, b: nat)
    requires forall k: nat :: Bit(a, k) <==> Bit(b, k)
    ensures a == b
  {
    assert Bit(a, 0) <==> Bit(b, 0);
    LowestBit(a);
    LowestBit(b);
    if a != 0 || b != 0 {
      forall k: nat ensures Bit(a / 2, k) <==> Bit(b / 2, k) {
        BitOfHalf(a, k);
        BitOfHalf(b, k);
        assert Bit(a, k + 1) <==> Bit(b, k + 1);
      }
      BitsDetermine(a / 2, b / 2);
    }
  }

  // ----- one word through a history -----

  /** The event takes the word from one value to the other and has the result it should have. */
  ghost predicate Follows(before: Word, e: Event<Op, Result>, after: Word) {
    match e.op
    case Load(_) => after == before && e.result == Previous(before)
    case Store(_, value) => after == value && e.result == Done
    case Exchange(_, value) => after == value && e.result == Previous(before)
    case FetchAdd(_, value) => after == (before + value) % FULL && e.result == Previous(before)
    case FetchAnd(_, value) => IsAnd(after, before, value) && e.result == Previous(before)
    case FetchOr(_, value) => IsOr(after, before, value) && e.result == Previous(before)
    case CompareExchange(_, expected, desired) =>
      after == (if before == expected then desired else before) && e.result == Compared(before == expected, before)
  }

  ghost predicate IsAnd(w: Word, a: Word, b: Word) {
    forall k: nat :: Bit(w, k) <==> Bit(a, k) && Bit(b, k)
  }

  ghost predicate IsOr(w: Word, a: Word, b: Word) {
    forall k: nat :: Bit(w, k) <==> Bit(a, k) || Bit(b, k)
  }

  /** The values of the word at p before, between and after the events. */
  ghost predicate IsTrace(ws: seq<Word>, log: Log, p: nat) {
    && |ws| == |log| + 1
    && forall i :: 0 <= i < |log| ==>
         if log[i].op.p == p then Follows(ws[i], log[i], ws[i + 1]) else ws[i + 1] == ws[i]
  }

  lemma EventFollows(from: seq<Word>, e: Event<Op, Result>, p: nat)
    requires e.op.p < |from| && p < |from| && Apply(from, e.op).1 == e.result
    ensures |Apply(from, e.op).0| == |from|
    ensures e.op.p == p ==> Follows(from[p], e, Apply(from, e.op).0[p])
    ensures e.op.p != p ==> Apply(from, e.op).0[p] == from[p]
  {
    hide BitAnd, BitOr, Bit;
    if e.op.FetchAnd? {
      forall k: nat ensures Bit(BitAnd(from[e.op.p], e.op.value), k)
                       <==> Bit(from[e.op.p], k) && Bit(e.op.value, k) {
        BitsOfAnd(from[e.op.p], e.op.value, k);
      }
    } else if e.op.FetchOr? {
      forall k: nat ensures Bit(BitOr(from[e.op.p], e.op.value), k)
                       <==> Bit(from[e.op.p], k) || Bit(e.op.value, k) {
        BitsOfOr(from[e.op.p], e.op.value, k);
      }
    }
  }

  /** A legal history takes every word from its first value to its last, event by event. */
  lemma {:induction false} HistoryIsTrace(from: seq<Word>, log: Log, to: seq<Word>, p: nat) returns (ws: seq<Word>)
    requires Legal(from, log, to) && p < |from|
    ensures |to| == |from| && IsTrace(ws, log, p) && ws[0] == from[p] && ws[|log|] == to[p]
    decreases |log|
  {
    hide Follows, Apply;
    ws := [from[p]];
    if log != [] {
      EventFollows(from, log[0], p);
      var rest := HistoryIsTrace(Apply(from, log[0].op).0, log[1..], to, p);
      ws := [from[p]] + rest;
      forall i | 0 <= i < |log|
        ensures if log[i].op.p == p then Follows(ws[i], log[i], ws[i + 1]) else ws[i + 1] == ws[i]
      {
        if i > 0 {
          assert log[i] == log[1..][i - 1] && ws[i] == rest[i - 1] && ws[i + 1] == rest[i];
        }
      }
    }
  }

  lemma TraceOfPrefix(ws: seq<Word>, log: Log, p: nat, i: nat)
    requires IsTrace(ws, log, p) && i <= |log|
    ensures IsTrace(ws[..i + 1], log[..i], p)
  {
  }

  /** Only one value follows another. */
  lemma FollowsIsUnique(before: Word, e: Event<Op, Result>, after: Word, after': Word)
    requires Follows(before, e, after) && Follows(before, e, after')
    ensures after == after'
  {
    hide Bit;
    if e.op.FetchAnd? || e.op.FetchOr? {
      forall k: nat ensures Bit(after, k) <==> Bit(after', k) {
      }
      BitsDetermine(after, after');
    }
  }

  /** In every run, each word goes from its first value to its last as the events at it say. */
  lemma RunTells(s: System, schedule: seq<nat>, p: nat) returns (ws: seq<Word>)
    requires Inv(s) && p < |s.mem|
    ensures var s' := Run(s, schedule);
            && s.log <= s'.log
            && IsTrace(ws, s'.log[|s.log|..], p)
            && ws[0] == s.mem[p] && ws[|s'.log| - |s.log|] == s'.mem[p]
  {
    RunIsLinearizable(s, schedule);
    var s' := Run(s, schedule);
    ws := HistoryIsTrace(s.mem, s'.log[|s.log|..], s'.mem, p);
  }

  // ----- the last value stored -----

  /** The event has put a given value into the word at p. */
  predicate Puts(e: Event<Op, Result>, p: nat, value: Word) {
    && e.op.p == p
    && match e.op
       case Store(_, v) => v == value
       case Exchange(_, v) => v == value
       case CompareExchange(_, _, desired) => e.result.Compared? && e.result.ok && desired == value
       case _ => false
  }

  /** The event leaves the word at p as it is. */
  predicate Leaves(e: Event<Op, Result>, p: nat) {
    e.op.p != p || e.op.Load? || (e.op.CompareExchange? && e.result.Compared? && !e.result.ok)
  }

  /** A word holds what has been stored, exchanged or successfully compared and exchanged into it last. */
  lemma {:induction false} LastPutStands(ws: seq<Word>, log: Log, p: nat, i: nat, value: Word)
    requires IsTrace(ws, log, p) && i < |log| && Puts(log[i], p, value)
    requires forall j :: i < j < |log| ==> Leaves(log[j], p)
    ensures ws[|log|] == value
  {
    var n := |log| - 1;
    assert if log[n].op.p == p then Follows(ws[n], log[n], ws[n + 1]) else ws[n + 1] == ws[n];
    if i < n {
      TraceOfPrefix(ws, log, p, n);
      LastPutStands(ws[..n + 1], log[..n], p, i, value);
    }
  }

  /** In every run, a word ends as what was put into it last, if nothing has changed it since. */
  lemma RunKeepsLastPut(s: System, schedule: seq<nat>, p: nat, i: nat, value: Word)
    requires Inv(s) && p < |s.mem| && s.log <= Run(s, schedule).log
    requires var log := Run(s, schedule).log[|s.log|..];
             i < |log| && Puts(log[i], p, value) && forall j :: i < j < |log| ==> Leaves(log[j], p)
    ensures Run(s, schedule).mem[p] == value
  {
    var ws := RunTells(s, schedule, p);
    LastPutStands(ws, Run(s, schedule).log[|s.log|..], p, i, value);
  }

  // ----- words that are only ored, or only anded -----

  predicate OnlyOred(log: Log, p: nat) {
    forall i :: 0 <= i < |log| && log[i].op.p == p ==> log[i].op.FetchOr?
  }

  predicate OnlyAnded(log: Log, p: nat) {
    forall i :: 0 <= i < |log| && log[i].op.p == p ==> log[i].op.FetchAnd?
  }

  /** Is bit k set in an operand of some disjunction? */
  predicate SetInSome(log: Log, p: nat, k: nat) {
    exists i :: 0 <= i < |log| && log[i].op.p == p && log[i].op.FetchOr? && Bit(log[i].op.value, k)
  }

  /** Is bit k set in the operands of all conjunctions? */
  predicate SetInAll(log: Log, p: nat, k: nat) {
    forall i :: 0 <= i < |log| && log[i].op.p == p && log[i].op.FetchAnd? ==> Bit(log[i].op.value, k)
  }

  /** A bit of a word that is only ored is set exactly if it was at first or is in one of the operands. */
  lemma {:induction false} OrsGather(ws: seq<Word>, log: Log, p: nat, k: nat)
    requires IsTrace(ws, log, p) && OnlyOred(log, p)
    ensures Bit(ws[|log|], k) <==> Bit(ws[0], k) || SetInSome(log, p, k)
  {
    hide Bit;
    if log != [] {
      var n := |log| - 1;
      TraceOfPrefix(ws, log, p, n);
      OrsGather(ws[..n + 1], log[..n], p, k);
      assert if log[n].op.p == p then Follows(ws[n], log[n], ws[n + 1]) else ws[n + 1] == ws[n];
      SomeOfPrefix(log, p, k);
    }
  }

  lemma SomeOfPrefix(log: Log, p: nat, k: nat)
    requires log != []
    ensures var n := |log| - 1;
            SetInSome(log, p, k) <==>
              SetInSome(log[..n], p, k) || (log[n].op.p == p && log[n].op.FetchOr? && Bit(log[n].op.value, k))
  {
    hide Bit;
    var n := |log| - 1;
    if SetInSome(log, p, k) {
      var i :| 0 <= i < |log| && log[i].op.p == p && log[i].op.FetchOr? && Bit(log[i].op.value, k);
      assert i < n ==> log[..n][i] == log[i];
    }
    if SetInSome(log[..n], p, k) {
      var i :| 0 <= i < n && log[..n][i].op.p == p && log[..n][i].op.FetchOr? && Bit(log[..n][i].op.value, k);
      assert log[i] == log[..n][i];
    }
  }

  /** A bit of a word that is only anded is set exactly if it was at first and is in all operands. */
  lemma {:induction false} AndsFilter(ws: seq<Word>, log: Log, p: nat, k: nat)
    requires IsTrace(ws, log, p) && OnlyAnded(log, p)
    ensures Bit(ws[|log|], k) <==> Bit(ws[0], k) && SetInAll(log, p, k)
  {
    hide Bit;
    if log != [] {
      var n := |log| - 1;
      TraceOfPrefix(ws, log, p, n);
      AndsFilter(ws[..n + 1], log[..n], p, k);
      assert if log[n].op.p == p then Follows(ws[n], log[n], ws[n + 1]) else ws[n + 1] == ws[n];
      AllOfPrefix(log, p, k);
    }
  }

  lemma AllOfPrefix(log: Log, p: nat, k: nat)
    requires log != []
    ensures var n := |log| - 1;
            SetInAll(log, p, k) <==>
              SetInAll(log[..n], p, k) && (log[n].op.p == p && log[n].op.FetchAnd? ==> Bit(log[n].op.value, k))
  {
    hide Bit;
    var n := |log| - 1;
    if SetInAll(log, p, k) {
      forall i | 0 <= i < n && log[..n][i].op.p == p && log[..n][i].op.FetchAnd? ensures Bit(log[..n][i].op.value, k) {
        assert log[i] == log[..n][i];
      }
    } else {
      var i :| 0 <= i < |log| && log[i].op.p == p && log[i].op.FetchAnd? && !Bit(log[i].op.value, k);
      assert i < n ==> log[..n][i] == log[i];
    }
  }

  /** The result of the i-th event is a word whose bits are those at first and of the operands before it. */
  ghost predicate ReturnsGathered(first: Word, log: Log, p: nat, i: nat)
    requires i < |log|
  {
    && log[i].result.Previous?
    && forall k: nat :: Bit(log[i].result.word, k) <==> Bit(first, k) || SetInSome(log[..i], p, k)
  }

  ghost predicate ReturnsFiltered(first: Word, log: Log, p: nat, i: nat)
    requires i < |log|
  {
    && log[i].result.Previous?
    && forall k: nat :: Bit(log[i].result.word, k) <==> Bit(first, k) && SetInAll(log[..i], p, k)
  }

  lemma EachReturnsGathered(ws: seq<Word>, log: Log, p: nat, i: nat)
    requires IsTrace(ws, log, p) && OnlyOred(log, p) && i < |log| && log[i].op.p == p
    ensures ReturnsGathered(ws[0], log, p, i)
  {
    hide Bit, SetInSome;
    TraceOfPrefix(ws, log, p, i);
    assert Follows(ws[i], log[i], ws[i + 1]);
    forall k: nat ensures Bit(log[i].result.word, k) <==> Bit(ws[0], k) || SetInSome(log[..i], p, k) {
      OrsGather(ws[..i + 1], log[..i], p, k);
    }
  }

  lemma EachReturnsFiltered(ws: seq<Word>, log: Log, p: nat, i: nat)
    requires IsTrace(ws, log, p) && OnlyAnded(log, p) && i < |log| && log[i].op.p == p
    ensures ReturnsFiltered(ws[0], log, p, i)
  {
    hide Bit, SetInAll;
    TraceOfPrefix(ws, log, p, i);
    assert Follows(ws[i], log[i], ws[i + 1]);
    forall k: nat ensures Bit(log[i].result.word, k) <==> Bit(ws[0], k) && SetInAll(log[..i], p, k) {
      AndsFilter(ws[..i + 1], log[..i], p, k);
    }
  }

  predicate OrsOnly(s: System, p: nat) {
    forall t, i :: 0 <= t < |s.threads| && 0 <= i < |s.threads[t].todo| && s.threads[t].todo[i].p == p ==>
      s.threads[t].todo[i].FetchOr?
  }

  predicate AndsOnly(s: System, p: nat) {
    forall t, i :: 0 <= t < |s.threads| && 0 <= i < |s.threads[t].todo| && s.threads[t].todo[i].p == p ==>
      s.threads[t].todo[i].FetchAnd?
  }

  /**
   * In every run of programs that only or a word, a bit of it is set at the end exactly if it was at first or is in
   * one of the operands, and each call returns the bits gathered before it.
   */
  lemma RunGathersBits(s: System, schedule: seq<nat>, p: nat)
    requires Inv(s) && p < |s.mem| && OrsOnly(s, p)
    ensures var s' := Run(s, schedule);
            && s.log <= s'.log
            && var log := s'.log[|s.log|..];
               && (forall k: nat :: Bit(s'.mem[p], k) <==> Bit(s.mem[p], k) || SetInSome(log, p, k))
               && (forall i :: 0 <= i < |log| && log[i].op.p == p ==> ReturnsGathered(s.mem[p], log, p, i))
  {
    hide Bit, SetInSome, ReturnsGathered;
    RunIsLinearizable(s, schedule);
    var s' := Run(s, schedule);
    var log := s'.log[|s.log|..];
    var ws := RunTells(s, schedule, p);
    forall i | 0 <= i < |log| && log[i].op.p == p ensures log[i].op.FetchOr? {
      CompletedWasToDo(log, Programs(s), Programs(s'), i);
      var j :| 0 <= j < |s.threads[log[i].thread].todo| && s.threads[log[i].thread].todo[j] == log[i].op;
    }
    forall k: nat ensures Bit(s'.mem[p], k) <==> Bit(s.mem[p], k) || SetInSome(log, p, k) {
      OrsGather(ws, log, p, k);
    }
    forall i | 0 <= i < |log| && log[i].op.p == p ensures ReturnsGathered(s.mem[p], log, p, i) {
      EachReturnsGathered(ws, log, p, i);
    }
  }

  /**
   * In every run of programs that only and a word, a bit of it is set at the end exactly if it was at first and is in
   * all operands, and each call returns the bits left before it.
   */
  lemma RunFiltersBits(s: System, schedule: seq<nat>, p: nat)
    requires Inv(s) && p < |s.mem| && AndsOnly(s, p)
    ensures var s' := Run(s, schedule);
            && s.log <= s'.log
            && var log := s'.log[|s.log|..];
               && (forall k: nat :: Bit(s'.mem[p], k) <==> Bit(s.mem[p], k) && SetInAll(log, p, k))
               && (forall i :: 0 <= i < |log| && log[i].op.p == p ==> ReturnsFiltered(s.mem[p], log, p, i))
  {
    hide Bit, SetInAll, ReturnsFiltered;
    RunIsLinearizable(s, schedule);
    var s' := Run(s, schedule);
    var log := s'.log[|s.log|..];
    var ws := RunTells(s, schedule, p);
    forall i | 0 <= i < |log| && log[i].op.p == p ensures log[i].op.FetchAnd? {
      CompletedWasToDo(log, Programs(s), Programs(s'), i);
      var j :| 0 <= j < |s.threads[log[i].thread].todo| && s.threads[log[i].thread].todo[j] == log[i].op;
    }
    forall k: nat ensures Bit(s'.mem[p], k) <==> Bit(s.mem[p], k) && SetInAll(log, p, k) {
      AndsFilter(ws, log, p, k);
    }
    forall i | 0 <= i < |log| && log[i].op.p == p ensures ReturnsFiltered(s.mem[p], log, p, i) {
      EachReturnsFiltered(ws, log, p, i);
    }
  }
}
