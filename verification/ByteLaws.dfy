/** What histories of byte operations say, told by events and results alone. */
module ByteLaws {
  import opened ByteLanes
  import opened ByteAtomics
  import opened ByteRuns
  import opened Histories
  import opened Runs

  type Log = seq<Event<Op, Result>>

  /** Has the event written the byte at p, going by its result? */
  predicate Writes(e: Event<Op, Result>, p: nat) {
    && e.op.p == p
    && match e.op
       case Load(_) => false
       case Cas(_, _, _) => e.result == Swapped(true)
       case Store(_, _) => true
       case Exchange(_, _) => true
       case CompareExchange(_, _, _) => e.result.Compared? && e.result.ok
  }

  /** What the operation was to write. */
  function ToWrite(op: Op): Byte
    requires !op.Load?
  {
    match op
    case Cas(_, _, desired) => desired
    case Store(_, value) => value
    case Exchange(_, value) => value
    case CompareExchange(_, _, desired) => desired
  }

  /** The byte at p after the events: what the last one that wrote it was to write, and the first byte if none did. */
  function LastWritten(first: Byte, log: Log, p: nat): Byte {
    if log == [] then first
    else
      var e := log[|log| - 1];
      if Writes(e, p) then ToWrite(e.op) else LastWritten(first, log[..|log| - 1], p)
  }

  /** The event has the result it should have when the byte is `before`. */
  predicate Answers(e: Event<Op, Result>, before: Byte) {
    match e.op
    case Load(_) => e.result == Loaded(before)
    case Cas(_, expected, _) => e.result == Swapped(before == expected)
    case Store(_, _) => e.result == Stored
    case Exchange(_, _) => e.result == Exchanged(before)
    case CompareExchange(_, expected, _) => e.result == Compared(before == expected, before)
  }

  /** Every event at p has the result it should have after those before it. */
  ghost predicate AllAnswer(first: Byte, log: Log, p: nat) {
    forall i :: 0 <= i < |log| && log[i].op.p == p ==> Answers(log[i], LastWritten(first, log[..i], p))
  }

  /** An event, and then the rest. */
  lemma {:induction false} FirstThenRest(first: Byte, e: Event<Op, Result>, rest: Log, p: nat)
    ensures LastWritten(first, [e] + rest, p)
         == LastWritten(if Writes(e, p) then ToWrite(e.op) else first, rest, p)
  {
    var log := [e] + rest;
    if rest == [] {
      assert log == [e] && log[..0] == [];
    } else {
      assert log[..|log| - 1] == [e] + rest[..|rest| - 1];
      FirstThenRest(first, e, rest[..|rest| - 1], p);
    }
  }

  lemma AnswersOfRest(first: Byte, e: Event<Op, Result>, rest: Log, p: nat)
    ensures AllAnswer(first, [e] + rest, p) <==>
              && (e.op.p == p ==> Answers(e, first))
              && AllAnswer(if Writes(e, p) then ToWrite(e.op) else first, rest, p)
  {
    hide Answers;
    var log, next := [e] + rest, if Writes(e, p) then ToWrite(e.op) else first;
    forall i | 0 <= i < |rest| ensures LastWritten(first, log[..i + 1], p) == LastWritten(next, rest[..i], p) {
      assert log[..i + 1] == [e] + rest[..i];
      FirstThenRest(first, e, rest[..i], p);
    }
    assert log[..0] == [];
    if AllAnswer(first, log, p) {
      forall i | 0 <= i < |rest| && rest[i].op.p == p ensures Answers(rest[i], LastWritten(next, rest[..i], p)) {
        assert log[i + 1] == rest[i];
      }
      assert e.op.p == p ==> Answers(log[0], LastWritten(first, log[..0], p));
    }
  }

  /** The events between two memories, one byte at a time. */
  ghost predicate Explains(from: seq<Byte>, log: Log, to: seq<Byte>) {
    && |to| == |from|
    && (forall i :: 0 <= i < |log| ==> log[i].op.p < |from|)
    && (forall p :: 0 <= p < |from| ==> AllAnswer(from[p], log, p) && to[p] == LastWritten(from[p], log, p))
  }

  /**
   * A history is legal exactly when every event has the result it should have after the last write before it, and
   * the memory it ends with holds the last write to each byte.
   */
  lemma {:induction false} LegalIff(from: seq<Byte>, log: Log, to: seq<Byte>)
    ensures Legal(from, log, to) <==> Explains(from, log, to)
    decreases |log|
  {
    hide LastWritten, AllAnswer;
    if log == [] {
      NothingHappened(from, to);
    } else if log[0].op.p < |from| && Answers(log[0], from[log[0].op.p]) {
      var e, rest := log[0], log[1..];
      assert log == [e] + rest;
      EventApplies(from, e);
      LegalIff(Apply(from, e.op).0, rest, to);
      ExplainsOneMore(from, e, rest, to);
    } else if log[0].op.p < |from| {
      var e, rest := log[0], log[1..];
      assert log == [e] + rest;
      EventApplies(from, e);
      AnswersOfRest(from[e.op.p], e, rest, e.op.p);
    }
  }

  lemma NothingHappened(from: seq<Byte>, to: seq<Byte>)
    ensures Explains(from, [], to) <==> from == to
  {
  }

  /** The event at p changes the memory as its result tells, if the result is the one it should have. */
  lemma EventApplies(from: seq<Byte>, e: Event<Op, Result>)
    requires e.op.p < |from|
    ensures Apply(from, e.op).1 == e.result <==> Answers(e, from[e.op.p])
    ensures Answers(e, from[e.op.p]) ==>
              Apply(from, e.op).0 == if Writes(e, e.op.p) then from[e.op.p := ToWrite(e.op)] else from
  {
  }

  lemma ExplainsOneMore(from: seq<Byte>, e: Event<Op, Result>, rest: Log, to: seq<Byte>)
    requires e.op.p < |from| && Answers(e, from[e.op.p])
    ensures Explains(from, [e] + rest, to) <==>
              Explains(if Writes(e, e.op.p) then from[e.op.p := ToWrite(e.op)] else from, rest, to)
  {
    hide LastWritten, AllAnswer, Answers;
    var next := if Writes(e, e.op.p) then from[e.op.p := ToWrite(e.op)] else from;
    forall p | 0 <= p < |from|
      ensures AllAnswer(from[p], [e] + rest, p) <==> AllAnswer(next[p], rest, p)
      ensures LastWritten(from[p], [e] + rest, p) == LastWritten(next[p], rest, p)
    {
      FirstThenRest(from[p], e, rest, p);
      AnswersOfRest(from[p], e, rest, p);
    }
    BoundsOneMore(from, e, rest);
  }

  lemma BoundsOneMore(from: seq<Byte>, e: Event<Op, Result>, rest: Log)
    requires e.op.p < |from|
    ensures (forall i :: 0 <= i < |[e] + rest| ==> ([e] + rest)[i].op.p < |from|) <==>
              (forall i :: 0 <= i < |rest| ==> rest[i].op.p < |from|)
  {
    if forall i :: 0 <= i < |[e] + rest| ==> ([e] + rest)[i].op.p < |from| {
      forall i | 0 <= i < |rest| ensures rest[i].op.p < |from| {
        assert ([e] + rest)[i + 1] == rest[i];
      }
    }
  }

  /** In every run, each byte is what was written last, and each operation returns what was there before it. */
  lemma RunTells(s: System, schedule: seq<nat>)
    requires Inv(s)
    ensures var s' := Run(s, schedule);
            s.log <= s'.log && Explains(Bytes(s.mem), s'.log[|s.log|..], Bytes(s'.mem))
  {
    RunIsLinearizable(s, schedule);
    var s' := Run(s, schedule);
    LegalIff(Bytes(s.mem), s'.log[|s.log|..], Bytes(s'.mem));
  }

  // ----- the last writer -----

  lemma {:induction false} LastWriter(first: Byte, log: Log, p: nat, i: nat) returns (k: nat)
    requires i < |log| && Writes(log[i], p)
    ensures i <= k < |log| && Writes(log[k], p) && LastWritten(first, log, p) == ToWrite(log[k].op)
    ensures forall j :: k < j < |log| ==> !Writes(log[j], p)
  {
    var n := |log| - 1;
    if Writes(log[n], p) {
      k := n;
    } else {
      k := LastWriter(first, log[..n], p, i);
    }
  }

  lemma {:induction false} NoWriter(first: Byte, log: Log, p: nat)
    requires forall i :: 0 <= i < |log| ==> !Writes(log[i], p)
    ensures LastWritten(first, log, p) == first
  {
    if log != [] {
      NoWriter(first, log[..|log| - 1], p);
    }
  }

  // ----- mutual exclusion -----

  /** A compare-and-swap of the byte at p from e to something else that has succeeded. */
  predicate Takes(x: Event<Op, Result>, p: nat, e: Byte) {
    && Writes(x, p) && (x.op.Cas? || x.op.CompareExchange?) && x.op.expected == e && ToWrite(x.op) != e
  }

  /** Between two that take a byte from e, something has written e back. */
  lemma TakenOnlyWhenGivenBack(from: seq<Byte>, log: Log, to: seq<Byte>, p: nat, e: Byte, i: nat, j: nat)
    returns (k: nat)
    requires Legal(from, log, to) && p < |from| && i < j < |log| && Takes(log[i], p, e) && Takes(log[j], p, e)
    ensures i < k < j && Writes(log[k], p) && ToWrite(log[k].op) == e
  {
    LegalIff(from, log, to);
    assert AllAnswer(from[p], log, p);
    assert Answers(log[j], LastWritten(from[p], log[..j], p));
    k := LastWriter(from[p], log[..j], p, i);
  }

  /** No thread does anything at p but load the byte, or swap it from e to something else. */
  predicate TakesOnly(s: System, p: nat, e: Byte) {
    forall t, i :: 0 <= t < |s.threads| && 0 <= i < |s.threads[t].todo| && s.threads[t].todo[i].p == p ==>
      OnlyTakes(s.threads[t].todo[i], e)
  }

  predicate OnlyTakes(op: Op, e: Byte) {
    op.Load? || ((op.Cas? || op.CompareExchange?) && op.expected == e && ToWrite(op) != e)
  }

  /**
   * A byte that is only swapped from e to something else is taken at most once in a run, however many threads try;
   * and it is taken by the first to try if it was e at first, and by none otherwise.
   */
  lemma OneTakes(s: System, schedule: seq<nat>, p: nat, e: Byte)
    requires Inv(s) && p < 4 * |s.mem| && TakesOnly(s, p, e)
    ensures var s' := Run(s, schedule);
            && s.log <= s'.log
            && var log := s'.log[|s.log|..];
               forall i :: 0 <= i < |log| && log[i].op.p == p && !log[i].op.Load? ==>
                 (Takes(log[i], p, e) <==> Bytes(s.mem)[p] == e && NoneBefore(log, p, i))
  {
    RunIsLinearizable(s, schedule);
    var s' := Run(s, schedule);
    var log := s'.log[|s.log|..];
    LegalIff(Bytes(s.mem), log, Bytes(s'.mem));
    forall i | 0 <= i < |log| && log[i].op.p == p ensures OnlyTakes(log[i].op, e) {
      CompletedWasToDo(log, Programs(s), Programs(s'), i);
      var k :| 0 <= k < |s.threads[log[i].thread].todo| && s.threads[log[i].thread].todo[k] == log[i].op;
    }
    forall i | 0 <= i < |log| && log[i].op.p == p && !log[i].op.Load?
      ensures Takes(log[i], p, e) <==> Bytes(s.mem)[p] == e && NoneBefore(log, p, i)
    {
      TakenByFirst(Bytes(s.mem)[p], log, p, e, i);
    }
  }

  /** No event before the i-th has tried to swap the byte at p. */
  predicate NoneBefore(log: Log, p: nat, i: nat)
    requires i <= |log|
  {
    forall j :: 0 <= j < i ==> log[j].op.p != p || log[j].op.Load?
  }

  lemma TakenByFirst(first: Byte, log: Log, p: nat, e: Byte, i: nat)
    requires AllAnswer(first, log, p) && i < |log| && log[i].op.p == p && !log[i].op.Load?
    requires forall j :: 0 <= j < |log| && log[j].op.p == p ==> OnlyTakes(log[j].op, e)
    ensures Takes(log[i], p, e) <==> first == e && NoneBefore(log, p, i)
  {
    assert Answers(log[i], LastWritten(first, log[..i], p));
    if j :| 0 <= j < i && Writes(log[j], p) {
      var k := LastWriter(first, log[..i], p, j);
      assert OnlyTakes(log[k].op, e);
    } else {
      NoWriter(first, log[..i], p);
      if j :| 0 <= j < i && log[j].op.p == p && !log[j].op.Load? {
        assert OnlyTakes(log[j].op, e) && !Writes(log[j], p);
        assert Answers(log[j], LastWritten(first, log[..j], p));
        NoWriter(first, log[..j], p);
      }
    }
  }
}
