/**
 * The 64-bit word atomics: single atomic instructions, and the loops of a load and a compare-and-swap that make
 * up fetch-and, fetch-or and compare-exchange, run by any number of threads.
 */
module WordAtomics {
  import opened Words
  import opened Histories
  import opened Runs

  datatype Op =
    | Load(p: nat)
    | Store(p: nat, value: Word)
    | Exchange(p: nat, value: Word)
    | FetchAdd(p: nat, value: Word)
    | FetchAnd(p: nat, value: Word)
    | FetchOr(p: nat, value: Word)
    | CompareExchange(p: nat, expected: Word, desired: Word)

  datatype Result =
    | Done
    | Previous(word: Word)
    | Compared(ok: bool, expected: Word)

  datatype Pc = Begin | Swap(current: Word)

  /** A thread, with counters of its writes and of its failed swaps. */
  datatype Thread = Thread(todo: seq<Op>, pc: Pc, writes: nat, failed: nat)

  datatype System = System(mem: seq<Word>, threads: seq<Thread>, log: seq<Event<Op, Result>>)

  predicate Active(s: System, t: nat) {
    t < |s.threads| && s.threads[t].todo != []
  }

  predicate InBounds(s: System) {
    forall t, i :: 0 <= t < |s.threads| && 0 <= i < |s.threads[t].todo| ==> s.threads[t].todo[i].p < |s.mem|
  }

  /** The thread's operation returns. */
  function Return(s: System, t: nat, result: Result): System
    requires Active(s, t)
  {
    var th := s.threads[t];
    s.(threads := s.threads[t := th.(todo := th.todo[1..], pc := Begin)],
       log := s.log + [Event(t, th.todo[0], result)])
  }

  /** The thread writes the word and returns. */
  function Write(s: System, t: nat, word: Word, result: Result): System
    requires Active(s, t) && InBounds(s)
  {
    var th := s.threads[t];
    s.(mem := s.mem[th.todo[0].p := word],
       threads := s.threads[t := th.(todo := th.todo[1..], pc := Begin, writes := th.writes + 1)],
       log := s.log + [Event(t, th.todo[0], result)])
  }

  /** What the word compare-and-swap of a looping operation writes, and what the operation then returns. */
  function Replacement(op: Op, current: Word): (Word, Result) {
    match op
    case FetchAnd(_, v) => (BitAnd(current, v), Previous(current))
    case FetchOr(_, v) => (WordOr(current, v), Previous(current))
    case CompareExchange(_, e, d) => (d, Compared(true, e))
    case _ => (current, Done)
  }

  /** One step of thread t: an atomic access to the word, and the computation up to the next one. */
  function Step(s: System, t: nat): System
    requires Active(s, t) && InBounds(s)
  {
    var th := s.threads[t];
    var op := th.todo[0];
    var word := s.mem[op.p];
    match th.pc
    case Begin => (
      match op
      case Load(_) => Return(s, t, Previous(word))
      case Store(_, v) => Write(s, t, v, Done)
      case Exchange(_, v) => Write(s, t, v, Previous(word))
      case FetchAdd(_, v) => Write(s, t, Add(word, v), Previous(Sub(Add(word, v), v)))
      case FetchAnd(_, _) => s.(threads := s.threads[t := th.(pc := Swap(word))])
      case FetchOr(_, _) => s.(threads := s.threads[t := th.(pc := Swap(word))])
      case CompareExchange(_, expected, _) =>
        if word != expected then Return(s, t, Compared(false, word))
        else s.(threads := s.threads[t := th.(pc := Swap(word))])
    )
    case Swap(current) =>
      if word == current then
        Write(s, t, Replacement(op, current).0, Replacement(op, current).1)
      else
        s.(threads := s.threads[t := th.(pc := Begin, failed := th.failed + 1)])
  }

  /** The disjunction of two words is a word. */
  function WordOr(a: Word, b: Word): Word {
    Pow2Of63();
    OrFits(a, b, 64);
    BitOr(a, b)
  }

  lemma {:induction false} OrFits(a: nat, b: nat, k: nat)
    requires a < Pow2(k) && b < Pow2(k)
    ensures BitOr(a, b) < Pow2(k)
  {
    if k > 0 {
      OrFits(a / 2, b / 2, k - 1);
    }
  }

  // ----- the specification: every operation in one step -----

  function Apply(mem: seq<Word>, op: Op): (seq<Word>, Result)
    requires op.p < |mem|
  {
    var w := mem[op.p];
    match op
    case Load(p) => (mem, Previous(w))
    case Store(p, v) => (mem[p := v], Done)
    case Exchange(p, v) => (mem[p := v], Previous(w))
    case FetchAdd(p, v) => (mem[p := Add(w, v)], Previous(w))
    case FetchAnd(p, v) => (mem[p := BitAnd(w, v)], Previous(w))
    case FetchOr(p, v) => (mem[p := WordOr(w, v)], Previous(w))
    case CompareExchange(p, e, d) => if w == e then (mem[p := d], Compared(true, e)) else (mem, Compared(false, w))
  }

  ghost predicate Legal(from: seq<Word>, log: seq<Event<Op, Result>>, to: seq<Word>) {
    LegalBy(Apply, from, log, to)
  }

  predicate Loops(op: Op) {
    op.FetchAnd? || op.FetchOr? || op.CompareExchange?
  }

  predicate ThreadOk(th: Thread) {
    th.pc.Swap? ==>
      && th.todo != [] && Loops(th.todo[0])
      && (th.todo[0].CompareExchange? ==> th.pc.current == th.todo[0].expected)
  }

  predicate Inv(s: System) {
    InBounds(s) && forall t :: 0 <= t < |s.threads| ==> ThreadOk(s.threads[t])
  }

  lemma StepKeepsInv(s: System, t: nat)
    requires Inv(s) && Active(s, t)
    ensures Inv(Step(s, t))
    ensures |Step(s, t).threads| == |s.threads| && |Step(s, t).mem| == |s.mem|
    ensures forall u :: 0 <= u < |s.threads| && u != t ==> Step(s, t).threads[u] == s.threads[u]
  {
    var s' := Step(s, t);
    forall u | 0 <= u < |s'.threads| && u != t ensures s'.threads[u] == s.threads[u] {
    }
    assert ThreadOk(s.threads[t]);
    assert ThreadOk(s'.threads[t]);
  }

  /** Every step either changes nothing shared, or is one whole operation of the specification. */
  lemma StepRefines(s: System, t: nat)
    requires Inv(s) && Active(s, t)
    ensures var s', op := Step(s, t), s.threads[t].todo[0];
            || (s'.mem == s.mem && s'.log == s.log && s'.threads[t].todo == s.threads[t].todo)
            || (var (mem, result) := Apply(s.mem, op);
                && s'.mem == mem && s'.log == s.log + [Event(t, op, result)]
                && s'.threads[t].todo == s.threads[t].todo[1..])
  {
    assert ThreadOk(s.threads[t]);
  }

  // ----- whole runs -----

  /** The turn of thread t: it steps if it has work. */
  function Turn(s: System, t: nat): System {
    if Inv(s) && Active(s, t) then Step(s, t) else s
  }

  function Run(s: System, schedule: seq<nat>): (s': System)
    requires Inv(s)
    ensures Inv(s') && |s'.threads| == |s.threads| && |s'.mem| == |s.mem|
  {
    RunIsSound(s, schedule);
    RunBy(Turn, s, schedule)
  }

  lemma RunIsSound(s: System, schedule: seq<nat>)
    requires Inv(s)
    ensures var s' := RunBy(Turn, s, schedule); Inv(s') && |s'.threads| == |s.threads| && |s'.mem| == |s.mem|
  {
    var inv := (x: System) => Inv(x) && |x.threads| == |s.threads| && |x.mem| == |s.mem|;
    forall x, t | inv(x) ensures inv(Turn(x, t)) {
      if Active(x, t) {
        StepKeepsInv(x, t);
      }
    }
    RunKeeps(Turn, inv, s, schedule);
  }

  /** What the threads have to do. */
  function Programs(s: System): (p: seq<seq<Op>>)
    ensures |p| == |s.threads| && forall t :: 0 <= t < |p| ==> p[t] == s.threads[t].todo
  {
    seq(|s.threads|, t requires 0 <= t < |s.threads| => s.threads[t].todo)
  }

  /** What can be seen of a run: the words, and what the threads have done and have to do. */
  function Outside(): View<System, seq<Word>, Op, Result> {
    View((s: System) => s.mem, (s: System) => s.log, (s: System) => Programs(s), Apply)
  }

  /** The events between two states are a run of the specification and follow each thread's program. */
  ghost predicate Linearized(s: System, s': System) {
    && s.log <= s'.log
    && Legal(s.mem, s'.log[|s.log|..], s'.mem)
    && Completes(s'.log[|s.log|..], Programs(s), Programs(s'))
  }

  /**
   * Linearizability: the completed operations, in the order of their last steps, are a run of the specification, and
   * complete the operations of each thread in program order.
   */
  lemma RunIsLinearizable(s: System, schedule: seq<nat>)
    requires Inv(s)
    ensures Linearized(s, Run(s, schedule))
  {
    forall x, t | Inv(x)
      ensures Inv(Turn(x, t)) && (Invisible(Outside(), x, Turn(x, t)) || IsOperation(Outside(), x, t, Turn(x, t)))
    {
      if Active(x, t) {
        StepKeepsInv(x, t);
        StepIsSeen(x, t);
      }
    }
    RunIsLinearized(Outside(), Turn, Inv, s, schedule);
  }

  lemma StepIsSeen(s: System, t: nat)
    requires Inv(s) && Active(s, t)
    ensures Invisible(Outside(), s, Step(s, t)) || IsOperation(Outside(), s, t, Step(s, t))
  {
    StepKeepsInv(s, t);
    StepRefines(s, t);
    var s' := Step(s, t);
    if s'.log == s.log {
      assert Programs(s') == Programs(s);
    } else {
      assert Programs(s') == Programs(s)[t := Programs(s)[t][1..]];
    }
  }

  function WritesOf(th: Thread): nat {
    th.writes
  }

  function FailedOf(th: Thread): nat {
    th.failed
  }

  function Writes(threads: seq<Thread>): nat {
    Total(threads, WritesOf)
  }

  function Failed(threads: seq<Thread>): nat {
    Total(threads, FailedOf)
  }

  /** A thread's failed swaps, and a failure already inevitable, are paid for one for one by writes of others. */
  ghost predicate Paid(s: System, t: nat)
    requires InBounds(s) && t < |s.threads|
  {
    var th := s.threads[t];
    var doomed := th.pc.Swap? && th.todo != [] && s.mem[th.todo[0].p] != th.pc.current;
    th.failed + (if doomed then 1 else 0) <= Writes(s.threads) - th.writes
  }

  ghost predicate AllPaid(s: System)
    requires InBounds(s)
  {
    forall t :: 0 <= t < |s.threads| ==> Paid(s, t)
  }

  lemma StepKeepsPaid(s: System, t: nat)
    requires Inv(s) && Active(s, t) && AllPaid(s)
    ensures Inv(Step(s, t)) && AllPaid(Step(s, t))
  {
    StepKeepsInv(s, t);
    var s' := Step(s, t);
    TotalAfterUpdate(s.threads, t, s'.threads[t], WritesOf);
    assert s'.threads == s.threads[t := s'.threads[t]];
    assert Paid(s, t) && ThreadOk(s.threads[t]);
    assert Paid(s', t);
    forall u | 0 <= u < |s.threads| && u != t ensures Paid(s', u) {
      assert Paid(s, u);
    }
  }

  lemma RunKeepsPaid(s: System, schedule: seq<nat>)
    requires Inv(s) && AllPaid(s)
    ensures AllPaid(Run(s, schedule))
  {
    var inv := (x: System) => Inv(x) && AllPaid(x);
    forall x, t | inv(x) ensures inv(Turn(x, t)) {
      if Active(x, t) {
        StepKeepsPaid(x, t);
      }
    }
    RunKeeps(Turn, inv, s, schedule);
  }

  predicate Fresh(s: System) {
    && InBounds(s) && s.log == []
    && forall t :: 0 <= t < |s.threads| ==>
         s.threads[t].pc == Begin && s.threads[t].writes == s.threads[t].failed == 0
  }

  /** In every run of N threads the failed swaps number at most N - 1 for each write. */
  lemma FailuresAreBounded(s: System, schedule: seq<nat>)
    requires Fresh(s) && |s.threads| > 0
    ensures Inv(s)
    ensures var threads := Run(s, schedule).threads; Failed(threads) <= (|threads| - 1) * Writes(threads)
  {
    RunKeepsPaid(s, schedule);
    var s' := Run(s, schedule);
    forall t | 0 <= t < |s'.threads|
      ensures s'.threads[t].failed <= Writes(s'.threads) - s'.threads[t].writes
    {
      assert Paid(s', t);
    }
    TotalWithin(s'.threads, FailedOf, WritesOf, Writes(s'.threads));
    assert (|s'.threads| - 1) * Writes(s'.threads) == |s'.threads| * Writes(s'.threads) - Writes(s'.threads);
  }

  // ----- progress -----

  /** Has the thread loaded a word that it is going to swap? */
  function Phase(th: Thread): nat {
    if th.pc.Begin? then 0 else 1
  }

  /** Work done so far: two steps for an operation completed, two for a failed swap, and the loads under way. */
  function Work(s: System): nat {
    2 * |s.log| + 2 * Failed(s.threads) + Total(s.threads, Phase)
  }

  lemma StepDoesWork(s: System, t: nat)
    requires Inv(s) && Active(s, t)
    ensures Work(Step(s, t)) >= Work(s) + 1
    ensures |Step(s, t).log| - |s.log| >= Writes(Step(s, t).threads) - Writes(s.threads)
  {
    var s' := Step(s, t);
    StepKeepsInv(s, t);
    TotalAfterUpdate(s.threads, t, s'.threads[t], WritesOf);
    TotalAfterUpdate(s.threads, t, s'.threads[t], FailedOf);
    TotalAfterUpdate(s.threads, t, s'.threads[t], Phase);
    assert s'.threads == s.threads[t := s'.threads[t]];
    assert ThreadOk(s.threads[t]);
  }

  /** Steps that a run of the schedule really takes. */
  function StepsTaken(s: System, schedule: seq<nat>): nat {
    StepsBy(Turn, Active, s, schedule)
  }

  lemma RunDoesWork(s: System, schedule: seq<nat>)
    requires Inv(s)
    ensures Work(Run(s, schedule)) >= Work(s) + StepsTaken(s, schedule)
    ensures |Run(s, schedule).log| - |s.log| >= Writes(Run(s, schedule).threads) - Writes(s.threads)
  {
    hide Work, Step;
    var inv := (x: System) => Inv(x) && |x.log| - |s.log| >= Writes(x.threads) - Writes(s.threads);
    forall x, t | inv(x) ensures inv(Turn(x, t)) && Work(Turn(x, t)) >= Work(x) + if Active(x, t) then 1 else 0 {
      if Active(x, t) {
        StepKeepsInv(x, t);
        StepDoesWork(x, t);
      }
    }
    RunKeeps(Turn, inv, s, schedule);
    RunWorks(Turn, Active, inv, Work, s, schedule);
  }

  /** Lock-freedom: however the threads are scheduled, enough steps complete operations. */
  lemma StepsCompleteOperations(s: System, schedule: seq<nat>)
    requires Fresh(s) && |s.threads| > 0
    ensures Inv(s)
    ensures StepsTaken(s, schedule) <= 2 * |s.threads| * |Run(s, schedule).log| + |s.threads|
  {
    var n, s' := |s.threads|, Run(s, schedule);
    TotalIsAtMost(s.threads, WritesOf, 0);
    TotalIsAtMost(s.threads, FailedOf, 0);
    TotalIsAtMost(s.threads, Phase, 0);
    RunDoesWork(s, schedule);
    FailuresAreBounded(s, schedule);
    TotalIsAtMost(s'.threads, Phase, 1);
    MulMonotone(n - 1, Writes(s'.threads), |s'.log|);
    OneMoreTimes(n - 1, |s'.log|);
  }

  lemma OneMoreTimes(k: nat, x: nat)
    ensures 2 * (k + 1) * x == 2 * x + 2 * (k * x)
  {
  }

  // ----- conservation -----

  predicate OnlyAdded(log: seq<Event<Op, Result>>, p: nat) {
    forall i :: 0 <= i < |log| && log[i].op.p == p ==> log[i].op.FetchAdd?
  }

  /** What one event adds to a word. */
  function Addend(e: Event<Op, Result>, p: nat): Word {
    if e.op.p == p && e.op.FetchAdd? then e.op.value else 0
  }

  /** The sum, modulo 2^64, of what a history adds to a word. */
  function Added(log: seq<Event<Op, Result>>, p: nat): Word {
    if log == [] then 0 else Add(Addend(log[0], p), Added(log[1..], p))
  }

  lemma AddAssociates(a: Word, b: Word, c: Word)
    ensures Add(Add(a, b), c) == Add(a, Add(b, c)) && Add(a, 0) == a
  {
    var x, y := (a + b) / FULL, (b + c) / FULL;
    assert Add(a, b) == a + b - FULL * x && Add(b, c) == b + c - FULL * y;
    assert Add(a, b) + c == a + Add(b, c) + FULL * (y - x);
  }

  lemma AdditionAdds(from: seq<Word>, e: Event<Op, Result>, p: nat)
    requires e.op.p < |from| && p < |from| && (e.op.p == p ==> e.op.FetchAdd?)
    ensures |Apply(from, e.op).0| == |from| && Apply(from, e.op).0[p] == Add(from[p], Addend(e, p))
    ensures e.op.p == p ==> Apply(from, e.op).1 == Previous(from[p])
  {
    AddAssociates(from[p], 0, 0);
  }

  /** A word that is only added to ends up as its first value plus everything added. */
  lemma {:induction false} AdditionsConserve(from: seq<Word>, log: seq<Event<Op, Result>>, to: seq<Word>, p: nat)
    requires Legal(from, log, to) && p < |from| && OnlyAdded(log, p)
    ensures |to| == |from| && to[p] == Add(from[p], Added(log, p))
    decreases |log|
  {
    if log == [] {
      AddAssociates(from[p], 0, 0);
    } else {
      AdditionAdds(from, log[0], p);
      AdditionsConserve(Apply(from, log[0].op).0, log[1..], to, p);
      AddAssociates(from[p], Addend(log[0], p), Added(log[1..], p));
    }
  }

  /** Each addition returns the first value plus what was added before it. */
  lemma {:induction false} AdditionReturnsPrefix(from: seq<Word>, log: seq<Event<Op, Result>>, to: seq<Word>, p: nat,
                                                 i: nat)
    requires Legal(from, log, to) && p < |from| && OnlyAdded(log, p) && i < |log| && log[i].op.p == p
    ensures log[i].result == Previous(Add(from[p], Added(log[..i], p)))
    decreases |log|
  {
    AdditionAdds(from, log[0], p);
    if i == 0 {
      AddAssociates(from[p], 0, 0);
    } else {
      assert log[..i][1..] == log[1..][..i - 1];
      AdditionReturnsPrefix(Apply(from, log[0].op).0, log[1..], to, p, i - 1);
      AddAssociates(from[p], Addend(log[0], p), Added(log[1..][..i - 1], p));
    }
  }

  /** No thread has anything but additions to do at p. */
  predicate AddsOnly(s: System, p: nat) {
    forall t, i :: 0 <= t < |s.threads| && 0 <= i < |s.threads[t].todo| && s.threads[t].todo[i].p == p ==>
      s.threads[t].todo[i].FetchAdd?
  }

  /**
   * In every run of programs that only add to a word it ends up as its first value plus everything added, and each
   * addition returns the first value plus what was added before it.
   */
  lemma RunConservesAdditions(s: System, schedule: seq<nat>, p: nat)
    requires Inv(s) && p < |s.mem| && AddsOnly(s, p)
    ensures var s' := Run(s, schedule);
            && s.log <= s'.log
            && var log := s'.log[|s.log|..];
               && s'.mem[p] == Add(s.mem[p], Added(log, p))
               && forall i :: 0 <= i < |log| && log[i].op.p == p ==>
                    log[i].result == Previous(Add(s.mem[p], Added(log[..i], p)))
  {
    RunIsLinearizable(s, schedule);
    var s' := Run(s, schedule);
    var log := s'.log[|s.log|..];
    forall i | 0 <= i < |log| && log[i].op.p == p ensures log[i].op.FetchAdd? {
      CompletedWasToDo(log, Programs(s), Programs(s'), i);
      var k :| 0 <= k < |s.threads[log[i].thread].todo| && s.threads[log[i].thread].todo[k] == log[i].op;
    }
    AdditionsConserve(s.mem, log, s'.mem, p);
    forall i | 0 <= i < |log| && log[i].op.p == p
      ensures log[i].result == Previous(Add(s.mem[p], Added(log[..i], p)))
    {
      AdditionReturnsPrefix(s.mem, log, s'.mem, p, i);
    }
  }
}
