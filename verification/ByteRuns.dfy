/** Whole runs of the byte operations: linearizability, and bounds on the retries and on the steps. */
module ByteRuns {
  import Words
  import opened ByteLanes
  import opened ByteAtomics
  import opened Histories
  import opened Runs

  /** The turn of thread t: it steps if it has work. */
  function Turn(s: System, t: nat): System {
    if Inv(s) && Active(s, t) then Step(s, t) else s
  }

  /** The run of a schedule: the threads named in it take their turns one after the other. */
  function Run(s: System, schedule: seq<nat>): (s': System)
    requires Inv(s)
    ensures Inv(s') && |s'.threads| == |s.threads| && |s'.mem| == |s.mem|
  {
    RunIsSound(s, schedule);
    RunBy(Turn, s, schedule)
  }

  lemma RunIsSound(s: System, schedule: seq<nat>)
    requires Inv(s)
    ensures var s' := RunBy(Turn, s, schedule); Inv(s') && |s'.threads| == |s.threads| && |s'.mem| == |s.mem|
  {
    var inv := (x: System) => Inv(x) && |x.threads| == |s.threads| && |x.mem| == |s.mem|;
    forall x, t | inv(x) ensures inv(Turn(x, t)) {
      if Active(x, t) {
        StepKeepsInv(x, t);
      }
    }
    RunKeeps(Turn, inv, s, schedule);
  }

  /** What the threads have to do. */
  function Programs(s: System): (p: seq<seq<Op>>)
    ensures |p| == |s.threads| && forall t :: 0 <= t < |p| ==> p[t] == s.threads[t].todo
  {
    seq(|s.threads|, t requires 0 <= t < |s.threads| => s.threads[t].todo)
  }

  /** What can be seen of a run: the bytes, and what the threads have done and have to do. */
  function Outside(): View<System, seq<Byte>, Op, Result> {
    View((s: System) => Bytes(s.mem), (s: System) => s.log, (s: System) => Programs(s), Apply)
  }

  /**
   * The events between two states, in order, are a run of the byte memory from the bytes of the one to the bytes
   * of the other, and complete the operations of each thread in program order.
   */
  ghost predicate Linearized(s: System, s': System) {
    && s.log <= s'.log
    && Legal(Bytes(s.mem), s'.log[|s.log|..], Bytes(s'.mem))
    && Completes(s'.log[|s.log|..], Programs(s), Programs(s'))
  }

  /**
   * Linearizability. Whatever the interleaving, the operations completed during a run, in the order of their
   * last steps, are a run of the byte memory, with the results the threads got.
   */
  lemma RunIsLinearizable(s: System, schedule: seq<nat>)
    requires Inv(s)
    ensures Linearized(s, Run(s, schedule))
  {
    forall x, t | Inv(x)
      ensures Inv(Turn(x, t)) && (Invisible(Outside(), x, Turn(x, t)) || IsOperation(Outside(), x, t, Turn(x, t)))
    {
      if Active(x, t) {
        StepKeepsInv(x, t);
        StepIsSeen(x, t);
      }
    }
    RunIsLinearized(Outside(), Turn, Inv, s, schedule);
  }

  lemma StepIsSeen(s: System, t: nat)
    requires Inv(s) && Active(s, t)
    ensures Invisible(Outside(), s, Step(s, t)) || IsOperation(Outside(), s, t, Step(s, t))
  {
    StepRefines(s, t);
    StepKeepsOthers(s, t);
    var s' := Step(s, t);
    if s'.log == s.log {
      assert Programs(s') == Programs(s);
    } else {
      assert Programs(s') == Programs(s)[t := Programs(s)[t][1..]];
    }
  }

  /** No step of an operation at one address changes the byte at another. */
  lemma StepChangesOwnByteOnly(s: System, t: nat, p: nat)
    requires Inv(s) && Active(s, t) && p < 4 * |s.mem| && p != s.threads[t].todo[0].p
    ensures |Step(s, t).mem| == |s.mem| && Bytes(Step(s, t).mem)[p] == Bytes(s.mem)[p]
  {
    StepKeepsInv(s, t);
    StepRefines(s, t);
  }

  // ----- retries -----

  function SwapsOf(th: Thread): nat {
    th.swaps
  }

  function FailedOf(th: Thread): nat {
    th.failed
  }

  function ChangedOf(th: Thread): nat {
    th.changed
  }

  function Swaps(threads: seq<Thread>): nat {
    Total(threads, SwapsOf)
  }

  function Failed(threads: seq<Thread>): nat {
    Total(threads, FailedOf)
  }

  function Changed(threads: seq<Thread>): nat {
    Total(threads, ChangedOf)
  }

  lemma CountersAfterUpdate(threads: seq<Thread>, t: nat, th: Thread)
    requires t < |threads|
    ensures Swaps(threads[t := th]) == Swaps(threads) - threads[t].swaps + th.swaps
    ensures Failed(threads[t := th]) == Failed(threads) - threads[t].failed + th.failed
    ensures Changed(threads[t := th]) == Changed(threads) - threads[t].changed + th.changed
    ensures threads[t].swaps <= Swaps(threads)
  {
    TotalAfterUpdate(threads, t, th, SwapsOf);
    TotalAfterUpdate(threads, t, th, FailedOf);
    TotalAfterUpdate(threads, t, th, ChangedOf);
  }

  /** The word has been swapped since the thread loaded it: its word swap is going to fail. */
  predicate WordMoved(mem: seq<bv32>, th: Thread)
    requires th.todo != [] ==> th.todo[0].p < 4 * |mem|
  {
    th.todo != [] && th.pc.Swap? && mem[th.todo[0].p / 4] != th.pc.current
  }

  /** The byte has changed since the enclosing loop read it. */
  predicate ByteMoved(mem: seq<bv32>, th: Thread)
    requires th.todo != [] ==> th.todo[0].p < 4 * |mem|
  {
    && th.todo != [] && HasOuterLoop(th.todo[0]) && !th.pc.Begin?
    && ByteOf(mem[th.todo[0].p / 4], th.todo[0].p % 4) != th.pc.want
  }

  /**
   * Failed word swaps of a thread, and a failure already inevitable, are paid for by swaps of other threads, at
   * most one for one; and so are the changed bytes its enclosing loops found.
   */
  ghost predicate Paid(s: System, t: nat)
    requires InBounds(s) && t < |s.threads|
  {
    var th := s.threads[t];
    var others := Swaps(s.threads) - th.swaps;
    && th.failed + (if WordMoved(s.mem, th) then 1 else 0) <= others
    && th.changed + (if ByteMoved(s.mem, th) then 1 else 0) <= others
  }

  ghost predicate AllPaid(s: System)
    requires InBounds(s)
  {
    forall t :: 0 <= t < |s.threads| ==> Paid(s, t)
  }

  lemma StepKeepsPaid(s: System, t: nat)
    requires Inv(s) && Active(s, t) && AllPaid(s)
    ensures Inv(Step(s, t)) && AllPaid(Step(s, t))
  {
    StepKeepsInv(s, t);
    StepKeepsOthers(s, t);
    StepPaysForItself(s, t);
    var s' := Step(s, t);
    forall u | 0 <= u < |s.threads| && u != t ensures Paid(s', u) {
      StepPaysForOthers(s, t, u);
    }
  }

  /** The counters of all threads after a step: one more swap if the step swapped, and then the memory changed. */
  lemma CountersAfterStep(s: System, t: nat)
    requires Inv(s) && Active(s, t)
    ensures |Step(s, t).threads| == |s.threads| && |Step(s, t).mem| == |s.mem|
    ensures var s', th, th' := Step(s, t), s.threads[t], Step(s, t).threads[t];
            && Swaps(s'.threads) == Swaps(s.threads) + th'.swaps - th.swaps
            && th.swaps <= th'.swaps <= th.swaps + 1 && th.swaps <= Swaps(s.threads)
            && (th'.swaps == th.swaps ==> s'.mem == s.mem)
  {
    var s' := Step(s, t);
    CountersAfterUpdate(s.threads, t, s'.threads[t]);
    assert s'.threads == s.threads[t := s'.threads[t]];
  }

  lemma StepPaysForItself(s: System, t: nat)
    requires Inv(s) && Active(s, t) && Paid(s, t) && Inv(Step(s, t))
    ensures |Step(s, t).threads| == |s.threads| && Paid(Step(s, t), t)
  {
    CountersAfterStep(s, t);
    assert ThreadOk(s.threads[t]);
  }

  lemma StepPaysForOthers(s: System, t: nat, u: nat)
    requires Inv(s) && Active(s, t) && u < |s.threads| && u != t && Paid(s, u) && Inv(Step(s, t))
    ensures |Step(s, t).threads| == |s.threads| && Paid(Step(s, t), u)
  {
    CountersAfterStep(s, t);
    StepKeepsOthers(s, t);
  }

  /** Threads that have not stepped yet. */
  predicate Fresh(s: System) {
    && InBounds(s) && s.log == []
    && forall t :: 0 <= t < |s.threads| ==>
         s.threads[t].pc == Begin && s.threads[t].swaps == s.threads[t].failed == s.threads[t].changed == 0
  }

  lemma NothingCounted(threads: seq<Thread>)
    requires forall t :: 0 <= t < |threads| ==> threads[t].swaps == threads[t].failed == threads[t].changed == 0
    ensures Swaps(threads) == Failed(threads) == Changed(threads) == 0
  {
    TotalIsAtMost(threads, SwapsOf, 0);
    TotalIsAtMost(threads, FailedOf, 0);
    TotalIsAtMost(threads, ChangedOf, 0);
  }

  lemma FreshIsPaid(s: System)
    requires Fresh(s)
    ensures Inv(s) && AllPaid(s)
  {
    NothingCounted(s.threads);
  }

  lemma RunKeepsPaid(s: System, schedule: seq<nat>)
    requires Inv(s) && AllPaid(s)
    ensures AllPaid(Run(s, schedule))
  {
    var inv := (x: System) => Inv(x) && AllPaid(x);
    forall x, t | inv(x) ensures inv(Turn(x, t)) {
      if Active(x, t) {
        StepKeepsPaid(x, t);
      }
    }
    RunKeeps(Turn, inv, s, schedule);
  }

  /**
   * In every run of N threads the failed word swaps number at most N - 1 for each successful one, and so do the
   * bytes found changed by the enclosing loops; together they are at most twice that.
   */
  lemma RetriesAreBounded(s: System, schedule: seq<nat>)
    requires Fresh(s) && |s.threads| > 0
    ensures Inv(s)
    ensures var threads := Run(s, schedule).threads;
            && Failed(threads) <= (|threads| - 1) * Swaps(threads)
            && Changed(threads) <= (|threads| - 1) * Swaps(threads)
            && Failed(threads) + Changed(threads) <= 2 * (|threads| - 1) * Swaps(threads)
  {
    FreshIsPaid(s);
    RunKeepsPaid(s, schedule);
    var s' := Run(s, schedule);
    forall t | 0 <= t < |s'.threads|
      ensures s'.threads[t].failed <= Swaps(s'.threads) - s'.threads[t].swaps
      ensures s'.threads[t].changed <= Swaps(s'.threads) - s'.threads[t].swaps
    {
      assert Paid(s', t);
    }
    TotalWithin(s'.threads, FailedOf, SwapsOf, Swaps(s'.threads));
    TotalWithin(s'.threads, ChangedOf, SwapsOf, Swaps(s'.threads));
    OneLess(|s'.threads|, Swaps(s'.threads));
  }

  lemma OneLess(n: nat, x: nat)
    ensures (n - 1) * x == n * x - x && 2 * (n - 1) * x == 2 * ((n - 1) * x)
  {
  }

  /** A thread's retries, of both kinds, stay within the swaps of the other threads. */
  ghost predicate WithinOthersSwaps(s: System, t: nat)
    requires t < |s.threads|
  {
    s.threads[t].failed + s.threads[t].changed <= Swaps(s.threads) - s.threads[t].swaps
  }

  predicate NoOuterLoops(todo: seq<Op>) {
    forall i :: 0 <= i < |todo| ==> !HasOuterLoop(todo[i])
  }

  /** Without an enclosing loop there is no second kind of retry. */
  lemma NoOuterLoopNoChanged(s: System, schedule: seq<nat>, t: nat)
    requires Inv(s) && t < |s.threads| && NoOuterLoops(s.threads[t].todo)
    ensures Run(s, schedule).threads[t].changed == s.threads[t].changed
  {
    var inv := (x: System) => && Inv(x) && t < |x.threads| && x.threads[t].changed == s.threads[t].changed
                              && NoOuterLoops(x.threads[t].todo);
    forall x, u | inv(x) ensures inv(Turn(x, u)) {
      if Active(x, u) {
        StepKeepsInv(x, u);
        StepNoChanged(x, u, t);
      }
    }
    RunKeeps(Turn, inv, s, schedule);
  }

  lemma StepNoChanged(s: System, u: nat, t: nat)
    requires Inv(s) && Active(s, u) && t < |s.threads| && NoOuterLoops(s.threads[t].todo)
    ensures |Step(s, u).threads| == |s.threads| && Step(s, u).threads[t].changed == s.threads[t].changed
    ensures NoOuterLoops(Step(s, u).threads[t].todo)
  {
    StepKeepsOthers(s, u);
    assert ThreadOk(s.threads[t]);
  }

  lemma SingleLoopsStayWithin(s: System, schedule: seq<nat>, t: nat)
    requires Fresh(s) && t < |s.threads| && NoOuterLoops(s.threads[t].todo)
    ensures Inv(s) && WithinOthersSwaps(Run(s, schedule), t)
  {
    FreshIsPaid(s);
    RunKeepsPaid(s, schedule);
    NoOuterLoopNoChanged(s, schedule, t);
    assert Paid(Run(s, schedule), t);
  }

  /** If no operation has an enclosing loop, one swap for each retry is enough for all threads together. */
  lemma SingleLoopsRetryOnce(s: System, schedule: seq<nat>)
    requires Fresh(s) && |s.threads| > 0
    requires forall t :: 0 <= t < |s.threads| ==> NoOuterLoops(s.threads[t].todo)
    ensures Inv(s)
    ensures var threads := Run(s, schedule).threads;
            Failed(threads) + Changed(threads) <= (|threads| - 1) * Swaps(threads)
  {
    RetriesAreBounded(s, schedule);
    var s' := Run(s, schedule);
    forall t | 0 <= t < |s'.threads| ensures s'.threads[t].changed == 0 {
      NoOuterLoopNoChanged(s, schedule, t);
    }
    TotalIsAtMost(s'.threads, ChangedOf, 0);
  }

  /** A thread about to run op, in a memory whose bytes at its address are all b. */
  function Loner(op: Op): Thread {
    Thread([op], Begin, 0, 0, 0)
  }

  /** A byte the operation goes on with once it has read it. */
  function Expected(op: Op): Byte {
    match op
    case Cas(_, e, _) => e
    case CompareExchange(_, e, _) => e
    case _ => 0
  }

  function OtherByte(b: Byte): Byte {
    if b == 0 then 1 else 0
  }

  function MemoryWith(p: nat, b: Byte): (mem: seq<bv32>)
    ensures p < 4 * |mem|
  {
    seq(p / 4 + 1, _ => WithByte(0, p % 4, b))
  }

  /** The other thread's operation: it swaps the byte that op goes on with for a different one. */
  function Rival(op: Op): Op {
    Cas(op.p, Expected(op), OtherByte(Expected(op)))
  }

  /** Two threads: one runs op, the other its rival. */
  function Duel(op: Op): (s: System)
    ensures Fresh(s) && |s.threads| == 2
  {
    System(MemoryWith(op.p, Expected(op)), [Loner(op), Loner(Rival(op))], [])
  }

  lemma DuelMemory(op: Op)
    ensures op.p < 4 * |Duel(op).mem| && ByteOf(Duel(op).mem[op.p / 4], op.p % 4) == Expected(op)
  {
    var lane, b := op.p % 4, Expected(op);
    ReplaceOneByte(0, lane, b);
    ByteAfterReplacing(WithByte(0, lane, b), 0, lane, b, lane);
  }

  /** The duel up to the rival's swap: each thread is at its word swap, with the same word. */
  lemma DuelFirstHalf(op: Op)
    requires HasOuterLoop(op)
    ensures Inv(Duel(op))
    ensures var b := Expected(op);
            var s := Run(Duel(op), [0, 0, 1]);
            var pc := Swap(b, s.mem[op.p / 4]);
            && s.mem == Duel(op).mem && s.log == [] && ByteOf(s.mem[op.p / 4], op.p % 4) == b
            && s.threads == [Loner(op).(pc := pc), Loner(Rival(op)).(pc := pc)]
  {
    hide WithByte, ByteOf;
    var s0 := Duel(op);
    FreshIsPaid(s0);
    DuelMemory(op);
    var b, w := Expected(op), s0.mem[op.p / 4];
    var a, z := Loner(op), Loner(Rival(op));
    var s1 := s0.(threads := [a.(pc := Read(b)), z]);
    assert Step(s0, 0) == s1;
    var s2 := s1.(threads := [a.(pc := Swap(b, w)), z]);
    assert Step(s1, 0) == s2;
    var s3 := s2.(threads := [a.(pc := Swap(b, w)), z.(pc := Swap(b, w))]);
    assert Step(s2, 1) == s3;
    RunOfThree(Turn, s0, 0, 0, 1);
  }

  /** The memory and the history after the rival's swap. */
  function Overtaken(s: System, op: Op, first: Thread): System
    requires op.p < 4 * |s.mem|
  {
    System(s.mem[op.p / 4 := WithByte(s.mem[op.p / 4], op.p % 4, OtherByte(Expected(op)))],
           [first, Thread([], Begin, 1, 0, 0)], [Event(1, Rival(op), Swapped(true))])
  }

  /** Both threads are at their word swaps. */
  ghost predicate Facing(s: System, op: Op) {
    && HasOuterLoop(op) && op.p < 4 * |s.mem| && Inv(s) && s.log == []
    && ByteOf(s.mem[op.p / 4], op.p % 4) == Expected(op)
    && var pc := Swap(Expected(op), s.mem[op.p / 4]);
       s.threads == [Loner(op).(pc := pc), Loner(Rival(op)).(pc := pc)]
  }

  lemma RivalSwaps(s: System, op: Op)
    requires Facing(s, op)
    ensures Step(s, 1) == Overtaken(s, op, s.threads[0])
    ensures ByteOf(Step(s, 1).mem[op.p / 4], op.p % 4) == OtherByte(Expected(op))
  {
    var lane, w, c := op.p % 4, s.mem[op.p / 4], OtherByte(Expected(op));
    ReplaceOneByte(w, lane, c);
    ByteAfterReplacing(WithByte(w, lane, c), w, lane, c, lane);
    assert [Rival(op)][1..] == [];
  }

  /** From there: the rival swaps, the other fails to, and then finds the byte changed. */
  lemma DuelSecondHalf(s: System, op: Op)
    requires Facing(s, op)
    ensures Run(s, [1, 0, 0]).threads == [Thread([op], Begin, 0, 1, 1), Thread([], Begin, 1, 0, 0)]
  {
    hide WithByte, ByteOf;
    RivalSwaps(s, op);
    StepKeepsInv(s, 1);
    var s1 := Step(s, 1);
    var s2 := Overtaken(s, op, s.threads[0].(pc := Read(Expected(op)), failed := 1));
    assert Step(s1, 0) == s2;
    StepKeepsInv(s1, 0);
    var s3 := Overtaken(s, op, Thread([op], Begin, 0, 1, 1));
    assert Step(s2, 0) == s3;
    RunOfThree(Turn, s, 1, 0, 0);
  }

  lemma CountersOfTwo(a: Thread, b: Thread)
    ensures Swaps([a, b]) == a.swaps + b.swaps
    ensures Failed([a, b]) == a.failed + b.failed && Changed([a, b]) == a.changed + b.changed
  {
    TotalOfTwo(a, b, SwapsOf);
    TotalOfTwo(a, b, FailedOf);
    TotalOfTwo(a, b, ChangedOf);
  }

  /**
   * An operation with an enclosing loop can be made to retry twice by one swap of another thread: its word swap
   * fails, and then its compare-and-swap finds the byte changed.
   */
  lemma OneSwapTwoRetries(op: Op)
    requires HasOuterLoop(op)
    ensures Inv(Duel(op))
    ensures var s := Run(Duel(op), [0, 0, 1] + [1, 0, 0]);
            |s.threads| == 2 && Swaps(s.threads) == 1 && Failed(s.threads) + Changed(s.threads) == 2
            && !WithinOthersSwaps(s, 0)
  {
    DuelFirstHalf(op);
    RunInTwo(Turn, Duel(op), [0, 0, 1], [1, 0, 0]);
    DuelSecondHalf(Run(Duel(op), [0, 0, 1]), op);
    CountersOfTwo(Thread([op], Begin, 0, 1, 1), Thread([], Begin, 1, 0, 0));
  }

  /**
   * One swap of another thread for each retry of either kind is enough, in every run, exactly for the operations
   * that have no enclosing loop.
   */
  lemma OneForOneIffSingleLoop(op: Op)
    ensures !HasOuterLoop(op) <==>
            (forall s: System, schedule: seq<nat>, t: nat ::
              Fresh(s) && Inv(s) && t < |s.threads| && s.threads[t].todo == [op] ==>
                WithinOthersSwaps(Run(s, schedule), t))
  {
    if HasOuterLoop(op) {
      OneSwapTwoRetries(op);
      assert Duel(op).threads[0].todo == [op];
    } else {
      forall s: System, schedule: seq<nat>, t: nat
        | Fresh(s) && Inv(s) && t < |s.threads| && s.threads[t].todo == [op]
        ensures WithinOthersSwaps(Run(s, schedule), t)
      {
        SingleLoopsStayWithin(s, schedule, t);
      }
    }
  }

  /** A system about to run: thread t has op to do, and the others only operations without an enclosing loop. */
  predicate AmongSingleLoops(s: System, t: nat, op: Op) {
    && Fresh(s) && t < |s.threads| && s.threads[t].todo == [op]
    && forall u :: 0 <= u < |s.threads| && u != t ==> NoOuterLoops(s.threads[u].todo)
  }

  /** All retries together are at most N - 1 for each successful swap. */
  predicate OneForOne(threads: seq<Thread>) {
    Failed(threads) + Changed(threads) <= (|threads| - 1) * Swaps(threads)
  }

  /**
   * An operation has no enclosing loop exactly if, in every run of it among threads with such operations only, all
   * retries of all threads together are at most N - 1 for each successful swap.
   */
  lemma OneForOneInAllIffSingleLoop(op: Op)
    ensures !HasOuterLoop(op) <==>
            (forall s: System, schedule: seq<nat>, t: nat ::
              Inv(s) && AmongSingleLoops(s, t, op) ==> OneForOne(Run(s, schedule).threads))
  {
    if HasOuterLoop(op) {
      OneSwapTwoRetries(op);
      assert AmongSingleLoops(Duel(op), 0, op);
    } else {
      forall s: System, schedule: seq<nat>, t: nat | Inv(s) && AmongSingleLoops(s, t, op)
        ensures OneForOne(Run(s, schedule).threads)
      {
        SingleLoopsRetryOnce(s, schedule);
      }
    }
  }

  // ----- progress -----

  /** Steps that a run of the schedule really takes. */
  function StepsTaken(s: System, schedule: seq<nat>): nat {
    StepsBy(Turn, Active, s, schedule)
  }

  /** Steps an unfinished operation has taken since its last retry. */
  function Phase(th: Thread): nat {
    match th.pc
    case Begin => 0
    case Read(_) => 1
    case Swap(_, _) => if th.todo != [] && HasOuterLoop(th.todo[0]) then 2 else 1
  }

  function Phases(threads: seq<Thread>): nat {
    Total(threads, Phase)
  }

  /** Work done so far: three steps for an operation completed, two for a retry, and the steps under way. */
  function Work(s: System): nat {
    3 * |s.log| + 2 * Failed(s.threads) + 2 * Changed(s.threads) + Phases(s.threads)
  }

  lemma StepDoesWork(s: System, t: nat)
    requires Inv(s) && Active(s, t)
    ensures Work(Step(s, t)) >= Work(s) + 1
    ensures |Step(s, t).log| - |s.log| >= Swaps(Step(s, t).threads) - Swaps(s.threads)
  {
    var s' := Step(s, t);
    StepKeepsOthers(s, t);
    StepDoesOwnWork(s, t);
    hide Step, Inv;
    CountersAfterUpdate(s.threads, t, s'.threads[t]);
    TotalAfterUpdate(s.threads, t, s'.threads[t], Phase);
    assert s'.threads == s.threads[t := s'.threads[t]];
  }

  lemma StepDoesOwnWork(s: System, t: nat)
    requires Inv(s) && Active(s, t)
    ensures |Step(s, t).threads| == |s.threads|
    ensures var th, th', done := s.threads[t], Step(s, t).threads[t], |Step(s, t).log| - |s.log|;
            && 3 * done + 2 * th'.failed + 2 * th'.changed + Phase(th')
               >= 2 * th.failed + 2 * th.changed + Phase(th) + 1
            && done >= th'.swaps - th.swaps
  {
    assert ThreadOk(s.threads[t]);
  }

  lemma RunDoesWork(s: System, schedule: seq<nat>)
    requires Inv(s)
    ensures Work(Run(s, schedule)) >= Work(s) + StepsTaken(s, schedule)
    ensures |Run(s, schedule).log| - |s.log| >= Swaps(Run(s, schedule).threads) - Swaps(s.threads)
  {
    hide Work, Step;
    var inv := (x: System) => Inv(x) && |x.log| - |s.log| >= Swaps(x.threads) - Swaps(s.threads);
    forall x, t | inv(x) ensures inv(Turn(x, t)) && Work(Turn(x, t)) >= Work(x) + if Active(x, t) then 1 else 0 {
      if Active(x, t) {
        StepKeepsInv(x, t);
        StepDoesWork(x, t);
      }
    }
    RunKeeps(Turn, inv, s, schedule);
    RunWorks(Turn, Active, inv, Work, s, schedule);
  }

  /** Lock-freedom: however the threads are scheduled, enough steps complete operations. */
  lemma StepsCompleteOperations(s: System, schedule: seq<nat>)
    requires Fresh(s) && |s.threads| > 0
    ensures Inv(s)
    ensures StepsTaken(s, schedule) <= (4 * |s.threads| - 1) * |Run(s, schedule).log| + 2 * |s.threads|
  {
    FreshIsPaid(s);
    NothingCounted(s.threads);
    RunDoesWork(s, schedule);
    RetriesAreBounded(s, schedule);
    var s' := Run(s, schedule);
    TotalIsAtMost(s'.threads, Phase, 2);
    StepBudget(|s.threads|, |s'.log|, Swaps(s'.threads), Failed(s'.threads), Changed(s'.threads));
  }

  lemma StepBudget(n: nat, done: nat, swaps: nat, failed: nat, changed: nat)
    requires n > 0 && swaps <= done
    requires failed <= (n - 1) * swaps && changed <= (n - 1) * swaps
    ensures 3 * done + 2 * failed + 2 * changed <= (4 * n - 1) * done
  {
    Words.MulMonotone(n - 1, swaps, done);
    FourTimes(n - 1, done);
  }

  lemma FourTimes(k: nat, x: nat)
    ensures (4 * (k + 1) - 1) * x == 3 * x + 4 * (k * x)
  {
  }

  // ----- conservation -----

  predicate OnlyExchanged(log: seq<Event<Op, Result>>, p: nat) {
    forall i :: 0 <= i < |log| && log[i].op.p == p ==> log[i].op.Exchange?
  }

  ghost function Written(log: seq<Event<Op, Result>>, p: nat): multiset<Byte> {
    if log == [] then multiset{}
    else (if log[0].op.p == p && log[0].op.Exchange? then multiset{log[0].op.value} else multiset{})
         + Written(log[1..], p)
  }

  ghost function Returned(log: seq<Event<Op, Result>>, p: nat): multiset<Byte> {
    if log == [] then multiset{}
    else (if log[0].op.p == p && log[0].result.Exchanged? then multiset{log[0].result.previous} else multiset{})
         + Returned(log[1..], p)
  }

  /** A byte that is only exchanged: what was there and what was written is what was returned and what is there. */
  lemma {:induction false} ExchangesConserve(from: seq<Byte>, log: seq<Event<Op, Result>>, to: seq<Byte>, p: nat)
    requires Legal(from, log, to) && p < |from| && OnlyExchanged(log, p)
    ensures |to| == |from|
    ensures multiset{from[p]} + Written(log, p) == Returned(log, p) + multiset{to[p]}
    decreases |log|
  {
    if log != [] {
      var (next, result) := Apply(from, log[0].op);
      ExchangesConserve(next, log[1..], to, p);
      if log[0].op.p == p {
        assert log[0].op.Exchange? && result == Exchanged(from[p]) && next[p] == log[0].op.value;
        Rearrange(multiset{from[p]}, multiset{next[p]}, Written(log[1..], p), Returned(log[1..], p), multiset{to[p]});
      } else {
        assert next[p] == from[p];
        assert Written(log, p) == Written(log[1..], p) && Returned(log, p) == Returned(log[1..], p);
      }
    }
  }

  /** No thread has anything but exchanges to do at p. */
  predicate ExchangesOnly(s: System, p: nat) {
    forall t, i :: 0 <= t < |s.threads| && 0 <= i < |s.threads[t].todo| && s.threads[t].todo[i].p == p ==>
      s.threads[t].todo[i].Exchange?
  }

  /** In every run of programs that only exchange a byte, what they write and return balances. */
  lemma RunConservesExchanges(s: System, schedule: seq<nat>, p: nat)
    requires Inv(s) && p < 4 * |s.mem| && ExchangesOnly(s, p)
    ensures var s' := Run(s, schedule);
            && s.log <= s'.log
            && var log := s'.log[|s.log|..];
               multiset{Bytes(s.mem)[p]} + Written(log, p) == Returned(log, p) + multiset{Bytes(s'.mem)[p]}
  {
    RunIsLinearizable(s, schedule);
    var s' := Run(s, schedule);
    var log := s'.log[|s.log|..];
    forall i | 0 <= i < |log| && log[i].op.p == p ensures log[i].op.Exchange? {
      CompletedWasToDo(log, Programs(s), Programs(s'), i);
      var k :| 0 <= k < |s.threads[log[i].thread].todo| && s.threads[log[i].thread].todo[k] == log[i].op;
    }
    ExchangesConserve(Bytes(s.mem), log, Bytes(s'.mem), p);
  }

  lemma Rearrange(a: multiset<Byte>, b: multiset<Byte>, w: multiset<Byte>, r: multiset<Byte>, c: multiset<Byte>)
    requires b + w == r + c
    ensures a + (b + w) == (a + r) + c
  {
  }
}
