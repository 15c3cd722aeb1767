/** Runs of threads that take one step at a time in any order, and what can be said of all such runs. */
module Runs {
  import opened Histories

  /** The run of a schedule: the threads named in it take their turns one after the other. */
  function RunBy<S>(turn: (S, nat) -> S, s: S, schedule: seq<nat>): S
    decreases |schedule|
  {
    if schedule == [] then s else RunBy(turn, turn(s, schedule[0]), schedule[1..])
  }

  /** Every turn keeps the invariant. */
  ghost predicate Keeps<S(!new)>(turn: (S, nat) -> S, inv: S -> bool) {
    forall s, t :: inv(s) ==> inv(turn(s, t))
  }

  lemma {:induction false} RunKeeps<S(!new)>(turn: (S, nat) -> S, inv: S -> bool, s: S, schedule: seq<nat>)
    requires Keeps(turn, inv) && inv(s)
    ensures inv(RunBy(turn, s, schedule))
    decreases |schedule|
  {
    if schedule != [] {
      RunKeeps(turn, inv, turn(s, schedule[0]), schedule[1..]);
    }
  }

  lemma {:induction false} RunInTwo<S>(turn: (S, nat) -> S, s: S, a: seq<nat>, b: seq<nat>)
    ensures RunBy(turn, s, a + b) == RunBy(turn, RunBy(turn, s, a), b)
    decreases |a|
  {
    if a == [] {
      assert a + b == b;
    } else {
      assert (a + b)[1..] == a[1..] + b;
      RunInTwo(turn, turn(s, a[0]), a[1..], b);
    }
  }

  lemma RunOfThree<S>(turn: (S, nat) -> S, s: S, t: nat, u: nat, v: nat)
    ensures RunBy(turn, s, [t, u, v]) == turn(turn(turn(s, t), u), v)
  {
    var last := turn(turn(turn(s, t), u), v);
    assert [t, u, v][1..] == [u, v] && [u, v][1..] == [v] && [v][1..] == [];
    assert RunBy(turn, turn(turn(s, t), u), [v]) == RunBy(turn, last, []) == last;
  }

  /** How many turns of a run find the thread with work to do. */
  function StepsBy<S>(turn: (S, nat) -> S, active: (S, nat) -> bool, s: S, schedule: seq<nat>): nat
    decreases |schedule|
  {
    if schedule == [] then 0
    else (if active(s, schedule[0]) then 1 else 0) + StepsBy(turn, active, turn(s, schedule[0]), schedule[1..])
  }

  /** Every turn of a thread with work to do does some work. */
  ghost predicate Works<S(!new)>(turn: (S, nat) -> S, active: (S, nat) -> bool, inv: S -> bool, work: S -> nat) {
    forall s, t :: inv(s) ==> work(turn(s, t)) >= work(s) + if active(s, t) then 1 else 0
  }

  lemma {:induction false} RunWorks<S(!new)>(
    turn: (S, nat) -> S, active: (S, nat) -> bool, inv: S -> bool, work: S -> nat, s: S, schedule: seq<nat>)
    requires Keeps(turn, inv) && Works(turn, active, inv, work) && inv(s)
    ensures work(RunBy(turn, s, schedule)) >= work(s) + StepsBy(turn, active, s, schedule)
    decreases |schedule|
  {
    if schedule != [] {
      RunWorks(turn, active, inv, work, turn(s, schedule[0]), schedule[1..]);
    }
  }

  // ----- linearizability -----

  /**
   * A machine seen from outside: its memory, what its threads have done and what they have to do; and the memory it
   * stands for, on which every operation is one step.
   */
  datatype View<!S, !M, !Op, R> = View(
    memory: S -> M, log: S -> seq<Event<Op, R>>, programs: S -> seq<seq<Op>>, apply: (M, Op) --> (M, R))

  /** The events, taken in order, are what the memory going from one state to the other would have answered. */
  ghost predicate LegalBy<M, Op, R>(apply: (M, Op) --> (M, R), from: M, log: seq<Event<Op, R>>, to: M)
    decreases |log|
  {
    if log == [] then from == to
    else
      && apply.requires(from, log[0].op)
      && apply(from, log[0].op).1 == log[0].result
      && LegalBy(apply, apply(from, log[0].op).0, log[1..], to)
  }

  /**
   * The events between two states, in order, are a run of the memory from the one to the other, and complete the
   * operations of each thread in program order.
   */
  ghost predicate LinearizedBy<S, M, Op, R>(view: View<S, M, Op, R>, s: S, s': S) {
    var before, after := view.log(s), view.log(s');
    && before <= after
    && LegalBy(view.apply, view.memory(s), after[|before|..], view.memory(s'))
    && Completes(after[|before|..], view.programs(s), view.programs(s'))
  }

  /** The step is invisible. */
  ghost predicate Invisible<S, M, Op, R>(view: View<S, M, Op, R>, s: S, s': S) {
    view.memory(s') == view.memory(s) && view.log(s') == view.log(s) && view.programs(s') == view.programs(s)
  }

  /** The step is the next operation of thread t, on the memory, with its result. */
  ghost predicate IsOperation<S, M, Op, R>(view: View<S, M, Op, R>, s: S, t: nat, s': S) {
    && t < |view.programs(s)| && view.programs(s)[t] != []
    && var op, rest := view.programs(s)[t][0], view.programs(s)[t][1..];
       && view.apply.requires(view.memory(s), op)
       && var (memory, result) := view.apply(view.memory(s), op);
          && view.memory(s') == memory && view.log(s') == view.log(s) + [Event(t, op, result)]
          && view.programs(s') == view.programs(s)[t := rest]
  }

  /** Every turn is invisible or one operation. */
  ghost predicate Refines<S(!new), M, Op, R>(view: View<S, M, Op, R>, turn: (S, nat) -> S, inv: S -> bool) {
    forall s, t :: inv(s) ==> Invisible(view, s, turn(s, t)) || IsOperation(view, s, t, turn(s, t))
  }

  /** A machine whose every turn is invisible or one operation is linearizable, whatever the schedule. */
  lemma {:induction false} RunIsLinearized<S(!new), M, Op, R>(
    view: View<S, M, Op, R>, turn: (S, nat) -> S, inv: S -> bool, s: S, schedule: seq<nat>)
    requires Keeps(turn, inv) && Refines(view, turn, inv) && inv(s)
    ensures LinearizedBy(view, s, RunBy(turn, s, schedule))
    decreases |schedule|
  {
    if schedule == [] {
      assert view.log(s)[|view.log(s)|..] == [];
    } else {
      var t := schedule[0];
      RunIsLinearized(view, turn, inv, turn(s, t), schedule[1..]);
      if !Invisible(view, s, turn(s, t)) {
        OperationThenRest(view, s, t, turn(s, t), RunBy(turn, s, schedule));
      }
    }
  }

  lemma OperationThenRest<S, M, Op, R>(view: View<S, M, Op, R>, s: S, t: nat, s1: S, s': S)
    requires IsOperation(view, s, t, s1) && LinearizedBy(view, s1, s')
    ensures LinearizedBy(view, s, s')
  {
    var e := view.log(s1)[|view.log(s)|];
    var rest := view.log(s')[|view.log(s1)|..];
    assert view.log(s')[|view.log(s)|..] == [e] + rest;
    CompletesOneMore(e, rest, view.programs(s), view.programs(s'));
    assert ([e] + rest)[1..] == rest;
  }

  // ----- counting -----

  /** The sum over all threads. */
  function Total<T>(threads: seq<T>, count: T -> nat): nat {
    if threads == [] then 0 else count(threads[0]) + Total(threads[1..], count)
  }

  lemma {:induction false} TotalAfterUpdate<T>(threads: seq<T>, t: nat, th: T, count: T -> nat)
    requires t < |threads|
    ensures Total(threads[t := th], count) == Total(threads, count) - count(threads[t]) + count(th)
    ensures count(threads[t]) <= Total(threads, count)
  {
    if t == 0 {
      assert threads[0 := th][1..] == threads[1..];
    } else {
      TotalAfterUpdate(threads[1..], t - 1, th, count);
      assert threads[t := th][1..] == threads[1..][t - 1 := th];
    }
  }

  lemma {:induction false} TotalIsAtMost<T>(threads: seq<T>, count: T -> nat, most: nat)
    requires forall t :: 0 <= t < |threads| ==> count(threads[t]) <= most
    ensures Total(threads, count) <= most * |threads|
  {
    if threads != [] {
      TotalIsAtMost(threads[1..], count, most);
      assert most * |threads| == most + most * (|threads| - 1);
    }
  }

  lemma TotalOfTwo<T>(a: T, b: T, count: T -> nat)
    ensures Total([a, b], count) == count(a) + count(b)
  {
    assert [a, b][1..] == [b] && [b][1..] == [];
    assert Total([b], count) == count(b);
  }

  /** What each thread is charged is paid by the others: in all, each payment is charged by every thread but one. */
  lemma {:induction false} TotalWithin<T>(threads: seq<T>, charged: T -> nat, paid: T -> nat, all: nat)
    requires forall t :: 0 <= t < |threads| ==> charged(threads[t]) <= all - paid(threads[t])
    ensures Total(threads, charged) <= |threads| * all - Total(threads, paid)
  {
    if threads != [] {
      TotalWithin(threads[1..], charged, paid, all);
      assert |threads| * all == (|threads| - 1) * all + all;
    }
  }
}
