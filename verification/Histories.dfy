/** What threads have done, in order, and how it relates to what they had to do. */
module Histories {

  datatype Event<Op, Result> = Event(thread: nat, op: Op, result: Result)

  /** The operations of one thread, in order. */
  function OpsOf<Op, Result>(log: seq<Event<Op, Result>>, t: nat): seq<Op> {
    if log == [] then [] else (if log[0].thread == t then [log[0].op] else []) + OpsOf(log[1..], t)
  }

  lemma EventThenOps<Op, Result>(e: Event<Op, Result>, rest: seq<Event<Op, Result>>, u: nat)
    ensures OpsOf([e] + rest, u) == (if e.thread == u then [e.op] else []) + OpsOf(rest, u)
  {
    assert ([e] + rest)[1..] == rest;
  }

  lemma {:induction false} EventIsItsThreads<Op, Result>(log: seq<Event<Op, Result>>, i: nat)
    requires i < |log|
    ensures log[i].op in OpsOf(log, log[i].thread)
  {
    if i > 0 {
      EventIsItsThreads(log[1..], i - 1);
    }
  }

  /**
   * The history completes operations of the threads in program order: each thread had to do what it has done and
   * what is left.
   */
  ghost predicate Completes<Op, Result>(log: seq<Event<Op, Result>>, todo: seq<seq<Op>>, left: seq<seq<Op>>) {
    && |todo| == |left|
    && (forall i :: 0 <= i < |log| ==> log[i].thread < |todo|)
    && (forall t :: 0 <= t < |todo| ==> todo[t] == OpsOf(log, t) + left[t])
  }

  /** Every operation completed was one that its thread had to do. */
  lemma CompletedWasToDo<Op, Result>(log: seq<Event<Op, Result>>, todo: seq<seq<Op>>,
                                                        left: seq<seq<Op>>, i: nat)
    requires Completes(log, todo, left) && i < |log|
    ensures log[i].thread < |todo| && log[i].op in todo[log[i].thread]
  {
    EventIsItsThreads(log, i);
  }

  /** An operation completed first, and then the rest. */
  lemma CompletesOneMore<Op, Result>(e: Event<Op, Result>, rest: seq<Event<Op, Result>>,
                                                        todo: seq<seq<Op>>, left: seq<seq<Op>>)
    requires e.thread < |todo| && todo[e.thread] != [] && todo[e.thread][0] == e.op
    requires Completes(rest, todo[e.thread := todo[e.thread][1..]], left)
    ensures Completes([e] + rest, todo, left)
  {
    forall t | 0 <= t < |todo| ensures todo[t] == OpsOf([e] + rest, t) + left[t] {
      EventThenOps(e, rest, t);
      if t == e.thread {
        assert todo[t] == [e.op] + todo[t][1..];
      }
    }
  }
}
