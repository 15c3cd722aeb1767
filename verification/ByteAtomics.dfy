/** Bytes inside 32-bit words, as the sub-word atomics shift and mask them. */
module ByteLanes {

  type Lane = k: nat | k < 4

  /** A byte, as the low bits of a word. */
  type Byte = b: bv32 | b <= 0xFF

  /** `uint8(w >> shift)` for shift = 8k. */
  function ByteOf(w: bv32, k: Lane): Byte {
    match k
    case 0 => w & 0xFF
    case 1 => (w >> 8) & 0xFF
    case 2 => (w >> 16) & 0xFF
    case _ => (w >> 24) & 0xFF
  }

  /** `w &^ mask | uint32(b) << shift` for mask = 0xFF << shift. */
  function WithByte(w: bv32, k: Lane, b: Byte): bv32 {
    match k
    case 0 => (w & 0xFFFF_FF00) | b
    case 1 => (w & 0xFFFF_00FF) | (b << 8)
    case 2 => (w & 0xFF00_FFFF) | (b << 16)
    case _ => (w & 0x00FF_FFFF) | (b << 24)
  }

  /** A word is its four bytes, the lowest first. */
  lemma LittleEndian(w: bv32)
    ensures w == ByteOf(w, 0) | (ByteOf(w, 1) << 8) | (ByteOf(w, 2) << 16) | (ByteOf(w, 3) << 24)
  {
  }

  /** The four bytes of a word are those of another one except that byte k is b. */
  ghost predicate DiffersAt(x: bv32, w: bv32, k: Lane, b: Byte) {
    && ByteOf(x, 0) == (if k == 0 then b else ByteOf(w, 0))
    && ByteOf(x, 1) == (if k == 1 then b else ByteOf(w, 1))
    && ByteOf(x, 2) == (if k == 2 then b else ByteOf(w, 2))
    && ByteOf(x, 3) == (if k == 3 then b else ByteOf(w, 3))
  }

  /** Replacing one byte of a word changes that byte and no other. */
  lemma ReplaceOneByte(w: bv32, k: Lane, b: Byte)
    ensures DiffersAt(WithByte(w, k, b), w, k, b)
  {
    match k
    case 0 => Replace0(w, b);
    case 1 => Replace1(w, b);
    case 2 => Replace2(w, b);
    case _ => Replace3(w, b);
  }

  lemma ByteAfterReplacing(x: bv32, w: bv32, k: Lane, b: Byte, j: Lane)
    requires DiffersAt(x, w, k, b)
    ensures ByteOf(x, j) == if j == k then b else ByteOf(w, j)
  {
  }

  lemma Replace0(w: bv32, b: Byte)
    ensures DiffersAt(WithByte(w, 0, b), w, 0, b)
  {
    Own0(w, b);
    Others0(w, b);
    hide WithByte, ByteOf;
  }

  lemma Own0(w: bv32, b: Byte)
    ensures ByteOf(WithByte(w, 0, b), 0) == b
  {
  }

  lemma Others0(w: bv32, b: Byte)
    ensures ByteOf(WithByte(w, 0, b), 1) == ByteOf(w, 1) && ByteOf(WithByte(w, 0, b), 2) == ByteOf(w, 2)
            && ByteOf(WithByte(w, 0, b), 3) == ByteOf(w, 3)
  {
  }

  lemma Replace1(w: bv32, b: Byte)
    ensures DiffersAt(WithByte(w, 1, b), w, 1, b)
  {
    Own1(w, b);
    Others1(w, b);
    hide WithByte, ByteOf;
  }

  lemma Own1(w: bv32, b: Byte)
    ensures ByteOf(WithByte(w, 1, b), 1) == b
  {
  }

  lemma Others1(w: bv32, b: Byte)
    ensures ByteOf(WithByte(w, 1, b), 0) == ByteOf(w, 0) && ByteOf(WithByte(w, 1, b), 2) == ByteOf(w, 2)
            && ByteOf(WithByte(w, 1, b), 3) == ByteOf(w, 3)
  {
  }

  lemma Replace2(w: bv32, b: Byte)
    ensures DiffersAt(WithByte(w, 2, b), w, 2, b)
  {
    Own2(w, b);
    Others2(w, b);
    hide WithByte, ByteOf;
  }

  lemma Own2(w: bv32, b: Byte)
    ensures ByteOf(WithByte(w, 2, b), 2) == b
  {
  }

  lemma Others2(w: bv32, b: Byte)
    ensures ByteOf(WithByte(w, 2, b), 0) == ByteOf(w, 0) && ByteOf(WithByte(w, 2, b), 1) == ByteOf(w, 1)
            && ByteOf(WithByte(w, 2, b), 3) == ByteOf(w, 3)
  {
  }

  lemma Replace3(w: bv32, b: Byte)
    ensures DiffersAt(WithByte(w, 3, b), w, 3, b)
  {
    Own3(w, b);
    Others3(w, b);
    hide WithByte, ByteOf;
  }

  lemma Own3(w: bv32, b: Byte)
    ensures ByteOf(WithByte(w, 3, b), 3) == b
  {
  }

  lemma Others3(w: bv32, b: Byte)
    ensures ByteOf(WithByte(w, 3, b), 0) == ByteOf(w, 0) && ByteOf(WithByte(w, 3, b), 1) == ByteOf(w, 1)
            && ByteOf(WithByte(w, 3, b), 2) == ByteOf(w, 2)
  {
  }

  /** The bytes of a memory of words, lowest byte of a word first. */
  function Bytes(mem: seq<bv32>): (b: seq<Byte>)
    ensures |b| == 4 * |mem|
  {
    seq(4 * |mem|, i requires 0 <= i < 4 * |mem| => ByteOf(mem[i / 4], i % 4))
  }

  /** Storing a word with one byte replaced is storing that byte. */
  lemma StoreOneByte(mem: seq<bv32>, p: nat, b: Byte)
    requires p < 4 * |mem|
    ensures Bytes(mem[p / 4 := WithByte(mem[p / 4], p % 4, b)]) == Bytes(mem)[p := b]
  {
    var next := mem[p / 4 := WithByte(mem[p / 4], p % 4, b)];
    ReplaceOneByte(mem[p / 4], p % 4, b);
    forall i | 0 <= i < 4 * |mem| ensures Bytes(next)[i] == Bytes(mem)[p := b][i] {
      ByteAfterReplacing(next[p / 4], mem[p / 4], p % 4, b, i % 4);
    }
  }
}

/**
 * Byte operations built from word loads and word compare-and-swaps, run by any number of threads. A step of a
 * thread is one atomic access to a word together with the local computation up to the next one.
 */
module ByteAtomics {
  import opened ByteLanes
  import opened Histories
  import opened Runs

  datatype Op =
    | Load(p: nat)
    | Cas(p: nat, expected: Byte, desired: Byte)
    | Store(p: nat, value: Byte)
    | Exchange(p: nat, value: Byte)
    | CompareExchange(p: nat, expected: Byte, desired: Byte)

  /** What an operation returns; a compare-exchange also leaves a byte in `expected`. */
  datatype Result =
    | Loaded(value: Byte)
    | Swapped(ok: bool)
    | Stored
    | Exchanged(previous: Byte)
    | Compared(ok: bool, expected: Byte)

  /**
   * Where a thread is in its operation: at its first load; at the load inside the byte compare-and-swap, entered
   * with the byte the enclosing loop has read; or at the word compare-and-swap.
   */
  datatype Pc = Begin | Read(want: Byte) | Swap(want: Byte, current: bv32)

  /** A thread, with counters of its word swaps: done, failed, and of bytes found changed by the enclosing loop. */
  datatype Thread = Thread(todo: seq<Op>, pc: Pc, swaps: nat, failed: nat, changed: nat)

  datatype System = System(mem: seq<bv32>, threads: seq<Thread>, log: seq<Event<Op, Result>>)

  /** The operations that call the byte compare-and-swap from a loop of their own. */
  predicate HasOuterLoop(op: Op) {
    op.Store? || op.Exchange? || op.CompareExchange?
  }

  function NewByte(op: Op): Byte
    requires !op.Load?
  {
    match op
    case Cas(_, _, d) => d
    case Store(_, v) => v
    case Exchange(_, v) => v
    case CompareExchange(_, _, d) => d
  }

  function SwapResult(op: Op, want: Byte): Result
    requires !op.Load?
  {
    match op
    case Cas(_, _, _) => Swapped(true)
    case Store(_, _) => Stored
    case Exchange(_, _) => Exchanged(want)
    case CompareExchange(_, e, _) => Compared(true, e)
  }

  predicate Active(s: System, t: nat) {
    t < |s.threads| && s.threads[t].todo != []
  }

  function Finish(s: System, t: nat, result: Result): System
    requires Active(s, t)
  {
    var th := s.threads[t];
    s.(threads := s.threads[t := th.(todo := th.todo[1..], pc := Begin)],
       log := s.log + [Event(t, th.todo[0], result)])
  }

  function Goto(s: System, t: nat, th: Thread): System
    requires Active(s, t)
  {
    s.(threads := s.threads[t := th])
  }

  /** Addresses are inside the memory. */
  predicate InBounds(s: System) {
    forall t, i :: 0 <= t < |s.threads| && 0 <= i < |s.threads[t].todo| ==>
      s.threads[t].todo[i].p < 4 * |s.mem|
  }

  /** One step of thread t. */
  function Step(s: System, t: nat): System
    requires Active(s, t) && InBounds(s)
  {
    var th := s.threads[t];
    var op := th.todo[0];
    var word := s.mem[op.p / 4];
    var byte := ByteOf(word, op.p % 4);
    match th.pc
    case Begin => (
      match op
      case Load(_) => Finish(s, t, Loaded(byte))
      case Cas(_, expected, _) =>
        if byte != expected then Finish(s, t, Swapped(false)) else Goto(s, t, th.(pc := Swap(expected, word)))
      case Store(_, _) => Goto(s, t, th.(pc := Read(byte)))
      case Exchange(_, _) => Goto(s, t, th.(pc := Read(byte)))
      case CompareExchange(_, expected, _) =>
        if byte != expected then Finish(s, t, Compared(false, byte)) else Goto(s, t, th.(pc := Read(byte)))
    )
    case Read(want) =>
      if byte != want then Goto(s, t, th.(pc := Begin, changed := th.changed + 1))
      else Goto(s, t, th.(pc := Swap(want, word)))
    case Swap(want, current) =>
      if op.Load? then s
      else if word == current then
        var stored := s.(mem := s.mem[op.p / 4 := WithByte(current, op.p % 4, NewByte(op))]);
        Finish(Goto(stored, t, th.(swaps := th.swaps + 1)), t, SwapResult(op, want))
      else
        Goto(s, t, th.(pc := if op.Cas? then Begin else Read(want), failed := th.failed + 1))
  }

  // ----- the specification: a memory of independently atomic bytes -----

  function Apply(bytes: seq<Byte>, op: Op): (seq<Byte>, Result)
    requires op.p < |bytes|
  {
    var b := bytes[op.p];
    match op
    case Load(p) => (bytes, Loaded(b))
    case Cas(p, e, d) => if b == e then (bytes[p := d], Swapped(true)) else (bytes, Swapped(false))
    case Store(p, v) => (bytes[p := v], Stored)
    case Exchange(p, v) => (bytes[p := v], Exchanged(b))
    case CompareExchange(p, e, d) =>
      if b == e then (bytes[p := d], Compared(true, e)) else (bytes, Compared(false, b))
  }

  /** The events, taken in order, are what a byte memory going from one state to the other would have answered. */
  ghost predicate Legal(from: seq<Byte>, log: seq<Event<Op, Result>>, to: seq<Byte>) {
    LegalBy(Apply, from, log, to)
  }

  // ----- what every step keeps -----

  /** What a thread remembers is what it once saw, and what its operation is after. */
  predicate ThreadOk(th: Thread) {
    && (th.todo == [] ==> th.pc == Begin)
    && (th.todo != [] ==>
      var op := th.todo[0];
      match th.pc
      case Begin => true
      case Read(want) => HasOuterLoop(op) && (op.CompareExchange? ==> want == op.expected)
      case Swap(want, current) =>
        && !op.Load? && ByteOf(current, op.p % 4) == want
        && (op.CompareExchange? ==> want == op.expected)
        && (op.Cas? ==> want == op.expected))
  }

  predicate Inv(s: System) {
    InBounds(s) && forall t :: 0 <= t < |s.threads| ==> ThreadOk(s.threads[t])
  }

  lemma StepKeepsInv(s: System, t: nat)
    requires Inv(s) && Active(s, t)
    ensures Inv(Step(s, t))
    ensures |Step(s, t).threads| == |s.threads| && |Step(s, t).mem| == |s.mem|
  {
    StepKeepsOthers(s, t);
    StepKeepsThread(s, t);
    hide Step, ThreadOk;
    var s' := Step(s, t);
    forall u, i | 0 <= u < |s'.threads| && 0 <= i < |s'.threads[u].todo|
      ensures s'.threads[u].todo[i].p < 4 * |s'.mem|
    {
      assert s'.threads[u].todo[i] in s.threads[u].todo;
    }
  }

  /** A step is the business of one thread, which goes on with its operation or completes it. */
  lemma StepKeepsOthers(s: System, t: nat)
    requires InBounds(s) && Active(s, t)
    ensures |Step(s, t).threads| == |s.threads| && |Step(s, t).mem| == |s.mem|
    ensures forall u :: 0 <= u < |s.threads| && u != t ==> Step(s, t).threads[u] == s.threads[u]
    ensures Step(s, t).threads[t].todo == s.threads[t].todo || Step(s, t).threads[t].todo == s.threads[t].todo[1..]
  {
  }

  lemma StepKeepsThread(s: System, t: nat)
    requires InBounds(s) && Active(s, t) && ThreadOk(s.threads[t])
    ensures |Step(s, t).threads| == |s.threads| && ThreadOk(Step(s, t).threads[t])
  {
  }

  /**
   * Every step either leaves the bytes and the history alone, or takes effect as one operation of the byte memory,
   * with the result that operation would have there, and completes it.
   */
  lemma StepRefines(s: System, t: nat)
    requires Inv(s) && Active(s, t)
    ensures var s', op := Step(s, t), s.threads[t].todo[0];
            || (Bytes(s'.mem) == Bytes(s.mem) && s'.log == s.log && s'.threads[t].todo == s.threads[t].todo)
            || (var (bytes, result) := Apply(Bytes(s.mem), op);
                && Bytes(s'.mem) == bytes && s'.log == s.log + [Event(t, op, result)]
                && s'.threads[t].todo == s.threads[t].todo[1..])
  {
    var th := s.threads[t];
    assert ThreadOk(th);
    var op := th.todo[0];
    assert op.p < 4 * |s.mem|;
    var word := s.mem[op.p / 4];
    assert Bytes(s.mem)[op.p] == ByteOf(word, op.p % 4);
    if th.pc.Swap? && word == th.pc.current {
      StoreOneByte(s.mem, op.p, NewByte(op));
    }
  }
}
