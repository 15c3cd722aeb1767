/**
 * The byte operations in the form of their loops, as one thread runs them against an arbitrary finite
 * interference: before each of its accesses to the word, other threads may store any of the words still to come.
 */
module ByteLoops {
  import opened ByteLanes

  class SharedWord {
    var word: bv32
    /** The words other threads are going to store, in order. */
    var coming: seq<bv32>
    /** Every word stored so far, the current one last. */
    ghost var history: seq<bv32>

    ghost predicate Valid()
      reads this
    {
      history != [] && history[|history| - 1] == word
    }

    constructor (word: bv32, coming: seq<bv32>)
      ensures Valid() && this.word == word && this.coming == coming && history == [word]
    {
      this.word, this.coming, history := word, coming, [word];
    }

    /** Only other threads have stored since then: some of the coming words have moved into the history. */
    twostate predicate OnlyOthers()
      reads this
    {
      old(history) + old(coming) == history + coming && old(history) <= history
    }

    /**
     * Other threads have stored and then this one has: its last store replaced one byte of the word that was
     * there, which held `was`.
     */
    twostate predicate OthersThenReplaced(k: Lane, was: Byte, value: Byte)
      reads this
    {
      && |history| >= 2 && |old(history)| <= |history| - 1
      && old(history) + old(coming) == history[..|history| - 1] + coming
      && ByteOf(history[|history| - 2], k) == was
      && word == WithByte(history[|history| - 2], k, value)
    }

    /** Let other threads store some of the coming words. */
    method Interfere()
      requires Valid()
      modifies this
      ensures Valid() && OnlyOthers()
      ensures word != old(word) ==> |coming| < |old(coming)|
      ensures |coming| <= |old(coming)|
    {
      var n: nat :| n <= |coming|;
      if n > 0 {
        word := coming[n - 1];
        history := history + coming[..n];
        coming := coming[n..];
      }
    }

    method LoadUint32() returns (w: bv32)
      requires Valid()
      modifies this
      ensures Valid() && OnlyOthers() && w == word
      ensures |coming| <= |old(coming)|
    {
      Interfere();
      w := word;
    }

    method CompareAndSwapUint32(old_: bv32, new_: bv32) returns (ok: bool)
      requires Valid()
      modifies this
      ensures Valid() && |coming| <= |old(coming)|
      ensures !ok ==> OnlyOthers() && word != old_ && (old(word) == old_ ==> |coming| < |old(coming)|)
      ensures ok ==> |history| >= 2 && |old(history)| <= |history| - 1
      ensures ok ==> old(history) + old(coming) == history[..|history| - 1] + coming
      ensures ok ==> history[|history| - 2] == old_ && word == new_
    {
      Interfere();
      ok := word == old_;
      if ok {
        ghost var before := history;
        word := new_;
        history := history + [new_];
        assert history[..|history| - 1] == before;
      }
    }

    method LoadUint8(k: Lane) returns (b: Byte)
      requires Valid()
      modifies this
      ensures Valid() && OnlyOthers() && b == ByteOf(word, k)
      ensures |coming| <= |old(coming)|
    {
      var w := LoadUint32();
      b := ByteOf(w, k);
    }

    /**
     * The byte compare-and-swap. It fails only at a moment when the byte differs, and never because another byte
     * of the word has changed; each of its retries uses up a store of another thread.
     */
    method CasUint8(k: Lane, expected: Byte, desired: Byte) returns (ok: bool, ghost retries: nat)
      requires Valid()
      modifies this
      ensures Valid() && retries + |coming| <= |old(coming)|
      ensures ok ==> OthersThenReplaced(k, expected, desired)
      ensures !ok ==> OnlyOthers() && ByteOf(word, k) != expected
      ensures !ok && ByteOf(old(word), k) == expected ==> |coming| < |old(coming)|
    {
      retries := 0;
      while true
        invariant Valid() && OnlyOthers() && retries + |coming| <= |old(coming)|
        invariant retries == 0 ==> word == old(word) && coming == old(coming)
        decreases |coming|
      {
        var current := LoadUint32();
        if ByteOf(current, k) != expected {
          return false, retries;
        }
        ok := CompareAndSwapUint32(current, WithByte(current, k, desired));
        if ok {
          return true, retries;
        }
        retries := retries + 1;
      }
    }

    /** The store: a loop of a load and a byte compare-and-swap. */
    method StoreUint8(k: Lane, value: Byte)
      requires Valid()
      modifies this
      ensures Valid() && exists was: Byte :: OthersThenReplaced(k, was, value)
    {
      while true
        invariant Valid() && OnlyOthers() && |coming| <= |old(coming)|
        decreases |coming|
      {
        var was := LoadUint8(k);
        ghost var retries;
        var ok;
        ok, retries := CasUint8(k, was, value);
        if ok {
          assert OthersThenReplaced(k, was, value);
          return;
        }
      }
    }

    /** The exchange: the same loop, returning the byte that was replaced. */
    method ExchangeUint8(k: Lane, value: Byte) returns (was: Byte)
      requires Valid()
      modifies this
      ensures Valid() && OthersThenReplaced(k, was, value)
    {
      while true
        invariant Valid() && OnlyOthers() && |coming| <= |old(coming)|
        decreases |coming|
      {
        was := LoadUint8(k);
        ghost var retries;
        var ok;
        ok, retries := CasUint8(k, was, value);
        if ok {
          return;
        }
      }
    }

    /**
     * The strong compare-exchange on `expected`: it reports failure only when it has seen another byte, which it
     * then returns as the new `expected`, and success only when it has replaced the expected byte in one step.
     */
    method CompareExchangeUint8(k: Lane, expected: Byte, desired: Byte) returns (ok: bool, expected': Byte)
      requires Valid()
      modifies this
      ensures Valid()
      ensures ok ==> OthersThenReplaced(k, expected, desired) && expected' == expected
      ensures !ok ==> OnlyOthers() && expected' == ByteOf(word, k) && expected' != expected
    {
      while true
        invariant Valid() && OnlyOthers() && |coming| <= |old(coming)|
        decreases |coming|
      {
        var seen := LoadUint8(k);
        if seen != expected {
          return false, seen;
        }
        ghost var retries;
        ok, retries := CasUint8(k, seen, desired);
        if ok {
          return true, expected;
        }
      }
    }
  }
}
