# Proofs about the CPython embedding for Go

A Dafny model of three independent parts of the repository, and proofs about them.

**Multi-word decimal arithmetic** (`Words`, `RadixDivision`, `WordDivision`, `Digits`, `BaseArithmetic`, `AllNines`,
`PyTime`). The base arithmetic of the decimal library on little-endian arrays of 64-bit words below 10^19. All word
arithmetic wraps explicitly at 2^64, so that the exactness of the 64 by 64 bit product, of the division by the radix
with a precomputed reciprocal, and of Knuth's two-digit division is proved and not presupposed. On top of them stand the
five multiplication and division loops over any number of words, in place over arrays, and what they do to each other.
The code that writes and recognises coefficients of all nines and the saturating time arithmetic of the same file
follow.

**Sub-word atomics** (`ByteLanes`, `Histories`, `Runs`, `ByteAtomics`, `ByteRuns`, `ByteLaws`, `ByteLoops`,
`WordAtomics`, `WordLaws`). Byte operations made of loads and compare-and-swaps of 32-bit words, as a state machine of N
threads that take one atomic access at a time in any order. Every run is linearizable to a memory of independently
atomic bytes; retries and steps are bounded over whole runs. `Runs` has what byte and word operations share: a machine
whose every step is invisible or one whole operation is linearizable, and what each thread is charged for sums up.
`ByteLaws` and `WordLaws` say what the histories mean, from events, results and single bits alone. `ByteLoops` has the
same loops as the code writes them, against any finite interference.

**References between Go and the Python heap** (`PyHeap`, `Keys`, `Python`, `Merging`, `Values`, `NormalForms`, `Copies`,
`Structures`, `Meanings`, `Handles`, `Conversions`, `Reading`, `Bookkeeping`, `Embedding`). A reference-counted heap in
which dropping the last reference to an object drops those it holds, and the part of the C API that the conversions
call. Any call that allocates can fail. Which objects have a hash, and which are equal as dictionary keys, is taken from
the heap, through tuples and frozensets. `toPy` and `fromPy` are proved to keep every count exact on every path, to be
inverse up to a normal form, and to fail exactly where they should, with the error they should; `Meanings` says what
values become and what objects are read as in terms of the objects alone; a failure of `fromPy` may leave handles to
objects without a Go value of their own, and these are accounted for. The life of a handle (`obj`, `Release`, the
finalizer, the drained queue, `Close`, a crash) is proved to give up every reference once. `Runtime.owned` and `origin`
and `fates` of the interpreter are ghost state: the first says which references are held from outside the heap, the
others what each handle took and what became of it.

`dafny verify dfyconfig.toml` checks the project. Where a proof is an induction, automatic induction is off, so that the
proof uses nothing that its body does not name; where a definition is not needed in a proof, the body hides it.

## What holds otherwise than one might expect

- The underflow branch of `_pytime_divmod`, which its comment describes, is never taken: with a negative remainder the
  truncated quotient is above the minimum (`PyTime.TruncatedRange`). The result is the Euclidean quotient and remainder
  exactly when the divisor is positive, or the truncated remainder is not negative and the division is not of the least
  time by -1 (`PyTime.DivMod`).
- `_pytime_mul` clamps the product and returns -1 exactly on overflow if and only if the factor is not negative, or the
  factor is -1 and the time is one above the least (`PyTime.Mul`). With a negative factor even zero times it is reported
  as an overflow (`PyTime.NegativeFactorMisreported`), and the least time times -1, which does overflow, is not: the call
  returns the least time and success (`PyTime.UnreportedOverflow`). Which products are reported is exactly
  `PyTime.NegativeFactor`.
- One word swap of another thread can cost a thread two retries, one of the byte compare-and-swap and one of the loop
  around it. A bound of one retry for each foreign swap therefore holds exactly for the operations without such a loop,
  thread by thread (`ByteRuns.OneForOneIffSingleLoop`) and for all threads together
  (`ByteRuns.OneForOneInAllIffSingleLoop`, `ByteRuns.OneSwapTwoRetries`, `ByteRuns.SingleLoopsRetryOnce`); each kind of
  retry on its own is within one for each foreign swap, and both together within two (`ByteRuns.RetriesAreBounded`).

## Model

| member | source | states |
|---|---|---|
| Words.MulWords | libpython/ccgo_g_0000000000000033_00.go:862-877 | The product of two words by four products of 32-bit halves is exact in 128 bits, with no wrap in any step. |
| RadixDivision.ReciprocalOfRadix | libpython/ccgo_g_0000000000000033_00.go:888-915 | `Xmprime_rdx` is floor((2^128 - 1) / 10^19) - 2^64, with an error of at most one radix. |
| RadixDivision.EstimateIsClose | libpython/ccgo_g_0000000000000033_00.go:888-915 | For every high word below the radix the quotient estimate is the quotient or one less. |
| RadixDivision.MaskSelectsQuotient | libpython/ccgo_g_0000000000000033_00.go:916-948 | The wrapped high word left after subtracting one more radix is 0 or 2^64 - 1, and as a mask it selects the exact quotient and remainder. |
| RadixDivision.DivByRadix | libpython/ccgo_g_0000000000000033_00.go:888-948 | The whole wrapped sequence yields the exact quotient and remainder by 10^19 for every hi < 10^19 and every lo. |
| WordDivision.LeadingZeros | libpython/ccgo_g_0000000000000033_00.go:1012-1040 | The binary search finds the shift that brings a nonzero word into [2^63, 2^64); 64 for zero. |
| WordDivision.TestIsExact | libpython/ccgo_g_0000000000000033_00.go:1050-1068 | The test of a correction loop holds exactly when the digit estimate is too large. |
| WordDivision.LargeRemainderSettles | libpython/ccgo_g_0000000000000033_00.go:1050-1068 | When the partial remainder has reached 2^32 the estimate is right, so leaving the loop there is correct. |
| WordDivision.QuotientDigit | libpython/ccgo_g_0000000000000033_00.go:1046-1068 | Each correction loop ends with the exact quotient digit below 2^32 after at most two corrections. |
| WordDivision.PartialRemainder | libpython/ccgo_g_0000000000000033_00.go:1066-1070 | The partial remainder computed by wrapping operations is the true one and below the divisor. |
| WordDivision.DivWords | libpython/ccgo_g_0000000000000033_00.go:1012-1087 | For every v and hi < v the two digit steps give the exact quotient and remainder of the 128-bit dividend. |
| BaseArithmetic.ColumnStep | libpython/ccgo_g_0000000000000033_00.go:855-948 | One inner step splits u * v + w + carry into a digit and a carry, both below 10^19. |
| BaseArithmetic.BaseMul | libpython/ccgo_g_0000000000000033_00.go:832-960 | The value of w[0..m+n) becomes value(u) * value(v) plus the old value of w[0..m), all words are digits, the words above are unchanged. |
| BaseArithmetic.ShortMul | libpython/ccgo_g_0000000000000033_00.go:1233-1347 | The n words and the word above them hold value(u) * v, for every word v. |
| BaseArithmetic.ShortMulCarry | libpython/ccgo_g_0000000000000033_00.go:1352-1466 | The n words and the carry returned make value(u) * v; the carry is 0 or below v. |
| BaseArithmetic.ShortDiv | libpython/ccgo_g_0000000000000033_00.go:968-1094 | value(u) = value(w) * v + rem with rem < v and digits in w, for every length and nonzero v, also in place; the down-counter wraps and ends. |
| BaseArithmetic.ShortDivBase | libpython/ccgo_g_0000000000000033_00.go:1102-1228 | The same in any base below 2^64. |
| BaseArithmetic.ProductCommutes | libpython/ccgo_g_0000000000000033_00.go:832-960 | Swapping the factors over zeroed words gives the same words, and their value is the product. |
| BaseArithmetic.ProductsAgree | libpython/ccgo_g_0000000000000033_00.go:1233-1347 | The general product by one word and the product by a word write identical words. |
| BaseArithmetic.ScaledIsUnique | libpython/ccgo_g_0000000000000033_00.go:1352-1466 | Words and carry of a product by a word are determined by the factors, so both products by a word agree. |
| BaseArithmetic.QuotientIsUnique | libpython/ccgo_g_0000000000000033_00.go:1102-1228 | Quotient words and remainder are determined by dividend, divisor and base, so at 10^19 both divisions agree. |
| BaseArithmetic.DivisionUndoesMultiplication | libpython/ccgo_g_0000000000000033_00.go:968-1094 | Dividing the (n+1)-word product by v gives back u under a zero word, remainder 0. |
| BaseArithmetic.MultiplicationUndoesDivision | libpython/ccgo_g_0000000000000033_00.go:1352-1466 | Multiplying a quotient by its divisor returns carry 0 and the dividend less the remainder. |
| AllNines.Decimal.Resize | libpython/ccgo_g_0000000000000033_00.go:1549 | `Xmpd_qresize`: fails exactly when more words are needed than there are and no memory is given, and then the number is a NaN with len, digits and exponent 0 over the same words; the words that still fit are kept. |
| AllNines.Decimal.MaxCoefficient | libpython/ccgo_g_0000000000000033_00.go:1529-1570 | For every precision, when the resize succeeds, ceil(prec / 19) words of value 10^prec - 1; exactly when it fails, the NaN it leaves. |
| AllNines.Decimal.IsAllNine | libpython/ccgo_g_0000000000000033_00.go:1895-1920 | Accepts a coefficient exactly when its top word is not zero and its value plus one is a power of ten. |
| AllNines.WordDigits | libpython/ccgo_g_0000000000000033_00.go:1895-1899 | `Xmpd_word_digits`, which the test of the top word calls: the number of decimal digits of a word, by binary search. |
| AllNines.WordIsAllNine | libpython/ccgo_g_0000000000000033_00.go:1899 | `_mpd_word_isallnine`, the test of the top word: accepts exactly the words 10^j - 1 with j >= 1. |
| AllNines.NinesOnly | libpython/ccgo_g_0000000000000033_00.go:1895-1920 | All words nines under a top word of nines if and only if value plus one is a power of ten and the top word is not zero. |
| PyTime.ClampIsNearest | libpython/ccgo_g_0000000000000033_00.go:1925-1940 | The clamp of a number is the time nearest to it, and the only one. |
| PyTime.Add | libpython/ccgo_g_0000000000000033_00.go:1925-1940 | A clamp of the true sum; -1 exactly on overflow. |
| PyTime.Mul | libpython/ccgo_g_0000000000000033_00.go:1969-1985 | A clamp of the true product with -1 exactly on overflow, if and only if k >= 0, or k = -1 and t is one above the least time. |
| PyTime.NegativeFactor | libpython/ccgo_g_0000000000000033_00.go:1987-1994 | With a negative factor the test reports all times but the two least ones, and these only for -1. |
| PyTime.UnreportedOverflow | libpython/ccgo_g_0000000000000033_00.go:1969-1994 | The least time times -1 overflows and comes back as the least time with code 0. |
| PyTime.TestIsExactIff | libpython/ccgo_g_0000000000000033_00.go:1987-1994 | The overflow test is right for all first factors if and only if the second is not negative. |
| PyTime.NegativeFactorMisreported | libpython/ccgo_g_0000000000000033_00.go:1987-1994 | For every negative factor, zero times it is reported as an overflow. |
| PyTime.DivMod | libpython/ccgo_g_0000000000000033_00.go:1947-1965 | Never reports underflow; Euclidean quotient and remainder if and only if k > 0, or the truncated remainder is not negative and t / k is not the least time by -1; floored for k > 0. Otherwise the truncated quotient less one with the divisor added to the remainder, and the least time with remainder 0. |
| PyTime.TruncatedRange | libpython/ccgo_g_0000000000000033_00.go:1947-1960 | With a negative remainder the truncated quotient is above the minimum, so the underflow branch is dead. |
| PyTime.MulAddUndoesDivMod | libpython/ccgo_g_0000000000000033_00.go:1925-1985 | Multiplying back and adding rebuilds the time exactly when t - t mod k is representable; otherwise the product is reported. |
| ByteLanes.StoreOneByte | libpython/atomics.go:20-35 | Storing a word with one byte replaced stores that byte and no other. |
| ByteLanes.LittleEndian | libpython/atomics.go:14-18 | A word is its four bytes, the lowest address at the lowest bits. |
| ByteAtomics.StepKeepsInv | libpython/atomics.go:14-44 | What every thread remembers stays something it has seen at its address and is after. |
| ByteAtomics.StepRefines | libpython/atomics.go:14-44 | Every atomic access is either invisible or one whole byte operation with its result. |
| ByteRuns.RunIsLinearizable | libpython/atomics.go:156-183 | In every interleaving the completed operations, in the order of their last steps, are a run of an atomic byte memory and follow each thread's program. |
| ByteRuns.StepChangesOwnByteOnly | libpython/atomics.go:20-35 | No step of an operation changes another byte. |
| ByteRuns.RetriesAreBounded | libpython/atomics.go:25-34 | In every run of N threads failed word swaps are at most N - 1 for each successful one, bytes found changed likewise, together at most twice that. |
| ByteRuns.OneSwapTwoRetries | libpython/atomics.go:37-44 | A run in which one foreign swap costs both kinds of retry, for each operation with an enclosing loop. |
| ByteRuns.OneForOneIffSingleLoop | libpython/atomics.go:156-183 | A thread's retries stay within the foreign swaps in all runs if and only if its operation has no enclosing loop. |
| ByteRuns.OneForOneInAllIffSingleLoop | libpython/atomics.go:156-183 | An operation has no enclosing loop if and only if, in every run of it among threads with such operations only, all retries of all threads together are at most N - 1 for each successful swap. |
| ByteRuns.SingleLoopsRetryOnce | libpython/atomics.go:20-35 | If no thread has an operation with an enclosing loop, all retries of any run together are at most N - 1 for each successful swap. |
| ByteRuns.StepsCompleteOperations | libpython/atomics.go:20-44 | Lock-freedom: steps taken are at most (4N - 1) for each completed operation plus 2N. |
| ByteRuns.ExchangesConserve | libpython/atomics.go:176-183 | For a byte that is only exchanged, first value plus values written are the values returned plus the last value, as multisets. |
| ByteRuns.RunConservesExchanges | libpython/atomics.go:176-183 | The same for every run of threads whose programs only exchange the byte. |
| ByteLaws.LegalIff | libpython/atomics.go:14-44 | A history is one of an atomic byte memory if and only if every event returns what the last write before it left, and the memory ends with the last write to each byte: the value of a store or exchange, or the desired byte of a compare-and-swap that says it succeeded. |
| ByteLaws.RunTells | libpython/atomics.go:156-183 | In every run each byte ends as what was written last, and every operation returns what was there before it. |
| ByteLaws.TakenOnlyWhenGivenBack | libpython/atomics.go:156-168 | Between two operations that swap a byte from e to something else, another has written e back: a byte used as a lock excludes. |
| ByteLaws.OneTakes | libpython/atomics.go:156-168 | In every run in which a byte is only swapped from e to something else, exactly the first attempt succeeds if the byte was e, and none otherwise. |
| ByteLoops.SharedWord.CasUint8 | libpython/atomics.go:20-35 | Fails only when the byte differs, succeeds by replacing that byte in one step, each retry using up a store of another thread. |
| ByteLoops.SharedWord.StoreUint8 | libpython/atomics.go:37-44 | Ends, having replaced the byte in one step. |
| ByteLoops.SharedWord.ExchangeUint8 | libpython/atomics.go:176-183 | Returns the byte it replaced in one step. |
| ByteLoops.SharedWord.CompareExchangeUint8 | libpython/atomics.go:156-168 | Strong: fails only having seen another byte, which it returns as expected; succeeds only by replacing the expected byte in one step. |
| WordAtomics.StepRefines | libpython/atomics.go:58-129 | Every access of a word operation is invisible or the whole operation; no spurious failure of compare-exchange. |
| WordAtomics.RunIsLinearizable | libpython/atomics.go:58-129 | Every run is a run of atomic word operations and follows each thread's program. |
| WordAtomics.FailuresAreBounded | libpython/atomics.go:65-129 | Failed swaps are at most N - 1 for each write. |
| WordAtomics.StepsCompleteOperations | libpython/atomics.go:65-129 | Lock-freedom: steps taken are at most 2N for each completed operation plus N. |
| WordLaws.RunTells | libpython/atomics.go:46-129 | In every run each word goes from its first value to its last as the events at it say: what is stored, the sum modulo 2^64, the bits of both or of either, the desired word exactly when the expected one is there; and each returns the word before it. |
| WordLaws.FollowsIsUnique | libpython/atomics.go:46-129 | What an event says determines the next word; words are known by their bits. |
| WordLaws.RunKeepsLastPut | libpython/atomics.go:58-129 | A word ends as what was stored, exchanged or successfully compared and exchanged into it last. |
| WordLaws.RunGathersBits | libpython/atomics.go:75-83 | In every run that only ors a word, bit k is set at the end exactly if it was at first or is in an operand, and each call returns the bits gathered before it. |
| WordLaws.RunFiltersBits | libpython/atomics.go:65-73 | In every run that only ands a word, bit k is set at the end exactly if it was at first and is in every operand, and each call returns the bits left before it. |
| WordAtomics.AdditionsConserve | libpython/atomics.go:46-63 | A word only added to ends as its first value plus all addends modulo 2^64. |
| WordAtomics.AdditionReturnsPrefix | libpython/atomics.go:46-63 | Each addition returns the first value plus what was added before it. |
| WordAtomics.RunConservesAdditions | libpython/atomics.go:46-63 | Both for every run of threads whose programs only add to the word. |
| Runs.RunIsLinearized | libpython/atomics.go:14-129 | A machine whose every turn is invisible or the next whole operation of a thread, with its result, is linearizable under every schedule; both kinds of atomics are such machines. |
| Histories.CompletedWasToDo | libpython/atomics.go:14-44 | Every operation completed in a run was one its thread had to do. |
| PyHeap.NothingLeaks | convert.go:75-116 | When the owner has given back all but some leaves, every old count is as it was but for those, and of the new objects exactly those are alive. |
| PyHeap.CountsRiseByStructure | convert.go:75-116 | When a new structure is kept, an old count rises by what the structure holds and by one if it is kept itself. |
| PyHeap.NewObjectsAreReached | convert.go:75-116 | Every new object alive belongs to the structure kept. |
| Keys.KeyAtIff | convert.go:108-114 | The key that going through an object finds, objects inside itself left aside, is the one it has by what is in it; where none is found there is none. |
| Keys.KeyOfCompound | convert.go:108-114 | A tuple or frozenset can be a key exactly when all its items can, and its key is made of theirs; a tuple that holds a list cannot. |
| Keys.EqualCompounds | convert.go:108-114 | Tuples are one key exactly when their items are equal keys one by one, frozensets exactly when each has the items of the other. |
| Keys.KeyStays | convert.go:97-114 | An object alive keeps its key as long as what is alive stays what it is, whatever else is made or freed. |
| Keys.KeyOfItself | convert.go:108-115 | An object compared by identity, an exception or a NaN is a key, and equal to no other object. |
| Keys.KeyOfNumber | convert.go:108-115 | A number is a key, and equal to exactly the ints, bools, floats and other objects of its value. |
| Keys.KeyOfContents | convert.go:108-115 | None, a str, bytes and an object compared by class are keys, and equal to exactly what holds the same. |
| Keys.NoKeyOfMutable | convert.go:108-115 | Lists, sets, dictionaries, bytearrays and objects without a hash are no keys. |
| Keys.HashableOrNot | convert.go:108-115 | Every object that is not compared by its items either always is a key or never is one. |
| Python.SettingLeads | convert.go:108 | After an entry has been set its key leads to the new value, every other key to what it led to, and the keys there were stay. |
| Python.Runtime.DecRef | convert.go:82-84 | Cascades, ends, keeps all counts exact, and frees nothing that anything else keeps. |
| Python.Runtime.ListSetItem | convert.go:86 | Fills one slot and takes over the caller's reference. |
| Python.Runtime.DictSetItem | convert.go:108 | Takes references of its own; an equal key stays and its previous value is dropped; fails without effect on a key without a hash; without faults it stores every object that is a key by what it is. |
| Merging.LastValueCounts | convert.go:97-108 | Of the values stored under equal keys the last one counts; a key equal to no other keeps its own. |
| Merging.FirstKeyStays | convert.go:97-108 | Of equal keys the first one put stays. |
| Merging.MergedCommutes | convert.go:97-108 | Merging equal keys before or after converting them is the same, when conversion keeps what keys are equal to. |
| Values.RoundTrip | convert.go:175-280 | For values without handles, from Go to a Python structure and back is the normal form: int64 or big integer, slices of any, string-keyed or general maps, one entry for keys that are equal for Python, and one for each NaN. |
| Values.NormalFormIsNormal | convert.go:175-280 | Normal forms come back as they are, and have the structure of the value they come from. |
| NormalForms.NormalIff | convert.go:175-280 | A value is its own normal form if and only if its integers are int64 where they fit and big otherwise, its maps have string keys exactly if all keys are strings, and no keys are equal; every normal form is such. |
| NormalForms.NormalFormIsCanonical | convert.go:20-280 | Two values have one normal form if and only if they have one Python structure. |
| Copies.ReadBack | convert.go:20-280 | The value read from any readable structure can be converted, and converts back to that structure with the same other objects in the same places; only sequences become lists and bytearrays bytes. |
| Meanings.PlainBecomes | convert.go:20-129 | An object of the structure of a value is what the value becomes, told by the objects alone: payloads of leaves, lists item by item, for maps the first key and the last value of equal ones and no others, handles to their very objects. |
| Meanings.StructureReadsAs | convert.go:175-280 | The value of a structure is what its object is read as, told by the objects alone: int64 or big integer, sequences in order, dictionaries entry by entry, anything else a handle to that very object. |
| Values.AssignedLeads | convert.go:264-279 | After an assignment to a Go map a key equal to itself leads to the value. |
| Values.OthersLead | convert.go:264-279 | After an assignment all other keys lead where they led. |
| Values.KeysStayDistinct | convert.go:264-279 | Keys that Python tells apart, Go tells apart; so do handles made for different objects. |
| Values.NoEntryIsLost | convert.go:264-279 | Assigning the entries read to a Go map one by one loses none. |
| Handles.FinalizersQueue | object.go:37-45 | Finalizers that run queue what their handles hold, each once, and nothing else. |
| Handles.DroppedOnce | object.go:37-63 | Fates move in one direction: what was dropped or abandoned stays so, whatever handles are made meanwhile. |
| Conversions.FailureLeavesNothing | convert.go:75-116 | Whatever depth a conversion fails at, every count is as before and only the exception of the error is new. |
| Conversions.PlainIffConvertible | convert.go:20-129 | Values have an exact structure if and only if they can be converted and Go allows their map keys. |
| Conversions.HandleAsKey | convert.go:108-114 | A handle can be a map key as its object can: always if that is compared by what it is, never if it can change, a tuple or frozenset exactly if all items can. |
| Reading.KeyLeadsToValue | convert.go:257-260 | Looking up the i-th key of a dictionary read gives the i-th value. |
| Reading.ReadFailureLeavesHandles | convert.go:205-280 | After a failed read the old counts have risen by exactly the handles made before the failure, and the exception is the only new object. |
| Embedding.Interpreter.PyError | errors.go:100-138 | An exception: its new handle owns the one reference that is left. A SystemExit: an exit with status 0 for no code, None and 0, an int64 as it is, -1 for a larger integer and 1 for anything else, and no reference left. Nothing raised: an error of the embedding's own. |
| Embedding.Interpreter.SimpleToPy | convert.go:20-71 | A leaf becomes the one object of its payload, a handle its own object; a released handle, a Go error, an unsupported kind, a nil big integer and an invalid string each fail with their own error. |
| Embedding.Interpreter.ToPy | convert.go:20-129 | One new reference to an object of the value's structure, with the very objects that handles in it refer to, and no other change, or a failure that leaves only its exception; without faults it succeeds exactly on the convertible values, in which every map key has a hash, handles to tuples and other objects included; and otherwise it fails as the first part that cannot be converted does. |
| Embedding.Interpreter.SliceToPy | convert.go:76-89 | The same for slices: the list is filled in order and dropped when an item fails. |
| Embedding.Interpreter.MapToPy | convert.go:90-116 | The same for maps, with the first key and the last value of equal ones, handles among them: a failed key drops the dictionary, a failed value key and dictionary, a failed entry both parts and the dictionary. |
| Embedding.Interpreter.FromPy | convert.go:175-202 | What the object is read as, at every depth, which converts back to its structure, with a new handle for each other object in it and all other references as before; or a failure that leaves the handles made so far and its exception. Without faults it succeeds. |
| Embedding.Interpreter.OtherFromPy | convert.go:201 | An object without a Go value of its own becomes a handle to that very object with a reference of its own. |
| Embedding.Interpreter.IntFromPy | object.go:303-336 | An int64 when it fits and a big integer otherwise; a failed text is an error without an exception. |
| Embedding.Interpreter.ByteArrayFromPy | object.go:388-407 | The bytes, by way of an object that is dropped. |
| Embedding.Interpreter.SequenceFromPy | convert.go:205-224 | Reads lists, tuples and sets through a list of their items that is dropped on every path. |
| Embedding.Interpreter.DictFromPy | convert.go:229-280 | Reads through a list of keys that is dropped on every path, and tells string-keyed maps from others. |
| Embedding.Interpreter.Obj | object.go:30-35 | A new handle takes over a reference the caller owned: where the books were kept with that reference as the caller's, they are kept without it. |
| Embedding.Interpreter.Finalize | object.go:37-45 | Moves the handle's reference to the queue, once. |
| Embedding.Interpreter.Release | object.go:49-63 | Idempotent; drops the reference when open, abandons it when closed or crashed. |
| Embedding.Interpreter.Enter | cpython.go:327-357 | Refused with crashed before closed and without effect; otherwise the queue has been drained. |
| Embedding.Interpreter.Drain | cpython.go:359-368 | Drops every queued reference once and empties the queue. |
| Embedding.Interpreter.Close | cpython.go:390-440 | Drains, then abandons what finalizers queue meanwhile; closing twice is no error; a finalization that fails is reported; one that panics or exits leaves the queue as it is, and a panic the interpreter crashed as well as closed; a crashed interpreter is closed and reports the crash. |
| Embedding.Interpreter.Crash | errors.go:84-95 | From then on nothing is known of the heap, and the account of references still holds. |
| Embedding.Interpreter.Object | cpython.go:542-550 | A handle to a new structure with counts risen by it and nothing else, or the heap as it was but for the exception. |
| Embedding.Interpreter.Value | object.go:441-449 | The value of the structure a handle holds, the heap count by count as it was but for the handles made. |
| Embedding.Interpreter.RoundTripThroughPython | convert.go:20-280 | Making a handle, reading it and releasing it gives the normal form and leaves the heap count by count as it was. |
| Embedding.Interpreter.Run | object.go:30-63 | Over any run of objects made, handles read, released and finalized, closing and crashes: taken = held + queued + dropped + abandoned, each reference once; what has been dropped or abandoned stays so, and none is abandoned while open. |
| Bookkeeping.AllAccountedFor | cpython.go:327-368 | The same equation from the books of one moment. |

## Left out

Arithmetic:

- The double-word product, the reciprocal division and Knuth's division are inlined at each use; here each is one method.
- The sum of indices `i + j` is not wrapped at 2^64: arrays are shorter.
- `Xmprime_rdx`, `Xmpd_word_digits`, `_mpd_word_isallnine` and `Xmpd_qresize` are defined in
  `libpython/ccgo_g_000000000000003f_00.go`.
- Every attempt to allocate succeeds or fails as a parameter says; words that a shrinking reallocation gives up are gone.
- Quantize, rescale and rounding: their meaning is in callees that are not part of this model.

Atomics:

- The memory is sequentially consistent; weaker orderings and fences are not modelled.
- The 32-bit word operations are the 64-bit ones at another width and are not repeated.
- The concurrent runs are a state machine on values, since Dafny has no threads; the loops themselves are in `ByteLoops`.

References:

- Embedding.Interpreter.FromPy: subclasses of the built-in types; cyclic structures, on which it does not return; and
  strings with a lone surrogate, which have no UTF-8 form, so that reading them fails without any fault.
- Embedding.Interpreter.DictFromPy: keys that a Go map cannot hold (bytes, tuples, frozensets), which become their text.
- Embedding.Interpreter.Value: what FromPy and DictFromPy leave out.
- Embedding.Interpreter.ToPy: functions, and a nil pointer to a handle, on which the call panics.
- Embedding.Interpreter.MapToPy: the same in its keys and values.
- Embedding.Interpreter.PyError: the text of an error and the traceback module it calls, and what is printed at exit.
- Embedding.Interpreter.Enter: a call from inside a host function, which does not drain the queue.
- Embedding.Interpreter.Close: the cached formatter and json function, and what finalization does to the heap, about which
  nothing is known afterwards.
- Embedding.Interpreter.Run: the calling, attribute and item operations and `Slice`, and reading what FromPy and
  DictFromPy leave out.
- A handle is a position in the interpreter's sequence of slots and not an object of its own. A position without a handle
  stands for one that has been released.
- Addresses are not reused after an object has been freed, so that a count can be followed over a run.
- UTF-8 is not modelled: a Go string either has a text or is invalid. Text of integers is taken as exact, so the limit on
  decimal digits is not there. Floats are reals, a negative zero, infinities and NaN.
- How an object of any other type compares as a key is part of what it is: by identity, with equals of its class, as a
  number, or not at all. An `__eq__` or `__hash__` that fails only at times, contradicts itself or has effects is left
  out, and so are destructors of user classes and panics inside a drop.
- Hash and equality of tuples and frozensets are defined in `libpython/ccgo_g_000000000000000f_00.go`. The recursion limit,
  on which a tuple nested too deeply has no hash, is left out.
- Calls are atomic: the mutex, the depth of nested calls and their interplay between goroutines are left out, and so are
  host functions, contexts and interrupts.
