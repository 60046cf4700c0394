# Shuffle and Cartesian-product iterators (lab3), modelled in Dafny

The repository has two lazy iterators written in Rust.

- **`ShuffleIterator`** (`src/bin/3_1_shuffle_iterator.rs`) walks a borrowed slice in a
  pseudo-random order without copying it. Its `k`-th call of `next()` yields
  `data[permute(k, len, seed)]`. `permute` is the cycle-walking hash from Kensler's
  *Correlated Multi-Jittered Sampling* (Pixar Technical Memo 13-01). It builds an all-ones
  mask `w` covering `length - 1`. It then applies a fixed sequence of xor, masked-shift and
  wrapping-multiply steps until the word falls below `length`. Finally it rotates the word by
  `seed` modulo `length`.
- **`Cartesian`** (`src/lib.rs`, identical apart from visibility (`pub`) to lines
  1-58 of `src/bin/3_2_cartesian_iterator.rs`) pairs every item of an inner iterator with every item
  of an outer one. It keeps an untouched clone of the inner iterator, and each time the inner
  iterator runs dry it restarts from that clone and advances the outer one.

## Layout

| file | module | contents |
|---|---|---|
| `option.dfy` | `Options` | `Option`, and `First`/`Rest`, which are `next()` on an iterator given by its remaining items |
| `word.dfy` | `Word` | `u32` as `bv32`; `Value` (the number a word stands for) and `U32` (the word for a number), and their order facts |
| `mix.dfy` | `Mixing` | one pass of the loop body of `permute` (lines 31-55), and the proof that the pass is one-to-one on the words within an all-ones mask |
| `cyclewalk.dfy` | `CycleWalk` | cycle walking for any map that permutes the words within a mask: termination, the first exit, injectivity |
| `permute.dfy` | `Permutation` | the mask, the walk, the rotation on line 61, and the `permute` method with its loop |
| `shuffle.dfy` | `Shuffle` | the `ShuffleIterator` class, the order it visits indices in, and the proof that draining it yields the slice rearranged |
| `shuffle_tests.dfy` | `ShuffleTests` | the two seed-independent unit tests of `3_1_shuffle_iterator.rs` |
| `cartesian.dfy` | `CartesianIter` | the `Cartesian` class and the product it yields |
| `cartesian_tests.dfy` | `CartesianTests` | the five unit tests of `3_2_cartesian_iterator.rs` |

### Modelling notes

- Every `u32` operation of `permute` is a `bv32` operation, so `^`, `&`, `|`, `>>` and `*`
  wrap around exactly as `wrapping_mul` and the shifts do. `WalkLoop` tests `i < length` on
  words as line 56 does; `Word.ValueOrder` proves that this is `Value(i) < Value(length)`,
  the comparison the specification functions use.
- `Mix` is the loop body as a pure function. `Mixing.Line` is the table of the sixteen
  statements on lines 31-52, in order. `Run` applies the first `k` of them, and `Finish` is
  lines 54-55. `Permutation.MixPass` runs the same statements one assignment at a time, as
  the source does, and is proved equal to `Mix`.
- `Times` (a wrapping multiplication) and `Statement` (one row of the table) each reach
  their body through one extra step of recursion on a `delay` argument. This does not change
  any value; it only keeps the solver from expanding every multiplication in every proof.
- The loop on lines 30-59 becomes two pieces:
  - `WalkLoop`, a `while` loop with a `break`, which re-enters with the word produced by
    line 55;
  - `Walk`, its specification, the cycle walk `WalkFrom` with at most `Value(w) + 1` passes.
  `WalkStops` proves that the real loop always exits within that many passes for a start
  below `length`, so the bound never cuts the walk short.
- Iterators in `Cartesian` are finite sequences of the items they still have to yield:
  `next()` is `First`/`Rest`, and `clone()` copies the sequence.

## Model

| member | source | states |
|---|---|---|
| `Word.ValueU32` | src/bin/3_1_shuffle_iterator.rs:74 | a count below 2^32 survives the `as u32` cast: the word's value is the count |
| `Word.U32Value` | src/bin/3_1_shuffle_iterator.rs:74 | the `as usize` cast back and the `as u32` cast are inverse |
| `Word.ValueInjective` | src/bin/3_1_shuffle_iterator.rs:74 | two words with the same value are the same word, so the `as usize` cast of the result of `permute` loses nothing |
| `Word.ValueOrder` | src/bin/3_1_shuffle_iterator.rs:56 | the unsigned test `i < length` on words holds exactly when `Value(i) < Value(length)`, both directions |
| `Mixing.Line` | src/bin/3_1_shuffle_iterator.rs:31-52 | definition: the sixteen statements of lines 31-52 as a table, row `k` being statement `k` with the same constant, shift and mask; its property is `StatementCancel` |
| `Mixing.Run` | src/bin/3_1_shuffle_iterator.rs:31-52 | definition: the first `k` statements of the table applied in order; its property is `RunCancel` |
| `Mixing.Finish` | src/bin/3_1_shuffle_iterator.rs:54-55 | definition: `i &= w; i ^= i >> 5`; its properties are `FinishCancel` and `MixWithin` |
| `Mixing.Mix` | src/bin/3_1_shuffle_iterator.rs:31-55 | definition: one pass of the loop body, `Finish` after all sixteen statements; `MixPass` proves the assignments compute it and `MixInjective` proves it one-to-one |
| `Mixing.TimesCancel` | src/bin/3_1_shuffle_iterator.rs:32-52 | `wrapping_mul` by an odd constant keeps two words apart on the bits of an all-ones mask |
| `Mixing.XorWithCancel` | src/bin/3_1_shuffle_iterator.rs:31-39 | xor with `seed` or a shifted `seed` keeps two words apart on the bits of the mask |
| `Mixing.XorShift4Cancel` | src/bin/3_1_shuffle_iterator.rs:35 | `i ^= (i & w) >> 4` is one-to-one on the bits of `w` |
| `Mixing.XorShift1Cancel` | src/bin/3_1_shuffle_iterator.rs:40 | `i ^= (i & w) >> 1` is one-to-one on the bits of `w` |
| `Mixing.XorShift11Cancel` | src/bin/3_1_shuffle_iterator.rs:45 | `i ^= (i & w) >> 11` is one-to-one on the bits of `w` |
| `Mixing.XorShift2Cancel` | src/bin/3_1_shuffle_iterator.rs:48-51 | `i ^= (i & w) >> 2` is one-to-one on the bits of `w` |
| `Mixing.StatementCancel` | src/bin/3_1_shuffle_iterator.rs:31-52 | each of the sixteen statements keeps two words apart on the bits of the mask |
| `Mixing.RunCancel` | src/bin/3_1_shuffle_iterator.rs:31-52 | so does any prefix of the statement sequence |
| `Mixing.Fold5Injective` | src/bin/3_1_shuffle_iterator.rs:55 | `i ^= i >> 5` is one-to-one on words |
| `Mixing.FinishCancel` | src/bin/3_1_shuffle_iterator.rs:54-55 | two words that end equal after lines 54-55 agreed on the bits of `w` before them |
| `Mixing.MixWithin` | src/bin/3_1_shuffle_iterator.rs:54-55 | after a pass the word has no bit outside `w` (`i <= w`), because the mask comes before the fold |
| `Mixing.MixInjective` | src/bin/3_1_shuffle_iterator.rs:31-55 | a pass is one-to-one on the words within an all-ones `w` |
| `CycleWalk.WalkFromIter` | src/bin/3_1_shuffle_iterator.rs:30-59 | the walk returns the first word among its passes that passes the exit test, and no earlier pass did |
| `CycleWalk.ReturnsHome` | src/bin/3_1_shuffle_iterator.rs:30-59 | under a permutation of the `Value(w) + 1` words within `w`, every orbit returns to its start within `Value(w) + 1` passes |
| `CycleWalk.WalkExits` | src/bin/3_1_shuffle_iterator.rs:30-59 | from a start that passes the exit test, the walk ends on a word that passes it, after the fewest passes |
| `CycleWalk.WalkStep` | src/bin/3_1_shuffle_iterator.rs:56-58 | one more pass either ends the walk with its result or leaves more passes to make |
| `CycleWalk.WalkInjective` | src/bin/3_1_shuffle_iterator.rs:30-59 | the walk is one-to-one on the starts that pass the exit test |
| `Permutation.Mask` | src/bin/3_1_shuffle_iterator.rs:23-28 | definition: `length - 1` or-ed with its shifts by 1, 2, 4, 8 and 16, in that order; its properties are `MaskShape`, `MaskAllOnes`, `MaskCoversBits` and `MaskZero` |
| `Permutation.MaskShape` | src/bin/3_1_shuffle_iterator.rs:23-28 | the mask has the form 2^k - 1, covers `length - 1`, and its half does not (it is the smallest such mask) |
| `Permutation.MaskAllOnes` | src/bin/3_1_shuffle_iterator.rs:23-28 | the shift-or cascade yields an all-ones word for every `length` |
| `Permutation.MaskCoversBits` | src/bin/3_1_shuffle_iterator.rs:23-28 | every bit of `length - 1` is set in the mask |
| `Permutation.MaskZero` | src/bin/3_1_shuffle_iterator.rs:23-28 | the mask is 0 exactly when `length` is 1 |
| `Permutation.WithinMask` | src/bin/3_1_shuffle_iterator.rs:23-28 | every index below `length` lies within the mask |
| `Permutation.PassPermutes` | src/bin/3_1_shuffle_iterator.rs:31-55 | a pass permutes the words within the mask |
| `Permutation.Walk` | src/bin/3_1_shuffle_iterator.rs:30-59 | definition: the first word on the orbit of `idx` under a pass that is below `length`, within `Value(w) + 1` passes; `WalkLoop` proves the loop returns it and `WalkStops` that the bound never cuts it short |
| `Permutation.WalkStops` | src/bin/3_1_shuffle_iterator.rs:30-59 | from `idx < length` the loop makes at least one pass and exits on a word below `length`; no earlier pass was below `length` |
| `Permutation.WalkNext` | src/bin/3_1_shuffle_iterator.rs:54-58 | the loop re-enters with the word of line 55; it exits exactly when that word is below `length`, and then it holds the walk's result |
| `Permutation.WalkOneToOne` | src/bin/3_1_shuffle_iterator.rs:30-59 | two different starts below `length` end on two different words |
| `Permutation.Rotate` | src/bin/3_1_shuffle_iterator.rs:61 | definition: `(i + seed) % length` with the sum taken without overflow; its properties are `RotateBelow` and `RotateInjective` |
| `Permutation.RotateWrapping` | src/bin/3_1_shuffle_iterator.rs:61 | definition: `(i + seed) % length` with the sum taken modulo 2^32, as a release build computes it; its properties are `RotateWrappingBelow`, `RotateNoWrap` and `RotateWrappingAtSeedOnes` |
| `Permutation.RotateWrappingBelow` | src/bin/3_1_shuffle_iterator.rs:61 | even with the wrapped sum the result is below `length` |
| `Permutation.RotateNoWrap` | src/bin/3_1_shuffle_iterator.rs:61 | when `i + seed < 2^32` the wrapped and the unwrapped rotation agree |
| `Permutation.RotateBelow` | src/bin/3_1_shuffle_iterator.rs:61 | the rotation lands below `length` and equals `(i + seed) mod length` |
| `Permutation.RotateInjective` | src/bin/3_1_shuffle_iterator.rs:61 | without overflow, the rotation is one-to-one on `[0, length)` |
| `Permutation.PermuteSpec` | src/bin/3_1_shuffle_iterator.rs:22-62 | definition: the rotation of the walk's result, with line 61 computed without overflow; its properties are `PermuteBelow`, `PermuteInjective` and `PermuteSingle` |
| `Permutation.PermuteWrapping` | src/bin/3_1_shuffle_iterator.rs:22-62 | definition: `permute` as written, the rotation of the walk's result with the sum on line 61 wrapping at 2^32; its properties are `PermuteWrappingAgrees` and `PermuteWrappingCollides` |
| `Permutation.PermuteWrappingAgrees` | src/bin/3_1_shuffle_iterator.rs:22-62 | whenever `length + seed <= 2^32`, `permute` as written returns `PermuteSpec`, and so is a permutation of `[0, length)` on those seeds |
| `Permutation.PermuteBelow` | src/bin/3_1_shuffle_iterator.rs:22-62 | `permute` maps `[0, length)` into `[0, length)` |
| `Permutation.PermuteInjective` | src/bin/3_1_shuffle_iterator.rs:22-62 | `permute` is one-to-one, hence a bijection, on `[0, length)` for every `length >= 1` and `seed` |
| `Permutation.PermuteSingle` | src/bin/3_1_shuffle_iterator.rs:22-62 | `permute(0, 1, seed) == 0` for every seed |
| `Permutation.MixPass` | src/bin/3_1_shuffle_iterator.rs:31-55 | the eighteen assignments, run in order, compute one pass of the walk |
| `Permutation.WalkLoop` | src/bin/3_1_shuffle_iterator.rs:30-59 | the `loop`, breaking on the unsigned test `i < length`, returns the walk's result, the first word below `length` |
| `Permutation.Permute` | src/bin/3_1_shuffle_iterator.rs:22-62 | the method returns `PermuteSpec` and a word below `length` |
| `Permutation.RotateWrappingAtSeedOnes` | src/bin/3_1_shuffle_iterator.rs:61 | with the wrapped sum, `seed = 0xFFFF_FFFF` and `length = 3` send both 1 and 0 to 0 |
| `Permutation.WalkOneAtSeedOnes` | src/bin/3_1_shuffle_iterator.rs:30-59 | with `seed = 0xFFFF_FFFF` and `length = 3` the loop sends 1 to 1 in one pass |
| `Permutation.WalkTwoAtSeedOnes` | src/bin/3_1_shuffle_iterator.rs:30-59 | with `seed = 0xFFFF_FFFF` and `length = 3` the loop sends 2 to 0 in one pass |
| `Permutation.PermuteWrappingCollides` | src/bin/3_1_shuffle_iterator.rs:61 | as written, `permute(1, 3, 0xFFFF_FFFF)` and `permute(2, 3, 0xFFFF_FFFF)` are both 0 |
| `Shuffle.Position` | src/bin/3_1_shuffle_iterator.rs:73-74 | the index read on the `k`-th call lies in the slice |
| `Shuffle.PositionInjective` | src/bin/3_1_shuffle_iterator.rs:73-74 | two different calls read two different indices |
| `Shuffle.Order` | src/bin/3_1_shuffle_iterator.rs:68-79 | the indices read by calls `0, ..., len - 1` of `next()`, in call order: `len` of them, all below `len` |
| `Shuffle.OrderDistinct` | src/bin/3_1_shuffle_iterator.rs:68-79 | over a full drain the iterator visits no index twice |
| `Shuffle.PickPermutes` | src/bin/3_1_shuffle_iterator.rs:76 | reading `|d|` distinct indices of `d` yields `d` rearranged (equal multisets) |
| `Shuffle.Shuffled` | src/bin/3_1_shuffle_iterator.rs:68-79 | definition: what a full drain yields, `data` at the indices of `Order` in call order; its properties are `ShuffledPermutes` and `ShuffledStep` |
| `Shuffle.ShuffledPermutes` | src/bin/3_1_shuffle_iterator.rs:105-111 | draining the iterator yields exactly `len` elements, each as often as it occurs in the slice; by `ShuffledWrappingPermutes` this holds for the program as written whenever `len + seed <= 2^32` |
| `Shuffle.PositionWrapping` | src/bin/3_1_shuffle_iterator.rs:73-74 | the index read on the `k`-th call when line 61 wraps lies in the slice |
| `Shuffle.ShuffledWrapping` | src/bin/3_1_shuffle_iterator.rs:68-79 | what a full drain yields when line 61 wraps: `len` elements |
| `Shuffle.ShuffledWrappingPermutes` | src/bin/3_1_shuffle_iterator.rs:105-111 | whenever `len + seed <= 2^32` the program as written drains exactly as the model does, so it yields the slice rearranged (equal multisets) |
| `Shuffle.PositionWrappingAtSeedOnes` | src/bin/3_1_shuffle_iterator.rs:73-74 | with the wrapped sum, `len = 3` and `seed = 0xFFFF_FFFF`, calls 1 and 2 both read index 0 |
| `Shuffle.ShuffledWrappingRepeats` | src/bin/3_1_shuffle_iterator.rs:105-111 | as written, draining `[1, 2, 3]` with `seed = 0xFFFF_FFFF` yields 1 twice, so for that seed the drain is not the slice rearranged |
| `Shuffle.ShuffledStep` | src/bin/3_1_shuffle_iterator.rs:73-76 | call `k` moves `data[permute(k)]` from what is still to come to what has been yielded |
| `Shuffle.ShuffleIterator.constructor` | src/bin/3_1_shuffle_iterator.rs:11-18 | stores the slice, `current` and the seed; nothing yielded yet, and the whole shuffle still to come |
| `Shuffle.ShuffleIterator.Next` | src/bin/3_1_shuffle_iterator.rs:68-79 | `None`, with no field changed, exactly when `elements_left == len`; otherwise the counter goes up by one, `current` becomes `permute(old counter, len, seed)`, and the result is `data[current]`; this `permute` is the program as written exactly when its sum does not wrap, which `PermuteWrappingAgrees` guarantees for every `len + seed <= 2^32` |
| `Shuffle.ShuffleIterator.Collect` | src/bin/3_1_shuffle_iterator.rs:109 | calling `next()` until `None` yields what was still to come and leaves the iterator exhausted |
| `ShuffleTests.ShuffleIsExhaustive` | src/bin/3_1_shuffle_iterator.rs:105-111 | for every seed, the set of shuffled elements is the set of the slice's elements |
| `ShuffleTests.ShuffleDoesNotModifySlice` | src/bin/3_1_shuffle_iterator.rs:140-146 | after a full drain the slice still holds `1, ..., 10`, and the drain yielded each element once |
| `CartesianIter.Pair` | src/lib.rs:38-42 | one pass over the inner items pairs each of them, in order, with the current outer item |
| `CartesianIter.Product` | src/lib.rs:33-45 | definition: for each outer item in turn, one `Pair` pass over the inner items; its properties are `ProductLength`, `ProductIndex`, `ProductMember` and `ProductEmpty` |
| `CartesianIter.ProductLength` | src/lib.rs:33-45 | the iterator yields `|A| * |B|` pairs |
| `CartesianIter.ProductAppend` | src/lib.rs:33-45 | the outer items are handled one after the other: the product over `a + b` is the product over `a`, then over `b` |
| `CartesianIter.ProductSplit` | src/lib.rs:33-45 | the block of outer item `k` comes after `k` full passes over the inner items |
| `CartesianIter.ProductIndex` | src/lib.rs:33-45 | position `k * |A| + j` holds `(A[j], B[k])`: outer-major, inner-minor |
| `CartesianIter.ProductMember` | src/lib.rs:41 | every yielded pair is one inner item with one outer item |
| `CartesianIter.ProductEmpty` | src/lib.rs:13-14 | nothing is yielded exactly when one of the two iterators is empty |
| `CartesianIter.Remaining` | src/lib.rs:33-45 | definition: what the iterator still yields from a state: the rest of the current pass, then a full pass for each remaining outer item; its properties are `RemainingInnerStep` and `RemainingResetStep` |
| `CartesianIter.RemainingInnerStep` | src/lib.rs:34 | while the inner iterator has items, `next()` yields the next one with the current outer item |
| `CartesianIter.RemainingResetStep` | src/lib.rs:16-20 | a finished pass restarts from the clone with the next outer item, or ends everything if either is empty |
| `CartesianIter.Cartesian.constructor` | src/lib.rs:12-14 | keeps a clone of the inner iterator and pulls the first outer item; what remains is the whole product |
| `CartesianIter.Cartesian.ResetInnerAdvanceOuter` | src/lib.rs:16-20 | advances the outer iterator into `curr_outer`, restores the inner iterator from the clone, and returns its first item |
| `CartesianIter.Cartesian.GetCurrOuter` | src/lib.rs:22-27 | returns `curr_outer` and changes nothing; when it is `None` nothing remains |
| `CartesianIter.Cartesian.Advance` | src/lib.rs:34-36 | the inner item, or on exhaustion the first item of a fresh pass; the state steps exactly as the two calls do |
| `CartesianIter.Cartesian.Next` | src/lib.rs:33-45 | yields the first remaining pair and removes it; `None` exactly when nothing remains, and then nothing ever remains |
| `CartesianIter.Cartesian.Collect` | src/bin/3_2_cartesian_iterator.rs:91 | draining yields exactly the pairs that remained |
| `CartesianTests.Range` | src/bin/3_2_cartesian_iterator.rs:91 | the range `lo..hi` yields `lo, lo + 1, ..., hi - 1` |
| `CartesianTests.CartesianOfEmptyRanges` | src/bin/3_2_cartesian_iterator.rs:89-93 | `(0..0).cartesian(1..1)` yields nothing |
| `CartesianTests.CartesianWithOneEmptyRange` | src/bin/3_2_cartesian_iterator.rs:95-106 | an empty inner or an empty outer range yields nothing |
| `CartesianTests.Grid3x3` | src/bin/3_2_cartesian_iterator.rs:113-123 | the product of `[0, 1, 2]` and `[4, 5, 6]`, inner fastest |
| `CartesianTests.Cartesian2dOfIntegers` | src/bin/3_2_cartesian_iterator.rs:108-125 | `(0..3).cartesian(4..7)` yields `(0,4), (1,4), (2,4), (0,5), ..., (2,6)` in that order |
| `CartesianTests.Cartesian3dOfIntegers` | src/bin/3_2_cartesian_iterator.rs:127-143 | a Cartesian iterator as the inner factor: the innermost factor varies fastest |
| `CartesianTests.Cartesian2dOfStringSlices` | src/bin/3_2_cartesian_iterator.rs:145-162 | string slices come in the same inner-fastest order |

## Left out

- The seed comes from `rand::thread_rng()` (line 15 of `3_1_shuffle_iterator.rs`); here it is
  a parameter of the constructor.
- The `shuffle_is_random` test (lines 113-138) states a probability, not a property of every
  seed.
- `src/bin/3_3_calendar_iter.rs` is not part of this model: its date arithmetic belongs to the
  `chrono` library.
- The `main` functions and their `println!` output.
- The `ShuffleExt` and `CartesianIteratorExt` traits only forward to `new`. The tests here call
  the constructors directly, with `current = 0` as `shuffle()` passes it.
- Lifetimes and borrowing: the slice is an immutable `seq`, and `next()` returns the element
  rather than a reference to it.
- Shuffle.ShuffleIterator.constructor: requires `len < 2^32`. The `as u32` casts on line 74
  would silently truncate a longer slice, and that case is not modelled.
- Permutation.Permute: requires `idx < length`, which implies `length >= 1`. For `length == 0`
  the code underflows on line 23 and divides by zero on line 61. It has no `InvalidLength`
  error path. The only caller, `next()`, never passes 0, because of the check on line 70. A start `idx >= length`
  is never passed either; for it the loop need not end, and that case is not modelled.
- Permutation.Permute: computes line 61 without overflow (see Findings). Neither the
  debug-build overflow panic nor the release-build wrap-around is part of the method;
  `PermuteWrapping` models the wrap-around separately, and `PermuteWrappingAgrees` proves
  that the two agree whenever `length + seed <= 2^32`.
- Generic Rust iterators: the inner and outer iterators of `Cartesian` are finite and free of
  side effects, and `clone()` restarts them exactly. Infinite iterators are not modelled.
  They are also fused: once `next()` has returned `None` it keeps returning `None`. The code
  calls `outer.next()` again after it has returned `None`, so the clause
  `currOuter.None? ==> outer == []` of `Cartesian.Valid`, and the promise of `Cartesian.Next`
  that nothing remains after `None`, hold only for fused iterators.
- `collect()`, `for_each` and `copied()` are modelled only as draining the iterator (`Collect`).

## Findings

| source | as written | input that shows it | evidently intended | confidence | as-written member | corrected member |
|---|---|---|---|---|---|---|
| src/bin/3_1_shuffle_iterator.rs:61 | `(i + seed) % length` adds two `u32` values, which overflows whenever `i + seed >= 2^32`: debug builds panic, release builds wrap, and the wrapped rotation is no longer one-to-one | `length = 3`, `seed = 0xFFFF_FFFF`: the loop sends index 1 to 1 and index 2 to 0, and both `(1 + seed) mod 2^32 = 0` and `(0 + seed) mod 2^32 = 2^32 - 1` are 0 modulo 3, so `permute(1, 3, seed) == permute(2, 3, seed) == 0` and index 2 of the slice is never yielded | the rotation `(i + seed) mod length` computed without overflow (for example in `u64`), which keeps `permute` a bijection of `[0, length)` | high; not executed | `Permutation.PermuteWrappingCollides` | `Permutation.PermuteInjective` |
