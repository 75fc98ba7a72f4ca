# Scalar slicing and the collision bitmap of a bucket MSM

This project models two pieces of a Pippenger-style multi-scalar
multiplication over BLS12-381 and proves what they compute.

- **`msm_slice`** (`Pippenger`, `pippenger.dfy`). It cuts a scalar into
  `slices.len()` windows of `window_bits` bits, least significant first.
  This is the first loop: each slot receives `(scalar >> i*w) mod 2^w`. It
  then rewrites the windows into signed-bucket digits. This is the second
  loop: `carry` is added to each slot. A slot above `half = 2^(w-1)` becomes
  `total - slot` with bit 31 set, and it passes a carry of 1 to the next
  slot. A slot equal to `half` stays unsigned. The method is an imperative
  Dafny method over an `array<u32>`. Each loop is its own method with
  invariants. Each is proved against specification functions:
  - `RawDigits`: the windows;
  - `Recode`: the signed digits and the final carry;
  - `SliceWords`: the encoded 32-bit slots;
  - `FinalCarry`.

  The two `assert!`s of the source are modelled as `SliceStatus` outcomes:
  - `window_bits > 31` fails before anything is written;
  - a non-zero final carry fails after every slot has been written.

  The lemmas prove the following about the functions:
  - the round trip: when the final carry is 0 and the scalar fits in the
    slots, the slots decode to the scalar;
  - the exact condition under which the final carry is non-zero;
  - that every scalar below `2^(n*w-1)` slices without a carry;
  - digit bounds;
  - the four test vectors of the source.
- **`Bitmap`** (`Bitmaps`, `bitmap.dfy`). This is a class over
  `array<bv32>`, with operations `new`, `test_and_set` and `clear`.
  `test_and_set(b)` looks at bit `b & 31` of word `b >> 5`. The set of
  marked buckets is the predicate `Marks(data[..], b)`. The contracts state
  that `test_and_set` returns whether `b` was marked, and that afterwards the
  marked set is the old set plus `b`. If `b` was already marked, nothing
  changes. `clear` and `new` leave nothing marked.

`PippengerVectors` (`pippenger_vectors.dfy`) restates the tests
`test_msm_slice_window_size_{1,2,3,16}`. The Rust test `test_bitmap` asserts
nothing and only prints; `Bitmaps.FreshBitmapProbe` states the outcome it
prints. `Arith` (`arith.dfy`) holds powers of two and Euclidean-division
facts; it has no counterpart in the source.

Where a general description of the slicer and the code disagree, the model follows the code:
- The scalar is never checked against the number of slots. Bits above
  `n*w` are silently dropped: `Pippenger.SliceIgnoresHighBits`. A scalar of
  exactly `2^(n*w)` therefore slices to all zeros with no error:
  `Pippenger.WideScalarAccepted`. The round trip holds only for scalars
  below `2^(n*w)`, and only when the final carry is 0.
- A top window equal to `half` that receives no carry stays unsigned, so a
  scalar such as `2^(n*w-1)`, which needs all `n*w` bits, is accepted:
  `Pippenger.MaxSignedCoversTopBit`. Every scalar below `2^(n*w-1)` is
  accepted: `Pippenger.NoOverflowBelowTopBit`.
- A scalar inside the declared bit width can still fail the carry assertion
  when `w` divides that width, even though a final carry of 0 is expected for
  every such scalar. For example, 11 is below `2^4`, and `NumSlices(4, 2)`
  gives 2 slots. Its windows `[3, 2]` recode to a negated 1 with a carry,
  and `2 + 1` exceeds half, so the final carry is 1:
  `PippengerVectors.InWidthScalarOverflows`. With `NumSlices(bits, w)` slots
  only the scalars below `2^(bits-1)` are guaranteed to pass:
  `Pippenger.NumSlicesSuffice`.
- `Bitmap::new(size)` takes a number of 32-bit words, not a number of bits.
  It addresses `32 * size` buckets: `Bitmaps.InRangeIsCapacity`.

## Model

| member | source | states |
|---|---|---|
| Pippenger.MsmSlice | src/collision_method_pippenger.rs:30-73 | window_bits > 31 fails with the slots untouched; otherwise every slot is overwritten with `SliceWords(scalar, w, len)`, and the call succeeds exactly when the final carry is 0 |
| Pippenger.SliceWindows | src/collision_method_pippenger.rs:32-45 | after the first loop the slots are exactly the raw windows `RawDigits(scalar, w, len)` |
| Pippenger.WindowStep | src/collision_method_pippenger.rs:37-42 | one iteration: the stored slot is window i of the scalar, and the shifted temporary becomes `scalar / 2^((i+1)w)` |
| Pippenger.RecodeWindows | src/collision_method_pippenger.rs:48-67 | after the second loop the slots are the encoded signed digits of the old windows, and the returned carry is the carry of `Recode` |
| Pippenger.WindowConstants | src/collision_method_pippenger.rs:49-50 | `total` is 2^w and `half` is `total >> 1`, both fitting a u32 for w ≤ 31 |
| Pippenger.RecodeSlot | src/collision_method_pippenger.rs:58-66 | one iteration of the second loop: the new slot is the encoding of the recoded digit, and the new carry is its carry |
| Pippenger.OrSignTag | src/collision_method_pippenger.rs:63 | `x \| 1<<31` is at least 2^31 and keeps the low 31 bits of x |
| Pippenger.LowLimb | src/collision_method_pippenger.rs:37 | `as_ref()[0]` is the lowest 64-bit limb, below 2^64 |
| Pippenger.LowLimbWindow | src/collision_method_pippenger.rs:37 | reducing the low limb modulo 2^w gives the same window as reducing the whole scalar, for w ≤ 31 |
| Pippenger.Total | src/collision_method_pippenger.rs:49 | definition: `total = 1 << w`, the number of buckets of a w-bit window |
| Pippenger.Half | src/collision_method_pippenger.rs:50 | definition: `half = total >> 1`; WindowConstants proves both fit a u32 |
| Pippenger.WindowFitsInWord | src/collision_method_pippenger.rs:31 | for w ≤ 31, `1 << w` fits below bit 32 and half stays below the sign tag |
| Pippenger.RawDigits | src/collision_method_pippenger.rs:34-45 | n raw windows, each below 2^w |
| Pippenger.Shifted | src/collision_method_pippenger.rs:32-42 | definition: `temp` after i calls of `divn(w)`, the scalar divided by 2^(iw); WindowStep and ShiftStep tie it to the loop |
| Pippenger.Window | src/collision_method_pippenger.rs:37 | window i is below 2^w |
| Pippenger.RawDigitsValue | src/collision_method_pippenger.rs:34-45 | the raw windows weighted by 2^(iw) sum to the scalar modulo 2^(nw) |
| Pippenger.RawDigitsLowBits | src/collision_method_pippenger.rs:34-45 | the raw windows depend only on the scalar modulo 2^(nw) |
| Pippenger.PowerStep | src/collision_method_pippenger.rs:42 | each shift by w multiplies the weight 2^(iw) by 2^w |
| Pippenger.PowerSplit | src/collision_method_pippenger.rs:42 | the weight 2^(nw) splits as 2^(iw) · 2^w · 2^((n-1-i)w) |
| Pippenger.ShiftStep | src/collision_method_pippenger.rs:42 | `divn(w)` on `scalar / 2^(iw)` gives `scalar / 2^((i+1)w)` |
| Pippenger.RecodeStep | src/collision_method_pippenger.rs:58-66 | a digit is negated iff raw + carry > half; the carry out is 1 exactly then; magnitude ≤ half; value + carry·2^w = raw + carry in; value lies in [half+1-2^w, half] |
| Pippenger.Recode | src/collision_method_pippenger.rs:55-67 | one digit per window with magnitude ≤ half, and a final carry of at most 1 |
| Pippenger.RecodePrefix | src/collision_method_pippenger.rs:55-67 | digit i depends only on windows 0..i |
| Pippenger.RecodeDigitAt | src/collision_method_pippenger.rs:58-66 | digit i is the step applied to window i and the carry left by windows 0..i-1 |
| Pippenger.RecodePreservesValue | src/collision_method_pippenger.rs:55-67 | signed digits plus final carry · 2^(nw) equal the value of the raw windows |
| Pippenger.RecodeBounds | src/collision_method_pippenger.rs:55-67 | the signed value lies in [MaxSigned + 1 - 2^(nw), MaxSigned] |
| Pippenger.DigitsValue | src/collision_method_pippenger.rs:55-67 | definition: the signed number a digit sequence stands for, the sum of value_i · 2^(iw); the round trip is stated in it |
| Pippenger.EncodeDigit | src/collision_method_pippenger.rs:61-63 | encoding a digit (magnitude, bit 31 if negated) decodes back to the digit |
| Pippenger.DecodeWord | src/collision_method_pippenger.rs:63 | a slot's magnitude is below bit 31 |
| Pippenger.WordRoundTrip | src/collision_method_pippenger.rs:63 | decoding then encoding a 32-bit slot gives the slot back |
| Pippenger.EncodeAll | src/collision_method_pippenger.rs:55-67 | encodes each digit in place, and each slot decodes to its digit |
| Pippenger.EncodeAllSnoc | src/collision_method_pippenger.rs:55-67 | encoding distributes over appending one digit |
| Pippenger.DecodeAll | src/collision_method_pippenger.rs:55-67 | one digit per slot |
| Pippenger.WordsValue | src/collision_method_pippenger.rs:55-67 | definition: the signed number the 32-bit slots stand for, bit 31 read as the sign; SliceValue and SliceRoundTrip are stated in it |
| Pippenger.SliceWords | src/collision_method_pippenger.rs:30-67 | one 32-bit slot per window |
| Pippenger.RecodedWords | src/collision_method_pippenger.rs:55-67 | one 32-bit slot per window |
| Pippenger.RecodedWordsSnoc | src/collision_method_pippenger.rs:55-67 | slots 0..i plus the step on window i are slots 0..i+1 |
| Pippenger.FinalCarry | src/collision_method_pippenger.rs:69-72 | the carry left after the last slot is 0 or 1 |
| Pippenger.SliceWordsDecode | src/collision_method_pippenger.rs:30-67 | decoding the slots gives the signed digits of the raw windows |
| Pippenger.SliceValue | src/collision_method_pippenger.rs:30-67 | decoded slots plus final carry · 2^(nw) equal the scalar modulo 2^(nw) |
| Pippenger.RecodedValue | src/collision_method_pippenger.rs:30-67 | the signed digits plus final carry · 2^(nw) equal the scalar modulo 2^(nw) |
| Pippenger.SliceRoundTrip | src/collision_method_pippenger.rs:30-73 | a scalar below 2^(nw) whose final carry is 0 is reconstructed exactly from its slots |
| Pippenger.FinalCarryIff | src/collision_method_pippenger.rs:69-72 | the final assertion fails iff the scalar modulo 2^(nw) exceeds the largest signed value the slots can hold |
| Pippenger.RecodedRange | src/collision_method_pippenger.rs:30-67 | the signed value is the scalar modulo 2^(nw) without a carry, and that value minus 2^(nw) with one; it lies within the signed range |
| Pippenger.RecodedValueBounds | src/collision_method_pippenger.rs:30-67 | the signed value plus carry · 2^(nw) is the scalar modulo 2^(nw), within the signed range |
| Pippenger.MaxSignedCoversTopBit | src/collision_method_pippenger.rs:59-60 | the largest signed value reaches 2^(nw-1), since a digit equal to half stays unsigned |
| Pippenger.NoOverflowBelowTopBit | src/collision_method_pippenger.rs:69-72 | every scalar below 2^(nw-1) slices with final carry 0 and round-trips |
| Pippenger.SliceIgnoresHighBits | src/collision_method_pippenger.rs:34-45 | slots and final carry depend only on the scalar modulo 2^(nw) |
| Pippenger.WideScalarAccepted | src/collision_method_pippenger.rs:30-73 | the scalar 2^(nw) passes both assertions and slices to value 0 |
| Pippenger.NumSlices | src/collision_method_pippenger.rs:82 | definition: `(bits + w - 1) / w` slots; its meaning is stated by NumSlicesIsCeiling and NumSlicesSuffice |
| Pippenger.NumSlicesIsCeiling | src/collision_method_pippenger.rs:82 | `(bits + w - 1) / w` windows cover `bits` bits and one fewer would not |
| Pippenger.NumSlicesSuffice | src/collision_method_pippenger.rs:82-99 | with that many slots, every scalar below 2^(bits-1) slices with final carry 0 and round-trips |
| PippengerVectors.SliceInto | src/collision_method_pippenger.rs:115-117 | a zero-initialised vector of n slots is sliced to `SliceWords`, with success iff the final carry is 0 and any failure being the carry overflow |
| PippengerVectors.WindowSize1 | src/collision_method_pippenger.rs:112-120 | 0b101 with w = 1 gives [1, 0, 1] and succeeds |
| PippengerVectors.WindowSize1Slices | src/collision_method_pippenger.rs:112-120 | the specification functions give [1, 0, 1] with final carry 0 |
| PippengerVectors.WindowSize1Windows | src/collision_method_pippenger.rs:112-120 | the raw windows of 0b101 are [1, 0, 1] |
| PippengerVectors.WindowSize1Recoded | src/collision_method_pippenger.rs:112-120 | recoding [1, 0, 1] with half 1 changes nothing |
| PippengerVectors.WindowSize2 | src/collision_method_pippenger.rs:122-127 | 0b000110 with w = 2 gives [2, 1, 0] and succeeds |
| PippengerVectors.WindowSize2Slices | src/collision_method_pippenger.rs:122-127 | the specification functions give [2, 1, 0] with final carry 0 |
| PippengerVectors.WindowSize2Windows | src/collision_method_pippenger.rs:122-127 | the raw windows of 6 are [2, 1, 0] |
| PippengerVectors.WindowSize2Recoded | src/collision_method_pippenger.rs:122-127 | recoding [2, 1, 0] with half 2 keeps the digit equal to half unsigned |
| PippengerVectors.WindowSize3 | src/collision_method_pippenger.rs:131-139 | 0b010111000 with w = 3 gives [0, 0x80000001, 3] and succeeds |
| PippengerVectors.WindowSize3Slices | src/collision_method_pippenger.rs:131-139 | the specification functions give [0, 0x80000001, 3] with final carry 0 |
| PippengerVectors.WindowSize3Windows | src/collision_method_pippenger.rs:136-137 | the raw windows of 184 are [0, 7, 2] |
| PippengerVectors.WindowSize3Recoded | src/collision_method_pippenger.rs:131-139 | 7 > 4 becomes 8 - 7 with the sign tag and a carry, and 2 + 1 becomes 3 |
| PippengerVectors.WindowSize16 | src/collision_method_pippenger.rs:142-147 | 0x123400007FFF with w = 16 gives [0x7FFF, 0, 0x1234] and succeeds |
| PippengerVectors.WindowSize16Slices | src/collision_method_pippenger.rs:142-147 | the specification functions give [0x7FFF, 0, 0x1234] with final carry 0 |
| PippengerVectors.WindowSize16Windows | src/collision_method_pippenger.rs:142-147 | the raw 16-bit windows are [0x7FFF, 0, 0x1234] |
| PippengerVectors.WindowSize16Recoded | src/collision_method_pippenger.rs:142-147 | no 16-bit window exceeds half 0x8000, so recoding changes nothing |
| PippengerVectors.InWidthScalarFails | src/collision_method_pippenger.rs:30-82 | 11, a 4-bit scalar, sliced into `NumSlices(4, 2)` two-bit slots, ends at the carry assertion |
| PippengerVectors.InWidthScalarOverflows | src/collision_method_pippenger.rs:30-82 | 11 < 2^4 and NumSlices(4, 2) = 2, yet its windows are [3, 2] and the final carry is 1 |
| PippengerVectors.InWidthScalarWindows | src/collision_method_pippenger.rs:34-45 | the raw two-bit windows of 11 are [3, 2] |
| PippengerVectors.InWidthScalarRecoded | src/collision_method_pippenger.rs:55-67 | recoding [3, 2] with half 2 leaves a final carry of 1 |
| PippengerVectors.WindowIs | src/collision_method_pippenger.rs:37 | window i is `(s / 2^(iw)) mod 2^w` |
| PippengerVectors.RawOf | src/collision_method_pippenger.rs:34-45 | three windows make the three raw slots |
| PippengerVectors.RecodeThree | src/collision_method_pippenger.rs:55-67 | recoding three slots chains the carry of each step into the next |
| PippengerVectors.EncodeThree | src/collision_method_pippenger.rs:55-67 | three digits encode slot by slot |
| Bitmaps.WordIndex | src/bitmap.rs:22 | definition: `bucket >> 5`, the word holding the bucket |
| Bitmaps.BitIndex | src/bitmap.rs:26 | definition: `bucket & 0x1F`, the bit position within that word |
| Bitmaps.Bit | src/bitmap.rs:26 | definition: the one-bit mask `1 << (bucket & 0x1F)` |
| Bitmaps.IsSet | src/bitmap.rs:30 | definition: the test `(word & bit) != 0` |
| Bitmaps.Marks | src/bitmap.rs:22-30 | definition: the abstract marked set, bucket b is marked when word `b >> 5` exists and has bit `b & 31` set |
| Bitmaps.SetBit | src/bitmap.rs:26-33 | after `word \|= 1 << k`, bit j is set iff it was set before or j = k |
| Bitmaps.SetBitSame | src/bitmap.rs:33 | bit k is set after OR-ing in `1 << k` |
| Bitmaps.SetBitOther | src/bitmap.rs:33 | OR-ing in `1 << k` leaves every other bit as it was |
| Bitmaps.SetBitAgain | src/bitmap.rs:30-32 | OR-ing in a bit that is already set changes nothing |
| Bitmaps.SingleBit | src/bitmap.rs:30 | a set bit masks to the one-bit mask |
| Bitmaps.Absorb | src/bitmap.rs:33 | OR-ing in a mask already contained changes nothing |
| Bitmaps.ZeroHasNoBits | src/bitmap.rs:16 | a zero word has no bit set |
| Bitmaps.SmallRoundTrip | src/bitmap.rs:26 | proof step: a number below 32 keeps its value as a 5-bit shift amount |
| Bitmaps.SameBucket | src/bitmap.rs:22-26 | two buckets in the same word have the same bit position iff they are equal |
| Bitmaps.SetAt | src/bitmap.rs:33 | setting a bit keeps the number of words |
| Bitmaps.MarksAtWord | src/bitmap.rs:30 | proof step: unfolds MarksAt for a word index in range |
| Bitmaps.SetAtMarksAt | src/bitmap.rs:33 | proof step: unfolds MarksAt on the updated word, which holds `old \| bit` |
| Bitmaps.SetAtSameWord | src/bitmap.rs:33 | in the updated word, a position is marked iff it was before or it is the new one |
| Bitmaps.UpdatedWord | src/bitmap.rs:33 | changing one word by `\|= bit` and no other is `SetAt` |
| Bitmaps.SetAtOtherWord | src/bitmap.rs:33 | the other words keep their marks |
| Bitmaps.Zeros | src/bitmap.rs:16 | `vec![0; size]` has `size` zero words |
| Bitmaps.SetMark | src/bitmap.rs:33 | marking a bucket keeps the length and every other word |
| Bitmaps.ZerosMarkNothing | src/bitmap.rs:16 | zero words mark no bucket |
| Bitmaps.SetMarkMarks | src/bitmap.rs:26-33 | after marking bucket b, bucket c is marked iff it was before or c = b |
| Bitmaps.SetMarkMarksAll | src/bitmap.rs:26-33 | the marked set becomes the old set plus b |
| Bitmaps.SetMarkAgain | src/bitmap.rs:30-32 | marking an already marked bucket leaves the words unchanged |
| Bitmaps.SetMarkIdempotent | src/bitmap.rs:21-35 | marking a bucket twice is the same as marking it once |
| Bitmaps.InRangeIsCapacity | src/bitmap.rs:15-22 | word `b >> 5` exists iff b < 32 · size |
| Bitmaps.Bitmap.Valid | src/bitmap.rs:1-5 | definition: the invariant of the struct, `data` holds exactly `size` words |
| Bitmaps.Bitmap.InRange | src/bitmap.rs:29-30 | definition: `self.data[word]` does not panic, word `bucket >> 5` is below `size` |
| Bitmaps.Bitmap.constructor | src/bitmap.rs:15-18 | `size` words, all zero, nothing marked |
| Bitmaps.Bitmap.TestAndSet | src/bitmap.rs:21-35 | returns whether the bucket was marked; the words become `SetMark(old, bucket)`; unchanged when already marked; the marked set becomes the old set plus the bucket |
| Bitmaps.Bitmap.SetInWord | src/bitmap.rs:29-34 | returns whether bit k of the word was set; ORs bit k into that word and leaves the others alone |
| Bitmaps.Bitmap.Clear | src/bitmap.rs:37-41 | every word is zero and nothing is marked; the size is unchanged |
| Bitmaps.ProbeTwice | src/bitmap.rs:21-35 | a second `test_and_set` of the same bucket returns true, and the words are as after one call |
| Bitmaps.ProbeAfterClear | src/bitmap.rs:37-41 | after `clear()`, `test_and_set` of any in-range bucket returns false and marks only that bucket |
| Bitmaps.FreshBitmapProbe | src/bitmap.rs:45-54 | `Bitmap::new(1)` then `test_and_set(2)` returns false and leaves the word 4 |

## Left out

- `quick_msm` and `MSMRun` (src/collision_method_pippenger.rs:22-28, 75-105): the driver depends on GLV decomposition, `BucketMSM` and curve arithmetic, none of which are part of this model. Only its slice count (line 82) is modelled, as `Pippenger.NumSlices`.
- The `println!` calls: output only, no effect on state.
- `G1BigInt` is an unbounded natural number. Its fixed 256-bit width and limb layout are not modelled. `as_ref()[0]` is the scalar modulo 2^64 (`Pippenger.LowLimb`), and `divn` is division by 2^w.
- A panic of an `assert!` in `msm_slice` is returned as a `SliceStatus`. The writes made before the panic are kept in the model, as in the source.
- Bitmaps.Bitmap.TestAndSet: an out-of-range bucket makes `self.data[word]` panic in the source; the model requires the bucket in range instead of modelling the panic.
- Pippenger.NumSlices: it requires `w >= 1`, where the source divides by zero when `window_bits` is 0. The u32 addition at line 82 is treated as not overflowing.
- The `Debug` derive of `Bitmap` and the global test module src/test.rs are not part of this model.
- The marked set of a bitmap is stated by the predicate `Bitmaps.Marks` over the words rather than as a separate set-valued field.
