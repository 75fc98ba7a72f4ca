/**
 * The four slicing vectors of `collision_method_pippenger_tests`, each
 * computed by `MsmSlice` on a fresh three-slot vector of zeros, and one
 * scalar inside the declared width that the carry assertion rejects.
 */
module PippengerVectors {
  import opened Arith
  import opened Pippenger

  /** Runs `msm_slice` on a fresh vector of `n` zeros and returns what it leaves. */
  method SliceInto(scalar: nat, n: nat, windowBits: u32) returns (words: seq<u32>, status: SliceStatus)
    requires windowBits <= MaxWindowBits
    ensures words == SliceWords(scalar, windowBits, n)
    ensures status == Done <==> FinalCarry(scalar, windowBits, n) == 0
    ensures status != Done ==> status == CarryOverflow
  {
    var slices := new u32[n](_ => 0);
    status := MsmSlice(scalar, slices, windowBits);
    words := slices[..];
  }

  /** `test_msm_slice_window_size_1`: 5, `0b101`, in one-bit windows is `[1, 0, 1]`. */
  method WindowSize1() returns (words: seq<u32>, status: SliceStatus)
    ensures words == [1, 0, 1] && status == Done
  {
    words, status := SliceInto(5, 3, 1);
    WindowSize1Slices();
  }

  lemma WindowSize1Slices()
    ensures SliceWords(5, 1, 3) == [1, 0, 1] && FinalCarry(5, 1, 3) == 0
  {
    WindowSize1Windows();
    WindowSize1Recoded();
  }

  lemma WindowSize1Windows()
    ensures RawDigits(5, 1, 3) == [1, 0, 1]
  {
    assert Pow2(1) == 2 && Pow2(2) == 4;
    WindowIs(5, 1, 0, 1, 2);
    WindowIs(5, 1, 1, 2, 2);
    WindowIs(5, 1, 2, 4, 2);
    RawOf(5, 1, 1, 0, 1);
  }

  lemma WindowSize1Recoded()
    ensures RecodedWords([1, 0, 1], 1) == [1, 0, 1] && Recode([1, 0, 1], 1).carry == 0
  {
    RecodeThree([1, 0, 1], 1);
    assert Half(1) == 1;
    EncodeThree(Recode([1, 0, 1], 1).digits);
  }

  /** `test_msm_slice_window_size_2`: 6, `0b000110`, in two-bit windows is `[2, 1, 0]`. */
  method WindowSize2() returns (words: seq<u32>, status: SliceStatus)
    ensures words == [2, 1, 0] && status == Done
  {
    words, status := SliceInto(6, 3, 2);
    WindowSize2Slices();
  }

  lemma WindowSize2Slices()
    ensures SliceWords(6, 2, 3) == [2, 1, 0] && FinalCarry(6, 2, 3) == 0
  {
    WindowSize2Windows();
    WindowSize2Recoded();
  }

  lemma WindowSize2Windows()
    ensures RawDigits(6, 2, 3) == [2, 1, 0]
  {
    assert Pow2(2) == 4 && Pow2(4) == 16;
    WindowIs(6, 2, 0, 1, 4);
    WindowIs(6, 2, 1, 4, 4);
    WindowIs(6, 2, 2, 16, 4);
    RawOf(6, 2, 2, 1, 0);
  }

  lemma WindowSize2Recoded()
    ensures RecodedWords([2, 1, 0], 2) == [2, 1, 0] && Recode([2, 1, 0], 2).carry == 0
  {
    RecodeThree([2, 1, 0], 2);
    assert Half(2) == 2;
    EncodeThree(Recode([2, 1, 0], 2).digits);
  }

  /**
   * `test_msm_slice_window_size_3`: the windows of 184, `0b010111000`, are
   * `[0, 7, 2]`; the 7 becomes a negated 1 and carries into the 2.
   */
  method WindowSize3() returns (words: seq<u32>, status: SliceStatus)
    ensures words == [0, 0x8000_0001, 3] && status == Done
  {
    words, status := SliceInto(184, 3, 3);
    WindowSize3Slices();
  }

  lemma WindowSize3Slices()
    ensures SliceWords(184, 3, 3) == [0, 0x8000_0001, 3] && FinalCarry(184, 3, 3) == 0
  {
    WindowSize3Windows();
    WindowSize3Recoded();
  }

  lemma WindowSize3Windows()
    ensures RawDigits(184, 3, 3) == [0, 7, 2]
  {
    assert Pow2(3) == 8 && Pow2(6) == 64;
    WindowIs(184, 3, 0, 1, 8);
    WindowIs(184, 3, 1, 8, 8);
    WindowIs(184, 3, 2, 64, 8);
    RawOf(184, 3, 0, 7, 2);
  }

  lemma WindowSize3Recoded()
    ensures RecodedWords([0, 7, 2], 3) == [0, 0x8000_0001, 3] && Recode([0, 7, 2], 3).carry == 0
  {
    RecodeThree([0, 7, 2], 3);
    assert Half(3) == 4;
    EncodeThree(Recode([0, 7, 2], 3).digits);
  }

  /** `test_msm_slice_window_size_16`: `0x123400007FFF` in 16-bit windows is `[0x7FFF, 0, 0x1234]`. */
  method WindowSize16() returns (words: seq<u32>, status: SliceStatus)
    ensures words == [0x7FFF, 0, 0x1234] && status == Done
  {
    words, status := SliceInto(0x1234_0000_7FFF, 3, 16);
    WindowSize16Slices();
  }

  lemma WindowSize16Slices()
    ensures SliceWords(0x1234_0000_7FFF, 16, 3) == [0x7FFF, 0, 0x1234] && FinalCarry(0x1234_0000_7FFF, 16, 3) == 0
  {
    WindowSize16Windows();
    WindowSize16Recoded();
  }

  lemma WindowSize16Windows()
    ensures RawDigits(0x1234_0000_7FFF, 16, 3) == [0x7FFF, 0, 0x1234]
  {
    Pow2Sixteen();
    Pow2ThirtyTwo();
    WindowIs(0x1234_0000_7FFF, 16, 0, 1, 0x1_0000);
    WindowIs(0x1234_0000_7FFF, 16, 1, 0x1_0000, 0x1_0000);
    WindowIs(0x1234_0000_7FFF, 16, 2, 0x1_0000_0000, 0x1_0000);
    RawOf(0x1234_0000_7FFF, 16, 0x7FFF, 0, 0x1234);
  }

  lemma WindowSize16Recoded()
    ensures Pow2(16) == 0x1_0000 && RecodedWords([0x7FFF, 0, 0x1234], 16) == [0x7FFF, 0, 0x1234] && Recode([0x7FFF, 0, 0x1234], 16).carry == 0
  {
    Pow2Sixteen();
    RecodeThree([0x7FFF, 0, 0x1234], 16);
    assert Half(16) == 0x8000;
    EncodeThree(Recode([0x7FFF, 0, 0x1234], 16).digits);
  }

  /**
   * 11, `0b1011`, is a 4-bit scalar, and `NumSlices(4, 2)` gives it two
   * two-bit slots, yet `msm_slice` ends at its carry assertion: the windows
   * `[3, 2]` recode to a negated 1 with a carry, and `2 + 1` exceeds half
   * again.
   */
  method InWidthScalarFails() returns (status: SliceStatus)
    ensures status == CarryOverflow
  {
    var words;
    InWidthScalarOverflows();
    words, status := SliceInto(11, NumSlices(4, 2), 2);
  }

  /** The scalar 11 fits in 4 bits, but its two slots of 2 bits leave a final carry. */
  lemma InWidthScalarOverflows()
    ensures 11 < Pow2(4) && NumSlices(4, 2) == 2
    ensures RawDigits(11, 2, 2) == [3, 2] && FinalCarry(11, 2, 2) == 1
  {
    assert Pow2(2) == 4 && Pow2(4) == 16;
    InWidthScalarWindows();
    InWidthScalarRecoded();
  }

  lemma InWidthScalarWindows()
    ensures RawDigits(11, 2, 2) == [3, 2]
  {
    assert Pow2(2) == 4;
    WindowIs(11, 2, 0, 1, 4);
    WindowIs(11, 2, 1, 4, 4);
  }

  lemma InWidthScalarRecoded()
    ensures Recode([3, 2], 2).carry == 1
  {
    var raw: seq<nat> := [3, 2];
    assert Pow2(2) == 4 && Half(2) == 2;
    assert raw[..1][..0] == [];
    assert raw[..2][..1] == raw[..1];
    assert raw[..2] == raw;
    assert Recode(raw[..1], 2).carry == 1;
  }

  /** Window `i` of `s`, given the two powers of two it is cut with. */
  lemma WindowIs(s: nat, w: nat, i: nat, p: nat, q: nat)
    requires Pow2(i * w) == p && Pow2(w) == q
    ensures Window(s, w, i) == (s / p) % q
  {
    OffsetIsProduct(i, w);
  }

  /** The first three windows of `s`, given each of them. */
  lemma RawOf(s: nat, w: nat, a: nat, b: nat, c: nat)
    requires Window(s, w, 0) == a && Window(s, w, 1) == b && Window(s, w, 2) == c
    ensures RawDigits(s, w, 3) == [a, b, c]
  {
  }

  /** Recoding three windows, one window at a time. */
  lemma RecodeThree(raw: seq<nat>, w: nat)
    requires |raw| == 3 && forall i :: 0 <= i < 3 ==> raw[i] < Pow2(w)
    ensures var r0 := RecodeStep(raw[0], 0, w);
            var r1 := RecodeStep(raw[1], r0.carry, w);
            var r2 := RecodeStep(raw[2], r1.carry, w);
            Recode(raw, w) == Recoded([r0.digit, r1.digit, r2.digit], r2.carry)
  {
    var r0 := RecodeStep(raw[0], 0, w);
    var r1 := RecodeStep(raw[1], r0.carry, w);
    assert raw[..1][..0] == [];
    assert Recode(raw[..1], w) == Recoded([r0.digit], r0.carry);
    assert raw[..2][..1] == raw[..1];
    assert Recode(raw[..2], w) == Recoded([r0.digit, r1.digit], r1.carry);
    assert raw[..3][..2] == raw[..2];
    assert raw[..3] == raw;
  }

  /** Encoding three digits, one digit at a time. */
  lemma EncodeThree(ds: seq<SignedDigit>)
    requires |ds| == 3 && forall i :: 0 <= i < 3 ==> ds[i].magnitude < SignTag
    ensures EncodeAll(ds) == [EncodeDigit(ds[0]), EncodeDigit(ds[1]), EncodeDigit(ds[2])]
  {
  }
}
