/**
 * Scalar slicing for the bucket (Pippenger) multi-scalar multiplication:
 * `msm_slice` cuts a scalar into fixed-width windows, least significant
 * first, and then recodes the windows into signed-bucket digits with a carry
 * chain, tagging a negative digit with bit 31 of its 32-bit slot.
 *
 * The scalar is a natural number; the slots of the caller's vector are
 * 32-bit unsigned words (`u32`), so every store is checked to fit.
 */
module Pippenger {
  import opened Arith

  /** `1 << 31`: the bit that marks a slice whose point must be negated. */
  const SignTag: nat := 0x8000_0000

  /** The largest window width the slicer accepts: one bit is kept for the tag. */
  const MaxWindowBits: nat := 31

  /** `x | (1 << 31)` on a 32-bit word: bit 31 is set exactly when `x >= 2^31`. */
  function OrSignTag(x: u32): (r: u32)
    ensures r >= SignTag && r % SignTag == x % SignTag
  {
    if x >= SignTag then x else x + SignTag
  }

  /** `temp.as_ref()[0]`: the least significant 64-bit limb of the big integer. */
  function LowLimb(t: nat): (r: nat)
    ensures r < Pow2(64)
  {
    t % Pow2(64)
  }

  /** `1 << window_bits`: the number of values a raw window can take. */
  function Total(w: nat): nat { Pow2(w) }

  /** `total >> 1`: the largest magnitude a signed digit may have. */
  function Half(w: nat): nat { Pow2(w) / 2 }

  /** For a window of at most 31 bits, the window taken from the low limb is the window of the whole scalar. */
  lemma LowLimbWindow(t: nat, w: nat)
    requires w <= MaxWindowBits
    ensures LowLimb(t) % Pow2(w) == t % Pow2(w)
  {
    Pow2Add(w, 64 - w);
    ModOfMod(t, Pow2(w), Pow2(64 - w));
  }

  lemma {:induction false} WindowFitsInWord(w: nat)
    requires w <= MaxWindowBits
    ensures Pow2(w) <= SignTag
    ensures Half(w) < SignTag / 2 + 1
  {
    Pow2Monotone(w, 31);
    Pow2Constants();
  }

  // ---------------------------------------------------------------------
  // First pass: raw windows
  // ---------------------------------------------------------------------

  /** Raw window `i` of scalar `s`: bits `[i*w, (i+1)*w)`. */
  function RawDigits(s: nat, w: nat, n: nat): (raw: seq<nat>)
    ensures |raw| == n
    ensures forall i :: 0 <= i < n ==> raw[i] < Pow2(w)
  {
    seq(n, i requires 0 <= i < n => Window(s, w, i))
  }

  /** `s >> (i*w)`: the scalar shifted down to window `i`. */
  function Shifted(s: nat, w: nat, i: nat): nat
  {
    DivNonneg(s, Pow2(Offset(i, w)));
    s / Pow2(Offset(i, w))
  }

  /** Bits `[i*w, (i+1)*w)` of `s`. */
  function Window(s: nat, w: nat, i: nat): (r: nat)
    ensures r < Pow2(w)
  {
    Shifted(s, w, i) % Pow2(w)
  }

  /** The number the windows `raw` stand for: the sum of `raw[i] * 2^(i*w)`. */
  function RawValue(raw: seq<nat>, w: nat): nat
  {
    if raw == [] then 0
    else RawValue(raw[..|raw| - 1], w) + raw[|raw| - 1] * Pow2(Offset(|raw| - 1, w))
  }

  lemma PowerStep(n: nat, w: nat)
    ensures Pow2(Offset(n + 1, w)) == Pow2(Offset(n, w)) * Pow2(w)
  {
    Pow2Add(Offset(n, w), w);
  }

  /** The windows, read back as a number, give the scalar modulo `2^Offset(n, w)`: bits above the last window are dropped. */
  lemma {:induction false} RawDigitsValue(s: nat, w: nat, n: nat)
    ensures RawValue(RawDigits(s, w, n), w) == s % Pow2(Offset(n, w))
  {
    if n > 0 {
      var raw := RawDigits(s, w, n);
      assert raw[..n - 1] == RawDigits(s, w, n - 1);
      RawDigitsValue(s, w, n - 1);
      var a := Pow2(Offset(n - 1, w));
      var big := Pow2(Offset(n, w));
      PowerStep(n - 1, w);
      ModMul(s, a, Pow2(w));
      var mid := (s / a) % Pow2(w);
      assert s % big == s % a + mid * a;
      assert raw[n - 1] == mid;
      assert RawValue(raw, w) == RawValue(raw[..n - 1], w) + mid * a;
    }
  }

  /** `2^(n*w)` splits at window `i < n` into the weight below it, the window itself and the windows above. */
  lemma PowerSplit(n: nat, w: nat, i: nat)
    requires i < n
    ensures Pow2(Offset(n, w)) == Pow2(Offset(i, w)) * Pow2(w) * Pow2(Offset(n - 1 - i, w))
  {
    var j := n - 1 - i;
    OffsetAdd(i + 1, j, w);
    Pow2Add3(Offset(i, w), w, Offset(j, w));
  }

  /** Window `i` only depends on the scalar modulo `2^Offset(n, w)` when `i < n`. */
  lemma RawDigitsLowBits(s: nat, w: nat, n: nat)
    ensures RawDigits(s, w, n) == RawDigits(s % Pow2(Offset(n, w)), w, n)
  {
    var t := s % Pow2(Offset(n, w));
    forall i | 0 <= i < n
      ensures (s / Pow2(Offset(i, w))) % Pow2(w) == (t / Pow2(Offset(i, w))) % Pow2(w)
    {
      PowerSplit(n, w, i);
      WindowOfMod(s, Pow2(Offset(i, w)), Pow2(w), Pow2(Offset(n - 1 - i, w)));
    }
  }

  // ---------------------------------------------------------------------
  // Second pass: signed-bucket recoding
  // ---------------------------------------------------------------------

  /** A recoded window: a bucket magnitude and whether the point is negated. */
  datatype SignedDigit = SignedDigit(magnitude: nat, negate: bool)

  /** The signed value a digit contributes at its window. */
  function Value(d: SignedDigit): int
  {
    if d.negate then -(d.magnitude as int) else d.magnitude
  }

  /** The result of recoding one window: its digit and the carry into the next window. */
  datatype Step = Step(digit: SignedDigit, carry: nat)

  /**
   * One iteration of the recoding loop: `d = raw + carry`; a `d` above half
   * becomes `total - d`, negated, with a carry of one into the next window.
   */
  function RecodeStep(raw: nat, carryIn: nat, w: nat): (st: Step)
    requires raw < Pow2(w) && carryIn <= 1
    ensures st.digit.negate <==> raw + carryIn > Half(w)
    ensures st.carry == if st.digit.negate then 1 else 0
    ensures st.digit.magnitude <= Half(w)
    ensures Value(st.digit) + st.carry * Pow2(w) == raw + carryIn
    ensures Half(w) + 1 - Pow2(w) <= Value(st.digit) <= Half(w)
  {
    var d := raw + carryIn;
    if d > Half(w) then Step(SignedDigit(Total(w) - d, true), 1)
    else Step(SignedDigit(d, false), 0)
  }

  /** The digits of a whole recoding and the carry left after its last window. */
  datatype Recoded = Recoded(digits: seq<SignedDigit>, carry: nat)

  /** The recoding loop run over `raw` from window 0 with no initial carry. */
  function Recode(raw: seq<nat>, w: nat): (r: Recoded)
    requires forall i :: 0 <= i < |raw| ==> raw[i] < Pow2(w)
    ensures |r.digits| == |raw| && r.carry <= 1
    ensures forall i :: 0 <= i < |raw| ==> r.digits[i].magnitude <= Half(w)
  {
    if raw == [] then Recoded([], 0)
    else
      var prev := Recode(raw[..|raw| - 1], w);
      var st := RecodeStep(raw[|raw| - 1], prev.carry, w);
      Recoded(prev.digits + [st.digit], st.carry)
  }

  /** The signed number a digit sequence stands for: the sum of `Value(ds[i]) * 2^(i*w)`. */
  function DigitsValue(ds: seq<SignedDigit>, w: nat): int
  {
    if ds == [] then 0
    else DigitsValue(ds[..|ds| - 1], w) + Value(ds[|ds| - 1]) * Pow2(Offset(|ds| - 1, w))
  }

  /** The largest number `n` signed digits can stand for: every digit at `Half(w)`. */
  function MaxSigned(n: nat, w: nat): nat
  {
    if n == 0 then 0 else MaxSigned(n - 1, w) + Half(w) * Pow2(Offset(n - 1, w))
  }

  /** Recoding a prefix of the windows gives a prefix of the recoding. */
  lemma {:induction false} RecodePrefix(raw: seq<nat>, w: nat, i: nat)
    requires forall k :: 0 <= k < |raw| ==> raw[k] < Pow2(w)
    requires i < |raw|
    ensures Recode(raw, w).digits[i] == Recode(raw[..i + 1], w).digits[i]
  {
    var n := |raw|;
    if i < n - 1 {
      assert raw[..n - 1][..i + 1] == raw[..i + 1];
      RecodePrefix(raw[..n - 1], w, i);
    } else {
      assert raw[..i + 1] == raw;
    }
  }

  /**
   * Digit `i` of the recoding, in terms of raw window `i` and the carry `c`
   * out of the windows below it: it is negated exactly when `raw[i] + c`
   * exceeds half, and its value plus the carry it passes on makes up
   * `raw[i] + c`.
   */
  lemma RecodeDigitAt(raw: seq<nat>, w: nat, i: nat)
    requires forall k :: 0 <= k < |raw| ==> raw[k] < Pow2(w)
    requires i < |raw|
    ensures Recode(raw[..i], w).carry <= 1
    ensures var c := Recode(raw[..i], w).carry;
            var d := Recode(raw, w).digits[i];
            && (d.negate <==> raw[i] + c > Half(w))
            && d.magnitude <= Half(w)
            && (d.negate ==> d.magnitude == Total(w) - (raw[i] + c))
            && (!d.negate ==> d.magnitude == raw[i] + c)
            && Value(d) + Recode(raw[..i + 1], w).carry * Pow2(w) == raw[i] + c
  {
    RecodePrefix(raw, w, i);
    assert raw[..i + 1][..i] == raw[..i];
  }

  /** Recoding keeps the number: digits plus the final carry at weight `2^Offset(n, w)` equal the raw windows. */
  lemma {:induction false} RecodePreservesValue(raw: seq<nat>, w: nat)
    requires forall i :: 0 <= i < |raw| ==> raw[i] < Pow2(w)
    ensures DigitsValue(Recode(raw, w).digits, w) + Recode(raw, w).carry * Pow2(Offset(|raw|, w))
            == RawValue(raw, w)
  {
    if raw != [] {
      var n := |raw|;
      var prev := Recode(raw[..n - 1], w);
      var st := RecodeStep(raw[n - 1], prev.carry, w);
      var ds := prev.digits + [st.digit];
      assert ds[..n - 1] == prev.digits;
      assert Recode(raw, w) == Recoded(ds, st.carry);
      assert DigitsValue(ds, w) == DigitsValue(prev.digits, w) + Value(st.digit) * Pow2(Offset(n - 1, w));
      RecodePreservesValue(raw[..n - 1], w);
      PowerStep(n - 1, w);
      CarryIntoWeight(DigitsValue(prev.digits, w), RawValue(raw[..n - 1], w), Value(st.digit),
                      prev.carry, st.carry, raw[n - 1], Pow2(Offset(n - 1, w)), Pow2(w), Pow2(Offset(n, w)));
    }
  }

  /** The arithmetic of one recoding step, placed at weight `p` of a number whose next weight is `big`. */
  lemma CarryIntoWeight(lower: int, rawLower: int, v: int, c: int, c': int, r: int, p: int, t: int, big: int)
    requires lower + c * p == rawLower
    requires v + c' * t == r + c
    requires big == p * t
    ensures (lower + v * p) + c' * big == rawLower + r * p
  {
    assert c' * big == (c' * t) * p;
    assert v * p + (c' * t) * p == (v + c' * t) * p;
    assert (r + c) * p == r * p + c * p;
  }

  /** Bounds of the recoded number: it lies in `[MaxSigned + 1 - 2^(n*w), MaxSigned]`. */
  lemma {:induction false} RecodeBounds(raw: seq<nat>, w: nat)
    requires forall i :: 0 <= i < |raw| ==> raw[i] < Pow2(w)
    ensures MaxSigned(|raw|, w) + 1 - Pow2(Offset(|raw|, w))
            <= DigitsValue(Recode(raw, w).digits, w)
            <= MaxSigned(|raw|, w)
  {
    if raw != [] {
      var n := |raw|;
      var prev := Recode(raw[..n - 1], w);
      var st := RecodeStep(raw[n - 1], prev.carry, w);
      var ds := prev.digits + [st.digit];
      assert ds[..n - 1] == prev.digits;
      assert Recode(raw, w) == Recoded(ds, st.carry);
      assert DigitsValue(ds, w) == DigitsValue(prev.digits, w) + Value(st.digit) * Pow2(Offset(n - 1, w));
      RecodeBounds(raw[..n - 1], w);
      PowerStep(n - 1, w);
      BoundsAtWeight(DigitsValue(prev.digits, w), MaxSigned(n - 1, w), Value(st.digit), Half(w),
                     Pow2(Offset(n - 1, w)), Pow2(w), Pow2(Offset(n, w)));
    }
  }

  /** Adding one digit in `[half + 1 - t, half]` at weight `p` keeps the number within the bounds for one more window. */
  lemma BoundsAtWeight(lower: int, m: int, v: int, half: int, p: nat, t: int, big: int)
    requires m + 1 - p <= lower <= m
    requires half + 1 - t <= v <= half
    requires big == p * t
    ensures (m + half * p) + 1 - big <= lower + v * p <= m + half * p
  {
    var low := half + 1 - t;
    MulMonotone(low, v, p);
    MulMonotone(v, half, p);
    assert low * p == half * p + p - big;
  }

  // ---------------------------------------------------------------------
  // The 32-bit encoding of a digit
  // ---------------------------------------------------------------------

  /** A digit stored as a slice word: the magnitude, with bit 31 set when negated. */
  function EncodeDigit(d: SignedDigit): (x: u32)
    requires d.magnitude < SignTag
    ensures DecodeWord(x) == d
  {
    if d.negate then OrSignTag(d.magnitude) else d.magnitude
  }

  /** A slice word read back: the low 31 bits are the magnitude, bit 31 the negate flag. */
  function DecodeWord(x: u32): (d: SignedDigit)
    ensures d.magnitude < SignTag
  {
    SignedDigit(x % SignTag, x >= SignTag)
  }

  /** Every slice word is the encoding of the digit it decodes to. */
  lemma WordRoundTrip(x: u32)
    ensures EncodeDigit(DecodeWord(x)) == x
  {
    if x >= SignTag {
      assert x % SignTag == x - SignTag;
    }
  }

  function EncodeAll(ds: seq<SignedDigit>): (xs: seq<u32>)
    requires forall i :: 0 <= i < |ds| ==> ds[i].magnitude < SignTag
    ensures |xs| == |ds|
    ensures forall i :: 0 <= i < |ds| ==> DecodeWord(xs[i]) == ds[i]
  {
    seq(|ds|, i requires 0 <= i < |ds| => EncodeDigit(ds[i]))
  }

  lemma EncodeAllSnoc(ds: seq<SignedDigit>, d: SignedDigit)
    requires forall i :: 0 <= i < |ds| ==> ds[i].magnitude < SignTag
    requires d.magnitude < SignTag
    ensures EncodeAll(ds + [d]) == EncodeAll(ds) + [EncodeDigit(d)]
  {
  }

  function DecodeAll(xs: seq<u32>): (ds: seq<SignedDigit>)
    ensures |ds| == |xs|
  {
    seq(|xs|, i requires 0 <= i < |xs| => DecodeWord(xs[i]))
  }

  /** The signed number a sequence of slice words stands for. */
  function WordsValue(xs: seq<u32>, w: nat): int
  {
    DigitsValue(DecodeAll(xs), w)
  }

  // ---------------------------------------------------------------------
  // The whole of `msm_slice`
  // ---------------------------------------------------------------------

  /** The slice words `msm_slice` leaves in a vector of `n` slots for scalar `s` and window `w`. */
  function SliceWords(s: nat, w: nat, n: nat): (xs: seq<u32>)
    requires w <= MaxWindowBits
    ensures |xs| == n
  {
    RecodedWords(RawDigits(s, w, n), w)
  }

  /** The slice words for raw windows `raw`: the recoded digits, encoded. */
  function RecodedWords(raw: seq<nat>, w: nat): (xs: seq<u32>)
    requires w <= MaxWindowBits
    requires forall i :: 0 <= i < |raw| ==> raw[i] < Pow2(w)
    ensures |xs| == |raw|
  {
    WindowFitsInWord(w);
    EncodeAll(Recode(raw, w).digits)
  }

  /** The carry left after the last window, which the source asserts is zero. */
  function FinalCarry(s: nat, w: nat, n: nat): (c: nat)
    ensures c <= 1
  {
    Recode(RawDigits(s, w, n), w).carry
  }

  /** Decoding the slice words reads back the digits of the recoding. */
  lemma SliceWordsDecode(s: nat, w: nat, n: nat)
    requires w <= MaxWindowBits
    ensures DecodeAll(SliceWords(s, w, n)) == Recode(RawDigits(s, w, n), w).digits
  {
  }

  /**
   * What the slices stand for in general: their signed value, plus the final
   * carry at weight `2^Offset(n, w)`, is the scalar modulo `2^Offset(n, w)`.
   */
  lemma SliceValue(s: nat, w: nat, n: nat)
    requires w <= MaxWindowBits
    ensures WordsValue(SliceWords(s, w, n), w) + FinalCarry(s, w, n) * Pow2(Offset(n, w))
            == s % Pow2(Offset(n, w))
  {
    SliceWordsDecode(s, w, n);
    RecodedValue(s, w, n);
  }

  lemma RecodedValue(s: nat, w: nat, n: nat)
    ensures DigitsValue(Recode(RawDigits(s, w, n), w).digits, w) + FinalCarry(s, w, n) * Pow2(Offset(n, w))
            == s % Pow2(Offset(n, w))
  {
    RecodePreservesValue(RawDigits(s, w, n), w);
    RawDigitsValue(s, w, n);
  }

  /**
   * Round trip: a scalar that fits in the `n` windows and leaves no final
   * carry is reconstructed exactly from its signed digits.
   */
  lemma SliceRoundTrip(s: nat, w: nat, n: nat)
    requires w <= MaxWindowBits
    requires s < Pow2(Offset(n, w)) && FinalCarry(s, w, n) == 0
    ensures WordsValue(SliceWords(s, w, n), w) == s
  {
    SliceValue(s, w, n);
    assert FinalCarry(s, w, n) * Pow2(Offset(n, w)) == 0;
    DivModUnique(s, Pow2(Offset(n, w)), 0, s);
  }

  /**
   * The final carry is non-zero exactly when the scalar, modulo `2^Offset(n, w)`,
   * exceeds the largest number `n` signed digits can stand for.
   */
  lemma FinalCarryIff(s: nat, w: nat, n: nat)
    requires w <= MaxWindowBits
    ensures FinalCarry(s, w, n) != 0 <==> s % Pow2(Offset(n, w)) > MaxSigned(n, w)
  {
    var v := RecodedRange(s, w, n);
  }

  /** The value of the recoded digits, with the two facts the final carry is decided by. */
  lemma RecodedRange(s: nat, w: nat, n: nat) returns (v: int)
    ensures FinalCarry(s, w, n) == 0 ==> v == s % Pow2(Offset(n, w))
    ensures FinalCarry(s, w, n) != 0 ==> v + Pow2(Offset(n, w)) == s % Pow2(Offset(n, w))
    ensures MaxSigned(n, w) + 1 - Pow2(Offset(n, w)) <= v <= MaxSigned(n, w)
  {
    v := RecodedValueBounds(s, w, n);
    CarryTimes(FinalCarry(s, w, n), Pow2(Offset(n, w)));
  }

  lemma CarryTimes(c: nat, p: nat)
    requires c <= 1
    ensures c * p == if c == 0 then 0 else p
  {
  }

  lemma RecodedValueBounds(s: nat, w: nat, n: nat) returns (v: int)
    ensures v + FinalCarry(s, w, n) * Pow2(Offset(n, w)) == s % Pow2(Offset(n, w))
    ensures MaxSigned(n, w) + 1 - Pow2(Offset(n, w)) <= v <= MaxSigned(n, w)
  {
    v := DigitsValue(Recode(RawDigits(s, w, n), w).digits, w);
    RecodedValue(s, w, n);
    RecodeBounds(RawDigits(s, w, n), w);
  }

  /** Every scalar whose top window bit is clear slices without overflow, and round-trips. */
  lemma NoOverflowBelowTopBit(s: nat, w: nat, n: nat)
    requires 1 <= w <= MaxWindowBits && n >= 1
    requires s < Pow2(Offset(n, w) - 1)
    ensures FinalCarry(s, w, n) == 0
    ensures WordsValue(SliceWords(s, w, n), w) == s
  {
    var p := Pow2(Offset(n, w));
    MaxSignedCoversTopBit(w, n);
    Pow2Monotone(Offset(n, w) - 1, Offset(n, w));
    DivModUnique(s, p, 0, s);
    FinalCarryIff(s, w, n);
    SliceRoundTrip(s, w, n);
  }

  /** The largest signed value reaches at least the top bit of the `n` windows. */
  lemma MaxSignedCoversTopBit(w: nat, n: nat)
    requires 1 <= w && 1 <= n
    ensures MaxSigned(n, w) >= Pow2(Offset(n, w) - 1)
  {
    var low, h := Pow2(Offset(n - 1, w)), Pow2(w - 1);
    var e := Offset(n - 1, w) + (w - 1);
    assert Offset(n, w) - 1 == e;
    Pow2Add(Offset(n - 1, w), w - 1);
    assert Pow2(w) == 2 * h;
    DivModUnique(Pow2(w), 2, h, 0);
    AtLeastLast(MaxSigned(n, w), MaxSigned(n - 1, w), Half(w), low, Pow2(e));
  }

  lemma AtLeastLast(total: int, rest: nat, h: nat, low: nat, top: nat)
    requires total == rest + h * low && top == low * h
    ensures total >= top
  {
  }

  /**
   * Bits of the scalar above the last window are dropped without an error:
   * slicing `s` gives the same slices, and the same final carry, as slicing
   * `s mod 2^(n*w)`.
   */
  lemma SliceIgnoresHighBits(s: nat, w: nat, n: nat)
    requires w <= MaxWindowBits
    ensures SliceWords(s, w, n) == SliceWords(s % Pow2(Offset(n, w)), w, n)
    ensures FinalCarry(s, w, n) == FinalCarry(s % Pow2(Offset(n, w)), w, n)
  {
    RawDigitsLowBits(s, w, n);
  }

  /**
   * A scalar one bit wider than the windows hold, `2^(n*w)`, is accepted:
   * it leaves no final carry, and its slices stand for 0, not for the scalar.
   */
  lemma WideScalarAccepted(w: nat, n: nat)
    requires w <= MaxWindowBits
    ensures FinalCarry(Pow2(Offset(n, w)), w, n) == 0
    ensures WordsValue(SliceWords(Pow2(Offset(n, w)), w, n), w) == 0
  {
    var s := Pow2(Offset(n, w));
    assert s % s == 0;
    SliceIgnoresHighBits(s, w, n);
    FinalCarryIff(0, w, n);
    SliceValue(0, w, n);
    assert 0 % s == 0;
  }

  /**
   * `(G1_SCALAR_SIZE_GLV + window_bits - 1) / window_bits`: the number of
   * windows of `w` bits that cover a scalar of `bits` bits.
   */
  function NumSlices(bits: nat, w: nat): nat
    requires w >= 1
  {
    (bits + w - 1) / w
  }

  /** `NumSlices` is the ceiling of `bits / w`: its windows cover `bits` bits, and one window fewer would not. */
  lemma NumSlicesIsCeiling(bits: nat, w: nat)
    requires w >= 1
    ensures NumSlices(bits, w) * w >= bits
    ensures NumSlices(bits, w) == 0 || (NumSlices(bits, w) - 1) * w < bits
  {
    var n := NumSlices(bits, w);
    var r := (bits + w - 1) % w;
    assert bits + w - 1 == n * w + r;
    if n > 0 {
      assert (n - 1) * w == n * w - w;
    }
  }

  /**
   * With `NumSlices(bits, w)` slots, every scalar below `2^(bits-1)` slices
   * without a final carry and is reconstructed from its slices.
   */
  lemma NumSlicesSuffice(s: nat, bits: nat, w: nat)
    requires 1 <= w <= MaxWindowBits && bits >= 1
    requires s < Pow2(bits - 1)
    ensures FinalCarry(s, w, NumSlices(bits, w)) == 0
    ensures WordsValue(SliceWords(s, w, NumSlices(bits, w)), w) == s
  {
    var n := NumSlices(bits, w);
    NumSlicesIsCeiling(bits, w);
    OffsetIsProduct(n, w);
    Pow2Monotone(bits - 1, Offset(n, w) - 1);
    NoOverflowBelowTopBit(s, w, n);
  }

  /** How `msm_slice` ends: normally, or at one of its two assertions. */
  datatype SliceStatus = Done | WindowTooWide | CarryOverflow

  /**
   * `msm_slice(scalar, slices, window_bits)`: overwrites every entry of
   * `slices`. A window wider than 31 bits fails before anything is written;
   * a non-zero final carry fails after all entries are written.
   */
  method MsmSlice(scalar: nat, slices: array<u32>, windowBits: u32) returns (status: SliceStatus)
    modifies slices
    ensures windowBits > MaxWindowBits ==> status == WindowTooWide && slices[..] == old(slices[..])
    ensures windowBits <= MaxWindowBits ==> slices[..] == SliceWords(scalar, windowBits, slices.Length)
    ensures windowBits <= MaxWindowBits ==>
              (status == Done <==> FinalCarry(scalar, windowBits, slices.Length) == 0) &&
              (status != Done ==> status == CarryOverflow)
  {
    if windowBits > MaxWindowBits {
      return WindowTooWide;
    }
    var w: nat := windowBits;
    SliceWindows(scalar, slices, w);
    var carry := RecodeWindows(slices, w);
    status := if carry == 0 then Done else CarryOverflow;
  }

  /** The first loop of `msm_slice`: slot `i` receives raw window `i` of the scalar. */
  method SliceWindows(scalar: nat, slices: array<u32>, w: nat)
    requires w <= MaxWindowBits
    modifies slices
    ensures slices[..] == RawDigits(scalar, w, slices.Length)
  {
    ghost var raw := RawDigits(scalar, w, slices.Length);
    WindowFitsInWord(w);
    var temp: nat := scalar;
    for i := 0 to slices.Length
      invariant temp == Shifted(scalar, w, i)
      invariant forall k :: 0 <= k < i ==> slices[k] == raw[k]
    {
      var digit, next := WindowStep(scalar, w, i, temp);
      slices[i] := digit;
      temp := next;
    }
  }

  /**
   * One turn of the first loop: `temp.as_ref()[0] % total`, which is raw
   * window `i`, and `temp.divn(w)`, which starts at window `i + 1`.
   */
  method WindowStep(scalar: nat, w: nat, i: nat, temp: nat) returns (digit: u32, next: nat)
    requires w <= MaxWindowBits && temp == Shifted(scalar, w, i)
    ensures digit == Window(scalar, w, i)
    ensures next == Shifted(scalar, w, i + 1)
  {
    var total := Pow2(w);
    DivNonneg(temp, total);
    next := temp / total;
    WindowFitsInWord(w);
    digit := LowLimb(temp) % total;
    LowLimbWindow(temp, w);
    ShiftStep(scalar, w, i);
  }

  /** Shifting by window `i`'s offset and then by one more window is shifting by window `i + 1`'s offset. */
  lemma ShiftStep(s: nat, w: nat, i: nat)
    ensures s / Pow2(Offset(i, w)) / Pow2(w) == s / Pow2(Offset(i + 1, w))
  {
    PowerStep(i, w);
    DivDiv(s, Pow2(Offset(i, w)), Pow2(w));
  }

  /**
   * The second loop of `msm_slice`: recodes the raw windows in `slices` in
   * place, from the lowest window up, and returns the carry left at the end.
   */
  method RecodeWindows(slices: array<u32>, w: nat) returns (carry: u32)
    requires w <= MaxWindowBits
    requires forall k :: 0 <= k < slices.Length ==> slices[k] < Pow2(w)
    modifies slices
    ensures slices[..] == RecodedWords(old(slices[..]), w)
    ensures carry == Recode(old(slices[..]), w).carry
  {
    ghost var raw := slices[..];
    var total: u32, half: u32 := WindowConstants(w);
    carry := 0;
    for i := 0 to slices.Length
      invariant forall k :: i <= k < slices.Length ==> slices[k] == raw[k]
      invariant Recode(raw[..i], w).carry == carry
      invariant slices[..i] == RecodedWords(raw[..i], w)
    {
      RecodedWordsSnoc(raw, w, i);
      slices[i], carry := RecodeSlot(slices[i], carry, w, total, half);
      assert slices[..i + 1] == slices[..i] + [slices[i]];
    }
    assert raw[..slices.Length] == raw;
    assert slices[..] == slices[..slices.Length];
  }

  /** `total` and `half` as the source computes them, as slice words. */
  method WindowConstants(w: nat) returns (total: u32, half: u32)
    requires w <= MaxWindowBits
    ensures total == Total(w) && half == Half(w)
  {
    WindowFitsInWord(w);
    total := Total(w);
    half := total / 2;
  }

  /**
   * One turn of the second loop on one slot: adds the carry in, and when the
   * sum exceeds `half` stores `total - sum` with bit 31 set and carries one.
   */
  method RecodeSlot(x: u32, carryIn: u32, w: nat, total: u32, half: u32) returns (y: u32, carryOut: u32)
    requires w <= MaxWindowBits && total == Total(w) && half == Half(w)
    requires x < Pow2(w) && carryIn <= 1
    ensures y == EncodeDigit(RecodeStep(x, carryIn, w).digit)
    ensures carryOut == RecodeStep(x, carryIn, w).carry
  {
    WindowFitsInWord(w);
    y := x + carryIn;
    if y > half {
      y := total - y;
      carryOut := 1;
      y := OrSignTag(y);
    } else {
      carryOut := 0;
    }
  }

  /** Recoding one more window appends that window's encoded digit and passes its carry on. */
  lemma RecodedWordsSnoc(raw: seq<nat>, w: nat, i: nat)
    requires w <= MaxWindowBits
    requires forall k :: 0 <= k < |raw| ==> raw[k] < Pow2(w)
    requires i < |raw|
    ensures Recode(raw[..i], w).carry <= 1
    ensures var st := RecodeStep(raw[i], Recode(raw[..i], w).carry, w);
            && st.digit.magnitude < SignTag
            && RecodedWords(raw[..i + 1], w) == RecodedWords(raw[..i], w) + [EncodeDigit(st.digit)]
            && Recode(raw[..i + 1], w).carry == st.carry
  {
    WindowFitsInWord(w);
    var prev := Recode(raw[..i], w);
    var st := RecodeStep(raw[i], prev.carry, w);
    assert raw[..i + 1][..i] == raw[..i];
    assert Recode(raw[..i + 1], w) == Recoded(prev.digits + [st.digit], st.carry);
    EncodeAllSnoc(prev.digits, st.digit);
  }
}
