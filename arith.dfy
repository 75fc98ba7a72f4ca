/** The 32-bit word type, powers of two and the Euclidean-division facts that the scalar slicer relies on. */
module Arith {

  /** The source's 32-bit unsigned integer, as the values it can hold. */
  type u32 = x: int | 0 <= x < 0x1_0000_0000

  /** `2^n` (the source's `1 << n`). */
  function Pow2(n: nat): (r: nat)
    ensures r >= 1
  {
    if n == 0 then 1 else 2 * Pow2(n - 1)
  }

  lemma {:induction false} Pow2Add(a: nat, b: nat)
    ensures Pow2(a + b) == Pow2(a) * Pow2(b)
  {
    if b > 0 {
      Pow2Add(a, b - 1);
      assert Pow2(a + b) == 2 * Pow2(a + b - 1);
    }
  }

  /** The two powers the source's word sizes name: `1 << 31` and the limb modulus `2^64`. */
  lemma Pow2Constants()
    ensures Pow2(31) == 0x8000_0000 && Pow2(64) == 0x1_0000_0000_0000_0000
  {
    Pow2ThirtyTwo();
    Pow2Add(32, 32);
    assert Pow2(32) == 2 * Pow2(31);
  }

  lemma Pow2ThirtyTwo()
    ensures Pow2(32) == 0x1_0000_0000
  {
    Pow2Sixteen();
    Pow2Add(16, 16);
  }

  lemma Pow2Sixteen()
    ensures Pow2(16) == 0x1_0000
  {
    assert Pow2(4) == 16;
    Pow2Add(4, 4);
    Pow2Add(8, 8);
  }

  lemma {:induction false} Pow2Monotone(a: nat, b: nat)
    requires a <= b
    ensures Pow2(a) <= Pow2(b)
  {
    if a < b {
      Pow2Monotone(a, b - 1);
    }
  }

  /** Euclidean division is unique: any quotient/remainder pair with the remainder in range is THE pair. */
  lemma DivModUnique(x: int, d: int, q: int, r: int)
    requires d > 0 && 0 <= r < d && x == q * d + r
    ensures x / d == q && x % d == r
  {
    var q', r' := x / d, x % d;
    assert (q - q') * d == r' - r;
    if q > q' {
      MulAtLeast(q - q', d);
    } else if q < q' {
      MulAtLeast(q' - q, d);
    }
  }

  lemma MulMonotone(a: int, b: int, p: nat)
    requires a <= b
    ensures a * p <= b * p
  {
    assert b * p - a * p == (b - a) * p;
  }

  lemma MulAtLeast(k: int, d: int)
    requires k >= 1 && d > 0
    ensures k * d >= d
  {
    assert k * d == (k - 1) * d + d;
  }

  lemma DivDiv(s: nat, a: nat, b: nat)
    requires a > 0 && b > 0
    ensures s / a / b == s / (a * b)
  {
    var q, r := s / (a * b), s % (a * b);
    assert s == (q * b + r / a) * a + r % a;
    DivModUnique(s, a, q * b + r / a, r % a);
    DivModUnique(q * b + r / a, b, q, r / a);
  }

  lemma ModMul(s: nat, a: nat, b: nat)
    requires a > 0 && b > 0
    ensures s % (a * b) == s % a + ((s / a) % b) * a
  {
    var u, v := s / a, s % a;
    var hi, lo := u / b, u % b;
    assert lo * a <= (b - 1) * a;
    assert s == hi * (a * b) + (lo * a + v);
    DivModUnique(s, a * b, hi, lo * a + v);
  }

  lemma ModOfMod(t: nat, a: nat, k: nat)
    requires a > 0 && k > 0
    ensures (t % (a * k)) % a == t % a
  {
    var q, r := t / (a * k), t % (a * k);
    assert t == (q * k + r / a) * a + r % a;
    DivModUnique(t, a, q * k + r / a, r % a);
  }

  /** A window of `t` is unchanged by first reducing `t` modulo a multiple `a*b*k` of the window's range. */
  lemma WindowOfMod(t: nat, a: nat, b: nat, k: nat)
    requires a > 0 && b > 0 && k > 0
    ensures ((t % (a * b * k)) / a) % b == (t / a) % b
  {
    var u := t % (a * b * k);
    assert a * b * k == (a * b) * k;
    ModOfMod(t, a * b, k);
    ModMul(t, a, b);
    ModMul(u, a, b);
    DivModUnique(u % (a * b), a, (u / a) % b, u % a);
    DivModUnique(t % (a * b), a, (t / a) % b, t % a);
  }

  lemma Pow2Add3(a: nat, b: nat, c: nat)
    ensures Pow2(a + b + c) == Pow2(a) * Pow2(b) * Pow2(c)
  {
    Pow2Add(a + b, c);
    Pow2Add(a, b);
  }

  /** A natural number divided by a positive one is natural. */
  lemma DivNonneg(a: nat, b: nat)
    requires b > 0
    ensures a / b >= 0
  {
  }

  /**
   * `i * w`, the bit offset of window `i` when windows are `w` bits wide,
   * written as repeated addition so that exponents stay linear.
   */
  function Offset(i: nat, w: nat): nat
  {
    if i == 0 then 0 else Offset(i - 1, w) + w
  }

  lemma {:induction false} OffsetIsProduct(i: nat, w: nat)
    ensures Offset(i, w) == i * w
  {
    if i > 0 {
      OffsetIsProduct(i - 1, w);
      assert i * w == (i - 1) * w + w;
    }
  }

  lemma {:induction false} OffsetAdd(i: nat, j: nat, w: nat)
    ensures Offset(i + j, w) == Offset(i, w) + Offset(j, w)
  {
    if j > 0 {
      OffsetAdd(i, j - 1, w);
    }
  }
}
