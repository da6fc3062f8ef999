/**
 Unsigned machine words, shifts on them, and powers of two. The program works on 32-bit and 64-bit
 words; here they are bounded integers, a shift is a product with or a quotient by a power of two,
 and the lemmas say when a shift loses nothing. Division and modulus are only used on numbers that
 are not negative, where all readings of them agree.
 */
module Bits {

  const U64_LIMIT: int := 0x1_0000_0000_0000_0000

  const U32_MAX: nat := 0xFFFF_FFFF

  type u64 = x: int | 0 <= x < 0x1_0000_0000_0000_0000

  type byte = x: int | 0 <= x < 256

  function Pow2(n: nat): (p: nat)
    ensures p >= 1
  {
    if n == 0 then 1 else 2 * Pow2(n - 1)
  }

  /** `x << s`: bits that leave the word are lost, and a shift by 64 or more is an error. */
  function ShiftLeft(x: u64, s: nat): u64
    requires s < 64
  {
    (x * Pow2(s)) % U64_LIMIT
  }

  /** `x >> s`. */
  function ShiftRight(x: u64, s: nat): u64
    requires s < 64
  {
    Div(x, Pow2(s))
  }

  function Div(x: nat, d: nat): (q: nat)
    requires d >= 1
    ensures q <= x
    ensures q * d <= x < (q + 1) * d
  {
    QuotientBounds(x, d);
    x / d
  }

  lemma QuotientBounds(x: nat, d: nat)
    requires d >= 1
    ensures 0 <= x / d <= x
    ensures (x / d) * d <= x < (x / d + 1) * d
  {
    var q := x / d;
    Quotient(x, d);
    assert q * d <= x < (q + 1) * d;
    if q < 0 {
      MulMonotone(q + 1, 0, d);
    }
    MulMonotone(1, d, q);
  }

  /** The quotient and remainder equation, stated once for symbolic divisors. */
  lemma Quotient(x: int, d: int)
    requires d >= 1
    ensures x == d * (x / d) + x % d
    ensures 0 <= x % d < d
  {
  }

  lemma MulMonotone(a: int, b: int, c: int)
    requires a <= b && c >= 0
    ensures a * c <= b * c
    ensures c * a <= c * b
  {
  }

  /** `q` is the quotient of `x` by `d` exactly when `x` lies in the `q`-th block of size `d`. */
  lemma QuotientIs(x: int, d: int, q: int)
    requires d >= 1
    ensures x / d == q <==> q * d <= x < (q + 1) * d
  {
    var k := x / d;
    assert k * d <= x < (k + 1) * d by { Quotient(x, d); }
    if q < k {
      MulMonotone(q + 1, k, d);
    } else if k < q {
      MulMonotone(k + 1, q, d);
    }
  }

  lemma {:induction false} Pow2Add(a: nat, b: nat)
    ensures Pow2(a + b) == Pow2(a) * Pow2(b)
  {
    if a == 0 {
    } else {
      Pow2Add(a - 1, b);
      assert Pow2(a) * Pow2(b) == 2 * (Pow2(a - 1) * Pow2(b));
    }
  }

  lemma {:induction false} Pow2Monotone(a: nat, b: nat)
    requires a <= b
    ensures Pow2(a) <= Pow2(b)
  {
    if a < b {
      Pow2Monotone(a, b - 1);
    }
  }

  lemma Pow2Small()
    ensures Pow2(1) == 2 && Pow2(2) == 4 && Pow2(4) == 16 && Pow2(6) == 64 && Pow2(8) == 256
  {
    assert Pow2(1) == 2;
    assert Pow2(2) == 4;
    Pow2Add(2, 2);
    Pow2Add(4, 2);
    Pow2Add(4, 4);
  }

  lemma Pow2Double(n: nat, m: nat)
    requires m == 2 * n
    ensures Pow2(m) == Pow2(n) * Pow2(n)
  {
    Pow2Add(n, n);
  }

  lemma Pow2Values()
    ensures Pow2(1) == 2 && Pow2(2) == 4 && Pow2(4) == 16 && Pow2(6) == 64 && Pow2(8) == 256
    ensures Pow2(16) == 0x1_0000 && Pow2(32) == 0x1_0000_0000 && Pow2(64) == U64_LIMIT
  {
    Pow2Small();
    Pow2Double(8, 16);
    Pow2Double(16, 32);
    Pow2Double(32, 64);
  }

  lemma SmallModulus(x: nat, m: nat)
    requires x < m
    ensures x % m == x
  {
  }

  lemma Distribute(x: int, p: int)
    ensures (x + 1) * p == x * p + p
  {
  }

  /** The block of `x` at `s` further bits stays below `2^(width + s)`. */
  lemma BlockBelow(x: nat, width: nat, s: nat)
    requires x < Pow2(width)
    ensures (x + 1) * Pow2(s) <= Pow2(width + s)
    ensures (x + 1) * Pow2(s) == x * Pow2(s) + Pow2(s)
    ensures 0 <= x * Pow2(s)
  {
    Pow2Add(width, s);
    MulMonotone(x + 1, Pow2(width), Pow2(s));
    MulMonotone(0, x, Pow2(s));
    Distribute(x, Pow2(s));
  }

  /** A product of powers whose exponents sum to at most 63 still fits the word. */
  lemma ShiftLeftExact(x: u64, width: nat, s: nat)
    requires x < Pow2(width) && width + s < 64
    ensures ShiftLeft(x, s) == x * Pow2(s)
    ensures ShiftLeft(x, s) + Pow2(s) <= Pow2(width + s) < U64_LIMIT
  {
    assert Pow2(width + s) < U64_LIMIT by {
      Pow2Monotone(width + s, 63);
      Pow2Values();
      assert Pow2(64) == 2 * Pow2(63);
    }
    BlockBelow(x, width, s);
    SmallModulus(x * Pow2(s), U64_LIMIT);
  }
}
