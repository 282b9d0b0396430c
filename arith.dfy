/**
 * Integer helpers shared by the register codec and the unit encoders:
 * the values of a C `uint64_t`, powers of two (`pow2_u64`), and the
 * division/remainder facts the bit-field proofs are built from.
 *
 * The division lemmas take a product (ab == a * b) as an argument of its
 * own, so that a caller can pass a power of two for it.
 */
module Arith {

  /** The values a C `uint64_t` can hold. */
  type u64 = x: int | 0 <= x < 0x1_0000_0000_0000_0000

  /** 2^n; for n < 64 this is what `(uint64_t) 1 << n` computes. */
  function Pow2(n: nat): (r: nat)
    ensures r > 0
  {
    if n == 0 then 1 else 2 * Pow2(n - 1)
  }

  lemma {:induction false} Pow2Add(a: nat, b: nat)
    ensures Pow2(a + b) == Pow2(a) * Pow2(b)
  {
    if a > 0 {
      Pow2Add(a - 1, b);
      assert Pow2(a + b) == 2 * Pow2(a - 1 + b);
    }
  }

  lemma {:induction false} Pow2Mono(a: nat, b: nat)
    requires a <= b
    ensures Pow2(a) <= Pow2(b)
  {
    if a < b {
      Pow2Mono(a, b - 1);
    }
  }

  lemma Pow2Literal64()
    ensures Pow2(64) == 0x1_0000_0000_0000_0000
  {
    Pow2Literal32();
    Pow2Add(32, 32);
  }

  lemma Pow2Literal32()
    ensures Pow2(32) == 0x1_0000_0000
  {
    Pow2Add(1, 1);
    Pow2Add(2, 2);
    Pow2Add(4, 4);
    Pow2Add(8, 8);
    Pow2Add(16, 16);
  }

  /** `pow2_u64(y)` does not overflow for the shift counts C defines. */
  lemma Pow2BelowWord(n: nat)
    requires n < 64
    ensures Pow2(n) < Pow2(64) == 0x1_0000_0000_0000_0000
  {
    Pow2Mono(n, 63);
    Pow2Literal64();
  }

  lemma MulAtLeast(k: int, d: int)
    requires k >= 1 && d > 0
    ensures k * d >= d
  {
  }

  lemma MulMonoLeft(a: int, b: int, d: int)
    requires a <= b && d >= 0
    ensures a * d <= b * d
  {
  }

  lemma MulNonNeg(a: int, b: int)
    requires a >= 0 && b >= 0
    ensures a * b >= 0
  {
  }

  /** Quotient and remainder are unique. */
  lemma DivModUnique(x: int, d: int, q: int, r: int)
    requires d > 0 && 0 <= r < d && x == q * d + r
    ensures x / d == q && x % d == r
  {
    var q0, r0 := x / d, x % d;
    assert x == q0 * d + r0;
    assert (q - q0) * d == r0 - r by {
      assert (q - q0) * d == q * d - q0 * d;
    }
    if q > q0 {
      MulAtLeast(q - q0, d);
      assert false;
    } else if q < q0 {
      MulAtLeast(q0 - q, d);
      assert false;
    }
  }

  lemma ModOfSmall(x: int, d: int)
    requires 0 <= x < d
    ensures x % d == x && x / d == 0
  {
    DivModUnique(x, d, 0, x);
  }

  lemma DivNonNeg(x: int, d: int)
    requires x >= 0 && d > 0
    ensures x / d >= 0
  {
  }

  /** Dividing by a and then by b is dividing by a * b; the remainders nest. */
  lemma DivDiv(x: int, a: int, b: int, ab: int)
    requires x >= 0 && a > 0 && b > 0 && ab == a * b
    ensures (x / a) / b == x / ab
    ensures (x / a) % b * a + x % a == x % ab
  {
    var q := x / a;
    var h := q / b;
    var m := q % b;
    assert x == q * a + x % a;
    assert q == h * b + m;
    assert x == h * ab + (m * a + x % a) by {
      assert q * a == (h * b + m) * a;
      assert (h * b + m) * a == h * (a * b) + m * a;
    }
    assert m * a + x % a < ab by {
      MulMonoLeft(m, b - 1, a);
      assert (b - 1) * a == a * b - a;
    }
    DivModUnique(x, ab, h, m * a + x % a);
  }

  /** A number splits into the part above ab, a middle digit below b and a low digit below a. */
  lemma Split3(x: int, a: int, b: int, ab: int)
    requires x >= 0 && a > 0 && b > 0 && ab == a * b
    ensures x == (x / ab) * ab + ((x / a) % b) * a + x % a
    ensures 0 <= ((x / a) % b) * a + x % a < ab
  {
    DivDiv(x, a, b, ab);
    MulNonNeg((x / a) % b, a);
  }

  /**
   * A number assembled from a high part h, a middle digit m < b and a low
   * digit l < a gives them back by division and remainder.
   */
  lemma Assemble(x: int, h: int, m: int, l: int, a: int, b: int, ab: int)
    requires h >= 0 && 0 <= m < b && 0 <= l < a && ab == a * b
    requires x == h * ab + m * a + l
    ensures x % a == l
    ensures (x / a) % b == m
    ensures x / ab == h
  {
    assert x == (h * b + m) * a + l by {
      assert (h * b + m) * a == h * (a * b) + m * a;
    }
    DivModUnique(x, a, h * b + m, l);
    DivModUnique(h * b + m, b, h, m);
    MulNonNeg(h * b + m, a);
    DivDiv(x, a, b, ab);
  }

  /** A number below m * t has a quotient by m below t. */
  lemma QuotBelow(x: int, m: int, t: int, mt: int)
    requires m > 0 && t > 0 && mt == m * t && 0 <= x < mt
    ensures 0 <= x / m < t
  {
  }

  /** Assembling digits below their bounds stays below the next power. */
  lemma AssembleBelow(h: int, m: int, l: int, a: int, b: int, ab: int, t: int, abt: int)
    requires ab == a * b && abt == ab * t
    requires 0 <= h < t && 0 <= m < b && 0 <= l < a
    ensures 0 <= h * ab + m * a + l < abt
  {
    assert m * a + l < ab by {
      MulMonoLeft(m, b - 1, a);
      assert (b - 1) * a == a * b - a;
    }
    MulMonoLeft(h + 1, t, ab);
    MulNonNeg(h, ab);
    MulNonNeg(m, a);
  }

  /** The digit of x below b at position a only depends on x modulo a * b * c. */
  lemma DigitOfRemainder(x: int, a: int, b: int, c: int, bc: int, abc: int)
    requires x >= 0 && a > 0 && b > 0 && c > 0 && bc == b * c && abc == a * bc
    ensures ((x % abc) / a) % b == (x / a) % b
  {
    var A, B := x / abc, x % abc;
    assert x == A * abc + B;
    var y := B / a;
    assert B == y * a + B % a;
    assert x == (A * bc + y) * a + B % a by {
      assert A * abc == (A * bc) * a;
    }
    DivModUnique(x, a, A * bc + y, B % a);
    assert A * bc + y == (A * c) * b + y;
    DivModUnique((A * c) * b + y, b, A * c + y / b, y % b);
  }
}
