/**
 * The bit-field codec of the register engine: `get_bits` and `replace_bits`
 * on a 64-bit register word, with bit ranges given by their first and last
 * bit (both inclusive, bit 0 the least significant).
 *
 * Words are numbers below 2^64. A right shift by k is division by 2^k, the
 * mask `(1 << n) - 1` keeps the remainder modulo 2^n, and OR-ing two values
 * whose set bits are disjoint is adding them; the functions below are the
 * source's shifts and masks read that way.
 */
module BitField {
  import opened Arith

  /** Number of bits in the inclusive range [first, last]. */
  function Width(first: nat, last: nat): nat
    requires first <= last
  {
    last - first + 1
  }

  /** The n bits of w starting at bit `first`, shifted down to bit 0. */
  function FieldOf(w: int, first: nat, n: nat): (r: int)
    ensures 0 <= r < Pow2(n)
  {
    (w / Pow2(first)) % Pow2(n)
  }

  /**
   * w with its n bits starting at `first` replaced by the low n bits of d:
   * `w & ~mask` keeps the part of w above and below the field, and
   * `(d << first) & mask` is the low n bits of d moved up to `first`.
   */
  function WithField(w: int, d: int, first: nat, n: nat): int
  {
    var kept := (w / Pow2(first + n)) * Pow2(first + n) + w % Pow2(first);
    var inserted := (d % Pow2(n)) * Pow2(first);
    kept + inserted
  }

  /** `get_bits(w, first, last)`. */
  function GetBits(w: u64, first: nat, last: nat): (r: u64)
    requires first <= last < 64
    ensures r < Pow2(Width(first, last))
  {
    Pow2Mono(Width(first, last), 64);
    Pow2Literal64();
    FieldOf(w, first, Width(first, last))
  }

  /** `replace_bits(w, d, first, last)`. */
  function ReplaceBits(w: u64, d: u64, first: nat, last: nat): (r: u64)
    requires first <= last < 64
  {
    FieldFits(w, d, first, Width(first, last));
    WithField(w, d, first, Width(first, last))
  }

  /** Bit i of w is set. */
  predicate Bit(w: u64, i: nat)
    requires i < 64
  {
    GetBits(w, i, i) == 1
  }

  /** The bit positions first..last. */
  function Span(first: nat, last: nat): (s: set<nat>)
    ensures forall i: nat :: i in s <==> first <= i <= last
    decreases last + 1 - first
  {
    if last < first then {} else {first} + Span(first + 1, last)
  }

  /** w and w' have the same bits at every position outside `changed`. */
  predicate AgreeOutside(w: u64, w': u64, changed: set<nat>)
  {
    forall i: nat :: i < 64 && i !in changed ==> Bit(w', i) == Bit(w, i)
  }

  // ---------------------------------------------------------------------
  // Arithmetic groundwork

  /** w splits into the part above the field, the field and the part below it. */
  lemma Split(w: u64, first: nat, n: nat)
    requires first + n <= 64
    ensures w == (w / Pow2(first + n)) * Pow2(first + n) + FieldOf(w, first, n) * Pow2(first) + w % Pow2(first)
    ensures FieldOf(w, first, n) * Pow2(first) + w % Pow2(first) < Pow2(first + n)
    ensures w / Pow2(first + n) < Pow2(64 - (first + n))
  {
    Pow2Add(first, n);
    Split3(w, Pow2(first), Pow2(n), Pow2(first + n));
    WordBelowField(w, first + n);
  }

  /** The part of a word above bit k is below 2^(64 - k). */
  lemma WordBelowField(w: u64, k: nat)
    requires k <= 64
    ensures 0 <= w / Pow2(k) < Pow2(64 - k)
  {
    Pow2Add(k, 64 - k);
    Pow2Literal64();
    QuotBelow(w, Pow2(k), Pow2(64 - k), Pow2(64));
  }

  /** Replacing a field of a word gives a word. */
  lemma FieldFits(w: u64, d: u64, first: nat, n: nat)
    requires first + n <= 64
    ensures 0 <= WithField(w, d, first, n) < 0x1_0000_0000_0000_0000
  {
    var k := first + n;
    Pow2Add(first, n);
    Pow2Add(k, 64 - k);
    Pow2Literal64();
    WordBelowField(w, k);
    AssembleBelow(w / Pow2(k), d % Pow2(n), w % Pow2(first), Pow2(first), Pow2(n), Pow2(k), Pow2(64 - k), Pow2(64));
  }

  /** The field of an assembled word is the middle digit; the parts around it come back. */
  lemma WithFieldParts(w: int, d: int, first: nat, n: nat)
    requires w >= 0
    ensures FieldOf(WithField(w, d, first, n), first, n) == d % Pow2(n)
    ensures WithField(w, d, first, n) % Pow2(first) == w % Pow2(first)
    ensures WithField(w, d, first, n) / Pow2(first + n) == w / Pow2(first + n)
  {
    Pow2Add(first, n);
    DivNonNeg(w, Pow2(first + n));
    Assemble(WithField(w, d, first, n), w / Pow2(first + n), d % Pow2(n), w % Pow2(first), Pow2(first), Pow2(n), Pow2(first + n));
  }

  /** Any bits of x % 2^m below bit m are those of x. */
  lemma FieldOfLow(x: int, m: nat, first: nat, n: nat)
    requires x >= 0
    requires first + n <= m
    ensures FieldOf(x % Pow2(m), first, n) == FieldOf(x, first, n)
  {
    var k := m - (first + n);
    Pow2Add(n, k);
    Pow2Add(first, n + k);
    assert first + (n + k) == m;
    DigitOfRemainder(x, Pow2(first), Pow2(n), Pow2(k), Pow2(n + k), Pow2(m));
  }

  /** The bits of x / 2^m are the bits of x from m up. */
  lemma FieldOfHigh(x: int, m: nat, first: nat, n: nat)
    requires x >= 0
    ensures FieldOf(x / Pow2(m), first, n) == FieldOf(x, m + first, n)
  {
    Pow2Add(m, first);
    DivDiv(x, Pow2(m), Pow2(first), Pow2(m + first));
  }

  // ---------------------------------------------------------------------
  // Properties of get_bits and replace_bits

  /**
   * GetBits(w, first, last) is exactly the digit of w that sits between the
   * bits below `first` and the bits above `last`.
   */
  lemma GetBitsSplits(w: u64, first: nat, last: nat)
    requires first <= last < 64
    ensures w == (w / Pow2(last + 1)) * Pow2(last + 1) + GetBits(w, first, last) * Pow2(first) + w % Pow2(first)
    ensures GetBits(w, first, last) * Pow2(first) + w % Pow2(first) < Pow2(last + 1)
  {
    Split(w, first, Width(first, last));
  }

  /** After replace_bits, the field holds the low Width bits of d. */
  lemma GetReplaced(w: u64, d: u64, first: nat, last: nat)
    requires first <= last < 64
    ensures GetBits(ReplaceBits(w, d, first, last), first, last) == d % Pow2(Width(first, last))
  {
    WithFieldParts(w, d, first, Width(first, last));
  }

  /** After replace_bits, the bits below `first` and above `last` are those of w. */
  lemma ReplaceKeepsRest(w: u64, d: u64, first: nat, last: nat)
    requires first <= last < 64
    ensures ReplaceBits(w, d, first, last) % Pow2(first) == w % Pow2(first)
    ensures ReplaceBits(w, d, first, last) / Pow2(last + 1) == w / Pow2(last + 1)
  {
    WithFieldParts(w, d, first, Width(first, last));
  }

  /** Writing back the field just read changes nothing. */
  lemma ReplaceWithOwnBits(w: u64, first: nat, last: nat)
    requires first <= last < 64
    ensures ReplaceBits(w, GetBits(w, first, last), first, last) == w
  {
    var n := Width(first, last);
    var D := GetBits(w, first, last);
    DivModUnique(D, Pow2(n), 0, D);
    Split(w, first, n);
  }

  /** A field that does not overlap [first, last] is not disturbed by replace_bits there. */
  lemma GetOtherField(w: u64, d: u64, first: nat, last: nat, first2: nat, last2: nat)
    requires first <= last < 64 && first2 <= last2 < 64
    requires last2 < first || last < first2
    ensures GetBits(ReplaceBits(w, d, first, last), first2, last2) == GetBits(w, first2, last2)
  {
    var r := ReplaceBits(w, d, first, last);
    var n2 := Width(first2, last2);
    ReplaceKeepsRest(w, d, first, last);
    if last2 < first {
      FieldOfLow(r, first, first2, n2);
      FieldOfLow(w, first, first2, n2);
    } else {
      FieldOfHigh(r, last + 1, first2 - (last + 1), n2);
      FieldOfHigh(w, last + 1, first2 - (last + 1), n2);
    }
  }

  /** replace_bits changes no bit outside [first, last]. */
  lemma ReplaceAgreesOutside(w: u64, d: u64, first: nat, last: nat)
    requires first <= last < 64
    ensures AgreeOutside(w, ReplaceBits(w, d, first, last), Span(first, last))
  {
    forall i: nat | i < 64 && i !in Span(first, last)
      ensures Bit(ReplaceBits(w, d, first, last), i) == Bit(w, i)
    {
      GetOtherField(w, d, first, last, i, i);
    }
  }

  /** Bits a..b of the field first..last are bits first+a..first+b of the word. */
  lemma GetBitsOfField(w: u64, first: nat, last: nat, a: nat, b: nat)
    requires first <= last < 64 && a <= b < Width(first, last)
    ensures GetBits(GetBits(w, first, last), a, b) == GetBits(w, first + a, first + b)
  {
    var y := w / Pow2(first);
    var n := Width(a, b);
    assert GetBits(w, first, last) == y % Pow2(Width(first, last));
    assert GetBits(GetBits(w, first, last), a, b) == FieldOf(y % Pow2(Width(first, last)), a, n);
    assert GetBits(w, first + a, first + b) == FieldOf(w, first + a, n);
    FieldOfLow(y, Width(first, last), a, n);
    FieldOfHigh(w, first, a, n);
  }

  /** Agreement outside a set of positions composes along a chain of writes. */
  lemma AgreeOutsideTrans(w1: u64, w2: u64, w3: u64, c1: set<nat>, c2: set<nat>)
    requires AgreeOutside(w1, w2, c1) && AgreeOutside(w2, w3, c2)
    ensures AgreeOutside(w1, w3, c1 + c2)
  {
  }

  // ---------------------------------------------------------------------
  // The full-width range, as the source computes it

  /**
   * `get_bits` as the C code evaluates it on x86-64: the width-64 shift in
   * `(uint64_t) 1 << (last - first + 1)` is undefined behaviour in C, and
   * the processor takes shift counts modulo 64, so for first = 0, last = 63
   * the mask becomes 0.
   */
  function GetBitsAsWritten(w: u64, first: nat, last: nat): int
    requires first <= last < 64
  {
    FieldOf(w, first, Width(first, last) % 64)
  }

  /** `replace_bits` as the C code evaluates it on x86-64 (see GetBitsAsWritten). */
  function ReplaceBitsAsWritten(w: u64, d: u64, first: nat, last: nat): int
    requires first <= last < 64
  {
    WithField(w, d, first, Width(first, last) % 64)
  }

  /** The two agree on every range narrower than the whole word. */
  lemma AsWrittenAgreesBelowFullWidth(w: u64, d: u64, first: nat, last: nat)
    requires first <= last < 64 && Width(first, last) < 64
    ensures GetBitsAsWritten(w, first, last) == GetBits(w, first, last)
    ensures ReplaceBitsAsWritten(w, d, first, last) == ReplaceBits(w, d, first, last)
  {
  }

  /** For the full range the as-written code reads 0 and writes nothing. */
  lemma FullWidthAsWritten(w: u64, d: u64)
    ensures GetBitsAsWritten(w, 0, 63) == 0
    ensures ReplaceBitsAsWritten(w, d, 0, 63) == w
    ensures GetBits(w, 0, 63) == w
    ensures ReplaceBits(w, d, 0, 63) == d
  {
    Pow2Literal64();
    DivModUnique(w, Pow2(64), 0, w);
    DivModUnique(d, Pow2(64), 0, d);
  }
}
