/**
 The shift-and-add multiplier of the simulated CPU (Mult in machine/mipssim.cc), in 32-bit two's complement.
 */
module Multiplier {
  import opened Words

  const DOUBLE_SPAN: int := 0x1_0000_0000_0000_0000

  /** `-x` on an int: the most negative value is its own negative. */
  function Negate(x: Int32): Int32
  {
    if x == -0x8000_0000 then x else -x
  }

  /** The 64-bit value of a pair of registers, read as unsigned. */
  function Pair(hi: Word, lo: Word): int
  {
    hi * WORD_SPAN + lo
  }

  /** Whatever the sign, the unsigned reading of the negated operand is its magnitude. */
  lemma Magnitude(x: Int32)
    ensures x < 0 ==> ToWord(Negate(x)) + x == 0
    ensures x >= 0 ==> ToWord(x) == x
  {
  }

  lemma ProductBound(a: int, b: int, m: int, n: int)
    requires 0 <= a <= m && 0 <= b <= n
    ensures 0 <= a * b <= m * n
  {
    assert a * b <= m * b && m * b <= m * n;
  }

  lemma MoveBit(rem: nat, bb: nat)
    ensures rem % 2 == 1 ==> rem * bb == bb + (rem / 2) * (2 * bb)
    ensures rem % 2 == 0 ==> rem * bb == (rem / 2) * (2 * bb)
  {
    var q := rem / 2;
    assert rem == 2 * q + rem % 2;
    assert (2 * q) * bb == q * (2 * bb);
  }

  /** One addition of the shifted multiplicand, with the carry found by comparison. */
  method AddPair(hi: Word, lo: Word, bHi: Word, bLo: Word) returns (hi': Word, lo': Word)
    requires Pair(hi, lo) + Pair(bHi, bLo) < DOUBLE_SPAN
    ensures Pair(hi', lo') == Pair(hi, lo) + Pair(bHi, bLo)
  {
    lo' := (lo + bLo) % WORD_SPAN;
    hi' := hi;
    if lo' < bLo {
      hi' := (hi' + 1) % WORD_SPAN;
    }
    hi' := (hi' + bHi) % WORD_SPAN;
  }

  /** One shift of the multiplicand across the two words. */
  method ShiftPair(bHi: Word, bLo: Word) returns (bHi': Word, bLo': Word)
    requires 2 * Pair(bHi, bLo) < DOUBLE_SPAN
    ensures Pair(bHi', bLo') == 2 * Pair(bHi, bLo)
  {
    bHi' := (2 * bHi) % WORD_SPAN;
    if bLo >= 0x8000_0000 {
      bHi' := bHi' + 1;
    }
    bLo' := (2 * bLo) % WORD_SPAN;
  }

  lemma HalveAndDouble(bb: nat, p: nat, c: nat)
    requires p % 2 == 0 && bb * p == c
    ensures (2 * bb) * (p / 2) == c
  {
    var q := p / 2;
    assert (2 * bb) * q == bb * (2 * q);
  }

  /** The multiplicand fits in two words at every round, and still does after a shift unless this is the last round. */
  lemma ShiftedFits(bb: nat, p: nat, b: Word)
    requires p >= 1 && bb * p == b * WORD_SPAN
    ensures bb < DOUBLE_SPAN && (p >= 2 ==> 2 * bb < DOUBLE_SPAN)
  {
    assert bb * 1 <= bb * p;
    if p >= 2 { assert bb * 2 <= bb * p; }
  }

  /** A partial sum never exceeds the product, so the additions do not overflow 64 bits. */
  lemma SumFits(acc: nat, rem: nat, bb: nat, a: Word, b: Word)
    requires acc + rem * bb == a * b
    ensures acc < DOUBLE_SPAN && (rem >= 1 ==> acc + bb < DOUBLE_SPAN)
  {
    ProductBound(a, b, 0xFFFF_FFFF, 0xFFFF_FFFF);
    assert rem * bb >= 0;
    if rem >= 1 { assert rem * bb == bb + (rem - 1) * bb; }
  }

  /**
   The loop's invariant: acc is the sum so far, bb the shifted multiplicand. a is shifted arithmetically, so a
   negative operand fills with ones from the left; rem is what logical shifts would have left of it.
   */
  ghost predicate Round(acc: nat, rem: nat, bb: nat, p: nat, a: int, negative: bool, a0: Word, b0: Word)
  {
    && rem < p && a == rem - (if negative then p else 0) && -0x8000_0000 <= a < 0x8000_0000
    && bb * p == b0 * WORD_SPAN
    && acc + rem * bb == a0 * b0
  }

  lemma RoundStep(acc: nat, rem: nat, bb: nat, p: nat, a: int, negative: bool, a0: Word, b0: Word)
    requires Round(acc, rem, bb, p, a, negative, a0, b0) && p % 2 == 0 && 2 <= p <= WORD_SPAN
    ensures 2 * bb < DOUBLE_SPAN && (ToWord(a) % 2 == 1 ==> acc + bb < DOUBLE_SPAN)
    ensures Round(if ToWord(a) % 2 == 1 then acc + bb else acc, rem / 2, 2 * bb, p / 2, a / 2, negative, a0, b0)
    ensures ToWord(a) % 2 == 1 && ToWord(a) / 2 == 0 ==> acc + bb == a0 * b0
  {
    MoveBit(rem, bb);
    ShiftedFits(bb, p, b0);
    SumFits(acc, rem, bb, a0, b0);
    HalveAndDouble(bb, p, b0 * WORD_SPAN);
    assert ToWord(a) % 2 == rem % 2;
    if ToWord(a) % 2 == 1 && ToWord(a) / 2 == 0 { assert rem == 1; }
  }

  /** The main loop: the unsigned product of the two words. */
  method MultiplyWords(a0: Int32, b0: Int32) returns (hi: Word, lo: Word)
    requires a0 != 0
    ensures Pair(hi, lo) == ToWord(a0) * ToWord(b0)
  {
    hide Pair, Round, Pow2, ToWord;
    var a: int := a0;
    var bLo: Word, bHi: Word := ToWord(b0), 0;
    hi, lo := 0, 0;
    ghost var A: Word, B: Word := ToWord(a0), ToWord(b0);
    ghost var rem: nat, p: nat := A, Pow2(32);
    RoundStart(a0, b0);
    for i := 0 to 32
      invariant p == Pow2(32 - i) && p <= WORD_SPAN && -0x8000_0000 <= a < 0x8000_0000
      invariant Pair(hi, lo) >= 0 && Pair(bHi, bLo) >= 0 && Round(Pair(hi, lo), rem, Pair(bHi, bLo), p, a, a0 < 0, A, B)
    {
      Pow2Double(31 - i);
      RoundStep(Pair(hi, lo), rem, Pair(bHi, bLo), p, a, a0 < 0, A, B);
      if ToWord(a) % 2 == 1 {              // a & 1
        hi, lo := AddPair(hi, lo, bHi, bLo);
        if ToWord(a) / 2 == 0 {            // (a & 0xfffffffe) == 0
          return;
        }
      }
      bHi, bLo := ShiftPair(bHi, bLo);
      a := a / 2;                          // arithmetic shift: rounds down
      rem, p := rem / 2, p / 2;
    }
    RoundEnd(Pair(hi, lo), rem, Pair(bHi, bLo), p, a, a0 < 0, A, B);
  }

  lemma RoundStart(a0: Int32, b0: Int32)
    ensures Pow2(32) <= WORD_SPAN && Pair(0, 0) >= 0 && Pair(0, ToWord(b0)) >= 0
    ensures Round(Pair(0, 0), ToWord(a0), Pair(0, ToWord(b0)), Pow2(32), a0, a0 < 0, ToWord(a0), ToWord(b0))
  {
    Pow2Word();
  }

  lemma Pow2Double(n: nat)
    ensures Pow2(n + 1) == 2 * Pow2(n) && Pow2(n) >= 1 && Pow2(0) == 1
  {
  }

  lemma RoundEnd(acc: nat, rem: nat, bb: nat, p: nat, a: int, negative: bool, a0: Word, b0: Word)
    requires Round(acc, rem, bb, p, a, negative, a0, b0) && p == Pow2(0)
    ensures acc == a0 * b0
  {
    assert rem == 0;
  }

  /** Two's complement of the double word. */
  method NegatePair(hi: Word, lo: Word) returns (hi': Word, lo': Word)
    ensures Pair(hi', lo') == if Pair(hi, lo) == 0 then 0 else DOUBLE_SPAN - Pair(hi, lo)
  {
    hi' := WORD_SPAN - 1 - hi;
    lo' := (WORD_SPAN - 1 - lo + 1) % WORD_SPAN;
    if lo' == 0 {
      hi' := (hi' + 1) % WORD_SPAN;
    }
  }

  lemma SignedPair(hi: Word, lo: Word, product: int)
    requires -0x4000_0000_0000_0000 <= product <= 0x4000_0000_0000_0000
    requires Pair(hi, lo) == if product < 0 then product + DOUBLE_SPAN else product
    ensures ToInt(hi) * WORD_SPAN + lo == product
  {
  }

  /**
   MULT and MULTU. Signed: the pair, read as a signed 64-bit number, is exactly a * b. Unsigned: the pair, read as
   unsigned, is exactly the product of the operands read as unsigned.
   */
  method Mult(a0: Int32, b0: Int32, signedArith: bool) returns (hiReg: Int32, loReg: Int32)
    ensures signedArith ==> hiReg * WORD_SPAN + ToWord(loReg) == a0 * b0
    ensures !signedArith ==> Pair(ToWord(hiReg), ToWord(loReg)) == ToWord(a0) * ToWord(b0)
  {
    if a0 == 0 || b0 == 0 {
      return 0, 0;
    }
    var negative, a, b := false, a0, b0;
    if signedArith {
      if a < 0 {
        negative := !negative;
        a := Negate(a);
      }
      if b < 0 {
        negative := !negative;
        b := Negate(b);
      }
      Magnitude(a0);
      Magnitude(b0);
      SignedMagnitude(a0, b0, ToWord(a), ToWord(b));
    }
    var hi, lo := MultiplyWords(a, b);
    if negative {
      hi, lo := NegatePair(hi, lo);
    }
    if signedArith { SignedPair(hi, lo, a0 * b0); }
    return ToInt(hi), ToInt(lo);
  }

  /** The product of the magnitudes is the product up to sign, and is at most 2^62. */
  lemma SignedMagnitude(a0: Int32, b0: Int32, ua: Word, ub: Word)
    requires a0 != 0 && b0 != 0
    requires ua == (if a0 < 0 then ua else a0) && (a0 < 0 ==> ua + a0 == 0)
    requires ub == (if b0 < 0 then ub else b0) && (b0 < 0 ==> ub + b0 == 0)
    ensures 0 < ua * ub <= 0x4000_0000_0000_0000
    ensures a0 * b0 == if (a0 < 0) != (b0 < 0) then -(ua * ub) else ua * ub
  {
    ProductBound(ua, ub, 0x8000_0000, 0x8000_0000);
    var x: int, y: int := ua, ub;
    assert x * y > 0;
    assert (-x) * y == -(x * y) && x * (-y) == -(x * y) && (-x) * (-y) == x * y;
  }
}
