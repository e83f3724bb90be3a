/** The clip functions, the power-loop saturation used where there is no SSAT instruction,
    the saturating add and subtract built on them, and the 32x64 multiply. */
module Saturation {
  import opened Arith
  import opened CInt

  function ClipQ63ToQ31(x: q63): q31 {
    if I32(x / 0x1_0000_0000) != I32(x) / 0x8000_0000
    then I32(Xor(0x7FFF_FFFF, U32(I32(x / 0x8000_0000_0000_0000))))
    else I32(x)
  }

  function ClipQ63ToQ15(x: q63): q15 {
    if I32(x / 0x1_0000_0000) != I32(x) / 0x8000_0000
    then I16(Xor(0x7FFF, U32(I16(x / 0x8000_0000_0000_0000))))
    else I16(x / 0x8000)
  }

  function ClipQ31ToQ15(x: q31): q15 {
    if x / 0x1_0000 != x / 0x8000
    then I16(Xor(0x7FFF, U32(I16(x / 0x8000_0000))))
    else I16(x)
  }

  function ClipQ31ToQ7(x: q31): q7 {
    if x / 0x100_0000 != x / 0x80_0000
    then I8(Xor(0x7F, U32(I8(x / 0x8000_0000))))
    else I8(x)
  }

  /** Inverting with a sign word: a zero word leaves the largest value, an all-ones word turns
      it into its complement. */
  lemma XorSign(max: nat, k: nat)
    requires max == Pow2(k) - 1 && k <= 32
    ensures Xor(max, 0) == max && Xor(max, 0xFFFF_FFFF) == 0xFFFF_FFFF - max
  {
    Pow2Values();
    Pow2Mono(k, 32);
    XorAllOnes(max, 32);
    XorZero(max);
  }

  lemma XorLimits()
    ensures Xor(0x7FFF_FFFF, 0xFFFF_FFFF) == 0x8000_0000 && Xor(0x7FFF_FFFF, 0) == 0x7FFF_FFFF
    ensures Xor(0x7FFF, 0xFFFF_FFFF) == 0xFFFF_8000 && Xor(0x7FFF, 0) == 0x7FFF
    ensures Xor(0x7F, 0xFFFF_FFFF) == 0xFFFF_FF80 && Xor(0x7F, 0) == 0x7F
  {
    Pow2Values();
    XorSign(0x7FFF_FFFF, 31);
    XorSign(0x7FFF, 15);
    XorSign(0x7F, 7);
  }

  /** The test the two 64-bit clips share: the high word is the sign extension of the low word
      exactly when the value fits in 32 bits. */
  lemma HighWordIsSign(x: q63)
    ensures I32(x / 0x1_0000_0000) == I32(x) / 0x8000_0000 <==> -0x8000_0000 <= x < 0x8000_0000
  {
    var h, l := x / 0x1_0000_0000, x % 0x1_0000_0000;
    NarrowToWord(h, 0);
    NarrowToWord(l, h);
  }

  lemma NarrowToWord(l: int, h: int)
    requires -0x8000_0000 <= l < 0x1_0000_0000
    ensures I32(l + 0x1_0000_0000 * h) == if l < 0x8000_0000 then l else l - 0x1_0000_0000
  {
  }

  lemma ClipQ63ToQ31IsClamp(x: q63)
    ensures ClipQ63ToQ31(x) == Clamp32(x)
  {
    hide Xor, I32, U32;
    HighWordIsSign(x);
    if -0x8000_0000 <= x < 0x8000_0000 {
      NarrowToWord(x, 0);
    } else {
      XorLimits();
      Limits(x, 0x8000_0000_0000_0000);
    }
  }

  lemma Limits(x: int, half: int)
    requires half > 0 && -half <= x < half
    ensures x / half == if x < 0 then -1 else 0
    ensures U32(I32(-1)) == U32(I16(-1)) == U32(I8(-1)) == 0xFFFF_FFFF
    ensures U32(I32(0)) == U32(I16(0)) == U32(I8(0)) == 0
    ensures I32(0x8000_0000) == -0x8000_0000 && I32(0x7FFF_FFFF) == 0x7FFF_FFFF
    ensures I16(0xFFFF_8000) == -0x8000 && I16(0x7FFF) == 0x7FFF
    ensures I8(0xFFFF_FF80) == -0x80 && I8(0x7F) == 0x7F
  {
    DivModUnique(x, half, if x < 0 then -1 else 0, if x < 0 then x + half else x);
  }

  /** The clip to Q15 scales by 2^-15 first, but tests whether the value fits in 32 bits instead
      of 31: between the two bounds the narrowing wraps by one turn of 16 bits, and nowhere else. */
  lemma ClipQ63ToQ15IsClampExactlyWhen(x: q63)
    ensures ClipQ63ToQ15(x) == Clamp16(x / 0x8000)
            <==> !(0x4000_0000 <= x < 0x8000_0000 || -0x8000_0000 <= x < -0x4000_0000)
    ensures 0x4000_0000 <= x < 0x8000_0000 ==> ClipQ63ToQ15(x) == x / 0x8000 - 0x1_0000
    ensures -0x8000_0000 <= x < -0x4000_0000 ==> ClipQ63ToQ15(x) == x / 0x8000 + 0x1_0000
  {
    hide Xor, I32, U32;
    HighWordIsSign(x);
    var s := x / 0x8000;
    if -0x8000_0000 <= x < 0x8000_0000 {
      assert -0x1_0000 <= s < 0x1_0000;
      NarrowOneTurn(s);
    } else {
      XorLimits();
      Limits(x, 0x8000_0000_0000_0000);
    }
  }

  lemma NarrowOneTurn(s: int)
    requires -0x1_0000 <= s < 0x1_0000
    ensures I16(s) == if s < -0x8000 then s + 0x1_0000 else if s >= 0x8000 then s - 0x1_0000 else s
  {
  }

  /** The narrower clips test two neighbouring shifts of the same word. */
  lemma NeighbourShifts(x: int, p: int)
    requires p > 0
    ensures x / (2 * p) == x / p <==> -p <= x < p
  {
    DivTwice(x, p, 2);
    var q := x / p;
    assert x == p * q + x % p;
    if q >= 1 {
      MulAtLeast(p, q);
    } else if q <= -2 {
      MulAtLeast(p, -1 - q);
      assert p * (-1 - q) == -p - p * q;
    }
  }

  lemma ClipQ31ToQ15IsClamp(x: q31)
    ensures ClipQ31ToQ15(x) == Clamp16(x)
  {
    hide Xor, I16, U32;
    NeighbourShifts(x, 0x8000);
    if -0x8000 <= x < 0x8000 {
      I16Exact(x);
    } else {
      XorLimits();
      Limits(x, 0x8000_0000);
    }
  }

  /** The clip to Q7 tests for 24 bits instead of 8: inside that range the low byte is returned
      unclipped, so a value outside Q7 is clipped correctly only when its low byte happens to be
      the limit. */
  lemma ClipQ31ToQ7IsClampExactlyWhen(x: q31)
    ensures ClipQ31ToQ7(x) == Clamp(x, -0x80, 0x7F)
            <==> (-0x80 <= x < 0x80
                  || !(-0x80_0000 <= x < 0x80_0000)
                  || x % 0x100 == if x < 0 then 0x80 else 0x7F)
    ensures -0x80_0000 <= x < 0x80_0000 ==>
              ClipQ31ToQ7(x) == if x % 0x100 < 0x80 then x % 0x100 else x % 0x100 - 0x100
  {
    hide Xor, I8, U32;
    NeighbourShifts(x, 0x80_0000);
    if -0x80_0000 <= x < 0x80_0000 {
      NarrowToByte(x);
    } else {
      XorLimits();
      Limits(x, 0x8000_0000);
    }
  }

  lemma NarrowToByte(x: int)
    ensures I8(x) == if x % 0x100 < 0x80 then x % 0x100 else x % 0x100 - 0x100
    ensures I8(x) == x <==> -0x80 <= x < 0x80
  {
  }

  function QAdd(x: q31, y: q31): q31 { ClipQ63ToQ31(x + y) }

  function QSub(x: q31, y: q31): q31 { ClipQ63ToQ31(x - y) }

  lemma QAddSubAreClamped(x: q31, y: q31)
    ensures QAdd(x, y) == Clamp32(x + y) && QSub(x, y) == Clamp32(x - y)
  {
    ClipQ63ToQ31IsClamp(x + y);
    ClipQ63ToQ31IsClamp(x - y);
  }

  /** The 32x64 product, its low word masked out and the halves multiplied separately. */
  function Mult32x64(x: q63, y: q31): int {
    LowWord(x) * y / 0x1_0000_0000 + x / 0x1_0000_0000 * y
  }

  /** `x & 0xFFFFFFFF` on the 64-bit pattern of x. */
  function LowWord(x: q63): int {
    And(x % 0x1_0000_0000_0000_0000, 0xFFFF_FFFF)
  }

  lemma LowWordIsResidue(x: q63)
    ensures LowWord(x) == x % 0x1_0000_0000
  {
    var w := x % 0x1_0000_0000_0000_0000;
    assert Pow2(32) == 0x1_0000_0000 by { Pow2Values(); }
    AndMask(w, 32);
    ShrIsDiv(w, 32);
    DivTwice(x, 0x1_0000_0000, 0x1_0000_0000);
  }

  /** Splitting the multiplication loses nothing: the result is the 96-bit product shifted right
      by 32, and no partial product leaves 64 bits. */
  lemma Mult32x64IsHighProduct(x: q63, y: q31)
    ensures Mult32x64(x, y) == x * y / 0x1_0000_0000
    ensures I64(LowWord(x) * y) == LowWord(x) * y
    ensures I64(Mult32x64(x, y)) == Mult32x64(x, y)
  {
    var h, l := x / 0x1_0000_0000, LowWord(x);
    LowWordIsResidue(x);
    SplitProduct(h, l, y);
    ProductBound(l, y, 0xFFFF_FFFF, 0x8000_0000);
    ProductBound(h, y, 0x8000_0000, 0x8000_0000);
    SumFits(l * y, h * y);
  }

  lemma SumFits(p: int, q: int)
    requires -0x8000_0000_0000_0000 <= p < 0x8000_0000_0000_0000
    requires -0x4000_0000_0000_0000 <= q <= 0x4000_0000_0000_0000
    ensures I64(p) == p && I64(p / 0x1_0000_0000 + q) == p / 0x1_0000_0000 + q
  {
    I64Exact(p);
    I64Exact(p / 0x1_0000_0000 + q);
  }

  lemma SplitProduct(h: int, l: int, y: int)
    ensures (h * 0x1_0000_0000 + l) * y / 0x1_0000_0000 == l * y / 0x1_0000_0000 + h * y
  {
    var p := h * y;
    assert (h * 0x1_0000_0000 + l) * y == p * 0x1_0000_0000 + l * y;
  }

  // ---------------------------------------------------------------- saturation by doubling

  /** x limited to what fits in `bits` bits, two's complement. */
  function SatTo(x: int, bits: nat): int
    requires bits > 0
  {
    Clamp(x, 0 - Pow2(bits - 1), Pow2(bits - 1) - 1)
  }

  /** `__SSAT` without the instruction: the bound is found by doubling. A value that fits in y bits is
      returned unchanged, one above or below becomes the largest or smallest that fits. */
  method Ssat(x0: q31, y: u32) returns (x: q31)
    requires 1 <= y <= 31
    ensures x == SatTo(x0, y)
    ensures 0 - Pow2(y - 1) <= x0 < Pow2(y - 1) ==> x == x0
    ensures x0 >= Pow2(y - 1) ==> x == Pow2(y - 1) - 1
    ensures x0 < 0 - Pow2(y - 1) ==> x == 0 - Pow2(y - 1)
  {
    x := x0;
    var posMax: int := 1;
    var i := 0;
    Pow2Values();
    Pow2Mono(y, 31);
    while i < y - 1
      invariant 0 <= i <= y - 1 && posMax == Pow2(i)
    {
      Pow2Mono(i + 1, y - 1);
      posMax := I32(posMax * 2);
      i := i + 1;
    }
    if x > 0 {
      posMax := posMax - 1;
      if x > posMax {
        x := posMax;
      }
    } else {
      var negMin := -posMax;
      if x < negMin {
        x := negMin;
      }
    }
  }
}
