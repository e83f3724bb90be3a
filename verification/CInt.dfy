/** C integer arithmetic on mathematical integers: the fixed-width types, two's-complement
    narrowing, and the bitwise operators on unsigned words.

    `x >> k` on a signed operand is floor division, written `x / 2^k` with the power spelled
    out (Dafny's `/` rounds towards minus infinity for a positive divisor). */
module CInt {
  import opened Arith

  type q7 = x: int | -0x80 <= x < 0x80
  type q15 = x: int | -0x8000 <= x < 0x8000
  type q31 = x: int | -0x8000_0000 <= x < 0x8000_0000
  type q63 = x: int | -0x8000_0000_0000_0000 <= x < 0x8000_0000_0000_0000
  type u16 = x: int | 0 <= x < 0x1_0000
  type u32 = x: int | 0 <= x < 0x1_0000_0000

  /** Narrowing conversions; each keeps the residue and picks the representative in range. */
  function I8(x: int): q7 { (x + 0x80) % 0x100 - 0x80 }

  function I16(x: int): q15 { (x + 0x8000) % 0x1_0000 - 0x8000 }

  function I32(x: int): q31 { (x + 0x8000_0000) % 0x1_0000_0000 - 0x8000_0000 }

  function I64(x: int): q63 {
    (x + 0x8000_0000_0000_0000) % 0x1_0000_0000_0000_0000 - 0x8000_0000_0000_0000
  }

  function U16(x: int): u16 { x % 0x1_0000 }

  function U32(x: int): u32 { x % 0x1_0000_0000 }

  /** A conversion is the identity exactly on its own range. */
  lemma I8Exact(x: int)
    ensures I8(x) == x <==> -0x80 <= x < 0x80
  {
  }

  lemma I16Exact(x: int)
    ensures I16(x) == x <==> -0x8000 <= x < 0x8000
  {
  }

  lemma I32Exact(x: int)
    ensures I32(x) == x <==> -0x8000_0000 <= x < 0x8000_0000
  {
  }

  lemma I64Exact(x: int)
    ensures I64(x) == x <==> -0x8000_0000_0000_0000 <= x < 0x8000_0000_0000_0000
  {
  }

  lemma U32Exact(x: int)
    ensures U32(x) == x <==> 0 <= x < 0x1_0000_0000
  {
  }

  function Clamp(x: int, lo: int, hi: int): int {
    if x < lo then lo else if x > hi then hi else x
  }

  /** What is in range is kept, what is beyond a limit becomes the limit. */
  lemma ClampIs(x: int, lo: int, hi: int)
    requires lo <= hi
    ensures lo <= x <= hi ==> Clamp(x, lo, hi) == x
    ensures x < lo ==> Clamp(x, lo, hi) == lo
    ensures x > hi ==> Clamp(x, lo, hi) == hi
  {
  }

  function Clamp16(x: int): q15 { Clamp(x, -0x8000, 0x7FFF) }

  function Clamp32(x: int): q31 { Clamp(x, -0x8000_0000, 0x7FFF_FFFF) }

  /** A narrowing conversion depends only on the residue of its argument. */
  lemma I32Congruent(x: int, k: int)
    ensures I32(x + 0x1_0000_0000 * k) == I32(x)
  {
  }

  lemma I16Congruent(x: int, k: int)
    ensures I16(x + 0x1_0000 * k) == I16(x)
  {
  }

  lemma U32Congruent(x: int, k: int)
    ensures U32(x + 0x1_0000_0000 * k) == U32(x)
  {
  }

  lemma U16Is(x: int, k: int)
    ensures U16(x + 0x1_0000 * k) == U16(x) && (U16(x) == x <==> 0 <= x < 0x1_0000)
  {
  }

  lemma I8Congruent(x: int, k: int)
    ensures I8(x + 0x100 * k) == I8(x)
  {
  }

  lemma U32OfSigned(x: q31)
    ensures U32(x) == if x < 0 then x + 0x1_0000_0000 else x
  {
  }

  function Pow2(n: nat): (p: nat)
    ensures p > 0
  {
    if n == 0 then 1 else 2 * Pow2(n - 1)
  }

  lemma {:induction false} Pow2Add(m: nat, n: nat)
    ensures Pow2(m + n) == Pow2(m) * Pow2(n)
  {
    if m != 0 {
      Pow2Add(m - 1, n);
    }
  }

  lemma {:induction false} Pow2Mono(m: nat, n: nat)
    requires m <= n
    ensures Pow2(m) <= Pow2(n)
    decreases n - m
  {
    if m < n {
      Pow2Mono(m + 1, n);
    }
  }

  lemma Pow2Values()
    ensures Pow2(0) == 1 && Pow2(3) == 8 && Pow2(4) == 0x10 && Pow2(6) == 0x40
    ensures Pow2(8) == 0x100 && Pow2(10) == 0x400 && Pow2(12) == 0x1000
    ensures Pow2(13) == 0x2000 && Pow2(15) == 0x8000
    ensures Pow2(16) == 0x1_0000 && Pow2(20) == 0x10_0000 && Pow2(24) == 0x100_0000
    ensures Pow2(28) == 0x1000_0000 && Pow2(31) == 0x8000_0000 && Pow2(32) == 0x1_0000_0000
  {
    assert Pow2(8) == 0x100;
    assert Pow2(16) == 0x1_0000;
    assert Pow2(24) == 0x100_0000;
    assert Pow2(31) == 0x8000_0000;
  }

  /** The number of bits a value needs. */
  function BitLength(x: nat): nat {
    if x == 0 then 0 else 1 + BitLength(x / 2)
  }

  lemma {:induction false} BitLengthBounds(x: nat)
    requires x > 0
    ensures BitLength(x) > 0 && Pow2(BitLength(x) - 1) <= x < Pow2(BitLength(x))
  {
    if x > 1 {
      BitLengthBounds(x / 2);
    }
  }

  lemma {:induction false} BitLengthUnique(x: nat, k: nat)
    requires Pow2(k) <= x < Pow2(k + 1)
    ensures BitLength(x) == k + 1
  {
    if k > 0 {
      BitLengthUnique(x / 2, k - 1);
    }
  }

  // ---------------------------------------------------------------- shifts and masks of words

  /** `x << k` without loss. */
  function Shl(x: nat, k: nat): nat {
    if k == 0 then x else 2 * Shl(x, k - 1)
  }

  lemma {:induction false} ShlIsMul(x: nat, k: nat)
    ensures Shl(x, k) == x * Pow2(k)
  {
    if k != 0 {
      ShlIsMul(x, k - 1);
      assert x * (2 * Pow2(k - 1)) == 2 * (x * Pow2(k - 1));
    }
  }

  /** `x >> k` of an unsigned value. */
  function Shr(x: nat, k: nat): nat {
    if k == 0 then x else Shr(x / 2, k - 1)
  }

  /** The k low bits of x. */
  function Low(x: nat, k: nat): nat {
    if k == 0 then 0 else x % 2 + 2 * Low(x / 2, k - 1)
  }

  function And(x: nat, y: nat): nat {
    if x == 0 || y == 0 then 0
    else (if x % 2 == 1 && y % 2 == 1 then 1 else 0) + 2 * And(x / 2, y / 2)
  }

  function Or(x: nat, y: nat): nat {
    if x == 0 then y else if y == 0 then x
    else (if x % 2 == 1 || y % 2 == 1 then 1 else 0) + 2 * Or(x / 2, y / 2)
  }

  function Xor(x: nat, y: nat): nat {
    if x == 0 then y else if y == 0 then x
    else (x + y) % 2 + 2 * Xor(x / 2, y / 2)
  }

  /** Complement within a 32-bit word. */
  function Not32(x: u32): u32 { 0xFFFF_FFFF - x }

  /** Every value is its high part over its low part; the split is unique. */
  lemma {:induction false} Split(x: nat, k: nat)
    ensures x == Shl(Shr(x, k), k) + Low(x, k) && Low(x, k) < Pow2(k)
  {
    if k != 0 {
      Split(x / 2, k - 1);
    }
  }

  lemma {:induction false} SplitUnique(h: nat, l: nat, k: nat)
    requires l < Pow2(k)
    ensures Shr(Shl(h, k) + l, k) == h && Low(Shl(h, k) + l, k) == l
  {
    if k != 0 {
      SplitUnique(h, l / 2, k - 1);
      var x := Shl(h, k) + l;
      assert x / 2 == Shl(h, k - 1) + l / 2 && x % 2 == l % 2;
    }
  }

  lemma {:induction false} LowSmall(x: nat, k: nat)
    requires x < Pow2(k)
    ensures Low(x, k) == x && Shr(x, k) == 0
  {
    if k != 0 {
      LowSmall(x / 2, k - 1);
    }
  }

  lemma {:induction false} ShrShr(x: nat, j: nat, k: nat)
    ensures Shr(Shr(x, j), k) == Shr(x, j + k)
  {
    if j != 0 {
      ShrShr(x / 2, j - 1, k);
    }
  }

  lemma {:induction false} ShrMono(x: nat, y: nat, k: nat)
    requires x <= y
    ensures Shr(x, k) <= Shr(y, k)
  {
    if k != 0 {
      ShrMono(x / 2, y / 2, k - 1);
    }
  }

  lemma {:induction false} LowLow(x: nat, j: nat, k: nat)
    requires j <= k
    ensures Low(Low(x, k), j) == Low(x, j)
  {
    if j != 0 {
      LowLow(x / 2, j - 1, k - 1);
    }
  }

  lemma {:induction false} LowOfShr(x: nat, a: nat, b: nat)
    ensures Low(Shr(x, a), b) == Shr(Low(x, a + b), a)
  {
    if a != 0 {
      LowOfShr(x / 2, a - 1, b);
    }
  }

  lemma {:induction false} LowOfShl(x: nat, a: nat, b: nat)
    ensures Low(Shl(x, a), a + b) == Shl(Low(x, b), a) && Shr(Shl(x, a), a) == x
  {
    if a != 0 {
      LowOfShl(x, a - 1, b);
    }
  }

  lemma ShrIsDiv(x: nat, k: nat)
    ensures Shr(x, k) == x / Pow2(k) && Low(x, k) == x % Pow2(k)
  {
    Split(x, k);
    DivModUnique(x, Pow2(k), Shr(x, k), Low(x, k));
  }

  lemma {:induction false} ShlAdd(x: nat, j: nat, k: nat)
    ensures Shl(x, j + k) == Shl(Shl(x, k), j)
  {
    if j != 0 {
      ShlAdd(x, j - 1, k);
    }
  }

  lemma {:induction false} ShlSum(x: nat, y: nat, k: nat)
    ensures Shl(x + y, k) == Shl(x, k) + Shl(y, k)
  {
    if k != 0 {
      ShlSum(x, y, k - 1);
    }
  }

  // ---------------------------------------------------------------- the operators, bit by bit

  function Bit(x: nat, k: nat): nat { Shr(x, k) % 2 }

  lemma {:induction false} AndBit(x: nat, y: nat, k: nat)
    ensures Bit(And(x, y), k) == if Bit(x, k) == 1 && Bit(y, k) == 1 then 1 else 0
  {
    if x == 0 || y == 0 {
      BitOfZero(k);
    } else if k != 0 {
      AndBit(x / 2, y / 2, k - 1);
    }
  }

  lemma {:induction false} OrBit(x: nat, y: nat, k: nat)
    ensures Bit(Or(x, y), k) == if Bit(x, k) == 1 || Bit(y, k) == 1 then 1 else 0
  {
    if x == 0 || y == 0 {
      BitOfZero(k);
    } else if k != 0 {
      OrBit(x / 2, y / 2, k - 1);
    }
  }

  lemma {:induction false} XorBit(x: nat, y: nat, k: nat)
    ensures Bit(Xor(x, y), k) == (Bit(x, k) + Bit(y, k)) % 2
  {
    hide Xor;
    XorHalf(x, y);
    if k != 0 {
      XorBit(x / 2, y / 2, k - 1);
    }
  }

  lemma XorHalf(x: nat, y: nat)
    ensures Xor(x, y) % 2 == (x + y) % 2 && Xor(x, y) / 2 == Xor(x / 2, y / 2)
  {
    if x == 0 {
      XorZeroLeft(y);
      XorZeroLeft(y / 2);
    } else if y == 0 {
      XorZero(x);
      XorZero(x / 2);
    } else {
      var h := Xor(x / 2, y / 2);
      assert Xor(x, y) == (x + y) % 2 + 2 * h;
      hide Xor;
    }
  }

  lemma XorZeroLeft(y: nat)
    ensures Xor(0, y) == y
  {
  }

  lemma {:induction false} BitOfZero(k: nat)
    ensures Bit(0, k) == 0
  {
    if k != 0 {
      BitOfZero(k - 1);
    }
  }

  // ---------------------------------------------------------------- what the operators do to fields

  lemma {:induction false} AndHalves(x: nat, y: nat)
    ensures And(x, 2 * y) == 2 * And(x / 2, y)
    ensures And(x, 2 * y + 1) == x % 2 + 2 * And(x / 2, y)
  {
  }

  /** A mask of the k low bits keeps them. */
  lemma {:induction false} AndMask(x: nat, k: nat)
    ensures And(x, Pow2(k) - 1) == Low(x, k)
  {
    if k != 0 {
      AndMask(x / 2, k - 1);
      AndHalves(x, Pow2(k - 1) - 1);
    }
  }

  lemma {:induction false} AndShl(x: nat, y: nat, k: nat)
    ensures And(x, Shl(y, k)) == Shl(And(Shr(x, k), y), k)
  {
    if k != 0 {
      AndShl(x / 2, y, k - 1);
      AndHalves(x, Shl(y, k - 1));
    }
  }

  /** A mask of k bits placed at bit m isolates that field. */
  lemma AndField(x: nat, k: nat, m: nat)
    ensures And(x, Shl(Pow2(k) - 1, m)) == Shl(Low(Shr(x, m), k), m)
  {
    AndShl(x, Pow2(k) - 1, m);
    AndMask(Shr(x, m), k);
  }

  /** The same in terms of division: fields of literal masks. */
  lemma MaskIsField(x: nat, k: nat, m: nat, mask: nat, unit: nat)
    requires unit == Pow2(m) && mask == (Pow2(k) - 1) * unit
    ensures And(x, mask) == x / unit % Pow2(k) * unit
  {
    hide And;
    AndField(x, k, m);
    ShlIsMul(Pow2(k) - 1, m);
    ShlIsMul(Low(Shr(x, m), k), m);
    ShrIsDiv(x, m);
    ShrIsDiv(x / Pow2(m), k);
  }

  /** A mask made of two parts selects the two parts. */
  lemma {:induction false} AndTwoMasks(x: nat, a: nat, b: nat, k: nat)
    requires b < Pow2(k)
    ensures And(x, Shl(a, k) + b) == And(x, Shl(a, k)) + And(x, b)
  {
    hide And;
    if k != 0 {
      AndTwoMasks(x / 2, a, b / 2, k - 1);
      var y := Shl(a, k - 1);
      assert b == 2 * (b / 2) || b == 2 * (b / 2) + 1;
      AndHalves(x, y);
      AndHalves(x, b / 2);
      AndHalves(x, y + b / 2);
    } else {
      AndWithZero(x);
    }
  }

  /** Clearing with the complement of a mask removes what the mask keeps. */
  lemma {:induction false} AndComplement(x: nat, y: nat, n: nat)
    requires x < Pow2(n) && y < Pow2(n)
    ensures And(x, Pow2(n) - 1 - y) + And(x, y) == x
  {
    hide And;
    if n != 0 {
      var p, h := Pow2(n - 1), y / 2;
      assert Pow2(n) == 2 * p;
      AndComplement(x / 2, h, n - 1);
      AndHalves(x, h);
      AndHalves(x, p - 1 - h);
      assert y == 2 * h || y == 2 * h + 1;
    } else {
      AndWithZero(x);
    }
  }

  lemma {:induction false} AndWithZero(x: nat)
    ensures And(x, 0) == And(0, x) == 0
  {
  }

  lemma {:induction false} OrZero(x: nat)
    ensures Or(x, 0) == Or(0, x) == x
  {
  }

  /** Joining a value aligned at bit k with one that fits below bit k adds them. */
  lemma {:induction false} OrAligned(a: nat, b: nat, k: nat)
    requires b < Pow2(k)
    ensures Or(Shl(a, k), b) == Or(b, Shl(a, k)) == Shl(a, k) + b
  {
    if k != 0 {
      OrAligned(a, b / 2, k - 1);
    } else {
      OrZero(a);
    }
  }

  lemma OrAlignedMul(a: nat, b: nat, k: nat)
    requires b < Pow2(k)
    ensures Or(a * Pow2(k), b) == a * Pow2(k) + b
  {
    hide Or;
    ShlIsMul(a, k);
    OrAligned(a, b, k);
  }

  /** Or-ing into the part above bit k leaves what is below. */
  lemma {:induction false} OrAbove(x: nat, y: nat, l: nat, k: nat)
    requires l < Pow2(k)
    ensures Or(Shl(x, k) + l, Shl(y, k)) == Shl(Or(x, y), k) + l
  {
    if k != 0 {
      OrAbove(x, y, l / 2, k - 1);
      OrHalves(Shl(x, k - 1) + l / 2, l % 2, Shl(y, k - 1));
    }
  }

  lemma {:induction false} OrHalves(x: nat, b: nat, y: nat)
    requires b < 2
    ensures Or(2 * x + b, 2 * y) == 2 * Or(x, y) + b
  {
    if x == 0 || y == 0 {
      OrZero(x);
      OrZero(y);
    }
  }

  lemma {:induction false} XorOdd(x: nat, y: nat)
    ensures Xor(x, 2 * y + 1) == 1 - x % 2 + 2 * Xor(x / 2, y)
  {
    if y == 0 {
      XorZero(x / 2);
    }
  }

  lemma {:induction false} XorZero(x: nat)
    ensures Xor(x, 0) == x
  {
  }

  lemma {:induction false} XorAllOnes(x: nat, k: nat)
    requires x < Pow2(k)
    ensures Xor(x, Pow2(k) - 1) == Pow2(k) - 1 - x
  {
    hide Xor;
    if k != 0 {
      XorAllOnes(x / 2, k - 1);
      XorOdd(x, Pow2(k - 1) - 1);
    } else {
      XorZero(x);
    }
  }
}
