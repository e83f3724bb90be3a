/** The C emulation of the packed saturating and halving instructions (ARMv7-M Architecture
    Reference Manual, section A7.7), against a lane-by-lane specification. */
module PackedSimd {
  import opened CInt
  import opened Saturation

  /** Signed byte lane i of a word, and signed halfword lane i: what the architecture manual calls
      SInt(x<8*i+7:8*i>) and SInt(x<16*i+15:16*i>). */
  function Byte(x: q31, i: nat): q7
    requires i < 4
  {
    I8(U32(x) / (if i == 0 then 1 else if i == 1 then 0x100 else if i == 2 then 0x1_0000 else 0x100_0000))
  }

  function Half(x: q31, i: nat): q15
    requires i < 2
  {
    I16(U32(x) / (if i == 0 then 1 else 0x1_0000))
  }

  // ---------------------------------------------------------------- packing

  /** The mask-and-or expression that joins four bytes, u in the top lane. */
  function JoinBytes(u: q31, t: q31, s: q31, r: q31): q31 {
    I32(Or(Or(Or(And(U32(u), 0xFF00_0000), And(U32(t), 0x00FF_0000)), And(U32(s), 0x0000_FF00)),
           And(U32(r), 0x0000_00FF)))
  }

  function JoinHalves(s: q31, r: q31): q31 {
    I32(Or(And(U32(s), 0xFFFF_0000), And(U32(r), 0x0000_FFFF)))
  }

  lemma ByteMasks(x: u32)
    ensures And(x, 0xFF00_0000) == x / 0x100_0000 * 0x100_0000
    ensures And(x, 0x00FF_0000) == x / 0x1_0000 % 0x100 * 0x1_0000
    ensures And(x, 0x0000_FF00) == x / 0x100 % 0x100 * 0x100
    ensures And(x, 0x0000_00FF) == x % 0x100
  {
    hide And;
    Pow2Values();
    MaskIsField(x, 8, 24, 0xFF00_0000, 0x100_0000);
    MaskIsField(x, 8, 16, 0x00FF_0000, 0x1_0000);
    MaskIsField(x, 8, 8, 0x0000_FF00, 0x100);
    MaskIsField(x, 8, 0, 0x0000_00FF, 1);
  }

  lemma HalfMasks(x: u32)
    ensures And(x, 0xFFFF_0000) == x / 0x1_0000 * 0x1_0000
    ensures And(x, 0x0000_FFFF) == x % 0x1_0000
  {
    hide And;
    Pow2Values();
    MaskIsField(x, 16, 16, 0xFFFF_0000, 0x1_0000);
    MaskIsField(x, 16, 0, 0x0000_FFFF, 1);
  }

  lemma JoinFields(d: nat, c: nat, b: nat, a: nat)
    requires d < 0x100 && c < 0x100 && b < 0x100 && a < 0x100
    ensures Or(Or(Or(d * 0x100_0000, c * 0x1_0000), b * 0x100), a)
            == ((d * 0x100 + c) * 0x100 + b) * 0x100 + a
  {
    hide Or;
    Pow2Values();
    OrAlignedMul(d, c * 0x1_0000, 24);
    OrAlignedMul(d * 0x100 + c, b * 0x100, 16);
    OrAlignedMul((d * 0x100 + c) * 0x100 + b, a, 8);
  }

  lemma JoinTwoFields(b: nat, a: nat)
    requires b < 0x1_0000 && a < 0x1_0000
    ensures Or(b * 0x1_0000, a) == b * 0x1_0000 + a
  {
    hide Or;
    Pow2Values();
    OrAlignedMul(b, a, 16);
  }

  lemma WordRoundTrip(w: u32)
    ensures U32(I32(w)) == w
  {
  }

  /** The lanes of a word written in base 256. */
  lemma BytesOfWord(d: int, c: int, b: int, a: int)
    requires 0 <= d < 0x100 && 0 <= c < 0x100 && 0 <= b < 0x100 && 0 <= a < 0x100
    ensures var w := I32(((d * 0x100 + c) * 0x100 + b) * 0x100 + a);
            Byte(w, 3) == I8(d) && Byte(w, 2) == I8(c) && Byte(w, 1) == I8(b) && Byte(w, 0) == I8(a)
  {
    hide I8, I32, U32;
    var w2 := d * 0x100 + c;
    var w1 := w2 * 0x100 + b;
    var w0 := w1 * 0x100 + a;
    WordRoundTrip(w0);
    assert w0 / 0x100 == w1 && w1 / 0x100 == w2 && w2 / 0x100 == d;
    assert w0 / 0x1_0000 == w2 && w0 / 0x100_0000 == d && w0 / 1 == w0;
    I8Congruent(c, d);
    I8Congruent(b, w2);
    I8Congruent(a, w1);
  }

  /** The bytes the masks select from the shifted lane values. */
  lemma ShiftedBytes(u: q7, t: q7, s: q7, r: q7)
    ensures U32(u * 0x100_0000) / 0x100_0000 == u % 0x100
    ensures U32(t * 0x1_0000) / 0x1_0000 % 0x100 == t % 0x100
    ensures U32(s * 0x100) / 0x100 % 0x100 == s % 0x100
    ensures U32(r) % 0x100 == r % 0x100
  {
    hide U32;
    U32OfSigned(u * 0x100_0000);
    U32OfSigned(t * 0x1_0000);
    U32OfSigned(s * 0x100);
    U32OfSigned(r);
  }

  lemma ByteOfResidue(b: q7)
    ensures I8(b % 0x100) == b
  {
  }

  /** Joining and then taking a lane gives back the byte that was placed there. */
  lemma BytesOfJoin(u: q7, t: q7, s: q7, r: q7)
    ensures var w := JoinBytes(u * 0x100_0000, t * 0x1_0000, s * 0x100, r);
            Byte(w, 3) == u && Byte(w, 2) == t && Byte(w, 1) == s && Byte(w, 0) == r
  {
    hide And, Or, U32, I32, I8, Byte;
    ByteMasks(U32(u * 0x100_0000));
    ByteMasks(U32(t * 0x1_0000));
    ByteMasks(U32(s * 0x100));
    ByteMasks(U32(r));
    ShiftedBytes(u, t, s, r);
    JoinFields(u % 0x100, t % 0x100, s % 0x100, r % 0x100);
    BytesOfWord(u % 0x100, t % 0x100, s % 0x100, r % 0x100);
    ByteOfResidue(u);
    ByteOfResidue(t);
    ByteOfResidue(s);
    ByteOfResidue(r);
  }

  lemma ShiftedHalves(s: q15, r: q31)
    ensures U32(s * 0x1_0000) / 0x1_0000 == s % 0x1_0000 && U32(r) % 0x1_0000 == r % 0x1_0000
  {
  }

  lemma HalfOfResidue(r: int)
    ensures I16(r % 0x1_0000) == I16(r)
  {
  }

  lemma HalvesOfJoin(s: q15, r: q31)
    ensures var w := JoinHalves(s * 0x1_0000, r);
            Half(w, 1) == s && Half(w, 0) == I16(r)
  {
    hide And, Or, U32, I32, I16, Half;
    HalfMasks(U32(s * 0x1_0000));
    HalfMasks(U32(r));
    ShiftedHalves(s, r);
    HalfOfResidue(s);
    HalfOfResidue(r);
    I16Exact(s);
    JoinTwoFields(s % 0x1_0000, r % 0x1_0000);
    HalvesOfWord(s % 0x1_0000, r % 0x1_0000);
  }

  lemma HalvesOfWord(b: int, a: int)
    requires 0 <= b < 0x1_0000 && 0 <= a < 0x1_0000
    ensures Half(I32(b * 0x1_0000 + a), 1) == I16(b) && Half(I32(b * 0x1_0000 + a), 0) == I16(a)
  {
    hide I16, I32, U32;
    WordRoundTrip(b * 0x1_0000 + a);
    I16Congruent(a, b);
  }

  /** The base-256 digits of a word: the top one signed, each lane the signed reading of its
      digit. */
  lemma Digits(x: q31) returns (d: int, c: int, b: int, a: int)
    ensures x == ((d * 0x100 + c) * 0x100 + b) * 0x100 + a
    ensures -0x80 <= d < 0x80 && 0 <= c < 0x100 && 0 <= b < 0x100 && 0 <= a < 0x100
    ensures Byte(x, 3) == d && Byte(x, 2) == I8(c) && Byte(x, 1) == I8(b) && Byte(x, 0) == I8(a)
  {
    hide I8, I32, U32, Byte;
    d, c, b, a := x / 0x100_0000, x / 0x1_0000 % 0x100, x / 0x100 % 0x100, x % 0x100;
    DigitsOfWord(x);
    BytesOfWord(d % 0x100, c, b, a);
    ByteOfResidue(d);
    WordOfDigits(d, (c * 0x100 + b) * 0x100 + a);
  }

  lemma DigitsOfWord(x: int)
    ensures x == ((x / 0x100_0000 * 0x100 + x / 0x1_0000 % 0x100) * 0x100 + x / 0x100 % 0x100) * 0x100 + x % 0x100
  {
    var x1, x2 := x / 0x100, x / 0x1_0000;
    assert x1 / 0x100 == x2 && x2 / 0x100 == x / 0x100_0000;
  }

  lemma WordOfDigits(d: q7, l: int)
    requires 0 <= l < 0x100_0000
    ensures I32(d % 0x100 * 0x100_0000 + l) == d * 0x100_0000 + l
  {
  }

  /** The lanes as the C text takes them: by casting, or by shifting up and then down. */
  lemma BytesByShift(x: q31)
    ensures I8(x) == Byte(x, 0) && I32(x * 0x1_0000) / 0x100_0000 == Byte(x, 1)
    ensures I32(x * 0x100) / 0x100_0000 == Byte(x, 2) && x / 0x100_0000 == Byte(x, 3)
  {
    hide I8, I32, Byte;
    var d, c, b, a := Digits(x);
    I8Congruent(a, (d * 0x100 + c) * 0x100 + b);
    TopByte(c, b * 0x100 + a, d);
    TopByte(b, a * 0x100, d * 0x100 + c);
    assert x * 0x100 == d * 0x1_0000_0000 + c * 0x100_0000 + (b * 0x100 + a) * 0x100;
  }

  lemma TopByte(c: int, l: int, k: int)
    requires 0 <= c < 0x100 && 0 <= l < 0x1_0000
    ensures I32(k * 0x1_0000_0000 + c * 0x100_0000 + l * 0x100) / 0x100_0000 == I8(c)
  {
    hide I32, I8;
    I32Congruent(c * 0x100_0000 + l * 0x100, k);
    NarrowWord(c * 0x100_0000 + l * 0x100);
    NarrowByte(c);
  }

  lemma NarrowWord(w: u32)
    ensures I32(w) == if w < 0x8000_0000 then w else w - 0x1_0000_0000
  {
  }

  lemma NarrowByte(b: int)
    requires 0 <= b < 0x100
    ensures I8(b) == if b < 0x80 then b else b - 0x100
  {
  }

  lemma HalvesByShift(x: q31)
    ensures I16(x) == Half(x, 0) && x / 0x1_0000 == Half(x, 1)
  {
    hide I16, I32, Half;
    var b, a := x / 0x1_0000, x % 0x1_0000;
    HalvesOfWord(b % 0x1_0000, a);
    WordOfHalves(b, a);
    I16Congruent(a, b);
    HalfOfResidue(b);
    I16Exact(b);
  }

  lemma WordOfHalves(b: q15, a: int)
    requires 0 <= a < 0x1_0000
    ensures I32(b % 0x1_0000 * 0x1_0000 + a) == b * 0x1_0000 + a
  {
  }

  lemma BytesDetermineWord(x: q31, y: q31)
    requires forall i | 0 <= i < 4 :: Byte(x, i) == Byte(y, i)
    ensures x == y
  {
    hide Byte, I8;
    var d, c, b, a := Digits(x);
    var d', c', b', a' := Digits(y);
    assert Byte(x, 3) == Byte(y, 3) && Byte(x, 2) == Byte(y, 2);
    assert Byte(x, 1) == Byte(y, 1) && Byte(x, 0) == Byte(y, 0);
    ByteInjective(c, c');
    ByteInjective(b, b');
    ByteInjective(a, a');
  }

  lemma ByteInjective(a: int, b: int)
    requires 0 <= a < 0x100 && 0 <= b < 0x100 && I8(a) == I8(b)
    ensures a == b
  {
  }

  lemma HalvesDetermineWord(x: q31, y: q31)
    requires forall i | 0 <= i < 2 :: Half(x, i) == Half(y, i)
    ensures x == y
  {
    assert Half(x, 0) == Half(y, 0) && Half(x, 1) == Half(y, 1);
    HalvesByShift(x);
    HalvesByShift(y);
    SameResidue(x, y);
  }

  lemma SameResidue(x: int, y: int)
    requires I16(x) == I16(y) && x / 0x1_0000 == y / 0x1_0000
    ensures x == y
  {
  }

  // ---------------------------------------------------------------- saturating lanes

  lemma LaneLimits()
    ensures Pow2(7) == 0x80 && Pow2(15) == 0x8000
  {
    Pow2Values();
    assert Pow2(8) == 2 * Pow2(7);
  }

  lemma ByteLimits(x: int)
    ensures SatTo(x, 8) == Clamp(x, -0x80, 0x7F)
    ensures -0x80 <= SatTo(x, 8) < 0x80
  {
    LaneLimits();
  }

  method QAdd8(x: q31, y: q31) returns (sum: q31)
    ensures forall i | 0 <= i < 4 :: Byte(sum, i) == Clamp(Byte(x, i) + Byte(y, i), -0x80, 0x7F)
  {
    hide I8, I32, Byte, JoinBytes, SatTo, Pow2, Clamp;
    BytesByShift(x);
    BytesByShift(y);
    ByteLimits(Byte(x, 0) + Byte(y, 0));
    ByteLimits(Byte(x, 1) + Byte(y, 1));
    ByteLimits(Byte(x, 2) + Byte(y, 2));
    ByteLimits(Byte(x, 3) + Byte(y, 3));
    var r := Ssat(I8(x) + I8(y), 8);
    var s := Ssat(I32(x * 0x1_0000) / 0x100_0000 + I32(y * 0x1_0000) / 0x100_0000, 8);
    var t := Ssat(I32(x * 0x100) / 0x100_0000 + I32(y * 0x100) / 0x100_0000, 8);
    var u := Ssat(x / 0x100_0000 + y / 0x100_0000, 8);
    BytesOfJoin(u, t, s, r);
    sum := JoinBytes(u * 0x100_0000, t * 0x1_0000, s * 0x100, r);
  }

  method QSub8(x: q31, y: q31) returns (sum: q31)
    ensures forall i | 0 <= i < 4 :: Byte(sum, i) == Clamp(Byte(x, i) - Byte(y, i), -0x80, 0x7F)
  {
    hide I8, I32, Byte, JoinBytes, SatTo, Pow2, Clamp;
    BytesByShift(x);
    BytesByShift(y);
    ByteLimits(Byte(x, 0) - Byte(y, 0));
    ByteLimits(Byte(x, 1) - Byte(y, 1));
    ByteLimits(Byte(x, 2) - Byte(y, 2));
    ByteLimits(Byte(x, 3) - Byte(y, 3));
    var r := Ssat(I8(x) - I8(y), 8);
    var s := Ssat(I32(x * 0x1_0000) / 0x100_0000 - I32(y * 0x1_0000) / 0x100_0000, 8);
    var t := Ssat(I32(x * 0x100) / 0x100_0000 - I32(y * 0x100) / 0x100_0000, 8);
    var u := Ssat(x / 0x100_0000 - y / 0x100_0000, 8);
    BytesOfJoin(u, t, s, r);
    sum := JoinBytes(u * 0x100_0000, t * 0x1_0000, s * 0x100, r);
  }

  method QAdd16(x: q31, y: q31) returns (sum: q31)
    ensures forall i | 0 <= i < 2 :: Half(sum, i) == Clamp(Half(x, i) + Half(y, i), -0x8000, 0x7FFF)
  {
    hide I16, Half, JoinHalves;
    LaneLimits();
    HalvesByShift(x);
    HalvesByShift(y);
    var r := Ssat(I16(x) + I16(y), 16);
    var s := Ssat(x / 0x1_0000 + y / 0x1_0000, 16);
    HalvesOfJoin(s, r);
    I16Exact(r);
    sum := JoinHalves(s * 0x1_0000, r);
  }

  method QSub16(x: q31, y: q31) returns (sum: q31)
    ensures forall i | 0 <= i < 2 :: Half(sum, i) == Clamp(Half(x, i) - Half(y, i), -0x8000, 0x7FFF)
  {
    hide I16, Half, JoinHalves;
    LaneLimits();
    HalvesByShift(x);
    HalvesByShift(y);
    var r := Ssat(I16(x) - I16(y), 16);
    var s := Ssat(x / 0x1_0000 - y / 0x1_0000, 16);
    HalvesOfJoin(s, r);
    I16Exact(r);
    sum := JoinHalves(s * 0x1_0000, r);
  }

  // ---------------------------------------------------------------- halving lanes

  function SHAdd16(x: q31, y: q31): q31 {
    JoinHalves(I32((x / 0x2_0000 + y / 0x2_0000) * 0x1_0000), I16(x) / 2 + I16(y) / 2)
  }

  function SHSub16(x: q31, y: q31): q31 {
    JoinHalves(I32((x / 0x2_0000 - y / 0x2_0000) * 0x1_0000), I16(x) / 2 - I16(y) / 2)
  }

  /** The instruction halves the exact sum; the emulation halves each operand first, which drops
      the carry of two odd lanes and nothing else. */
  lemma SHAdd16IsHalfSumExactlyWhen(x: q31, y: q31, i: nat)
    requires i < 2
    ensures Half(SHAdd16(x, y), i)
            == (Half(x, i) + Half(y, i)) / 2
               - (if Half(x, i) % 2 == 1 && Half(y, i) % 2 == 1 then 1 else 0)
  {
    hide Half, JoinHalves, I16;
    HalvesByShift(x);
    HalvesByShift(y);
    HalfSums(x / 0x1_0000, y / 0x1_0000);
    HalfSums(I16(x), I16(y));
    ShiftAgain(x);
    ShiftAgain(y);
    HalvesOfJoin(x / 0x2_0000 + y / 0x2_0000, I16(x) / 2 + I16(y) / 2);
    I16Exact(I16(x) / 2 + I16(y) / 2);
  }

  /** The halving subtraction is one too high exactly on an even lane minus an odd one. */
  lemma SHSub16IsHalfDifferenceExactlyWhen(x: q31, y: q31, i: nat)
    requires i < 2
    ensures Half(SHSub16(x, y), i)
            == (Half(x, i) - Half(y, i)) / 2
               + (if Half(x, i) % 2 == 0 && Half(y, i) % 2 == 1 then 1 else 0)
  {
    hide Half, JoinHalves, I16;
    HalvesByShift(x);
    HalvesByShift(y);
    HalfSums(x / 0x1_0000, y / 0x1_0000);
    HalfSums(I16(x), I16(y));
    ShiftAgain(x);
    ShiftAgain(y);
    HalvesOfJoin(x / 0x2_0000 - y / 0x2_0000, I16(x) / 2 - I16(y) / 2);
    I16Exact(I16(x) / 2 - I16(y) / 2);
  }

  lemma ShiftAgain(x: q31)
    ensures x / 0x2_0000 == x / 0x1_0000 / 2
  {
  }

  lemma HalfSums(a: q15, b: q15)
    ensures a / 2 + b / 2 == (a + b) / 2 - (if a % 2 == 1 && b % 2 == 1 then 1 else 0)
    ensures a / 2 - b / 2 == (a - b) / 2 + (if a % 2 == 0 && b % 2 == 1 then 1 else 0)
    ensures -0x8000 <= a / 2 + b / 2 < 0x8000 && -0x8000 <= a / 2 - b / 2 < 0x8000
    ensures I32((a / 2 + b / 2) * 0x1_0000) == (a / 2 + b / 2) * 0x1_0000
    ensures I32((a / 2 - b / 2) * 0x1_0000) == (a / 2 - b / 2) * 0x1_0000
  {
  }

  // ---------------------------------------------------------------- exchanged lanes

  function QAsx(x: q31, y: q31): q31 {
    I32(I32(ClipQ31ToQ15(I16(x / 0x1_0000) + I16(y)) * 0x1_0000)
        + ClipQ31ToQ15(I16(x) - I16(y / 0x1_0000)))
  }

  function QSax(x: q31, y: q31): q31 {
    I32(I32(ClipQ31ToQ15(I16(x / 0x1_0000) - I16(y)) * 0x1_0000)
        + ClipQ31ToQ15(I16(x) + I16(y / 0x1_0000)))
  }

  /** A lane after a borrow. */
  function OneLess(s: int): int { if s == -0x8000 then 0x7FFF else s - 1 }

  /** Joining two lanes with `+` instead of a mask: the low lane survives, the high lane is
      right exactly when the low lane is not negative. */
  lemma JoinByAdding(s: q15, r: q15)
    ensures Half(I32(s * 0x1_0000 + r), 0) == r
    ensures Half(I32(s * 0x1_0000 + r), 1) == if r >= 0 then s else OneLess(s)
  {
    hide Half, I32;
    assert r < 0 ==> I16(s - 1) == OneLess(s);
    var k := if r >= 0 then 0 else -1;
    HalvesOfWord((s + k) % 0x1_0000, r % 0x1_0000);
    var q := (s + k) / 0x1_0000;
    assert (s + k) % 0x1_0000 * 0x1_0000 + r % 0x1_0000 == s * 0x1_0000 + r - 0x1_0000_0000 * q;
    I32Congruent(s * 0x1_0000 + r, -q);
  }

  lemma QAsxIsLaneWiseExactlyWhen(x: q31, y: q31)
    ensures Half(QAsx(x, y), 0) == Clamp(Half(x, 0) - Half(y, 1), -0x8000, 0x7FFF)
    ensures Half(QAsx(x, y), 1) == Clamp(Half(x, 1) + Half(y, 0), -0x8000, 0x7FFF) <==> Half(x, 0) >= Half(y, 1)
    ensures Half(x, 0) < Half(y, 1) ==>
              Half(QAsx(x, y), 1) == OneLess(Clamp(Half(x, 1) + Half(y, 0), -0x8000, 0x7FFF))
  {
    hide Half, I16, I32, ClipQ31ToQ15;
    LaneLimits();
    HalvesByShift(x);
    HalvesByShift(y);
    I16Exact(x / 0x1_0000);
    I16Exact(y / 0x1_0000);
    var s, r := Half(x, 1) + Half(y, 0), Half(x, 0) - Half(y, 1);
    ClipQ31ToQ15IsClamp(s);
    ClipQ31ToQ15IsClamp(r);
    JoinByAdding(Clamp16(s), Clamp16(r));
    HighLaneFits(Clamp16(s));
  }

  lemma QSaxIsLaneWiseExactlyWhen(x: q31, y: q31)
    ensures Half(QSax(x, y), 0) == Clamp(Half(x, 0) + Half(y, 1), -0x8000, 0x7FFF)
    ensures Half(QSax(x, y), 1) == Clamp(Half(x, 1) - Half(y, 0), -0x8000, 0x7FFF) <==> Half(x, 0) + Half(y, 1) >= 0
    ensures Half(x, 0) + Half(y, 1) < 0 ==>
              Half(QSax(x, y), 1) == OneLess(Clamp(Half(x, 1) - Half(y, 0), -0x8000, 0x7FFF))
  {
    hide Half, I16, I32, ClipQ31ToQ15;
    LaneLimits();
    HalvesByShift(x);
    HalvesByShift(y);
    I16Exact(x / 0x1_0000);
    I16Exact(y / 0x1_0000);
    var s, r := Half(x, 1) - Half(y, 0), Half(x, 0) + Half(y, 1);
    ClipQ31ToQ15IsClamp(s);
    ClipQ31ToQ15IsClamp(r);
    JoinByAdding(Clamp16(s), Clamp16(r));
    HighLaneFits(Clamp16(s));
  }

  lemma HighLaneFits(s: q15)
    ensures I32(s * 0x1_0000) == s * 0x1_0000
  {
  }
}
