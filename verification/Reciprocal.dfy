/** Fixed-point reciprocal by table lookup and two Newton steps. The seed table is the caller's;
    what the code needs of it is a hypothesis (AccurateTable31, AccurateTable15). */
module Reciprocal {
  import opened Arith
  import opened CInt
  import opened Saturation

  // ---------------------------------------------------------------- counting leading zeros

  lemma TestBit(x: nat, m: nat)
    requires x < Pow2(m + 1)
    ensures And(x, Pow2(m)) == 0 <==> x < Pow2(m)
  {
    AndField(x, 1, m);
    assert Pow2(1) == 2;
    Split(x, m);
    if x < Pow2(m) {
      LowSmall(x, m);
    } else {
      SplitUnique(1, x - Pow2(m), m);
      assert Low(1, 1) == 1;
    }
  }

  /** `__CLZ` in C: the mask walks down from bit 31. It never stops on zero, so callers must not
      pass it. */
  method Clz(data: q31) returns (count: u32)
    requires data != 0
    ensures count < 32 && count == 32 - BitLength(U32(data))
  {
    hide And;
    ghost var d := U32(data);
    count := 0;
    var mask: u32 := 0x8000_0000;
    Pow2Values();
    while And(U32(data), mask) == 0
      invariant count < 32 && mask == Pow2(31 - count)
      invariant 0 < d < Pow2(32 - count)
      decreases 32 - count
    {
      TestBit(d, 31 - count);
      count := count + 1;
      mask := mask / 2;
    }
    TestBit(d, 31 - count);
    BitLengthUnique(d, 31 - count);
  }

  // ---------------------------------------------------------------- the Newton step, exactly

  /** Multiplying the second shift's equation by n. */
  lemma ScaleByN(n: int, out: int, t: int, h: int, o: int, s: int)
    requires out * t == h * o + s
    ensures h * (n * o) == n * out * t - n * s
  {
    assert n * (out * t) == n * out * t;
    assert n * (h * o + s) == n * (h * o) + n * s;
    assert n * (h * o) == h * (n * o);
  }

  lemma SquareOfDeficit(m: int, p: int)
    ensures (m - p) * (m - p) == m * m - 2 * m * p + p * p
  {
  }

  lemma MultiplyThrough(p: int, a: int, b: int, t: int, r: int)
    requires a * t == b - p + r
    ensures a * (p * t) == b * p - p * p + p * r
  {
    assert p * (a * t) == a * (p * t);
    assert p * (b - p + r) == p * b - p * p + p * r;
  }

  /** One truncated Newton step towards 2^61/n. With k, o the two shifted products and r, s what
      the shifts drop, the new deficit is exactly the square of the old one over 2^61, plus what
      was dropped. */
  lemma NewtonIdentity31(n: int, out: int, k: int, r: int, o: int, s: int)
    requires n * out == 0x8000_0000 * k + r
    requires out * (0x7FFF_FFFF - k) == 0x4000_0000 * o + s
    ensures var d := 0x2000_0000_0000_0000 - n * out;
            0x2000_0000_0000_0000 * (0x2000_0000_0000_0000 - n * o)
            == d * d + (n * out) * (0x8000_0000 - r) + 0x8000_0000 * (n * s)
  {
    var p, t := n * out, 0x7FFF_FFFF - k;
    ScaleByN(n, out, t, 0x4000_0000, o, s);
    MultiplyThrough(p, 0x8000_0000, 0x3FFF_FFFF_8000_0000, t, r);
    SquareOfDeficit(0x2000_0000_0000_0000, p);
    assert p * (0x8000_0000 - r) == 0x8000_0000 * p - p * r;
  }

  /** The same step in Q15, towards 2^29/n. */
  lemma NewtonIdentity15(n: int, out: int, k: int, r: int, o: int, s: int)
    requires n * out == 0x8000 * k + r
    requires out * (0x7FFF - k) == 0x4000 * o + s
    ensures var d := 0x2000_0000 - n * out;
            0x2000_0000 * (0x2000_0000 - n * o)
            == d * d + (n * out) * (0x8000 - r) + 0x8000 * (n * s)
  {
    var p, t := n * out, 0x7FFF - k;
    ScaleByN(n, out, t, 0x4000, o, s);
    MultiplyThrough(p, 0x8000, 0x3FFF_8000, t, r);
    SquareOfDeficit(0x2000_0000, p);
    assert p * (0x8000 - r) == 0x8000 * p - p * r;
  }

  // ---------------------------------------------------------------- Q31

  /** One pass of the loop body, with every conversion the C text makes. */
  function Newton31(n: q31, out: u32): u32 {
    var tempVal := U32(I32(n * out / 0x8000_0000));
    var tempVal := U32(0x7FFF_FFFF - tempVal);
    U32(ClipQ63ToQ31(I64(out * tempVal) / 0x4000_0000))
  }

  /** The step without conversions. */
  function ExactStep31(n: int, out: int): int {
    out * (0x7FFF_FFFF - n * out / 0x8000_0000) / 0x4000_0000
  }

  /** For a normalised positive n and any non-negative seed, the step falls short of the target
      by a positive amount (so the product never overflows, whatever the table holds), and by
      little more than the square of the old error. */
  lemma NewtonStepBounds31(n: int, out: int)
    requires 0 < n < 0x8000_0000 && 0 <= out < 0x8000_0000
    ensures var d, d' := 0x2000_0000_0000_0000 - n * out,
                         0x2000_0000_0000_0000 - n * ExactStep31(n, out);
            d' > 0
            && 0x2000_0000_0000_0000 * d'
               < d * d + 0x8000_0000 * (n * out) + 0x2000_0000_0000_0000 * n
    ensures 0 <= n * out / 0x8000_0000 < 0x8000_0000
    ensures 0 <= ExactStep31(n, out)
  {
    var p := n * out;
    var k, r := p / 0x8000_0000, p % 0x8000_0000;
    MulLess(n, out, 0x8000_0000);
    var t := 0x7FFF_FFFF - k;
    assert 0 <= k < 0x8000_0000;
    MulNonneg(out, t);
    var o, s := out * t / 0x4000_0000, out * t % 0x4000_0000;
    assert o == ExactStep31(n, out);
    NewtonIdentity31(n, out, k, r, o, s);
    var d := 0x2000_0000_0000_0000 - p;
    SquareNonneg(d);
    MulNonneg(p, 0x8000_0000 - r);
    MulNonneg(p, r);
    assert p * (0x8000_0000 - r) == 0x8000_0000 * p - p * r;
    MulLess(n, s, 0x4000_0000);
    if d == 0 {
      MulLess(p, r, 0x8000_0000);
    }
  }

  /** No conversion in the step changes a value and the clip never fires: positive input, any
      non-negative seed. */
  lemma NewtonStepIsExact31(n: q31, out: u32)
    requires n >= 0x4000_0000 && out < 0x8000_0000
    ensures Newton31(n, out) == ExactStep31(n, out) < 0x8000_0000
    ensures ExactStep31(n, out) == out * (0x7FFF_FFFF - n * out / 0x8000_0000) / 0x4000_0000
  {
    NewtonStepBounds31(n, out);
    var k, o := n * out / 0x8000_0000, ExactStep31(n, out);
    var t := 0x7FFF_FFFF - k;
    if o >= 0x8000_0000 {
      MulLess(o, 0x3FFF_FFFF, n);
      assert false;
    }
    Narrow31(k, out * t, o);
  }

  lemma Narrow31(k: int, q: int, o: int)
    requires 0 <= k < 0x8000_0000 && o == q / 0x4000_0000 && 0 <= o < 0x8000_0000
    ensures U32(I32(k)) == k && U32(0x7FFF_FFFF - k) == 0x7FFF_FFFF - k
    ensures I64(q) == q && U32(ClipQ63ToQ31(o)) == o
  {
    hide ClipQ63ToQ31;
    ClipQ63ToQ31IsClamp(o);
  }

  /** The table entry the code selects for a normalised input. */
  function TableIndex(n: q31): (i: nat)
    ensures i < 0x40
  {
    IndexMask(n / 0x100_0000);
    And(U32(n / 0x100_0000), 0x3F)
  }

  lemma IndexMask(h: int)
    ensures And(U32(h), 0x3F) == h % 0x40
  {
    hide And, Low, Shr;
    Pow2Values();
    AndMask(U32(h), 6);
    ShrIsDiv(U32(h), 6);
  }

  /** What the accuracy of the result needs of the caller's table: every entry is within one part
      in 64 of the reciprocal of each n it serves. */
  ghost predicate AccurateTable31(table: seq<q31>) {
    && |table| == 64
    && forall n: q31 | 0x4000_0000 <= n ::
         -0x80_0000_0000_0000 <= n * table[TableIndex(n)] - 0x2000_0000_0000_0000 <= 0x80_0000_0000_0000
  }

  /** Normalising shift of a magnitude m: the largest one that keeps it below 2^31. */
  function SignBits(m: nat): int { 31 - BitLength(m) }

  function Magnitude(x: int): nat { if x < 0 then -x else x }

  function Normalise(x: q31): q31
    requires x != 0 && x != -0x8000_0000
  {
    NormaliseBounds(Magnitude(x));
    ScaleSign(x, Pow2(SignBits(Magnitude(x))));
    x * Pow2(SignBits(Magnitude(x)))
  }

  lemma NormaliseBounds(m: nat)
    requires 0 < m < 0x8000_0000
    ensures 0 <= SignBits(m) < 31
    ensures 0x4000_0000 <= m * Pow2(SignBits(m)) < 0x8000_0000
  {
    hide BitLength, Pow2;
    BitLengthBounds(m);
    var b := BitLength(m);
    Pow2Around31(b);
    Squeeze(Pow2(31 - b), Pow2(b - 1), m, Pow2(b));
  }

  lemma Pow2Around31(b: nat)
    requires b > 0 && Pow2(b - 1) < 0x8000_0000
    ensures b <= 31
    ensures Pow2(b) * Pow2(31 - b) == 0x8000_0000 && Pow2(b - 1) * Pow2(31 - b) == 0x4000_0000
  {
    assert Pow2(31) == 0x8000_0000 && Pow2(31) == 2 * Pow2(30) by { Pow2Values(); }
    if b > 31 {
      Pow2Mono(31, b - 1);
      assert false;
    }
    Pow2Add(b, 31 - b);
    Pow2Add(b - 1, 31 - b);
  }

  /** The scaled input keeps its sign and fills all but the sign bit. */
  lemma NormaliseFacts(x: q31)
    requires x != 0 && x != -0x8000_0000
    ensures 0 <= SignBits(Magnitude(x)) < 31
    ensures Normalise(x) == x * Pow2(SignBits(Magnitude(x)))
    ensures x > 0 ==> 0x4000_0000 <= Normalise(x)
    ensures x < 0 ==> -0x8000_0000 < Normalise(x) <= -0x4000_0000
  {
    hide SignBits, Pow2;
    NormaliseBounds(Magnitude(x));
    ScaleSign(x, Pow2(SignBits(Magnitude(x))));
  }

  // ---------------------------------------------------------------- the Q31 function

  function TwoSteps31(n: q31, seed: q31): u32 {
    Newton31(n, Newton31(n, U32(seed)))
  }

  /** What `arm_recip_q31` computes: the mantissa and the exponent. */
  function Recip31(x: q31, table: seq<q31>): (q31, int)
    requires x != 0 && x != -0x8000_0000 && |table| == 64
  {
    (I32(TwoSteps31(Normalise(x), table[TableIndex(Normalise(x))])), SignBits(Magnitude(x)) + 1)
  }

  method RecipQ31(x: q31, table: seq<q31>) returns (dst: q31, shift: u32)
    requires x != 0 && x != -0x8000_0000 && |table| == 64
    ensures (dst, shift) == Recip31(x, table)
  {
    hide And, I32, U32, Newton31, BitLength, SignBits, Normalise, Pow2;
    var signBits: u32;
    NormaliseFacts(x);
    if x > 0 {
      var c: int := Clz(x);
      signBits := U32(c - 1);
      SignBitsOfClz(x, c);
    } else {
      var c: int := Clz(-x);
      signBits := U32(c - 1);
      SignBitsOfClz(-x, c);
    }
    var n := I32(x * Pow2(signBits));
    I32Exact(Normalise(x));
    var index := And(U32(n / 0x100_0000), 0x3F);
    IndexMask(n / 0x100_0000);
    ghost var seed := table[TableIndex(n)];
    var out := U32(table[index]);
    var i := 0;
    while i < 2
      invariant 0 <= i <= 2
      invariant i == 0 ==> out == U32(seed)
      invariant i == 1 ==> out == Newton31(n, U32(seed))
      invariant i == 2 ==> out == TwoSteps31(n, seed)
    {
      out := Newton31(n, out);
      i := i + 1;
    }
    dst := I32(out);
    shift := U32(signBits + 1);
    U32Exact(signBits + 1);
  }

  lemma SignBitsOfClz(m: nat, c: u32)
    requires 0 < m < 0x8000_0000 && c == 32 - BitLength(U32(m)) && 0 <= SignBits(m) < 31
    ensures U32(c - 1) == SignBits(m)
  {
    hide BitLength;
    U32Exact(m);
  }

  /** Both steps for a normalised positive n: exact, and short of the target. */
  lemma TwoExactSteps31(n: q31, seed: q31)
    requires 0x4000_0000 <= n && 0 <= seed
    ensures TwoSteps31(n, seed) == ExactStep31(n, ExactStep31(n, seed)) < 0x8000_0000
    ensures 0 < 0x2000_0000_0000_0000 - n * TwoSteps31(n, seed)
    ensures -0x80_0000_0000_0000 <= n * seed - 0x2000_0000_0000_0000 <= 0x80_0000_0000_0000
            ==> 0x2000_0000_0000_0000 - n * TwoSteps31(n, seed) < 0x22_0000_0000
  {
    hide Newton31, ExactStep31;
    var mid := ExactStep31(n, seed);
    NewtonStepIsExact31(n, seed);
    NewtonStepBounds31(n, seed);
    NewtonStepIsExact31(n, mid);
    NewtonStepBounds31(n, mid);
    if -0x80_0000_0000_0000 <= n * seed - 0x2000_0000_0000_0000 <= 0x80_0000_0000_0000 {
      DeficitShrinks(0x2000_0000_0000_0000 - n * seed, 0x2000_0000_0000_0000 - n * mid,
                     0x2000_0000_0000_0000 - n * ExactStep31(n, mid), n);
    }
  }

  /** The two deficits under the table hypothesis. */
  lemma DeficitShrinks(d0: int, d1: int, d2: int, n: int)
    requires -0x80_0000_0000_0000 <= d0 <= 0x80_0000_0000_0000 && 0 < n < 0x8000_0000
    requires d1 > 0 && d2 > 0
    requires 0x2000_0000_0000_0000 * d1
             < d0 * d0 + 0x8000_0000 * (0x2000_0000_0000_0000 - d0) + 0x2000_0000_0000_0000 * n
    requires 0x2000_0000_0000_0000 * d2
             < d1 * d1 + 0x8000_0000 * (0x2000_0000_0000_0000 - d1) + 0x2000_0000_0000_0000 * n
    ensures d2 < 0x22_0000_0000
  {
    SquareMono(d0, 0x80_0000_0000_0000);
    assert d1 <= 0x2_0002_0000_0000;
    SquareMono(d1, 0x2_0002_0000_0000);
  }

  /** Nothing overflows for any positive input and any table without negative entries: both steps
      are the exact ones, the clip never fires, and the product stays below its target. */
  lemma Recip31NeverOverflows(x: q31, table: seq<q31>)
    requires x > 0 && |table| == 64 && forall i | 0 <= i < 64 :: table[i] >= 0
    ensures var n, seed := Normalise(x), table[TableIndex(Normalise(x))];
            0x4000_0000 <= n
            && Recip31(x, table).0 == ExactStep31(n, ExactStep31(n, seed))
            && n * Recip31(x, table).0 < 0x2000_0000_0000_0000
  {
    hide TwoSteps31, ExactStep31, Normalise, TableIndex, I32;
    NormaliseFacts(x);
    var n := Normalise(x);
    TwoExactSteps31(n, table[TableIndex(n)]);
    I32Exact(TwoSteps31(n, table[TableIndex(n)]));
  }

  /** Accuracy, for every positive input: with n = x * 2^(shift - 1) in [2^30, 2^31), the result
      falls short of 2^61/n by a positive amount below (2^37 + 2^33)/n. Every negative input, by
      contrast, returns the largest mantissa, which is no reciprocal: the accuracy holds exactly
      for the positive inputs. */
  lemma Recip31AccurateExactlyWhenPositive(x: q31, table: seq<q31>)
    requires x != 0 && x != -0x8000_0000 && AccurateTable31(table)
    ensures var (dst, shift), n := Recip31(x, table), Normalise(x);
            && 1 <= shift <= 31
            && n == x * Pow2(shift - 1)
            && 0x4000_0000 <= Magnitude(n) < 0x8000_0000
            && (0 < 0x2000_0000_0000_0000 - n * dst < 0x22_0000_0000 <==> x > 0)
            && (x < 0 ==> dst == 0x7FFF_FFFF)
  {
    hide TwoSteps31, Normalise, TableIndex, SignBits, Pow2, I32;
    NormaliseFacts(x);
    var n := Normalise(x);
    var seed := table[TableIndex(n)];
    if x > 0 {
      Accurate31(n, seed);
    } else {
      NegativeSaturates31(n, table);
      I32Exact(0x7FFF_FFFF);
    }
  }

  lemma Accurate31(n: q31, seed: q31)
    requires 0x4000_0000 <= n
    requires -0x80_0000_0000_0000 <= n * seed - 0x2000_0000_0000_0000 <= 0x80_0000_0000_0000
    ensures 0 < 0x2000_0000_0000_0000 - n * I32(TwoSteps31(n, seed)) < 0x22_0000_0000
  {
    hide TwoSteps31, I32;
    SeedRange(n, seed);
    TwoExactSteps31(n, seed);
    I32Exact(TwoSteps31(n, seed));
  }

  lemma SeedRange(n: int, seed: int)
    requires 0x4000_0000 <= n < 0x8000_0000
    requires n * seed >= 0x2000_0000_0000_0000 - 0x80_0000_0000_0000
    ensures seed >= 0x3F00_0000
  {
    if seed < 0x3F00_0000 {
      MulNonneg(n, 0x3EFF_FFFF - seed);
      assert false;
    }
  }

  /** With a negative n the correction term adds instead of subtracting, so each step overshoots
      and is clipped to the largest value. */
  lemma NegativeSaturates31(n: q31, table: seq<q31>)
    requires -0x8000_0000 < n <= -0x4000_0000 && AccurateTable31(table)
    ensures TwoSteps31(n, table[TableIndex(n)]) == 0x7FFF_FFFF
  {
    hide Newton31, TableIndex;
    var i := TableIndex(n);
    var m: q31 := (0x40 + i) * 0x100_0000;
    IndexOfSegment(i, 0);
    var seed := table[TableIndex(m)];
    SeedRange(m, seed);
    NegativeStep31(n, seed);
    NegativeStep31(n, 0x7FFF_FFFF);
  }

  /** A positive normalised input in segment i selects entry i. */
  lemma IndexOfSegment(i: nat, l: nat)
    requires i < 0x40 && l < 0x100_0000
    ensures TableIndex((0x40 + i) * 0x100_0000 + l) == i
  {
    hide And;
    IndexMask(0x40 + i);
  }

  lemma NegativeStep31(n: q31, out: u32)
    requires -0x8000_0000 < n <= -0x4000_0000 && 0x3F00_0000 <= out < 0x8000_0000
    ensures Newton31(n, out) == 0x7FFF_FFFF
  {
    hide ClipQ63ToQ31, U32, I32, I64;
    var k := n * out / 0x8000_0000;
    Between(n, -0x7FFF_FFFF, -0x4000_0000, out);
    assert -0x8000_0000 <= k <= -0x1F80_0000;
    NegativeTemp(k);
    Between(out, 0x3F00_0000, 0x7FFF_FFFF, 0x7FFF_FFFF - k);
    OvershootClips(out * (0x7FFF_FFFF - k));
  }

  lemma NegativeTemp(k: int)
    requires -0x8000_0000 <= k < 0
    ensures U32(0x7FFF_FFFF - U32(I32(k))) == 0x7FFF_FFFF - k
  {
  }

  lemma OvershootClips(q: int)
    requires 0x2000_0000_0000_0000 <= q < 0x8000_0000_0000_0000
    ensures U32(ClipQ63ToQ31(I64(q) / 0x4000_0000)) == 0x7FFF_FFFF
  {
    hide ClipQ63ToQ31;
    ClipQ63ToQ31IsClamp(q / 0x4000_0000);
  }

  /** The rounded reciprocal of each segment's midpoint. */
  function MidpointEntry31(i: nat): q31
    requires i < 64
  {
    MidpointBounds31(0x40 + i);
    0x2000_0000_0000_0000 / ((0x40 + i) * 0x100_0000 + 0x80_0000)
  }

  lemma MidpointBounds31(h: int)
    requires 0x40 <= h < 0x80
    ensures var m := h * 0x100_0000 + 0x80_0000; var t := 0x2000_0000_0000_0000 / m;
            0 <= t < 0x8000_0000
            && 0x2000_0000_0000_0000 - m < m * t <= 0x2000_0000_0000_0000
  {
    var m := h * 0x100_0000 + 0x80_0000;
    var t := 0x2000_0000_0000_0000 / m;
    assert 0x2000_0000_0000_0000 == m * t + 0x2000_0000_0000_0000 % m;
    if t >= 0x8000_0000 {
      MulNonneg(m, t - 0x8000_0000);
      assert false;
    }
    if t < 0 {
      MulNonneg(m, -t - 1);
      assert false;
    }
  }

  /** The table hypothesis can be met: the midpoint reciprocals satisfy it. */
  lemma AccurateTable31Exists()
    ensures exists table :: AccurateTable31(table)
  {
    hide TableIndex, MidpointEntry31;
    var table: seq<q31> := seq(64, (i: nat) requires i < 64 => MidpointEntry31(i));
    forall n: q31 | 0x4000_0000 <= n
      ensures -0x80_0000_0000_0000 <= n * table[TableIndex(n)] - 0x2000_0000_0000_0000
      ensures n * table[TableIndex(n)] - 0x2000_0000_0000_0000 <= 0x80_0000_0000_0000
    {
      var i, l := n / 0x100_0000 - 0x40, n % 0x100_0000;
      IndexOfSegment(i, l);
      MidpointEntryAccurate(i, l);
    }
    assert AccurateTable31(table);
  }

  lemma MidpointEntryAccurate(i: nat, l: nat)
    requires i < 64 && l < 0x100_0000
    ensures var p := ((0x40 + i) * 0x100_0000 + l) * MidpointEntry31(i);
            -0x80_0000_0000_0000 <= p - 0x2000_0000_0000_0000 <= 0x80_0000_0000_0000
  {
    var m, t := (0x40 + i) * 0x100_0000 + 0x80_0000, MidpointEntry31(i);
    MidpointBounds31(0x40 + i);
    SpreadOverSegment(m, l - 0x80_0000, t);
    assert (0x40 + i) * 0x100_0000 + l == m + (l - 0x80_0000);
  }

  lemma SpreadOverSegment(m: int, e: int, t: int)
    requires -0x80_0000 <= e < 0x80_0000 && 0 <= t < 0x8000_0000 && 0x4000_0000 <= m < 0x8000_0000
    requires 0x2000_0000_0000_0000 - m < m * t <= 0x2000_0000_0000_0000
    ensures -0x80_0000_0000_0000 <= (m + e) * t - 0x2000_0000_0000_0000 <= 0x80_0000_0000_0000
  {
    assert (m + e) * t == m * t + e * t;
    Between(e, -0x80_0000, 0x80_0000, t);
  }

  /** Any normalised input, of either sign, and any value without sign bit: a step is the exact one, cut off
      at the largest mantissa. */
  lemma NewtonStepIsCapped31(n: q31, out: u32)
    requires out < 0x8000_0000
    ensures var o := out * (0x7FFF_FFFF - n * out / 0x8000_0000) / 0x4000_0000;
            0 <= o && Newton31(n, out) == if o > 0x7FFF_FFFF then 0x7FFF_FFFF else o
  {
    hide U32, I32, I64, ClipQ63ToQ31;
    Between(n, -0x8000_0000, 0x7FFF_FFFF, out);
    var k := n * out / 0x8000_0000;
    TempInRange(n * out, out);
    I32Exact(k);
    AnyTemp(k);
    Between(0x7FFF_FFFF - k, 0, 0xFFFF_FFFF, out);
    CappedProduct(out * (0x7FFF_FFFF - k));
  }

  lemma TempInRange(p: int, out: int)
    requires -0x8000_0000 * out <= p <= 0x7FFF_FFFF * out && 0 <= out < 0x8000_0000
    ensures -0x8000_0000 <= p / 0x8000_0000 < 0x8000_0000
  {
  }

  lemma CappedProduct(q: int)
    requires 0 <= q < 0x8000_0000_0000_0000
    ensures var o := q / 0x4000_0000;
            0 <= o && U32(ClipQ63ToQ31(I64(q) / 0x4000_0000)) == if o > 0x7FFF_FFFF then 0x7FFF_FFFF else o
  {
    hide U32, I64, ClipQ63ToQ31;
    I64Exact(q);
    ClipQ63ToQ31IsClamp(q / 0x4000_0000);
    U32Exact(Clamp32(q / 0x4000_0000));
  }

  lemma AnyTemp(k: int)
    requires -0x8000_0000 <= k < 0x8000_0000
    ensures U32(0x7FFF_FFFF - U32(k)) == 0x7FFF_FFFF - k
  {
  }

  /** What such a step computes. */
  function Capped31(n: int, out: int): int {
    var o := out * (0x7FFF_FFFF - n * out / 0x8000_0000) / 0x4000_0000;
    if o > 0x7FFF_FFFF then 0x7FFF_FFFF else o
  }

  /** The whole function, for either sign and any table without negative entries: the entry is the one the
      top seven bits of the normalised input select, modulo 64. */
  lemma Recip31Is(x: q31, table: seq<q31>)
    requires x != 0 && x != -0x8000_0000 && |table| == 64 && forall i | 0 <= i < 64 :: table[i] >= 0
    ensures var (dst, shift), n := Recip31(x, table), Normalise(x);
            && 1 <= shift <= 31 && n == x * Pow2(shift - 1) && 0x4000_0000 <= Magnitude(n) < 0x8000_0000
            && dst == Capped31(n, Capped31(n, table[n / 0x100_0000 % 0x40]))
  {
    hide TwoSteps31, Capped31, TableIndex, Normalise, SignBits, Pow2, I32;
    NormaliseFacts(x);
    var n := Normalise(x);
    IndexIsResidue31(n);
    TwoCappedSteps(n, table[TableIndex(n)]);
    I32Exact(TwoSteps31(n, table[TableIndex(n)]));
  }

  lemma IndexIsResidue31(n: q31)
    ensures TableIndex(n) == n / 0x100_0000 % 0x40
  {
    hide And;
    IndexMask(n / 0x100_0000);
  }

  lemma TwoCappedSteps(n: q31, seed: q31)
    requires seed >= 0
    ensures 0 <= TwoSteps31(n, seed) < 0x8000_0000
    ensures TwoSteps31(n, seed) == Capped31(n, Capped31(n, seed))
  {
    hide Newton31;
    U32Exact(seed);
    NewtonStepIsCapped31(n, seed);
    NewtonStepIsCapped31(n, Newton31(n, seed));
  }

  // ---------------------------------------------------------------- Q15

  /** One pass of the Q15 loop. The products are unsigned 32-bit (the running value is uint32_t),
      and there is no clip before the final narrowing. */
  function Newton15(n: q15, out: u32): u32 {
    var tempVal := U32(I16(U32(n * out) / 0x8000));
    var tempVal := U32(0x7FFF - tempVal);
    U32(I16(U32(out * tempVal) / 0x4000))
  }

  function ExactStep15(n: int, out: int): int {
    out * (0x7FFF - n * out / 0x8000) / 0x4000
  }

  lemma NewtonStepBounds15(n: int, out: int)
    requires 0 < n < 0x8000 && 0 <= out < 0x8000
    ensures var d, d' := 0x2000_0000 - n * out, 0x2000_0000 - n * ExactStep15(n, out);
            d' > 0 && 0x2000_0000 * d' < d * d + 0x8000 * (n * out) + 0x2000_0000 * n
    ensures 0 <= n * out / 0x8000 < 0x8000
    ensures 0 <= ExactStep15(n, out)
  {
    var p := n * out;
    var k, r := p / 0x8000, p % 0x8000;
    MulLess(n, out, 0x8000);
    var t := 0x7FFF - k;
    assert 0 <= k < 0x8000;
    MulNonneg(out, t);
    var o, s := out * t / 0x4000, out * t % 0x4000;
    assert o == ExactStep15(n, out);
    NewtonIdentity15(n, out, k, r, o, s);
    var d := 0x2000_0000 - p;
    SquareNonneg(d);
    MulNonneg(p, r);
    MulNonneg(p, 0x8000 - r);
    assert p * (0x8000 - r) == 0x8000 * p - p * r;
    MulLess(n, s, 0x4000);
    if d == 0 {
      MulLess(p, r, 0x8000);
    }
  }

  lemma NewtonStepIsExact15(n: q15, out: u32)
    requires n >= 0x4000 && out < 0x8000
    ensures Newton15(n, out) == ExactStep15(n, out) < 0x8000
    ensures ExactStep15(n, out) == out * (0x7FFF - n * out / 0x8000) / 0x4000
  {
    NewtonStepBounds15(n, out);
    var k, o := n * out / 0x8000, ExactStep15(n, out);
    if o >= 0x8000 {
      MulLess(o, 0x3FFF, n);
      assert false;
    }
    MulLess(n, out, 0x8000);
    Between(0x7FFF - k, 0, 0x7FFF, out);
    Narrow15(n * out, out * (0x7FFF - k), o);
  }

  lemma Narrow15(p: int, q: int, o: int)
    requires 0 <= p < 0x4000_0000 && 0 <= q < 0x4000_0000 && o == q / 0x4000 && 0 <= o < 0x8000
    ensures U32(I16(U32(p) / 0x8000)) == p / 0x8000
    ensures U32(0x7FFF - p / 0x8000) == 0x7FFF - p / 0x8000
    ensures U32(I16(U32(q) / 0x4000)) == o
  {
  }

  function TwoSteps15(n: q15, seed: q15): u32 {
    Newton15(n, Newton15(n, U32(seed)))
  }

  function TableIndex15(n: q15): (i: nat)
    ensures i < 0x40
  {
    IndexMask(n / 0x100);
    And(U32(n / 0x100), 0x3F)
  }

  ghost predicate AccurateTable15(table: seq<q15>) {
    && |table| == 64
    && forall n: q15 | 0x4000 <= n ::
         -0x80_0000 <= n * table[TableIndex15(n)] - 0x2000_0000 <= 0x80_0000
  }

  /** The Q15 input is normalised 16 bits lower; the shifted value still fits in 16 bits. */
  function SignBits15(m: nat): int { 15 - BitLength(m) }

  function Normalise15(x: q15): q15
    requires x != 0 && x != -0x8000
  {
    NormaliseBounds15(Magnitude(x));
    ScaleSign(x, Pow2(SignBits15(Magnitude(x))));
    x * Pow2(SignBits15(Magnitude(x)))
  }

  lemma ScaleSign(x: int, s: int)
    ensures x * s == if x < 0 then -(Magnitude(x) * s) else Magnitude(x) * s
  {
    assert (-x) * s == -(x * s);
  }

  lemma NormaliseFacts15(x: q15)
    requires x != 0 && x != -0x8000
    ensures 0 <= SignBits15(Magnitude(x)) < 15
    ensures Normalise15(x) == x * Pow2(SignBits15(Magnitude(x)))
    ensures x > 0 ==> 0x4000 <= Normalise15(x)
  {
    hide SignBits15, Pow2;
    NormaliseBounds15(Magnitude(x));
  }

  lemma NormaliseBounds15(m: nat)
    requires 0 < m < 0x8000
    ensures 0 <= SignBits15(m) < 15
    ensures 0x4000 <= m * Pow2(SignBits15(m)) < 0x8000
  {
    hide BitLength, Pow2;
    NormaliseBounds(m);
    BitLengthBounds(m);
    var b := BitLength(m);
    Pow2Values();
    if b > 15 {
      Pow2Mono(15, b - 1);
      assert false;
    }
    Pow2Add(16, 15 - b);
    var s := Pow2(15 - b);
    assert m * (0x1_0000 * s) == 0x1_0000 * (m * s);
  }

  function Recip15(x: q15, table: seq<q15>): (q15, int)
    requires x != 0 && x != -0x8000 && |table| == 64
  {
    (I16(TwoSteps15(Normalise15(x), table[TableIndex15(Normalise15(x))])),
     SignBits15(Magnitude(x)) + 1)
  }

  method RecipQ15(x: q15, table: seq<q15>) returns (dst: q15, shift: u32)
    requires x != 0 && x != -0x8000 && |table| == 64
    ensures (dst, shift) == Recip15(x, table)
  {
    hide And, I16, U32, Newton15, BitLength, SignBits15, Normalise15, Pow2;
    var signBits: u32;
    NormaliseFacts15(x);
    if x > 0 {
      var c: int := Clz(x);
      signBits := U32(c - 17);
      SignBitsOfClz15(x, c);
    } else {
      var c: int := Clz(-x);
      signBits := U32(c - 17);
      SignBitsOfClz15(-x, c);
    }
    var n := I16(x * Pow2(signBits));
    I16Exact(Normalise15(x));
    var index := And(U32(n / 0x100), 0x3F);
    IndexMask(n / 0x100);
    ghost var seed := table[TableIndex15(n)];
    var out := U32(table[index]);
    var i := 0;
    while i < 2
      invariant 0 <= i <= 2
      invariant i == 0 ==> out == U32(seed)
      invariant i == 1 ==> out == Newton15(n, U32(seed))
      invariant i == 2 ==> out == TwoSteps15(n, seed)
    {
      out := Newton15(n, out);
      i := i + 1;
    }
    dst := I16(out);
    shift := U32(signBits + 1);
    U32Exact(signBits + 1);
  }

  lemma SignBitsOfClz15(m: nat, c: u32)
    requires 0 < m < 0x8000 && c == 32 - BitLength(U32(m)) && 0 <= SignBits15(m) < 15
    ensures U32(c - 17) == SignBits15(m)
  {
    hide BitLength;
    U32Exact(m);
  }

  /** Q15, every positive input: with any table without negative entries no conversion loses a
      bit, although nothing clips; with an accurate table the result falls short of 2^29/n by a
      positive amount below (2^16 + 2^7)/n. */
  lemma Recip15Accurate(x: q15, table: seq<q15>)
    requires x > 0 && |table| == 64 && forall i | 0 <= i < 64 :: table[i] >= 0
    ensures var (dst, shift), n := Recip15(x, table), Normalise15(x);
            && 1 <= shift <= 15
            && n == x * Pow2(shift - 1)
            && 0x4000 <= n < 0x8000
            && dst == ExactStep15(n, ExactStep15(n, table[TableIndex15(n)]))
            && 0 < 0x2000_0000 - n * dst
            && (AccurateTable15(table) ==> 0x2000_0000 - n * dst < 0x1_0080)
  {
    hide TwoSteps15, ExactStep15, Normalise15, TableIndex15, SignBits15, Pow2, I16;
    NormaliseFacts15(x);
    var n := Normalise15(x);
    var seed := table[TableIndex15(n)];
    TwoExactSteps15(n, seed);
    I16Exact(TwoSteps15(n, seed));
  }

  /** The returned shift, for either sign: less one, it normalises the input. */
  lemma Recip15Shift(x: q15, table: seq<q15>)
    requires x != 0 && x != -0x8000 && |table| == 64
    ensures var shift, n := Recip15(x, table).1, Normalise15(x);
            && 1 <= shift <= 15 && n == x * Pow2(shift - 1) && 0x4000 <= Magnitude(n) < 0x8000
            && (n < 0 <==> x < 0)
  {
    hide TwoSteps15, Normalise15, TableIndex15, SignBits15, Pow2, I16;
    NormaliseFacts15(x);
    NormaliseBounds15(Magnitude(x));
    ScaleSign(x, Pow2(SignBits15(Magnitude(x))));
  }

  lemma TwoExactSteps15(n: q15, seed: q15)
    requires 0x4000 <= n && 0 <= seed
    ensures TwoSteps15(n, seed) == ExactStep15(n, ExactStep15(n, seed)) < 0x8000
    ensures 0 < 0x2000_0000 - n * TwoSteps15(n, seed)
    ensures -0x80_0000 <= n * seed - 0x2000_0000 <= 0x80_0000
            ==> 0x2000_0000 - n * TwoSteps15(n, seed) < 0x1_0080
  {
    hide Newton15, ExactStep15;
    var mid := ExactStep15(n, seed);
    NewtonStepIsExact15(n, seed);
    NewtonStepBounds15(n, seed);
    NewtonStepIsExact15(n, mid);
    NewtonStepBounds15(n, mid);
    if -0x80_0000 <= n * seed - 0x2000_0000 <= 0x80_0000 {
      DeficitShrinks15(0x2000_0000 - n * seed, 0x2000_0000 - n * mid,
                       0x2000_0000 - n * ExactStep15(n, mid), n);
    }
  }

  lemma DeficitShrinks15(d0: int, d1: int, d2: int, n: int)
    requires -0x80_0000 <= d0 <= 0x80_0000 && 0 < n < 0x8000
    requires d1 > 0 && d2 > 0
    requires 0x2000_0000 * d1 < d0 * d0 + 0x8000 * (0x2000_0000 - d0) + 0x2000_0000 * n
    requires 0x2000_0000 * d2 < d1 * d1 + 0x8000 * (0x2000_0000 - d1) + 0x2000_0000 * n
    ensures d2 < 0x1_0080
  {
    SquareMono(d0, 0x80_0000);
    assert d1 <= 0x3_0200;
    SquareMono(d1, 0x3_0200);
  }

  /** This hypothesis too can be met: each entry the rounded reciprocal of its segment's midpoint. */
  lemma AccurateTable15Exists()
    ensures exists table :: AccurateTable15(table) && forall i | 0 <= i < 64 :: table[i] >= 0
  {
    hide TableIndex15, MidpointEntry15;
    var table: seq<q15> := seq(64, (i: nat) requires i < 64 => MidpointEntry15(i));
    forall n: q15 | 0x4000 <= n
      ensures -0x80_0000 <= n * table[TableIndex15(n)] - 0x2000_0000 <= 0x80_0000
    {
      var i, l := n / 0x100 - 0x40, n % 0x100;
      IndexMask(0x40 + i);
      TableIndex15Is(i, l);
      MidpointAccurate15(i, l);
    }
    assert AccurateTable15(table);
  }

  function MidpointEntry15(i: nat): (t: q15)
    requires i < 64
    ensures t >= 0
  {
    MidpointBounds15((0x40 + i) * 0x100 + 0x80);
    0x2000_0000 / ((0x40 + i) * 0x100 + 0x80)
  }

  lemma MidpointBounds15(m: int)
    requires 0x4080 <= m < 0x8000
    ensures var t := 0x2000_0000 / m; 0 <= t < 0x8000 && 0x2000_0000 - m < m * t <= 0x2000_0000
  {
    var t := 0x2000_0000 / m;
    assert 0x2000_0000 == m * t + 0x2000_0000 % m;
    if t >= 0x8000 {
      MulNonneg(m, t - 0x8000);
      assert false;
    }
    if t < 0 {
      MulNonneg(m, -t - 1);
      assert false;
    }
  }

  lemma TableIndex15Is(i: nat, l: nat)
    requires i < 0x40 && l < 0x100
    ensures TableIndex15((0x40 + i) * 0x100 + l) == i
  {
    hide And;
    IndexMask(0x40 + i);
  }

  lemma MidpointAccurate15(i: nat, l: nat)
    requires i < 64 && l < 0x100
    ensures var p := ((0x40 + i) * 0x100 + l) * MidpointEntry15(i);
            -0x80_0000 <= p - 0x2000_0000 <= 0x80_0000
  {
    var m, t, e := (0x40 + i) * 0x100 + 0x80, MidpointEntry15(i), l - 0x80;
    MidpointBounds15(m);
    assert (m + e) * t == m * t + e * t;
    Between(e, -0x80, 0x80, t);
  }
}
