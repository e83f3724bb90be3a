/** The Q15 reciprocal of a negative input. There is no clip as in Q31: the steps wrap, and where the
    result lands depends on the table. No negative input can count on an accurate result. */
module RecipNegative {
  import opened Arith
  import opened CInt
  import opened Reciprocal

  /** One pass of the loop, for any normalised input and any 16-bit value: the mixed signed and
      unsigned conversions amount to one reduction of the exact step to 16 bits. */
  lemma NewtonStepWrapsOnce15(n: q15, u: q15)
    requires n > -0x8000
    ensures Newton15(n, U32(u)) == U32(I16(ExactStep15(n, u)))
    ensures ExactStep15(n, u) == u * (0x7FFF - n * u / 0x8000) / 0x4000
  {
    hide I16, U32;
    var t := 0x7FFF - n * u / 0x8000;
    ProductBound(n, u, 0x7FFF, 0x8000);
    UnsignedFactor(n, u);
    UnsignedTemp(n * u);
    UnsignedFactor(t, u);
    UnsignedShift(u * t);
  }

  lemma UnsignedFactor(n: int, u: q15)
    ensures U32(n * U32(u)) == U32(U32(u) * n) == U32(n * u)
  {
    hide U32;
    U32OfSigned(u);
    if u < 0 {
      ShiftedFactor(n, u);
      U32Congruent(n * u, n);
    }
  }

  lemma ShiftedFactor(n: int, u: int)
    ensures n * (u + 0x1_0000_0000) == (u + 0x1_0000_0000) * n == n * u + 0x1_0000_0000 * n
  {
  }

  lemma UnsignedTemp(p: int)
    requires -0x4000_0000 < p < 0x4000_0000
    ensures U32(0x7FFF - U32(I16(U32(p) / 0x8000))) == 0x7FFF - p / 0x8000
  {
    hide I16, U32;
    var k := p / 0x8000;
    U32OfSigned(p);
    assert U32(p) / 0x8000 == if p < 0 then k + 0x2_0000 else k;
    I16Congruent(k, 2);
    I16Exact(k);
    U32OfSigned(k);
    U32Congruent(0x7FFF - k, -1);
    U32Exact(0x7FFF - k);
  }

  lemma UnsignedShift(q: int)
    ensures U32(I16(U32(q) / 0x4000)) == U32(I16(q / 0x4000))
  {
    hide I16;
    var h := q / 0x1_0000_0000;
    assert U32(q) == q - 0x1_0000_0000 * h;
    hide U32;
    I16Congruent(q / 0x4000, -4 * h);
  }

  lemma Recip15WrapsOncePerStep(x: q15, table: seq<q15>)
    requires x != 0 && x != -0x8000 && |table| == 64
    ensures var n := Normalise15(x);
            Recip15(x, table).0 == I16(ExactStep15(n, I16(ExactStep15(n, table[TableIndex15(n)]))))
            && TableIndex15(n) == n / 0x100 % 0x40
  {
    hide Newton15, ExactStep15, Normalise15, TableIndex15, SignBits15, I16, U32;
    NormalisedRange15(x);
    var n := Normalise15(x);
    IndexIsResidue(n);
    var seed := table[TableIndex15(n)];
    var mid := I16(ExactStep15(n, seed));
    NewtonStepWrapsOnce15(n, seed);
    NewtonStepWrapsOnce15(n, mid);
    NarrowedTwice(ExactStep15(n, mid));
  }

  lemma IndexIsResidue(n: q15)
    ensures TableIndex15(n) == n / 0x100 % 0x40
  {
    hide And;
    IndexMask(n / 0x100);
  }

  lemma NarrowedTwice(o: int)
    ensures I16(U32(I16(o))) == I16(o)
  {
  }

  lemma NormalisedRange15(x: q15)
    requires x != 0 && x != -0x8000
    ensures var n := Normalise15(x); if x > 0 then 0x4000 <= n else -0x8000 < n <= -0x4000
  {
    hide SignBits15, Pow2;
    NormaliseBounds15(Magnitude(x));
    ScaleSign(x, Pow2(SignBits15(Magnitude(x))));
  }

  // ---------------------------------------------------------------- what a segment of inputs can reach

  /** The result falls short of 2^29/n by as little as for a positive input. */
  predicate Accurate15(n: int, dst: int) { 0 < 0x2000_0000 - n * dst < 0x1_0080 }

  /** No value in lo..hi, reduced to 16 bits, is accurate for an input in n0..n1: the interval lies
      between the targets of two neighbouring turns. */
  predicate Avoids(n0: int, n1: int, lo: int, hi: int, turn: int) {
    n1 * (hi - 0x1_0000 * turn) >= 0x2000_0000 && n0 * (lo - 0x1_0000 * turn + 0x1_0000) <= 0x1FFE_FF80
  }

  lemma AvoidsIsSound(n0: int, n1: int, lo: int, hi: int, turn: int, n: int, o: int)
    requires n0 <= n <= n1 < 0 && lo <= o <= hi && Avoids(n0, n1, lo, hi, turn)
    ensures !Accurate15(n, I16(o))
  {
    hide I16;
    var c := (o + 0x8000) / 0x1_0000;
    ReducedBy(o, c);
    if c < turn {
      ProductOfNegatives(n, o - 0x1_0000 * c, n0, lo - 0x1_0000 * turn + 0x1_0000);
    } else {
      ProductOfNegatives(n1, hi - 0x1_0000 * turn, n, o - 0x1_0000 * c);
    }
  }

  lemma ReducedBy(o: int, c: int)
    requires c == (o + 0x8000) / 0x1_0000
    ensures I16(o) == o - 0x1_0000 * c
  {
  }

  /** Closer to zero in both factors, or of the wrong sign: a smaller product. */
  lemma ProductOfNegatives(n: int, u: int, m: int, v: int)
    requires m <= n < 0 && v <= u
    ensures n * u <= m * v || n * u <= 0
    ensures u <= 0 ==> n * u <= m * v
  {
    Between(v, v, u, -n);
    if u <= 0 {
      Between(m, m, n, -v);
    }
  }

  /** A step grows with the value and with the magnitude of a negative input. */
  lemma StepMonotone(n: int, u: int, m: int, v: int)
    requires -0x8000 <= m <= n < 0 && 0 <= u <= v < 0x8000
    ensures 0 <= ExactStep15(n, u) <= ExactStep15(m, v) < 0x2_0000
  {
    ProductsInOrder(n, u, m, v);
    TempsInOrder(n * u, m * v);
    StepProducts(u, v, 0x7FFF - n * u / 0x8000, 0x7FFF - m * v / 0x8000);
  }

  lemma ProductsInOrder(n: int, u: int, m: int, v: int)
    requires -0x8000 <= m <= n < 0 && 0 <= u <= v < 0x8000
    ensures -0x4000_0000 < m * v <= n * u <= 0
  {
    Between(u, 0, v, -n);
    Between(m, m, n, v);
    Between(m, -0x8000, 0, v);
    assert -n * u == -(n * u) && -n * v == -(n * v);
  }

  lemma TempsInOrder(p: int, q: int)
    requires -0x4000_0000 < q <= p <= 0
    ensures 0 <= 0x7FFF - p / 0x8000 <= 0x7FFF - q / 0x8000 < 0x1_0000
  {
  }

  lemma StepProducts(u: int, v: int, t: int, t': int)
    requires 0 <= u <= v < 0x8000 && 0 <= t <= t' < 0x1_0000
    ensures 0 <= u * t / 0x4000 <= v * t' / 0x4000 < 0x2_0000
  {
    MulNonneg(u, t);
    Between(u, 0, v, t);
    Between(t, 0, t', v);
    ProductBound(v, t', 0x7FFF, 0xFFFF);
  }

  lemma NegativePair(n: int, u: int, m: int, v: int)
    requires m <= n < 0 && v <= u < 0
    ensures 0 <= n * u <= m * v
  {
    ProductOfNegatives(n, u, m, v);
    MulNonneg(-n, -u);
  }

  /** From a non-negative value: what the second step reaches avoids the target. */
  lemma SecondFromAbove(n0: int, n1: int, l: int, h: int, turn: int, n: int, u: int)
    requires -0x8000 <= n0 <= n <= n1 < 0 && 0 <= l <= u <= h < 0x8000
    requires Avoids(n0, n1, ExactStep15(n1, l), ExactStep15(n0, h), turn)
    ensures !Accurate15(n, I16(ExactStep15(n, u)))
  {
    hide Avoids, I16, Accurate15, ExactStep15;
    StepMonotone(n1, l, n, u);
    StepMonotone(n, u, n0, h);
    AvoidsIsSound(n0, n1, ExactStep15(n1, l), ExactStep15(n0, h), turn, n, ExactStep15(n, u));
  }

  /** From a negative value the step is a Newton step in earnest: a deficit of 2^23 or more, on either
      side, is squared but stays too large. */
  lemma SecondFromBelow(n: int, u: int)
    requires -0x8000 < n <= -0x4000 && -0x8000 <= u < 0
    requires n * u <= 0x1F80_0000 || n * u >= 0x2080_0000
    ensures !Accurate15(n, I16(ExactStep15(n, u)))
  {
    hide I16;
    var t := 0x7FFF - n * u / 0x8000;
    NegativePair(n, u, -0x7FFF, -0x8000);
    var o := ExactStep15(n, u);
    NewtonIdentity15(n, u, n * u / 0x8000, n * u % 0x8000, o, u * t % 0x4000);
    DeficitStaysLarge(n, n * u, n * u % 0x8000, o, u * t % 0x4000);
    MulNonneg(-u, t);
    NegativeInWord(n, o);
    I16Exact(o);
  }

  lemma DeficitStaysLarge(n: int, p: int, r: int, o: int, s: int)
    requires -0x8000 <= n < 0 && p >= 0 && 0 <= r < 0x8000 && 0 <= s < 0x4000
    requires p <= 0x1F80_0000 || p >= 0x2080_0000
    requires var d := 0x2000_0000 - p;
             0x2000_0000 * (0x2000_0000 - n * o) == d * d + p * (0x8000 - r) + 0x8000 * (n * s)
    ensures 0x2000_0000 - n * o >= 0x1_0080
  {
    MulNonneg(p, 0x8000 - r);
    Between(s, 0, 0x3FFF, -n);
    LargeSquare(0x2000_0000 - p);
  }

  lemma NegativeInWord(n: int, o: int)
    requires n <= -0x4000 && o <= 0 && n * o < 0x2000_0000
    ensures o >= -0x8000
  {
    if o < -0x8000 {
      ProductOfNegatives(-0x4000, -0x8000, n, o);
      assert false;
    }
  }

  lemma LargeSquare(d: int)
    requires d >= 0x80_0000 || d <= -0x80_0000
    ensures d * d >= 0x4000_0000_0000
  {
    var w := if d < 0 then -d else d;
    assert w * w == d * d;
    Between(0x80_0000, 0x80_0000, w, 0x80_0000);
    Between(0x80_0000, 0x80_0000, w, w);
  }

  // ---------------------------------------------------------------- both steps, over a range of inputs and entries

  /** The two steps from the table entry t give an inaccurate result for n. */
  predicate Misses(n: int, t: int) {
    !Accurate15(n, I16(ExactStep15(n, I16(ExactStep15(n, t)))))
  }

  /** The inputs n0..n1, once the first step has landed in l..h: the second step misses from there. */
  predicate LandingMisses(n0: int, n1: int, l: int, h: int, turn: int) {
    && (l < 0 ==> n0 * l <= 0x1F80_0000 || n1 * (if h < 0 then h else -1) >= 0x2080_0000)
    && (h >= 0 ==> Avoids(n0, n1, ExactStep15(n1, if l < 0 then 0 else l), ExactStep15(n0, h), turn))
  }

  lemma LandingIsSound(n0: int, n1: int, l: int, h: int, turn: int, n: int, u: int)
    requires -0x8000 <= n0 <= n <= n1 <= -0x4000 && -0x8000 < n && -0x8000 <= l <= u <= h < 0x8000
    requires LandingMisses(n0, n1, l, h, turn)
    ensures !Accurate15(n, I16(ExactStep15(n, u)))
  {
    hide ExactStep15, I16, Accurate15, Avoids;
    if u >= 0 {
      SecondFromAbove(n0, n1, if l < 0 then 0 else l, h, turn, n, u);
    } else {
      ProductOfNegatives(n, u, n0, l);
      ProductOfNegatives(n1, if h < 0 then h else -1, n, u);
      SecondFromBelow(n, u);
    }
  }

  /** The inputs n0..n1 with the entries t0..t1: the first step lands in l..h, c turns of the 16 bits
      further, and the second step misses from there. */
  predicate RangeMisses(n0: int, n1: int, t0: int, t1: int, c: int, l: int, h: int, turn: int) {
    && ExactStep15(n1, t0) >= l + 0x1_0000 * c && ExactStep15(n0, t1) <= h + 0x1_0000 * c
    && LandingMisses(n0, n1, l, h, turn)
  }

  lemma RangeIsSound(n0: int, n1: int, t0: int, t1: int, c: int, l: int, h: int, turn: int, n: int, t: int)
    requires -0x8000 <= n0 <= n <= n1 <= -0x4000 && 0 <= t0 <= t <= t1 < 0x8000 && -0x8000 <= l <= h < 0x8000
    requires RangeMisses(n0, n1, t0, t1, c, l, h, turn) && -0x8000 < n
    ensures Misses(n, t)
  {
    hide ExactStep15, I16, Accurate15, LandingMisses;
    StepMonotone(n1, t0, n, t);
    StepMonotone(n, t, n0, t1);
    var o := ExactStep15(n, t);
    ReducedBy(o, c);
    LandingIsSound(n0, n1, l, h, turn, n, o - 0x1_0000 * c);
  }

  // ---------------------------------------------------------------- every accurate table

  /** An accurate entry for segment i lies between the tightest requirements of its segment. */
  lemma EntryInRange(table: seq<q15>, i: nat, i0: nat, i1: nat, t0: nat, t1: nat)
    requires AccurateTable15(table) && i0 <= i <= i1 < 64
    requires (0x4000 + 0x100 * i1) * (t0 - 1) < 0x1F80_0000
    requires t1 == 0x7FFF || (0x40FF + 0x100 * i0) * (t1 + 1) > 0x2080_0000
    ensures t0 <= table[i] <= t1
  {
    hide TableIndex15;
    var t: int, m: q15, n: q15 := table[i], 0x4000 + 0x100 * i, 0x40FF + 0x100 * i;
    TableIndex15Is(i, 0);
    TableIndex15Is(i, 0xFF);
    assert m * t >= 0x1F80_0000 && n * t <= 0x2080_0000;
    FactorAtLeast(m, t, 0x4000 + 0x100 * i1, t0);
    if t1 != 0x7FFF {
      FactorAtMost(n, t, 0x40FF + 0x100 * i0, t1);
    }
  }

  lemma FactorAtLeast(m: int, t: int, m1: int, t0: nat)
    requires 0 < m <= m1 && m * t >= 0x1F80_0000 && m1 * (t0 - 1) < 0x1F80_0000
    ensures t0 <= t
  {
    if t < 0 {
      MulNonneg(m, -t);
      assert false;
    } else if t < t0 {
      Between(m, m, m1, t);
      Between(t, t, t0 - 1, m1);
      assert false;
    }
  }

  lemma FactorAtMost(n: int, t: int, n0: int, t1: nat)
    requires 0 < n0 <= n && n * t <= 0x2080_0000 && n0 * (t1 + 1) > 0x2080_0000
    ensures t <= t1
  {
    if t > t1 {
      Between(n0, n0, n, t);
      Between(t1 + 1, t1 + 1, t, n0);
      assert false;
    }
  }

  /** The segment of a negative input, as the code indexes it. */
  lemma NegativeIndex(n: q15)
    requires -0x8000 < n <= -0x4000
    ensures TableIndex15(n) == if n == -0x4000 then 0 else (n + 0x8000) / 0x100
  {
    hide And;
    IndexMask(n / 0x100);
  }

  /** The few segments in which an accurate table may happen to serve a negative input. */
  predicate DoubtfulSegment(i: int) { i == 5 || i == 12 || i == 19 || i == 20 }

  function SegmentOf(n: int): int { (n + 0x8000) / 0x100 }

  /** With any accurate table, everywhere else the result is inaccurate. */
  lemma AccurateTableMisses(table: seq<q15>, n: q15)
    requires AccurateTable15(table) && -0x8000 < n <= -0x4000 && !DoubtfulSegment(SegmentOf(n))
    ensures Misses(n, table[TableIndex15(n)])
  {
    assert |table| == 64;
    hide TableIndex15, RangeMisses, Misses, AccurateTable15;
    NegativeIndex(n);
    var i := TableIndex15(n);
    var t := table[i];
    if n == -0x4000 {
      EntryInRange(table, i, 0, 0, 32256, 32767);
      LiteralRange0();
      RangeIsSound(-16384, -16384, 32256, 32767, 1, 30726, 32763, 2, n, t);
    } else if i < 4 {
      EntryInRange(table, i, 0, 3, 30812, 32767);
      LiteralRange1();
      RangeIsSound(-32768, -31745, 30812, 32767, 2, -13312, -8, 0, n, t);
    } else if i == 4 {
      EntryInRange(table, i, 4, 4, 30359, 30870);
      LiteralRange2();
      RangeIsSound(-31744, -31489, 30359, 30870, 2, -16296, -12987, 0, n, t);
    } else if i <= 10 {
      EntryInRange(table, i, 6, 10, 27898, 30000);
      LiteralRange3();
      RangeIsSound(-31232, -29953, 27898, 30000, 2, -31854, -18717, 0, n, t);
    } else if i == 11 {
      EntryInRange(table, i, 11, 11, 27526, 28026);
      SegmentElevenMisses(n, t);
    } else if i <= 18 {
      EntryInRange(table, i, 13, 18, 25176, 27308);
      LiteralRange4();
      RangeIsSound(-29440, -27905, 25176, 27308, 1, 17759, 29971, 2, n, t);
    } else if i <= 35 {
      EntryInRange(table, i, 21, 35, 20853, 24767);
      LiteralRange5();
      RangeIsSound(-27392, -23553, 20853, 24767, 1, -4754, 15293, 1, n, t);
    } else if i <= 58 {
      EntryInRange(table, i, 36, 58, 16922, 21089);
      LiteralRange6();
      RangeIsSound(-23552, -17665, 16922, 21089, 1, -22271, -3849, 0, n, t);
    } else {
      EntryInRange(table, i, 59, 63, 16255, 17177);
      LiteralRange7();
      RangeIsSound(-17664, -16385, 16255, 17177, 1, -24963, -21475, 0, n, t);
    }
  }

  /** In segment 11 the first step lands on either side of the wrap; the second misses from both. */
  lemma SegmentElevenMisses(n: int, t: int)
    requires -29952 <= n <= -29697 && 27526 <= t <= 28026
    ensures Misses(n, t)
  {
    hide ExactStep15, I16, Accurate15, LandingMisses;
    SegmentElevenValues();
    StepMonotone(-29697, 27526, n, t);
    StepMonotone(n, t, -29952, 28026);
    var o := ExactStep15(n, t);
    if o < 0x1_8000 {
      ReducedBy(o, 1);
      LandingIsSound(-29952, -29697, 31426, 0x7FFF, 3, n, o - 0x1_0000);
    } else {
      ReducedBy(o, 2);
      LandingIsSound(-29952, -29697, -0x8000, -31201, 0, n, o - 0x2_0000);
    }
  }

  lemma SegmentElevenValues()
    ensures ExactStep15(-29697, 27526) == 0x1_0000 + 31426 && ExactStep15(-29952, 28026) == 0x2_0000 - 31201
    ensures LandingMisses(-29952, -29697, 31426, 0x7FFF, 3)
    ensures LandingMisses(-29952, -29697, -0x8000, -31201, 0)
  {
    StepIs(-29697, 27526, -24947, 96962);
    StepIs(-29952, 28026, -25618, 99871);
    StepIs(-29697, 31426, -28481, 117479);
    StepIs(-29952, 32767, -29952, 125434);
    hide ExactStep15;
  }

  /** The value of a step, from the two quotients. */
  lemma StepIs(n: int, u: int, k: int, o: int)
    requires 0 <= n * u - 0x8000 * k < 0x8000 && 0 <= u * (0x7FFF - k) - 0x4000 * o < 0x4000
    ensures ExactStep15(n, u) == o
  {
  }

  // The ranges of the two steps for each group of segments, one evaluation each.

  lemma LiteralRange0()
    ensures RangeMisses(-16384, -16384, 32256, 32767, 1, 30726, 32763, 2)
  {
    StepIs(-16384, 32256, -16128, 96262);
    StepIs(-16384, 32767, -16384, 98299);
    StepIs(-16384, 30726, -15363, 90261);
    StepIs(-16384, 32763, -16382, 98283);
    hide ExactStep15;
  }

  lemma LiteralRange1()
    ensures RangeMisses(-32768, -31745, 30812, 32767, 2, -13312, -8, 0)
  {
    StepIs(-31745, 30812, -29851, 117760);
    StepIs(-32768, 32767, -32767, 131064);
    hide ExactStep15;
  }

  lemma LiteralRange2()
    ensures RangeMisses(-31744, -31489, 30359, 30870, 2, -16296, -12987, 0)
  {
    StepIs(-31489, 30359, -29175, 114776);
    StepIs(-31744, 30870, -29906, 118085);
    hide ExactStep15;
  }

  lemma LiteralRange3()
    ensures RangeMisses(-31232, -29953, 27898, 30000, 2, -31854, -18717, 0)
  {
    StepIs(-29953, 27898, -25502, 99218);
    StepIs(-31232, 30000, -28594, 112355);
    hide ExactStep15;
  }

  lemma LiteralRange4()
    ensures RangeMisses(-29440, -27905, 25176, 27308, 1, 17759, 29971, 2)
  {
    StepIs(-27905, 25176, -21440, 83295);
    StepIs(-29440, 27308, -24535, 95507);
    StepIs(-27905, 17759, -15124, 51910);
    StepIs(-29440, 29971, -26928, 109199);
    hide ExactStep15;
  }

  lemma LiteralRange5()
    ensures RangeMisses(-27392, -23553, 20853, 24767, 1, -4754, 15293, 1)
  {
    StepIs(-23553, 20853, -14989, 60782);
    StepIs(-27392, 24767, -20704, 80829);
    StepIs(-23553, 0, 0, 0);
    StepIs(-27392, 15293, -12784, 42517);
    hide ExactStep15;
  }

  lemma LiteralRange6()
    ensures RangeMisses(-23552, -17665, 16922, 21089, 1, -22271, -3849, 0)
  {
    StepIs(-17665, 16922, -9123, 43265);
    StepIs(-23552, 21089, -15158, 61687);
    hide ExactStep15;
  }

  lemma LiteralRange7()
    ensures RangeMisses(-17664, -16385, 16255, 17177, 1, -24963, -21475, 0)
  {
    StepIs(-16385, 16255, -8128, 40573);
    StepIs(-17664, 17177, -9260, 44061);
    hide ExactStep15;
  }

  // ---------------------------------------------------------------- the sign decides

  /** The midpoint reciprocal, moved within its tolerance in the two doubtful segments where that comes
      too close for a negative input. */
  function WitnessEntry(i: nat): q15
    requires i < 64
  {
    if i == 5 then 29924 else if i == 12 then 27613 else MidpointEntry15(i)
  }

  lemma WitnessAccurate(i: nat, l: nat)
    requires i < 64 && l < 0x100
    ensures WitnessEntry(i) >= 0
    ensures -0x80_0000 <= ((0x40 + i) * 0x100 + l) * WitnessEntry(i) - 0x2000_0000 <= 0x80_0000
  {
    hide MidpointEntry15;
    MidpointAccurate15(i, l);
  }

  lemma WitnessMisses(n: int)
    requires -0x8000 < n < -0x4000 && DoubtfulSegment(SegmentOf(n))
    ensures Misses(n, WitnessEntry(SegmentOf(n)))
  {
    hide RangeMisses, Misses;
    WitnessRange0();
    var i := SegmentOf(n);
    if i == 5 {
      WitnessRange1();
      RangeIsSound(-31488, -31233, 29924, 29924, 2, -19131, -18706, 0, n, 29924);
    } else if i == 12 {
      WitnessRange2();
      RangeIsSound(-29696, -29441, 27613, 27613, 1, 31502, 31864, 3, n, 27613);
    } else if i == 19 {
      WitnessRange3();
      RangeIsSound(-27904, -27649, 25115, 25115, 1, 17177, 17476, 2, n, 25115);
    } else {
      WitnessRange4();
      RangeIsSound(-27648, -27393, 24818, 24818, 1, 15526, 15819, 1, n, 24818);
    }
  }

  // The same for the witness's entries in the doubtful segments.

  lemma WitnessRange0()
    ensures WitnessEntry(19) == 25115 && WitnessEntry(20) == 24818
  {
  }

  lemma WitnessRange1()
    ensures RangeMisses(-31488, -31233, 29924, 29924, 2, -19131, -18706, 0)
  {
    StepIs(-31233, 29924, -28523, 111941);
    StepIs(-31488, 29924, -28756, 112366);
    hide ExactStep15;
  }

  lemma WitnessRange2()
    ensures RangeMisses(-29696, -29441, 27613, 27613, 1, 31502, 31864, 3)
  {
    StepIs(-29441, 27613, -24810, 97038);
    StepIs(-29696, 27613, -25025, 97400);
    StepIs(-29441, 31502, -28304, 117423);
    StepIs(-29696, 31864, -28877, 119886);
    hide ExactStep15;
  }

  lemma WitnessRange3()
    ensures RangeMisses(-27904, -27649, 25115, 25115, 1, 17177, 17476, 2)
  {
    StepIs(-27649, 25115, -21192, 82713);
    StepIs(-27904, 25115, -21387, 83012);
    StepIs(-27649, 17177, -14494, 49548);
    StepIs(-27904, 17476, -14882, 50824);
    hide ExactStep15;
  }

  lemma WitnessRange4()
    ensures RangeMisses(-27648, -27393, 24818, 24818, 1, 15526, 15819, 1)
  {
    StepIs(-27393, 24818, -20748, 81062);
    StepIs(-27648, 24818, -20941, 81355);
    StepIs(-27393, 15526, -12980, 43351);
    StepIs(-27648, 15819, -13348, 44524);
    hide ExactStep15;
  }

  ghost predicate Usable15(table: seq<q15>) {
    AccurateTable15(table) && forall i | 0 <= i < 64 :: table[i] >= 0
  }

  /** One accurate table without negative entries on which every negative input fails. */
  lemma WitnessTable() returns (table: seq<q15>)
    ensures Usable15(table)
    ensures forall n: q15 | -0x8000 < n <= -0x4000 :: Misses(n, table[TableIndex15(n)])
  {
    hide TableIndex15, WitnessEntry, Misses;
    table := seq(64, (i: nat) requires i < 64 => WitnessEntry(i));
    forall i | 0 <= i < 64
      ensures table[i] >= 0
    {
      WitnessAccurate(i, 0);
    }
    forall n: q15 | 0x4000 <= n
      ensures -0x80_0000 <= n * table[TableIndex15(n)] - 0x2000_0000 <= 0x80_0000
    {
      TableIndex15Is(n / 0x100 - 0x40, n % 0x100);
      WitnessAccurate(n / 0x100 - 0x40, n % 0x100);
    }
    forall n: q15 | -0x8000 < n <= -0x4000
      ensures Misses(n, table[TableIndex15(n)])
    {
      NegativeIndex(n);
      if DoubtfulSegment(SegmentOf(n)) {
        WitnessMisses(n);
      } else {
        AccurateTableMisses(table, n);
      }
    }
  }

  /** The accuracy of Recip15Accurate, demanded of every accurate table, holds exactly for the
      positive inputs. */
  lemma Recip15AccurateExactlyWhenPositive(x: q15)
    requires x != 0 && x != -0x8000
    ensures (forall table: seq<q15> | Usable15(table) ::
               0 < 0x2000_0000 - Normalise15(x) * Recip15(x, table).0 < 0x1_0080)
            <==> x > 0
  {
    hide Recip15, Normalise15, TableIndex15, Misses;
    NormalisedRange15(x);
    if x > 0 {
      forall table: seq<q15> | Usable15(table)
        ensures 0 < 0x2000_0000 - Normalise15(x) * Recip15(x, table).0 < 0x1_0080
      {
        Recip15Accurate(x, table);
      }
    } else {
      var table := WitnessTable();
      MissedResult(x, table);
    }
  }

  lemma MissedResult(x: q15, table: seq<q15>)
    requires x != 0 && x != -0x8000 && |table| == 64
    requires Misses(Normalise15(x), table[TableIndex15(Normalise15(x))])
    ensures !Accurate15(Normalise15(x), Recip15(x, table).0)
  {
    hide Recip15, Normalise15, TableIndex15, ExactStep15, I16;
    Recip15WrapsOncePerStep(x, table);
  }

  /** With any one accurate table, a negative input fails unless its normalised value lies in one of
      the four doubtful segments. */
  lemma Recip15NegativeInaccurate(x: q15, table: seq<q15>)
    requires x < 0 && x != -0x8000 && AccurateTable15(table) && !DoubtfulSegment(SegmentOf(Normalise15(x)))
    ensures var shortfall := 0x2000_0000 - Normalise15(x) * Recip15(x, table).0;
            shortfall <= 0 || shortfall >= 0x1_0080
  {
    hide Recip15, Normalise15, TableIndex15, Misses, DoubtfulSegment;
    NormalisedRange15(x);
    AccurateTableMisses(table, Normalise15(x));
    MissedResult(x, table);
  }

  // ---------------------------------------------------------------- the doubtful segments

  /** Some accurate table serves some negative input of the segment. */
  ghost predicate Served(i: int) {
    exists x: q15, table: seq<q15> | x < 0 && x != -0x8000 && Usable15(table) && SegmentOf(Normalise15(x)) == i ::
      Accurate15(Normalise15(x), Recip15(x, table).0)
  }

  /** The four segments are exactly those in which that happens. */
  lemma NegativeServedExactlyWhen(i: int)
    ensures Served(i) <==> DoubtfulSegment(i)
  {
    hide Recip15, Normalise15, Accurate15, AccurateTable15, Misses;
    if i == 5 {
      HitsOfFive();
      ServedBy(-31488, 30186);
    } else if i == 12 {
      HitsOfTwelve();
      ServedBy(-29694, 27363);
    } else if i == 19 {
      HitsOfNineteen();
      ServedBy(-27814, 24874);
    } else if i == 20 {
      HitsOfTwenty();
      ServedBy(-27631, 24918);
    } else {
      forall x: q15, table: seq<q15> | x < 0 && x != -0x8000 && Usable15(table) && SegmentOf(Normalise15(x)) == i
        ensures |table| == 64
        ensures !Accurate15(Normalise15(x), Recip15(x, table).0)
      {
        assert |table| == 64 by { UsableSize(table); }
        UsableMisses(x, table);
      }
    }
  }

  lemma UsableSize(table: seq<q15>)
    requires Usable15(table)
    ensures |table| == 64
  {
  }

  lemma UsableMisses(x: q15, table: seq<q15>)
    requires x < 0 && x != -0x8000 && Usable15(table) && !DoubtfulSegment(SegmentOf(Normalise15(x)))
    ensures !Accurate15(Normalise15(x), Recip15(x, table).0)
  {
    hide Recip15, Normalise15;
    Recip15NegativeInaccurate(x, table);
  }

  /** An entry that serves its positive inputs and one negative one. */
  lemma ServedBy(n: q15, t: q15)
    requires -0x8000 < n < -0x4000 && t >= 0 && !Misses(n, t)
    requires var m := (0x40 + SegmentOf(n)) * 0x100; 0x1F80_0000 <= m * t && (m + 0xFF) * t <= 0x2080_0000
    ensures Served(SegmentOf(n))
  {
    hide TableIndex15, WitnessEntry, Misses, Recip15, Accurate15;
    var i := SegmentOf(n);
    var table: seq<q15> := seq(64, (k: nat) requires k < 64 => if k == i then t else WitnessEntry(k));
    forall k | 0 <= k < 64
      ensures table[k] >= 0
    {
      WitnessAccurate(k, 0);
    }
    forall p: q15 | 0x4000 <= p
      ensures -0x80_0000 <= p * table[TableIndex15(p)] - 0x2000_0000 <= 0x80_0000
    {
      TableIndex15Is(p / 0x100 - 0x40, p % 0x100);
      WitnessAccurate(p / 0x100 - 0x40, p % 0x100);
      if p / 0x100 - 0x40 == i {
        Between(p, (0x40 + i) * 0x100, (0x40 + i) * 0x100 + 0xFF, t);
      }
    }
    assert Usable15(table);
    AlreadyNormal(n);
    NegativeIndex(n);
    HitResult(n, table);
  }

  lemma HitResult(x: q15, table: seq<q15>)
    requires x != 0 && x != -0x8000 && |table| == 64
    requires !Misses(Normalise15(x), table[TableIndex15(Normalise15(x))])
    ensures Accurate15(Normalise15(x), Recip15(x, table).0)
  {
    hide Recip15, Normalise15, TableIndex15, ExactStep15, I16;
    Recip15WrapsOncePerStep(x, table);
  }

  lemma AlreadyNormal(n: q15)
    requires -0x8000 < n < -0x4000
    ensures Normalise15(n) == n
  {
    hide BitLength;
    assert Pow2(14) == 0x4000 && Pow2(15) == 0x8000 && Pow2(0) == 1;
    BitLengthUnique(-n, 14);
  }

  lemma Hit(n: int, t: int, c: int, u: int, c': int, dst: int)
    requires ExactStep15(n, t) == u + 0x1_0000 * c && ExactStep15(n, u) == dst + 0x1_0000 * c'
    requires -0x8000 <= u < 0x8000 && -0x8000 <= dst < 0x8000 && Accurate15(n, dst)
    ensures !Misses(n, t)
  {
    hide ExactStep15, I16, Accurate15;
    ReducedBy(ExactStep15(n, t), c);
    ReducedBy(ExactStep15(n, u), c');
  }

  lemma HitsOfFive()
    ensures !Misses(-31488, 30186)
  {
    hide Misses;
    StepIs(-31488, 30186, -29007, 113812);
    StepIs(-31488, -17260, 16585, -17048);
    hide ExactStep15;
    Hit(-31488, 30186, 2, -17260, 0, -17048);
  }

  lemma HitsOfTwelve()
    ensures !Misses(-29694, 27363)
  {
    hide Misses;
    StepIs(-29694, 27363, -24797, 96137);
    StepIs(-29694, 30601, -27731, 112994);
    hide ExactStep15;
    Hit(-29694, 27363, 1, 30601, 2, -18078);
  }

  lemma HitsOfNineteen()
    ensures !Misses(-27814, 24874)
  {
    hide Misses;
    StepIs(-27814, 24874, -21114, 81801);
    StepIs(-27814, 16265, -13806, 46234);
    hide ExactStep15;
    Hit(-27814, 24874, 1, 16265, 1, -19302);
  }

  lemma HitsOfTwenty()
    ensures !Misses(-27631, 24918)
  {
    hide Misses;
    StepIs(-27631, 24918, -21012, 81791);
    StepIs(-27631, 16255, -13707, 46108);
    hide ExactStep15;
    Hit(-27631, 24918, 1, 16255, 1, -19428);
  }
}
