/** Linear interpolation in a fixed-point table. The input is in 12.20 format: the top 12 bits select
    the segment and the low 20 bits are the fraction. */
module LinearInterp {
  import opened Arith
  import opened CInt

  /** `(x & 0xFFF00000) >> 20`: the operand is unsigned, so the result is never negative and the
      code's test for a negative index never holds. */
  function Index(x: q31): nat { And(U32(x), 0xFFF0_0000) / 0x10_0000 }

  function Fraction(x: q31): nat { And(U32(x), 0x000F_FFFF) }

  lemma IndexAndFraction(x: q31)
    ensures Index(x) == U32(x) / 0x10_0000 < 0x1000 && Fraction(x) == U32(x) % 0x10_0000
    ensures x >= 0 ==> Index(x) == x / 0x10_0000 < 0x800 && Fraction(x) == x % 0x10_0000
    ensures x < 0 ==> Index(x) == 0x1000 + x / 0x10_0000 >= 0x800 && Fraction(x) == x % 0x10_0000
  {
    hide And, U32;
    SplitWord(U32(x));
    U32OfSigned(x);
  }

  lemma SplitWord(w: u32)
    ensures And(w, 0xFFF0_0000) == w / 0x10_0000 * 0x10_0000 && And(w, 0x000F_FFFF) == w % 0x10_0000
  {
    hide And;
    assert Pow2(20) == 0x10_0000 && Pow2(12) == 0x1000 by { Pow2Values(); }
    MaskIsField(w, 12, 20, 0xFFF0_0000, 0x10_0000);
    MaskIsField(w, 20, 0, 0x000F_FFFF, 1);
  }

  // ---------------------------------------------------------------- the common formula

  /** The truncated weighted mean of two neighbours. The weights add up to 2^20 - 1, not 2^20. */
  function Blend(y0: int, y1: int, f: nat): int {
    (y0 * (0xF_FFFF - f) + y1 * f) / 0x10_0000
  }

  lemma BlendBetween(y0: int, y1: int, f: nat)
    requires f <= 0xF_FFFF
    ensures var lo, hi := if y0 < y1 then y0 else y1, if y0 < y1 then y1 else y0;
            lo * 0xF_FFFF <= y0 * (0xF_FFFF - f) + y1 * f <= hi * 0xF_FFFF
            && Blend(lo, lo, 0) <= Blend(y0, y1, f) <= Blend(hi, hi, 0)
  {
    var lo, hi := if y0 < y1 then y0 else y1, if y0 < y1 then y1 else y0;
    var g := 0xF_FFFF - f;
    Between(y0, lo, hi, g);
    Between(y1, lo, hi, f);
    assert lo * g + lo * f == lo * 0xF_FFFF by { assert lo * g + lo * f == lo * (g + f); }
    assert hi * g + hi * f == hi * 0xF_FFFF by { assert hi * g + hi * f == hi * (g + f); }
    DivMono(lo * 0xF_FFFF, y0 * g + y1 * f);
    DivMono(y0 * g + y1 * f, hi * 0xF_FFFF);
  }

  lemma DivMono(x: int, y: int)
    requires x <= y
    ensures x / 0x10_0000 <= y / 0x10_0000
  {
  }

  /** The value at a node: one below the entry when that is positive. */
  lemma BlendAtNode(v: int)
    requires -0x8000 <= v < 0x8000
    ensures Blend(v, v, 0) == if v > 0 then v - 1 else v
  {
  }

  lemma BlendMonoInFraction(y0: int, y1: int, f: nat, g: nat)
    requires y0 <= y1 && f <= g <= 0xF_FFFF
    ensures Blend(y0, y1, f) <= Blend(y0, y1, g)
  {
    MulNonneg(y1 - y0, g - f);
    assert (y1 - y0) * (g - f)
        == (y0 * (0xF_FFFF - g) + y1 * g) - (y0 * (0xF_FFFF - f) + y1 * f);
    DivMono(y0 * (0xF_FFFF - f) + y1 * f, y0 * (0xF_FFFF - g) + y1 * g);
  }

  lemma BlendMonoInEntry(v: int, w: int)
    requires v <= w
    ensures Blend(v, v, 0) <= Blend(w, w, 0)
  {
    DivMono(v * 0xF_FFFF, w * 0xF_FFFF);
  }

  /** What both Q15 and Q7 compute inside the table and beyond its end. */
  function Interpolated(table: seq<int>, i: nat, f: nat): int
    requires |table| >= 1
  {
    if i >= |table| - 1 then table[|table| - 1] else Blend(table[i], table[i + 1], f)
  }

  predicate NonDecreasing(table: seq<int>) {
    forall i, j | 0 <= i <= j < |table| :: table[i] <= table[j]
  }

  /** Monotonicity over the whole table: inside a segment, across segment boundaries, and up to the
      clamped end. */
  lemma InterpolatedMonotone(table: seq<int>, i: nat, f: nat, j: nat, g: nat)
    requires |table| >= 1 && NonDecreasing(table)
    requires forall k | 0 <= k < |table| :: -0x8000 <= table[k] < 0x8000
    requires f <= 0xF_FFFF && g <= 0xF_FFFF && (i < j || (i == j && f <= g))
    ensures Interpolated(table, i, f) <= Interpolated(table, j, g)
  {
    hide Blend;
    var n := |table| - 1;
    if i < n {
      BlendBetween(table[i], table[i + 1], f);
      if j >= n {
        BlendAtNode(table[i + 1]);
      } else if i == j {
        BlendMonoInFraction(table[i], table[i + 1], f, g);
      } else {
        BlendMonoInEntry(table[i + 1], table[j]);
        BlendBetween(table[j], table[j + 1], g);
      }
    }
  }

  lemma InterpolatedEnclosed(y0: int, y1: int, f: nat)
    requires -0x8000 <= y0 < 0x8000 && -0x8000 <= y1 < 0x8000 && f <= 0xF_FFFF
    ensures var lo, hi := if y0 < y1 then y0 else y1, if y0 < y1 then y1 else y0;
            lo - 1 <= Blend(y0, y1, f) <= hi
  {
    hide Blend;
    BlendBetween(y0, y1, f);
    BlendAtNode(if y0 < y1 then y0 else y1);
    BlendAtNode(if y0 < y1 then y1 else y0);
  }

  // ---------------------------------------------------------------- Q15

  function LinearInterpQ15(table: seq<q15>, x: q31): q15
    requires 1 <= |table| <= 0x8000_0000
  {
    if Index(x) >= |table| - 1 then table[|table| - 1]
    else
      var fract := Fraction(x);
      var y0, y1: int := table[Index(x)], table[Index(x) + 1];
      var y := I64(y0 * (0xF_FFFF - fract));
      var y := I64(y + I64(y1 * fract));
      I16(y / 0x10_0000)
  }

  /** Sums this small survive the conversions. */
  lemma NarrowSum15(p: int, q: int)
    requires -0x8000_0000_0000 <= p <= 0x8000_0000_0000 && -0x8000_0000_0000 <= q <= 0x8000_0000_0000
    requires -0x8000 <= (p + q) / 0x10_0000 < 0x8000
    ensures I16(I64(I64(p) + I64(q)) / 0x10_0000) == (p + q) / 0x10_0000
  {
    hide I16, I64;
    I64Exact(p);
    I64Exact(q);
    I64Exact(p + q);
    I16Exact((p + q) / 0x10_0000);
  }

  lemma NoOverflow15(y0: q15, y1: q15, f: nat)
    requires f <= 0xF_FFFF
    ensures I16(I64(I64(y0 * (0xF_FFFF - f)) + I64(y1 * f)) / 0x10_0000) == Blend(y0, y1, f)
  {
    hide I16, I64;
    ProductBound(y0, 0xF_FFFF - f, 0x8000, 0xF_FFFF);
    ProductBound(y1, f, 0x8000, 0xF_FFFF);
    InterpolatedEnclosed(y0, y1, f);
    BlendBetween(y0, y1, f);
    BlendAtNode(if y0 < y1 then y0 else y1);
    NarrowSum15(y0 * (0xF_FFFF - f), y1 * f);
  }

  /** No conversion loses a bit, for any table and any input. */
  lemma Q15IsInterpolated(table: seq<q15>, x: q31)
    requires 1 <= |table| <= 0x8000_0000
    ensures LinearInterpQ15(table, x) == Interpolated(table, Index(x), Fraction(x))
    ensures Fraction(x) <= 0xF_FFFF
  {
    hide I16, I64, Index, Fraction, Blend;
    IndexAndFraction(x);
    if Index(x) < |table| - 1 {
      NoOverflow15(table[Index(x)], table[Index(x) + 1], Fraction(x));
    }
  }

  /** Every table, in any order, and every input: the last entry from the last node on, and before it the
      truncated weighted mean of the two neighbours. A negative input is read as one beyond segment
      2047. */
  lemma Q15Value(table: seq<q15>, x: q31)
    requires 1 <= |table| <= 0x8000_0000
    ensures var i, f := if x < 0 then 0x1000 + x / 0x10_0000 else x / 0x10_0000, x % 0x10_0000;
            LinearInterpQ15(table, x)
            == if i >= |table| - 1 then table[|table| - 1]
               else (table[i] * (0xF_FFFF - f) + table[i + 1] * f) / 0x10_0000
  {
    hide LinearInterpQ15, Index, Fraction;
    IndexAndFraction(x);
    Q15IsInterpolated(table, x);
  }

  /** Q15, non-decreasing table: the output is non-decreasing over all segments, across their
      boundaries and up to the clamped end, in the order in which the index reads the inputs (which
      for non-negative inputs is the usual one). */
  lemma Q15Monotone(table: seq<q15>, x: q31, x': q31)
    requires 1 <= |table| <= 0x8000_0000 && NonDecreasing(table)
    requires U32(x) <= U32(x')
    ensures LinearInterpQ15(table, x) <= LinearInterpQ15(table, x')
  {
    hide LinearInterpQ15, Index, Fraction, Interpolated, U32;
    IndexAndFraction(x);
    IndexAndFraction(x');
    Q15IsInterpolated(table, x);
    Q15IsInterpolated(table, x');
    InterpolatedMonotone(table, Index(x), Fraction(x), Index(x'), Fraction(x'));
  }

  /** Every value lies within one below the smaller and the larger neighbour, the exact weighted
      mean rounded down, and every index is inside the table. */
  lemma Q15Enclosed(table: seq<q15>, x: q31)
    requires 1 <= |table| <= 0x8000_0000 && Index(x) < |table| - 1
    ensures var y0, y1: int, y: int := table[Index(x)], table[Index(x) + 1], LinearInterpQ15(table, x);
            && (if y0 < y1 then y0 else y1) - 1 <= y <= (if y0 < y1 then y1 else y0)
            && 0x10_0000 * y <= 0x10_0000 * y0 + (y1 - y0) * Fraction(x) - y0 < 0x10_0000 * (y + 1)
  {
    hide LinearInterpQ15, Index, Fraction;
    IndexAndFraction(x);
    Q15IsInterpolated(table, x);
    var y0: int, y1: int, f := table[Index(x)], table[Index(x) + 1], Fraction(x);
    InterpolatedEnclosed(y0, y1, f);
    assert y0 * (0xF_FFFF - f) + y1 * f == 0x10_0000 * y0 + (y1 - y0) * f - y0;
  }

  /** The documentation promises the first entry for an input below the range. The unsigned index
      reads a negative input as one beyond segment 2047 instead: a table of up to 2049 entries
      returns its last one, and so keeps the promise exactly when the two are equal; a longer table
      is interpolated there. */
  lemma Q15NegativeInputExactlyWhen(table: seq<q15>, x: q31)
    requires 1 <= |table| <= 0x8000_0000 && x < 0
    ensures LinearInterpQ15(table, x)
            == Interpolated(table, 0x1000 + x / 0x10_0000, x % 0x10_0000)
    ensures |table| <= 2049 ==>
              (LinearInterpQ15(table, x) == table[0] <==> table[0] == table[|table| - 1])
  {
    hide Index, Fraction, LinearInterpQ15;
    IndexAndFraction(x);
    Q15IsInterpolated(table, x);
  }

  /** The part of a table that only negative inputs reach, from entry 2048 on, holds the first entry,
      up to the unit a node loses. */
  predicate RepeatsFirst15(table: seq<q15>)
    requires |table| >= 1
  {
    var c: int := table[0];
    && table[|table| - 1] == c
    && (|table| > 2049 ==>
          c <= 0 && forall k | 2048 <= k < |table| :: c <= table[k] <= if c == 0 then 1 else c)
  }

  /** Every documented table size: the promise is kept for all negative inputs exactly when the last
      entry equals the first and, in a table of more than 2049 entries, the first is not positive and
      all entries from 2048 on repeat it (a zero also as a one). */
  lemma Q15NegativeInputsExactlyWhen(table: seq<q15>)
    requires 1 <= |table| <= 0x1000
    ensures (forall x: q31 | x < 0 :: LinearInterpQ15(table, x) == table[0]) <==> RepeatsFirst15(table)
  {
    hide Index, Fraction, LinearInterpQ15, Blend;
    var n, c: int := |table| - 1, table[0];
    if RepeatsFirst15(table) {
      forall x: q31 | x < 0
        ensures LinearInterpQ15(table, x) == table[0]
      {
        Q15NegativeInputExactlyWhen(table, x);
        var i, f := 0x1000 + x / 0x10_0000, x % 0x10_0000;
        if i < n {
          FlatBlend(table[i], table[i + 1], c, f);
        }
      }
    }
    if forall x: q31 | x < 0 :: LinearInterpQ15(table, x) == table[0] {
      var last: q31 := NegativeInput(if n < 2048 then 2048 else n, 0);
      Q15NegativeInputExactlyWhen(table, last);
      forall k | 2048 <= k < n
        ensures c <= table[k] <= c + 1 && (c < 0 ==> table[k] == c)
      {
        var x: q31 := NegativeInput(k, 0);
        Q15NegativeInputExactlyWhen(table, x);
        FirstOfBlend(table[k], table[k + 1]);
      }
      if n > 2048 {
        var x: q31 := NegativeInput(n - 1, 0xF_FFFF);
        Q15NegativeInputExactlyWhen(table, x);
        LastOfBlend(table[n - 1], table[n]);
      }
    }
  }

  /** The negative input that is read as a given segment and fraction. */
  function NegativeInput(i: nat, f: nat): (x: q31)
    requires 0x800 <= i < 0x1000 && f < 0x10_0000
    ensures x < 0 && 0x1000 + x / 0x10_0000 == i && x % 0x10_0000 == f
  {
    (i - 0x1000) * 0x10_0000 + f
  }

  lemma FlatBlend(y0: q15, y1: q15, c: int, f: nat)
    requires c <= y0 <= (if c == 0 then 1 else c) && c <= y1 <= (if c == 0 then 1 else c)
    requires -0x8000 <= c <= 0 && f <= 0xF_FFFF
    ensures Blend(y0, y1, f) == c
  {
    hide Blend;
    BlendBetween(y0, y1, f);
    BlendAtNode(y0);
    BlendAtNode(y1);
  }

  lemma FirstOfBlend(y0: q15, y1: q15)
    ensures Blend(y0, y1, 0) == if y0 > 0 then y0 - 1 else y0
  {
    BlendAtNode(y0);
    assert y1 * 0 == 0;
  }

  lemma LastOfBlend(y0: q15, y1: q15)
    ensures Blend(y0, y1, 0xF_FFFF) == if y1 > 0 then y1 - 1 else y1
  {
    BlendAtNode(y1);
    assert y0 * (0xF_FFFF - 0xF_FFFF) == 0;
  }

  // ---------------------------------------------------------------- Q7

  function LinearInterpQ7(table: seq<q7>, x: q31): q7
    requires 1 <= |table| <= 0x8000_0000
  {
    if x < 0 then table[0]
    else
      var index := And(x / 0x10_0000, 0xFFF);
      if index >= |table| - 1 then table[|table| - 1]
      else
        var fract := Fraction(x);
        var y0, y1: int := table[index], table[index + 1];
        var y := I32(y0 * (0xF_FFFF - fract));
        var y := I32(y + I32(y1 * fract));
        I8(y / 0x10_0000)
  }

  lemma NarrowSum7(p: int, q: int)
    requires -0x800_0000 <= p <= 0x800_0000 && -0x800_0000 <= q <= 0x800_0000
    requires -0x80 <= (p + q) / 0x10_0000 < 0x80
    ensures I8(I32(I32(p) + I32(q)) / 0x10_0000) == (p + q) / 0x10_0000
  {
    hide I8, I32;
    I32Exact(p);
    I32Exact(q);
    I32Exact(p + q);
    I8Exact((p + q) / 0x10_0000);
  }

  lemma NoOverflow7(y0: q7, y1: q7, f: nat)
    requires f <= 0xF_FFFF
    ensures I8(I32(I32(y0 * (0xF_FFFF - f)) + I32(y1 * f)) / 0x10_0000) == Blend(y0, y1, f)
  {
    hide I8, I32;
    ProductBound(y0, 0xF_FFFF - f, 0x80, 0xF_FFFF);
    ProductBound(y1, f, 0x80, 0xF_FFFF);
    BlendAtNode(if y0 < y1 then y0 else y1);
    BlendAtNode(if y0 < y1 then y1 else y0);
    BlendBetween(y0, y1, f);
    NarrowSum7(y0 * (0xF_FFFF - f), y1 * f);
  }

  lemma TwelveBits(i: nat)
    requires i < 0x1000
    ensures And(i, 0xFFF) == i
  {
    hide And, Low;
    Pow2Values();
    AndMask(i, 12);
    LowSmall(i, 12);
  }

  /** Q7: the same formula inside the table, and the documented first entry below it. */
  lemma Q7IsInterpolated(table: seq<q7>, x: q31)
    requires 1 <= |table| <= 0x8000_0000
    ensures LinearInterpQ7(table, x)
            == if x < 0 then table[0] else Interpolated(table, Index(x), Fraction(x))
    ensures Fraction(x) <= 0xF_FFFF
  {
    hide I8, I32, Index, Fraction, Blend, And;
    IndexAndFraction(x);
    if x >= 0 {
      TwelveBits(x / 0x10_0000);
      if Index(x) < |table| - 1 {
        NoOverflow7(table[Index(x)], table[Index(x) + 1], Fraction(x));
      }
    }
  }

  /** Every table in Q7, and every input. */
  lemma Q7Value(table: seq<q7>, x: q31)
    requires 1 <= |table| <= 0x8000_0000
    ensures var i, f := x / 0x10_0000, x % 0x10_0000;
            LinearInterpQ7(table, x)
            == if i < 0 then table[0]
               else if i >= |table| - 1 then table[|table| - 1]
               else (table[i] * (0xF_FFFF - f) + table[i + 1] * f) / 0x10_0000
  {
    hide LinearInterpQ7, Index, Fraction;
    IndexAndFraction(x);
    Q7IsInterpolated(table, x);
  }

  lemma Q7Monotone(table: seq<q7>, x: q31, x': q31)
    requires 1 <= |table| <= 0x8000_0000 && NonDecreasing(table)
    requires 0 <= x <= x'
    ensures LinearInterpQ7(table, x) <= LinearInterpQ7(table, x')
  {
    hide LinearInterpQ7, Index, Fraction, Interpolated;
    IndexAndFraction(x);
    IndexAndFraction(x');
    Q7IsInterpolated(table, x);
    Q7IsInterpolated(table, x');
    InterpolatedMonotone(table, Index(x), Fraction(x), Index(x'), Fraction(x'));
  }

  /** Q7 clamps negative inputs to the first entry itself, but interpolates to one less at zero when
      that entry is positive: over the whole input range, negative inputs included, it is monotone
      exactly when the first entry is not positive (or is the only one). */
  lemma Q7MonotoneOverAllInputsExactlyWhen(table: seq<q7>)
    requires 1 <= |table| <= 0x8000_0000 && NonDecreasing(table)
    ensures (forall x: q31, x': q31 | x <= x' :: LinearInterpQ7(table, x) <= LinearInterpQ7(table, x'))
            <==> |table| == 1 || table[0] <= 0
  {
    hide LinearInterpQ7, Index, Fraction;
    Q7IsInterpolated(table, -1);
    Q7IsInterpolated(table, 0);
    IndexAndFraction(0);
    FirstNode(table);
    if |table| == 1 || table[0] <= 0 {
      forall x: q31, x': q31 | x <= x'
        ensures LinearInterpQ7(table, x) <= LinearInterpQ7(table, x')
      {
        if x >= 0 {
          Q7Monotone(table, x, x');
        } else {
          Q7IsInterpolated(table, x);
          Q7IsInterpolated(table, x');
          if x' >= 0 {
            Q7Monotone(table, 0, x');
          }
        }
      }
    } else {
      assert LinearInterpQ7(table, -1) > LinearInterpQ7(table, 0);
    }
  }

  lemma FirstNode(table: seq<q7>)
    requires 1 <= |table|
    ensures Interpolated(table, 0, 0) == if |table| > 1 && table[0] > 0 then table[0] - 1 else table[0]
  {
    if |table| > 1 {
      BlendAtNode(table[0]);
      assert table[1] * 0 == 0;
    }
  }

  // ---------------------------------------------------------------- Q31

  /** The fraction in 1.31 format: shifted up by 11, so always even. */
  function Fraction31(x: q31): nat { Fraction(x) * 0x800 }

  function LinearInterpQ31(table: seq<q31>, x: q31): q31
    requires 1 <= |table| <= 0x8000_0000
  {
    if Index(x) >= |table| - 1 then table[|table| - 1]
    else
      Blend31(table[Index(x)], table[Index(x) + 1], I32(Fraction31(x)))
  }

  function Blend31(y0: q31, y1: q31, fract: int): q31 {
    var y := I32(y0 * (0x7FFF_FFFF - fract) / 0x1_0000_0000);
    var y := I32(y + I32(y1 * fract / 0x1_0000_0000));
    I32(y * 2)
  }

  /** The two truncated halves of the mean, for an even fraction in 1.31 format. Evenness matters at
      the bottom of the range: with an odd fraction the doubled sum could reach -2^31 - 2. */
  lemma HalvesFit(y0: int, y1: int, f: int)
    requires -0x8000_0000 <= y0 < 0x8000_0000 && -0x8000_0000 <= y1 < 0x8000_0000
    requires 0 <= f < 0x8000_0000 && f % 2 == 0
    ensures var h0, h1 := y0 * (0x7FFF_FFFF - f) / 0x1_0000_0000, y1 * f / 0x1_0000_0000;
            && -0x4000_0000 <= h0 < 0x4000_0000 && -0x4000_0000 <= h1 < 0x4000_0000
            && -0x4000_0000 <= h0 + h1 < 0x4000_0000
            && -5 * 0x8000_0000 < 0x8000_0000 * (2 * (h0 + h1)) - (y0 * (0x8000_0000 - f) + y1 * f) <= 0x8000_0000
  {
    var g := 0x7FFF_FFFF - f;
    Between(y0, -0x8000_0000, 0x7FFF_FFFF, g);
    Between(y1, -0x8000_0000, 0x7FFF_FFFF, f);
    assert y0 * (0x8000_0000 - f) == y0 * g + y0;
    BottomHalf(y0 * g, g);
    BottomHalf(y1 * f, f);
    TopOfSum(y0 * g, y1 * f, g, f);
  }

  /** The lowest value of a floored half product: -2^31 * g / 2^32, rounded down. */
  lemma BottomHalf(p: int, g: int)
    requires -0x8000_0000 * g <= p
    ensures p / 0x1_0000_0000 >= -((g + 1) / 2)
    ensures p / 0x1_0000_0000 * 0x1_0000_0000 <= p < p / 0x1_0000_0000 * 0x1_0000_0000 + 0x1_0000_0000
  {
  }

  lemma TopOfSum(p: int, q: int, g: int, f: int)
    requires p <= 0x7FFF_FFFF * g && q <= 0x7FFF_FFFF * f && g + f == 0x7FFF_FFFF && f >= 0 && g >= 0
    ensures p / 0x1_0000_0000 < 0x4000_0000 && q / 0x1_0000_0000 < 0x4000_0000
    ensures p / 0x1_0000_0000 + q / 0x1_0000_0000 < 0x4000_0000
  {
  }

  /** Q31, every table and every non-negative input inside it: neither the addition nor the final
      doubling overflows, and the result lies within (-5, +1] units of the exact interpolation. */
  lemma Q31Accurate(table: seq<q31>, x: q31)
    requires 1 <= |table| <= 0x8000_0000 && Index(x) < |table| - 1
    ensures var y0, y1, f, r: int := table[Index(x)], table[Index(x) + 1], Fraction31(x), LinearInterpQ31(table, x);
            && r == 2 * (y0 * (0x7FFF_FFFF - f) / 0x1_0000_0000 + y1 * f / 0x1_0000_0000)
            && -5 * 0x8000_0000 < 0x8000_0000 * r - (y0 * (0x8000_0000 - f) + y1 * f) <= 0x8000_0000
  {
    hide I32, Index, Fraction;
    IndexAndFraction(x);
    var y0: int, y1: int, f: int := table[Index(x)], table[Index(x) + 1], Fraction31(x);
    HalvesFit(y0, y1, f);
    I32Exact(f);
    I32Exact(y0 * (0x7FFF_FFFF - f) / 0x1_0000_0000);
    I32Exact(y1 * f / 0x1_0000_0000);
    I32Exact(y0 * (0x7FFF_FFFF - f) / 0x1_0000_0000 + y1 * f / 0x1_0000_0000);
    I32Exact(2 * (y0 * (0x7FFF_FFFF - f) / 0x1_0000_0000 + y1 * f / 0x1_0000_0000));
  }

  /** Every table, in any order, and every input: the last entry from the last node on, and before it twice
      the sum of the two truncated halves. */
  lemma Q31Value(table: seq<q31>, x: q31)
    requires 1 <= |table| <= 0x8000_0000
    ensures var i, f := if x < 0 then 0x1000 + x / 0x10_0000 else x / 0x10_0000, x % 0x10_0000 * 0x800;
            LinearInterpQ31(table, x)
            == if i >= |table| - 1 then table[|table| - 1]
               else 2 * (table[i] * (0x7FFF_FFFF - f) / 0x1_0000_0000 + table[i + 1] * f / 0x1_0000_0000)
  {
    hide Index, Fraction, Blend31;
    IndexAndFraction(x);
    if Index(x) < |table| - 1 {
      Q31Accurate(table, x);
    }
  }

  // ---------------------------------------------------------------- when Q31 falls

  /** The weighted sum behind a value, and whether the fractions its two halves drop make up a whole
      unit. */
  function Sum31(y0: int, y1: int, f: int): int { y0 * (0x7FFF_FFFF - f) + y1 * f }

  predicate Carry31(y0: int, y1: int, f: int) {
    y0 * (0x7FFF_FFFF - f) % 0x1_0000_0000 + y1 * f % 0x1_0000_0000 >= 0x1_0000_0000
  }

  function SumAt(table: seq<q31>, x: q31): int
    requires Index(x) < |table| - 1
  {
    Sum31(table[Index(x)], table[Index(x) + 1], Fraction31(x))
  }

  predicate CarryAt(table: seq<q31>, x: q31)
    requires Index(x) < |table| - 1
  {
    Carry31(table[Index(x)], table[Index(x) + 1], Fraction31(x))
  }

  /** Adding the floors of two halves. */
  lemma FloorsOfHalves(p: int, q: int)
    ensures p / 0x1_0000_0000 + q / 0x1_0000_0000
            == (p + q) / 0x1_0000_0000
               - (if p % 0x1_0000_0000 + q % 0x1_0000_0000 >= 0x1_0000_0000 then 1 else 0)
  {
  }

  lemma Q31FromSum(table: seq<q31>, x: q31)
    requires 1 <= |table| <= 0x8000_0000 && Index(x) < |table| - 1
    ensures LinearInterpQ31(table, x)
            == 2 * (SumAt(table, x) / 0x1_0000_0000 - if CarryAt(table, x) then 1 else 0)
  {
    hide LinearInterpQ31, Index, Fraction31;
    var y0: int, y1: int, f: int := table[Index(x)], table[Index(x) + 1], Fraction31(x);
    Q31Accurate(table, x);
    FloorsOfHalves(y0 * (0x7FFF_FFFF - f), y1 * f);
  }

  lemma Sum31Between(y0: int, y1: int, f: nat, g: nat)
    requires y0 <= y1 && f <= g <= 0x7FFF_FFFF
    ensures y0 * 0x7FFF_FFFF <= Sum31(y0, y1, f) <= Sum31(y0, y1, g) <= y1 * 0x7FFF_FFFF
    ensures Sum31(y0, y1, g) - Sum31(y0, y1, f) == (y1 - y0) * (g - f)
  {
    MulNonneg(y1 - y0, f);
    MulNonneg(y1 - y0, g - f);
    MulNonneg(y1 - y0, 0x7FFF_FFFF - g);
    assert (y1 - y0) * f == Sum31(y0, y1, f) - y0 * 0x7FFF_FFFF;
    assert (y1 - y0) * (g - f) == Sum31(y0, y1, g) - Sum31(y0, y1, f);
    assert (y1 - y0) * (0x7FFF_FFFF - g) == y1 * 0x7FFF_FFFF - Sum31(y0, y1, g);
  }

  /** Later inputs have larger sums, over all segments. */
  lemma SumMonotone(table: seq<q31>, x: q31, x': q31)
    requires NonDecreasing(table) && U32(x) <= U32(x') && Index(x') < |table| - 1
    ensures Index(x) <= Index(x') && SumAt(table, x) <= SumAt(table, x')
    ensures Index(x) < Index(x') ==> SumAt(table, x) <= table[Index(x')] * 0x7FFF_FFFF <= SumAt(table, x')
  {
    hide Index, Fraction, Sum31, U32;
    IndexAndFraction(x);
    IndexAndFraction(x');
    var i, j := Index(x), Index(x');
    if i == j {
      Sum31Between(table[i], table[i + 1], Fraction31(x), Fraction31(x'));
    } else {
      Sum31Between(table[i], table[i + 1], Fraction31(x), Fraction31(x));
      Sum31Between(table[j], table[j + 1], Fraction31(x'), Fraction31(x'));
    }
  }

  /** The value before the clamped end is no larger than the last entry. */
  lemma DoubledBelow(y: q31, s: int)
    requires s <= y * 0x7FFF_FFFF
    ensures 2 * (s / 0x1_0000_0000) <= y
  {
  }

  /** Truncating the two halves separately costs Q31 the monotonicity Q15 has, by two units and no
      more: over all segments of a non-decreasing table, a later input has a smaller value exactly
      when both sums lie in the same unit and the dropped fractions make up a whole one at the later
      input only. So no fall is onto a node, and none reaches the clamped end. */
  lemma Q31FallsExactlyWhen(table: seq<q31>, x: q31, x': q31)
    requires 1 <= |table| <= 0x8000_0000 && NonDecreasing(table) && U32(x) <= U32(x')
    ensures var falls := && Index(x) < |table| - 1 && Index(x') < |table| - 1
                         && SumAt(table, x) / 0x1_0000_0000 == SumAt(table, x') / 0x1_0000_0000
                         && !CarryAt(table, x) && CarryAt(table, x');
            && (falls ==> LinearInterpQ31(table, x) == LinearInterpQ31(table, x') + 2 && Fraction(x') > 0)
            && (!falls ==> LinearInterpQ31(table, x) <= LinearInterpQ31(table, x'))
  {
    hide Index, Fraction, SumAt, CarryAt, U32, LinearInterpQ31;
    IndexAndFraction(x);
    IndexAndFraction(x');
    var n := |table| - 1;
    if Index(x') < n {
      SumMonotone(table, x, x');
      Q31FromSum(table, x);
      Q31FromSum(table, x');
      if Fraction(x') == 0 {
        NoCarryAtNode(table, x');
      }
      FloorsLessCarries(SumAt(table, x), SumAt(table, x'), CarryAt(table, x), CarryAt(table, x'));
    } else {
      LastOrBelow(table, x);
      LastOrBelow(table, x');
    }
  }

  lemma FloorsLessCarries(s: int, s': int, c: bool, c': bool)
    requires s <= s'
    ensures var r, r' := 2 * (s / 0x1_0000_0000 - if c then 1 else 0), 2 * (s' / 0x1_0000_0000 - if c' then 1 else 0);
            if s / 0x1_0000_0000 == s' / 0x1_0000_0000 && !c && c' then r == r' + 2 else r <= r'
  {
  }

  lemma NoCarryAtNode(table: seq<q31>, x: q31)
    requires Index(x) < |table| - 1 && Fraction(x) == 0
    ensures !CarryAt(table, x)
  {
    hide Index;
    NodeSum(table[Index(x)], table[Index(x) + 1]);
  }

  lemma NodeSum(y0: int, y1: int)
    ensures Sum31(y0, y1, 0) == y0 * 0x7FFF_FFFF && !Carry31(y0, y1, 0)
  {
    assert y1 * 0 == 0;
  }

  /** No value exceeds the last entry, which is the value beyond the end. */
  lemma LastOrBelow(table: seq<q31>, x: q31)
    requires 1 <= |table| <= 0x8000_0000 && NonDecreasing(table)
    ensures LinearInterpQ31(table, x) <= table[|table| - 1]
    ensures Index(x) >= |table| - 1 ==> LinearInterpQ31(table, x) == table[|table| - 1]
  {
    hide Index, Fraction, Sum31, CarryAt;
    if Index(x) < |table| - 1 {
      IndexAndFraction(x);
      var i := Index(x);
      Q31FromSum(table, x);
      Sum31Between(table[i], table[i + 1], Fraction31(x), Fraction31(x));
      DoubledBelow(table[i + 1], SumAt(table, x));
    }
  }

  // ---------------------------------------------------------------- which gaps keep Q31 monotone

  predicate GapsAtLeast(table: seq<q31>, gap: int) {
    forall i | 0 <= i < |table| - 1 :: table[i + 1] - table[i] >= gap
  }

  predicate MonotoneQ31(table: seq<q31>)
    requires 1 <= |table| <= 0x8000_0000
  {
    forall x: q31, x': q31 | U32(x) <= U32(x') :: LinearInterpQ31(table, x) <= LinearInterpQ31(table, x')
  }

  lemma {:induction false} GapsNonDecreasing(table: seq<q31>, i: nat, j: nat)
    requires GapsAtLeast(table, 0) && i <= j < |table|
    ensures table[i] <= table[j]
  {
    if i < j {
      GapsNonDecreasing(table, i, j - 1);
      var last: int := table[j - 1 + 1];
      assert last - table[j - 1] >= 0;
    }
  }

  /** A gap between neighbours guarantees monotonicity exactly from 2^21 - 5 on: every table with
      gaps that wide is interpolated without a fall, and for any smaller bound some table is not. */
  lemma Q31MonotoneExactlyWhenGap(gap: int)
    ensures (forall table: seq<q31> | 1 <= |table| <= 0x8000_0000 && GapsAtLeast(table, gap) :: MonotoneQ31(table))
            <==> gap >= 0x1F_FFFB
  {
    hide LinearInterpQ31, U32, Index, Fraction;
    if gap >= 0x1F_FFFB {
      forall table: seq<q31> | 1 <= |table| <= 0x8000_0000 && GapsAtLeast(table, gap)
        ensures MonotoneQ31(table)
      {
        WideGapsAreMonotone(table);
      }
    } else {
      var table: seq<q31> := [-0x7FFF_FFFD, -0x7FE0_0003];
      Q31NotMonotoneCounterexample();
      assert GapsAtLeast(table, gap);
      assert !MonotoneQ31(table);
    }
  }

  lemma WideGapsAreMonotone(table: seq<q31>)
    requires 1 <= |table| <= 0x8000_0000 && GapsAtLeast(table, 0x1F_FFFB)
    ensures MonotoneQ31(table)
  {
    hide LinearInterpQ31, U32, Index, SumAt, CarryAt, Fraction;
    forall i, j | 0 <= i <= j < |table|
      ensures table[i] <= table[j]
    {
      GapsNonDecreasing(table, i, j);
    }
    forall x: q31, x': q31 | U32(x) <= U32(x')
      ensures LinearInterpQ31(table, x) <= LinearInterpQ31(table, x')
    {
      Q31FallsExactlyWhen(table, x, x');
      if Index(x) < |table| - 1 && Index(x') < |table| - 1 {
        WideGapHasNoFall(table, x, x');
      }
    }
  }

  lemma WideGapHasNoFall(table: seq<q31>, x: q31, x': q31)
    requires NonDecreasing(table) && GapsAtLeast(table, 0x1F_FFFB)
    requires U32(x) <= U32(x') && Index(x) < |table| - 1 && Index(x') < |table| - 1
    ensures SumAt(table, x) / 0x1_0000_0000 == SumAt(table, x') / 0x1_0000_0000 && CarryAt(table, x')
            ==> CarryAt(table, x)
  {
    hide Index, Fraction, Sum31, Carry31, U32;
    IndexAndFraction(x);
    IndexAndFraction(x');
    SumMonotone(table, x, x');
    var j := Index(x');
    var y0: int, y1: int := table[j], table[j + 1];
    if SumAt(table, x) / 0x1_0000_0000 == SumAt(table, x') / 0x1_0000_0000 && CarryAt(table, x') {
      assert Carry31(y0, y1, Fraction(x') * 0x800);
      if Index(x) == j {
        SegmentHasNoFall(y0, y1, Fraction(x), Fraction(x'));
      } else {
        NodeSum(y0, y1);
        SegmentHasNoFall(y0, y1, 0, Fraction(x'));
        assert false;
      }
    }
  }

  /** Within a segment with so wide a gap: two steps of the fraction carry the sum into the next
      unit, and one step cannot make the dropped fractions add up. */
  lemma SegmentHasNoFall(y0: q31, y1: q31, k: nat, l: nat)
    requires y1 - y0 >= 0x1F_FFFB && k <= l <= 0xF_FFFF
    requires Sum31(y0, y1, k * 0x800) / 0x1_0000_0000 == Sum31(y0, y1, l * 0x800) / 0x1_0000_0000
    requires Carry31(y0, y1, l * 0x800)
    ensures Carry31(y0, y1, k * 0x800)
  {
    hide Sum31, Carry31;
    var d := y1 - y0;
    Sum31Between(y0, y1, k * 0x800, l * 0x800);
    if l >= k + 2 {
      Between(d, 0x1F_FFFB, d, l * 0x800 - k * 0x800);
      assert false;
    } else if l == k + 1 && !Carry31(y0, y1, k * 0x800) {
      AdjacentHaveNoFall(y0, y1, k);
    }
  }

  /** What one step of the fraction does to the dropped fractions p and q of the two halves, when it
      makes them add up to a whole unit: a and b are the two steps modulo 2^32. */
  lemma StepOfFall(p: int, q: int, p': int, q': int, a: int, b: int, d: int)
    requires 0 <= p < 0x1_0000_0000 && 0 <= q < 0x1_0000_0000 && 0 <= a < 0x1_0000_0000
    requires 0 <= p' < 0x1_0000_0000 && 0 <= q' < 0x1_0000_0000 && 0 <= b < 0x1_0000_0000
    requires (p' == p - a || p' == p - a + 0x1_0000_0000) && (q' == q + b || q' == q + b - 0x1_0000_0000)
    requires p' + q' - 0x1_0000_0000 == p + q + d && d > 0
    ensures p < a && q < 0x1_0000_0000 - b && b - a == d
  {
  }

  lemma SteppedModulo(x: int, y: int)
    ensures var p, a, p' := x % 0x1_0000_0000, y % 0x1_0000_0000, (x - y) % 0x1_0000_0000;
            p' == p - a || p' == p - a + 0x1_0000_0000
    ensures var q, b, q' := x % 0x1_0000_0000, y % 0x1_0000_0000, (x + y) % 0x1_0000_0000;
            q' == q + b || q' == q + b - 0x1_0000_0000
  {
    var h, p, k, a := x / 0x1_0000_0000, x % 0x1_0000_0000, y / 0x1_0000_0000, y % 0x1_0000_0000;
    if p >= a {
      DivModUnique(x - y, 0x1_0000_0000, h - k, p - a);
    } else {
      DivModUnique(x - y, 0x1_0000_0000, h - k - 1, p - a + 0x1_0000_0000);
    }
    if p + a < 0x1_0000_0000 {
      DivModUnique(x + y, 0x1_0000_0000, h + k, p + a);
    } else {
      DivModUnique(x + y, 0x1_0000_0000, h + k + 1, p + a - 0x1_0000_0000);
    }
  }

  lemma ShiftedResidue(y: int)
    ensures y * 0x800 % 0x1_0000_0000 == y % 0x20_0000 * 0x800
  {
  }

  lemma AdjacentHaveNoFall(y0: q31, y1: q31, k: nat)
    requires y1 - y0 >= 0x1F_FFFB && k < 0xF_FFFF
    requires Sum31(y0, y1, k * 0x800) / 0x1_0000_0000 == Sum31(y0, y1, (k + 1) * 0x800) / 0x1_0000_0000
    requires Carry31(y0, y1, (k + 1) * 0x800)
    ensures Carry31(y0, y1, k * 0x800)
  {
    if !Carry31(y0, y1, k * 0x800) {
      NextParts(y0, y1, k);
      var x, y := y0 * (0x7FFF_FFFF - k * 0x800), y1 * (k * 0x800);
      FallNeedsSmallParts(x, y, y0, y1);
      hide Sum31, Carry31;
      SmallPartsClash(y0, y1, k);
      assert false;
    }
  }

  lemma NextParts(y0: int, y1: int, k: nat)
    ensures y0 * (0x7FFF_FFFF - (k + 1) * 0x800) == y0 * (0x7FFF_FFFF - k * 0x800) - y0 * 0x800
    ensures y1 * ((k + 1) * 0x800) == y1 * (k * 0x800) + y1 * 0x800
  {
  }

  lemma SmallPartsClash(y0: int, y1: int, k: nat)
    requires y1 - y0 >= 0x1F_FFFB && k < 0xF_FFFF
    requires y0 * (0x7FFF_FFFF - k * 0x800) % 0x1_0000_0000 < y0 % 0x20_0000 * 0x800
    requires y1 % 0x20_0000 - y0 % 0x20_0000 == y1 - y0
    ensures y1 * (k * 0x800) % 0x1_0000_0000 >= 0x1_0000_0000 - y1 % 0x20_0000 * 0x800
  {
    var p, q := y0 * (0x7FFF_FFFF - k * 0x800) % 0x1_0000_0000, y1 * (k * 0x800) % 0x1_0000_0000;
    var i, m := y0 % 0x20_0000, y1 % 0x20_0000;
    if q < 0x1_0000_0000 - m * 0x800 {
      FirstDropped(y0, k, p);
      SecondDropped(y1, k, q);
      NoSmallFall(i, 0x20_0000 - m, k, (p + i) / 0x800, q / 0x800);
      assert false;
    }
  }

  /** When a step makes the dropped fractions add up to a unit while the sum stays in its own. */
  lemma FallNeedsSmallParts(x: int, y: int, y0: int, y1: int)
    requires (x + y) / 0x1_0000_0000 == (x - y0 * 0x800 + (y + y1 * 0x800)) / 0x1_0000_0000
    requires x % 0x1_0000_0000 + y % 0x1_0000_0000 < 0x1_0000_0000 && y0 < y1
    requires (x - y0 * 0x800) % 0x1_0000_0000 + (y + y1 * 0x800) % 0x1_0000_0000 >= 0x1_0000_0000
    ensures x % 0x1_0000_0000 < y0 % 0x20_0000 * 0x800
    ensures y % 0x1_0000_0000 < 0x1_0000_0000 - y1 % 0x20_0000 * 0x800
    ensures y1 % 0x20_0000 - y0 % 0x20_0000 == y1 - y0
  {
    SumsInOneUnit(x, y, y0 * 0x800, y1 * 0x800);
    SteppedModulo(x, y0 * 0x800);
    SteppedModulo(y, y1 * 0x800);
    ShiftedResidue(y0);
    ShiftedResidue(y1);
    StepOfFall(x % 0x1_0000_0000, y % 0x1_0000_0000,
               (x - y0 * 0x800) % 0x1_0000_0000, (y + y1 * 0x800) % 0x1_0000_0000,
               y0 % 0x20_0000 * 0x800, y1 % 0x20_0000 * 0x800, (y1 - y0) * 0x800);
  }

  lemma SumsInOneUnit(x: int, y: int, a: int, b: int)
    requires (x + y) / 0x1_0000_0000 == (x - a + (y + b)) / 0x1_0000_0000
    requires x % 0x1_0000_0000 + y % 0x1_0000_0000 < 0x1_0000_0000
    requires (x - a) % 0x1_0000_0000 + (y + b) % 0x1_0000_0000 >= 0x1_0000_0000
    ensures (x - a) % 0x1_0000_0000 + (y + b) % 0x1_0000_0000 - 0x1_0000_0000
            == x % 0x1_0000_0000 + y % 0x1_0000_0000 + (b - a)
  {
    FloorsOfHalves(x, y);
    FloorsOfHalves(x - a, y + b);
  }

  /** A small dropped fraction of the first half, with the entry a little above a multiple of 2^21. */
  lemma FirstDropped(y0: int, k: nat, p: int)
    requires p == y0 * (0x7FFF_FFFF - k * 0x800) % 0x1_0000_0000
    requires var i := y0 % 0x20_0000; p < i * 0x800 && i < 0x800
    ensures var i := y0 % 0x20_0000; var v := (p + i) / 0x800;
            1 <= v <= i && (v + i * k) % 0x400 == 0
  {
    var n, i, a := y0 / 0x20_0000, y0 % 0x20_0000, y0 * (0x7FFF_FFFF - k * 0x800) / 0x1_0000_0000;
    DigitsOfProduct(y0, n, i, k);
    DivideOut(p + i, i * k, 0x7FFF_FFFF * n - 0x800 * (n * k) + 0x400 * i - 0x800 * a);
  }

  lemma DigitsOfProduct(y: int, n: int, i: int, k: int)
    requires y == 0x20_0000 * n + i
    ensures y * (0x7FFF_FFFF - k * 0x800)
            == 0x20_0000 * (0x7FFF_FFFF * n - 0x800 * (n * k)) + 0x7FFF_FFFF * i - 0x800 * (i * k)
  {
  }

  lemma DivideOut(x: int, y: int, z: int)
    requires x + 0x800 * y == 0x20_0000 * z
    ensures x == x / 0x800 * 0x800 && (x / 0x800 + y) % 0x400 == 0
  {
    assert x == 0x800 * (0x400 * z - y);
    assert x / 0x800 + y == 0x400 * z;
  }

  /** A small dropped fraction of the second half, with the entry a little below one. */
  lemma SecondDropped(y1: int, k: nat, q: int)
    requires q == y1 * (k * 0x800) % 0x1_0000_0000
    requires q < 0x1_0000_0000 - y1 % 0x20_0000 * 0x800
    ensures var j := 0x20_0000 - y1 % 0x20_0000;
            0 <= q / 0x800 < j && (q / 0x800 + j * k) % 0x20_0000 == 0
  {
    var n, j := y1 / 0x20_0000 + 1, 0x20_0000 - y1 % 0x20_0000;
    assert y1 == 0x20_0000 * n - j;
    Regrouped(y1, n, j, k);
    ShiftedResidue(y1 * k);
    var r, z := y1 * k % 0x20_0000, y1 * k / 0x20_0000;
    assert q == r * 0x800 && r + j * k == 0x20_0000 * (n * k - z);
    DivModUnique(r + j * k, 0x20_0000, n * k - z, 0);
  }

  lemma Regrouped(y: int, n: int, j: int, k: int)
    requires y == 0x20_0000 * n - j
    ensures y * (k * 0x800) == y * k * 0x800 && y * k == 0x20_0000 * (n * k) - j * k
  {
  }

  /** No fraction meets both residue conditions when the residues sum to 5 or less. */
  lemma NoSmallFall(i: int, j: int, k: nat, v: int, w: int)
    requires 1 <= i && 1 <= j && i + j <= 5 && k < 0xF_FFFF
    requires 1 <= v <= i
    requires 0 <= w < j && (w + j * k) % 0x20_0000 == 0
    ensures (v + i * k) % 0x400 != 0
  {
    if j == 3 && k != 0 {
      assert k == 699050;
      assert i == 1 || i == 2;
    } else if j == 4 {
      assert i == 1;
      assert k == 0 || k == 0x8_0000;
    } else {
      assert k == 0;
    }
  }

  /** A gap of 2^21 - 6 is not enough: on such a table the output falls from one input to the next. */
  lemma Q31NotMonotoneCounterexample()
    ensures var table: seq<q31> := [-0x7FFF_FFFD, -0x7FE0_0003];
            GapsAtLeast(table, 0x1F_FFFA) && U32(699050) <= U32(699051)
            && LinearInterpQ31(table, 699050) == -2146085548 && LinearInterpQ31(table, 699051) == -2146085550
  {
    hide Index, Fraction, I32, LinearInterpQ31;
    var table: seq<q31> := [-0x7FFF_FFFD, -0x7FE0_0003];
    IndexAndFraction(699050);
    IndexAndFraction(699051);
    Q31Accurate(table, 699050);
    Q31Accurate(table, 699051);
  }

  // ---------------------------------------------------------------- Q31 below the range

  /** The value between two neighbours at fraction k, without conversions. */
  function Halves31(y0: int, y1: int, k: int): int {
    2 * (y0 * (0x7FFF_FFFF - k * 0x800) / 0x1_0000_0000 + y1 * (k * 0x800) / 0x1_0000_0000)
  }

  /** As in Q15, a negative input is read as one beyond segment 2047: the last entry of a table of up
      to 2049 entries, an interpolated value in a longer one. */
  lemma Q31NegativeInputExactlyWhen(table: seq<q31>, x: q31)
    requires 1 <= |table| <= 0x8000_0000 && x < 0
    ensures var i, k := 0x1000 + x / 0x10_0000, x % 0x10_0000;
            LinearInterpQ31(table, x)
            == if i >= |table| - 1 then table[|table| - 1] else Halves31(table[i], table[i + 1], k)
    ensures |table| <= 2049 ==>
              (LinearInterpQ31(table, x) == table[0] <==> table[0] == table[|table| - 1])
  {
    hide Index, Fraction, Blend31;
    IndexAndFraction(x);
    if Index(x) < |table| - 1 {
      Q31Accurate(table, x);
    }
  }

  /** The part of a table that only negative inputs reach holds the first entry, up to what the
      halving of a node drops. In Q31 that entry must moreover be a multiple of 2^21, or the two
      halves drop a unit somewhere between the nodes. */
  predicate RepeatsFirst31(table: seq<q31>)
    requires |table| >= 1
  {
    var c: int := table[0];
    && table[|table| - 1] == c
    && (|table| > 2049 ==>
          && c <= 0 && c % 0x20_0000 == 0
          && forall k | 2048 <= k < |table| :: c <= table[k] <= if c == 0 then 2 else c + 1)
  }

  /** Every documented table size: all negative inputs return the first entry exactly when the table
      repeats it so. */
  lemma Q31NegativeInputsExactlyWhen(table: seq<q31>)
    requires 1 <= |table| <= 0x1000
    ensures (forall x: q31 | x < 0 :: LinearInterpQ31(table, x) == table[0]) <==> RepeatsFirst31(table)
  {
    hide LinearInterpQ31, Halves31;
    var n, c: int := |table| - 1, table[0];
    if RepeatsFirst31(table) {
      forall x: q31 | x < 0
        ensures LinearInterpQ31(table, x) == table[0]
      {
        Q31NegativeInputExactlyWhen(table, x);
        var i, k := 0x1000 + x / 0x10_0000, x % 0x10_0000;
        if i < n {
          FlatHalves(table[i], table[i + 1], -c / 0x20_0000, k);
        }
      }
    }
    if forall x: q31 | x < 0 :: LinearInterpQ31(table, x) == table[0] {
      hide RepeatsFirst31;
      ReadAt(table, if n < 2048 then 2048 else n, 0);
      if n > 2048 {
        TailIsFlat(table);
      } else {
        ShortTable(table);
      }
    }
  }

  lemma ShortTable(table: seq<q31>)
    requires 1 <= |table| <= 2049 && table[|table| - 1] == table[0]
    ensures RepeatsFirst31(table)
  {
  }

  lemma ReadAt(table: seq<q31>, i: nat, k: nat)
    requires 1 <= |table| <= 0x1000 && 0x800 <= i < 0x1000 && k < 0x10_0000
    requires forall x: q31 | x < 0 :: LinearInterpQ31(table, x) == table[0]
    ensures table[0] == if i >= |table| - 1 then table[|table| - 1] else Halves31(table[i], table[i + 1], k)
  {
    hide LinearInterpQ31, Halves31;
    var x: q31 := NegativeInput(i, k);
    Q31NegativeInputExactlyWhen(table, x);
  }

  lemma TailIsFlat(table: seq<q31>)
    requires 2049 < |table| <= 0x1000 && table[|table| - 1] == table[0]
    requires forall x: q31 | x < 0 :: LinearInterpQ31(table, x) == table[0]
    ensures RepeatsFirst31(table)
  {
    hide LinearInterpQ31, Halves31, OddFraction;
    var n, c: int := |table| - 1, table[0];
    forall k | 2048 <= k < n
      ensures NodeOf(table[k], c)
    {
      ReadAt(table, k, 0);
      NodeEntry(table[k], table[k + 1], c);
    }
    assert NodeOf(table[n - 1], c);
    if c > 0 {
      ReadAt(table, n - 1, 0xF_FFFF);
      PositiveDropsUnit(table[n - 1], c / 2);
      assert false;
    } else if c / 2 % 0x10_0000 != 0 {
      ReadAt(table, n - 1, OddFraction(-(c / 2)));
      NegativeDropsUnit(table[n - 1], c / 2);
      assert false;
    }
  }

  /** The entries that a node turns into c. */
  predicate NodeOf(y: int, c: int) {
    c % 2 == 0 && if c < 0 then c <= y <= c + 1 else if c == 0 then 0 <= y <= 2 else c + 1 <= y <= c + 2
  }

  lemma NodeEntry(y0: q31, y1: q31, c: int)
    requires Halves31(y0, y1, 0) == c
    ensures NodeOf(y0, c)
  {
    assert y1 * (0 * 0x800) == 0;
  }

  /** A flat tail at a multiple of 2^21 that is not positive is interpolated exactly. */
  lemma FlatHalves(y0: q31, y1: q31, m: nat, k: nat)
    requires k <= 0xF_FFFF && m <= 0x400
    requires var c := -0x20_0000 * m;
             c <= y0 <= (if c == 0 then 2 else c + 1) && c <= y1 <= (if c == 0 then 2 else c + 1)
    ensures Halves31(y0, y1, k) == -0x20_0000 * m
  {
    var t, u, g := y0 + 0x20_0000 * m, y1 + 0x20_0000 * m, 0x7FFF_FFFF - k * 0x800;
    Between(t, 0, if m == 0 then 2 else 1, g);
    Between(u, 0, if m == 0 then 2 else 1, k * 0x800);
    FirstProduct(y0, t, m, k);
    SecondProduct(y1, u, m, k);
    DivModUnique(y0 * g, 0x1_0000_0000, m * k - 0x10_0000 * m, 0x20_0000 * m + t * g);
    DivModUnique(y1 * (k * 0x800), 0x1_0000_0000, -(m * k), u * (k * 0x800));
  }

  lemma FirstProduct(y: int, t: int, m: int, k: int)
    requires y == t - 0x20_0000 * m
    ensures var g := 0x7FFF_FFFF - k * 0x800;
            y * g == 0x1_0000_0000 * (m * k - 0x10_0000 * m) + 0x20_0000 * m + t * g
  {
    var g := 0x7FFF_FFFF - k * 0x800;
    assert y * g == t * g - 0x20_0000 * (m * g);
    assert m * g == 0x7FFF_FFFF * m - 0x800 * (m * k);
  }

  lemma SecondProduct(y: int, u: int, m: int, k: int)
    requires y == u - 0x20_0000 * m
    ensures y * (k * 0x800) == 0x1_0000_0000 * -(m * k) + u * (k * 0x800)
  {
    assert y * (k * 0x800) == u * (k * 0x800) - 0x20_0000 * m * (k * 0x800);
    assert 0x20_0000 * m * (k * 0x800) == 0x1_0000_0000 * (m * k);
  }

  /** Just before a positive last entry 2 * d the halves lose a unit. */
  lemma PositiveDropsUnit(y: int, d: int)
    requires d > 0 && y <= 2 * d + 2 && 2 * d < 0x8000_0000
    ensures Halves31(y, 2 * d, 0xF_FFFF) < 2 * d
  {
  }

  /** The fraction at which a unit is lost before a negative last entry -2 * e that is not a multiple
      of 2^21. */
  function OddFraction(e: nat): (k: nat)
    requires e % 0x10_0000 != 0
    ensures k <= 0xF_FFFF
  {
    var j := 0xF_FFFF / (e % 0x10_0000);
    QuotientOfTop(e % 0x10_0000, j);
    0x10_0000 - j
  }

  lemma QuotientOfTop(w: nat, j: int)
    requires 0 < w < 0x10_0000 && j == 0xF_FFFF / w
    ensures 1 <= j <= 0xF_FFFF && 0x10_0000 - w <= w * j <= 0xF_FFFF
  {
    assert 0xF_FFFF == w * j + 0xF_FFFF % w;
    if j < 1 {
      MulNonneg(w, -j);
      assert false;
    }
    MulNonneg(w - 1, j);
    assert (w - 1) * j == w * j - j;
  }

  lemma NegativeDropsUnit(y: int, d: int)
    requires -0x4000_0000 <= d < 0 && d % 0x10_0000 != 0 && y <= 2 * d + 1 && -d % 0x10_0000 != 0
    ensures Halves31(y, 2 * d, OddFraction(-d)) < 2 * d
  {
    var e := -d;
    var m, w := e / 0x10_0000, e % 0x10_0000;
    var j := 0xF_FFFF / w;
    QuotientOfTop(w, j);
    var g := 0x800 * j - 1;
    SplitFactor(e, m, w, j);
    Between(y, y, 2 * d + 1, g);
    EnoughDropped(m, w, j);
    BelowFloors(y * g, 2 * d * (0x8000_0000 - 0x800 * j), m * j, e, w * j);
  }

  /** Both products in terms of the digits of e. */
  lemma SplitFactor(e: int, m: int, w: int, j: int)
    requires e == 0x10_0000 * m + w
    ensures (1 - 2 * e) * (0x800 * j - 1) == -0x1_0000_0000 * (m * j) - 0x1000 * (w * j) + 2 * e + 0x800 * j - 1
    ensures -2 * e * (0x8000_0000 - 0x800 * j) == 0x1_0000_0000 * (m * j - e) + 0x1000 * (w * j)
  {
    assert e * j == 0x10_0000 * (m * j) + w * j;
    assert (1 - 2 * e) * (0x800 * j - 1) == -0x1000 * (e * j) + 2 * e + 0x800 * j - 1;
    assert -2 * e * (0x8000_0000 - 0x800 * j) == 0x1000 * (e * j) - 0x1_0000_0000 * e;
  }

  /** The first half falls just short of the unit the second one needs. */
  lemma EnoughDropped(m: int, w: int, j: int)
    requires 0 < w < 0x10_0000 && 1 <= j && 0x10_0000 - w <= w * j <= 0xF_FFFF && 0 <= m
    requires 0x10_0000 * m + w <= 0x4000_0000 && j == 0xF_FFFF / w
    ensures 0x1000 * (w * j) - 2 * (0x10_0000 * m + w) - 0x800 * j + 1 > 0
  {
    if w == 1 {
      assert j == 0xF_FFFF;
    } else if w <= 0x4_0000 {
      MulNonneg(w - 2, j);
      assert (w - 2) * j == w * j - 2 * j;
    } else {
      MulNonneg(w - 0x4_0001, j);
      assert (w - 0x4_0001) * j == w * j - 0x4_0001 * j;
      assert j <= 3;
    }
  }

  lemma BelowFloors(p: int, q: int, h: int, e: int, l: int)
    requires p < -0x1_0000_0000 * h && q == 0x1_0000_0000 * (h - e) + 0x1000 * l && 0 <= l < 0x10_0000
    ensures p / 0x1_0000_0000 + q / 0x1_0000_0000 < -e
  {
  }
}
