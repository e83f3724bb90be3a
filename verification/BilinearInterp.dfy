/** Bilinear interpolation in a fixed-point table, coordinates in 12.20 format. The table is organised in
    row order: element (x, y) is in column x of row y, at x + y * numCols. */
module BilinearInterp {
  import opened Arith
  import opened CInt
  import opened LinearInterp

  datatype Grid<+T> = Grid(numRows: u16, numCols: u16, data: seq<T>)

  // ---------------------------------------------------------------- the documented table

  /** The array the instance is documented to point to. */
  predicate Complete(s: Grid<int>) { |s.data| == s.numRows * s.numCols }

  /** The integer part of a coordinate, negative below zero. */
  function Floor(x: q31): int { x / 0x10_0000 }

  /** A point with four neighbours in the table: columns Floor(x), Floor(x) + 1 of rows Floor(y),
      Floor(y) + 1. */
  predicate Interior(s: Grid<int>, x: q31, y: q31) {
    0 <= Floor(x) < s.numCols - 1 && 0 <= Floor(y) < s.numRows - 1
  }

  /** A point of the table: an interior one, or one on its last column or row, where the neighbours
      beyond have weight zero. */
  predicate OnTable(s: Grid<int>, x: q31, y: q31) {
    && 0 <= Floor(x) < s.numCols && (Floor(x) == s.numCols - 1 ==> Fraction(x) == 0)
    && 0 <= Floor(y) < s.numRows && (Floor(y) == s.numRows - 1 ==> Fraction(y) == 0)
  }

  /** A point whose integer part is not an element of the table. */
  predicate Beyond(s: Grid<int>, x: q31, y: q31) {
    !(0 <= Floor(x) < s.numCols && 0 <= Floor(y) < s.numRows)
  }

  /** Element (i, j) of the table: column i of row j. */
  function Element(s: Grid<int>, i: nat, j: nat): int
    requires Complete(s) && i < s.numCols && j < s.numRows
  {
    ElementInTable(s, i, j);
    s.data[i + j * s.numCols]
  }

  lemma ElementInTable(s: Grid<int>, i: nat, j: nat)
    requires Complete(s) && i < s.numCols && j < s.numRows
    ensures 0 <= i + j * s.numCols < |s.data|
  {
    MulNonneg(j, s.numCols);
    MulNonneg(s.numRows - 1 - j, s.numCols);
    assert (s.numRows - 1 - j) * s.numCols == s.numRows * s.numCols - s.numCols - j * s.numCols;
  }

  /** A neighbour; any value will do for one beyond the table, where the weight is zero. */
  function Neighbour(s: Grid<int>, i: nat, j: nat): int
    requires Complete(s)
  {
    if i < s.numCols && j < s.numRows then Element(s, i, j) else 0
  }

  /** The documented sum for a point: f(XF, YF), f(XF+1, YF), f(XF, YF+1) and f(XF+1, YF+1), weighted
      by the fractions f and g out of m. */
  function Documented(m: int, s: Grid<int>, x: q31, y: q31, f: int, g: int): int
    requires Complete(s) && OnTable(s, x, y)
  {
    var i, j := Floor(x), Floor(y);
    Weighted(m, Neighbour(s, i, j), Neighbour(s, i + 1, j), Neighbour(s, i, j + 1), Neighbour(s, i + 1, j + 1), f, g)
  }

  // ---------------------------------------------------------------- what the code reads

  /** The code's boundary test: it compares the column with the number of rows and the row with the
      number of columns. */
  predicate Rejected(s: Grid<int>, x: q31, y: q31) {
    Index(x) > s.numRows - 1 || Index(y) > s.numCols - 1
  }

  /** Where the code reads its four neighbours; `k` is 0 or 1 along the row, `l` along the column. */
  function Cell(s: Grid<int>, x: q31, y: q31, k: nat, l: nat): nat {
    MulNonneg(s.numCols, Index(y) + l);
    Index(x) + k + s.numCols * (Index(y) + l)
  }

  /** A point whose four neighbours are all in memory. */
  predicate Readable(s: Grid<int>, x: q31, y: q31) {
    Cell(s, x, y, 1, 1) < |s.data|
  }

  lemma ReadableIs(s: Grid<int>, x: q31, y: q31)
    ensures Readable(s, x, y) <==> Index(x) + 1 + s.numCols * (Index(y) + 1) < |s.data|
  {
    hide Index;
  }

  /** The row below the last is not in memory. */
  lemma ReadableRow(s: Grid<int>, x: q31, y: q31)
    requires Complete(s) && Readable(s, x, y)
    ensures Index(y) + 1 < s.numRows
  {
    hide Index, Readable;
    ReadableIs(s, x, y);
    if Index(y) + 1 >= s.numRows {
      Between(s.numRows, s.numRows, Index(y) + 1, s.numCols);
      assert false;
    }
  }

  /** An interior point reads inside the table. */
  lemma InteriorReadable(s: Grid<int>, x: q31, y: q31)
    requires Complete(s) && Interior(s, x, y)
    ensures Readable(s, x, y)
  {
    hide Index, Readable;
    IndexAndFraction(x);
    IndexAndFraction(y);
    ElementInTable(s, Index(x) + 1, Index(y) + 1);
    ReadableIs(s, x, y);
    assert s.numCols * (Index(y) + 1) == (Index(y) + 1) * s.numCols;
  }

  /** Neighbours in the table are read where the documentation stores them. */
  lemma CellIsNeighbour(s: Grid<int>, x: q31, y: q31, k: nat, l: nat)
    requires k <= 1 && l <= 1 && Complete(s) && OnTable(s, x, y) && Readable(s, x, y)
    ensures Cell(s, x, y, k, l) < |s.data|
    ensures Floor(x) + k < s.numCols ==> s.data[Cell(s, x, y, k, l)] == Neighbour(s, Floor(x) + k, Floor(y) + l)
  {
    hide Index, Fraction, Readable, Complete, Cell;
    IndexAndFraction(x);
    IndexAndFraction(y);
    ReadableRow(s, x, y);
    CellBelow(s, x, y, k, l);
    CellIs(s, x, y, k, l);
  }

  lemma CellIs(s: Grid<int>, x: q31, y: q31, k: nat, l: nat)
    ensures Cell(s, x, y, k, l) == Index(x) + k + (Index(y) + l) * s.numCols
  {
    hide Index;
    assert s.numCols * (Index(y) + l) == (Index(y) + l) * s.numCols;
  }

  lemma CellBelow(s: Grid<int>, x: q31, y: q31, k: nat, l: nat)
    requires k <= 1 && l <= 1 && Readable(s, x, y)
    ensures Cell(s, x, y, k, l) < |s.data|
  {
    hide Index, Cell, Readable;
    CellsBelow(s, x, y);
    assert (k == 0 || k == 1) && (l == 0 || l == 1);
  }

  /** The code's four reads, weighted, are the documented sum: on the last column the right-hand reads
      are the first elements of the next rows, and have weight zero. */
  lemma ReadsAreDocumented(m: int, s: Grid<int>, x: q31, y: q31, f: int, g: int)
    requires Complete(s) && OnTable(s, x, y) && Readable(s, x, y) && (Fraction(x) == 0 ==> f == 0)
    ensures Cell(s, x, y, 0, 0) < |s.data| && Cell(s, x, y, 1, 0) < |s.data|
    ensures Cell(s, x, y, 0, 1) < |s.data| && Cell(s, x, y, 1, 1) < |s.data|
    ensures Weighted(m, s.data[Cell(s, x, y, 0, 0)], s.data[Cell(s, x, y, 1, 0)],
                     s.data[Cell(s, x, y, 0, 1)], s.data[Cell(s, x, y, 1, 1)], f, g)
            == Documented(m, s, x, y, f, g)
  {
    hide Index, Fraction, Readable, Cell, Weighted, Neighbour;
    CellIsNeighbour(s, x, y, 0, 0);
    CellIsNeighbour(s, x, y, 1, 0);
    CellIsNeighbour(s, x, y, 0, 1);
    CellIsNeighbour(s, x, y, 1, 1);
    if Floor(x) == s.numCols - 1 {
      var i, j := Floor(x), Floor(y);
      RightWeightless(m, Neighbour(s, i, j), s.data[Cell(s, x, y, 1, 0)], Neighbour(s, i, j + 1),
                      s.data[Cell(s, x, y, 1, 1)], Neighbour(s, i + 1, j), Neighbour(s, i + 1, j + 1), g);
    }
  }

  lemma RightWeightless(m: int, x1: int, x2: int, y1: int, y2: int, x2': int, y2': int, g: int)
    ensures Weighted(m, x1, x2, y1, y2, 0, g) == Weighted(m, x1, x2', y1, y2', 0, g)
  {
    assert (m - g) * 0 == 0 && 0 * g == 0;
  }

  // ---------------------------------------------------------------- the weights

  /** The untruncated weighted sum of the four neighbours, fractions f and g out of m. */
  function Weighted(m: int, x1: int, x2: int, y1: int, y2: int, f: int, g: int): int {
    x1 * ((m - f) * (m - g)) + x2 * ((m - g) * f) + y1 * ((m - f) * g) + y2 * (f * g)
  }

  lemma WeightsSum(m: int, f: int, g: int)
    requires 0 <= f <= m && 0 <= g <= m
    ensures (m - f) * (m - g) + (m - g) * f + (m - f) * g + f * g == m * m
    ensures (m - f) * (m - g) >= 0 && (m - g) * f >= 0 && (m - f) * g >= 0 && f * g >= 0
  {
    MulNonneg(m - f, m - g);
    MulNonneg(m - g, f);
    MulNonneg(m - f, g);
    MulNonneg(f, g);
    assert (m - f) * (m - g) == m * m - m * f - m * g + f * g;
    assert (m - g) * f == m * f - f * g;
    assert (m - f) * g == m * g - f * g;
  }

  /** The weights are non-negative and add up to m^2, so the sum lies between the extremes. */
  lemma WeightedBetween(m: int, x1: int, x2: int, y1: int, y2: int, f: int, g: int, lo: int, hi: int)
    requires 0 <= f <= m && 0 <= g <= m
    requires lo <= x1 <= hi && lo <= x2 <= hi && lo <= y1 <= hi && lo <= y2 <= hi
    ensures lo * (m * m) <= Weighted(m, x1, x2, y1, y2, f, g) <= hi * (m * m)
  {
    var a, b, c, d := (m - f) * (m - g), (m - g) * f, (m - f) * g, f * g;
    WeightsSum(m, f, g);
    Between(x1, lo, hi, a);
    Between(x2, lo, hi, b);
    Between(y1, lo, hi, c);
    Between(y2, lo, hi, d);
    FourTimes(lo, a, b, c, d);
    FourTimes(hi, a, b, c, d);
  }

  lemma FourTimes(m: int, a: int, b: int, c: int, d: int)
    ensures m * a + m * b + m * c + m * d == m * (a + b + c + d)
  {
  }

  // ---------------------------------------------------------------- Q15

  /** Each neighbour times its first weight, shifted down by 4 to 32 bits, times its second weight. */
  function Term15(v: q15, first: nat, second: nat): q63 {
    I64(I32(v * first / 0x10) * second)
  }

  function Blend15(x1: q15, x2: q15, y1: q15, y2: q15, f: nat, g: nat): q15
    requires f <= 0xF_FFFF && g <= 0xF_FFFF
  {
    var acc := Term15(x1, 0xF_FFFF - f, 0xF_FFFF - g);
    var acc := I64(acc + Term15(x2, 0xF_FFFF - g, f));
    var acc := I64(acc + Term15(y1, 0xF_FFFF - f, g));
    var acc := I64(acc + Term15(y2, f, g));
    I16(acc / 0x10_0000_0000)
  }

  function BilinearQ15(s: Grid<q15>, x: q31, y: q31): q15
    requires !Rejected(s, x, y) ==> Readable(s, x, y)
  {
    FractionBound(x);
    FractionBound(y);
    if Rejected(s, x, y) then 0
    else
      CellsBelow(s, x, y);
      Blend15(s.data[Cell(s, x, y, 0, 0)], s.data[Cell(s, x, y, 1, 0)],
              s.data[Cell(s, x, y, 0, 1)], s.data[Cell(s, x, y, 1, 1)], Fraction(x), Fraction(y))
  }

  lemma FractionBound(x: q31)
    ensures Fraction(x) <= 0xF_FFFF
  {
    IndexAndFraction(x);
  }

  lemma CellsBelow(s: Grid<int>, x: q31, y: q31)
    requires Readable(s, x, y)
    ensures Cell(s, x, y, 0, 0) < |s.data| && Cell(s, x, y, 1, 0) < |s.data|
    ensures Cell(s, x, y, 0, 1) < |s.data| && Cell(s, x, y, 1, 1) < |s.data|
  {
    hide Index;
    assert s.numCols * (Index(y) + 1) == s.numCols * (Index(y) + 0) + s.numCols;
  }

  /** One term: no conversion loses a bit, and the shift drops less than 16 times the weight. */
  lemma Term15Exact(v: q15, first: nat, second: nat)
    requires first <= 0xF_FFFF && second <= 0xF_FFFF
    ensures var t := Term15(v, first, second);
            t == v * first / 0x10 * second
            && 0x10 * t <= v * (first * second) <= 0x10 * t + 15 * second
            && -0x8_0000_0000_0000 <= t <= 0x8_0000_0000_0000
  {
    hide I32, I64;
    ProductBound(v, first, 0x8000, 0xF_FFFF);
    var h, r := v * first / 0x10, v * first % 0x10;
    I32Exact(h);
    ProductBound(h, second, 0x8000_0000, 0xF_FFFF);
    I64Exact(h * second);
    assert v * (first * second) == (0x10 * h + r) * second by {
      assert v * (first * second) == v * first * second;
    }
    assert (0x10 * h + r) * second == 0x10 * (h * second) + r * second;
    Between(r, 0, 15, second);
  }

  /** Q15: with W the untruncated weighted sum, the result is the floor of W / 2^40 or one less, and
      lies within one below the smallest and the largest neighbour. */
  lemma Blend15Accurate(x1: q15, x2: q15, y1: q15, y2: q15, f: nat, g: nat, lo: q15, hi: q15)
    requires f <= 0xF_FFFF && g <= 0xF_FFFF
    requires lo <= x1 <= hi && lo <= x2 <= hi && lo <= y1 <= hi && lo <= y2 <= hi
    ensures var r, w := Blend15(x1, x2, y1, y2, f, g), Weighted(0xF_FFFF, x1, x2, y1, y2, f, g);
            && (r == w / 0x100_0000_0000 || r == w / 0x100_0000_0000 - 1)
            && lo - 1 <= r <= hi
  {
    hide Term15, Weighted, I64, I16;
    var t1: int, t2: int := Term15(x1, 0xF_FFFF - f, 0xF_FFFF - g), Term15(x2, 0xF_FFFF - g, f);
    var t3: int, t4: int := Term15(y1, 0xF_FFFF - f, g), Term15(y2, f, g);
    TermsTrackSum(x1, x2, y1, y2, f, g, t1, t2, t3, t4);
    WeightedBetween(0xF_FFFF, x1, x2, y1, y2, f, g, lo, hi);
    I64Exact(t1 + t2);
    I64Exact(t1 + t2 + t3);
    I64Exact(t1 + t2 + t3 + t4);
    FinalShift15(t1 + t2 + t3 + t4, Weighted(0xF_FFFF, x1, x2, y1, y2, f, g), lo, hi);
  }

  /** Q15 exactly: the only losses are the four first shifts and the final one. */
  lemma Blend15Is(x1: q15, x2: q15, y1: q15, y2: q15, f: nat, g: nat)
    requires f <= 0xF_FFFF && g <= 0xF_FFFF
    ensures var f', g' := 0xF_FFFF - f, 0xF_FFFF - g;
            Blend15(x1, x2, y1, y2, f, g)
            == (x1 * f' / 0x10 * g' + x2 * g' / 0x10 * f + y1 * f' / 0x10 * g + y2 * f / 0x10 * g) / 0x10_0000_0000
  {
    hide Term15, Blend15;
    Blend15OfTerms(x1, x2, y1, y2, f, g);
    Term15Is(x1, 0xF_FFFF - f, 0xF_FFFF - g);
    Term15Is(x2, 0xF_FFFF - g, f);
    Term15Is(y1, 0xF_FFFF - f, g);
    Term15Is(y2, f, g);
  }

  lemma Term15Is(v: q15, first: nat, second: nat)
    requires first <= 0xF_FFFF && second <= 0xF_FFFF
    ensures Term15(v, first, second) == v * first / 0x10 * second
  {
    hide Term15;
    Term15Exact(v, first, second);
  }

  lemma Blend15OfTerms(x1: q15, x2: q15, y1: q15, y2: q15, f: nat, g: nat)
    requires f <= 0xF_FFFF && g <= 0xF_FFFF
    ensures Blend15(x1, x2, y1, y2, f, g)
            == (Term15(x1, 0xF_FFFF - f, 0xF_FFFF - g) + Term15(x2, 0xF_FFFF - g, f)
                + Term15(y1, 0xF_FFFF - f, g) + Term15(y2, f, g)) / 0x10_0000_0000
  {
    hide Term15, Weighted, I64, I16;
    var t1: int, t2: int := Term15(x1, 0xF_FFFF - f, 0xF_FFFF - g), Term15(x2, 0xF_FFFF - g, f);
    var t3: int, t4: int := Term15(y1, 0xF_FFFF - f, g), Term15(y2, f, g);
    TermsTrackSum(x1, x2, y1, y2, f, g, t1, t2, t3, t4);
    WeightedBetween(0xF_FFFF, x1, x2, y1, y2, f, g, -0x8000, 0x7FFF);
    I64Exact(t1 + t2);
    I64Exact(t1 + t2 + t3);
    I64Exact(t1 + t2 + t3 + t4);
    FinalShift15(t1 + t2 + t3 + t4, Weighted(0xF_FFFF, x1, x2, y1, y2, f, g), -0x8000, 0x7FFF);
  }

  lemma TermsTrackSum(x1: q15, x2: q15, y1: q15, y2: q15, f: nat, g: nat, t1: int, t2: int, t3: int, t4: int)
    requires f <= 0xF_FFFF && g <= 0xF_FFFF
    requires t1 == Term15(x1, 0xF_FFFF - f, 0xF_FFFF - g) && t2 == Term15(x2, 0xF_FFFF - g, f)
    requires t3 == Term15(y1, 0xF_FFFF - f, g) && t4 == Term15(y2, f, g)
    ensures
            && 0x10 * (t1 + t2 + t3 + t4) <= Weighted(0xF_FFFF, x1, x2, y1, y2, f, g)
                 <= 0x10 * (t1 + t2 + t3 + t4) + 0x3FF_FFFF
            && -0x10_0000_0000_0000 <= t1 + t2 <= 0x10_0000_0000_0000
            && -0x18_0000_0000_0000 <= t1 + t2 + t3 <= 0x18_0000_0000_0000
            && -0x20_0000_0000_0000 <= t1 + t2 + t3 + t4 <= 0x20_0000_0000_0000
  {
    hide Term15;
    Term15Exact(x1, 0xF_FFFF - f, 0xF_FFFF - g);
    Term15Exact(x2, 0xF_FFFF - g, f);
    Term15Exact(y1, 0xF_FFFF - f, g);
    Term15Exact(y2, f, g);
  }

  lemma FinalShift15(acc: int, w: int, lo: q15, hi: q15)
    requires 0x10 * acc <= w <= 0x10 * acc + 0x3FF_FFFF
    requires lo * (0xF_FFFF * 0xF_FFFF) <= w <= hi * (0xF_FFFF * 0xF_FFFF)
    ensures var r := acc / 0x10_0000_0000;
            I16(r) == r
            && (r == w / 0x100_0000_0000 || r == w / 0x100_0000_0000 - 1)
            && lo - 1 <= r <= hi
  {
    hide I16;
    ScaledRange(acc, w, lo, hi);
    I16Exact(acc / 0x10_0000_0000);
  }

  lemma ScaledRange(acc: int, w: int, lo: int, hi: int)
    requires 0x10 * acc <= w <= 0x10 * acc + 0x3FF_FFFF
    requires -0x8000 <= lo && hi < 0x8000
    requires lo * 0xFF_FFE0_0001 <= w <= hi * 0xFF_FFE0_0001
    ensures var r := acc / 0x10_0000_0000;
            (r == w / 0x100_0000_0000 || r == w / 0x100_0000_0000 - 1) && lo - 1 <= r <= hi
            && -0x8000 <= r < 0x8000
  {
    if acc < -0x8000 * 0x10_0000_0000 {
      assert false;
    }
  }

  /** The function on a whole table, at every point whose reads are in memory: on the table, if the
      boundary test lets it through, the documented sum, rounded down or one less; and everywhere
      within one below the table's range, or zero. Beyond a square table it is zero. */
  lemma BilinearQ15Accurate(s: Grid<q15>, x: q31, y: q31, lo: q15, hi: q15)
    requires Complete(s) && (!Rejected(s, x, y) ==> Readable(s, x, y))
    requires forall k | 0 <= k < |s.data| :: lo <= s.data[k] <= hi
    ensures s.numRows == s.numCols <= 0x800 && Beyond(s, x, y) ==> BilinearQ15(s, x, y) == 0
    ensures Rejected(s, x, y) ==> BilinearQ15(s, x, y) == 0
    ensures !Rejected(s, x, y) ==> lo - 1 <= BilinearQ15(s, x, y) <= hi
    ensures !Rejected(s, x, y) && OnTable(s, x, y) ==>
              var r := BilinearQ15(s, x, y);
              var w := Documented(0xF_FFFF, s, x, y, Fraction(x), Fraction(y));
              r == w / 0x100_0000_0000 || r == w / 0x100_0000_0000 - 1
  {
    hide Blend15, Weighted, Index, Fraction, Documented, Cell, Readable;
    IndexAndFraction(x);
    IndexAndFraction(y);
    if !Rejected(s, x, y) {
      CellsBelow(s, x, y);
      Blend15Accurate(s.data[Cell(s, x, y, 0, 0)], s.data[Cell(s, x, y, 1, 0)],
                      s.data[Cell(s, x, y, 0, 1)], s.data[Cell(s, x, y, 1, 1)],
                      Fraction(x), Fraction(y), lo, hi);
      if OnTable(s, x, y) {
        ReadsAreDocumented(0xF_FFFF, s, x, y, Fraction(x), Fraction(y));
      }
    }
  }

  // ---------------------------------------------------------------- Q7

  function Term7(v: q7, first: nat, second: nat): q63 {
    I64(I32(v * first) * second)
  }

  function Blend7(x1: q7, x2: q7, y1: q7, y2: q7, f: nat, g: nat): q7
    requires f <= 0xF_FFFF && g <= 0xF_FFFF
  {
    var acc := Term7(x1, 0xF_FFFF - f, 0xF_FFFF - g);
    var acc := I64(acc + Term7(x2, 0xF_FFFF - g, f));
    var acc := I64(acc + Term7(y1, 0xF_FFFF - f, g));
    var acc := I64(acc + Term7(y2, g, f));
    I8(acc / 0x100_0000_0000)
  }

  function BilinearQ7(s: Grid<q7>, x: q31, y: q31): q7
    requires !Rejected(s, x, y) ==> Readable(s, x, y)
  {
    FractionBound(x);
    FractionBound(y);
    if Rejected(s, x, y) then 0
    else
      CellsBelow(s, x, y);
      Blend7(s.data[Cell(s, x, y, 0, 0)], s.data[Cell(s, x, y, 1, 0)],
             s.data[Cell(s, x, y, 0, 1)], s.data[Cell(s, x, y, 1, 1)], Fraction(x), Fraction(y))
  }

  lemma Term7Exact(v: q7, first: nat, second: nat)
    requires first <= 0xF_FFFF && second <= 0xF_FFFF
    ensures Term7(v, first, second) == v * (first * second)
    ensures -0x8_0000_0000_0000 <= Term7(v, first, second) <= 0x8_0000_0000_0000
  {
    hide I32, I64;
    ProductBound(v, first, 0x80, 0xF_FFFF);
    I32Exact(v * first);
    ProductBound(v * first, second, 0x7FF_FF80, 0xF_FFFF);
    I64Exact(v * first * second);
    assert v * (first * second) == v * first * second;
  }

  /** Q7 keeps every bit up to the final shift: the result is the floor of the exact weighted sum
      over 2^40, and lies within one below the smallest and the largest neighbour. */
  lemma Blend7Exact(x1: q7, x2: q7, y1: q7, y2: q7, f: nat, g: nat, lo: q7, hi: q7)
    requires f <= 0xF_FFFF && g <= 0xF_FFFF
    requires lo <= x1 <= hi && lo <= x2 <= hi && lo <= y1 <= hi && lo <= y2 <= hi
    ensures var r := Blend7(x1, x2, y1, y2, f, g);
            r == Weighted(0xF_FFFF, x1, x2, y1, y2, f, g) / 0x100_0000_0000 && lo - 1 <= r <= hi
  {
    hide Term7, Weighted, I64, I8;
    var t1: int, t2: int := Term7(x1, 0xF_FFFF - f, 0xF_FFFF - g), Term7(x2, 0xF_FFFF - g, f);
    var t3: int, t4: int := Term7(y1, 0xF_FFFF - f, g), Term7(y2, g, f);
    TermsAreSum(x1, x2, y1, y2, f, g, t1, t2, t3, t4);
    WeightedBetween(0xF_FFFF, x1, x2, y1, y2, f, g, lo, hi);
    I64Exact(t1 + t2);
    I64Exact(t1 + t2 + t3);
    I64Exact(t1 + t2 + t3 + t4);
    FinalShift7(Weighted(0xF_FFFF, x1, x2, y1, y2, f, g), lo, hi);
  }

  lemma Blend7Is(x1: q7, x2: q7, y1: q7, y2: q7, f: nat, g: nat)
    requires f <= 0xF_FFFF && g <= 0xF_FFFF
    ensures var f', g' := 0xF_FFFF - f, 0xF_FFFF - g;
            Blend7(x1, x2, y1, y2, f, g)
            == (x1 * (f' * g') + x2 * (g' * f) + y1 * (f' * g) + y2 * (f * g)) / 0x100_0000_0000
  {
    hide Blend7;
    Blend7Exact(x1, x2, y1, y2, f, g, -0x80, 0x7F);
  }

  lemma TermsAreSum(x1: q7, x2: q7, y1: q7, y2: q7, f: nat, g: nat, t1: int, t2: int, t3: int, t4: int)
    requires f <= 0xF_FFFF && g <= 0xF_FFFF
    requires t1 == Term7(x1, 0xF_FFFF - f, 0xF_FFFF - g) && t2 == Term7(x2, 0xF_FFFF - g, f)
    requires t3 == Term7(y1, 0xF_FFFF - f, g) && t4 == Term7(y2, g, f)
    ensures
            && t1 + t2 + t3 + t4 == Weighted(0xF_FFFF, x1, x2, y1, y2, f, g)
            && -0x10_0000_0000_0000 <= t1 + t2 <= 0x10_0000_0000_0000
            && -0x18_0000_0000_0000 <= t1 + t2 + t3 <= 0x18_0000_0000_0000
            && -0x20_0000_0000_0000 <= t1 + t2 + t3 + t4 <= 0x20_0000_0000_0000
  {
    hide Term7;
    Term7Exact(x1, 0xF_FFFF - f, 0xF_FFFF - g);
    Term7Exact(x2, 0xF_FFFF - g, f);
    Term7Exact(y1, 0xF_FFFF - f, g);
    Term7Exact(y2, g, f);
    assert f * g == g * f;
  }

  lemma FinalShift7(w: int, lo: q7, hi: q7)
    requires lo * (0xF_FFFF * 0xF_FFFF) <= w <= hi * (0xF_FFFF * 0xF_FFFF)
    ensures var r := w / 0x100_0000_0000; I8(r) == r && lo - 1 <= r <= hi
  {
    hide I8;
    if w < -0x80 * 0x100_0000_0000 {
      assert false;
    }
    I8Exact(w / 0x100_0000_0000);
  }

  /** Q7 on a whole table: the same, with the documented sum rounded down. */
  lemma BilinearQ7Accurate(s: Grid<q7>, x: q31, y: q31, lo: q7, hi: q7)
    requires Complete(s) && (!Rejected(s, x, y) ==> Readable(s, x, y))
    requires forall k | 0 <= k < |s.data| :: lo <= s.data[k] <= hi
    ensures s.numRows == s.numCols <= 0x800 && Beyond(s, x, y) ==> BilinearQ7(s, x, y) == 0
    ensures Rejected(s, x, y) ==> BilinearQ7(s, x, y) == 0
    ensures !Rejected(s, x, y) ==> lo - 1 <= BilinearQ7(s, x, y) <= hi
    ensures !Rejected(s, x, y) && OnTable(s, x, y) ==>
              BilinearQ7(s, x, y) == Documented(0xF_FFFF, s, x, y, Fraction(x), Fraction(y)) / 0x100_0000_0000
  {
    hide Blend7, Weighted, Index, Fraction, Documented, Cell, Readable;
    IndexAndFraction(x);
    IndexAndFraction(y);
    if !Rejected(s, x, y) {
      CellsBelow(s, x, y);
      Blend7Exact(s.data[Cell(s, x, y, 0, 0)], s.data[Cell(s, x, y, 1, 0)],
                  s.data[Cell(s, x, y, 0, 1)], s.data[Cell(s, x, y, 1, 1)],
                  Fraction(x), Fraction(y), lo, hi);
      if OnTable(s, x, y) {
        ReadsAreDocumented(0xF_FFFF, s, x, y, Fraction(x), Fraction(y));
      }
    }
  }

  // ---------------------------------------------------------------- Q31

  function Term31(v: q31, first: nat, second: nat): q31 {
    I32(I32(v * first / 0x1_0000_0000) * second / 0x1_0000_0000)
  }

  function Accumulated31(x1: q31, x2: q31, y1: q31, y2: q31, f: nat, g: nat): int
    requires f <= 0x7FFF_FFFF && g <= 0x7FFF_FFFF
  {
    Term31(x1, 0x7FFF_FFFF - f, 0x7FFF_FFFF - g) + Term31(x2, 0x7FFF_FFFF - g, f)
    + Term31(y1, 0x7FFF_FFFF - f, g) + Term31(y2, f, g)
  }

  /** The Q31 blend: four twice-truncated terms, added in 32 bits and scaled up by four. */
  function Blend31(x1: q31, x2: q31, y1: q31, y2: q31, f: nat, g: nat): q31
    requires f <= 0x7FFF_FFFF && g <= 0x7FFF_FFFF
  {
    var acc := I32(Term31(x1, 0x7FFF_FFFF - f, 0x7FFF_FFFF - g) + Term31(x2, 0x7FFF_FFFF - g, f));
    var acc := I32(acc + Term31(y1, 0x7FFF_FFFF - f, g));
    var acc := I32(acc + Term31(y2, f, g));
    I32(acc * 4)
  }

  lemma Term31Exact(v: q31, first: nat, second: nat)
    requires first <= 0x7FFF_FFFF && second <= 0x7FFF_FFFF
    ensures var t := Term31(v, first, second);
            && t == v * first / 0x1_0000_0000 * second / 0x1_0000_0000
            && 0x1_0000_0000_0000_0000 * t <= v * (first * second)
            && v * (first * second)
               <= 0x1_0000_0000_0000_0000 * t + 0x1_0000_0000 * 0xFFFF_FFFF + 0xFFFF_FFFF * second
            && -0x2000_0000 <= t < 0x2000_0000
  {
    hide I32;
    ProductBound(v, first, 0x8000_0000, 0x7FFF_FFFF);
    var h, r := v * first / 0x1_0000_0000, v * first % 0x1_0000_0000;
    I32Exact(h);
    HalfProduct(h, second);
    I32Exact(h * second / 0x1_0000_0000);
    ScaleTerm(v, first, second, h, r);
  }

  lemma HalfProduct(h: int, second: nat)
    requires -0x4000_0000 <= h < 0x4000_0000 && second <= 0x7FFF_FFFF
    ensures -0x2000_0000 <= h * second / 0x1_0000_0000 < 0x2000_0000
  {
    Between(h, -0x4000_0000, 0x3FFF_FFFF, second);
  }

  lemma ScaleTerm(v: int, first: int, second: nat, h: int, r: int)
    requires v * first == 0x1_0000_0000 * h + r && 0 <= r < 0x1_0000_0000
    ensures 0x1_0000_0000 * (h * second) <= v * (first * second)
            <= 0x1_0000_0000 * (h * second) + 0xFFFF_FFFF * second
  {
    Between(r, 0, 0xFFFF_FFFF, second);
    assert v * (first * second) == v * first * second;
    assert (0x1_0000_0000 * h + r) * second == 0x1_0000_0000 * (h * second) + r * second;
  }

  lemma AccumulatedTracksSum(x1: q31, x2: q31, y1: q31, y2: q31, f: nat, g: nat)
    requires f <= 0x7FFF_FFFF && g <= 0x7FFF_FFFF
    ensures var acc, w := Accumulated31(x1, x2, y1, y2, f, g), Weighted(0x7FFF_FFFF, x1, x2, y1, y2, f, g);
            0x1_0000_0000_0000_0000 * acc <= w < 0x1_0000_0000_0000_0000 * acc + 0x5_8000_0000_0000_0000
  {
    hide Term31;
    Term31Exact(x1, 0x7FFF_FFFF - f, 0x7FFF_FFFF - g);
    Term31Exact(x2, 0x7FFF_FFFF - g, f);
    Term31Exact(y1, 0x7FFF_FFFF - f, g);
    Term31Exact(y2, f, g);
  }

  lemma Blend31Narrows(x1: q31, x2: q31, y1: q31, y2: q31, f: nat, g: nat)
    requires f <= 0x7FFF_FFFF && g <= 0x7FFF_FFFF
    ensures var acc := Accumulated31(x1, x2, y1, y2, f, g);
            acc < 0x2000_0000
            && (Blend31(x1, x2, y1, y2, f, g) == 4 * acc <==> acc >= -0x2000_0000)
  {
    hide I32, Term31, Weighted;
    var t1: int, t2: int := Term31(x1, 0x7FFF_FFFF - f, 0x7FFF_FFFF - g), Term31(x2, 0x7FFF_FFFF - g, f);
    var t3: int, t4: int := Term31(y1, 0x7FFF_FFFF - f, g), Term31(y2, f, g);
    TermRanges31(x1, x2, y1, y2, f, g, t1, t2, t3, t4);
    AccumulatedTracksSum(x1, x2, y1, y2, f, g);
    WeightedBetween(0x7FFF_FFFF, x1, x2, y1, y2, f, g, -0x8000_0000, 0x7FFF_FFFF);
    I32Exact(t1 + t2);
    I32Exact(t1 + t2 + t3);
    I32Exact(t1 + t2 + t3 + t4);
    I32Exact(4 * (t1 + t2 + t3 + t4));
  }

  /** Q31 exactly: four twice-truncated terms, scaled by four and reduced once to 32 bits. */
  lemma Blend31Is(x1: q31, x2: q31, y1: q31, y2: q31, f: nat, g: nat)
    requires f <= 0x7FFF_FFFF && g <= 0x7FFF_FFFF
    ensures var n, f', g' := 0x1_0000_0000, 0x7FFF_FFFF - f, 0x7FFF_FFFF - g;
            Blend31(x1, x2, y1, y2, f, g)
            == I32(4 * (x1 * f' / n * g' / n + x2 * g' / n * f / n + y1 * f' / n * g / n + y2 * f / n * g / n))
  {
    hide I32, Term31, Blend31;
    Blend31OfTerms(x1, x2, y1, y2, f, g);
    Term31Is(x1, 0x7FFF_FFFF - f, 0x7FFF_FFFF - g);
    Term31Is(x2, 0x7FFF_FFFF - g, f);
    Term31Is(y1, 0x7FFF_FFFF - f, g);
    Term31Is(y2, f, g);
  }

  lemma Term31Is(v: q31, first: nat, second: nat)
    requires first <= 0x7FFF_FFFF && second <= 0x7FFF_FFFF
    ensures Term31(v, first, second) == v * first / 0x1_0000_0000 * second / 0x1_0000_0000
  {
    hide Term31;
    Term31Exact(v, first, second);
  }

  lemma Blend31OfTerms(x1: q31, x2: q31, y1: q31, y2: q31, f: nat, g: nat)
    requires f <= 0x7FFF_FFFF && g <= 0x7FFF_FFFF
    ensures Blend31(x1, x2, y1, y2, f, g) == I32(4 * Accumulated31(x1, x2, y1, y2, f, g))
  {
    hide I32, Term31;
    var t1: int, t2: int := Term31(x1, 0x7FFF_FFFF - f, 0x7FFF_FFFF - g), Term31(x2, 0x7FFF_FFFF - g, f);
    var t3: int, t4: int := Term31(y1, 0x7FFF_FFFF - f, g), Term31(y2, f, g);
    TermRanges31(x1, x2, y1, y2, f, g, t1, t2, t3, t4);
    I32Exact(t1 + t2);
    I32Exact(t1 + t2 + t3);
    I32Exact(t1 + t2 + t3 + t4);
  }

  lemma TermRanges31(x1: q31, x2: q31, y1: q31, y2: q31, f: nat, g: nat,
                     t1: int, t2: int, t3: int, t4: int)
    requires f <= 0x7FFF_FFFF && g <= 0x7FFF_FFFF
    requires t1 == Term31(x1, 0x7FFF_FFFF - f, 0x7FFF_FFFF - g) && t2 == Term31(x2, 0x7FFF_FFFF - g, f)
    requires t3 == Term31(y1, 0x7FFF_FFFF - f, g) && t4 == Term31(y2, f, g)
    ensures -0x4000_0000 <= t1 + t2 < 0x4000_0000 && -0x6000_0000 <= t1 + t2 + t3 < 0x6000_0000
    ensures -0x8000_0000 <= t1 + t2 + t3 + t4 < 0x8000_0000
  {
    hide Term31;
    Term31Exact(x1, 0x7FFF_FFFF - f, 0x7FFF_FFFF - g);
    Term31Exact(x2, 0x7FFF_FFFF - g, f);
    Term31Exact(y1, 0x7FFF_FFFF - f, g);
    Term31Exact(y2, f, g);
  }

  /** Larger neighbours give a larger accumulator, so the flat cell at the lower bound is the worst. */
  lemma Term31Monotone(v: q31, w: q31, first: nat, second: nat)
    requires v <= w && first <= 0x7FFF_FFFF && second <= 0x7FFF_FFFF
    ensures Term31(v, first, second) <= Term31(w, first, second)
  {
    hide Term31;
    Term31Exact(v, first, second);
    Term31Exact(w, first, second);
    Between(v, v, w, first);
    Between(v * first / 0x1_0000_0000, v * first / 0x1_0000_0000, w * first / 0x1_0000_0000, second);
  }

  lemma AccumulatedMonotone(v: q31, x1: q31, x2: q31, y1: q31, y2: q31, f: nat, g: nat)
    requires v <= x1 && v <= x2 && v <= y1 && v <= y2 && f <= 0x7FFF_FFFF && g <= 0x7FFF_FFFF
    ensures Accumulated31(v, v, v, v, f, g) <= Accumulated31(x1, x2, y1, y2, f, g)
  {
    hide Term31;
    Term31Monotone(v, x1, 0x7FFF_FFFF - f, 0x7FFF_FFFF - g);
    Term31Monotone(v, x2, 0x7FFF_FFFF - g, f);
    Term31Monotone(v, y1, 0x7FFF_FFFF - f, g);
    Term31Monotone(v, y2, f, g);
  }

  /** The flat cell 13 units above the bottom. What the first truncations of the first and last terms
      drop adds up to less than a unit, because their weights are complementary; and the second
      truncations of the first and third terms, of one and the same half product, to less than 7/4. */
  lemma FlatBottomFits(k: nat, l: nat)
    requires k <= 0xF_FFFF && l <= 0xF_FFFF
    ensures var v: q31 := -0x7FFF_FFF3; Accumulated31(v, v, v, v, k * 0x800, l * 0x800) >= -0x2000_0000
  {
    hide Term31;
    var v: q31, f, g := -0x7FFF_FFF3, k * 0x800, l * 0x800;
    Term31Exact(v, 0x7FFF_FFFF - f, 0x7FFF_FFFF - g);
    Term31Exact(v, 0x7FFF_FFFF - g, f);
    Term31Exact(v, 0x7FFF_FFFF - f, g);
    Term31Exact(v, f, g);
    var x, y, z := v * (0x7FFF_FFFF - f), v * (0x7FFF_FFFF - g), v * f;
    FirstDrops(k, x % 0x1_0000_0000, z % 0x1_0000_0000);
    FlatSum(v, f, g, x / 0x1_0000_0000, y / 0x1_0000_0000, z / 0x1_0000_0000,
            x % 0x1_0000_0000, y % 0x1_0000_0000, z % 0x1_0000_0000);
  }

  lemma FlatSum(v: int, f: nat, g: nat, h1: int, h2: int, h4: int, r1: int, r2: int, r4: int)
    requires v == -0x7FFF_FFF3 && f <= 0x7FFF_FFFF && g <= 0x7FFF_FFFF
    requires v * (0x7FFF_FFFF - f) == 0x1_0000_0000 * h1 + r1
    requires v * (0x7FFF_FFFF - g) == 0x1_0000_0000 * h2 + r2 && v * f == 0x1_0000_0000 * h4 + r4
    requires r1 >= 0 && r4 >= 0 && r1 + r4 < 0x1_0000_0000 && 0 <= r2 < 0x1_0000_0000
    ensures h1 * (0x7FFF_FFFF - g) / 0x1_0000_0000 + h2 * f / 0x1_0000_0000
            + h1 * g / 0x1_0000_0000 + h4 * g / 0x1_0000_0000 >= -0x2000_0000
  {
    var p, p', q, q' := h1 * (0x7FFF_FFFF - g), h1 * g, h2 * f, h4 * g;
    assert p + p' == 0x7FFF_FFFF * h1;
    SumOfHalves(v, f, g, h1, h2, h4, r1, r2, r4);
    WeightedDrops(r1, r2, r4, f, g);
    SumOfTerms(p, p', q, q', h1);
    BottomSum(f, h1, p + p' + q + q', r1 * 0x7FFF_FFFF + r2 * f + r4 * g,
              p / 0x1_0000_0000 + q / 0x1_0000_0000 + p' / 0x1_0000_0000 + q' / 0x1_0000_0000);
  }

  lemma FirstDrops(k: nat, r1: int, r4: int)
    requires k <= 0xF_FFFF
    requires r1 == -0x7FFF_FFF3 * (0x7FFF_FFFF - k * 0x800) % 0x1_0000_0000
    requires r4 == -0x7FFF_FFF3 * (k * 0x800) % 0x1_0000_0000
    ensures r1 + r4 < 0x1_0000_0000 && r1 >= 0 && r4 >= 0
  {
    var m, q := 13 * k % 0x20_0000, 13 * k / 0x20_0000;
    DivModUnique(-0x7FFF_FFF3 * (k * 0x800), 0x1_0000_0000, q - 0x400 * k, 0x800 * m);
    DivModUnique(-0x7FFF_FFF3 * (0x7FFF_FFFF - k * 0x800), 0x1_0000_0000, 0x400 * k - q - 0x3FFF_FFFA,
                 0xFFFF_FFF3 - 0x800 * m);
  }

  /** The floors of four products, two of which add up to h * (2^31 - 1). */
  lemma SumOfTerms(p: int, p': int, q: int, q': int, h: int)
    requires p + p' == 0x7FFF_FFFF * h && -0x4000_0000 <= h <= 0
    ensures 0x1_0000_0000 * (p / 0x1_0000_0000 + q / 0x1_0000_0000 + p' / 0x1_0000_0000 + q' / 0x1_0000_0000)
            >= p + p' + q + q' - (0x3_8000_0000 - h)
  {
    var m := 0x7FFF_FFFF * h % 0x1_0000_0000;
    assert m <= 0x8000_0000 - h;
    assert p % 0x1_0000_0000 + p' % 0x1_0000_0000 == m || p % 0x1_0000_0000 + p' % 0x1_0000_0000 == m + 0x1_0000_0000;
  }

  lemma SumOfHalves(v: int, f: int, g: int, h1: int, h2: int, h4: int, r1: int, r2: int, r4: int)
    requires v * (0x7FFF_FFFF - f) == 0x1_0000_0000 * h1 + r1
    requires v * (0x7FFF_FFFF - g) == 0x1_0000_0000 * h2 + r2 && v * f == 0x1_0000_0000 * h4 + r4
    ensures 0x1_0000_0000 * (h1 * 0x7FFF_FFFF + h2 * f + h4 * g)
            == v * (0x7FFF_FFFF * 0x7FFF_FFFF) - (r1 * 0x7FFF_FFFF + r2 * f + r4 * g)
  {
    assert (v * (0x7FFF_FFFF - g)) * f == (0x1_0000_0000 * h2 + r2) * f;
    assert (v * f) * g == (0x1_0000_0000 * h4 + r4) * g;
    assert (v * (0x7FFF_FFFF - g)) * f == 0x7FFF_FFFF * (v * f) - (v * f) * g;
  }

  lemma WeightedDrops(r1: int, r2: int, r4: int, f: nat, g: nat)
    requires r1 >= 0 && r4 >= 0 && r1 + r4 < 0x1_0000_0000 && 0 <= r2 < 0x1_0000_0000
    requires f <= 0x7FFF_FFFF && g <= 0x7FFF_FFFF
    ensures r1 * 0x7FFF_FFFF + r2 * f + r4 * g <= 0x1_0000_0000 * 0x7FFF_FFFF + 0x1_0000_0000 * f
  {
    Between(g, 0, 0x7FFF_FFFF, r4);
    Between(r2, 0, 0x1_0000_0000, f);
  }

  lemma BottomSum(f: nat, h: int, halves: int, drops: int, acc: int)
    requires f <= 0x7FFF_FFFF && 0x1_0000_0000 * h > -0x7FFF_FFF3 * (0x7FFF_FFFF - f) - 0x1_0000_0000
    requires 0x1_0000_0000 * halves == -0x7FFF_FFF3 * (0x7FFF_FFFF * 0x7FFF_FFFF) - drops
    requires drops <= 0x1_0000_0000 * 0x7FFF_FFFF + 0x1_0000_0000 * f
    requires 0x1_0000_0000 * acc >= halves - (0x3_8000_0000 - h)
    ensures acc >= -0x2000_0000
  {
  }

  /** Q31, four neighbours at least 13 units above the bottom of the range, and any fractions the code
      forms: nothing overflows, and the result is below the untruncated weighted sum over 2^62 by less
      than 22 units. */
  lemma Blend31Accurate(x1: q31, x2: q31, y1: q31, y2: q31, k: nat, l: nat)
    requires k <= 0xF_FFFF && l <= 0xF_FFFF
    requires x1 >= -0x7FFF_FFF3 && x2 >= -0x7FFF_FFF3 && y1 >= -0x7FFF_FFF3 && y2 >= -0x7FFF_FFF3
    ensures var f, g := k * 0x800, l * 0x800;
            var r, w := Blend31(x1, x2, y1, y2, f, g), Weighted(0x7FFF_FFFF, x1, x2, y1, y2, f, g);
            0x4000_0000_0000_0000 * r <= w < 0x4000_0000_0000_0000 * (r + 22)
  {
    hide Blend31, Accumulated31, Weighted;
    FlatBottomFits(k, l);
    AccumulatedMonotone(-0x7FFF_FFF3, x1, x2, y1, y2, k * 0x800, l * 0x800);
    Blend31Narrows(x1, x2, y1, y2, k * 0x800, l * 0x800);
    AccumulatedTracksSum(x1, x2, y1, y2, k * 0x800, l * 0x800);
  }

  /** One unit lower the truncations can carry the sum past the bottom and the final scaling wraps: a
      flat cell there interpolates to almost the largest value. */
  lemma Blend31WrapsCounterexample()
    ensures var v: q31 := -0x7FFF_FFF4; Blend31(v, v, v, v, 0x67E6_6800, 0x60B2_C000) == 0x7FFF_FFFC
  {
    hide I32, Term31;
    Term31At(0x1819_97FF, 0x1F4D_3FFF, -202165247, -24719249);
    Term31At(0x1F4D_3FFF, 0x67E6_6800, -262578175, -106569840);
    Term31At(0x1819_97FF, 0x60B2_C000, -202165247, -76363376);
    Term31At(0x67E6_6800, 0x60B2_C000, -871576572, -329218448);
    I32Exact(-24719249 - 106569840);
    I32Exact(-24719249 - 106569840 - 76363376);
    I32Exact(-0x2000_0001);
    WrapsToTop();
  }

  lemma Term31At(first: nat, second: nat, h: int, t: int)
    requires 0x1_0000_0000 * h <= -0x7FFF_FFF4 * first < 0x1_0000_0000 * (h + 1)
    requires 0x1_0000_0000 * t <= h * second < 0x1_0000_0000 * (t + 1)
    requires -0x4000_0000 <= h <= 0 && -0x4000_0000 <= t <= 0
    ensures Term31(-0x7FFF_FFF4, first, second) == t
  {
    hide I32;
    I32Exact(h);
    I32Exact(t);
  }

  lemma WrapsToTop()
    ensures I32(-0x2000_0001 * 4) == 0x7FFF_FFFC
  {
  }

  function BilinearQ31(s: Grid<q31>, x: q31, y: q31): q31
    requires !Rejected(s, x, y) ==> Readable(s, x, y)
  {
    FractionBound(x);
    FractionBound(y);
    if Rejected(s, x, y) then 0
    else
      CellsBelow(s, x, y);
      Blend31(s.data[Cell(s, x, y, 0, 0)], s.data[Cell(s, x, y, 1, 0)],
              s.data[Cell(s, x, y, 0, 1)], s.data[Cell(s, x, y, 1, 1)], Fraction31(x), Fraction31(y))
  }

  /** The documented sum, less at most 22 units. */
  predicate AccurateAt31(s: Grid<q31>, x: q31, y: q31)
    requires Complete(s) && OnTable(s, x, y) && !Rejected(s, x, y) && Readable(s, x, y)
  {
    var r := BilinearQ31(s, x, y);
    var w := Documented(0x7FFF_FFFF, s, x, y, Fraction31(x), Fraction31(y));
    0x4000_0000_0000_0000 * r <= w < 0x4000_0000_0000_0000 * (r + 22)
  }

  /** A table that stays 13 units above the bottom of the range is interpolated without overflow, to
      the documented sum less at most 22 units. */
  lemma BilinearQ31Accurate(s: Grid<q31>, x: q31, y: q31)
    requires Complete(s) && (!Rejected(s, x, y) ==> Readable(s, x, y))
    requires forall k | 0 <= k < |s.data| :: -0x7FFF_FFF3 <= s.data[k]
    ensures s.numRows == s.numCols <= 0x800 && Beyond(s, x, y) ==> BilinearQ31(s, x, y) == 0
    ensures Rejected(s, x, y) ==> BilinearQ31(s, x, y) == 0
    ensures !Rejected(s, x, y) && OnTable(s, x, y) ==> AccurateAt31(s, x, y)
  {
    hide Blend31, Weighted, Index, Fraction, Documented, Cell, Readable;
    IndexAndFraction(x);
    IndexAndFraction(y);
    if !Rejected(s, x, y) && OnTable(s, x, y) {
      CellsBelow(s, x, y);
      Blend31Accurate(s.data[Cell(s, x, y, 0, 0)], s.data[Cell(s, x, y, 1, 0)],
                      s.data[Cell(s, x, y, 0, 1)], s.data[Cell(s, x, y, 1, 1)], Fraction(x), Fraction(y));
      ReadsAreDocumented(0x7FFF_FFFF, s, x, y, Fraction31(x), Fraction31(y));
    }
  }

  /** A lower bound on the entries guarantees that, for all tables and points, exactly from 13 units
      above the bottom of the range on. */
  lemma BilinearQ31AccurateExactlyWhen(lo: int)
    ensures (forall s: Grid<q31>, x: q31, y: q31 |
               && Complete(s) && OnTable(s, x, y) && !Rejected(s, x, y) && Readable(s, x, y)
               && (forall k | 0 <= k < |s.data| :: lo <= s.data[k]) :: AccurateAt31(s, x, y))
            <==> lo >= -0x7FFF_FFF3
  {
    hide Index, Fraction, AccurateAt31, OnTable, Rejected, Readable;
    if lo >= -0x7FFF_FFF3 {
      forall s: Grid<q31>, x: q31, y: q31 |
        && Complete(s) && OnTable(s, x, y) && !Rejected(s, x, y) && Readable(s, x, y)
        && (forall k | 0 <= k < |s.data| :: lo <= s.data[k])
        ensures AccurateAt31(s, x, y)
      {
        BilinearQ31Accurate(s, x, y);
      }
    } else {
      var v: q31 := -0x7FFF_FFF4;
      var s := Grid(2, 2, [v, v, v, v]);
      FlatPoint(s, 0xC_FCCD, 0xC_1658);
      FlatCellWraps(s);
    }
  }

  lemma FlatCellWraps(s: Grid<q31>)
    requires var v: q31 := -0x7FFF_FFF4; s == Grid(2, 2, [v, v, v, v])
    requires var x, y := 0xC_FCCD, 0xC_1658; OnTable(s, x, y) && !Rejected(s, x, y) && Readable(s, x, y)
    ensures !AccurateAt31(s, 0xC_FCCD, 0xC_1658)
  {
    hide Index, Fraction, Blend31, Weighted, BilinearQ31, Documented, OnTable, Rejected, Readable;
    var v: q31, x, y := -0x7FFF_FFF4, 0xC_FCCD, 0xC_1658;
    FlatPoint(s, x, y);
    FlatElements(s, v, x, y);
    Blend31WrapsCounterexample();
    WeightedBetween(0x7FFF_FFFF, v, v, v, v, 0x67E6_6800, 0x60B2_C000, v, v);
  }

  lemma FlatPoint(s: Grid<q31>, x: q31, y: q31)
    requires s.numRows == s.numCols == 2 && |s.data| == 4 && x == 0xC_FCCD && y == 0xC_1658
    ensures OnTable(s, x, y) && !Rejected(s, x, y) && Readable(s, x, y)
    ensures Fraction31(x) == 0x67E6_6800 && Fraction31(y) == 0x60B2_C000
  {
    hide Index, Fraction, Readable;
    IndexAndFraction(x);
    IndexAndFraction(y);
    ReadableIs(s, x, y);
  }

  /** In a flat table every neighbour is the same. */
  lemma FlatElements(s: Grid<q31>, v: q31, x: q31, y: q31)
    requires Complete(s) && OnTable(s, x, y) && !Rejected(s, x, y) && Readable(s, x, y)
    requires forall k | 0 <= k < |s.data| :: s.data[k] == v
    ensures Fraction31(x) <= 0x7FFF_FFFF && Fraction31(y) <= 0x7FFF_FFFF
    ensures BilinearQ31(s, x, y) == Blend31(v, v, v, v, Fraction31(x), Fraction31(y))
    ensures Documented(0x7FFF_FFFF, s, x, y, Fraction31(x), Fraction31(y))
            == Weighted(0x7FFF_FFFF, v, v, v, v, Fraction31(x), Fraction31(y))
  {
    hide Index, Fraction, Blend31, Weighted, Readable, Cell, Documented;
    FractionBound(x);
    FractionBound(y);
    CellsBelow(s, x, y);
    ReadsAreDocumented(0x7FFF_FFFF, s, x, y, Fraction31(x), Fraction31(y));
  }

  // ---------------------------------------------------------------- every point, in plain terms

  /** The sizes a 12.20 coordinate can address. */
  predicate Addressable(s: Grid<int>) { Complete(s) && 1 <= s.numRows <= 0x800 && 1 <= s.numCols <= 0x800 }

  /** The index the code reads from a coordinate: a negative one as beyond 2047. */
  function Read(x: q31): nat { if x < 0 then 0x1000 + Floor(x) else Floor(x) }

  /** The points the code interpolates: each index below the wrong one of the two sizes. */
  predicate Admitted(s: Grid<int>, x: q31, y: q31) { Read(x) < s.numRows && Read(y) < s.numCols }

  /** The last of the four reads of an admitted point is in memory. */
  predicate InMemory(s: Grid<int>, x: q31, y: q31) {
    Read(x) < s.numRows && Read(y) < s.numCols ==> Read(x) + 1 + s.numCols * (Read(y) + 1) < |s.data|
  }

  lemma AdmittedIs(s: Grid<int>, x: q31, y: q31)
    ensures Rejected(s, x, y) <==> !Admitted(s, x, y)
    ensures InMemory(s, x, y) ==> !Rejected(s, x, y) ==> Readable(s, x, y)
    ensures Read(x) == Index(x) && Read(y) == Index(y)
  {
    hide Index, Fraction, Readable;
    IndexAndFraction(x);
    IndexAndFraction(y);
    ReadableIs(s, x, y);
  }

  /** The weighted sum of the four elements in memory at an admitted point, on the table or off it. */
  function MemorySum(m: int, s: Grid<int>, x: q31, y: q31, f: int, g: int): int
    requires Admitted(s, x, y) && InMemory(s, x, y)
  {
    MulNonneg(s.numCols, Read(y));
    assert s.numCols * (Read(y) + 1) == s.numCols * Read(y) + s.numCols;
    var i, n := Read(x) + s.numCols * Read(y), s.numCols;
    Weighted(m, s.data[i], s.data[i + 1], s.data[i + n], s.data[i + n + 1], f, g)
  }

  lemma MemorySumIs(m: int, s: Grid<int>, x: q31, y: q31, f: int, g: int)
    requires Admitted(s, x, y) && InMemory(s, x, y) && Readable(s, x, y)
    ensures Cell(s, x, y, 0, 0) < |s.data| && Cell(s, x, y, 1, 0) < |s.data|
    ensures Cell(s, x, y, 0, 1) < |s.data| && Cell(s, x, y, 1, 1) < |s.data|
    ensures MemorySum(m, s, x, y, f, g)
            == Weighted(m, s.data[Cell(s, x, y, 0, 0)], s.data[Cell(s, x, y, 1, 0)],
                        s.data[Cell(s, x, y, 0, 1)], s.data[Cell(s, x, y, 1, 1)], f, g)
  {
    hide Index, Fraction, Weighted, Readable, Cell, Read;
    AdmittedIs(s, x, y);
    CellsBelow(s, x, y);
    CellIs(s, x, y, 0, 0);
    CellIs(s, x, y, 1, 0);
    CellIs(s, x, y, 0, 1);
    CellIs(s, x, y, 1, 1);
    assert s.numCols * Read(y) == Read(y) * s.numCols;
    assert (Read(y) + 1) * s.numCols == Read(y) * s.numCols + s.numCols;
  }

  /** The values blended at an admitted point: elements i, i + 1, i + n and i + n + 1 of the array, with n
      the number of columns. */
  lemma BlendedElements(s: Grid<q15>, t: Grid<q7>, u: Grid<q31>, x: q31, y: q31)
    ensures Read(x) < s.numRows && Read(y) < s.numCols && InMemory(s, x, y) ==>
              var n := s.numCols;
              var i := Read(x) + n * Read(y);
              && !Rejected(s, x, y) && Readable(s, x, y) && 0 <= i <= i + n && i + n + 1 < |s.data|
              && x % 0x10_0000 <= 0xF_FFFF && y % 0x10_0000 <= 0xF_FFFF
              && BilinearQ15(s, x, y)
                 == Blend15(s.data[i], s.data[i + 1], s.data[i + n], s.data[i + n + 1], x % 0x10_0000, y % 0x10_0000)
    ensures Read(x) < t.numRows && Read(y) < t.numCols && InMemory(t, x, y) ==>
              var n := t.numCols;
              var i := Read(x) + n * Read(y);
              && !Rejected(t, x, y) && Readable(t, x, y) && 0 <= i <= i + n && i + n + 1 < |t.data|
              && x % 0x10_0000 <= 0xF_FFFF && y % 0x10_0000 <= 0xF_FFFF
              && BilinearQ7(t, x, y)
                 == Blend7(t.data[i], t.data[i + 1], t.data[i + n], t.data[i + n + 1], x % 0x10_0000, y % 0x10_0000)
    ensures Read(x) < u.numRows && Read(y) < u.numCols && InMemory(u, x, y) ==>
              var n := u.numCols;
              var i := Read(x) + n * Read(y);
              && !Rejected(u, x, y) && Readable(u, x, y) && 0 <= i <= i + n && i + n + 1 < |u.data|
              && x % 0x10_0000 <= 0xF_FFFF && y % 0x10_0000 <= 0xF_FFFF
              && BilinearQ31(u, x, y)
                 == Blend31(u.data[i], u.data[i + 1], u.data[i + n], u.data[i + n + 1],
                            x % 0x10_0000 * 0x800, y % 0x10_0000 * 0x800)
  {
    IndexAndFraction(x);
    IndexAndFraction(y);
    hide Index, Fraction, Blend15, Blend7, Blend31, Readable, Rejected, Cell, Read, InMemory;
    if Read(x) < s.numRows && Read(y) < s.numCols && InMemory(s, x, y) {
      CellsInPlainTerms(s, x, y);
    }
    if Read(x) < t.numRows && Read(y) < t.numCols && InMemory(t, x, y) {
      CellsInPlainTerms(t, x, y);
    }
    if Read(x) < u.numRows && Read(y) < u.numCols && InMemory(u, x, y) {
      CellsInPlainTerms(u, x, y);
    }
  }

  lemma CellsInPlainTerms(s: Grid<int>, x: q31, y: q31)
    requires Read(x) < s.numRows && Read(y) < s.numCols && InMemory(s, x, y)
    ensures !Rejected(s, x, y) && Readable(s, x, y)
    ensures var n := s.numCols;
            var i := Read(x) + n * Read(y);
            && 0 <= i <= i + n && i + n + 1 < |s.data|
            && Cell(s, x, y, 0, 0) == i && Cell(s, x, y, 1, 0) == i + 1
            && Cell(s, x, y, 0, 1) == i + n && Cell(s, x, y, 1, 1) == i + n + 1
  {
    hide Index, Fraction, Readable, Rejected, Cell, Read;
    AdmittedIs(s, x, y);
    MulNonneg(s.numCols, Read(y));
    CellIs(s, x, y, 0, 0);
    CellIs(s, x, y, 1, 0);
    CellIs(s, x, y, 0, 1);
    CellIs(s, x, y, 1, 1);
    assert s.numCols * Read(y) == Read(y) * s.numCols;
    assert (Read(y) + 1) * s.numCols == Read(y) * s.numCols + s.numCols;
    assert s.numCols * (Read(y) + 1) == (Read(y) + 1) * s.numCols;
  }

  /** Everywhere else the three functions return zero, for tables of any size. */
  lemma ZeroElsewhere(s: Grid<q15>, t: Grid<q7>, u: Grid<q31>, x: q31, y: q31)
    ensures !(Read(x) < s.numRows && Read(y) < s.numCols) ==> Rejected(s, x, y) && BilinearQ15(s, x, y) == 0
    ensures !(Read(x) < t.numRows && Read(y) < t.numCols) ==> Rejected(t, x, y) && BilinearQ7(t, x, y) == 0
    ensures !(Read(x) < u.numRows && Read(y) < u.numCols) ==> Rejected(u, x, y) && BilinearQ31(u, x, y) == 0
  {
    hide Rejected, Read;
    AdmittedIs(s, x, y);
    AdmittedIs(t, x, y);
    AdmittedIs(u, x, y);
  }

  /** What the three functions compute at every admitted point, on the table or off it. */
  lemma ReadsMemory15(s: Grid<q15>, x: q31, y: q31)
    requires Read(x) < s.numRows && Read(y) < s.numCols && InMemory(s, x, y)
    ensures !Rejected(s, x, y) && Readable(s, x, y)
    ensures var w := MemorySum(0xF_FFFF, s, x, y, Fraction(x), Fraction(y)) / 0x100_0000_0000;
            BilinearQ15(s, x, y) == w || BilinearQ15(s, x, y) == w - 1
  {
    hide Blend15, Weighted, Index, Fraction, MemorySum, Cell, Readable, Rejected;
    AdmittedIs(s, x, y);
    FractionBound(x);
    FractionBound(y);
    MemorySumIs(0xF_FFFF, s, x, y, Fraction(x), Fraction(y));
    Blend15Accurate(s.data[Cell(s, x, y, 0, 0)], s.data[Cell(s, x, y, 1, 0)],
                    s.data[Cell(s, x, y, 0, 1)], s.data[Cell(s, x, y, 1, 1)],
                    Fraction(x), Fraction(y), -0x8000, 0x7FFF);
  }

  lemma ReadsMemory7(s: Grid<q7>, x: q31, y: q31)
    requires Read(x) < s.numRows && Read(y) < s.numCols && InMemory(s, x, y)
    ensures !Rejected(s, x, y) && Readable(s, x, y)
    ensures BilinearQ7(s, x, y) == MemorySum(0xF_FFFF, s, x, y, Fraction(x), Fraction(y)) / 0x100_0000_0000
  {
    hide Blend7, Weighted, Index, Fraction, MemorySum, Cell, Readable, Rejected;
    AdmittedIs(s, x, y);
    FractionBound(x);
    FractionBound(y);
    MemorySumIs(0xF_FFFF, s, x, y, Fraction(x), Fraction(y));
    Blend7Exact(s.data[Cell(s, x, y, 0, 0)], s.data[Cell(s, x, y, 1, 0)],
                s.data[Cell(s, x, y, 0, 1)], s.data[Cell(s, x, y, 1, 1)],
                Fraction(x), Fraction(y), -0x80, 0x7F);
  }

  lemma ReadsMemory31(s: Grid<q31>, x: q31, y: q31)
    requires Read(x) < s.numRows && Read(y) < s.numCols && InMemory(s, x, y)
    requires forall k | 0 <= k < |s.data| :: -0x7FFF_FFF3 <= s.data[k]
    ensures !Rejected(s, x, y) && Readable(s, x, y)
    ensures var r, w := BilinearQ31(s, x, y), MemorySum(0x7FFF_FFFF, s, x, y, Fraction31(x), Fraction31(y));
            0x4000_0000_0000_0000 * r <= w < 0x4000_0000_0000_0000 * (r + 22)
  {
    hide Blend31, Weighted, Index, Fraction, MemorySum, Cell, Readable, Rejected;
    AdmittedIs(s, x, y);
    FractionBound(x);
    FractionBound(y);
    MemorySumIs(0x7FFF_FFFF, s, x, y, Fraction31(x), Fraction31(y));
    Blend31Accurate(s.data[Cell(s, x, y, 0, 0)], s.data[Cell(s, x, y, 1, 0)],
                    s.data[Cell(s, x, y, 0, 1)], s.data[Cell(s, x, y, 1, 1)], Fraction(x), Fraction(y));
  }

  /** All three functions on any table: zero at every point with a column outside 0..numRows - 1 or a row
      outside 0..numCols - 1, and the documented sum at every other point of the table. */
  lemma BilinearQ15IsDocumented(s: Grid<q15>, x: q31, y: q31)
    requires Addressable(s) && InMemory(s, x, y)
    ensures !Rejected(s, x, y) ==> Readable(s, x, y)
    ensures !(0 <= Floor(x) < s.numRows && 0 <= Floor(y) < s.numCols) ==> BilinearQ15(s, x, y) == 0
    ensures 0 <= Floor(x) < s.numRows && 0 <= Floor(y) < s.numCols && OnTable(s, x, y) ==>
              var w := Documented(0xF_FFFF, s, x, y, Fraction(x), Fraction(y)) / 0x100_0000_0000;
              BilinearQ15(s, x, y) == w || BilinearQ15(s, x, y) == w - 1
  {
    hide Documented, BilinearQ15, Rejected, Readable, OnTable, Complete;
    AdmittedIs(s, x, y);
    BilinearQ15Accurate(s, x, y, -0x8000, 0x7FFF);
  }

  lemma BilinearQ7IsDocumented(s: Grid<q7>, x: q31, y: q31)
    requires Addressable(s) && InMemory(s, x, y)
    ensures !Rejected(s, x, y) ==> Readable(s, x, y)
    ensures !(0 <= Floor(x) < s.numRows && 0 <= Floor(y) < s.numCols) ==> BilinearQ7(s, x, y) == 0
    ensures 0 <= Floor(x) < s.numRows && 0 <= Floor(y) < s.numCols && OnTable(s, x, y) ==>
              BilinearQ7(s, x, y) == Documented(0xF_FFFF, s, x, y, Fraction(x), Fraction(y)) / 0x100_0000_0000
  {
    hide Documented, BilinearQ7, Rejected, Readable, OnTable, Complete;
    AdmittedIs(s, x, y);
    BilinearQ7Accurate(s, x, y, -0x80, 0x7F);
  }

  lemma BilinearQ31IsDocumented(s: Grid<q31>, x: q31, y: q31)
    requires Addressable(s) && InMemory(s, x, y)
    requires forall k | 0 <= k < |s.data| :: -0x7FFF_FFF3 <= s.data[k]
    ensures !Rejected(s, x, y) ==> Readable(s, x, y)
    ensures !(0 <= Floor(x) < s.numRows && 0 <= Floor(y) < s.numCols) ==> BilinearQ31(s, x, y) == 0
    ensures 0 <= Floor(x) < s.numRows && 0 <= Floor(y) < s.numCols && OnTable(s, x, y) ==>
              var r, w := BilinearQ31(s, x, y), Documented(0x7FFF_FFFF, s, x, y, Fraction31(x), Fraction31(y));
              0x4000_0000_0000_0000 * r <= w < 0x4000_0000_0000_0000 * (r + 22)
  {
    hide Documented, BilinearQ31, Rejected, Readable, OnTable, Complete;
    AdmittedIs(s, x, y);
    BilinearQ31Accurate(s, x, y);
  }

  // ---------------------------------------------------------------- the boundary test

  /** The boundary test has rows and columns the wrong way round. It lets all interior points of the
      table through, and their reads are then in memory, exactly when the two sizes differ by at most
      one (or there is no interior point). */
  lemma InteriorAcceptedExactlyWhen(s: Grid<int>)
    requires Complete(s) && 1 <= s.numRows <= 0x800 && 1 <= s.numCols <= 0x800
    ensures (forall x: q31, y: q31 | Interior(s, x, y) :: !Rejected(s, x, y) && Readable(s, x, y))
            <==> s.numRows == 1 || s.numCols == 1 || s.numRows - 1 <= s.numCols <= s.numRows + 1
  {
    hide Index, Readable;
    var m: int, n: int := s.numRows, s.numCols;
    if m == 1 || n == 1 || m - 1 <= n <= m + 1 {
      forall x: q31, y: q31 | Interior(s, x, y)
        ensures !Rejected(s, x, y) && Readable(s, x, y)
      {
        IndexAndFraction(x);
        IndexAndFraction(y);
        InteriorReadable(s, x, y);
      }
    } else {
      var x: q31, y: q31 := (n - 2) * 0x10_0000, (m - 2) * 0x10_0000;
      IndexAndFraction(x);
      IndexAndFraction(y);
      assert Interior(s, x, y) && Rejected(s, x, y);
    }
  }

  predicate NearSquare(s: Grid<int>) {
    && Complete(s) && 1 <= s.numRows <= 0x800 && 1 <= s.numCols <= 0x800
    && s.numRows - 1 <= s.numCols <= s.numRows + 1
  }

  /** At the interior points of such a table all three functions give the documented sum, whatever the
      boundary test. */
  lemma InteriorIsDocumented15(s: Grid<q15>, x: q31, y: q31)
    requires NearSquare(s) && Interior(s, x, y)
    ensures !Rejected(s, x, y) && Readable(s, x, y)
    ensures var w := Documented(0xF_FFFF, s, x, y, Fraction(x), Fraction(y)) / 0x100_0000_0000;
            BilinearQ15(s, x, y) == w || BilinearQ15(s, x, y) == w - 1
  {
    hide Documented, BilinearQ15, Rejected, Readable;
    InteriorAcceptedExactlyWhen(s);
    BilinearQ15Accurate(s, x, y, -0x8000, 0x7FFF);
  }

  lemma InteriorIsDocumented7(s: Grid<q7>, x: q31, y: q31)
    requires NearSquare(s) && Interior(s, x, y)
    ensures !Rejected(s, x, y) && Readable(s, x, y)
    ensures BilinearQ7(s, x, y) == Documented(0xF_FFFF, s, x, y, Fraction(x), Fraction(y)) / 0x100_0000_0000
  {
    hide Documented, BilinearQ7, Rejected, Readable;
    InteriorAcceptedExactlyWhen(s);
    BilinearQ7Accurate(s, x, y, -0x80, 0x7F);
  }

  lemma InteriorIsDocumented31(s: Grid<q31>, x: q31, y: q31)
    requires NearSquare(s) && Interior(s, x, y) && forall k | 0 <= k < |s.data| :: -0x7FFF_FFF3 <= s.data[k]
    ensures !Rejected(s, x, y) && Readable(s, x, y) && AccurateAt31(s, x, y)
  {
    hide AccurateAt31, BilinearQ31, Rejected, Readable;
    InteriorAcceptedExactlyWhen(s);
    BilinearQ31Accurate(s, x, y);
  }

  /** It stops all points beyond the table exactly when the table is square. Even then it lets through
      the points of the last column and row that are off the table by a fraction, for every size. */
  lemma BeyondRejectedExactlyWhen(s: Grid<int>)
    requires 1 <= s.numRows <= 0x800 && 1 <= s.numCols <= 0x800
    ensures (forall x: q31, y: q31 | Beyond(s, x, y) :: Rejected(s, x, y)) <==> s.numRows == s.numCols
    ensures exists x: q31, y: q31 :: !OnTable(s, x, y) && !Rejected(s, x, y)
  {
    hide Index, Fraction;
    var m: int, n: int := s.numRows, s.numCols;
    forall x: q31, y: q31 | m == n && Beyond(s, x, y)
      ensures Rejected(s, x, y)
    {
      IndexAndFraction(x);
      IndexAndFraction(y);
    }
    var x: q31, y: q31 := (if n < m then n else m - 1) * 0x10_0000 + 1, (if m < n then m else n - 1) * 0x10_0000;
    IndexAndFraction(x);
    IndexAndFraction(y);
    assert !Rejected(s, x, y) && !OnTable(s, x, y);
    assert m != n ==> Beyond(s, x, y);
  }

  /** Memory: the points the test lets through, but for its own last column and row, all read inside the
      array exactly when there are no more columns than rows. */
  lemma AcceptedReadableExactlyWhen(s: Grid<int>)
    requires Complete(s) && 2 <= s.numRows <= 0x800 && 2 <= s.numCols <= 0x800
    ensures (forall x: q31, y: q31 | 0 <= x && 0 <= y && Index(x) < s.numRows - 1 && Index(y) < s.numCols - 1
               :: Readable(s, x, y))
            <==> s.numCols <= s.numRows
  {
    hide Index, Readable;
    var m: int, n: int := s.numRows, s.numCols;
    if n <= m {
      forall x: q31, y: q31 | 0 <= x && 0 <= y && Index(x) < m - 1 && Index(y) < n - 1
        ensures Readable(s, x, y)
      {
        AcceptedFits(m, n, Index(x), Index(y));
        ReadableIs(s, x, y);
      }
    } else {
      var x: q31, y: q31 := (m - 2) * 0x10_0000, (n - 2) * 0x10_0000;
      IndexAndFraction(x);
      IndexAndFraction(y);
      CornerOverruns(m, n);
      ReadableIs(s, x, y);
      assert !Readable(s, x, y);
    }
  }

  lemma AcceptedFits(m: int, n: int, i: int, j: int)
    requires 2 <= n <= m && 0 <= i <= m - 2 && 0 <= j <= n - 2
    ensures i + 1 + n * (j + 1) < m * n
  {
    MulNonneg(n, n - 2 - j);
    MulNonneg(n - 1, m - n);
    assert n * (n - 2 - j) == n * (n - 1) - n * (j + 1);
    assert (n - 1) * (m - n) == n * m - n * n - m + n;
  }

  lemma CornerOverruns(m: int, n: int)
    requires 2 <= m < n
    ensures (m - 2) + 1 + n * ((n - 2) + 1) >= m * n
  {
    MulNonneg(n, n - 1 - m);
    assert n * (n - 1 - m) == n * (n - 1) - m * n;
  }
}
