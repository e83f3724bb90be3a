/** The circular write and read loops (one text for q7, q15 and int32 samples), and the unbounded
    sample history they refine. */
module CircularBuffer {
  import opened Arith
  import opened CInt

  // ---------------------------------------------------------------- offsets

  /** One circular update of an offset. */
  function Next(offset: int, inc: int, L: int): int {
    if offset + inc >= L then offset + inc - L else offset + inc
  }

  function Advance(offset: int, inc: int, L: int, n: nat): int {
    if n == 0 then offset else Next(Advance(offset, inc, L, n - 1), inc, L)
  }

  predicate Steps(offset: int, inc: int, L: int) {
    0 <= offset < L && 0 <= inc <= L
  }

  predicate InWord(x: int) { -0x8000_0000 <= x < 0x8000_0000 }

  /** What a step demands of the caller: its offset lies in the buffer, and its update does not leave
      32 bits. Negative increments are included. */
  predicate VisitAt(offset: int, inc: int, L: int, i: nat, size: nat) {
    var o := Advance(offset, inc, L, i);
    0 <= o < size && InWord(o + inc) && InWord(Next(o, inc, L))
  }

  predicate Visits(offset: int, inc: int, L: int, n: nat, size: nat) {
    forall i: nat | i < n :: VisitAt(offset, inc, L, i, size)
  }

  /** Increments from 0 to L always stay in the buffer. */
  lemma StepsVisit(offset: int, inc: int, L: int, n: nat, size: nat)
    requires Steps(offset, inc, L) && L <= size && L + inc <= 0x8000_0000
    ensures Visits(offset, inc, L, n, size)
  {
    forall i: nat | i < n
      ensures VisitAt(offset, inc, L, i, size)
    {
      AdvanceIsModular(offset, inc, L, i);
    }
  }

  /** The code announces positive and negative increments, but only ever subtracts L: the offsets of n
      steps stay in the buffer exactly when the increment is not negative or the steps end before the
      bottom. */
  lemma StaysInBufferExactlyWhen(offset: int, inc: int, L: int, n: nat)
    requires 0 <= offset < L && -L <= inc <= L && n > 0
    ensures (forall i: nat | i < n :: 0 <= Advance(offset, inc, L, i) < L)
            <==> inc >= 0 || offset + (n - 1) * inc >= 0
  {
    if inc >= 0 {
      forall i: nat | i < n
        ensures 0 <= Advance(offset, inc, L, i) < L
      {
        AdvanceIsModular(offset, inc, L, i);
      }
    } else {
      forall i: nat | i < n
        ensures Advance(offset, inc, L, i) == offset + i * inc
        ensures offset + (n - 1) * inc >= 0 ==> offset + i * inc >= 0
        ensures offset + i * inc < L
      {
        NegativeAdvance(offset, inc, L, i);
        MulNonneg(-inc, i);
        MulNonneg(-inc, n - 1 - i);
        assert -inc * (n - 1 - i) == i * inc - (n - 1) * inc;
      }
      assert Advance(offset, inc, L, n - 1) == offset + (n - 1) * inc;
    }
  }

  lemma {:induction false} NegativeAdvance(offset: int, inc: int, L: int, n: nat)
    requires offset < L && inc < 0
    ensures Advance(offset, inc, L, n) == offset + n * inc < L
  {
    if n > 0 {
      NegativeAdvance(offset, inc, L, n - 1);
      assert n * inc == (n - 1) * inc + inc;
    }
  }

  /** n increments: n * inc. */
  function Stride(inc: int, n: nat): int {
    if n == 0 then 0 else Stride(inc, n - 1) + inc
  }

  lemma {:induction false} StrideIsProduct(inc: int, n: nat)
    ensures Stride(inc, n) == n * inc
  {
    if n != 0 {
      StrideIsProduct(inc, n - 1);
      assert n * inc == (n - 1) * inc + inc;
    }
  }

  lemma NextIsModular(x: int, inc: int, L: int)
    requires L > 0 && 0 <= inc <= L
    ensures 0 <= Next(x % L, inc, L) < L && (x + inc) % L == Next(x % L, inc, L)
  {
    var q, a := x / L, x % L;
    if a + inc >= L {
      assert L * (q + 1) == L * q + L;
      DivModUnique(x + inc, L, q + 1, a + inc - L);
    } else {
      DivModUnique(x + inc, L, q, a + inc);
    }
  }

  lemma {:induction false} AdvanceIsModular(offset: int, inc: int, L: int, n: nat)
    requires Steps(offset, inc, L)
    ensures 0 <= Advance(offset, inc, L, n) < L
    ensures Advance(offset, inc, L, n) == (offset + Stride(inc, n)) % L
  {
    if n == 0 {
      DivModUnique(offset, L, 0, offset);
    } else {
      AdvanceIsModular(offset, inc, L, n - 1);
      NextIsModular(offset + Stride(inc, n - 1), inc, L);
    }
  }

  lemma ModShift(x: int, L: int, k: int)
    requires L > 0
    ensures (x + L * k) % L == x % L
  {
    assert x == L * (x / L) + x % L;
    assert L * (x / L + k) == L * (x / L) + L * k;
    DivModUnique(x + L * k, L, x / L + k, x % L);
  }

  /** The cell k + 1 increments behind an offset: where the sample written k steps ago went. */
  function Back(offset: int, inc: int, L: int, k: nat): (j: int)
    requires L > 0
    ensures 0 <= j < L
  {
    (offset - Stride(inc, k + 1)) % L
  }

  lemma BackFromNext(offset: int, inc: int, L: int, k: nat)
    requires Steps(offset, inc, L)
    ensures Back(Next(offset, inc, L), inc, L, k) == if k == 0 then offset else Back(offset, inc, L, k - 1)
  {
    if offset + inc >= L {
      ModShift(offset - Stride(inc, k), L, -1);
    }
    if k == 0 {
      assert Stride(inc, 0) == 0 && Stride(inc, 1) == inc;
      DivModUnique(offset, L, 0, offset);
    }
  }

  lemma NextFromBack(offset: int, inc: int, L: int, k: nat)
    requires Steps(offset, inc, L) && k > 0
    ensures Next(Back(offset, inc, L, k), inc, L) == Back(offset, inc, L, k - 1)
  {
    NextIsModular(offset - Stride(inc, k + 1), inc, L);
  }

  lemma BackReturns(offset: int, d: int, L: int)
    requires 0 <= offset < L && (offset - d) % L == offset
    ensures d % L == 0
  {
    var q := (offset - d) / L;
    assert offset - d == L * q + offset && d == L * -q + 0;
    DivModUnique(d, L, -q, 0);
  }

  // ---------------------------------------------------------------- writing

  /** The buffer and the offset after writing the samples one by one. A sample aimed outside the
      buffer is one the caller must not send. */
  function Written<T>(buf: seq<T>, offset: int, inc: int, L: int, xs: seq<T>): (r: (seq<T>, int))
    ensures |r.0| == |buf| && r.1 == Advance(offset, inc, L, |xs|)
    ensures Steps(offset, inc, L) ==> Steps(r.1, inc, L)
  {
    if xs == [] then (buf, offset)
    else
      var (b, o) := Written(buf, offset, inc, L, xs[..|xs| - 1]);
      (if 0 <= o < |b| then b[o := xs[|xs| - 1]] else b, Next(o, inc, L))
  }

  /** The samples a source pointer with a stride delivers. */
  function Samples<T>(src: seq<T>, start: int, inc: int, n: nat): (r: seq<T>)
    requires forall i: nat | i < n :: 0 <= start + Stride(inc, i) < |src|
    ensures |r| == n
  {
    if n == 0 then [] else Samples(src, start, inc, n - 1) + [src[start + Stride(inc, n - 1)]]
  }

  method Write<T>(circBuffer: array<T>, L: q31, writeOffset: u16, bufferInc: q31,
                  src: seq<T>, start: int, srcInc: int, blockSize: u32) returns (newOffset: u16)
    requires Visits(writeOffset, bufferInc, L, blockSize, circBuffer.Length)
    requires forall i: nat | i < blockSize :: 0 <= start + Stride(srcInc, i) < |src|
    modifies circBuffer
    ensures var (b, o) := Written(old(circBuffer[..]), writeOffset, bufferInc, L,
                                  Samples(src, start, srcInc, blockSize));
            circBuffer[..] == b && newOffset == U16(o)
  {
    hide I32, U16, InWord, Advance, Next, Written, Samples;
    NothingWritten(circBuffer[..], writeOffset, bufferInc, L, Samples(src, start, srcInc, 0));
    var i: int := blockSize;
    var wOffset: q31 := writeOffset;
    var p := start;
    while i > 0
      invariant 0 <= i <= blockSize && p == start + Stride(srcInc, blockSize - i)
      invariant Written(old(circBuffer[..]), writeOffset, bufferInc, L,
                        Samples(src, start, srcInc, blockSize - i))
                == (circBuffer[..], wOffset)
    {
      assert VisitAt(writeOffset, bufferInc, L, blockSize - i, circBuffer.Length);
      ghost var xs := Samples(src, start, srcInc, blockSize - i);
      WrittenOnce(old(circBuffer[..]), writeOffset, bufferInc, L, xs, src[p]);
      SamplesOnce(src, start, srcInc, blockSize - i);
      circBuffer[wOffset] := src[p];
      p := p + srcInc;
      UpdateExact(wOffset, bufferInc, L);
      var sum := I32(wOffset + bufferInc);
      wOffset := if sum >= L then I32(sum - L) else sum;
      i := i - 1;
    }
    newOffset := U16(wOffset);
  }

  lemma NothingWritten<T>(buf: seq<T>, offset: int, inc: int, L: int, xs: seq<T>)
    requires |xs| == 0
    ensures Written(buf, offset, inc, L, xs) == (buf, offset)
  {
  }

  lemma WrittenOnce<T>(buf: seq<T>, offset: int, inc: int, L: int, xs: seq<T>, x: T)
    ensures var (b, o) := Written(buf, offset, inc, L, xs);
            Written(buf, offset, inc, L, xs + [x]) == (if 0 <= o < |b| then b[o := x] else b, Next(o, inc, L))
  {
    assert (xs + [x])[..|xs|] == xs;
  }

  lemma SamplesOnce<T>(src: seq<T>, start: int, inc: int, n: nat)
    requires forall i: nat | i < n + 1 :: 0 <= start + Stride(inc, i) < |src|
    ensures Samples(src, start, inc, n + 1) == Samples(src, start, inc, n) + [src[start + Stride(inc, n)]]
  {
  }

  /** The 32-bit update of an offset is exact when the caller's demands are met. */
  lemma UpdateExact(o: int, inc: int, L: int)
    requires InWord(o + inc) && InWord(Next(o, inc, L))
    ensures var sum := I32(o + inc); (if sum >= L then I32(sum - L) else sum) == Next(o, inc, L)
  {
    hide I32;
    I32Exact(o + inc);
    I32Exact(o + inc - L);
  }

  /** What the strided source delivers, sample by sample. */
  lemma {:induction false} SamplesAt<T>(src: seq<T>, start: int, inc: int, n: nat, i: nat)
    requires i < n && forall j: nat | j < n :: 0 <= start + Stride(inc, j) < |src|
    ensures Stride(inc, i) == i * inc && Samples(src, start, inc, n)[i] == src[start + i * inc]
  {
    hide Stride;
    StrideIsProduct(inc, i);
    if i < n - 1 {
      SamplesAt(src, start, inc, n - 1, i);
    }
  }

  /** Any increment, of either sign: a cell holds the last sample written at its offset, number i, or its
      old content if there is none (i = -1). */
  lemma {:induction false} WrittenLast<T>(buf: seq<T>, offset: int, inc: int, L: int, xs: seq<T>, i: int, j: nat)
    requires j < |buf| && -1 <= i < |xs| && (i >= 0 ==> Advance(offset, inc, L, i) == j)
    requires forall k: nat | i < k < |xs| :: Advance(offset, inc, L, k) != j
    ensures Written(buf, offset, inc, L, xs).0[j] == if i < 0 then buf[j] else xs[i]
    ensures Written(buf, offset, inc, L, xs).1 == Advance(offset, inc, L, |xs|)
  {
    hide Advance;
    if xs != [] && i < |xs| - 1 {
      WrittenLast(buf, offset, inc, L, xs[..|xs| - 1], i, j);
    }
  }

  /** No multiple of the increment below the p-th returns to the same cell. */
  ghost predicate FreshFor(inc: int, L: int, p: nat)
    requires L > 0
  {
    forall d: nat | 0 < d < p :: Stride(inc, d) % L != 0
  }

  lemma OneIsFresh(L: int)
    requires L > 0
    ensures FreshFor(1, L, L)
  {
    forall d: nat | 0 < d < L
      ensures Stride(1, d) % L != 0
    {
      StrideIsProduct(1, d);
      DivModUnique(d, L, 0, d);
    }
  }

  /** How many writes it takes until the increment comes round: L over its greatest common divisor with
      the increment. */
  function Period(inc: nat, L: nat): int
    requires L > 0
  {
    GcdPositive(L, inc);
    L / Gcd(L, inc)
  }

  function Gcd(a: nat, b: nat): nat
    decreases b
  {
    if b == 0 then a else Gcd(b, a % b)
  }

  lemma {:induction false} GcdPositive(a: nat, b: nat)
    requires a > 0
    ensures Gcd(a, b) > 0
    decreases b
  {
    if b != 0 {
      GcdPositive(b, a % b);
    }
  }

  lemma {:induction false} GcdDivides(a: nat, b: nat) returns (p: int, q: int)
    ensures a == Gcd(a, b) * p && b == Gcd(a, b) * q
    decreases b
  {
    if b == 0 {
      p, q := 1, 0;
    } else {
      var r;
      q, r := GcdDivides(b, a % b);
      p := q * (a / b) + r;
      Recombine(Gcd(b, a % b), q, r, a / b);
    }
  }

  lemma Recombine(g: int, q: int, r: int, n: int)
    ensures g * (q * n + r) == g * q * n + g * r
  {
  }

  lemma {:induction false} Bezout(a: nat, b: nat) returns (u: int, v: int)
    ensures u * a + v * b == Gcd(a, b)
    decreases b
  {
    if b == 0 {
      u, v := 1, 0;
    } else {
      var h, k := Bezout(b, a % b);
      u, v := k, h - k * (a / b);
      BezoutStep(a / b, a % b, b, h, k);
    }
  }

  lemma BezoutStep(n: int, r: int, b: int, h: int, k: int)
    ensures k * (b * n + r) + (h - k * n) * b == h * b + k * r
  {
  }

  /** No increment returns to its cell before the period is over, and each does then. */
  lemma FreshExactlyWhen(inc: int, L: int, p: nat)
    requires L > 0 && 0 <= inc
    ensures FreshFor(inc, L, p) <==> p <= Period(inc, L)
  {
    GcdPositive(L, inc);
    var g := Gcd(L, inc);
    var m, r := GcdDivides(L, inc);
    DivModUnique(L, g, m, 0);
    if p <= m {
      forall d: nat | 0 < d < p
        ensures Stride(inc, d) % L != 0
      {
        StrideIsProduct(inc, d);
        if d * inc % L == 0 {
          ReturnsAtMultiples(inc, L, d, m);
          assert false;
        }
      }
    } else {
      if m <= 0 {
        MulNonneg(g, -m);
        assert false;
      }
      StrideIsProduct(inc, m);
      assert m * (g * r) == L * r;
      DivModUnique(m * inc, L, r, 0);
    }
  }

  lemma ReturnsAtMultiples(inc: nat, L: nat, d: nat, m: int)
    requires L > 0 && d * inc % L == 0 && L == Gcd(L, inc) * m
    ensures d == 0 || d >= m
  {
    hide Gcd;
    GcdPositive(L, inc);
    var g, q := Gcd(L, inc), d * inc / L;
    var u, v := Bezout(L, inc);
    var k := u * d + v * q;
    ScaleBezout(u, v, L, inc, d, q, g);
    CancelFactor(g, d, m, k);
  }

  lemma ScaleBezout(u: int, v: int, L: int, inc: int, d: int, q: int, g: int)
    requires u * L + v * inc == g && d * inc == L * q
    ensures d * g == L * (u * d + v * q)
  {
    assert d * (u * L + v * inc) == L * (u * d) + v * (d * inc);
    assert v * (L * q) == L * (v * q);
  }

  lemma CancelFactor(g: int, d: nat, m: int, k: int)
    requires g > 0 && d * g == g * m * k && g * m > 0
    ensures d == 0 || d >= m
  {
    assert g * (d - m * k) == 0;
    assert d == m * k;
    if m <= 0 {
      MulNonneg(g, -m);
      assert false;
    }
    if k >= 1 {
      MulAtLeast(m, k);
    } else {
      MulNonneg(m, -k);
    }
  }

  /** The history refinement, any increment: as long as the increment does not come round, the cell k
      steps behind the offset holds the sample written k steps ago. */
  lemma {:induction false} HistoryWindow<T>(buf: seq<T>, offset: int, inc: int, L: int, xs: seq<T>, p: nat, k: nat)
    requires Steps(offset, inc, L) && L <= |buf| && FreshFor(inc, L, p)
    requires k < |xs| && k < p
    ensures var (b, o) := Written(buf, offset, inc, L, xs);
            b[Back(o, inc, L, k)] == xs[|xs| - 1 - k]
  {
    var m := xs[..|xs| - 1];
    var (b1, o1) := Written(buf, offset, inc, L, m);
    BackFromNext(o1, inc, L, k);
    if k > 0 {
      HistoryWindow(buf, offset, inc, L, m, p, k - 1);
      if Back(o1, inc, L, k - 1) == o1 {
        BackReturns(o1, Stride(inc, k), L);
      }
    }
  }

  /** So the window of any increment is its period. */
  lemma HistoryOverPeriod<T>(buf: seq<T>, offset: int, inc: int, L: int, xs: seq<T>, k: nat)
    requires Steps(offset, inc, L) && L <= |buf|
    requires k < |xs| && k < Period(inc, L)
    ensures var (b, o) := Written(buf, offset, inc, L, xs);
            b[Back(o, inc, L, k)] == xs[|xs| - 1 - k]
  {
    FreshExactlyWhen(inc, L, k + 1);
    HistoryWindow(buf, offset, inc, L, xs, k + 1, k);
  }

  /** With increment 1, the whole buffer is determined: each cell holds the latest sample written to
      it, or its old content if none was. */
  lemma {:induction false} HistoryDeterminesBuffer<T>(buf: seq<T>, offset: int, L: int, xs: seq<T>, j: nat)
    requires Steps(offset, 1, L) && L <= |buf| && j < |buf|
    ensures var (b, o) := Written(buf, offset, 1, L, xs);
            var k := (o - 1 - j) % L;
            b[j] == if j < L && k < |xs| then xs[|xs| - 1 - k] else buf[j]
  {
    if xs != [] {
      var m := xs[..|xs| - 1];
      HistoryDeterminesBuffer(buf, offset, L, m, j);
      var (b1, o1) := Written(buf, offset, 1, L, m);
      if j < L {
        DistanceBack(o1, j, L);
        if o1 + 1 >= L {
          ModShift(o1 - j, L, -1);
        }
      }
    }
  }

  /** The distance from cell j back to the offset grows by one per write, and is zero at the cell
      being written. */
  lemma DistanceBack(o: int, j: int, L: int)
    requires 0 <= o < L && 0 <= j < L
    ensures (o - j) % L == if j == o then 0 else (o - 1 - j) % L + 1
  {
    if j <= o {
      DivModUnique(o - j, L, 0, o - j);
      if j < o {
        DivModUnique(o - 1 - j, L, 0, o - 1 - j);
      }
    } else {
      DivModUnique(o - j, L, -1, o - j + L);
      DivModUnique(o - 1 - j, L, -1, o - 1 - j + L);
    }
  }

  // ---------------------------------------------------------------- runs of blocks

  function Flatten<T>(blocks: seq<seq<T>>): seq<T> {
    if blocks == [] then [] else Flatten(blocks[..|blocks| - 1]) + blocks[|blocks| - 1]
  }

  /** A run of block writes, the offset narrowed to 16 bits after each. */
  function RunBlocks<T>(buf: seq<T>, offset: u16, L: int, blocks: seq<seq<T>>): (r: (seq<T>, u16))
    requires Steps(offset, 1, L) && L <= |buf|
    ensures |r.0| == |buf| && r.1 < L
  {
    if blocks == [] then (buf, offset)
    else
      var (b, o) := RunBlocks(buf, offset, L, blocks[..|blocks| - 1]);
      var (b', o') := Written(b, o, 1, L, blocks[|blocks| - 1]);
      (b', U16(o'))
  }

  lemma {:induction false} WrittenConcat<T>(buf: seq<T>, offset: int, inc: int, L: int, xs: seq<T>, ys: seq<T>)
    requires Steps(offset, inc, L) && L <= |buf|
    ensures var (b, o) := Written(buf, offset, inc, L, xs);
            Written(buf, offset, inc, L, xs + ys) == Written(b, o, inc, L, ys)
  {
    if ys == [] {
      assert xs + ys == xs;
    } else {
      var zs := xs + ys;
      assert zs[..|zs| - 1] == xs + ys[..|ys| - 1];
      WrittenConcat(buf, offset, inc, L, xs, ys[..|ys| - 1]);
    }
  }

  lemma {:induction false} BlocksAreOneHistory<T>(buf: seq<T>, offset: u16, L: int, blocks: seq<seq<T>>)
    requires Steps(offset, 1, L) && L <= |buf| && L <= 0x1_0000
    ensures RunBlocks(buf, offset, L, blocks) == Written(buf, offset, 1, L, Flatten(blocks))
  {
    if blocks != [] {
      var n := |blocks| - 1;
      BlocksAreOneHistory(buf, offset, L, blocks[..n]);
      WrittenConcat(buf, offset, 1, L, Flatten(blocks[..n]), blocks[n]);
    }
  }

  /** The 16-bit offset is enough exactly up to a length of 65536: then every run of blocks is one
      write of the concatenated samples, and for any longer buffer some run is not. */
  lemma OffsetWidthExactlyWhen(L: q31)
    requires L > 0
    ensures (forall buf: seq<int>, offset: u16, blocks: seq<seq<int>> | |buf| == L && offset < L ::
               RunBlocks(buf, offset, L, blocks) == Written(buf, offset, 1, L, Flatten(blocks)))
            <==> L <= 0x1_0000
  {
    if L <= 0x1_0000 {
      forall buf: seq<int>, offset: u16, blocks: seq<seq<int>> | |buf| == L && offset < L
        ensures RunBlocks(buf, offset, L, blocks) == Written(buf, offset, 1, L, Flatten(blocks))
      {
        BlocksAreOneHistory(buf, offset, L, blocks);
      }
    } else {
      var buf := seq(L, _ => 0);
      OneSampleOverruns(buf, L);
    }
  }

  lemma OneSampleOverruns(buf: seq<int>, L: int)
    requires L > 0x1_0000 && |buf| == L
    ensures RunBlocks(buf, 0xFFFF, L, [[1]]) != Written(buf, 0xFFFF, 1, L, Flatten([[1]]))
  {
    var blocks, none := [[1]], [[1]][..0];
    assert none == [] && [1][..0] == [];
    assert RunBlocks(buf, 0xFFFF, L, none) == (buf, 0xFFFF) && Flatten(none) == [];
    assert Written(buf, 0xFFFF, 1, L, []) == (buf, 0xFFFF);
    assert Written(buf, 0xFFFF, 1, L, [1]) == (buf[0xFFFF := 1], 0x1_0000);
    assert Flatten(blocks) == Flatten(none) + [1] == [1];
    assert RunBlocks(buf, 0xFFFF, L, blocks).1 == U16(0x1_0000);
  }

  // ---------------------------------------------------------------- reading

  /** Every offset of n steps lies in the buffer; with an increment from 0 to L it does anyway. */
  predicate InBuffer(offset: int, inc: int, L: int, n: nat, size: nat) {
    (Steps(offset, inc, L) && L <= size) || Visits(offset, inc, L, n, size)
  }

  lemma InBufferAt(offset: int, inc: int, L: int, n: nat, size: nat, i: nat)
    requires InBuffer(offset, inc, L, n, size) && i < n
    ensures 0 <= Advance(offset, inc, L, i) < size
  {
    if Steps(offset, inc, L) {
      AdvanceIsModular(offset, inc, L, i);
    }
    if Visits(offset, inc, L, n, size) {
      assert VisitAt(offset, inc, L, i, size);
    }
  }

  /** The samples a read delivers. */
  function ReadOut<T>(buf: seq<T>, offset: int, inc: int, L: int, n: nat): (r: seq<T>)
    requires InBuffer(offset, inc, L, n, |buf|)
    ensures |r| == n
  {
    if n == 0 then []
    else
      InBufferAt(offset, inc, L, n, |buf|, n - 1);
      ReadOut(buf, offset, inc, L, n - 1) + [buf[Advance(offset, inc, L, n - 1)]]
  }

  /** Any increment, of either sign: sample k is read at the k-th offset. */
  lemma {:induction false} ReadOutAt<T>(buf: seq<T>, offset: int, inc: int, L: int, n: nat, k: nat)
    requires InBuffer(offset, inc, L, n, |buf|) && k < n
    ensures 0 <= Advance(offset, inc, L, k) < |buf|
    ensures ReadOut(buf, offset, inc, L, n)[k] == buf[Advance(offset, inc, L, k)]
  {
    hide Advance;
    InBufferAt(offset, inc, L, n, |buf|, k);
    if k < n - 1 {
      ReadOutAt(buf, offset, inc, L, n - 1, k);
    }
  }

  /** The destination pointer wraps only when it lands exactly on the end. */
  function NextDst(p: int, base: int, length: int, inc: int): int {
    if p + inc == base + length then base else p + inc
  }

  function DstAt(p: int, base: int, length: int, inc: int, n: nat): int {
    if n == 0 then p else NextDst(DstAt(p, base, length, inc, n - 1), base, length, inc)
  }

  /** The destination offset of sample k, any stride: a straight line until it lands on the end. */
  lemma {:induction false} DstIsStraight(p: int, base: int, length: int, inc: int, k: nat)
    requires forall j: nat | 0 < j <= k :: p + j * inc != base + length
    ensures DstAt(p, base, length, inc, k) == p + k * inc
  {
    if k > 0 {
      DstIsStraight(p, base, length, inc, k - 1);
      assert p + k * inc != base + length;
      assert k * inc == (k - 1) * inc + inc;
    }
  }

  /** There it starts again from the base. */
  lemma {:induction false} DstRestarts(p: int, base: int, length: int, inc: int, m: nat, k: nat)
    requires m > 0 && p + m * inc == base + length && forall j: nat | 0 < j < m :: p + j * inc != base + length
    ensures DstAt(p, base, length, inc, m + k) == DstAt(base, base, length, inc, k)
  {
    if k > 0 {
      DstRestarts(p, base, length, inc, m, k - 1);
    } else {
      forall j: nat | 0 < j <= m - 1
        ensures p + j * inc != base + length
      {
        assert j < m;
      }
      DstIsStraight(p, base, length, inc, m - 1);
      assert m * inc == (m - 1) * inc + inc;
    }
  }

  /** With a positive stride that divides the length and the distance to the base, that is the offset
      modulo the length. */
  lemma {:induction false} DstIsModular(base: int, inc: int, m: nat, i: nat, k: nat)
    requires inc > 0 && i < m
    ensures 0 <= (i + k) % m < m
    ensures DstAt(base + i * inc, base, m * inc, inc, k) == base + (i + k) % m * inc
  {
    if k == 0 {
      DivModUnique(i, m, 0, i);
    } else {
      DstIsModular(base, inc, m, i, k - 1);
      var r := (i + k - 1) % m;
      NextIsModular(i + k - 1, 1, m);
      LandsOnEnd(r, m, inc);
    }
  }

  lemma LandsOnEnd(r: int, m: int, inc: int)
    requires inc > 0 && 0 <= r < m
    ensures r * inc + inc == (r + 1) * inc
    ensures r * inc + inc == m * inc <==> r + 1 == m
  {
    if r + 1 < m {
      assert (m - r) * inc == m * inc - r * inc;
      Squeeze(inc, 1, 1, m - r);
    }
  }

  function Delivered<T>(mem: seq<T>, p: int, base: int, length: int, inc: int, xs: seq<T>): (r: seq<T>)
    requires forall i | 0 <= i < |xs| :: 0 <= DstAt(p, base, length, inc, i) < |mem|
    ensures |r| == |mem|
  {
    if xs == [] then mem
    else
      var n := |xs| - 1;
      Delivered(mem, p, base, length, inc, xs[..n])[DstAt(p, base, length, inc, n) := xs[n]]
  }

  method Read<T>(circBuffer: array<T>, L: q31, readOffset: q31, bufferInc: q31,
                 mem: array<T>, dst: int, base: int, length: int, dstInc: int, blockSize: u32)
    returns (newOffset: q31)
    requires Visits(readOffset, bufferInc, L, blockSize, circBuffer.Length)
    requires mem != circBuffer
    requires forall i | 0 <= i < blockSize :: 0 <= DstAt(dst, base, length, dstInc, i) < mem.Length
    modifies mem
    ensures mem[..] == Delivered(old(mem[..]), dst, base, length, dstInc,
                                 ReadOut(circBuffer[..], readOffset, bufferInc, L, blockSize))
    ensures newOffset == Advance(readOffset, bufferInc, L, blockSize)
  {
    hide I32, InWord;
    var i := blockSize;
    var rOffset: q31 := readOffset;
    var p := dst;
    while i > 0
      invariant 0 <= i <= blockSize
      invariant rOffset == Advance(readOffset, bufferInc, L, blockSize - i)
      invariant p == DstAt(dst, base, length, dstInc, blockSize - i)
      invariant circBuffer[..] == old(circBuffer[..])
      invariant mem[..] == Delivered(old(mem[..]), dst, base, length, dstInc,
                                     ReadOut(circBuffer[..], readOffset, bufferInc, L, blockSize - i))
    {
      assert VisitAt(readOffset, bufferInc, L, blockSize - i, circBuffer.Length);
      mem[p] := circBuffer[rOffset];
      p := p + dstInc;
      if p == base + length {
        p := base;
      }
      UpdateExact(rOffset, bufferInc, L);
      var sum := I32(rOffset + bufferInc);
      rOffset := if sum >= L then I32(sum - L) else sum;
      i := i - 1;
    }
    newOffset := rOffset;
  }

  /** Reading back from any delay inside the window returns exactly that slice of the history, in
      order. */
  lemma {:induction false} ReadReturnsHistory<T>(buf: seq<T>, offset: int, inc: int, L: int, xs: seq<T>,
                                                 p: nat, delay: nat, n: nat)
    requires Steps(offset, inc, L) && L <= |buf| && FreshFor(inc, L, p)
    requires 0 < delay <= |xs| && delay <= p && n <= delay
    ensures var (b, o) := Written(buf, offset, inc, L, xs);
            ReadOut(b, Back(o, inc, L, delay - 1), inc, L, n) == xs[|xs| - delay..|xs| - delay + n]
  {
    if n > 0 {
      ReadReturnsHistory(buf, offset, inc, L, xs, p, delay, n - 1);
      var (b, o) := Written(buf, offset, inc, L, xs);
      AdvanceFromBack(o, inc, L, delay - 1, n - 1);
      HistoryWindow(buf, offset, inc, L, xs, p, delay - n);
    }
  }

  lemma ReadOverPeriod<T>(buf: seq<T>, offset: int, inc: int, L: int, xs: seq<T>, delay: nat, n: nat)
    requires Steps(offset, inc, L) && L <= |buf|
    requires 0 < delay <= |xs| && delay <= Period(inc, L) && n <= delay
    ensures var (b, o) := Written(buf, offset, inc, L, xs);
            ReadOut(b, Back(o, inc, L, delay - 1), inc, L, n) == xs[|xs| - delay..|xs| - delay + n]
  {
    FreshExactlyWhen(inc, L, delay);
    ReadReturnsHistory(buf, offset, inc, L, xs, delay, delay, n);
  }

  lemma {:induction false} AdvanceFromBack(offset: int, inc: int, L: int, k: nat, i: nat)
    requires Steps(offset, inc, L) && i <= k
    ensures Advance(Back(offset, inc, L, k), inc, L, i) == Back(offset, inc, L, k - i)
  {
    if i > 0 {
      AdvanceFromBack(offset, inc, L, k, i - 1);
      NextFromBack(offset, inc, L, k - i + 1);
    }
  }

  /** A destination with stride 1 is itself a circular buffer: what is delivered is what a write of
      the same samples would leave there, and nothing outside it changes. */
  lemma {:induction false} DestinationIsCircular<T>(mem: seq<T>, p: nat, base: nat, length: nat, xs: seq<T>)
    requires base <= p < base + length <= |mem|
    ensures forall i: nat | i < |xs| :: base <= DstAt(p, base, length, 1, i) < base + length
    ensures var (w, e) := Written(mem[base..base + length], p - base, 1, length, xs);
            DstAt(p, base, length, 1, |xs|) == base + e
            && Delivered(mem, p, base, length, 1, xs) == mem[..base] + w + mem[base + length..]
  {
    if xs != [] {
      DestinationIsCircular(mem, p, base, length, xs[..|xs| - 1]);
    }
  }

  /** What a read delivers after writes, as a write of the slice of history into the destination. */
  lemma DeliveredSlice<T>(mem: seq<T>, p: nat, base: nat, length: nat, ys: seq<T>, j: nat)
    requires base <= p < base + length <= |mem| && j < length
    ensures forall i: nat | i < |ys| :: base <= DstAt(p, base, length, 1, i) < base + length
    ensures var k := (DstAt(p, base, length, 1, |ys|) - base - 1 - j) % length;
            Delivered(mem, p, base, length, 1, ys)[base + j]
            == if k < |ys| then ys[|ys| - 1 - k] else mem[base + j]
  {
    hide Written, Delivered, DstAt;
    DestinationIsCircular(mem, p, base, length, ys);
    HistoryDeterminesBuffer(mem[base..base + length], p - base, length, ys, j);
    var (w, e) := Written(mem[base..base + length], p - base, 1, length, ys);
    assert DstAt(p, base, length, 1, |ys|) - base - 1 - j == e - 1 - j;
  }

  /** Writing and then reading: after any run of writes with increment 1, a read from any delay in the
      window leaves in destination cell j the latest sample of that slice of history that falls on
      it, and the old content where none does. */
  lemma ReadAfterWrites<T>(buf: seq<T>, offset: int, L: int, xs: seq<T>, delay: nat, n: nat,
                           mem: seq<T>, p: nat, base: nat, length: nat, j: nat)
    requires Steps(offset, 1, L) && L <= |buf|
    requires 0 < delay <= |xs| && delay <= L && n <= delay
    requires base <= p < base + length <= |mem| && j < length
    ensures forall i: nat | i < n :: base <= DstAt(p, base, length, 1, i) < base + length
    ensures var (b, o) := Written(buf, offset, 1, L, xs);
            var k := (DstAt(p, base, length, 1, n) - base - 1 - j) % length;
            Delivered(mem, p, base, length, 1, ReadOut(b, (o - delay) % L, 1, L, n))[base + j]
            == if k < n then xs[|xs| - delay + n - 1 - k] else mem[base + j]
  {
    hide Written, ReadOut, Delivered, DstAt, Stride;
    OneIsFresh(L);
    StrideIsProduct(1, delay);
    ReadReturnsHistory(buf, offset, 1, L, xs, L, delay, n);
    DeliveredSlice(mem, p, base, length, xs[|xs| - delay..|xs| - delay + n], j);
  }

  /** Any destination stride: the cell holds the last sample delivered to it, number i, or its old
      content if there is none (i = -1). */
  lemma {:induction false} DeliveredLast<T>(mem: seq<T>, p: int, base: int, length: int, inc: int, xs: seq<T>,
                                            i: int, j: nat)
    requires forall k | 0 <= k < |xs| :: 0 <= DstAt(p, base, length, inc, k) < |mem|
    requires j < |mem| && -1 <= i < |xs| && (i >= 0 ==> DstAt(p, base, length, inc, i) == j)
    requires forall k: nat | i < k < |xs| :: DstAt(p, base, length, inc, k) != j
    ensures Delivered(mem, p, base, length, inc, xs)[j] == if i < 0 then mem[j] else xs[i]
  {
    hide DstAt;
    if xs != [] && i < |xs| - 1 {
      DeliveredLast(mem, p, base, length, inc, xs[..|xs| - 1], i, j);
    }
  }

  /** A whole session: after any run of block writes a read from any delay in the window, to any
      destination stride, leaves in each cell the last sample of that slice of the concatenated
      history delivered there, and leaves every other cell alone. */
  lemma ReadAfterBlocks<T>(buf: seq<T>, offset: u16, L: int, blocks: seq<seq<T>>, delay: nat, n: nat,
                           mem: seq<T>, p: int, base: int, length: int, dstInc: int, i: int, j: nat)
    requires Steps(offset, 1, L) && L <= |buf| && L <= 0x1_0000
    requires 0 < delay <= |Flatten(blocks)| && delay <= L && n <= delay
    requires forall k | 0 <= k < n :: 0 <= DstAt(p, base, length, dstInc, k) < |mem|
    requires j < |mem| && -1 <= i < n && (i >= 0 ==> DstAt(p, base, length, dstInc, i) == j)
    requires forall k: nat | i < k < n :: DstAt(p, base, length, dstInc, k) != j
    ensures var (b, o) := RunBlocks(buf, offset, L, blocks);
            var xs := Flatten(blocks);
            Delivered(mem, p, base, length, dstInc, ReadOut(b, (o - delay) % L, 1, L, n))[j]
            == if i < 0 then mem[j] else xs[|xs| - delay + i]
  {
    hide Written, RunBlocks, Flatten, ReadOut, Delivered, DstAt, Stride;
    var xs := Flatten(blocks);
    BlocksAreOneHistory(buf, offset, L, blocks);
    OneIsFresh(L);
    StrideIsProduct(1, delay);
    ReadReturnsHistory(buf, offset, 1, L, xs, L, delay, n);
    DeliveredLast(mem, p, base, length, dstInc, xs[|xs| - delay..|xs| - delay + n], i, j);
  }
}
