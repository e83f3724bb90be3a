/** The Q15 incremental PID controller, in its scalar and its packed (SIMD) build: each step is a
    saturated increment, and what that means for whole runs. */
module PidQ15 {
  import opened Arith
  import opened CInt
  import opened Saturation
  import PackedSimd
  import PidLaw

  datatype Gains = Gains(a0: q15, a1: q15, a2: q15)

  datatype State = State(x1: q15, x2: q15, y: q15)

  function Products(g: Gains, s: State, x: q15): int {
    g.a0 * x + g.a1 * s.x1 + g.a2 * s.x2
  }

  /** The step both builds are proved against: the increment comes from gains and inputs alone, and
      the output saturates. `extra` is what the packed build adds to the products. */
  function Step(g: Gains, s: State, x: q15, extra: int): State {
    State(x, s.x1, Clamp16(s.y + (Products(g, s, x) + extra) / 0x8000))
  }

  /** The sign extensions of a negative gain and a negative input multiply to 1 in the unused high
      halves of the packed product. */
  function PackedExtra(g: Gains, x: q15): int {
    if g.a0 < 0 && x < 0 then 1 else 0
  }

  lemma ProductFits(a: q15, b: q15)
    ensures -0x4000_0000 <= a * b <= 0x4000_0000 && I32(a * b) == a * b
  {
    ProductBound(a, b, 0x8000, 0x8000);
  }

  /** The scaled previous output passes through the shift untouched, and the sums fit, so the final
      shift and saturation see the exact value. */
  lemma SaturatedSum(p: int, y: q15)
    requires -0xC000_0000 <= p <= 0xC000_0001
    ensures I32(y * 0x8000) == y * 0x8000
    ensures I32((p + y * 0x8000) / 0x8000) == y + p / 0x8000
    ensures I16(SatTo(y + p / 0x8000, 16)) == Clamp16(y + p / 0x8000)
  {
    hide I16;
    PackedSimd.LaneLimits();
    assert -0x1_8000 <= p / 0x8000 <= 0x1_8000;
    assert (p + y * 0x8000) / 0x8000 == y + p / 0x8000;
    I16Exact(Clamp16(y + p / 0x8000));
  }

  class ScalarInstance {
    var A0: q15
    var A1: q15
    var A2: q15
    const state: array<q15>

    constructor (g: Gains)
      ensures fresh(state) && state.Length == 3
      ensures Coefficients() == g && View() == State(0, 0, 0)
    {
      A0, A1, A2 := g.a0, g.a1, g.a2;
      state := new q15[3](_ => 0);
    }

    function Coefficients(): Gains
      reads this
    {
      Gains(A0, A1, A2)
    }

    function View(): State
      requires state.Length == 3
      reads this, state
    {
      State(state[0], state[1], state[2])
    }

    /** The scalar build. Every product is 32 bits wide and every sum 64; the contract says that no
        gain, input or state makes either lose a bit. */
    method Process(x: q15) returns (out: q15)
      requires state.Length == 3
      modifies state
      ensures View() == Step(Coefficients(), old(View()), x, 0)
      ensures out == View().y
    {
      hide I64, I32, I16;
      var x1: int, x2: int, y: int := state[0], state[1], state[2];
      ProductFits(A0, x);
      ProductFits(A1, x1);
      ProductFits(A2, x2);
      var acc: int := I32(A0 * x);
      I64Exact(acc + A1 * x1);
      acc := I64(acc + I32(A1 * x1));
      I64Exact(acc + A2 * x2);
      acc := I64(acc + I32(A2 * x2));
      SaturatedSum(acc, y);
      I64Exact(acc + y * 0x8000);
      acc := I64(acc + I32(y * 0x8000));
      var sat := Ssat(I32(acc / 0x8000), 16);
      out := I16(sat);
      state[1] := state[0];
      state[0] := x;
      state[2] := out;
    }
  }

  // ---------------------------------------------------------------- the packed build

  /** `__SMUAD`: the two halfword products, added. */
  function Smuad(x: q31, y: q31): q31 {
    I32(I32(x / 0x1_0000 * (y / 0x1_0000))
        + I32(I32(x * 0x1_0000) / 0x1_0000 * (I32(y * 0x1_0000) / 0x1_0000)))
  }

  /** `__SMLALD`: the two halfword products, added to a 64-bit accumulator. */
  function Smlald(x: q31, y: q31, sum: q63): q63 {
    I64(I64(sum + I16(x / 0x1_0000) * I16(y / 0x1_0000)) + I16(x) * I16(y))
  }

  /** Two adjacent halfwords read as one word, the first in the low half. */
  function ReadPair(lo: q15, hi: q15): q31 {
    I32(U16(hi) * 0x1_0000 + U16(lo))
  }

  lemma HalvesOfPair(lo: q15, hi: q15)
    ensures PackedSimd.Half(ReadPair(lo, hi), 0) == lo && PackedSimd.Half(ReadPair(lo, hi), 1) == hi
  {
    hide I32, I16, U16, PackedSimd.Half;
    PackedSimd.HalvesOfWord(U16(hi), U16(lo));
    HalfRoundTrip(lo);
    HalfRoundTrip(hi);
  }

  lemma HalfRoundTrip(x: q15)
    ensures I16(U16(x)) == x
  {
  }

  /** Sign-extended operands: the high halves are 0 or -1, so their product adds 1 exactly when
      both operands are negative. */
  lemma SmuadOfSignExtended(a: q15, x: q15)
    ensures Smuad(a, x) == a * x + (if a < 0 && x < 0 then 1 else 0)
  {
    hide I32;
    SignExtended(a);
    SignExtended(x);
    ProductFits(a, x);
    I32Exact(a / 0x1_0000 * (x / 0x1_0000));
    I32Exact(a * x + (if a < 0 && x < 0 then 1 else 0));
  }

  /** Any operands: the sum of both lane products, which wraps only when all four lanes are -2^15. */
  lemma SmuadIsSum(x: q31, y: q31)
    ensures var p := PackedSimd.Half(x, 1) * PackedSimd.Half(y, 1) + PackedSimd.Half(x, 0) * PackedSimd.Half(y, 0);
            -0x7FFF_FFFF <= p <= 0x8000_0000 && Smuad(x, y) == if p == 0x8000_0000 then -0x8000_0000 else p
  {
    hide I32, PackedSimd.Half;
    PackedSimd.HalvesByShift(x);
    PackedSimd.HalvesByShift(y);
    LowLane(x);
    LowLane(y);
    var a: q15, b: q15 := PackedSimd.Half(x, 1), PackedSimd.Half(y, 1);
    var c: q15, d: q15 := PackedSimd.Half(x, 0), PackedSimd.Half(y, 0);
    ProductFits(a, b);
    ProductFits(c, d);
    I32Exact(a * b);
    SumOfTwo(a, b, c, d);
  }

  lemma LowLane(x: q31)
    ensures I32(x * 0x1_0000) / 0x1_0000 == I16(x)
  {
  }

  lemma SumOfTwo(a: q15, b: q15, c: q15, d: q15)
    ensures var p := a * b + c * d;
            -0x7FFF_FFFF <= p <= 0x8000_0000 && I32(p) == if p == 0x8000_0000 then -0x8000_0000 else p
  {
    hide I32;
    ProductBound(a, b, 0x8000, 0x8000);
    ProductBound(c, d, 0x8000, 0x8000);
    BelowSquare(a, b);
    BelowSquare(c, d);
    I32Exact(a * b + c * d);
    assert I32(0x8000_0000) == -0x8000_0000 by { I32Congruent(-0x8000_0000, 1); I32Exact(-0x8000_0000); }
  }

  lemma BelowSquare(a: q15, b: q15)
    ensures a * b > -0x4000_0000
  {
    if a == -0x8000 {
      Between(b, -0x8000, 0x7FFF, 0x8000);
    } else {
      ProductBound(a, b, 0x7FFF, 0x8000);
    }
  }

  lemma SignExtended(a: q15)
    ensures a / 0x1_0000 == if a < 0 then -1 else 0
    ensures I32(a * 0x1_0000) / 0x1_0000 == a
  {
  }

  /** The packed build: A1 holds the second gain in its low half and the third in its high half. */
  class SimdInstance {
    var A0: q15
    var A1: q31
    const state: array<q15>

    constructor (g: Gains)
      ensures fresh(state) && state.Length == 3
      ensures Coefficients() == g && View() == State(0, 0, 0)
    {
      A0, A1 := g.a0, ReadPair(g.a1, g.a2);
      state := new q15[3](_ => 0);
      new;
      HalvesOfPair(g.a1, g.a2);
    }

    function Coefficients(): Gains
      reads this
    {
      Gains(A0, PackedSimd.Half(A1, 0), PackedSimd.Half(A1, 1))
    }

    function View(): State
      requires state.Length == 3
      reads this, state
    {
      State(state[0], state[1], state[2])
    }

    method Process(x: q15) returns (out: q15)
      requires state.Length == 3
      modifies state
      ensures View() == Step(Coefficients(), old(View()), x, PackedExtra(Coefficients(), x))
      ensures out == View().y
    {
      hide I64, I32, I16, Smuad, ReadPair, PackedSimd.Half;
      var x1: int, x2: int, y: int := state[0], state[1], state[2];
      var acc: int := Smuad(A0, x);
      SmuadOfSignExtended(A0, x);
      var vstate := ReadPair(x1, x2);
      ProductFits(A0, x);
      SmlaldIsSum(A1, x1, x2, acc);
      acc := Smlald(A1, vstate, acc);
      SaturatedSum(acc, y);
      I64Exact(acc + y * 0x8000);
      acc := I64(acc + I32(y * 0x8000));
      var sat := Ssat(I32(acc / 0x8000), 16);
      out := I16(sat);
      state[1] := state[0];
      state[0] := x;
      state[2] := out;
    }
  }

  lemma SmlaldIsSum(w: q31, lo: q15, hi: q15, sum: q63)
    requires -0x4000_0000 <= sum <= 0x4000_0001
    ensures Smlald(w, ReadPair(lo, hi), sum)
            == sum + PackedSimd.Half(w, 0) * lo + PackedSimd.Half(w, 1) * hi
    ensures -0xC000_0000 <= Smlald(w, ReadPair(lo, hi), sum) <= 0xC000_0001
  {
    hide I64, I16, ReadPair, PackedSimd.Half;
    var v := ReadPair(lo, hi);
    HalvesOfPair(lo, hi);
    PackedSimd.HalvesByShift(w);
    PackedSimd.HalvesByShift(v);
    I16Exact(w / 0x1_0000);
    I16Exact(v / 0x1_0000);
    ProductFits(PackedSimd.Half(w, 1), hi);
    ProductFits(PackedSimd.Half(w, 0), lo);
    I64Exact(sum + PackedSimd.Half(w, 1) * hi);
    I64Exact(sum + PackedSimd.Half(w, 1) * hi + PackedSimd.Half(w, 0) * lo);
  }

  // ---------------------------------------------------------------- whole runs

  /** A run of the scalar build, or of the packed build. */
  function Run(packed: bool, g: Gains, s: State, xs: seq<q15>): State {
    if xs == [] then s
    else
      var x := xs[|xs| - 1];
      Step(g, Run(packed, g, s, xs[..|xs| - 1]), x, if packed then PackedExtra(g, x) else 0)
  }

  function Exact(g: Gains): PidLaw.Gains { PidLaw.Gains(g.a0, g.a1, g.a2) }

  lemma {:induction false} RunInputs(packed: bool, g: Gains, s: State, xs: seq<q15>)
    ensures var t := Run(packed, g, s, xs);
            t.x1 == PidLaw.Input(s.x1, s.x2, xs, |xs| - 1)
            && t.x2 == if xs == [] then s.x2 else PidLaw.Input(s.x1, s.x2, xs, |xs| - 2)
  {
    if xs != [] {
      RunInputs(packed, g, s, xs[..|xs| - 1]);
    }
  }

  /** The increment of step n, from gains and inputs only. */
  function Increment(packed: bool, g: Gains, x1: q15, x2: q15, xs: seq<q15>): int
    requires xs != []
  {
    (PidLaw.Products(Exact(g), x1, x2, xs, |xs| - 1)
     + if packed then PackedExtra(g, xs[|xs| - 1]) else 0) / 0x8000
  }

  /** The sum of the increments of a run, and the window its saturations confine the result to. */
  datatype Window = Window(shift: int, lo: q15, hi: q15)

  function RunWindow(packed: bool, g: Gains, x1: q15, x2: q15, xs: seq<q15>): Window {
    if xs == [] then Window(0, -0x8000, 0x7FFF)
    else
      var w, d := RunWindow(packed, g, x1, x2, xs[..|xs| - 1]), Increment(packed, g, x1, x2, xs);
      Window(w.shift + d, Clamp16(w.lo + d), Clamp16(w.hi + d))
  }

  lemma {:induction false} StepAddsIncrement(packed: bool, g: Gains, s: State, xs: seq<q15>)
    requires xs != []
    ensures Run(packed, g, s, xs).y
            == Clamp16(Run(packed, g, s, xs[..|xs| - 1]).y + Increment(packed, g, s.x1, s.x2, xs))
  {
    RunInputs(packed, g, s, xs[..|xs| - 1]);
  }

  /** A whole run, with all its saturations, is one clamped shift of the initial output: every
      output is clamp(y0 + S, L, H), with S, L and H fixed by the gains and the inputs. */
  lemma {:induction false} RunIsClampedShift(packed: bool, g: Gains, s: State, xs: seq<q15>)
    ensures var w := RunWindow(packed, g, s.x1, s.x2, xs);
            w.lo <= w.hi && Run(packed, g, s, xs).y == Clamp(s.y + w.shift, w.lo, w.hi)
  {
    if xs != [] {
      RunIsClampedShift(packed, g, s, xs[..|xs| - 1]);
      StepAddsIncrement(packed, g, s, xs);
      var w := RunWindow(packed, g, s.x1, s.x2, xs[..|xs| - 1]);
      ClampedShifts(s.y + w.shift, w.lo, w.hi, Increment(packed, g, s.x1, s.x2, xs));
      hide Run, Increment;
    }
  }

  lemma ClampedShifts(v: int, lo: q15, hi: q15, d: int)
    requires lo <= hi
    ensures Clamp16(lo + d) <= Clamp16(hi + d)
    ensures Clamp16(Clamp(v, lo, hi) + d) == Clamp(v + d, Clamp16(lo + d), Clamp16(hi + d))
  {
  }

  /** Two runs on the same inputs from different outputs keep their order and never move further
      apart, and at any later time are no further apart than at an earlier one; once equal they
      stay equal. */
  lemma RunsContract(packed: bool, g: Gains, s: State, y: q15, xs: seq<q15>, n: nat)
    requires n <= |xs| && s.y <= y
    ensures var (a, b) := (Run(packed, g, s, xs).y, Run(packed, g, s.(y := y), xs).y);
            var (c, d) := (Run(packed, g, s, xs[..n]).y, Run(packed, g, s.(y := y), xs[..n]).y);
            0 <= b - a <= d - c <= y - s.y
    decreases |xs|
  {
    hide Run, Increment;
    if n < |xs| {
      var m := xs[..|xs| - 1];
      RunsContract(packed, g, s, y, m, n);
      assert m[..n] == xs[..n];
      StepAddsIncrement(packed, g, s, xs);
      StepAddsIncrement(packed, g, s.(y := y), xs);
    } else {
      assert xs[..n] == xs;
      RunIsClampedShift(packed, g, s, xs);
      RunIsClampedShift(packed, g, s.(y := y), xs);
    }
  }

  /** The positional law for every run: the sum of the increments tracks it within one unit per
      step, and the output is the initial output plus that sum exactly when it lies in the
      window; in particular when no step saturated. */
  lemma WholeRunLaw(g: Gains, kp: int, ki: int, kd: int, s: State, xs: seq<q15>)
    requires PidLaw.Derived(Exact(g), kp, ki, kd)
    ensures var w, y := RunWindow(false, g, s.x1, s.x2, xs), Run(false, g, s, xs).y;
            var law := PidLaw.Law(kp, ki, kd, s.x1, s.x2, xs);
            && 0x8000 * w.shift <= law <= 0x8000 * w.shift + 0x7FFF * |xs|
            && y == Clamp(s.y + w.shift, w.lo, w.hi)
            && (y == s.y + w.shift <==> w.lo <= s.y + w.shift <= w.hi)
            && (NeverSaturates(g, s, xs) ==> y == s.y + w.shift)
  {
    hide Run, RunWindow;
    RunIsClampedShift(false, g, s, xs);
    ShiftIsTruncatedSum(g, s.x1, s.x2, xs);
    PidLaw.SumTracksLaw(0x8000, Exact(g), kp, ki, kd, s.x1, s.x2, xs);
    if NeverSaturates(g, s, xs) {
      UnsaturatedRun(g, s, xs);
    }
  }

  lemma {:induction false} ShiftIsTruncatedSum(g: Gains, x1: q15, x2: q15, xs: seq<q15>)
    ensures RunWindow(false, g, x1, x2, xs).shift
            == PidLaw.TruncatedSum(0x8000, Exact(g), x1, x2, xs)
  {
    if xs != [] {
      ShiftIsTruncatedSum(g, x1, x2, xs[..|xs| - 1]);
    }
  }

  /** No step of the run reached a limit. */
  predicate NeverSaturates(g: Gains, s: State, xs: seq<q15>) {
    xs == []
    || (NeverSaturates(g, s, xs[..|xs| - 1])
        && -0x8000 <= Run(false, g, s, xs[..|xs| - 1]).y + Increment(false, g, s.x1, s.x2, xs) <= 0x7FFF)
  }

  lemma {:induction false} UnsaturatedRun(g: Gains, s: State, xs: seq<q15>)
    requires NeverSaturates(g, s, xs)
    ensures Run(false, g, s, xs).y == s.y + RunWindow(false, g, s.x1, s.x2, xs).shift
  {
    if xs != [] {
      UnsaturatedRun(g, s, xs[..|xs| - 1]);
      StepAddsIncrement(false, g, s, xs);
      hide Run, Increment;
    }
  }

  /** Steps at which the packed build's products differ. */
  function ExtraSteps(g: Gains, xs: seq<q15>): nat {
    if xs == [] then 0 else ExtraSteps(g, xs[..|xs| - 1]) + PackedExtra(g, xs[|xs| - 1])
  }

  /** The two builds on the same run from the same state: the packed output is never below the
      scalar one, and above it by at most one unit for each step with a negative first gain and a
      negative input. */
  lemma {:induction false} PackedFollowsScalar(g: Gains, s: State, xs: seq<q15>)
    ensures 0 <= Run(true, g, s, xs).y - Run(false, g, s, xs).y <= ExtraSteps(g, xs)
  {
    if xs != [] {
      PackedFollowsScalar(g, s, xs[..|xs| - 1]);
      StepAddsIncrement(true, g, s, xs);
      StepAddsIncrement(false, g, s, xs);
      ExtraRounds(PidLaw.Products(Exact(g), s.x1, s.x2, xs, |xs| - 1), PackedExtra(g, xs[|xs| - 1]));
      hide Run, PidLaw.Products;
    }
  }

  lemma ExtraRounds(p: int, e: int)
    requires 0 <= e <= 1
    ensures p / 0x8000 <= (p + e) / 0x8000 <= p / 0x8000 + e
    ensures (p + e) / 0x8000 == p / 0x8000 <==> e == 0 || p % 0x8000 != 0x7FFF
  {
  }

  /** One step from the same state: the outputs differ exactly when the extra unit carries through
      the shift and the scalar sum is not at or beyond a limit. */
  lemma OneStepDiffersExactlyWhen(g: Gains, s: State, x: q15)
    ensures var a, b := Step(g, s, x, 0).y, Step(g, s, x, PackedExtra(g, x)).y;
            var sum := s.y + Products(g, s, x) / 0x8000;
            (b == a || b == a + 1)
            && (b != a <==> g.a0 < 0 && x < 0 && Products(g, s, x) % 0x8000 == 0x7FFF
                            && -0x8000 <= sum < 0x7FFF)
  {
    hide Products;
    ExtraRounds(Products(g, s, x), PackedExtra(g, x));
  }
}
