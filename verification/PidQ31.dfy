/** The Q31 incremental PID controller: its wrapping arithmetic, and what a whole run computes. */
module PidQ31 {
  import opened Arith
  import opened CInt
  import PidLaw

  datatype Gains = Gains(a0: q31, a1: q31, a2: q31)

  /** state[0], state[1] and state[2]: the last two inputs and the last output. */
  datatype State = State(x1: q31, x2: q31, y: q31)

  /** The 64-bit accumulator, wrapping at each addition. */
  function Accumulator(g: Gains, s: State, x: q31): q63 {
    I64(I64(I64(g.a0 * x) + I64(g.a1 * s.x1)) + I64(g.a2 * s.x2))
  }

  function Step(g: Gains, s: State, x: q31): State {
    State(x, s.x1, I32(I32(Accumulator(g, s, x) / 0x8000_0000) + s.y))
  }

  class Instance {
    var A0: q31
    var A1: q31
    var A2: q31
    const state: array<q31>

    constructor (g: Gains)
      ensures fresh(state) && state.Length == 3
      ensures Coefficients() == g && View() == State(0, 0, 0)
    {
      A0, A1, A2 := g.a0, g.a1, g.a2;
      state := new q31[3](_ => 0);
    }

    function Coefficients(): Gains
      reads this
    {
      Gains(A0, A1, A2)
    }

    function View(): State
      requires state.Length == 3
      reads this, state
    {
      State(state[0], state[1], state[2])
    }

    method Process(x: q31) returns (out: q31)
      requires state.Length == 3
      modifies state
      ensures View() == Step(Coefficients(), old(View()), x)
      ensures out == View().y
    {
      hide I64, I32;
      var acc := I64(A0 * x);
      acc := I64(acc + I64(A1 * state[0]));
      acc := I64(acc + I64(A2 * state[1]));
      out := I32(acc / 0x8000_0000);
      out := I32(out + state[2]);
      state[1] := state[0];
      state[0] := x;
      state[2] := out;
    }

    /** Feeding a block of samples one call at a time performs the run the laws below are about. */
    method ProcessAll(xs: seq<q31>) returns (ys: seq<q31>)
      requires state.Length == 3
      modifies state
      ensures View() == Run(Coefficients(), old(View()), xs)
      ensures |ys| == |xs|
      ensures forall k | 0 <= k < |xs| :: ys[k] == Run(Coefficients(), old(View()), xs[..k + 1]).y
    {
      hide Step;
      ys := [];
      assert xs[..0] == [];
      for i := 0 to |xs|
        invariant View() == Run(Coefficients(), old(View()), xs[..i])
        invariant |ys| == i
        invariant forall k | 0 <= k < i :: ys[k] == Run(Coefficients(), old(View()), xs[..k + 1]).y
      {
        assert xs[..i + 1] == xs[..i] + [xs[i]];
        var y := Process(xs[i]);
        ys := ys + [y];
      }
      assert xs[..|xs|] == xs;
    }
  }

  // ---------------------------------------------------------------- whole runs

  function Run(g: Gains, s: State, xs: seq<q31>): State {
    if xs == [] then s
    else Step(g, Run(g, s, xs[..|xs| - 1]), xs[|xs| - 1])
  }

  function Exact(g: Gains): PidLaw.Gains { PidLaw.Gains(g.a0, g.a1, g.a2) }

  /** The output without any wrap: the initial output plus each step's truncated increment. */
  function UnboundedOutput(g: Gains, s: State, xs: seq<q31>): int {
    s.y + PidLaw.TruncatedSum(0x8000_0000, Exact(g), s.x1, s.x2, xs)
  }

  /** Wrapping at 64 bits before the shift and at 32 bits after it is invisible modulo 2^32: one
      step adds the exact truncated increment and wraps once. */
  lemma StepWrapsOnce(g: Gains, s: State, x: q31, u: int)
    requires s.y == I32(u)
    ensures Step(g, s, x).y == I32(u + (g.a0 * x + g.a1 * s.x1 + g.a2 * s.x2) / 0x8000_0000)
  {
    hide I64, I32;
    var p, q, r := g.a0 * x, g.a1 * s.x1, g.a2 * s.x2;
    var e := p + q + r;
    var k := NarrowAcc(p, q, r);
    WrapTwice(e / 0x8000_0000, k, u);
  }

  lemma NarrowAcc(p: int, q: int, r: int) returns (k: int)
    ensures I64(I64(I64(p) + I64(q)) + I64(r)) / 0x8000_0000
            == (p + q + r) / 0x8000_0000 + 0x1_0000_0000 * k
  {
    hide I64;
    var k1 := Residue64(p);
    var k2 := Residue64(q);
    var k3 := Residue64(r);
    var k4 := Residue64(I64(p) + I64(q));
    var k5 := Residue64(I64(I64(p) + I64(q)) + I64(r));
    ShiftedResidue(p + q + r, k1 + k2 + k3 + k4 + k5);
    k := 2 * (k1 + k2 + k3 + k4 + k5);
  }

  lemma ShiftedResidue(e: int, k: int)
    ensures (e + k * 0x1_0000_0000_0000_0000) / 0x8000_0000 == e / 0x8000_0000 + k * 0x2_0000_0000
  {
  }

  lemma Residue64(x: int) returns (k: int)
    ensures I64(x) == x + k * 0x1_0000_0000_0000_0000
  {
    k := -((x + 0x8000_0000_0000_0000) / 0x1_0000_0000_0000_0000);
  }

  lemma WrapTwice(e: int, k: int, u: int)
    ensures I32(I32(e + 0x1_0000_0000 * k) + I32(u)) == I32(u + e)
  {
    hide I32;
    I32Congruent(e, k);
    var i := Residue32(e);
    var j := Residue32(u);
    I32Congruent(u + e, i + j);
  }

  lemma Residue32(x: int) returns (k: int)
    ensures I32(x) == x + 0x1_0000_0000 * k
  {
    k := -((x + 0x8000_0000) / 0x1_0000_0000);
  }

  /** Every run, any gains, any inputs, any initial state: the output is the unbounded output
      reduced once to 32 bits. In particular it is the unbounded output exactly when that fits. */
  lemma {:induction false} RunIsWrappedOutput(g: Gains, s: State, xs: seq<q31>)
    ensures var t, u := Run(g, s, xs), UnboundedOutput(g, s, xs);
            t.y == I32(u)
            && (t.y == u <==> -0x8000_0000 <= u < 0x8000_0000)
            && t.x1 == PidLaw.Input(s.x1, s.x2, xs, |xs| - 1)
            && t.x2 == if xs == [] then s.x2 else PidLaw.Input(s.x1, s.x2, xs, |xs| - 2)
  {
    hide I32;
    if xs != [] {
      var m, n := xs[..|xs| - 1], |xs| - 1;
      RunIsWrappedOutput(g, s, m);
      StepWrapsOnce(g, Run(g, s, m), xs[n], UnboundedOutput(g, s, m));
    }
    I32Exact(UnboundedOutput(g, s, xs));
    I32Exact(s.y);
  }

  /** The whole-run law. After any run from any state, the output is one 32-bit reduction of a value
      that tracks the positional PID law within one unit per step; the output itself tracks the
      law exactly when that value fits, and it does whenever the law stays clear of the limits. */
  lemma WholeRunLaw(g: Gains, kp: int, ki: int, kd: int, s: State, xs: seq<q31>)
    requires PidLaw.Derived(Exact(g), kp, ki, kd)
    ensures var y, u := Run(g, s, xs).y, UnboundedOutput(g, s, xs);
            var law := 0x8000_0000 * s.y + PidLaw.Law(kp, ki, kd, s.x1, s.x2, xs);
            && y == I32(u)
            && 0x8000_0000 * u <= law <= 0x8000_0000 * u + 0x7FFF_FFFF * |xs|
            && (y == u <==> -0x8000_0000 <= u < 0x8000_0000)
            && (-0x4000_0000_0000_0000 + 0x7FFF_FFFF * |xs| <= law < 0x4000_0000_0000_0000 ==> y == u)
            && (|xs| < 0x1_0000_0000 ==>
                 (0x8000_0000 * y <= law <= 0x8000_0000 * y + 0x7FFF_FFFF * |xs|
                  <==> -0x8000_0000 <= u < 0x8000_0000))
  {
    hide I32, Run;
    RunIsWrappedOutput(g, s, xs);
    PidLaw.SumTracksLaw(0x8000_0000, Exact(g), kp, ki, kd, s.x1, s.x2, xs);
    var y, u := Run(g, s, xs).y, UnboundedOutput(g, s, xs);
    if y != u {
      WrapIsFar(u);
    }
  }

  lemma WrapIsFar(u: int)
    requires I32(u) != u
    ensures I32(u) <= u - 0x1_0000_0000 || I32(u) >= u + 0x1_0000_0000
  {
  }

  // ---------------------------------------------------------------- the documented saturation

  /** The previous output plus the exact truncated increment: what a step has to bring into 32 bits. */
  function Next(g: Gains, s: State, x: q31): int {
    s.y + (g.a0 * x + g.a1 * s.x1 + g.a2 * s.x2) / 0x8000_0000
  }

  /** The documented step, whose result saturates. */
  function SaturatingStep(g: Gains, s: State, x: q31): State {
    State(x, s.x1, Clamp32(Next(g, s, x)))
  }

  function SaturatingRun(g: Gains, s: State, xs: seq<q31>): State {
    if xs == [] then s
    else SaturatingStep(g, SaturatingRun(g, s, xs[..|xs| - 1]), xs[|xs| - 1])
  }

  /** The values that wrap to what they saturate to: those in range, and the two that a full turn takes
      back to the limit they are beyond. */
  predicate WrapsToLimit(v: int) {
    -0x8000_0000 <= v < 0x8000_0000 || v == 0x1_7FFF_FFFF || v == -0x1_8000_0000
  }

  /** A step gives the documented result exactly when its sum is one of these. */
  lemma StepSaturatesExactlyWhen(g: Gains, s: State, x: q31)
    ensures Step(g, s, x) == SaturatingStep(g, s, x) <==> WrapsToLimit(Next(g, s, x))
  {
    hide I32;
    I32Exact(s.y);
    StepWrapsOnce(g, s, x, s.y);
    ProductBound(g.a0, x, 0x8000_0000, 0x8000_0000);
    ProductBound(g.a1, s.x1, 0x8000_0000, 0x8000_0000);
    ProductBound(g.a2, s.x2, 0x8000_0000, 0x8000_0000);
    WrapIsClamp(Next(g, s, x));
  }

  lemma WrapIsClamp(v: int)
    requires -0x2_0000_0000 <= v <= 0x2_0000_0000
    ensures I32(v) == Clamp32(v) <==> WrapsToLimit(v)
  {
  }

  /** After k samples the controller and the documented one are in the same state. */
  predicate AgreeAt(g: Gains, s: State, xs: seq<q31>, k: nat)
    requires k <= |xs|
  {
    Run(g, s, xs[..k]) == SaturatingRun(g, s, xs[..k])
  }

  /** The sum of the documented run at sample k wraps to what it saturates to. */
  predicate HarmlessAt(g: Gains, s: State, xs: seq<q31>, k: nat)
    requires k < |xs|
  {
    WrapsToLimit(Next(g, SaturatingRun(g, s, xs[..k]), xs[k]))
  }

  /** A whole run: the output is the documented one at every sample exactly when no sum of the documented
      run leaves the range, but for those two values. */
  lemma RunSaturatesExactlyWhen(g: Gains, s: State, xs: seq<q31>)
    ensures (forall k | 0 <= k <= |xs| :: AgreeAt(g, s, xs, k))
            <==> forall k | 0 <= k < |xs| :: HarmlessAt(g, s, xs, k)
  {
    RunAgreesTo(g, s, xs, |xs|);
  }

  lemma {:induction false} RunAgreesTo(g: Gains, s: State, xs: seq<q31>, n: nat)
    requires n <= |xs|
    ensures (forall k | 0 <= k <= n :: AgreeAt(g, s, xs, k)) <==> forall k | 0 <= k < n :: HarmlessAt(g, s, xs, k)
  {
    hide AgreeAt, HarmlessAt;
    if n == 0 {
      StartsAgreed(g, s, xs);
    } else {
      RunAgreesTo(g, s, xs, n - 1);
      if AgreeAt(g, s, xs, n - 1) {
        AgreesOnce(g, s, xs, n - 1);
      }
    }
  }

  lemma StartsAgreed(g: Gains, s: State, xs: seq<q31>)
    ensures AgreeAt(g, s, xs, 0)
  {
    assert xs[..0] == [];
  }

  lemma AgreesOnce(g: Gains, s: State, xs: seq<q31>, n: nat)
    requires n < |xs| && AgreeAt(g, s, xs, n)
    ensures AgreeAt(g, s, xs, n + 1) <==> HarmlessAt(g, s, xs, n)
  {
    hide Step, SaturatingStep, WrapsToLimit, Next;
    assert xs[..n + 1][..n] == xs[..n];
    StepSaturatesExactlyWhen(g, SaturatingRun(g, s, xs[..n]), xs[n]);
  }

  // ---------------------------------------------------------------- the overflow advice

  /** No addition in the accumulator wraps, and neither does the narrowing of its high word. */
  predicate AccumulatorFits(g: Gains, s: State, x: q31) {
    && I64(g.a0 * x) == g.a0 * x
    && I64(g.a0 * x + g.a1 * s.x1) == g.a0 * x + g.a1 * s.x1
    && Accumulator(g, s, x) == g.a0 * x + g.a1 * s.x1 + g.a2 * s.x2
    && I32(Accumulator(g, s, x) / 0x8000_0000) == Accumulator(g, s, x) / 0x8000_0000
  }

  predicate InputsWithin(s: State, x: q31, bound: int) {
    -bound <= x <= bound && -bound <= s.x1 <= bound && -bound <= s.x2 <= bound
  }

  /** Scaling the input protects the accumulator and its narrowing for all gains exactly down to a
      third of full scale; the documented advice of two bits is inside that. */
  lemma InputScalingExactlyWhen(bound: int)
    requires 0 <= bound < 0x8000_0000
    ensures (forall g: Gains, s: State, x: q31 | InputsWithin(s, x, bound) :: AccumulatorFits(g, s, x))
            <==> bound <= 715_827_882
  {
    if bound <= 715_827_882 {
      forall g: Gains, s: State, x: q31 | InputsWithin(s, x, bound)
        ensures AccumulatorFits(g, s, x)
      {
        ScaledInputFits(g, s, x);
      }
    } else {
      var g := Gains(-0x8000_0000, -0x8000_0000, -0x8000_0000);
      var s := State(-bound, -bound, 0);
      assert InputsWithin(s, -bound, bound);
      LargeInputWraps(bound);
    }
  }

  lemma ScaledInputFits(g: Gains, s: State, x: q31)
    requires InputsWithin(s, x, 715_827_882)
    ensures AccumulatorFits(g, s, x)
  {
    hide I64, I32;
    ProductBound(g.a0, x, 0x8000_0000, 715_827_882);
    ProductBound(g.a1, s.x1, 0x8000_0000, 715_827_882);
    ProductBound(g.a2, s.x2, 0x8000_0000, 715_827_882);
    I64Exact(g.a0 * x);
    I64Exact(g.a1 * s.x1);
    I64Exact(g.a2 * s.x2);
    I64Exact(g.a0 * x + g.a1 * s.x1);
    I64Exact(g.a0 * x + g.a1 * s.x1 + g.a2 * s.x2);
    I32Exact(Accumulator(g, s, x) / 0x8000_0000);
  }

  lemma LargeInputWraps(bound: int)
    requires 715_827_882 < bound < 0x8000_0000
    ensures !AccumulatorFits(Gains(-0x8000_0000, -0x8000_0000, -0x8000_0000),
                             State(-bound, -bound, 0), -bound)
  {
    hide I64, I32;
    var e := 0x8000_0000 * (3 * bound);
    assert e / 0x8000_0000 == 3 * bound;
    I32Exact(3 * bound);
  }

  /** Scaling does not protect the sum with the previous output: inputs scaled by two bits, the
      largest integral gain, and after five steps the output has wrapped to a negative value. (The
      documentation says the result saturates; the code has no saturation.) */
  lemma OutputSumWrapsCounterexample()
    ensures var xs := [0x2000_0000, 0x2000_0000, 0x2000_0000, 0x2000_0000, 0x2000_0000];
            var g := Gains(0x7FFF_FFFF, 0, 0);
            PidLaw.Derived(Exact(g), 0, 0x7FFF_FFFF, 0)
            && Run(g, State(0, 0, 0), xs).y == -1_610_612_741
            && UnboundedOutput(g, State(0, 0, 0), xs) > 0x7FFF_FFFF
  {
    hide I32, Run;
    var xs := [0x2000_0000, 0x2000_0000, 0x2000_0000, 0x2000_0000, 0x2000_0000];
    ConstantRun(xs);
    RunIsWrappedOutput(Gains(0x7FFF_FFFF, 0, 0), State(0, 0, 0), xs);
    I32Congruent(-1_610_612_741, 1);
    I32Exact(-1_610_612_741);
  }

  lemma {:induction false} ConstantRun(xs: seq<int>)
    requires forall i | 0 <= i < |xs| :: xs[i] == 0x2000_0000
    ensures PidLaw.TruncatedSum(0x8000_0000, PidLaw.Gains(0x7FFF_FFFF, 0, 0), 0, 0, xs)
            == 0x1FFF_FFFF * |xs|
  {
    if xs != [] {
      ConstantRun(xs[..|xs| - 1]);
    }
  }
}
