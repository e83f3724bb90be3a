/** The incremental PID form over exact integers: what a run's truncated increments add up to. The
    Q31 controller drops 31 bits per step and the Q15 controller 15, so the dropped power is a
    parameter. */
module PidLaw {

  datatype Gains = Gains(a0: int, a1: int, a2: int)

  /** Input n of a run; n = -1 and n = -2 are the two inputs held in the initial state. */
  function Input(x1: int, x2: int, xs: seq<int>, n: int): int
    requires -2 <= n < |xs|
  {
    if n == -1 then x1 else if n == -2 then x2 else xs[n]
  }

  /** The exact products added at step n. */
  function Products(g: Gains, x1: int, x2: int, xs: seq<int>, n: nat): int
    requires n < |xs|
  {
    g.a0 * Input(x1, x2, xs, n) + g.a1 * Input(x1, x2, xs, n - 1) + g.a2 * Input(x1, x2, xs, n - 2)
  }

  /** The sum of the increments, each truncated separately. */
  function TruncatedSum(b: int, g: Gains, x1: int, x2: int, xs: seq<int>): int
    requires b > 0
  {
    if xs == [] then 0
    else TruncatedSum(b, g, x1, x2, xs[..|xs| - 1]) + Products(g, x1, x2, xs, |xs| - 1) / b
  }

  function Sum(xs: seq<int>): int {
    if xs == [] then 0 else Sum(xs[..|xs| - 1]) + xs[|xs| - 1]
  }

  /** The positional PID law, relative to the initial state. */
  function Law(kp: int, ki: int, kd: int, x1: int, x2: int, xs: seq<int>): int {
    var n := |xs| - 1;
    if n < 0 then 0
    else kp * (Input(x1, x2, xs, n) - x1) + ki * Sum(xs)
         + kd * ((Input(x1, x2, xs, n) - Input(x1, x2, xs, n - 1)) - (x1 - x2))
  }

  /** The derived gains of the incremental form. */
  predicate Derived(g: Gains, kp: int, ki: int, kd: int) {
    g.a0 == kp + ki + kd && g.a1 == -kp - 2 * kd && g.a2 == kd
  }

  /** One step's products advance the positional law. */
  lemma ProductsTelescope(kp: int, ki: int, kd: int, a: int, b: int, c: int)
    ensures (kp + ki + kd) * a + (-kp - 2 * kd) * b + kd * c
            == kp * (a - b) + ki * a + kd * ((a - b) - (b - c))
  {
  }

  lemma LawAdvances(kp: int, ki: int, kd: int, a: int, b: int, c: int, o: int, p: int, t: int)
    ensures kp * (a - o) + ki * (t + a) + kd * ((a - b) - (o - p))
            == kp * (b - o) + ki * t + kd * ((b - c) - (o - p))
               + (kp * (a - b) + ki * a + kd * ((a - b) - (b - c)))
  {
  }

  lemma LawOfPrefix(kp: int, ki: int, kd: int, x1: int, x2: int, xs: seq<int>)
    requires xs != []
    ensures var m, b, c := xs[..|xs| - 1], Input(x1, x2, xs, |xs| - 2), Input(x1, x2, xs, |xs| - 3);
            Law(kp, ki, kd, x1, x2, m) == kp * (b - x1) + ki * Sum(m) + kd * ((b - c) - (x1 - x2))
  {
    if |xs| == 1 {
      assert kp * 0 == 0 && kd * 0 == 0 && ki * 0 == 0;
    }
  }

  lemma TruncatedStep(b: int, t: int, p: int, l: int, n: int)
    requires b > 0 && b * t <= l <= b * t + (b - 1) * n
    ensures b * (t + p / b) <= l + p <= b * (t + p / b) + (b - 1) * (n + 1)
  {
    assert p == b * (p / b) + p % b;
    assert b * (t + p / b) == b * t + b * (p / b);
    assert (b - 1) * (n + 1) == (b - 1) * n + (b - 1);
  }

  /** The truncated increments add up to the positional law, less the dropped fractions: below it
      by less than one unit per step. */
  lemma {:induction false} SumTracksLaw(b: int, g: Gains, kp: int, ki: int, kd: int, x1: int, x2: int, xs: seq<int>)
    requires b > 0 && Derived(g, kp, ki, kd)
    ensures var t := TruncatedSum(b, g, x1, x2, xs);
            b * t <= Law(kp, ki, kd, x1, x2, xs) <= b * t + (b - 1) * |xs|
  {
    if xs != [] {
      var m, n := xs[..|xs| - 1], |xs| - 1;
      SumTracksLaw(b, g, kp, ki, kd, x1, x2, m);
      var p, q, r := Input(x1, x2, xs, n), Input(x1, x2, xs, n - 1), Input(x1, x2, xs, n - 2);
      ProductsTelescope(kp, ki, kd, p, q, r);
      LawAdvances(kp, ki, kd, p, q, r, x1, x2, Sum(m));
      LawOfPrefix(kp, ki, kd, x1, x2, xs);
      TruncatedStep(b, TruncatedSum(b, g, x1, x2, m), Products(g, x1, x2, xs, n),
                    Law(kp, ki, kd, x1, x2, m), n);
    } else {
      assert b * 0 == 0 && (b - 1) * 0 == 0;
    }
  }
}
