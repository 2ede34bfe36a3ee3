/** The Newton loop for the invariant D, `computeD` in
    ts-client/src/amm/curve/stable-swap-math/calculator.ts. */
module SolverD {
  import opened Arithmetic
  import opened StableInvariant

  /** The estimate of d^3 / 4ab with the two successive floors of the loop body. */
  function DProduct(a: nat, b: nat, d: nat): nat
    requires 0 < a && 0 < b
  {
    MulNonNegative(d, d);
    FloorBounds(d * d, 2 * a);
    MulNonNegative(d * d / (2 * a), d);
    FloorBounds(d * d / (2 * a) * d, 2 * b);
    d * d / (2 * a) * d / (2 * b)
  }

  /** The two floors together lose less than d/2b + 1: exactly, at most (2a - 1)d + 2a(2b - 1) of d^3. */
  lemma DProductBounds(a: nat, b: nat, d: nat)
    requires 0 < a && 0 < b
    ensures 4 * (a * b) * DProduct(a, b, d) <= d * d * d <= 4 * (a * b) * DProduct(a, b, d) + FloorLoss(a, b, d)
  {
    var k := d * d / (2 * a);
    QuotientBounds(d * d, 2 * a, k);
    QuotientBounds(k * d, 2 * b, DProduct(a, b, d));
    FloorsCompose(a, b, d, d * d, k, DProduct(a, b, d));
  }

  /** The most that the two floors can take from d^3. */
  function FloorLoss(a: int, b: int, d: int): int {
    2 * a * d + 4 * (a * b) - d - 2 * a
  }

  lemma FloorsCompose(a: int, b: int, d: int, q: int, k: int, p: int)
    requires 0 < a && 0 < b && 0 <= d
    requires k * (2 * a) <= q < (k + 1) * (2 * a)
    requires p * (2 * b) <= k * d < (p + 1) * (2 * b)
    ensures 4 * (a * b) * p <= q * d <= 4 * (a * b) * p + FloorLoss(a, b, d)
  {
    ScaleBounds(k * (2 * a), q, 2 * a - 1, d);
    ScaleBounds(p * (2 * b), k * d, 2 * b - 1, 2 * a);
    FloorProducts(a, b, d, k, p);
  }

  lemma ScaleBounds(low: int, x: int, width: int, d: int)
    requires low <= x <= low + width && 0 <= d
    ensures low * d <= x * d <= low * d + width * d
  {
    MulLe(low, x, d);
    MulLe(x, low + width, d);
    assert (low + width) * d == low * d + width * d;
  }

  lemma FloorProducts(a: int, b: int, d: int, k: int, p: int)
    ensures p * (2 * b) * (2 * a) == 4 * (a * b) * p && k * d * (2 * a) == k * (2 * a) * d
    ensures (2 * b - 1) * (2 * a) + (2 * a - 1) * d == FloorLoss(a, b, d)
  {}

  /** Above twice the geometric mean, the floors do not take the product below d. */
  lemma DProductAtLeast(a: nat, b: nat, d: nat)
    requires 0 < a && 0 < b && 4 * a * b <= d * d
    ensures d <= DProduct(a, b, d)
  {
    var k := d * d / (2 * a);
    assert 2 * b * (2 * a) == 4 * a * b;
    FloorAtLeast(d * d, 2 * a, 2 * b);
    MulLe(2 * b, k, d);
    FloorAtLeast(k * d, 2 * b, d);
  }

  predicate DArgs(ann: int, a: int, b: int, d: int) {
    2 <= ann && 0 < a && 0 < b && 0 < d
  }

  function DNumerator(ann: int, a: nat, b: nat, d: nat): int
    requires DArgs(ann, a, b, d)
  {
    d * (ann * (a + b) + 2 * DProduct(a, b, d))
  }

  function DDenominator(ann: int, a: nat, b: nat, d: nat): (r: int)
    requires DArgs(ann, a, b, d)
    ensures 0 < r
  {
    MulLe(1, ann - 1, d);
    d * (ann - 1) + 3 * DProduct(a, b, d)
  }

  /** One iteration of the loop of `computeD`. */
  function StepD(ann: int, a: nat, b: nat, d: nat): nat
    requires DArgs(ann, a, b, d)
  {
    MulNonNegative(ann, a + b);
    MulNonNegative(d, ann * (a + b) + 2 * DProduct(a, b, d));
    FloorBounds(DNumerator(ann, a, b, d), DDenominator(ann, a, b, d));
    DNumerator(ann, a, b, d) / DDenominator(ann, a, b, d)
  }

  /** What the floor quotient of an iteration satisfies, in terms of the floored product. */
  ghost predicate IsStepD(ann: int, a: int, b: int, d: int, p: int, r: int) {
    && 0 <= p && 4 * (a * b) * p <= d * d * d <= 4 * (a * b) * p + FloorLoss(a, b, d)
    && (4 * a * b <= d * d ==> d <= p)
    && r * (d * (ann - 1) + 3 * p) <= d * (ann * (a + b) + 2 * p) < (r + 1) * (d * (ann - 1) + 3 * p)
  }

  lemma StepDIsStep(ann: int, a: nat, b: nat, d: nat)
    requires DArgs(ann, a, b, d)
    ensures IsStepD(ann, a, b, d, DProduct(a, b, d), StepD(ann, a, b, d))
  {
    DProductBounds(a, b, d);
    if 4 * a * b <= d * d { DProductAtLeast(a, b, d); }
    QuotientBounds(DNumerator(ann, a, b, d), DDenominator(ann, a, b, d), StepD(ann, a, b, d));
  }

  lemma TangentLinear(ann: int, s: int, d: int, p: int, e: int)
    requires d * (ann * s + 2 * p) < e * (d * (ann - 1) + 3 * p)
    ensures -(p * (3 * e - 2 * d)) < d * Slack(ann, s, e)
  {
    assert d * (ann * s + 2 * p) == d * (ann * s) + d * (2 * p);
    assert e * (d * (ann - 1) + 3 * p) == d * (e * (ann - 1)) + e * (3 * p);
    assert d * Slack(ann, s, e) == d * (e * (ann - 1)) - d * (ann * s);
  }

  lemma TangentIdentity(d: int, e: int)
    ensures (e - d) * (e - d) * (e + 2 * d) == e * e * e - d * d * (3 * e - 2 * d)
  {}

  /** The Newton inequality: above the computed quotient, the excess dominates the
      tangent error (e - d)^2 (e + 2d), unless e is already past the weighted sum. */
  lemma TangentGap(ann: int, a: int, b: int, d: int, p: int, e: int)
    requires DArgs(ann, a, b, d) && 0 < e
    requires IsStepD(ann, a, b, d, p, e - 1)
    ensures 0 < Slack(ann, a + b, e) || (e - d) * (e - d) * (e + 2 * d) < Excess(ann, a, b, e)
  {
    TangentLinear(ann, a + b, d, p, e);
    ProductPositive(a, b);
    TangentGapCore(d, p, e, Slack(ann, a + b, e), 4 * (a * b));
  }

  lemma ProductPositive(a: int, b: int)
    requires 0 < a && 0 < b
    ensures 0 < 4 * (a * b) == 4 * a * b
  {
    MulLt(0, a, b);
  }

  lemma TangentGapCore(d: int, p: int, e: int, slack: int, m: int)
    requires 0 < d && 0 <= p && 0 < m && m * p <= d * d * d
    requires -(p * (3 * e - 2 * d)) < d * slack
    ensures 0 < slack || (e - d) * (e - d) * (e + 2 * d) < e * e * e + m * slack
  {
    var k := 3 * e - 2 * d;
    if k <= 0 {
      MulLe(k, 0, p);
      SignOfFactor(d, slack);
    } else {
      TangentGapScaled(d, p, k, slack, m);
      TangentIdentity(d, e);
    }
  }

  lemma SignOfFactor(d: int, x: int)
    requires 0 < d && 0 < d * x
    ensures 0 < x
  {}

  lemma TangentGapScaled(d: int, p: int, k: int, slack: int, m: int)
    requires 0 < d && 0 < k && 0 < m && m * p <= d * d * d
    requires -(p * k) < d * slack
    ensures -(d * d * k) < m * slack
  {
    MulLt(-(p * k), d * slack, m);
    MulLe(m * p, d * d * d, k);
    assert -(d * d * k) * d < m * slack * d;
    CancelLt(-(d * d * k), m * slack, d);
  }

  lemma ExcessPositiveWithSlack(ann: int, a: int, b: int, e: int)
    requires 0 < a && 0 < b && 0 < e && 0 < Slack(ann, a + b, e)
    ensures 0 < Excess(ann, a, b, e)
  {
    CubeMonotone(1, e);
    MulNonNegative(a * b, Slack(ann, a + b, e));
  }

  /** D <= 1 is a full unit or more below the invariant of any two positive balances. */
  lemma ExcessAtTwo(ann: int, a: int, b: int)
    requires 2 <= ann && 0 < a && 0 < b
    ensures Excess(ann, a, b, 2) <= 0
  {
    MulLe(1, a, b);
    assert Slack(ann, a + b, 2) <= -2 by { MulLe(2, a + b, ann); }
    MulLe(1, a * b, -Slack(ann, a + b, 2));
  }

  lemma GapIsPositive(ann: int, a: int, b: int, d: int, e: int)
    requires 2 <= ann && 0 < a && 0 < b && 0 < d && 0 < e
    requires 0 < Slack(ann, a + b, e) || (e - d) * (e - d) * (e + 2 * d) < Excess(ann, a, b, e)
    ensures 0 < Excess(ann, a, b, e)
  {
    if 0 < Slack(ann, a + b, e) {
      ExcessPositiveWithSlack(ann, a, b, e);
    } else {
      TangentErrorNonNegative(e - d, e + 2 * d);
    }
  }

  lemma TangentErrorNonNegative(x: int, y: int)
    requires 0 <= y
    ensures 0 <= x * x * y
  {
    MulNonNegative(x * x, y);
  }

  lemma PositiveExcessAboveTwo(ann: int, a: int, b: int, e: int)
    requires 2 <= ann && 0 < a && 0 < b && 0 < Excess(ann, a, b, e)
    ensures 2 < e
  {
    if e <= 2 {
      ExcessAtTwo(ann, a, b);
      ExcessMonotone(ann, a, b, e, 2);
    }
  }

  /** After one iteration, from any positive d, the result is less than a unit below the
      exact invariant; in particular it is at least two, so no later division is by zero. */
  lemma StepDLower(ann: int, a: nat, b: nat, d: nat)
    requires DArgs(ann, a, b, d)
    ensures 0 < Excess(ann, a, b, StepD(ann, a, b, d) + 1)
    ensures 2 <= StepD(ann, a, b, d)
  {
    var e := StepD(ann, a, b, d) + 1;
    StepDIsStep(ann, a, b, d);
    TangentGap(ann, a, b, d, DProduct(a, b, d), e);
    GapIsPositive(ann, a, b, d, e);
    PositiveExcessAboveTwo(ann, a, b, e);
  }

  lemma ArithmeticGeometric(a: int, b: int)
    ensures 4 * a * b <= (a + b) * (a + b)
  {
    assert (a + b) * (a + b) - 4 * a * b == (a - b) * (a - b);
  }

  lemma NoExcessBelowGeometricMean(ann: int, m: int, s: int, e: int)
    requires 2 <= ann && 0 < m && 0 < e <= s && e * e <= m
    ensures e * e * e + m * Slack(ann, s, e) <= 0
  {
    MulLe(e * e, m, e);
    MulLe(e, s, ann);
    assert e + Slack(ann, s, e) == ann * e - ann * s;
    MulLe(e + Slack(ann, s, e), 0, m);
    assert (e + Slack(ann, s, e)) * m == m * e + m * Slack(ann, s, e);
  }

  /** A positive excess at d + 1 puts d + 1 above twice the geometric mean. */
  lemma ExcessPositiveAboveGeometricMean(ann: int, a: int, b: int, e: int)
    requires 2 <= ann && 0 < a && 0 < b && 0 < e && 0 < Excess(ann, a, b, e)
    ensures 4 * a * b < e * e
  {
    if e * e <= 4 * a * b {
      ArithmeticGeometric(a, b);
      SquareLess(e - 1, a + b) by { assert (e - 1) * (e - 1) < e * e; }
      assert 0 < a * b by { MulLt(0, a, b); }
      NoExcessBelowGeometricMean(ann, 4 * (a * b), a + b, e);
    }
  }

  lemma AtMostSumIdentity(ann: int, s: int, d: int, p: int)
    ensures s * (d * (ann - 1) + 3 * p) - d * (ann * s + 2 * p) == 3 * (s * p) - 2 * (d * p) - d * s
  {
    assert s * (d * (ann - 1) + 3 * p) == d * (ann * s) - d * s + 3 * (s * p);
    assert d * (ann * s + 2 * p) == d * (ann * s) + 2 * (d * p);
  }

  lemma QuotientAtMostSum(ann: int, s: int, d: int, p: int, r: int)
    requires 2 <= ann && 0 < d <= s && d <= p
    requires r * (d * (ann - 1) + 3 * p) <= d * (ann * s + 2 * p)
    ensures r <= s
  {
    AtMostSumIdentity(ann, s, d, p);
    MulLe(d, s, p);
    MulLe(d, p, s);
    MulLt(0, d, ann - 1);
    CancelLe(r, s, d * (ann - 1) + 3 * p);
  }

  lemma CubicExpansion(e: int, k: int)
    ensures e * e * e - ((e - 1) * (e - 1) + 1) * (e + 2 * k)
         == 2 * (e * e) * (1 - k) + (4 * k - 2) * e - 4 * k
  {}

  lemma QuadraticBound(e: int, k: int)
    requires 0 < e && 1 <= k
    ensures 2 * (e * e) * (1 - k) + (4 * k - 2) * e <= k * k * (3 * e + 2 * k)
  {
    assert 2 * (e * e) * (1 - k) <= 0 by {
      MulNonNegative(e, e);
      MulLe(1 - k, 0, 2 * (e * e));
    }
    assert (4 * k - 2) * e <= 3 * (k * k) * e by {
      QuadraticCoefficient(k);
      MulLe(4 * k - 2, 3 * (k * k), e);
    }
    QuadraticTail(e, k, k * k);
  }

  lemma QuadraticTail(e: int, k: int, q: int)
    requires 0 <= k && 0 <= q
    ensures 3 * q * e <= q * (3 * e + 2 * k)
  {
    MulNonNegative(q, 2 * k);
    assert q * (3 * e + 2 * k) == 3 * q * e + q * (2 * k);
  }

  lemma QuadraticCoefficient(k: int)
    ensures 4 * k - 2 <= 3 * (k * k)
  {
    assert 3 * (k * k) - 4 * k + 2 == 2 * ((k - 1) * (k - 1)) + k * k;
  }

  /** One or more units below d, the tangent error is larger than the excess can be. */
  lemma DownByOneCubic(e: int, k: int, m: int)
    requires 0 < e && 1 <= k && (e - 1) * (e - 1) < m
    ensures e * e * e - m * (e + 2 * k) <= k * k * (3 * e + 2 * k)
  {
    MulLe((e - 1) * (e - 1) + 1, m, e + 2 * k);
    CubicExpansion(e, k);
    QuadraticBound(e, k);
  }

  lemma SlackBelowSum(ann: int, s: int, e: int, k: int)
    requires 2 <= ann && 0 <= k && e + k <= s
    ensures Slack(ann, s, e) <= -(e + 2 * k)
  {
    MulLe(e + k, s, ann);
    MulLe(2, ann, k);
  }

  lemma TangentErrorAtDistance(e: int, k: int)
    ensures (e - (e + k)) * (e - (e + k)) * (e + 2 * (e + k)) == k * k * (3 * e + 2 * k)
  {}

  lemma DownByOneCore(ann: int, s: int, m: int, e: int, k: int)
    requires 2 <= ann && 0 < e && 1 <= k && e + k <= s && (e - 1) * (e - 1) < m
    ensures Slack(ann, s, e) <= 0 && e * e * e + m * Slack(ann, s, e) <= k * k * (3 * e + 2 * k)
  {
    SlackBelowSum(ann, s, e, k);
    ScaledDown(m, Slack(ann, s, e), e + 2 * k);
    DownByOneCubic(e, k, m);
  }

  lemma ScaledDown(m: int, x: int, t: int)
    requires 0 <= m && x <= -t
    ensures m * x <= -(m * t)
  {
    MulLe(x, -t, m);
  }

  /** An iteration that lands below twice the geometric mean moves down by exactly one. */
  lemma QuotientKeepsOrDownByOne(ann: int, a: int, b: int, d: int, e: int)
    requires 2 <= ann && 0 < a && 0 < b && 0 < e && 0 < d <= a + b && 4 * (a * b) <= d * d
    requires (e - 1) * (e - 1) < 4 * (a * b)
    requires 0 < Slack(ann, a + b, e) || (e - d) * (e - d) * (e + 2 * d) < Excess(ann, a, b, e)
    ensures e == d
  {
    SquareLess(e - 1, d);
    if e < d {
      TangentErrorAtDistance(e, d - e);
      DownByOneCore(ann, a + b, 4 * (a * b), e, d - e);
    }
  }

  /** Between twice the geometric mean and the sum: where the invariant itself lies. */
  predicate InRange(a: int, b: int, d: int) {
    0 < d <= a + b && 4 * a * b <= d * d
  }

  lemma SumInRange(a: int, b: int)
    requires 0 < a && 0 < b
    ensures InRange(a, b, a + b)
  {
    ArithmeticGeometric(a, b);
  }

  /** The sum is itself an iterate that is not a unit below the invariant. */
  lemma SumLower(ann: int, a: int, b: int)
    requires 2 <= ann && 0 < a && 0 < b
    ensures 0 < Excess(ann, a, b, a + b + 1)
  {
    ArithmeticGeometric(a, b);
    MulNonNegative(a, b);
    assert Slack(ann, a + b, a + b + 1) == ann - 1 - (a + b);
    SumCube(ann, a + b, 4 * (a * b));
  }

  lemma SumCube(ann: int, s: int, m: int)
    requires 1 <= ann && 0 < s && 0 <= m <= s * s
    ensures 0 < (s + 1) * (s + 1) * (s + 1) + m * (ann - 1 - s)
  {
    MulLe(-s, ann - 1 - s, m);
    MulLe(m, s * s, s);
    MulNonNegative(s, s);
    NextCube(s);
  }

  lemma NextCube(s: int)
    ensures (s + 1) * (s + 1) * (s + 1) == s * s * s + 3 * (s * s) + 3 * s + 1
  {}

  /** From the range, an iteration never leaves it upward; downward it does so only
      by the unit step that ends the loop. */
  lemma StepDUpper(ann: int, a: nat, b: nat, d: nat)
    requires DArgs(ann, a, b, d) && InRange(a, b, d)
    ensures StepD(ann, a, b, d) <= a + b
    ensures InRange(a, b, StepD(ann, a, b, d)) || StepD(ann, a, b, d) == d - 1
  {
    var p, r := DProduct(a, b, d), StepD(ann, a, b, d);
    StepDIsStep(ann, a, b, d);
    StepDLower(ann, a, b, d);
    QuotientAtMostSum(ann, a + b, d, p, r);
    ProductPositive(a, b);
    if r * r < 4 * a * b {
      TangentGap(ann, a, b, d, p, r + 1);
      QuotientKeepsOrDownByOne(ann, a, b, d, r + 1);
    }
  }

  // ---------- the loop ----------

  /** The loop of `computeD` from loop variables d and dPrev with `fuel` iterations left. */
  function NewtonD(ann: int, a: nat, b: nat, d: nat, dPrev: nat, fuel: nat): Iterate
    requires DArgs(ann, a, b, d)
    decreases fuel, d
  {
    if Abs(d - dPrev) <= 1 || fuel == 0 then Iterate(d, dPrev)
    else
      StepDLower(ann, a, b, d);
      NewtonD(ann, a, b, StepD(ann, a, b, d), d, fuel - 1)
  }

  /** What holds of d at every loop head. */
  ghost predicate DLoop(ann: int, a: int, b: int, d: int, dPrev: int) {
    && 2 <= d <= a + b
    && 0 < Excess(ann, a, b, d + 1)
    && (InRange(a, b, d) || Abs(d - dPrev) <= 1)
  }

  lemma DLoopStarts(ann: int, a: int, b: int)
    requires 2 <= ann && 0 < a && 0 < b
    ensures DLoop(ann, a, b, a + b, 0)
  {
    SumInRange(a, b);
    SumLower(ann, a, b);
  }

  lemma DLoopStep(ann: int, a: nat, b: nat, d: nat, dPrev: nat)
    requires DArgs(ann, a, b, d) && DLoop(ann, a, b, d, dPrev) && 1 < Abs(d - dPrev)
    ensures DLoop(ann, a, b, StepD(ann, a, b, d), d)
  {
    StepDLower(ann, a, b, d);
    StepDUpper(ann, a, b, d);
  }

  /** After any number of iterations, the loop is less than a unit below the exact
      invariant and at most the sum of the balances. */
  lemma {:induction false} NewtonDSound(ann: int, a: nat, b: nat, d: nat, dPrev: nat, fuel: nat)
    requires DArgs(ann, a, b, d) && DLoop(ann, a, b, d, dPrev)
    ensures var r := NewtonD(ann, a, b, d, dPrev, fuel);
            DLoop(ann, a, b, r.current, r.previous)
    decreases fuel
  {
    if 1 < Abs(d - dPrev) && fuel != 0 {
      DLoopStep(ann, a, b, d, dPrev);
      StepDLower(ann, a, b, d);
      NewtonDSound(ann, a, b, StepD(ann, a, b, d), d, fuel - 1);
    }
  }

  /** `computeD`, as a value: zero for an empty pool; a lone unit is returned as it is; any other
      pool with an empty side divides by zero. */
  function ComputeD(amp: nat, a: nat, b: nat): Outcome<nat>
    requires 1 <= amp
  {
    if a == 0 || b == 0 then
      if a + b <= 1 then Returns(a + b) else Throws(DivisionByZero)
    else
      Returns(NewtonD(2 * amp, a, b, a + b, 0, MAX_ITERS).current)
  }

  /** `computeD` never falls a full unit below the exact invariant, never exceeds the sum of the
      balances and never divides by zero, converged or cut off. */
  lemma ComputeDSound(amp: nat, a: nat, b: nat)
    requires 1 <= amp && 0 < a && 0 < b
    ensures ComputeD(amp, a, b).Returns?
    ensures var d := ComputeD(amp, a, b).value;
            && 2 <= d <= a + b
            && 0 < Excess(2 * amp, a, b, d + 1)
            && 4 * a * b < (d + 1) * (d + 1)
            && forall e {:trigger Excess(2 * amp, a, b, e)} :: Excess(2 * amp, a, b, e) <= 0 ==> e <= d
  {
    var ann, d := 2 * amp, ComputeD(amp, a, b).value;
    DLoopStarts(ann, a, b);
    NewtonDSound(ann, a, b, a + b, 0, MAX_ITERS);
    ExcessPositiveAboveGeometricMean(ann, a, b, d + 1);
    forall e {:trigger Excess(ann, a, b, e)} | Excess(ann, a, b, e) <= 0
      ensures e <= d
    {
      if d < e { ExcessMonotone(ann, a, b, d + 1, e); }
    }
  }

  lemma StepDPositive(ann: int, a: nat, b: nat, d: nat)
    requires DArgs(ann, a, b, d)
    ensures 2 <= StepD(ann, a, b, d)
  {
    StepDLower(ann, a, b, d);
  }

  lemma NewtonDUnfolds(ann: int, a: nat, b: nat, d: nat, dPrev: nat, fuel: nat)
    requires DArgs(ann, a, b, d) && 1 < Abs(d - dPrev) && 0 < fuel
    ensures 2 <= StepD(ann, a, b, d)
    ensures NewtonD(ann, a, b, d, dPrev, fuel) == NewtonD(ann, a, b, StepD(ann, a, b, d), d, fuel - 1)
  {
    StepDPositive(ann, a, b, d);
  }

  /** The loop body of `computeD`. */
  method IterateD(ann: int, a: nat, b: nat, d: nat) returns (r: nat)
    requires DArgs(ann, a, b, d)
    ensures r == StepD(ann, a, b, d)
  {
    var dP: int := d;
    dP := dP * d / (2 * a);
    dP := dP * d / (2 * b);
    assert dP == DProduct(a, b, d);
    var numerator := d * (ann * (a + b) + 2 * dP);
    var denominator := d * (ann - 1) + 3 * dP;
    assert numerator == DNumerator(ann, a, b, d) && denominator == DDenominator(ann, a, b, d);
    assert numerator / denominator == StepD(ann, a, b, d);
    r := numerator / denominator;
  }

  /** `computeD` as the loop it is. */
  method SolveD(amp: nat, amountA: nat, amountB: nat) returns (r: Outcome<nat>)
    requires 1 <= amp
    ensures r == ComputeD(amp, amountA, amountB)
    ensures r.Returns? <==> (0 < amountA && 0 < amountB) || amountA + amountB <= 1
    ensures 0 < amountA && 0 < amountB ==>
              && r.value <= amountA + amountB
              && 0 < Excess(2 * amp, amountA, amountB, r.value + 1)
  {
    var ann := amp * 2;
    var sum := amountA + amountB;
    if sum == 0 {
      return Returns(0);
    }
    var dPrev, d, i := 0, sum, 0;
    if amountA == 0 || amountB == 0 {
      // The first iteration, if there is one, divides by zero.
      if 1 < Abs(d - dPrev) {
        return Throws(DivisionByZero);
      }
      return Returns(d);
    }
    ghost var end := NewtonD(ann, amountA, amountB, sum, 0, MAX_ITERS);
    while 1 < Abs(d - dPrev) && i < MAX_ITERS
      invariant 0 <= i <= MAX_ITERS && 0 <= dPrev && 0 < d
      invariant NewtonD(ann, amountA, amountB, d, dPrev, MAX_ITERS - i) == end
      decreases MAX_ITERS - i
    {
      NewtonDUnfolds(ann, amountA, amountB, d, dPrev, MAX_ITERS - i);
      dPrev := d;
      d := IterateD(ann, amountA, amountB, d);
      i := i + 1;
    }
    ComputeDSound(amp, amountA, amountB);
    return Returns(d);
  }
}
