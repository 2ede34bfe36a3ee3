/** The Newton loop for the balance y, `computeY` in
    ts-client/src/amm/curve/stable-swap-math/calculator.ts. */
module SolverY {
  import opened Arithmetic
  import opened StableInvariant

  /** The quadratic y^2 + b y - c whose root the loop approaches. */
  function Residual(b: int, c: int, y: int): int {
    y * y + b * y - c
  }

  predicate YArgs(b: int, c: int, y: int) {
    0 <= c && 0 <= y && 0 < 2 * y + b
  }

  /** One iteration of the loop of `computeY`. */
  function StepY(b: int, c: nat, y: nat): nat
    requires YArgs(b, c, y)
  {
    MulNonNegative(y, y);
    FloorBounds(y * y + c, 2 * y + b);
    (y * y + c) / (2 * y + b)
  }

  lemma TangentY(b: int, c: int, y: int, z: int)
    ensures Residual(b, c, z) == (z - y) * (z - y) + z * (2 * y + b) - (y * y + c)
  {}

  lemma ResidualAtQuotient(b: int, c: int, y: int, r: int)
    requires r * (2 * y + b) <= y * y + c < (r + 1) * (2 * y + b)
    ensures Residual(b, c, r) <= (r - y) * (r - y)
    ensures 0 < Residual(b, c, r + 1)
  {
    TangentY(b, c, y, r);
    TangentY(b, c, y, r + 1);
    Square(r + 1 - y);
  }

  /** The floor of an iteration leaves the residual at most the squared move, and at
      the next integer above it. */
  lemma StepYBounds(b: int, c: nat, y: nat)
    requires YArgs(b, c, y)
    ensures var r := StepY(b, c, y);
            && Residual(b, c, r) <= (r - y) * (r - y)
            && 0 < Residual(b, c, r + 1)
  {
    var r := StepY(b, c, y);
    QuotientBounds(y * y + c, 2 * y + b, r);
    ResidualAtQuotient(b, c, y, r);
  }

  /** A positive residual at e > 0 puts e + b above zero, whatever the sign of b. */
  lemma ResidualPositive(b: int, c: int, e: int)
    requires 0 <= c && 0 < e && 0 < Residual(b, c, e)
    ensures 0 < e + b
  {
    assert Residual(b, c, e) == (e + b) * e - c;
    if e + b <= 0 { MulLe(e + b, 0, e); }
  }

  /** No iteration that is followed by another leaves a zero divisor. */
  lemma StepYReady(b: int, c: nat, y: nat)
    requires YArgs(b, c, y)
    requires 1 < Abs(StepY(b, c, y) - y)
    ensures YArgs(b, c, StepY(b, c, y))
  {
    var r := StepY(b, c, y);
    StepYBounds(b, c, y);
    ResidualPositive(b, c, r + 1);
    if 2 * r + b <= 0 {
      assert r == 0 && b == 0 && 2 <= y;
      MulLe(2, y, y);
      FloorAtLeast(y * y + c, 2 * y, 1);
    }
  }

  /** Once an iteration has been made, the next one raises y by at most one. */
  lemma StepYNotUp(b: int, c: nat, y: nat)
    requires YArgs(b, c, y) && 0 < Residual(b, c, y + 1)
    ensures StepY(b, c, y) <= y + 1
  {
    assert (y + 2) * (2 * y + b) - (y * y + c) == Residual(b, c, y + 1) - 1 + (2 * y + b);
    FloorBelow(y * y + c, 2 * y + b, y + 2);
  }

  // ---------- the loop ----------

  /** The loop of `computeY` from loop variables y and yPrev with `fuel` iterations left. */
  function NewtonY(b: int, c: nat, y: nat, yPrev: nat, fuel: nat): Iterate
    requires 1 < Abs(y - yPrev) ==> YArgs(b, c, y)
    decreases fuel, y
  {
    if Abs(y - yPrev) <= 1 || fuel == 0 then Iterate(y, yPrev)
    else
      if 1 < Abs(StepY(b, c, y) - y) then
        StepYReady(b, c, y);
        NewtonY(b, c, StepY(b, c, y), y, fuel - 1)
      else
        Iterate(StepY(b, c, y), y)
  }

  lemma NewtonYUnfolds(b: int, c: nat, y: nat, yPrev: nat, fuel: nat)
    requires 1 < Abs(y - yPrev) && YArgs(b, c, y) && 0 < fuel
    ensures 1 < Abs(StepY(b, c, y) - y) ==> YArgs(b, c, StepY(b, c, y))
    ensures NewtonY(b, c, y, yPrev, fuel) == NewtonY(b, c, StepY(b, c, y), y, fuel - 1)
  {
    if 1 < Abs(StepY(b, c, y) - y) { StepYReady(b, c, y); }
  }

  lemma SmallMove(x: int)
    requires Abs(x) <= 1
    ensures x * x <= 1
  {
    assert x == -1 || x == 0 || x == 1;
  }

  /** From one iteration on, the result is less than a unit below the root; when the loop
      converges it is also at most a unit of residual above it. */
  lemma {:induction false} NewtonYBrackets(b: int, c: nat, y: nat, yPrev: nat, fuel: nat)
    requires 1 < Abs(y - yPrev) && YArgs(b, c, y) && 0 < fuel
    ensures var r := NewtonY(b, c, y, yPrev, fuel);
            && 0 < Residual(b, c, r.current + 1)
            && (r.Converged() ==> Residual(b, c, r.current) <= 1)
    decreases fuel
  {
    var r := StepY(b, c, y);
    NewtonYUnfolds(b, c, y, yPrev, fuel);
    StepYBounds(b, c, y);
    if 1 < Abs(r - y) && 1 < fuel {
      NewtonYBrackets(b, c, r, y, fuel - 1);
    } else if Abs(r - y) <= 1 {
      SmallMove(r - y);
    }
  }

  /** The loop of `computeY` from its second iteration on, without the cap. It terminates: every
      iteration that does not end it lowers y by at least two. */
  function ConvergeY(b: int, c: nat, y: nat): nat
    requires YArgs(b, c, y) && 0 < Residual(b, c, y + 1)
    decreases y
  {
    var r := StepY(b, c, y);
    if Abs(r - y) <= 1 then r
    else
      StepYReady(b, c, y);
      StepYBounds(b, c, y);
      StepYNotUp(b, c, y);
      ConvergeY(b, c, r)
  }

  /** With y/2 + 1 iterations to spend after the first, the cap changes nothing. */
  lemma {:induction false} NewtonYConverges(b: int, c: nat, y: nat, yPrev: nat, fuel: nat)
    requires 1 < Abs(y - yPrev) && YArgs(b, c, y) && 0 < Residual(b, c, y + 1)
    requires y < 2 * fuel
    ensures NewtonY(b, c, y, yPrev, fuel).Converged()
    ensures NewtonY(b, c, y, yPrev, fuel).current == ConvergeY(b, c, y)
    decreases fuel
  {
    var r := StepY(b, c, y);
    NewtonYUnfolds(b, c, y, yPrev, fuel);
    StepYBounds(b, c, y);
    StepYNotUp(b, c, y);
    if 1 < Abs(r - y) {
      NewtonYConverges(b, c, r, y, fuel - 1);
    }
  }

  // ---------- the coefficients ----------

  /** The linear coefficient, negative when the other balance is well below D. */
  function CoefficientB(ann: int, x: int, d: nat): int
    requires 0 < ann
  {
    x + d / ann - d
  }

  function CoefficientC(ann: int, x: int, d: nat): nat
    requires 0 < ann && 0 < x
  {
    assert 0 < x * ann by { MulLt(0, x, ann); }
    FloorBounds(d * d * d, 2 * (2 * (x * ann)));
    d * d * d / (2 * (2 * (x * ann)))
  }

  /** The divisor of the first iteration is positive even where b is negative. */
  lemma FirstDivisor(ann: int, x: int, d: nat)
    requires 0 < ann && 0 < x
    ensures YArgs(CoefficientB(ann, x, d), CoefficientC(ann, x, d), d)
  {
    FloorBounds(d, ann);
  }

  /** The loop of `computeY` from its start. */
  function RunY(ann: int, x: int, d: nat, fuel: nat): Iterate
    requires 0 < ann && 0 < x
  {
    FirstDivisor(ann, x, d);
    NewtonY(CoefficientB(ann, x, d), CoefficientC(ann, x, d), d, 0, fuel)
  }

  /** Where the first iteration lands. */
  function StepYFirst(ann: int, x: int, d: nat): nat
    requires 0 < ann && 0 < x
  {
    FirstDivisor(ann, x, d);
    StepY(CoefficientB(ann, x, d), CoefficientC(ann, x, d), d)
  }

  /** From its start the loop converges for every input once it has enough iterations, after which more change
      nothing. */
  lemma RunYConverges(ann: int, x: int, d: nat, fuel: nat, more: nat)
    requires 0 < ann && 0 < x && StepYFirst(ann, x, d) + 2 < 2 * fuel <= 2 * more
    ensures RunY(ann, x, d, fuel).Converged()
    ensures RunY(ann, x, d, more).current == RunY(ann, x, d, fuel).current
  {
    var b, c := CoefficientB(ann, x, d), CoefficientC(ann, x, d);
    FirstDivisor(ann, x, d);
    if 2 <= d {
      var y := StepY(b, c, d);
      NewtonYUnfolds(b, c, d, 0, fuel);
      NewtonYUnfolds(b, c, d, 0, more);
      StepYBounds(b, c, d);
      if 1 < Abs(y - d) {
        NewtonYConverges(b, c, y, d, fuel - 1);
        NewtonYConverges(b, c, y, d, more - 1);
      }
    }
  }

  lemma FactorOut(y: int, s: int)
    ensures y * y + s * y == y * (y + s)
  {}

  lemma Regroup(x: int, ann: int, y: int, t: int)
    ensures 4 * (x * ann) * (y * t) == 4 * (x * y) * (ann * t)
  {
    assert x * ann * (y * t) == x * y * (ann * t);
  }

  lemma SlackSum(ann: int, s: int, q: int, d: int)
    ensures ann * (s + q - d) == ann * q - d - Slack(ann, s, d)
  {
    assert ann * (s + q - d) == ann * s + ann * q - ann * d;
  }

  lemma Distribute(w: int, u: int, v: int)
    ensures w * (u - v) == u * w - w * v
  {}

  lemma QuadraticIdentity(ann: int, x: int, d: int, q: int, y: int)
    ensures 4 * (x * ann) * (y * y + (x + q - d) * y)
         == (ann * q - d) * (4 * (x * y)) - 4 * (x * y) * Slack(ann, x + y, d)
  {
    FactorOut(y, x + q - d);
    Regroup(x, ann, y, y + (x + q - d));
    SlackSum(ann, x + y, q, d);
    Distribute(4 * (x * y), ann * q - d, Slack(ann, x + y, d));
  }

  lemma QuadraticIsInvariant(ann: int, x: int, d: int, q: int, y: int)
    requires 0 < x && 0 < y && ann * q <= d
    ensures 4 * (x * ann) * (y * y + (x + q - d) * y) <= -(4 * (x * y) * Slack(ann, x + y, d))
  {
    QuadraticIdentity(ann, x, d, q, y);
    MulNonNegative(x, y);
    MulLe(ann * q - d, 0, 4 * (x * y));
  }

  /** A positive residual at y means that D is below the exact invariant of balances x and y:
      the floors of both coefficients round in the pool's favour. */
  lemma ResidualKeepsInvariant(ann: int, x: int, d: nat, y: int)
    requires 0 < ann && 0 < x && 0 < y
    requires 0 < Residual(CoefficientB(ann, x, d), CoefficientC(ann, x, d), y)
    ensures Excess(ann, x, y, d) < 0
  {
    var q, c := d / ann, CoefficientC(ann, x, d);
    assert 0 < x * ann by { MulLt(0, x, ann); }
    QuotientBounds(d, ann, q);
    QuotientBounds(d * d * d, 2 * (2 * (x * ann)), c);
    QuadraticIsInvariant(ann, x, d, q, y);
    AboveQuotient(d * d * d, 4 * (x * ann), c, y * y + (x + q - d) * y, 4 * (x * y) * Slack(ann, x + y, d));
  }

  lemma AboveQuotient(n: int, m: int, c: int, v: int, w: int)
    requires 0 < m && n < (c + 1) * m && c < v && m * v <= -w
    ensures n + w < 0
  {
    MulLe(c + 1, v, m);
  }

  /** `computeY`, as a value. */
  function ComputeY(amp: nat, x: nat, d: nat): Outcome<nat>
    requires 1 <= amp
  {
    if x == 0 then Throws(DivisionByZero) else Returns(RunY(2 * amp, x, d, MAX_ITERS).current)
  }

  /** One unit above the result, D is below the exact invariant of balances x and y + 1,
      after any positive number of iterations. */
  lemma RunYSafe(ann: int, x: int, d: nat, fuel: nat)
    requires 0 < ann && 0 < x && 2 <= d && 0 < fuel
    ensures Excess(ann, x, RunY(ann, x, d, fuel).current + 1, d) < 0
  {
    FirstDivisor(ann, x, d);
    NewtonYBrackets(CoefficientB(ann, x, d), CoefficientC(ann, x, d), d, 0, fuel);
    ResidualKeepsInvariant(ann, x, d, RunY(ann, x, d, fuel).current + 1);
  }

  // ---------- tightness ----------

  lemma QuadraticBelowInvariant(ann: int, x: int, d: int, q: int, y: int)
    requires 0 < x && 0 < y && d < ann * q + ann
    ensures -(4 * (x * y) * Slack(ann, x + y, d)) - (ann - 1) * (4 * (x * y))
         <= 4 * (x * ann) * (y * y + (x + q - d) * y)
  {
    QuadraticIdentity(ann, x, d, q, y);
    MulNonNegative(x, y);
    ShiftDown(ann * q - d, ann - 1, 4 * (x * y));
  }

  lemma ShiftDown(u: int, k: int, w: int)
    requires -k <= u && 0 <= w
    ensures -(k * w) <= u * w
  {
    MulLe(-k, u, w);
  }

  /** Where the residual is not positive, D + 1 is above the exact invariant. */
  lemma ResidualBelowInvariant(ann: int, x: int, d: nat, y: int)
    requires 0 < ann && 0 < x && 0 < y
    requires Residual(CoefficientB(ann, x, d), CoefficientC(ann, x, d), y) <= 0
    ensures 0 < Excess(ann, x, y, d + 1)
  {
    var q, c := d / ann, CoefficientC(ann, x, d);
    assert 0 < x * ann by { MulLt(0, x, ann); }
    QuotientBounds(d, ann, q);
    QuotientBounds(d * d * d, 2 * (2 * (x * ann)), c);
    ExcessFromResidual(ann, x, d, q, c, y);
    AboveByNextCube(ann, x, y, d);
  }

  lemma ExcessFromResidual(ann: int, x: int, d: int, q: int, c: int, y: int)
    requires 0 < ann && 0 < x && 0 < y && 0 < x * ann && d < (q + 1) * ann && c * (4 * (x * ann)) <= d * d * d
    requires y * y + (x + q - d) * y <= c
    ensures -((ann - 1) * (4 * (x * y))) <= Excess(ann, x, y, d)
  {
    assert (q + 1) * ann == ann * q + ann;
    QuadraticBelowInvariant(ann, x, d, q, y);
    BelowQuotient(d * d * d, 4 * (x * ann), c, y * y + (x + q - d) * y, 4 * (x * y) * Slack(ann, x + y, d),
                  (ann - 1) * (4 * (x * y)));
  }

  lemma BelowQuotient(n: int, m: int, c: int, v: int, w: int, k: int)
    requires 0 < m && c * m <= n && v <= c && -w - k <= m * v
    ensures -k <= n + w
  {
    MulLe(v, c, m);
  }

  lemma AboveByNextCube(ann: int, x: int, y: int, d: nat)
    requires -((ann - 1) * (4 * (x * y))) <= Excess(ann, x, y, d)
    ensures 0 < Excess(ann, x, y, d + 1)
  {
    SlackNext(ann, x + y, d);
    NextCubeExceeds(4 * (x * y), Slack(ann, x + y, d), ann - 1, d);
  }

  lemma NextCubeExceeds(m: int, slack: int, t: int, d: nat)
    requires -(t * m) <= d * d * d + m * slack
    ensures 0 < (d + 1) * (d + 1) * (d + 1) + m * (slack + t)
  {
    assert m * (slack + t) == m * slack + t * m;
    assert (d + 1) * (d + 1) * (d + 1) == d * d * d + 3 * (d * d) + 3 * d + 1;
    MulNonNegative(d, d);
  }

  lemma ResidualOneLower(b: int, c: int, y: int)
    requires 0 <= c && 2 <= y && Residual(b, c, y) <= 1 && 0 < Residual(b, c, y + 1)
    ensures Residual(b, c, y - 1) <= 0
  {
    ResidualPositive(b, c, y + 1);
    assert Residual(b, c, y - 1) == Residual(b, c, y) - (2 * y + b) + 1;
  }

  /** A converged result is tight: one unit lower, D + 1 is already above the exact invariant. */
  lemma RunYTight(ann: int, x: int, d: nat, fuel: nat)
    requires 0 < ann && 0 < x && 2 <= d && 0 < fuel
    requires RunY(ann, x, d, fuel).Converged() && 2 <= RunY(ann, x, d, fuel).current
    ensures 0 < Excess(ann, x, RunY(ann, x, d, fuel).current - 1, d + 1)
  {
    var b, c, y := CoefficientB(ann, x, d), CoefficientC(ann, x, d), RunY(ann, x, d, fuel).current;
    FirstDivisor(ann, x, d);
    NewtonYBrackets(b, c, d, 0, fuel);
    ResidualOneLower(b, c, y);
    ResidualBelowInvariant(ann, x, d, y - 1);
  }

  // ---------- monotonicity in x ----------

  lemma ResidualIncreasing(b: int, c: int, y: int, z: int)
    requires 0 <= c && 0 < y <= z && 0 < Residual(b, c, y)
    ensures Residual(b, c, y) <= Residual(b, c, z)
  {
    ResidualPositive(b, c, y);
    assert Residual(b, c, z) - Residual(b, c, y) == (z - y) * (z + y + b);
    MulNonNegative(z - y, z + y + b);
  }

  lemma CoefficientCDecreasing(ann: int, x1: int, x2: int, d: nat)
    requires 0 < ann && 0 < x1 <= x2
    ensures CoefficientC(ann, x2, d) <= CoefficientC(ann, x1, d)
  {
    var c1, c2, n := CoefficientC(ann, x1, d), CoefficientC(ann, x2, d), d * d * d;
    var m1, m2 := 2 * (2 * (x1 * ann)), 2 * (2 * (x2 * ann));
    assert 0 < m1 <= m2 by { MulLt(0, x1, ann); MulLe(x1, x2, ann); }
    QuotientBounds(n, m1, c1);
    QuotientBounds(n, m2, c2);
    MulLe(m1, m2, c2);
    CancelLt(c2, c1 + 1, m1);
  }

  lemma LargerCoefficients(b1: int, c1: int, b2: int, c2: int, y1: nat, y2: nat)
    requires b1 < b2 && 0 <= c2 <= c1
    requires 0 < Residual(b1, c1, y1 + 1) && Residual(b2, c2, y2) <= 1
    ensures y2 <= y1
  {
    var e := y1 + 1;
    MulLe(1, b2 - b1, e);
    ResidualShift(b1, c1, b2, c2, e);
    if e <= y2 {
      ResidualIncreasing(b2, c2, e, y2);
    }
  }

  lemma ResidualShift(b1: int, c1: int, b2: int, c2: int, e: int)
    ensures Residual(b2, c2, e) == Residual(b1, c1, e) + (b2 - b1) * e + (c1 - c2)
  {}

  lemma QuotientOrder(n1: int, m1: int, n2: int, m2: int)
    requires 0 <= n2 <= n1 && 0 < m1 <= m2
    ensures n2 / m2 <= n1 / m1
  {
    var q := n2 / m2;
    FloorBounds(n2, m2);
    MulLe(m1, m2, q);
    FloorAtLeast(n1, m1, q);
  }

  /** From the same y, the larger coefficients step no higher. */
  lemma StepsFromSame(b1: int, c1: nat, b2: int, c2: nat, y: nat)
    requires b1 < b2 && c2 <= c1 && YArgs(b1, c1, y)
    ensures StepY(b2, c2, y) <= StepY(b1, c1, y)
  {
    MulNonNegative(y, y);
    QuotientOrder(y * y + c1, 2 * y + b1, y * y + c2, 2 * y + b2);
  }

  lemma StepNotAbove(b: int, c: nat, y: nat)
    requires YArgs(b, c, y) && 0 < Residual(b, c, y)
    ensures StepY(b, c, y) <= y
  {
    assert y * (2 * y + b) == y * y + c + Residual(b, c, y);
    FloorBelow(y * y + c, 2 * y + b, y + 1) by { assert (y + 1) * (2 * y + b) == y * (2 * y + b) + (2 * y + b); }
  }

  /** Above the root, an iteration from a larger y lands no lower. */
  lemma StepIncreasing(b: int, c: nat, y: nat, z: nat)
    requires YArgs(b, c, y) && 0 < Residual(b, c, y) && y <= z
    ensures StepY(b, c, y) <= StepY(b, c, z)
  {
    var r := StepY(b, c, y);
    StepNotAbove(b, c, y);
    QuotientBounds(y * y + c, 2 * y + b, r);
    StepShift(b, c, y, z, r);
    MulNonNegative(z - y, z + y - 2 * r);
    FloorAtLeast(z * z + c, 2 * z + b, r);
  }

  lemma StepShift(b: int, c: int, y: int, z: int, r: int)
    ensures z * z + c - r * (2 * z + b) == y * y + c - r * (2 * y + b) + (z - y) * (z + y - 2 * r)
  {}

  lemma AtMostBracket(b: int, c: int, y: nat, z: int)
    requires 0 <= c && 0 < Residual(b, c, y + 1) && Residual(b, c, z) <= 0
    ensures z <= y
  {
    if y < z { ResidualIncreasing(b, c, y + 1, z); }
  }

  /** Where the smaller coefficients have no positive residual at y, neither do they where the larger step to,
      or that is no higher than y. */
  lemma StepUnderRoot(b1: int, c1: nat, b2: int, c2: nat, y: nat)
    requires b1 < b2 && c2 <= c1 && YArgs(b2, c2, y) && 0 < Residual(b2, c2, y + 1) && Residual(b1, c1, y) <= 0
    ensures StepY(b2, c2, y) <= y || Residual(b1, c1, StepY(b2, c2, y)) <= 0
  {
    var r := StepY(b2, c2, y);
    StepYNotUp(b2, c2, y);
    if r == y + 1 {
      StepYBounds(b2, c2, y);
      SmallMove(r - y);
      ResidualShift(b1, c1, b2, c2, r);
      MulLe(1, b2 - b1, r);
    }
  }

  /** A run that has ended stays above one more iteration of the run with the larger coefficients. */
  lemma StepUnderEnded(b1: int, c1: nat, b2: int, c2: nat, y1: nat, y2: nat)
    requires b1 < b2 && c2 <= c1 && y2 <= y1 && YArgs(b2, c2, y2)
    requires 0 < Residual(b1, c1, y1 + 1) && 0 < Residual(b2, c2, y2 + 1)
    ensures StepY(b2, c2, y2) <= y1
  {
    if 0 < Residual(b1, c1, y2) {
      DivisorAboveRoot(b1, c1, y2);
      StepsFromSame(b1, c1, b2, c2, y2);
      StepNotAbove(b1, c1, y2);
    } else {
      StepUnderRoot(b1, c1, b2, c2, y2);
      if y2 < StepY(b2, c2, y2) { AtMostBracket(b1, c1, y1, StepY(b2, c2, y2)); }
    }
  }

  lemma DivisorAboveRoot(b: int, c: nat, y: nat)
    requires 0 < Residual(b, c, y)
    ensures YArgs(b, c, y)
  {
    assert y != 0;
    ResidualPositive(b, c, y);
  }

  /** Iterates in order stay in order. */
  lemma StepsInOrder(b1: int, c1: nat, b2: int, c2: nat, y1: nat, y2: nat)
    requires b1 < b2 && c2 <= c1 && y2 <= y1 && YArgs(b1, c1, y1) && YArgs(b2, c2, y2)
    requires 0 < Residual(b2, c2, y2 + 1)
    ensures StepY(b2, c2, y2) <= StepY(b1, c1, y1)
  {
    if 0 < Residual(b1, c1, y2) {
      DivisorAboveRoot(b1, c1, y2);
      StepsFromSame(b1, c1, b2, c2, y2);
      StepIncreasing(b1, c1, y2, y1);
    } else {
      StepYBounds(b1, c1, y1);
      StepUnderRoot(b1, c1, b2, c2, y2);
      AtMostBracket(b1, c1, StepY(b1, c1, y1), y2);
      if y2 < StepY(b2, c2, y2) { AtMostBracket(b1, c1, StepY(b1, c1, y1), StepY(b2, c2, y2)); }
    }
  }

  /** What a run of `computeY` keeps at every loop head after its first iteration. */
  ghost predicate YLoop(b: int, c: int, y: int, yPrev: int) {
    && 0 <= c && 0 <= y && 0 < Residual(b, c, y + 1)
    && (if 1 < Abs(y - yPrev) then YArgs(b, c, y) else Residual(b, c, y) <= 1)
  }

  lemma YLoopStep(b: int, c: nat, y: nat)
    requires YArgs(b, c, y)
    ensures YLoop(b, c, StepY(b, c, y), y)
  {
    StepYBounds(b, c, y);
    if 1 < Abs(StepY(b, c, y) - y) {
      StepYReady(b, c, y);
    } else {
      SmallMove(StepY(b, c, y) - y);
    }
  }

  lemma EndsAboveRoot(b: int, c: nat, y: nat, yPrev: nat, fuel: nat)
    requires YLoop(b, c, y, yPrev)
    ensures 0 < Residual(b, c, NewtonY(b, c, y, yPrev, fuel).current + 1)
  {
    if 1 < Abs(y - yPrev) && 0 < fuel { NewtonYBrackets(b, c, y, yPrev, fuel); }
  }

  /** Two runs whose iterates are in order end in order, wherever each of them stops or is cut off. */
  lemma {:induction false} RunsInOrder(b1: int, c1: nat, y1: nat, yPrev1: nat, b2: int, c2: nat, y2: nat,
                                       yPrev2: nat, fuel: nat)
    requires b1 < b2 && c2 <= c1 && y2 <= y1
    requires YLoop(b1, c1, y1, yPrev1) && YLoop(b2, c2, y2, yPrev2)
    ensures NewtonY(b2, c2, y2, yPrev2, fuel).current <= NewtonY(b1, c1, y1, yPrev1, fuel).current
    decreases fuel
  {
    if Abs(y2 - yPrev2) <= 1 {
      EndsAboveRoot(b1, c1, y1, yPrev1, fuel);
      LargerCoefficients(b1, c1, b2, c2, NewtonY(b1, c1, y1, yPrev1, fuel).current, y2);
    } else if fuel != 0 {
      NewtonYUnfolds(b2, c2, y2, yPrev2, fuel);
      YLoopStep(b2, c2, y2);
      if Abs(y1 - yPrev1) <= 1 {
        StepUnderEnded(b1, c1, b2, c2, y1, y2);
        RunsInOrder(b1, c1, y1, yPrev1, b2, c2, StepY(b2, c2, y2), y2, fuel - 1);
      } else {
        NewtonYUnfolds(b1, c1, y1, yPrev1, fuel);
        YLoopStep(b1, c1, y1);
        StepsInOrder(b1, c1, b2, c2, y1, y2);
        RunsInOrder(b1, c1, StepY(b1, c1, y1), y1, b2, c2, StepY(b2, c2, y2), y2, fuel - 1);
      }
    }
  }

  /** At the same D and any cap, a larger balance on one side never gives a larger balance on the other. */
  lemma RunYMonotone(ann: int, x1: int, x2: int, d: nat, fuel: nat)
    requires 0 < ann && 0 < x1 <= x2
    ensures RunY(ann, x2, d, fuel).current <= RunY(ann, x1, d, fuel).current
  {
    if x1 < x2 && 2 <= d && 0 < fuel {
      var b1, c1 := CoefficientB(ann, x1, d), CoefficientC(ann, x1, d);
      var b2, c2 := CoefficientB(ann, x2, d), CoefficientC(ann, x2, d);
      CoefficientCDecreasing(ann, x1, x2, d);
      FirstDivisor(ann, x1, d);
      FirstDivisor(ann, x2, d);
      StepsFromSame(b1, c1, b2, c2, d);
      YLoopStep(b1, c1, d);
      YLoopStep(b2, c2, d);
      NewtonYUnfolds(b1, c1, d, 0, fuel);
      NewtonYUnfolds(b2, c2, d, 0, fuel);
      RunsInOrder(b1, c1, StepY(b1, c1, d), d, b2, c2, StepY(b2, c2, d), d, fuel - 1);
    }
  }

  lemma ComputeYMonotone(amp: nat, x1: nat, x2: nat, d: nat)
    requires 1 <= amp && 0 < x1 <= x2
    ensures ComputeY(amp, x2, d).value <= ComputeY(amp, x1, d).value
  {
    RunYMonotone(2 * amp, x1, x2, d, MAX_ITERS);
  }

  /** `computeY` as the loop it is. */
  method SolveY(amp: nat, x: nat, d: nat) returns (r: Outcome<nat>)
    requires 1 <= amp
    ensures r == ComputeY(amp, x, d)
    ensures r.Returns? <==> 0 < x
    ensures 0 < x && 2 <= d ==> Excess(2 * amp, x, r.value + 1, d) < 0
  {
    var ann := amp * 2;
    var b := x + d / ann - d;
    if x == 0 {
      return Throws(DivisionByZero);
    }
    assert 0 < x * ann by { MulLt(0, x, ann); }
    var c := d * d * d / (2 * (2 * (x * ann)));
    assert b == CoefficientB(ann, x, d) && c == CoefficientC(ann, x, d);
    FirstDivisor(ann, x, d);
    var yPrev: int, y: int, i := 0, d, 0;
    ghost var end := NewtonY(b, c, d, 0, MAX_ITERS);
    while i < MAX_ITERS && 1 < Abs(y - yPrev)
      invariant 0 <= i <= MAX_ITERS && 0 <= yPrev && 0 <= y
      invariant 1 < Abs(y - yPrev) ==> YArgs(b, c, y)
      invariant NewtonY(b, c, y, yPrev, MAX_ITERS - i) == end
      decreases MAX_ITERS - i
    {
      NewtonYUnfolds(b, c, y, yPrev, MAX_ITERS - i);
      yPrev := y;
      assert (y * y + c) / (2 * y + b) == StepY(b, c, y);
      y := (y * y + c) / (2 * y + b);
      i := i + 1;
    }
    if 2 <= d { RunYSafe(ann, x, d, MAX_ITERS); }
    return Returns(y);
  }
}
