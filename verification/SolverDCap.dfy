/** When the loop of `computeD` in ts-client/src/amm/curve/stable-swap-math/calculator.ts needs its
    iteration cap, and when it does not. */
module SolverDCap {
  import opened Arithmetic
  import opened StableInvariant
  import opened SolverD
  import opened SolverDAccuracy

  // ---------- iterations that do not go up ----------

  /** What the floors lose at d is less than two units of D are worth there. */
  predicate FloorsFit(ann: int, a: int, b: int, d: int) {
    (d + 6) * FloorLoss(a, b, d) < 4 * (a * b) * (d * (ann - 1)) + 3 * (d * d * d) - 3 * (d * d)
  }

  /** An iterate of the loop, from which it goes on. */
  ghost predicate Running(ann: int, a: int, b: int, d: int) {
    2 <= d && InRange(a, b, d) && 0 < Excess(ann, a, b, d + 1)
  }

  /** The floors fit at every value that an iterate can have. */
  ghost predicate Balanced(ann: int, a: int, b: int) {
    forall d {:trigger Running(ann, a, b, d)} :: Running(ann, a, b, d) ==> FloorsFit(ann, a, b, d)
  }

  lemma UpStepLow(ann: int, s: int, d: int, p: int)
    ensures (d + 2) * (d * (ann - 1) + 3 * p) - d * (ann * s + 2 * p)
         == 2 * (d * (ann - 1)) + (d + 6) * p + d * Slack(ann, s, d)
  {
    assert (d + 2) * (d * (ann - 1) + 3 * p)
        == d * (d * (ann - 1)) + 2 * (d * (ann - 1)) + (d + 6) * p + 2 * (d * p);
    assert d * (ann * s + 2 * p) == d * (ann * s) + 2 * (d * p);
    assert d * Slack(ann, s, d) == d * (d * (ann - 1)) - d * (ann * s);
  }

  lemma UpStepHigh(ann: int, a: int, b: int, d: int)
    requires 0 < d && 0 < Excess(ann, a, b, d + 1)
    ensures -(4 * (a * b) * (d * Slack(ann, a + b, d)))
         <= d * ((d + 1) * (d + 1) * (d + 1)) + 4 * (a * b) * (d * (ann - 1)) - d
  {
    SlackNext(ann, a + b, d);
    UpStepScaled(d, 4 * (a * b), Slack(ann, a + b, d), ann - 1, (d + 1) * (d + 1) * (d + 1));
  }

  lemma UpStepScaled(d: int, m: int, x: int, t: int, cube: int)
    requires 0 < d && 1 <= cube + m * (x + t)
    ensures -(m * (d * x)) <= d * cube + m * (d * t) - d
  {
    MulLe(1, cube + m * (x + t), d);
    assert (cube + m * (x + t)) * d == d * cube + m * (d * x) + m * (d * t);
  }

  lemma QuarticExpansion(d: int)
    ensures d * ((d + 1) * (d + 1) * (d + 1)) == d * (d * d * d) + 3 * (d * d * d) + 3 * (d * d) + d
  {}

  lemma UpStepFloors(d: int, m: int, p: int, loss: int)
    requires 0 < d && d * d * d <= m * p + loss
    ensures d * (d * d * d) + 6 * (d * d * d) - (d + 6) * loss <= m * ((d + 6) * p)
  {
    MulLe(d * d * d, m * p + loss, d + 6);
    assert d * d * d * (d + 6) == d * (d * d * d) + 6 * (d * d * d);
    assert (m * p + loss) * (d + 6) == m * ((d + 6) * p) + (d + 6) * loss;
  }

  lemma UpStepCombines(d: int, m: int, t: int, up: int, slack: int, u: int, q: int, cube: int, quartic: int, loss: int)
    requires 0 < m && u == 2 * t + up + slack
    requires -(m * slack) <= quartic + 3 * cube + 3 * q + d + m * t - d
    requires quartic + 6 * cube - loss <= m * up && loss < m * t + 3 * cube - 3 * q
    ensures 0 < u
  {
    assert m * u == 2 * (m * t) + m * up + m * slack;
    if u <= 0 { MulLe(u, 0, m); }
  }

  lemma NoUpStep(ann: int, a: int, b: int, d: int, p: int)
    requires 0 < a && 0 < b && 0 < d && FloorsFit(ann, a, b, d) && 0 < Excess(ann, a, b, d + 1)
    requires d * d * d <= 4 * (a * b) * p + FloorLoss(a, b, d)
    ensures d * (ann * (a + b) + 2 * p) < (d + 2) * (d * (ann - 1) + 3 * p)
  {
    var m := 4 * (a * b);
    ProductPositive(a, b);
    UpStepLow(ann, a + b, d, p);
    UpStepHigh(ann, a, b, d);
    QuarticExpansion(d);
    UpStepFloors(d, m, p, FloorLoss(a, b, d));
    UpStepCombines(d, m, d * (ann - 1), (d + 6) * p, d * Slack(ann, a + b, d),
                   (d + 2) * (d * (ann - 1) + 3 * p) - d * (ann * (a + b) + 2 * p),
                   d * d, d * d * d, d * (d * d * d), (d + 6) * FloorLoss(a, b, d));
  }

  /** Where the floors fit, an iteration from a unit under the invariant or more goes up by at most one. */
  lemma StepDNotUp(ann: int, a: nat, b: nat, d: nat)
    requires DArgs(ann, a, b, d) && FloorsFit(ann, a, b, d) && 0 < Excess(ann, a, b, d + 1)
    ensures StepD(ann, a, b, d) <= d + 1
  {
    DProductBounds(a, b, d);
    NoUpStep(ann, a, b, d, DProduct(a, b, d));
    FloorBelow(DNumerator(ann, a, b, d), DDenominator(ann, a, b, d), d + 2);
  }

  // ---------- which pools are balanced ----------

  /** What the floors leave, over d, once 6d of it pays for 6 * 4ab. */
  function Room(w: int, a: int, d: int): int {
    w + 3 * (d * d) - 8 * d + 6 - 2 * (d * a) - 10 * a
  }

  lemma RoomScaled(w: int, a: int, d: int)
    ensures d * Room(w, a, d) == d * w + 3 * (d * d * d) - 8 * (d * d) + 6 * d - 2 * (d * d * a) - 10 * (d * a)
  {
    assert d * (3 * (d * d)) == 3 * (d * d * d);
    assert d * (2 * (d * a)) == 2 * (d * d * a);
  }

  lemma LossScaled(a: int, m: int, d: int)
    ensures (d + 6) * (2 * a * d + m - d - 2 * a)
         == 2 * (d * d * a) + 10 * (d * a) - 12 * a + d * m + 6 * m - d * d - 6 * d
  {
    assert d * (2 * a * d + m - d - 2 * a) == 2 * (d * d * a) + d * m - d * d - 2 * (d * a);
    assert (d + 6) * (2 * a * d + m - d - 2 * a) == d * (2 * a * d + m - d - 2 * a) + 6 * (2 * a * d + m - d - 2 * a);
  }

  lemma WeightScaled(ann: int, m: int, d: int)
    ensures m * (d * (ann - 1)) == d * (m * (ann - 2)) + d * m
  {}

  lemma FitsWhen(ann: int, a: int, b: int, d: int)
    requires 0 < a && 0 < b && InRange(a, b, d) && 0 <= Room(4 * (a * b) * (ann - 2), a, d)
    ensures FloorsFit(ann, a, b, d)
  {
    ProductPositive(a, b);
    FitsAt(ann, a, 4 * (a * b), d);
  }

  lemma FitsAt(ann: int, a: int, m: int, d: int)
    requires 0 < a && 0 < d && m <= d * d && 0 <= Room(m * (ann - 2), a, d)
    ensures (d + 6) * (2 * a * d + m - d - 2 * a) < m * (d * (ann - 1)) + 3 * (d * d * d) - 3 * (d * d)
  {
    LossScaled(a, m, d);
    WeightScaled(ann, m, d);
    RoomScaled(m * (ann - 2), a, d);
    MulNonNegative(d, Room(m * (ann - 2), a, d));
    FitsCombine(d, a, m, d * m, d * (m * (ann - 2)), d * d, d * d * d, d * a, d * d * a,
                (d + 6) * (2 * a * d + m - d - 2 * a), m * (d * (ann - 1)));
  }

  lemma FitsCombine(d: int, a: int, m: int, dm: int, dw: int, q: int, cube: int, da: int, qa: int, loss: int,
                    weight: int)
    requires 0 < a && m <= q && weight == dw + dm
    requires loss == 2 * qa + 10 * da - 12 * a + dm + 6 * m - q - 6 * d
    requires 0 <= dw + 3 * cube - 8 * q + 6 * d - 2 * qa - 10 * da
    ensures loss < weight + 3 * cube - 3 * q
  {}

  lemma Square3(a: int, d: int)
    ensures (3 * d - a - 4) * (3 * d - a - 4) == 9 * (d * d) - 6 * (a * d) + a * a - 24 * d + 8 * a + 16
  {}

  lemma AmplifiedCore(w: int, a: int, d: int)
    requires a * a + 38 * a <= 3 * w
    ensures 0 <= Room(w, a, d)
  {
    Square(3 * d - a - 4);
    Square3(a, d);
  }

  lemma AmplifiedProduct(ann: int, a: int, b: int)
    requires 0 < a && a + 38 <= 12 * b * (ann - 2)
    ensures a * a + 38 * a <= 3 * (4 * (a * b) * (ann - 2))
  {
    MulLe(a + 38, 12 * b * (ann - 2), a);
    assert 12 * b * (ann - 2) * a == 3 * (4 * (a * b) * (ann - 2));
  }

  /** A pool is balanced at an amplification that makes up for what the destination has less. */
  lemma AmplifiedIsBalanced(ann: int, a: int, b: int)
    requires 0 < a && 0 < b && a + 38 <= 12 * b * (ann - 2)
    ensures Balanced(ann, a, b)
  {
    AmplifiedProduct(ann, a, b);
    forall d {:trigger Running(ann, a, b, d)} | Running(ann, a, b, d)
      ensures FloorsFit(ann, a, b, d)
    {
      AmplifiedCore(4 * (a * b) * (ann - 2), a, d);
      FitsWhen(ann, a, b, d);
    }
  }

  /** The room in terms of z = 3d - 2a. */
  lemma RoomFromWidth(a: int, d: int, w: int, z: int, k: int)
    requires 0 <= w && 0 <= d && z == 3 * d - 2 * a && k <= z && 8 * d + 10 * a - 6 <= k * d
    ensures 0 <= Room(w, a, d)
  {
    MulLe(k, z, d);
    assert z * d == 3 * (d * d) - 2 * (d * a);
  }

  lemma EvenNarrow(a: int, d: int, w: int)
    requires 0 < a && 11 <= d && 0 <= w && 4 * a < 3 * d
    ensures 0 <= Room(w, a, d)
  {
    // z is above 3d/2, which is at least 16 once d is 11.
    RoomFromWidth(a, d, w, 3 * d - 2 * a, 16);
  }

  lemma EvenWide(a: int, d: int, w: int)
    requires 0 < a && 0 < d && 0 <= w && 3 * d <= 4 * a && 4 * (a * a) + 140 * a <= 9 * (d * d)
    ensures 0 <= Room(w, a, d)
  {
    var z := 3 * d - 2 * a;
    assert z * (3 * d + 2 * a) == 9 * (d * d) - 4 * (a * a);
    if z < 24 { EvenWidth(z, 3 * d + 2 * a, a); }
    RoomFromWidth(a, d, w, z, 24);
  }

  lemma EvenCore(a: int, d: int, w: int)
    requires 0 < a && 11 <= d && 0 <= w && 4 * (a * a) + 140 * a <= 9 * (d * d)
    ensures 0 <= Room(w, a, d)
  {
    if 4 * a < 3 * d { EvenNarrow(a, d, w); } else { EvenWide(a, d, w); }
  }

  lemma EvenWidth(w: int, v: int, a: int)
    requires 0 < v <= 6 * a && w < 24
    ensures w * v < 140 * a
  {
    MulLe(w, 23, v);
  }

  lemma EvenProduct(a: int, b: int)
    requires 0 < a && a + 35 <= 9 * b
    ensures 4 * (a * a) + 140 * a <= 9 * (4 * a * b)
  {
    MulLe(a + 35, 9 * b, a);
  }

  /** At any amplification, a pool whose destination holds about a ninth of its source is balanced. */
  lemma EvenIsBalanced(ann: int, a: int, b: int)
    requires 2 <= ann && 0 < a && 0 < b && a + 35 <= 9 * b && 121 <= 4 * a * b
    ensures Balanced(ann, a, b)
  {
    EvenProduct(a, b);
    ProductPositive(a, b);
    MulNonNegative(4 * (a * b), ann - 2);
    forall d {:trigger Running(ann, a, b, d)} | Running(ann, a, b, d)
      ensures FloorsFit(ann, a, b, d)
    {
      SquareLess(10, d);
      EvenCore(a, d, 4 * (a * b) * (ann - 2));
      FitsWhen(ann, a, b, d);
    }
  }

  lemma NearCore(a: int, d: int, w: int)
    requires 3 * a <= 4 * d && 64 <= d && 0 <= w
    ensures 0 <= Room(w, a, d)
  {
    MulLe(3 * a, 4 * d, d);
    MulLe(64, d, d);
  }

  lemma RunningAbove(ann: int, a: int, b: int, e: int, d: int)
    requires 1 <= ann && 0 <= a && 0 <= b && Excess(ann, a, b, e) <= 0 < Excess(ann, a, b, d + 1)
    ensures e <= d
  {
    if d < e { ExcessMonotone(ann, a, b, d + 1, e); }
  }

  /** At any amplification, a pool whose exact invariant is three quarters of its source or more is balanced. */
  lemma NearIsBalanced(ann: int, a: int, b: int, e: int)
    requires 2 <= ann && 0 < a && 0 < b && 64 <= e && 3 * a <= 4 * e && Excess(ann, a, b, e) <= 0
    ensures Balanced(ann, a, b)
  {
    ProductPositive(a, b);
    MulNonNegative(4 * (a * b), ann - 2);
    forall d {:trigger Running(ann, a, b, d)} | Running(ann, a, b, d)
      ensures FloorsFit(ann, a, b, d)
    {
      RunningAbove(ann, a, b, e, d);
      NearCore(a, d, 4 * (a * b) * (ann - 2));
      FitsWhen(ann, a, b, d);
    }
  }

  // ---------- the loop without its cap ----------

  lemma StepDRuns(ann: int, a: nat, b: nat, d: nat)
    requires DArgs(ann, a, b, d) && Balanced(ann, a, b) && Running(ann, a, b, d)
    ensures 0 < StepD(ann, a, b, d) <= d + 1
    ensures 1 < Abs(StepD(ann, a, b, d) - d) ==> Running(ann, a, b, StepD(ann, a, b, d)) && StepD(ann, a, b, d) + 2 <= d
  {
    StepDLower(ann, a, b, d);
    StepDUpper(ann, a, b, d);
    StepDNotUp(ann, a, b, d);
  }

  /** The loop of `computeD` without the iteration cap. In a balanced pool it terminates: every
      iteration that does not end it lowers d by at least two. */
  ghost function ConvergeD(ann: int, a: nat, b: nat, d: nat): nat
    requires DArgs(ann, a, b, d) && Balanced(ann, a, b) && Running(ann, a, b, d)
    decreases d
  {
    var r := StepD(ann, a, b, d);
    StepDRuns(ann, a, b, d);
    if Abs(r - d) <= 1 then r else ConvergeD(ann, a, b, r)
  }

  /** In a balanced pool, half the distance to the invariant is iterations enough: the cap changes nothing. */
  lemma {:induction false} BalancedConverges(ann: int, a: nat, b: nat, d: nat, dPrev: nat, e: int, fuel: nat)
    requires DArgs(ann, a, b, d) && Balanced(ann, a, b) && Running(ann, a, b, d) && 1 < Abs(d - dPrev)
    requires Excess(ann, a, b, e) <= 0 && d - e < 2 * fuel
    ensures NewtonD(ann, a, b, d, dPrev, fuel).Converged()
    ensures NewtonD(ann, a, b, d, dPrev, fuel).current == ConvergeD(ann, a, b, d)
    decreases fuel
  {
    var r := StepD(ann, a, b, d);
    StepDRuns(ann, a, b, d);
    RunningAbove(ann, a, b, e, d);
    NewtonDUnfolds(ann, a, b, d, dPrev, fuel);
    if 1 < Abs(r - d) {
      RunningAbove(ann, a, b, e, r);
      BalancedConverges(ann, a, b, r, d, e, fuel - 1);
    }
  }

  lemma SumRuns(ann: int, a: nat, b: nat)
    requires 2 <= ann && 0 < a && 0 < b
    ensures Running(ann, a, b, a + b)
  {
    SumInRange(a, b);
    SumLower(ann, a, b);
  }

  /** From the start of `computeD`: half the sum of the balances is enough. */
  lemma BalancedNeedsNoCap(ann: int, a: nat, b: nat, fuel: nat)
    requires 2 <= ann && 0 < a && 0 < b && Balanced(ann, a, b) && a + b <= 2 * fuel
    ensures Running(ann, a, b, a + b)
    ensures NewtonD(ann, a, b, a + b, 0, fuel).Converged()
    ensures NewtonD(ann, a, b, a + b, 0, fuel).current == ConvergeD(ann, a, b, a + b)
  {
    SumRuns(ann, a, b);
    ExcessAtTwo(ann, a, b);
    BalancedConverges(ann, a, b, a + b, 0, 2, fuel);
  }

  // ---------- twenty iterations ----------

  lemma CubeGrowth(e: int, r: int)
    requires 0 <= e < r
    ensures 3 * (e * e) * (r - e - 1) <= r * r * r - (e + 1) * (e + 1) * (e + 1)
  {
    var f, x := e + 1, r - (e + 1);
    CubeDropIs(r, x);
    GrowthIdentity(f, x);
    MulNonNegative(x, x);
    MulNonNegative(3 * f + x, x * x);
    Square(e);
    MulLe(3 * (e * e), 3 * (f * f), x);
  }

  lemma GrowthIdentity(f: int, x: int)
    ensures CubeDrop(f + x, x) == 3 * (f * f) * x + (3 * f + x) * (x * x)
  {
    assert (f + x) * (f + x) == f * f + 2 * (f * x) + x * x;
    assert (f * f + 2 * (f * x) + x * x) * x == f * f * x + 2 * (f * (x * x)) + x * (x * x);
    assert (f + x) * (x * x) == f * (x * x) + x * (x * x);
    assert x * x * x == x * (x * x);
  }

  /** At least three e^2 of excess for every unit above the invariant. */
  lemma ExcessGrowth(ann: int, a: int, b: int, e: int, r: int)
    requires 1 <= ann && 0 < a && 0 < b && 0 <= e < r && 0 < Excess(ann, a, b, e + 1)
    ensures 3 * (e * e) * (r - e - 1) < Excess(ann, a, b, r)
  {
    CubeGrowth(e, r);
    ProductPositive(a, b);
    SlackMonotone(ann, a + b, e + 1, a + b, r);
    MulLe(Slack(ann, a + b, e + 1), Slack(ann, a + b, r), 4 * (a * b));
  }

  lemma TangentShrinks(d: int, r: int, q: int)
    requires 0 < r <= d && d - r <= q
    ensures (r - d) * (r - d) * (r + 2 * d) <= 3 * d * (q * q)
  {
    ProductMonotone(d - r, d - r, q, q);
    assert (r - d) * (r - d) == (d - r) * (d - r);
    ProductMonotone((r - d) * (r - d), r + 2 * d, q * q, 3 * d);
  }

  lemma LossShrinks(d: int, r: int, loss: int, top: int)
    requires 0 < r <= d && 2 * d <= 3 * r && 0 <= loss <= top
    ensures loss * (3 * r - 2 * d) <= d * top
  {
    ProductMonotone(3 * r - 2 * d, loss, d, top);
  }

  /** An iteration of a pool whose sum is near its invariant is above the invariant by no more than this. */
  lemma StepDShrinks(ann: int, a: int, b: int, d: int, p: int, r: int, q: int)
    requires DArgs(ann, a, b, d) && InRange(a, b, d) && IsStepD(ann, a, b, d, p, r)
    requires 0 < r <= d && 2 * d <= 3 * r && d - r <= q
    ensures Excess(ann, a, b, r) <= 3 * d * (q * q) + 2 * a * d + d * d
  {
    StepDAbove(ann, a, b, d, p, r);
    TangentShrinks(d, r, q);
    ProductPositive(a, b);
    MulLe(1, d, 2 * a);
    MulLe(1, a, d);
    LossShrinks(d, r, FloorLoss(a, b, d), 2 * a * d + d * d);
    ShrinksCombine(d, Excess(ann, a, b, r), (r - d) * (r - d) * (r + 2 * d), FloorLoss(a, b, d) * (3 * r - 2 * d),
                   3 * d * (q * q), 2 * a * d + d * d);
  }

  lemma ShrinksCombine(d: int, excess: int, tangent: int, lost: int, x: int, y: int)
    requires 0 < d && d * excess <= d * tangent + lost && tangent <= x && lost <= d * y
    ensures excess <= x + y
  {
    MulLe(tangent, x, d);
    AddScaled(d, x, y);
    CancelLe(excess, x + y, d);
  }

  lemma FiveFourths(x: int, y: int, e: int)
    requires 0 <= x && 0 <= y && 4 * x <= 5 * e && 4 * y <= 5 * e
    ensures 16 * (x * y) <= 25 * (e * e)
  {
    ProductMonotone(4 * x, 4 * y, 5 * e, 5 * e);
    assert 4 * x * (4 * y) == 16 * (x * y) && 5 * e * (5 * e) == 25 * (e * e);
  }

  lemma ShrinkLoss(a: int, d: int, e: int)
    requires 0 <= a && 0 < d && 4 * d <= 5 * e && 4 * a <= 5 * e
    ensures 16 * (2 * a * d + d * d) <= 75 * (e * e)
  {
    FiveFourths(a, d, e);
    FiveFourths(d, d, e);
    assert 2 * a * d == 2 * (a * d);
  }

  lemma ShrinkTangent(d: int, e: int, square: int)
    requires 4 * d <= 5 * e && 0 <= square
    ensures 4 * (3 * d * square) <= 15 * (e * square)
  {
    MulLe(4 * d, 5 * e, square);
  }

  lemma ShrinkArithmetic(a: int, d: int, e: int, q: int, above: int)
    requires 0 < e && 0 <= a && 0 < d && 4 * d <= 5 * e && 4 * a <= 5 * e
    requires 3 * (e * e) * above < 3 * d * (q * q) + 2 * a * d + d * d
    ensures 16 * (e * above) < 20 * (q * q) + 25 * e
  {
    Square(q);
    ShrinkLoss(a, d, e);
    ShrinkTangent(d, e, q * q);
    ShrinkCancel(e, above, q * q, 3 * d * (q * q), 2 * a * d + d * d);
  }

  lemma ShrinkCancel(e: int, above: int, square: int, x: int, y: int)
    requires 0 < e && 3 * (e * e) * above < x + y && 4 * x <= 15 * (e * square) && 16 * y <= 75 * (e * e)
    ensures 16 * (e * above) < 20 * square + 25 * e
  {
    assert 3 * (e * e) * above == 3 * (e * above) * e;
    assert 16 * (e * above) * (3 * e) < (20 * square + 25 * e) * (3 * e);
    CancelLt(16 * (e * above), 20 * square + 25 * e, 3 * e);
  }

  /** The whole invariant e, no less than four fifths of the sum. */
  ghost predicate Near(ann: int, a: int, b: int, e: int) {
    && 2 <= ann && 0 < a && 0 < b && 200 <= e && 4 * (a + b) <= 5 * e
    && Excess(ann, a, b, e) <= 0 < Excess(ann, a, b, e + 1)
  }

  lemma QuadraticAbove(ann: int, a: int, b: int, d: int, p: int, r: int, e: int)
    requires Near(ann, a, b, e) && Running(ann, a, b, d) && IsStepD(ann, a, b, d, p, r) && e < r <= d
    ensures 16 * (e * (r - e - 1)) < 20 * ((d - e) * (d - e)) + 25 * e
  {
    StepDShrinks(ann, a, b, d, p, r, d - e);
    ExcessGrowth(ann, a, b, e, r);
    ShrinkArithmetic(a, d, e, d - e, r - e - 1);
  }

  /** Quadratic convergence: the distance q to the invariant becomes at most 5/4 q^2 / e, and the floors add under
      three. */
  lemma StepDQuadratic(ann: int, a: nat, b: nat, d: nat, e: nat)
    requires Near(ann, a, b, e) && Running(ann, a, b, d) && e <= StepD(ann, a, b, d) <= d
    ensures 16 * (e * (StepD(ann, a, b, d) - e - 1)) < 20 * ((d - e) * (d - e)) + 25 * e
  {
    var r := StepD(ann, a, b, d);
    if r == e {
      AtInvariant(e, d - e, r - e - 1);
    } else {
      StepDIsStep(ann, a, b, d);
      QuadraticAbove(ann, a, b, d, DProduct(a, b, d), r, e);
    }
  }

  lemma AtInvariant(e: int, q: int, above: int)
    requires 0 < e && above == -1
    ensures 16 * (e * above) < 20 * (q * q) + 25 * e
  {
    Square(q);
  }

  /** Ten units and 4e/5L above the invariant. */
  predicate Close(e: int, q: int, l: int) {
    5 * (l * (q - 10)) <= 4 * e
  }

  lemma CloseIsScaled(e: int, x: int, l: int)
    requires 3 <= l && 0 <= x && 5 * (l * x) <= 4 * e
    ensures 15 * x <= 4 * e
  {
    MulLe(3, l, x);
  }

  lemma Shift(q: int)
    ensures 20 * (q * q) == 20 * ((q - 10) * (q - 10)) + 400 * (q - 10) + 2000
  {
    assert (q - 10) * (q - 10) == q * q - 20 * q + 100;
  }

  /** Every iteration squares L. */
  lemma CloseSquares(e: int, q: int, q': int, l: int)
    requires 200 <= e && 3 <= l && Close(e, q, l) && q' <= q
    requires 16 * (e * (q' - 1)) < 20 * (q * q) + 25 * e
    ensures Close(e, q', l * l)
  {
    if q' <= 10 {
      CloseBelow(e, q' - 10, l);
    } else {
      CloseIsScaled(e, q - 10, l);
      Shift(q);
      ShiftScaled(e, q');
      CloseArithmetic(e, q - 10, e * (q' - 10), (q - 10) * (q - 10), e * (q' - 1), q * q);
      CloseCancels(e, q - 10, q' - 10, l);
    }
  }

  lemma CloseBelow(e: int, y: int, l: int)
    requires 0 <= e && y <= 0
    ensures 5 * (l * l * y) <= 4 * e
  {
    Square(l);
    MulLe(y, 0, l * l);
  }

  lemma ShiftScaled(e: int, q: int)
    ensures e * (q - 1) == e * (q - 10) + 9 * e
  {}

  lemma CloseArithmetic(e: int, x: int, ey: int, xx: int, shifted: int, square: int)
    requires 200 <= e && 15 * x <= 4 * e && shifted == ey + 9 * e && 16 * shifted < 20 * square + 25 * e
    requires 20 * square == 20 * xx + 400 * x + 2000
    ensures 4 * ey <= 5 * xx
  {}

  lemma CloseCancels(e: int, x: int, y: int, l: int)
    requires 0 < e && 0 <= x && 0 <= l && 4 * (e * y) <= 5 * (x * x) && 5 * (l * x) <= 4 * e
    ensures 5 * (l * l * y) <= 4 * e
  {
    MulNonNegative(l, x);
    ProductMonotone(5 * (l * x), 5 * (l * x), 4 * e, 4 * e);
    Square(l);
    MulLe(4 * (e * y), 5 * (x * x), 5 * (l * l));
    CloseSquared(e, x, y, l);
    CancelLe(5 * (l * l * y), 4 * e, 4 * e);
  }

  lemma CloseSquared(e: int, x: int, y: int, l: int)
    ensures 5 * (x * x) * (5 * (l * l)) == 5 * (l * x) * (5 * (l * x))
    ensures 4 * (e * y) * (5 * (l * l)) == 5 * (l * l * y) * (4 * e)
  {}

  /** Near the invariant the number of iterations grows with the logarithm of the number of digits. */
  lemma {:induction false} NearConverges(ann: int, a: nat, b: nat, d: nat, dPrev: nat, e: nat, l: int, n: nat,
                                         fuel: nat)
    requires Near(ann, a, b, e) && Running(ann, a, b, d) && 1 < Abs(d - dPrev)
    requires 3 <= l && Close(e, d - e, l) && 4 * e < 5 * Tower(l, n) && n + 6 <= fuel
    ensures NewtonD(ann, a, b, d, dPrev, fuel).Converged()
    decreases n
  {
    NearIsBalanced(ann, a, b, e);
    RunningAbove(ann, a, b, e, d);
    if n == 0 {
      CloseEnough(e, d - e, l);
      BalancedConverges(ann, a, b, d, dPrev, e, fuel);
    } else {
      var r := StepD(ann, a, b, d);
      StepDRuns(ann, a, b, d);
      NewtonDUnfolds(ann, a, b, d, dPrev, fuel);
      if 1 < Abs(r - d) {
        RunningAbove(ann, a, b, e, r);
        StepDQuadratic(ann, a, b, d, e);
        CloseSquares(e, d - e, r - e, l);
        MulLe(3, l, l);
        NearConverges(ann, a, b, r, d, e, l * l, n - 1, fuel - 1);
      }
    }
  }

  lemma CloseEnough(e: int, q: int, l: int)
    requires 3 <= l && 5 * (l * (q - 10)) <= 4 * e < 5 * l
    ensures q <= 10
  {
    if 11 <= q { MulLe(1, q - 10, l); }
  }

  /** The whole-number part of the invariant, searched upward from an integer at most the invariant. */
  lemma {:induction false} WholeInvariantExists(ann: int, a: int, b: int, e: int, top: int) returns (whole: int)
    requires Excess(ann, a, b, e) <= 0 < Excess(ann, a, b, top + 1) && e <= top
    ensures e <= whole <= top && Excess(ann, a, b, whole) <= 0 < Excess(ann, a, b, whole + 1)
    decreases top - e
  {
    if 0 < Excess(ann, a, b, e + 1) {
      whole := e;
    } else {
      whole := WholeInvariantExists(ann, a, b, e + 1, top);
    }
  }

  /** The sum of the balances is at most 5/4 of e, which is at most the exact invariant. */
  predicate NearInvariant(amp: int, a: int, b: int, e: int) {
    1 <= amp && 0 < a && 0 < b && 200 <= e && 4 * (a + b) <= 5 * e && Excess(2 * amp, a, b, e) <= 0
  }

  lemma StartIsClose(e: int, s: int)
    requires 0 <= e && 4 * s <= 5 * e
    ensures Close(e, s - e, 3)
  {}

  /** The cap of twenty iterations is enough near the invariant, for balances up to 3^(2^14). */
  lemma TwentyIterationsSuffice(amp: nat, a: nat, b: nat, e: int, n: nat)
    requires NearInvariant(amp, a, b, e) && n <= 14 && a + b <= Tower(3, n)
    ensures ConvergesD(amp, a, b)
  {
    var ann := 2 * amp;
    SumRuns(ann, a, b);
    RunningAbove(ann, a, b, e, a + b);
    var whole := WholeInvariantExists(ann, a, b, e, a + b);
    StartIsClose(whole, a + b);
    NearConverges(ann, a, b, a + b, 0, whole, 3, n, MAX_ITERS);
  }

  lemma ScaledFits()
    ensures 2 * SCALED_MAX <= Tower(3, 7)
  {
    assert Tower(3, 7) == Tower(81, 5) == Tower(43046721, 3);
  }

  /** In a pool whose exact invariant is at least four fifths of its sum, `computeD` converges, and on the whole
      invariant or at most two more. */
  lemma NearPoolIsAccurate(amp: nat, a: nat, b: nat, e: int)
    requires NearInvariant(amp, a, b, e) && a <= SCALED_MAX && b <= SCALED_MAX
    ensures ConvergesD(amp, a, b) && ComputeD(amp, a, b).Returns?
    ensures var d := ComputeD(amp, a, b).value;
            Excess(2 * amp, a, b, d - 2) <= 0 < Excess(2 * amp, a, b, d + 1)
  {
    var d := ComputeD(amp, a, b).value;
    ScaledFits();
    TwentyIterationsSuffice(amp, a, b, e, 7);
    ComputeDSound(amp, a, b);
    ComputeDWithin(amp, a, b);
    FloorBelow(a, d, 2);
    ExcessMonotone(2 * amp, a, b, d - 2, d - 1 - a / d);
  }

  // ---------- a loop that only the cap ends ----------

  /** Two iterates that lead to each other keep the loop going for ever. */
  lemma {:induction false} CycleNeverConverges(ann: int, a: nat, b: nat, d: nat, e: nat, dPrev: nat, fuel: nat)
    requires DArgs(ann, a, b, d) && 0 < e && 1 < Abs(d - e) && 1 < Abs(d - dPrev)
    requires StepD(ann, a, b, d) == e && StepD(ann, a, b, e) == d
    ensures !NewtonD(ann, a, b, d, dPrev, fuel).Converged()
    decreases fuel
  {
    if fuel != 0 {
      NewtonDUnfolds(ann, a, b, d, dPrev, fuel);
      CycleNeverConverges(ann, a, b, e, d, d, fuel - 1);
    }
  }

  /** Out of balance the cap is what ends the loop: at amp 1 and balances 33 and 1 the
      iterates are 34, 24, 20, 18, 20, 18, ... for ever. */
  lemma UncappedLoopNeedNotEnd(fuel: nat)
    ensures !NewtonD(2, 33, 1, 34, 0, fuel).Converged()
  {
    StepsOutOfBalance();
    if fuel != 0 {
      NewtonDUnfolds(2, 33, 1, 34, 0, fuel);
      if fuel != 1 {
        NewtonDUnfolds(2, 33, 1, 24, 34, fuel - 1);
        CycleNeverConverges(2, 33, 1, 20, 18, 24, fuel - 2);
      }
    }
  }

  lemma StepsOutOfBalance()
    ensures StepD(2, 33, 1, 34) == 24 && StepD(2, 33, 1, 24) == 20
    ensures StepD(2, 33, 1, 20) == 18 && StepD(2, 33, 1, 18) == 20
  {
    assert DProduct(33, 1, 34) == 289;
    assert DProduct(33, 1, 24) == 96;
    assert DProduct(33, 1, 20) == 60;
    assert DProduct(33, 1, 18) == 36;
  }
}
