/** When the iteration cap of `computeY` in ts-client/src/amm/curve/stable-swap-math/calculator.ts is enough. */
module SolverYCap {
  import opened Arithmetic
  import opened StableInvariant
  import opened SolverY

  /** The integer s is the whole part of the root, and g is about the slope of the residual there. */
  predicate WholeRoot(b: int, c: int, s: int, g: int) {
    0 <= s && 0 <= c && Residual(b, c, s) <= 0 < Residual(b, c, s + 1) && g == 2 * s + 2 + b && 20 <= g
  }

  /** An iterate after the first from which the loop goes on. */
  ghost predicate RunningY(b: int, c: int, y: int, yPrev: int) {
    1 < Abs(y - yPrev) && YArgs(b, c, y) && 0 < Residual(b, c, y + 1)
  }

  lemma RootBelow(b: int, c: int, s: int, y: nat)
    requires 0 <= c && Residual(b, c, s) <= 0 < Residual(b, c, y + 1)
    ensures s <= y
  {
    AtMostBracket(b, c, y, s);
  }

  lemma StepYRuns(b: int, c: nat, y: nat, yPrev: nat, s: int)
    requires RunningY(b, c, y, yPrev) && Residual(b, c, s) <= 0
    ensures var r := StepY(b, c, y);
            s <= r <= y + 1 && (1 < Abs(r - y) ==> RunningY(b, c, r, y) && r + 2 <= y)
  {
    YLoopStep(b, c, y);
    StepYNotUp(b, c, y);
    RootBelow(b, c, s, StepY(b, c, y));
  }

  // ---------- near the root: quadratic ----------

  lemma ResidualAbove(b: int, c: int, s: int, r: int)
    ensures Residual(b, c, r) == Residual(b, c, s + 1) + (r - s - 1) * (r - s - 1 + 2 * s + 2 + b)
  {}

  lemma MoveShrinks(y: int, r: int, s: int)
    requires s <= r <= y
    ensures (r - y) * (r - y) <= (y - s) * (y - s)
  {
    ProductMonotone(y - r, y - r, y - s, y - s);
    assert (r - y) * (r - y) == (y - r) * (y - r);
  }

  /** The distance q to the root becomes less than q^2 / g + 1. */
  lemma StepYQuadratic(b: int, c: nat, y: nat, s: int, g: int)
    requires YArgs(b, c, y) && WholeRoot(b, c, s, g) && s < StepY(b, c, y) <= y
    ensures g * (StepY(b, c, y) - s - 1) < (y - s) * (y - s)
  {
    var r := StepY(b, c, y);
    StepYBounds(b, c, y);
    MoveShrinks(y, r, s);
    ResidualAbove(b, c, s, r);
    AtLeastSlope(r - s - 1, g);
  }

  lemma AtLeastSlope(x: int, g: int)
    requires 0 <= x
    ensures g * x <= x * (x + g)
  {
    MulNonNegative(x, x);
    assert x * (x + g) == x * x + g * x;
  }

  lemma SquareFromTwo(q: int)
    ensures q * q == (q - 2) * (q - 2) + 4 * (q - 2) + 4
  {
    assert (q - 2) * (q - 2) == q * q - 4 * q + 4;
  }

  lemma QuadraticArithmetic(g: int, l: int, q: int, q': int)
    requires 20 <= g && 5 <= l && 2 < q' <= q && l * (q - 2) <= g && g * (q' - 1) < q * q
    ensures l * l * (q' - 2) <= g
  {
    SquareFromTwo(q);
    MulLe(5, l, q - 2);
    assert g * (q' - 1) == g * (q' - 2) + g;
    QuadraticCancels(g, l, q - 2, q' - 2);
  }

  lemma QuadraticCancels(g: int, l: int, x: int, y: int)
    requires 0 < g && 0 <= l && 0 <= x && l * x <= g && g * y <= x * x
    ensures l * l * y <= g
  {
    MulNonNegative(l, x);
    ProductMonotone(l * x, l * x, g, g);
    Square(l);
    MulLe(g * y, x * x, l * l);
    Regroups(g, l, x, y);
    CancelLe(l * l * y, g, g);
  }

  lemma Regroups(g: int, l: int, x: int, y: int)
    ensures g * y * (l * l) == l * l * y * g && x * x * (l * l) == l * x * (l * x)
  {}

  lemma {:induction false} TailConverges(b: int, c: nat, y: nat, yPrev: nat, s: int, fuel: nat)
    requires RunningY(b, c, y, yPrev) && Residual(b, c, s) <= 0 && y - s < 2 * fuel
    ensures NewtonY(b, c, y, yPrev, fuel).Converged()
    decreases fuel
  {
    var r := StepY(b, c, y);
    RootBelow(b, c, s, y);
    StepYRuns(b, c, y, yPrev, s);
    NewtonYUnfolds(b, c, y, yPrev, fuel);
    if 1 < Abs(r - y) { TailConverges(b, c, r, y, s, fuel - 1); }
  }

  lemma NotAbove(g: int, l: int, y: int)
    requires 0 <= g && y <= 0
    ensures l * l * y <= g
  {
    Square(l);
    MulLe(y, 0, l * l);
  }

  lemma NearStep(b: int, c: nat, y: nat, s: int, g: int, l: int)
    requires YArgs(b, c, y) && WholeRoot(b, c, s, g) && 5 <= l && l * (y - s - 2) <= g && s <= StepY(b, c, y) <= y
    ensures l * l * (StepY(b, c, y) - s - 2) <= g
  {
    var r := StepY(b, c, y);
    if r - s - 2 <= 0 {
      NotAbove(g, l, r - s - 2);
    } else {
      StepYQuadratic(b, c, y, s, g);
      QuadraticArithmetic(g, l, y - s, r - s);
    }
  }

  lemma EndIsNear(g: int, l: int, x: int)
    requires 0 < l && l * x <= g < l
    ensures x <= 0
  {
    if 1 <= x { MulLe(1, x, l); }
  }

  /** Within g / l of the root, every iteration squares l. */
  lemma {:induction false} NearConvergesY(b: int, c: nat, y: nat, yPrev: nat, s: int, g: int, l: int, n: nat, fuel: nat)
    requires RunningY(b, c, y, yPrev) && WholeRoot(b, c, s, g)
    requires 5 <= l && l * (y - s - 2) <= g < Tower(l, n) && n + 2 <= fuel
    ensures NewtonY(b, c, y, yPrev, fuel).Converged()
    decreases n
  {
    var r := StepY(b, c, y);
    if n == 0 {
      EndIsNear(g, l, y - s - 2);
      TailConverges(b, c, y, yPrev, s, fuel);
    } else {
      StepYRuns(b, c, y, yPrev, s);
      NewtonYUnfolds(b, c, y, yPrev, fuel);
      if 1 < Abs(r - y) {
        NearStep(b, c, y, s, g, l);
        assert 5 <= l * l by { MulLe(5, l, l); }
        NearConvergesY(b, c, r, y, s, g, l * l, n - 1, fuel - 1);
      }
    }
  }

  // ---------- far from the root: halving ----------

  lemma HalvingIdentity(b: int, c: int, y: int, s: int)
    ensures (y + s + 3) * (2 * y + b) - 2 * (y * y + c)
         == 2 * Residual(b, c, s + 1) + (y - s + 1) * (2 * s + b) + 6 * (y - s) - 2
  {
    assert (y + s + 3) * (2 * y + b) == 2 * (y * y) + b * y + 2 * (s * y) + b * s + 6 * y + 3 * b;
    assert (y - s + 1) * (2 * s + b) == 2 * (s * y) + b * y - 2 * (s * s) - b * s + 2 * s + b;
    assert Residual(b, c, s + 1) == s * s + 2 * s + 1 + b * s + b - c;
  }

  lemma HalvingBound(b: int, c: int, y: int, s: int)
    requires 0 < Residual(b, c, s + 1) && s < y && 0 <= 2 * s + b
    ensures 2 * (y * y + c) < (y + s + 3) * (2 * y + b)
  {
    HalvingIdentity(b, c, y, s);
    MulNonNegative(y - s + 1, 2 * s + b);
  }

  lemma SlopeAtRoot(b: int, c: int, s: int)
    requires Residual(b, c, s) <= 0 < Residual(b, c, s + 1)
    ensures 0 <= 2 * s + b
  {
    assert Residual(b, c, s + 1) == Residual(b, c, s) + 2 * s + 1 + b;
  }

  lemma HalfQuotient(n: int, w: int, r: int, t: int)
    requires 0 < w && r * w <= n && 2 * n < t * w
    ensures 2 * r < t
  {
    CancelLt(2 * r, t, w);
  }

  /** Every iteration at least halves the distance to two above the root. */
  lemma StepYHalves(b: int, c: nat, y: nat, s: int)
    requires YArgs(b, c, y) && 0 < Residual(b, c, y + 1) && s <= y && Residual(b, c, s) <= 0 < Residual(b, c, s + 1)
    ensures 2 * (StepY(b, c, y) - s - 2) <= y - s - 2
  {
    if s == y {
      StepYNotUp(b, c, y);
    } else {
      QuotientBounds(y * y + c, 2 * y + b, StepY(b, c, y));
      SlopeAtRoot(b, c, s);
      HalvingBound(b, c, y, s);
      HalfQuotient(y * y + c, 2 * y + b, StepY(b, c, y), y + s + 3);
    }
  }

  function PowerOfTwo(h: nat): nat {
    if h == 0 then 1 else 2 * PowerOfTwo(h - 1)
  }

  lemma TwiceScaled(g: int, p: int)
    ensures g * (2 * p) == 2 * (g * p)
  {}

  /** From 2^h g / 5 above the root, h iterations come near, and loglog g more end the loop. */
  lemma {:induction false} FarConvergesY(b: int, c: nat, y: nat, yPrev: nat, s: int, g: int, h: nat, n: nat, fuel: nat)
    requires RunningY(b, c, y, yPrev) && WholeRoot(b, c, s, g)
    requires 5 * (y - s - 2) <= g * PowerOfTwo(h) && g < Tower(5, n) && h + n + 2 <= fuel
    ensures NewtonY(b, c, y, yPrev, fuel).Converged()
    decreases h
  {
    var r := StepY(b, c, y);
    if h == 0 {
      NearConvergesY(b, c, y, yPrev, s, g, 5, n, fuel);
    } else {
      RootBelow(b, c, s, y);
      StepYRuns(b, c, y, yPrev, s);
      NewtonYUnfolds(b, c, y, yPrev, fuel);
      if 1 < Abs(r - y) {
        StepYHalves(b, c, y, s);
        TwiceScaled(g, PowerOfTwo(h - 1));
        FarConvergesY(b, c, r, y, s, g, h - 1, n, fuel - 1);
      }
    }
  }

  /** Twenty iterations are enough when the first lands at most 2^h g / 5 above the root and g is below 5^(2^n), for
      any split h + n = 17 of the remaining iterations. */
  lemma TwentyIterationsSuffice(ann: int, x: int, d: nat, s: int, g: int, h: nat, n: nat)
    requires 0 < ann && 0 < x && WholeRoot(CoefficientB(ann, x, d), CoefficientC(ann, x, d), s, g)
    requires 5 * (StepYFirst(ann, x, d) - s - 2) <= g * PowerOfTwo(h) && g < Tower(5, n) && h + n <= 17
    ensures RunY(ann, x, d, MAX_ITERS).Converged()
  {
    var b, c := CoefficientB(ann, x, d), CoefficientC(ann, x, d);
    FirstDivisor(ann, x, d);
    if 2 <= d {
      NewtonYUnfolds(b, c, d, 0, MAX_ITERS);
      YLoopStep(b, c, d);
      if 1 < Abs(StepY(b, c, d) - d) {
        FarConvergesY(b, c, StepY(b, c, d), d, s, g, h, n, MAX_ITERS - 1);
      }
    }
  }

  /** With h + 2 iterations to spend, halving alone ends the loop from 2^h + 2 above the root. */
  lemma {:induction false} HalvingConverges(b: int, c: nat, y: nat, yPrev: nat, s: int, h: nat, fuel: nat)
    requires RunningY(b, c, y, yPrev) && Residual(b, c, s) <= 0 < Residual(b, c, s + 1)
    requires y - s - 2 <= PowerOfTwo(h) && h + 2 <= fuel
    ensures NewtonY(b, c, y, yPrev, fuel).Converged()
    decreases h
  {
    var r := StepY(b, c, y);
    if h == 0 {
      TailConverges(b, c, y, yPrev, s, fuel);
    } else {
      RootBelow(b, c, s, y);
      StepYRuns(b, c, y, yPrev, s);
      NewtonYUnfolds(b, c, y, yPrev, fuel);
      if 1 < Abs(r - y) {
        StepYHalves(b, c, y, s);
        HalvingConverges(b, c, r, y, s, h - 1, fuel - 1);
      }
    }
  }

  // ---------- from the balances ----------

  /** The whole part of the root exists at or below any integer with a positive residual one above. */
  lemma {:induction false} WholeRootExists(b: int, c: int, low: int, top: int) returns (s: int)
    requires low <= top && Residual(b, c, low) <= 0 < Residual(b, c, top + 1)
    ensures low <= s <= top && Residual(b, c, s) <= 0 < Residual(b, c, s + 1)
    decreases top - low
  {
    if 0 < Residual(b, c, low + 1) {
      s := low;
    } else {
      s := WholeRootExists(b, c, low + 1, top);
    }
  }

  lemma CoefficientCBounds(ann: int, x: int, d: nat)
    requires 0 < ann && 0 < x
    ensures 0 < x * ann
    ensures 4 * (x * ann) * CoefficientC(ann, x, d) <= d * d * d < 4 * (x * ann) * (CoefficientC(ann, x, d) + 1)
  {
    assert 0 < x * ann by { MulLt(0, x, ann); }
    QuotientBounds(d * d * d, 2 * (2 * (x * ann)), CoefficientC(ann, x, d));
  }

  lemma SmallCoefficient(d: int, m: int, c: int)
    requires 0 < d <= 5 * m && 0 <= c && 4 * m * c <= d * d * d
    ensures 4 * c <= 5 * (d * d)
  {
    MulLe(d, 5 * m, 4 * c);
    assert 5 * m * (4 * c) == 5 * (4 * m * c);
    assert 5 * (d * d) * d == 5 * (d * d * d);
    CancelLe(4 * c, 5 * (d * d), d);
  }

  lemma SmallerCoefficient(d: int, x: int, ann: int, c: int)
    requires 2 <= ann && 0 < d < 3 * x && 0 <= c && 4 * (x * ann) * c <= d * d * d
    ensures 8 * c <= 3 * (d * d)
  {
    MulNonNegative(x, c);
    MulLe(2, ann, 4 * (x * c));
    assert ann * (4 * (x * c)) == 4 * (x * ann) * c;
    MulLe(d, 3 * x, 8 * c);
    assert 3 * x * (8 * c) == 3 * (8 * (x * c));
    assert 3 * (d * d) * d == 3 * (d * d * d);
    CancelLe(8 * c, 3 * (d * d), d);
  }

  lemma FirstIterate(ann: int, x: int, d: nat)
    requires 0 < ann && 0 < x
    ensures StepYFirst(ann, x, d) * (d + x) <= d * d + CoefficientC(ann, x, d)
  {
    var b, c := CoefficientB(ann, x, d), CoefficientC(ann, x, d);
    FirstDivisor(ann, x, d);
    QuotientBounds(d * d + c, 2 * d + b, StepYFirst(ann, x, d));
    FloorBounds(d, ann);
    SmallerDivisor(StepYFirst(ann, x, d), d + x, 2 * d + b, d * d + c);
  }

  lemma SmallerDivisor(y: int, low: int, divisor: int, n: int)
    requires 0 <= y && low <= divisor && y * divisor <= n
    ensures y * low <= n
  {
    MulLe(low, divisor, y);
  }

  lemma FarBound(y: int, d: int, x: int, c: int)
    requires 0 <= y && 0 < d && 0 < x && y * (d + x) <= d * d + c && 4 * c <= 5 * (d * d)
    ensures 4 * y <= 9 * d
  {
    MulNonNegative(y, x);
    assert y * (d + x) == y * d + y * x;
    CancelLe(4 * y, 9 * d, d);
  }

  lemma CubeOfSmallX(y: int, d: int, x: int)
    requires 0 <= y && 0 < d && 0 < x && 3 * x <= d && 4 * y <= 9 * d
    ensures x * (y * y) <= 2 * (d * d * d)
  {
    ProductMonotone(4 * y, 4 * y, 9 * d, 9 * d);
    assert 4 * y * (4 * y) == 16 * (y * y) && 9 * d * (9 * d) == 81 * (d * d);
    Square(y);
    ProductMonotone(3 * x, 16 * (y * y), d, 81 * (d * d));
    assert 3 * x * (16 * (y * y)) == 48 * (x * (y * y)) && d * (81 * (d * d)) == 81 * (d * d * d);
    MulNonNegative(x, y * y);
  }

  lemma CubeOfLargerX(y: int, d: int, x: int, c: int)
    requires 0 <= y && 0 < d && 0 < x && y * (d + x) <= d * d + c && 8 * c <= 3 * (d * d)
    ensures x * (y * y) <= 2 * (d * d * d)
  {
    var v := y * (d + x);
    MulNonNegative(y, d + x);
    MulNonNegative(d, d);
    MulNonNegative(d * d, d);
    FourProducts(y, d, x);
    ElevenEighths(v, d * d);
    assert d * d * (d * d) == d * d * d * d;
    CancelCube(x * (y * y), d * d * d, d, v * v);
  }

  lemma ElevenEighths(v: int, q: int)
    requires 0 <= v && 8 * v <= 11 * q
    ensures 64 * (v * v) <= 121 * (q * q)
  {
    ProductMonotone(8 * v, 8 * v, 11 * q, 11 * q);
    assert 8 * v * (8 * v) == 64 * (v * v) && 11 * q * (11 * q) == 121 * (q * q);
  }

  lemma CancelCube(x: int, cube: int, d: int, square: int)
    requires 0 < d && 0 <= cube && 4 * (x * d) <= square && 64 * square <= 121 * (cube * d)
    ensures x <= 2 * cube
  {
    assert 256 * x * d <= 121 * cube * d;
    CancelLe(256 * x, 121 * cube, d);
  }

  lemma FourProducts(y: int, d: int, x: int)
    ensures 4 * (x * (y * y) * d) <= y * (d + x) * (y * (d + x))
  {
    Square(y * (d - x));
    assert y * (d - x) == y * d - y * x && y * (d + x) == y * d + y * x;
    assert x * (y * y) * d == y * d * (y * x);
    FourSquares(y * d, y * x);
  }

  lemma FourSquares(u: int, v: int)
    ensures 4 * (u * v) <= (u + v) * (u + v)
  {
    Square(u - v);
    assert (u + v) * (u + v) - 4 * (u * v) == (u - v) * (u - v);
  }

  lemma FirstIterateCube(ann: int, x: int, d: nat)
    requires 2 <= ann && 0 < x && 0 < d <= 5 * (x * ann)
    ensures x * (StepYFirst(ann, x, d) * StepYFirst(ann, x, d)) <= 2 * (d * d * d)
    ensures 4 * StepYFirst(ann, x, d) <= 9 * d
  {
    var c, y := CoefficientC(ann, x, d), StepYFirst(ann, x, d);
    CoefficientCBounds(ann, x, d);
    FirstIterate(ann, x, d);
    SmallCoefficient(d, x * ann, c);
    FarBound(y, d, x, c);
    if 3 * x <= d {
      CubeOfSmallX(y, d, x);
    } else {
      SmallerCoefficient(d, x, ann, c);
      CubeOfLargerX(y, d, x, c);
    }
  }

  lemma SlopeSquared(b: int, c: int, s: int)
    requires 0 < Residual(b, c, s + 1)
    ensures 4 * (c + 1) <= (2 * s + 2 + b) * (2 * s + 2 + b)
  {
    assert (2 * s + 2 + b) * (2 * s + 2 + b) == b * b + 4 * c + 4 * Residual(b, c, s + 1);
    Square(b);
  }

  lemma SlopeCube(m: int, c: int, slope: int, cube: int)
    requires 0 < m && 4 * (c + 1) <= slope && cube < 4 * m * (c + 1)
    ensures cube < slope * m
  {
    MulLe(4 * (c + 1), slope, m);
    assert 4 * (c + 1) * m == 4 * m * (c + 1);
  }

  /** The slope at the root is not much flatter than the first iterate is high. */
  lemma FirstIterateAgainstSlope(ann: int, x: int, d: nat, s: int, g: int)
    requires 2 <= ann && 0 < x && 0 < d <= 5 * (x * ann)
    requires 0 < Residual(CoefficientB(ann, x, d), CoefficientC(ann, x, d), s + 1)
    requires g == 2 * s + 2 + CoefficientB(ann, x, d)
    ensures StepYFirst(ann, x, d) * StepYFirst(ann, x, d) < 2 * ann * (g * g)
    ensures d * d * d < g * g * (x * ann)
  {
    CoefficientCBounds(ann, x, d);
    SlopeSquared(CoefficientB(ann, x, d), CoefficientC(ann, x, d), s);
    SlopeCube(x * ann, CoefficientC(ann, x, d), g * g, d * d * d);
    FirstIterateCube(ann, x, d);
    AgainstSlope(ann, x, StepYFirst(ann, x, d) * StepYFirst(ann, x, d), g * g, d * d * d);
  }

  lemma AgainstSlope(ann: int, x: int, square: int, slope: int, cube: int)
    requires 0 < x && x * square <= 2 * cube && cube < slope * (x * ann)
    ensures square < 2 * ann * slope
  {
    assert slope * (x * ann) == ann * slope * x;
    CancelLt(square, 2 * ann * slope, x) by { assert 2 * ann * slope * x == 2 * (ann * slope * x); }
  }

  lemma WithinPowers(ann: int, y: int, g: int, p: int)
    requires 0 <= g && 0 <= p && y * y < 2 * ann * (g * g) && 50 * ann <= p * p
    ensures 5 * y < g * p
  {
    Square(g);
    MulLe(50 * ann, p * p, g * g);
    assert 50 * ann * (g * g) == 25 * (2 * ann * (g * g));
    assert 5 * y * (5 * y) == 25 * (y * y) && g * p * (g * p) == p * p * (g * g);
    MulNonNegative(g, p);
    SquareLess(5 * y, g * p);
  }

  lemma SteepEnough(ann: int, x: int, d: int, s: int, b: int, g: int)
    requires 2 <= ann && 0 < x && 40 <= d && 800 * ann <= d * d && 0 <= s && x - d <= b && 0 < g == 2 * s + 2 + b
    requires d * d * d < g * g * (x * ann)
    ensures 20 <= g
  {
    if x <= 2 * d {
      Square(g);
      Reassociate(g * g, x, ann);
      MulNonNegative(g * g, ann);
      SlopeOverD(ann, d, x, g * g, g * g * ann);
      SquareLess(20, g);
    }
  }

  lemma SlopeOverD(ann: int, d: int, x: int, slope: int, t: int)
    requires 0 < ann && 0 < x <= 2 * d && 800 * ann <= d * d && 0 <= t == slope * ann && d * d * d < t * x
    ensures 400 < slope
  {
    SquareBelowTwice(d, x, t);
    CancelLt(400, slope, ann);
  }

  lemma SquareBelowTwice(d: int, x: int, t: int)
    requires 0 < x <= 2 * d && 0 <= t && d * d * d < t * x
    ensures d * d < 2 * t
  {
    MulLe(x, 2 * d, t);
    assert 2 * d * t == 2 * t * d;
    CancelLt(d * d, 2 * t, d);
  }

  lemma Reassociate(slope: int, x: int, ann: int)
    ensures slope * (x * ann) == slope * ann * x
  {}

  /** Twenty iterations are enough for any D within 5 ann x, at any amplification that 4^h covers, and balances that
      5^(2^n) does. */
  lemma TwentyIterationsForBalances(ann: int, x: int, d: nat, h: nat, n: nat)
    requires 2 <= ann <= 1_000_000 && 0 < x && d <= 5 * (x * ann) && h + n <= 17
    requires 50 * ann <= PowerOfTwo(h) * PowerOfTwo(h) && 5 * d + x + 2 < Tower(5, n)
    ensures RunY(ann, x, d, MAX_ITERS).Converged()
  {
    if 2 <= d {
      var s := RootOfRun(ann, x, d);
      FirstIterateCube(ann, x, d);
      if d < 40_000 {
        SmallRunConverges(ann, x, d, s);
      } else {
        LargeRunConverges(ann, x, d, s, h, n);
      }
    }
  }

  lemma RootOfRun(ann: int, x: int, d: nat) returns (s: int)
    requires 0 < ann && 0 < x
    ensures 0 <= s <= StepYFirst(ann, x, d)
    ensures Residual(CoefficientB(ann, x, d), CoefficientC(ann, x, d), s) <= 0
    ensures 0 < Residual(CoefficientB(ann, x, d), CoefficientC(ann, x, d), s + 1)
  {
    FirstDivisor(ann, x, d);
    StepYBounds(CoefficientB(ann, x, d), CoefficientC(ann, x, d), d);
    s := WholeRootExists(CoefficientB(ann, x, d), CoefficientC(ann, x, d), 0, StepYFirst(ann, x, d));
  }

  lemma PowerPositive(h: nat)
    ensures 1 <= PowerOfTwo(h)
  {}

  lemma SeventeenDoublings()
    ensures PowerOfTwo(17) == 131_072
  {
    assert PowerOfTwo(6) == 64;
    assert PowerOfTwo(12) == 4096;
  }

  lemma TenDoublings()
    ensures PowerOfTwo(10) == 1024
  {
    assert PowerOfTwo(5) == 32;
  }

  /** 5^128 is above twelve times the largest scaled balance. */
  lemma SevenSquarings()
    ensures 12 * SCALED_MAX + 2 < Tower(5, 7)
  {
    assert Tower(5, 7) == Tower(625, 5) == Tower(152_587_890_625, 3);
  }

  /** The largest amplification that a pool may have. */
  const MAX_AMP: nat := 10_000

  /** Every amplification that a pool may have, and every scaled balance, are covered. */
  lemma TwentyIterationsForPools(amp: nat, x: int, d: nat)
    requires 1 <= amp <= MAX_AMP && 0 < x <= 2 * SCALED_MAX && d <= 2 * SCALED_MAX && d <= 10 * amp * x
    ensures RunY(2 * amp, x, d, MAX_ITERS).Converged()
  {
    TenDoublings();
    SevenSquarings();
    assert 5 * (x * (2 * amp)) == 10 * amp * x;
    TwentyIterationsForBalances(2 * amp, x, d, 10, 7);
  }

  lemma SmallRunConverges(ann: int, x: int, d: nat, s: int)
    requires 0 < ann && 0 < x && 2 <= d < 40_000 && 4 * StepYFirst(ann, x, d) <= 9 * d && 0 <= s
    requires Residual(CoefficientB(ann, x, d), CoefficientC(ann, x, d), s) <= 0
    requires 0 < Residual(CoefficientB(ann, x, d), CoefficientC(ann, x, d), s + 1)
    ensures RunY(ann, x, d, MAX_ITERS).Converged()
  {
    FirstDivisor(ann, x, d);
    SeventeenDoublings();
    HalvingFromStart(CoefficientB(ann, x, d), CoefficientC(ann, x, d), d, s, 17, MAX_ITERS);
  }

  lemma HalvingFromStart(b: int, c: nat, d: nat, s: int, h: nat, fuel: nat)
    requires YArgs(b, c, d) && 2 <= d && Residual(b, c, s) <= 0 < Residual(b, c, s + 1)
    requires StepY(b, c, d) - s - 2 <= PowerOfTwo(h) && h + 3 <= fuel
    ensures NewtonY(b, c, d, 0, fuel).Converged()
  {
    NewtonYUnfolds(b, c, d, 0, fuel);
    YLoopStep(b, c, d);
    if 1 < Abs(StepY(b, c, d) - d) {
      HalvingConverges(b, c, StepY(b, c, d), d, s, h, fuel - 1);
    }
  }

  lemma LargeSquare(ann: int, d: int)
    requires ann <= 1_000_000 && 40_000 <= d
    ensures 800 * ann <= d * d
  {
    MulLe(40_000, d, d);
  }

  /** The slope at the root of a run, from its balances. */
  lemma SlopeOfRun(ann: int, x: int, d: nat, s: int, g: int)
    requires 2 <= ann <= 1_000_000 && 0 < x && 40_000 <= d <= 5 * (x * ann) && 0 <= s <= StepYFirst(ann, x, d)
    requires Residual(CoefficientB(ann, x, d), CoefficientC(ann, x, d), s) <= 0
    requires 0 < Residual(CoefficientB(ann, x, d), CoefficientC(ann, x, d), s + 1)
    requires g == 2 * s + 2 + CoefficientB(ann, x, d)
    ensures 20 <= g <= 5 * d + x + 2
    ensures StepYFirst(ann, x, d) * StepYFirst(ann, x, d) < 2 * ann * (g * g)
  {
    SlopeAtRoot(CoefficientB(ann, x, d), CoefficientC(ann, x, d), s);
    FirstIterateAgainstSlope(ann, x, d, s, g);
    FirstIterateCube(ann, x, d);
    WithinD(ann, d);
    LargeSquare(ann, d);
    SteepEnough(ann, x, d, s, CoefficientB(ann, x, d), g);
  }

  lemma WithinD(ann: int, d: nat)
    requires 0 < ann
    ensures 0 <= d / ann <= d
  {
    FloorBounds(d, ann);
    MulLe(1, ann, d + 1);
    FloorBelow(d, ann, d + 1);
  }

  lemma LargeRunConverges(ann: int, x: int, d: nat, s: int, h: nat, n: nat)
    requires 2 <= ann <= 1_000_000 && 0 < x && 40_000 <= d <= 5 * (x * ann) && 0 <= s <= StepYFirst(ann, x, d)
    requires Residual(CoefficientB(ann, x, d), CoefficientC(ann, x, d), s) <= 0
    requires 0 < Residual(CoefficientB(ann, x, d), CoefficientC(ann, x, d), s + 1)
    requires 50 * ann <= PowerOfTwo(h) * PowerOfTwo(h) && 5 * d + x + 2 < Tower(5, n) && h + n <= 17
    ensures RunY(ann, x, d, MAX_ITERS).Converged()
  {
    var g := 2 * s + 2 + CoefficientB(ann, x, d);
    SlopeOfRun(ann, x, d, s, g);
    PowerPositive(h);
    WithinPowers(ann, StepYFirst(ann, x, d), g, PowerOfTwo(h));
    TwentyIterationsSuffice(ann, x, d, s, g, h, n);
  }

  // ---------- cut off ----------

  /** Where b is not positive, an iteration at most halves y. */
  lemma StepYAtMostHalves(b: int, c: nat, y: nat)
    requires YArgs(b, c, y) && b <= 0
    ensures y + 1 <= 2 * (StepY(b, c, y) + 1)
  {
    var q := y / 2;
    MulLe(2 * q, y, y);
    MulLe(b, 0, q);
    assert q * (2 * y + b) == 2 * q * y + b * q;
    FloorAtLeast(y * y + c, 2 * y + b, q);
  }

  /** Three or more above the root, it goes down by two or more. */
  lemma StepYGoesOn(b: int, c: nat, y: nat, s: int)
    requires YArgs(b, c, y) && 0 <= s && s + 3 <= y && Residual(b, c, s) <= 0 < Residual(b, c, s + 1)
    ensures StepY(b, c, y) + 2 <= y
  {
    TwoAboveRoot(b, c, s);
    ResidualIncreasing(b, c, s + 2, y - 1);
    MoveOfTwo(b, c, y);
    FloorBelow(y * y + c, 2 * y + b, y - 1);
  }

  lemma TwoAboveRoot(b: int, c: int, s: int)
    requires Residual(b, c, s) <= 0 < Residual(b, c, s + 1)
    ensures 4 <= Residual(b, c, s + 2)
  {
    SlopeAtRoot(b, c, s);
    assert Residual(b, c, s + 2) == Residual(b, c, s + 1) + 2 * s + 3 + b;
  }

  lemma MoveOfTwo(b: int, c: int, y: int)
    ensures (y - 1) * (2 * y + b) - (y * y + c) == Residual(b, c, y - 1) - 1
  {
    assert (y - 1) * (2 * y + b) == 2 * (y * y) + b * y - 2 * y - b;
    assert Residual(b, c, y - 1) == y * y - 2 * y + 1 + b * y - b - c;
  }

  /** From 2^fuel times the root, the loop is cut off, and still above it. */
  lemma {:induction false} FarIsCutOff(b: int, c: nat, y: nat, yPrev: nat, s: int, fuel: nat)
    requires RunningY(b, c, y, yPrev) && b <= 0 && 0 <= s && Residual(b, c, s) <= 0 < Residual(b, c, s + 1)
    requires PowerOfTwo(fuel) * (s + 4) <= y + 1
    ensures var r := NewtonY(b, c, y, yPrev, fuel);
            !r.Converged() && s + 3 <= r.current
    decreases fuel
  {
    if fuel != 0 {
      PowerPositive(fuel);
      MulLe(1, PowerOfTwo(fuel), s + 4);
      StepYGoesOn(b, c, y, s);
      StepYRuns(b, c, y, yPrev, s);
      StepYAtMostHalves(b, c, y);
      NewtonYUnfolds(b, c, y, yPrev, fuel);
      HalvesScaled(PowerOfTwo(fuel - 1), s + 4, y + 1, StepY(b, c, y) + 1);
      FarIsCutOff(b, c, StepY(b, c, y), y, s, fuel - 1);
    }
  }

  lemma HalvesScaled(p: int, u: int, y: int, r: int)
    requires 2 * p * u <= y <= 2 * r
    ensures p * u <= r
  {
    assert 2 * p * u == 2 * (p * u);
  }

  /** How many times ann x makes D lopsided. */
  const LOPSIDED: int := 0x2000_0000_0000

  lemma LopsidedCoefficient(d: int, m: int, c: int)
    requires 0 < m && LOPSIDED * m <= d && d * d * d < 4 * m * (c + 1) && 0 <= c
    ensures 0x800_0000_0000 * (d * d) <= c
  {
    MulLe(0x800_0000_0000 * (4 * m), d, c + 1);
    assert 0x800_0000_0000 * (4 * m) * (c + 1) == 0x800_0000_0000 * (4 * m * (c + 1));
    assert 0x800_0000_0000 * (d * d) * d == 0x800_0000_0000 * (d * d * d);
    assert (c + 1) * d == d * (c + 1);
    CancelLt(0x800_0000_0000 * (d * d), c + 1, d);
  }

  lemma FirstIterateAbove(y: int, d: int, b: int, c: int)
    requires d * d + c < (y + 1) * (2 * d + b) && b <= 0 && 0 <= y && 0 < d
    ensures c < 2 * (d * (y + 1))
  {
    MulLe(2 * d + b, 2 * d, y + 1);
    MulNonNegative(d, d);
    assert 2 * d * (y + 1) == 2 * (d * (y + 1));
    assert (2 * d + b) * (y + 1) == (y + 1) * (2 * d + b);
  }

  lemma SmallCoefficientNear(y: int, d: int, c: int, u: int)
    requires 0 < d && y + 1 <= 0x8_0000 * u && c < 2 * (d * (y + 1))
    ensures c < 0x10_0000 * (d * u)
  {
    MulLe(y + 1, 0x8_0000 * u, d);
    assert (y + 1) * d == d * (y + 1) && 0x8_0000 * u * d == 0x8_0000 * (d * u);
  }

  lemma FarUnits(d: int, c: int, u: int)
    requires 0 < d && 0x800_0000_0000 * (d * d) <= c < 0x10_0000 * (d * u)
    ensures 0x80_0000 * d < u
  {
    assert 0x80_0000 * d * d == 0x80_0000 * (d * d) && u * d == d * u;
    CancelLt(0x80_0000 * d, u, d);
  }

  lemma TenAtMost(u: int)
    requires u * u <= 10 * u
    ensures u <= 10
  {
    if 11 <= u { MulLe(11, u, u); }
  }

  lemma RootIsNear(s: int, u: int, du: int, c: int, ds: int)
    requires u == s + 4 && 0 <= u && s * s <= c + ds && ds <= du && c < 0x10_0000 * du && 0x80_0000 * du <= u * u
    ensures u <= 10
  {
    assert s * s == u * u - 8 * u + 16;
    TenAtMost(u);
  }

  lemma RootTerms(d: int, b: int, c: int, s: int, u: int)
    requires 0 < d && 0 <= s <= u && -d <= b && s * s + b * s <= c && 0x80_0000 * d < u
    ensures s * s <= c + d * s && d * s <= d * u && 0x80_0000 * (d * u) <= u * u
  {
    MulLe(-d, b, s);
    MulLe(s, u, d);
    MulLe(0x80_0000 * d, u, u);
    assert 0x80_0000 * d * u == 0x80_0000 * (d * u) && -d * s == -(d * s);
  }

  lemma FarFromRoot(y: int, d: int, b: int, c: int, s: int)
    requires 0 < d && 0 <= y && 0 <= s && -d <= b && s * s + b * s <= c
    requires 0x800_0000_0000 * (d * d) <= c < 2 * (d * (y + 1))
    ensures 0x8_0000 * (s + 4) <= y + 1
  {
    if y + 1 < 0x8_0000 * (s + 4) {
      SmallCoefficientNear(y, d, c, s + 4);
      FarUnits(d, c, s + 4);
      RootTerms(d, b, c, s, s + 4);
      RootIsNear(s, s + 4, d * (s + 4), c, d * s);
    }
  }

  /** So a run for a lopsided D is cut off above its root. */
  lemma LopsidedIsCutOff(ann: int, x: int, d: nat)
    requires 2 <= ann && 0 < x && LOPSIDED * (x * ann) <= d
    ensures !RunY(ann, x, d, MAX_ITERS).Converged()
    ensures 1 < Residual(CoefficientB(ann, x, d), CoefficientC(ann, x, d), RunY(ann, x, d, MAX_ITERS).current)
  {
    var b, c := CoefficientB(ann, x, d), CoefficientC(ann, x, d);
    LopsidedB(ann, x, d);
    CoefficientCBounds(ann, x, d);
    LopsidedCoefficient(d, x * ann, c);
    var s := RootOfRun(ann, x, d);
    FirstDivisor(ann, x, d);
    QuotientBounds(d * d + c, 2 * d + b, StepYFirst(ann, x, d));
    FirstIterateAbove(StepYFirst(ann, x, d), d, b, c);
    FarFromRoot(StepYFirst(ann, x, d), d, b, c, s);
    FarFromStart(StepYFirst(ann, x, d), d, c);
    CutOffFromStart(b, c, d, s);
  }

  lemma LopsidedB(ann: int, x: int, d: nat)
    requires 2 <= ann && 0 < x && LOPSIDED * (x * ann) <= d
    ensures -(d as int) <= CoefficientB(ann, x, d) <= 0
  {
    MulLe(1, ann, x);
    FloorBounds(d, ann);
    MulLe(2, ann, d / ann);
  }

  lemma FarFromStart(y: int, d: int, c: int)
    requires 2 <= d && 0x800_0000_0000 * (d * d) <= c < 2 * (d * (y + 1))
    ensures d + 2 <= y
  {
    assert 0x800_0000_0000 * (d * d) == 0x800_0000_0000 * d * d && 2 * (d * (y + 1)) == 2 * (y + 1) * d;
    CancelLt(0x800_0000_0000 * d, 2 * (y + 1), d);
  }

  lemma CutOffFromStart(b: int, c: nat, d: nat, s: int)
    requires YArgs(b, c, d) && b <= 0 && 0 <= s && Residual(b, c, s) <= 0 < Residual(b, c, s + 1)
    requires 2 <= d && d + 2 <= StepY(b, c, d) && 0x8_0000 * (s + 4) <= StepY(b, c, d) + 1
    ensures var r := NewtonY(b, c, d, 0, MAX_ITERS);
            !r.Converged() && 1 < Residual(b, c, r.current)
  {
    NineteenDoublings();
    NewtonYUnfolds(b, c, d, 0, MAX_ITERS);
    YLoopStep(b, c, d);
    FarIsCutOff(b, c, StepY(b, c, d), d, s, MAX_ITERS - 1);
    var y := NewtonY(b, c, d, 0, MAX_ITERS).current;
    TwoAboveRoot(b, c, s);
    ResidualIncreasing(b, c, s + 2, y);
  }

  lemma NineteenDoublings()
    ensures PowerOfTwo(19) == 0x8_0000
  {
    SeventeenDoublings();
  }
}
