/** The stable curve of ts-client/src/amm/curve/stable-swap.ts: scaling of token amounts, the
    output quote on the Newton solvers, and what runs of swaps keep. */
module StableCurve {
  import opened Arithmetic
  import opened PoolTypes
  import opened StableInvariant
  import opened SolverD
  import opened SolverY
  import SolverYCap
  import DepegCache

  // ---------- scaling ----------

  /** What one token is scaled by: its multiplier and, in depeg pools, a price. */
  datatype Scale = Scale(multiplier: nat, depegged: bool, price: nat) {
    function Factor(): nat {
      if depegged then
        MulNonNegative(multiplier, price);
        multiplier * price
      else multiplier
    }

    /** `upscaleTokenA` and `upscaleTokenB`. */
    function Up(amount: nat): nat {
      MulNonNegative(amount, multiplier);
      MulNonNegative(amount * multiplier, price);
      if depegged then amount * multiplier * price else amount * multiplier
    }

    /** `downscaleTokenA` and `downscaleTokenB`: two truncating divisions. */
    function Down(amount: int): Outcome<int> {
      var denormalized :- BnDiv(amount, multiplier);
      if depegged then BnDiv(denormalized, price) else Returns(denormalized)
    }
  }

  /** Token A is scaled by the fixed precision where token B is scaled by its virtual price. */
  function ScaleA(multiplier: TokenMultiplier, depeg: Depeg): Scale {
    Scale(multiplier.tokenA, depeg.depegType != NoDepeg, PRECISION)
  }

  function ScaleB(multiplier: TokenMultiplier, depeg: Depeg): Scale {
    Scale(multiplier.tokenB, depeg.depegType != NoDepeg, depeg.baseVirtualPrice)
  }

  lemma UpIsFactor(s: Scale, amount: nat)
    ensures s.Up(amount) == amount * s.Factor()
  {}

  lemma UpAdds(s: Scale, x: nat, y: nat)
    ensures s.Up(x + y) == s.Up(x) + s.Up(y)
  {
    UpIsFactor(s, x);
    UpIsFactor(s, y);
    UpIsFactor(s, x + y);
    assert (x + y) * s.Factor() == x * s.Factor() + y * s.Factor();
  }

  lemma TruncDivBounds(n: int, d: int)
    requires 0 < d
    ensures 0 <= n ==> 0 <= TruncDiv(n, d) && TruncDiv(n, d) * d <= n
    ensures n < 0 ==> TruncDiv(n, d) <= 0
  {
    FloorBounds(n, d);
    FloorBounds(-n, d);
  }

  lemma TruncDivMonotone(m: int, n: int, d: int)
    requires 0 < d && m <= n
    ensures TruncDiv(m, d) <= TruncDiv(n, d)
  {
    TruncDivBounds(m, d);
    TruncDivBounds(n, d);
    if 0 <= m {
      FloorMonotone(m, n, d);
    } else if n < 0 {
      FloorMonotone(-n, -m, d);
    }
  }

  /** Downscaling divides by zero exactly when the factor is zero; otherwise it rounds
      toward zero: scaled up again, its result never exceeds what it was given. */
  lemma DownBounds(s: Scale, amount: int)
    ensures s.Down(amount).Returns? <==> 0 < s.Factor()
    ensures s.Down(amount).Returns? && 0 <= amount ==>
              0 <= s.Down(amount).value && s.Up(s.Down(amount).value) <= amount
    ensures s.Down(amount).Returns? && amount < 0 ==> s.Down(amount).value <= 0
  {
    FactorIsPositive(s);
    if 0 < s.multiplier {
      TruncDivBounds(amount, s.multiplier);
      if s.depegged && 0 < s.price { DownTwiceBounds(amount, s.multiplier, s.price); }
    }
  }

  lemma FactorIsPositive(s: Scale)
    ensures 0 < s.Factor() <==> 0 < s.multiplier && (s.depegged ==> 0 < s.price)
  {
    if 0 < s.multiplier && 0 < s.price { MulLt(0, s.multiplier, s.price); }
  }

  lemma DownTwiceBounds(amount: int, multiplier: nat, price: nat)
    requires 0 < multiplier && 0 < price
    ensures var r := TruncDiv(TruncDiv(amount, multiplier), price);
            && (0 <= amount ==> 0 <= r && r * multiplier * price <= amount)
            && (amount < 0 ==> r <= 0)
  {
    var q := TruncDiv(amount, multiplier);
    var r := TruncDiv(q, price);
    TruncDivBounds(amount, multiplier);
    TruncDivBounds(q, price);
    if 0 <= amount {
      MulLe(r * price, q, multiplier);
      assert r * multiplier * price == r * price * multiplier;
    } else if q == 0 {
      assert r == 0;
    }
  }

  lemma NestedFloor(v: nat, m: nat, p: nat)
    requires 0 < m && 0 < p
    ensures v / m / p * (m * p) <= v < (v / m / p + 1) * (m * p)
  {
    var q := v / m;
    FloorBounds(v, m);
    FloorBounds(q, p);
    MulLe(q / p * p, q, m);
    MulLe(q + 1, (q / p + 1) * p, m);
    assert q / p * p * m == q / p * (m * p) && (q / p + 1) * p * m == (q / p + 1) * (m * p);
  }

  lemma TruncOfNegative(n: nat, d: nat)
    requires 0 < d
    ensures TruncDiv(-(n as int), d) == -(n / d)
  {
    if n == 0 {
      FloorAtLeast(0, d, 0);
      FloorBelow(0, d, 1);
    }
  }

  lemma TruncOnce(v: int, d: nat)
    requires 0 < d
    ensures IsTruncated(TruncDiv(v, d), v, d)
  {
    if v < 0 { TruncOfNegative(-v, d); }
    FloorIsTruncated(Abs(v), d);
  }

  lemma FloorIsTruncated(n: nat, d: nat)
    requires 0 < d
    ensures 0 <= n / d && n / d * d <= n < (n / d + 1) * d
  {
    FloorBounds(n, d);
  }

  lemma TruncTwice(v: int, m: nat, p: nat)
    requires 0 < m && 0 < p
    ensures IsTruncated(TruncDiv(TruncDiv(v, m), p), v, m * p)
  {
    NestedFloor(Abs(v), m, p);
    FloorBounds(Abs(v), m);
    FloorBounds(Abs(v) / m, p);
    if v < 0 {
      TruncOfNegative(-v, m);
      TruncOfNegative(-v / m, p);
    }
  }

  /** Downscaling is the quotient by the factor, rounded toward zero once. */
  lemma DownIsQuotient(s: Scale, amount: int)
    requires 0 < s.Factor()
    ensures s.Down(amount).Returns?
    ensures IsTruncated(s.Down(amount).value, amount, s.Factor())
  {
    FactorIsPositive(s);
    if s.depegged { TruncTwice(amount, s.multiplier, s.price); } else { TruncOnce(amount, s.multiplier); }
  }

  /** The quotient of v by a positive unit, rounded toward zero. */
  predicate IsTruncated(q: int, v: int, unit: int) {
    if 0 <= v then 0 <= q && q * unit <= v < (q + 1) * unit else q <= 0 && -q * unit <= -v < (-q + 1) * unit
  }

  lemma DownMonotone(s: Scale, m: int, n: int)
    requires 0 < s.Factor() && m <= n
    ensures s.Down(m).Returns? && s.Down(n).Returns?
    ensures s.Down(m).value <= s.Down(n).value
  {
    DownBounds(s, m);
    DownBounds(s, n);
    TruncDivMonotone(m, n, s.multiplier);
    if s.depegged {
      TruncDivMonotone(TruncDiv(m, s.multiplier), TruncDiv(n, s.multiplier), s.price);
    }
  }

  lemma ExactQuotient(x: int, m: int)
    requires 0 < m && 0 <= x
    ensures 0 <= x * m && TruncDiv(x * m, m) == x
  {
    MulNonNegative(x, m);
    FloorAtLeast(x * m, m, x);
    FloorBelow(x * m, m, x + 1);
  }

  /** Downscaling undoes upscaling exactly. */
  lemma DownUndoesUp(s: Scale, amount: nat)
    requires 0 < s.Factor()
    ensures s.Down(s.Up(amount)) == Returns(amount)
  {
    if s.depegged {
      DownBounds(s, 0);
      MulNonNegative(amount, s.price);
      ExactQuotient(amount * s.price, s.multiplier);
      ExactQuotient(amount, s.price);
      assert s.Up(amount) == amount * s.price * s.multiplier;
    } else {
      ExactQuotient(amount, s.multiplier);
    }
  }

  /** Equal balances are their own invariant. */
  lemma EqualBalancesD(amp: nat, x: nat)
    requires 1 <= amp && 0 < x
    ensures ComputeD(amp, x, x) == Returns(2 * x)
  {
    ComputeDSound(amp, x, x);
    EqualExcess(2 * amp, x);
  }

  lemma EqualExcess(ann: int, x: int)
    ensures Excess(ann, x, x, 2 * x) == 0
  {
    assert Slack(ann, x + x, 2 * x) == -2 * x;
    assert 4 * (x * x) * (-2 * x) == -(2 * x * (2 * x) * (2 * x));
  }

  /** The upscaled amount of each token, in its own multiplier and price. */
  function UpscaledA(multiplier: TokenMultiplier, depeg: Depeg, amount: nat): int {
    amount * multiplier.tokenA * (if depeg.depegType == NoDepeg then 1 else 1_000_000)
  }

  function UpscaledB(multiplier: TokenMultiplier, depeg: Depeg, amount: nat): int {
    amount * multiplier.tokenB * (if depeg.depegType == NoDepeg then 1 else depeg.baseVirtualPrice)
  }

  /** What each token is scaled by: its own multiplier and, in depeg pools only, a million for token A and the virtual
      price for token B. */
  lemma ScalesWrittenOut(multiplier: TokenMultiplier, depeg: Depeg, amount: nat)
    ensures ScaleA(multiplier, depeg).Up(amount) == UpscaledA(multiplier, depeg, amount)
    ensures ScaleB(multiplier, depeg).Up(amount) == UpscaledB(multiplier, depeg, amount)
  {}

  /** What the multipliers and the virtual price mean: n times that many units of token A against n times the
      precision in units of token B, once both are normalised to the same decimals, is a pool in exact balance:
      `computeD` finds its whole value. Without a depeg only the multipliers count. */
  lemma VirtualPriceParity(amp: nat, multiplier: TokenMultiplier, depeg: Depeg, a: nat, b: nat, n: nat)
    requires 1 <= amp && 0 < a && 0 < multiplier.tokenA
    requires depeg.depegType != NoDepeg ==>
               a == n * (depeg.baseVirtualPrice * multiplier.tokenB) && b == n * (1_000_000 * multiplier.tokenA)
    requires depeg.depegType == NoDepeg ==> a == n * multiplier.tokenB && b == n * multiplier.tokenA
    ensures var up := ScaleA(multiplier, depeg).Up(a);
            && ScaleB(multiplier, depeg).Up(b) == up
            && ComputeD(amp, up, ScaleB(multiplier, depeg).Up(b)) == Returns(2 * up)
  {
    UpIsFactor(ScaleA(multiplier, depeg), a);
    UpIsFactor(ScaleB(multiplier, depeg), b);
    Parity(n, depeg.baseVirtualPrice, multiplier.tokenB, 1_000_000, multiplier.tokenA);
    PlainParity(n, multiplier.tokenB, multiplier.tokenA);
    UpPositive(ScaleA(multiplier, depeg), a);
    EqualBalancesD(amp, ScaleA(multiplier, depeg).Up(a));
  }

  lemma PlainParity(n: int, tokenB: int, tokenA: int)
    ensures n * tokenB * tokenA == n * tokenA * tokenB
  {}

  lemma Parity(n: int, price: int, tokenB: int, precision: int, tokenA: int)
    ensures n * (price * tokenB) * (tokenA * precision) == n * (precision * tokenA) * (tokenB * price)
  {}

  // ---------- the output quote ----------

  /** The divisor of the slippage-free output, which feeds the price impact. */
  function SlippageDivisor(amp: nat, source: nat, destination: nat, d: nat): int {
    (16 * amp * source + (2 * (16 * amp) * destination + (4 * d - d * amp * 16))) * source
  }

  /** The destination balance that the solvers reach for upscaled reserves `from` and `to` and an upscaled
      input, once the slippage-free output has been divided too. */
  function SolvedBalance(amp: nat, from: nat, to: nat, input: nat): Outcome<nat>
    requires 1 <= amp
  {
    var d :- ComputeD(amp, from, to);
    var y :- ComputeY(amp, from + input, d);
    if SlippageDivisor(amp, from, to, d) == 0 then Throws(DivisionByZero) else Returns(y)
  }

  /** `computeOutAmount` on the two tokens' scales. A zero divisor anywhere makes it throw. */
  function OutAmount(amp: nat, sourceScale: Scale, destinationScale: Scale,
                     amount: nat, source: nat, destination: nat): Outcome<int>
    requires 1 <= amp
  {
    var y :- SolvedBalance(amp, sourceScale.Up(source), destinationScale.Up(destination), sourceScale.Up(amount));
    destinationScale.Down(destinationScale.Up(destination) as int - y - 1)
  }

  lemma SlippageDivisorNonZero(amp: nat, source: nat, destination: nat, d: nat)
    requires 1 <= amp && 0 < source && 0 < d <= source + destination
    ensures SlippageDivisor(amp, source, destination, d) != 0
  {
    var k := 16 * amp;
    MulLe(d, source + 2 * destination, k);
    assert k * source + (2 * k * destination + (4 * d - d * amp * 16))
        == (source + 2 * destination) * k - d * k + 4 * d;
    MulLt(0, k * source + (2 * k * destination + (4 * d - d * amp * 16)), source);
  }

  /** What the divisor is: the slope of the invariant polynomial in the destination, exactly its central difference. The
      amplification in it is 4 amp, twice the 2 amp that the solvers use. */
  lemma SlippageDivisorIsSlope(amp: nat, source: nat, destination: nat, d: nat)
    ensures Excess(4 * amp, source, destination - 1, d) - Excess(4 * amp, source, destination + 1, d)
         == 2 * SlippageDivisor(amp, source, destination, d)
  {
    var k: int, c: int := 4 * amp, (4 * amp - 1) * d;
    SlackBeside(k, source, destination, d, -1);
    SlackBeside(k, source, destination, d, 1);
    CentralDifference(source, destination, k, c);
    DivisorInTerms(amp, source, destination, d);
  }

  lemma SlackBeside(k: int, x: int, y: int, d: int, step: int)
    requires step == 1 || step == -1
    ensures Slack(k, x + (y + step), d) == (k - 1) * d - k * x - k * y - k * step
  {
    assert k * (x + (y + step)) == k * x + k * y + k * step;
  }

  lemma DivisorInTerms(amp: nat, x: nat, y: nat, d: nat)
    ensures SlippageDivisor(amp, x, y, d) == 4 * (x * (4 * amp * x + 2 * (4 * amp * y) - (4 * amp - 1) * d))
  {
    var t := 4 * amp * x + 2 * (4 * amp * y) - (4 * amp - 1) * d;
    assert 16 * amp * x == 4 * (4 * amp * x) && 2 * (16 * amp) * y == 8 * (4 * amp * y);
    assert 4 * d - d * amp * 16 == -4 * ((4 * amp - 1) * d);
    FourTimes(t, x);
  }

  lemma FourTimes(t: int, x: int)
    ensures 4 * t * x == 4 * (x * t)
  {}

  lemma CentralDifference(x: int, y: int, k: int, c: int)
    ensures 4 * (x * (y - 1)) * (c - k * x - k * y + k) - 4 * (x * (y + 1)) * (c - k * x - k * y - k)
         == 8 * (x * (k * x + 2 * (k * y) - c))
  {
    var u := c - k * x - k * y;
    assert x * (y - 1) * (u + k) - x * (y + 1) * (u - k) == x * (2 * (k * y) - 2 * u);
    assert 4 * (x * (y - 1)) * (u + k) == 4 * (x * (y - 1) * (u + k));
    assert 4 * (x * (y + 1)) * (u - k) == 4 * (x * (y + 1) * (u - k));
  }

  lemma SolvedBalanceReturns(amp: nat, from: nat, to: nat, input: nat)
    requires 1 <= amp && 0 < from && 0 < to
    ensures SolvedBalance(amp, from, to, input).Returns?
    ensures SolvedBalance(amp, from, to, input) == ComputeY(amp, from + input, ComputeD(amp, from, to).value)
  {
    ComputeDSound(amp, from, to);
    SlippageDivisorNonZero(amp, from, to, ComputeD(amp, from, to).value);
  }

  /** On a pool with two positive reserves and usable scales, the quote never throws. */
  lemma OutAmountReturns(amp: nat, sourceScale: Scale, destinationScale: Scale,
                         amount: nat, source: nat, destination: nat)
    requires 1 <= amp && 0 < source && 0 < destination
    requires 0 < sourceScale.Factor() && 0 < destinationScale.Factor()
    ensures OutAmount(amp, sourceScale, destinationScale, amount, source, destination).Returns?
  {
    var from, to, input := sourceScale.Up(source), destinationScale.Up(destination), sourceScale.Up(amount);
    UpPositive(sourceScale, source);
    UpPositive(destinationScale, destination);
    SolvedBalanceReturns(amp, from, to, input);
    DownBounds(destinationScale, to - SolvedBalance(amp, from, to, input).value - 1);
  }

  lemma UpPositive(s: Scale, amount: nat)
    requires 0 < amount && 0 < s.Factor()
    ensures 0 < s.Up(amount)
  {
    UpIsFactor(s, amount);
    MulLt(0, amount, s.Factor());
  }

  lemma UpMonotone(s: Scale, x: nat, y: nat)
    requires x <= y
    ensures s.Up(x) <= s.Up(y)
  {
    UpIsFactor(s, x);
    UpIsFactor(s, y);
    MulLe(x, y, s.Factor());
  }

  /** Whatever balance is solved for, the output is below the reserve, unless it is zero or negative;
      and the upscaled reserve after it is above the solved balance, or did not fall. */
  lemma DestinationAfter(s: Scale, destination: nat, y: nat)
    requires s.Down(s.Up(destination) - y - 1).Returns?
    ensures var out := s.Down(s.Up(destination) - y - 1).value;
            && (out < destination || out <= 0)
            && (y + 1 <= s.Up(destination - out) || s.Up(destination) <= s.Up(destination - out))
  {
    var v := s.Up(destination) - y - 1;
    var out := s.Down(v).value;
    DownBounds(s, v);
    if 0 <= v {
      if destination <= out { UpMonotone(s, destination, out); }
      UpAdds(s, destination - out, out);
    } else {
      UpMonotone(s, destination, destination - out);
    }
  }

  lemma OutAmountBelowReserve(amp: nat, sourceScale: Scale, destinationScale: Scale,
                              amount: nat, source: nat, destination: nat)
    requires 1 <= amp
    requires OutAmount(amp, sourceScale, destinationScale, amount, source, destination).Returns?
    ensures var out := OutAmount(amp, sourceScale, destinationScale, amount, source, destination).value;
            out < destination || out <= 0
  {
    var y := SolvedBalance(amp, sourceScale.Up(source), destinationScale.Up(destination), sourceScale.Up(amount)).value;
    DestinationAfter(destinationScale, destination, y);
  }

  /** `computeY` converges within its cap for this input. */
  predicate InputConverges(amp: nat, from: nat, to: nat, input: nat)
    requires 1 <= amp && 0 < from && 0 < to
  {
    RunY(2 * amp, from + input, ComputeD(amp, from, to).value, MAX_ITERS).Converged()
  }

  /** At every amplification a pool may have, no input is cut off unless the sum of the upscaled reserves is over
      10 amp times the source. */
  lemma PoolInputsConverge(amp: nat, from: nat, to: nat, input: nat)
    requires 1 <= amp <= SolverYCap.MAX_AMP && 0 < from <= SCALED_MAX && 0 < to <= SCALED_MAX && input <= SCALED_MAX
    requires from + to <= 10 * amp * from
    ensures InputConverges(amp, from, to, input)
  {
    ComputeDSound(amp, from, to);
    TenfoldGrows(amp, from, input, from + to);
    SolverYCap.TwentyIterationsForPools(amp, from + input, ComputeD(amp, from, to).value);
  }

  lemma TenfoldGrows(amp: int, from: int, input: int, sum: int)
    requires 0 <= amp && 0 <= input && sum <= 10 * amp * from
    ensures sum <= 10 * amp * (from + input)
  {
    MulNonNegative(10 * amp, input);
    assert 10 * amp * (from + input) == 10 * amp * from + 10 * amp * input;
  }

  /** Far beyond that every input is cut off, and above its root: where some e at most the exact invariant is 2^46 amp
      times what the source becomes, or more. */
  lemma LopsidedIsCutOff(amp: nat, from: nat, to: nat, input: nat, e: int)
    requires 1 <= amp && 0 < from && 0 < to && Excess(2 * amp, from, to, e) <= 0
    requires SolverYCap.LOPSIDED * ((from + input) * (2 * amp)) <= e
    ensures !InputConverges(amp, from, to, input)
  {
    ComputeDSound(amp, from, to);
    SolverYCap.LopsidedIsCutOff(2 * amp, from + input, ComputeD(amp, from, to).value);
  }

  /** As a zero input is at amp 1 and upscaled reserves 1 and 2^68. */
  lemma LopsidedPool()
    ensures !InputConverges(1, 1, 0x10_0000_0000_0000_0000, 0)
  {
    LopsidedIsCutOff(1, 1, 0x10_0000_0000_0000_0000, 0, 0x4000_0000_0000);
  }

  lemma SolvedBalanceMonotone(amp: nat, from: nat, to: nat, smaller: nat, larger: nat)
    requires 1 <= amp && 0 < from && 0 < to && smaller <= larger
    ensures SolvedBalance(amp, from, to, smaller).Returns? && SolvedBalance(amp, from, to, larger).Returns?
    ensures SolvedBalance(amp, from, to, larger).value <= SolvedBalance(amp, from, to, smaller).value
  {
    SolvedBalanceReturns(amp, from, to, smaller);
    SolvedBalanceReturns(amp, from, to, larger);
    ComputeYMonotone(amp, from + smaller, from + larger, ComputeD(amp, from, to).value);
  }

  /** For a fixed pool, the larger input never gets the smaller output, whether or not the solvers converge. */
  lemma OutAmountMonotone(amp: nat, sourceScale: Scale, destinationScale: Scale,
                          smaller: nat, larger: nat, source: nat, destination: nat)
    requires 1 <= amp && smaller <= larger
    requires 0 < sourceScale.Up(source) && 0 < destinationScale.Up(destination)
    ensures OutAmount(amp, sourceScale, destinationScale, smaller, source, destination).Returns?
    ensures OutAmount(amp, sourceScale, destinationScale, larger, source, destination).Returns?
    ensures OutAmount(amp, sourceScale, destinationScale, smaller, source, destination).value
         <= OutAmount(amp, sourceScale, destinationScale, larger, source, destination).value
  {
    var from, to := sourceScale.Up(source), destinationScale.Up(destination);
    var small, large := sourceScale.Up(smaller), sourceScale.Up(larger);
    UpMonotone(sourceScale, smaller, larger);
    UpIsFactor(destinationScale, destination);
    assert 0 < destinationScale.Factor();
    SolvedBalanceMonotone(amp, from, to, small, large);
    DownMonotone(destinationScale, to - SolvedBalance(amp, from, to, small).value - 1,
                                   to - SolvedBalance(amp, from, to, large).value - 1);
  }

  // ---------- what a swap keeps ----------

  /** The heart of the swap: with D from `computeD` and y from `computeY`, an integer at most the exact
      invariant before the swap is at most the exact invariant after it. */
  lemma SolversKeepInvariant(amp: nat, from: nat, to: nat, input: nat, to': nat, e: int)
    requires 1 <= amp && SolvedBalance(amp, from, to, input).Returns?
    requires SolvedBalance(amp, from, to, input).value + 1 <= to' || to <= to'
    requires Excess(2 * amp, from, to, e) <= 0
    ensures Excess(2 * amp, from + input, to', e) <= 0
  {
    var ann, from' := 2 * amp, from + input;
    if to <= to' {
      ExcessShrinksWithBalances(ann, from, to, from', to', e);
    } else {
      // An empty side would have made `computeD` throw, or solve for at least the whole reserve.
      assert 0 < from && 0 < to;
      var d := ComputeD(amp, from, to).value;
      var y := ComputeY(amp, from', d).value;
      ComputeDSound(amp, from, to);
      assert e <= d;
      RunYSafe(ann, from', d, MAX_ITERS);
      ExcessMonotone(ann, from', y + 1, e, d);
      ExcessShrinksWithBalances(ann, from', y + 1, from', to', e);
    }
  }

  /** The swap pays the trader all but two upscaled units of what the solved D allows: leaving the pool one
      unit above the solved balance keeps D below the exact invariant, and where `computeY` converges, leaving it one
      unit under that balance would put D + 1 above the exact invariant. */
  lemma SolvedBalanceBrackets(amp: nat, from: nat, to: nat, input: nat)
    requires 1 <= amp && 0 < from && 0 < to
    ensures SolvedBalance(amp, from, to, input).Returns? && ComputeD(amp, from, to).Returns?
    ensures var d, y := ComputeD(amp, from, to).value, SolvedBalance(amp, from, to, input).value;
            && Excess(2 * amp, from + input, y + 1, d) < 0
            && (InputConverges(amp, from, to, input) && 2 <= y ==> 0 < Excess(2 * amp, from + input, y - 1, d + 1))
  {
    var d := ComputeD(amp, from, to).value;
    ComputeDSound(amp, from, to);
    SolvedBalanceReturns(amp, from, to, input);
    RunYSafe(2 * amp, from + input, d, MAX_ITERS);
    if InputConverges(amp, from, to, input) && 2 <= SolvedBalance(amp, from, to, input).value {
      RunYTight(2 * amp, from + input, d, MAX_ITERS);
    }
  }

  lemma ExcessSymmetric(ann: int, a: int, b: int, d: int)
    ensures Excess(ann, a, b, d) == Excess(ann, b, a, d)
  {}

  // ---------- runs of swaps ----------

  datatype Curve = Curve(amp: nat, scaleA: Scale, scaleB: Scale)

  /** Every integer at most the exact invariant of the old reserves is at most that of the new. */
  ghost predicate KeepsInvariant(curve: Curve, before: Reserves, after: Reserves) {
    forall e: int :: InvariantAtLeast(curve, before, e) ==> InvariantAtLeast(curve, after, e)
  }

  /** The integer e is at most the exact invariant of the upscaled reserves. */
  predicate InvariantAtLeast(curve: Curve, r: Reserves, e: int) {
    Excess(2 * curve.amp, curve.scaleA.Up(r.a), curve.scaleB.Up(r.b), e) <= 0
  }

  /** The reserves after a trade; a quote that throws trades nothing. */
  function Apply(curve: Curve, r: Reserves, t: Trade): Reserves
    requires 1 <= curve.amp
  {
    match t.direction
    case AToB =>
      (match OutAmount(curve.amp, curve.scaleA, curve.scaleB, t.amount, r.a, r.b)
       case Throws(_) => r
       case Returns(out) =>
         OutAmountBelowReserve(curve.amp, curve.scaleA, curve.scaleB, t.amount, r.a, r.b);
         Reserves(r.a + t.amount, r.b - out))
    case BToA =>
      (match OutAmount(curve.amp, curve.scaleB, curve.scaleA, t.amount, r.b, r.a)
       case Throws(_) => r
       case Returns(out) =>
         OutAmountBelowReserve(curve.amp, curve.scaleB, curve.scaleA, t.amount, r.b, r.a);
         Reserves(r.a - out, r.b + t.amount))
  }

  function Run(curve: Curve, r: Reserves, trades: seq<Trade>): Reserves
    requires 1 <= curve.amp
    decreases |trades|
  {
    if trades == [] then r else Run(curve, Apply(curve, r, trades[0]), trades[1..])
  }

  lemma SwapKeepsExcess(amp: nat, sourceScale: Scale, destinationScale: Scale,
                        amount: nat, source: nat, destination: nat, e: int)
    requires 1 <= amp
    requires OutAmount(amp, sourceScale, destinationScale, amount, source, destination).Returns?
    requires Excess(2 * amp, sourceScale.Up(source), destinationScale.Up(destination), e) <= 0
    ensures var out := OutAmount(amp, sourceScale, destinationScale, amount, source, destination).value;
            && 0 <= destination - out
            && Excess(2 * amp, sourceScale.Up(source + amount), destinationScale.Up(destination - out), e) <= 0
  {
    var from, to, input := sourceScale.Up(source), destinationScale.Up(destination), sourceScale.Up(amount);
    var y := SolvedBalance(amp, from, to, input).value;
    var out := destinationScale.Down(to as int - y - 1).value;
    DestinationAfter(destinationScale, destination, y);
    UpAdds(sourceScale, source, amount);
    SolversKeepInvariant(amp, from, to, input, destinationScale.Up(destination - out), e);
  }

  /** A trade adds the input to its source, takes what is quoted from its destination, and moves nothing else. */
  lemma ApplyIsExact(curve: Curve, r: Reserves, t: Trade)
    requires 1 <= curve.amp
    ensures var (s, d) := if t.direction == AToB then (curve.scaleA, curve.scaleB) else (curve.scaleB, curve.scaleA);
            var (source, destination) := if t.direction == AToB then (r.a, r.b) else (r.b, r.a);
            var r' := Apply(curve, r, t);
            var (source', destination') := if t.direction == AToB then (r'.a, r'.b) else (r'.b, r'.a);
            match OutAmount(curve.amp, s, d, t.amount, source, destination)
            case Throws(_) => r' == r
            case Returns(out) => source' == source + t.amount && destination' == destination - out
  {}

  /** One swap, in either direction and with any rounding, cut off or not, keeps the invariant. */
  lemma ApplyKeepsInvariant(curve: Curve, r: Reserves, t: Trade, e: int)
    requires 1 <= curve.amp && InvariantAtLeast(curve, r, e)
    ensures InvariantAtLeast(curve, Apply(curve, r, t), e)
  {
    var ann, up, vp := 2 * curve.amp, curve.scaleA.Up(r.a), curve.scaleB.Up(r.b);
    match t.direction
    case AToB =>
      if OutAmount(curve.amp, curve.scaleA, curve.scaleB, t.amount, r.a, r.b).Returns? {
        SwapKeepsExcess(curve.amp, curve.scaleA, curve.scaleB, t.amount, r.a, r.b, e);
      }
    case BToA =>
      if OutAmount(curve.amp, curve.scaleB, curve.scaleA, t.amount, r.b, r.a).Returns? {
        ExcessSymmetric(ann, up, vp, e);
        SwapKeepsExcess(curve.amp, curve.scaleB, curve.scaleA, t.amount, r.b, r.a, e);
        var after := Apply(curve, r, t);
        ExcessSymmetric(ann, curve.scaleA.Up(after.a), curve.scaleB.Up(after.b), e);
      }
  }

  /** Over any run of swaps in either direction, every integer at most the exact invariant stays
      at most it. */
  lemma {:induction false} RunKeepsInvariant(curve: Curve, r: Reserves, trades: seq<Trade>)
    requires 1 <= curve.amp
    ensures KeepsInvariant(curve, r, Run(curve, r, trades))
    decreases |trades|
  {
    if trades != [] {
      var next := Apply(curve, r, trades[0]);
      RunKeepsInvariant(curve, next, trades[1..]);
      forall e: int | InvariantAtLeast(curve, r, e)
        ensures InvariantAtLeast(curve, Run(curve, r, trades), e)
      {
        ApplyKeepsInvariant(curve, r, trades[0], e);
      }
    }
  }

  /** The whole-number part of the exact invariant. */
  ghost predicate IsWholeInvariant(curve: Curve, r: Reserves, d: int) {
    InvariantAtLeast(curve, r, d) && !InvariantAtLeast(curve, r, d + 1)
  }

  /** The whole-number part of the exact invariant never falls over a run. */
  lemma WholeInvariantNeverFalls(curve: Curve, r: Reserves, trades: seq<Trade>, before: int, after: int)
    requires 1 <= curve.amp
    requires IsWholeInvariant(curve, r, before) && IsWholeInvariant(curve, Run(curve, r, trades), after)
    ensures before <= after
  {
    var end := Run(curve, r, trades);
    RunKeepsInvariant(curve, r, trades);
    if after < before {
      ExcessMonotone(2 * curve.amp, curve.scaleA.Up(end.a), curve.scaleB.Up(end.b), after + 1, before);
    }
  }

  // ---------- what the trader can get for an input, or for nothing ----------

  /** The residual of `computeY` for this trade, at what the destination would upscale to with k taken from it. */
  function ResidualWithout(amp: nat, sourceScale: Scale, destinationScale: Scale,
                           amount: nat, source: nat, destination: nat, k: nat): int
    requires 1 <= amp && 0 < sourceScale.Up(source) && 0 < destinationScale.Up(destination) && k <= destination
  {
    var from, to := sourceScale.Up(source), destinationScale.Up(destination);
    ComputeDSound(amp, from, to);
    var x, d := from + sourceScale.Up(amount), ComputeD(amp, from, to).value;
    Residual(CoefficientB(2 * amp, x, d), CoefficientC(2 * amp, x, d), destinationScale.Up(destination - k))
  }

  lemma SolvedAgainst(amp: nat, from: nat, to: nat, input: nat, left: int)
    requires 1 <= amp && 0 < from && 0 < to
    ensures SolvedBalance(amp, from, to, input).Returns? && ComputeD(amp, from, to).Returns?
    ensures var d, y := ComputeD(amp, from, to).value, SolvedBalance(amp, from, to, input).value;
            var h := Residual(CoefficientB(2 * amp, from + input, d), CoefficientC(2 * amp, from + input, d), left);
            && (h <= 0 ==> left <= y)
            && (0 <= left && InputConverges(amp, from, to, input) && 2 <= h ==> y < left)
  {
    var ann, x, d := 2 * amp, from + input, ComputeD(amp, from, to).value;
    var b, c := CoefficientB(ann, x, d), CoefficientC(ann, x, d);
    ComputeDSound(amp, from, to);
    SolvedBalanceReturns(amp, from, to, input);
    FirstDivisor(ann, x, d);
    NewtonYBrackets(b, c, d, 0, MAX_ITERS);
    var y := SolvedBalance(amp, from, to, input).value;
    if Residual(b, c, left) <= 0 { AtMostBracket(b, c, y, left); }
    if 0 <= left <= y && 2 <= Residual(b, c, left) { ResidualIncreasing(b, c, left, y); }
  }

  /** What decides whether a trade gets k: never where the residual without k is at most zero, always where it is at
      least two and `computeY` converges. */
  lemma OutputDecided(amp: nat, sourceScale: Scale, destinationScale: Scale,
                      amount: nat, source: nat, destination: nat, k: nat)
    requires 1 <= amp && 0 < sourceScale.Up(source) && 0 < destinationScale.Up(destination) && 1 <= k <= destination
    ensures OutAmount(amp, sourceScale, destinationScale, amount, source, destination).Returns?
    ensures var out := OutAmount(amp, sourceScale, destinationScale, amount, source, destination).value;
            var h := ResidualWithout(amp, sourceScale, destinationScale, amount, source, destination, k);
            && (h <= 0 ==> out < k)
            && (2 <= h && InputConverges(amp, sourceScale.Up(source), destinationScale.Up(destination),
                                         sourceScale.Up(amount)) ==>
                  k <= out)
  {
    var from, to, input := sourceScale.Up(source), destinationScale.Up(destination), sourceScale.Up(amount);
    var left := destinationScale.Up(destination - k);
    FactorPositive(sourceScale, source);
    FactorPositive(destinationScale, destination);
    OutAmountReturns(amp, sourceScale, destinationScale, amount, source, destination);
    SolvedAgainst(amp, from, to, input, left);
    OutputAgainst(destinationScale, destination, SolvedBalance(amp, from, to, input).value, k);
  }

  /** An output is at least k exactly when the solved balance is below the upscaled reserve without k. */
  lemma OutputAgainst(s: Scale, destination: nat, y: nat, k: nat)
    requires 0 < s.Factor() && 1 <= k <= destination
    ensures s.Down(s.Up(destination) - y - 1).Returns?
    ensures k <= s.Down(s.Up(destination) - y - 1).value <==> y < s.Up(destination - k)
  {
    UpAdds(s, destination - k, k);
    if y < s.Up(destination - k) {
      DownUndoesUp(s, k);
      DownMonotone(s, s.Up(k), s.Up(destination) - y - 1);
    } else {
      DownBelow(s, s.Up(destination) - y - 1, k);
    }
  }

  lemma FactorPositive(s: Scale, amount: nat)
    requires 0 < s.Up(amount)
    ensures 0 < amount && 0 < s.Factor()
  {
    UpIsFactor(s, amount);
  }

  lemma DownBelow(s: Scale, v: int, k: nat)
    requires 1 <= k && 0 < s.Factor() && v < s.Up(k)
    ensures s.Down(v).Returns? && s.Down(v).value < k
  {
    DownBounds(s, v);
    if 0 <= v && k <= s.Down(v).value { UpMonotone(s, k, s.Down(v).value); }
  }

  /** In terms of the exact invariant, the output is below k when taking k would put the D that was solved for
      above it. */
  lemma OutputBelow(amp: nat, sourceScale: Scale, destinationScale: Scale,
                    amount: nat, source: nat, destination: nat, k: nat)
    requires 1 <= amp && 0 < sourceScale.Up(source) && 0 < destinationScale.Up(destination) && 1 <= k <= destination
    requires ComputeD(amp, sourceScale.Up(source), destinationScale.Up(destination)).Returns?
    requires 0 < Excess(2 * amp, sourceScale.Up(source + amount), destinationScale.Up(destination - k),
                        ComputeD(amp, sourceScale.Up(source), destinationScale.Up(destination)).value)
    ensures OutAmount(amp, sourceScale, destinationScale, amount, source, destination).Returns?
    ensures OutAmount(amp, sourceScale, destinationScale, amount, source, destination).value < k
  {
    var d := ComputeD(amp, sourceScale.Up(source), destinationScale.Up(destination)).value;
    var left := destinationScale.Up(destination - k);
    OutputDecided(amp, sourceScale, destinationScale, amount, source, destination, k);
    UpAdds(sourceScale, source, amount);
    if 0 < ResidualWithout(amp, sourceScale, destinationScale, amount, source, destination, k) && 0 < left {
      ResidualKeepsInvariant(2 * amp, sourceScale.Up(source + amount), d, left);
    }
  }

  /** It is at least k when, with k and two upscaled units more taken, D + 1 would still be at most the exact
      invariant. */
  lemma OutputAtLeast(amp: nat, sourceScale: Scale, destinationScale: Scale,
                      amount: nat, source: nat, destination: nat, k: nat)
    requires 1 <= amp && 0 < sourceScale.Up(source) && 0 < destinationScale.Up(destination) && k <= destination
    requires InputConverges(amp, sourceScale.Up(source), destinationScale.Up(destination), sourceScale.Up(amount))
    requires ComputeD(amp, sourceScale.Up(source), destinationScale.Up(destination)).Returns?
    requires 2 <= destinationScale.Up(destination - k)
    requires Excess(2 * amp, sourceScale.Up(source + amount), destinationScale.Up(destination - k) - 2,
                    ComputeD(amp, sourceScale.Up(source), destinationScale.Up(destination)).value + 1) <= 0
    ensures OutAmount(amp, sourceScale, destinationScale, amount, source, destination).Returns?
    ensures k <= OutAmount(amp, sourceScale, destinationScale, amount, source, destination).value
  {
    var from, to, input := sourceScale.Up(source), destinationScale.Up(destination), sourceScale.Up(amount);
    var left := destinationScale.Up(destination - k);
    FactorPositive(sourceScale, source);
    FactorPositive(destinationScale, destination);
    UpAdds(sourceScale, source, amount);
    OutAmountReturns(amp, sourceScale, destinationScale, amount, source, destination);
    SolvedBalanceBrackets(amp, from, to, input);
    var d, y := ComputeD(amp, from, to).value, SolvedBalance(amp, from, to, input).value;
    if left < y + 1 && 2 <= y {
      ExcessShrinksWithBalances(2 * amp, from + input, left - 2, from + input, y - 1, d + 1);
    }
    UpAdds(destinationScale, destination - k, k);
    DownUndoesUp(destinationScale, k);
    DownMonotone(destinationScale, destinationScale.Up(k), to as int - y - 1);
  }

  /** A zero input can be paid: at amp 1 and reserves 1 and 13 `computeD` gives 9 and `computeY` gives 11, so
      one unit leaves the pool. */
  lemma ZeroInputCanPay()
    ensures var curve := Curve(1, Scale(1, false, 0), Scale(1, false, 0));
            Apply(curve, Reserves(1, 13), Trade(0, AToB)) == Reserves(1, 12)
  {
    SmallPoolD();
    SmallPoolY();
  }

  lemma SmallPoolD()
    ensures ComputeD(1, 1, 13) == Returns(9)
  {
    assert DProduct(1, 13, 14) == 52;
    assert DProduct(1, 13, 10) == 19;
    assert StepD(2, 1, 13, 14) == 10 && StepD(2, 1, 13, 10) == 9;
    NewtonDUnfolds(2, 1, 13, 14, 0, 20);
    NewtonDUnfolds(2, 1, 13, 10, 14, 19);
  }

  lemma SmallPoolY()
    ensures ComputeY(1, 1, 9) == Returns(11)
  {
    assert CoefficientB(2, 1, 9) == -4 && CoefficientC(2, 1, 9) == 91;
    assert StepY(-4, 91, 9) == 12 && StepY(-4, 91, 12) == 11;
    NewtonYUnfolds(-4, 91, 9, 0, 20);
    NewtonYUnfolds(-4, 91, 12, 9, 19);
  }

  /** What decides whether a zero input is paid. */
  lemma ZeroInputPaysNothing(amp: nat, sourceScale: Scale, destinationScale: Scale, source: nat, destination: nat)
    requires 1 <= amp && 0 < sourceScale.Up(source) && 0 < destinationScale.Up(destination) && 0 < destination
    ensures OutAmount(amp, sourceScale, destinationScale, 0, source, destination).Returns?
    ensures var out := OutAmount(amp, sourceScale, destinationScale, 0, source, destination).value;
            var h := ResidualWithout(amp, sourceScale, destinationScale, 0, source, destination, 1);
            && (h <= 0 ==> out <= 0)
            && (2 <= h && InputConverges(amp, sourceScale.Up(source), destinationScale.Up(destination), 0) ==> 0 < out)
  {
    UpIsFactor(sourceScale, 0);
    OutputDecided(amp, sourceScale, destinationScale, 0, source, destination, 1);
  }

  /** A pool's residual without one unit of the destination, and what a zero input is paid, on unit scales. */
  ghost predicate ZeroInput(a: nat, b: nat, residual: int, out: int) {
    var unit := Scale(1, false, 0);
    && 0 < a && 0 < b && unit.Up(a) == a && unit.Up(b) == b
    && ResidualWithout(1, unit, unit, 0, a, b, 1) == residual && InputConverges(1, a, b, 0)
    && OutAmount(1, unit, unit, 0, a, b) == Returns(out)
  }

  lemma ZeroInputIs(a: nat, b: nat, d: nat, y: nat)
    requires 0 < a && 0 < b && ComputeD(1, a, b) == Returns(d) && ComputeY(1, a, d) == Returns(y)
    requires RunY(2, a, d, MAX_ITERS).Converged()
    ensures ZeroInput(a, b, Residual(CoefficientB(2, a, d), CoefficientC(2, a, d), b - 1), b - y - 1)
  {
    var unit := Scale(1, false, 0);
    assert unit.Up(a) == a && unit.Up(b) == b && unit.Up(b - 1) == b - 1 && unit.Up(0) == 0;
    SolvedBalanceReturns(1, a, b, 0);
    assert unit.Down(b - y - 1) == Returns(b - y - 1);
  }

  /** Only a residual of one leaves it open, and both outcomes occur there: at amp 1 reserves 8 and 28 pay for a zero
      input, reserves 1 and 127 do not. */
  lemma ResidualOneCanPay()
    ensures ZeroInput(8, 28, 1, 1)
  {
    PayingPoolD();
    PayingPoolY();
    ZeroInputIs(8, 28, 32, 26);
  }

  lemma ResidualOneCanKeep()
    ensures ZeroInput(1, 127, 1, 0)
  {
    KeepingPoolD();
    KeepingPoolY();
    ZeroInputIs(1, 127, 47, 126);
  }

  lemma PayingPoolD()
    ensures ComputeD(1, 8, 28) == Returns(32)
  {
    assert DProduct(8, 28, 36) == 52 && StepD(2, 8, 28, 36) == 33;
    assert DProduct(8, 28, 33) == 40 && StepD(2, 8, 28, 33) == 32;
    NewtonDUnfolds(2, 8, 28, 36, 0, 20);
    NewtonDUnfolds(2, 8, 28, 33, 36, 19);
  }

  lemma PayingPoolY()
    ensures CoefficientB(2, 8, 32) == -8 && CoefficientC(2, 8, 32) == 512
    ensures ComputeY(1, 8, 32) == Returns(26) && RunY(2, 8, 32, MAX_ITERS).Converged()
  {
    assert StepY(-8, 512, 32) == 27;
    assert StepY(-8, 512, 27) == 26;
    NewtonYUnfolds(-8, 512, 32, 0, 20);
    NewtonYUnfolds(-8, 512, 27, 32, 19);
  }

  lemma KeepingPoolD()
    ensures ComputeD(1, 1, 127) == Returns(47)
  {
    assert DProduct(1, 127, 128) == 4128 && StepD(2, 1, 127, 128) == 87;
    assert DProduct(1, 127, 87) == 1296 && StepD(2, 1, 127, 87) == 62;
    assert DProduct(1, 127, 62) == 469 && StepD(2, 1, 127, 62) == 50;
    assert DProduct(1, 127, 50) == 246 && StepD(2, 1, 127, 50) == 47;
    assert DProduct(1, 127, 47) == 204 && StepD(2, 1, 127, 47) == 47;
    NewtonDUnfolds(2, 1, 127, 128, 0, 20);
    NewtonDUnfolds(2, 1, 127, 87, 128, 19);
    NewtonDUnfolds(2, 1, 127, 62, 87, 18);
    NewtonDUnfolds(2, 1, 127, 50, 62, 17);
    NewtonDUnfolds(2, 1, 127, 47, 50, 16);
  }

  lemma KeepingPoolY()
    ensures CoefficientB(2, 1, 47) == -23 && CoefficientC(2, 1, 47) == 12977
    ensures ComputeY(1, 1, 47) == Returns(126) && RunY(2, 1, 47, MAX_ITERS).Converged()
  {
    assert StepY(-23, 12977, 47) == 213;
    assert StepY(-23, 12977, 213) == 144;
    assert StepY(-23, 12977, 144) == 127;
    assert StepY(-23, 12977, 127) == 126;
    NewtonYUnfolds(-23, 12977, 47, 0, 20);
    NewtonYUnfolds(-23, 12977, 213, 47, 19);
    NewtonYUnfolds(-23, 12977, 144, 213, 18);
    NewtonYUnfolds(-23, 12977, 127, 144, 17);
  }

  /** What a run can take for nothing: if it does not leave more of one token, it leaves so much of the other
      that the whole invariant would not have fallen without the trades. */
  lemma RunTakesLess(curve: Curve, r: Reserves, trades: seq<Trade>, e: int)
    requires 1 <= curve.amp && InvariantAtLeast(curve, r, e)
    ensures var end := Run(curve, r, trades);
            && (end.a <= r.a ==> InvariantAtLeast(curve, Reserves(r.a, end.b), e))
            && (end.b <= r.b ==> InvariantAtLeast(curve, Reserves(end.a, r.b), e))
  {
    var end := Run(curve, r, trades);
    RunKeepsInvariant(curve, r, trades);
    if end.a <= r.a { LargerReserves(curve, end, Reserves(r.a, end.b), e); }
    if end.b <= r.b { LargerReserves(curve, end, Reserves(end.a, r.b), e); }
  }

  lemma LargerReserves(curve: Curve, r: Reserves, s: Reserves, e: int)
    requires 1 <= curve.amp && r.a <= s.a && r.b <= s.b && InvariantAtLeast(curve, r, e)
    ensures InvariantAtLeast(curve, s, e)
  {
    UpMonotone(curve.scaleA, r.a, s.a);
    UpMonotone(curve.scaleB, r.b, s.b);
    ExcessShrinksWithBalances(2 * curve.amp, curve.scaleA.Up(r.a), curve.scaleB.Up(r.b),
                              curve.scaleA.Up(s.a), curve.scaleB.Up(s.b), e);
  }

  /** So a run that leaves neither reserve larger takes fewer than k of either token, whenever k of it are
      worth a whole unit of the invariant. */
  lemma NoFreeTrade(curve: Curve, r: Reserves, trades: seq<Trade>, e: int, k: nat)
    requires 1 <= curve.amp && InvariantAtLeast(curve, r, e) && k <= r.a && k <= r.b
    requires !InvariantAtLeast(curve, Reserves(r.a - k, r.b), e) && !InvariantAtLeast(curve, Reserves(r.a, r.b - k), e)
    ensures var end := Run(curve, r, trades);
            end.a <= r.a && end.b <= r.b ==> r.a - end.a < k && r.b - end.b < k
  {
    var end := Run(curve, r, trades);
    if end.a <= r.a && end.b <= r.b {
      RunTakesLess(curve, r, trades, e);
      if end.b <= r.b - k { LargerReserves(curve, Reserves(r.a, end.b), Reserves(r.a, r.b - k), e); }
      if end.a <= r.a - k { LargerReserves(curve, Reserves(end.a, r.b), Reserves(r.a - k, r.b), e); }
    }
  }

  // ---------- the curve object ----------

  /** `toNumber` of a BN value, which throws from 2^53 on. */
  function ToNumber(x: nat): Outcome<nat> {
    if x < 0x20_0000_0000_0000 then Returns(x) else Throws(UnsafeNumber)
  }

  /** `updateDepegInfoIfExpired`. A price of None is an account that is missing or does not decode. */
  function RefreshIfExpired(depeg: Depeg, tick: DepegCache.Tick): Outcome<Depeg> {
    if depeg.depegType == NoDepeg then Returns(depeg)
    else
      var now :- ToNumber(tick.clock);
      var expiry :- ToNumber(depeg.baseCacheUpdated + BASE_CACHE_EXPIRES);
      if expiry < now then
        match tick.price
        case None => Throws(NoVirtualPrice)
        case Some(price) => Returns(depeg.(baseVirtualPrice := price, baseCacheUpdated := tick.clock))
      else Returns(depeg)
  }

  /** Both times of a refresh are below 2^53. */
  predicate SafeTimes(depeg: Depeg, tick: DepegCache.Tick) {
    || depeg.depegType == NoDepeg
    || (tick.clock < 9_007_199_254_740_992 && depeg.baseCacheUpdated + 600 < 9_007_199_254_740_992)
  }

  /** The two clients refresh a depeg record to the same one exactly as long as both times are safe numbers. */
  lemma RefreshesAgree(depeg: Depeg, tick: DepegCache.Tick)
    ensures if SafeTimes(depeg, tick) then
              match DepegCache.Refresh(depeg, tick)
              case Some(refreshed) => RefreshIfExpired(depeg, tick) == Returns(refreshed)
              case None => RefreshIfExpired(depeg, tick) == Throws(NoVirtualPrice)
            else RefreshIfExpired(depeg, tick) == Throws(UnsafeNumber)
  {}

  /** The output of a quote on upscaled balances: what the solved balance leaves, less a unit, in whole tokens of `unit`
      upscaled ones. */
  ghost predicate IsQuote(amp: nat, from: int, to: int, input: int, unit: int, out: int) {
    && 1 <= amp && 0 <= from && 0 <= to && 0 <= input && 0 < unit && SolvedBalance(amp, from, to, input).Returns?
    && IsTruncated(out, to - SolvedBalance(amp, from, to, input).value - 1, unit)
  }

  lemma OutAmountIsQuote(amp: nat, sourceScale: Scale, destinationScale: Scale,
                         amount: nat, source: nat, destination: nat)
    requires 1 <= amp
    requires OutAmount(amp, sourceScale, destinationScale, amount, source, destination).Returns?
    ensures IsQuote(amp, sourceScale.Up(source), destinationScale.Up(destination), sourceScale.Up(amount),
                    destinationScale.Up(1),
                    OutAmount(amp, sourceScale, destinationScale, amount, source, destination).value)
  {
    var y := SolvedBalance(amp, sourceScale.Up(source), destinationScale.Up(destination), sourceScale.Up(amount)).value;
    DownBounds(destinationScale, destinationScale.Up(destination) - y - 1);
    DownIsQuotient(destinationScale, destinationScale.Up(destination) - y - 1);
    UpIsFactor(destinationScale, 1);
  }

  /** A quote in tokens, written out on upscaled amounts. */
  ghost predicate IsTokenQuote(amp: nat, multiplier: TokenMultiplier, depeg: Depeg, direction: TradeDirection,
                               amount: nat, source: nat, destination: nat, out: int) {
    match direction
    case AToB =>
      IsQuote(amp, UpscaledA(multiplier, depeg, source), UpscaledB(multiplier, depeg, destination),
              UpscaledA(multiplier, depeg, amount), UpscaledB(multiplier, depeg, 1), out)
    case BToA =>
      IsQuote(amp, UpscaledB(multiplier, depeg, source), UpscaledA(multiplier, depeg, destination),
              UpscaledB(multiplier, depeg, amount), UpscaledA(multiplier, depeg, 1), out)
  }

  lemma QuoteWrittenOut(amp: nat, multiplier: TokenMultiplier, depeg: Depeg, direction: TradeDirection,
                        amount: nat, source: nat, destination: nat)
    requires 1 <= amp
    ensures var scaleA, scaleB := ScaleA(multiplier, depeg), ScaleB(multiplier, depeg);
            var quote := if direction == AToB then OutAmount(amp, scaleA, scaleB, amount, source, destination)
                         else OutAmount(amp, scaleB, scaleA, amount, source, destination);
            quote.Returns? ==> IsTokenQuote(amp, multiplier, depeg, direction, amount, source, destination, quote.value)
  {
    var scaleA, scaleB := ScaleA(multiplier, depeg), ScaleB(multiplier, depeg);
    ScalesWrittenOut(multiplier, depeg, 1);
    ScalesWrittenOut(multiplier, depeg, amount);
    ScalesWrittenOut(multiplier, depeg, source);
    ScalesWrittenOut(multiplier, depeg, destination);
    if direction == AToB {
      if OutAmount(amp, scaleA, scaleB, amount, source, destination).Returns? {
        OutAmountIsQuote(amp, scaleA, scaleB, amount, source, destination);
      }
    } else if OutAmount(amp, scaleB, scaleA, amount, source, destination).Returns? {
      OutAmountIsQuote(amp, scaleB, scaleA, amount, source, destination);
    }
  }

  class StableSwap {
    const amp: nat
    const multiplier: TokenMultiplier
    const now: DepegCache.Tick
    var depeg: Depeg

    constructor (amp: nat, multiplier: TokenMultiplier, depeg: Depeg, now: DepegCache.Tick)
      ensures this.amp == amp && this.multiplier == multiplier && this.depeg == depeg && this.now == now
    {
      this.amp, this.multiplier, this.depeg, this.now := amp, multiplier, depeg, now;
    }

    /** The curve that the current depeg record prices with. */
    ghost function CurrentCurve(): Curve
      reads this
    {
      Curve(amp, ScaleA(multiplier, depeg), ScaleB(multiplier, depeg))
    }

    method UpdateDepegInfoIfExpired() returns (r: Outcome<()>)
      modifies this
      ensures r.Throws? <==> RefreshIfExpired(old(depeg), now).Throws?
      ensures depeg == match RefreshIfExpired(old(depeg), now) case Returns(d) => d case Throws(_) => old(depeg)
      ensures r.Throws? ==> r.error == RefreshIfExpired(old(depeg), now).error
    {
      if depeg.depegType != NoDepeg {
        var time, expiry := ToNumber(now.clock), ToNumber(depeg.baseCacheUpdated + BASE_CACHE_EXPIRES);
        if time.Throws? || expiry.Throws? {
          return Throws(UnsafeNumber);
        }
        var expired := expiry.value < time.value;
        if expired {
          if now.price.None? {
            return Throws(NoVirtualPrice);
          }
          depeg := depeg.(baseVirtualPrice := now.price.value);
          depeg := depeg.(baseCacheUpdated := now.clock);
        }
      }
      return Returns(());
    }

    /** `computeOutAmount`, on the solver loops, with the state that it leaves behind. Executing what it
        quotes keeps every integer that is at most the exact invariant at the refreshed price. */
    method ComputeOutAmount(amount: nat, source: nat, destination: nat, direction: TradeDirection)
      returns (r: Outcome<int>)
      requires 1 <= amp
      modifies this
      ensures depeg == match RefreshIfExpired(old(depeg), now) case Returns(d) => d case Throws(_) => old(depeg)
      ensures RefreshIfExpired(old(depeg), now).Throws? ==> r == Throws(RefreshIfExpired(old(depeg), now).error)
      ensures RefreshIfExpired(old(depeg), now).Returns? ==>
                r == if direction == AToB
                     then OutAmount(amp, CurrentCurve().scaleA, CurrentCurve().scaleB, amount, source, destination)
                     else OutAmount(amp, CurrentCurve().scaleB, CurrentCurve().scaleA, amount, source, destination)
      ensures r.Returns? ==> IsTokenQuote(amp, multiplier, depeg, direction, amount, source, destination, r.value)
      ensures r.Returns? ==> r.value <= 0 || r.value < destination
      ensures r.Returns? && direction == AToB ==>
                r.value <= destination &&
                KeepsInvariant(CurrentCurve(), Reserves(source, destination),
                               Reserves(source + amount, destination - r.value))
      ensures r.Returns? && direction == BToA ==>
                r.value <= destination &&
                KeepsInvariant(CurrentCurve(), Reserves(destination, source),
                               Reserves(destination - r.value, source + amount))
    {
      var refreshed := UpdateDepegInfoIfExpired();
      if refreshed.Throws? {
        return Throws(refreshed.error);
      }
      var scaleA, scaleB := ScaleA(multiplier, depeg), ScaleB(multiplier, depeg);
      var sourceScale, destinationScale := scaleA, scaleB;
      if direction == BToA {
        sourceScale, destinationScale := scaleB, scaleA;
      }
      r := QuoteOnScales(amp, sourceScale, destinationScale, amount, source, destination);
      if r.Returns? {
        QuoteWrittenOut(amp, multiplier, depeg, direction, amount, source, destination);
        OutAmountBelowReserve(amp, sourceScale, destinationScale, amount, source, destination);
        var before := if direction == AToB then Reserves(source, destination) else Reserves(destination, source);
        ghost var after := Apply(CurrentCurve(), before, Trade(amount, direction));
        forall e: int | InvariantAtLeast(CurrentCurve(), before, e)
          ensures InvariantAtLeast(CurrentCurve(), after, e)
        {
          ApplyKeepsInvariant(CurrentCurve(), before, Trade(amount, direction), e);
        }
      }
    }
  }

  /** The pricing part of `computeOutAmount`, with the two solver loops. */
  method QuoteOnScales(amp: nat, sourceScale: Scale, destinationScale: Scale,
                       amount: nat, source: nat, destination: nat) returns (r: Outcome<int>)
    requires 1 <= amp
    ensures r == OutAmount(amp, sourceScale, destinationScale, amount, source, destination)
  {
    var upscaledAmount := sourceScale.Up(amount);
    var from, to := sourceScale.Up(source), destinationScale.Up(destination);
    var d := SolveD(amp, from, to);
    if d.Throws? {
      return Throws(d.error);
    }
    var y := SolveY(amp, from + upscaledAmount, d.value);
    if y.Throws? {
      return Throws(y.error);
    }
    if SlippageDivisor(amp, from, to, d.value) == 0 {
      return Throws(DivisionByZero);
    }
    r := destinationScale.Down(to as int - y.value - 1);
  }
}
