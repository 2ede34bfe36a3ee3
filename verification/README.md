# Dynamic AMM pricing, in Dafny

A model of the integer arithmetic that prices swaps in the dynamic AMM: the StableSwap Newton solvers and the
curve built on them, the constant product curve, the yield vaults that hold the pool's reserves, the fees, and the
quote pipeline that strings them together in Rust and in TypeScript. The theorems say which way every rounding
goes, and what whole runs of swaps keep.

| file | models |
|---|---|
| `Arithmetic.dfy` | floor quotients, truncating BN division, checked u64 and u128, thrown errors |
| `StableInvariant.dfy` | the exact StableSwap invariant as an integer polynomial |
| `SolverD.dfy`, `SolverY.dfy` | `computeD` and `computeY` |
| `SolverDAccuracy.dfy` | how close `computeD` gets to the exact invariant |
| `SolverDCap.dfy`, `SolverYCap.dfy` | when the two loops need their iteration cap, and when twenty iterations are enough |
| `StableCurve.dfy` | token scaling, the stable output quote, runs of stable swaps, the `StableSwap` object |
| `ConstantProductCurve.dfy` | `ceilDiv`, the in and out quotes, runs, the Rust wrapper |
| `DepegCache.dfy` | the ten-minute cache of the base virtual price |
| `Fees.dfy`, `Vaults.dfy`, `PoolSides.dfy` | fees, vault shares and locked profit, deposits and withdrawals |
| `Quote.dfy`, `ComputeQuote.dfy`, `TsQuote.dfy` | the Rust pipeline and its entry point, the TypeScript twin |
| `PoolRuns.dfy` | executing quotes against the two vaults, and runs of that |
| `Allocation.dfy` | splitting locked LP by weights |

## The exact invariant

With `ann` = 2 amp, `Excess(ann, a, b, D)` is D³ + 4ab((ann − 1)D − ann(a + b)). It is increasing in D, and D is
at most the StableSwap invariant of balances a and b exactly when it is at most zero. Nothing below uses reals.

## Main results

- **Stable runs.** Over any sequence of stable swaps in either direction, every integer at most the exact
  invariant stays at most it (`StableCurve.RunKeepsInvariant`, `WholeInvariantNeverFalls`), through scaling, both solvers,
  the 20-iteration cap, truncation toward zero and quotes that come out negative.
- **Accuracy of D.** Whenever the loop of `computeD` converges on D, the exact invariant of source balance a lies in
  [D − 1 − ⌊a/D⌋, D + 1) (`SolverDAccuracy.ComputeDWithin`). So D is its whole part or one more where the source balance is at
  most the exact invariant (`ComputeDAccurate`); beyond that it need not be: at amp 1 and balances 162 and 1 the loop converges
  on 57 and the whole invariant is 55 (`SourceBeyondInvariant`). Converged or cut off, D is never a full unit under the invariant.
- **The quote is also fair.** Larger inputs never get smaller outputs, converged or not (`StableCurve.OutAmountMonotone`, from
  two runs of `computeY` ordered iterate by iterate). Whether an input gets k is decided by the residual of `computeY` at the
  destination without k: at zero or less it does not, at two or more it does where `computeY` converges (`OutputDecided`); one
  leaves it open, with a pool for either outcome (`ResidualOneCanPay`, `ResidualOneCanKeep`).
- **Trades for nothing.** A stable pool can pay for a zero input: at amp 1 and reserves 1 and 13 it pays one
  (`ZeroInputCanPay`). The same residual, with one token less, decides whether it does (`ZeroInputPaysNothing`), and no run takes
  k of a token for nothing where k of either are worth a whole unit of the invariant (`StableCurve.NoFreeTrade`).
- **The cap.** `computeY` always ends without one. `computeD` does in a balanced pool: at any amplification when a + 35 ≤ 9b
  and 4ab ≥ 121 (`SolverDCap.EvenIsBalanced`) or the exact invariant is at least 64 and 3a/4 (`NearIsBalanced`), and otherwise
  when a + 38 ≤ 12b(2 amp − 2) (`AmplifiedIsBalanced`). Out of balance it need not: at amp 1 and balances 33 and 1 its iterates
  are 34, 24, 20, 18, 20, 18, … for ever. Both loops converge quadratically near their roots. Twenty iterations of `computeD` are
  enough wherever the invariant is at least 200 and four fifths of the sum (`SolverDCap.TwentyIterationsSuffice`). Twenty of
  `computeY` are enough for every input at every amplification that a pool may have, up to 10,000, unless the sum of the scaled
  reserves is over 10 amp times the source (`StableCurve.PoolInputsConverge`); where the invariant is 2^46 amp times what the
  source becomes they never are (`StableCurve.LopsidedIsCutOff`).
- **Vault runs.** Executing any sequence of quotes through two healthy vaults, interleaved with waiting and with other users'
  deposits and withdrawals, never lowers the product of a constant product pool's tokens (`PoolRuns.RunKeepsProduct`). Nor does it
  lower the exact invariant of a stable pool's, where no refresh along the run lowers the virtual price
  (`PoolRuns.RunKeepsInvariant`); one that does can (`PoolRuns.LowerPriceLoses`). The stable half runs the TypeScript solvers in
  place of the Rust library curve.
- **The entry point.** It quotes if and only if the pool is open at its slot or time, the mint is one of its two, a needed price can be
  read and the side quote exists (`ComputeQuote.QuotesIff`), and what it quotes keeps the pool's product or invariant when executed,
  each token on its own scale (`ExecutedKeepsProduct`, `ExecutedKeepsInvariant`). A stable quote exists if and only if the scaled
  products fit in 128 bits, the solvers leave something and the reserve covers it (`Quote.StableQuoteIff`). A swap that pays moves
  every account exactly, and one that does not moves none (`PoolRuns.SwapEffect`).
- **Constant product.** The in and out quotes are adjoint with an exact range, splitting never gains over a combined swap (which
  can only fail by being too large), no run takes from a reserve for nothing.
- **Two clients.** Where the Rust client splits a fee, at rates with denominators, the TypeScript client splits it the same way if and
  only if the minimum fee of one token did not apply (`TsQuote.SplitsAgreeIff`). Where it did not, on a healthy constant product pool, every Rust quote is the TypeScript client's too
  (`QuotesAgree`), and the Rust client quotes if and only if its amounts fit in 64 bits and the TypeScript client quotes from a
  deposit whose gain covers the fee (`QuotesTogetherIff`). The TypeScript client does not check that it does: from one that does
  not it can quote a negative output (`GainBelowFee`), but never a positive one (`UncoveredPaysNothing`).

Where a property a caller might expect is false, the code is kept, with an input that shows it and the condition under
which it holds. Besides the above, `computeInAmount` quotes a positive input if and only if the output asked for lies
strictly between zero and the reserve (`InAmountPositiveIff`); asked for more than the reserve it can return a negative number instead of throwing
(`InAmountBeyondReserve`). The TypeScript price refresh of a depeg pool agrees with the
on-chain one exactly as long as both times are below 2^53 (`RefreshesAgree`).

## Reading the model

- An `Outcome` is a TypeScript call, which returns or throws; an `Option` is a Rust call over checked arithmetic. Rust
  integer widths are explicit (`Fit64`, `Fit128`); BN and BigInt are unbounded and divide toward zero (`TruncDiv`).
- Amplification is at least one throughout the stable modules, as pools are created with.
- The clock, the stake price that the depeg accounts would give, and the token mints are parameters.
- A pool side is *healthy* when its vault has unlocked tokens and the pool holds part of the LP supply.

## Model

| member | source | states |
|---|---|---|
| `StableInvariant.ExcessMonotone` | ts-client/src/amm/curve/stable-swap-math/calculator.ts:17-26 | the integers at most the exact invariant are downward closed |
| `StableInvariant.ExcessShrinksWithBalances` | ts-client/src/amm/curve/stable-swap-math/calculator.ts:17-26 | larger balances have at least as large an invariant |
| `SolverD.DProductBounds` | ts-client/src/amm/curve/stable-swap-math/calculator.ts:36-38 | the two successive floors never exceed d³/4ab and lose at most (2a − 1)d + 2a(2b − 1) of d³ |
| `SolverD.StepDLower` | ts-client/src/amm/curve/stable-swap-math/calculator.ts:35-42 | from any positive d, an iteration lands less than a unit below the exact invariant and at two or more, so nothing later divides by zero |
| `SolverD.StepDUpper` | ts-client/src/amm/curve/stable-swap-math/calculator.ts:31-45 | from between twice the geometric mean and the sum, an iteration stays at most the sum, and leaves the range only by the step of one that ends the loop |
| `SolverD.NewtonDSound` | ts-client/src/amm/curve/stable-swap-math/calculator.ts:34-43 | after any number of iterations: less than a unit below the invariant, at most the sum |
| `SolverD.ComputeDSound` | ts-client/src/amm/curve/stable-swap-math/calculator.ts:24-46 | on positive balances `computeD` returns, at least every integer at most the exact invariant, at most the sum, with (D + 1)² above 4ab; converged or cut off |
| `SolverD.IterateD` | ts-client/src/amm/curve/stable-swap-math/calculator.ts:35-42 | the loop body computes one Newton step |
| `SolverD.SolveD` | ts-client/src/amm/curve/stable-swap-math/calculator.ts:24-46 | the loop computes the specified value; it throws exactly on a pool of two or more units with an empty side |
| `SolverDAccuracy.StepDAbove` | ts-client/src/amm/curve/stable-swap-math/calculator.ts:35-42 | how far above the invariant an iteration can land: the tangent error plus what the floors lose |
| `SolverDAccuracy.ConvergedFits` | ts-client/src/amm/curve/stable-swap-math/calculator.ts:34-45 | what the floors lose in the last iteration fits in 1 + ⌊a/D⌋ units of D, whichever way that iteration moved |
| `SolverDAccuracy.ComputeDWithin` | ts-client/src/amm/curve/stable-swap-math/calculator.ts:24-46 | for every pool whose loop converges on D, the exact invariant is at least D − 1 − ⌊a/D⌋ and below D + 1 |
| `SolverDAccuracy.ComputeDAccurate` | ts-client/src/amm/curve/stable-swap-math/calculator.ts:24-46 | when the loop converges and the source balance is at most the exact invariant, D is its whole-number part or one more |
| `SolverDAccuracy.SourceBeyondInvariant` | ts-client/src/amm/curve/stable-swap-math/calculator.ts:24-46 | a pool whose loop converges two above the whole invariant |
| `SolverDCap.StepDNotUp` | ts-client/src/amm/curve/stable-swap-math/calculator.ts:34-43 | where what the floors lose at d is under two units of D, an iteration raises d by at most one |
| `SolverDCap.EvenIsBalanced` | ts-client/src/amm/curve/stable-swap-math/calculator.ts:34-43 | at any amplification, the floors fit at every iterate when a + 35 ≤ 9b and 4ab is at least 121 |
| `SolverDCap.NearIsBalanced` | ts-client/src/amm/curve/stable-swap-math/calculator.ts:34-43 | the same when the exact invariant is at least 64 and at least three quarters of the source balance |
| `SolverDCap.AmplifiedIsBalanced` | ts-client/src/amm/curve/stable-swap-math/calculator.ts:34-43 | the same when a + 38 ≤ 12b(2 amp − 2) |
| `SolverDCap.BalancedConverges` | ts-client/src/amm/curve/stable-swap-math/calculator.ts:34-43 | in a balanced pool the loop terminates without the cap, and half the distance to the invariant is iterations enough for the capped loop to return the same |
| `SolverDCap.BalancedNeedsNoCap` | ts-client/src/amm/curve/stable-swap-math/calculator.ts:24-46 | from its start, half the sum of the balances is iterations enough |
| `SolverDCap.StepDQuadratic` | ts-client/src/amm/curve/stable-swap-math/calculator.ts:35-42 | an iteration takes the distance q to the whole invariant e to at most 5q²/4e and under three units more |
| `SolverDCap.NearConverges` | ts-client/src/amm/curve/stable-swap-math/calculator.ts:34-43 | so the iterations needed grow with the logarithm of the number of digits of the invariant |
| `SolverDCap.TwentyIterationsSuffice` | ts-client/src/amm/curve/stable-swap-math/calculator.ts:15-46 | the cap of twenty is enough when the exact invariant is at least 200 and at least four fifths of the sum, for sums up to 3^(2^14) |
| `SolverDCap.NearPoolIsAccurate` | ts-client/src/amm/curve/stable-swap-math/calculator.ts:24-46 | for such a pool of 64-bit amounts, multipliers and prices, D converges to the whole invariant or at most two more |
| `SolverDCap.CycleNeverConverges` | ts-client/src/amm/curve/stable-swap-math/calculator.ts:34-43 | two iterates that lead to each other keep the loop from converging, whatever the cap |
| `SolverDCap.UncappedLoopNeedNotEnd` | ts-client/src/amm/curve/stable-swap-math/calculator.ts:15-34 | at amp 1 and balances 33 and 1 the loop never converges: the cap is needed |
| `SolverY.StepYBounds` | ts-client/src/amm/curve/stable-swap-math/calculator.ts:66-66 | after an iteration the residual is at most the squared move, and positive one unit up |
| `SolverY.FirstDivisor` | ts-client/src/amm/curve/stable-swap-math/calculator.ts:58-66 | the first divisor is positive even where b is negative |
| `SolverY.StepYReady` | ts-client/src/amm/curve/stable-swap-math/calculator.ts:64-67 | an iteration that is followed by another leaves a positive divisor, whatever the sign of b |
| `SolverY.StepYNotUp` | ts-client/src/amm/curve/stable-swap-math/calculator.ts:64-67 | from the second iteration on, y rises by at most one |
| `SolverY.NewtonYBrackets` | ts-client/src/amm/curve/stable-swap-math/calculator.ts:62-67 | after at least one iteration the residual is positive one unit up; at convergence it is at most one at the result |
| `SolverY.NewtonYConverges` | ts-client/src/amm/curve/stable-swap-math/calculator.ts:62-67 | the loop terminates without the cap, since continuing lowers y by two, and with enough iterations the capped loop returns the same |
| `SolverY.RunYConverges` | ts-client/src/amm/curve/stable-swap-math/calculator.ts:55-70 | from its start, for every input, the loop converges once it has half its first iterate and two iterations, after which more change nothing |
| `SolverY.ResidualKeepsInvariant` | ts-client/src/amm/curve/stable-swap-math/calculator.ts:58-60 | the floors in b and c round in the pool's favour: a positive residual at y puts D below the exact invariant of x and y |
| `SolverY.RunYSafe` | ts-client/src/amm/curve/stable-swap-math/calculator.ts:55-70 | one unit above the result, D is below the exact invariant, cut off or not |
| `SolverY.RunYTight` | ts-client/src/amm/curve/stable-swap-math/calculator.ts:55-70 | one unit below a converged result of two or more, D + 1 is above the exact invariant |
| `SolverY.StepsInOrder` | ts-client/src/amm/curve/stable-swap-math/calculator.ts:64-67 | iterates of two runs that are in order stay in order after an iteration of both |
| `SolverY.RunsInOrder` | ts-client/src/amm/curve/stable-swap-math/calculator.ts:62-67 | so two runs end in order, wherever each of them stops or is cut off |
| `SolverY.RunYMonotone` | ts-client/src/amm/curve/stable-swap-math/calculator.ts:55-70 | at the same D and any cap, a larger x never gives a larger result |
| `SolverY.ComputeYMonotone` | ts-client/src/amm/curve/stable-swap-math/calculator.ts:55-70 | the same for `computeY`, converged or not |
| `SolverY.SolveY` | ts-client/src/amm/curve/stable-swap-math/calculator.ts:55-70 | the loop computes the specified value, throws exactly for x = 0, and leaves D below the invariant one unit up |
| `SolverYCap.StepYQuadratic` | ts-client/src/amm/curve/stable-swap-math/calculator.ts:64-67 | an iteration takes the distance q to the whole root to less than q²/g + 1, where g is the slope there |
| `SolverYCap.StepYHalves` | ts-client/src/amm/curve/stable-swap-math/calculator.ts:64-67 | anywhere at or above the root an iteration halves the distance to two above it |
| `SolverYCap.TwentyIterationsSuffice` | ts-client/src/amm/curve/stable-swap-math/calculator.ts:15-67 | the cap is enough when the first iterate is at most 2^h g/5 above the root and g is below 5^(2^n), for h + n up to 17 |
| `SolverYCap.FirstIterateAgainstSlope` | ts-client/src/amm/curve/stable-swap-math/calculator.ts:55-66 | where D is within 5 ann x, the first iterate is below √(2 ann) times the slope at the root |
| `SolverYCap.TwentyIterationsForBalances` | ts-client/src/amm/curve/stable-swap-math/calculator.ts:15-70 | so the cap is enough there, at any amplification with 50 ann ≤ 4^h and balances with 5D + x + 2 below 5^(2^n), for h + n up to 17 |
| `SolverYCap.LopsidedIsCutOff` | ts-client/src/amm/curve/stable-swap-math/calculator.ts:15-70 | where D is 2^45 ann x or more the cap cuts the loop off above its root |
| `StableCurve.DownBounds` | ts-client/src/amm/curve/stable-swap.ts:68-93 | downscaling throws exactly on a zero factor and rounds toward zero: scaled up again it never exceeds its input |
| `StableCurve.DownUndoesUp` | ts-client/src/amm/curve/stable-swap.ts:59-93 | downscaling an upscaled amount gives it back |
| `StableCurve.DownIsQuotient` | ts-client/src/amm/curve/stable-swap.ts:68-93 | the two truncating divisions are one division by the factor, rounded toward zero once |
| `StableCurve.ScalesWrittenOut` | ts-client/src/amm/curve/stable-swap.ts:59-84 | each token is upscaled by its own multiplier and, in depeg pools only, token A by a million and token B by the virtual price |
| `StableCurve.VirtualPriceParity` | ts-client/src/amm/curve/stable-swap.ts:59-84 | a pool whose reserves are in the proportion of the multipliers, and of the virtual price where there is a depeg, has equal scaled balances, and `computeD` finds exactly their sum |
| `StableCurve.SlippageDivisorIsSlope` | ts-client/src/amm/curve/stable-swap.ts:95-118 | the price-impact divisor is the slope in the destination of the invariant polynomial at 4 amp, where the solvers use 2 amp |
| `StableCurve.SlippageDivisorNonZero` | ts-client/src/amm/curve/stable-swap.ts:101-117 | the price-impact divisor is not zero for any D at most the sum |
| `StableCurve.OutAmountReturns` | ts-client/src/amm/curve/stable-swap.ts:120-167 | with positive reserves and usable scales the quote never throws |
| `StableCurve.OutAmountBelowReserve` | ts-client/src/amm/curve/stable-swap.ts:146-161 | the output is below the destination reserve, or not positive |
| `StableCurve.PoolInputsConverge` | ts-client/src/amm/curve/stable-swap.ts:140-149 | at amp up to 10,000 and scaled balances up to 2^192 `computeY` converges for every input, unless the sum of the reserves is over 10 amp times the source |
| `StableCurve.LopsidedIsCutOff` | ts-client/src/amm/curve/stable-swap.ts:140-149 | every input is cut off where some integer at most the exact invariant is 2^46 amp times the source with the input, or more |
| `StableCurve.LopsidedPool` | ts-client/src/amm/curve/stable-swap.ts:140-149 | such a pool |
| `StableCurve.SolvedBalanceMonotone` | ts-client/src/amm/curve/stable-swap.ts:146-149 | a larger upscaled input never solves for a larger balance |
| `StableCurve.OutAmountMonotone` | ts-client/src/amm/curve/stable-swap.ts:120-161 | through scaling too, the larger input never gets the smaller output, converged or not |
| `StableCurve.SolvedBalanceBrackets` | ts-client/src/amm/curve/stable-swap.ts:140-149 | one unit above the solved balance D is below the exact invariant; when `computeY` converges on two or more, one unit below it D + 1 is above it |
| `StableCurve.SolversKeepInvariant` | ts-client/src/amm/curve/stable-swap.ts:140-149 | on upscaled reserves, integers at most the exact invariant stay so across the two solvers |
| `StableCurve.SwapKeepsExcess` | ts-client/src/amm/curve/stable-swap.ts:120-161 | the same for one swap through upscaling and downscaling, for any input, also when the quote is negative |
| `StableCurve.ApplyIsExact` | ts-client/src/amm/curve/stable-swap.ts:120-161 | a trade adds the input to its source, takes the quote from its destination and moves nothing else |
| `StableCurve.ApplyKeepsInvariant` | ts-client/src/amm/curve/stable-swap.ts:120-161 | the same for a trade in either direction on token reserves |
| `StableCurve.RunKeepsInvariant` | ts-client/src/amm/curve/stable-swap.ts:59-161 | over any run of trades at a fixed price, every integer at most the exact invariant stays at most it |
| `StableCurve.WholeInvariantNeverFalls` | ts-client/src/amm/curve/stable-swap.ts:59-161 | the whole-number part of the exact invariant never falls over a run |
| `StableCurve.OutputDecided` | ts-client/src/amm/curve/stable-swap.ts:120-161 | an output is below k where the residual of `computeY` at the destination without k is at most zero, always; it is at least k where that residual is two or more and `computeY` converges |
| `StableCurve.ResidualOneCanPay` | ts-client/src/amm/curve/stable-swap.ts:120-161 | a pool whose residual is one and that pays for a zero input |
| `StableCurve.ResidualOneCanKeep` | ts-client/src/amm/curve/stable-swap.ts:120-161 | a pool whose residual is one and that does not |
| `StableCurve.ZeroInputCanPay` | ts-client/src/amm/curve/stable-swap.ts:120-161 | a zero input that is paid one token |
| `StableCurve.ZeroInputPaysNothing` | ts-client/src/amm/curve/stable-swap.ts:120-161 | a zero input pays nothing where the residual with one token less is at most zero, and pays where it is two or more and `computeY` converges |
| `StableCurve.RunTakesLess` | ts-client/src/amm/curve/stable-swap.ts:59-161 | a run that leaves no more of one token leaves so much of the other that, with the first untouched, the invariant would not have fallen |
| `StableCurve.NoFreeTrade` | ts-client/src/amm/curve/stable-swap.ts:59-161 | a run that leaves neither reserve larger takes fewer than k of each token, when k of either are worth a whole unit of the invariant |
| `StableCurve.QuoteOnScales` | ts-client/src/amm/curve/stable-swap.ts:127-161 | the quote on the solver loops computes the specified output |
| `StableCurve.RefreshesAgree` | ts-client/src/amm/curve/stable-swap.ts:49-57 | the TypeScript refresh gives the on-chain record or its error exactly when both times are below 2^53, and throws otherwise |
| `StableCurve.StableSwap.UpdateDepegInfoIfExpired` | ts-client/src/amm/curve/stable-swap.ts:49-57 | the price and its time are replaced exactly when expired; an unsafe time or a price that cannot be read throws and changes nothing |
| `StableCurve.StableSwap.ComputeOutAmount` | ts-client/src/amm/curve/stable-swap.ts:120-167 | refreshes the price; the output is what the solved balance leaves of the upscaled reserve, written out in each token's multiplier and price for both directions, less a unit, in whole tokens; it is below the reserve, and executing it keeps the invariant at that price |
| `DepegCache.PoolAccount.UpdateBaseVirtualPrice` | dynamic-amm-quote/src/depeg/mod.rs:31-57 | for every signed 64-bit timestamp: the record becomes the price read at that timestamp exactly when it is more than 600 seconds old; it fails exactly when that price cannot be read or the expiry passes u64, and then leaves the pool unchanged |
| `DepegCache.CacheHoldsARead` | dynamic-amm-quote/src/depeg/mod.rs:31-57 | over any run the cache holds the initial record or what some tick read |
| `DepegCache.PriceIsFresh` | dynamic-amm-quote/src/depeg/mod.rs:31-57 | after every successful update the price in use was read at most 600 seconds before, and not later than now unless the pool started with a later one |
| `DepegCache.ReadsAreFarApart` | dynamic-amm-quote/src/depeg/mod.rs:40-52 | any two reads of a run are more than 600 seconds apart |
| `ConstantProductCurve.CeilDivide` | ts-client/src/amm/curve/constant-product.ts:7-27 | throws exactly on a zero floor; otherwise the ceiling and the least divisor that has it |
| `ConstantProductCurve.CeilDivIsLeast` | ts-client/src/amm/curve/constant-product.ts:7-27 | the same about the specification of `ceilDiv` |
| `ConstantProductCurve.OutAmountClosedForm` | ts-client/src/amm/curve/constant-product.ts:37-48 | when the out quote throws, which error, and its value as a ceiling |
| `ConstantProductCurve.OutAmountKeepsProduct` | ts-client/src/amm/curve/constant-product.ts:37-48 | an output is positive, below the reserve, and keeps the product |
| `ConstantProductCurve.NegativeInput` | ts-client/src/amm/curve/constant-product.ts:37-48 | a negative input is quoted a negative output, or one above the reserve |
| `ConstantProductCurve.PaysFor` | ts-client/src/amm/curve/constant-product.ts:37-48 | an input gets at least `out` exactly when it keeps the product and is within what `ceilDiv` accepts |
| `ConstantProductCurve.Adjoint` | ts-client/src/amm/curve/constant-product.ts:37-77 | the in quote is the least input whose out quote is at least `out`; the inputs that pay for it are exactly an interval |
| `ConstantProductCurve.InAmountPositiveIff` | ts-client/src/amm/curve/constant-product.ts:63-77 | a positive input is quoted if and only if 0 < out < reserve |
| `ConstantProductCurve.InAmountBeyondReserve` | ts-client/src/amm/curve/constant-product.ts:63-77 | asked for 15 of a reserve of 10, the quote is −30 rather than an error |
| `ConstantProductCurve.SplittingNeverGains` | ts-client/src/amm/curve/constant-product.ts:37-48 | any sequence of same-direction swaps yields at most the combined swap, which can only fail by being too large for `ceilDiv` |
| `ConstantProductCurve.ApplyIsExact` | ts-client/src/amm/curve/constant-product.ts:37-48 | a trade adds the input to its source, takes the quote from its destination and moves nothing else |
| `ConstantProductCurve.RunKeepsProduct` | ts-client/src/amm/curve/constant-product.ts:37-48 | the product never falls over any run of trades, and positive reserves stay positive |
| `ConstantProductCurve.EmptySideStays` | ts-client/src/amm/curve/constant-product.ts:37-48 | with an empty side no run trades anything |
| `ConstantProductCurve.NoFreeTrade` | ts-client/src/amm/curve/constant-product.ts:37-48 | a run that leaves neither reserve larger leaves both unchanged |
| `ConstantProductCurve.SwapMatchesQuote` | dynamic-amm-quote/src/math/constant_product.rs:7-30 | the checked Rust swap succeeds exactly when the TypeScript quote returns, with the same output; its new reserves keep the product with the least source that does |
| `Fees.FeeAtMostAmount` | programs/dynamic-amm/src/state.rs:190-207 | at a rate of at most one, the fee with its minimum of one never exceeds the amount |
| `Fees.FeesNest` | programs/dynamic-amm/src/state.rs:217-233 | protocol fee ≤ trade fee ≤ input |
| `Fees.FeesAgreeIff` | ts-client/src/amm/utils.ts:278-286 | the floor fee equals the on-chain fee if and only if the minimum of one did not apply |
| `Vaults.LockedProfitDefined` | programs/dynamic-vault/src/state.rs:97-112 | defined exactly from the last report on, and at most the reported profit |
| `Vaults.LockedProfitIsLinear` | programs/dynamic-vault/src/state.rs:97-112 | all locked at the report, none after full degradation, the floor of the linear remainder between |
| `Vaults.LockedProfitFalls` | programs/dynamic-vault/src/state.rs:97-112 | never grows with time |
| `Vaults.UnlockedGrows` | programs/dynamic-vault/src/state.rs:60-65 | a vault that can be valued stays so, and its unlocked amount does not fall with time |
| `Vaults.SolventIff` | programs/dynamic-vault/src/state.rs:45-65 | valuing a share succeeds exactly with a supply, from the last report on, and with no more locked than held |
| `Vaults.AmountByShareDefined` | programs/dynamic-vault/src/state.rs:45-58 | for at most the supply, valuing never overflows and is the floor of the exact share |
| `Vaults.ShareValueGrows` | programs/dynamic-vault/src/state.rs:45-65 | the value of any share does not fall over time |
| `Vaults.DepositAtMost` | dynamic-amm-quote/src/lib.rs:181-209 | a deposit raises the depositor's value by at most the deposit |
| `Vaults.DepositAtLeast` | dynamic-amm-quote/src/lib.rs:181-209 | a deposit never lowers it, and loses less than T/S + 1 |
| `Vaults.WithdrawBounds` | dynamic-amm-quote/src/lib.rs:229-239 | a withdrawal burns fewer shares than held, pays at most what was asked and is short by less than T/S + 1 |
| `Vaults.WithdrawKeeps` | docs/instruction_account_analysis.md:41-64 | what is left is worth at least the old value less what was asked and at most the old value less what was paid |
| `PoolSides.WaitingKeeps` | programs/dynamic-vault/src/state.rs:45-65 | waiting keeps a side healthy and its tokens from falling |
| `PoolSides.DepositIff` | dynamic-amm-quote/src/lib.rs:179-209 | a deposit fails if and only if the vault's total or its LP supply would pass u64 |
| `PoolSides.DepositBounds` | dynamic-amm-quote/src/lib.rs:179-209 | the pool's tokens rise by between zero and x, so `actual_in_amount` never underflows; the loss is below T/S + 1 |
| `PoolSides.WithdrawalBounds` | dynamic-amm-quote/src/lib.rs:229-244 | never fails below the pool's tokens, the bounds above, and the side after the burn |
| `PoolSides.OthersActIff` | programs/dynamic-vault/src/state.rs:45-80 | another user's deposit fails if and only if a balance would pass u64, a withdrawal if and only if the shares are not all the user's, are the last, or are worth more than the vault's tokens |
| `PoolSides.OthersActIsExact` | programs/dynamic-vault/src/state.rs:45-80 | it mints or pays the floor at the present price and leaves the pool's shares and the profit tracker alone |
| `PoolSides.OthersKeepPrice` | programs/dynamic-vault/src/state.rs:45-80 | a deposit or withdrawal of another vault user does not lower the price of a share |
| `PoolSides.OthersKeepTokens` | programs/dynamic-vault/src/state.rs:45-80 | so it does not lower the pool's tokens |
| `PoolSides.ComputeActualDepositAmount` | ts-client/src/amm/utils.ts:214-231 | throws exactly on a zero divisor; for a part holder the estimate is within [0, deposit] and short by less than T/S + 1 |
| `Quote.StableSwapIff` | dynamic-amm-quote/src/math/stable_swap.rs:59-113 | a stable swap with usable scales and reserves succeeds if and only if the three products of amount, multiplier and price are below 2^128 and the solved balance is below the destination |
| `Quote.StableSwapIsQuote` | dynamic-amm-quote/src/math/stable_swap.rs:59-113 | a checked stable swap gives the curve's output, below the reserve |
| `Quote.CurveSwapBelowReserve` | dynamic-amm-quote/src/lib.rs:215-227 | no curve swaps out the whole reserve |
| `Quote.EnterIff` | dynamic-amm-quote/src/lib.rs:144-213 | the input enters if and only if the fees split, the deposit's balances fit and its gain covers the pool's fee |
| `Quote.StableQuoteIff` | dynamic-amm-quote/src/lib.rs:106-250 | a stable pool with healthy sides quotes if and only if the input enters, the scaled products fit, the solvers leave something, and the reserve is above what is paid |
| `Quote.InputIsConserved` | dynamic-amm-quote/src/lib.rs:160-213 | input = protocol fee + pool fee + curve input + a loss in [0, T/S + 1) |
| `Quote.SplitFeeDefined` | dynamic-amm-quote/src/lib.rs:160-177 | with sound rates the fee split never fails, and both fees fit in the input |
| `Quote.OutputIsBounded` | dynamic-amm-quote/src/lib.rs:217-244 | the output is at most the curve's, short by less than T/S + 1, below the reserve, for fewer shares than the pool holds |
| `Quote.DepositEstimateAgrees` | ts-client/src/amm/utils.ts:214-231 | `computeActualDepositAmount` gives exactly the quote's `actual_in_amount` |
| `TsQuote.SplitsAgreeIff` | ts-client/src/amm/utils.ts:599-607 | the two clients split an input the same way if and only if no minimum fee applied |
| `TsQuote.MinimumSeparates` | ts-client/src/amm/utils.ts:278-286 | a concrete input on which they differ |
| `TsQuote.DepositGainAgrees` | ts-client/src/amm/utils.ts:604-624 | the deposit's gain is the same in both clients |
| `TsQuote.WithdrawAgrees` | ts-client/src/amm/utils.ts:634-646 | the withdrawal pays the same in both clients |
| `TsQuote.QuotesAgree` | ts-client/src/amm/utils.ts:558-664 | every Rust quote where no minimum fee applied is returned by the TypeScript client with the same output and fee; its stricter limit is met |
| `TsQuote.QuotesTogetherIff` | ts-client/src/amm/utils.ts:558-664 | on healthy sides where no minimum fee applied, the Rust client quotes if and only if its amounts fit, the deposit's gain covers the fee and the TypeScript client quotes |
| `TsQuote.UncoveredPaysNothing` | ts-client/src/amm/utils.ts:604-664 | no TypeScript quote from a gain that does not cover the fee is positive |
| `TsQuote.PositiveQuotesAgree` | ts-client/src/amm/utils.ts:558-664 | so every positive TypeScript quote is the Rust client's, where no minimum fee applied and the amounts fit |
| `TsQuote.GainBelowFee` | ts-client/src/amm/utils.ts:604-664 | an input that the TypeScript client quotes −1 for and the Rust client refuses |
| `ComputeQuote.QuotesIff` | dynamic-amm-quote/src/lib.rs:58-130 | the same of the specified quote |
| `ComputeQuote.ExecutedKeepsProduct` | dynamic-amm-quote/src/lib.rs:106-250 | executing a quote of the entry point on the sides of its mint does not lower the product of a constant product pool's tokens |
| `ComputeQuote.ExecutedKeepsInvariant` | dynamic-amm-quote/src/lib.rs:106-250 | nor take an integer at most the exact invariant of a stable pool above it, each token on the scale of its own mint |
| `ComputeQuote.Compute` | dynamic-amm-quote/src/lib.rs:58-250 | quotes if and only if the pool is enabled, its slot or timestamp has reached the activation point, the mint is one of its two, a needed price can be read, and the quote from the side of the mint exists on the refreshed curve; the result is that quote's, below the reserve and the pool's own tokens, with every unit of the input accounted for |
| `ComputeQuote.ComputeSides` | dynamic-amm-quote/src/lib.rs:106-250 | the pipeline on its own copies computes the specified quote |
| `ComputeQuote.EnterSide` | dynamic-amm-quote/src/lib.rs:160-213 | fees, deposit into the copied vault and re-valuation compute the specified curve input |
| `ComputeQuote.QuoteIsSound` | dynamic-amm-quote/src/lib.rs:58-250 | every quote of the entry point has the output and input bounds above, in the direction of its mint |
| `ComputeQuote.QuotePriceIsFresh` | dynamic-amm-quote/src/lib.rs:93-97 | given stake accounts, a depeg pool is never priced with a price more than 600 seconds older than the clock's timestamp |
| `PoolRuns.QuoteSettles` | docs/instruction_account_analysis.md:41-70 | a successful quote can always be executed unless the input reserve would pass u64 |
| `PoolRuns.SettleIsExact` | docs/instruction_account_analysis.md:41-64 | executing moves both vaults' totals, reserves, shares and supplies exactly: the deposit and what is paid, with minted and burned shares that are floors at the price before; nothing else of them changes |
| `PoolRuns.SettleMoves` | docs/instruction_account_analysis.md:41-70 | executing keeps both sides healthy; the input side gains between the curve input and the deposit, the output side loses between what is paid and the curve output |
| `PoolRuns.OutsideKeepsTokens` | dynamic-amm-quote/src/lib.rs:252-266 | time and other vault users leave the pool with no fewer tokens on either side |
| `PoolRuns.StepKeepsProduct` | dynamic-amm-quote/src/lib.rs:106-266 | one action does not lower the product of `compute_pool_tokens` |
| `PoolRuns.RunKeepsProduct` | dynamic-amm-quote/src/lib.rs:106-266 | nor does any run of swaps, waiting and other vault users' actions, through fees, vault shares, curve and burns |
| `PoolRuns.SwapKeepsInvariant` | dynamic-amm-quote/src/lib.rs:106-266 | an executed swap keeps every integer at most the exact invariant at the price it was quoted at, whatever that price |
| `PoolRuns.RefreshKeepsInvariant` | dynamic-amm-quote/src/depeg/mod.rs:31-57 | a refresh to no lower a price keeps them too |
| `PoolRuns.StepKeepsInvariant` | dynamic-amm-quote/src/lib.rs:58-266 | one action on a stable pool, with the price refresh of a swap, keeps every integer at most the exact invariant of its tokens when the price does not fall |
| `PoolRuns.RunKeepsInvariant` | dynamic-amm-quote/src/lib.rs:58-266 | so does any run along which no refresh lowers the virtual price |
| `PoolRuns.LowerPriceLoses` | dynamic-amm-quote/src/depeg/mod.rs:31-57 | reserves and a lower price at which the invariant has fallen |
| `PoolRuns.SwapEffect` | docs/instruction_account_analysis.md:33-70 | a swap that pays moves the price record and every account exactly so; one that does not changes nothing |
| `PoolRuns.PoolAccounts.Swap` | docs/instruction_account_analysis.md:33-70 | pays if and only if the price can be refreshed, the quote succeeds and the input reserve can hold the deposit; then every account moves as above, and otherwise none does |
| `Allocation.LastPart` | ts-client/src/examples/create_pool_and_lock_liquidity.ts:43-58 | the remainder is at least its exact share and above it by less than one unit per earlier part |
| `Allocation.FromAllocationsToAmount` | ts-client/src/examples/create_pool_and_lock_liquidity.ts:37-59 | throws exactly on a zero sum; otherwise distributes exactly the LP amount, earlier parts being floors of their exact shares |

## Left out

- The Rust stable curve's `swap_to2` and the library behind the Rust constant product swap are not part of this
  repository: the TypeScript solvers stand in for the first, and the second is modelled as the TypeScript says it ports it.
- The vault helpers that the TypeScript imports are not part of this repository: they are modelled as the unbounded
  forms of the Rust vault functions.
- Price impact and slippage helpers: decimal arithmetic. Only the divisor that can make a quote throw is modelled.
- Stable `computeInAmount`, `computeImbalanceDeposit`, `computeWithdrawOne`: they subtract an unscaled reserve or need a
  fraction library that is not part of this repository.
- `calculateSwapQuoteForGoingToCreateMemecoinPool` and balanced deposits: they would add only the same share arithmetic again.
- Agreement of the two clients on stable pools: the Rust curve is not visible, so it would compare the model with itself.
- Decoding of stake accounts, address derivation, account fetching, transactions and the command line.
- Profit reports of a vault, and its strategies, between the swaps of a run: the vault program's instructions are not part of this
  repository. Other users' deposits and withdrawals are modelled at the prices that the vault's state functions give.
- SolverDAccuracy.ComputeDAccurate: the condition is sufficient; `ComputeDWithin` covers every other converged pool.
- SolverDCap.BalancedConverges: the balance condition is sufficient, not necessary, for the uncapped loop to end.
- StableCurve.OutputDecided: a residual of one is left open, as both outcomes occur there.
- StableCurve.PoolInputsConverge: between 10 amp and 2^46 amp times the source nothing is stated about convergence.
- Quote.StableSwapIsQuote: the TypeScript solvers stand in for the library's `swap_to2`, which is not part of this repository.
- Quote.CurveSwapBelowReserve: its stable case rests on the TypeScript solvers in the same way.
- Quote.StableSwapIff: the solved balance in it is the TypeScript solvers' in the same way.
- Quote.StableQuoteIff: so is the one in it.
- ComputeQuote.ExecutedKeepsInvariant: its stable curve is the TypeScript solvers in the same way.
- PoolRuns.StepKeepsInvariant: its stable curve is the TypeScript solvers in the same way.
- PoolRuns.RunKeepsInvariant: its stable curve is the TypeScript solvers in the same way.
- Allocation.FromAllocationsToAmount: weights are integers; fractional percentages are not modelled.
