/** The TypeScript quote for constant product pools, `calculateSwapQuote` in ts-client/src/amm/utils.ts, on
    signed unbounded integers, and its agreement with the checked Rust quote. The vault helpers it imports
    are the unbounded forms of the Rust vault functions. */
module TsQuote {
  import opened Arithmetic
  import opened PoolTypes
  import opened Fees
  import opened Vaults
  import opened PoolSides
  import opened Quote
  import CP = ConstantProductCurve

  function LockedProfit(tracker: LockedProfitTracker, now: int): int {
    var ratio := (now - tracker.lastReport) * tracker.lockedProfitDegradation;
    if LOCKED_PROFIT_DEGRADATION_DENOMINATOR < ratio then 0
    else TruncDiv(tracker.lastUpdatedLockedProfit * (LOCKED_PROFIT_DEGRADATION_DENOMINATOR - ratio),
                  LOCKED_PROFIT_DEGRADATION_DENOMINATOR)
  }

  function Withdrawable(vault: Vault, now: int): int {
    vault.totalAmount - LockedProfit(vault.tracker, now)
  }

  function AmountByShare(share: int, withdrawable: int, supply: int): Outcome<int> {
    BnDiv(share * withdrawable, supply)
  }

  function UnmintAmount(amount: int, withdrawable: int, supply: int): Outcome<int> {
    BnDiv(amount * supply, withdrawable)
  }

  /** The pool's fee and what is deposited. */
  datatype TsSplit = TsSplit(fee: int, deposited: int)

  function TsSplitFee(fees: PoolFees, amount: nat): Outcome<TsSplit> {
    var tradeFee :- TsFee(amount, fees.tradeNumerator, fees.tradeDenominator);
    var protocolFee :- TsFee(tradeFee, fees.protocolNumerator, fees.protocolDenominator);
    Returns(TsSplit(tradeFee - protocolFee, amount - protocolFee))
  }

  function TsDepositGain(side: Side, now: int, x: int): Outcome<int> {
    var withdrawable := Withdrawable(side.vault, now);
    var before :- AmountByShare(side.lpAmount, withdrawable, side.lpSupply);
    var minted :- UnmintAmount(x, withdrawable, side.lpSupply);
    var after :- AmountByShare(minted + side.lpAmount, withdrawable + x, side.lpSupply + minted);
    Returns(after - before)
  }

  function TsWithdraw(side: Side, now: int, w: int): Outcome<int> {
    var burned :- UnmintAmount(w, Withdrawable(side.vault, now), side.lpSupply);
    AmountByShare(burned, Withdrawable(side.vault, now), side.lpSupply)
  }

  /** `calculateMaxSwapOutAmount` for the output side. */
  function MaxSwapOut(total: int, reserve: int): int {
    if reserve < total then reserve else total
  }

  datatype TsResult = TsResult(amountOut: int, fee: int)

  /** Fees and deposit: the pool's fee and the curve's input, which may come out negative; nothing checks it. */
  function TsEnter(fees: PoolFees, side: Side, now: int, amount: nat): Outcome<(int, int)> {
    var split :- TsSplitFee(fees, amount);
    var actualIn :- TsDepositGain(side, now, split.deposited);
    Returns((split.fee, actualIn - split.fee))
  }

  /** Curve, withdrawal and the limit on the output. */
  function TsExit(side: Side, now: int, curveIn: int, source: int, destination: int): Outcome<int> {
    var curveOut :- CP.OutAmount(curveIn, source, destination);
    var out :- TsWithdraw(side, now, curveOut);
    if out < MaxSwapOut(destination, side.reserve) then Returns(out) else Throws(OutAboveReserve)
  }

  function TsHolding(side: Side, now: int): Outcome<int> {
    AmountByShare(side.lpAmount, Withdrawable(side.vault, now), side.lpSupply)
  }

  function TsSwapQuote(fees: PoolFees, from: Side, to: Side, now: int, amount: nat): Outcome<TsResult> {
    var source :- TsHolding(from, now);
    var destination :- TsHolding(to, now);
    var (fee, curveIn) :- TsEnter(fees, from, now, amount);
    var out :- TsExit(to, now, curveIn, source, destination);
    Returns(TsResult(out, fee))
  }

  // ---------- agreement with the Rust quote ----------

  lemma UnlockedAgrees(vault: Vault, now: u64)
    requires GetUnlockedAmount(vault, now).Some?
    ensures Withdrawable(vault, now) == GetUnlockedAmount(vault, now).value
  {
    var tracker := vault.tracker;
    var ratio := (now - tracker.lastReport) * tracker.lockedProfitDegradation;
    if ratio <= LOCKED_PROFIT_DEGRADATION_DENOMINATOR {
      MulNonNegative(tracker.lastUpdatedLockedProfit, LOCKED_PROFIT_DEGRADATION_DENOMINATOR - ratio);
    }
  }

  lemma AmountByShareAgrees(vault: Vault, now: u64, share: u64, supply: u64)
    requires GetAmountByShare(vault, now, share, supply).Some?
    ensures AmountByShare(share, Withdrawable(vault, now), supply)
         == Returns(GetAmountByShare(vault, now, share, supply).value)
  {
    UnlockedAgrees(vault, now);
  }

  lemma UnmintAmountAgrees(vault: Vault, now: u64, amount: u64, supply: u64)
    requires GetUnmintAmount(vault, now, amount, supply).Some?
    ensures UnmintAmount(amount, Withdrawable(vault, now), supply)
         == Returns(GetUnmintAmount(vault, now, amount, supply).value)
  {
    UnlockedAgrees(vault, now);
  }

  /** Neither fee of the trade was raised by the minimum of one, and both rates have a denominator. */
  predicate NoMinimumFee(fees: PoolFees, amount: nat) {
    && 0 < fees.tradeDenominator && 0 < fees.protocolDenominator
    && !MinimumApplies(amount, fees.tradeNumerator, fees.tradeDenominator)
    && (TradingFee(fees, amount).Some? ==>
          !MinimumApplies(TradingFee(fees, amount).value, fees.protocolNumerator, fees.protocolDenominator))
  }

  /** The two clients split an input the same way exactly when neither fee was raised to the minimum. */
  lemma SplitsAgreeIff(fees: PoolFees, amount: u64)
    requires SplitFee(fees, amount).Some? && 0 < fees.tradeDenominator && 0 < fees.protocolDenominator
    ensures var split := SplitFee(fees, amount).value;
            TsSplitFee(fees, amount) == Returns(TsSplit(split.fee, split.deposited)) <==> NoMinimumFee(fees, amount)
  {
    FeesAgreeIff(amount, fees.tradeNumerator, fees.tradeDenominator);
    FeesAgreeIff(TradingFee(fees, amount).value, fees.protocolNumerator, fees.protocolDenominator);
    if MinimumApplies(amount, fees.tradeNumerator, fees.tradeDenominator) {
      MinimumIsOne(amount, fees.tradeNumerator, fees.tradeDenominator);
    }
  }

  lemma MinimumIsOne(amount: nat, numerator: u64, denominator: u64)
    requires MinimumApplies(amount, numerator, denominator) && CalculateFee(amount, numerator, denominator).Some?
    ensures CalculateFee(amount, numerator, denominator) == Some(1)
    ensures TsFee(amount, numerator, denominator) == Returns(0)
  {
    MulNonNegative(amount, numerator);
    FloorBelow(amount * numerator, denominator, 1);
    FloorBounds(amount * numerator, denominator);
  }

  /** At a quarter of a percent and an input of 10, the Rust client charges one token and the TypeScript none. */
  lemma MinimumSeparates()
    ensures SplitFee(PoolFees(25, 10000, 0, 10000), 10) == Some(FeeSplit(0, 1, 10))
    ensures TsSplitFee(PoolFees(25, 10000, 0, 10000), 10) == Returns(TsSplit(0, 10))
  {}

  lemma DepositGainAgrees(side: Side, now: u64, x: u64)
    requires DepositGain(side, now, x).Some?
    ensures TsDepositGain(side, now, x) == Returns(DepositGain(side, now, x).value)
  {
    var side' := Deposit(side, now, x).value;
    AmountByShareAgrees(side.vault, now, side.lpAmount, side.lpSupply);
    UnmintAmountAgrees(side.vault, now, x, side.lpSupply);
    AmountByShareAgrees(side'.vault, now, side'.lpAmount, side'.lpSupply);
    assert Withdrawable(side'.vault, now) == Withdrawable(side.vault, now) + x;
  }

  lemma RoundTripAtMost(w: int, supply: int, total: int)
    requires 0 < supply && 0 < total
    ensures w * supply / total * total / supply <= w
  {
    var burned := w * supply / total;
    QuotientBounds(w * supply, total, burned);
    QuotientBounds(burned * total, supply, burned * total / supply);
    CancelLe(burned * total / supply, w, supply);
  }

  lemma WithdrawAgrees(side: Side, now: u64, w: u64)
    requires Withdraw(side, now, w).Some?
    ensures TsWithdraw(side, now, w) == Returns(Withdraw(side, now, w).value.out)
    ensures Withdraw(side, now, w).value.out <= w
  {
    UnmintAmountAgrees(side.vault, now, w, side.lpSupply);
    AmountByShareAgrees(side.vault, now, Withdraw(side, now, w).value.burned, side.lpSupply);
    RoundTripAtMost(w, side.lpSupply, GetUnlockedAmount(side.vault, now).value);
  }

  lemma EntryAgrees(fees: PoolFees, side: Side, now: u64, amount: u64)
    requires Enter(fees, side, now, amount).Some? && NoMinimumFee(fees, amount)
    ensures var entry := Enter(fees, side, now, amount).value;
            TsEnter(fees, side, now, amount) == Returns((entry.split.fee, entry.curveIn))
  {
    SplitsAgreeIff(fees, amount);
    DepositGainAgrees(side, now, SplitFee(fees, amount).value.deposited);
  }

  lemma CurveAgrees(amount: u64, source: u64, destination: u64, direction: TradeDirection)
    requires CurveSwap(ConstantProduct, amount, source, destination, direction).Some?
    ensures var out := CurveSwap(ConstantProduct, amount, source, destination, direction).value;
            CP.OutAmount(amount, source, destination) == Returns(out) && out < destination
  {
    CP.SwapMatchesQuote(amount, source, destination);
    CurveSwapBelowReserve(ConstantProduct, amount, source, destination, direction);
  }

  lemma ExitAgrees(side: Side, now: u64, curveIn: u64, source: u64, destination: u64, direction: TradeDirection,
                   curveOut: u64, withdrawal: Withdrawal)
    requires CurveSwap(ConstantProduct, curveIn, source, destination, direction) == Some(curveOut)
    requires Withdraw(side, now, curveOut) == Some(withdrawal) && withdrawal.out < side.reserve
    ensures TsExit(side, now, curveIn, source, destination) == Returns(withdrawal.out)
  {
    CurveAgrees(curveIn, source, destination, direction);
    WithdrawAgrees(side, now, curveOut);
  }

  lemma TsStages(fees: PoolFees, from: Side, to: Side, now: int, amount: nat,
                 source: int, destination: int, fee: int, curveIn: int, out: int)
    requires TsHolding(from, now) == Returns(source) && TsHolding(to, now) == Returns(destination)
    requires TsEnter(fees, from, now, amount) == Returns((fee, curveIn))
    requires TsExit(to, now, curveIn, source, destination) == Returns(out)
    ensures TsSwapQuote(fees, from, to, now, amount) == Returns(TsResult(out, fee))
  {}

  /** Whenever the Rust quote succeeds on a constant product pool and neither fee was raised to the minimum
      of one, the TypeScript quote returns the same output and fee: its stricter limit on the output, the pool's
      own tokens as well as the vault's reserve, is met too. */
  lemma QuotesAgree(fees: PoolFees, from: Side, to: Side, now: u64, amount: u64, direction: TradeDirection)
    requires Quote.Quote(ConstantProduct, fees, from, to, now, amount, direction).Some?
    requires NoMinimumFee(fees, amount)
    ensures var fill := Quote.Quote(ConstantProduct, fees, from, to, now, amount, direction).value;
            TsSwapQuote(fees, from, to, now, amount) == Returns(TsResult(fill.Out(), fill.Fee()))
  {
    var fill := Quote.Quote(ConstantProduct, fees, from, to, now, amount, direction).value;
    var source, destination := Holding(from, now).value, Holding(to, now).value;
    AmountByShareAgrees(from.vault, now, from.lpAmount, from.lpSupply);
    AmountByShareAgrees(to.vault, now, to.lpAmount, to.lpSupply);
    EntryAgrees(fees, from, now, amount);
    ExitAgrees(to, now, fill.entry.curveIn, source, destination, direction, fill.curveOut, fill.withdrawal);
    TsStages(fees, from, to, now, amount, source, destination, fill.Fee(), fill.entry.curveIn, fill.Out());
  }

  // ---------- exactly when both clients quote ----------

  /** The amounts that the Rust quote computes on the way in fit in 64 bits. */
  predicate EntryFits(fees: PoolFees, from: Side, now: u64, amount: u64) {
    SplitFee(fees, amount).Some? && Deposit(from, now, SplitFee(fees, amount).value.deposited).Some?
  }

  /** What the deposit gained covers the pool's fee: the TypeScript client never checks that it does. */
  predicate GainCoversFee(fees: PoolFees, from: Side, now: int, amount: nat) {
    TsEnter(fees, from, now, amount).Returns? && 0 <= TsEnter(fees, from, now, amount).value.1
  }

  lemma EntryDefinedIff(fees: PoolFees, from: Side, now: u64, amount: u64)
    requires Healthy(from, now) && NoMinimumFee(fees, amount)
    ensures Enter(fees, from, now, amount).Some?
            <==> EntryFits(fees, from, now, amount) && GainCoversFee(fees, from, now, amount)
  {
    if EntryFits(fees, from, now, amount) {
      var x := SplitFee(fees, amount).value.deposited;
      SplitsAgreeIff(fees, amount);
      DepositBounds(from, now, x);
      DepositGainAgrees(from, now, x);
    }
    if Enter(fees, from, now, amount).Some? { EntryAgrees(fees, from, now, amount); }
  }

  /** On a healthy output side the Rust exit succeeds where the TypeScript one does: its own limits are looser. */
  lemma ExitDefined(side: Side, now: u64, curveIn: u64, source: u64, direction: TradeDirection)
    requires Healthy(side, now) && Holding(side, now).Some?
    requires TsExit(side, now, curveIn, source, Holding(side, now).value).Returns?
    ensures var swapped := CurveSwap(ConstantProduct, curveIn, source, Holding(side, now).value, direction);
            && swapped.Some? && swapped.value <= U64_MAX && Withdraw(side, now, swapped.value).Some?
            && Withdraw(side, now, swapped.value).value.out < side.reserve
  {
    var destination := Holding(side, now).value;
    CP.SwapMatchesQuote(curveIn, source, destination);
    CurveAgrees(curveIn, source, destination, direction);
    var curveOut := CurveSwap(ConstantProduct, curveIn, source, destination, direction).value;
    WithdrawalBounds(side, now, curveOut);
    WithdrawAgrees(side, now, curveOut);
  }

  /** On a healthy pool where neither fee was raised to the minimum, the Rust client quotes exactly when its amounts
      fit in 64 bits and the TypeScript client quotes from a gain that covers the fee. */
  lemma QuotesTogetherIff(fees: PoolFees, from: Side, to: Side, now: u64, amount: u64, direction: TradeDirection)
    requires Healthy(from, now) && Healthy(to, now) && NoMinimumFee(fees, amount)
    ensures Quote.Quote(ConstantProduct, fees, from, to, now, amount, direction).Some?
            <==> && EntryFits(fees, from, now, amount) && GainCoversFee(fees, from, now, amount)
                 && TsSwapQuote(fees, from, to, now, amount).Returns?
  {
    EntryDefinedIff(fees, from, now, amount);
    if Quote.Quote(ConstantProduct, fees, from, to, now, amount, direction).Some? {
      QuotesAgree(fees, from, to, now, amount, direction);
    } else if Enter(fees, from, now, amount).Some? && TsSwapQuote(fees, from, to, now, amount).Returns? {
      HoldingIsValue(from, now);
      HoldingIsValue(to, now);
      AmountByShareAgrees(from.vault, now, from.lpAmount, from.lpSupply);
      AmountByShareAgrees(to.vault, now, to.lpAmount, to.lpSupply);
      EntryAgrees(fees, from, now, amount);
      ExitDefined(to, now, Enter(fees, from, now, amount).value.curveIn, Holding(from, now).value, direction);
    }
  }

  /** The Rust client refuses an input whose gain does not cover the fee. */
  lemma UncoveredIsRefused(fees: PoolFees, from: Side, to: Side, now: u64, amount: u64, direction: TradeDirection)
    requires Healthy(from, now) && Healthy(to, now) && NoMinimumFee(fees, amount)
    requires !GainCoversFee(fees, from, now, amount)
    ensures Quote.Quote(ConstantProduct, fees, from, to, now, amount, direction) == None
  {
    QuotesTogetherIff(fees, from, to, now, amount, direction);
  }

  /** Asked for more than the pool's tokens, the withdrawal would pay all of them, which the limit refuses. */
  lemma ExitRefusesMore(side: Side, now: u64, w: int)
    requires Healthy(side, now) && Holding(side, now).Some? && Holding(side, now).value < w
    ensures TsWithdraw(side, now, w).Returns? && Holding(side, now).value <= TsWithdraw(side, now, w).value
  {
    var total, supply := Unlocked(side.vault, now), side.lpSupply;
    HoldingIsValue(side, now);
    UnlockedAgrees(side.vault, now);
    ValueBounds(side.lpAmount, total, supply);
    MulNonNegative(w, supply);
    MulLe(Value(side.lpAmount, total, supply) + 1, w, supply);
    FloorAtLeast(w * supply, total, side.lpAmount);
    var burned := w * supply / total;
    MulNonNegative(burned, total);
    MulLe(side.lpAmount, burned, total);
    FloorMonotone(side.lpAmount * total, burned * total, supply);
  }

  lemma TruncNotPositive(n: int, d: int)
    requires n <= 0 && 0 < d
    ensures TruncDiv(n, d) <= 0
  {
    if n < 0 { FloorBounds(-n, d); } else { FloorAtLeast(0, d, 0); FloorBelow(0, d, 1); }
  }

  lemma NegativeWithdrawal(side: Side, now: u64, w: int)
    requires Healthy(side, now) && w <= 0
    ensures TsWithdraw(side, now, w).Returns? && TsWithdraw(side, now, w).value <= 0
  {
    var total, supply := Unlocked(side.vault, now), side.lpSupply;
    UnlockedAgrees(side.vault, now);
    MulLe(w, 0, supply);
    TruncNotPositive(w * supply, total);
    MulLe(TruncDiv(w * supply, total), 0, total);
    TruncNotPositive(TruncDiv(w * supply, total) * total, supply);
  }

  lemma NegativeEntryExits(side: Side, now: u64, curveIn: int, source: nat)
    requires Healthy(side, now) && Holding(side, now).Some? && curveIn < 0
    requires TsExit(side, now, curveIn, source, Holding(side, now).value).Returns?
    ensures TsExit(side, now, curveIn, source, Holding(side, now).value).value <= 0
  {
    var destination := Holding(side, now).value;
    var w := CP.OutAmount(curveIn, source, destination).value;
    CP.NegativeInput(curveIn, source, destination);
    if destination < w {
      ExitRefusesMore(side, now, w);
    } else {
      NegativeWithdrawal(side, now, w);
    }
  }

  /** Whatever the TypeScript client quotes from a gain that does not cover the fee is not a positive output. */
  lemma UncoveredPaysNothing(fees: PoolFees, from: Side, to: Side, now: u64, amount: u64)
    requires Healthy(from, now) && Healthy(to, now) && !GainCoversFee(fees, from, now, amount)
    requires TsSwapQuote(fees, from, to, now, amount).Returns?
    ensures TsSwapQuote(fees, from, to, now, amount).value.amountOut <= 0
  {
    HoldingIsValue(from, now);
    HoldingIsValue(to, now);
    AmountByShareAgrees(from.vault, now, from.lpAmount, from.lpSupply);
    AmountByShareAgrees(to.vault, now, to.lpAmount, to.lpSupply);
    NegativeEntryExits(to, now, TsEnter(fees, from, now, amount).value.1, Holding(from, now).value);
  }

  /** So where no minimum fee applied and the amounts fit in 64 bits, every positive output that the TypeScript client
      quotes is the Rust client's too. */
  lemma PositiveQuotesAgree(fees: PoolFees, from: Side, to: Side, now: u64, amount: u64, direction: TradeDirection)
    requires Healthy(from, now) && Healthy(to, now) && NoMinimumFee(fees, amount) && EntryFits(fees, from, now, amount)
    requires TsSwapQuote(fees, from, to, now, amount).Returns?
    requires 0 < TsSwapQuote(fees, from, to, now, amount).value.amountOut
    ensures var quote := Quote.Quote(ConstantProduct, fees, from, to, now, amount, direction);
            && quote.Some?
            && TsSwapQuote(fees, from, to, now, amount) == Returns(TsResult(quote.value.Out(), quote.value.Fee()))
  {
    if !GainCoversFee(fees, from, now, amount) { UncoveredPaysNothing(fees, from, to, now, amount); }
    QuotesTogetherIff(fees, from, to, now, amount, direction);
    QuotesAgree(fees, from, to, now, amount, direction);
  }

  // ---------- where the quotes differ, and where they agree all the same ----------

  /** A side whose vault has nothing locked. */
  function PlainSide(total: u64, lpAmount: u64, lpSupply: u64): Side {
    Side(Vault(total, LockedProfitTracker(0, 0, 0)), lpAmount, lpSupply, total)
  }

  lemma EnterIs(fees: PoolFees, side: Side, now: int, amount: nat, split: TsSplit, gain: int)
    requires TsSplitFee(fees, amount) == Returns(split) && TsDepositGain(side, now, split.deposited) == Returns(gain)
    ensures TsEnter(fees, side, now, amount) == Returns((split.fee, gain - split.fee))
  {}

  /** A fee of a quarter on an input of 4. */
  lemma QuarterFee(fees: PoolFees)
    requires fees == PoolFees(1, 4, 0, 4)
    ensures NoMinimumFee(fees, 4) && SplitFee(fees, 4) == Some(FeeSplit(0, 1, 4))
    ensures TsSplitFee(fees, 4) == Returns(TsSplit(1, 4))
  {
    assert TradingFee(fees, 4) == Some(1) && ProtocolTradingFee(fees, 1) == Some(0);
    SplitsAgreeIff(fees, 4);
  }

  /** Shares that are worth 10, in a vault where a deposit of 4 mints none. */
  lemma TenthOfVault()
    ensures Healthy(PlainSide(100, 1, 10), 0) && Deposit(PlainSide(100, 1, 10), 0, 4).Some?
  {}

  lemma TenthTsHolding()
    ensures TsHolding(PlainSide(100, 1, 10), 0) == Returns(10)
  {}

  lemma TenthTsGain()
    ensures TsDepositGain(PlainSide(100, 1, 10), 0, 4) == Returns(0)
  {}

  /** Shares that are worth 5. */
  lemma TwentiethOfVault()
    ensures Healthy(PlainSide(100, 5, 100), 0)
  {}

  lemma TwentiethTsHolding()
    ensures TsHolding(PlainSide(100, 5, 100), 0) == Returns(5)
  {}

  lemma NegativeExit()
    ensures TsExit(PlainSide(100, 5, 100), 0, -1, 10, 5) == Returns(-1)
  {
    assert CP.OutAmount(-1, 10, 5) == Returns(-1);
  }

  /** Where the gain does not cover the fee, the TypeScript client can quote a negative output: at a fee of a
      quarter, an input of 4 into a vault whose shares are worth 10 mints none. The Rust client refuses. */
  lemma GainBelowFee(fees: PoolFees, from: Side, to: Side)
    requires fees == PoolFees(1, 4, 0, 4) && from == PlainSide(100, 1, 10) && to == PlainSide(100, 5, 100)
    ensures Healthy(from, 0) && Healthy(to, 0) && NoMinimumFee(fees, 4) && EntryFits(fees, from, 0, 4)
    ensures Quote.Quote(ConstantProduct, fees, from, to, 0, 4, AToB) == None
    ensures TsSwapQuote(fees, from, to, 0, 4) == Returns(TsResult(-1, 1))
  {
    QuarterFee(fees);
    TenthOfVault();
    TenthTsHolding();
    TenthTsGain();
    TwentiethOfVault();
    TwentiethTsHolding();
    NegativeExit();
    NegativeQuote(fees, from, to, 0, 4, TsSplit(1, 4), 10, 5, -1);
  }

  lemma NegativeQuote(fees: PoolFees, from: Side, to: Side, now: u64, amount: u64, split: TsSplit,
                      source: int, destination: int, out: int)
    requires Healthy(from, now) && Healthy(to, now) && NoMinimumFee(fees, amount)
    requires TsSplitFee(fees, amount) == Returns(split) && 0 < split.fee
    requires TsDepositGain(from, now, split.deposited) == Returns(0)
    requires TsHolding(from, now) == Returns(source) && TsHolding(to, now) == Returns(destination)
    requires TsExit(to, now, -split.fee, source, destination) == Returns(out)
    ensures TsSwapQuote(fees, from, to, now, amount) == Returns(TsResult(out, split.fee))
    ensures Quote.Quote(ConstantProduct, fees, from, to, now, amount, AToB) == None
  {
    EnterIs(fees, from, now, amount, split, 0);
    TsStages(fees, from, to, now, amount, source, destination, split.fee, -split.fee, out);
    UncoveredIsRefused(fees, from, to, now, amount, AToB);
  }
}
