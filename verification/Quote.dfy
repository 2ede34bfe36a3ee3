/** The quote pipeline through the two vaults: `compute_quote` in dynamic-amm-quote/src/lib.rs. */
module Quote {
  import opened Arithmetic
  import opened PoolTypes
  import opened Fees
  import opened Vaults
  import opened PoolSides
  import CP = ConstantProductCurve
  import SC = StableCurve

  // ---------- the curve ----------

  function CheckedUp(s: SC.Scale, amount: u64): Option<nat> {
    var normalized :- Fit128(amount * s.multiplier);
    if s.depegged then Fit128(normalized * s.price) else Some(normalized)
  }

  /** The swap on a stable curve: checked upscaling, the solvers, an output that is not negative, and
      downscaling. */
  function StableSwap(amp: nat, sourceScale: SC.Scale, destinationScale: SC.Scale,
                      amount: u64, source: u64, destination: u64): Option<nat> {
    var input :- CheckedUp(sourceScale, amount);
    var from :- CheckedUp(sourceScale, source);
    var to :- CheckedUp(destinationScale, destination);
    if amp == 0 then None
    else
      match SC.SolvedBalance(amp, from, to, input)
      case Throws(_) => None
      case Returns(y) =>
        var swapped :- Fit128(to - y - 1);
        match destinationScale.Down(swapped)
        case Throws(_) => None
        case Returns(out) => Fit128(out)
  }

  /** The destination amount that the pool's curve swaps. */
  function CurveSwap(curve: CurveType, amount: u64, source: u64, destination: u64,
                     direction: TradeDirection): Option<nat> {
    match curve
    case ConstantProduct =>
      var r :- CP.Swap(amount, source, destination);
      Some(r.destinationSwapped)
    case Stable(amp, multiplier, depeg) =>
      var scaleA, scaleB := SC.ScaleA(multiplier, depeg), SC.ScaleB(multiplier, depeg);
      if direction == AToB then StableSwap(amp, scaleA, scaleB, amount, source, destination)
      else StableSwap(amp, scaleB, scaleA, amount, source, destination)
  }

  /** A checked stable swap is the TypeScript quote, where that is not negative. */
  lemma StableSwapIsQuote(amp: nat, sourceScale: SC.Scale, destinationScale: SC.Scale,
                          amount: u64, source: u64, destination: u64)
    requires StableSwap(amp, sourceScale, destinationScale, amount, source, destination).Some?
    ensures 1 <= amp
    ensures SC.OutAmount(amp, sourceScale, destinationScale, amount, source, destination)
         == Returns(StableSwap(amp, sourceScale, destinationScale, amount, source, destination).value)
    ensures StableSwap(amp, sourceScale, destinationScale, amount, source, destination).value < destination
  {
    var to := destinationScale.Up(destination);
    assert CheckedUp(sourceScale, amount) == Some(sourceScale.Up(amount));
    assert CheckedUp(sourceScale, source) == Some(sourceScale.Up(source));
    assert CheckedUp(destinationScale, destination) == Some(to);
    SC.OutAmountBelowReserve(amp, sourceScale, destinationScale, amount, source, destination);
    if destination == 0 { SC.UpIsFactor(destinationScale, 0); }
  }

  /** The product of amount, multiplier and price fits in 128 bits. */
  predicate ScaledFits(s: SC.Scale, amount: u64) {
    amount * s.multiplier * (if s.depegged then s.price else 1) <= 0xFFFF_FFFF_FFFF_FFFF_FFFF_FFFF_FFFF_FFFF
  }

  lemma CheckedUpIff(s: SC.Scale, amount: u64)
    requires 0 < s.Factor()
    ensures CheckedUp(s, amount).Some? <==> ScaledFits(s, amount)
    ensures ScaledFits(s, amount) ==> CheckedUp(s, amount) == Some(s.Up(amount))
  {
    SC.FactorIsPositive(s);
    MulNonNegative(amount, s.multiplier);
    if s.depegged { MulLe(1, s.price, amount * s.multiplier); }
  }

  /** A stable swap succeeds exactly when the three scaled products fit in 128 bits and the solved balance is below the
      destination's; nothing else can fail. */
  lemma StableSwapIff(amp: nat, sourceScale: SC.Scale, destinationScale: SC.Scale,
                      amount: u64, source: u64, destination: u64)
    requires 1 <= amp && 0 < sourceScale.Factor() && 0 < destinationScale.Factor() && 0 < source && 0 < destination
    ensures SC.SolvedBalance(amp, sourceScale.Up(source), destinationScale.Up(destination),
                             sourceScale.Up(amount)).Returns?
    ensures StableSwap(amp, sourceScale, destinationScale, amount, source, destination).Some?
            <==> && ScaledFits(sourceScale, amount) && ScaledFits(sourceScale, source)
                 && ScaledFits(destinationScale, destination)
                 && SC.SolvedBalance(amp, sourceScale.Up(source), destinationScale.Up(destination),
                                     sourceScale.Up(amount)).value < destinationScale.Up(destination)
  {
    var from, to, input := sourceScale.Up(source), destinationScale.Up(destination), sourceScale.Up(amount);
    CheckedUpIff(sourceScale, amount);
    CheckedUpIff(sourceScale, source);
    CheckedUpIff(destinationScale, destination);
    SC.UpPositive(sourceScale, source);
    SC.UpPositive(destinationScale, destination);
    SC.SolvedBalanceReturns(amp, from, to, input);
    var y := SC.SolvedBalance(amp, from, to, input).value;
    if ScaledFits(destinationScale, destination) && y < to { LeftFits(destinationScale, destination, y); }
  }

  lemma LeftFits(s: SC.Scale, destination: u64, y: nat)
    requires 0 < s.Factor() && ScaledFits(s, destination) && y < s.Up(destination)
    ensures Fit128(s.Up(destination) - y - 1) == Some(s.Up(destination) - y - 1)
    ensures s.Down(s.Up(destination) - y - 1).Returns? && Fit128(s.Down(s.Up(destination) - y - 1).value).Some?
  {
    CheckedUpIff(s, destination);
    SC.DestinationAfter(s, destination, y) by { SC.DownBounds(s, s.Up(destination) - y - 1); }
    SC.DownBounds(s, s.Up(destination) - y - 1);
  }

  /** The two scales in the order of a trade. */
  function SourceScale(curve: CurveType, direction: TradeDirection): SC.Scale
    requires curve.Stable?
  {
    if direction == AToB then SC.ScaleA(curve.multiplier, curve.depeg) else SC.ScaleB(curve.multiplier, curve.depeg)
  }

  function DestinationScale(curve: CurveType, direction: TradeDirection): SC.Scale
    requires curve.Stable?
  {
    if direction == AToB then SC.ScaleB(curve.multiplier, curve.depeg) else SC.ScaleA(curve.multiplier, curve.depeg)
  }

  /** No curve swaps out the whole destination reserve. */
  lemma CurveSwapBelowReserve(curve: CurveType, amount: u64, source: u64, destination: u64, direction: TradeDirection)
    requires CurveSwap(curve, amount, source, destination, direction).Some?
    ensures CurveSwap(curve, amount, source, destination, direction).value < destination
  {
    match curve
    case ConstantProduct =>
      CP.SwapMatchesQuote(amount, source, destination);
      CP.OutAmountKeepsProduct(amount, source, destination);
    case Stable(amp, multiplier, depeg) =>
      var scaleA, scaleB := SC.ScaleA(multiplier, depeg), SC.ScaleB(multiplier, depeg);
      if direction == AToB {
        StableSwapIsQuote(amp, scaleA, scaleB, amount, source, destination);
      } else {
        StableSwapIsQuote(amp, scaleB, scaleA, amount, source, destination);
      }
  }

  // ---------- the pipeline ----------

  /** Everything a quote computes on its way. `Fee` and `Out` are its result. */
  datatype Fill = Fill(entry: Entry, curveOut: u64, withdrawal: Withdrawal) {
    function Fee(): u64 {
      entry.split.fee
    }

    function Out(): u64 {
      withdrawal.out
    }
  }

  /** The input split into the protocol's fee, the pool's fee and what is deposited. */
  datatype FeeSplit = FeeSplit(protocolFee: u64, fee: u64, deposited: u64)

  function SplitFee(fees: PoolFees, amount: u64): Option<FeeSplit> {
    var tradeFee :- TradingFee(fees, amount);
    var protocolFee :- ProtocolTradingFee(fees, tradeFee);
    var fee :- Fit64(tradeFee - protocolFee);
    var protocolFee64 :- Fit64(protocolFee);
    var deposited :- Fit64(amount - protocolFee64);
    Some(FeeSplit(protocolFee64, fee, deposited))
  }

  /** What depositing x adds to the pool's tokens on a side. */
  function DepositGain(side: Side, now: u64, x: u64): Option<u64> {
    var before :- Holding(side, now);
    var side' :- Deposit(side, now, x);
    var after :- Holding(side', now);
    Fit64(after - before)
  }

  /** The part of the pipeline that works out the curve's input. */
  datatype Entry = Entry(split: FeeSplit, actualIn: u64, curveIn: u64)

  function Enter(fees: PoolFees, side: Side, now: u64, amount: u64): Option<Entry> {
    var split :- SplitFee(fees, amount);
    var actualIn :- DepositGain(side, now, split.deposited);
    var curveIn :- Fit64(actualIn - split.fee);
    Some(Entry(split, actualIn, curveIn))
  }

  /** The quote from `from` to `to`, on a curve whose price has been refreshed. */
  function Quote(curve: CurveType, fees: PoolFees, from: Side, to: Side, now: u64,
                 amount: u64, direction: TradeDirection): Option<Fill> {
    var source :- Holding(from, now);
    var destination :- Holding(to, now);
    var entry :- Enter(fees, from, now, amount);
    var swapped :- CurveSwap(curve, entry.curveIn, source, destination, direction);
    var curveOut :- Fit64(swapped);
    var withdrawal :- Withdraw(to, now, curveOut);
    if withdrawal.out < to.reserve then
      Some(Fill(entry, curveOut, withdrawal))
    else None
  }

  /** Every unit of the input is accounted for: the protocol's fee, the pool's fee, what the curve is given, and
      a rounding loss in the input vault of less than the price of one share plus one. */
  lemma InputIsConserved(fees: PoolFees, side: Side, now: u64, amount: u64)
    requires Healthy(side, now) && Enter(fees, side, now, amount).Some?
    ensures var entry := Enter(fees, side, now, amount).value;
            var loss := entry.split.deposited - entry.actualIn;
            && amount == entry.split.protocolFee + entry.split.fee + entry.curveIn + loss
            && 0 <= loss && (loss - 1) * side.lpSupply < Unlocked(side.vault, now)
  {
    DepositBounds(side, now, Enter(fees, side, now, amount).value.split.deposited);
  }

  /** With sound rates, splitting the fee never fails: the protocol's part is within the trade fee, and that
      within the input, despite the minimum of one. */
  lemma SplitFeeDefined(fees: PoolFees, amount: u64)
    requires fees.Sound() && 0 < fees.tradeDenominator && 0 < fees.protocolDenominator
    ensures SplitFee(fees, amount).Some?
    ensures var split := SplitFee(fees, amount).value;
            split.protocolFee + split.fee <= amount && split.protocolFee + split.deposited == amount
  {
    U64Product(amount, fees.tradeNumerator);
    assert TradingFee(fees, amount).Some?;
    FeeAtMostAmount(amount, fees.tradeNumerator, fees.tradeDenominator);
    U64Product(TradingFee(fees, amount).value, fees.protocolNumerator);
    FeesNest(fees, amount);
  }

  lemma QuoteStages(curve: CurveType, fees: PoolFees, from: Side, to: Side, now: u64, amount: u64,
                    direction: TradeDirection)
    requires Quote(curve, fees, from, to, now, amount, direction).Some?
    ensures var fill := Quote(curve, fees, from, to, now, amount, direction).value;
            && Holding(from, now).Some? && Holding(to, now).Some? && Enter(fees, from, now, amount) == Some(fill.entry)
            && CurveSwap(curve, fill.entry.curveIn, Holding(from, now).value, Holding(to, now).value, direction)
               == Some(fill.curveOut)
            && Withdraw(to, now, fill.curveOut) == Some(fill.withdrawal) && fill.Out() < to.reserve
  {}

  /** What a quote pays: at most the curve's output and below the reserve, short of it by less than the price of
      one share of the output vault plus one, for fewer shares than the pool holds. */
  lemma OutputIsBounded(curve: CurveType, fees: PoolFees, from: Side, to: Side, now: u64,
                        amount: u64, direction: TradeDirection)
    requires Healthy(to, now) && Quote(curve, fees, from, to, now, amount, direction).Some?
    ensures var fill := Quote(curve, fees, from, to, now, amount, direction).value;
            && Holding(to, now).Some? && fill.curveOut < Holding(to, now).value
            && fill.Out() <= fill.curveOut && fill.Out() < to.reserve
            && (fill.curveOut - fill.Out() - 1) * to.lpSupply < Unlocked(to.vault, now)
            && fill.withdrawal.burned < to.lpAmount
  {
    var fill := Quote(curve, fees, from, to, now, amount, direction).value;
    QuoteStages(curve, fees, from, to, now, amount, direction);
    CurveSwapBelowReserve(curve, fill.entry.curveIn, Holding(from, now).value, Holding(to, now).value, direction);
    WithdrawalBounds(to, now, fill.curveOut);
  }

  /** The deposit that a quote makes gains exactly what the TypeScript deposit estimate says. */
  lemma DepositEstimateAgrees(side: Side, now: u64, x: u64)
    requires Healthy(side, now) && DepositGain(side, now, x).Some?
    ensures ActualDeposit(x, Holding(side, now).value, side.lpAmount, side.lpSupply, Unlocked(side.vault, now))
         == Returns(DepositGain(side, now, x).value)
  {
    DepositGainIs(side, now, x);
    DepositHoldings(side, now, x);
    ActualDepositIs(x, Holding(side, now).value, Holding(Deposit(side, now, x).value, now).value,
                    side.lpAmount, side.lpSupply, Unlocked(side.vault, now),
                    Deposit(side, now, x).value.lpAmount - side.lpAmount);
  }

  lemma DepositGainIs(side: Side, now: u64, x: u64)
    requires DepositGain(side, now, x).Some?
    ensures Deposit(side, now, x).Some? && Holding(side, now).Some? && Holding(Deposit(side, now, x).value, now).Some?
    ensures DepositGain(side, now, x).value
         == Holding(Deposit(side, now, x).value, now).value - Holding(side, now).value
  {}

  // ---------- exactly when the pipeline quotes ----------

  /** The entry succeeds exactly when the fees split, the deposit's new balances fit, and what it gains covers the
      pool's fee. */
  lemma EnterIff(fees: PoolFees, side: Side, now: u64, amount: u64)
    requires Healthy(side, now)
    ensures Enter(fees, side, now, amount).Some?
            <==> && SplitFee(fees, amount).Some?
                 && Deposit(side, now, SplitFee(fees, amount).value.deposited).Some?
                 && DepositGain(side, now, SplitFee(fees, amount).value.deposited).Some?
                 && SplitFee(fees, amount).value.fee
                    <= DepositGain(side, now, SplitFee(fees, amount).value.deposited).value
  {
    if SplitFee(fees, amount).Some? && Deposit(side, now, SplitFee(fees, amount).value.deposited).Some? {
      DepositBounds(side, now, SplitFee(fees, amount).value.deposited);
    }
  }

  /** The shares that are worth w at the present price, and what burning them pays, both rounded down. */
  function Paid(side: Side, now: u64, w: nat): nat
    requires Healthy(side, now)
  {
    Value(Value(w, side.lpSupply, Unlocked(side.vault, now)), Unlocked(side.vault, now), side.lpSupply)
  }

  /** On healthy sides with tokens, a stable pool with usable scales quotes exactly when the input enters, the scaled
      products fit, the solvers leave something, and the vault's reserve covers what it pays. */
  lemma StableQuoteIff(curve: CurveType, fees: PoolFees, from: Side, to: Side, now: u64, amount: u64,
                       direction: TradeDirection)
    requires curve.Stable? && 1 <= curve.amp && Healthy(from, now) && Healthy(to, now)
    requires Holding(from, now).Some? && 0 < Holding(from, now).value
    requires Holding(to, now).Some? && 0 < Holding(to, now).value
    requires 0 < SourceScale(curve, direction).Factor() && 0 < DestinationScale(curve, direction).Factor()
    ensures Quote(curve, fees, from, to, now, amount, direction).Some?
            <==> && Enter(fees, from, now, amount).Some?
                 && var s, d := SourceScale(curve, direction), DestinationScale(curve, direction);
                    var curveIn := Enter(fees, from, now, amount).value.curveIn;
                    var source, destination := Holding(from, now).value, Holding(to, now).value;
                    && ScaledFits(s, curveIn) && ScaledFits(s, source) && ScaledFits(d, destination)
                    && SC.SolvedBalance(curve.amp, s.Up(source), d.Up(destination), s.Up(curveIn)).Returns?
                    && SC.SolvedBalance(curve.amp, s.Up(source), d.Up(destination), s.Up(curveIn)).value
                       < d.Up(destination)
                    && SC.OutAmount(curve.amp, s, d, curveIn, source, destination).Returns?
                    && 0 <= SC.OutAmount(curve.amp, s, d, curveIn, source, destination).value
                    && Paid(to, now, SC.OutAmount(curve.amp, s, d, curveIn, source, destination).value) < to.reserve
  {
    if Enter(fees, from, now, amount).Some? {
      var s, d := SourceScale(curve, direction), DestinationScale(curve, direction);
      var curveIn := Enter(fees, from, now, amount).value.curveIn;
      var source, destination := Holding(from, now).value, Holding(to, now).value;
      StableSwapIff(curve.amp, s, d, curveIn, source, destination);
      if StableSwap(curve.amp, s, d, curveIn, source, destination).Some? {
        StableSwapIsQuote(curve.amp, s, d, curveIn, source, destination);
        HoldingIsValue(to, now);
        WithdrawShape(to, now, StableSwap(curve.amp, s, d, curveIn, source, destination).value);
      }
    }
  }
}
