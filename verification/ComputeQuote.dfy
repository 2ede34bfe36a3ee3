/** The entry point `compute_quote` of dynamic-amm-quote/src/lib.rs: the checks on the pool, the price refresh
    and the pipeline, in the order of the source. */
module ComputeQuote {
  import opened Arithmetic
  import opened PoolTypes
  import opened Fees
  import opened Vaults
  import opened PoolSides
  import opened Quote
  import opened DepegCache
  import PoolRuns
  import SC = StableCurve
  import StableInvariant

  type Mint = nat

  /** The slot and the signed 64-bit timestamp. */
  datatype Clock = Clock(slot: u64, unixTimestamp: int)

  /** No stake accounts means that the price was refreshed before; otherwise the price that they give. */
  datatype StakeData = NoAccounts | Accounts(price: Option<u64>)

  datatype QuoteData = QuoteData(enabled: bool, activationType: nat, activationPoint: u64,
                                 tokenAMint: Mint, tokenBMint: Mint, fees: PoolFees, curve: CurveType,
                                 a: Side, b: Side, clock: Clock, stake: StakeData)

  datatype QuoteResult = QuoteResult(outAmount: u64, fee: u64)

  function CurrentPoint(data: QuoteData): Option<u64> {
    if data.activationType == 0 then Some(data.clock.slot)
    else if data.activationType == 1 then Some(AsU64(data.clock.unixTimestamp))
    else None
  }

  function RefreshedCurve(data: QuoteData): Option<CurveType> {
    match data.stake
    case NoAccounts => Some(data.curve)
    case Accounts(price) => RefreshCurve(data.curve, Tick(AsU64(data.clock.unixTimestamp), price))
  }

  /** `compute_quote` with everything it works out on the way. */
  function ComputeFill(data: QuoteData, inMint: Mint, amount: u64): Option<Fill> {
    var point :- CurrentPoint(data);
    if !data.enabled || point < data.activationPoint then None
    else
      var curve :- RefreshedCurve(data);
      var now :- Fit64(data.clock.unixTimestamp);
      if inMint == data.tokenAMint then Quote.Quote(curve, data.fees, data.a, data.b, now, amount, AToB)
      else if inMint == data.tokenBMint then Quote.Quote(curve, data.fees, data.b, data.a, now, amount, BToA)
      else None
  }

  function InSide(data: QuoteData, inMint: Mint): Side {
    if inMint == data.tokenAMint then data.a else data.b
  }

  function OutSide(data: QuoteData, inMint: Mint): Side {
    if inMint == data.tokenAMint then data.b else data.a
  }

  // ---------- exactly when a pool quotes ----------

  /** The pool is open: enabled, and past its activation point, which is a slot or a time. */
  predicate Trading(data: QuoteData) {
    && data.enabled
    && (|| (data.activationType == 0 && data.activationPoint <= data.clock.slot)
        || (data.activationType == 1 && data.activationPoint <= data.clock.unixTimestamp))
  }

  /** Stake accounts were given, and the pool's price is more than ten minutes old. */
  predicate NeedsPrice(data: QuoteData) {
    && data.stake.Accounts? && data.curve.Stable? && data.curve.depeg.depegType != NoDepeg
    && data.curve.depeg.baseCacheUpdated + 600 < data.clock.unixTimestamp
  }

  /** A needed price can be read, and the expiry time computed. */
  predicate PriceIsKnown(data: QuoteData) {
    && (NeedsPrice(data) ==> data.stake.price.Some?)
    && (data.stake.Accounts? && data.curve.Stable? && data.curve.depeg.depegType != NoDepeg ==>
          data.curve.depeg.baseCacheUpdated + 600 <= 0xFFFF_FFFF_FFFF_FFFF)
  }

  /** The curve that the pool is quoted on: with the price just read at the present time, where one is needed. */
  function CurveInUse(data: QuoteData): CurveType
    requires 0 <= data.clock.unixTimestamp <= U64_MAX && PriceIsKnown(data)
  {
    if NeedsPrice(data) then
      data.curve.(depeg := data.curve.depeg.(baseVirtualPrice := data.stake.price.value,
                                             baseCacheUpdated := data.clock.unixTimestamp))
    else data.curve
  }

  /** What `compute_quote` demands before it prices anything. */
  predicate Accepts(data: QuoteData, inMint: Mint) {
    && Trading(data) && 0 <= data.clock.unixTimestamp <= U64_MAX
    && (inMint == data.tokenAMint || inMint == data.tokenBMint) && PriceIsKnown(data)
  }

  /** The quote from the side of the input mint to the other, at the present time. */
  function SideQuote(data: QuoteData, inMint: Mint, amount: u64): Option<Fill>
    requires Accepts(data, inMint)
  {
    Quote.Quote(CurveInUse(data), data.fees, InSide(data, inMint), OutSide(data, inMint), data.clock.unixTimestamp,
                amount, if inMint == data.tokenAMint then AToB else BToA)
  }

  lemma CurveInUseIsRefreshed(data: QuoteData)
    requires 0 <= data.clock.unixTimestamp <= U64_MAX
    ensures RefreshedCurve(data) == if PriceIsKnown(data) then Some(CurveInUse(data)) else None
  {}

  lemma TradingIs(data: QuoteData)
    requires 0 <= data.clock.unixTimestamp <= U64_MAX
    ensures Trading(data)
            <==> data.enabled && CurrentPoint(data).Some? && data.activationPoint <= CurrentPoint(data).value
  {}

  lemma ComputeFillIs(data: QuoteData, inMint: Mint, amount: u64, curve: CurveType, now: u64)
    requires data.enabled && CurrentPoint(data).Some? && data.activationPoint <= CurrentPoint(data).value
    requires RefreshedCurve(data) == Some(curve) && data.clock.unixTimestamp == now
    requires inMint == data.tokenAMint || inMint == data.tokenBMint
    ensures ComputeFill(data, inMint, amount)
         == Quote.Quote(curve, data.fees, InSide(data, inMint), OutSide(data, inMint), now, amount,
                        if inMint == data.tokenAMint then AToB else BToA)
  {}

  lemma Refuses(data: QuoteData, inMint: Mint, amount: u64)
    requires !Accepts(data, inMint)
    ensures ComputeFill(data, inMint, amount).None?
  {
    if 0 <= data.clock.unixTimestamp <= U64_MAX {
      TradingIs(data);
      CurveInUseIsRefreshed(data);
    }
  }

  /** The entry point quotes exactly where it accepts and the side quote exists. */
  lemma QuotesIff(data: QuoteData, inMint: Mint, amount: u64)
    ensures ComputeFill(data, inMint, amount) == if Accepts(data, inMint) then SideQuote(data, inMint, amount) else None
  {
    if Accepts(data, inMint) {
      TradingIs(data);
      CurveInUseIsRefreshed(data);
      ComputeFillIs(data, inMint, amount, CurveInUse(data), data.clock.unixTimestamp);
    } else {
      Refuses(data, inMint, amount);
    }
  }

  // ---------- what a quote keeps when it is executed ----------

  /** The scale of the input mint's token, and of the other. */
  function InScale(curve: CurveType, data: QuoteData, inMint: Mint): SC.Scale
    requires curve.Stable?
  {
    if inMint == data.tokenAMint then SC.ScaleA(curve.multiplier, curve.depeg)
    else SC.ScaleB(curve.multiplier, curve.depeg)
  }

  function OutScale(curve: CurveType, data: QuoteData, inMint: Mint): SC.Scale
    requires curve.Stable?
  {
    if inMint == data.tokenAMint then SC.ScaleB(curve.multiplier, curve.depeg)
    else SC.ScaleA(curve.multiplier, curve.depeg)
  }

  /** The quote was executed on the sides of its mint. */
  predicate Executed(data: QuoteData, inMint: Mint, amount: u64) {
    && ComputeFill(data, inMint, amount).Some? && Accepts(data, inMint)
    && Healthy(InSide(data, inMint), data.clock.unixTimestamp)
    && Healthy(OutSide(data, inMint), data.clock.unixTimestamp)
    && PoolRuns.Settle(InSide(data, inMint), OutSide(data, inMint), data.clock.unixTimestamp,
                       ComputeFill(data, inMint, amount).value).Some?
  }

  function PoolOf(data: QuoteData): PoolRuns.Pool
    requires 0 <= data.clock.unixTimestamp <= U64_MAX && PriceIsKnown(data)
  {
    PoolRuns.Pool(CurveInUse(data), data.fees, data.a, data.b, data.clock.unixTimestamp)
  }

  /** Executing what the entry point quotes for its mint does not lower the product of a constant product pool's
      tokens. */
  lemma ExecutedKeepsProduct(data: QuoteData, inMint: Mint, amount: u64)
    requires Executed(data, inMint, amount) && data.curve.ConstantProduct?
    ensures var from, to, now := InSide(data, inMint), OutSide(data, inMint), data.clock.unixTimestamp;
            var (from', to') := PoolRuns.Settle(from, to, now, ComputeFill(data, inMint, amount).value).value;
            && Holding(from, now).Some? && Holding(to, now).Some?
            && Holding(from', now).Some? && Holding(to', now).Some?
            && Holding(from, now).value * Holding(to, now).value <= Holding(from', now).value * Holding(to', now).value
  {
    QuotesIff(data, inMint, amount);
    PoolRuns.ExchangeKeepsProduct(PoolOf(data), InSide(data, inMint), OutSide(data, inMint), amount,
                                  if inMint == data.tokenAMint then AToB else BToA);
  }

  /** Nor does it take any integer at most the exact invariant of a stable pool's tokens, each on the scale of its own
      mint, above it. */
  lemma ExecutedKeepsInvariant(data: QuoteData, inMint: Mint, amount: u64, e: int)
    requires Executed(data, inMint, amount) && data.curve.Stable? && 1 <= data.curve.amp
    requires var from, to, now := InSide(data, inMint), OutSide(data, inMint), data.clock.unixTimestamp;
             var s, d := InScale(CurveInUse(data), data, inMint), OutScale(CurveInUse(data), data, inMint);
             && Holding(from, now).Some? && Holding(to, now).Some?
             && StableInvariant.Excess(2 * data.curve.amp, s.Up(Holding(from, now).value), d.Up(Holding(to, now).value),
                                       e) <= 0
    ensures var from, to, now := InSide(data, inMint), OutSide(data, inMint), data.clock.unixTimestamp;
            var s, d := InScale(CurveInUse(data), data, inMint), OutScale(CurveInUse(data), data, inMint);
            var (from', to') := PoolRuns.Settle(from, to, now, ComputeFill(data, inMint, amount).value).value;
            && Holding(from', now).Some? && Holding(to', now).Some?
            && StableInvariant.Excess(2 * data.curve.amp, s.Up(Holding(from', now).value),
                                      d.Up(Holding(to', now).value), e) <= 0
  {
    QuotesIff(data, inMint, amount);
    PoolRuns.ExchangeKeepsExcess(PoolOf(data), InSide(data, inMint), OutSide(data, inMint), amount,
                                 if inMint == data.tokenAMint then AToB else BToA, e);
  }

  /** What a caller can rely on in a quote: the pool is trading, the output is below the reserve and the pool's own
      tokens, and every unit of the input is the protocol's fee, the quoted fee, the curve's input or rounding. */
  ghost predicate IsSound(data: QuoteData, inMint: Mint, amount: u64, entry: Entry, r: QuoteResult) {
    && data.enabled && (inMint == data.tokenAMint || inMint == data.tokenBMint)
    && 0 <= data.clock.unixTimestamp <= U64_MAX
    && var from, to, now := InSide(data, inMint), OutSide(data, inMint), data.clock.unixTimestamp;
       && r.outAmount < to.reserve
       && (Healthy(to, now) ==> Holding(to, now).Some? && r.outAmount < Holding(to, now).value)
       && r.fee == entry.split.fee
       && (Healthy(from, now) ==>
             var loss := amount - entry.split.protocolFee - r.fee - entry.curveIn;
             0 <= loss && (loss - 1) * from.lpSupply < Unlocked(from.vault, now))
  }

  /** The price in use is not older than ten minutes, where stake accounts were given to refresh it with. */
  predicate IsFresh(data: QuoteData) {
    data.stake.Accounts? && data.curve.Stable? && data.curve.depeg.depegType != NoDepeg ==>
      && RefreshedCurve(data).Some? && RefreshedCurve(data).value.Stable?
      && data.clock.unixTimestamp <= RefreshedCurve(data).value.depeg.baseCacheUpdated + 600
  }

  lemma QuoteIsSound(data: QuoteData, inMint: Mint, amount: u64)
    requires ComputeFill(data, inMint, amount).Some?
    ensures var fill := ComputeFill(data, inMint, amount).value;
            IsSound(data, inMint, amount, fill.entry, QuoteResult(fill.Out(), fill.Fee()))
  {
    var direction := if inMint == data.tokenAMint then AToB else BToA;
    SideIsSound(RefreshedCurve(data).value, data.fees, InSide(data, inMint), OutSide(data, inMint),
                data.clock.unixTimestamp, amount, direction);
  }

  lemma SideIsSound(curve: CurveType, fees: PoolFees, from: Side, to: Side, now: u64, amount: u64,
                    direction: TradeDirection)
    requires Quote.Quote(curve, fees, from, to, now, amount, direction).Some?
    ensures var fill := Quote.Quote(curve, fees, from, to, now, amount, direction).value;
            && fill.Out() < to.reserve
            && (Healthy(to, now) ==> Holding(to, now).Some? && fill.Out() < Holding(to, now).value)
            && (Healthy(from, now) ==>
                  var loss := amount - fill.entry.split.protocolFee - fill.Fee() - fill.entry.curveIn;
                  0 <= loss && (loss - 1) * from.lpSupply < Unlocked(from.vault, now))
  {
    if Healthy(to, now) { OutputIsBounded(curve, fees, from, to, now, amount, direction); }
    if Healthy(from, now) { InputIsConserved(fees, from, now, amount); }
  }

  /** `compute_quote`, statement by statement on its own copies of the accounts. */
  method Compute(data: QuoteData, inMint: Mint, amount: u64) returns (r: Option<QuoteResult>)
    ensures match ComputeFill(data, inMint, amount)
            case None => r == None
            case Some(fill) => r == Some(QuoteResult(fill.Out(), fill.Fee()))
    ensures r.Some? <==> Accepts(data, inMint) && SideQuote(data, inMint, amount).Some?
    ensures r.Some? ==>
              && r.value.outAmount == SideQuote(data, inMint, amount).value.Out()
              && r.value.fee == SideQuote(data, inMint, amount).value.Fee()
    ensures r.Some? ==>
              && ComputeFill(data, inMint, amount).Some?
              && IsSound(data, inMint, amount, ComputeFill(data, inMint, amount).value.entry, r.value) && IsFresh(data)
  {
    QuotesIff(data, inMint, amount);
    if ComputeFill(data, inMint, amount).Some? {
      QuoteIsSound(data, inMint, amount);
      QuotePriceIsFresh(data, inMint, amount);
    }
    var point := CurrentPoint(data);
    if point.None? || !data.enabled || point.value < data.activationPoint {
      return None;
    }
    var pool := new PoolAccount(data.curve);
    if data.stake.Accounts? {
      var ok := pool.UpdateBaseVirtualPrice(data.clock.unixTimestamp, data.stake.price);
      if !ok {
        return None;
      }
    }
    var time := Fit64(data.clock.unixTimestamp);
    if time.None? || (inMint != data.tokenAMint && inMint != data.tokenBMint) {
      return None;
    }
    if inMint == data.tokenAMint {
      r := ComputeSides(pool.curve, data.fees, data.a, data.b, time.value, amount, AToB);
    } else {
      r := ComputeSides(pool.curve, data.fees, data.b, data.a, time.value, amount, BToA);
    }
  }

  /** The pipeline proper: it writes the deposit into its copy of the input vault and values that. */
  method ComputeSides(curve: CurveType, fees: PoolFees, from: Side, to: Side, now: u64, amount: u64,
                      direction: TradeDirection) returns (r: Option<QuoteResult>)
    ensures match Quote.Quote(curve, fees, from, to, now, amount, direction)
            case None => r == None
            case Some(fill) => r == Some(QuoteResult(fill.Out(), fill.Fee()))
  {
    var source, destination := Holding(from, now), Holding(to, now);
    if source.None? || destination.None? {
      return None;
    }
    var entry := EnterSide(fees, from, now, amount);
    if entry.None? {
      return None;
    }
    var swapped := CurveSwap(curve, entry.value.curveIn, source.value, destination.value, direction);
    if swapped.None? || U64_MAX < swapped.value {
      return None;
    }
    var withdrawal := Withdraw(to, now, swapped.value);
    if withdrawal.None? || to.reserve <= withdrawal.value.out {
      return None;
    }
    return Some(QuoteResult(withdrawal.value.out, entry.value.split.fee));
  }

  method EnterSide(fees: PoolFees, side: Side, now: u64, amount: u64) returns (r: Option<Entry>)
    ensures r == Enter(fees, side, now, amount)
  {
    var split := SplitFee(fees, amount);
    if split.None? {
      return None;
    }
    var before := Holding(side, now);
    if before.None? {
      return None;
    }
    var inVault := side.vault;
    var minted := GetUnmintAmount(inVault, now, split.value.deposited, side.lpSupply);
    if minted.None? {
      return None;
    }
    var total := Fit64(inVault.totalAmount + split.value.deposited);
    if total.None? {
      return None;
    }
    inVault := inVault.(totalAmount := total.value);
    var share, supply := Fit64(minted.value + side.lpAmount), Fit64(side.lpSupply + minted.value);
    if share.None? || supply.None? {
      return None;
    }
    var after := GetAmountByShare(inVault, now, share.value, supply.value);
    if after.None? || after.value < before.value {
      return None;
    }
    var actualIn := after.value - before.value;
    if actualIn < split.value.fee {
      return None;
    }
    return Some(Entry(split.value, actualIn, actualIn - split.value.fee));
  }

  /** A quote that is given stake accounts never prices a depeg pool with a price older than ten minutes. */
  lemma QuotePriceIsFresh(data: QuoteData, inMint: Mint, amount: u64)
    requires ComputeFill(data, inMint, amount).Some?
    ensures IsFresh(data)
  {
    CurveInUseIsRefreshed(data);
  }
}
