/** Executing quotes against the two vaults, and what every run keeps. A swap updates the accounts as
    docs/instruction_account_analysis.md lists. */
module PoolRuns {
  import opened Arithmetic
  import opened PoolTypes
  import opened Fees
  import opened Vaults
  import opened PoolSides
  import opened Quote
  import opened DepegCache
  import CP = ConstantProductCurve
  import SC = StableCurve
  import StableInvariant

  datatype Pool = Pool(curve: CurveType, fees: PoolFees, a: Side, b: Side, now: u64) {
    predicate Healthy() {
      PoolSides.Healthy(a, now) && PoolSides.Healthy(b, now)
    }
  }

  /** A swap with the price that the stake accounts give it, the passing of time, or what another user of one of the
      two vaults does. */
  datatype Action =
    | Swap(direction: TradeDirection, amount: u64, price: Option<u64>)
    | Wait(seconds: nat)
    | Others(onA: bool, action: VaultAction)

  /** `compute_pool_tokens`. */
  function ComputePoolTokens(p: Pool): Option<(u64, u64)> {
    var a :- Holding(p.a, p.now);
    var b :- Holding(p.b, p.now);
    Some((a, b))
  }

  /** The two sides after a quote is executed; None where an account cannot hold its new balance. */
  function Settle(from: Side, to: Side, now: u64, fill: Fill): Option<(Side, Side)> {
    var from' :- Deposit(from, now, fill.entry.split.deposited);
    var reserve :- Fit64(from.reserve + fill.entry.split.deposited);
    var to' :- Burn(to, fill.withdrawal);
    Some((from'.(reserve := reserve), to'))
  }

  /** The pool once its virtual price has been refreshed, as every swap begins. */
  function Refreshed(p: Pool, price: Option<u64>): Option<Pool> {
    var curve :- RefreshCurve(p.curve, Tick(p.now, price));
    Some(p.(curve := curve))
  }

  /** The two sides after a swap at the pool's present price. */
  function Exchange(p: Pool, from: Side, to: Side, amount: u64, direction: TradeDirection): Option<(Side, Side)> {
    var fill :- Quote.Quote(p.curve, p.fees, from, to, p.now, amount, direction);
    Settle(from, to, p.now, fill)
  }

  /** The pool after an action. A swap whose refresh or quote fails changes nothing. */
  function Step(p: Pool, action: Action): Pool {
    match action
    case Wait(seconds) => if p.now + seconds <= U64_MAX then p.(now := p.now + seconds) else p
    case Others(true, act) =>
      (match OthersAct(p.a, p.now, act)
       case None => p
       case Some(a) => p.(a := a))
    case Others(false, act) =>
      (match OthersAct(p.b, p.now, act)
       case None => p
       case Some(b) => p.(b := b))
    case Swap(direction, amount, price) =>
      (match Refreshed(p, price)
       case None => p
       case Some(q) => (match ExecuteSwap(q, direction, amount) case None => p case Some(p') => p'))
  }

  /** A swap at the pool's present price. */
  function ExecuteSwap(p: Pool, direction: TradeDirection, amount: u64): Option<Pool> {
    match direction
    case AToB =>
      var (a, b) :- Exchange(p, p.a, p.b, amount, AToB);
      Some(p.(a := a, b := b))
    case BToA =>
      var (b, a) :- Exchange(p, p.b, p.a, amount, BToA);
      Some(p.(a := a, b := b))
  }

  function Run(p: Pool, actions: seq<Action>): Pool
    decreases |actions|
  {
    if actions == [] then p else Run(Step(p, actions[0]), actions[1..])
  }

  // ---------- one exchange ----------

  /** The only way for a quote that succeeds not to settle is an input reserve past u64. */
  lemma QuoteSettles(curve: CurveType, fees: PoolFees, from: Side, to: Side, now: u64, amount: u64,
                     direction: TradeDirection)
    requires Healthy(from, now) && Healthy(to, now) && Quote.Quote(curve, fees, from, to, now, amount, direction).Some?
    ensures var fill := Quote.Quote(curve, fees, from, to, now, amount, direction).value;
            Settle(from, to, now, fill).Some? <==> from.reserve + fill.entry.split.deposited <= U64_MAX
  {
    var fill := Quote.Quote(curve, fees, from, to, now, amount, direction).value;
    OutputIsBounded(curve, fees, from, to, now, amount, direction);
    WithdrawalBounds(to, now, fill.curveOut);
  }

  /** Every account of the two sides after a swap that took `deposited` and paid `paid`. */
  ghost predicate Moved(from: Side, to: Side, from': Side, to': Side, deposited: int, paid: int) {
    && from'.vault.totalAmount == from.vault.totalAmount + deposited && from'.reserve == from.reserve + deposited
    && to'.vault.totalAmount == to.vault.totalAmount - paid && to'.reserve == to.reserve - paid
    && from.lpAmount <= from'.lpAmount && from'.lpAmount - from.lpAmount == from'.lpSupply - from.lpSupply
    && to'.lpAmount <= to.lpAmount && to.lpAmount - to'.lpAmount == to.lpSupply - to'.lpSupply
    && from'.vault.tracker == from.vault.tracker && to'.vault.tracker == to.vault.tracker
  }

  /** The shares minted for the deposit and the tokens paid for the shares burned are floors at the price before. */
  ghost predicate AtPrice(from: Side, to: Side, from': Side, to': Side, now: u64, deposited: int, paid: int) {
    && Healthy(from, now) && Healthy(to, now)
    && var minted, burned := from'.lpSupply - from.lpSupply, to.lpSupply - to'.lpSupply;
       var totalIn, totalOut := Unlocked(from.vault, now), Unlocked(to.vault, now);
       && minted * totalIn <= deposited * from.lpSupply < (minted + 1) * totalIn
       && paid * to.lpSupply <= burned * totalOut < (paid + 1) * to.lpSupply
  }

  lemma DepositIsExact(from: Side, now: u64, x: u64)
    requires Healthy(from, now) && Deposit(from, now, x).Some?
    ensures var from', total := Deposit(from, now, x).value, Unlocked(from.vault, now);
            var minted := from'.lpSupply - from.lpSupply;
            && from'.vault == from.vault.(totalAmount := from.vault.totalAmount + x) && from'.reserve == from.reserve
            && 0 <= minted && from'.lpAmount == from.lpAmount + minted
            && minted * total <= x * from.lpSupply < (minted + 1) * total
  {
    DepositShape(from, now, x);
  }

  lemma WithdrawalIsExact(to: Side, now: u64, w: u64)
    requires Healthy(to, now) && Holding(to, now).Some? && w < Holding(to, now).value && Withdraw(to, now, w).Some?
    ensures var withdrawal, total := Withdraw(to, now, w).value, Unlocked(to.vault, now);
            withdrawal.out * to.lpSupply <= withdrawal.burned * total < (withdrawal.out + 1) * to.lpSupply
  {
    HoldingIsValue(to, now);
    WithdrawShape(to, now, w);
    ValueBounds(Withdraw(to, now, w).value.burned, Unlocked(to.vault, now), to.lpSupply);
  }

  lemma BurnIsExact(to: Side, withdrawal: Withdrawal)
    requires Burn(to, withdrawal).Some?
    ensures var to' := Burn(to, withdrawal).value;
            && to'.vault == to.vault.(totalAmount := to.vault.totalAmount - withdrawal.out)
            && to'.reserve == to.reserve - withdrawal.out
            && to'.lpAmount == to.lpAmount - withdrawal.burned && to'.lpSupply == to.lpSupply - withdrawal.burned
  {}

  lemma SettledSides(from: Side, to: Side, now: u64, fill: Fill)
    requires Healthy(from, now) && Healthy(to, now) && Settle(from, to, now, fill).Some?
    requires Holding(to, now).Some? && fill.curveOut < Holding(to, now).value
    requires Withdraw(to, now, fill.curveOut) == Some(fill.withdrawal)
    ensures var (from', to') := Settle(from, to, now, fill).value;
            && Moved(from, to, from', to', fill.entry.split.deposited, fill.Out())
            && AtPrice(from, to, from', to', now, fill.entry.split.deposited, fill.Out())
  {
    DepositIsExact(from, now, fill.entry.split.deposited);
    WithdrawalIsExact(to, now, fill.curveOut);
    BurnIsExact(to, fill.withdrawal);
  }

  lemma SettleIsExact(curve: CurveType, fees: PoolFees, from: Side, to: Side, now: u64, amount: u64,
                      direction: TradeDirection)
    requires Healthy(from, now) && Healthy(to, now) && Quote.Quote(curve, fees, from, to, now, amount, direction).Some?
    requires Settle(from, to, now, Quote.Quote(curve, fees, from, to, now, amount, direction).value).Some?
    ensures var fill := Quote.Quote(curve, fees, from, to, now, amount, direction).value;
            var (from', to') := Settle(from, to, now, fill).value;
            && Moved(from, to, from', to', fill.entry.split.deposited, fill.Out())
            && AtPrice(from, to, from', to', now, fill.entry.split.deposited, fill.Out())
  {
    QuoteStages(curve, fees, from, to, now, amount, direction);
    OutputIsBounded(curve, fees, from, to, now, amount, direction);
    SettledSides(from, to, now, Quote.Quote(curve, fees, from, to, now, amount, direction).value);
  }

  /** An executed quote leaves both sides healthy; in the pool's tokens, the input side gained at least what the
      curve was given and at most what was deposited, and the output side lost at most what the curve gave and at least
      what was paid. */
  lemma SettleMoves(curve: CurveType, fees: PoolFees, from: Side, to: Side, now: u64, amount: u64,
                    direction: TradeDirection)
    requires Healthy(from, now) && Healthy(to, now) && Quote.Quote(curve, fees, from, to, now, amount, direction).Some?
    requires Settle(from, to, now, Quote.Quote(curve, fees, from, to, now, amount, direction).value).Some?
    ensures var fill := Quote.Quote(curve, fees, from, to, now, amount, direction).value;
            var (from', to') := Settle(from, to, now, fill).value;
            && Healthy(from', now) && Healthy(to', now)
            && Holding(from, now).Some? && Holding(to, now).Some?
            && Holding(from', now).Some? && Holding(to', now).Some?
            && Holding(from, now).value + fill.entry.curveIn <= Holding(from', now).value
            && Holding(from', now).value <= Holding(from, now).value + fill.entry.split.deposited
            && Holding(to', now).value <= Holding(to, now).value - fill.Out()
            && fill.curveOut < Holding(to, now).value
            && Holding(to, now).value - fill.curveOut <= Holding(to', now).value
            && CurveSwap(curve, fill.entry.curveIn, Holding(from, now).value, Holding(to, now).value, direction)
               == Some(fill.curveOut)
  {
    var fill := Quote.Quote(curve, fees, from, to, now, amount, direction).value;
    DepositBounds(from, now, fill.entry.split.deposited);
    OutputIsBounded(curve, fees, from, to, now, amount, direction);
    WithdrawalBounds(to, now, fill.curveOut);
  }

  // ---------- constant product ----------

  lemma CurveKeepsProduct(amount: u64, source: u64, destination: u64, direction: TradeDirection, source': int,
                          destination': int)
    requires CurveSwap(ConstantProduct, amount, source, destination, direction).Some?
    requires var out := CurveSwap(ConstantProduct, amount, source, destination, direction).value;
             source + amount <= source' && destination - out <= destination'
    ensures source * destination <= source' * destination'
  {
    var out := CurveSwap(ConstantProduct, amount, source, destination, direction).value;
    CP.SwapMatchesQuote(amount, source, destination);
    CP.OutAmountKeepsProduct(amount, source, destination);
    StableInvariant.ProductMonotone(source + amount, destination - out, source', destination');
  }

  /** The product of the pool's two token amounts. */
  function TokenProduct(p: Pool): nat
    requires ComputePoolTokens(p).Some?
  {
    var (a, b) := ComputePoolTokens(p).value;
    MulNonNegative(a, b);
    a * b
  }

  lemma HealthyHasTokens(p: Pool)
    requires p.Healthy()
    ensures ComputePoolTokens(p).Some?
  {
    HoldingIsValue(p.a, p.now);
    HoldingIsValue(p.b, p.now);
  }

  lemma ExchangeKeepsProduct(p: Pool, from: Side, to: Side, amount: u64, direction: TradeDirection)
    requires p.curve == ConstantProduct && Healthy(from, p.now) && Healthy(to, p.now)
    requires Exchange(p, from, to, amount, direction).Some?
    ensures var (from', to') := Exchange(p, from, to, amount, direction).value;
            && Healthy(from', p.now) && Healthy(to', p.now)
            && Holding(from, p.now).Some? && Holding(to, p.now).Some?
            && Holding(from', p.now).Some? && Holding(to', p.now).Some?
            && Holding(from, p.now).value * Holding(to, p.now).value
               <= Holding(from', p.now).value * Holding(to', p.now).value
  {
    var fill := Quote.Quote(p.curve, p.fees, from, to, p.now, amount, direction).value;
    var (from', to') := Exchange(p, from, to, amount, direction).value;
    SettleMoves(p.curve, p.fees, from, to, p.now, amount, direction);
    CurveKeepsProduct(fill.entry.curveIn, Holding(from, p.now).value, Holding(to, p.now).value, direction,
                      Holding(from', p.now).value, Holding(to', p.now).value);
  }

  /** Waiting moves the clock by its seconds, unless that is past u64; other users change only the side they act on. */
  lemma OutsideIsExact(p: Pool, action: Action)
    requires !action.Swap?
    ensures match action
            case Wait(seconds) =>
              Step(p, action) == if p.now + seconds <= U64_MAX then p.(now := p.now + seconds) else p
            case Others(onA, act) =>
              var acted := OthersAct(if onA then p.a else p.b, p.now, act);
              Step(p, action) == if acted.None? then p else if onA then p.(a := acted.value) else p.(b := acted.value)
  {}

  /** Time and the other users of the vaults leave the pool with no fewer tokens on either side. */
  lemma OutsideKeepsTokens(p: Pool, action: Action)
    requires p.Healthy() && !action.Swap?
    ensures var p' := Step(p, action);
            && p'.curve == p.curve && p'.Healthy()
            && ComputePoolTokens(p).Some? && ComputePoolTokens(p').Some?
            && ComputePoolTokens(p).value.0 <= ComputePoolTokens(p').value.0
            && ComputePoolTokens(p).value.1 <= ComputePoolTokens(p').value.1
  {
    HealthyHasTokens(p);
    match action
    case Wait(seconds) =>
      if p.now + seconds <= U64_MAX {
        WaitingKeeps(p.a, p.now, p.now + seconds);
        WaitingKeeps(p.b, p.now, p.now + seconds);
      }
    case Others(true, act) =>
      if OthersAct(p.a, p.now, act).Some? { OthersKeepTokens(p.a, p.now, act); }
    case Others(false, act) =>
      if OthersAct(p.b, p.now, act).Some? { OthersKeepTokens(p.b, p.now, act); }
  }

  lemma SwapKeepsProduct(p: Pool, direction: TradeDirection, amount: u64)
    requires p.curve == ConstantProduct && p.Healthy() && ExecuteSwap(p, direction, amount).Some?
    ensures var p' := ExecuteSwap(p, direction, amount).value;
            && p'.curve == ConstantProduct && p'.Healthy()
            && ComputePoolTokens(p).Some? && ComputePoolTokens(p').Some?
            && TokenProduct(p) <= TokenProduct(p')
  {
    HealthyHasTokens(p);
    match direction
    case AToB => ExchangeKeepsProduct(p, p.a, p.b, amount, AToB);
    case BToA =>
      var p' := ExecuteSwap(p, BToA, amount).value;
      ExchangeKeepsProduct(p, p.b, p.a, amount, BToA);
      CP.Commutes(Holding(p.b, p.now).value, Holding(p.a, p.now).value);
      CP.Commutes(Holding(p'.b, p.now).value, Holding(p'.a, p.now).value);
  }

  /** One action keeps a constant product pool healthy and does not lower its product. */
  lemma StepKeepsProduct(p: Pool, action: Action)
    requires p.curve == ConstantProduct && p.Healthy()
    ensures var p' := Step(p, action);
            && p'.curve == ConstantProduct && p'.Healthy()
            && ComputePoolTokens(p).Some? && ComputePoolTokens(p').Some?
            && TokenProduct(p) <= TokenProduct(p')
  {
    HealthyHasTokens(p);
    match action
    case Swap(direction, amount, price) =>
      assert Refreshed(p, price) == Some(p);
      if ExecuteSwap(p, direction, amount).Some? { SwapKeepsProduct(p, direction, amount); }
    case _ =>
      var p' := Step(p, action);
      OutsideKeepsTokens(p, action);
      StableInvariant.ProductMonotone(ComputePoolTokens(p).value.0, ComputePoolTokens(p).value.1,
                                      ComputePoolTokens(p').value.0, ComputePoolTokens(p').value.1);
  }

  /** Over any run of swaps in either direction, of waiting and of other vault users' actions, with fees, deposits,
      share prices, the curve and share burns all rounding, the product of the pool's tokens never falls. */
  lemma {:induction false} RunKeepsProduct(p: Pool, actions: seq<Action>)
    requires p.curve == ConstantProduct && p.Healthy()
    ensures var p' := Run(p, actions);
            && p'.Healthy()
            && ComputePoolTokens(p).Some? && ComputePoolTokens(p').Some?
            && TokenProduct(p) <= TokenProduct(p')
    decreases |actions|
  {
    HealthyHasTokens(p);
    if actions != [] {
      StepKeepsProduct(p, actions[0]);
      RunKeepsProduct(Step(p, actions[0]), actions[1..]);
    }
  }

  // ---------- stable ----------

  /** The integer e is at most the exact invariant of the pool's tokens, scaled as the curve scales them. */
  predicate InvariantAtLeast(p: Pool, e: int) {
    && p.curve.Stable? && ComputePoolTokens(p).Some?
    && var (a, b) := ComputePoolTokens(p).value;
       SC.InvariantAtLeast(StableOf(p.curve), Reserves(a, b), e)
  }

  function StableOf(curve: CurveType): SC.Curve
    requires curve.Stable?
  {
    SC.Curve(curve.amp, SC.ScaleA(curve.multiplier, curve.depeg), SC.ScaleB(curve.multiplier, curve.depeg))
  }

  lemma LargerReservesKeepExcess(ann: int, s: SC.Scale, d: SC.Scale, x: nat, y: nat, x': nat, y': nat, e: int)
    requires 1 <= ann && x <= x' && y <= y' && StableInvariant.Excess(ann, s.Up(x), d.Up(y), e) <= 0
    ensures StableInvariant.Excess(ann, s.Up(x'), d.Up(y'), e) <= 0
  {
    SC.UpMonotone(s, x, x');
    SC.UpMonotone(d, y, y');
    StableInvariant.ExcessShrinksWithBalances(ann, s.Up(x), d.Up(y), s.Up(x'), d.Up(y'), e);
  }

  lemma CurveKeepsExcess(amp: nat, s: SC.Scale, d: SC.Scale, amount: u64, source: u64, destination: u64,
                         source': nat, destination': nat, e: int)
    requires StableSwap(amp, s, d, amount, source, destination).Some?
    requires source + amount <= source'
    requires destination - StableSwap(amp, s, d, amount, source, destination).value <= destination'
    requires StableInvariant.Excess(2 * amp, s.Up(source), d.Up(destination), e) <= 0
    ensures StableInvariant.Excess(2 * amp, s.Up(source'), d.Up(destination'), e) <= 0
  {
    var out := StableSwap(amp, s, d, amount, source, destination).value;
    StableSwapIsQuote(amp, s, d, amount, source, destination);
    SC.SwapKeepsExcess(amp, s, d, amount, source, destination, e);
    LargerReservesKeepExcess(2 * amp, s, d, source + amount, destination - out, source', destination', e);
  }

  lemma ExchangeKeepsExcess(p: Pool, from: Side, to: Side, amount: u64, direction: TradeDirection, e: int)
    requires p.curve.Stable? && Healthy(from, p.now) && Healthy(to, p.now)
    requires Exchange(p, from, to, amount, direction).Some?
    requires Holding(from, p.now).Some? && Holding(to, p.now).Some?
    requires StableInvariant.Excess(2 * p.curve.amp, SourceScale(p.curve, direction).Up(Holding(from, p.now).value),
                                    DestinationScale(p.curve, direction).Up(Holding(to, p.now).value), e) <= 0
    ensures var (from', to') := Exchange(p, from, to, amount, direction).value;
            && Healthy(from', p.now) && Healthy(to', p.now)
            && Holding(from', p.now).Some? && Holding(to', p.now).Some?
            && StableInvariant.Excess(2 * p.curve.amp, SourceScale(p.curve, direction).Up(Holding(from', p.now).value),
                                      DestinationScale(p.curve, direction).Up(Holding(to', p.now).value), e) <= 0
  {
    var fill := Quote.Quote(p.curve, p.fees, from, to, p.now, amount, direction).value;
    var (from', to') := Exchange(p, from, to, amount, direction).value;
    SettleMoves(p.curve, p.fees, from, to, p.now, amount, direction);
    CurveKeepsExcess(p.curve.amp, SourceScale(p.curve, direction), DestinationScale(p.curve, direction),
                     fill.entry.curveIn, Holding(from, p.now).value, Holding(to, p.now).value,
                     Holding(from', p.now).value, Holding(to', p.now).value, e);
  }

  /** A trade at the present price keeps every integer at most the exact invariant at that price. */
  lemma SwapKeepsInvariant(p: Pool, direction: TradeDirection, amount: u64, e: int)
    requires p.curve.Stable? && 1 <= p.curve.amp && p.Healthy() && InvariantAtLeast(p, e)
    requires ExecuteSwap(p, direction, amount).Some?
    ensures var p' := ExecuteSwap(p, direction, amount).value;
            p'.curve == p.curve && p'.Healthy() && InvariantAtLeast(p', e)
  {
    HealthyHasTokens(p);
    match direction
    case AToB => ExchangeKeepsExcess(p, p.a, p.b, amount, AToB, e);
    case BToA =>
      var ann, scaleA, scaleB := 2 * p.curve.amp, StableOf(p.curve).scaleA, StableOf(p.curve).scaleB;
      SC.ExcessSymmetric(ann, scaleA.Up(Holding(p.a, p.now).value), scaleB.Up(Holding(p.b, p.now).value), e);
      ExchangeKeepsExcess(p, p.b, p.a, amount, BToA, e);
      var p' := ExecuteSwap(p, BToA, amount).value;
      SC.ExcessSymmetric(ann, scaleB.Up(Holding(p'.b, p.now).value), scaleA.Up(Holding(p'.a, p.now).value), e);
  }

  /** The refresh of this swap, if it has one, does not lower the virtual price. */
  predicate PriceHolds(p: Pool, action: Action) {
    action.Swap? && p.curve.Stable? && Refreshed(p, action.price).Some? ==>
      p.curve.depeg.baseVirtualPrice <= Refreshed(p, action.price).value.curve.depeg.baseVirtualPrice
  }

  predicate PricesHold(p: Pool, actions: seq<Action>)
    decreases |actions|
  {
    actions == [] || (PriceHolds(p, actions[0]) && PricesHold(Step(p, actions[0]), actions[1..]))
  }

  lemma HigherPriceScales(s: SC.Scale, price: nat, amount: nat)
    requires s.price <= price
    ensures s.Up(amount) <= s.(price := price).Up(amount)
  {
    MulNonNegative(amount, s.multiplier);
    MulLe(s.price, price, amount * s.multiplier);
  }

  /** A price that does not fall makes token B worth no less, and so keeps every integer too. */
  lemma RefreshKeepsInvariant(p: Pool, price: Option<u64>, e: int)
    requires p.curve.Stable? && 1 <= p.curve.amp && InvariantAtLeast(p, e) && Refreshed(p, price).Some?
    requires p.curve.depeg.baseVirtualPrice <= Refreshed(p, price).value.curve.depeg.baseVirtualPrice
    ensures InvariantAtLeast(Refreshed(p, price).value, e)
  {
    var q := Refreshed(p, price).value;
    var (a, b) := ComputePoolTokens(p).value;
    var scaleA, scaleB := StableOf(p.curve).scaleA, StableOf(p.curve).scaleB;
    HigherPriceScales(scaleB, q.curve.depeg.baseVirtualPrice, b);
    StableInvariant.ExcessShrinksWithBalances(2 * p.curve.amp, scaleA.Up(a), scaleB.Up(b),
                                              scaleA.Up(a), StableOf(q.curve).scaleB.Up(b), e);
  }

  /** One action at a virtual price that does not fall. */
  lemma StepKeepsInvariant(p: Pool, action: Action, e: int)
    requires p.curve.Stable? && 1 <= p.curve.amp && p.Healthy() && InvariantAtLeast(p, e) && PriceHolds(p, action)
    ensures var p' := Step(p, action);
            p'.curve.Stable? && p'.curve.amp == p.curve.amp && p'.Healthy() && InvariantAtLeast(p', e)
  {
    HealthyHasTokens(p);
    match action
    case Swap(direction, amount, price) =>
      if Refreshed(p, price).Some? {
        var q := Refreshed(p, price).value;
        RefreshKeepsInvariant(p, price, e);
        if ExecuteSwap(q, direction, amount).Some? { SwapKeepsInvariant(q, direction, amount, e); }
      }
    case _ =>
      var p' := Step(p, action);
      OutsideKeepsTokens(p, action);
      LargerReservesKeepExcess(2 * p.curve.amp, StableOf(p.curve).scaleA, StableOf(p.curve).scaleB,
                               ComputePoolTokens(p).value.0, ComputePoolTokens(p).value.1,
                               ComputePoolTokens(p').value.0, ComputePoolTokens(p').value.1, e);
  }

  /** Over any run of swaps, waiting and other users' actions along which no refresh lowers the virtual price, every
      integer at most the exact stable invariant of the pool's tokens stays at most it. */
  lemma {:induction false} RunKeepsInvariant(p: Pool, actions: seq<Action>, e: int)
    requires p.curve.Stable? && 1 <= p.curve.amp && p.Healthy() && InvariantAtLeast(p, e) && PricesHold(p, actions)
    ensures Run(p, actions).Healthy() && InvariantAtLeast(Run(p, actions), e)
    decreases |actions|
  {
    if actions != [] {
      StepKeepsInvariant(p, actions[0], e);
      RunKeepsInvariant(Step(p, actions[0]), actions[1..], e);
    }
  }

  /** A refresh that lowers the price can take the invariant down: with 2 of token A and 1 of token B, at amp 1, from
      4 million at a price of two to less at a price of one. */
  lemma LowerPriceLoses()
    ensures var reserves, e := Reserves(2, 1), 4_000_000;
            var at := (price: u64) => SC.Curve(1, SC.Scale(1, true, PRECISION), SC.Scale(1, true, price));
            SC.InvariantAtLeast(at(2_000_000), reserves, e) && !SC.InvariantAtLeast(at(1_000_000), reserves, e)
  {}

  // ---------- the accounts ----------

  /** The side that a trade takes its input on, and the side that it pays from. */
  function SidesOf(p: Pool, direction: TradeDirection): (Side, Side) {
    if direction == AToB then (p.a, p.b) else (p.b, p.a)
  }

  function WithSides(p: Pool, direction: TradeDirection, sides: (Side, Side)): Pool {
    if direction == AToB then p.(a := sides.0, b := sides.1) else p.(a := sides.1, b := sides.0)
  }

  /** What a swap pays: nothing unless the price can be refreshed, the quote at the refreshed price succeeds, and the
      input reserve can hold the deposit. */
  function PaidBySwap(p: Pool, direction: TradeDirection, amount: u64, price: Option<u64>): Option<u64> {
    var curve :- RefreshCurve(p.curve, Tick(p.now, price));
    var (from, to) := SidesOf(p, direction);
    var fill :- Quote.Quote(curve, p.fees, from, to, p.now, amount, direction);
    if from.reserve + fill.entry.split.deposited <= 0xFFFF_FFFF_FFFF_FFFF then Some(fill.Out()) else None
  }

  lemma StepOfSwap(p: Pool, direction: TradeDirection, amount: u64, price: Option<u64>)
    ensures Step(p, Action.Swap(direction, amount, price)) ==
            match Refreshed(p, price)
            case None => p
            case Some(q) =>
              (match Exchange(q, SidesOf(q, direction).0, SidesOf(q, direction).1, amount, direction)
               case None => p
               case Some(sides) => WithSides(q, direction, sides))
  {}

  /** What an executed quote did to every account and to the pool's tokens. */
  ghost predicate SidesMove(from: Side, to: Side, from': Side, to': Side, now: u64, deposited: int, paid: int) {
    && Moved(from, to, from', to', deposited, paid) && AtPrice(from, to, from', to', now, deposited, paid)
    && Holding(from, now).Some? && Holding(from', now).Some? && Holding(to, now).Some? && Holding(to', now).Some?
    && Holding(from, now).value <= Holding(from', now).value <= Holding(from, now).value + deposited
    && Holding(to', now).value <= Holding(to, now).value - paid
  }

  /** What a paid swap did, to the price record too. */
  ghost predicate SwapMoves(p: Pool, p': Pool, direction: TradeDirection, amount: u64, price: Option<u64>, paid: u64) {
    && RefreshesAt(p.curve, p.now, price, Some(p'.curve)) && p'.fees == p.fees && p'.now == p.now
    && SplitFee(p.fees, amount).Some?
    && SidesMove(SidesOf(p, direction).0, SidesOf(p, direction).1, SidesOf(p', direction).0, SidesOf(p', direction).1,
                 p.now, SplitFee(p.fees, amount).value.deposited, paid)
  }

  lemma ExchangeEffect(p: Pool, from: Side, to: Side, amount: u64, direction: TradeDirection)
    requires Healthy(from, p.now) && Healthy(to, p.now)
    requires Quote.Quote(p.curve, p.fees, from, to, p.now, amount, direction).Some?
    ensures var fill := Quote.Quote(p.curve, p.fees, from, to, p.now, amount, direction).value;
            var deposited := fill.entry.split.deposited;
            && SplitFee(p.fees, amount) == Some(fill.entry.split)
            && (Exchange(p, from, to, amount, direction).Some? <==> from.reserve + deposited <= U64_MAX)
            && (Exchange(p, from, to, amount, direction).Some? ==>
                  var (from', to') := Exchange(p, from, to, amount, direction).value;
                  && Healthy(from', p.now) && Healthy(to', p.now)
                  && SidesMove(from, to, from', to', p.now, deposited, fill.Out()))
  {
    QuoteStages(p.curve, p.fees, from, to, p.now, amount, direction);
    QuoteSettles(p.curve, p.fees, from, to, p.now, amount, direction);
    if Exchange(p, from, to, amount, direction).Some? {
      SettleIsExact(p.curve, p.fees, from, to, p.now, amount, direction);
      SettleMoves(p.curve, p.fees, from, to, p.now, amount, direction);
    }
  }

  /** A swap has its whole effect when it pays, and none otherwise. */
  lemma SwapEffect(p: Pool, direction: TradeDirection, amount: u64, price: Option<u64>)
    requires p.Healthy()
    ensures var p', paid := Step(p, Action.Swap(direction, amount, price)), PaidBySwap(p, direction, amount, price);
            p'.Healthy() && if paid.Some? then SwapMoves(p, p', direction, amount, price, paid.value) else p' == p
  {
    StepOfSwap(p, direction, amount, price);
    RefreshCurveNow(p.curve, p.now, price);
    var (from, to) := SidesOf(p, direction);
    if Refreshed(p, price).Some? {
      var q := Refreshed(p, price).value;
      if Quote.Quote(q.curve, q.fees, from, to, q.now, amount, direction).Some? {
        ExchangeEffect(q, from, to, amount, direction);
      }
    }
  }

  /** The accounts that a swap instruction writes. */
  class PoolAccounts {
    var curve: CurveType
    const fees: PoolFees
    var a: Side
    var b: Side
    var now: u64

    constructor (pool: Pool)
      ensures State() == pool
    {
      curve, fees, a, b, now := pool.curve, pool.fees, pool.a, pool.b, pool.now;
    }

    ghost function State(): Pool
      reads this
    {
      Pool(curve, fees, a, b, now)
    }

    /** The refresh of the virtual price, the quote and the account updates; a failure of any of them changes
        nothing. */
    method Swap(direction: TradeDirection, amount: u64, price: Option<u64>) returns (paid: Option<u64>)
      requires State().Healthy()
      modifies this
      ensures State() == Step(old(State()), Action.Swap(direction, amount, price)) && State().Healthy()
      ensures paid.None? ==> State() == old(State())
      ensures now == old(now)
      ensures paid == PaidBySwap(old(State()), direction, amount, price)
      ensures paid.Some? ==> SwapMoves(old(State()), State(), direction, amount, price, paid.value)
    {
      ghost var before := State();
      SwapEffect(before, direction, amount, price);
      StepOfSwap(before, direction, amount, price);
      var refreshed := RefreshCurve(curve, Tick(now, price));
      if refreshed.None? {
        return None;
      }
      var from, to := a, b;
      if direction == BToA {
        from, to := b, a;
      }
      var quote := Quote.Quote(refreshed.value, fees, from, to, now, amount, direction);
      if quote.None? {
        return None;
      }
      QuoteSettles(refreshed.value, fees, from, to, now, amount, direction);
      var settled := SettleSides(from, to, now, quote.value);
      if settled.None? {
        return None;
      }
      curve := refreshed.value;
      if direction == AToB {
        a, b := settled.value.0, settled.value.1;
      } else {
        b, a := settled.value.0, settled.value.1;
      }
      return Some(quote.value.Out());
    }
  }

  /** The updates of the two vaults, their shares and their tokens. */
  method SettleSides(from: Side, to: Side, now: u64, fill: Fill) returns (r: Option<(Side, Side)>)
    ensures r == Settle(from, to, now, fill)
    ensures r.Some? ==> r.value.1.reserve == to.reserve - fill.Out()
    ensures r.Some? ==> r.value.0.reserve == from.reserve + fill.entry.split.deposited
  {
    var deposited := Deposit(from, now, fill.entry.split.deposited);
    var reserve := Fit64(from.reserve + fill.entry.split.deposited);
    var burned := Burn(to, fill.withdrawal);
    if deposited.None? || reserve.None? || burned.None? {
      return None;
    }
    return Some((deposited.value.(reserve := reserve.value), burned.value));
  }

  lemma StepStaysHealthy(p: Pool, action: Action)
    requires p.Healthy()
    ensures Step(p, action).Healthy()
  {
    match action
    case Swap(direction, amount, price) =>
      if Refreshed(p, price).Some? {
        var q := Refreshed(p, price).value;
        if ExecuteSwap(q, direction, amount).Some? {
          var from, to := if direction == AToB then q.a else q.b, if direction == AToB then q.b else q.a;
          SettleMoves(q.curve, q.fees, from, to, q.now, amount, direction);
        }
      }
    case _ =>
      OutsideKeepsTokens(p, action);
  }
}
