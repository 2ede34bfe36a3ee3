/** Trading fees: programs/dynamic-amm/src/state.rs and their TypeScript twins in
    ts-client/src/amm/utils.ts. */
module Fees {
  import opened Arithmetic

  datatype PoolFees = PoolFees(tradeNumerator: u64, tradeDenominator: u64,
                               protocolNumerator: u64, protocolDenominator: u64) {
    /** Both rates are at most one. */
    predicate Sound() {
      tradeNumerator <= tradeDenominator && protocolNumerator <= protocolDenominator
    }
  }

  /** `calculate_fee`: the floor of the exact fee, but at least one token when a fee is due. */
  function CalculateFee(amount: nat, numerator: u64, denominator: u64): Option<nat> {
    if numerator == 0 || amount == 0 then Some(0)
    else
      var product :- Fit128(amount * numerator);
      if denominator == 0 then None
      else
        FloorBounds(product, denominator);
        Some(if product / denominator == 0 then 1 else product / denominator)
  }

  function TradingFee(fees: PoolFees, amount: nat): Option<nat> {
    CalculateFee(amount, fees.tradeNumerator, fees.tradeDenominator)
  }

  function ProtocolTradingFee(fees: PoolFees, amount: nat): Option<nat> {
    CalculateFee(amount, fees.protocolNumerator, fees.protocolDenominator)
  }

  /** The rule of at least one token raised this fee. */
  predicate MinimumApplies(amount: nat, numerator: u64, denominator: u64) {
    0 < numerator && 0 < amount && amount * numerator < denominator
  }

  /** Despite the minimum of one, a fee at a rate of at most one never exceeds its amount. */
  lemma FeeAtMostAmount(amount: nat, numerator: u64, denominator: u64)
    requires numerator <= denominator && CalculateFee(amount, numerator, denominator).Some?
    ensures CalculateFee(amount, numerator, denominator).value <= amount
  {
    if 0 < numerator && 0 < amount {
      MulLe(numerator, denominator, amount);
      FloorBelow(amount * numerator, denominator, amount + 1);
    }
  }

  /** The protocol fee is a cut of the trade fee, and the trade fee of the input. */
  lemma FeesNest(fees: PoolFees, amount: nat)
    requires fees.Sound() && TradingFee(fees, amount).Some?
    requires ProtocolTradingFee(fees, TradingFee(fees, amount).value).Some?
    ensures ProtocolTradingFee(fees, TradingFee(fees, amount).value).value <= TradingFee(fees, amount).value <= amount
  {
    FeeAtMostAmount(amount, fees.tradeNumerator, fees.tradeDenominator);
    FeeAtMostAmount(TradingFee(fees, amount).value, fees.protocolNumerator, fees.protocolDenominator);
  }

  /** `calculateTradingFee` and `calculateProtocolTradingFee`: the floor, with no minimum. */
  function TsFee(amount: int, numerator: u64, denominator: u64): Outcome<int> {
    BnDiv(amount * numerator, denominator)
  }

  /** With a usable denominator, the two clients charge the same fee exactly when the minimum of one
      did not apply. */
  lemma FeesAgreeIff(amount: nat, numerator: u64, denominator: u64)
    requires 0 < denominator && CalculateFee(amount, numerator, denominator).Some?
    ensures TsFee(amount, numerator, denominator) == Returns(CalculateFee(amount, numerator, denominator).value)
            <==> !MinimumApplies(amount, numerator, denominator)
  {
    var n := amount * numerator;
    if 0 < numerator && 0 < amount {
      MulLt(0, amount, numerator);
      if n < denominator {
        FloorBelow(n, denominator, 1);
      } else {
        FloorAtLeast(n, denominator, 1);
      }
      FloorBounds(n, denominator);
    }
  }
}
