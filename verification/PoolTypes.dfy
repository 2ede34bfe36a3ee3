/** The pool account fields that pricing reads: programs/dynamic-amm/src/state.rs. */
module PoolTypes {
  import opened Arithmetic

  /** Precision of the base virtual price, and the seconds a cached price stays valid. */
  const PRECISION: nat := 1_000_000
  const BASE_CACHE_EXPIRES: nat := 600

  datatype DepegType = NoDepeg | Marinade | Lido | SplStake

  datatype Depeg = Depeg(baseVirtualPrice: u64, baseCacheUpdated: u64, depegType: DepegType)

  datatype TokenMultiplier = TokenMultiplier(tokenA: u64, tokenB: u64)

  datatype CurveType =
    | ConstantProduct
    | Stable(amp: u64, multiplier: TokenMultiplier, depeg: Depeg)

  datatype TradeDirection = AToB | BToA

  datatype Reserves = Reserves(a: nat, b: nat)

  datatype Trade = Trade(amount: nat, direction: TradeDirection)
}
