/** The ten-minute cache of the base virtual price: `update_base_virtual_price` in
    dynamic-amm-quote/src/depeg/mod.rs. The stake accounts enter as the price read from them,
    None when the account is missing or does not decode. */
module DepegCache {
  import opened Arithmetic
  import opened PoolTypes

  /** A clock reading and the price that the stake accounts would give then. */
  datatype Tick = Tick(clock: u64, price: Option<u64>)

  predicate Expired(depeg: Depeg, clock: u64) {
    depeg.baseCacheUpdated + BASE_CACHE_EXPIRES < clock
  }

  /** The depeg record after a successful update; None is the error return. */
  function Refresh(depeg: Depeg, tick: Tick): Option<Depeg> {
    if depeg.depegType == NoDepeg then Some(depeg)
    else
      var expiry :- Fit64(depeg.baseCacheUpdated + BASE_CACHE_EXPIRES);
      if expiry < tick.clock then
        var price :- tick.price;
        Some(depeg.(baseVirtualPrice := price, baseCacheUpdated := tick.clock))
      else
        Some(depeg)
  }

  function RefreshCurve(curve: CurveType, tick: Tick): Option<CurveType> {
    match curve
    case ConstantProduct => Some(curve)
    case Stable(_, _, depeg) =>
      var depeg' :- Refresh(depeg, tick);
      Some(curve.(depeg := depeg'))
  }

  /** `unix_timestamp as u64`: a signed 64-bit value reinterpreted. */
  function AsU64(timestamp: int): u64 {
    timestamp % (U64_MAX + 1)
  }

  /** The refresh in terms of the signed timestamp: the record becomes the given price at that time exactly when it is
      more than ten minutes old; a negative timestamp counts as a time past every other. */
  ghost predicate RefreshesAt(curve: CurveType, timestamp: int, price: Option<u64>, result: Option<CurveType>) {
    if curve.ConstantProduct? || curve.depeg.depegType == NoDepeg then result == Some(curve)
    else
      var time := if timestamp < 0 then timestamp + 0x1_0000_0000_0000_0000 else timestamp;
      var expiry := curve.depeg.baseCacheUpdated + 600;
      if 0xFFFF_FFFF_FFFF_FFFF < expiry then result == None
      else if time <= expiry then result == Some(curve)
      else if price.None? then result == None
      else
        && result.Some? && result.value.Stable?
        && result.value.amp == curve.amp && result.value.multiplier == curve.multiplier
        && result.value.depeg.baseVirtualPrice == price.value && result.value.depeg.baseCacheUpdated == time
        && result.value.depeg.depegType == curve.depeg.depegType
  }

  lemma RefreshCurveAt(curve: CurveType, timestamp: int, price: Option<u64>)
    requires -0x8000_0000_0000_0000 <= timestamp < 0x8000_0000_0000_0000
    ensures RefreshesAt(curve, timestamp, price, RefreshCurve(curve, Tick(AsU64(timestamp), price)))
  {}

  lemma RefreshCurveNow(curve: CurveType, now: u64, price: Option<u64>)
    ensures RefreshesAt(curve, now, price, RefreshCurve(curve, Tick(now, price)))
  {}

  class PoolAccount {
    var curve: CurveType

    constructor (curve: CurveType)
      ensures this.curve == curve
    {
      this.curve := curve;
    }

    /** `update_base_virtual_price`. It fails exactly on a needed price that cannot be read or an expiry past u64, and
        then the pool keeps its record. */
    method UpdateBaseVirtualPrice(timestamp: int, price: Option<u64>) returns (ok: bool)
      modifies this
      ensures ok <==> RefreshCurve(old(curve), Tick(AsU64(timestamp), price)).Some?
      ensures ok ==> Some(curve) == RefreshCurve(old(curve), Tick(AsU64(timestamp), price))
      ensures !ok ==> curve == old(curve)
      ensures -0x8000_0000_0000_0000 <= timestamp < 0x8000_0000_0000_0000 ==>
                RefreshesAt(old(curve), timestamp, price, if ok then Some(curve) else None)
    {
      if curve.Stable? {
        var depeg := curve.depeg;
        if depeg.depegType != NoDepeg {
          var expiry := Fit64(depeg.baseCacheUpdated + BASE_CACHE_EXPIRES);
          if expiry.None? {
            return false;
          }
          if expiry.value < AsU64(timestamp) {
            if price.None? {
              return false;
            }
            depeg := depeg.(baseCacheUpdated := AsU64(timestamp));
            depeg := depeg.(baseVirtualPrice := price.value);
            curve := curve.(depeg := depeg);
          }
        }
      }
      return true;
    }
  }

  // ---------- runs of updates ----------

  /** The record after the first n ticks; a failed update leaves it as it was. */
  function After(depeg: Depeg, ticks: seq<Tick>, n: nat): Depeg
    requires n <= |ticks|
  {
    if n == 0 then depeg
    else
      var before := After(depeg, ticks, n - 1);
      match Refresh(before, ticks[n - 1])
      case Some(d) => d
      case None => before
  }

  /** Tick n reads a new price into the cache. */
  predicate Reads(depeg: Depeg, ticks: seq<Tick>, n: nat)
    requires n < |ticks|
  {
    var before := After(depeg, ticks, n);
    before.depegType != NoDepeg && Expired(before, ticks[n].clock) && Refresh(before, ticks[n]).Some?
  }

  predicate ClockAdvances(ticks: seq<Tick>) {
    forall i, j :: 0 <= i <= j < |ticks| ==> ticks[i].clock <= ticks[j].clock
  }

  /** The cached price is the one that tick j read. */
  predicate HoldsReadOf(depeg: Depeg, tick: Tick) {
    tick.price == Some(depeg.baseVirtualPrice) && tick.clock == depeg.baseCacheUpdated
  }

  lemma TickReadsOrKeeps(depeg: Depeg, ticks: seq<Tick>, n: nat)
    requires n < |ticks|
    ensures if Reads(depeg, ticks, n) then HoldsReadOf(After(depeg, ticks, n + 1), ticks[n])
            else After(depeg, ticks, n + 1) == After(depeg, ticks, n)
  {}

  /** Tick j read what the cache holds after n ticks. */
  predicate ReadAt(depeg: Depeg, ticks: seq<Tick>, n: nat, j: int)
    requires n <= |ticks|
  {
    0 <= j < n && Reads(depeg, ticks, j) && HoldsReadOf(After(depeg, ticks, n), ticks[j])
  }

  /** The cache holds either what the pool started with or what some tick read. */
  lemma {:induction false} CacheHoldsARead(depeg: Depeg, ticks: seq<Tick>, n: nat)
    requires n <= |ticks|
    ensures After(depeg, ticks, n) == depeg || exists j :: ReadAt(depeg, ticks, n, j)
  {
    if n != 0 {
      TickReadsOrKeeps(depeg, ticks, n - 1);
      if Reads(depeg, ticks, n - 1) {
        assert ReadAt(depeg, ticks, n, n - 1);
      } else {
        CacheHoldsARead(depeg, ticks, n - 1);
        if After(depeg, ticks, n - 1) != depeg {
          var j :| ReadAt(depeg, ticks, n - 1, j);
          assert ReadAt(depeg, ticks, n, j);
        }
      }
    }
  }

  /** After every successful update of a depeg pool the price in use was read at most 600 seconds before: it is
      the price some earlier tick read, or the price the pool started with while that is still valid. It is
      not from the future unless the pool started with one that was. */
  lemma PriceIsFresh(depeg: Depeg, ticks: seq<Tick>, n: nat)
    requires n < |ticks| && ClockAdvances(ticks) && depeg.depegType != NoDepeg
    requires Refresh(After(depeg, ticks, n), ticks[n]).Some?
    ensures ticks[n].clock <= After(depeg, ticks, n + 1).baseCacheUpdated + 600
    ensures || After(depeg, ticks, n + 1) == depeg
            || exists j :: ReadAt(depeg, ticks, n + 1, j) && 0 <= ticks[n].clock - ticks[j].clock <= 600
    ensures depeg.baseCacheUpdated <= ticks[0].clock ==> After(depeg, ticks, n + 1).baseCacheUpdated <= ticks[n].clock
  {
    var now := After(depeg, ticks, n + 1);
    TypeIsKept(depeg, ticks, n);
    RefreshedIsFresh(After(depeg, ticks, n), ticks[n]);
    CacheHoldsARead(depeg, ticks, n + 1);
    if now != depeg {
      var j :| ReadAt(depeg, ticks, n + 1, j);
      assert ticks[j].clock <= ticks[n].clock;
    }
  }

  lemma RefreshedIsFresh(depeg: Depeg, tick: Tick)
    requires depeg.depegType != NoDepeg && Refresh(depeg, tick).Some?
    ensures !Expired(Refresh(depeg, tick).value, tick.clock)
  {}

  lemma {:induction false} TypeIsKept(depeg: Depeg, ticks: seq<Tick>, n: nat)
    requires n <= |ticks|
    ensures After(depeg, ticks, n).depegType == depeg.depegType
  {
    if n != 0 { TypeIsKept(depeg, ticks, n - 1); }
  }

  lemma {:induction false} CacheTimeGrows(depeg: Depeg, ticks: seq<Tick>, m: nat, n: nat)
    requires m <= n <= |ticks|
    ensures After(depeg, ticks, m).baseCacheUpdated <= After(depeg, ticks, n).baseCacheUpdated
    decreases n - m
  {
    if m < n { CacheTimeGrows(depeg, ticks, m, n - 1); }
  }

  /** Any two reads of a run are more than 600 seconds apart, even if the clock goes back. */
  lemma ReadsAreFarApart(depeg: Depeg, ticks: seq<Tick>, m: nat, n: nat)
    requires m < n < |ticks| && Reads(depeg, ticks, m) && Reads(depeg, ticks, n)
    ensures ticks[m].clock + 600 < ticks[n].clock
  {
    CacheTimeGrows(depeg, ticks, m + 1, n);
  }
}
