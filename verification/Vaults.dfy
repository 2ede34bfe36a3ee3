/** Yield vaults: programs/dynamic-vault/src/state.rs. The pool's reserves are shares of two such vaults,
    whose value grows as locked profit unlocks. */
module Vaults {
  import opened Arithmetic

  const LOCKED_PROFIT_DEGRADATION_DENOMINATOR: nat := 1_000_000_000_000

  datatype LockedProfitTracker = LockedProfitTracker(lastUpdatedLockedProfit: u64, lastReport: u64,
                                                     lockedProfitDegradation: u64)

  datatype Vault = Vault(totalAmount: u64, tracker: LockedProfitTracker)

  /** `calculate_locked_profit`. */
  function CalculateLockedProfit(tracker: LockedProfitTracker, now: u64): Option<u64> {
    var duration :- Fit64(now - tracker.lastReport);
    var ratio :- Fit128(duration * tracker.lockedProfitDegradation);
    if LOCKED_PROFIT_DEGRADATION_DENOMINATOR < ratio then Some(0)
    else
      var product :- Fit128(tracker.lastUpdatedLockedProfit * (LOCKED_PROFIT_DEGRADATION_DENOMINATOR - ratio));
      Fit64(product / LOCKED_PROFIT_DEGRADATION_DENOMINATOR)
  }

  /** `get_unlocked_amount`. */
  function GetUnlockedAmount(vault: Vault, now: u64): Option<u64> {
    var locked :- CalculateLockedProfit(vault.tracker, now);
    Fit64(vault.totalAmount - locked)
  }

  /** `get_amount_by_share`. */
  function GetAmountByShare(vault: Vault, now: u64, share: u64, supply: u64): Option<u64> {
    var total :- GetUnlockedAmount(vault, now);
    var product :- Fit128(share * total);
    if supply == 0 then None else Fit64(product / supply)
  }

  /** `get_unmint_amount`. */
  function GetUnmintAmount(vault: Vault, now: u64, amount: u64, supply: u64): Option<u64> {
    var total :- GetUnlockedAmount(vault, now);
    var product :- Fit128(amount * supply);
    if total == 0 then None else Fit64(product / total)
  }

  // ---------- locked profit over time ----------

  /** From the last report on, no step of the computation overflows, and at most the last reported profit
      is locked. */
  lemma LockedProfitDefined(tracker: LockedProfitTracker, now: u64)
    ensures CalculateLockedProfit(tracker, now).Some? <==> tracker.lastReport <= now
    ensures tracker.lastReport <= now ==>
              CalculateLockedProfit(tracker, now).value <= tracker.lastUpdatedLockedProfit
  {
    if tracker.lastReport <= now {
      var ratio := (now - tracker.lastReport) * tracker.lockedProfitDegradation;
      U64Product(now - tracker.lastReport, tracker.lockedProfitDegradation);
      if ratio <= LOCKED_PROFIT_DEGRADATION_DENOMINATOR {
        var n := tracker.lastUpdatedLockedProfit * (LOCKED_PROFIT_DEGRADATION_DENOMINATOR - ratio);
        U64Product(tracker.lastUpdatedLockedProfit, LOCKED_PROFIT_DEGRADATION_DENOMINATOR - ratio);
        MulLe(LOCKED_PROFIT_DEGRADATION_DENOMINATOR - ratio, LOCKED_PROFIT_DEGRADATION_DENOMINATOR,
              tracker.lastUpdatedLockedProfit);
        FloorBounds(n, LOCKED_PROFIT_DEGRADATION_DENOMINATOR);
      }
    }
  }

  /** All of the reported profit is locked at the report, and none once the degradation has run its course;
      in between the floor of the linear remainder is. */
  lemma LockedProfitIsLinear(tracker: LockedProfitTracker, now: u64)
    requires tracker.lastReport <= now
    ensures CalculateLockedProfit(tracker, now).Some?
    ensures var locked := CalculateLockedProfit(tracker, now).value;
            var ratio := (now - tracker.lastReport) * tracker.lockedProfitDegradation;
            var denominator, profit := 1_000_000_000_000, tracker.lastUpdatedLockedProfit;
            && (now == tracker.lastReport ==> locked == profit)
            && (denominator <= ratio ==> locked == 0)
            && (ratio <= denominator ==>
                  locked * denominator <= profit * (denominator - ratio) < (locked + 1) * denominator)
  {
    LockedProfitDefined(tracker, now);
    var locked := CalculateLockedProfit(tracker, now).value;
    var ratio := (now - tracker.lastReport) * tracker.lockedProfitDegradation;
    if ratio <= LOCKED_PROFIT_DEGRADATION_DENOMINATOR {
      QuotientBounds(tracker.lastUpdatedLockedProfit * (LOCKED_PROFIT_DEGRADATION_DENOMINATOR - ratio),
                     LOCKED_PROFIT_DEGRADATION_DENOMINATOR, locked);
    }
  }

  /** Locked profit never grows with time. */
  lemma LockedProfitFalls(tracker: LockedProfitTracker, t1: u64, t2: u64)
    requires tracker.lastReport <= t1 <= t2
    ensures CalculateLockedProfit(tracker, t1).Some? && CalculateLockedProfit(tracker, t2).Some?
    ensures CalculateLockedProfit(tracker, t2).value <= CalculateLockedProfit(tracker, t1).value
  {
    LockedProfitDefined(tracker, t1);
    LockedProfitDefined(tracker, t2);
    var denominator, profit := LOCKED_PROFIT_DEGRADATION_DENOMINATOR, tracker.lastUpdatedLockedProfit;
    var r1 := (t1 - tracker.lastReport) * tracker.lockedProfitDegradation;
    var r2 := (t2 - tracker.lastReport) * tracker.lockedProfitDegradation;
    MulLe(t1 - tracker.lastReport, t2 - tracker.lastReport, tracker.lockedProfitDegradation);
    if r2 <= denominator {
      MulLe(denominator - r2, denominator - r1, profit);
      FloorMonotone(profit * (denominator - r2), profit * (denominator - r1), denominator);
    }
  }

  /** The vault can be valued at `now`. */
  predicate Solvent(vault: Vault, now: u64) {
    && vault.tracker.lastReport <= now
    && CalculateLockedProfit(vault.tracker, now).Some?
    && CalculateLockedProfit(vault.tracker, now).value <= vault.totalAmount
  }

  function Unlocked(vault: Vault, now: u64): (r: u64)
    requires Solvent(vault, now)
    ensures GetUnlockedAmount(vault, now) == Some(r)
  {
    vault.totalAmount - CalculateLockedProfit(vault.tracker, now).value
  }

  /** It can be valued, and holds something unlocked. */
  predicate Valuable(vault: Vault, now: u64) {
    Solvent(vault, now) && 0 < Unlocked(vault, now)
  }

  /** A vault stays solvent, and its unlocked amount does not fall, as time passes. */
  lemma UnlockedGrows(vault: Vault, t1: u64, t2: u64)
    requires Solvent(vault, t1) && t1 <= t2
    ensures Solvent(vault, t2) && Unlocked(vault, t1) <= Unlocked(vault, t2)
  {
    LockedProfitFalls(vault.tracker, t1, t2);
  }

  /** Valuing fails exactly when more is locked than the vault holds, before the last report, or without shares. */
  lemma SolventIff(vault: Vault, now: u64, share: u64, supply: u64)
    requires share <= supply
    ensures GetAmountByShare(vault, now, share, supply).Some? <==> Solvent(vault, now) && 0 < supply
  {
    LockedProfitDefined(vault.tracker, now);
    if Solvent(vault, now) && 0 < supply { AmountByShareDefined(vault, now, share, supply); }
  }

  /** For no more shares than the supply, valuing never fails and is a floor of the exact share. */
  lemma AmountByShareDefined(vault: Vault, now: u64, share: u64, supply: u64)
    requires Solvent(vault, now) && share <= supply && 0 < supply
    ensures GetAmountByShare(vault, now, share, supply) == Some(share * Unlocked(vault, now) / supply)
    ensures share * Unlocked(vault, now) / supply <= Unlocked(vault, now)
  {
    var total := Unlocked(vault, now);
    U64Product(share, total);
    MulLe(share, supply, total);
    FloorBounds(share * total, supply);
    FloorBelow(share * total, supply, total as int + 1);
  }

  /** With the vault fixed, the value of any share does not fall over time. */
  lemma ShareValueGrows(vault: Vault, t1: u64, t2: u64, share: u64, supply: u64)
    requires Solvent(vault, t1) && t1 <= t2 && share <= supply && 0 < supply
    ensures GetAmountByShare(vault, t1, share, supply).Some? && GetAmountByShare(vault, t2, share, supply).Some?
    ensures GetAmountByShare(vault, t1, share, supply).value <= GetAmountByShare(vault, t2, share, supply).value
  {
    UnlockedGrows(vault, t1, t2);
    AmountByShareDefined(vault, t1, share, supply);
    AmountByShareDefined(vault, t2, share, supply);
    MulLe(Unlocked(vault, t1), Unlocked(vault, t2), share);
    FloorMonotone(share * Unlocked(vault, t1), share * Unlocked(vault, t2), supply);
  }

  // ---------- share arithmetic ----------

  /** The floor value of `share` of `supply` shares in a vault that holds `total`. */
  function Value(share: nat, total: nat, supply: nat): nat
    requires 0 < supply
  {
    MulNonNegative(share, total);
    FloorBounds(share * total, supply);
    share * total / supply
  }

  lemma ValueBounds(share: nat, total: nat, supply: nat)
    requires 0 < supply
    ensures Value(share, total, supply) * supply <= share * total < (Value(share, total, supply) + 1) * supply
  {
    QuotientBounds(share * total, supply, Value(share, total, supply));
  }

  lemma PriceRises(total: int, supply: int, total': int, supply': int, share: int)
    requires 0 <= share && total * supply' <= total' * supply
    ensures share * total * supply' <= share * total' * supply
  {
    MulLe(total * supply', total' * supply, share);
    assert share * total * supply' == total * supply' * share;
    assert share * total' * supply == total' * supply * share;
  }

  /** Where the price per share does not fall, neither does the floor value of a holding. */
  lemma ValueRises(share: nat, total: nat, supply: nat, total': nat, supply': nat)
    requires 0 < supply && 0 < supply' && total * supply' <= total' * supply
    ensures Value(share, total, supply) <= Value(share, total', supply')
  {
    var v := Value(share, total, supply);
    ValueBounds(share, total, supply);
    MulLe(v * supply, share * total, supply');
    PriceRises(total, supply, total', supply', share);
    assert v * supply' * supply == v * supply * supply';
    CancelLe(v * supply', share * total', supply);
    FloorAtLeast(share * total', supply', v);
  }

  lemma DepositPrice(total: int, supply: int, x: int, minted: int)
    requires minted * total <= x * supply
    ensures total * (supply + minted) <= (total + x) * supply
  {
    assert total * (supply + minted) == total * supply + minted * total;
    assert (total + x) * supply == total * supply + x * supply;
  }

  /** What the other holders keep bounds what this holder has: valued at the old price, the others' shares leave
      less than `bound` whole tokens per new share price. */
  lemma OthersKeep(others: int, total: int, supply: int, total': int, supply': int, bound: int)
    requires 0 <= others && 0 < supply && 0 < supply' && total * supply' <= total' * supply
    requires total' * supply - others * total < bound * supply
    ensures (supply' - others) * total' < bound * supply'
  {
    PriceRises(total, supply, total', supply', others);
    assert (supply' - others) * total' * supply == total' * supply * supply' - others * total' * supply;
    MulLt(total' * supply - others * total, bound * supply, supply');
    assert (total' * supply - others * total) * supply' == total' * supply * supply' - others * total * supply';
    assert bound * supply * supply' == bound * supply' * supply;
    CancelLt((supply' - others) * total', bound * supply', supply);
  }

  /** A deposit raises the depositor's value by at most the deposit. */
  lemma DepositAtMost(share: nat, total: nat, supply: nat, x: nat, minted: nat)
    requires 0 < supply && share <= supply && minted * total <= x * supply
    ensures Value(share + minted, total + x, supply + minted) <= Value(share, total, supply) + x
  {
    var bound := Value(share, total, supply) + x + 1;
    ValueBounds(share, total, supply);
    DepositPrice(total, supply, x, minted);
    DepositAccount(share, total, supply, x, Value(share, total, supply));
    OthersKeep(supply - share, total, supply, total + x, supply + minted, bound);
    FloorBelow((share + minted) * (total + x), supply + minted, bound);
  }

  lemma DepositAccount(share: int, total: int, supply: int, x: int, v: int)
    requires share * total < (v + 1) * supply
    ensures (total + x) * supply - (supply - share) * total < (v + x + 1) * supply
  {
    assert (total + x) * supply - (supply - share) * total == x * supply + share * total;
    assert (v + x + 1) * supply == (v + 1) * supply + x * supply;
  }

  /** A deposit loses the depositor less than the price of a share plus one. */
  lemma DepositAtLeast(share: nat, total: nat, supply: nat, x: nat, minted: nat)
    requires 0 < supply && 0 < total && minted * total <= x * supply < (minted + 1) * total
    ensures var v, v' := Value(share, total, supply), Value(share + minted, total + x, supply + minted);
            v <= v' && (v + x - v' - 1) * supply < total
  {
    var v, v' := Value(share, total, supply), Value(share + minted, total + x, supply + minted);
    var k := Value(share + minted, total, supply);
    ValueBounds(share, total, supply);
    ValueBounds(share + minted, total, supply);
    DepositPrice(total, supply, x, minted);
    ValueRises(share + minted, total, supply, total + x, supply + minted);
    assert v <= k by {
      MulLe(share, share + minted, total);
      FloorMonotone(share * total, (share + minted) * total, supply);
    }
    LossAccount(share, total, supply, x, minted, v, k);
    MulLe(v + x - v' - 1, v + x - k - 1, supply);
  }

  lemma LossAccount(share: int, total: int, supply: int, x: int, minted: int, v: int, k: int)
    requires v * supply <= share * total && (share + minted) * total < (k + 1) * supply
    requires x * supply < (minted + 1) * total
    ensures (v + x - k - 1) * supply < total
  {
    assert (share + minted) * total == share * total + minted * total;
    assert (v + x - k - 1) * supply == v * supply + x * supply - (k + 1) * supply;
  }

  lemma WithdrawPrice(total: int, supply: int, out: int, burned: int)
    requires out * supply <= burned * total
    ensures total * (supply - burned) <= (total - out) * supply
  {
    assert total * (supply - burned) == total * supply - burned * total;
    assert (total - out) * supply == total * supply - out * supply;
  }

  /** Withdrawing w of a holding worth more than w: the shares burned are fewer than held, the amount paid is
      at most w and short of it by less than the price of a share plus one. */
  lemma WithdrawBounds(share: nat, total: nat, supply: nat, w: nat)
    requires 0 < supply && 0 < total && share <= supply && w < Value(share, total, supply)
    ensures var burned := Value(w, supply, total);
            var out := Value(burned, total, supply);
            && burned < share && out <= w && out < total && (w - out - 1) * supply < total
  {
    var burned := Value(w, supply, total);
    var out := Value(burned, total, supply);
    ValueBounds(share, total, supply);
    ValueBounds(w, supply, total);
    ValueBounds(burned, total, supply);
    MulLt(w, Value(share, total, supply), supply);
    CancelLt(burned, share, total);
    CancelLe(out, w, supply);
    MulLt(burned, supply, total);
    CancelLt(out, total, supply);
    assert (w - out - 1) * supply == w * supply - (out + 1) * supply;
  }

  /** After the withdrawal the holding is worth at least its old value less w, and at most its old value
      less what was paid. */
  lemma WithdrawKeeps(share: nat, total: nat, supply: nat, w: nat, burned: nat, out: nat)
    requires 0 < supply && burned < share <= supply && out < total && w <= Value(share, total, supply)
    requires burned * total <= w * supply && out * supply <= burned * total
    ensures var v := Value(share, total, supply);
            v - w <= Value(share - burned, total - out, supply - burned) <= v - out
  {
    var v, total', supply' := Value(share, total, supply), total - out, supply - burned;
    ValueBounds(share, total, supply);
    WithdrawPrice(total, supply, out, burned);
    WithdrawAccount(share, total, supply, w, burned, out, v);
    FloorAtLeast((share - burned) * total, supply, v - w);
    ValueRises(share - burned, total, supply, total', supply');
    OthersKeep(supply - share, total, supply, total', supply', v - out + 1);
    FloorBelow((share - burned) * total', supply', v - out + 1);
  }

  lemma WithdrawAccount(share: int, total: int, supply: int, w: int, burned: int, out: int, v: int)
    requires burned * total <= w * supply && v * supply <= share * total < (v + 1) * supply
    ensures (v - w) * supply <= (share - burned) * total
    ensures (total - out) * supply - (supply - share) * total < (v - out + 1) * supply
  {
    assert (v - w) * supply == v * supply - w * supply;
    assert (share - burned) * total == share * total - burned * total;
    assert (total - out) * supply - (supply - share) * total == share * total - out * supply;
    assert (v - out + 1) * supply == (v + 1) * supply - out * supply;
  }
}
