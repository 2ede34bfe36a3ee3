/** One side of a pool: a vault, the pool's shares of it, and the deposits and withdrawals that a quote makes. */
module PoolSides {
  import opened Arithmetic
  import opened Vaults

  /** The vault, the vault LP the pool holds, the vault LP supply and the vault's token balance. */
  datatype Side = Side(vault: Vault, lpAmount: u64, lpSupply: u64, reserve: u64)

  /** The vault can be valued, and the pool holds some part of its supply. */
  predicate Healthy(side: Side, now: u64) {
    Valuable(side.vault, now) && 0 < side.lpSupply && side.lpAmount <= side.lpSupply
  }

  /** The pool's tokens on this side, one component of `compute_pool_tokens`. */
  function Holding(side: Side, now: u64): Option<u64> {
    GetAmountByShare(side.vault, now, side.lpAmount, side.lpSupply)
  }

  lemma HoldingIsValue(side: Side, now: u64)
    requires Healthy(side, now)
    ensures Holding(side, now) == Some(Value(side.lpAmount, Unlocked(side.vault, now), side.lpSupply))
  {
    AmountByShareDefined(side.vault, now, side.lpAmount, side.lpSupply);
  }

  /** Waiting keeps a side healthy and does not lower the pool's tokens on it. */
  lemma WaitingKeeps(side: Side, now: u64, later: u64)
    requires Healthy(side, now) && now <= later
    ensures Healthy(side, later)
    ensures Holding(side, now).Some? && Holding(side, later).Some?
    ensures Holding(side, now).value <= Holding(side, later).value
  {
    UnlockedGrows(side.vault, now, later);
    ShareValueGrows(side.vault, now, later, side.lpAmount, side.lpSupply);
  }

  // ---------- deposits ----------

  /** The side after x is deposited for the pool: shares are minted at the current price, rounded down. */
  function Deposit(side: Side, now: u64, x: u64): Option<Side> {
    var minted :- GetUnmintAmount(side.vault, now, x, side.lpSupply);
    var total :- Fit64(side.vault.totalAmount + x);
    var lpAmount :- Fit64(minted + side.lpAmount);
    var lpSupply :- Fit64(side.lpSupply + minted);
    Some(side.(vault := side.vault.(totalAmount := total), lpAmount := lpAmount, lpSupply := lpSupply))
  }

  lemma DepositShape(side: Side, now: u64, x: u64)
    requires Healthy(side, now) && Deposit(side, now, x).Some?
    ensures var side', total := Deposit(side, now, x).value, Unlocked(side.vault, now);
            var minted := side'.lpAmount - side.lpAmount;
            && 0 <= minted && side'.lpSupply == side.lpSupply + minted
            && minted * total <= x * side.lpSupply < (minted + 1) * total
            && Healthy(side', now) && Unlocked(side'.vault, now) == total + x
            && side'.vault.tracker == side.vault.tracker && side'.reserve == side.reserve
  {
    var total := Unlocked(side.vault, now);
    QuotientBounds(x * side.lpSupply, total, x * side.lpSupply / total);
  }

  /** The pool's tokens before and after, from the shares that were minted. */
  lemma DepositHoldings(side: Side, now: u64, x: u64)
    requires Healthy(side, now) && Deposit(side, now, x).Some?
    ensures var side', total, supply := Deposit(side, now, x).value, Unlocked(side.vault, now), side.lpSupply;
            var minted := side'.lpAmount - side.lpAmount;
            && 0 <= minted && minted * total <= x * supply < (minted + 1) * total
            && Healthy(side', now) && Holding(side, now) == Some(Value(side.lpAmount, total, supply))
            && Holding(side', now) == Some(Value(side.lpAmount + minted, total + x, supply + minted))
  {
    DepositShape(side, now, x);
    HoldingIsValue(side, now);
    HoldingIsValue(Deposit(side, now, x).value, now);
  }

  /** A deposit fails exactly when the vault's total or its supply would pass 64 bits. */
  lemma DepositIff(side: Side, now: u64, x: u64)
    requires Healthy(side, now)
    ensures Deposit(side, now, x).Some?
            <==> && side.vault.totalAmount + x <= U64_MAX
                 && side.lpSupply + Value(x, side.lpSupply, Unlocked(side.vault, now)) <= U64_MAX
  {
    U64Product(x, side.lpSupply);
    ValueBounds(x, side.lpSupply, Unlocked(side.vault, now));
  }

  /** What healthy means: something is unlocked and the pool holds at most the supply, which is not zero. */
  lemma HealthyIff(side: Side, now: u64)
    ensures Healthy(side, now)
            <==> && GetUnlockedAmount(side.vault, now).Some? && 0 < GetUnlockedAmount(side.vault, now).value
                 && 0 < side.lpSupply && side.lpAmount <= side.lpSupply
  {
    LockedProfitDefined(side.vault.tracker, now);
  }

  /** Depositing x raises the pool's tokens by between zero and x; what rounding costs the pool is less
      than the price of one share plus one. */
  lemma DepositBounds(side: Side, now: u64, x: u64)
    requires Healthy(side, now) && Deposit(side, now, x).Some?
    ensures var side' := Deposit(side, now, x).value;
            && Healthy(side', now) && Holding(side, now).Some? && Holding(side', now).Some?
            && var gained := Holding(side', now).value - Holding(side, now).value;
               0 <= gained <= x && (x - gained - 1) * side.lpSupply < Unlocked(side.vault, now)
  {
    var total, minted := Unlocked(side.vault, now), Deposit(side, now, x).value.lpAmount - side.lpAmount;
    DepositHoldings(side, now, x);
    DepositAtMost(side.lpAmount, total, side.lpSupply, x, minted);
    DepositAtLeast(side.lpAmount, total, side.lpSupply, x, minted);
  }

  // ---------- withdrawals ----------

  /** The shares that withdrawing w burns, and the tokens that they pay. */
  datatype Withdrawal = Withdrawal(burned: u64, out: u64)

  function Withdraw(side: Side, now: u64, w: u64): Option<Withdrawal> {
    var burned :- GetUnmintAmount(side.vault, now, w, side.lpSupply);
    var out :- GetAmountByShare(side.vault, now, burned, side.lpSupply);
    Some(Withdrawal(burned, out))
  }

  /** The side after the withdrawal. */
  function Burn(side: Side, withdrawal: Withdrawal): Option<Side> {
    var total :- Fit64(side.vault.totalAmount - withdrawal.out);
    var lpAmount :- Fit64(side.lpAmount - withdrawal.burned);
    var lpSupply :- Fit64(side.lpSupply - withdrawal.burned);
    var reserve :- Fit64(side.reserve - withdrawal.out);
    Some(Side(side.vault.(totalAmount := total), lpAmount, lpSupply, reserve))
  }

  lemma WithdrawShape(side: Side, now: u64, w: u64)
    requires Healthy(side, now) && w < Value(side.lpAmount, Unlocked(side.vault, now), side.lpSupply)
    ensures var total, supply := Unlocked(side.vault, now), side.lpSupply;
            var burned := Value(w, supply, total);
            var out := Value(burned, total, supply);
            && burned < side.lpAmount && out <= w && out < total && (w - out - 1) * supply < total
            && Withdraw(side, now, w) == Some(Withdrawal(burned, out))
  {
    var total, supply := Unlocked(side.vault, now), side.lpSupply;
    WithdrawBounds(side.lpAmount, total, supply, w);
    U64Product(w, supply);
    AmountByShareDefined(side.vault, now, Value(w, supply, total), supply);
  }

  /** Withdrawing less than the pool's tokens pays at most what was asked, short of it by less than the price
      of one share plus one, and burns fewer shares than the pool holds. Where the reserve covers it, the side
      stays healthy, and the pool's tokens fall by no more than was asked and no less than was paid. */
  lemma WithdrawalBounds(side: Side, now: u64, w: u64)
    requires Healthy(side, now) && Holding(side, now).Some? && w < Holding(side, now).value
    ensures Withdraw(side, now, w).Some?
    ensures var withdrawal := Withdraw(side, now, w).value;
            && withdrawal.burned < side.lpAmount && withdrawal.out <= w
            && (w - withdrawal.out - 1) * side.lpSupply < Unlocked(side.vault, now)
            && (withdrawal.out <= side.reserve ==>
                  && Burn(side, withdrawal).Some? && Healthy(Burn(side, withdrawal).value, now)
                  && Holding(Burn(side, withdrawal).value, now).Some?
                  && Holding(side, now).value - w <= Holding(Burn(side, withdrawal).value, now).value
                     <= Holding(side, now).value - withdrawal.out)
  {
    var total, supply := Unlocked(side.vault, now), side.lpSupply;
    HoldingIsValue(side, now);
    WithdrawShape(side, now, w);
    var withdrawal := Withdraw(side, now, w).value;
    if withdrawal.out <= side.reserve {
      var side' := Burn(side, withdrawal).value;
      assert Healthy(side', now) && Unlocked(side'.vault, now) == total - withdrawal.out;
      HoldingIsValue(side', now);
      ValueBounds(w, supply, total);
      ValueBounds(withdrawal.burned, total, supply);
      WithdrawKeeps(side.lpAmount, total, supply, w, withdrawal.burned, withdrawal.out);
    }
  }

  // ---------- the vault's other users ----------

  /** What another user of the vault does: deposit an amount, or withdraw by burning shares. */
  datatype VaultAction = DepositOf(amount: u64) | WithdrawOf(shares: u64)

  /** The side after another user's action, at the prices of the vault; None where it cannot be executed. Someone
      always keeps a share. */
  function OthersAct(side: Side, now: u64, action: VaultAction): Option<Side> {
    match action
    case DepositOf(x) =>
      var minted :- GetUnmintAmount(side.vault, now, x, side.lpSupply);
      var total :- Fit64(side.vault.totalAmount + x);
      var lpSupply :- Fit64(side.lpSupply + minted);
      var reserve :- Fit64(side.reserve + x);
      Some(Side(side.vault.(totalAmount := total), side.lpAmount, lpSupply, reserve))
    case WithdrawOf(shares) =>
      if side.lpSupply - side.lpAmount < shares || shares == side.lpSupply then None
      else
        var out :- GetAmountByShare(side.vault, now, shares, side.lpSupply);
        var total :- Fit64(side.vault.totalAmount - out);
        var reserve :- Fit64(side.reserve - out);
        Some(Side(side.vault.(totalAmount := total), side.lpAmount, side.lpSupply - shares, reserve))
  }

  /** Another user gets floors at the present price, and only the vault's total, its supply and its tokens move. */
  lemma OthersActIsExact(side: Side, now: u64, action: VaultAction)
    requires Healthy(side, now) && OthersAct(side, now, action).Some?
    ensures var side', total := OthersAct(side, now, action).value, Unlocked(side.vault, now);
            var moved := side'.vault.totalAmount - side.vault.totalAmount;
            && side'.lpAmount == side.lpAmount && side'.vault.tracker == side.vault.tracker
            && side'.reserve - side.reserve == moved
            && match action
               case DepositOf(x) =>
                 var minted := side'.lpSupply - side.lpSupply;
                 moved == x && minted * total <= x * side.lpSupply < (minted + 1) * total
               case WithdrawOf(shares) =>
                 && side'.lpSupply == side.lpSupply - shares && shares <= side.lpSupply - side.lpAmount
                 && -moved * side.lpSupply <= shares * total < (-moved + 1) * side.lpSupply
  {
    match action
    case DepositOf(x) =>
      var total := Unlocked(side.vault, now);
      QuotientBounds(x * side.lpSupply, total, x * side.lpSupply / total);
    case WithdrawOf(shares) =>
      AmountByShareDefined(side.vault, now, shares, side.lpSupply);
      ValueBounds(shares, Unlocked(side.vault, now), side.lpSupply);
  }

  /** It fails exactly when a balance would pass 64 bits, or the shares are not all the user's, are the last ones, or
      are worth more than the vault's tokens. */
  lemma OthersActIff(side: Side, now: u64, action: VaultAction)
    requires Healthy(side, now)
    ensures OthersAct(side, now, action).Some? <==>
            match action
            case DepositOf(x) =>
              && side.vault.totalAmount + x <= U64_MAX && side.reserve + x <= U64_MAX
              && side.lpSupply + Value(x, side.lpSupply, Unlocked(side.vault, now)) <= U64_MAX
            case WithdrawOf(shares) =>
              && shares <= side.lpSupply - side.lpAmount && shares < side.lpSupply
              && Value(shares, Unlocked(side.vault, now), side.lpSupply) <= side.reserve
  {
    match action
    case DepositOf(x) =>
      U64Product(x, side.lpSupply);
      ValueBounds(x, side.lpSupply, Unlocked(side.vault, now));
    case WithdrawOf(shares) =>
      if shares <= side.lpSupply { AmountByShareDefined(side.vault, now, shares, side.lpSupply); }
  }

  /** Nothing that another user does lowers the price of a share: both roundings are in the vault's favour. */
  lemma OthersKeepPrice(side: Side, now: u64, action: VaultAction)
    requires Healthy(side, now) && OthersAct(side, now, action).Some?
    ensures var side' := OthersAct(side, now, action).value;
            && Healthy(side', now)
            && Unlocked(side.vault, now) * side'.lpSupply <= Unlocked(side'.vault, now) * side.lpSupply
  {
    var side', total, supply := OthersAct(side, now, action).value, Unlocked(side.vault, now), side.lpSupply;
    match action
    case DepositOf(x) =>
      QuotientBounds(x * supply, total, x * supply / total);
      DepositPrice(total, supply, x, side'.lpSupply - supply);
    case WithdrawOf(shares) =>
      AmountByShareDefined(side.vault, now, shares, supply);
      ValueBounds(shares, total, supply);
      MulLt(shares, supply, total);
      CancelLt(Value(shares, total, supply), total, supply);
      WithdrawPrice(total, supply, Value(shares, total, supply), shares);
  }

  /** So the pool's tokens do not fall. */
  lemma OthersKeepTokens(side: Side, now: u64, action: VaultAction)
    requires Healthy(side, now) && OthersAct(side, now, action).Some?
    ensures var side' := OthersAct(side, now, action).value;
            && Healthy(side', now) && Holding(side, now).Some? && Holding(side', now).Some?
            && Holding(side, now).value <= Holding(side', now).value
  {
    var side' := OthersAct(side, now, action).value;
    OthersKeepPrice(side, now, action);
    HoldingIsValue(side, now);
    HoldingIsValue(side', now);
    ValueRises(side.lpAmount, Unlocked(side.vault, now), side.lpSupply, Unlocked(side'.vault, now), side'.lpSupply);
  }

  // ---------- the TypeScript deposit estimate ----------

  /** The estimate as a value: the depositor's value after the deposit less `before`. */
  function ActualDeposit(deposit: nat, before: int, balance: nat, supply: nat, total: nat): Outcome<int> {
    if deposit == 0 then Returns(0)
    else
      var minted :- BnDiv(deposit * supply, total);
      var after :- BnDiv((balance + minted) * (total + deposit), supply + minted);
      Returns(after - before)
  }

  lemma ActualDepositBounds(deposit: nat, before: int, balance: nat, supply: nat, total: nat)
    ensures ActualDeposit(deposit, before, balance, supply, total).Returns?
            <==> deposit == 0 || (0 < total && 0 < supply)
    ensures 0 < total && balance <= supply && 0 < supply && before == Value(balance, total, supply) ==>
              var r := ActualDeposit(deposit, before, balance, supply, total).value;
              0 <= r <= deposit && (deposit - r - 1) * supply < total
  {
    if 0 < total {
      MulNonNegative(deposit, supply);
      FloorBounds(deposit * supply, total);
      if 0 < supply {
        var minted: nat := deposit * supply / total;
        MulNonNegative(balance + minted, total + deposit);
        QuotientBounds(deposit * supply, total, minted);
        if balance <= supply {
          DepositAtMost(balance, total, supply, deposit, minted);
          DepositAtLeast(balance, total, supply, deposit, minted);
        }
      }
    }
  }

  /** The estimate of a depositor whose value is known, when the shares minted are. */
  lemma ActualDepositIs(deposit: nat, before: nat, after: nat, balance: nat, supply: nat, total: nat, minted: nat)
    requires 0 < total && 0 < supply && minted * total <= deposit * supply < (minted + 1) * total
    requires before == Value(balance, total, supply)
    requires after == Value(balance + minted, total + deposit, supply + minted)
    ensures ActualDeposit(deposit, before, balance, supply, total) == Returns(after - before)
  {
    if deposit == 0 {
      CancelLe(minted, 0, total);
    } else {
      BnDivIs(deposit * supply, total, minted);
      ValueIsBnDiv(balance + minted, total + deposit, supply + minted);
    }
  }

  lemma BnDivIs(n: int, d: int, q: nat)
    requires 0 < d && q * d <= n < (q + 1) * d
    ensures BnDiv(n, d) == Returns(q)
  {
    MulNonNegative(q, d);
    FloorAtLeast(n, d, q);
    FloorBelow(n, d, q + 1);
  }

  lemma ValueIsBnDiv(share: nat, total: nat, supply: nat)
    requires 0 < supply
    ensures BnDiv(share * total, supply) == Returns(Value(share, total, supply))
  {
    MulNonNegative(share, total);
  }

  /** `computeActualDepositAmount`, which reassigns its parameters. For a depositor that holds part of the
      supply, the estimate is between zero and the deposit. */
  method ComputeActualDepositAmount(deposit: nat, before: int, balance: nat, supply: nat, total: nat)
    returns (r: Outcome<int>)
    ensures r == ActualDeposit(deposit, before, balance, supply, total)
    ensures r.Returns? <==> deposit == 0 || (0 < total && 0 < supply)
    ensures 0 < total && balance <= supply && 0 < supply && before == Value(balance, total, supply) ==>
              r.Returns? && 0 <= r.value <= deposit && (deposit - r.value - 1) * supply < total
  {
    ActualDepositBounds(deposit, before, balance, supply, total);
    if deposit == 0 {
      return Returns(0);
    }
    var vaultLpSupply: int, vaultTotalAmount: int, vaultLpBalance: int := supply, total, balance;
    var minted := BnDiv(deposit * vaultLpSupply, vaultTotalAmount);
    if minted.Throws? {
      return Throws(minted.error);
    }
    vaultLpSupply := vaultLpSupply + minted.value;
    vaultTotalAmount := vaultTotalAmount + deposit;
    vaultLpBalance := vaultLpBalance + minted.value;
    var after := BnDiv(vaultLpBalance * vaultTotalAmount, vaultLpSupply);
    if after.Throws? {
      return Throws(after.error);
    }
    return Returns(after.value - before);
  }
}
