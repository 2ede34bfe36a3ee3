/** The constant product curve: ts-client/src/amm/curve/constant-product.ts, and the Rust wrapper in
    dynamic-amm-quote/src/math/constant_product.rs around the library swap that the TypeScript ports. */
module ConstantProductCurve {
  import opened Arithmetic
  import opened PoolTypes

  // ---------- ceiling division ----------

  /** The ceiling of n / d. */
  function Ceiling(n: int, d: int): int
    requires 0 < d
  {
    (n + d - 1) / d
  }

  lemma CeilingBounds(n: int, d: int)
    requires 0 < d
    ensures (Ceiling(n, d) - 1) * d < n <= Ceiling(n, d) * d
  {
    FloorBounds(n + d - 1, d);
  }

  lemma CeilingAtMost(n: int, d: int, q: int)
    requires 0 < d
    ensures Ceiling(n, d) <= q <==> n <= q * d
  {
    CeilingBounds(n, d);
    if n <= q * d {
      CancelLt(Ceiling(n, d) - 1, q, d);
    } else if Ceiling(n, d) <= q {
      MulLe(Ceiling(n, d), q, d);
    }
  }

  /** `ceilDiv` on BN values, which are signed: the ceiling quotient and a reduced divisor. */
  function CeilDiv(lhs: int, rhs: int): Outcome<(int, int)> {
    var quotient :- BnDiv(lhs, rhs);
    if quotient == 0 then Throws(CeilDivZero)
    else if 0 < lhs - quotient * rhs then
      var up := quotient + 1;
      var divisor :- BnDiv(lhs, up);
      Returns((up, if 0 < lhs - divisor * up then divisor + 1 else divisor))
    else
      Returns((quotient, rhs))
  }

  /** `ceilDiv` as it reassigns its variables. */
  method CeilDivide(lhs: int, divisor: int) returns (r: Outcome<(int, int)>)
    ensures r == CeilDiv(lhs, divisor)
    ensures 0 <= lhs && 0 < divisor ==> (r.Returns? <==> divisor <= lhs)
    ensures 0 < divisor <= lhs ==> r.value.0 == Ceiling(lhs, divisor) && IsLeastDivisor(lhs, r.value.0, r.value.1)
  {
    if 0 < divisor && 0 <= lhs { CeilDivIsLeast(lhs, divisor); }
    if divisor == 0 {
      return Throws(DivisionByZero);
    }
    var rhs := divisor;
    var quotient := TruncDiv(lhs, rhs);
    if quotient == 0 {
      return Throws(CeilDivZero);
    }
    var remainder := lhs - quotient * rhs;
    if 0 < remainder {
      quotient := quotient + 1;
      if quotient == 0 {
        return Throws(DivisionByZero);
      }
      rhs := TruncDiv(lhs, quotient);
      remainder := lhs - rhs * quotient;
      if 0 < remainder {
        rhs := rhs + 1;
      }
    }
    return Returns((quotient, rhs));
  }

  /** r is the least positive divisor of lhs with ceiling quotient q. */
  ghost predicate IsLeastDivisor(lhs: int, q: int, r: int) {
    && 0 < r && Ceiling(lhs, r) == q
    && forall s {:trigger Ceiling(lhs, s)} :: 0 < s && Ceiling(lhs, s) == q ==> r <= s
  }

  lemma CeilingFromRemainder(n: int, d: int)
    requires 0 < d && 0 <= n
    ensures Ceiling(n, d) == if 0 < n - n / d * d then n / d + 1 else n / d
  {
    var q := n / d;
    FloorBounds(n, d);
    CeilingAtMost(n, d, q);
    CeilingAtMost(n, d, q + 1);
    CeilingAtMost(n, d, q - 1);
  }

  lemma LeastDivisor(lhs: int, rhs: int)
    requires 0 < rhs <= lhs
    ensures 0 < Ceiling(lhs, rhs)
    ensures IsLeastDivisor(lhs, Ceiling(lhs, rhs), Ceiling(lhs, Ceiling(lhs, rhs)))
    ensures Ceiling(lhs, Ceiling(lhs, rhs)) <= rhs
    ensures Ceiling(lhs, rhs) * rhs == lhs ==> Ceiling(lhs, Ceiling(lhs, rhs)) == rhs
  {
    var q := Ceiling(lhs, rhs);
    CeilingAtMost(lhs, rhs, 0);
    var r := Ceiling(lhs, q);
    CeilingBounds(lhs, rhs);
    CeilingAtMost(lhs, q, rhs);
    CeilingAtMost(lhs, q, 0);
    CeilingBounds(lhs, q);
    assert Ceiling(lhs, r) == q by {
      CeilingAtMost(lhs, r, q);
      MulLe(r, rhs, q - 1);
      CeilingAtMost(lhs, r, q - 1);
    }
    forall s {:trigger Ceiling(lhs, s)} | 0 < s && Ceiling(lhs, s) == q
      ensures r <= s
    {
      CeilingAtMost(lhs, s, q);
      CeilingAtMost(lhs, q, s);
    }
    if q * rhs == lhs {
      CancelLe(rhs, r, q);
    }
  }

  /** On a non-negative dividend and a positive divisor, `ceilDiv` throws exactly when the floor is
      zero; otherwise its components are the ceiling and the least divisor that has it. */
  lemma CeilDivIsLeast(lhs: int, rhs: int)
    requires 0 <= lhs && 0 < rhs
    ensures lhs < rhs ==> CeilDiv(lhs, rhs) == Throws(CeilDivZero)
    ensures rhs <= lhs ==>
              && CeilDiv(lhs, rhs) == Returns((Ceiling(lhs, rhs), Ceiling(lhs, Ceiling(lhs, rhs))))
              && IsLeastDivisor(lhs, Ceiling(lhs, rhs), Ceiling(lhs, Ceiling(lhs, rhs)))
  {
    CeilingFromRemainder(lhs, rhs);
    FloorBounds(lhs, rhs);
    if lhs < rhs {
      FloorBelow(lhs, rhs, 1);
    } else {
      FloorAtLeast(lhs, rhs, 1);
      LeastDivisor(lhs, rhs);
      CeilingFromRemainder(lhs, Ceiling(lhs, rhs));
    }
  }

  // ---------- the quotes ----------

  /** `computeOutAmount`. BN amounts are signed, so the input may be negative; the slippage-free output that
      it also computes cannot throw, since a zero source reserve has already thrown. */
  function OutAmount(amount: int, source: int, destination: int): Outcome<int> {
    var (newDestination, _) :- CeilDiv(source * destination, source + amount);
    if destination == newDestination then Throws(SwapZero) else Returns(destination - newDestination)
  }

  /** `computeInAmount`. */
  function InAmount(out: int, source: nat, destination: nat): Outcome<int> {
    var (newSource, _) :- CeilDiv(source * destination, destination - out);
    if newSource == source then Throws(SwapZero) else Returns(newSource - source)
  }

  /** For a non-negative input, the output quote in closed form. */
  lemma OutAmountClosedForm(amount: nat, source: nat, destination: nat)
    requires 0 < source
    ensures OutAmount(amount, source, destination) ==
            var inv := source * destination;
            if inv < source + amount then Throws(CeilDivZero)
            else if Ceiling(inv, source + amount) == destination then Throws(SwapZero)
            else Returns(destination - Ceiling(inv, source + amount))
    ensures source * destination >= source + amount ==>
              0 < Ceiling(source * destination, source + amount) <= destination
  {
    var inv := source * destination;
    MulNonNegative(source, destination);
    CeilDivIsLeast(inv, source + amount);
    CeilingAtMost(inv, source + amount, 0);
    MulLe(source, source + amount, destination);
    CeilingAtMost(inv, source + amount, destination);
  }

  /** Every quote on a non-negative input leaves some of the destination and keeps the product. */
  lemma OutAmountKeepsProduct(amount: nat, source: nat, destination: nat)
    requires OutAmount(amount, source, destination).Returns?
    ensures var out := OutAmount(amount, source, destination).value;
            && 0 < source && 0 < amount && 0 < out < destination
            && source * destination <= (source + amount) * (destination - out)
  {
    if source == 0 {
      if amount != 0 { CeilDivIsLeast(0, amount); }
    } else {
      OutAmountClosedForm(amount, source, destination);
      CeilingKeepsProduct(amount, source, destination);
    }
  }

  lemma CeilingKeepsProduct(amount: nat, source: nat, destination: nat)
    requires 0 < source && Ceiling(source * destination, source + amount) < destination
    ensures 0 < amount
    ensures source * destination <= (source + amount) * Ceiling(source * destination, source + amount)
  {
    CeilingBounds(source * destination, source + amount);
    if amount == 0 { CeilingAtMost(source * destination, source, destination - 1); }
  }

  /** A negative input, which nothing checks, is quoted a negative output, or one above the destination reserve. */
  lemma NegativeInput(amount: int, source: nat, destination: nat)
    requires amount < 0 && OutAmount(amount, source, destination).Returns?
    ensures var out := OutAmount(amount, source, destination).value;
            if 0 < source + amount then out < 0 else destination < out
  {
    var inv, x := source * destination, source + amount;
    MulNonNegative(source, destination);
    if 0 < x {
      CeilDivIsLeast(inv, x);
      CeilingAbove(inv, x, source, destination);
    } else if x < 0 {
      NegativeDivisor(inv, x);
    }
  }

  lemma CeilingAbove(inv: int, x: int, source: int, destination: int)
    requires 0 < x <= source && 0 <= destination && inv == source * destination
    ensures destination <= Ceiling(inv, x)
  {
    MulLe(x, source, destination);
    CeilingAtMost(inv, x, destination - 1);
    assert (destination - 1) * x == x * destination - x;
  }

  lemma NegativeDivisor(lhs: nat, rhs: int)
    requires rhs < 0 && CeilDiv(lhs, rhs).Returns?
    ensures CeilDiv(lhs, rhs).value.0 < 0
  {
    FloorBounds(lhs, -rhs);
    NegativeRemainder(lhs / -rhs, rhs);
  }

  lemma NegativeRemainder(q: int, d: int)
    ensures -q * d == q * -d
  {}

  /** Which inputs pay for at least `out`: those that keep the product and that `ceilDiv` accepts. */
  lemma PaysFor(amount: nat, source: nat, destination: nat, out: nat)
    requires 0 < source && 0 < out < destination
    ensures (OutAmount(amount, source, destination).Returns? && out <= OutAmount(amount, source, destination).value)
            <==> source + amount <= source * destination <= (destination - out) * (source + amount)
  {
    OutAmountClosedForm(amount, source, destination);
    CeilingAtMost(source * destination, source + amount, destination - out);
  }

  lemma InAmountClosedForm(out: nat, source: nat, destination: nat)
    requires 0 < source && 0 < out < destination
    ensures var least := Ceiling(source * destination, destination - out);
            source < least <= source * destination && InAmount(out, source, destination) == Returns(least - source)
  {
    var inv, left := source * destination, destination - out;
    MulLe(1, source, destination);
    CeilDivIsLeast(inv, left);
    MulLt(left, destination, source);
    CeilingAtMost(inv, left, source);
    MulLe(1, left, inv);
    CeilingAtMost(inv, left, inv);
  }

  lemma Commutes(x: int, y: int)
    ensures x * y == y * x
  {}

  /** The in and out quotes are adjoint: an input pays for at least `out` exactly when it is at least the
      quoted one and does not exceed what `ceilDiv` accepts; the quoted one is itself such an input. */
  lemma Adjoint(out: nat, source: nat, destination: nat, input: nat)
    requires 0 < source && 0 < out < destination
    ensures var quote := InAmount(out, source, destination);
            && quote.Returns? && 0 < quote.value <= source * destination - source
            && ((OutAmount(input, source, destination).Returns? && out <= OutAmount(input, source, destination).value)
                <==> quote.value <= input <= source * destination - source)
  {
    var inv, left, x := source * destination, destination - out, source + input;
    PaysFor(input, source, destination, out);
    InAmountClosedForm(out, source, destination);
    CeilingAtMost(inv, left, x);
    Commutes(left, x);
  }

  lemma NoInputForNothing(out: int, source: nat, destination: nat)
    requires 0 < source && 0 < destination && out <= 0
    ensures InAmount(out, source, destination).Returns? ==> InAmount(out, source, destination).value < 0
  {
    var inv, left := source * destination, destination - out;
    MulNonNegative(source, destination);
    CeilDivIsLeast(inv, left);
    MulLe(destination, left, source);
    CeilingAtMost(inv, left, source);
  }

  lemma NegativeQuotient(lhs: int, rhs: int)
    requires 0 <= lhs && rhs < 0 && CeilDiv(lhs, rhs).Returns?
    ensures CeilDiv(lhs, rhs).value.0 <= 0
  {
    FloorBounds(lhs, -rhs);
  }

  /** `computeInAmount` quotes a positive input exactly for an output between zero and the reserve.
      Beyond the reserve it does not always throw: the divisor is negative and so is the quote. */
  lemma InAmountPositiveIff(out: int, source: nat, destination: nat)
    requires 0 < source && 0 < destination
    ensures (InAmount(out, source, destination).Returns? && 0 < InAmount(out, source, destination).value)
            <==> 0 < out < destination
  {
    if 0 < out < destination {
      InAmountClosedForm(out, source, destination);
    } else if out <= 0 {
      NoInputForNothing(out, source, destination);
    } else if InAmount(out, source, destination).Returns? {
      MulNonNegative(source, destination);
      NegativeQuotient(source * destination, destination - out);
    }
  }

  /** Ten of each: asking for fifteen out quotes an input of minus thirty. */
  lemma InAmountBeyondReserve()
    ensures InAmount(15, 10, 10) == Returns(-30)
  {}

  // ---------- runs of swaps ----------

  /** The total output of a sequence of same-direction swaps, when each of them succeeds. */
  function SplitOut(amounts: seq<nat>, source: nat, destination: nat): Outcome<nat> {
    if amounts == [] then Returns(0)
    else
      var out :- OutAmount(amounts[0], source, destination);
      OutAmountKeepsProduct(amounts[0], source, destination);
      var rest :- SplitOut(amounts[1..], source + amounts[0], destination - out);
      Returns(out + rest)
  }

  lemma {:induction false} SplitKeepsProduct(amounts: seq<nat>, source: nat, destination: nat)
    requires SplitOut(amounts, source, destination).Returns?
    ensures var total := SplitOut(amounts, source, destination).value;
            && total <= destination && (amounts != [] ==> 0 < source && 0 < total < destination)
            && source * destination <= (source + Sum(amounts)) * (destination - total)
  {
    if amounts != [] {
      var out := OutAmount(amounts[0], source, destination).value;
      OutAmountKeepsProduct(amounts[0], source, destination);
      SplitKeepsProduct(amounts[1..], source + amounts[0], destination - out);
    }
  }

  lemma CombinedPaysFor(amount: nat, source: nat, destination: nat, total: nat)
    requires 0 < source && 0 < total < destination
    requires source * destination <= (source + amount) * (destination - total)
    ensures if source * destination < source + amount
            then OutAmount(amount, source, destination) == Throws(CeilDivZero)
            else
              && OutAmount(amount, source, destination).Returns?
              && total <= OutAmount(amount, source, destination).value
  {
    if source * destination < source + amount {
      OutAmountClosedForm(amount, source, destination);
    } else {
      Commutes(source + amount, destination - total);
      PaysFor(amount, source, destination, total);
    }
  }

  /** Splitting a trade never yields more than the single combined swap; the combined swap can only fail
      by being too large for `ceilDiv`. */
  lemma SplittingNeverGains(amounts: seq<nat>, source: nat, destination: nat)
    requires amounts != [] && SplitOut(amounts, source, destination).Returns?
    ensures match OutAmount(Sum(amounts), source, destination)
            case Returns(combined) => SplitOut(amounts, source, destination).value <= combined
            case Throws(error) => error == CeilDivZero && source * destination < source + Sum(amounts)
  {
    SplitKeepsProduct(amounts, source, destination);
    CombinedPaysFor(Sum(amounts), source, destination, SplitOut(amounts, source, destination).value);
  }

  /** The reserves after a trade; a quote that throws trades nothing. */
  function Apply(r: Reserves, t: Trade): Reserves {
    match t.direction
    case AToB =>
      (match OutAmount(t.amount, r.a, r.b)
       case Throws(_) => r
       case Returns(out) => OutAmountKeepsProduct(t.amount, r.a, r.b); Reserves(r.a + t.amount, r.b - out))
    case BToA =>
      (match OutAmount(t.amount, r.b, r.a)
       case Throws(_) => r
       case Returns(out) => OutAmountKeepsProduct(t.amount, r.b, r.a); Reserves(r.a - out, r.b + t.amount))
  }

  function Run(r: Reserves, trades: seq<Trade>): Reserves
    decreases |trades|
  {
    if trades == [] then r else Run(Apply(r, trades[0]), trades[1..])
  }

  /** A trade adds the input to its source, takes what is quoted from its destination, and moves nothing else. */
  lemma ApplyIsExact(r: Reserves, t: Trade)
    ensures var (source, destination) := if t.direction == AToB then (r.a, r.b) else (r.b, r.a);
            var r' := Apply(r, t);
            var (source', destination') := if t.direction == AToB then (r'.a, r'.b) else (r'.b, r'.a);
            match OutAmount(t.amount, source, destination)
            case Throws(_) => r' == r
            case Returns(out) => source' == source + t.amount && destination' == destination - out
  {}

  lemma ApplyKeepsProduct(r: Reserves, t: Trade)
    ensures var r' := Apply(r, t);
            && r.a * r.b <= r'.a * r'.b
            && (0 < r.a && 0 < r.b ==> 0 < r'.a && 0 < r'.b)
  {
    match t.direction
    case AToB => if OutAmount(t.amount, r.a, r.b).Returns? { OutAmountKeepsProduct(t.amount, r.a, r.b); }
    case BToA => if OutAmount(t.amount, r.b, r.a).Returns? { OutAmountKeepsProduct(t.amount, r.b, r.a); }
  }

  /** The product of the reserves never falls over any run of trades in either direction. */
  lemma {:induction false} RunKeepsProduct(r: Reserves, trades: seq<Trade>)
    ensures var r' := Run(r, trades);
            && r.a * r.b <= r'.a * r'.b
            && (0 < r.a && 0 < r.b ==> 0 < r'.a && 0 < r'.b)
    decreases |trades|
  {
    if trades != [] {
      ApplyKeepsProduct(r, trades[0]);
      RunKeepsProduct(Apply(r, trades[0]), trades[1..]);
    }
  }

  /** With an empty side nothing trades. */
  lemma EmptySideTradesNothing(r: Reserves, t: Trade)
    requires r.a == 0 || r.b == 0
    ensures Apply(r, t) == r
  {
    EmptySideThrows(t.amount, r.a, r.b);
    EmptySideThrows(t.amount, r.b, r.a);
  }

  lemma EmptySideThrows(amount: nat, source: nat, destination: nat)
    requires source == 0 || destination == 0
    ensures OutAmount(amount, source, destination).Throws?
  {
    if OutAmount(amount, source, destination).Returns? { OutAmountKeepsProduct(amount, source, destination); }
  }

  lemma {:induction false} EmptySideStays(r: Reserves, trades: seq<Trade>)
    requires r.a == 0 || r.b == 0
    ensures Run(r, trades) == r
    decreases |trades|
  {
    if trades != [] {
      EmptySideTradesNothing(r, trades[0]);
      EmptySideStays(r, trades[1..]);
    }
  }

  /** No run of trades takes from one reserve without leaving more in the other. */
  lemma NoFreeTrade(r: Reserves, trades: seq<Trade>)
    ensures var r' := Run(r, trades);
            r'.a <= r.a && r'.b <= r.b ==> r' == r
  {
    var r' := Run(r, trades);
    if r.a == 0 || r.b == 0 {
      EmptySideStays(r, trades);
    } else {
      RunKeepsProduct(r, trades);
      if r'.a <= r.a && r'.b <= r.b {
        ProductRigid(r.a, r.b, r'.a, r'.b);
      }
    }
  }

  lemma ProductRigid(a: int, b: int, a': int, b': int)
    requires 0 < a' <= a && 0 < b' <= b && a * b <= a' * b'
    ensures a' == a && b' == b
  {
    MulLe(b', b, a');
    CancelLe(a, a', b);
    CancelLe(b, b', a);
  }

  // ---------- the Rust wrapper ----------

  datatype SwapResult = SwapResult(newSource: nat, newDestination: nat, sourceSwapped: nat, destinationSwapped: nat)

  /** `ConstantProduct::swap` over the library swap, with every u128 step checked. */
  function Swap(amount: u64, source: u64, destination: u64): Option<SwapResult> {
    var inv :- Fit128(source * destination);
    var newSource :- Fit128(source + amount);
    match CeilDiv(inv, newSource)
    case Throws(_) => None
    case Returns((newDestination, reducedSource)) =>
      var sourceSwapped :- Fit128(reducedSource - source);
      var destinationSwapped :- Fit128(destination - newDestination);
      if destinationSwapped == 0 then None
      else
        var afterSource :- Fit128(source + sourceSwapped);
        var afterDestination :- Fit128(destination - destinationSwapped);
        Some(SwapResult(afterSource, afterDestination, sourceSwapped, destinationSwapped))
  }

  /** The library's reduced source amount, where the output is positive. */
  lemma ReducedSource(inv: int, source: int, destination: int, newSource: int)
    requires 0 < source <= newSource <= inv && inv == source * destination
    requires Ceiling(inv, newSource) < destination
    ensures var q := Ceiling(inv, newSource);
            && 0 < q && source < Ceiling(inv, q) <= newSource
            && (Ceiling(inv, q) - 1) * q < inv <= Ceiling(inv, q) * q
  {
    var q := Ceiling(inv, newSource);
    LeastDivisor(inv, newSource);
    CeilingBounds(inv, q);
    MulLt(q, destination, source);
    CeilingAtMost(inv, q, source);
  }

  /** The library swap in closed form. */
  lemma SwapClosedForm(amount: u64, source: u64, destination: u64)
    requires 0 < source
    ensures var inv, x := source * destination, source + amount;
            if inv < x || Ceiling(inv, x) == destination then Swap(amount, source, destination) == None
            else
              var q := Ceiling(inv, x);
              && 0 < q < destination && source < Ceiling(inv, q) <= x
              && (Ceiling(inv, q) - 1) * q < inv <= Ceiling(inv, q) * q
              && Swap(amount, source, destination)
                 == Some(SwapResult(Ceiling(inv, q), q, Ceiling(inv, q) - source, destination - q))
  {
    var inv, x := source * destination, source + amount;
    U64Product(source, destination);
    CeilDivIsLeast(inv, x);
    if x <= inv {
      MulLe(source, x, destination);
      CeilingAtMost(inv, x, destination);
      if Ceiling(inv, x) < destination {
        ReducedSource(inv, source, destination, x);
      }
    }
  }

  /** The checked Rust swap succeeds exactly when the TypeScript quote returns, with the same output. Its new
      reserves multiply to at least the old product, and it takes no more of the input than that needs. */
  lemma SwapMatchesQuote(amount: u64, source: u64, destination: u64)
    ensures Swap(amount, source, destination).Some? <==> OutAmount(amount, source, destination).Returns?
    ensures Swap(amount, source, destination).Some? ==>
              var r := Swap(amount, source, destination).value;
              && r.destinationSwapped == OutAmount(amount, source, destination).value
              && r.newDestination == destination - r.destinationSwapped
              && 0 < r.sourceSwapped <= amount && r.newSource == source + r.sourceSwapped
              && source * destination <= r.newSource * r.newDestination
              && (r.newSource - 1) * r.newDestination < source * destination
  {
    if source == 0 {
      if amount != 0 { CeilDivIsLeast(0, amount); }
    } else {
      SwapClosedForm(amount, source, destination);
      OutAmountClosedForm(amount, source, destination);
    }
  }
}
