/** Integer division facts shared by the pricing modules, and the outcome types of
    TypeScript calls (a value or a thrown error) and of Rust calls (Some or None). */
module Arithmetic {

  /** What a TypeScript function does: it returns a value or throws. */
  datatype Outcome<+T> = Returns(value: T) | Throws(error: Error) {
    predicate IsFailure() { Throws? }
    function PropagateFailure<U>(): Outcome<U>
      requires Throws?
    {
      Throws(error)
    }
    function Extract(): T
      requires Returns?
    {
      value
    }
  }

  datatype Error =
    | DivisionByZero
    | CeilDivZero
    | SwapZero
    | SumZero
    | NoVirtualPrice
    | UnsafeNumber
    | OutAboveReserve

  /** What a Rust function over checked arithmetic returns. */
  datatype Option<+T> = None | Some(value: T) {
    predicate IsFailure() { None? }
    function PropagateFailure<U>(): Option<U>
      requires None?
    {
      None
    }
    function Extract(): T
      requires Some?
    {
      value
    }
  }

  const U64_MAX: int := 0xFFFF_FFFF_FFFF_FFFF
  const U128_MAX: int := 0xFFFF_FFFF_FFFF_FFFF_FFFF_FFFF_FFFF_FFFF

  type u64 = x: int | 0 <= x <= U64_MAX

  /** The checked u64 and u128 operations: the exact result when it fits, None otherwise. */
  function Fit64(x: int): (r: Option<u64>) {
    if 0 <= x <= U64_MAX then Some(x) else None
  }

  function Fit128(x: int): (r: Option<nat>) {
    if 0 <= x <= U128_MAX then Some(x) else None
  }

  function Sum(s: seq<nat>): nat {
    if s == [] then 0 else s[0] + Sum(s[1..])
  }

  lemma {:induction false} SumExtends(s: seq<nat>, x: nat)
    ensures Sum(s + [x]) == Sum(s) + x
  {
    if s != [] {
      assert (s + [x])[1..] == s[1..] + [x];
      SumExtends(s[1..], x);
    }
  }

  function Abs(x: int): nat {
    if x < 0 then -x else x
  }

  /** Division of BN and BigInt values, which truncates toward zero. */
  function TruncDiv(n: int, d: int): int
    requires d != 0
  {
    if 0 <= n then (if 0 < d then n / d else -(n / -d))
    else (if 0 < d then -(-n / d) else -n / -d)
  }

  /** BN division throws on a zero divisor. */
  function BnDiv(n: int, d: int): Outcome<int> {
    if d == 0 then Throws(DivisionByZero) else Returns(TruncDiv(n, d))
  }

  lemma MulLe(a: int, b: int, c: int)
    requires a <= b && 0 <= c
    ensures a * c <= b * c
  {}

  lemma MulLt(a: int, b: int, c: int)
    requires a < b && 0 < c
    ensures a * c < b * c
  {}

  lemma MulNonNegative(a: int, b: int)
    requires 0 <= a && 0 <= b
    ensures 0 <= a * b
  {}

  lemma Square(x: int)
    ensures 0 <= x * x
  {}

  lemma CancelLt(a: int, b: int, c: int)
    requires a * c < b * c && 0 < c
    ensures a < b
  {}

  lemma CancelLe(a: int, b: int, c: int)
    requires a * c <= b * c && 0 < c
    ensures a <= b
  {}

  lemma U64Product(x: int, y: int)
    requires 0 <= x <= U64_MAX && 0 <= y <= U64_MAX
    ensures 0 <= x * y <= U128_MAX
  {
    MulNonNegative(x, y);
    MulLe(x, U64_MAX, y);
    MulLe(y, U64_MAX, U64_MAX);
  }

  /** The two bounds that characterise a floor quotient. */
  lemma FloorBounds(n: int, d: int)
    requires 0 < d
    ensures n / d * d <= n < n / d * d + d
    ensures 0 <= n ==> 0 <= n / d
  {}

  lemma QuotientBounds(n: int, d: int, r: int)
    requires 0 < d && r == n / d
    ensures r * d <= n < (r + 1) * d
  {
    FloorBounds(n, d);
  }

  lemma FloorAtLeast(n: int, d: int, q: int)
    requires 0 < d && q * d <= n
    ensures q <= n / d
  {
    FloorBounds(n, d);
    CancelLt(q, n / d + 1, d);
  }

  lemma FloorBelow(n: int, d: int, q: int)
    requires 0 < d && n < q * d
    ensures n / d < q
  {
    FloorBounds(n, d);
    CancelLt(n / d, q, d);
  }

  lemma FloorMonotone(m: int, n: int, d: int)
    requires 0 < d && m <= n
    ensures m / d <= n / d
  {
    FloorBounds(m, d);
    FloorAtLeast(n, d, m / d);
  }
}
