/** The exact StableSwap invariant that the solvers of
    ts-client/src/amm/curve/stable-swap-math/calculator.ts approximate, as an integer polynomial. */
module StableInvariant {
  import opened Arithmetic

  /** Both Newton loops stop after this many iterations. */
  const MAX_ITERS: nat := 20

  /** The two loop variables of a Newton loop. */
  datatype Iterate = Iterate(current: nat, previous: nat) {
    predicate Converged() {
      Abs(current - previous) <= 1
    }
  }

  /** Balances that three factors of 64 bits make: a token amount, its multiplier and a virtual price. */
  const SCALED_MAX: int := 0x1_0000_0000_0000_0000_0000_0000_0000_0000_0000_0000_0000_0000

  /** L squared n times. */
  function Tower(l: int, n: nat): int
    decreases n
  {
    if n == 0 then l else Tower(l * l, n - 1)
  }

  /** The exact StableSwap invariant, cleared of denominators. With `ann` = 2 amp, a real D is
      at most the invariant of balances a and b exactly when Excess(ann, a, b, D) <= 0. */
  function Excess(ann: int, a: int, b: int, d: int): int {
    d * d * d + 4 * (a * b) * Slack(ann, a + b, d)
  }

  function Slack(ann: int, sum: int, d: int): int {
    (ann - 1) * d - ann * sum
  }

  lemma SlackNext(ann: int, sum: int, d: int)
    ensures Slack(ann, sum, d + 1) == Slack(ann, sum, d) + (ann - 1)
  {
    assert (ann - 1) * (d + 1) == (ann - 1) * d + (ann - 1);
  }

  lemma CubeMonotone(d: int, e: int)
    requires d <= e
    ensures d * d * d <= e * e * e
  {
    var q := e * e + e * d + d * d;
    assert 2 * q == e * e + d * d + (e + d) * (e + d);
    assert e * e * e - d * d * d == (e - d) * q;
    MulNonNegative(e - d, q);
  }

  lemma SlackMonotone(ann: int, sum: int, d: int, sum': int, d': int)
    requires 1 <= ann && sum' <= sum && d <= d'
    ensures Slack(ann, sum, d) <= Slack(ann, sum', d')
  {
    MulLe(d, d', ann - 1);
    MulLe(sum', sum, ann);
  }

  /** The excess grows with D, so the integers at most the invariant are downward closed. */
  lemma ExcessMonotone(ann: int, a: int, b: int, d: int, e: int)
    requires 1 <= ann && 0 <= a && 0 <= b && d <= e
    ensures Excess(ann, a, b, d) <= Excess(ann, a, b, e)
  {
    CubeMonotone(d, e);
    MulNonNegative(a, b);
    SlackMonotone(ann, a + b, d, a + b, e);
    MulLe(Slack(ann, a + b, d), Slack(ann, a + b, e), 4 * (a * b));
  }

  lemma ProductMonotone(a: int, b: int, a': int, b': int)
    requires 0 <= a <= a' && 0 <= b <= b'
    ensures 0 <= a * b <= a' * b'
  {
    MulNonNegative(a, b);
    MulLe(a, a', b);
    MulLe(b, b', a');
  }

  lemma SquareLess(x: int, y: int)
    requires 0 <= y && x * x < y * y
    ensures x < y
  {
    if y <= x {
      ProductMonotone(y, y, x, x);
    }
  }

  lemma ScaledSlackShrinks(cube: int, p: int, k: int, p': int, k': int)
    requires 0 < cube && 0 <= p <= p' && k' <= k
    requires cube + p * k <= 0
    ensures cube + p' * k' <= 0
  {
    assert k < 0;
    MulLe(p, p', -k);
    MulLe(-k, -k', p');
  }

  lemma NonPositiveExcess(ann: int, a: int, b: int, d: int)
    requires 1 <= ann && 0 <= a && 0 <= b && d <= 0
    ensures Excess(ann, a, b, d) <= 0
  {
    CubeMonotone(d, 0);
    SlackMonotone(ann, a + b, d, 0, 0);
    MulNonNegative(a, b);
    MulLe(Slack(ann, a + b, d), 0, 4 * (a * b));
  }

  /** Larger balances have a larger invariant. */
  lemma ExcessShrinksWithBalances(ann: int, a: int, b: int, a': int, b': int, d: int)
    requires 1 <= ann && 0 <= a <= a' && 0 <= b <= b'
    requires Excess(ann, a, b, d) <= 0
    ensures Excess(ann, a', b', d) <= 0
  {
    if d <= 0 {
      NonPositiveExcess(ann, a', b', d);
    } else {
      CubeMonotone(1, d);
      ProductMonotone(a, b, a', b');
      SlackMonotone(ann, a' + b', d, a + b, d);
      ScaledSlackShrinks(d * d * d, 4 * (a * b), Slack(ann, a + b, d), 4 * (a' * b'), Slack(ann, a' + b', d));
    }
  }
}
