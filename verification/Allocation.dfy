/** Splitting locked LP by weights: `fromAllocationsToAmount` in
    ts-client/src/examples/create_pool_and_lock_liquidity.ts, on integer weights. */
module Allocation {
  import opened Arithmetic

  /** The first n parts are the floors of their exact shares of the whole. */
  ghost predicate AreFloors(parts: seq<nat>, lp: nat, weights: seq<nat>, total: nat, n: nat) {
    && 0 < total && n <= |parts| && n <= |weights|
    && forall i :: 0 <= i < n ==> parts[i] * total <= lp * weights[i] < (parts[i] + 1) * total
  }

  /** The floors of the first n shares fall short of their exact sum by less than n units. */
  lemma {:induction false} FloorsFallShort(parts: seq<nat>, lp: nat, weights: seq<nat>, total: nat, n: nat)
    requires AreFloors(parts, lp, weights, total, n)
    ensures Sum(parts[..n]) * total <= lp * Sum(weights[..n]) <= (Sum(parts[..n]) + n) * total
    ensures 0 < n ==> lp * Sum(weights[..n]) < (Sum(parts[..n]) + n) * total
    decreases n
  {
    if n != 0 {
      FloorsFallShort(parts, lp, weights, total, n - 1);
      SumOfPrefix(parts, n);
      SumOfPrefix(weights, n);
      AddShare(Sum(parts[..n - 1]), parts[n - 1], lp, Sum(weights[..n - 1]), weights[n - 1], total, n - 1);
    }
  }

  lemma SumOfPrefix(s: seq<nat>, n: nat)
    requires 0 < n <= |s|
    ensures Sum(s[..n]) == Sum(s[..n - 1]) + s[n - 1]
  {
    assert s[..n] == s[..n - 1] + [s[n - 1]];
    SumExtends(s[..n - 1], s[n - 1]);
  }

  lemma AddShare(sum: int, part: int, lp: int, weightSum: int, weight: int, total: int, n: int)
    requires sum * total <= lp * weightSum <= (sum + n) * total
    requires part * total <= lp * weight < (part + 1) * total
    ensures (sum + part) * total <= lp * (weightSum + weight) < (sum + part + n + 1) * total
  {
    assert (sum + part) * total == sum * total + part * total;
    assert lp * (weightSum + weight) == lp * weightSum + lp * weight;
    assert (sum + part + n + 1) * total == (sum + n) * total + (part + 1) * total;
  }

  /** The last part, which takes the remainder, is at least its exact share and exceeds it by less than one
      unit for each earlier part. */
  lemma LastPart(parts: seq<nat>, lp: nat, weights: seq<nat>)
    requires 0 < |weights| == |parts| + 1 && 0 < Sum(weights)
    requires AreFloors(parts, lp, weights, Sum(weights), |parts|)
    ensures var last := lp - Sum(parts);
            && 0 <= last && lp * weights[|parts|] <= last * Sum(weights)
            && (parts == [] ==> last == lp)
            && (parts != [] ==> last * Sum(weights) < lp * weights[|parts|] + |parts| * Sum(weights))
  {
    var n := |parts|;
    assert parts[..n] == parts;
    FloorsFallShort(parts, lp, weights, Sum(weights), n);
    SumOfPrefix(weights, n + 1);
    assert weights[..n + 1] == weights;
    TakeRest(Sum(parts), lp, Sum(weights[..n]), weights[n], Sum(weights), n);
  }

  lemma TakeRest(sum: int, lp: int, weightSum: int, weight: int, total: int, n: int)
    requires 0 <= lp && 0 <= weight && 0 < total == weightSum + weight
    requires sum * total <= lp * weightSum
    ensures lp * weight <= (lp - sum) * total && 0 <= lp - sum
    ensures lp * weightSum < (sum + n) * total ==> (lp - sum) * total < lp * weight + n * total
  {
    assert lp * total == lp * weightSum + lp * weight;
    assert (lp - sum) * total == lp * total - sum * total;
    assert (sum + n) * total == sum * total + n * total;
    MulNonNegative(lp, weight);
    CancelLe(0, lp - sum, total);
  }

  /** It throws exactly when the weights sum to zero, as they do for an empty list. Otherwise it distributes
      exactly the LP amount: each earlier part is the floor of its exact share, and the last takes the rest. */
  method FromAllocationsToAmount(lp: nat, weights: seq<nat>) returns (r: Outcome<seq<nat>>)
    ensures r.Throws? <==> Sum(weights) == 0
    ensures r.Throws? ==> r.error == SumZero
    ensures r.Returns? ==>
              var n := |weights| - 1;
              && |r.value| == |weights| > 0
              && Sum(r.value) == lp
              && AreFloors(r.value, lp, weights, Sum(weights), n)
              && lp * weights[n] <= r.value[n] * Sum(weights)
              && (n == 0 ==> r.value[0] == lp)
              && (0 < n ==> r.value[n] * Sum(weights) < lp * weights[n] + n * Sum(weights))
  {
    var total := 0;
    for i := 0 to |weights|
      invariant total == Sum(weights[..i])
    {
      SumOfPrefix(weights, i + 1);
      total := total + weights[i];
    }
    assert weights[..|weights|] == weights;
    if total == 0 {
      return Throws(SumZero);
    }
    var parts: seq<nat>, sum := [], 0;
    var n := |weights| - 1;
    for i := 0 to n
      invariant |parts| == i && sum == Sum(parts)
      invariant AreFloors(parts, lp, weights, total, i)
    {
      MulNonNegative(lp, weights[i]);
      FloorBounds(lp * weights[i], total);
      var part: nat := lp * weights[i] / total;
      QuotientBounds(lp * weights[i], total, part);
      SumExtends(parts, part);
      sum := sum + part;
      parts := parts + [part];
    }
    LastPart(parts, lp, weights);
    SumExtends(parts, lp - sum);
    return Returns(parts + [lp - sum]);
  }
}
