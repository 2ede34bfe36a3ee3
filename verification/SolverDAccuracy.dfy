/** How close `computeD` in ts-client/src/amm/curve/stable-swap-math/calculator.ts gets to the exact invariant. */
module SolverDAccuracy {
  import opened Arithmetic
  import opened StableInvariant
  import opened SolverD

  // ---------- how far above the invariant an iteration can land ----------

  lemma TangentLinearAbove(ann: int, s: int, d: int, p: int, r: int)
    requires r * (d * (ann - 1) + 3 * p) <= d * (ann * s + 2 * p)
    ensures d * Slack(ann, s, r) <= -(p * (3 * r - 2 * d))
  {
    assert d * (ann * s + 2 * p) == d * (ann * s) + d * (2 * p);
    assert r * (d * (ann - 1) + 3 * p) == d * (r * (ann - 1)) + r * (3 * p);
    assert d * Slack(ann, s, r) == d * (r * (ann - 1)) - d * (ann * s);
  }

  lemma TangentAboveScaled(d: int, cube: int, p: int, k: int, slack: int, m: int, u: int)
    requires 0 <= k && 0 < m && cube <= m * p + u
    requires d * slack <= -(p * k)
    ensures d * (m * slack) <= -((cube - u) * k)
  {
    MulLe(d * slack, -(p * k), m);
    MulLe(cube - u, m * p, k);
    assert d * slack * m == d * (m * slack);
    assert -(p * k) * m == -(m * p * k);
  }

  lemma ScaledExcess(d: int, cube: int, rest: int, k: int, u: int)
    requires d * rest <= -((d * d * d - u) * k)
    ensures d * (cube + rest) <= d * (cube - d * d * k) + u * k
  {
    assert (d * d * d - u) * k == d * (d * d * k) - u * k;
    assert d * (cube + rest) == d * cube + d * rest;
    assert d * (cube - d * d * k) == d * cube - d * (d * d * k);
  }

  /** How far an iteration can be above the invariant: the tangent error and what the two floors lose. */
  lemma StepDAbove(ann: int, a: int, b: int, d: int, p: int, r: int)
    requires DArgs(ann, a, b, d) && IsStepD(ann, a, b, d, p, r) && 2 * d <= 3 * r
    ensures d * Excess(ann, a, b, r)
         <= d * ((r - d) * (r - d) * (r + 2 * d)) + FloorLoss(a, b, d) * (3 * r - 2 * d)
  {
    var m, k, slack := 4 * (a * b), 3 * r - 2 * d, Slack(ann, a + b, r);
    ProductPositive(a, b);
    TangentLinearAbove(ann, a + b, d, p, r);
    TangentAboveScaled(d, d * d * d, p, k, slack, m, FloorLoss(a, b, d));
    TangentIdentity(d, r);
    ScaledExcess(d, r * r * r, m * slack, k, FloorLoss(a, b, d));
  }

  // ---------- accuracy of a converged result ----------

  /** The growth of the cube over the k units below r. */
  function CubeDrop(r: int, k: int): int {
    3 * (r * r) * k - 3 * r * (k * k) + k * k * k
  }

  lemma CubeDropIs(r: int, k: int)
    ensures r * r * r == (r - k) * (r - k) * (r - k) + CubeDrop(r, k)
  {}

  lemma ExcessDrop(ann: int, a: int, b: int, r: int, k: int)
    ensures Excess(ann, a, b, r) == Excess(ann, a, b, r - k) + CubeDrop(r, k) + 4 * (a * b) * ((ann - 1) * k)
  {
    CubeDropIs(r, k);
    assert Slack(ann, a + b, r) == Slack(ann, a + b, r - k) + (ann - 1) * k;
    AddScaled(4 * (a * b), Slack(ann, a + b, r - k), (ann - 1) * k);
  }

  lemma AddScaled(m: int, x: int, y: int)
    ensures m * (x + y) == m * x + m * y
  {}

  /** The error terms of a step from d to r, with what the floors lose, fit in `room`. */
  ghost predicate Fits(d: int, r: int, loss: int, room: int) {
    d * ((r - d) * (r - d) * (r + 2 * d)) + loss * (3 * r - 2 * d) <= d * room
  }

  /** What k is: one more than the number of times the result goes into the source balance. */
  predicate Units(a: int, d: int, r: int, m: int, k: int) {
    && 2 <= r && 0 < a && 4 * a <= m <= d * d
    && 1 <= k < r && (k - 1) * r <= a < k * r
  }

  lemma Squared(x: int, y: int, z: int)
    requires 0 < z && x * z <= y && y <= z * z
    ensures x <= z
  {
    CancelLe(x, z, z);
  }

  // The result equals the previous iterate.

  lemma SameIdentity(d: int, k: int)
    ensures CubeDrop(d, k) == (k * d - 1) * (2 * (d - 1)) - d + (k * d * (d + 2 - 3 * k) + k * k * k + 3 * d - 2)
  {
    assert k * d * (d + 2 - 3 * k) == d * d * k + 2 * (k * d) - 3 * d * (k * k);
    assert (k * d - 1) * (2 * (d - 1)) == 2 * (d * d * k) - 2 * (k * d) - 2 * d + 2;
  }

  lemma SameLoss(a: int, d: int, m: int)
    ensures 2 * a * d + m - d - 2 * a == a * (2 * (d - 1)) + m - d
  {}

  lemma SameRoom(a: int, d: int, m: int, k: int)
    requires Units(a, d, d, m, k)
    ensures 2 * a * d + m - d - 2 * a <= CubeDrop(d, k) + m * k
  {
    Squared(4 * (k - 1), 4 * a, d) by { assert 4 * (k - 1) * d == 4 * ((k - 1) * d); }
    SameIdentity(d, k);
    SameLoss(a, d, m);
    MulLe(a, k * d - 1, 2 * (d - 1));
    MulNonNegative(k, d);
    MulNonNegative(k * d, d + 2 - 3 * k);
    MulNonNegative(k, k);
    MulNonNegative(k * k, k);
    MulLe(1, k, m);
  }

  lemma FitsSame(d: int, loss: int, room: int)
    requires 0 <= d && loss <= room
    ensures Fits(d, d, loss, room)
  {
    MulLe(loss, room, d);
  }

  // The result is one above the previous iterate.

  lemma UpLoss(a: int, d: int, m: int)
    ensures d * (3 * d + 1) + (2 * a * d + m - d - 2 * a) * (d + 3)
         == a * (2 * ((d + 3) * (d - 1))) + m * (d + 3) + 2 * (d * (d - 1))
  {
    assert (d + 3) * (d - 1) == d * d + 2 * d - 3;
    assert (2 * a * d + m - d - 2 * a) * (d + 3) == 2 * a * (d * d) + 4 * (a * d) - 6 * a + m * (d + 3) - d * d - 3 * d;
    assert a * (2 * (d * d + 2 * d - 3)) == 2 * a * (d * d) + 4 * (a * d) - 6 * a;
  }

  /** What is left of the cube over k units above d, less the loss at the largest a. */
  function UpRoom(d: int, k: int): int {
    k * (d * d) * (d - 3 * k) + d * (k * k * k - 3 * (k * k) + 5 * k + 6) + 6 * k - 6
  }

  lemma UpCube(d: int, k: int)
    ensures d * CubeDrop(d + 1, k)
         == 3 * (d * d * d * k + 2 * (d * d * k) + d * k) - 3 * (d * d * k * k + d * k * k) + d * k * k * k
  {
    UpDrop(d, k);
    UpScaled(d, k);
    Powers(d, k);
    AddThree(d, d * d * k + 2 * (d * k) + k, d * k * k + k * k, k * k * k);
  }

  lemma Powers(d: int, k: int)
    ensures d * (d * d * k) == d * d * d * k && d * (d * k) == d * d * k
    ensures d * (d * k * k) == d * d * k * k && d * (k * k) == d * k * k
    ensures d * (k * k * k) == d * k * k * k
  {}

  lemma UpScaled(d: int, k: int)
    ensures d * (d * d * k + 2 * (d * k) + k) == d * d * d * k + 2 * (d * d * k) + d * k
    ensures d * (d * k * k + k * k) == d * d * k * k + d * k * k
  {
    Powers(d, k);
    UpDistributes(d, d * d * k, d * k, k, d * k * k, k * k);
  }

  lemma UpDistributes(d: int, x: int, y: int, z: int, u: int, v: int)
    ensures d * (x + 2 * y + z) == d * x + 2 * (d * y) + d * z
    ensures d * (u + v) == d * u + d * v
  {}

  lemma AddThree(d: int, x: int, y: int, z: int)
    ensures d * (3 * x - 3 * y + z) == 3 * (d * x) - 3 * (d * y) + d * z
  {}

  lemma UpDrop(d: int, k: int)
    ensures CubeDrop(d + 1, k) == 3 * (d * d * k + 2 * (d * k) + k) - 3 * (d * k * k + k * k) + k * k * k
  {
    assert (d + 1) * (d + 1) == d * d + 2 * d + 1;
    assert (d * d + 2 * d + 1) * k == d * d * k + 2 * (d * k) + k;
    assert (d + 1) * (k * k) == d * k * k + k * k;
  }

  lemma UpShare(d: int, k: int)
    ensures (k * (d + 1) - 1) * (2 * ((d + 3) * (d - 1)))
         == 2 * (d * d * d * k) + 6 * (d * d * k) - 2 * (d * k) - 6 * k - 2 * (d * d) - 4 * d + 6
  {
    assert (d + 3) * (d - 1) == d * d + 2 * d - 3;
    assert (k * (d + 1) - 1) * (d * d + 2 * d - 3)
        == d * d * d * k + 3 * (d * d * k) - d * k - 3 * k - d * d - 2 * d + 3;
  }

  lemma UpRoomIs(d: int, k: int)
    ensures UpRoom(d, k)
         == d * d * d * k - 3 * (d * d * k * k) + d * k * k * k - 3 * (d * k * k) + 5 * (d * k) + 6 * d + 6 * k - 6
  {
    assert k * (d * d) * (d - 3 * k) == d * d * d * k - 3 * (d * d * k * k);
    assert d * (k * k * k - 3 * (k * k) + 5 * k + 6) == d * k * k * k - 3 * (d * k * k) + 5 * (d * k) + 6 * d;
  }

  lemma UpIdentity(d: int, k: int)
    ensures d * CubeDrop(d + 1, k) == (k * (d + 1) - 1) * (2 * ((d + 3) * (d - 1))) + 2 * (d * (d - 1)) + UpRoom(d, k)
  {
    UpCube(d, k);
    UpShare(d, k);
    UpRoomIs(d, k);
    assert d * (d - 1) == d * d - d;
  }

  lemma LeftAtOne(d: int, m: int, c: int, room: int)
    requires c * m <= room
    ensures m * (d + c) <= room + d * (m * 1)
  {
    assert m * (d + c) == d * m + c * m;
  }

  lemma LeftAbove(d: int, m: int, k: int, c: int, room: int)
    requires 0 <= room && 0 <= m && 2 <= k && 0 <= d && c <= d
    ensures m * (d + c) <= room + d * (m * k)
  {
    MulLe(2, k, d);
    MulLe(d + c, k * d, m);
    assert k * d * m == d * (m * k);
  }

  lemma UpRoomAtOne(d: int, m: int)
    requires 0 <= d && m <= d * d
    ensures 3 * m <= UpRoom(d, 1)
  {
    assert d * ((d - 3) * (d - 3)) == d * d * (d - 3) - 3 * (d * d) + 9 * d;
    Square(d - 3);
    MulNonNegative(d, (d - 3) * (d - 3));
  }

  lemma UpRoomAbove(d: int, k: int)
    requires 2 <= k && 4 * k - 3 <= d
    ensures 0 <= UpRoom(d, k)
  {
    if k == 2 {
      UpRoomAtTwo(d);
    } else {
      MulNonNegative(d, d);
      MulNonNegative(k, d * d);
      MulNonNegative(k * (d * d), d - 3 * k);
      UpTail(k);
      MulNonNegative(d, k * k * k - 3 * (k * k) + 5 * k + 6);
    }
  }

  lemma UpTail(k: int)
    requires 3 <= k
    ensures 0 <= k * k * k - 3 * (k * k) + 5 * k + 6
  {
    MulNonNegative(k, k);
    MulNonNegative(k * k, k - 3);
    assert k * k * (k - 3) == k * k * k - 3 * (k * k);
  }

  lemma UpRoomAtTwo(d: int)
    requires 5 <= d
    ensures 0 <= UpRoom(d, 2)
  {
    MulLe(5, d, d);
    MulNonNegative(d * d - 5 * d, d - 1);
    assert UpRoom(d, 2) == 2 * (d * d * (d - 6)) + 12 * d + 6;
    assert (d * d - 5 * d) * (d - 1) == d * d * (d - 6) + 5 * d;
  }

  lemma UpUnits(a: int, d: int, m: int, k: int)
    requires Units(a, d, d + 1, m, k)
    ensures 4 * k - 3 <= d
  {
    assert 4 * (k - 1) * (d + 1) == 4 * ((k - 1) * (d + 1));
    assert d * d < d * (d + 1);
    CancelLt(4 * (k - 1), d, d + 1);
  }

  lemma UpLeft(a: int, d: int, m: int, k: int)
    requires Units(a, d, d + 1, m, k)
    ensures m * (d + 3) <= UpRoom(d, k) + d * (m * k)
  {
    if k == 1 {
      UpRoomAtOne(d, m);
      LeftAtOne(d, m, 3, UpRoom(d, 1));
    } else {
      UpUnits(a, d, m, k);
      UpRoomAbove(d, k);
      LeftAbove(d, m, k, 3, UpRoom(d, k));
    }
  }

  lemma UpFits(a: int, d: int, m: int, k: int)
    requires Units(a, d, d + 1, m, k)
    ensures Fits(d, d + 1, 2 * a * d + m - d - 2 * a, CubeDrop(d + 1, k) + m * k)
  {
    UpLoss(a, d, m);
    UpIdentity(d, k);
    UpLeft(a, d, m, k);
    UpShareBound(a, d, k);
    UpCombines(d, 2 * a * d + m - d - 2 * a, CubeDrop(d + 1, k), m * k);
  }

  lemma UpShareBound(a: int, d: int, k: int)
    requires 1 <= d && a < k * (d + 1)
    ensures a * (2 * ((d + 3) * (d - 1))) <= (k * (d + 1) - 1) * (2 * ((d + 3) * (d - 1)))
  {
    MulNonNegative(d + 3, d - 1);
    MulLe(a, k * (d + 1) - 1, 2 * ((d + 3) * (d - 1)));
  }

  lemma UpCombines(d: int, loss: int, drop: int, rest: int)
    requires d * (3 * d + 1) + loss * (d + 3) <= d * drop + d * rest
    ensures Fits(d, d + 1, loss, drop + rest)
  {
    assert (d + 1 - d) * (d + 1 - d) * (d + 1 + 2 * d) == 3 * d + 1;
    assert 3 * (d + 1) - 2 * d == d + 3;
    AddScaled(d, drop, rest);
  }

  // The result is one below the previous iterate.

  lemma DownLoss(a: int, d: int, m: int)
    ensures d * (3 * d - 1) + (2 * a * d + m - d - 2 * a) * (d - 3)
         == a * (2 * ((d - 1) * (d - 3))) + m * (d - 3) + 2 * (d * (d + 1))
  {
    assert (d - 1) * (d - 3) == d * d - 4 * d + 3;
    assert (2 * a * d + m - d - 2 * a) * (d - 3) == 2 * a * (d * d) - 8 * (a * d) + 6 * a + m * (d - 3) - d * d + 3 * d;
    assert a * (2 * (d * d - 4 * d + 3)) == 2 * a * (d * d) - 8 * (a * d) + 6 * a;
  }

  /** What is left of the cube over k units below d, less the loss at the largest a. */
  function DownRoom(d: int, k: int): int {
    k * (d * d) * (d + 4 - 3 * k) + d * (k * k * k + 3 * (k * k) - 11 * k - 10) + 6 * k + 6
  }

  lemma DownCube(d: int, k: int)
    ensures d * CubeDrop(d - 1, k)
         == 3 * (d * d * d * k - 2 * (d * d * k) + d * k) - 3 * (d * d * k * k - d * k * k) + d * k * k * k
  {
    DownDrop(d, k);
    DownScaled(d, k);
    Powers(d, k);
    AddThree(d, d * d * k - 2 * (d * k) + k, d * k * k - k * k, k * k * k);
  }

  lemma DownScaled(d: int, k: int)
    ensures d * (d * d * k - 2 * (d * k) + k) == d * d * d * k - 2 * (d * d * k) + d * k
    ensures d * (d * k * k - k * k) == d * d * k * k - d * k * k
  {
    Powers(d, k);
    DownDistributes(d, d * d * k, d * k, k, d * k * k, k * k);
  }

  lemma DownDistributes(d: int, x: int, y: int, z: int, u: int, v: int)
    ensures d * (x - 2 * y + z) == d * x - 2 * (d * y) + d * z
    ensures d * (u - v) == d * u - d * v
  {}

  lemma DownDrop(d: int, k: int)
    ensures CubeDrop(d - 1, k) == 3 * (d * d * k - 2 * (d * k) + k) - 3 * (d * k * k - k * k) + k * k * k
  {
    assert (d - 1) * (d - 1) == d * d - 2 * d + 1;
    assert (d * d - 2 * d + 1) * k == d * d * k - 2 * (d * k) + k;
    assert (d - 1) * (k * k) == d * k * k - k * k;
  }

  lemma DownShare(d: int, k: int)
    ensures (k * (d - 1) - 1) * (2 * ((d - 1) * (d - 3)))
         == 2 * (d * d * d * k) - 10 * (d * d * k) + 14 * (d * k) - 6 * k - 2 * (d * d) + 8 * d - 6
  {
    assert (d - 1) * (d - 3) == d * d - 4 * d + 3;
    assert (k * (d - 1) - 1) * (d * d - 4 * d + 3)
        == d * d * d * k - 5 * (d * d * k) + 7 * (d * k) - 3 * k - d * d + 4 * d - 3;
  }

  lemma DownHead(d: int, k: int)
    ensures k * (d * d) * (d + 4 - 3 * k) == d * d * d * k + 4 * (d * d * k) - 3 * (d * d * k * k)
  {}

  lemma DownTailTerms(d: int, x: int, y: int, z: int)
    ensures d * (x + 3 * y - 11 * z - 10) == d * x + 3 * (d * y) - 11 * (d * z) - 10 * d
  {}

  lemma DownRoomIs(d: int, k: int)
    ensures DownRoom(d, k)
         == d * d * d * k + 4 * (d * d * k) - 3 * (d * d * k * k) + d * k * k * k + 3 * (d * k * k) - 11 * (d * k)
            - 10 * d + 6 * k + 6
  {
    DownHead(d, k);
    DownTailTerms(d, k * k * k, k * k, k);
    Powers(d, k);
  }

  lemma DownIdentity(d: int, k: int)
    ensures d * CubeDrop(d - 1, k) == (k * (d - 1) - 1) * (2 * ((d - 1) * (d - 3))) + 2 * (d * (d + 1)) + DownRoom(d, k)
  {
    DownCube(d, k);
    DownShare(d, k);
    DownRoomIs(d, k);
    assert d * (d + 1) == d * d + d;
  }

  lemma DownRoomAtOne(d: int, m: int)
    requires 3 <= d && 4 <= m
    ensures 0 <= DownRoom(d, 1) + 3 * m
  {
    assert DownRoom(d, 1) == d * d * (d + 1) - 17 * d + 12;
    if 4 <= d {
      MulLe(4, d, d);
      MulLe(4 * d, d * d, d + 1);
      assert 4 * d * (d + 1) == 4 * (d * d) + 4 * d;
    }
  }

  lemma DownRoomAbove(d: int, k: int)
    requires 2 <= k && 3 <= d && 4 * k - 5 <= d
    ensures 0 <= DownRoom(d, k)
  {
    if k == 2 {
      DownRoomAtTwo(d);
    } else {
      MulNonNegative(d, d);
      MulNonNegative(k, d * d);
      MulNonNegative(k * (d * d), d + 4 - 3 * k);
      DownTail(k);
      MulNonNegative(d, k * k * k + 3 * (k * k) - 11 * k - 10);
    }
  }

  lemma DownTail(k: int)
    requires 3 <= k
    ensures 0 <= k * k * k + 3 * (k * k) - 11 * k - 10
  {
    MulLe(3, k, k);
    MulLe(3 * k, k * k, k);
    assert 3 * k * k == 3 * (k * k);
  }

  lemma DownRoomAtTwo(d: int)
    requires 3 <= d
    ensures 0 <= DownRoom(d, 2)
  {
    assert DownRoom(d, 2) == 2 * (d * d * (d - 2)) - 12 * d + 18;
    MulLe(3, d, d);
    MulLe(3 * d, d * d, d - 2);
    assert 3 * d * (d - 2) == 3 * (d * d) - 6 * d;
    if 4 <= d { MulLe(4, d, d); }
  }

  lemma DownUnits(a: int, d: int, m: int, k: int)
    requires Units(a, d, d - 1, m, k)
    ensures 4 * k - 5 <= d
  {
    assert 4 * (k - 1) * (d - 1) == 4 * ((k - 1) * (d - 1));
    assert d * d < (d + 2) * (d - 1) by { assert (d + 2) * (d - 1) == d * d + d - 2; }
    CancelLt(4 * (k - 1), d + 2, d - 1);
  }

  lemma DownLeft(a: int, d: int, m: int, k: int)
    requires Units(a, d, d - 1, m, k)
    ensures m * (d - 3) <= DownRoom(d, k) + d * (m * k)
  {
    if k == 1 {
      DownRoomAtOne(d, m);
      LeftAtOne(d, m, -3, DownRoom(d, 1));
    } else {
      DownUnits(a, d, m, k);
      DownRoomAbove(d, k);
      LeftAbove(d, m, k, -3, DownRoom(d, k));
    }
  }

  lemma DownFits(a: int, d: int, m: int, k: int)
    requires Units(a, d, d - 1, m, k)
    ensures Fits(d, d - 1, 2 * a * d + m - d - 2 * a, CubeDrop(d - 1, k) + m * k)
  {
    DownLoss(a, d, m);
    DownIdentity(d, k);
    DownLeft(a, d, m, k);
    DownShareBound(a, d, k);
    DownCombines(d, 2 * a * d + m - d - 2 * a, CubeDrop(d - 1, k), m * k);
  }

  lemma DownShareBound(a: int, d: int, k: int)
    requires 3 <= d && a < k * (d - 1)
    ensures a * (2 * ((d - 1) * (d - 3))) <= (k * (d - 1) - 1) * (2 * ((d - 1) * (d - 3)))
  {
    MulNonNegative(d - 1, d - 3);
    MulLe(a, k * (d - 1) - 1, 2 * ((d - 1) * (d - 3)));
  }

  lemma DownCombines(d: int, loss: int, drop: int, rest: int)
    requires d * (3 * d - 1) + loss * (d - 3) <= d * drop + d * rest
    ensures Fits(d, d - 1, loss, drop + rest)
  {
    assert (d - 1 - d) * (d - 1 - d) * (d - 1 + 2 * d) == 3 * d - 1;
    assert 3 * (d - 1) - 2 * d == d - 3;
    AddScaled(d, drop, rest);
  }

  /** A converged step loses at most k units of D to its floors. */
  lemma ConvergedFits(a: int, d: int, r: int, m: int, k: int)
    requires Units(a, d, r, m, k) && Abs(r - d) <= 1 && 0 < d
    ensures Fits(d, r, 2 * a * d + m - d - 2 * a, CubeDrop(r, k) + m * k)
  {
    if r == d {
      SameRoom(a, d, m, k);
      FitsSame(d, 2 * a * d + m - d - 2 * a, CubeDrop(d, k) + m * k);
    } else if r == d + 1 {
      UpFits(a, d, m, k);
    } else {
      DownFits(a, d, m, k);
    }
  }

  lemma UnitsOfQuotient(a: int, b: int, d: int, r: int)
    requires 0 < a && 0 < b && 4 * a * b <= d * d && 2 <= r && 1 + a / r < r
    ensures Units(a, d, r, 4 * (a * b), 1 + a / r)
  {
    QuotientBounds(a, r, a / r);
    FloorBounds(a, r);
    MulLe(1, b, a);
  }

  lemma DropBounds(d: int, excess: int, below: int, drop: int, m: int, k: int, ann: int)
    requires 0 < d && 0 <= m && 0 <= k && 2 <= ann
    requires excess == below + drop + m * ((ann - 1) * k)
    requires d * excess <= d * (drop + m * k)
    ensures below <= 0
  {
    MulLe(1, ann - 1, k);
    MulLe(k, (ann - 1) * k, m);
    CancelLe(excess, drop + m * k, d);
  }

  lemma ConvergedQuotientIsAccurate(ann: int, a: int, b: int, d: int, p: int, r: int)
    requires DArgs(ann, a, b, d) && 4 * a * b <= d * d && 2 <= r && Abs(r - d) <= 1
    requires IsStepD(ann, a, b, d, p, r)
    ensures Excess(ann, a, b, r - (1 + a / r)) <= 0
  {
    var m, k := 4 * (a * b), 1 + a / r;
    if r <= k {
      NonPositiveExcess(ann, a, b, r - k);
    } else {
      UnitsOfQuotient(a, b, d, r);
      ConvergedFits(a, d, r, m, k);
      StepDAbove(ann, a, b, d, p, r);
      ExcessDrop(ann, a, b, r, k);
      ProductPositive(a, b);
      DropBounds(d, Excess(ann, a, b, r), Excess(ann, a, b, r - k), CubeDrop(r, k), m, k, ann);
    }
  }

  /** A loop that has iterated ends on an iteration from the range. */
  lemma {:induction false} NewtonDLast(ann: int, a: nat, b: nat, d: nat, dPrev: nat, fuel: nat)
    requires DArgs(ann, a, b, d) && DLoop(ann, a, b, d, dPrev) && 1 < Abs(d - dPrev) && 0 < fuel
    ensures var r := NewtonD(ann, a, b, d, dPrev, fuel);
            0 < r.previous && InRange(a, b, r.previous) && r.current == StepD(ann, a, b, r.previous)
    decreases fuel
  {
    var e := StepD(ann, a, b, d);
    NewtonDUnfolds(ann, a, b, d, dPrev, fuel);
    if 1 < fuel && 1 < Abs(e - d) {
      DLoopStep(ann, a, b, d, dPrev);
      NewtonDLast(ann, a, b, e, d, fuel - 1);
    }
  }

  /** The loop of `computeD` ended because two iterates met, not because of its cap. */
  predicate ConvergesD(amp: nat, a: nat, b: nat)
    requires 1 <= amp && 0 < a && 0 < b
  {
    NewtonD(2 * amp, a, b, a + b, 0, MAX_ITERS).Converged()
  }

  /** Whenever the loop converges on D, the exact invariant lies in [D - 1 - a/D, D + 1), where a is the
      balance that the loop divides by first. */
  lemma ComputeDWithin(amp: nat, a: nat, b: nat)
    requires 1 <= amp && 0 < a && 0 < b && ConvergesD(amp, a, b)
    ensures ComputeD(amp, a, b).Returns? && 2 <= ComputeD(amp, a, b).value
    ensures var d := ComputeD(amp, a, b).value;
            Excess(2 * amp, a, b, d - 1 - a / d) <= 0 < Excess(2 * amp, a, b, d + 1)
  {
    var ann, r := 2 * amp, NewtonD(2 * amp, a, b, a + b, 0, MAX_ITERS);
    ComputeDSound(amp, a, b);
    DLoopStarts(ann, a, b);
    NewtonDLast(ann, a, b, a + b, 0, MAX_ITERS);
    StepDIsStep(ann, a, b, r.previous);
    ConvergedQuotientIsAccurate(ann, a, b, r.previous, DProduct(a, b, r.previous), r.current);
    assert r.current - (1 + a / r.current) == r.current - 1 - a / r.current;
  }

  /** The source balance is at most the exact invariant. */
  predicate SourceWithinInvariant(ann: int, a: int, b: int) {
    Excess(ann, a, b, a) <= 0
  }

  /** In particular, where the source balance is within the invariant, a converged `computeD` is the whole-number
      part of the exact invariant or one more. */
  lemma ComputeDAccurate(amp: nat, a: nat, b: nat)
    requires 1 <= amp && 0 < a && 0 < b && ConvergesD(amp, a, b)
    requires SourceWithinInvariant(2 * amp, a, b)
    ensures ComputeD(amp, a, b).Returns?
    ensures var d := ComputeD(amp, a, b).value;
            Excess(2 * amp, a, b, d - 1) <= 0 < Excess(2 * amp, a, b, d + 1)
  {
    ComputeDSound(amp, a, b);
    ComputeDWithin(amp, a, b);
    WithinOneUnit(2 * amp, a, b, ComputeD(amp, a, b).value);
  }

  lemma WithinOneUnit(ann: int, a: int, b: int, d: int)
    requires 1 <= ann && 0 < a <= d && 0 < b
    requires Excess(ann, a, b, d - 1 - a / d) <= 0 && Excess(ann, a, b, a) <= 0
    ensures Excess(ann, a, b, d - 1) <= 0
  {
    if a < d {
      FloorBelow(a, d, 1);
      FloorBounds(a, d);
    } else {
      ExcessMonotone(ann, a, b, d - 1, a);
    }
  }

  /** Elsewhere it can be two above: at amp 1 and balances 162 and 1 the iterates are 163, 110, 77, 61,
      56, 57, while the whole invariant is 55. */
  lemma SourceBeyondInvariant()
    ensures ConvergesD(1, 162, 1) && ComputeD(1, 162, 1) == Returns(57)
    ensures Excess(2, 162, 1, 55) <= 0 < Excess(2, 162, 1, 56)
    ensures 57 - 1 - 162 / 57 == 54
  {
    StepsBeyondInvariant();
    NewtonDUnfolds(2, 162, 1, 163, 0, 20);
    NewtonDUnfolds(2, 162, 1, 110, 163, 19);
    NewtonDUnfolds(2, 162, 1, 77, 110, 18);
    NewtonDUnfolds(2, 162, 1, 61, 77, 17);
    NewtonDUnfolds(2, 162, 1, 56, 61, 16);
  }

  lemma StepsBeyondInvariant()
    ensures StepD(2, 162, 1, 163) == 110 && StepD(2, 162, 1, 110) == 77 && StepD(2, 162, 1, 77) == 61
    ensures StepD(2, 162, 1, 61) == 56 && StepD(2, 162, 1, 56) == 57
  {
    assert DProduct(162, 1, 163) == 6683;
    assert DProduct(162, 1, 110) == 2035;
    assert DProduct(162, 1, 77) == 693;
    assert DProduct(162, 1, 61) == 335;
    assert DProduct(162, 1, 56) == 252;
  }
}
