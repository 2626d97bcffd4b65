/** The smaller and the larger of two numbers, remainders, and common multiples. */
module Arithmetic {

  function Min(a: nat, b: nat): nat {
    if a < b then a else b
  }

  function Max(a: nat, b: nat): nat {
    if a > b then a else b
  }

  lemma Distribute(n: int, a: int, b: int)
    ensures n * (a - b) == n * a - n * b
  {
  }

  lemma Regroup(a: int, b: int, c: int)
    ensures a * (b * c) == (a * b) * c
  {
  }

  lemma MultipleIsFar(n: nat, m: int)
    requires n > 0
    ensures m >= 1 ==> n * m >= n
    ensures m <= -1 ==> n * m <= 0 - n
  {
    Distribute(n, m, 1);
    Distribute(n, m, -1);
  }

  lemma MultipleLeavesNothing(k: int, n: nat)
    requires n > 0
    ensures (n * k) % n == 0 && (k * n) % n == 0
  {
    var q := (n * k) / n;
    Distribute(n, k, q);
    MultipleIsFar(n, k - q);
  }

  lemma MultipleOfBoth(a: nat, b: nat)
    requires a > 0 && b > 0
    ensures (a * b) % a == 0 && (a * b) % b == 0
  {
    MultipleLeavesNothing(b, a);
    MultipleLeavesNothing(a, b);
  }

  /** The least common multiple, by search. */
  function LeastFrom(a: nat, b: nat, from: nat): (r: nat)
    requires a > 0 && b > 0 && 1 <= from <= a * b
    requires forall d :: 1 <= d < from ==> d % a != 0 || d % b != 0
    ensures 1 <= r && r % a == 0 && r % b == 0
    ensures forall d :: 1 <= d < r ==> d % a != 0 || d % b != 0
    decreases a * b - from
  {
    MultipleOfBoth(a, b);
    if from % a == 0 && from % b == 0 then from else LeastFrom(a, b, from + 1)
  }

  function Lcm(a: nat, b: nat): (r: nat)
    requires a > 0 && b > 0
    ensures 1 <= r && r % a == 0 && r % b == 0
    ensures forall d :: 1 <= d < r ==> d % a != 0 || d % b != 0
  {
    MultipleIsFar(a, b);
    LeastFrom(a, b, 1)
  }

  lemma SameRemainder(x: nat, y: nat, n: nat)
    requires n > 0 && x <= y
    ensures x % n == y % n <==> (y - x) % n == 0
  {
    var qx, qy, rx, ry := x / n, y / n, x % n, y % n;
    Distribute(n, qy, qx);
    assert y - x == n * (qy - qx) + (ry - rx);
    if rx == ry {
      MultipleLeavesNothing(qy - qx, n);
    } else {
      var k := (y - x) / n;
      Distribute(n, k, qy - qx);
      MultipleIsFar(n, k - (qy - qx));
    }
  }

  lemma NearRemaindersDiffer(x: nat, y: nat, n: nat)
    requires x < y < x + n
    ensures x % n != y % n
  {
    SameRemainder(x, y, n);
  }

  lemma RemainderIs(x: nat, n: nat, m: int, r: nat)
    requires r < n && x == r + n * m
    ensures x % n == r
  {
    var q := x / n;
    Distribute(n, m, q);
    MultipleIsFar(n, m - q);
  }
}
