/** Remainders by a divisor that is not a literal. */
module Arithmetic {

  lemma ProductBounds(d: int, n: nat)
    ensures d >= 1 ==> d * n >= n
    ensures d <= -1 ==> d * n + n <= 0
    ensures d >= 0 ==> d * n >= 0
    ensures d <= -2 ==> d * n <= -2 * n
  {
  }

  lemma RemainderOf(a: nat, n: nat, q: nat, r: nat)
    requires n > 0 && a == q * n + r && r < n
    ensures a % n == r
  {
    var p := a / n;
    assert a == p * n + a % n;
    assert (p - q) * n == p * n - q * n;
    ProductBounds(p - q, n);
  }

  /** Counting on from a multiple of n: the remainder is the number of steps. */
  lemma StepsFromMultiple(t: nat, n: nat, m: nat)
    requires n > 0 && t % n == 0 && m <= n
    ensures (t + m) % n == if m == n then 0 else m
  {
    var q := t / n;
    assert t == q * n + t % n;
    if m == n {
      assert (q + 1) * n == q * n + n;
      RemainderOf(t + m, n, q + 1, 0);
    } else {
      RemainderOf(t + m, n, q, m);
    }
  }

  lemma DropMultiple(x: int, k: int, n: nat)
    requires n > 0
    ensures (x + k * n) % n == x % n
  {
    var y := x + k * n;
    var d := k + x / n - y / n;
    assert y == y / n * n + y % n && x == x / n * n + x % n;
    assert d * n == k * n + x / n * n - y / n * n;
    ProductBounds(d, n);
  }

  /** A difference of remainders has the remainder of the difference. */
  lemma DifferenceOfRemainders(a: int, b: int, n: nat)
    requires n > 0
    ensures (a % n - b % n) % n == (a - b) % n
  {
    var k := a / n - b / n;
    assert a == a / n * n + a % n && b == b / n * n + b % n;
    assert k * n == a / n * n - b / n * n;
    DropMultiple(a % n - b % n, k, n);
  }
}
