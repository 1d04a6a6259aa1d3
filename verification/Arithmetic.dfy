/** Facts about products and quotients of integers. */
module Arithmetic {

  lemma Ordered(b: int, x: int, y: int)
    requires b > 0
    ensures x <= y <==> b * x <= b * y
  {
    var gap := y - x;
    assert b * y == b * x + b * gap;
    if gap < 0 {
      assert b * -gap > 0;
    }
  }

  lemma DivisionBounds(a: int, b: int)
    requires b > 0
    ensures b * (a / b) <= a < b * (a / b) + b
  {
  }

  lemma QuotientBelow(a: int, b: int, k: int)
    requires b > 0
    ensures a / b < k <==> a < b * k
  {
    var q := a / b;
    DivisionBounds(a, b);
    assert b * (q + 1) == b * q + b;
    Ordered(b, q + 1, k);
    Ordered(b, k, q);
  }

  lemma Remainder(x: int, n: int, q: int, r: int)
    requires n > 0 && x == n * q + r && 0 <= r < n
    ensures x / n == q && x % n == r
  {
    var p := x / n;
    assert x == n * p + x % n;
    assert n * (q + 1) == n * q + n && n * (p + 1) == n * p + n;
    Ordered(n, q + 1, p);
    Ordered(n, p + 1, q);
  }
}
