// The few facts about products and remainders the models need.
module Arith {
  lemma MulSign(k: int, n: nat)
    requires 0 < n
    ensures k >= 1 ==> k * n >= n
    ensures k == 0 ==> k * n == 0
    ensures k <= -1 ==> k * n + n <= 0
  {
    if k >= 1 {
      assert (k - 1) * n >= 0;
      assert k * n == (k - 1) * n + n;
    } else if k <= -1 {
      assert (-k - 1) * n >= 0;
      assert k * n == -((-k - 1) * n) - n;
    }
  }

  lemma MulLe(a: int, b: int, n: nat)
    requires a <= b
    ensures a * n <= b * n
    ensures a < b ==> a * n + n <= b * n
  {
    assert (b - a) * n == b * n - a * n;
    if n > 0 {
      MulSign(b - a, n);
    }
  }

  // Quotient and remainder are unique.
  lemma DivUnique(x: nat, n: nat, q: nat, r: nat)
    requires 0 < n && r < n && x == q * n + r
    ensures x % n == r && x / n == q
  {
    var d := x / n - q;
    assert x == (x / n) * n + x % n;
    assert d * n == (x / n) * n - q * n;
    MulSign(d, n);
  }
}
