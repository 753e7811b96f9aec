/** Powers of two and division facts shared by the models. */
module Arith {

  function Pow2(n: nat): (r: nat)
    ensures r > 0
  {
    if n == 0 then 1 else 2 * Pow2(n - 1)
  }

  lemma MulGrows(a: int, n: int)
    requires a >= 1 && n > 0
    ensures a * n >= n
  {
  }

  lemma MulGap(a: int, n: int)
    requires n > 0 && 0 - n < a * n < n
    ensures a == 0
  {
    if a >= 1 {
      MulGrows(a, n);
      assert false;
    }
    if a <= -1 {
      MulGrows(-a, n);
      assert false;
    }
  }

  /** Quotient and remainder are unique. */
  lemma DivModUnique(x: int, q: int, r: int, n: int)
    requires 0 <= r < n && x == q * n + r
    ensures x / n == q && x % n == r
  {
    var d := x / n;
    assert x == d * n + x % n;
    assert (q - d) * n == x % n - r;
    MulGap(q - d, n);
  }

  lemma MulMono(a: int, b: int, n: int)
    requires a <= b && n > 0
    ensures a * n <= b * n
  {
    if a < b {
      MulGrows(b - a, n);
      assert (b - a) * n == b * n - a * n;
    }
  }

  /** Block number i against the block that holds offset x. */
  lemma BlockOf(i: int, x: int, n: int)
    requires n > 0
    ensures x == x / n * n + x % n
    ensures i == x / n ==> i * n <= x < i * n + n && x % n == x - i * n
    ensures i < x / n ==> i * n + n <= x / n * n <= x
    ensures i > x / n ==> x < x / n * n + n <= i * n
  {
    var q := x / n;
    assert x == q * n + x % n;
    if i < q {
      MulMono(i + 1, q, n);
      assert (i + 1) * n == i * n + n;
    } else if i > q {
      MulMono(q + 1, i, n);
      assert (q + 1) * n == q * n + n;
    }
  }

  lemma DivTwice(v: nat, n: nat)
    requires n > 0
    ensures v / 256 / n == v / (256 * n)
  {
    var q, r := v / 256 / n, v / 256 % n;
    assert v / 256 == q * n + r && q * (256 * n) == 256 * (q * n);
    DivModUnique(v, q, 256 * r + v % 256, 256 * n);
  }
}
