/** Powers, and facts about division by a variable. */
module Arithmetic {
  function Pow(b: nat, e: nat): (p: nat)
    ensures b > 0 ==> p > 0
  {
    if e == 0 then 1 else b * Pow(b, e - 1)
  }

  lemma {:induction false} PowGrows(b: nat, k: nat, n: nat)
    requires b >= 1 && k <= n
    ensures 1 <= Pow(b, k) <= Pow(b, n)
  {
    if k < n {
      PowGrows(b, k, n - 1);
    } else if k > 0 {
      PowGrows(b, k - 1, k - 1);
    }
  }

  /** Quotient and remainder are determined by their equation. */
  lemma DivModOf(q: nat, r: nat, n: nat)
    requires r < n
    ensures (q * n + r) / n == q && (q * n + r) % n == r
  {
    var x := q * n + r;
    var d, m := x / n, x % n;
    assert x == d * n + m;
    if d > q {
      MulAtLeast(d - q, n);
      Distribute(d, q, n);
    } else if d < q {
      MulAtLeast(q - d, n);
      Distribute(q, d, n);
    }
  }

  lemma MulAtLeast(a: nat, n: nat)
    requires a >= 1
    ensures a * n >= n
  {}

  lemma Distribute(a: int, b: int, n: int)
    ensures (a - b) * n == a * n - b * n
  {}
}
