/** Facts about Euclidean division on naturals that the schedules rely on. */
module Arithmetic {

  /** `q` and `m` are the quotient and remainder of `q * n + m` by `n`. */
  lemma DivMod(k: nat, n: nat, q: nat, m: nat)
    requires m < n && k == q * n + m
    ensures k / n == q && k % n == m
  {
    var q', m' := k / n, k % n;
    assert k == q' * n + m';
    assert (q - q') * n == m' - m;
    if q > q' {
      MulAtLeast(q - q', n);
    } else if q < q' {
      MulAtLeast(q' - q, n);
    }
  }

  lemma MulAtLeast(a: int, n: nat)
    requires a >= 1
    ensures a * n >= n
  {
    assert a * n == (a - 1) * n + n;
  }
}
