/** Powers of two, and quotients and remainders by them. */
module Powers {
  function Pow2(n: nat): (p: int)
    ensures p >= 1
  {
    if n == 0 then 1 else 2 * Pow2(n - 1)
  }

  lemma {:induction false} Pow2Monotone(m: nat, n: nat)
    requires m <= n
    ensures Pow2(m) <= Pow2(n)
    decreases n - m
  {
    if m < n {
      Pow2Monotone(m, n - 1);
    }
  }

  lemma {:induction false} Pow2Add(m: nat, n: nat)
    ensures Pow2(m + n) == Pow2(m) * Pow2(n)
  {
    if m > 0 {
      Pow2Add(m - 1, n);
    }
  }

  lemma MultipleBounds(k: int, p: int)
    requires p >= 1
    ensures k >= 1 ==> k * p >= p
    ensures k <= -1 ==> k * p <= -p
  {
  }

  /** Quotient and remainder are unique. */
  lemma ModUnique(n: int, p: int, q: int, r: int)
    requires p >= 1 && n == q * p + r && 0 <= r < p
    ensures n % p == r && n / p == q
  {
    var q', r' := n / p, n % p;
    assert n == q' * p + r';
    assert (q - q') * p == q * p - q' * p;
    MultipleBounds(q - q', p);
  }
}
