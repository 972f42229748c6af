/** Powers of two and integer logarithms. */
module Powers {
  function Pow2(n: nat): (p: nat)
    ensures p >= 1
  {
    if n == 0 then 1 else 2 * Pow2(n - 1)
  }

  lemma {:induction false} Pow2Adds(m: nat, n: nat)
    ensures Pow2(m + n) == Pow2(m) * Pow2(n)
  {
    if n > 0 {
      Pow2Adds(m, n - 1);
    }
  }

  lemma {:induction false} Pow2Monotone(m: nat, n: nat)
    requires m <= n
    ensures Pow2(m) <= Pow2(n)
  {
    if m < n {
      Pow2Monotone(m, n - 1);
    }
  }

  /** The least d with n <= 2^d. */
  function CeilLog2(n: nat): nat
    requires n >= 1
  {
    if n == 1 then 0 else 1 + CeilLog2((n + 1) / 2)
  }

  lemma {:induction false} CeilLog2Bounds(n: nat)
    requires n >= 1
    ensures n <= Pow2(CeilLog2(n))
  {
    if n > 1 {
      CeilLog2Bounds((n + 1) / 2);
    }
  }

  lemma {:induction false} CeilLog2Least(n: nat, d: nat)
    requires 1 <= n <= Pow2(d)
    ensures CeilLog2(n) <= d
  {
    if n > 1 {
      assert d > 0;
      CeilLog2Least((n + 1) / 2, d - 1);
    }
  }

  function TrailingZeros(n: nat): nat
    requires n >= 1
  {
    if n % 2 == 0 then 1 + TrailingZeros(n / 2) else 0
  }

  lemma {:induction false} TrailingZerosOfPow2(d: nat)
    ensures TrailingZeros(Pow2(d)) == d
  {
    if d > 0 {
      TrailingZerosOfPow2(d - 1);
    }
  }
}
