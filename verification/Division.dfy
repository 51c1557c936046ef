/** Quotients and remainders of natural numbers. */
module Division {
  lemma DivMod(n: nat, u: nat)
    requires u >= 1
    ensures n == n / u * u + n % u && 0 <= n % u < u
  {
  }

  lemma Product(a: int, b: int, c: nat)
    requires a <= b
    ensures a * c <= b * c
  {
  }

  lemma QuotientUnique(n: nat, d: nat, k: nat, r: nat)
    requires r < d && n == k * d + r
    ensures n / d == k && n % d == r
  {
    DivMod(n, d);
    var k', r' := n / d, n % d;
    assert (k' + 1) * d == k' * d + d && (k + 1) * d == k * d + d;
    if k' < k {
      Product(k' + 1, k, d);
    } else if k < k' {
      Product(k + 1, k', d);
    }
  }

  function PowerOfTwo(n: nat): (p: nat)
    ensures p >= 1
  {
    if n == 0 then 1 else 2 * PowerOfTwo(n - 1)
  }

  lemma {:induction false} PowersMultiply(m: nat, n: nat)
    ensures PowerOfTwo(m + n) == PowerOfTwo(m) * PowerOfTwo(n)
  {
    if m > 0 {
      PowersMultiply(m - 1, n);
      assert PowerOfTwo(m + n) == 2 * PowerOfTwo(m - 1 + n);
    }
  }
}
