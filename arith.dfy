/** Facts about Dafny's integer division that the models lean on. */
module Arith {

  /** The quotient-remainder decomposition, stated on its own so that callers
      can use it without the solver's non-linear search. */
  lemma DivMod(a: int, n: int)
    requires n > 0
    ensures (a / n) * n + a % n == a
  {
  }

  lemma DivNonNegative(a: int, n: int)
    requires n > 0 && a >= 0
    ensures a / n >= 0
  {
  }

  lemma MulAtLeast(k: int, n: int)
    requires k >= 1 && n > 0
    ensures k * n >= n
  {
  }

  /** Division by a positive number has exactly one quotient and remainder. */
  lemma DivModUnique(a: int, n: int, q: int, r: int)
    requires n > 0 && 0 <= r < n && a == q * n + r
    ensures a / n == q && a % n == r
  {
    var q', r' := a / n, a % n;
    DivMod(a, n);
    if q' < q {
      assert (q - q') * n == r' - r;
      MulAtLeast(q - q', n);
    } else if q' > q {
      assert (q' - q) * n == r - r';
      MulAtLeast(q' - q, n);
    }
  }

  /** Taking the remainder before adding one changes nothing. */
  lemma ModSucc(a: int, n: int)
    requires n > 0
    ensures (a % n + 1) % n == (a + 1) % n
  {
    var q, r := a / n, a % n;
    DivMod(a, n);
    if r < n - 1 {
      DivModUnique(r + 1, n, 0, r + 1);
      DivModUnique(a + 1, n, q, r + 1);
    } else {
      DivModUnique(r + 1, n, 1, 0);
      assert a + 1 == (q + 1) * n + 0;
      DivModUnique(a + 1, n, q + 1, 0);
    }
  }
}
