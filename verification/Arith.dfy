/** Facts about division with remainder by a variable divisor. */
module Arith {
  lemma MulMonotone(a: int, b: int, k: int)
    requires a <= b && 0 <= k
    ensures a * k <= b * k
  {
    assert b * k - a * k == (b - a) * k;
  }

  lemma {:induction false} QuotientUnique(k: int, q: int, r: int, q': int, r': int)
    requires 0 <= r < k && 0 <= r' < k && q * k + r == q' * k + r'
    ensures q == q'
  {
    if q < q' {
      MulMonotone(q + 1, q', k);
    } else if q' < q {
      MulMonotone(q' + 1, q, k);
    }
  }

  lemma DivisionTheorem(n: int, k: int)
    requires 0 < k
    ensures n == (n / k) * k + n % k && 0 <= n % k < k
  {
  }

  /** Quotient and remainder are unique. */
  lemma DivModUnique(n: int, k: int, q: int, r: int)
    requires 0 <= r < k && n == q * k + r
    ensures n / k == q && n % k == r
  {
    DivisionTheorem(n, k);
    QuotientUnique(k, q, r, n / k, n % k);
  }

  /** Equal remainders are a difference without remainder. */
  lemma ModEqual(a: int, b: int, k: int)
    requires 0 < k
    ensures a % k == b % k <==> (a - b) % k == 0
  {
    DivisionTheorem(a, k);
    DivisionTheorem(b, k);
    var q, r := a / k - b / k, a % k - b % k;
    assert q * k == (a / k) * k - (b / k) * k;
    if r >= 0 {
      DivModUnique(a - b, k, q, r);
    } else {
      assert (q - 1) * k == q * k - k;
      DivModUnique(a - b, k, q - 1, r + k);
    }
  }

  lemma ModStep(n: int, k: int)
    requires 0 < k
    ensures n % k == (n - k) % k
  {
    DivisionTheorem(n, k);
    DivModUnique(n - k, k, n / k - 1, n % k);
  }

  /** Remainder, as a name proofs can leave closed. */
  function Mod(v: int, p: int): int
    requires p > 0
  {
    v % p
  }

  lemma ModSmall(v: int, p: int)
    requires 0 <= v < p
    ensures Mod(v, p) == v
  {
    DivModUnique(v, p, 0, v);
  }

  lemma ModSuccessor(v: int, p: int)
    requires 0 < p
    ensures Mod(Mod(v, p) + 1, p) == Mod(v + 1, p)
  {
    DivisionTheorem(v, p);
    if v % p + 1 == p {
      DivModUnique(v + 1, p, v / p + 1, 0);
      DivModUnique(p, p, 1, 0);
    } else {
      DivModUnique(v + 1, p, v / p, v % p + 1);
      DivModUnique(v % p + 1, p, 0, v % p + 1);
    }
  }

  lemma ModDistinct(a: int, b: int, p: int)
    requires 0 < p && a < b < a + p
    ensures Mod(a, p) != Mod(b, p)
  {
    if a % p == b % p {
      DivisionTheorem(a, p);
      DivisionTheorem(b, p);
      assert (b / p - a / p) * p == b / p * p - a / p * p == b - a;
      QuotientUnique(p, b / p - a / p, 0, 0, b - a);
    }
  }

  /** Dividing by 256 * p goes digit by digit. */
  lemma SplitMod(q: int, r: int, p: int)
    requires 0 < p && 0 <= r < 256
    ensures Mod(256 * q + r, 256 * p) == 256 * Mod(q, p) + r
  {
    DivisionTheorem(q, p);
    assert 256 * q + r == (q / p) * (256 * p) + (256 * (q % p) + r) by {
      assert (q / p) * (256 * p) == 256 * ((q / p) * p);
    }
    DivModUnique(256 * q + r, 256 * p, q / p, 256 * (q % p) + r);
  }

  lemma Digits(v: nat)
    ensures v / 256 / 256 == v / 0x1_0000 && v / 256 / 256 / 256 == v / 0x100_0000
  {
  }
}
