/** Facts about remainders that the solver does not find by itself. */
module Arith {

  lemma MulAtLeast(k: int, p: nat)
    requires k >= 1
    ensures k * p >= p
  {
  }

  lemma ModOfSum(n: nat, r: nat, q: nat, p: nat)
    requires r < p && n == r + q * p
    ensures n % p == r
  {
    var d := n / p;
    assert n == d * p + n % p;
    assert (d - q) * p == r - n % p;
    assert (q - d) * p == n % p - r;
    if d > q {
      MulAtLeast(d - q, p);
      assert false;
    }
    if d < q {
      MulAtLeast(q - d, p);
      assert false;
    }
  }

  lemma NextModulo(n: nat, m: nat)
    requires m > 1
    ensures (n % m + 1) % m == (n + 1) % m
  {
    var q, r := n / m, n % m;
    assert n == q * m + r;
    if r + 1 < m {
      ModOfSum(n + 1, r + 1, q, m);
    } else {
      assert (q + 1) * m == q * m + m;
      ModOfSum(n + 1, 0, q + 1, m);
    }
  }

  lemma DivMod(x: nat, m: nat) returns (q: nat, r: nat)
    requires m > 0
    ensures x == q * m + r && r == x % m && r < m
  {
    q, r := x / m, x % m;
  }

  lemma Distribute(a: int, b: int, m: int)
    ensures (a + b) * m == a * m + b * m
  {
  }

  lemma AddModulo(a: nat, c: nat, m: nat)
    requires m > 0
    ensures (a % m + c) % m == (a + c) % m
  {
    var q, r := DivMod(a, m);
    var q', r' := DivMod(r + c, m);
    Distribute(q, q', m);
    ModOfSum(a + c, r', q + q', m);
  }

  lemma ModuloOfMultiple(x: nat, k: nat, m: nat, km: nat)
    requires m > 0 && km > 0 && km == k * m
    ensures (x % km) % m == x % m
  {
    var q, r := DivMod(x, km);
    var q', r' := DivMod(r, m);
    Associate(q, k, m);
    Distribute(q * k, q', m);
    ModOfSum(x, r', q * k + q', m);
  }

  lemma Associate(a: int, b: int, c: int)
    ensures a * (b * c) == (a * b) * c
  {
  }
}
