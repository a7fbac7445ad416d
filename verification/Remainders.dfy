/** Facts about remainders by a number that is not a constant. */
module Remainders {

  lemma MulAtLeast(x: int, s: nat)
    ensures if x > 0 then x * s >= s else x * s <= 0
  {
    assert x * s == (x - 1) * s + s;
  }

  /** Quotient and remainder are determined by any that leave the remainder in range. */
  lemma ModUnique(n: nat, q: nat, s: nat, r: nat)
    requires r < s && n == q * s + r
    ensures n % s == r && n / s == q
  {
    var d, m := n / s, n % s;
    assert n == d * s + m;
    if d < q {
      assert (q - d) * s == q * s - d * s;
      MulAtLeast(q - d, s);
    } else if d > q {
      assert (d - q) * s == d * s - q * s;
      MulAtLeast(d - q, s);
    }
  }

  lemma ModNext(n: nat, s: nat)
    requires s > 0
    ensures n % s < s
    ensures (n + 1) % s == if n % s + 1 == s then 0 else n % s + 1
  {
    var q, m := n / s, n % s;
    assert n == q * s + m;
    if m + 1 == s {
      assert (q + 1) * s == q * s + s;
      ModUnique(n + 1, q + 1, s, 0);
    } else {
      ModUnique(n + 1, q, s, m + 1);
    }
  }

  lemma SmallMod(n: nat, s: nat)
    requires n < s
    ensures n % s == n
  {
    ModUnique(n, 0, s, n);
  }

  lemma ModLess(n: nat, s: nat)
    requires 0 < s <= n
    ensures (n - s) % s == n % s
  {
    var q, m := (n - s) / s, (n - s) % s;
    assert n - s == q * s + m;
    assert (q + 1) * s == q * s + s;
    ModUnique(n, q + 1, s, m);
  }

  lemma MulMonotone(x: int, y: int, u: nat)
    requires x <= y
    ensures x * u <= y * u
  {
    assert (y - x) * u >= 0;
  }

  lemma MulReflects(x: int, y: int, u: nat)
    requires x * u < y * u
    ensures x < y
  {
    if y <= x {
      MulMonotone(y, x, u);
    }
  }
}
