/** Division with remainder, for counters that wrap around. */
module Modulo {

  lemma Quotient(m: nat, x: int)
    requires m > 0
    ensures x == m * (x / m) + x % m
  {}

  lemma AtLeast(m: nat, k: nat)
    requires k >= 1
    ensures m * k >= m
  {
    assert m * k == m + m * (k - 1);
  }

  lemma Negate(m: int, k: int)
    ensures m * (-k) == -(m * k)
  {}

  /** Quotient and remainder are unique. */
  lemma Remainder(y: int, m: nat, d: int, r: nat)
    requires m > 0 && y == m * d + r && r < m
    ensures y % m == r && y / m == d
  {
    var e := y / m;
    Quotient(m, y);
    assert m * (d - e) == m * d - m * e;
    if d > e {
      AtLeast(m, d - e);
    } else if d < e {
      Negate(m, d - e);
      AtLeast(m, e - d);
    }
  }

  lemma ModAdd(m: nat, q: int, x: int)
    requires m > 0
    ensures (m * q + x) % m == x % m
  {
    Quotient(m, x);
    assert m * (q + x / m) == m * q + m * (x / m);
    Remainder(m * q + x, m, q + x / m, x % m);
  }

  /** Numbers less than m apart with the same remainder are equal. */
  lemma ModUnique(m: nat, a: nat, b: nat)
    requires 0 < m && a <= b < a + m && a % m == b % m
    ensures a == b
  {
    var q, r := a / m, b / m;
    Quotient(m, a);
    Quotient(m, b);
    assert m * (r - q) == m * r - m * q;
    if r > q {
      AtLeast(m, r - q);
    } else if r < q {
      Negate(m, r - q);
      AtLeast(m, q - r);
    }
  }

  /** A remainder by a multiple of m does not change the remainder by m. */
  lemma ModMod(m: nat, k: nat, x: int)
    requires m > 0 && k > 0 && m * k > 0
    ensures (x % (m * k)) % m == x % m
  {
    Quotient(m * k, x);
    Regroup(m, k, x / (m * k));
    ModAdd(m, k * (x / (m * k)), x % (m * k));
  }

  lemma DivBelow(m: nat, a: nat, k: nat)
    requires m > 0 && a < m * k
    ensures a / m < k
  {
    Quotient(m, a);
    Scaled(m, k, a / m);
  }

  lemma Scaled(m: nat, k: nat, q: nat)
    ensures q >= k ==> m * q >= m * k
  {}

  lemma Regroup(a: int, b: int, c: int)
    ensures (a * b) * c == a * (b * c)
  {}
}
