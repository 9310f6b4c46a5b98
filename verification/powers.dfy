/** Powers of two, and rounding up to them as `ffint_align_power2` of ffbase/base.h does. */
module Powers {

  ghost predicate IsPow2(n: nat) {
    n == 1 || (n > 1 && n % 2 == 0 && IsPow2(n / 2))
  }

  /** The number of bits of n, as `ffbit_find64` finds it. */
  function Bits(n: nat): nat { if n == 0 then 0 else 1 + Bits(n / 2) }

  /** `1 << k` */
  function Shifted(k: nat): nat { if k == 0 then 1 else 2 * Shifted(k - 1) }

  /** Twice a power of two is one. */
  lemma Twice(n: nat)
    requires IsPow2(n)
    ensures IsPow2(2 * n) && n >= 1
  {
    assert (2 * n) / 2 == n && (2 * n) % 2 == 0;
  }

  lemma {:induction false} ShiftedIsPow2(k: nat)
    ensures IsPow2(Shifted(k)) && Shifted(k) >= 1
  {
    if k == 0 {
    } else {
      ShiftedIsPow2(k - 1);
      Twice(Shifted(k - 1));
    }
  }

  lemma {:induction false} ShiftedMonotone(a: nat, b: nat)
    requires a <= b
    ensures Shifted(a) <= Shifted(b)
  {
    if a == b {
    } else {
      ShiftedMonotone(a, b - 1);
    }
  }

  lemma {:induction false} ShiftedSquare(n: nat)
    ensures Shifted(2 * n) == Shifted(n) * Shifted(n)
  {
    if n == 0 {
    } else {
      ShiftedSquare(n - 1);
      assert Shifted(2 * n) == 2 * Shifted(2 * n - 1) == 4 * Shifted(2 * (n - 1));
      var x := Shifted(n - 1);
      assert Shifted(n) * Shifted(n) == (2 * x) * (2 * x) == 4 * (x * x);
    }
  }

  lemma {:induction false} BitsBound(n: nat)
    ensures n < Shifted(Bits(n)) && (n > 0 ==> Shifted(Bits(n) - 1) <= n)
  {
    if n == 0 {
    } else {
      BitsBound(n / 2);
    }
  }

  /** `ffint_align_power2`: the least power of two that is at least n, and at least 2. */
  function AlignPow2(n: nat): (r: nat)
    ensures IsPow2(r) && 2 <= r && n <= r && (r > 2 ==> r / 2 < n)
  {
    if n <= 2 then assert IsPow2(1); 2 else
    var k := Bits(n - 1);
    ShiftedIsPow2(k);
    BitsBound(n - 1);
    Shifted(k)
  }

  /** The lesser of two powers of two divides the greater. */
  lemma {:induction false} Divides(a: nat, b: nat) returns (q: nat)
    requires IsPow2(a) && IsPow2(b) && a <= b
    ensures b == a * q
  {
    if a == 1 {
      q := b;
    } else {
      q := Divides(a / 2, b / 2);
      Doubled(a / 2, q);
    }
  }

  lemma Doubled(a: nat, q: nat)
    ensures 2 * (a * q) == (2 * a) * q
  {}

  lemma Sixteenfold(n: nat)
    requires IsPow2(n)
    ensures IsPow2(16 * n)
  {
    hide IsPow2;
    Twice(n);
    Twice(2 * n);
    Twice(4 * n);
    Twice(8 * n);
  }
}
