/** Small facts about multiplication, division and powers of two. */
module Arith {

  lemma MulAtLeast(d: int, k: int)
    requires d > 0 && k >= 1
    ensures d * k >= d
  {
  }

  lemma MulAtMost(d: int, k: int)
    requires d > 0 && k <= -1
    ensures d * k <= -d
  {
    MulAtLeast(d, -k);
    assert d * k == -(d * -k);
  }

  /** Quotient and remainder are the only pair with a remainder in range. */
  lemma DivModUnique(x: int, d: int, q: int, r: int)
    requires d > 0 && 0 <= r < d && x == d * q + r
    ensures x / d == q && x % d == r
  {
    var q', r' := x / d, x % d;
    assert d * (q - q') == r' - r;
    if q - q' >= 1 { MulAtLeast(d, q - q'); assert false; }
    if q - q' <= -1 { MulAtMost(d, q - q'); assert false; }
  }

  lemma ModShift(x: int, d: int, k: int)
    requires d > 0
    ensures (x + d * k) % d == x % d
  {
    assert x + d * k == d * (x / d + k) + x % d;
    DivModUnique(x + d * k, d, x / d + k, x % d);
  }

  /** Two numbers closer than `d` and different have different remainders. */
  lemma ModDiffer(a: int, b: int, d: int)
    requires d > 0 && a < b < a + d
    ensures a % d != b % d
  {
    if a % d == b % d {
      var k := b / d - a / d;
      assert d * k == b - a;
      if k >= 1 { MulAtLeast(d, k); assert false; }
      if k <= -1 { MulAtMost(d, k); assert false; }
      assert false;
    }
  }

  function Pow2(k: nat): (r: nat)
    ensures r >= 1
  {
    if k == 0 then 1 else 2 * Pow2(k - 1)
  }

  lemma Pow2Step(k: nat)
    ensures Pow2(k + 1) == 2 * Pow2(k) && Pow2(0) == 1 && Pow2(1) == 2
  {
  }

  lemma {:induction false} Pow2Add(a: nat, b: nat)
    ensures Pow2(a + b) == Pow2(a) * Pow2(b)
  {
    if a == 0 {
    } else {
      Pow2Add(a - 1, b);
      assert Pow2(a + b) == 2 * (Pow2(a - 1) * Pow2(b)) == (2 * Pow2(a - 1)) * Pow2(b);
    }
  }

  lemma {:induction false} Pow2Monotone(a: nat, b: nat)
    requires a <= b
    ensures Pow2(a) <= Pow2(b)
    decreases b - a
  {
    if a < b { Pow2Monotone(a, b - 1); }
  }

  lemma Pow2Values()
    ensures Pow2(16) == 0x1_0000 && Pow2(30) == 0x4000_0000
    ensures Pow2(31) == 0x8000_0000 && Pow2(32) == 0x1_0000_0000
  {
    assert Pow2(8) == 256;
    Pow2Add(8, 8);
    Pow2Add(16, 14);
    assert Pow2(14) == 16384 by { Pow2Add(8, 6); }
    Pow2Add(16, 16);
    assert Pow2(31) == 2 * Pow2(30);
  }

  lemma ModOfMod(x: int, d: int, k: int)
    requires d > 0 && k > 0 && d * k > 0
    ensures (x % (d * k)) % d == x % d
  {
    var m := d * k;
    var q, r := x / m, x % m;
    assert x == m * q + r;
    assert m * q == d * (k * q);
    ModShift(r, d, k * q);
  }

  /** Truncating to `b` bits does not change the low `a` bits. */
  lemma ModPow2(x: int, a: nat, b: nat)
    requires a <= b
    ensures (x % Pow2(b)) % Pow2(a) == x % Pow2(a)
  {
    Pow2Add(a, b - a);
    ModOfMod(x, Pow2(a), Pow2(b - a));
  }
}
