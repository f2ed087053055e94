// Powers of two, and division with remainder.
module Numbers {

  /* ---- Powers of two ---- */

  function Pow2(n: nat): (p: nat)
    ensures p > 0
    ensures n > 0 ==> p % 2 == 0
  {
    if n == 0 then 1 else 2 * Pow2(n - 1)
  }

  lemma {:induction false} Pow2Sum(m: nat, n: nat)
    ensures Pow2(m + n) == Pow2(m) * Pow2(n)
  {
    if m > 0 {
      Pow2Sum(m - 1, n);
      assert Pow2(m + n) == 2 * Pow2(m - 1 + n) && Pow2(m) == 2 * Pow2(m - 1);
      hide Pow2;
      TwiceProduct(Pow2(m - 1), Pow2(n));
    }
  }

  lemma TwiceProduct(a: nat, b: nat)
    ensures 2 * (a * b) == (2 * a) * b
  {
  }

  lemma Pow2Of8()
    ensures Pow2(8) == 0x100
  {
    assert Pow2(4) == 0x10;
    Pow2Sum(4, 4);
  }

  lemma Pow2Values()
    ensures Pow2(8) == 0x100 && Pow2(16) == 0x1_0000 && Pow2(24) == 0x100_0000 && Pow2(32) == 0x1_0000_0000
    ensures Pow2(64) == 0x1_0000_0000_0000_0000
  {
    Pow2Of8();
    hide Pow2;
    Pow2Sum(8, 8);
    Pow2Sum(16, 8);
    Pow2Sum(16, 16);
    Pow2Sum(32, 32);
  }

  lemma Pow2Order(m: nat, n: nat)
    requires m < n
    ensures Pow2(m) < Pow2(n)
  {
    if m + 1 < n {
      Pow2Order(m, n - 1);
    }
  }

  /* ---- Division ---- */

  lemma DivMonotone(x: nat, y: nat, d: nat)
    requires x <= y && d > 0
    ensures x / d <= y / d
  {
    var k := y / d - x / d;
    assert y - x == d * k + (y % d - x % d);
    assert k <= -1 ==> d * k <= -(d as int);
  }

  lemma ModOfSum(q: nat, r: nat, d: nat)
    requires r < d
    ensures (d * q + r) % d == r && (d * q + r) / d == q
  {
    var n := d * q + r;
    assert n == d * (n / d) + n % d;
    SmallMultiple(n / d - q, d);
  }

  lemma SmallMultiple(k: int, d: int)
    requires d >= 0
    ensures -d < d * k < d ==> k == 0
  {
    assert k >= 1 ==> d * k >= d;
    assert k <= -1 ==> d * k <= -d;
  }

  lemma SameQuotient(x: nat, y: nat, d: nat)
    requires d > 0
    ensures x / d == y / d <==> x - x % d == y - y % d
  {
    assert x == d * (x / d) + x % d && y == d * (y / d) + y % d;
    SmallMultiple(x / d - y / d, d);
  }
}
