// Facts about quotients and remainders of naturals, for any positive divisors.
module DivMod {
  import opened Gf2Poly

  lemma Unique(a: int, m: int, q: int, r: int)
    requires m > 0 && a == m * q + r && 0 <= r < m
    ensures a / m == q && a % m == r
  {
    var d := a / m - q;
    assert m * d == m * (a / m) - m * q;
    assert m * d == r - a % m;
    SmallMultiple(m, d);
  }

  lemma SmallMultiple(m: int, d: int)
    requires m > 0
    ensures d > 0 ==> m * d >= m
    ensures d < 0 ==> m * d <= -m
  {}

  // Splitting off the low digits, then the next ones.
  lemma Split(n: nat, a: nat, b: nat)
    requires a > 0 && b > 0
    ensures a * b > 0
    ensures n % (a * b) == n % a + a * (n / a % b)
    ensures n / (a * b) == n / a / b
  {
    var q, r := n / a, n % a;
    var q2, r2 := q / b, q % b;
    assert n == a * q + r && q == b * q2 + r2;
    assert a * q == a * (b * q2) + a * r2;
    assert a * (b * q2) == (a * b) * q2;
    assert a * r2 <= a * (b - 1) by { Monotone(a, r2, b - 1); }
    assert a * (b - 1) == a * b - a;
    assert a * r2 >= 0;
    Unique(n, a * b, q2, a * r2 + r);
  }

  lemma Monotone(a: nat, x: int, y: int)
    requires x <= y
    ensures a * x <= a * y
  {}

  // Dividing what is left after cutting high digits off.
  lemma CutThenDivide(n: nat, a: nat, b: nat)
    requires a > 0 && b > 0
    ensures a * b > 0 && n % (a * b) / a == n / a % b
  {
    Split(n, a, b);
    var x := n / a % b;
    Unique(n % (a * b), a, x, n % a);
  }

  lemma CutTwice(n: nat, a: nat, b: nat)
    requires a > 0 && b > 0
    ensures a * b > 0 && n % (a * b) % a == n % a
  {
    Split(n, a, b);
    Unique(n % (a * b), a, n / a % b, n % a);
  }

  lemma AddMultiple(n: int, a: int, k: int)
    requires a > 0
    ensures (n + a * k) / a == n / a + k && (n + a * k) % a == n % a
  {
    assert n + a * k == a * (n / a + k) + n % a by { assert a * (n / a + k) == a * (n / a) + a * k; }
    Unique(n + a * k, a, n / a + k, n % a);
  }

  lemma {:induction false} Pow2Plus(m: nat, n: nat)
    ensures Pow2(m + n) == Pow2(m) * Pow2(n)
    decreases m
  {
    if m > 0 {
      Pow2Plus(m - 1, n);
      assert 2 * Pow2(m - 1) * Pow2(n) == 2 * (Pow2(m - 1) * Pow2(n));
    }
  }

  lemma KnownPowers()
    ensures Pow2(0) == 1 && Pow2(8) == 256 && Pow2(16) == 0x1_0000 && Pow2(32) == 0x1_0000_0000
    ensures Pow2(64) == 0x1_0000_0000_0000_0000
  {
    assert Pow2(4) == 16;
    Pow2Plus(4, 4);
    Pow2Plus(8, 8);
    Pow2Plus(16, 16);
    Pow2Plus(32, 32);
  }

  lemma SmallPowers()
    ensures Pow2(1) == 2 && Pow2(2) == 4 && Pow2(3) == 8 && Pow2(4) == 16 && Pow2(5) == 32 && Pow2(6) == 64
    ensures Pow2(7) == 128 && Pow2(10) == 1024 && Pow2(12) == 4096
  {
    assert Pow2(0) == 1;
    hide Pow2;
    assert Pow2(1) == 2 by { Twice(0); }
    Pow2Plus(1, 1);
    Pow2Plus(2, 1);
    Pow2Plus(2, 2);
    Pow2Plus(3, 2);
    Pow2Plus(3, 3);
    Pow2Plus(3, 4);
    Pow2Plus(5, 5);
    Pow2Plus(6, 6);
  }

  lemma Twice(n: nat)
    ensures Pow2(n + 1) == 2 * Pow2(n)
  {}
}
