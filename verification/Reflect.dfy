// Reversing the bits of a word, and the words that reflected algorithms work on.
module Reflect {
  import opened Gf2Poly
  import opened DivMod

  // The low n bits of c in reverse order.
  function Rev(c: nat, n: nat): (r: nat)
    decreases n
  {
    if n == 0 then 0 else (if c % 2 == 1 then Pow2(n - 1) else 0) + Rev(c / 2, n - 1)
  }

  lemma RevStep(c: nat, bit: nat, n: nat)
    requires bit < 2
    ensures Rev(2 * c + bit, n + 1) == (if bit == 1 then Pow2(n) else 0) + Rev(c, n)
  {
    assert (2 * c + bit) / 2 == c && (2 * c + bit) % 2 == bit;
  }

  lemma {:induction false} RevRange(c: nat, n: nat)
    ensures Rev(c, n) < Pow2(n)
  {
    if n > 0 {
      RevRange(c / 2, n - 1);
    }
  }

  lemma {:induction false} RevZero(n: nat)
    ensures Rev(0, n) == 0
  {
    if n > 0 { RevZero(n - 1); }
  }

  // Xor acts on the high and the low digits separately.
  lemma {:induction false} XorDigits(a: nat, b: nat, x: nat, y: nat, n: nat)
    requires x < Pow2(n) && y < Pow2(n)
    ensures Xor(a * Pow2(n) + x, b * Pow2(n) + y) == Xor(a, b) * Pow2(n) + Xor(x, y)
    decreases n
  {
    hide Xor;
    if n == 0 {
      XorZero(0);
      assert a * Pow2(0) == a && b * Pow2(0) == b && Xor(a, b) * Pow2(0) == Xor(a, b);
    } else {
      var p := Pow2(n - 1);
      var hi, hj := a * p + x / 2, b * p + y / 2;
      XorDigits(a, b, x / 2, y / 2, n - 1);
      assert a * Pow2(n) + x == 2 * hi + x % 2 by { assert a * (2 * p) == 2 * (a * p); }
      assert b * Pow2(n) + y == 2 * hj + y % 2 by { assert b * (2 * p) == 2 * (b * p); }
      XorHorner(hi, hj, x % 2, y % 2);
      XorHorner(x / 2, y / 2, x % 2, y % 2);
      assert Xor(a, b) * (2 * p) == 2 * (Xor(a, b) * p);
    }
  }

  // The case of the low byte.
  lemma XorLowByte(a: nat, b: nat, x: nat, y: nat)
    requires x < 256 && y < 256
    ensures Xor(x, y) < 256
    ensures Xor(256 * a + x, 256 * b + y) == 256 * Xor(a, b) + Xor(x, y)
  {
    hide Xor, Pow2;
    KnownPowers();
    XorDigits(a, b, x, y, 8);
    XorRange(x, y, 8);
  }

  lemma RevDef(c: nat, n: nat)
    requires n > 0
    ensures Rev(c, n) == (if c % 2 == 1 then Pow2(n - 1) else 0) + Rev(c / 2, n - 1)
  {}

  lemma OddSum(a: nat, b: nat)
    ensures (a + b) % 2 == 1 <==> (a % 2 == 1) != (b % 2 == 1)
  {}

  // The case of one bit above n others.
  lemma XorTopBit(p: bool, q: bool, x: nat, y: nat, n: nat)
    requires x < Pow2(n) && y < Pow2(n)
    ensures Xor((if p then Pow2(n) else 0) + x, (if q then Pow2(n) else 0) + y)
         == (if p != q then Pow2(n) else 0) + Xor(x, y)
  {
    hide Xor;
    var a, b := if p then 1 else 0, if q then 1 else 0;
    XorDigits(a, b, x, y, n);
    XorBits(a, b);
  }

  lemma {:induction false} RevXor(a: nat, b: nat, n: nat)
    ensures Rev(Xor(a, b), n) == Xor(Rev(a, n), Rev(b, n))
    decreases n
  {
    hide Xor;
    if n == 0 {
      XorZero(0);
      assert Rev(a, 0) == 0 && Rev(b, 0) == 0 && Rev(Xor(a, b), 0) == 0;
    } else {
      hide Rev, Pow2;
      RevXor(a / 2, b / 2, n - 1);
      XorHalf(a, b);
      RevRange(a / 2, n - 1);
      RevRange(b / 2, n - 1);
      RevDef(a, n);
      RevDef(b, n);
      RevDef(Xor(a, b), n);
      OddSum(a, b);
      XorTopBit(a % 2 == 1, b % 2 == 1, Rev(a / 2, n - 1), Rev(b / 2, n - 1), n - 1);
    }
  }

  lemma XorBits(x: nat, y: nat)
    requires x < 2 && y < 2
    ensures Xor(x, y) == (x + y) % 2
  {}

  // The top bit becomes the lowest.
  lemma {:induction false} RevTop(low: nat, top: bool, n: nat)
    requires low < Pow2(n)
    ensures Rev(low + (if top then Pow2(n) else 0), n + 1) == 2 * Rev(low, n) + (if top then 1 else 0)
    decreases n
  {
    if n == 0 {
      assert Rev(0, 0) == 0;
      assert Rev(0, 1) == 0 + Rev(0, 0);
      assert Rev(1, 1) == 1 + Rev(0, 0);
    } else {
      var c := low + (if top then Pow2(n) else 0);
      RevTop(low / 2, top, n - 1);
      assert c / 2 == low / 2 + (if top then Pow2(n - 1) else 0) && c % 2 == low % 2;
    }
  }

  lemma {:induction false} RevTwice(c: nat, n: nat)
    requires c < Pow2(n)
    ensures Rev(Rev(c, n), n) == c
    decreases n
  {
    if n > 0 {
      RevRange(c / 2, n - 1);
      RevTwice(c / 2, n - 1);
      RevTop(Rev(c / 2, n - 1), c % 2 == 1, n - 1);
    }
  }

  // Four bits at a time, for constants.
  lemma RevNibble(c: nat, b3: nat, b2: nat, b1: nat, b0: nat, n: nat, p: nat)
    requires b3 < 2 && b2 < 2 && b1 < 2 && b0 < 2 && p == Pow2(n)
    ensures Rev(16 * c + 8 * b3 + 4 * b2 + 2 * b1 + b0, n + 4)
         == (if b0 == 1 then 8 * p else 0) + (if b1 == 1 then 4 * p else 0) + (if b2 == 1 then 2 * p else 0)
          + (if b3 == 1 then p else 0) + Rev(c, n)
  {
    hide Rev;
    Twice(n);
    Twice(n + 1);
    Twice(n + 2);
    RevStep(c, b3, n);
    RevStep(2 * c + b3, b2, n + 1);
    RevStep(4 * c + 2 * b3 + b2, b1, n + 2);
    RevStep(8 * c + 4 * b3 + 2 * b2 + b1, b0, n + 3);
  }
}
