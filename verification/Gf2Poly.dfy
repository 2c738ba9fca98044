// Polynomials over GF(2), packed into naturals: bit i is the coefficient of X^i.
module Gf2Poly {
  function Pow2(n: nat): (p: nat)
    ensures p >= 1
  {
    if n == 0 then 1 else 2 * Pow2(n - 1)
  }

  // Bitwise exclusive or, at every width: the addition of polynomials.
  function Xor(a: nat, b: nat): (r: nat)
    decreases a
  {
    if a == 0 then b
    else if b == 0 then a
    else 2 * Xor(a / 2, b / 2) + (a + b) % 2
  }

  lemma {:induction false} XorHalf(a: nat, b: nat)
    ensures Xor(a, b) / 2 == Xor(a / 2, b / 2)
    ensures Xor(a, b) % 2 == (a + b) % 2
  {
    if a == 0 {
      assert Xor(0, b / 2) == b / 2;
    } else if b == 0 {
      assert b / 2 == 0;
      assert Xor(a / 2, 0) == a / 2;
    } else {
      var q := Xor(a / 2, b / 2);
      assert Xor(a, b) == 2 * q + (a + b) % 2;
      assert (2 * q + (a + b) % 2) / 2 == q;
    }
  }

  lemma {:induction false} XorComm(a: nat, b: nat)
    ensures Xor(a, b) == Xor(b, a)
    decreases a
  {
    if a > 0 && b > 0 { XorComm(a / 2, b / 2); }
  }

  lemma XorZero(a: nat)
    ensures Xor(a, 0) == a && Xor(0, a) == a
  {}

  lemma {:induction false} XorSelf(a: nat)
    ensures Xor(a, a) == 0
    decreases a
  {
    if a > 0 {
      XorSelf(a / 2);
      assert (a + a) % 2 == 0;
    }
  }

  lemma HalvesEqual(a: nat, b: nat)
    requires a / 2 == b / 2 && a % 2 == b % 2
    ensures a == b
  {}

  lemma ParityAssoc(a: nat, b: nat, c: nat)
    ensures ((a + b) % 2 + c) % 2 == (a + (b + c) % 2) % 2
  {}

  lemma ParityOfParity(a: nat, b: nat, r: nat)
    requires r % 2 == (a + b) % 2
    ensures r % 2 == (a % 2 + b) % 2 == (a + b % 2) % 2
  {}

  lemma {:induction false} XorAssoc(a: nat, b: nat, c: nat)
    ensures Xor(Xor(a, b), c) == Xor(a, Xor(b, c))
    decreases a
  {
    hide Xor;
    if a == 0 {
      XorZero(b);
      XorZero(Xor(b, c));
    } else {
      var ab, bc := Xor(a, b), Xor(b, c);
      var l, r := Xor(ab, c), Xor(a, bc);
      XorAssoc(a / 2, b / 2, c / 2);
      XorHalf(a, b);
      XorHalf(b, c);
      XorHalf(ab, c);
      XorHalf(a, bc);
      ParityOfParity(ab, c, l);
      ParityOfParity(a, bc, r);
      ParityAssoc(a, b, c);
      HalvesEqual(l, r);
    }
  }

  lemma XorSwap(a: nat, b: nat, c: nat, d: nat)
    ensures Xor(Xor(a, b), Xor(c, d)) == Xor(Xor(a, c), Xor(b, d))
  {
    XorAssoc(a, b, Xor(c, d));
    XorAssoc(b, c, d);
    XorComm(b, c);
    XorAssoc(c, b, d);
    XorAssoc(a, c, Xor(b, d));
  }

  lemma XorCancel(a: nat, b: nat)
    ensures Xor(Xor(a, b), b) == a && Xor(b, Xor(b, a)) == a
  {
    XorAssoc(a, b, b);
    XorSelf(b);
    XorAssoc(b, b, a);
  }

  lemma XorDouble(a: nat, b: nat)
    ensures Xor(2 * a, 2 * b) == 2 * Xor(a, b)
  {
    XorHalf(2 * a, 2 * b);
    assert (2 * a + 2 * b) % 2 == 0;
  }

  lemma {:induction false} XorRange(a: nat, b: nat, n: nat)
    requires a < Pow2(n) && b < Pow2(n)
    ensures Xor(a, b) < Pow2(n)
    decreases n
  {
    if a > 0 && b > 0 {
      XorRange(a / 2, b / 2, n - 1);
    }
  }

  // Two polynomials of the same degree n: their leading terms cancel.
  lemma {:induction false} XorLeading(a: nat, b: nat, n: nat)
    requires Pow2(n) <= a < 2 * Pow2(n) && Pow2(n) <= b < 2 * Pow2(n)
    ensures Xor(a, b) < Pow2(n)
    decreases n
  {
    if n == 0 {
      assert a == 1 && b == 1;
      XorSelf(1);
    } else {
      XorLeading(a / 2, b / 2, n - 1);
    }
  }

  // ---- carry-less multiplication: the product of polynomials ----

  function ClMul(a: nat, b: nat): (n: nat)
    decreases b
  {
    if b == 0 then 0
    else Xor(if b % 2 == 1 then a else 0, 2 * ClMul(a, b / 2))
  }

  lemma {:induction false} ClMulZero(b: nat)
    ensures ClMul(0, b) == 0
    decreases b
  {
    if b > 0 { ClMulZero(b / 2); }
  }

  lemma {:induction false} ClMulDoubleL(a: nat, b: nat)
    ensures ClMul(2 * a, b) == 2 * ClMul(a, b)
    decreases b
  {
    if b > 0 {
      ClMulDoubleL(a, b / 2);
      XorDouble(if b % 2 == 1 then a else 0, 2 * ClMul(a, b / 2));
    }
  }

  lemma ClMulDoubleR(a: nat, b: nat)
    ensures ClMul(a, 2 * b) == 2 * ClMul(a, b)
  {
    if b > 0 {
      assert (2 * b) / 2 == b && (2 * b) % 2 == 0;
    }
  }

  lemma {:induction false} ClMulDistL(a: nat, b: nat, c: nat)
    ensures ClMul(Xor(a, b), c) == Xor(ClMul(a, c), ClMul(b, c))
    decreases c
  {
    hide Xor;
    if c == 0 {
      XorZero(0);
    } else {
      ClMulDistL(a, b, c / 2);
      var p, q := ClMul(a, c / 2), ClMul(b, c / 2);
      XorDouble(p, q);
      XorZero(0);
      XorSwap(if c % 2 == 1 then a else 0, if c % 2 == 1 then b else 0, 2 * p, 2 * q);
    }
  }

  // The step of ClMul, also at zero.
  lemma ClMulStep(a: nat, b: nat)
    ensures ClMul(a, b) == Xor(if b % 2 == 1 then a else 0, 2 * ClMul(a, b / 2))
  {
    if b == 0 { XorZero(0); }
  }

  lemma XorParityPick(a: nat, b: nat, c: nat)
    ensures (if Xor(b, c) % 2 == 1 then a else 0)
         == Xor(if b % 2 == 1 then a else 0, if c % 2 == 1 then a else 0)
  {
    hide Xor;
    XorHalf(b, c);
    XorSelf(a);
    XorZero(a);
    XorZero(0);
  }

  lemma {:induction false} ClMulDistR(a: nat, b: nat, c: nat)
    ensures ClMul(a, Xor(b, c)) == Xor(ClMul(a, b), ClMul(a, c))
    decreases b + c
  {
    hide Xor;
    hide ClMul;
    if b == 0 {
      XorZero(c);
      XorZero(ClMul(a, c));
      assert ClMul(a, 0) == 0 by { ClMulStep0(a); }
    } else {
      ClMulDistR(a, b / 2, c / 2);
      ClMulStep(a, b);
      ClMulStep(a, c);
      ClMulStep(a, Xor(b, c));
      XorHalf(b, c);
      XorParityPick(a, b, c);
      var p, q := ClMul(a, b / 2), ClMul(a, c / 2);
      XorDouble(p, q);
      XorSwap(if b % 2 == 1 then a else 0, if c % 2 == 1 then a else 0, 2 * p, 2 * q);
    }
  }

  lemma ClMulStep0(a: nat)
    ensures ClMul(a, 0) == 0
  {}

  lemma {:induction false} ClMulOne(a: nat)
    ensures ClMul(a, 1) == a && ClMul(1, a) == a
    decreases a
  {
    XorZero(a);
    assert ClMul(a, 1) == a;
    if a > 0 {
      ClMulOne(a / 2);
      XorZero(2 * (a / 2));
      XorOdd(a / 2);
    }
  }

  lemma XorOdd(a: nat)
    ensures Xor(1, 2 * a) == 2 * a + 1
  {
    XorZero(a);
  }

  lemma SplitParity(a: nat)
    ensures a == Xor(a % 2, 2 * (a / 2))
  {
    XorOdd(a / 2);
    XorZero(a);
  }

  lemma {:induction false} ClMulComm(a: nat, b: nat)
    ensures ClMul(a, b) == ClMul(b, a)
    decreases b
  {
    if b == 0 {
      ClMulZero(a);
    } else {
      // b = (b % 2) + X * (b / 2)
      var h := b / 2;
      ClMulComm(a, h);
      SplitParity(b);
      ClMulDistL(b % 2, 2 * h, a);
      ClMulDoubleL(h, a);
      ClMulOne(a);
      ClMulZero(a);
      assert ClMul(b % 2, a) == if b % 2 == 1 then a else 0;
    }
  }

  lemma {:induction false} ClMulAssoc(a: nat, b: nat, c: nat)
    ensures ClMul(ClMul(a, b), c) == ClMul(a, ClMul(b, c))
    decreases c
  {
    hide Xor;
    if c > 0 {
      ClMulAssoc(a, b, c / 2);
      var pick, rest := if c % 2 == 1 then b else 0, ClMul(b, c / 2);
      ClMulDistR(a, pick, 2 * rest);
      ClMulDoubleR(a, rest);
    }
  }

  // ---- long division ----

  // f is a modulus of degree w.
  ghost predicate Degree(f: nat, w: nat) { Pow2(w) <= f < 2 * Pow2(w) }

  // One division step: cancel the leading term, if there is one.
  function Fold(r: nat, f: nat, w: nat): (n: nat)
  {
    if r >= Pow2(w) then Xor(r, f) else r
  }

  // The remainder of a by f, one bit of a at a time from the top.
  function Rem(a: nat, f: nat, w: nat): (n: nat)
    decreases a
  {
    if a == 0 then 0 else Fold(2 * Rem(a / 2, f, w) + a % 2, f, w)
  }

  function Quot(a: nat, f: nat, w: nat): (n: nat)
    decreases a
  {
    if a == 0 then 0
    else 2 * Quot(a / 2, f, w) + (if 2 * Rem(a / 2, f, w) + a % 2 >= Pow2(w) then 1 else 0)
  }

  // Multiplication modulo f.
  function MulMod(a: nat, b: nat, f: nat, w: nat): (n: nat)
  {
    Rem(ClMul(a, b), f, w)
  }

  lemma FoldRange(r: nat, f: nat, w: nat)
    requires Degree(f, w) && r < 2 * Pow2(w)
    ensures Fold(r, f, w) < Pow2(w)
  {
    if r >= Pow2(w) { XorLeading(r, f, w); }
  }

  lemma {:induction false} RemRange(a: nat, f: nat, w: nat)
    requires Degree(f, w)
    ensures Rem(a, f, w) < Pow2(w)
    decreases a
  {
    hide Fold;
    if a > 0 {
      RemRange(a / 2, f, w);
      FoldRange(2 * Rem(a / 2, f, w) + a % 2, f, w);
    }
  }

  lemma {:induction false} RemSmall(a: nat, f: nat, w: nat)
    requires a < Pow2(w)
    ensures Rem(a, f, w) == a
    decreases a
  {
    if a > 0 { RemSmall(a / 2, f, w); }
  }

  lemma RemOfModulus(f: nat, w: nat)
    requires Degree(f, w)
    ensures Rem(f, f, w) == 0
  {
    RemSmall(f / 2, f, w);
    XorSelf(f);
  }

  // Exactly one of the two has the leading term.
  lemma {:induction false} XorOneLeading(a: nat, b: nat, n: nat)
    requires Pow2(n) <= a < 2 * Pow2(n) && b < Pow2(n)
    ensures Xor(a, b) >= Pow2(n)
  {
    if n == 0 {
      XorZero(a);
    } else if b > 0 {
      XorOneLeading(a / 2, b / 2, n - 1);
    }
  }

  lemma FoldLinear(r: nat, s: nat, f: nat, w: nat)
    requires Degree(f, w) && r < 2 * Pow2(w) && s < 2 * Pow2(w)
    ensures Fold(Xor(r, s), f, w) == Xor(Fold(r, f, w), Fold(s, f, w))
  {
    hide Xor;
    if r >= Pow2(w) && s >= Pow2(w) {
      XorLeading(r, s, w);
      XorSwap(r, f, s, f);
      XorSelf(f);
      XorZero(Xor(r, s));
    } else if r >= Pow2(w) {
      XorOneLeading(r, s, w);
      XorAssoc(r, s, f);
      XorComm(s, f);
      XorAssoc(r, f, s);
    } else if s >= Pow2(w) {
      XorOneLeading(s, r, w);
      XorComm(s, r);
      XorAssoc(r, s, f);
    } else {
      XorRange(r, s, w);
    }
  }

  lemma XorHorner(a: nat, b: nat, x: nat, y: nat)
    requires x < 2 && y < 2
    ensures Xor(2 * a + x, 2 * b + y) == 2 * Xor(a, b) + (x + y) % 2
  {
    hide Xor;
    XorHalf(2 * a + x, 2 * b + y);
    assert (2 * a + x) / 2 == a && (2 * b + y) / 2 == b;
    assert (2 * a + x + (2 * b + y)) % 2 == (x + y) % 2;
  }

  lemma RemStep(a: nat, f: nat, w: nat)
    ensures Rem(a, f, w) == Fold(2 * Rem(a / 2, f, w) + a % 2, f, w)
  {}

  lemma {:induction false} RemLinear(a: nat, b: nat, f: nat, w: nat)
    requires Degree(f, w)
    ensures Rem(Xor(a, b), f, w) == Xor(Rem(a, f, w), Rem(b, f, w))
    decreases a
  {
    hide Xor;
    hide Fold;
    if a == 0 {
      XorZero(b);
      XorZero(Rem(b, f, w));
    } else {
      RemLinear(a / 2, b / 2, f, w);
      var p, q := Rem(a / 2, f, w), Rem(b / 2, f, w);
      RemRange(a / 2, f, w);
      RemRange(b / 2, f, w);
      XorHalf(a, b);
      XorHorner(p, q, a % 2, b % 2);
      RemStep(a, f, w);
      RemStep(b, f, w);
      RemStep(Xor(a, b), f, w);
      FoldLinear(2 * p + a % 2, 2 * q + b % 2, f, w);
    }
  }

  lemma RemDouble(a: nat, f: nat, w: nat)
    ensures Rem(2 * a, f, w) == Fold(2 * Rem(a, f, w), f, w)
  {
    hide Rem, Fold;
    RemStep(2 * a, f, w);
    assert 2 * a / 2 == a && 2 * a % 2 == 0;
  }

  lemma {:induction false} MulModReduceL(a: nat, b: nat, f: nat, w: nat)
    requires Degree(f, w)
    ensures MulMod(Rem(a, f, w), b, f, w) == MulMod(a, b, f, w)
    decreases b
  {
    hide Xor;
    hide Fold;
    hide Rem;
    if b > 0 {
      var r := Rem(a, f, w);
      MulModReduceL(a, b / 2, f, w);
      var p, q := ClMul(a, b / 2), ClMul(r, b / 2);
      RemDouble(p, f, w);
      RemDouble(q, f, w);
      RemLinear(if b % 2 == 1 then a else 0, 2 * p, f, w);
      RemLinear(if b % 2 == 1 then r else 0, 2 * q, f, w);
      RemRange(a, f, w);
      RemSmall(r, f, w);
    }
  }

  lemma MulModComm(a: nat, b: nat, f: nat, w: nat)
    ensures MulMod(a, b, f, w) == MulMod(b, a, f, w)
  {
    ClMulComm(a, b);
  }

  lemma MulModReduceR(a: nat, b: nat, f: nat, w: nat)
    requires Degree(f, w)
    ensures MulMod(a, Rem(b, f, w), f, w) == MulMod(a, b, f, w)
  {
    MulModComm(a, Rem(b, f, w), f, w);
    MulModReduceL(b, a, f, w);
    MulModComm(a, b, f, w);
  }

  lemma MulModAssoc(a: nat, b: nat, c: nat, f: nat, w: nat)
    requires Degree(f, w)
    ensures MulMod(MulMod(a, b, f, w), c, f, w) == MulMod(a, MulMod(b, c, f, w), f, w)
  {
    MulModReduceL(ClMul(a, b), c, f, w);
    MulModReduceR(a, ClMul(b, c), f, w);
    ClMulAssoc(a, b, c);
  }

  lemma MulModDist(a: nat, b: nat, c: nat, f: nat, w: nat)
    requires Degree(f, w)
    ensures MulMod(a, Xor(b, c), f, w) == Xor(MulMod(a, b, f, w), MulMod(a, c, f, w))
  {
    ClMulDistR(a, b, c);
    RemLinear(ClMul(a, b), ClMul(a, c), f, w);
  }

  // Rem and Quot divide: a = q f + r with r of lower degree.
  lemma {:induction false} Division(a: nat, f: nat, w: nat)
    requires Degree(f, w)
    ensures a == Xor(ClMul(Quot(a, f, w), f), Rem(a, f, w))
    ensures Rem(a, f, w) < Pow2(w)
    decreases a
  {
    hide Xor;
    hide ClMul;
    RemRange(a, f, w);
    if a == 0 {
      ClMulZero(f);
      XorZero(0);
    } else {
      Division(a / 2, f, w);
      DivisionStep(a, f, w, Quot(a / 2, f, w), Rem(a / 2, f, w));
    }
  }

  lemma DivisionStep(a: nat, f: nat, w: nat, q: nat, r: nat)
    requires a / 2 == Xor(ClMul(q, f), r)
    ensures var s := 2 * r + a % 2; var top := s >= Pow2(w);
      a == Xor(ClMul(2 * q + (if top then 1 else 0), f), Fold(s, f, w))
  {
    hide Xor;
    hide ClMul;
    var s := 2 * r + a % 2;
    var m := ClMul(q, f);
    // a = 2 m + s
    XorHorner(m, r, 0, a % 2);
    assert a == Xor(2 * m, s);
    ClMulDoubleL(q, f);
    if s >= Pow2(w) {
      XorOdd(q);
      ClMulDistL(1, 2 * q, f);
      ClMulOne(f);
      XorComm(f, 2 * m);
      XorAssoc(2 * m, f, Xor(s, f));
      XorComm(s, f);
      XorCancel(s, f);
    }
  }

  // ... and no other remainder is possible.
  lemma RemUnique(q: nat, r: nat, f: nat, w: nat)
    requires Degree(f, w) && r < Pow2(w)
    ensures Rem(Xor(ClMul(q, f), r), f, w) == r
  {
    hide Xor;
    hide ClMul;
    RemLinear(ClMul(q, f), r, f, w);
    RemSmall(r, f, w);
    MulModReduceR(q, f, f, w);
    RemOfModulus(f, w);
    ClMulStep0(q);
    XorZero(r);
  }
}
