// Powers of field elements, and the addition chain of fe_inv in src/crypto.cpp.
module FieldInverse {
  import opened Gf2Poly
  import opened DivMod
  import opened Field25519

  ghost function PowP(a: int, e: nat): (r: int)
    requires 0 <= a < P
    ensures 0 <= r < P
  {
    if e == 0 then 1 else MulP(a, PowP(a, e - 1))
  }

  lemma MulPAssoc(a: int, b: int, c: int)
    ensures MulP(MulP(a, b), c) == MulP(a, MulP(b, c))
  {
    ModMul(a * b, c, P);
    ModMul(a, b * c, P);
    ModMul(MulP(a, b), c, P);
    ModMul(a, MulP(b, c), P);
    ModTwice(a * b, P);
    ModTwice(b * c, P);
    assert (a * b) * c == a * (b * c);
  }

  lemma ModTwice(a: int, m: int)
    requires m > 0
    ensures a % m % m == a % m
  {}

  lemma PowZero(a: int, n: nat)
    requires 0 <= a < P
    ensures MulP(PowP(a, 0), PowP(a, n)) == PowP(a, n)
  {
    var x := PowP(a, n);
    assert PowP(a, 0) == 1;
    hide PowP;
    assert 1 * x == x;
  }

  lemma PowNext(a: int, n: nat)
    requires 0 <= a < P
    ensures PowP(a, n + 1) == MulP(a, PowP(a, n))
  {
    hide MulP;
  }

  lemma {:induction false} PowAdd(a: int, m: nat, n: nat)
    requires 0 <= a < P
    ensures MulP(PowP(a, m), PowP(a, n)) == PowP(a, m + n)
    decreases m
  {
    hide MulP, PowP;
    if m == 0 {
      PowZero(a, n);
    } else {
      PowNext(a, m - 1);
      PowNext(a, m - 1 + n);
      PowAdd(a, m - 1, n);
      MulPAssoc(a, PowP(a, m - 1), PowP(a, n));
    }
  }

  lemma PowOneTwo(a: int)
    requires 0 <= a < P
    ensures PowP(a, 1) == a
  {
    assert PowP(a, 0) == 1;
    assert a * 1 == a;
  }

  // The exponent p - 2.
  ghost function InverseExponent(): (n: nat)
  {
    assert Pow2(255) >= 32 by { Pow2Grows(5, 255); }
    Pow2(255) - 21
  }

  lemma {:induction false} Pow2Grows(m: nat, n: nat)
    requires m <= n
    ensures Pow2(m) <= Pow2(n)
    decreases n
  {
    if m < n { Pow2Grows(m, n - 1); }
  }

  lemma ExponentIsPMinusTwo()
    ensures InverseExponent() == P - 2
  {
    SixtyFour();
    hide Pow2;
    Pow2Plus(64, 64);
    Pow2Plus(64, 63);
    Pow2Plus(128, 127);
  }

  lemma SixtyFour()
    ensures Pow2(63) == 0x8000_0000_0000_0000 && Pow2(64) == 0x1_0000_0000_0000_0000
  {
    KnownPowers();
    hide Pow2;
    Pow2Plus(1, 63);
    SmallPowers();
  }

  method FeSq(f: Fe) returns (r: Fe)
    requires Below(f, LIMIT54)
    ensures Tight(r) && Elem(r) == MulP(Elem(f), Elem(f))
  {
    r := FeMul(f, f);
  }

  // n squarings of z^e.
  method FeSqN(f: Fe, n: nat, ghost z: int, ghost e: nat) returns (r: Fe)
    requires Tight(f) && 0 <= z < P && Elem(f) == PowP(z, e)
    ensures Tight(r) && Elem(r) == PowP(z, e * Pow2(n))
  {
    hide MulP, PowP, Elem;
    r := f;
    for i := 0 to n
      invariant Tight(r) && Elem(r) == PowP(z, e * Pow2(i))
    {
      PowAdd(z, e * Pow2(i), e * Pow2(i));
      Doubled(e, i);
      r := FeSq(r);
    }
  }

  lemma Doubled(e: nat, i: nat)
    ensures e * Pow2(i) + e * Pow2(i) == e * Pow2(i + 1)
  {
    assert e * (2 * Pow2(i)) == 2 * (e * Pow2(i));
  }

  ghost function Ones(k: nat): (n: nat) { Pow2(k) - 1 }

  lemma OnesJoin(m: nat, n: nat)
    ensures Ones(m) * Pow2(n) + Ones(n) == Ones(m + n)
  {
    Pow2Plus(m, n);
    assert (Pow2(m) - 1) * Pow2(n) == Pow2(m) * Pow2(n) - Pow2(n);
  }

  // z^(2^m - 1) shifted by n and joined with z^(2^n - 1).
  method Join(f: Fe, m: nat, g: Fe, n: nat, ghost z: int) returns (r: Fe)
    requires 0 <= z < P && Tight(f) && Tight(g)
    requires Elem(f) == PowP(z, Ones(m)) && Elem(g) == PowP(z, Ones(n))
    ensures Tight(r) && Elem(r) == PowP(z, Ones(m + n))
  {
    hide MulP, PowP, Elem, Ones;
    var s := FeSqN(f, n, z, Ones(m));
    r := FeMul(s, g);
    PowAdd(z, Ones(m) * Pow2(n), Ones(n));
    OnesJoin(m, n);
  }

  method MulPowers(f: Fe, g: Fe, ghost z: int, ghost m: nat, ghost n: nat) returns (r: Fe)
    requires 0 <= z < P && Below(f, LIMIT54) && Below(g, LIMIT54)
    requires Elem(f) == PowP(z, m) && Elem(g) == PowP(z, n)
    ensures Tight(r) && Elem(r) == PowP(z, m + n)
  {
    hide MulP, PowP, Elem;
    r := FeMul(f, g);
    PowAdd(z, m, n);
  }

  lemma OnesFive()
    ensures Ones(5) == 31
  {
    SmallPowers();
  }

  lemma FinalExponent()
    ensures Ones(250) * Pow2(5) + 11 == InverseExponent()
  {
    hide Pow2;
    Pow2Plus(250, 5);
    SmallPowers();
    assert (Pow2(250) - 1) * 32 == Pow2(250) * 32 - 32;
  }

  // z^11 and z^31
  method FirstPowers(f: Fe) returns (z11: Fe, z5: Fe)
    requires Below(f, LIMIT54)
    ensures Tight(z11) && Tight(z5)
    ensures Elem(z11) == PowP(Elem(f), 11) && Elem(z5) == PowP(Elem(f), Ones(5))
  {
    ghost var z := Elem(f);
    PowOneTwo(z);
    SmallPowers();
    OnesFive();
    hide MulP, PowP, Elem, Ones, Pow2;
    var z2 := MulPowers(f, f, z, 1, 1);
    var z8 := FeSqN(z2, 2, z, 2);
    var z9 := MulPowers(f, z8, z, 1, 8);
    z11 := MulPowers(z2, z9, z, 2, 9);
    var z22 := MulPowers(z11, z11, z, 11, 11);
    z5 := MulPowers(z9, z22, z, 9, 22);
  }

  // From z^(2^5 - 1) to z^(2^50 - 1) and z^(2^250 - 1).
  method OnesChain(z5: Fe, ghost z: int) returns (z250: Fe)
    requires 0 <= z < P && Tight(z5) && Elem(z5) == PowP(z, Ones(5))
    ensures Tight(z250) && Elem(z250) == PowP(z, Ones(250))
  {
    hide MulP, PowP, Elem, Ones, Pow2;
    var z10 := Join(z5, 5, z5, 5, z);
    var z20 := Join(z10, 10, z10, 10, z);
    var z40 := Join(z20, 20, z20, 20, z);
    var z50 := Join(z40, 40, z10, 10, z);
    var z100 := Join(z50, 50, z50, 50, z);
    var z200 := Join(z100, 100, z100, 100, z);
    z250 := Join(z200, 200, z50, 50, z);
  }

  // z^(p - 2)
  method FeInv(f: Fe) returns (r: Fe)
    requires Below(f, LIMIT54)
    ensures Tight(r) && Elem(r) == PowP(Elem(f), InverseExponent())
  {
    hide MulP, PowP, Elem, Ones, InverseExponent, Pow2;
    ghost var z := Elem(f);
    var z11, z5 := FirstPowers(f);
    var z250 := OnesChain(z5, z);
    var s := FeSqN(z250, 5, z, Ones(250));
    FinalExponent();
    r := MulPowers(s, z11, z, Ones(250) * Pow2(5), 11);
  }
}
