// GHASH of src/crypto.cpp against multiplication in GF(2^128), section 6.3 of NIST SP 800-38D.
module Ghash {
  import opened Gf2Poly
  import opened DivMod
  import opened ByteStrings
  import opened Reflect

  // x^128 + x^7 + x^2 + x + 1
  const MODULUS: nat := 0x1_0000_0000_0000_0000_0000_0000_0000_0087

  type Block = b: Bytes | |b| == 16 witness [0, 0, 0, 0, 0, 0, 0, 0, 0, 0, 0, 0, 0, 0, 0, 0]

  // ---- blocks as polynomials: the leading bit of the first byte is the coefficient of 1 ----

  ghost function Mirror(b: Bytes): (m: Bytes)
    ensures |m| == |b|
  {
    seq(|b|, i requires 0 <= i < |b| => RevByte(b[i]))
  }

  ghost function RevByte(b: Byte): (r: Byte)
  {
    RevRange(b, 8);
    KnownPowers();
    Rev(b, 8)
  }

  ghost function Poly(b: Bytes): (n: nat) { Le(Mirror(b)) }

  lemma Pow128()
    ensures Pow2(128) == 0x1_0000_0000_0000_0000_0000_0000_0000_0000
  {
    KnownPowers();
    Pow2Plus(64, 64);
  }

  lemma ModulusDegree()
    ensures Degree(MODULUS, 128)
  {
    Pow128();
  }

  lemma PolyRange(b: Block)
    ensures Poly(b) < Pow2(128)
  {
    LeBound(Mirror(b));
  }

  lemma PolyCons(b: Bytes)
    requires |b| > 0
    ensures Poly(b) == RevByte(b[0]) + 256 * Poly(b[1..])
  {
    hide Rev;
    assert Mirror(b)[1..] == Mirror(b[1..]);
  }

  lemma PolyEmpty()
    ensures Poly([]) == 0
  {}

  function XorAll(a: Bytes, b: Bytes): (c: Bytes)
    requires |a| <= |b|
    ensures |c| == |a|
  {
    seq(|a|, i requires 0 <= i < |a| => XorByte(a[i], b[i]))
  }

  lemma {:induction false} PolyXor(a: Bytes, b: Bytes)
    requires |a| == |b|
    ensures Poly(XorAll(a, b)) == Xor(Poly(a), Poly(b))
  {
    hide Poly, Xor, Rev;
    if |a| == 0 {
      PolyEmpty();
      XorZero(0);
      assert XorAll(a, b) == [] && a == [] && b == [];
    } else {
      PolyXor(a[1..], b[1..]);
      assert XorAll(a, b)[1..] == XorAll(a[1..], b[1..]);
      PolyCons(a);
      PolyCons(b);
      PolyCons(XorAll(a, b));
      RevXor(a[0], b[0], 8);
      KnownPowers();
      XorDigits(Poly(a[1..]), Poly(b[1..]), RevByte(a[0]), RevByte(b[0]), 8);
    }
  }

  lemma {:induction false} RevBit(b: nat, n: nat, j: nat)
    requires j < n
    ensures Rev(b, n) / Pow2(j) % 2 == b / Pow2(n - 1 - j) % 2
    decreases n
  {
    hide Rev, Pow2;
    RevDef(b, n);
    RevRange(b / 2, n - 1);
    var r := Rev(b / 2, n - 1);
    if j == n - 1 {
      TopDigit(b % 2 == 1, r, n - 1);
      KnownPowers();
      assert b / 1 == b;
    } else {
      RevBit(b / 2, n - 1, j);
      BelowTop(b % 2 == 1, r, n - 1, j);
      HalfThenBit(b, n - 2 - j);
    }
  }

  lemma HalfThenBit(b: nat, k: nat)
    ensures b / 2 / Pow2(k) % 2 == b / Pow2(k + 1) % 2
  {
    hide Pow2;
    Twice(k);
    Split(b, 2, Pow2(k));
  }

  lemma TopDigit(top: bool, r: nat, n: nat)
    requires r < Pow2(n)
    ensures ((if top then Pow2(n) else 0) + r) / Pow2(n) % 2 == if top then 1 else 0
  {
    Unique((if top then Pow2(n) else 0) + r, Pow2(n), if top then 1 else 0, r);
  }

  lemma BelowTop(top: bool, r: nat, n: nat, j: nat)
    requires j < n
    ensures ((if top then Pow2(n) else 0) + r) / Pow2(j) % 2 == r / Pow2(j) % 2
  {
    hide Pow2;
    if top {
      Pow2Plus(j, n - j);
      Twice(n - j - 1);
      AddMultiple(r, Pow2(j), Pow2(n - j));
      AddMultiple(r / Pow2(j), 2, Pow2(n - j - 1));
    }
  }

  // Bits are counted from the high end of the first byte.
  function BlockBit(x: Block, i: nat): (n: nat)
    requires i < 128
  {
    x[i / 8] / Pow2(7 - i % 8) % 2
  }

  lemma BlockBitIsCoefficient(x: Block, i: nat)
    requires i < 128
    ensures BlockBit(x, i) == Poly(x) / Pow2(i) % 2
  {
    hide Pow2, Rev, Le;
    LeBit(Mirror(x), i / 8, i % 8);
    RevBit(x[i / 8], 8, i % 8);
  }

  // ---- multiplication by x: a right shift of the block ----

  function ShiftedByte(s: Bytes, carry: nat, j: nat): (b: Byte)
    requires j < |s| && carry < 2
  {
    s[j] / 2 + 128 * (if j == 0 then carry else s[j - 1] % 2)
  }

  ghost function ShiftedFrom(s: Bytes, carry: nat): (r: Bytes)
    requires carry < 2
    ensures |r| == |s|
  {
    seq(|s|, j requires 0 <= j < |s| => ShiftedByte(s, carry, j))
  }

  lemma RevByteShift(b: Byte, carry: nat)
    requires carry < 2
    ensures RevByte(b / 2 + 128 * carry) + 256 * (b % 2) == 2 * RevByte(b) + carry
  {
    hide Rev;
    KnownPowers();
    SmallPowers();
    RevDef(b, 8);
    RevTop(b / 2, carry == 1, 7);
  }

  lemma {:induction false} PolyShifted(s: Bytes, carry: nat)
    requires carry < 2 && |s| > 0
    ensures Poly(ShiftedFrom(s, carry)) + Pow256(|s|) * (s[|s| - 1] % 2) == 2 * Poly(s) + carry
    decreases |s|
  {
    hide Poly, Rev, RevByte, Pow256;
    var r := ShiftedFrom(s, carry);
    PolyCons(s);
    PolyCons(r);
    RevByteShift(s[0], carry);
    Pow256Next(|s| - 1);
    if |s| == 1 {
      Pow256Next(0);
      PolyEmpty();
      assert s[1..] == [] && r[1..] == [];
    } else {
      PolyShifted(s[1..], s[0] % 2);
      assert r[1..] == ShiftedFrom(s[1..], s[0] % 2);
      var p, t := Pow256(|s| - 1), s[|s| - 1] % 2;
      assert 256 * (p * t) == (256 * p) * t;
    }
  }

  lemma E1Mirrored()
    ensures RevByte(0xE1) == 0x87
  {
    hide Rev;
    KnownPowers();
    SmallPowers();
    RevZero(0);
    RevNibble(0, 1, 1, 1, 0, 0, 1);
    RevNibble(14, 0, 0, 0, 1, 4, 16);
  }

  // Flipping the bits of 0xE1 in the first byte adds x^7 + x^2 + x + 1.
  lemma PolyFlip(s: Block)
    ensures Poly(s[0 := XorByte(s[0], 0xE1)]) == Xor(Poly(s), 0x87)
  {
    hide Poly, Rev, Xor;
    var r := s[0 := XorByte(s[0], 0xE1)];
    PolyCons(s);
    PolyCons(r);
    assert r[1..] == s[1..];
    E1Mirrored();
    RevXor(s[0], 0xE1, 8);
    KnownPowers();
    XorDigits(Poly(s[1..]), 0, RevByte(s[0]), 0x87, 8);
    XorZero(Poly(s[1..]));
  }

  ghost function TimesXBlock(v: Block): (r: Block)
  {
    var s := ShiftedFrom(v, 0);
    if v[15] % 2 == 1 then s[0 := XorByte(s[0], 0xE1)] else s
  }

  lemma TimesXIsFold(v: Block)
    ensures Poly(TimesXBlock(v)) == Fold(2 * Poly(v), MODULUS, 128)
  {
    hide Poly, Xor, Rev, RevByte;
    var s: Block := ShiftedFrom(v, 0);
    PolyShifted(v, 0);
    PolyRange(s);
    Pow128();
    assert Pow256(16) == Pow2(128);
    if v[15] % 2 == 1 {
      PolyFlip(s);
      XorTopBit(true, true, Poly(s), 0x87, 128);
    }
  }

  // ---- ghash_mul ----

  method XorInto(z: array<Byte>, v: array<Byte>)
    requires z.Length == v.Length && z != v
    modifies z
    ensures z[..] == XorAll(old(z[..]), v[..])
  {
    for j := 0 to z.Length
      invariant forall k :: 0 <= k < j ==> z[k] == XorByte(old(z[k]), v[k])
      invariant forall k :: j <= k < z.Length ==> z[k] == old(z[k])
    {
      z[j] := XorByte(z[j], v[j]);
    }
  }

  // The block in place, one bit to the right, reduced.
  method ShiftRight(v: array<Byte>)
    requires v.Length == 16
    modifies v
    ensures v[..] == TimesXBlock(old(v[..]))
  {
    ghost var was := v[..];
    var lsb := v[15] % 2 == 1;
    for j := 16 downto 0
      invariant forall k :: j <= k < 16 ==> v[k] == ShiftedByte(was, 0, k)
      invariant forall k :: 0 <= k < j ==> v[k] == was[k]
    {
      v[j] := v[j] / 2 + 128 * (if j == 0 then 0 else v[j - 1] % 2);
    }
    assert v[..] == ShiftedFrom(was, 0);
    if lsb { v[0] := XorByte(v[0], 0xE1); }
  }

  // The powers of x times y, one after the other.
  ghost function PowerOf(y: nat, i: nat): (n: nat) { Rem(y * Pow2(i), MODULUS, 128) }

  lemma PowerNext(y: nat, i: nat)
    ensures Fold(2 * PowerOf(y, i), MODULUS, 128) == PowerOf(y, i + 1)
  {
    hide Rem, Fold, Pow2;
    RemDouble(y * Pow2(i), MODULUS, 128);
    TwiceTimes(y, i);
  }

  lemma TwiceTimes(y: nat, i: nat)
    ensures y * Pow2(i + 1) == 2 * (y * Pow2(i))
  {
    hide Pow2;
    Twice(i);
    assert y * (2 * Pow2(i)) == 2 * (y * Pow2(i));
  }

  // The product by the coefficients of x below i.
  ghost function PartialProduct(x: nat, y: nat, i: nat): (n: nat)
  {
    Rem(ClMul(y, x % Pow2(i)), MODULUS, 128)
  }

  lemma {:induction false} ClMulPower(y: nat, i: nat)
    ensures ClMul(y, Pow2(i)) == y * Pow2(i)
  {
    hide ClMul, Pow2;
    if i == 0 {
      KnownPowers();
      ClMulOne(y);
      assert y * 1 == y;
    } else {
      ClMulPower(y, i - 1);
      ClMulDoubleR(y, Pow2(i - 1));
      Twice(i - 1);
      TwiceTimes(y, i - 1);
    }
  }

  lemma PartialNext(x: nat, y: nat, i: nat)
    ensures PartialProduct(x, y, i + 1)
         == if x / Pow2(i) % 2 == 1 then Xor(PartialProduct(x, y, i), PowerOf(y, i)) else PartialProduct(x, y, i)
  {
    hide Xor, ClMul, Rem;
    var p, low := Pow2(i), x % Pow2(i);
    Split(x, p, 2);
    if x / p % 2 == 1 {
      XorTopBit(true, false, 0, low, i);
      XorZero(low);
      assert x % Pow2(i + 1) == Xor(p, low);
      ClMulDistR(y, p, low);
      ClMulPower(y, i);
      ModulusDegree();
      RemLinear(y * p, ClMul(y, low), MODULUS, 128);
      XorComm(PowerOf(y, i), PartialProduct(x, y, i));
    }
  }

  lemma PartialStart(x: nat, y: nat)
    ensures PartialProduct(x, y, 0) == 0
  {
    KnownPowers();
    assert x % 1 == 0;
  }

  lemma PartialEnd(x: Block, y: nat)
    ensures PartialProduct(Poly(x), y, 128) == MulMod(y, Poly(x), MODULUS, 128)
  {
    hide Poly, Pow2, Rem, ClMul;
    PolyRange(x);
    Unique(Poly(x), Pow2(128), 0, Poly(x));
  }

  lemma PowerStart(y: Block)
    ensures PowerOf(Poly(y), 0) == Poly(y)
  {
    PolyRange(y);
    KnownPowers();
    assert Poly(y) * 1 == Poly(y);
    RemSmall(Poly(y), MODULUS, 128);
  }

  lemma {:induction false} PolyZeros(b: Bytes)
    requires forall i :: 0 <= i < |b| ==> b[i] == 0
    ensures Poly(b) == 0
  {
    hide Poly, Rev;
    if |b| == 0 {
      PolyEmpty();
    } else {
      PolyZeros(b[1..]);
      PolyCons(b);
      RevZero(8);
    }
  }

  // x becomes x times y in the field.
  method GhashMul(x: array<Byte>, y: Block)
    requires x.Length == 16
    modifies x
    ensures Poly(x[..]) == MulMod(old(Poly(x[..])), Poly(y), MODULUS, 128)
  {
    hide Poly, Rem, Fold, PartialProduct, PowerOf, TimesXBlock, XorAll, BlockBit;
    ghost var was: Block := x[..];
    var z := new Byte[16](_ => 0);
    var v := new Byte[16](i requires 0 <= i < 16 => y[i]);
    assert v[..] == y;
    PolyZeros(z[..]);
    PartialStart(Poly(was), Poly(y));
    PowerStart(y);
    for i := 0 to 128
      invariant x[..] == was
      invariant Poly(z[..]) == PartialProduct(Poly(was), Poly(y), i)
      invariant Poly(v[..]) == PowerOf(Poly(y), i)
    {
      BlockBitIsCoefficient(was, i);
      PartialNext(Poly(was), Poly(y), i);
      PowerNext(Poly(y), i);
      if BlockBit(x[..], i) == 1 {
        PolyXor(z[..], v[..]);
        XorInto(z, v);
      }
      TimesXIsFold(v[..]);
      ShiftRight(v);
    }
    PartialEnd(was, Poly(y));
    MulModComm(Poly(y), Poly(was), MODULUS, 128);
    ghost var product := z[..];
    forall i | 0 <= i < 16 { x[i] := z[i]; }
    assert x[..] == product;
  }

  // ---- ghash_update ----

  function PadBlock(b: Bytes): (r: Block)
    requires |b| <= 16
    ensures r[..|b|] == b && forall i :: |b| <= i < 16 ==> r[i] == 0
  {
    b + seq(16 - |b|, _ => 0)
  }

  // The GHASH function on polynomials: blocks of 16 bytes, the last one padded with zeros.
  ghost function GhashPoly(acc: nat, h: nat, data: Bytes): (n: nat)
    decreases |data|
  {
    if |data| == 0 then acc
    else
      var take := if |data| < 16 then |data| else 16;
      GhashPoly(MulMod(Xor(acc, Poly(PadBlock(data[..take]))), h, MODULUS, 128), h, data[take..])
  }

  lemma GhashStep(acc: nat, h: nat, data: Bytes, take: nat)
    requires |data| > 0 && take == if |data| < 16 then |data| else 16
    ensures GhashPoly(acc, h, data)
         == GhashPoly(MulMod(Xor(acc, Poly(PadBlock(data[..take]))), h, MODULUS, 128), h, data[take..])
  {
    hide Poly, MulMod, Xor, PadBlock;
  }

  lemma GhashEnd(acc: nat, h: nat)
    ensures GhashPoly(acc, h, []) == acc
  {}

  method GhashUpdate(x: array<Byte>, h: Block, data: Bytes)
    requires x.Length == 16
    modifies x
    ensures Poly(x[..]) == GhashPoly(old(Poly(x[..])), Poly(h), data)
  {
    hide Poly, MulMod, Xor, XorAll, GhashPoly;
    var block := new Byte[16];
    var rest := data;
    while |rest| > 0
      invariant GhashPoly(Poly(x[..]), Poly(h), rest) == GhashPoly(old(Poly(x[..])), Poly(h), data)
      decreases |rest|
    {
      var take := if |rest| < 16 then |rest| else 16;
      ghost var acc, padded := x[..], PadBlock(rest[..take]);
      forall i | 0 <= i < 16 { block[i] := if i < take then rest[i] else 0; }
      assert block[..] == padded && x[..] == acc;
      GhashStep(Poly(acc), Poly(h), rest, take);
      PolyXor(acc, padded);
      XorInto(x, block);
      GhashMul(x, h);
      rest := rest[take..];
    }
    assert rest == [];
    GhashEnd(Poly(x[..]), Poly(h));
  }

  // Blocks with the same polynomial are the same.
  lemma {:induction false} PolyInjective(a: Bytes, b: Bytes)
    requires |a| == |b| && Poly(a) == Poly(b)
    ensures a == b
  {
    hide Poly, Rev;
    if |a| > 0 {
      PolyCons(a);
      PolyCons(b);
      RevByteInjective(a[0], b[0]);
      PolyInjective(a[1..], b[1..]);
      assert a == [a[0]] + a[1..] && b == [b[0]] + b[1..];
    }
  }

  lemma RevByteInjective(a: Byte, b: Byte)
    ensures RevByte(a) == RevByte(b) <==> a == b
  {
    hide Rev;
    KnownPowers();
    RevTwice(a, 8);
    RevTwice(b, 8);
  }
}
