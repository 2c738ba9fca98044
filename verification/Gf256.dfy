// The field GF(2^8) with reduction polynomial 0x11D, and the exp/log tables of src/fec.cpp.
module Gf256 {
  import opened Gf2Poly
  import opened ByteStrings

  const POLY: nat := 0x11D
  const WIDTH: nat := 8

  // ---- field arithmetic ----

  function Add(a: Byte, b: Byte): (r: Byte)
  {
    XorByte(a, b)
  }

  function Mul(a: Byte, b: Byte): (r: Byte)
  {
    MulRange(a, b);
    MulMod(a, b, POLY, WIDTH)
  }

  lemma PolyDegree()
    ensures Degree(POLY, WIDTH) && Pow2(WIDTH) == 256
  {
    assert Pow2(8) == 256;
  }

  lemma MulRange(a: nat, b: nat)
    ensures MulMod(a, b, POLY, WIDTH) < 256
  {
    PolyDegree();
    RemRange(ClMul(a, b), POLY, WIDTH);
  }

  lemma AddComm(a: Byte, b: Byte)
    ensures Add(a, b) == Add(b, a)
  {
    XorComm(a, b);
  }

  lemma AddAssoc(a: Byte, b: Byte, c: Byte)
    ensures Add(Add(a, b), c) == Add(a, Add(b, c))
  {
    XorAssoc(a, b, c);
  }

  lemma AddZero(a: Byte)
    ensures Add(a, 0) == a && Add(0, a) == a
  {
    XorZero(a);
  }

  lemma AddSelf(a: Byte)
    ensures Add(a, a) == 0
  {
    XorSelf(a);
  }

  lemma AddCancel(a: Byte, b: Byte)
    ensures Add(a, b) == 0 <==> a == b
    ensures Add(Add(a, b), b) == a && Add(b, Add(b, a)) == a
  {
    hide Xor;
    XorCancel(a, b);
    XorSelf(b);
    XorZero(b);
  }

  lemma AddSwap(a: Byte, b: Byte, c: Byte, d: Byte)
    ensures Add(Add(a, b), Add(c, d)) == Add(Add(a, c), Add(b, d))
  {
    XorSwap(a, b, c, d);
  }

  lemma MulComm(a: Byte, b: Byte)
    ensures Mul(a, b) == Mul(b, a)
  {
    MulModComm(a, b, POLY, WIDTH);
  }

  lemma MulAssoc(a: Byte, b: Byte, c: Byte)
    ensures Mul(Mul(a, b), c) == Mul(a, Mul(b, c))
  {
    PolyDegree();
    MulModAssoc(a, b, c, POLY, WIDTH);
  }

  lemma MulAdd(a: Byte, b: Byte, c: Byte)
    ensures Mul(a, Add(b, c)) == Add(Mul(a, b), Mul(a, c))
    ensures Mul(Add(b, c), a) == Add(Mul(b, a), Mul(c, a))
  {
    PolyDegree();
    MulModDist(a, b, c, POLY, WIDTH);
    MulComm(a, Add(b, c));
    MulComm(a, b);
    MulComm(a, c);
  }

  lemma MulZero(a: Byte)
    ensures Mul(a, 0) == 0 && Mul(0, a) == 0
  {
    MulComm(a, 0);
  }

  lemma MulOne(a: Byte)
    ensures Mul(a, 1) == a && Mul(1, a) == a
  {
    hide Xor;
    hide ClMul;
    hide Rem;
    PolyDegree();
    ClMulOne(a);
    RemSmall(a, POLY, WIDTH);
  }

  // ---- the generator 2 ----

  // The step that fills the exponent table: times the generator, reduced when it leaves the byte.
  function TimesTwo(x: Byte): (b: Byte)
  {
    TwoRange(x);
    if 2 * x >= 256 then Xor(2 * x, 0x11D) else 2 * x
  }

  lemma TwoRange(x: Byte)
    ensures 2 * x >= 256 ==> Xor(2 * x, 0x11D) < 256
  {
    PolyDegree();
    if 2 * x >= 256 { XorLeading(2 * x, 0x11D, 8); }
  }

  // The powers of the generator 2.
  function Gen(i: nat): (b: Byte)
  {
    if i == 0 then 1 else TimesTwo(Gen(i - 1))
  }

  lemma TimesTwoMul(a: Byte, b: Byte)
    ensures Mul(TimesTwo(a), b) == TimesTwo(Mul(a, b))
  {
    hide Xor;
    hide ClMul;
    hide Rem;
    PolyDegree();
    RemDouble(a, POLY, WIDTH);
    RemSmall(a, POLY, WIDTH);
    assert TimesTwo(a) == Rem(2 * a, POLY, WIDTH);
    MulModReduceL(2 * a, b, POLY, WIDTH);
    ClMulDoubleL(a, b);
    RemDouble(ClMul(a, b), POLY, WIDTH);
  }

  lemma {:induction false} GenMul(i: nat, j: nat)
    ensures Mul(Gen(i), Gen(j)) == Gen(i + j)
    decreases i
  {
    hide Mul;
    hide TimesTwo;
    if i == 0 {
      MulOne(Gen(j));
    } else {
      GenMul(i - 1, j);
      TimesTwoMul(Gen(i - 1), Gen(j));
    }
  }

  lemma TimesTwoInjective(a: Byte, b: Byte)
    requires TimesTwo(a) == TimesTwo(b)
    ensures a == b
  {
    hide Xor;
    XorHalf(2 * a, 0x11D);
    XorHalf(2 * b, 0x11D);
    XorCancel(2 * a, 0x11D);
    XorCancel(2 * b, 0x11D);
  }

  // ---- the same doubling on machine words ----

  function Val(a: bv8): (r: Byte) { a as nat }
  function BvXor(a: bv8, b: bv8): (r: bv8) { a ^ b }
  function BvHalf(a: bv8): (r: bv8) { a >> 1 }
  predicate BvOdd(a: bv8) { a & 1 == 1 }

  function BvTimesTwo(a: bv8): (r: bv8)
  {
    if a & 0x80 != 0 then (a << 1) ^ 0x1D else a << 1
  }

  lemma BvParity(a: bv8)
    ensures Val(a) % 2 == (if BvOdd(a) then 1 else 0)
    ensures Val(BvHalf(a)) == Val(a) / 2
  {}

  lemma BvXorBits(a: bv8, b: bv8)
    ensures BvHalf(BvXor(a, b)) == BvXor(BvHalf(a), BvHalf(b))
    ensures BvOdd(BvXor(a, b)) == (BvOdd(a) != BvOdd(b))
  {}

  lemma BvXorZero(a: bv8, b: bv8)
    requires Val(a) == 0
    ensures BvXor(a, b) == b
  {}

  // Add is the exclusive or of two uint8_t.
  lemma {:induction false} AddIsXor(a: bv8, b: bv8)
    ensures Add(Val(a), Val(b)) == Val(BvXor(a, b))
    decreases Val(a)
  {
    hide Xor;
    hide Val;
    hide BvXor;
    hide BvHalf;
    hide BvOdd;
    if Val(a) == 0 {
      BvXorZero(a, b);
      XorZero(Val(b));
    } else {
      BvParity(a);
      BvParity(b);
      BvParity(BvXor(a, b));
      BvXorBits(a, b);
      AddIsXor(BvHalf(a), BvHalf(b));
      XorHalf(Val(a), Val(b));
      HalvesEqual(Xor(Val(a), Val(b)), Val(BvXor(a, b)));
    }
  }

  lemma {:induction false} XorLeadingBit(n: nat, low: nat)
    requires low < Pow2(n)
    ensures Xor(Pow2(n), low) == Pow2(n) + low
  {
    hide Xor;
    if n > 0 {
      XorLeadingBit(n - 1, low / 2);
      XorHorner(Pow2(n - 1), low / 2, 0, low % 2);
    } else {
      XorZero(1);
    }
  }

  lemma XorNinthBit(a: Byte, b: Byte)
    ensures Xor(256 + a, 256 + b) == Xor(a, b)
  {
    hide Xor;
    assert Pow2(8) == 256;
    XorLeadingBit(8, a);
    XorLeadingBit(8, b);
    XorSwap(256, a, 256, b);
    XorSelf(256);
    XorZero(Xor(a, b));
  }

  function BvShift(a: bv8): (r: bv8) { a << 1 }
  predicate BvTop(a: bv8) { a & 0x80 != 0 }

  lemma BvShiftVal(a: bv8)
    ensures BvTop(a) <==> Val(a) >= 128
    ensures Val(BvShift(a)) == if BvTop(a) then 2 * Val(a) - 256 else 2 * Val(a)
    ensures BvTimesTwo(a) == if BvTop(a) then BvXor(BvShift(a), 0x1D) else BvShift(a)
    ensures Val(0x1D) == 0x1D
  {}

  lemma TimesTwoBv(a: bv8)
    ensures Val(BvTimesTwo(a)) == TimesTwo(Val(a))
  {
    hide Xor;
    hide Val;
    hide BvXor;
    hide BvShift;
    hide BvTop;
    hide BvTimesTwo;
    BvShiftVal(a);
    if BvTop(a) {
      XorNinthBit(2 * Val(a) - 256, 0x1D);
      AddIsXor(BvShift(a), 0x1D);
    }
  }

  function Next4(x: bv8): (r: bv8)
  {
    BvTimesTwo(BvTimesTwo(BvTimesTwo(BvTimesTwo(x))))
  }

  predicate NotOne4(x: bv8)
  {
    var a := BvTimesTwo(x);
    var b := BvTimesTwo(a);
    var c := BvTimesTwo(b);
    a != 1 && b != 1 && c != 1 && BvTimesTwo(c) != 1
  }

  predicate NotOneAfter(i: nat, n: nat)
  {
    forall j :: i < j <= i + n ==> Gen(j) != 1
  }

  lemma ValOne(x: bv8)
    ensures Val(x) == 1 <==> x == 1
  {}

  lemma GenNext(i: nat, x: bv8)
    requires Val(x) == Gen(i)
    ensures Val(BvTimesTwo(x)) == Gen(i + 1)
    ensures BvTimesTwo(x) != 1 <==> Gen(i + 1) != 1
  {
    hide Val;
    hide BvTimesTwo;
    TimesTwoBv(x);
    ValOne(BvTimesTwo(x));
  }

  lemma GenNext4(i: nat, x: bv8)
    requires Val(x) == Gen(i) && NotOne4(x)
    ensures Val(Next4(x)) == Gen(i + 4) && NotOneAfter(i, 4)
  {
    hide Val;
    hide Gen;
    hide BvTimesTwo;
    var a := BvTimesTwo(x);
    var b := BvTimesTwo(a);
    var c := BvTimesTwo(b);
    GenNext(i, x);
    GenNext(i + 1, a);
    GenNext(i + 2, b);
    GenNext(i + 3, c);
  }

  lemma GenNext16(i: nat, x: bv8, a: bv8, b: bv8, c: bv8, y: bv8)
    requires Val(x) == Gen(i)
    requires a == Next4(x) && b == Next4(a) && c == Next4(b) && y == Next4(c)
    requires NotOne4(x) && NotOne4(a) && NotOne4(b) && NotOne4(c)
    ensures Val(y) == Gen(i + 16) && NotOneAfter(i, 16)
  {
    hide Val;
    hide Gen;
    hide Next4;
    hide NotOne4;
    GenNext4(i, x);
    GenNext4(i + 4, a);
    GenNext4(i + 8, b);
    GenNext4(i + 12, c);
  }

  lemma NotOneGlue(n: nat, m: nat)
    requires NotOneAfter(0, n) && NotOneAfter(n, m)
    ensures NotOneAfter(0, n + m)
  {}

  lemma GenZero()
    ensures Gen(0) == Val(1) && NotOneAfter(0, 0)
  {}

  // The order of 2 is 255: walk the cycle on machine words.
  lemma GeneratorOrder()
    ensures Gen(255) == 1
    ensures NotOneAfter(0, 254)
  {
    hide Val;
    hide Gen;
    hide NotOneAfter;
    GenZero();
    GenNext16(0, 1, 16, 29, 205, 76); NotOneGlue(0, 16);
    GenNext16(16, 76, 180, 143, 24, 157); NotOneGlue(16, 16);
    GenNext16(32, 157, 37, 106, 238, 70); NotOneGlue(32, 16);
    GenNext16(48, 70, 20, 93, 185, 95); NotOneGlue(48, 16);
    GenNext16(64, 95, 153, 101, 30, 253); NotOneGlue(64, 16);
    GenNext16(80, 253, 107, 254, 91, 217); NotOneGlue(80, 16);
    GenNext16(96, 217, 17, 13, 208, 129); NotOneGlue(96, 16);
    GenNext16(112, 129, 248, 59, 151, 133); NotOneGlue(112, 16);
    GenNext16(128, 133, 184, 79, 132, 168); NotOneGlue(128, 16);
    GenNext16(144, 168, 82, 73, 228, 230); NotOneGlue(144, 16);
    GenNext16(160, 230, 198, 252, 123, 227); NotOneGlue(160, 16);
    GenNext16(176, 227, 150, 149, 165, 130); NotOneGlue(176, 16);
    GenNext16(192, 130, 200, 28, 221, 81); NotOneGlue(192, 16);
    GenNext16(208, 81, 121, 195, 172, 18); NotOneGlue(208, 16);
    GenNext16(224, 18, 61, 247, 203, 44); NotOneGlue(224, 16);
    GenNext4(240, 44); NotOneGlue(240, 4);
    GenNext4(244, 250); NotOneGlue(244, 4);
    GenNext4(248, 27); NotOneGlue(248, 4);
    CycleEnd();
  }

  lemma CycleEnd()
    requires Gen(252) == Val(173) && NotOneAfter(0, 252)
    ensures Gen(255) == 1 && NotOneAfter(0, 254)
  {
    hide Gen;
    GenNext(252, 173);
    GenNext(253, 71);
    GenNext(254, 142);
  }

  // A fifth root of unity.
  lemma GenAt51()
    ensures Gen(51) == 10
  {
    hide Val;
    hide Gen;
    GenZero();
    GenNext16(0, 1, 16, 29, 205, 76);
    GenNext16(16, 76, 180, 143, 24, 157);
    GenNext16(32, 157, 37, 106, 238, 70);
    GenNext(48, 70);
    GenNext(49, 140);
    GenNext(50, 5);
    ValTen();
  }

  lemma ValTen()
    ensures Val(10) == 10
  {}
}
