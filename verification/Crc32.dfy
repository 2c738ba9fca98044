// The table-driven CRC of src/crc32.cpp against the polynomial division of section 3.2.9 of
// IEEE 802.3.
module Crc32 {
  import opened Gf2Poly
  import opened DivMod
  import opened ByteStrings
  import opened Reflect

  type Word = x: int | 0 <= x < 0x1_0000_0000

  const ONES: Word := 0xFFFF_FFFF
  const REFLECTED: Word := 0xEDB8_8320
  // x^32 + x^26 + x^23 + x^22 + x^16 + x^12 + x^11 + x^10 + x^8 + x^7 + x^5 + x^4 + x^2 + x + 1
  const GENERATOR: nat := 0x1_04C1_1DB7

  lemma Pow32()
    ensures Pow2(32) == 0x1_0000_0000 && Pow2(8) == 256 && Pow2(24) == 0x100_0000
  {
    KnownPowers();
    Pow2Plus(16, 8);
  }

  lemma XorWord(a: Word, b: Word)
    ensures Xor(a, b) < 0x1_0000_0000
  {
    Pow32();
    XorRange(a, b, 32);
  }

  // One bit out at the low end; a one takes the reflected generator with it.
  function Shift(c: Word): (w: Word)
  {
    XorWord(REFLECTED, c / 2);
    if c % 2 == 1 then Xor(REFLECTED, c / 2) else c / 2
  }

  function Shifts(c: Word, n: nat): (w: Word)
    decreases n
  {
    if n == 0 then c else Shifts(Shift(c), n - 1)
  }

  // ---- the shift register is linear ----

  lemma ShiftLinear(a: Word, b: Word)
    ensures Xor(a, b) < 0x1_0000_0000
    ensures Shift(Xor(a, b)) == Xor(Shift(a), Shift(b))
  {
    hide Xor;
    XorWord(a, b);
    XorHalf(a, b);
    OddSum(a, b);
    var h, k := a / 2, b / 2;
    if a % 2 == 1 && b % 2 == 1 {
      XorSwap(REFLECTED, h, REFLECTED, k);
      XorSelf(REFLECTED);
      XorZero(Xor(h, k));
    } else if a % 2 == 1 {
      XorAssoc(REFLECTED, h, k);
    } else if b % 2 == 1 {
      XorComm(REFLECTED, k);
      XorAssoc(h, k, REFLECTED);
      XorComm(REFLECTED, Xor(h, k));
    }
  }

  lemma {:induction false} ShiftsLinear(a: Word, b: Word, n: nat)
    ensures Xor(a, b) < 0x1_0000_0000
    ensures Shifts(Xor(a, b), n) == Xor(Shifts(a, n), Shifts(b, n))
    decreases n
  {
    hide Xor, Shift;
    XorWord(a, b);
    if n > 0 {
      ShiftLinear(a, b);
      ShiftsLinear(Shift(a), Shift(b), n - 1);
    }
  }

  lemma ShiftEven(h: nat)
    requires 2 * h < 0x1_0000_0000
    ensures Shift(2 * h) == h
  {
    hide Xor;
    assert 2 * h / 2 == h && 2 * h % 2 == 0;
  }

  // Zero bits only move the word down.
  lemma {:induction false} ShiftsDown(x: Word, c: nat, n: nat)
    requires x == c * Pow2(n)
    ensures Shifts(x, n) == c
    decreases n
  {
    if n == 0 {
      assert c * Pow2(0) == c;
    } else {
      hide Shift;
      var h := c * Pow2(n - 1);
      assert x == 2 * h by { assert c * (2 * Pow2(n - 1)) == 2 * (c * Pow2(n - 1)); }
      ShiftEven(h);
      ShiftsDown(h, c, n - 1);
    }
  }

  lemma ShiftInjective(a: Word, b: Word)
    requires Shift(a) == Shift(b)
    ensures a == b
  {
    hide Xor;
    ShiftTop(a);
    ShiftTop(b);
    XorCancel(REFLECTED, a / 2);
    XorCancel(REFLECTED, b / 2);
    XorComm(REFLECTED, a / 2);
    XorComm(REFLECTED, b / 2);
    XorCancel(a / 2, REFLECTED);
    XorCancel(b / 2, REFLECTED);
    HalvesEqual(a, b);
  }

  // The top bit of the result tells whether the low bit was set.
  lemma ShiftTop(a: Word)
    ensures Shift(a) >= 0x8000_0000 <==> a % 2 == 1
  {
    hide Xor;
    KnownPowers();
    Pow2Plus(16, 15);
    Pow2Plus(15, 1);
    SmallPowers();
    assert Pow2(31) == 0x8000_0000;
    XorOneLeading(REFLECTED, a / 2, 31);
  }

  lemma {:induction false} ShiftsInjective(a: Word, b: Word, n: nat)
    requires Shifts(a, n) == Shifts(b, n)
    ensures a == b
    decreases n
  {
    hide Shift;
    if n > 0 {
      ShiftsInjective(Shift(a), Shift(b), n - 1);
      ShiftInjective(a, b);
    }
  }

  // ---- the table ----

  datatype Table = Table(entries: seq<Word>)
  {
    ghost predicate Valid()
    {
      |entries| == 256 && forall i :: 0 <= i < 256 ==> entries[i] == Shifts(i, 8)
    }
  }

  method InitTable() returns (t: Table)
    ensures t.Valid()
  {
    hide Shift;
    var entries := new Word[256](_ => 0);
    for i := 0 to 256
      invariant forall j :: 0 <= j < i ==> entries[j] == Shifts(j, 8)
    {
      var c: Word := i;
      for k := 0 to 8
        invariant Shifts(c, 8 - k) == Shifts(i, 8)
      {
        c := Shift(c);
      }
      entries[i] := c;
    }
    t := Table(entries[..]);
  }

  // One byte into the register.
  function Absorb(c: Word, d: Byte): (w: Word)
  {
    XorWord(c, d);
    Shifts(Xor(c, d), 8)
  }

  ghost function Update(c: Word, data: Bytes): (w: Word)
  {
    if |data| == 0 then c else Absorb(Update(c, data[..|data| - 1]), data[|data| - 1])
  }

  // A byte only changes the low byte of the word.
  lemma LowByte(c: Word, d: Byte)
    ensures Xor(c, d) == Xor(256 * (c / 256), Xor(c, d) % 256)
  {
    hide Xor;
    XorLowByte(c / 256, 0, c % 256, d);
    XorZero(c / 256);
    var low := Xor(c % 256, d);
    XorLowByte(c / 256, 0, 0, low);
    XorZero(low);
  }

  // One look-up for the low byte, combined with the other three bytes, makes eight shifts.
  lemma TableStep(t: Table, c: Word, d: Byte)
    requires t.Valid()
    ensures Xor(t.entries[Xor(c, d) % 256], c / 256) == Absorb(c, d)
  {
    hide Xor, Shift, Shifts, Pow2;
    XorWord(c, d);
    Pow32();
    LowByte(c, d);
    var low := Xor(c, d) % 256;
    ShiftsLinear(256 * (c / 256), low, 8);
    ShiftsDown(256 * (c / 256), c / 256, 8);
    XorComm(c / 256, Shifts(low, 8));
  }

  method CrcUpdate(t: Table, crc: Word, data: Bytes) returns (r: Word)
    requires t.Valid()
    ensures r == Update(crc, data)
  {
    hide Absorb;
    r := crc;
    for i := 0 to |data|
      invariant r == Update(crc, data[..i])
    {
      assert data[..i + 1][..i] == data[..i] && data[..i + 1][i] == data[i];
      TableStep(t, r, data[i]);
      r := Xor(t.entries[Xor(r, data[i]) % 256], r / 256);
    }
    assert data[..|data|] == data;
  }

  ghost function Crc(data: Bytes): (w: Word)
  {
    XorWord(Update(ONES, data), ONES);
    Xor(Update(ONES, data), ONES)
  }

  method CrcCompute(t: Table, data: Bytes) returns (r: Word)
    requires t.Valid()
    ensures r == Crc(data)
  {
    XorWord(Update(ONES, data), ONES);
    var c := CrcUpdate(t, ONES, data);
    r := Xor(c, ONES);
  }

  // The register can be carried from piece to piece.
  lemma {:induction false} UpdateConcat(c: Word, a: Bytes, b: Bytes)
    ensures Update(c, a + b) == Update(Update(c, a), b)
    decreases |b|
  {
    hide Absorb;
    if |b| == 0 {
      assert a + b == a;
    } else {
      var init := b[..|b| - 1];
      assert (a + b)[..|a + b| - 1] == a + init;
      UpdateConcat(c, a, init);
    }
  }

  // ---- polynomial division ----

  // The message as a polynomial: the first bit sent is the leading coefficient, and each byte
  // is sent from its low bit.
  ghost function MessagePoly(data: Bytes): (n: nat)
  {
    if |data| == 0 then 0
    else MessagePoly(data[..|data| - 1]) * 256 + Rev(data[|data| - 1], 8)
  }

  // The dividend: the message times x^32, with its first 32 bits complemented.
  ghost function Dividend(init: Word, data: Bytes): (n: nat)
  {
    Xor(MessagePoly(data) * Pow2(32), init * Pow2(8 * |data|))
  }

  ghost function Remainder(init: Word, data: Bytes): (n: nat)
  {
    Rem(Dividend(init, data), GENERATOR, 32)
  }

  // Both factors shifted alike.
  lemma XorScale(a: nat, b: nat, n: nat)
    ensures Xor(a * Pow2(n), b * Pow2(n)) == Xor(a, b) * Pow2(n)
  {
    XorDigits(a, b, 0, 0, n);
  }

  lemma XorDisjoint(a: nat, b: nat, n: nat)
    requires b < Pow2(n)
    ensures Xor(a * Pow2(n), b) == a * Pow2(n) + b
  {
    hide Xor;
    XorDigits(a, 0, 0, b, n);
    XorZero(a);
    XorZero(b);
    assert 0 * Pow2(n) == 0;
  }

  lemma GeneratorDegree()
    ensures Degree(GENERATOR, 32)
  {
    Pow32();
  }

  // One message bit into the register of the long division.
  ghost function DivideBit(r: Word, bit: nat): (q: nat)
    requires bit < 2
    ensures q < 0x1_0000_0000
  {
    GeneratorDegree();
    Pow32();
    XorRange(2 * r, bit * 0x1_0000_0000, 33);
    FoldRange(Xor(2 * r, bit * 0x1_0000_0000), GENERATOR, 32);
    Fold(Xor(2 * r, bit * 0x1_0000_0000), GENERATOR, 32)
  }

  ghost function DivideBits(r: Word, d: nat, n: nat): (w: Word)
    decreases n
  {
    if n == 0 then r else DivideBits(DivideBit(r, d % 2), d / 2, n - 1)
  }

  // The register holds a remainder.
  lemma DivideBitIsRem(y: nat, bit: nat)
    requires bit < 2
    ensures Rem(y, GENERATOR, 32) < 0x1_0000_0000
    ensures DivideBit(Rem(y, GENERATOR, 32), bit) == Rem(Xor(2 * y, bit * 0x1_0000_0000), GENERATOR, 32)
  {
    hide Xor, Rem, Fold;
    GeneratorDegree();
    Pow32();
    RemRange(y, GENERATOR, 32);
    var r, t := Rem(y, GENERATOR, 32), bit * 0x1_0000_0000;
    RemLinear(2 * y, t, GENERATOR, 32);
    RemDouble(y, GENERATOR, 32);
    FoldLinear(2 * r, t, GENERATOR, 32);
    RemSmall(bit * 0x8000_0000, GENERATOR, 32);
    RemDouble(bit * 0x8000_0000, GENERATOR, 32);
  }

  lemma {:induction false} DivideBitsIsRem(y: nat, d: nat, n: nat)
    requires Rem(y, GENERATOR, 32) < 0x1_0000_0000
    ensures DivideBits(Rem(y, GENERATOR, 32), d, n)
         == Rem(Xor(y * Pow2(n), Rev(d, n) * Pow2(32)), GENERATOR, 32)
    decreases n
  {
    hide Xor, Rem, DivideBit;
    if n == 0 {
      assert y * Pow2(0) == y && Rev(d, 0) * Pow2(32) == 0;
      XorZero(y);
    } else {
      var bit := d % 2;
      DivideBitIsRem(y, bit);
      Pow32();
      var y1 := Xor(2 * y, bit * Pow2(32));
      DivideBitIsRem(y1, 0);
      DivideBitsIsRem(y1, d / 2, n - 1);
      DividendStep(y, d, n, Pow2(32));
    }
  }

  lemma TimesTwice(y: nat, n: nat)
    ensures 2 * y * Pow2(n) == y * Pow2(n + 1)
  {
    hide Pow2;
    Twice(n);
    assert y * (2 * Pow2(n)) == 2 * y * Pow2(n);
  }

  lemma DividendStep(y: nat, d: nat, n: nat, q: nat)
    requires n > 0 && q == Pow2(32)
    ensures Xor(Xor(2 * y, d % 2 * q) * Pow2(n - 1), Rev(d / 2, n - 1) * q) == Xor(y * Pow2(n), Rev(d, n) * q)
  {
    hide Xor, Rev, Pow2;
    var p, bit, rest := Pow2(n - 1), d % 2, Rev(d / 2, n - 1);
    XorScale(2 * y, bit * q, n - 1);
    TimesTwice(y, n - 1);
    assert bit * q * p == bit * p * q;
    XorAssoc(y * Pow2(n), bit * p * q, rest * q);
    XorScale(bit * p, rest, 32);
    RevRange(d / 2, n - 1);
    XorDisjoint(bit, rest, n - 1);
    RevDef(d, n);
    assert bit * p == if bit == 1 then p else 0;
  }

  // ---- the shift register is the mirror image of the division ----

  lemma MirroredGenerator()
    ensures Rev(0x4C1_1DB7, 32) == REFLECTED
  {
    hide Rev;
    assert Rev(0, 0) == 0 by { RevZero(0); }
    KnownPowers();
    SmallPowers();
    Pow2Plus(8, 4);
    Pow2Plus(16, 4);
    Pow2Plus(16, 8);
    Pow2Plus(16, 12);
    hide Pow2;
    RevNibble(0x0, 0, 0, 0, 0, 0, 0x1);
    assert Rev(0x0, 4) == 0x0;
    RevNibble(0x0, 0, 1, 0, 0, 4, 0x10);
    assert Rev(0x4, 8) == 0x20;
    RevNibble(0x4, 1, 1, 0, 0, 8, 0x100);
    assert Rev(0x4c, 12) == 0x320;
    RevNibble(0x4c, 0, 0, 0, 1, 12, 0x1000);
    assert Rev(0x4c1, 16) == 0x8320;
    RevNibble(0x4c1, 0, 0, 0, 1, 16, 0x10000);
    assert Rev(0x4c11, 20) == 0x88320;
    RevNibble(0x4c11, 1, 1, 0, 1, 20, 0x100000);
    assert Rev(0x4c11d, 24) == 0xb88320;
    RevNibble(0x4c11d, 1, 0, 1, 1, 24, 0x1000000);
    assert Rev(0x4c11db, 28) == 0xdb88320;
    RevNibble(0x4c11db, 0, 1, 1, 1, 28, 0x10000000);
    assert Rev(0x4c11db7, 32) == 0xedb88320;
  }

  // One bit, mirrored: the low bit of the register is the leading coefficient.
  lemma MirroredBit(r: Word, bit: nat)
    requires bit < 2
    ensures Rev(r, 32) < 0x1_0000_0000 && Xor(Rev(r, 32), bit) < 0x1_0000_0000
    ensures Shift(Xor(Rev(r, 32), bit)) == Rev(DivideBit(r, bit), 32)
  {
    hide Xor, Rev, Pow2, Fold;
    Pow32();
    Pow31();
    RevRange(r, 32);
    var low, top := r % 0x8000_0000, r >= 0x8000_0000;
    var flag := top != (bit == 1);
    XorWord(Rev(r, 32), bit);
    RegisterBit(low, top, bit);
    DivisionBit(low, top, bit);
    FoldMirrored(low, flag);
  }

  // The register: the word shifts down, and the bit shifted out meets the message bit.
  lemma RegisterBit(low: nat, top: bool, bit: nat)
    requires low < 0x8000_0000 && bit < 2
    ensures Xor(Rev((if top then 0x8000_0000 else 0) + low, 32), bit)
         == 2 * Rev(low, 31) + (if top != (bit == 1) then 1 else 0)
  {
    hide Xor, Rev, Pow2;
    Pow31();
    RevTop(low, top, 31);
    XorHorner(Rev(low, 31), 0, if top then 1 else 0, bit);
    XorZero(Rev(low, 31));
  }

  // The division: the remainder shifts up, and the bit shifted out meets the message bit.
  lemma DivisionBit(low: nat, top: bool, bit: nat)
    requires low < 0x8000_0000 && bit < 2
    ensures Xor(2 * ((if top then 0x8000_0000 else 0) + low), bit * 0x1_0000_0000)
         == (if top != (bit == 1) then 0x1_0000_0000 else 0) + 2 * low
  {
    hide Xor, Pow2;
    Pow32();
    XorTopBit(top, bit == 1, 2 * low, 0, 32);
    XorZero(2 * low);
  }

  lemma FoldMirrored(low: nat, flag: bool)
    requires low < 0x8000_0000
    ensures var x := (if flag then 0x1_0000_0000 else 0) + 2 * low;
      Rev(Fold(x, GENERATOR, 32), 32) == if flag then Xor(REFLECTED, Rev(low, 31)) else Rev(low, 31)
  {
    hide Xor, Rev, Pow2;
    Pow32();
    RevStep(low, 0, 31);
    if flag {
      XorTopBit(true, true, 2 * low, 0x4C1_1DB7, 32);
      RevXor(2 * low, 0x4C1_1DB7, 32);
      MirroredGenerator();
      XorComm(Rev(low, 31), REFLECTED);
    }
  }

  lemma Pow31()
    ensures Pow2(31) == 0x8000_0000
  {
    KnownPowers();
    SmallPowers();
    Pow2Plus(16, 12);
    Pow2Plus(28, 3);
  }

  lemma LowBitFirst(c: Word, d: Word)
    ensures Xor(c, d) < 0x1_0000_0000 && Xor(c, d % 2) < 0x1_0000_0000
    ensures Shift(Xor(c, d)) == Xor(Shift(Xor(c, d % 2)), d / 2)
  {
    hide Xor, Shift;
    XorWord(c, d);
    XorWord(c, d % 2);
    SplitParity(d);
    XorAssoc(c, d % 2, 2 * (d / 2));
    ShiftLinear(Xor(c, d % 2), 2 * (d / 2));
    ShiftEven(d / 2);
  }

  lemma {:induction false} MirroredBits(r: Word, d: Word, n: nat)
    requires d < Pow2(n)
    ensures Rev(r, 32) < 0x1_0000_0000 && Xor(Rev(r, 32), d) < 0x1_0000_0000
    ensures Shifts(Xor(Rev(r, 32), d), n) == Rev(DivideBits(r, d, n), 32)
    decreases n
  {
    hide Xor, Rev, Shift, DivideBit;
    Pow32();
    RevRange(r, 32);
    var c := Rev(r, 32);
    XorWord(c, d);
    if n == 0 {
      XorZero(c);
    } else {
      LowBitFirst(c, d);
      MirroredBit(r, d % 2);
      MirroredBits(DivideBit(r, d % 2), d / 2, n - 1);
    }
  }

  lemma DividendAppend(init: Word, data: Bytes)
    requires |data| > 0
    ensures var n := |data| - 1;
      Dividend(init, data) == Xor(Dividend(init, data[..n]) * 256, Rev(data[n], 8) * 0x1_0000_0000)
  {
    hide Xor, Rev;
    var n := |data| - 1;
    var m, d, q := MessagePoly(data[..n]), Rev(data[n], 8), Pow2(32);
    Pow32();
    RevRange(data[n], 8);
    XorDisjoint(m, d, 8);
    XorScale(m * 256, d, 32);
    assert MessagePoly(data) * q == Xor(m * 256 * q, d * q);
    var x, y := m * q, init * Pow2(8 * n);
    XorScale(x, y, 8);
    Pow2Plus(8 * n, 8);
    assert y * 256 == init * Pow2(8 * |data|);
    assert x * 256 == m * 256 * q;
    XorRearrange(x * 256, d * q, y * 256);
  }

  lemma XorRearrange(a: nat, b: nat, c: nat)
    ensures Xor(Xor(a, b), c) == Xor(Xor(a, c), b)
  {
    hide Xor;
    XorAssoc(a, b, c);
    XorComm(b, c);
    XorAssoc(a, c, b);
  }

  // The register after any message is the mirrored remainder.
  lemma {:induction false} RegisterIsRemainder(init: Word, data: Bytes)
    ensures Rev(init, 32) < 0x1_0000_0000 && Remainder(init, data) < 0x1_0000_0000
    ensures Update(Rev(init, 32), data) == Rev(Remainder(init, data), 32)
    decreases |data|
  {
    hide Rev, Xor, Absorb, Dividend, Rem, DivideBits;
    Pow32();
    GeneratorDegree();
    RevRange(init, 32);
    RemRange(Dividend(init, data), GENERATOR, 32);
    if |data| == 0 {
      EmptyDividend(init);
      RemSmall(init, GENERATOR, 32);
    } else {
      var n := |data| - 1;
      RegisterIsRemainder(init, data[..n]);
      RegisterStep(init, data);
    }
  }

  lemma EmptyDividend(init: Word)
    ensures Dividend(init, []) == init
  {
    assert MessagePoly([]) * Pow2(32) == 0;
    assert init * Pow2(0) == init;
  }

  lemma RegisterStep(init: Word, data: Bytes)
    requires |data| > 0 && Remainder(init, data[..|data| - 1]) < 0x1_0000_0000
    ensures Rev(Remainder(init, data[..|data| - 1]), 32) < 0x1_0000_0000
    ensures Absorb(Rev(Remainder(init, data[..|data| - 1]), 32), data[|data| - 1]) == Rev(Remainder(init, data), 32)
  {
    hide Rev, Xor, Dividend, Rem, DivideBits;
    Pow32();
    var n := |data| - 1;
    var y := Dividend(init, data[..n]);
    MirroredBits(Remainder(init, data[..n]), data[n], 8);
    DivideBitsIsRem(y, data[n], 8);
    DividendAppend(init, data);
  }

  lemma OnesMirrored()
    ensures Rev(ONES, 32) == ONES
  {
    hide Rev;
    AllOnes(32);
    Pow32();
  }

  lemma {:induction false} AllOnes(n: nat)
    ensures Rev(Pow2(n) - 1, n) == Pow2(n) - 1
  {
    if n > 0 {
      assert (Pow2(n) - 1) / 2 == Pow2(n - 1) - 1;
      AllOnes(n - 1);
    }
  }

  // The checksum is the complemented, mirrored remainder of the message (with its first 32
  // bits complemented) times x^32 by the generator.
  lemma CrcIsPolynomialDivision(data: Bytes)
    ensures Remainder(ONES, data) < 0x1_0000_0000
    ensures Crc(data) == Xor(Rev(Remainder(ONES, data), 32), ONES)
  {
    hide Rev, Xor, Update, Remainder;
    OnesMirrored();
    RegisterIsRemainder(ONES, data);
  }

  // ---- errors the checksum always catches ----

  lemma {:induction false} UpdateInjective(a: Word, b: Word, data: Bytes)
    requires Update(a, data) == Update(b, data)
    ensures a == b
    decreases |data|
  {
    hide Xor;
    if |data| > 0 {
      var n := |data| - 1;
      var x, y, d := Update(a, data[..n]), Update(b, data[..n]), data[n];
      XorWord(x, d);
      XorWord(y, d);
      ShiftsInjective(Xor(x, d), Xor(y, d), 8);
      XorCancel(x, d);
      XorCancel(y, d);
      UpdateInjective(a, b, data[..n]);
    }
  }

  lemma {:induction false} ShiftsSplit(c: Word, m: nat, n: nat)
    ensures Shifts(c, m + n) == Shifts(Shifts(c, m), n)
    decreases m
  {
    hide Shift;
    if m > 0 { ShiftsSplit(Shift(c), m - 1, n); }
  }

  // Bytes already combined into the register can wait for their turn.
  lemma AbsorbWithNext(c: Word, d: Byte, rest: nat)
    requires rest < 0x100_0000
    ensures Xor(c, d + 256 * rest) < 0x1_0000_0000
    ensures Shifts(Xor(c, d + 256 * rest), 8) == Xor(Absorb(c, d), rest)
  {
    hide Xor, Shift;
    var w := d + 256 * rest;
    XorWord(c, w);
    XorWord(c, d);
    Pow32();
    XorDisjoint(rest, d, 8);
    XorComm(rest * 256, d);
    XorAssoc(c, d, rest * 256);
    ShiftsLinear(Xor(c, d), rest * 256, 8);
    ShiftsDown(rest * 256, rest, 8);
  }

  // Up to four bytes enter like one number of as many bits.
  lemma {:induction false} AbsorbedTogether(c: Word, data: Bytes)
    requires |data| <= 4
    ensures Le(data) < 0x1_0000_0000 && Xor(c, Le(data)) < 0x1_0000_0000
    ensures Update(c, data) == Shifts(Xor(c, Le(data)), 8 * |data|)
    decreases |data|
  {
    hide Xor, Shift, Absorb, Shifts, Le, Update;
    ShortNumber(data);
    if |data| == 0 {
      UpdateNothing(c);
      XorZero(c);
    } else {
      var d, rest := data[0], data[1..];
      ShortNumber(rest);
      LeCons(data);
      assert data == [d] + rest;
      UpdateConcat(c, [d], rest);
      UpdateByte(c, d);
      AbsorbedTogether(Absorb(c, d), rest);
      AbsorbWithNext(c, d, Le(rest));
      ShiftsSplit(Xor(c, Le(data)), 8, 8 * |rest|);
    }
  }

  lemma ShortNumber(data: Bytes)
    requires |data| <= 4
    ensures Le(data) < 0x1_0000_0000
    ensures |data| <= 3 ==> Le(data) < 0x100_0000
    ensures |data| == 0 ==> Le(data) == 0
  {
    LeBound(data);
    Pow32();
    KnownPowers();
  }

  lemma UpdateNothing(c: Word)
    ensures Update(c, []) == c && Shifts(c, 0) == c
  {}

  lemma UpdateByte(c: Word, d: Byte)
    ensures Update(c, [d]) == Absorb(c, d)
  {
    hide Absorb;
    assert [d][..0] == [];
    UpdateNothing(c);
  }

  // Two messages that differ only inside at most four consecutive bytes have different checksums.
  lemma BurstDetected(before: Bytes, x: Bytes, y: Bytes, after: Bytes)
    requires |x| == |y| <= 4 && x != y
    ensures Crc(before + x + after) != Crc(before + y + after)
  {
    hide Xor, Update, Shifts, Le;
    var c := Update(ONES, before);
    UpdateConcat(ONES, before, x);
    UpdateConcat(ONES, before, y);
    UpdateConcat(ONES, before + x, after);
    UpdateConcat(ONES, before + y, after);
    var a, b := Update(ONES, before + x + after), Update(ONES, before + y + after);
    if Xor(a, ONES) == Xor(b, ONES) {
      XorCancel(a, ONES);
      XorCancel(b, ONES);
      UpdateInjective(Update(c, x), Update(c, y), after);
      AbsorbedTogether(c, x);
      AbsorbedTogether(c, y);
      ShiftsInjective(Xor(c, Le(x)), Xor(c, Le(y)), 8 * |x|);
      XorCancel(c, Le(x));
      XorCancel(c, Le(y));
      XorCancel(Le(x), c);
      XorCancel(Le(y), c);
      LeInjective(x, y);
    }
  }
}
