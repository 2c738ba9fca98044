// The shift register on machine words, and the check value of the checksum, which the repository's tests
// promise.
module Crc32Vector {
  import opened Gf2Poly
  import opened ByteStrings
  import opened Crc32

  // The number that the low n bits of a word stand for.
  ghost function Bits(a: bv32, n: nat): (v: nat)
  {
    if n == 0 then 0 else (if Odd(a) then 1 else 0) + 2 * Bits(Half(a), n - 1)
  }

  predicate Odd(a: bv32) { a & 1 == 1 }
  function Half(a: bv32): (r: bv32) { a >> 1 }
  function Both(a: bv32, b: bv32): (r: bv32) { a ^ b }

  lemma BothBits(a: bv32, b: bv32)
    ensures Half(Both(a, b)) == Both(Half(a), Half(b))
    ensures Odd(Both(a, b)) <==> Odd(a) != Odd(b)
  {}

  // The exclusive or of the model is that of the machine.
  lemma {:induction false} XorIsBoth(a: bv32, b: bv32, n: nat)
    ensures Xor(Bits(a, n), Bits(b, n)) == Bits(Both(a, b), n)
    decreases n
  {
    hide Xor, Odd, Half, Both;
    if n == 0 {
      XorZero(0);
    } else {
      BothBits(a, b);
      XorIsBoth(Half(a), Half(b), n - 1);
      var x, y := if Odd(a) then 1 else 0, if Odd(b) then 1 else 0;
      XorHorner(Bits(Half(a), n - 1), Bits(Half(b), n - 1), x, y);
    }
  }

  // Moved down bit by bit.
  ghost function Down(a: bv32, n: nat): (r: bv32)
    decreases n
  {
    if n == 0 then a else Down(Half(a), n - 1)
  }

  lemma {:induction false} NothingAbove(a: bv32, n: nat)
    requires Down(a, n) == 0
    ensures Bits(a, n + 1) == Bits(a, n)
    decreases n
  {
    if n == 0 {
      assert a == 0;
      NoBits(1);
    } else {
      hide Odd, Half;
      NothingAbove(Half(a), n - 1);
    }
  }

  lemma NoBits(n: nat)
    ensures Bits(0, n) == 0
  {
    if n > 0 { NoBits(n - 1); }
  }

  function Nibbled(a: bv32): (r: bv32) { a >> 4 }

  lemma FourHalves(a: bv32)
    ensures Half(Half(Half(Half(a)))) == Nibbled(a)
  {}

  lemma DownFour(a: bv32, n: nat)
    ensures Down(a, n + 4) == Down(Nibbled(a), n)
  {
    FourHalves(a);
    hide Half, Nibbled;
    assert Down(a, n + 4) == Down(Half(Half(a)), n + 2);
  }

  lemma EightNibbles(a: bv32)
    ensures Nibbled(Nibbled(Nibbled(Nibbled(Nibbled(Nibbled(Nibbled(Nibbled(a)))))))) == 0
  {}

  lemma AllDown(a: bv32)
    ensures Down(a, 32) == 0
  {
    EightNibbles(a);
    hide Down, Nibbled;
    var b := Nibbled(Nibbled(a));
    var c := Nibbled(Nibbled(b));
    var d := Nibbled(Nibbled(c));
    DownFour(a, 28);
    DownFour(Nibbled(a), 24);
    DownFour(b, 20);
    DownFour(Nibbled(b), 16);
    DownFour(c, 12);
    DownFour(Nibbled(c), 8);
    DownFour(d, 4);
    DownFour(Nibbled(d), 0);
    NotMoved(Nibbled(Nibbled(d)));
  }

  lemma NotMoved(a: bv32)
    ensures Down(a, 0) == a
  {}

  ghost function Value(a: bv32): (v: nat) { Bits(a, 32) }

  lemma ValueHalves(a: bv32)
    ensures Value(a) == (if Odd(a) then 1 else 0) + 2 * Value(Half(a))
  {
    hide Odd, Half;
    AllDown(a);
    assert Down(a, 32) == Down(Half(a), 31);
    NothingAbove(Half(a), 31);
  }

  function BvShift(c: bv32): (r: bv32) { if Odd(c) then Both(0xEDB8_8320, Half(c)) else Half(c) }

  // One bit of the register, on machine words.
  lemma ShiftIsBvShift(c: bv32)
    ensures Value(c) < 0x1_0000_0000
    ensures Shift(Value(c)) == Value(BvShift(c))
  {
    hide Xor, Odd, Half, Both, Bits;
    ValueRange(c, 32);
    Pow32();
    ValueHalves(c);
    XorIsBoth(0xEDB8_8320, Half(c), 32);
    GeneratorWord();
  }

  lemma {:induction false} ValueRange(a: bv32, n: nat)
    ensures Bits(a, n) < Pow2(n)
    decreases n
  {
    hide Odd, Half;
    if n > 0 { ValueRange(Half(a), n - 1); }
  }

  // ---- words from their bytes ----

  lemma LowBits(a: bv32)
    ensures Value(a) == (if Odd(a) then 1 else 0) + 2 * (if Odd(Half(a)) then 1 else 0)
      + 4 * (if Odd(Half(Half(a))) then 1 else 0) + 8 * (if Odd(Half(Half(Half(a)))) then 1 else 0)
      + 16 * Value(Half(Half(Half(Half(a)))))
  {
    hide Odd, Half, Value;
    ValueHalves(a);
    ValueHalves(Half(a));
    ValueHalves(Half(Half(a)));
    ValueHalves(Half(Half(Half(a))));
  }

  // The low four bits as a number.
  function Digit(a: bv32): (d: nat)
  {
    (if Odd(a) then 1 else 0) + 2 * (if Odd(Half(a)) then 1 else 0)
      + 4 * (if Odd(Half(Half(a))) then 1 else 0) + 8 * (if Odd(Half(Half(Half(a)))) then 1 else 0)
  }

  lemma HexDigit(a: bv32, d: nat, rest: bv32)
    requires Digit(a) == d && Nibbled(a) == rest
    ensures Value(a) == d + 16 * Value(rest)
  {
    LowBits(a);
    FourHalves(a);
  }

  lemma ZeroValue()
    ensures Value(0) == 0
  {
    NoBits(32);
  }

  lemma GeneratorWord()
    ensures Value(0xedb8_8320) == 0xedb8_8320
  {
    hide Value;
    ZeroValue();
    HexDigit(0xe, 14, 0x0);
    HexDigit(0xed, 13, 0xe);
    HexDigit(0xedb, 11, 0xed);
    HexDigit(0xedb8, 8, 0xedb);
    HexDigit(0xedb88, 8, 0xedb8);
    HexDigit(0xedb883, 3, 0xedb88);
    HexDigit(0xedb8832, 2, 0xedb883);
    HexDigit(0xedb88320, 0, 0xedb8832);
  }

  lemma AllOnesWord()
    ensures Value(0xffff_ffff) == 0xffff_ffff
  {
    hide Value;
    ZeroValue();
    HexDigit(0xf, 15, 0x0);
    HexDigit(0xff, 15, 0xf);
    HexDigit(0xfff, 15, 0xff);
    HexDigit(0xffff, 15, 0xfff);
    HexDigit(0xfffff, 15, 0xffff);
    HexDigit(0xffffff, 15, 0xfffff);
    HexDigit(0xfffffff, 15, 0xffffff);
    HexDigit(0xffffffff, 15, 0xfffffff);
  }

  lemma CheckWord()
    ensures Value(0xcbf4_3926) == 0xcbf4_3926
  {
    hide Value;
    ZeroValue();
    HexDigit(0xc, 12, 0x0);
    HexDigit(0xcb, 11, 0xc);
    HexDigit(0xcbf, 15, 0xcb);
    HexDigit(0xcbf4, 4, 0xcbf);
    HexDigit(0xcbf43, 3, 0xcbf4);
    HexDigit(0xcbf439, 9, 0xcbf43);
    HexDigit(0xcbf4392, 2, 0xcbf439);
    HexDigit(0xcbf43926, 6, 0xcbf4392);
  }

  lemma Ascii()
    ensures Value(0x31) == 0x31 && Value(0x32) == 0x32 && Value(0x33) == 0x33 && Value(0x34) == 0x34
    ensures Value(0x35) == 0x35 && Value(0x36) == 0x36 && Value(0x37) == 0x37 && Value(0x38) == 0x38
    ensures Value(0x39) == 0x39
  {
    hide Value;
    ZeroValue();
    HexDigit(3, 3, 0);
    HexDigit(0x31, 1, 3);
    HexDigit(0x32, 2, 3);
    HexDigit(0x33, 3, 3);
    HexDigit(0x34, 4, 3);
    HexDigit(0x35, 5, 3);
    HexDigit(0x36, 6, 3);
    HexDigit(0x37, 7, 3);
    HexDigit(0x38, 8, 3);
    HexDigit(0x39, 9, 3);
  }

  // ---- the check value ----

  function FourShifts(c: bv32): (r: bv32) { BvShift(BvShift(BvShift(BvShift(c)))) }

  lemma EightShifts(c: bv32)
    ensures Value(c) < 0x1_0000_0000
    ensures Shifts(Value(c), 8) == Value(FourShifts(FourShifts(c)))
  {
    hide Shift, BvShift, Value;
    var c1 := BvShift(c);
    var c2 := BvShift(c1);
    var c3 := BvShift(c2);
    var c4 := BvShift(c3);
    var c5 := BvShift(c4);
    var c6 := BvShift(c5);
    var c7 := BvShift(c6);
    ShiftIsBvShift(c);
    ShiftIsBvShift(c1);
    ShiftIsBvShift(c2);
    ShiftIsBvShift(c3);
    ShiftIsBvShift(c4);
    ShiftIsBvShift(c5);
    ShiftIsBvShift(c6);
    ShiftIsBvShift(c7);
    ShiftIsBvShift(BvShift(c7));
    assert Shifts(Value(c), 8) == Shifts(Value(c2), 6) == Shifts(Value(c4), 4) == Shifts(Value(c6), 2);
  }

  // One more byte of the message.
  lemma NextByte(before: Bytes, r: bv32, byte: bv32, d: Byte, after: bv32)
    requires Update(ONES, before) == Value(r) && Value(byte) == d
    requires FourShifts(FourShifts(Both(r, byte))) == after
    ensures Update(ONES, before + [d]) == Value(after)
  {
    hide Update, Xor, Shifts, Value, FourShifts, Both;
    UpdateConcat(ONES, before, [d]);
    UpdateByte(Update(ONES, before), d);
    assert Xor(Value(r), Value(byte)) == Value(Both(r, byte)) by { ValuesCombine(r, byte); }
    EightShifts(Both(r, byte));
  }

  lemma ValuesCombine(a: bv32, b: bv32)
    ensures Xor(Value(a), Value(b)) == Value(Both(a, b))
  {
    hide Xor;
    XorIsBoth(a, b, 32);
  }

  const CHECK: Bytes := [0x31, 0x32, 0x33, 0x34, 0x35, 0x36, 0x37, 0x38, 0x39]

  // The checksum of the digits 1 to 9.
  lemma CheckValue()
    ensures Crc(CHECK) == 0xCBF4_3926
  {
    hide Value, Update, Xor;
    AllOnesWord();
    UpdateNothing(ONES);
    Ascii();
    NextByte(CHECK[..0], 0xffff_ffff, 0x31, 0x31, 0x7c23_1048);
    assert CHECK[..0] + [0x31] == CHECK[..1];
    NextByte(CHECK[..1], 0x7c23_1048, 0x32, 0x32, 0xb0ac_bb32);
    assert CHECK[..1] + [0x32] == CHECK[..2];
    NextByte(CHECK[..2], 0xb0ac_bb32, 0x33, 0x33, 0x77b7_9c2d);
    assert CHECK[..2] + [0x33] == CHECK[..3];
    NextByte(CHECK[..3], 0x77b7_9c2d, 0x34, 0x34, 0x641c_1f5c);
    assert CHECK[..3] + [0x34] == CHECK[..4];
    NextByte(CHECK[..4], 0x641c_1f5c, 0x35, 0x35, 0x340a_c5e3);
    assert CHECK[..4] + [0x35] == CHECK[..5];
    NextByte(CHECK[..5], 0x340a_c5e3, 0x36, 0x36, 0xf68d_2c9e);
    assert CHECK[..5] + [0x36] == CHECK[..6];
    NextByte(CHECK[..6], 0xf68d_2c9e, 0x37, 0x37, 0xaffc_9660);
    assert CHECK[..6] + [0x37] == CHECK[..7];
    NextByte(CHECK[..7], 0xaffc_9660, 0x38, 0x38, 0x651f_2550);
    assert CHECK[..7] + [0x38] == CHECK[..8];
    NextByte(CHECK[..8], 0x651f_2550, 0x39, 0x39, 0x340b_c6d9);
    assert CHECK[..8] + [0x39] == CHECK[..9];
    assert CHECK[..9] == CHECK;
    ValuesCombine(0x340b_c6d9, 0xFFFF_FFFF);
    CheckWord();
  }
}
