// Field elements as 32 bytes: load_le64, fe_frombytes and fe_tobytes of src/crypto.cpp.
module FieldBytes {
  import opened Gf2Poly
  import opened DivMod
  import opened ByteStrings
  import opened Field25519

  // ---- from bytes ----

  // Eight bytes, each moved up to its place; they do not overlap.
  method LoadLe64(b: Bytes) returns (v: u64)
    requires |b| == 8
    ensures v as int == Le(b)
  {
    hide Le, Pow256;
    var acc: nat := 0;
    var scale: nat := 1;
    Pow256Next(0);
    assert Le(b[..0]) == 0 by { LeEmpty(); }
    for i := 0 to 8
      invariant acc == Le(b[..i]) && scale == Pow256(i)
    {
      LeAppend(b, i);
      Pow256Next(i);
      acc := acc + scale * b[i] as int;
      scale := scale * 256;
    }
    assert b[..8] == b;
    LeBound(b);
    Word64();
    v := acc as u64;
  }

  lemma LeEmpty()
    ensures Le([]) == 0
  {}

  lemma Word64()
    ensures Pow256(8) == 0x1_0000_0000_0000_0000
  {
    KnownPowers();
  }

  // Limb from bits off + shift on, out of the 64-bit word at bit off.
  lemma LimbOfWord(n: nat, off: nat, shift: nat)
    requires shift + 51 <= 64
    ensures n / Pow2(off) % Pow2(64) / Pow2(shift) % Pow2(51) == n / Pow2(off + shift) % Pow2(51)
  {
    hide Pow2;
    var m := n / Pow2(off);
    Pow2Plus(shift, 64 - shift);
    CutThenDivide(m, Pow2(shift), Pow2(64 - shift));
    Pow2Plus(51, 13 - shift);
    CutTwice(m / Pow2(shift), Pow2(51), Pow2(13 - shift));
    Pow2Plus(off, shift);
    Split(n, Pow2(off), Pow2(shift));
  }

  lemma Pow51()
    ensures Pow2(51) == B && Pow2(255) == P + 19
    ensures Pow2(102) == B * B && Pow2(153) == B * B * B && Pow2(204) == B * B * B * B
  {
    KnownPowers();
    Pow2Plus(32, 16);
    assert Pow2(3) == 8;
    hide Pow2;
    Pow2Plus(48, 3);
    Pow2Plus(51, 51);
    Pow2Plus(102, 51);
    Pow2Plus(153, 51);
    Pow2Plus(204, 51);
  }

  ghost function Digit(n: nat, i: nat): (r: nat) { n / Pow2(51 * i) % Pow2(51) }

  lemma DigitNext(n: nat, i: nat)
    ensures n % Pow2(51 * i + 51) == n % Pow2(51 * i) + Pow2(51 * i) * Digit(n, i)
  {
    hide Pow2;
    Pow2Plus(51 * i, 51);
    Split(n, Pow2(51 * i), Pow2(51));
  }

  lemma SumOfShares(d0: int, d1: int, d2: int, d3: int, d4: int, p1: int, p2: int, p3: int, p4: int)
    requires p1 == B && p2 == B * B && p3 == B * B * B && p4 == B * B * B * B
    ensures Sum(d0, d1, d2, d3, d4) == d0 + p1 * d1 + p2 * d2 + p3 * d3 + p4 * d4
  {}

  // Five 51-bit digits make up the low 255 bits.
  lemma FiveDigits(n: nat)
    ensures Sum(Digit(n, 0), Digit(n, 1), Digit(n, 2), Digit(n, 3), Digit(n, 4)) == n % Pow2(255)
  {
    hide Pow2, Digit, Sum;
    DigitNext(n, 0);
    DigitNext(n, 1);
    DigitNext(n, 2);
    DigitNext(n, 3);
    DigitNext(n, 4);
    FirstDigit(n);
    assert Sum(Digit(n, 0), Digit(n, 1), Digit(n, 2), Digit(n, 3), Digit(n, 4))
        == Digit(n, 0) + Pow2(51) * Digit(n, 1) + Pow2(102) * Digit(n, 2) + Pow2(153) * Digit(n, 3)
         + Pow2(204) * Digit(n, 4) by {
      Pow51();
      SumOfShares(Digit(n, 0), Digit(n, 1), Digit(n, 2), Digit(n, 3), Digit(n, 4),
                  Pow2(51), Pow2(102), Pow2(153), Pow2(204));
    }
  }

  lemma FirstDigit(n: nat)
    ensures n % Pow2(51) == Digit(n, 0)
  {
    KnownPowers();
    assert n / 1 == n;
  }

  function Mask51(x: u64): (r: u64)
    ensures r as int == x as int % B
  {
    x % 0x8_0000_0000_0000
  }

  method FeFromBytes(s: Bytes) returns (f: Fe)
    requires |s| == 32
    ensures Below(f, B)
    ensures Value(f) == Le(s) % Pow2(255)
  {
    hide Pow2, Le, Digit, Sum, Pow256;
    var w0 := LoadLe64(s[0..8]);
    var w1 := LoadLe64(s[6..14]);
    var w2 := LoadLe64(s[12..20]);
    var w3 := LoadLe64(s[19..27]);
    var w4 := LoadLe64(s[24..32]);
    f := Fe(Mask51(w0), Mask51(w1 / 8), Mask51(w2 / 64), Mask51(w3 / 2), Mask51(w4 / 4096));
    KnownPowers();
    DivMod.SmallPowers();
    LimbIs(s, 0, 0, 0, 1, w0 as int);
    LimbIs(s, 1, 6, 3, 8, w1 as int);
    LimbIs(s, 2, 12, 6, 64, w2 as int);
    LimbIs(s, 3, 19, 1, 2, w3 as int);
    LimbIs(s, 4, 24, 12, 4096, w4 as int);
    FiveDigits(Le(s));
  }

  lemma LimbIs(s: Bytes, limb: nat, at: nat, shift: nat, divisor: nat, word: nat)
    requires |s| == 32 && at + 8 <= 32 && limb < 5 && shift <= 13
    requires word == Le(s[at..at + 8]) && divisor == Pow2(shift) && 8 * at + shift == 51 * limb
    ensures word / divisor % B == Digit(Le(s), limb)
  {
    hide Pow2, Le, Sum;
    LeSlice(s, at, at + 8);
    LimbOfWord(Le(s), 8 * at, shift);
    Pow51();
  }

  // ---- to bytes ----

  // The carry out of a limb, and the limb without it.
  method CarryOut(x: u64) returns (c: u64, low: u64)
    requires x as int < 2 * LIMIT54
    ensures x as int == B * c as int + low as int && low as int < B
  {
    c := x / 0x8_0000_0000_0000;
    low := Mask51(x);
  }

  // Only the first limb may exceed 51 bits, by a little.
  ghost predicate Nearly(h: Fe)
  {
    (h.l0 as int) < B + 200 && (h.l1 as int) < B && (h.l2 as int) < B && (h.l3 as int) < B && (h.l4 as int) < B
  }

  // One pass of carries around the limbs.
  method CarryPass(h: Fe) returns (r: Fe)
    requires Below(h, LIMIT54)
    ensures Elem(r) == Elem(h)
    ensures Nearly(r)
    ensures Nearly(h) ==> Below(r, B)
  {
    hide Sum;
    var c0, t0 := CarryOut(h.l0);
    var c1, t1 := CarryOut(h.l1 + c0);
    var c2, t2 := CarryOut(h.l2 + c1);
    var c3, t3 := CarryOut(h.l3 + c2);
    var c4, t4 := CarryOut(h.l4 + c3);
    r := Fe(t0 + 19 * c4, t1, t2, t3, t4);
    CarryIdentity(h.l0 as int, h.l1 as int, h.l2 as int, h.l3 as int, h.l4 as int, c0 as int, c1 as int,
                  c2 as int, c3 as int, c4 as int, 0, t0 as int, t1 as int, t2 as int, t3 as int, t4 as int,
                  r.l0 as int);
    Congruent(Value(h), Value(r), c4 as int, P);
    NearlyDone(h, c0 as int, c1 as int, c2 as int, c3 as int, c4 as int, t0 as int, t1 as int, t2 as int,
               t3 as int, t4 as int);
  }

  lemma OneCarry(x: int, c: int, d: int, t: int)
    requires 0 <= x < B && 0 <= c <= 1 && x + c == B * d + t && 0 <= t < B
    ensures 0 <= d <= 1 && (c == 0 ==> d == 0)
  {}

  // A carry out of the first limb leaves it small.
  lemma NearlyDone(h: Fe, c0: int, c1: int, c2: int, c3: int, c4: int, t0: int, t1: int, t2: int, t3: int, t4: int)
    requires h.l0 as int == B * c0 + t0 && h.l1 as int + c0 == B * c1 + t1 && h.l2 as int + c1 == B * c2 + t2
    requires h.l3 as int + c2 == B * c3 + t3 && h.l4 as int + c3 == B * c4 + t4
    requires 0 <= t0 < B && 0 <= t1 < B && 0 <= t2 < B && 0 <= t3 < B && 0 <= t4 < B
    ensures Nearly(h) ==> t0 + 19 * c4 < B
  {
    if Nearly(h) {
      assert 0 <= c0 <= 1;
      OneCarry(h.l1 as int, c0, c1, t1);
      OneCarry(h.l2 as int, c1, c2, t2);
      OneCarry(h.l3 as int, c2, c3, t3);
      OneCarry(h.l4 as int, c3, c4, t4);
    }
  }

  newtype i64 = x: int | -0x8000_0000_0000_0000 <= x < 0x8000_0000_0000_0000

  // One limb of the subtraction of P, with the borrow from the limb below.
  method BorrowStep(h: u64, p: u64, borrow: i64) returns (m: u64, next: i64)
    requires h as int < B && p as int < B && 0 <= borrow <= 1
    ensures 0 <= next <= 1 && m as int < B
    ensures m as int == h as int - p as int - borrow as int + B * next as int
  {
    var t := h as i64 - p as i64 - borrow;
    next := if t < 0 then 1 else 0;
    m := if t < 0 then (t + 0x8_0000_0000_0000) as u64 else t as u64;
  }

  lemma BorrowIdentity(h: Fe, m: Fe, b1: int, b2: int, b3: int, b4: int, b5: int)
    requires m.l0 as int == h.l0 as int - (B - 19) + B * b1
    requires m.l1 as int == h.l1 as int - (B - 1) - b1 + B * b2
    requires m.l2 as int == h.l2 as int - (B - 1) - b2 + B * b3
    requires m.l3 as int == h.l3 as int - (B - 1) - b3 + B * b4
    requires m.l4 as int == h.l4 as int - (B - 1) - b4 + B * b5
    ensures Value(m) == Value(h) - P + (P + 19) * b5
  {}

  lemma ValueBound(f: Fe)
    requires Below(f, B)
    ensures Value(f) < P + 19
  {}

  // The representative below P: h - p unless that borrows.
  method Canonical(h: Fe) returns (r: Fe)
    requires Below(h, B)
    ensures Below(r, B) && Value(r) == Elem(h)
  {
    hide Sum;
    var m0, b1 := BorrowStep(h.l0, 0x7_ffff_ffff_ffed, 0);
    var m1, b2 := BorrowStep(h.l1, 0x7_ffff_ffff_ffff, b1);
    var m2, b3 := BorrowStep(h.l2, 0x7_ffff_ffff_ffff, b2);
    var m3, b4 := BorrowStep(h.l3, 0x7_ffff_ffff_ffff, b3);
    var m4, b5 := BorrowStep(h.l4, 0x7_ffff_ffff_ffff, b4);
    var m := Fe(m0, m1, m2, m3, m4);
    BorrowIdentity(h, m, b1 as int, b2 as int, b3 as int, b4 as int, b5 as int);
    ValueBound(h);
    ValueBound(m);
    r := if b5 == 1 then h else m;
  }

  // One byte of a limb.
  function Low(x: u64, k: nat): (b: Byte) { x as int / Pow2(k) % 256 }

  // One byte across two limbs, which do not overlap in it.
  function Straddle(x: u64, k: nat, y: u64, m: nat): (b: Byte)
  {
    (x as int / Pow2(k) + y as int * Pow2(m)) % 256
  }

  function Pack(o: Fe): (s: Bytes)
    ensures |s| == 32
  {
    [Low(o.l0, 0), Low(o.l0, 8), Low(o.l0, 16), Low(o.l0, 24),
      Low(o.l0, 32), Low(o.l0, 40), Straddle(o.l0, 48, o.l1, 3), Low(o.l1, 5),
      Low(o.l1, 13), Low(o.l1, 21), Low(o.l1, 29), Low(o.l1, 37),
      Straddle(o.l1, 45, o.l2, 6), Low(o.l2, 2), Low(o.l2, 10), Low(o.l2, 18),
      Low(o.l2, 26), Low(o.l2, 34), Low(o.l2, 42), Straddle(o.l2, 50, o.l3, 1),
      Low(o.l3, 7), Low(o.l3, 15), Low(o.l3, 23), Low(o.l3, 31),
      Low(o.l3, 39), Straddle(o.l3, 47, o.l4, 4), Low(o.l4, 4), Low(o.l4, 12),
      Low(o.l4, 20), Low(o.l4, 28), Low(o.l4, 36), Low(o.l4, 44)]
  }

  // ---- the packed bytes are the number ----

  function Limb(o: Fe, j: nat): (l: nat)
  {
    if j == 0 then o.l0 as int else if j == 1 then o.l1 as int else if j == 2 then o.l2 as int
    else if j == 3 then o.l3 as int else if j == 4 then o.l4 as int else 0
  }

  // The limbs from j on, as a number.
  ghost function Upper(o: Fe, j: nat): (u: nat)
    decreases 5 - j
  {
    if j >= 5 then 0 else Limb(o, j) + B * Upper(o, j + 1)
  }

  lemma UpperIsValue(o: Fe)
    ensures Upper(o, 0) == Value(o)
  {
    hide Sum;
    assert Upper(o, 5) == 0;
    assert Upper(o, 4) == Limb(o, 4);
    assert Upper(o, 3) == Limb(o, 3) + B * Upper(o, 4);
    assert Upper(o, 2) == Limb(o, 2) + B * Upper(o, 3);
    assert Upper(o, 1) == Limb(o, 1) + B * Upper(o, 2);
    Horner(Limb(o, 0), Limb(o, 1), Limb(o, 2), Limb(o, 3), Limb(o, 4));
  }

  lemma Horner(a0: int, a1: int, a2: int, a3: int, a4: int)
    ensures a0 + B * (a1 + B * (a2 + B * (a3 + B * a4))) == Sum(a0, a1, a2, a3, a4)
  {}

  lemma {:induction false} UpperIsQuotient(o: Fe, j: nat)
    requires Below(o, B) && j <= 5
    ensures Value(o) / Pow2(51 * j) == Upper(o, j)
  {
    hide Pow2, Value, Limb;
    if j == 0 {
      UpperIsValue(o);
      KnownPowers();
    } else {
      UpperIsQuotient(o, j - 1);
      Pow51();
      Pow2Plus(51 * (j - 1), 51);
      Split(Value(o), Pow2(51 * (j - 1)), Pow2(51));
      UpperNext(o, j - 1);
    }
  }

  lemma UpperNext(o: Fe, j: nat)
    requires Below(o, B) && j < 5
    ensures Upper(o, j) / B == Upper(o, j + 1)
  {
    Unique(Upper(o, j), B, Upper(o, j + 1), Limb(o, j));
  }

  lemma LowByte(l: nat, u: nat, k: nat)
    requires k <= 43 || (u == 0 && k <= 51)
    ensures (l + B * u) / Pow2(k) % 256 == l / Pow2(k) % 256
  {
    hide Pow2;
    if k <= 43 {
      Pow51();
      KnownPowers();
      Pow2Plus(k, 51 - k);
      Pow2Plus(8, 43 - k);
      var c := Pow2(43 - k);
      assert B * u == Pow2(k) * (256 * c * u) by {
        assert (Pow2(k) * (256 * c)) * u == Pow2(k) * ((256 * c) * u);
      }
      AddMultiple(l, Pow2(k), 256 * c * u);
      AddMultiple(l / Pow2(k), 256, c * u);
      assert 256 * c * u == 256 * (c * u);
    }
  }

  lemma AcrossByte(l: nat, l': nat, u: nat, k: nat)
    requires 43 < k <= 51
    ensures (l + B * (l' + B * u)) / Pow2(k) % 256 == (l / Pow2(k) + l' * Pow2(51 - k)) % 256
  {
    hide Pow2;
    Pow51();
    KnownPowers();
    Pow2Plus(k, 51 - k);
    Pow2Plus(8, 43);
    var p, q, r := Pow2(k), Pow2(51 - k), Pow2(43);
    var up := l' + B * u;
    assert B * up == p * (q * up) by { assert (p * q) * up == p * (q * up); }
    AddMultiple(l, p, q * up);
    assert q * up == l' * q + 256 * (q * (r * u)) by {
      assert q * (l' + B * u) == l' * q + q * (B * u);
      assert q * (256 * r * u) == 256 * (q * (r * u));
    }
    AddMultiple(l / p + l' * q, 256, q * (r * u));
  }

  lemma ByteInLimb(o: Fe, i: nat, j: nat, k: nat)
    requires Below(o, B) && 8 * i == 51 * j + k && j < 5 && (k <= 43 || j == 4) && k <= 51
    ensures Value(o) / Pow256(i) % 256 == Limb(o, j) / Pow2(k) % 256
  {
    hide Pow2, Value;
    UpperIsQuotient(o, j);
    Pow2Plus(51 * j, k);
    Split(Value(o), Pow2(51 * j), Pow2(k));
    assert Upper(o, j) == Limb(o, j) + B * Upper(o, j + 1);
    LowByte(Limb(o, j), Upper(o, j + 1), k);
  }

  lemma ByteAcross(o: Fe, i: nat, j: nat, k: nat)
    requires Below(o, B) && 8 * i == 51 * j + k && j < 4 && 43 < k <= 51
    ensures Value(o) / Pow256(i) % 256 == (Limb(o, j) / Pow2(k) + Limb(o, j + 1) * Pow2(51 - k)) % 256
  {
    hide Pow2, Value;
    UpperIsQuotient(o, j);
    Pow2Plus(51 * j, k);
    Split(Value(o), Pow2(51 * j), Pow2(k));
    assert Upper(o, j) == Limb(o, j) + B * Upper(o, j + 1);
    assert Upper(o, j + 1) == Limb(o, j + 1) + B * Upper(o, j + 2);
    AcrossByte(Limb(o, j), Limb(o, j + 1), Upper(o, j + 2), k);
  }

  lemma PackedLow(o: Fe)
    requires Below(o, B)
    ensures forall i :: 0 <= i < 16 ==> Pack(o)[i] == Value(o) / Pow256(i) % 256
  {
    hide Pow2, Value, Pow256, Below;
    ByteInLimb(o, 0, 0, 0); ByteInLimb(o, 1, 0, 8); ByteInLimb(o, 2, 0, 16); ByteInLimb(o, 3, 0, 24);
    ByteInLimb(o, 4, 0, 32); ByteInLimb(o, 5, 0, 40); ByteAcross(o, 6, 0, 48); ByteInLimb(o, 7, 1, 5);
    ByteInLimb(o, 8, 1, 13); ByteInLimb(o, 9, 1, 21); ByteInLimb(o, 10, 1, 29); ByteInLimb(o, 11, 1, 37);
    ByteAcross(o, 12, 1, 45); ByteInLimb(o, 13, 2, 2); ByteInLimb(o, 14, 2, 10); ByteInLimb(o, 15, 2, 18);
  }

  lemma PackedHigh(o: Fe)
    requires Below(o, B)
    ensures forall i :: 16 <= i < 32 ==> Pack(o)[i] == Value(o) / Pow256(i) % 256
  {
    hide Pow2, Value, Pow256, Below;
    ByteInLimb(o, 16, 2, 26); ByteInLimb(o, 17, 2, 34); ByteInLimb(o, 18, 2, 42); ByteAcross(o, 19, 2, 50);
    ByteInLimb(o, 20, 3, 7); ByteInLimb(o, 21, 3, 15); ByteInLimb(o, 22, 3, 23); ByteInLimb(o, 23, 3, 31);
    ByteInLimb(o, 24, 3, 39); ByteAcross(o, 25, 3, 47); ByteInLimb(o, 26, 4, 4); ByteInLimb(o, 27, 4, 12);
    ByteInLimb(o, 28, 4, 20); ByteInLimb(o, 29, 4, 28); ByteInLimb(o, 30, 4, 36); ByteInLimb(o, 31, 4, 44);
  }

  lemma PackValue(o: Fe)
    requires Below(o, B)
    ensures Le(Pack(o)) == Value(o)
  {
    hide Value, Le, Pow256, Pack;
    PackedLow(o);
    PackedHigh(o);
    PackedFits(o);
    LeOfDigits(Pack(o), Value(o));
  }

  lemma PackedFits(o: Fe)
    requires Below(o, B)
    ensures Value(o) < Pow256(32)
  {
    hide Pow2;
    ValueBound(o);
    Pow51();
    Pow2Plus(255, 1);
    SmallPowers();
  }

  // fe_tobytes: the unique representative below P, little-endian.
  method FeToBytes(f: Fe) returns (s: Bytes)
    requires Below(f, LIMIT54)
    ensures |s| == 32 && Le(s) == Elem(f)
  {
    hide Pack, Le;
    var h := f;
    for pass := 0 to 3
      invariant Below(h, LIMIT54) && Elem(h) == Elem(f)
      invariant pass >= 1 ==> Nearly(h)
      invariant pass >= 2 ==> Below(h, B)
    {
      h := CarryPass(h);
    }
    var o := Canonical(h);
    PackValue(o);
    s := Pack(o);
  }
}
