// The tag as the sum of section 6.4 of NIST SP 800-38D: every block of the padded additional data, of
// the padded ciphertext and of the lengths counts with its own power of the hash key.
module GcmTag {
  import opened Gf2Poly
  import opened DivMod
  import opened ByteStrings
  import opened Ghash
  import opened Gcm

  ghost function Power(h: nat, n: nat): (p: nat)
    ensures p < Pow2(128)
  {
    ModulusDegree();
    Pow128();
    if n == 0 then 1
    else
      RemRange(ClMul(h, Power(h, n - 1)), MODULUS, 128);
      MulMod(h, Power(h, n - 1), MODULUS, 128)
  }

  // X_1 h^n + X_2 h^(n-1) + ... + X_n h.
  ghost function WeightedSum(blocks: seq<nat>, h: nat): (s: nat)
  {
    if |blocks| == 0 then 0
    else Xor(MulMod(blocks[0], Power(h, |blocks|), MODULUS, 128), WeightedSum(blocks[1..], h))
  }

  // The blocks of 16 bytes, the last one filled up with zeros, as polynomials.
  ghost function Blocks(data: Bytes): (b: seq<nat>)
    ensures |b| == (|data| + 15) / 16
  {
    seq((|data| + 15) / 16, i requires 0 <= i < (|data| + 15) / 16 =>
      Poly(data[16 * i..if 16 * i + 16 < |data| then 16 * i + 16 else |data|]))
  }

  lemma SumRange(blocks: seq<nat>, h: nat)
    ensures WeightedSum(blocks, h) < Pow2(128)
  {
    hide MulMod, Power, Pow2, Xor;
    if |blocks| == 0 {
      Pow128();
    } else {
      SumRange(blocks[1..], h);
      MulModRange(blocks[0], Power(h, |blocks|));
      XorRange(MulMod(blocks[0], Power(h, |blocks|), MODULUS, 128), WeightedSum(blocks[1..], h), 128);
    }
  }

  lemma MulModRange(a: nat, b: nat)
    ensures MulMod(a, b, MODULUS, 128) < Pow2(128)
  {
    ModulusDegree();
    RemRange(ClMul(a, b), MODULUS, 128);
  }

  lemma TimesOne(a: nat)
    requires a < Pow2(128)
    ensures MulMod(a, 1, MODULUS, 128) == a
  {
    hide ClMul;
    ModulusDegree();
    ClMulOne(a);
    RemSmall(a, MODULUS, 128);
  }

  lemma DistributeLeft(a: nat, b: nat, c: nat)
    ensures MulMod(Xor(a, b), c, MODULUS, 128) == Xor(MulMod(a, c, MODULUS, 128), MulMod(b, c, MODULUS, 128))
  {
    hide MulMod, Xor;
    ModulusDegree();
    MulModComm(Xor(a, b), c, MODULUS, 128);
    MulModDist(c, a, b, MODULUS, 128);
    MulModComm(c, a, MODULUS, 128);
    MulModComm(c, b, MODULUS, 128);
  }

  // One step of Horner's rule.
  lemma HornerStep(acc: nat, x: nat, h: nat, n: nat)
    ensures MulMod(MulMod(Xor(acc, x), h, MODULUS, 128), Power(h, n), MODULUS, 128)
         == Xor(MulMod(acc, Power(h, n + 1), MODULUS, 128), MulMod(x, Power(h, n + 1), MODULUS, 128))
  {
    hide MulMod, Xor;
    ModulusDegree();
    MulModAssoc(Xor(acc, x), h, Power(h, n), MODULUS, 128);
    DistributeLeft(acc, x, Power(h, n + 1));
  }

  lemma {:induction false} PolyOfPadded(b: Bytes, n: nat)
    ensures Poly(b + Zeros(n)) == Poly(b)
    decreases |b|
  {
    hide Poly, RevByte;
    if |b| == 0 {
      assert b + Zeros(n) == Zeros(n);
      PolyZeros(Zeros(n));
      PolyEmpty();
      assert b == [];
    } else {
      PolyCons(b);
      PolyCons(b + Zeros(n));
      assert (b + Zeros(n))[1..] == b[1..] + Zeros(n);
      PolyOfPadded(b[1..], n);
    }
  }

  lemma BlocksCons(data: Bytes, take: nat)
    requires |data| > 0 && take == if |data| < 16 then |data| else 16
    ensures Blocks(data) == [Poly(PadBlock(data[..take]))] + Blocks(data[take..])
  {
    hide Poly;
    var rest := data[take..];
    PolyOfPadded(data[..take], 16 - take);
    assert PadBlock(data[..take]) == data[..take] + Zeros(16 - take);
    assert |Blocks(data)| == 1 + |Blocks(rest)|;
    forall i | 0 <= i < |Blocks(rest)|
      ensures Blocks(data)[i + 1] == Blocks(rest)[i]
    {
      var end := if 16 * i + 16 < |rest| then 16 * i + 16 else |rest|;
      assert rest[16 * i..end] == data[16 * (i + 1)..end + 16];
    }
  }

  // Horner's rule computes the sum.
  lemma {:induction false} GhashIsSum(acc: nat, h: nat, data: Bytes)
    requires acc < Pow2(128)
    ensures var x := Blocks(data);
      GhashPoly(acc, h, data) == Xor(MulMod(acc, Power(h, |x|), MODULUS, 128), WeightedSum(x, h))
    decreases |data|
  {
    hide Poly, MulMod, Xor, Pow2, Blocks, Power, PadBlock;
    if |data| == 0 {
      assert data == [] && Power(h, 0) == 1 by { PowerZero(h); }
      TimesOne(acc);
      XorZero(acc);
    } else {
      var take := if |data| < 16 then |data| else 16;
      var x := Poly(PadBlock(data[..take]));
      var next := MulMod(Xor(acc, x), h, MODULUS, 128);
      MulModRange(Xor(acc, x), h);
      GhashIsSum(next, h, data[take..]);
      BlocksCons(data, take);
      var m := |Blocks(data[take..])|;
      HornerStep(acc, x, h, m);
      XorAssoc(MulMod(acc, Power(h, m + 1), MODULUS, 128), MulMod(x, Power(h, m + 1), MODULUS, 128),
               WeightedSum(Blocks(data[take..]), h));
      assert Blocks(data)[1..] == Blocks(data[take..]);
    }
  }

  lemma PowerZero(h: nat)
    ensures Power(h, 0) == 1
  {}

  lemma {:induction false} SumAppend(a: seq<nat>, b: seq<nat>, h: nat)
    ensures WeightedSum(a + b, h)
         == Xor(MulMod(WeightedSum(a, h), Power(h, |b|), MODULUS, 128), WeightedSum(b, h))
    decreases |a|
  {
    hide MulMod, Xor, Power;
    if |a| == 0 {
      assert a + b == b;
      NothingTimes(Power(h, |b|));
      XorZero(WeightedSum(b, h));
    } else {
      SumAppend(a[1..], b, h);
      assert (a + b)[1..] == a[1..] + b;
      var p, q := Power(h, |a|), Power(h, |b|);
      var first, rest := MulMod(a[0], p, MODULUS, 128), WeightedSum(a[1..], h);
      DistributeLeft(first, rest, q);
      ModulusDegree();
      MulModAssoc(a[0], p, q, MODULUS, 128);
      PowerSum(h, |a|, |b|);
      XorAssoc(MulMod(first, q, MODULUS, 128), MulMod(rest, q, MODULUS, 128), WeightedSum(b, h));
    }
  }

  lemma NothingTimes(a: nat)
    ensures MulMod(0, a, MODULUS, 128) == 0
  {
    hide Rem, ClMul;
    MulModComm(0, a, MODULUS, 128);
    ClMulStep0(a);
    Pow128();
    ModulusDegree();
    RemSmall(0, MODULUS, 128);
  }

  lemma {:induction false} PowerSum(h: nat, m: nat, n: nat)
    ensures MulMod(Power(h, m), Power(h, n), MODULUS, 128) == Power(h, m + n)
    decreases m
  {
    hide MulMod;
    if m == 0 {
      MulModComm(1, Power(h, n), MODULUS, 128);
      TimesOne(Power(h, n));
    } else {
      PowerSum(h, m - 1, n);
      ModulusDegree();
      MulModAssoc(h, Power(h, m - 1), Power(h, n), MODULUS, 128);
    }
  }

  lemma GhashContinues(before: seq<nat>, h: nat, data: Bytes)
    ensures GhashPoly(WeightedSum(before, h), h, data) == WeightedSum(before + Blocks(data), h)
  {
    hide GhashPoly, Blocks, WeightedSum, MulMod, Xor, Power, Pow2;
    SumRange(before, h);
    GhashIsSum(WeightedSum(before, h), h, data);
    SumAppend(before, Blocks(data), h);
  }

  // ---- the tag ----

  // The blocks that are authenticated: additional data, ciphertext, and both lengths in bits.
  ghost function Authenticated(aad: Bytes, ct: Bytes): (b: seq<nat>)
  {
    Blocks(aad) + Blocks(ct)
    + [Poly(Be(8 * |aad| % 0x1_0000_0000_0000_0000, 8) + Be(8 * |ct| % 0x1_0000_0000_0000_0000, 8))]
  }

  lemma OneBlock(b: Block)
    ensures Blocks(b) == [Poly(b)]
  {
    assert b[0..16] == b;
  }

  // The tag is the masked sum.
  lemma TagIsSum(e: Cipher, nonce: Nonce, aad: Bytes, ct: Bytes, tag: Block)
    ensures IsTag(e, nonce, aad, ct, tag) <==>
      Poly(tag) == Xor(WeightedSum(Authenticated(aad, ct), Poly(e(Zeros(16)))), Poly(e(nonce + [0, 0, 0, 1])))
  {
    hide Poly, GhashPoly, Blocks, Xor, Be;
    var h := Poly(e(Zeros(16)));
    assert PadBlock([]) == Zeros(16);
    assert WeightedSum([], h) == 0;
    hide WeightedSum;
    GhashContinues([], h, aad);
    assert [] + Blocks(aad) == Blocks(aad);
    GhashContinues(Blocks(aad), h, ct);
    GhashContinues(Blocks(aad) + Blocks(ct), h, LengthBlock(|aad|, |ct|));
    OneBlock(LengthBlock(|aad|, |ct|));
  }

  lemma {:induction false} SumDifference(x: seq<nat>, y: seq<nat>, i: nat, h: nat)
    requires |x| == |y| && i < |x| && forall j :: 0 <= j < |x| && j != i ==> x[j] == y[j]
    ensures Xor(WeightedSum(x, h), WeightedSum(y, h)) == MulMod(Xor(x[i], y[i]), Power(h, |x| - i), MODULUS, 128)
    decreases i
  {
    hide MulMod, Xor, Power;
    var p := Power(h, |x|);
    var a, b := MulMod(x[0], p, MODULUS, 128), MulMod(y[0], p, MODULUS, 128);
    var r, s := WeightedSum(x[1..], h), WeightedSum(y[1..], h);
    XorSwap(a, r, b, s);
    if i == 0 {
      assert x[1..] == y[1..];
      XorSelf(r);
      XorZero(Xor(a, b));
      DistributeLeft(x[0], y[0], p);
    } else {
      SumDifference(x[1..], y[1..], i - 1, h);
      XorSelf(a);
      XorZero(Xor(r, s));
    }
  }

  // Changing one block of the additional data changes the tag by the difference of the blocks times a
  // power of the hash key.
  lemma TagDifference(e: Cipher, nonce: Nonce, aad: Bytes, other: Bytes, ct: Bytes, tag: Block, changed: Block, i: nat)
    requires |aad| == |other| && i < |Blocks(aad)|
    requires forall j :: 0 <= j < |Blocks(aad)| && j != i ==> Blocks(aad)[j] == Blocks(other)[j]
    requires IsTag(e, nonce, aad, ct, tag) && IsTag(e, nonce, other, ct, changed)
    ensures Xor(Poly(tag), Poly(changed)) == MulMod(
      Xor(Blocks(aad)[i], Blocks(other)[i]),
      Power(Poly(e(Zeros(16))), (|aad| + 15) / 16 + (|ct| + 15) / 16 + 1 - i), MODULUS, 128)
  {
    hide Poly, Xor, Be, IsTag, MulMod, Power, WeightedSum, Blocks;
    var h, mask := Poly(e(Zeros(16))), Poly(e(nonce + [0, 0, 0, 1]));
    var x, y := Authenticated(aad, ct), Authenticated(other, ct);
    TagIsSum(e, nonce, aad, ct, tag);
    TagIsSum(e, nonce, other, ct, changed);
    SumDifference(x, y, i, h);
    var s, t := WeightedSum(x, h), WeightedSum(y, h);
    XorSwap(s, mask, t, mask);
    XorSelf(mask);
    XorZero(Xor(s, t));
  }

  // ---- the key stream and the modulus ----

  // Block k of the data meets the cipher's output on the nonce followed by the number k + 2.
  lemma KeyStream(e: Cipher, nonce: Nonce, data: Bytes, k: nat, q: nat)
    requires q < 16 && 16 * k + q < |data|
    ensures |nonce + Be((k + 2) % 0x1_0000_0000, 4)| == 16
    ensures Crypt(e, J0(nonce), data)[16 * k + q]
         == XorByte(data[16 * k + q], e(nonce + Be((k + 2) % 0x1_0000_0000, 4))[q])
  {
    hide XorByte;
    var b: Block := nonce + Be((k + 2) % 0x1_0000_0000, 4);
    CryptByte(e, J0(nonce), data, k, q);
    BeCounter(nonce, (k + 2) % 0x1_0000_0000);
    SameCounter(b, CounterBlock(J0(nonce), k + 1));
  }

  lemma BeCounter(nonce: Nonce, n: nat)
    requires n < 0x1_0000_0000
    ensures Counter(nonce + Be(n, 4)) == n
  {
    hide Be, FromBe, Pow256;
    FieldSizes();
    BeRoundTrip(n, 4);
    FromFour(Be(n, 4));
  }

  lemma FromFour(b: Bytes)
    requires |b| == 4
    ensures FromBe(b) == b[0] as int * 0x100_0000 + b[1] as int * 0x1_0000 + b[2] as int * 0x100 + b[3] as int
  {
    assert b[..3][..2] == b[..2] && b[..2][..1] == b[..1] && b[..1][..0] == [];
    assert FromBe(b[..1]) == b[0];
    assert FromBe(b[..2]) == 256 * FromBe(b[..1]) + b[1];
    assert FromBe(b[..3]) == 256 * FromBe(b[..2]) + b[2];
  }

  lemma ReductionPolynomial()
    ensures MODULUS == Pow2(128) + Pow2(7) + Pow2(2) + Pow2(1) + Pow2(0)
  {
    Pow128();
    SmallPowers();
    KnownPowers();
  }
}
