// The X25519 function of src/crypto.cpp against section 5 of RFC 7748.
module X25519 {
  import opened Gf2Poly
  import opened ByteStrings
  import opened Field25519
  import opened FieldInverse
  import opened FieldBytes
  import opened MontgomeryCurve
  import opened Montgomery

  // Swapping under a mask: mask is all ones or zero.
  method FeCswap(f: Fe, g: Fe, swap: bool) returns (f': Fe, g': Fe)
    ensures (f', g') == if swap then (g, f) else (f, g)
  {
    if swap { f', g' := g, f; } else { f', g' := f, g; }
  }

  // The source swaps two words by combining each with their masked difference; a mask of all
  // zeros leaves them, one of all ones exchanges them.
  lemma MaskedByZeros(f: bv64, g: bv64)
    ensures f ^ (0 & (f ^ g)) == f && g ^ (0 & (f ^ g)) == g
  {}

  lemma MaskedByOnes(f: bv64, g: bv64)
    ensures f ^ (0xFFFF_FFFF_FFFF_FFFF & (f ^ g)) == g && g ^ (0xFFFF_FFFF_FFFF_FFFF & (f ^ g)) == f
  {}

  ghost predicate Stands(x2: Fe, z2: Fe, x3: Fe, z3: Fe, r: Rung)
  {
    Elem(x2) == r.x2 && Elem(z2) == r.z2 && Elem(x3) == r.x3 && Elem(z3) == r.z3
  }

  method LadderStep(x1: Fe, x2: Fe, z2: Fe, x3: Fe, z3: Fe, ghost r: Rung)
      returns (x2': Fe, z2': Fe, x3': Fe, z3': Fe)
    requires Below(x1, B) && Tight(x2) && Tight(z2) && Tight(x3) && Tight(z3)
    requires Stands(x2, z2, x3, z3, r)
    ensures Tight(x2') && Tight(z2') && Tight(x3') && Tight(z3')
    ensures Stands(x2', z2', x3', z3', Climb(P, Elem(x1), r))
    ensures (Elem(x2'), Elem(z2')) == DoublePoint(P, r.x2, r.z2)
    ensures (Elem(x3'), Elem(z3')) == AddPoints(P, Elem(x1), r.x2, r.z2, r.x3, r.z3)
  {
    FieldOperations();
    hide Elem, AddP, SubP, MulP, Add, Sub, Mul, DoublePoint, AddPoints;
    ClimbOnCurve(P, Elem(x1), r);
    var a := FeAdd(x2, z2);
    var aa := FeSq(a);
    var b := FeSub(x2, z2);
    var bb := FeSq(b);
    var e := FeSub(aa, bb);
    var c := FeAdd(x3, z3);
    var d := FeSub(x3, z3);
    var da := FeMul(d, a);
    var cb := FeMul(c, b);
    var s := FeAdd(da, cb);
    var t := FeSub(da, cb);
    x3' := FeSq(s);
    var tt := FeSq(t);
    z3' := FeMul(x1, tt);
    x2' := FeMul(aa, bb);
    var scaled := FeMulScalar(e, 121665);
    assert 121665 % P == A24;
    z2' := FeMul(e, FeAdd(aa, scaled));
  }

  // The field is that of the curve.
  lemma FieldOperations()
    ensures forall a, b {:trigger MulP(a, b)} :: MulP(a, b) == Mul(P, a, b)
    ensures forall a, b {:trigger AddP(a, b)} :: AddP(a, b) == Add(P, a, b)
    ensures forall a, b {:trigger SubP(a, b)} :: SubP(a, b) == Sub(P, a, b)
  {}

  // Bits are counted from the low end of the first byte.
  function ScalarBit(e: Bytes, t: nat): (b: nat)
    requires |e| == 32 && t < 256
  {
    e[t / 8] / Pow2(t % 8) % 2
  }

  lemma ScalarBitIsBit(e: Bytes, t: nat)
    requires |e| == 32 && t < 256
    ensures ScalarBit(e, t) == Bit(Le(e), t)
  {
    LeBit(e, t / 8, t % 8);
  }

  // The masks of the first and the last byte, as arithmetic.
  lemma ClampIsMask(x: bv8)
    ensures (x & 248) as int == x as int / 8 * 8
    ensures ((x & 127) | 64) as int == x as int % 64 + 64
  {}

  // The points are exchanged by the pending swap.
  ghost predicate Pending(x2: Fe, z2: Fe, x3: Fe, z3: Fe, swap: nat, r: Rung)
  {
    if swap == 1 then Stands(x3, z3, x2, z2, r) else Stands(x2, z2, x3, z3, r)
  }

  lemma LadderNext(k: nat, x1: int, t: nat)
    requires t < 255
    ensures var r := Ladder(P, k, x1, t + 1);
      Ladder(P, k, x1, t) == if Bit(k, t) == 1 then Exchange(Climb(P, x1, Exchange(r))) else Climb(P, x1, r)
  {}

  // The ladder with its swaps deferred: each swap undoes the previous one and does the next.
  method RunLadder(e: Bytes, x1: Fe) returns (x2: Fe, z2: Fe)
    requires |e| == 32 && Below(x1, B)
    ensures Tight(x2) && Tight(z2)
    ensures var r := Ladder(P, Le(e), Elem(x1), 0); Elem(x2) == r.x2 && Elem(z2) == r.z2
  {
    hide Climb, Ladder, Elem, Bit, Le, ScalarBit;
    ghost var k := Le(e);
    ghost var u := Elem(x1);
    x2, z2 := Fe(1, 0, 0, 0, 0), Fe(0, 0, 0, 0, 0);
    var x3, z3 := x1, Fe(1, 0, 0, 0, 0);
    var swap := 0;
    FirstRung(k, x1);
    for t := 255 downto 0
      invariant 0 <= swap <= 1
      invariant Tight(x2) && Tight(z2) && Tight(x3) && Tight(z3)
      invariant Pending(x2, z2, x3, z3, swap, Ladder(P, k, u, t))
    {
      var kt := ScalarBit(e, t);
      ScalarBitIsBit(e, t);
      LadderNext(k, u, t);
      ghost var r := Ladder(P, k, u, t + 1);
      var flip := swap != kt;
      x2, x3 := FeCswap(x2, x3, flip);
      z2, z3 := FeCswap(z2, z3, flip);
      swap := kt;
      x2, z2, x3, z3 := LadderStep(x1, x2, z2, x3, z3, if kt == 1 then Exchange(r) else r);
    }
    x2, x3 := FeCswap(x2, x3, swap == 1);
    z2, z3 := FeCswap(z2, z3, swap == 1);
  }

  lemma LadderStart(k: nat, x1: int)
    ensures Ladder(P, k, x1, 255) == Rung(1, 0, x1, 1)
  {}

  lemma SmallElement(f: Fe)
    requires f.l0 <= 1 && f.l1 == 0 && f.l2 == 0 && f.l3 == 0 && f.l4 == 0
    ensures Elem(f) == f.l0 as int
  {
    assert Value(f) == f.l0 as int;
  }

  lemma FirstRung(k: nat, x1: Fe)
    ensures Stands(Fe(1, 0, 0, 0, 0), Fe(0, 0, 0, 0, 0), x1, Fe(1, 0, 0, 0, 0), Ladder(P, k, Elem(x1), 255))
  {
    hide Elem, Ladder;
    SmallElement(Fe(1, 0, 0, 0, 0));
    SmallElement(Fe(0, 0, 0, 0, 0));
    LadderStart(k, Elem(x1));
  }

  // The shared secret, and whether it is not all zero.
  method SharedSecret(privateKey: Bytes, peerPublicKey: Bytes) returns (out: Bytes, ok: bool)
    requires |privateKey| == 32 && |peerPublicKey| == 32
    ensures |out| == 32 && Le(out) == X25519Spec(privateKey, peerPublicKey)
    ensures ok <==> X25519Spec(privateKey, peerPublicKey) != 0
    ensures Le(out) == Agreed(privateKey, peerPublicKey)
  {
    hide Agreed, Ladder, Multiples, Value, Le, Clamp, PowP, MulP, Pow2;
    var e := Clamp(privateKey);
    var x1 := FeFromBytes(peerPublicKey);
    assert Elem(x1) == DecodeU(peerPublicKey);
    var x2, z2 := RunLadder(e, x1);
    var inverse := FeInv(z2);
    var result := FeMul(x2, inverse);
    assert Elem(z2) % P == Elem(z2);
    out := FeToBytes(result);
    ok := false;
    for i := 0 to 32
      invariant ok <==> exists j :: 0 <= j < i && out[j] != 0
    {
      if out[i] != 0 { ok := true; }
    }
    LeZero(out);
    SpecIsMultiple(privateKey, peerPublicKey);
  }

  lemma {:induction false} LeZero(s: Bytes)
    ensures Le(s) == 0 <==> forall j :: 0 <= j < |s| ==> s[j] == 0
  {
    if |s| > 0 {
      LeZero(s[1..]);
      assert forall j :: 1 <= j < |s| ==> s[j] == s[1..][j - 1];
    }
  }
}
