// The function of section 5 of RFC 7748 on integers modulo P, as a multiple of a point.
module Montgomery {
  import opened Gf2Poly
  import opened DivMod
  import opened ByteStrings
  import opened Field25519
  import opened FieldInverse
  import opened MontgomeryCurve

  // ---- section 5 of RFC 7748 ----

  // decodeScalar25519
  function Clamp(k: Bytes): (e: Bytes)
    requires |k| == 32
    ensures |e| == 32
  {
    k[0 := k[0] / 8 * 8][31 := k[31] % 64 + 64]
  }

  function DecodeScalar(k: Bytes): (n: nat)
    requires |k| == 32
  {
    Le(Clamp(k))
  }

  // decodeUCoordinate: the top bit is ignored.
  ghost function DecodeU(u: Bytes): (x: int)
    requires |u| == 32
    ensures 0 <= x < P
  {
    Le(u) % Pow2(255) % P
  }

  ghost function X25519Spec(k: Bytes, u: Bytes): (x: int)
    requires |k| == 32 && |u| == 32
    ensures 0 <= x < P
  {
    var r := Ladder(P, DecodeScalar(k), DecodeU(u), 0);
    MulP(r.x2, PowP(r.z2 % P, InverseExponent()))
  }

  // ---- the scalar ----

  // Decoding clears the three low bits and the top one, sets the next, and keeps all others.
  lemma ScalarBits(k: Bytes)
    requires |k| == 32
    ensures DecodeScalar(k) == Pow2(254) + 8 * (Le(k) / 8 % Pow2(251))
    ensures DecodeScalar(k) % 8 == 0 && Pow2(254) <= DecodeScalar(k) < Pow2(255)
  {
    hide Le, Pow2, DecodeScalar;
    var p := Pow2(240);
    ThreeParts(k);
    ClampedParts(k);
    LeBound(k[1..31]);
    assert Pow256(30) == p;
    ScalarArithmetic(k[0], Le(k[1..31]), k[31], p);
    ScalarPowers();
    InRange(Le(k) / 8 % (2048 * p), p);
  }

  lemma InRange(x: nat, p: nat)
    requires x < 2048 * p
    ensures (16384 * p + 8 * x) % 8 == 0 && 16384 * p <= 16384 * p + 8 * x < 32768 * p
  {}

  lemma ClampedParts(k: Bytes)
    requires |k| == 32
    ensures DecodeScalar(k) == k[0] / 8 * 8 + 256 * Le(k[1..31]) + 256 * Pow2(240) * (k[31] % 64 + 64)
  {
    hide Le, Pow2;
    ThreeParts(Clamp(k));
    assert Clamp(k)[1..31] == k[1..31];
  }

  lemma ScalarPowers()
    ensures Pow2(251) == 2048 * Pow2(240) && Pow2(254) == 16384 * Pow2(240) && Pow2(255) == 32768 * Pow2(240)
  {
    hide Pow2;
    KnownPowers();
    SmallPowers();
    Pow2Plus(240, 8);
    Pow2Plus(248, 3);
    Pow2Plus(251, 3);
    Twice(254);
  }

  lemma ThreeParts(k: Bytes)
    requires |k| == 32
    ensures Le(k) == k[0] + 256 * Le(k[1..31]) + 256 * Pow2(240) * k[31]
  {
    hide Le, Pow2;
    LeCons(k);
    LeAppend(k[1..], 30);
    assert k[1..][..31] == k[1..] && k[1..][..30] == k[1..31];
    assert Pow256(30) == Pow2(240);
  }

  lemma ScalarArithmetic(low: nat, mid: nat, top: nat, p: nat)
    requires low < 256 && top < 256 && mid < p
    ensures var n := low + 256 * mid + 256 * p * top;
      && low / 8 * 8 + 256 * mid + 256 * p * (top % 64 + 64) == 16384 * p + 8 * (n / 8 % (2048 * p))
      && n / 8 % (2048 * p) < 2048 * p
  {
    var q, r := top / 64, top % 64;
    var rest := low / 8 + 32 * mid + 32 * (p * r);
    TopParts(p, top, q, r);
    Eighth(low, mid, 2048 * p * q + 32 * (p * r));
    LessThan(p, r, mid, low / 8);
    Unique(2048 * p * q + rest, 2048 * p, q, rest);
  }

  lemma Eighth(low: nat, mid: nat, w: nat)
    ensures (low + 256 * mid + 8 * w) / 8 == low / 8 + 32 * mid + w
    ensures low == low / 8 * 8 + low % 8
  {}

  lemma LessThan(p: nat, r: nat, mid: nat, a: nat)
    requires r < 64 && mid < p && a < 32
    ensures a + 32 * mid + 32 * (p * r) < 2048 * p
  {
    assert p * r <= p * 63 by { assert p * (63 - r) >= 0; }
  }

  lemma TopParts(p: nat, top: nat, q: nat, r: nat)
    requires top == 64 * q + r
    ensures 256 * p * top == 8 * (2048 * p * q + 32 * (p * r))
    ensures 256 * p * (r + 64) == 16384 * p + 8 * (32 * (p * r))
  {
    assert p * top == 64 * (p * q) + p * r;
    assert p * (r + 64) == p * r + 64 * p;
  }

  // What both sides agree on: the abscissa X / Z of the peer's point times the scalar, with Z inverted by
  // its power P - 2.
  ghost function Agreed(k: Bytes, u: Bytes): (n: int)
    requires |k| == 32 && |u| == 32
  {
    var (x, z) := Multiples(P, DecodeU(u), DecodeScalar(k)).0;
    x * PowP(z % P, P - 2) % P
  }

  lemma SpecIsMultiple(k: Bytes, u: Bytes)
    requires |k| == 32 && |u| == 32
    ensures X25519Spec(k, u) == Agreed(k, u)
  {
    hide Ladder, Multiples, PowP, DecodeU, DecodeScalar, Le, Pow2;
    var n := DecodeScalar(k);
    ScalarBits(k);
    ExponentIsPMinusTwo();
    LadderMultiplies(P, n, DecodeU(u), 0);
    KnownPowers();
    assert BitsFrom(n, 0) == n / 1 == n;
  }
}
