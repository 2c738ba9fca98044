// Arithmetic modulo 2^255 - 19 on five 51-bit limbs: the fe_* functions of src/crypto.cpp.
module Field25519 {
  import opened DivMod

  // Machine words: the verifier checks every operation on them for overflow.
  newtype u64 = x: int | 0 <= x < 0x1_0000_0000_0000_0000
  newtype u128 = x: int | 0 <= x < 0x1_0000_0000_0000_0000_0000_0000_0000_0000

  const B: int := 0x8_0000_0000_0000                 // 2^51
  const P: int := 0x7fff_ffff_ffff_ffff_ffff_ffff_ffff_ffff_ffff_ffff_ffff_ffff_ffff_ffff_ffff_ffed

  datatype Fe = Fe(l0: u64, l1: u64, l2: u64, l3: u64, l4: u64)

  ghost function Sum(a0: int, a1: int, a2: int, a3: int, a4: int): (n: int)
  {
    a0 + a1 * 0x8_0000_0000_0000
       + a2 * 0x40_0000_0000_0000_0000_0000_0000
       + a3 * 0x200_0000_0000_0000_0000_0000_0000_0000_0000_0000
       + a4 * 0x1000_0000_0000_0000_0000_0000_0000_0000_0000_0000_0000_0000_0000
  }

  ghost function Value(f: Fe): (v: int)
    ensures v >= 0
  {
    Sum(f.l0 as int, f.l1 as int, f.l2 as int, f.l3 as int, f.l4 as int)
  }

  // The field element that the limbs stand for.
  ghost function Elem(f: Fe): (e: int)
    ensures 0 <= e < P
  {
    Value(f) % P
  }

  ghost function AddP(a: int, b: int): (n: int) { (a + b) % P }
  ghost function SubP(a: int, b: int): (n: int) { (a - b) % P }
  ghost function MulP(a: int, b: int): (n: int) { (a * b) % P }

  ghost predicate Below(f: Fe, bound: int)
  {
    f.l0 as int < bound && f.l1 as int < bound && f.l2 as int < bound && f.l3 as int < bound && f.l4 as int < bound
  }

  // What fe_mul leaves: limbs of 51 bits, but for a small excess in the second one.
  ghost predicate Tight(f: Fe)
  {
    f.l0 as int < B && f.l1 as int < B + 0x2000 && f.l2 as int < B && f.l3 as int < B && f.l4 as int < B
  }

  const LIMIT52: int := 0x10_0000_0000_0000
  const LIMIT53: int := 0x20_0000_0000_0000
  const LIMIT54: int := 0x40_0000_0000_0000

  // ---- congruences ----

  lemma Congruent(a: int, b: int, k: int, m: int)
    requires m > 0 && a == b + m * k
    ensures a % m == b % m
  {
    var q, r := b / m, b % m;
    assert a == m * (q + k) + r by { assert m * (q + k) == m * q + m * k; }
    Unique(a, m, q + k, r);
  }

  lemma ModAdd(a: int, b: int, m: int)
    requires m > 0
    ensures (a % m + b % m) % m == (a + b) % m
    ensures (a % m - b % m) % m == (a - b) % m
  {
    var p, q := a / m, b / m;
    assert m * (p + q) == m * p + m * q;
    assert m * (p - q) == m * p - m * q;
    Congruent(a + b, a % m + b % m, p + q, m);
    Congruent(a - b, a % m - b % m, p - q, m);
  }

  lemma ModMul(a: int, b: int, m: int)
    requires m > 0
    ensures (a % m) * (b % m) % m == (a * b) % m
  {
    var p, q, x, y := a / m, b / m, a % m, b % m;
    assert a == m * p + x && b == m * q + y;
    var k := p * b + x * q;
    assert a * b == x * y + m * k by {
      assert a * b == (m * p) * b + x * b by { assert (m * p + x) * b == (m * p) * b + x * b; }
      assert x * b == x * (m * q) + x * y by { assert x * (m * q + y) == x * (m * q) + x * y; }
      assert (m * p) * b == m * (p * b);
      assert x * (m * q) == m * (x * q);
      assert m * k == m * (p * b) + m * (x * q);
    }
    Congruent(a * b, x * y, k, m);
  }

  // ---- addition and subtraction ----

  function FeAdd(f: Fe, g: Fe): (r: Fe)
    requires Below(f, LIMIT54) && Below(g, LIMIT54)
    ensures Elem(r) == AddP(Elem(f), Elem(g))
    ensures Below(f, LIMIT52) && Below(g, LIMIT52) ==> Below(r, LIMIT53)
  {
    var r := Fe(f.l0 + g.l0, f.l1 + g.l1, f.l2 + g.l2, f.l3 + g.l3, f.l4 + g.l4);
    ElemSum(f, g, r);
    r
  }

  lemma ElemSum(f: Fe, g: Fe, r: Fe)
    requires Value(r) == Value(f) + Value(g)
    ensures Elem(r) == AddP(Elem(f), Elem(g))
  {
    hide Value;
    ModAdd(Value(f), Value(g), P);
  }

  // Twice the modulus, limb by limb.
  const TWO_P0: u64 := 0xFFFFFFFFFFFDA
  const TWO_P1: u64 := 0xFFFFFFFFFFFFE

  function FeSub(f: Fe, g: Fe): (r: Fe)
    requires Below(f, LIMIT54) && Tight(g)
    ensures Elem(r) == SubP(Elem(f), Elem(g))
    ensures Below(f, LIMIT52) ==> Below(r, LIMIT53)
  {
    var r := Fe(f.l0 + TWO_P0 - g.l0, f.l1 + TWO_P1 - g.l1, f.l2 + TWO_P1 - g.l2,
                f.l3 + TWO_P1 - g.l3, f.l4 + TWO_P1 - g.l4);
    ElemDifference(f, g, r);
    r
  }

  lemma ElemDifference(f: Fe, g: Fe, r: Fe)
    requires Value(r) == Value(f) - Value(g) + 2 * P
    ensures Elem(r) == SubP(Elem(f), Elem(g))
  {
    hide Value;
    Congruent(Value(r), Value(f) - Value(g), 2, P);
    ModAdd(Value(f), Value(g), P);
  }

  // ---- the carry chain ----

  lemma CarryIdentity(s0: int, s1: int, s2: int, s3: int, s4: int, c0: int, c1: int, c2: int, c3: int, c4: int,
                      c5: int, t0: int, t1: int, t2: int, t3: int, t4: int, u0: int)
    requires s0 == B * c0 + t0 && s1 + c0 == B * c1 + t1 && s2 + c1 == B * c2 + t2
    requires s3 + c2 == B * c3 + t3 && s4 + c3 == B * c4 + t4 && t0 + 19 * c4 == B * c5 + u0
    ensures Sum(s0, s1, s2, s3, s4) == Sum(u0, t1 + c5, t2, t3, t4) + P * c4
  {}

  // What a limb keeps and what it carries.
  method SplitLimb(r: u128) returns (c: u64, low: u128)
    requires (r as int) < 0x51 * LIMIT54 * LIMIT54
    ensures r as int == B * c as int + low as int && (low as int) < B
  {
    c := (r / 0x8_0000_0000_0000) as u64;
    low := r % 0x8_0000_0000_0000;
  }

  // Each carry goes to the next limb, and 2^255 folded back as 19.
  method Carry(s0: u128, s1: u128, s2: u128, s3: u128, s4: u128) returns (r: Fe)
    requires s0 as int < 0x50 * LIMIT54 * LIMIT54 && s1 as int < 0x50 * LIMIT54 * LIMIT54
    requires s2 as int < 0x50 * LIMIT54 * LIMIT54 && s3 as int < 0x50 * LIMIT54 * LIMIT54
    requires s4 as int <= 5 * LIMIT54 * LIMIT54
    ensures Tight(r)
    ensures Elem(r) == Sum(s0 as int, s1 as int, s2 as int, s3 as int, s4 as int) % P
  {
    hide Sum;
    var c0, t0 := SplitLimb(s0);
    var c1, t1 := SplitLimb(s1 + c0 as u128);
    var c2, t2 := SplitLimb(s2 + c1 as u128);
    var c3, t3 := SplitLimb(s3 + c2 as u128);
    var c4, t4 := SplitLimb(s4 + c3 as u128);
    var c5, u0 := SplitLimb(t0 + (19 * c4) as u128);
    r := Fe(u0 as u64, (t1 + c5 as u128) as u64, t2 as u64, t3 as u64, t4 as u64);
    CarryIdentity(s0 as int, s1 as int, s2 as int, s3 as int, s4 as int, c0 as int, c1 as int, c2 as int,
                  c3 as int, c4 as int, c5 as int, t0 as int, t1 as int, t2 as int, t3 as int, t4 as int,
                  u0 as int);
    Congruent(Sum(s0 as int, s1 as int, s2 as int, s3 as int, s4 as int), Value(r), c4 as int, P);
  }

  // ---- multiplication ----

  lemma ProductMonotone(a: int, b: int, c: int, d: int)
    requires 0 <= a <= c && 0 <= b <= d
    ensures 0 <= a * b <= c * d
  {
    assert a * b <= c * b <= c * d;
  }

  lemma ProductBound(a: u64, b: u64)
    requires a as int < LIMIT54 && b as int < LIMIT54
    ensures 0 <= a as int * b as int < LIMIT54 * LIMIT54
  {
    ProductMonotone(a as int, b as int, LIMIT54 - 1, LIMIT54 - 1);
  }

  lemma Distribute(a0: int, a1: int, a2: int, a3: int, a4: int, g: int)
    ensures Sum(a0, a1, a2, a3, a4) * g == Sum(a0 * g, a1 * g, a2 * g, a3 * g, a4 * g)
  {
    var b1, b2, b3, b4 := 0x8_0000_0000_0000, 0x40_0000_0000_0000_0000_0000_0000,
      0x200_0000_0000_0000_0000_0000_0000_0000_0000_0000,
      0x1000_0000_0000_0000_0000_0000_0000_0000_0000_0000_0000_0000_0000;
    assert (a0 + a1 * b1 + a2 * b2 + a3 * b3 + a4 * b4) * g
        == a0 * g + (a1 * b1) * g + (a2 * b2) * g + (a3 * b3) * g + (a4 * b4) * g;
  }

  // A limb times an element.
  lemma LimbTimes(a: int, g0: int, g1: int, g2: int, g3: int, g4: int)
    ensures a * Sum(g0, g1, g2, g3, g4) == Sum(a * g0, a * g1, a * g2, a * g3, a * g4)
  {
    Distribute(g0, g1, g2, g3, g4, a);
  }

  // 2^255 = 19 modulo P: the high partial products fold onto the low limbs.
  lemma Schoolbook(
        p00: int, p01: int, p02: int, p03: int, p04: int, p10: int, p11: int, p12: int, p13: int, p14: int,
        p20: int, p21: int, p22: int, p23: int, p24: int, p30: int, p31: int, p32: int, p33: int, p34: int,
        p40: int, p41: int, p42: int, p43: int, p44: int)
    ensures Sum(Sum(p00, p01, p02, p03, p04), Sum(p10, p11, p12, p13, p14), Sum(p20, p21, p22, p23, p24),
                Sum(p30, p31, p32, p33, p34), Sum(p40, p41, p42, p43, p44))
         == Sum(p00 + 19 * (p14 + p23 + p32 + p41), p01 + p10 + 19 * (p24 + p33 + p42),
                p02 + p11 + p20 + 19 * (p34 + p43), p03 + p12 + p21 + p30 + 19 * p44,
                p04 + p13 + p22 + p31 + p40)
          + P * Sum(p14 + p23 + p32 + p41, p24 + p33 + p42, p34 + p43, p44, 0)
  {}

  lemma ProductOfElements(f0: int, f1: int, f2: int, f3: int, f4: int, g0: int, g1: int, g2: int, g3: int, g4: int)
    ensures (Sum(f0, f1, f2, f3, f4) * Sum(g0, g1, g2, g3, g4)) % P
         == Sum(f0 * g0 + 19 * (f1 * g4 + f2 * g3 + f3 * g2 + f4 * g1),
                f0 * g1 + f1 * g0 + 19 * (f2 * g4 + f3 * g3 + f4 * g2),
                f0 * g2 + f1 * g1 + f2 * g0 + 19 * (f3 * g4 + f4 * g3),
                f0 * g3 + f1 * g2 + f2 * g1 + f3 * g0 + 19 * (f4 * g4),
                f0 * g4 + f1 * g3 + f2 * g2 + f3 * g1 + f4 * g0) % P
  {
    hide Sum;
    var g := Sum(g0, g1, g2, g3, g4);
    Distribute(f0, f1, f2, f3, f4, g);
    LimbTimes(f0, g0, g1, g2, g3, g4);
    LimbTimes(f1, g0, g1, g2, g3, g4);
    LimbTimes(f2, g0, g1, g2, g3, g4);
    LimbTimes(f3, g0, g1, g2, g3, g4);
    LimbTimes(f4, g0, g1, g2, g3, g4);
    Schoolbook(f0 * g0, f0 * g1, f0 * g2, f0 * g3, f0 * g4, f1 * g0, f1 * g1, f1 * g2, f1 * g3, f1 * g4,
               f2 * g0, f2 * g1, f2 * g2, f2 * g3, f2 * g4, f3 * g0, f3 * g1, f3 * g2, f3 * g3, f3 * g4,
               f4 * g0, f4 * g1, f4 * g2, f4 * g3, f4 * g4);
    Congruent(Sum(f0, f1, f2, f3, f4) * g,
              Sum(f0 * g0 + 19 * (f1 * g4 + f2 * g3 + f3 * g2 + f4 * g1),
                  f0 * g1 + f1 * g0 + 19 * (f2 * g4 + f3 * g3 + f4 * g2),
                  f0 * g2 + f1 * g1 + f2 * g0 + 19 * (f3 * g4 + f4 * g3),
                  f0 * g3 + f1 * g2 + f2 * g1 + f3 * g0 + 19 * (f4 * g4),
                  f0 * g4 + f1 * g3 + f2 * g2 + f3 * g1 + f4 * g0),
              Sum(f1 * g4 + f2 * g3 + f3 * g2 + f4 * g1, f2 * g4 + f3 * g3 + f4 * g2, f3 * g4 + f4 * g3,
                  f4 * g4, 0), P);
  }

  // One partial product, in 128 bits.
  function Wide(a: u64, b: u64): (r: u128)
    requires a as int < LIMIT54 && b as int < LIMIT54
    ensures r as int == a as int * b as int && r as int < LIMIT54 * LIMIT54
  {
    ProductBound(a, b);
    a as u128 * b as u128
  }

  method FeMul(f: Fe, g: Fe) returns (r: Fe)
    requires Below(f, LIMIT54) && Below(g, LIMIT54)
    ensures Tight(r)
    ensures Elem(r) == MulP(Elem(f), Elem(g))
  {
    hide Sum;
    var r0 := Wide(f.l0, g.l0) + 19 * (Wide(f.l1, g.l4) + Wide(f.l2, g.l3) + Wide(f.l3, g.l2) + Wide(f.l4, g.l1));
    var r1 := Wide(f.l0, g.l1) + Wide(f.l1, g.l0) + 19 * (Wide(f.l2, g.l4) + Wide(f.l3, g.l3) + Wide(f.l4, g.l2));
    var r2 := Wide(f.l0, g.l2) + Wide(f.l1, g.l1) + Wide(f.l2, g.l0) + 19 * (Wide(f.l3, g.l4) + Wide(f.l4, g.l3));
    var r3 := Wide(f.l0, g.l3) + Wide(f.l1, g.l2) + Wide(f.l2, g.l1) + Wide(f.l3, g.l0) + 19 * Wide(f.l4, g.l4);
    var r4 := Wide(f.l0, g.l4) + Wide(f.l1, g.l3) + Wide(f.l2, g.l2) + Wide(f.l3, g.l1) + Wide(f.l4, g.l0);
    r := Carry(r0, r1, r2, r3, r4);
    ProductOfElements(f.l0 as int, f.l1 as int, f.l2 as int, f.l3 as int, f.l4 as int,
                      g.l0 as int, g.l1 as int, g.l2 as int, g.l3 as int, g.l4 as int);
    ModMul(Value(f), Value(g), P);
  }

  // The product by a small scalar.
  method FeMulScalar(f: Fe, s: u64) returns (r: Fe)
    requires Below(f, LIMIT54) && s as int < LIMIT54
    ensures Tight(r)
    ensures Elem(r) == MulP(Elem(f), s as int % P)
  {
    hide Sum;
    r := Carry(Wide(f.l0, s), Wide(f.l1, s), Wide(f.l2, s), Wide(f.l3, s), Wide(f.l4, s));
    Distribute(f.l0 as int, f.l1 as int, f.l2 as int, f.l3 as int, f.l4 as int, s as int);
    ModMul(Value(f), s as int, P);
  }
}
