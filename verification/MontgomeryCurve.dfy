// The Montgomery ladder modulo any number: its rung, and what the ladder computes on the curve
// y^2 = x^3 + 486662 x^2 + x.
module MontgomeryCurve {
  import opened Gf2Poly
  import opened DivMod
  import opened FieldInverse

  type Modulus = p: int | p > 0 witness 1

  ghost function Add(p: Modulus, a: int, b: int): (n: int) { (a + b) % p }
  ghost function Sub(p: Modulus, a: int, b: int): (n: int) { (a - b) % p }
  ghost function Mul(p: Modulus, a: int, b: int): (n: int) { (a * b) % p }

  // ---- the ladder of section 5 of RFC 7748 ----

  const A24: int := 121665

  // The ladder's two points, in projective coordinates.
  datatype Rung = Rung(x2: int, z2: int, x3: int, z3: int)

  ghost function Exchange(r: Rung): (result: Rung) { Rung(r.x3, r.z3, r.x2, r.z2) }

  // One differential addition and doubling.
  ghost function Climb(p: Modulus, x1: int, r: Rung): (result: Rung)
  {
    var a := Add(p, r.x2, r.z2);
    var aa := Mul(p, a, a);
    var b := Sub(p, r.x2, r.z2);
    var bb := Mul(p, b, b);
    var e := Sub(p, aa, bb);
    var c := Add(p, r.x3, r.z3);
    var d := Sub(p, r.x3, r.z3);
    var da := Mul(p, d, a);
    var cb := Mul(p, c, b);
    var s := Add(p, da, cb);
    var t := Sub(p, da, cb);
    Rung(Mul(p, aa, bb), Mul(p, e, Add(p, aa, Mul(p, e, A24))), Mul(p, s, s), Mul(p, x1, Mul(p, t, t)))
  }

  ghost function Bit(k: nat, t: nat): (b: nat)
    ensures b <= 1
  {
    k / Pow2(t) % 2
  }

  // The rungs after bits 254 down to t, exchanging before and after each one-bit.
  ghost function Ladder(p: Modulus, k: nat, x1: int, t: nat): (r: Rung)
    requires t <= 255
    decreases 255 - t
  {
    if t == 255 then Rung(1, 0, x1, 1)
    else
      var r := Ladder(p, k, x1, t + 1);
      if Bit(k, t) == 1 then Exchange(Climb(p, x1, Exchange(r))) else Climb(p, x1, r)
  }

  // ---- congruence ----

  ghost function Times(p: int, k: int): (n: int) { p * k }

  ghost predicate Congruent(a: int, b: int, p: int) { exists k :: a == b + Times(p, k) }

  lemma Sums(a: int, b: int, c: int, d: int, p: int)
    requires Congruent(a, c, p) && Congruent(b, d, p)
    ensures Congruent(a + b, c + d, p) && Congruent(a - b, c - d, p)
  {
    var i :| a == c + Times(p, i);
    var j :| b == d + Times(p, j);
    assert a + b == c + d + Times(p, i + j);
    assert a - b == c - d + Times(p, i - j);
  }

  lemma Products(a: int, b: int, c: int, d: int, p: int)
    requires Congruent(a, c, p) && Congruent(b, d, p)
    ensures Congruent(a * b, c * d, p)
  {
    var i :| a == c + Times(p, i);
    var j :| b == d + Times(p, j);
    ProductParts(c, d, p, i, j);
    assert a * b == c * d + Times(p, c * j + i * d + p * i * j);
  }

  lemma ProductParts(c: int, d: int, p: int, i: int, j: int)
    ensures (c + p * i) * (d + p * j) == c * d + p * (c * j + i * d + p * i * j)
  {
    assert p * (p * i * j) == (p * i) * (p * j);
  }

  lemma Itself(a: int, p: int)
    ensures Congruent(a, a, p)
  {
    assert a == a + Times(p, 0);
  }

  lemma Reversed(a: int, b: int, p: int)
    requires Congruent(a, b, p)
    ensures Congruent(b, a, p)
  {
    var k :| a == b + Times(p, k);
    assert b == a + Times(p, -k);
  }

  lemma Linked(a: int, b: int, c: int, p: int)
    requires Congruent(a, b, p) && Congruent(b, c, p)
    ensures Congruent(a, c, p)
  {
    var i :| a == b + Times(p, i);
    var j :| b == c + Times(p, j);
    assert a == c + Times(p, i + j);
  }

  lemma ToResidue(p: Modulus, a: int)
    ensures Congruent(a % p, a, p)
  {
    assert a % p == a + Times(p, -(a / p));
  }

  lemma SameResidue(p: Modulus, a: int, b: int)
    requires Congruent(a, b, p)
    ensures a % p == b % p
  {
    var k :| a == b + Times(p, k);
    Unique(a, p, b / p + k, b % p);
  }

  // Sums, differences and products modulo p, of numbers congruent to others.
  lemma OfSum(p: Modulus, a: int, b: int, c: int, d: int)
    requires Congruent(a, c, p) && Congruent(b, d, p)
    ensures Congruent(Add(p, a, b), c + d, p) && Congruent(Sub(p, a, b), c - d, p)
  {
    hide Congruent;
    Sums(a, b, c, d, p);
    ToResidue(p, a + b);
    ToResidue(p, a - b);
    Linked(Add(p, a, b), a + b, c + d, p);
    Linked(Sub(p, a, b), a - b, c - d, p);
  }

  lemma OfProduct(p: Modulus, a: int, b: int, c: int, d: int)
    requires Congruent(a, c, p) && Congruent(b, d, p)
    ensures Congruent(Mul(p, a, b), c * d, p) && Mul(p, a, b) == c * d % p
  {
    hide Congruent;
    Products(a, b, c, d, p);
    ToResidue(p, a * b);
    Linked(Mul(p, a, b), a * b, c * d, p);
    SameResidue(p, a * b, c * d);
  }

  // ---- one rung, on the curve ----

  // The x-coordinate X : Z of twice a point.
  ghost function DoubleX(x: int, z: int): (n: int) { (x * x - z * z) * (x * x - z * z) }

  ghost function DoubleZ(x: int, z: int): (n: int) { 4 * x * z * (x * x + 486662 * x * z + z * z) }

  ghost function DoublePoint(p: Modulus, x: int, z: int): (r: (int, int)) { (DoubleX(x, z) % p, DoubleZ(x, z) % p) }

  // The x-coordinate of the sum of two points whose difference has the x-coordinate x1.
  ghost function SumX(x2: int, z2: int, x3: int, z3: int): (n: int)
  {
    var u := x2 * x3 - z2 * z3;
    4 * (u * u)
  }

  ghost function SumZ(x1: int, x2: int, z2: int, x3: int, z3: int): (n: int)
  {
    var v := x2 * z3 - z2 * x3;
    4 * (x1 * (v * v))
  }

  ghost function AddPoints(p: Modulus, x1: int, x2: int, z2: int, x3: int, z3: int): (r: (int, int))
  {
    (SumX(x2, z2, x3, z3) % p, SumZ(x1, x2, z2, x3, z3) % p)
  }

  lemma DoublingIdentity(x: int, z: int)
    ensures var aa, bb := (x + z) * (x + z), (x - z) * (x - z);
      && aa * bb == (x * x - z * z) * (x * x - z * z)
      && aa - bb == 4 * x * z
      && (aa - bb) * (aa + A24 * (aa - bb)) == 4 * x * z * (x * x + 486662 * x * z + z * z)
  {
    var aa, bb := (x + z) * (x + z), (x - z) * (x - z);
    assert aa == x * x + 2 * x * z + z * z;
    assert bb == x * x - 2 * x * z + z * z;
    assert (x + z) * (x - z) == x * x - z * z;
    assert aa * bb == ((x + z) * (x - z)) * ((x + z) * (x - z));
    assert aa + A24 * (aa - bb) == x * x + 486662 * x * z + z * z;
  }

  lemma AdditionIdentity(x2: int, z2: int, x3: int, z3: int)
    ensures var da, cb := (x3 - z3) * (x2 + z2), (x3 + z3) * (x2 - z2);
      && da + cb == 2 * (x2 * x3 - z2 * z3)
      && da - cb == -2 * (x2 * z3 - z2 * x3)
  {}

  lemma Squares(p: Modulus, x: int, z: int)
    ensures Congruent(Mul(p, Add(p, x, z), Add(p, x, z)), (x + z) * (x + z), p)
    ensures Congruent(Mul(p, Sub(p, x, z), Sub(p, x, z)), (x - z) * (x - z), p)
  {
    hide Mul, Add, Sub, Congruent;
    Itself(x, p);
    Itself(z, p);
    OfSum(p, x, z, x, z);
    OfProduct(p, Add(p, x, z), Add(p, x, z), x + z, x + z);
    OfProduct(p, Sub(p, x, z), Sub(p, x, z), x - z, x - z);
  }

  lemma FromSquares(p: Modulus, aa: int, bb: int, c: int, d: int)
    requires Congruent(aa, c, p) && Congruent(bb, d, p)
    ensures var e, f := Sub(p, aa, bb), c - d;
      Mul(p, aa, bb) == c * d % p && Mul(p, e, Add(p, aa, Mul(p, e, A24))) == f * (c + f * A24) % p
  {
    hide Mul, Add, Sub, Congruent;
    var e, f := Sub(p, aa, bb), c - d;
    OfSum(p, aa, bb, c, d);
    OfProduct(p, aa, bb, c, d);
    Itself(A24, p);
    OfProduct(p, e, A24, f, A24);
    OfSum(p, aa, Mul(p, e, A24), c, f * A24);
    OfProduct(p, e, Add(p, aa, Mul(p, e, A24)), f, c + f * A24);
  }

  lemma RungDoubles(p: Modulus, x: int, z: int)
    ensures var aa, bb := Mul(p, Add(p, x, z), Add(p, x, z)), Mul(p, Sub(p, x, z), Sub(p, x, z));
      var e := Sub(p, aa, bb);
      (Mul(p, aa, bb), Mul(p, e, Add(p, aa, Mul(p, e, A24)))) == DoublePoint(p, x, z)
  {
    hide Mul, Add, Sub, Congruent;
    Squares(p, x, z);
    FromSquares(p, Mul(p, Add(p, x, z), Add(p, x, z)), Mul(p, Sub(p, x, z), Sub(p, x, z)),
                (x + z) * (x + z), (x - z) * (x - z));
    DoublingIdentity(x, z);
  }

  lemma CrossProducts(p: Modulus, x2: int, z2: int, x3: int, z3: int)
    ensures Congruent(Mul(p, Sub(p, x3, z3), Add(p, x2, z2)), (x3 - z3) * (x2 + z2), p)
    ensures Congruent(Mul(p, Add(p, x3, z3), Sub(p, x2, z2)), (x3 + z3) * (x2 - z2), p)
  {
    hide Mul, Add, Sub, Congruent;
    Itself(x2, p);
    Itself(z2, p);
    Itself(x3, p);
    Itself(z3, p);
    OfSum(p, x2, z2, x2, z2);
    OfSum(p, x3, z3, x3, z3);
    OfProduct(p, Sub(p, x3, z3), Add(p, x2, z2), x3 - z3, x2 + z2);
    OfProduct(p, Add(p, x3, z3), Sub(p, x2, z2), x3 + z3, x2 - z2);
  }

  lemma SquaredSum(p: Modulus, x1: int, da: int, cb: int, c: int, d: int, u: int, v: int)
    requires Congruent(da, c, p) && Congruent(cb, d, p) && c + d == 2 * u && c - d == -2 * v
    ensures Mul(p, Add(p, da, cb), Add(p, da, cb)) == 4 * (u * u) % p
    ensures Mul(p, x1, Mul(p, Sub(p, da, cb), Sub(p, da, cb))) == 4 * (x1 * (v * v)) % p
  {
    hide Mul, Add, Sub, Congruent;
    OfSum(p, da, cb, c, d);
    OfProduct(p, Add(p, da, cb), Add(p, da, cb), c + d, c + d);
    OfProduct(p, Sub(p, da, cb), Sub(p, da, cb), c - d, c - d);
    Itself(x1, p);
    OfProduct(p, x1, Mul(p, Sub(p, da, cb), Sub(p, da, cb)), x1, (c - d) * (c - d));
    assert (2 * u) * (2 * u) == 4 * (u * u);
    FourSquares(x1, v);
  }

  lemma RungAdds(p: Modulus, x1: int, x2: int, z2: int, x3: int, z3: int)
    ensures var da, cb := Mul(p, Sub(p, x3, z3), Add(p, x2, z2)), Mul(p, Add(p, x3, z3), Sub(p, x2, z2));
      var s, t := Add(p, da, cb), Sub(p, da, cb);
      (Mul(p, s, s), Mul(p, x1, Mul(p, t, t))) == AddPoints(p, x1, x2, z2, x3, z3)
  {
    hide Mul, Add, Sub, Congruent;
    CrossProducts(p, x2, z2, x3, z3);
    AdditionIdentity(x2, z2, x3, z3);
    SquaredSum(p, x1, Mul(p, Sub(p, x3, z3), Add(p, x2, z2)), Mul(p, Add(p, x3, z3), Sub(p, x2, z2)),
               (x3 - z3) * (x2 + z2), (x3 + z3) * (x2 - z2), x2 * x3 - z2 * z3, x2 * z3 - z2 * x3);
  }

  lemma FourSquares(x1: int, v: int)
    ensures x1 * ((-2 * v) * (-2 * v)) == 4 * (x1 * (v * v))
  {
    assert (-2 * v) * (-2 * v) == 4 * (v * v);
  }

  // A rung doubles its first point and adds the two, with the difference of x-coordinate x1.
  lemma ClimbOnCurve(p: Modulus, x1: int, r: Rung)
    ensures var c := Climb(p, x1, r);
      && (c.x2, c.z2) == DoublePoint(p, r.x2, r.z2)
      && (c.x3, c.z3) == AddPoints(p, x1, r.x2, r.z2, r.x3, r.z3)
  {
    hide Mul, Add, Sub, DoublePoint, AddPoints;
    RungDoubles(p, r.x2, r.z2);
    RungAdds(p, x1, r.x2, r.z2, r.x3, r.z3);
  }

  // ---- the ladder computes multiples ----

  // n times and n + 1 times the point of x-coordinate x1, by halving n: an even multiple is a double,
  // an odd one the sum of two whose difference is the point itself.
  ghost function Multiples(p: Modulus, x1: int, n: nat): (r: ((int, int), (int, int)))
  {
    if n == 0 then ((1, 0), (x1, 1))
    else
      var (s, t) := Multiples(p, x1, n / 2);
      var sum := AddPoints(p, x1, s.0, s.1, t.0, t.1);
      if n % 2 == 0 then (DoublePoint(p, s.0, s.1), sum) else (sum, DoublePoint(p, t.0, t.1))
  }

  ghost function BitsFrom(k: nat, t: nat): (n: nat)
  {
    QuotientPositive(k, Pow2(t));
    k / Pow2(t)
  }

  lemma QuotientPositive(k: nat, p: nat)
    requires p > 0
    ensures k / p >= 0
  {}

  // Before its rung t the ladder holds the multiples by the bits from t on.
  lemma {:induction false} LadderMultiplies(p: Modulus, k: nat, x1: int, t: nat)
    requires t <= 255 && Pow2(254) <= k < Pow2(255)
    ensures var r := Ladder(p, k, x1, t); ((r.x2, r.z2), (r.x3, r.z3)) == Multiples(p, x1, BitsFrom(k, t))
    decreases 255 - t
  {
    hide Climb, DoublePoint, AddPoints, Pow2;
    if t == 255 {
      Unique(k, Pow2(255), 0, k);
    } else {
      LadderMultiplies(p, k, x1, t + 1);
      var r := Ladder(p, k, x1, t + 1);
      Twice(t);
      Split(k, Pow2(t), 2);
      Pow2Grows(t, 254);
      AtLeastOne(k, Pow2(t));
      if Bit(k, t) == 1 {
        ClimbOnCurve(p, x1, Exchange(r));
        AddedComm(p, x1, r.x3, r.z3, r.x2, r.z2);
      } else {
        ClimbOnCurve(p, x1, r);
      }
    }
  }

  lemma AddedComm(p: Modulus, x1: int, x2: int, z2: int, x3: int, z3: int)
    ensures AddPoints(p, x1, x2, z2, x3, z3) == AddPoints(p, x1, x3, z3, x2, z2)
  {
    var v, w := x2 * z3 - z2 * x3, x3 * z2 - z3 * x2;
    assert v == -w && v * v == w * w;
    assert x2 * x3 - z2 * z3 == x3 * x2 - z3 * z2;
  }

  lemma AtLeastOne(k: nat, p: nat)
    requires 0 < p <= k
    ensures k / p >= 1
  {}
}
