// The group law of the curve y^2 = x^3 + 486662 x^2 + x, modulo any number: doubling is the tangent
// construction, adding the chord construction.
module CurveLaw {
  import opened MontgomeryCurve

  const CURVE_A: int := 486662

  ghost predicate OnCurve(x: int, y: int, p: int) { Congruent(y * y, x * x * x + CURVE_A * x * x + x, p) }

  ghost function Cubic(x: int): (n: int) { x * x * x + CURVE_A * x * x + x }

  // Its derivative.
  ghost function Rise(x: int): (n: int) { 3 * x * x + 2 * CURVE_A * x + 1 }

  lemma CurveEquation(x: int, y: int, p: int)
    requires OnCurve(x, y, p)
    ensures Congruent(y * y, Cubic(x), p)
  {}

  lemma TangentIdentity(x: int)
    ensures Rise(x) * Rise(x) - (CURVE_A + 2 * x) * (4 * Cubic(x)) == (x * x - 1) * (x * x - 1)
  {}

  lemma DoubledAffine(x: int)
    ensures DoubleX(x, 1) == (x * x - 1) * (x * x - 1) && DoubleZ(x, 1) == 4 * Cubic(x)
  {}

  // With the slope of the tangent at a point of the curve, the x-coordinate u / w of twice the point:
  // u / w = slope^2 - A - 2 x.
  lemma DoubledIsTangent(x: int, y: int, slope: int, p: int)
    requires OnCurve(x, y, p) && Congruent(2 * y * slope, 3 * x * x + 2 * CURVE_A * x + 1, p)
    ensures var u, w := DoubleX(x, 1), DoubleZ(x, 1);
      Congruent(slope * slope * w, (CURVE_A + 2 * x) * w + u, p) && Congruent(w, 4 * (y * y), p)
  {
    CurveEquation(x, y, p);
    assert Congruent(2 * y * slope, Rise(x), p);
    hide OnCurve, Congruent, Cubic, Rise;
    TangentIdentity(x);
    DoubledAffine(x);
    hide DoubleX, DoubleZ;
    TangentMeets(CURVE_A + 2 * x, slope, y, DoubleX(x, 1), Cubic(x), Rise(x), p);
  }

  lemma TangentMeets(n: int, slope: int, y: int, u: int, f: int, s: int, p: int)
    requires Congruent(y * y, f, p) && Congruent(2 * y * slope, s, p) && s * s - n * (4 * f) == u
    ensures Congruent(slope * slope * (4 * f), n * (4 * f) + u, p) && Congruent(4 * f, 4 * (y * y), p)
  {
    hide Congruent;
    Itself(4, p);
    Products(4, y * y, 4, f, p);
    Reversed(4 * (y * y), 4 * f, p);
    Itself(slope * slope, p);
    Products(slope * slope, 4 * f, slope * slope, 4 * (y * y), p);
    SlopeSquared(slope, y);
    Products(2 * y * slope, 2 * y * slope, s, s, p);
    Linked(slope * slope * (4 * f), slope * slope * (4 * (y * y)), s * s, p);
  }

  lemma SlopeSquared(slope: int, y: int)
    ensures 2 * y * slope * (2 * y * slope) == slope * slope * (4 * (y * y))
  {}

  lemma SquareOfSum(x: int, y: int, a: int)
    ensures (x + a * y) * (x + a * y) == x * x + a * (2 * (x * y)) + a * a * (y * y)
  {}

  lemma SumTimesSum(a: int, s: int, x: int, y: int)
    ensures (a + s) * (x + a * y) == s * x + a * (x + s * y) + a * a * y
  {}

  lemma SumSquaredTimes(a: int, s: int, d: int)
    ensures (a + s) * (a + s) * d == s * s * d + a * (2 * (s * d)) + a * a * d
  {}

  lemma Quadratic(a: int, b: int, c: int, b': int, c': int, b'': int, c'': int)
    requires b - 2 * b' + b'' == 0 && c - 2 * c' + c'' == 0
    ensures a * b + a * a * c - 2 * (a * b' + a * a * c') + a * b'' + a * a * c'' == 0
  {
    assert a * (b - 2 * b' + b'') == a * b - 2 * (a * b') + a * b'';
    assert a * a * (c - 2 * c' + c'') == a * a * c - 2 * (a * a * c') + a * a * c'';
  }

  lemma Assembled(a: int, s: int, g: int, f: int, h: int, d: int, q: int)
    requires g * g - 2 * (s * f) + s * s * d == q
    requires 2 * (g * s) - 2 * (f + s * h) + 2 * (s * d) == 0 && s * s - 2 * h + d == 0
    ensures (g + a * s) * (g + a * s) - 2 * ((a + s) * (f + a * h)) + (a + s) * (a + s) * d == q
  {
    SquareOfSum(g, s, a);
    SumTimesSum(a, s, f, h);
    SumSquaredTimes(a, s, d);
    Quadratic(a, 2 * (g * s), s * s, f + s * h, h, 2 * (s * d), d);
  }

  // In the sum s and the product p of two x-coordinates.
  lemma ChordIdentity(s: int, p: int, a: int, g: int, f: int, d: int)
    requires g == s * s - p + 1 + a * s && f == s * s * s - 3 * p * s + s + a * (s * s - 2 * p)
    requires d == s * s - 4 * p
    ensures g * g - 2 * ((a + s) * f) + (a + s) * (a + s) * d == (p - 1) * (p - 1)
  {
    var g0, f0, h := s * s - p + 1, s * s * s - 3 * p * s + s, s * s - 2 * p;
    ChordConstant(s, p, g0, f0, d);
    ChordLinear(s, p, g0, f0, h, d);
    Assembled(a, s, g0, f0, h, d, (p - 1) * (p - 1));
  }

  lemma ChordConstant(s: int, p: int, g: int, f: int, d: int)
    requires g == s * s - p + 1 && f == s * s * s - 3 * p * s + s && d == s * s - 4 * p
    ensures g * g - 2 * (s * f) + s * s * d == (p - 1) * (p - 1)
  {}

  lemma ChordLinear(s: int, p: int, g: int, f: int, h: int, d: int)
    requires g == s * s - p + 1 && f == s * s * s - 3 * p * s + s && h == s * s - 2 * p && d == s * s - 4 * p
    ensures 2 * (g * s) - 2 * (f + s * h) + 2 * (s * d) == 0
    ensures s * s - 2 * h + d == 0
  {}

  lemma CubicSums(x: int, w: int)
    ensures var s, p, e := x + w, x * w, w - x;
      && Cubic(w) - Cubic(x) == e * (s * s - p + 1 + CURVE_A * s)
      && Cubic(x) + Cubic(w) == s * s * s - 3 * p * s + s + CURVE_A * (s * s - 2 * p)
      && e * e == s * s - 4 * p
  {
    SquareSums(x, w);
    Difference(x, w, CURVE_A);
    CubeOfSum(x, w);
    CubicTerms(x, w, CURVE_A);
    CubeTerm(x + w, x * w);
  }

  lemma SquareSums(x: int, w: int)
    ensures (x + w) * (x + w) - 2 * (x * w) == x * x + w * w
    ensures (w - x) * (w - x) == (x + w) * (x + w) - 4 * (x * w)
  {}

  lemma CubeTerm(s: int, p: int)
    ensures 3 * p * s == 3 * (p * s)
  {}

  lemma CubicTerms(x: int, w: int, a: int)
    ensures a * x * x + a * w * w == a * (x * x + w * w)
  {}

  lemma Difference(x: int, w: int, a: int)
    ensures var s, p, e := x + w, x * w, w - x;
      w * w * w + a * w * w + w - (x * x * x + a * x * x + x) == e * (s * s - p + 1 + a * s)
  {
    var s, p, e := x + w, x * w, w - x;
    DifferenceOfPowers(x, w);
    Spread(e, s * s - p, a, s);
    ScaledDifference(a, x, w);
  }

  lemma DifferenceOfPowers(x: int, w: int)
    ensures (w - x) * ((x + w) * (x + w) - x * w) == w * w * w - x * x * x
    ensures (w - x) * (x + w) == w * w - x * x
  {}

  lemma ScaledDifference(a: int, x: int, w: int)
    ensures a * (w * w - x * x) == a * w * w - a * x * x
  {}

  lemma Spread(e: int, q: int, a: int, s: int)
    ensures e * (q + 1 + a * s) == e * q + e + a * (e * s)
  {}

  lemma CubeOfSum(x: int, w: int)
    ensures (x + w) * (x + w) * (x + w) == x * x * x + w * w * w + 3 * (x * w * (x + w))
  {}

  // The product of the two chord constructions, before division by the square of e.
  lemma ChordProduct(y: int, z: int, te: int)
    ensures ((z - y) * (z - y) - te) * ((z + y) * (z + y) - te)
         == (z * z - y * y) * (z * z - y * y) - 2 * (te * (y * y + z * z)) + te * te
  {
    var a, b := (z - y) * (z - y), (z + y) * (z + y);
    assert a + b == 2 * (y * y + z * z);
    assert (z - y) * (z + y) == z * z - y * y;
    assert a * b == ((z - y) * (z + y)) * ((z - y) * (z + y)) by { FourFactors(z - y, z + y); }
    assert (a - te) * (b - te) == a * b - te * (a + b) + te * te;
  }

  lemma FourFactors(a: int, b: int)
    ensures a * a * (b * b) == a * b * (a * b)
  {}

  lemma ChordOnCurve(x: int, w: int)
    ensures var s, p, e := x + w, x * w, w - x; var te := (CURVE_A + s) * (e * e);
      var df, sf := Cubic(w) - Cubic(x), Cubic(x) + Cubic(w);
      df * df - 2 * (te * sf) + te * te == e * e * ((p - 1) * (p - 1))
  {
    hide Cubic;
    var s, p, e := x + w, x * w, w - x;
    var g, sf := s * s - p + 1 + CURVE_A * s, Cubic(x) + Cubic(w);
    CubicSums(x, w);
    ChordIdentity(s, p, CURVE_A, g, sf, e * e);
    Concluded(e, g, e * e, CURVE_A + s, sf, (p - 1) * (p - 1), Cubic(w) - Cubic(x), (CURVE_A + s) * (e * e));
  }

  lemma Concluded(e: int, g: int, d: int, t: int, sf: int, q: int, df: int, te: int)
    requires d == e * e && g * g - 2 * (t * sf) + t * t * d == q && df == e * g && te == t * d
    ensures df * df - 2 * (te * sf) + te * te == d * q
  {
    FourFactors(e, g);
    Factor(d, g * g, t, sf);
  }

  lemma Factor(d: int, gg: int, t: int, sf: int)
    ensures d * gg - 2 * (t * d * sf) + t * d * (t * d) == d * (gg - 2 * (t * sf) + t * t * d)
  {
    assert t * d * sf == d * (t * sf);
    assert t * d * (t * d) == d * (t * t * d);
  }

  // With the slope of the line through a point and another, less the abscissas: the third point.
  lemma ThirdPoint(slope: int, e: int, dy: int, t: int, p: int)
    requires Congruent(slope * e, dy, p)
    ensures Congruent(e * e * (slope * slope - t), dy * dy - t * (e * e), p)
  {
    hide Congruent;
    Products(slope * e, slope * e, dy, dy, p);
    Itself(t * (e * e), p);
    Sums(slope * e * (slope * e), t * (e * e), dy * dy, t * (e * e), p);
    FourFactors(slope, e);
    assert e * e * (slope * slope - t) == slope * slope * (e * e) - t * (e * e);
  }

  lemma ChordsMeet(x: int, y: int, w: int, z: int, third: int, other: int, p: int)
    requires OnCurve(x, y, p) && OnCurve(w, z, p)
    requires var e, t := w - x, CURVE_A + x + w;
      && Congruent(e * e * third, (z - y) * (z - y) - t * (e * e), p)
      && Congruent(e * e * other, (z + y) * (z + y) - t * (e * e), p)
    ensures var e := w - x; Congruent(e * e * third * (e * e * other), e * e * ((x * w - 1) * (x * w - 1)), p)
  {
    hide Congruent, Cubic;
    var e, te := w - x, (CURVE_A + (x + w)) * ((w - x) * (w - x));
    var yy, zz, f, h := y * y, z * z, Cubic(x), Cubic(w);
    assert Congruent(yy, f, p) && Congruent(zz, h, p) by { CurveEquation(x, y, p); CurveEquation(w, z, p); }
    Products(e * e * third, e * e * other, (z - y) * (z - y) - te, (z + y) * (z + y) - te, p);
    ChordProduct(y, z, te);
    Sums(zz, yy, h, f, p);
    Sums(yy, zz, f, h, p);
    Products(zz - yy, zz - yy, h - f, h - f, p);
    Itself(te, p);
    Products(te, yy + zz, te, f + h, p);
    Itself(2, p);
    Products(2, te * (yy + zz), 2, te * (f + h), p);
    Sums((zz - yy) * (zz - yy), 2 * (te * (yy + zz)), (h - f) * (h - f), 2 * (te * (f + h)), p);
    Itself(te * te, p);
    Sums((zz - yy) * (zz - yy) - 2 * (te * (yy + zz)), te * te, (h - f) * (h - f) - 2 * (te * (f + h)), te * te, p);
    ChordOnCurve(x, w);
    Linked(e * e * third * (e * e * other), ((z - y) * (z - y) - te) * ((z + y) * (z + y) - te),
           e * e * ((x * w - 1) * (x * w - 1)), p);
  }

  // With the slopes of the chords to the second point and to its opposite, whose third point has the
  // abscissa x1: the abscissa of the sum, both sides multiplied by the square of the difference.
  lemma AddedIsChord(x1: int, x: int, y: int, w: int, z: int, slope: int, opposite: int, p: int)
    requires OnCurve(x, y, p) && OnCurve(w, z, p)
    requires Congruent(slope * (w - x), z - y, p) && Congruent(opposite * (w - x), z + y, p)
    requires Congruent(x1, opposite * opposite - CURVE_A - x - w, p)
    ensures var u, v, e := SumX(x, 1, w, 1), SumZ(x1, x, 1, w, 1), w - x;
      Congruent(e * e * ((slope * slope - CURVE_A - x - w) * v), e * e * u, p)
  {
    hide Congruent, OnCurve;
    var e, t := w - x, CURVE_A + x + w;
    var third, other := slope * slope - t, opposite * opposite - t;
    ThirdPoint(slope, e, z - y, t, p);
    ThirdPoint(opposite, e, z + y, t, p);
    ChordsMeet(x, y, w, z, third, other, p);
    AddedAffine(x1, x, w);
    hide SumX, SumZ;
    ChordsConclude(e, third, other, x1, SumX(x, 1, w, 1), SumZ(x1, x, 1, w, 1), (x * w - 1) * (x * w - 1), p);
  }

  lemma ChordsConclude(e: int, third: int, other: int, x1: int, u: int, v: int, qq: int, p: int)
    requires Congruent(e * e * third * (e * e * other), e * e * qq, p) && Congruent(x1, other, p)
    requires u == 4 * qq && v == 4 * (e * e) * x1
    ensures Congruent(e * e * (third * v), e * e * u, p)
  {
    hide Congruent;
    Itself(4 * (e * e), p);
    Products(4 * (e * e), x1, 4 * (e * e), other, p);
    Itself(e * e * third, p);
    Products(e * e * third, v, e * e * third, 4 * (e * e) * other, p);
    Itself(4, p);
    Products(4, e * e * third * (e * e * other), 4, e * e * qq, p);
    Regrouped(e * e, third, other, v, qq);
    Linked(e * e * third * v, 4 * (e * e * third * (e * e * other)), 4 * (e * e * qq), p);
  }

  lemma Regrouped(d: int, third: int, other: int, v: int, qq: int)
    ensures d * third * (4 * d * other) == 4 * (d * third * (d * other))
    ensures 4 * (d * qq) == d * (4 * qq)
    ensures d * third * v == d * (third * v)
  {}

  lemma AddedAffine(x1: int, x: int, w: int)
    ensures var q, e := x * w - 1, w - x; SumX(x, 1, w, 1) == 4 * (q * q) && SumZ(x1, x, 1, w, 1) == 4 * (e * e) * x1
  {
    Flipped(x - w, x1);
  }

  lemma Flipped(v: int, x1: int)
    ensures 4 * (x1 * (v * v)) == 4 * ((-v) * (-v)) * x1
  {
    assert (-v) * (-v) == v * v;
  }
}
