// When the coefficient matrix of the erasure code can be inverted.
module Vandermonde {
  import opened Numbers
  import opened ByteStrings
  import opened Gf256
  import opened GfTables
  import opened GfLinear

  // Row r holds the points raised to exps[r].
  ghost function Powers(exps: seq<nat>, points: Bytes): (a: Matrix)
    ensures Shape(a, |exps|, |points|)
  {
    seq(|exps|, r requires 0 <= r < |exps| =>
      seq(|points|, c requires 0 <= c < |points| => Pow(points[c], exps[r])))
  }

  ghost predicate Distinct(points: Bytes)
  {
    forall i, j :: 0 <= i < j < |points| ==> points[i] != points[j]
  }

  // The exponents are base, base + 1, ..., in any order.
  ghost predicate Consecutive(exps: seq<nat>, base: nat)
  {
    forall e :: base <= e < base + |exps| ==> e in exps
  }

  lemma {:induction false} PowZero(e: nat)
    ensures Pow(0, e) == if e == 0 then 1 else 0
  {
    if e > 0 { MulZero(Pow(0, e - 1)); }
  }

  lemma {:induction false} PowNonZero(x: Byte, e: nat)
    requires x != 0
    ensures Pow(x, e) != 0
  {
    hide Mul;
    if e > 0 {
      PowNonZero(x, e - 1);
      NoZeroDivisors(x, Pow(x, e - 1));
    }
  }

  // The polynomial with the given roots, at x.
  ghost function Vanish(roots: Bytes, x: Byte): (b: Byte)
  {
    if |roots| == 0 then 1
    else Mul(Vanish(roots[..|roots| - 1], x), Add(x, roots[|roots| - 1]))
  }

  lemma {:induction false} VanishZero(roots: Bytes, x: Byte)
    ensures Vanish(roots, x) == 0 <==> x in roots
  {
    hide Mul, Add;
    if |roots| > 0 {
      var init, last := roots[..|roots| - 1], roots[|roots| - 1];
      assert roots == init + [last];
      VanishZero(init, x);
      AddCancel(x, last);
      MulZero(Vanish(init, x));
      MulZero(Add(x, last));
      if Vanish(init, x) != 0 && Add(x, last) != 0 {
        NoZeroDivisors(Vanish(init, x), Add(x, last));
      }
    }
  }

  // x^k times that polynomial, at every point.
  ghost function VanishRow(roots: Bytes, k: nat, points: Bytes): (r: Bytes)
    ensures |r| == |points|
  {
    seq(|points|, c requires 0 <= c < |points| => Mul(Pow(points[c], k), Vanish(roots, points[c])))
  }

  lemma VanishTerm(p: Byte, w: Byte, x: Byte, a: Byte)
    ensures Mul(p, Mul(w, Add(x, a))) == Add(Mul(Mul(x, p), w), Mul(a, Mul(p, w)))
  {
    hide Mul, Add;
    MulAdd(w, x, a);
    MulAdd(p, Mul(w, x), Mul(w, a));
    MulComm(w, x);
    MulAssoc(p, x, w);
    MulComm(p, x);
    MulComm(w, a);
    MulAssoc(p, a, w);
    MulComm(p, a);
    MulAssoc(a, p, w);
  }

  lemma VanishRowStep(roots: Bytes, k: nat, points: Bytes)
    requires |roots| > 0
    ensures var init := roots[..|roots| - 1];
      VanishRow(roots, k, points)
        == Combine(VanishRow(init, k + 1, points), roots[|roots| - 1], VanishRow(init, k, points))
  {
    hide Mul, Add;
    var init, last := roots[..|roots| - 1], roots[|roots| - 1];
    forall c | 0 <= c < |points|
      ensures VanishRow(roots, k, points)[c]
        == Add(VanishRow(init, k + 1, points)[c], Mul(last, VanishRow(init, k, points)[c]))
    {
      VanishTerm(Pow(points[c], k), Vanish(init, points[c]), points[c], last);
    }
  }

  // Every polynomial of degree below m, times x^base, is orthogonal to a kernel vector.
  lemma {:induction false} Orthogonal(exps: seq<nat>, points: Bytes, base: nat, v: Bytes,
                                      roots: Bytes, k: nat)
    requires |exps| == |points| == |v| && Consecutive(exps, base)
    requires Solves(Powers(exps, points), Zeros(|v|), v)
    requires base <= k && k + |roots| < base + |exps|
    ensures Dot(VanishRow(roots, k, points), v, |v|) == 0
    decreases |roots|
  {
    hide Mul, Add, Dot, Pow;
    if |roots| == 0 {
      assert k in exps;
      var r :| 0 <= r < |exps| && exps[r] == k;
      assert VanishRow(roots, k, points) == Powers(exps, points)[r] by {
        forall c | 0 <= c < |points|
          ensures Mul(Pow(points[c], k), 1) == Pow(points[c], k)
        {
          MulOne(Pow(points[c], k));
        }
      }
    } else {
      var init, last := roots[..|roots| - 1], roots[|roots| - 1];
      Orthogonal(exps, points, base, v, init, k + 1);
      Orthogonal(exps, points, base, v, init, k);
      VanishRowStep(roots, k, points);
      DotCombine(VanishRow(init, k + 1, points), last, VanishRow(init, k, points), v, |v|);
      MulZero(last);
      AddZero(0);
    }
  }

  lemma KernelEntryZero(exps: seq<nat>, points: Bytes, base: nat, v: Bytes, i: nat)
    requires |exps| == |points| == |v| && Consecutive(exps, base) && Distinct(points)
    requires base == 0 || 0 !in points
    requires Solves(Powers(exps, points), Zeros(|v|), v)
    requires i < |v|
    ensures v[i] == 0
  {
    hide Mul, Add, Dot, Pow, Vanish, Solves;
    var roots := points[..i] + points[i + 1..];
    Orthogonal(exps, points, base, v, roots, base);
    var row := VanishRow(roots, base, points);
    forall c | 0 <= c < |v| && c != i
      ensures row[c] == 0
    {
      assert points[c] == roots[if c < i then c else c - 1];
      VanishZero(roots, points[c]);
      MulZero(Pow(points[c], base));
    }
    DotSingle(row, v, |v|, i);
    VanishZero(roots, points[i]);
    assert points[i] !in roots;
    if base == 0 { PowBase(points[i]); } else { PowNonZero(points[i], base); }
    NoZeroDivisors(Pow(points[i], base), Vanish(roots, points[i]));
    if v[i] != 0 { NoZeroDivisors(row[i], v[i]); }
  }

  lemma PowBase(x: Byte)
    ensures Pow(x, 0) == 1
  {}

  // Two equal points, or a zero point without the zeroth power: a vector in the kernel.
  lemma RepeatedPoint(exps: seq<nat>, points: Bytes, i: nat, j: nat) returns (v: Bytes)
    requires |exps| == |points| && i < j < |points| && points[i] == points[j]
    ensures |v| == |points| && v != Zeros(|v|)
    ensures Solves(Powers(exps, points), Zeros(|v|), v)
  {
    hide Mul, Add, Dot, Pow;
    var n := |points|;
    v := seq(n, c => if c == i || c == j then 1 else 0);
    assert v[i] != Zeros(n)[i];
    var a := Powers(exps, points);
    forall r | 0 <= r < n
      ensures Dot(a[r], v, n) == 0
    {
      DotTail(a[r], v, n, j + 1);
      DotSplit(a[r], v, j);
      DotSingle(a[r], v, j, i);
      MulOne(a[r][i]);
      AddSelf(a[r][i]);
    }
  }

  lemma DotSplit(row: Bytes, v: Bytes, n: nat)
    requires n < |row| && n < |v|
    ensures Dot(row, v, n + 1) == Add(Dot(row, v, n), Mul(row[n], v[n]))
  {}

  lemma ZeroPoint(exps: seq<nat>, points: Bytes, i: nat) returns (v: Bytes)
    requires |exps| == |points| && i < |points| && points[i] == 0 && 0 !in exps
    ensures |v| == |points| && v != Zeros(|v|)
    ensures Solves(Powers(exps, points), Zeros(|v|), v)
  {
    hide Mul, Add, Dot, Pow;
    var n := |points|;
    v := seq(n, c => if c == i then 1 else 0);
    assert v[i] != Zeros(n)[i];
    var a := Powers(exps, points);
    forall r | 0 <= r < n
      ensures Dot(a[r], v, n) == 0
    {
      PowZero(exps[r]);
      DotZeroVector(a[r], v, n);
    }
  }

  // A permutation of consecutive numbers contains nothing else.
  lemma ConsecutiveBounds(exps: seq<nat>, base: nat)
    requires Consecutive(exps, base)
    ensures forall e :: e in exps ==> base <= e < base + |exps|
  {
    var range := Range(base, base + |exps|);
    RangeSize(base, base + |exps|);
    var all := Elements(exps);
    ElementsSize(exps);
    if exists e :: e in exps && !(base <= e < base + |exps|) {
      var e :| e in exps && !(base <= e < base + |exps|);
      assert range + {e} <= all;
      SubsetSize(range + {e}, all);
    }
  }

  // With consecutive exponents, the matrix is invertible exactly when the points are
  // distinct and, unless the zeroth power is among the rows, none of them is zero.
  lemma ConsecutiveInvertible(exps: seq<nat>, points: Bytes, base: nat)
    requires |exps| == |points| && Consecutive(exps, base)
    ensures TrivialKernel(Powers(exps, points))
       <==> Distinct(points) && (base == 0 || 0 !in points)
  {
    hide Mul, Add, Dot, Pow, Vanish, Solves, Powers;
    var a := Powers(exps, points);
    if Distinct(points) && (base == 0 || 0 !in points) {
      forall v: Bytes | |v| == |a| && Solves(a, Zeros(|a|), v)
        ensures v == Zeros(|a|)
      {
        forall i | 0 <= i < |v|
          ensures v[i] == 0
        {
          KernelEntryZero(exps, points, base, v, i);
        }
      }
    } else if !Distinct(points) {
      var i, j :| 0 <= i < j < |points| && points[i] == points[j];
      var v := RepeatedPoint(exps, points, i, j);
    } else {
      var i :| 0 <= i < |points| && points[i] == 0;
      ConsecutiveBounds(exps, base);
      var v := ZeroPoint(exps, points, i);
    }
  }
}
