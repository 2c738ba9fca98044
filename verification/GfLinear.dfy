// Linear systems over GF(2^8): Gauss-Jordan elimination as src/fec.cpp runs it.
module GfLinear {
  import opened Options
  import opened ByteStrings
  import opened Gf256
  import opened GfTables

  // ---- inner products ----

  ghost function Dot(row: Bytes, v: Bytes, n: nat): (b: Byte)
    requires n <= |row| && n <= |v|
  {
    if n == 0 then 0 else Add(Dot(row, v, n - 1), Mul(row[n - 1], v[n - 1]))
  }

  ghost function Scale(row: Bytes, k: Byte): (r: Bytes)
    ensures |r| == |row|
  {
    seq(|row|, j requires 0 <= j < |row| => Mul(row[j], k))
  }

  // row + f * pivot
  ghost function Combine(row: Bytes, f: Byte, pivot: Bytes): (r: Bytes)
    requires |row| == |pivot|
    ensures |r| == |row|
  {
    seq(|row|, j requires 0 <= j < |row| => Add(row[j], Mul(f, pivot[j])))
  }

  lemma {:induction false} DotScale(row: Bytes, k: Byte, v: Bytes, n: nat)
    requires n <= |row| && n <= |v|
    ensures Dot(Scale(row, k), v, n) == Mul(k, Dot(row, v, n))
  {
    hide Mul, Add;
    if n == 0 {
      MulZero(k);
    } else {
      DotScale(row, k, v, n - 1);
      var a, x := row[n - 1], v[n - 1];
      MulAdd(k, Dot(row, v, n - 1), Mul(a, x));
      MulComm(a, k);
      MulAssoc(k, a, x);
    }
  }

  lemma {:induction false} DotCombine(row: Bytes, f: Byte, pivot: Bytes, v: Bytes, n: nat)
    requires |row| == |pivot| && n <= |row| && n <= |v|
    ensures Dot(Combine(row, f, pivot), v, n) == Add(Dot(row, v, n), Mul(f, Dot(pivot, v, n)))
  {
    hide Mul, Add;
    if n == 0 {
      MulZero(f);
      AddZero(0);
    } else {
      DotCombine(row, f, pivot, v, n - 1);
      var a, p, x := row[n - 1], pivot[n - 1], v[n - 1];
      var d, e := Dot(row, v, n - 1), Dot(pivot, v, n - 1);
      MulAdd(x, a, Mul(f, p));
      MulAdd(f, e, Mul(p, x));
      MulAssoc(f, p, x);
      AddSwap(d, Mul(f, e), Mul(a, x), Mul(f, Mul(p, x)));
    }
  }

  lemma {:induction false} DotZeroVector(row: Bytes, v: Bytes, n: nat)
    requires n <= |row| && n <= |v|
    requires forall j :: 0 <= j < n ==> row[j] == 0 || v[j] == 0
    ensures Dot(row, v, n) == 0
  {
    hide Mul, Add;
    if n > 0 {
      DotZeroVector(row, v, n - 1);
      MulZero(row[n - 1]);
      MulZero(v[n - 1]);
      AddZero(0);
    }
  }

  // A row with a single non-zero product picks out that product.
  lemma {:induction false} DotSingle(row: Bytes, v: Bytes, n: nat, i: nat)
    requires i < n <= |row| && n <= |v|
    requires forall j :: 0 <= j < n && j != i ==> row[j] == 0 || v[j] == 0
    ensures Dot(row, v, n) == Mul(row[i], v[i])
  {
    hide Mul, Add;
    if i == n - 1 {
      DotZeroVector(row, v, n - 1);
      AddZero(Mul(row[i], v[i]));
    } else {
      DotSingle(row, v, n - 1, i);
      MulZero(row[n - 1]);
      MulZero(v[n - 1]);
      AddZero(Mul(row[i], v[i]));
    }
  }

  // ---- systems of equations ----

  type Matrix = seq<Bytes>

  ghost predicate Shape(a: Matrix, rows: nat, cols: nat)
  {
    |a| == rows && forall r :: 0 <= r < rows ==> |a[r]| == cols
  }

  // a * v == t
  ghost predicate Solves(a: Matrix, t: Bytes, v: Bytes)
    requires Shape(a, |a|, |v|) && |t| == |a|
  {
    forall r :: 0 <= r < |a| ==> Dot(a[r], v, |v|) == t[r]
  }

  // Column k of the right-hand sides.
  ghost function Col(s: Matrix, width: nat, k: nat): (c: Bytes)
    requires Shape(s, |s|, width) && k < width
    ensures |c| == |s|
  {
    seq(|s|, r requires 0 <= r < |s| => s[r][k])
  }

  ghost function Swap<T>(x: seq<T>, i: nat, j: nat): (y: seq<T>)
    requires i < |x| && j < |x|
    ensures |y| == |x|
  {
    x[i := x[j]][j := x[i]]
  }

  ghost function Pivot(a: Matrix, col: nat, from: nat): (p: nat)
    requires Shape(a, |a|, |a|) && col < |a| && from <= |a|
    ensures from <= p <= |a|
    ensures p < |a| ==> a[p][col] != 0
    ensures forall r :: from <= r < p ==> a[r][col] == 0
    decreases |a| - from
  {
    if from == |a| || a[from][col] != 0 then from else Pivot(a, col, from + 1)
  }

  ghost function Inv(a: Byte): (r: Byte)
    requires a != 0
    ensures Mul(a, r) == 1
  {
    hide Mul, Gen;
    GenMul(Log(a), 255 - Log(a));
    GeneratorOrder();
    Gen(255 - Log(a))
  }

  lemma InvUnique(a: Byte, r: Byte)
    requires a != 0 && Mul(a, r) == 1
    ensures r == Inv(a)
  {
    hide Mul;
    var i := Inv(a);
    MulAssoc(i, a, r);
    MulComm(i, a);
    MulOne(r);
    MulOne(i);
  }

  // Subtract multiples of the pivot row from every other row.
  ghost function Clear(x: Matrix, coefs: Matrix, col: nat, width: nat): (y: Matrix)
    requires Shape(x, |x|, width) && Shape(coefs, |x|, |x|) && col < |x|
    ensures Shape(y, |x|, width)
  {
    seq(|x|, r requires 0 <= r < |x| =>
      if r == col then x[r] else Combine(x[r], coefs[r][col], x[col]))
  }

  // One column of the elimination, on the matrix and on any right-hand sides.
  ghost function Step(x: Matrix, a: Matrix, p: nat, col: nat, width: nat): (y: Matrix)
    requires Shape(x, |x|, width) && Shape(a, |x|, |x|) && col <= p < |x| && a[p][col] != 0
    ensures Shape(y, |x|, width)
  {
    var inv := Inv(a[p][col]);
    var x1 := Swap(x, p, col);
    var a1 := Swap(a, p, col);
    Clear(x1[col := Scale(x1[col], inv)], a1, col, width)
  }

  // Elimination from column col on: the reduced right-hand sides, or None when some
  // column has no pivot.
  ghost function GaussJordan(a: Matrix, s: Matrix, col: nat, width: nat): (r: Option<Matrix>)
    requires Shape(a, |a|, |a|) && Shape(s, |a|, width) && col <= |a|
    ensures r.Some? ==> Shape(r.value, |a|, width)
    decreases |a| - col
  {
    if col == |a| then Some(s)
    else
      var p := Pivot(a, col, col);
      if p == |a| then None
      else GaussJordan(Step(a, a, p, col, |a|), Step(s, a, p, col, width), col + 1, width)
  }

  // ---- elimination preserves the solutions ----

  lemma MulCancel(a: Byte, x: Byte, y: Byte)
    requires a != 0 && Mul(a, x) == Mul(a, y)
    ensures x == y
  {
    hide Mul;
    var i := Inv(a);
    MulComm(i, a);
    MulAssoc(i, a, x);
    MulAssoc(i, a, y);
    MulOne(x);
    MulOne(y);
  }

  lemma InvNonZero(a: Byte)
    requires a != 0
    ensures Inv(a) != 0
  {
    hide Mul;
    MulZero(a);
  }

  lemma AddCancelLeft(c: Byte, x: Byte, y: Byte)
    requires Add(x, c) == Add(y, c)
    ensures x == y
  {
    hide Add;
    AddCancel(x, c);
    AddCancel(y, c);
  }

  ghost predicate RowHolds(a: Matrix, t: Bytes, v: Bytes, r: nat)
    requires Shape(a, |a|, |v|) && |t| == |a| && r < |a|
  {
    Dot(a[r], v, |v|) == t[r]
  }

  lemma SwapSolves(a: Matrix, t: Bytes, v: Bytes, i: nat, j: nat)
    requires Shape(a, |a|, |v|) && |t| == |a| && i < |a| && j < |a|
    ensures Shape(Swap(a, i, j), |a|, |v|)
    ensures Solves(a, t, v) <==> Solves(Swap(a, i, j), Swap(t, i, j), v)
  {
    hide Dot;
    var b, u := Swap(a, i, j), Swap(t, i, j);
    assert forall r :: 0 <= r < |a| ==> b[r] == a[if r == i then j else if r == j then i else r];
    assert forall r :: 0 <= r < |a| ==> u[r] == t[if r == i then j else if r == j then i else r];
    if Solves(b, u, v) {
      forall r | 0 <= r < |a|
        ensures Dot(a[r], v, |v|) == t[r]
      {
        var q := if r == i then j else if r == j then i else r;
        assert Dot(b[q], v, |v|) == u[q];
      }
    }
  }

  // Normalising the pivot row, then clearing the column.
  ghost function Reduce(x: Matrix, a: Matrix, col: nat, inv: Byte, width: nat): (y: Matrix)
    requires Shape(x, |x|, width) && Shape(a, |x|, |x|) && col < |x|
    ensures Shape(y, |x|, width)
  {
    Clear(x[col := Scale(x[col], inv)], a, col, width)
  }

  lemma ReduceSolves(a: Matrix, s: Matrix, col: nat, inv: Byte, width: nat, k: nat, v: Bytes)
    requires Shape(a, |a|, |a|) && Shape(s, |a|, width) && col < |a| && k < width && |v| == |a|
    requires inv != 0
    ensures Solves(a, Col(s, width, k), v)
       <==> Solves(Reduce(a, a, col, inv, |a|), Col(Reduce(s, a, col, inv, width), width, k), v)
  {
    hide Dot, Mul, Add;
    var n := |a|;
    var t := Col(s, width, k);
    var b := Reduce(a, a, col, inv, n);
    var s' := Reduce(s, a, col, inv, width);
    var u := Col(s', width, k);
    ReduceRow(a, s, col, inv, width, k, v);
    assert RowHolds(a, t, v, col) <==> RowHolds(b, u, v, col);
    forall r | 0 <= r < n && r != col && RowHolds(b, u, v, col)
      ensures RowHolds(a, t, v, r) <==> RowHolds(b, u, v, r)
    {
      ReduceOther(a, s, col, inv, width, k, v, r);
    }
    if Solves(a, t, v) {
      assert RowHolds(a, t, v, col);
      forall r | 0 <= r < n
        ensures Dot(b[r], v, n) == u[r]
      {
        assert RowHolds(a, t, v, r);
        assert RowHolds(b, u, v, r);
      }
    }
    if Solves(b, u, v) {
      assert RowHolds(b, u, v, col);
      forall r | 0 <= r < n
        ensures Dot(a[r], v, n) == t[r]
      {
        assert RowHolds(b, u, v, r);
        assert RowHolds(a, t, v, r);
      }
    }
  }

  lemma ReduceRow(a: Matrix, s: Matrix, col: nat, inv: Byte, width: nat, k: nat, v: Bytes)
    requires Shape(a, |a|, |a|) && Shape(s, |a|, width) && col < |a| && k < width && |v| == |a|
    requires inv != 0
    ensures RowHolds(a, Col(s, width, k), v, col)
       <==> RowHolds(Reduce(a, a, col, inv, |a|), Col(Reduce(s, a, col, inv, width), width, k), v, col)
  {
    hide Dot, Mul, Add;
    DotScale(a[col], inv, v, |v|);
    MulComm(s[col][k], inv);
    if Mul(inv, Dot(a[col], v, |v|)) == Mul(inv, s[col][k]) {
      MulCancel(inv, Dot(a[col], v, |v|), s[col][k]);
    }
  }

  lemma ReduceOther(a: Matrix, s: Matrix, col: nat, inv: Byte, width: nat, k: nat, v: Bytes, r: nat)
    requires Shape(a, |a|, |a|) && Shape(s, |a|, width) && col < |a| && k < width && |v| == |a|
    requires r < |a| && r != col
    requires RowHolds(Reduce(a, a, col, inv, |a|), Col(Reduce(s, a, col, inv, width), width, k), v, col)
    ensures RowHolds(a, Col(s, width, k), v, r)
       <==> RowHolds(Reduce(a, a, col, inv, |a|), Col(Reduce(s, a, col, inv, width), width, k), v, r)
  {
    hide Dot, Mul, Add;
    var f := a[r][col];
    var pivot := Scale(a[col], inv);
    DotCombine(a[r], f, pivot, v, |v|);
    var d := Dot(a[r], v, |v|);
    var c := Mul(f, Dot(pivot, v, |v|));
    assert Dot(pivot, v, |v|) == Mul(s[col][k], inv);
    if Add(d, c) == Add(s[r][k], c) { AddCancelLeft(c, d, s[r][k]); }
  }

  lemma StepSolves(a: Matrix, s: Matrix, p: nat, col: nat, width: nat, k: nat, v: Bytes)
    requires Shape(a, |a|, |a|) && Shape(s, |a|, width) && k < width && |v| == |a|
    requires col <= p < |a| && a[p][col] != 0
    ensures Solves(a, Col(s, width, k), v)
       <==> Solves(Step(a, a, p, col, |a|), Col(Step(s, a, p, col, width), width, k), v)
  {
    hide Dot, Mul, Add;
    var inv := Inv(a[p][col]);
    InvNonZero(a[p][col]);
    var a1, s1 := Swap(a, p, col), Swap(s, p, col);
    SwapSolves(a, Col(s, width, k), v, p, col);
    assert Swap(Col(s, width, k), p, col) == Col(s1, width, k);
    ReduceSolves(a1, s1, col, inv, width, k, v);
    assert Step(a, a, p, col, |a|) == Reduce(a1, a1, col, inv, |a|);
    assert Step(s, a, p, col, width) == Reduce(s1, a1, col, inv, width);
  }

  // ---- the matrix after each column ----

  // Columns below col are those of the identity.
  ghost predicate Reduced(a: Matrix, col: nat)
    requires Shape(a, |a|, |a|) && col <= |a|
  {
    forall r, j :: 0 <= r < |a| && 0 <= j < col ==> a[r][j] == if r == j then 1 else 0
  }

  lemma StepReduced(a: Matrix, p: nat, col: nat)
    requires Shape(a, |a|, |a|) && col <= p < |a| && a[p][col] != 0
    requires Reduced(a, col)
    ensures Reduced(Step(a, a, p, col, |a|), col + 1)
  {
    hide Mul, Add;
    var inv := Inv(a[p][col]);
    var a1 := Swap(a, p, col);
    assert Reduced(a1, col);
    var b := Step(a, a, p, col, |a|);
    forall r, j | 0 <= r < |a| && 0 <= j < col + 1
      ensures b[r][j] == if r == j then 1 else 0
    {
      var q := Mul(a1[col][j], inv);
      if j < col {
        MulZero(inv);
        MulZero(a1[r][col]);
        AddZero(a1[r][j]);
      } else {
        assert q == 1;
        MulOne(a1[r][col]);
        AddSelf(a1[r][col]);
      }
    }
  }

  lemma SolvesIdentity(a: Matrix, t: Bytes, v: Bytes)
    requires Shape(a, |a|, |a|) && |t| == |a| == |v| && Reduced(a, |a|)
    ensures Solves(a, t, v) <==> v == t
  {
    hide Dot, Mul;
    forall r | 0 <= r < |a|
      ensures Dot(a[r], v, |v|) == v[r]
    {
      DotSingle(a[r], v, |v|, r);
      MulOne(v[r]);
    }
  }

  ghost predicate TrivialKernel(a: Matrix)
    requires Shape(a, |a|, |a|)
  {
    forall v: Bytes :: |v| == |a| && Solves(a, Zeros(|a|), v) ==> v == Zeros(|a|)
  }

  // A column without a pivot gives a non-zero vector that the matrix sends to zero.
  lemma NoPivotKernel(a: Matrix, col: nat) returns (v: Bytes)
    requires Shape(a, |a|, |a|) && col < |a| && Reduced(a, col)
    requires forall r :: col <= r < |a| ==> a[r][col] == 0
    ensures |v| == |a| && v != Zeros(|a|) && Solves(a, Zeros(|a|), v)
  {
    hide Dot, Mul, Add;
    var n := |a|;
    v := seq(n, j requires 0 <= j < n => if j < col then a[j][col] else if j == col then 1 else 0);
    assert v[col] != Zeros(n)[col];
    forall r | 0 <= r < n
      ensures Dot(a[r], v, n) == 0
    {
      NoPivotRow(a, col, v, r);
    }
  }

  lemma {:induction false} DotAgree(row: Bytes, v: Bytes, w: Bytes, n: nat)
    requires n <= |row| && n <= |v| && n <= |w|
    requires forall j :: 0 <= j < n ==> v[j] == w[j]
    ensures Dot(row, v, n) == Dot(row, w, n)
  {
    hide Mul, Add;
    if n > 0 { DotAgree(row, v, w, n - 1); }
  }

  lemma {:induction false} DotTail(row: Bytes, v: Bytes, n: nat, k: nat)
    requires k <= n <= |row| && n <= |v|
    requires forall j :: k <= j < n ==> row[j] == 0 || v[j] == 0
    ensures Dot(row, v, n) == Dot(row, v, k)
    decreases n
  {
    hide Mul, Add;
    if n > k {
      DotTail(row, v, n - 1, k);
      MulZero(row[n - 1]);
      MulZero(v[n - 1]);
      AddZero(Dot(row, v, k));
    }
  }

  lemma NoPivotRow(a: Matrix, col: nat, v: Bytes, r: nat)
    requires Shape(a, |a|, |a|) && col < |a| && Reduced(a, col) && |v| == |a| && r < |a|
    requires forall i :: col <= i < |a| ==> a[i][col] == 0
    requires forall j :: 0 <= j < |a| ==>
      v[j] == if j < col then a[j][col] else if j == col then 1 else 0
    ensures Dot(a[r], v, |a|) == 0
  {
    hide Mul, Add;
    var n := |a|;
    DotTail(a[r], v, n, col + 1);
    MulOne(a[r][col]);
    assert Dot(a[r], v, col + 1) == Add(Dot(a[r], v, col), a[r][col]);
    if r < col {
      DotSingle(a[r], v, col, r);
      MulOne(v[r]);
      AddSelf(v[r]);
    } else {
      DotZeroVector(a[r], v, col);
      AddZero(0);
    }
  }

  lemma StepZeros(a: Matrix, p: nat, col: nat)
    requires Shape(a, |a|, |a|) && col <= p < |a| && a[p][col] != 0
    ensures var z := seq(|a|, _ => Zeros(1));
      Col(Step(z, a, p, col, 1), 1, 0) == Zeros(|a|)
  {
    hide Mul, Add;
    var z := seq(|a|, _ => Zeros(1));
    var a1 := Swap(a, p, col);
    MulZero(Inv(a[p][col]));
    forall r | 0 <= r < |a|
      ensures Step(z, a, p, col, 1)[r][0] == 0
    {
      MulZero(a1[r][col]);
      AddZero(0);
    }
  }

  lemma StepKernel(a: Matrix, p: nat, col: nat, v: Bytes)
    requires Shape(a, |a|, |a|) && col <= p < |a| && a[p][col] != 0 && |v| == |a|
    ensures Solves(a, Zeros(|a|), v) <==> Solves(Step(a, a, p, col, |a|), Zeros(|a|), v)
  {
    hide Dot, Mul, Add, Step;
    var z := seq(|a|, _ => Zeros(1));
    StepZeros(a, p, col);
    assert Col(z, 1, 0) == Zeros(|a|);
    StepSolves(a, z, p, col, 1, 0, v);
  }

  // Elimination succeeds exactly on the matrices with trivial kernel ...
  lemma {:induction false} GaussJordanSucceeds(a: Matrix, s: Matrix, col: nat, width: nat)
    requires Shape(a, |a|, |a|) && Shape(s, |a|, width) && col <= |a| && Reduced(a, col)
    ensures GaussJordan(a, s, col, width).Some? <==> TrivialKernel(a)
    decreases |a| - col
  {
    hide Dot, Mul, Add, Step, Solves;
    var n := |a|;
    if col == n {
      forall v: Bytes | |v| == n && Solves(a, Zeros(n), v)
        ensures v == Zeros(n)
      {
        SolvesIdentity(a, Zeros(n), v);
      }
    } else {
      var p := Pivot(a, col, col);
      if p == n {
        var v := NoPivotKernel(a, col);
      } else {
        var b := Step(a, a, p, col, n);
        StepReduced(a, p, col);
        GaussJordanSucceeds(b, Step(s, a, p, col, width), col + 1, width);
        forall v: Bytes | |v| == n
          ensures Solves(a, Zeros(n), v) <==> Solves(b, Zeros(n), v)
        {
          StepKernel(a, p, col, v);
        }
      }
    }
  }

  // ... and then returns the one solution of the system.
  lemma {:induction false} GaussJordanSolution(a: Matrix, s: Matrix, col: nat, width: nat, k: nat, v: Bytes)
    requires Shape(a, |a|, |a|) && Shape(s, |a|, width) && col <= |a| && Reduced(a, col)
    requires GaussJordan(a, s, col, width).Some? && k < width && |v| == |a|
    ensures Solves(a, Col(s, width, k), v)
       <==> v == Col(GaussJordan(a, s, col, width).value, width, k)
    decreases |a| - col
  {
    hide Dot, Mul, Add, Step, Solves;
    var n := |a|;
    if col == n {
      SolvesIdentity(a, Col(s, width, k), v);
    } else {
      var p := Pivot(a, col, col);
      StepReduced(a, p, col);
      StepSolves(a, s, p, col, width, k, v);
      GaussJordanSolution(Step(a, a, p, col, n), Step(s, a, p, col, width), col + 1, width, k, v);
    }
  }
}
