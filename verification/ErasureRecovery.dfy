// Which fragments decode recovers, and when it recovers them.
module ErasureRecovery {
  import opened Options
  import opened ByteStrings
  import opened Gf256
  import opened GfTables
  import opened GfLinear
  import opened Vandermonde
  import opened ErasureCode

  // The present fragments are those of frags, up to padding.
  ghost predicate FragmentsOf(data: Slots, frags: seq<Bytes>, width: nat)
  {
    && |data| == |frags|
    && forall j :: 0 <= j < |data| && data[j].Some? ==> Pad(data[j].value, width) == Pad(frags[j], width)
  }

  // Every parity is the one encode_into makes for its index, up to padding.
  ghost predicate ParitiesOf(parity: Parities, frags: seq<Bytes>, width: nat)
  {
    forall r :: 0 <= r < |parity| ==>
      Pad(parity[r].1, width) == Parity(frags, parity[r].0, width, |frags|)
  }

  lemma AccumulateByte(dst: Bytes, src: Bytes, c: Byte, width: nat, k: nat)
    requires k < |dst| == width
    ensures Accumulate(dst, src, c, width)[k] == Add(dst[k], Mul(c, Pad(src, width)[k]))
  {
    hide Mul, Add;
    MulZero(c);
    AddZero(dst[k]);
  }

  // Byte k of the missing fragments' share of parity p.
  ghost function MissingShare(data: Slots, frags: seq<Bytes>, p: nat, width: nat, k: nat, n: nat): (b: Byte)
    requires n <= |data| == |frags| && k < width
  {
    if n == 0 then 0
    else if data[n - 1].Some? then MissingShare(data, frags, p, width, k, n - 1)
    else Add(MissingShare(data, frags, p, width, k, n - 1), Mul(Weight(p, n - 1), Pad(frags[n - 1], width)[k]))
  }

  lemma {:induction false} SyndromeShare(data: Slots, frags: seq<Bytes>, p: nat, content: Bytes, width: nat,
                                         k: nat, n: nat)
    requires FragmentsOf(data, frags, width) && n <= |data| && k < width
    ensures Add(Syndrome(data, p, content, width, n)[k], Parity(frags, p, width, n)[k])
         == Add(Pad(content, width)[k], MissingShare(data, frags, p, width, k, n))
  {
    hide Mul, Add, Weight, Accumulate, Pad;
    if n > 0 {
      SyndromeShare(data, frags, p, content, width, k, n - 1);
      var s, q := Syndrome(data, p, content, width, n - 1), Parity(frags, p, width, n - 1);
      var w := Weight(p, n - 1);
      var term := Mul(w, Pad(frags[n - 1], width)[k]);
      AccumulateByte(q, frags[n - 1], w, width, k);
      if data[n - 1].Some? {
        AccumulateByte(s, data[n - 1].value, w, width, k);
        AddSwap(s[k], term, q[k], term);
        AddSelf(term);
        AddZero(Add(s[k], q[k]));
      } else {
        AddAssoc(s[k], q[k], term);
        AddAssoc(Pad(content, width)[k], MissingShare(data, frags, p, width, k, n - 1), term);
      }
    } else {
      assert Zeros(width)[k] == 0;
    }
  }

  // Byte k of the fragments at the given positions.
  ghost function BytesAt(frags: seq<Bytes>, at: seq<nat>, width: nat, k: nat): (v: Bytes)
    requires k < width && forall c :: 0 <= c < |at| ==> at[c] < |frags|
    ensures |v| == |at|
  {
    seq(|at|, c requires 0 <= c < |at| => Pad(frags[at[c]], width)[k])
  }

  lemma {:induction false} DotPrefix(row: Bytes, v: Bytes, row': Bytes, v': Bytes, n: nat)
    requires n <= |row| && n <= |v| && n <= |row'| && n <= |v'|
    requires row[..n] == row'[..n] && v[..n] == v'[..n]
    ensures Dot(row, v, n) == Dot(row', v', n)
  {
    hide Mul, Add;
    if n > 0 {
      assert row[..n - 1] == row[..n][..n - 1] && row'[..n - 1] == row'[..n][..n - 1];
      assert v[..n - 1] == v[..n][..n - 1] && v'[..n - 1] == v'[..n][..n - 1];
      assert row[n - 1] == row[..n][n - 1] && row'[n - 1] == row'[..n][n - 1];
      assert v[n - 1] == v[..n][n - 1] && v'[n - 1] == v'[..n][n - 1];
      DotPrefix(row, v, row', v', n - 1);
    }
  }

  ghost function WeightRow(p: nat, at: seq<nat>): (r: Bytes)
    ensures |r| == |at|
  {
    seq(|at|, c requires 0 <= c < |at| => Weight(p, at[c]))
  }

  lemma DotAppend(frags: seq<Bytes>, p: nat, width: nat, k: nat, init: seq<nat>, i: nat)
    requires k < width && i < |frags| && forall c :: 0 <= c < |init| ==> init[c] < |frags|
    ensures var at := init + [i];
      Dot(WeightRow(p, at), BytesAt(frags, at, width, k), |at|)
        == Add(Dot(WeightRow(p, init), BytesAt(frags, init, width, k), |init|),
               Mul(Weight(p, i), Pad(frags[i], width)[k]))
  {
    hide Mul, Add, Weight, Pad;
    var at := init + [i];
    assert WeightRow(p, at)[..|init|] == WeightRow(p, init)[..|init|];
    assert BytesAt(frags, at, width, k)[..|init|] == BytesAt(frags, init, width, k)[..|init|];
    DotPrefix(WeightRow(p, at), BytesAt(frags, at, width, k),
              WeightRow(p, init), BytesAt(frags, init, width, k), |init|);
  }

  lemma {:induction false} ShareIsDot(data: Slots, frags: seq<Bytes>, p: nat, width: nat, k: nat, n: nat)
    requires n <= |data| == |frags| && k < width
    ensures var at := Missing(data, n);
      MissingShare(data, frags, p, width, k, n)
        == Dot(WeightRow(p, at), BytesAt(frags, at, width, k), |at|)
  {
    hide Mul, Add, Weight, Pad, WeightRow, BytesAt;
    if n > 0 {
      ShareIsDot(data, frags, p, width, k, n - 1);
      if data[n - 1].None? {
        DotAppend(frags, p, width, k, Missing(data, n - 1), n - 1);
      } else {
        assert Missing(data, n) == Missing(data, n - 1);
      }
    }
  }

  // The original bytes solve the system that decode sets up.
  lemma OriginalSolves(data: Slots, parity: Parities, width: nat, frags: seq<Bytes>, k: nat)
    requires FragmentsOf(data, frags, width) && ParitiesOf(parity, frags, width) && k < width
    requires |Missing(data, |data|)| <= |parity|
    ensures var at := Missing(data, |data|);
      Solves(System(data, parity), Col(Syndromes(data, parity, width, |at|), width, k),
             BytesAt(frags, at, width, k))
  {
    hide Mul, Add, Pad, Missing, Dot, Syndrome, Parity, MissingShare, Pow;
    var at := Missing(data, |data|);
    var a := System(data, parity);
    var v := BytesAt(frags, at, width, k);
    forall r | 0 <= r < |at|
      ensures Dot(a[r], v, |v|) == Syndromes(data, parity, width, |at|)[r][k]
    {
      var p, content := parity[r].0, parity[r].1;
      var s := Syndrome(data, p, content, width, |data|)[k];
      var q := Parity(frags, p, width, |frags|)[k];
      var share := MissingShare(data, frags, p, width, k, |data|);
      SyndromeShare(data, frags, p, content, width, k, |data|);
      AddComm(q, share);
      AddCancelLeft(q, s, share);
      ShareIsDot(data, frags, p, width, k, |data|);
      assert a[r] == WeightRow(p, at);
    }
  }

  lemma {:induction false} FillAt(data: Slots, at: seq<nat>, x: Matrix, n: nat)
    requires n <= |at| && n <= |x|
    requires forall c :: 0 <= c < |at| ==> at[c] < |data|
    requires forall c, d :: 0 <= c < d < |at| ==> at[c] < at[d]
    ensures forall c :: 0 <= c < n ==> Fill(data, at, x, n)[at[c]] == Some(x[c])
    ensures forall i :: 0 <= i < |data| && i !in at[..n] ==> Fill(data, at, x, n)[i] == data[i]
  {
    if n > 0 {
      FillAt(data, at, x, n - 1);
      assert at[..n] == at[..n - 1] + [at[n - 1]];
    }
  }

  lemma {:induction false} MissingComplete(data: Slots, n: nat, i: nat)
    requires i < n <= |data| && data[i].None?
    ensures i in Missing(data, n)
  {
    if i < n - 1 { MissingComplete(data, n - 1, i); }
  }

  // When decode succeeds, every missing fragment is back and the others are untouched.
  lemma DecodeSound(data: Slots, parity: Parities, width: nat, frags: seq<Bytes>)
    requires FragmentsOf(data, frags, width) && ParitiesOf(parity, frags, width)
    requires Decoded(data, parity, width).Some?
    ensures var d := Decoded(data, parity, width).value;
      forall i :: 0 <= i < |data| ==>
        d[i] == if data[i].Some? then data[i] else Some(Pad(frags[i], width))
  {
    hide Pad, GaussJordan, Solves, Missing;
    var at := Missing(data, |data|);
    var m := |at|;
    var d := Decoded(data, parity, width).value;
    if m == 0 {
      forall i | 0 <= i < |data|
        ensures data[i].Some?
      {
        if data[i].None? { MissingComplete(data, |data|, i); }
      }
    } else {
      var a, s := System(data, parity), Syndromes(data, parity, width, m);
      var x := GaussJordan(a, s, 0, width).value;
      forall c | 0 <= c < m
        ensures x[c] == Pad(frags[at[c]], width)
      {
        forall k | 0 <= k < width
          ensures x[c][k] == Pad(frags[at[c]], width)[k]
        {
          OriginalSolves(data, parity, width, frags, k);
          GaussJordanSolution(a, s, 0, width, k, BytesAt(frags, at, width, k));
          assert BytesAt(frags, at, width, k)[c] == Col(x, width, k)[c];
        }
      }
      FillAt(data, at, x, m);
      forall i | 0 <= i < |data|
        ensures d[i] == if data[i].Some? then data[i] else Some(Pad(frags[i], width))
      {
        if data[i].None? {
          MissingComplete(data, |data|, i);
          var c :| 0 <= c < |at| && at[c] == i;
        }
      }
    }
  }

  // Decode succeeds exactly when there are enough parities and the coefficients of the first
  // of them on the missing fragments form an invertible matrix.
  lemma DecodeSucceeds(data: Slots, parity: Parities, width: nat)
    ensures var m := |Missing(data, |data|)|;
      Decoded(data, parity, width).Some? <==>
        (m == 0 || (m <= |parity| && TrivialKernel(System(data, parity))))
  {
    hide GaussJordan, Missing, TrivialKernel;
    var m := |Missing(data, |data|)|;
    if 0 < m <= |parity| {
      GaussJordanSucceeds(System(data, parity), Syndromes(data, parity, width, m), 0, width);
    }
  }

  // No two missing positions share a coefficient, and none has coefficient 0 unless the first
  // parity in the window is the plain exclusive or.
  predicate Separable(missing: seq<nat>, base: nat)
  {
    && (forall c, d :: 0 <= c < d < |missing| ==> missing[c] % 256 != missing[d] % 256)
    && (base == 0 || forall c :: 0 <= c < |missing| ==> missing[c] % 256 != 255)
  }

  lemma SuccessorMod(i: nat, j: nat)
    ensures (i + 1) % 256 == (j + 1) % 256 <==> i % 256 == j % 256
    ensures (i + 1) % 256 == 0 <==> i % 256 == 255
  {}

  // For parities with consecutive indices, in any order, the condition can be read off the
  // missing positions.
  lemma DecodeConsecutive(data: Slots, parity: Parities, width: nat, base: nat)
    requires |Missing(data, |data|)| <= |parity|
    requires Consecutive(Exponents(parity, |Missing(data, |data|)|), base)
    ensures Decoded(data, parity, width).Some? <==> Separable(Missing(data, |data|), base)
  {
    hide Decoded, Missing, TrivialKernel, Powers;
    var at := Missing(data, |data|);
    DecodeSucceeds(data, parity, width);
    if |at| > 0 {
      ConsecutiveInvertible(Exponents(parity, |at|), Points(at), base);
      SeparablePoints(at, base);
    }
  }

  lemma SeparablePoints(at: seq<nat>, base: nat)
    ensures Separable(at, base) <==> Distinct(Points(at)) && (base == 0 || 0 !in Points(at))
  {
    forall c, d | 0 <= c < d < |at|
      ensures at[c] % 256 != at[d] % 256 <==> Points(at)[c] != Points(at)[d]
    {
      SuccessorMod(at[c], at[d]);
    }
    forall c | 0 <= c < |at|
      ensures at[c] % 256 == 255 <==> Points(at)[c] == 0
    {
      SuccessorMod(at[c], at[c]);
    }
  }

  // With at most 255 data fragments nothing else is needed, and the fragments come back.
  lemma DecodeComplete(data: Slots, parity: Parities, width: nat, base: nat)
    requires |data| <= 255
    requires |Missing(data, |data|)| <= |parity|
    requires Consecutive(Exponents(parity, |Missing(data, |data|)|), base)
    ensures Decoded(data, parity, width).Some?
    ensures forall frags :: FragmentsOf(data, frags, width) && ParitiesOf(parity, frags, width) ==>
      forall i :: 0 <= i < |data| ==>
        Decoded(data, parity, width).value[i] == if data[i].Some? then data[i] else Some(Pad(frags[i], width))
  {
    hide Decoded, Missing, ParitiesOf, Pad;
    DecodeConsecutive(data, parity, width, base);
    forall c | 0 <= c < |Missing(data, |data|)|
      ensures Missing(data, |data|)[c] % 256 == Missing(data, |data|)[c] < 255
    {}
    forall frags | FragmentsOf(data, frags, width) && ParitiesOf(parity, frags, width)
      ensures forall i :: 0 <= i < |data| ==>
        Decoded(data, parity, width).value[i] == if data[i].Some? then data[i] else Some(Pad(frags[i], width))
    {
      DecodeSound(data, parity, width, frags);
    }
  }

  // ---- parities that are not consecutive ----

  lemma {:induction false} PowOne(e: nat)
    ensures Pow(1, e) == 1
  {
    hide Mul;
    if e > 0 {
      PowOne(e - 1);
      MulOne(1);
    }
  }

  // 10 is a fifth root of unity.
  lemma TenToTheFifth()
    ensures Pow(10, 5) == 1
  {
    hide Gen, Mul;
    GenAt51();
    PowOfGen(51, 5);
    GeneratorOrder();
  }

  lemma DotTwo(row: Bytes, v: Bytes)
    requires |row| == |v| == 2
    ensures Dot(row, v, 2) == Add(Add(0, Mul(row[0], v[0])), Mul(row[1], v[1]))
  {
    hide Mul, Add;
    assert Dot(row, v, 1) == Add(Dot(row, v, 0), Mul(row[0], v[0]));
  }

  lemma SystemEntry(data: Slots, parity: Parities, r: nat, c: nat)
    requires var at := Missing(data, |data|); |at| <= |parity| && r < |at| && c < |at|
    ensures System(data, parity)[r][c] == Pow((Missing(data, |data|)[c] + 1) % 256, parity[r].0)
  {
    hide Missing, Pow;
  }

  // A vector that both rows send to zero, when the two diagonals agree.
  lemma PairVector(a: Matrix) returns (v: Bytes)
    requires Shape(a, 2, 2) && Mul(a[0][0], a[1][1]) == Mul(a[0][1], a[1][0])
    ensures |v| == 2 && (v[0] != 0 || v[1] != 0)
    ensures forall r :: 0 <= r < 2 ==> Mul(a[r][0], v[0]) == Mul(a[r][1], v[1])
  {
    hide Mul;
    if a[0][0] != 0 || a[0][1] != 0 {
      v := [a[0][1], a[0][0]];
      MulComm(a[0][0], a[0][1]);
      MulComm(a[1][0], a[0][1]);
      MulComm(a[1][1], a[0][0]);
    } else if a[1][0] != 0 || a[1][1] != 0 {
      v := [a[1][1], a[1][0]];
      MulComm(a[1][0], a[1][1]);
      MulZero(a[1][0]);
      MulZero(a[1][1]);
    } else {
      v := [1, 1];
    }
  }

  // The determinant of two rows annihilates every vector they both send to zero.
  lemma PairCross(a: Byte, b: Byte, c: Byte, d: Byte, v: Byte, w: Byte)
    requires Mul(a, v) == Mul(b, w) && Mul(c, v) == Mul(d, w)
    ensures Mul(Add(Mul(a, d), Mul(b, c)), v) == 0
  {
    hide Mul, Add;
    MulAdd(v, Mul(a, d), Mul(b, c));
    MulComm(a, d);
    MulAssoc(d, a, v);
    MulAssoc(b, c, v);
    MulAssoc(d, b, w);
    MulAssoc(b, d, w);
    MulComm(b, d);
    AddSelf(Mul(Mul(b, d), w));
  }

  lemma PairInvertible(a: Matrix)
    requires Shape(a, 2, 2)
    ensures TrivialKernel(a) <==> Mul(a[0][0], a[1][1]) != Mul(a[0][1], a[1][0])
  {
    hide Mul, Add, Solves, Dot;
    var a00, a01, a10, a11 := a[0][0], a[0][1], a[1][0], a[1][1];
    if Mul(a00, a11) == Mul(a01, a10) {
      var v := PairVector(a);
      PairSolves(a, v);
    } else {
      var det := Add(Mul(a00, a11), Mul(a01, a10));
      AddCancel(Mul(a00, a11), Mul(a01, a10));
      forall v: Bytes | |v| == 2 && Solves(a, Zeros(2), v)
        ensures v == Zeros(2)
      {
        PairSolves(a, v);
        PairCross(a00, a01, a10, a11, v[0], v[1]);
        PairCross(a01, a00, a11, a10, v[1], v[0]);
        AddComm(Mul(a01, a10), Mul(a00, a11));
        if v[0] != 0 { NoZeroDivisors(det, v[0]); }
        if v[1] != 0 { NoZeroDivisors(det, v[1]); }
        assert v == [0, 0];
      }
    }
  }

  lemma PairSolves(a: Matrix, v: Bytes)
    requires Shape(a, 2, 2) && |v| == 2
    ensures Solves(a, Zeros(2), v) <==> forall r :: 0 <= r < 2 ==> Mul(a[r][0], v[0]) == Mul(a[r][1], v[1])
  {
    hide Mul, Add, Dot;
    forall r | 0 <= r < 2
      ensures Dot(a[r], v, 2) == 0 <==> Mul(a[r][0], v[0]) == Mul(a[r][1], v[1])
    {
      DotTwo(a[r], v);
      AddZero(Mul(a[r][0], v[0]));
      AddCancel(Mul(a[r][0], v[0]), Mul(a[r][1], v[1]));
    }
  }

  lemma PairRow(data: Slots, parity: Parities, i: nat, j: nat, r: nat)
    requires Missing(data, |data|) == [i, j] && r < 2 <= |parity|
    ensures Shape(System(data, parity), 2, 2)
    ensures System(data, parity)[r] == [Pow((i + 1) % 256, parity[r].0), Pow((j + 1) % 256, parity[r].0)]
  {
    hide Missing, System, Pow;
    SystemEntry(data, parity, r, 0);
    SystemEntry(data, parity, r, 1);
  }

  // Two missing fragments come back exactly when their coefficients in the first two parities
  // are not proportional.
  lemma PairDeterminant(data: Slots, parity: Parities, width: nat, i: nat, j: nat)
    requires Missing(data, |data|) == [i, j] && |parity| >= 2
    ensures var x, y, p, q := (i + 1) % 256, (j + 1) % 256, parity[0].0, parity[1].0;
      Decoded(data, parity, width).Some? <==> Mul(Pow(x, p), Pow(y, q)) != Mul(Pow(y, p), Pow(x, q))
  {
    hide Decoded, Missing, TrivialKernel, System, Pow, Mul, Shape, Points, Exponents, Powers;
    var a := System(data, parity);
    PairRow(data, parity, i, j, 0);
    PairRow(data, parity, i, j, 1);
    PairInvertible(a);
    DecodeSucceeds(data, parity, width);
  }

  lemma {:induction false} PowPlus(x: Byte, m: nat, n: nat)
    ensures Pow(x, m + n) == Mul(Pow(x, m), Pow(x, n))
    decreases m
  {
    hide Mul, Pow;
    PowUnfold(x, m);
    if m == 0 {
      MulOne(Pow(x, n));
    } else {
      PowUnfold(x, m + n);
      PowPlus(x, m - 1, n);
      MulAssoc(x, Pow(x, m - 1), Pow(x, n));
    }
  }

  // Two rows of powers, with exponents p and p + d.
  lemma PowerRows(x: Byte, y: Byte, p: nat, d: nat)
    ensures Mul(Pow(x, p), Pow(y, p + d)) != Mul(Pow(y, p), Pow(x, p + d)) <==>
      (p == 0 || (x != 0 && y != 0)) && Pow(x, d) != Pow(y, d)
  {
    hide Mul, Pow;
    var a, b, e, f := Pow(x, p), Pow(y, p), Pow(x, d), Pow(y, d);
    PowPlus(x, p, d);
    PowPlus(y, p, d);
    MulAssoc(a, b, f);
    MulAssoc(b, a, e);
    MulComm(a, b);
    NonZeroPower(x, p);
    NonZeroPower(y, p);
    MulZero(a);
    MulZero(b);
    ScaledEqual(Mul(a, b), f, e);
    if a != 0 && b != 0 { NoZeroDivisors(a, b); }
  }

  lemma ScaledEqual(u: Byte, f: Byte, e: Byte)
    ensures Mul(u, f) == Mul(u, e) <==> u == 0 || f == e
  {
    hide Mul, Add;
    MulZero(f);
    MulZero(e);
    MulAdd(u, f, e);
    AddCancel(f, e);
    AddCancel(Mul(u, f), Mul(u, e));
    if u != 0 && f != e { NoZeroDivisors(u, Add(f, e)); }
  }

  lemma NonZeroPower(x: Byte, p: nat)
    ensures Pow(x, p) != 0 <==> p == 0 || x != 0
  {
    hide Pow;
    PowZero(p);
    if x != 0 { PowNonZero(x, p); }
  }

  // The same, read off the positions: with parities lo and hi in either order, two missing
  // fragments come back exactly when the powers hi - lo of their points differ and, unless lo is
  // the plain exclusive or, neither point is 0.
  lemma PairRecovered(data: Slots, parity: Parities, width: nat, i: nat, j: nat)
    requires Missing(data, |data|) == [i, j] && |parity| >= 2
    ensures var x, y, p, q := (i + 1) % 256, (j + 1) % 256, parity[0].0, parity[1].0;
      var lo, hi := if p <= q then p else q, if p <= q then q else p;
      Decoded(data, parity, width).Some? <==>
        (lo == 0 || (x != 0 && y != 0)) && Pow(x, hi - lo) != Pow(y, hi - lo)
  {
    hide Decoded, Missing, Mul, Pow;
    var x, y, p, q := (i + 1) % 256, (j + 1) % 256, parity[0].0, parity[1].0;
    PairDeterminant(data, parity, width, i, j);
    if p <= q {
      PowerRows(x, y, p, q - p);
    } else {
      PowerRows(x, y, q, p - q);
      MulComm(Pow(x, p), Pow(y, q));
      MulComm(Pow(y, p), Pow(x, q));
    }
  }

  ghost predicate UnitPowers(a: Byte, b: Byte, p: nat, q: nat)
  {
    Pow(a, p) == 1 && Pow(b, p) == 1 && Pow(a, q) == 1 && Pow(b, q) == 1
  }

  // Two missing fragments whose coefficients are all 1 cannot be told apart.
  lemma IndistinguishablePair(data: Slots, parity: Parities, width: nat, i: nat, j: nat)
    requires Missing(data, |data|) == [i, j] && |parity| >= 2
    requires UnitPowers((i + 1) % 256, (j + 1) % 256, parity[0].0, parity[1].0)
    ensures Decoded(data, parity, width).None?
  {
    hide Decoded, Missing, Mul, Pow;
    PairDeterminant(data, parity, width, i, j);
  }

  lemma OneAndTen()
    ensures UnitPowers(1, 10, 0, 5)
  {
    hide Pow;
    TenToTheFifth();
    PowOne(0);
    PowOne(5);
    PowBase(10);
  }

  // Enough parities need not suffice: whatever the contents and however many fragments,
  // positions 0 and 9 cannot be recovered from parities 0 and 5.
  lemma SingularParities(data: Slots, parity: Parities, width: nat)
    requires Missing(data, |data|) == [0, 9]
    requires |parity| >= 2 && parity[0].0 == 0 && parity[1].0 == 5
    ensures Decoded(data, parity, width).None?
  {
    hide Decoded, Missing, UnitPowers;
    OneAndTen();
    IndistinguishablePair(data, parity, width, 0, 9);
  }
}
