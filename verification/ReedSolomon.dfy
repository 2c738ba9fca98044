// The erasure code of src/fec.cpp: gf_mul_add, encode_into and decode.
module ReedSolomon {
  import opened Options
  import opened ByteStrings
  import opened Gf256
  import opened GfTables
  import opened GfLinear
  import opened ErasureCode

  // ---- encode_into ----

  method GfMulAdd(t: Tables, dst: Bytes, src: Bytes, c: Byte, width: nat) returns (r: Bytes)
    requires t.Valid()
    ensures r == Accumulate(dst, src, c, width)
  {
    hide Mul, Add;
    r := dst;
    if c == 0 || |src| == 0 {
      AccumulateZero(dst, src, c, width);
      return;
    }
    var n := if |src| < width then |src| else width;
    n := if |dst| < n then |dst| else n;
    if c == 1 {
      for i := 0 to n
        invariant |r| == |dst|
        invariant forall k :: 0 <= k < i ==> r[k] == Add(dst[k], Mul(c, src[k]))
        invariant forall k :: i <= k < |dst| ==> r[k] == dst[k]
      {
        MulOne(src[i]);
        r := r[i := Add(r[i], src[i])];
      }
      return;
    }
    for i := 0 to n
      invariant |r| == |dst|
      invariant forall k :: 0 <= k < i ==> r[k] == Add(dst[k], Mul(c, src[k]))
      invariant forall k :: i <= k < |dst| ==> r[k] == dst[k]
    {
      if src[i] != 0 {
        MulByLog(t, c, src[i]);
        r := r[i := Add(r[i], t.exp[t.log[c] as int + t.log[src[i]] as int])];
      } else {
        MulZero(c);
        AddZero(dst[i]);
      }
    }
  }

  lemma AccumulateZero(dst: Bytes, src: Bytes, c: Byte, width: nat)
    requires c == 0 || |src| == 0
    ensures Accumulate(dst, src, c, width) == dst
  {
    hide Mul, Add;
    forall k | 0 <= k < |dst|
      ensures Accumulate(dst, src, c, width)[k] == dst[k]
    {
      if k < |src| {
        MulZero(src[k]);
        AddZero(dst[k]);
      }
    }
  }

  // Buffers that already hold width bytes keep what lies beyond them.
  method EncodeInto(t: Tables, fragments: seq<Bytes>, parityCount: nat, width: nat, out: seq<Bytes>)
      returns (r: seq<Bytes>)
    requires t.Valid()
    ensures |r| == if |out| < parityCount then parityCount else |out|
    ensures forall p :: 0 <= p < parityCount ==>
      |r[p]| >= width && r[p][..width] == Parity(fragments, p, width, |fragments|)
    ensures forall p :: 0 <= p < parityCount ==>
      r[p][width..] == if p < |out| && |out[p]| >= width then out[p][width..] else []
    ensures forall p :: parityCount <= p < |out| ==> r[p] == out[p]
  {
    hide Weight, Accumulate;
    r := out;
    if |r| < parityCount { r := r + seq(parityCount - |r|, _ => []); }
    for p := 0 to parityCount
      invariant |r| == if |out| < parityCount then parityCount else |out|
      invariant forall q :: 0 <= q < p ==>
        |r[q]| >= width && r[q][..width] == Parity(fragments, q, width, |fragments|)
      invariant forall q :: 0 <= q < p ==>
        r[q][width..] == if q < |out| && |out[q]| >= width then out[q][width..] else []
      invariant forall q :: p <= q < |r| ==> r[q] == if q < |out| then out[q] else []
    {
      var row := EncodeRow(t, fragments, p, width, r[p]);
      r := r[p := row];
    }
  }

  // One parity buffer.
  method EncodeRow(t: Tables, fragments: seq<Bytes>, p: nat, width: nat, buffer: Bytes)
      returns (row: Bytes)
    requires t.Valid()
    ensures |row| >= width && row[..width] == Parity(fragments, p, width, |fragments|)
    ensures row[width..] == if |buffer| >= width then buffer[width..] else []
  {
    hide Weight;
    if |buffer| < width {
      row := Zeros(width);
    } else {
      row := Zeros(width) + buffer[width..];
    }
    var rest := row[width..];
    for j := 0 to |fragments|
      invariant |row| == width + |rest| && row[width..] == rest
      invariant row[..width] == Parity(fragments, p, width, j)
    {
      AccumulatePrefix(row, fragments[j], Coef(t, p, j), width);
      CoefIsWeight(t, p, j);
      row := GfMulAdd(t, row, fragments[j], Coef(t, p, j), width);
    }
  }

  lemma CoefIsWeight(t: Tables, p: nat, j: nat)
    requires t.Valid()
    ensures Coef(t, p, j) == Weight(p, j)
  {}

  lemma AccumulatePrefix(row: Bytes, src: Bytes, c: Byte, width: nat)
    requires |row| >= width
    ensures Accumulate(row, src, c, width)[..width] == Accumulate(row[..width], src, c, width)
    ensures Accumulate(row, src, c, width)[width..] == row[width..]
  {}

  // ---- decode ----

  method FindMissing(data: array<Option<Bytes>>) returns (missing: seq<nat>)
    ensures missing == Missing(data[..], data.Length)
  {
    missing := [];
    for i := 0 to data.Length
      invariant missing == Missing(data[..], i)
    {
      if data[i].None? { missing := missing + [i]; }
    }
  }

  method ComputeSyndrome(t: Tables, data: array<Option<Bytes>>, p: nat, content: Bytes, width: nat)
      returns (s: Bytes)
    requires t.Valid()
    ensures s == Syndrome(data[..], p, content, width, data.Length)
  {
    hide Weight, Accumulate;
    s := Pad(content, width);
    for j := 0 to data.Length
      invariant s == Syndrome(data[..], p, content, width, j)
    {
      if data[j].Some? {
        CoefIsWeight(t, p, j);
        s := GfMulAdd(t, s, data[j].value, Coef(t, p, j), width);
      }
    }
  }

  method CoefficientRow(t: Tables, p: nat, missing: seq<nat>) returns (row: Bytes)
    requires t.Valid()
    ensures |row| == |missing|
    ensures forall c :: 0 <= c < |missing| ==> row[c] == Pow((missing[c] + 1) % 256, p)
  {
    hide Pow;
    row := [];
    for c := 0 to |missing|
      invariant |row| == c
      invariant forall k :: 0 <= k < c ==> row[k] == Pow((missing[k] + 1) % 256, p)
    {
      row := row + [Coef(t, p, missing[c])];
    }
  }

  // Multiplies the row from its first nonzero column on.
  method ScaleRow(t: Tables, row: Bytes, k: Byte, from: nat) returns (r: Bytes)
    requires t.Valid() && from <= |row|
    requires forall j :: 0 <= j < from ==> row[j] == 0
    ensures r == Scale(row, k)
  {
    hide Mul;
    r := row;
    for j := from to |row|
      invariant |r| == |row|
      invariant forall i :: 0 <= i < j && i >= from ==> r[i] == Mul(row[i], k)
      invariant forall i :: 0 <= i < |row| && (i < from || i >= j) ==> r[i] == row[i]
    {
      r := r[j := GfMul(t, r[j], k)];
    }
    MulZero(k);
  }

  // Adds a multiple of the pivot row, from its first nonzero column on.
  method ClearRow(t: Tables, row: Bytes, f: Byte, pivot: Bytes, from: nat) returns (r: Bytes)
    requires t.Valid() && from <= |row| == |pivot|
    requires forall j :: 0 <= j < from ==> pivot[j] == 0
    ensures r == Combine(row, f, pivot)
  {
    hide Mul, Add;
    r := row;
    for j := from to |row|
      invariant |r| == |row|
      invariant forall i :: 0 <= i < j && i >= from ==> r[i] == Add(row[i], Mul(f, pivot[i]))
      invariant forall i :: 0 <= i < |row| && (i < from || i >= j) ==> r[i] == row[i]
    {
      r := r[j := Add(r[j], GfMul(t, f, pivot[j]))];
    }
    forall i | 0 <= i < from
      ensures r[i] == Add(row[i], Mul(f, pivot[i]))
    {
      MulZero(f);
      AddZero(row[i]);
    }
  }

  lemma CombineZero(row: Bytes, pivot: Bytes)
    requires |row| == |pivot|
    ensures Combine(row, 0, pivot) == row
  {
    hide Mul, Add;
    forall j | 0 <= j < |row|
      ensures Add(row[j], Mul(0, pivot[j])) == row[j]
    {
      MulZero(pivot[j]);
      AddZero(row[j]);
    }
  }

  lemma AccumulateCombine(dst: Bytes, src: Bytes, c: Byte)
    requires |dst| == |src|
    ensures Accumulate(dst, src, c, |dst|) == Combine(dst, c, src)
  {}

  method FindPivot(a: array<Bytes>, col: nat) returns (pivot: nat)
    requires Shape(a[..], a.Length, a.Length) && col < a.Length
    ensures pivot == Pivot(a[..], col, col)
  {
    pivot := col;
    while pivot < a.Length && a[pivot][col] == 0
      invariant col <= pivot <= a.Length
      invariant Pivot(a[..], col, col) == Pivot(a[..], col, pivot)
    {
      pivot := pivot + 1;
    }
  }

  method SwapRows(a: array<Bytes>, i: nat, j: nat)
    requires i < a.Length && j < a.Length
    modifies a
    ensures a[..] == Swap(old(a[..]), i, j)
  {
    a[i], a[j] := a[j], a[i];
  }

  // The body of the elimination loop once the pivot row is in place.
  method ReduceColumn(t: Tables, a: array<Bytes>, syn: array<Bytes>, col: nat, width: nat)
    requires t.Valid() && a != syn && a.Length == syn.Length && col < a.Length
    requires Shape(a[..], a.Length, a.Length) && Shape(syn[..], a.Length, width)
    requires Reduced(a[..], col) && a[col][col] != 0
    modifies a, syn
    ensures var was := old(a[..]); var inv := Inv(was[col][col]);
      && a[..] == Reduce(was, was, col, inv, a.Length)
      && syn[..] == Reduce(old(syn[..]), was, col, inv, width)
  {
    hide Mul, Add, Inv, Accumulate;
    var m := a.Length;
    ghost var a0, s0 := a[..], syn[..];
    var inv := GfInv(t, a[col][col]);
    InvUnique(a[col][col], inv);
    a[col] := ScaleRow(t, a[col], inv, col);
    syn[col] := ScaleRow(t, syn[col], inv, 0);
    ghost var ap, sp := Scale(a0[col], inv), Scale(s0[col], inv);
    MulZero(inv);
    for r := 0 to m
      invariant a[col] == ap && syn[col] == sp
      invariant forall q :: 0 <= q < r && q != col ==> a[q] == Combine(a0[q], a0[q][col], ap)
      invariant forall q :: 0 <= q < r && q != col ==> syn[q] == Combine(s0[q], a0[q][col], sp)
      invariant forall q :: r <= q < m && q != col ==> a[q] == a0[q] && syn[q] == s0[q]
    {
      if r != col {
        var f := a[r][col];
        if f != 0 {
          a[r] := ClearRow(t, a[r], f, a[col], col);
          AccumulateCombine(syn[r], syn[col], f);
          syn[r] := GfMulAdd(t, syn[r], syn[col], f, width);
        } else {
          CombineZero(a[r], a[col]);
          CombineZero(syn[r], syn[col]);
        }
      }
    }
  }

  // The elimination loop.
  method Eliminate(t: Tables, a: array<Bytes>, syn: array<Bytes>, width: nat) returns (ok: bool)
    requires t.Valid() && a != syn && a.Length == syn.Length
    requires Shape(a[..], a.Length, a.Length) && Shape(syn[..], a.Length, width)
    modifies a, syn
    ensures match GaussJordan(old(a[..]), old(syn[..]), 0, width)
      case None => !ok
      case Some(x) => ok && syn[..] == x
  {
    hide Step, Reduce, Inv;
    var m := a.Length;
    ghost var goal := GaussJordan(a[..], syn[..], 0, width);
    for col := 0 to m
      invariant Shape(a[..], m, m) && Shape(syn[..], m, width)
      invariant Reduced(a[..], col)
      invariant goal == GaussJordan(a[..], syn[..], col, width)
    {
      var pivot := FindPivot(a, col);
      if pivot == m { return false; }
      ghost var was, were := a[..], syn[..];
      if pivot != col {
        SwapRows(a, pivot, col);
        SwapRows(syn, pivot, col);
      } else {
        SwapSelf(was, col);
        SwapSelf(were, col);
      }
      SwapReduced(was, pivot, col);
      ReduceColumn(t, a, syn, col, width);
      StepIsReduce(was, was, pivot, col, m);
      StepIsReduce(were, was, pivot, col, width);
      StepReduced(was, pivot, col);
    }
    ok := true;
  }

  lemma SwapSelf(x: Matrix, i: nat)
    requires i < |x|
    ensures Swap(x, i, i) == x
  {}

  lemma SwapReduced(a: Matrix, p: nat, col: nat)
    requires Shape(a, |a|, |a|) && col <= p < |a| && Reduced(a, col)
    ensures Shape(Swap(a, p, col), |a|, |a|) && Reduced(Swap(a, p, col), col)
    ensures Swap(a, p, col)[col] == a[p]
  {}

  lemma StepIsReduce(x: Matrix, a: Matrix, p: nat, col: nat, width: nat)
    requires Shape(x, |x|, width) && Shape(a, |x|, |x|) && col <= p < |x| && a[p][col] != 0
    ensures Step(x, a, p, col, width)
         == Reduce(Swap(x, p, col), Swap(a, p, col), col, Inv(a[p][col]), width)
  {}

  method BuildSystem(t: Tables, data: array<Option<Bytes>>, parity: Parities, width: nat,
                     missing: seq<nat>)
      returns (a: array<Bytes>, syn: array<Bytes>)
    requires t.Valid()
    requires missing == Missing(data[..], data.Length) && |missing| <= |parity|
    ensures fresh(a) && fresh(syn) && a != syn
    ensures a[..] == System(data[..], parity)
    ensures syn[..] == Syndromes(data[..], parity, width, |missing|)
  {
    hide Syndrome, Pow, Missing;
    ghost var d0 := data[..];
    var m := |missing|;
    a := new Bytes[m](_ => []);
    syn := new Bytes[m](_ => []);
    for r := 0 to m
      invariant data[..] == d0
      invariant forall q :: 0 <= q < r ==> a[q] == System(d0, parity)[q]
      invariant forall q :: 0 <= q < r ==> syn[q] == Syndromes(d0, parity, width, m)[q]
    {
      var s := ComputeSyndrome(t, data, parity[r].0, parity[r].1, width);
      var row := CoefficientRow(t, parity[r].0, missing);
      assert row == System(d0, parity)[r];
      syn[r] := s;
      a[r] := row;
    }
  }

  method Decode(t: Tables, data: array<Option<Bytes>>, parity: Parities, width: nat)
      returns (ok: bool)
    requires t.Valid()
    modifies data
    ensures match Decoded(old(data[..]), parity, width)
      case None => !ok && data[..] == old(data[..])
      case Some(d) => ok && data[..] == d
  {
    hide GaussJordan, Syndromes, System, Missing;
    ghost var d0 := data[..];
    var missing := FindMissing(data);
    if missing == [] { return true; }
    if |missing| > |parity| { return false; }
    var m := |missing|;
    var a, syn := BuildSystem(t, data, parity, width, missing);
    ok := Eliminate(t, a, syn, width);
    if !ok { return; }
    ghost var x := syn[..];
    for c := 0 to m
      invariant syn[..] == x
      invariant data[..] == Fill(d0, missing, x, c)
    {
      data[missing[c]] := Some(syn[c]);
    }
  }
}
