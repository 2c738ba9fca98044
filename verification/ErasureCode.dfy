// What the erasure code of src/fec.cpp computes.
module ErasureCode {
  import opened Options
  import opened ByteStrings
  import opened Gf256
  import opened GfTables
  import opened GfLinear
  import opened Vandermonde

  // ---- specification ----

  // resize(width, 0)
  function Pad(f: Bytes, width: nat): (r: Bytes)
    ensures |r| == width
  {
    if |f| >= width then f[..width] else f + seq(width - |f|, _ => 0)
  }

  ghost function Weight(parityIndex: nat, dataIndex: nat): (b: Byte)
  {
    Pow((dataIndex + 1) % 256, parityIndex)
  }

  // dst += c * src on the bytes both have, up to width.
  ghost function Accumulate(dst: Bytes, src: Bytes, c: Byte, width: nat): (r: Bytes)
    ensures |r| == |dst|
  {
    seq(|dst|, k requires 0 <= k < |dst| =>
      if k < |src| && k < width then Add(dst[k], Mul(c, src[k])) else dst[k])
  }

  // Parity fragment p of the first n fragments.
  ghost function Parity(frags: seq<Bytes>, p: nat, width: nat, n: nat): (r: Bytes)
    requires n <= |frags|
    ensures |r| == width
  {
    if n == 0 then Zeros(width)
    else Accumulate(Parity(frags, p, width, n - 1), frags[n - 1], Weight(p, n - 1), width)
  }

  type Slots = seq<Option<Bytes>>

  // The missing fragments among the first n, in order.
  ghost function Missing(data: Slots, n: nat): (m: seq<nat>)
    requires n <= |data|
    ensures forall c :: 0 <= c < |m| ==> m[c] < n && data[m[c]].None?
    ensures forall c, d :: 0 <= c < d < |m| ==> m[c] < m[d]
  {
    if n == 0 then []
    else Missing(data, n - 1) + if data[n - 1].None? then [n - 1] else []
  }

  // The parity content with the present fragments among the first n taken out.
  ghost function Syndrome(data: Slots, p: nat, content: Bytes, width: nat, n: nat): (r: Bytes)
    requires n <= |data|
    ensures |r| == width
  {
    if n == 0 then Pad(content, width)
    else
      var s := Syndrome(data, p, content, width, n - 1);
      if data[n - 1].Some? then Accumulate(s, data[n - 1].value, Weight(p, n - 1), width) else s
  }

  type Parities = seq<(nat, Bytes)>

  ghost function Exponents(parity: Parities, m: nat): (e: seq<nat>)
    requires m <= |parity|
    ensures |e| == m
  {
    seq(m, r requires 0 <= r < m => parity[r].0)
  }

  ghost function Points(missing: seq<nat>): (p: Bytes)
    ensures |p| == |missing|
  {
    seq(|missing|, c requires 0 <= c < |missing| => (missing[c] + 1) % 256)
  }

  // The coefficients of the first parities on the missing fragments.
  ghost function System(data: Slots, parity: Parities): (a: Matrix)
    requires |Missing(data, |data|)| <= |parity|
    ensures Shape(a, |Missing(data, |data|)|, |Missing(data, |data|)|)
  {
    var missing := Missing(data, |data|);
    Powers(Exponents(parity, |missing|), Points(missing))
  }

  ghost function Syndromes(data: Slots, parity: Parities, width: nat, m: nat): (s: Matrix)
    requires m <= |parity|
    ensures Shape(s, m, width)
  {
    seq(m, r requires 0 <= r < m => Syndrome(data, parity[r].0, parity[r].1, width, |data|))
  }

  ghost function Fill(data: Slots, missing: seq<nat>, x: Matrix, n: nat): (r: Slots)
    requires n <= |missing| && n <= |x|
    requires forall c :: 0 <= c < |missing| ==> missing[c] < |data|
    ensures |r| == |data|
  {
    if n == 0 then data else Fill(data, missing, x, n - 1)[missing[n - 1] := Some(x[n - 1])]
  }

  // What decode leaves in data, or None when it returns false.
  ghost function Decoded(data: Slots, parity: Parities, width: nat): (r: Option<Slots>)
    ensures r.Some? ==> |r.value| == |data|
  {
    var missing := Missing(data, |data|);
    var m := |missing|;
    if m == 0 then Some(data)
    else if m > |parity| then None
    else
      match GaussJordan(System(data, parity), Syndromes(data, parity, width, m), 0, width)
      case None => None
      case Some(x) => Some(Fill(data, missing, x, m))
  }
}
