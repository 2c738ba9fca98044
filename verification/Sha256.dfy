// Streaming SHA-256 of src/crypto.cpp against section 5.1.1 and section 6.2 of FIPS 180-4.
module Sha256 {
  import opened DivMod
  import opened ByteStrings

  type State = h: seq<bv32> | |h| == 8 witness [0, 0, 0, 0, 0, 0, 0, 0]

  // Eight rows of eight.
  const K: seq<seq<bv32>> := [
    [0x428a2f98, 0x71374491, 0xb5c0fbcf, 0xe9b5dba5, 0x3956c25b, 0x59f111f1, 0x923f82a4, 0xab1c5ed5],
    [0xd807aa98, 0x12835b01, 0x243185be, 0x550c7dc3, 0x72be5d74, 0x80deb1fe, 0x9bdc06a7, 0xc19bf174],
    [0xe49b69c1, 0xefbe4786, 0x0fc19dc6, 0x240ca1cc, 0x2de92c6f, 0x4a7484aa, 0x5cb0a9dc, 0x76f988da],
    [0x983e5152, 0xa831c66d, 0xb00327c8, 0xbf597fc7, 0xc6e00bf3, 0xd5a79147, 0x06ca6351, 0x14292967],
    [0x27b70a85, 0x2e1b2138, 0x4d2c6dfc, 0x53380d13, 0x650a7354, 0x766a0abb, 0x81c2c92e, 0x92722c85],
    [0xa2bfe8a1, 0xa81a664b, 0xc24b8b70, 0xc76c51a3, 0xd192e819, 0xd6990624, 0xf40e3585, 0x106aa070],
    [0x19a4c116, 0x1e376c08, 0x2748774c, 0x34b0bcb5, 0x391c0cb3, 0x4ed8aa4a, 0x5b9cca4f, 0x682e6ff3],
    [0x748f82ee, 0x78a5636f, 0x84c87814, 0x8cc70208, 0x90befffa, 0xa4506ceb, 0xbef9a3f7, 0xc67178f2]]

  const INITIAL: State := [
    0x6a09e667, 0xbb67ae85, 0x3c6ef372, 0xa54ff53a, 0x510e527f, 0x9b05688c, 0x1f83d9ab, 0x5be0cd19]

  // ---- the functions of section 4.1.2 ----

  function BigSigma0(x: bv32): (r: bv32) { x.RotateRight(2) ^ x.RotateRight(13) ^ x.RotateRight(22) }

  function BigSigma1(x: bv32): (r: bv32) { x.RotateRight(6) ^ x.RotateRight(11) ^ x.RotateRight(25) }

  function SmallSigma0(x: bv32): (r: bv32) { x.RotateRight(7) ^ x.RotateRight(18) ^ (x >> 3) }

  function SmallSigma1(x: bv32): (r: bv32) { x.RotateRight(17) ^ x.RotateRight(19) ^ (x >> 10) }

  // The source rotates with two shifts.
  lemma RotateByShifts(x: bv32)
    ensures x.RotateRight(2) == (x >> 2) | (x << 30) && x.RotateRight(13) == (x >> 13) | (x << 19)
    ensures x.RotateRight(22) == (x >> 22) | (x << 10) && x.RotateRight(6) == (x >> 6) | (x << 26)
    ensures x.RotateRight(11) == (x >> 11) | (x << 21) && x.RotateRight(25) == (x >> 25) | (x << 7)
    ensures x.RotateRight(7) == (x >> 7) | (x << 25) && x.RotateRight(18) == (x >> 18) | (x << 14)
    ensures x.RotateRight(17) == (x >> 17) | (x << 15) && x.RotateRight(19) == (x >> 19) | (x << 13)
  {}

  function Ch(x: bv32, y: bv32, z: bv32): (r: bv32) { (x & y) ^ (!x & z) }

  function Maj(x: bv32, y: bv32, z: bv32): (r: bv32) { (x & y) ^ (x & z) ^ (y & z) }

  // ---- the message schedule and the rounds of section 6.2.2 ----

  function BigEndianWord(block: Bytes, t: nat): (r: bv32)
    requires 4 * t + 4 <= |block|
  {
    (block[4 * t] as bv32 << 24) | (block[4 * t + 1] as bv32 << 16)
      | (block[4 * t + 2] as bv32 << 8) | block[4 * t + 3] as bv32
  }

  function RoundConstant(t: nat): (r: bv32)
    requires t < 64
  {
    K[t / 8][t % 8]
  }

  function Mix(a: bv32, b: bv32, c: bv32, d: bv32): (r: bv32)
  {
    a + SmallSigma0(b) + c + SmallSigma1(d)
  }

  // The next word of the schedule.
  function Extend(block: Bytes, w: seq<bv32>): (r: bv32)
    requires |block| == 64
  {
    var t := |w|;
    if t < 16 then BigEndianWord(block, t)
    else Mix(w[t - 16], w[t - 15], w[t - 7], w[t - 2])
  }

  ghost function Schedule(block: Bytes, n: nat): (w: seq<bv32>)
    requires |block| == 64
    ensures |w| == n
  {
    if n == 0 then [] else
      var w := Schedule(block, n - 1);
      w + [Extend(block, w)]
  }

  lemma {:induction false} SchedulePrefix(block: Bytes, m: nat, n: nat)
    requires |block| == 64 && m <= n
    ensures Schedule(block, n)[..m] == Schedule(block, m)
    decreases n
  {
    hide Extend;
    if m < n { SchedulePrefix(block, m, n - 1); }
  }

  method ExpandSchedule(block: Bytes) returns (words: seq<bv32>)
    requires |block| == 64
    ensures words == Schedule(block, 64)
  {
    hide BigEndianWord, Mix;
    var w := new bv32[64](_ => 0);
    for i := 0 to 16
      invariant w[..i] == Schedule(block, i)
    {
      w[i] := BigEndianWord(block, i);
      assert w[..i + 1] == w[..i] + [w[i]];
    }
    for i := 16 to 64
      invariant w[..i] == Schedule(block, i)
    {
      ghost var before := w[..i];
      w[i] := Mix(w[i - 16], w[i - 15], w[i - 7], w[i - 2]);
      assert w[i] == Extend(block, before);
      assert w[..i + 1] == before + [w[i]];
    }
    assert w[..] == w[..64];
    words := w[..];
  }

  function Round(s: State, k: bv32, w: bv32): (r: State)
  {
    var t1 := s[7] + BigSigma1(s[4]) + Ch(s[4], s[5], s[6]) + k + w;
    var t2 := BigSigma0(s[0]) + Maj(s[0], s[1], s[2]);
    [t1 + t2, s[0], s[1], s[2], s[3] + t1, s[4], s[5], s[6]]
  }

  ghost function Rounds(s: State, block: Bytes, t: nat): (r: State)
    requires |block| == 64 && t <= 64
  {
    if t == 0 then s else Round(Rounds(s, block, t - 1), RoundConstant(t - 1), Schedule(block, t)[t - 1])
  }

  ghost function Compress(s: State, block: Bytes): (r: State)
    requires |block| == 64
  {
    AddWords(s, Rounds(s, block, 64))
  }

  function AddWords(h: State, s: State): (r: State)
  {
    [h[0] + s[0], h[1] + s[1], h[2] + s[2], h[3] + s[3], h[4] + s[4], h[5] + s[5], h[6] + s[6], h[7] + s[7]]
  }

  // ---- padding and hashing ----

  // The number of zero bytes: the smallest that leaves eight bytes for the length.
  function ZeroCount(length: nat): (n: nat) { (119 - length % 64) % 64 }

  ghost function Padded(m: Bytes): (s: Bytes)
  {
    m + [0x80] + Zeros(ZeroCount(|m|)) + Be(8 * |m| % U64, 8)
  }

  ghost function FoldBlocks(s: State, m: Bytes): (r: State)
    decreases |m|
  {
    if |m| < 64 then s else FoldBlocks(Compress(s, m[..64]), m[64..])
  }

  // The eight words, each with its most significant byte first.
  function WordBytes(h: State): (b: Bytes)
    ensures |b| == 32
  {
    seq(32, i requires 0 <= i < 32 => WordByte(h[i / 4], i % 4))
  }

  function WordByte(w: bv32, k: nat): (b: Byte)
    requires k < 4
  {
    ((w >> (24 - 8 * k)) & 0xFF) as int
  }

  ghost function Digest(m: Bytes): (s: Bytes) { WordBytes(FoldBlocks(INITIAL, Padded(m))) }

  lemma PaddedBlocks(m: Bytes)
    ensures |Padded(m)| % 64 == 0
    ensures |m| + 9 <= |Padded(m)| < |m| + 9 + 64
  {
    assert |Padded(m)| == |m| + 9 + ZeroCount(|m|) by { hide Be, ZeroCount; }
    hide Padded;
    WholeNumber(|m|);
  }

  lemma WholeNumber(n: nat)
    ensures (n + 9 + ZeroCount(n)) % 64 == 0 && ZeroCount(n) < 64
  {}

  // Padding is one to one on messages whose length fits the field.
  lemma PaddedInjective(a: Bytes, b: Bytes)
    requires 8 * |a| < U64 && 8 * |b| < U64 && Padded(a) == Padded(b)
    ensures a == b
  {
    hide Be, Pow256, Zeros, ZeroCount, FromBe;
    var n := |Padded(a)|;
    assert Padded(a)[n - 8..] == Be(8 * |a|, 8) && Padded(b)[n - 8..] == Be(8 * |b|, 8);
    FieldSizes();
    BeRoundTrip(8 * |a|, 8);
    BeRoundTrip(8 * |b|, 8);
    assert Padded(a)[..|a|] == a && Padded(b)[..|a|] == b;
  }

  lemma {:induction false} FoldBlock(s: State, m: Bytes, block: Bytes)
    requires |m| % 64 == 0 && |block| == 64
    ensures FoldBlocks(s, m + block) == Compress(FoldBlocks(s, m), block)
    decreases |m|
  {
    hide Compress;
    if |m| == 0 {
      assert m + block == block && block[..64] == block && block[64..] == [];
    } else {
      assert (m + block)[..64] == m[..64] && (m + block)[64..] == m[64..] + block;
      FoldBlock(Compress(s, m[..64]), m[64..], block);
    }
  }

  class Sha256Ctx {
    var h: State
    var buf: array<Byte>
    var bufLen: nat
    var totalLen: nat
    // Everything absorbed so far.
    ghost var message: Bytes

    // Whole blocks are in h, the rest of the message is in buf.
    ghost predicate Buffered()
      reads this, buf
    {
      && buf.Length == 64
      && bufLen < 64
      && bufLen <= |message|
      && (|message| - bufLen) % 64 == 0
      && h == FoldBlocks(INITIAL, message[..|message| - bufLen])
      && buf[..bufLen] == message[|message| - bufLen..]
    }

    ghost predicate Valid()
      reads this, buf
    {
      Buffered() && totalLen == |message| % U64
    }

    constructor ()
      ensures Valid() && fresh(buf) && message == []
    {
      h := INITIAL;
      buf := new Byte[64](_ => 0);
      bufLen := 0;
      totalLen := 0;
      message := [];
    }

    static lemma Extended(was: Bytes, data: Bytes, whole: nat)
      requires whole <= |was|
      ensures (was + data)[..whole] == was[..whole] && (was + data)[whole..] == was[whole..] + data
    {}

    method CompressBlock()
      requires buf.Length == 64
      modifies this`h
      ensures h == Compress(old(h), buf[..])
    {
      hide Round, AddWords, RoundConstant;
      var w := ExpandSchedule(buf[..]);
      var s := h;
      for i := 0 to 64
        invariant h == old(h)
        invariant s == Rounds(h, buf[..], i)
      {
        SchedulePrefix(buf[..], i + 1, 64);
        assert w[i] == w[..i + 1][i];
        s := Round(s, RoundConstant(i), w[i]);
      }
      h := AddWords(h, s);
    }

    // Takes bytes into the buffer, and a full buffer into h.
    method Take(data: Bytes)
      requires Buffered() && |data| <= 64 - bufLen
      modifies this`h, this`bufLen, this`message, buf
      ensures Buffered() && message == old(message) + data
    {
      hide FoldBlocks, Compress;
      ghost var was, held := message, buf[..bufLen];
      forall i | 0 <= i < |data| { buf[bufLen + i] := data[i]; }
      assert buf[..bufLen + |data|] == held + data;
      bufLen := bufLen + |data|;
      message := message + data;
      ghost var whole := |message| - bufLen;
      Extended(was, data, whole);
      if bufLen == 64 {
        assert buf[..] == buf[..64] == message[whole..];
        assert message == message[..whole] + message[whole..];
        FoldBlock(INITIAL, message[..whole], buf[..]);
        CompressBlock();
        bufLen := 0;
        assert message[..|message|] == message;
      }
    }

    method Update(data: Bytes)
      requires Valid()
      modifies this, buf
      ensures Valid() && buf == old(buf) && message == old(message) + data
    {
      hide FoldBlocks;
      totalLen := (totalLen + |data|) % U64;
      var rest := data;
      while |rest| > 0
        invariant Buffered() && buf == old(buf)
        invariant message + rest == old(message) + data
        invariant totalLen == (old(totalLen) + |data|) % U64
        decreases |rest|
      {
        var take := if |rest| < 64 - bufLen then |rest| else 64 - bufLen;
        Take(rest[..take]);
        assert rest[..take] + rest[take..] == rest;
        rest := rest[take..];
      }
      LengthModulo(|old(message)|, |data|);
    }

    method Finish() returns (out: Bytes)
      requires Valid()
      modifies this, buf
      ensures out == Digest(old(message))
    {
      hide FoldBlocks, Be, WordBytes, Zeros, Padded, ZeroCount;
      ghost var m := message;
      var bitLen := totalLen * 8 % U64;
      Update([0x80]);
      ghost var zeros := 0;
      ZerosNext(0);
      PadPosition(|m|, 0, bufLen);
      while bufLen != 56
        invariant Valid() && buf == old(buf)
        invariant message == m + [0x80] + Zeros(zeros)
        invariant zeros <= ZeroCount(|m|) && (bufLen == 56 <==> zeros == ZeroCount(|m|))
        decreases ZeroCount(|m|) - zeros
      {
        Update([0]);
        ZerosNext(zeros);
        zeros := zeros + 1;
        PadPosition(|m|, zeros, bufLen);
      }
      var lenBe := Be(bitLen, 8);
      Update(lenBe);
      BitLength(|m|);
      PaddedIs(m);
      LastBlockTaken(m, message, bufLen);
      out := WordBytes(h);
    }
  }

  lemma ZerosNext(n: nat)
    ensures Zeros(0) == [] && |Zeros(n)| == n && Zeros(n + 1) == Zeros(n) + [0]
  {}

  // The padding loop stops at the first position that leaves room for the length.
  lemma PadPosition(length: nat, zeros: nat, bufLen: nat)
    requires zeros <= ZeroCount(length) && bufLen < 64 && (length + 1 + zeros - bufLen) % 64 == 0
    ensures bufLen == 56 <==> zeros == ZeroCount(length)
  {}

  lemma LastBlockTaken(m: Bytes, message: Bytes, bufLen: nat)
    requires message == Padded(m)
    requires bufLen < 64 && bufLen <= |message| && (|message| - bufLen) % 64 == 0
    ensures bufLen == 0 && message[..|message| - bufLen] == message
  {
    hide Padded;
    PaddedBlocks(m);
    WholeBlocks(|message|, bufLen);
  }

  lemma PaddedIs(m: Bytes)
    ensures Padded(m) == m + [0x80] + Zeros(ZeroCount(|m|)) + Be(8 * |m| % U64, 8)
  {}

  lemma WholeBlocks(length: nat, bufLen: nat)
    requires length % 64 == 0 && bufLen < 64 && (length - bufLen) % 64 == 0
    ensures bufLen == 0
  {}

  lemma LengthModulo(a: nat, b: nat)
    ensures (a % U64 + b) % U64 == (a + b) % U64
  {
    AddMultiple(a % U64 + b, U64, a / U64);
  }

  lemma BitLength(n: nat)
    ensures n % U64 * 8 % U64 == 8 * n % U64
  {
    AddMultiple(n % U64 * 8, U64, 8 * (n / U64));
  }

  // Any split of the message into updates gives its digest.
  method HashPieces(pieces: seq<Bytes>) returns (out: Bytes)
    ensures out == Digest(Concat(pieces, |pieces|))
  {
    hide Digest, FoldBlocks;
    var ctx := new Sha256Ctx();
    for i := 0 to |pieces|
      invariant ctx.Valid() && fresh(ctx) && fresh(ctx.buf)
      invariant ctx.message == Concat(pieces, i)
    {
      ctx.Update(pieces[i]);
    }
    assert pieces[..|pieces|] == pieces;
    out := ctx.Finish();
  }
}
