// Counter mode and authentication: aes256_gcm_encrypt and aes256_gcm_decrypt of src/crypto.cpp,
// over an arbitrary block cipher.
module Gcm {
  import opened Gf2Poly
  import opened DivMod
  import opened ByteStrings
  import opened Ghash

  // A key and its block cipher.
  type Cipher = Block -> Block

  type Nonce = n: Bytes | |n| == 12 witness [0, 0, 0, 0, 0, 0, 0, 0, 0, 0, 0, 0]

  const WRAP: nat := 0x1_0000_0000

  // ---- counter mode ----

  // The last four bytes, big-endian.
  function Counter(b: Block): (n: nat)
    ensures n < WRAP
  {
    b[12] as int * 0x100_0000 + b[13] as int * 0x1_0000 + b[14] as int * 0x100 + b[15] as int
  }

  function WithCounter(b: Block, n: nat): (r: Block)
    requires n < WRAP
    ensures Counter(r) == n && r[..12] == b[..12]
  {
    var h, l := n / 0x1_0000, n % 0x1_0000;
    b[..12] + [h / 0x100, h % 0x100, l / 0x100, l % 0x100]
  }

  lemma SameCounter(a: Block, b: Block)
    requires a[..12] == b[..12] && Counter(a) == Counter(b)
    ensures a == b
  {
    var h, k := a[12] as int * 0x100 + a[13] as int, b[12] as int * 0x100 + b[13] as int;
    var l, m := a[14] as int * 0x100 + a[15] as int, b[14] as int * 0x100 + b[15] as int;
    assert Counter(a) == h * 0x1_0000 + l && Counter(b) == k * 0x1_0000 + m;
    assert a == a[..12] + [a[12], a[13], a[14], a[15]];
    assert b == b[..12] + [b[12], b[13], b[14], b[15]];
  }

  // The block k increments after j0.
  function CounterBlock(j0: Block, k: nat): (r: Block)
  {
    WithCounter(j0, (Counter(j0) + k) % WRAP)
  }

  // No two blocks of the key stream come from the same counter block below the wrap.
  lemma CountersDistinct(j0: Block, a: nat, b: nat)
    requires a < b < a + WRAP
    ensures CounterBlock(j0, a) != CounterBlock(j0, b)
  {
    hide WithCounter;
    SmallGap(Counter(j0) + a, Counter(j0) + b);
  }

  lemma SmallGap(c: nat, d: nat)
    requires c < d < c + WRAP
    ensures c % WRAP != d % WRAP
  {}

  // The data xor-ed with the key stream, 16 bytes from each counter block.
  function Crypt(e: Cipher, j0: Block, data: Bytes): (r: Bytes)
    ensures |r| == |data|
  {
    seq(|data|, i requires 0 <= i < |data| => XorByte(data[i], e(CounterBlock(j0, 1 + i / 16))[i % 16]))
  }

  lemma XorByteTwice(a: Byte, b: Byte)
    ensures XorByte(XorByte(a, b), b) == a
    ensures XorByte(a, b) == 0 <==> a == b
  {
    hide Xor;
    XorCancel(a, b);
    XorSelf(b);
    XorZero(b);
  }

  lemma CryptTwice(e: Cipher, j0: Block, data: Bytes)
    ensures Crypt(e, j0, Crypt(e, j0, data)) == data
  {
    hide XorByte, CounterBlock;
    forall i | 0 <= i < |data|
      ensures Crypt(e, j0, Crypt(e, j0, data))[i] == data[i]
    {
      XorByteTwice(data[i], e(CounterBlock(j0, 1 + i / 16))[i % 16]);
    }
  }

  // The last four bytes count up: the carry goes on while a byte wraps to zero.
  method Increment(ctr: array<Byte>)
    requires ctr.Length == 16
    modifies ctr
    ensures ctr[..12] == old(ctr[..12])
    ensures Counter(ctr[..]) == (Counter(old(ctr[..])) + 1) % WRAP
  {
    ghost var was: Block := ctr[..];
    for i := 16 downto 12
      invariant forall k :: 0 <= k < i ==> ctr[k] == was[k]
      invariant forall k :: i <= k < 16 ==> ctr[k] == 0 && was[k] == 255
    {
      ctr[i] := (ctr[i] as int + 1) % 256;
      if ctr[i] != 0 { break; }
    }
    CarryOut(was, ctr[..]);
  }

  // Adding one to the byte after the trailing 255s adds one to the counter.
  lemma CarryOut(was: Block, now: Block)
    requires now[..12] == was[..12]
    requires
      || (now[15] as int == was[15] as int + 1 && now[..15] == was[..15])
      || (was[15] == 255 && now[15] == 0 && now[14] as int == was[14] as int + 1 && now[..14] == was[..14])
      || (was[14..] == [255, 255] && now[14..] == [0, 0] && now[13] as int == was[13] as int + 1 && now[12] == was[12])
      || (was[13..] == [255, 255, 255] && now[13..] == [0, 0, 0] && now[12] as int == was[12] as int + 1)
      || (was[12..] == [255, 255, 255, 255] && now[12..] == [0, 0, 0, 0])
    ensures Counter(now) == (Counter(was) + 1) % WRAP
  {
  }

  method XorStream(input: Bytes, pos: nat, take: nat, ks: Block, output: array<Byte>)
    requires take <= 16 && pos + take <= |input| <= output.Length
    modifies output
    ensures forall q :: 0 <= q < take ==> output[pos + q] == XorByte(input[pos + q], ks[q])
    ensures forall p :: 0 <= p < pos || pos + take <= p < output.Length ==> output[p] == old(output[p])
  {
    hide XorByte;
    for i := 0 to take
      invariant forall q :: 0 <= q < i ==> output[pos + q] == XorByte(input[pos + q], ks[q])
      invariant forall p :: 0 <= p < pos || pos + i <= p < output.Length ==> output[p] == old(output[p])
    {
      output[pos + i] := XorByte(input[pos + i], ks[i]);
    }
  }

  lemma CryptByte(e: Cipher, j0: Block, data: Bytes, k: nat, q: nat)
    requires q < 16 && 16 * k + q < |data|
    ensures Crypt(e, j0, data)[16 * k + q] == XorByte(data[16 * k + q], e(CounterBlock(j0, k + 1))[q])
  {
    hide XorByte, CounterBlock;
    assert (16 * k + q) / 16 == k && (16 * k + q) % 16 == q;
  }

  method CryptInto(e: Cipher, j0: Block, input: Bytes, output: array<Byte>)
    requires output.Length >= |input|
    modifies output
    ensures output[..|input|] == Crypt(e, j0, input)
    ensures output[|input|..] == old(output[|input|..])
  {
    hide XorByte, Counter, WithCounter, CounterBlock, Crypt;
    var ctr := new Byte[16](i requires 0 <= i < 16 => j0[i]);
    var pos := 0;
    ghost var k, goal := 0, Crypt(e, j0, input);
    StartCounter(j0);
    assert ctr[..] == j0;
    while pos < |input|
      invariant 0 <= pos <= |input| && (pos < |input| ==> pos == 16 * k)
      invariant ctr[..] == CounterBlock(j0, k)
      invariant forall p :: 0 <= p < pos ==> output[p] == goal[p]
      invariant forall p :: |input| <= p < output.Length ==> output[p] == old(output[p])
    {
      Increment(ctr);
      NextCounter(j0, k, ctr[..]);
      var ks := e(ctr[..]);
      var take := if |input| - pos < 16 then |input| - pos else 16;
      ghost var done := output[..pos];
      XorStream(input, pos, take, ks, output);
      forall p | 0 <= p < pos + take
        ensures output[p] == goal[p]
      {
        if p < pos {
          assert output[p] == done[p];
        } else {
          CryptByte(e, j0, input, k, p - pos);
          assert output[pos + (p - pos)] == XorByte(input[p], ks[p - pos]);
        }
      }
      k := k + 1;
      pos := pos + take;
    }
  }

  lemma StartCounter(j0: Block)
    ensures CounterBlock(j0, 0) == j0
  {
    SameCounter(CounterBlock(j0, 0), j0);
  }

  lemma NextCounter(j0: Block, k: nat, next: Block)
    requires next[..12] == CounterBlock(j0, k)[..12]
    requires Counter(next) == (Counter(CounterBlock(j0, k)) + 1) % WRAP
    ensures next == CounterBlock(j0, k + 1)
  {
    hide Counter, WithCounter;
    AddModulo(Counter(j0) + k);
    SameCounter(next, CounterBlock(j0, k + 1));
  }

  lemma AddModulo(c: nat)
    ensures (c % WRAP + 1) % WRAP == (c + 1) % WRAP
  {}

  // ---- the tag ----

  // The block before the first of the key stream.
  function J0(nonce: Nonce): (j0: Block)
    ensures j0[..12] == nonce && Counter(j0) == 1
  {
    nonce + [0, 0, 0, 1]
  }

  // Both lengths in bits, 64 bits each.
  function LengthBlock(aadLen: nat, ctLen: nat): (r: Block)
  {
    Be(aadLen * 8 % U64, 8) + Be(ctLen * 8 % U64, 8)
  }

  lemma LengthsRecorded(aadLen: nat, ctLen: nat)
    requires 8 * aadLen < U64 && 8 * ctLen < U64
    ensures FromBe(LengthBlock(aadLen, ctLen)[..8]) == 8 * aadLen
    ensures FromBe(LengthBlock(aadLen, ctLen)[8..]) == 8 * ctLen
  {
    hide Be, FromBe, Pow256;
    FieldSizes();
    BeRoundTrip(8 * aadLen, 8);
    BeRoundTrip(8 * ctLen, 8);
    assert LengthBlock(aadLen, ctLen)[..8] == Be(8 * aadLen, 8);
    assert LengthBlock(aadLen, ctLen)[8..] == Be(8 * ctLen, 8);
  }

  ghost predicate IsTag(e: Cipher, nonce: Nonce, aad: Bytes, ct: Bytes, tag: Block)
  {
    var h := Poly(e(PadBlock([])));
    Poly(tag) == Xor(GhashPoly(GhashPoly(GhashPoly(0, h, aad), h, ct), h, LengthBlock(|aad|, |ct|)),
                     Poly(e(J0(nonce))))
  }

  method PutBe64(block: array<Byte>, off: nat, v: nat)
    requires off + 8 <= block.Length && v < U64
    modifies block
    ensures block[..] == old(block[..off]) + Be(v, 8) + old(block[off + 8..])
  {
    hide Pow2;
    forall i | 0 <= i < 8 { block[off + i] := v / Pow2(56 - i * 8) % 256; }
    forall i | 0 <= i < 8
      ensures Be(v, 8)[i] == v / Pow2(56 - i * 8) % 256
    {
      KnownPowers();
      BeDigit(v, 8, i);
    }
  }

  method ComputeTag(e: Cipher, j0: Block, aad: Bytes, ct: Bytes) returns (tag: Block)
    ensures forall nonce :: j0 == J0(nonce) ==> IsTag(e, nonce, aad, ct, tag)
  {
    hide Poly, GhashPoly, Be;
    var h := e(PadBlock([]));
    var x := new Byte[16](_ => 0);
    PolyZeros(x[..]);
    GhashUpdate(x, h, aad);
    GhashUpdate(x, h, ct);
    var lengths := new Byte[16](_ => 0);
    PutBe64(lengths, 0, |aad| * 8 % U64);
    PutBe64(lengths, 8, |ct| * 8 % U64);
    assert lengths[..] == LengthBlock(|aad|, |ct|);
    GhashUpdate(x, h, lengths[..]);
    PolyXor(x[..], e(j0));
    tag := XorAll(x[..], e(j0));
  }

  // ---- sealing and opening ----

  // What aes256_gcm_encrypt writes for a plaintext.
  ghost predicate Sealed(e: Cipher, nonce: Nonce, aad: Bytes, plain: Bytes, ct: Bytes, tag: Block)
  {
    ct == Crypt(e, J0(nonce), plain) && IsTag(e, nonce, aad, ct, tag)
  }

  method Encrypt(e: Cipher, nonce: Nonce, aad: Bytes, plain: Bytes, ct: array<Byte>) returns (tag: Block)
    requires ct.Length == |plain|
    modifies ct
    ensures Sealed(e, nonce, aad, plain, ct[..], tag)
  {
    hide Crypt, IsTag;
    CryptInto(e, J0(nonce), plain, ct);
    assert ct[..] == ct[..|plain|];
    tag := ComputeTag(e, J0(nonce), aad, ct[..]);
  }

  // aes256_gcm_decrypt; the output is untouched when the tag is refused.
  method Decrypt(e: Cipher, nonce: Nonce, aad: Bytes, ct: Bytes, tag: Block, plain: array<Byte>)
    returns (ok: bool)
    requires plain.Length == |ct|
    modifies plain
    ensures ok <==> exists p :: Sealed(e, nonce, aad, p, ct, tag)
    ensures ok ==> Sealed(e, nonce, aad, plain[..], ct, tag)
    ensures !ok ==> plain[..] == old(plain[..])
  {
    hide Crypt, IsTag, XorByte;
    var wanted := ComputeTag(e, J0(nonce), aad, ct);
    var diff := false;
    for i := 0 to 16
      invariant diff <==> wanted[..i] != tag[..i]
      invariant plain[..] == old(plain[..])
    {
      XorByteTwice(wanted[i], tag[i]);
      diff := diff || XorByte(wanted[i], tag[i]) != 0;
      assert wanted[..i + 1] == wanted[..i] + [wanted[i]] && tag[..i + 1] == tag[..i] + [tag[i]];
    }
    assert wanted[..16] == wanted && tag[..16] == tag;
    OneTag(e, nonce, aad, ct, wanted, tag);
    if diff { return false; }
    CryptInto(e, J0(nonce), ct, plain);
    assert plain[..] == plain[..|ct|];
    CryptTwice(e, J0(nonce), ct);
    assert Sealed(e, nonce, aad, plain[..], ct, tag);
    ok := true;
  }

  lemma OneTag(e: Cipher, nonce: Nonce, aad: Bytes, ct: Bytes, tag: Block, other: Block)
    requires IsTag(e, nonce, aad, ct, tag)
    ensures IsTag(e, nonce, aad, ct, other) <==> other == tag
  {
    hide Poly, GhashPoly;
    if Poly(other) == Poly(tag) { PolyInjective(other, tag); }
  }

  // Decrypting what was encrypted gives the plaintext, and only that.
  lemma SealedOnce(e: Cipher, nonce: Nonce, aad: Bytes, plain: Bytes, other: Bytes, ct: Bytes, tag: Block)
    requires Sealed(e, nonce, aad, plain, ct, tag)
    ensures Sealed(e, nonce, aad, other, ct, tag) <==> other == plain
  {
    hide IsTag, Crypt;
    CryptTwice(e, J0(nonce), plain);
    CryptTwice(e, J0(nonce), other);
  }

  // Below the wrap no counter block is used twice, and none is the one that masks the tag.
  lemma FreshKeyStream(nonce: Nonce, length: nat, i: nat, j: nat)
    requires length < 16 * (WRAP - 2)
    requires i < j <= (length + 15) / 16
    ensures CounterBlock(J0(nonce), i) != CounterBlock(J0(nonce), j)
    ensures CounterBlock(J0(nonce), 0) == J0(nonce)
  {
    StartCounter(J0(nonce));
    CountersDistinct(J0(nonce), i, j);
  }

  // What was encrypted is accepted and comes back.
  method SealThenOpen(e: Cipher, nonce: Nonce, aad: Bytes, plain: Bytes) returns (ok: bool, back: Bytes)
    ensures ok && back == plain
  {
    hide Sealed;
    var ct := new Byte[|plain|];
    var tag := Encrypt(e, nonce, aad, plain, ct);
    var output := new Byte[|plain|];
    ok := Decrypt(e, nonce, aad, ct[..], tag, output);
    back := output[..];
    SealedOnce(e, nonce, aad, plain, back, ct[..], tag);
  }
}
