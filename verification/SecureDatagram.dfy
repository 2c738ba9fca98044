// Sealed datagrams: build_nonce, build_wire_packet and decrypt_payload of src/transport.cpp.
module SecureDatagram {
  import opened Options
  import opened ByteStrings
  import opened Crc32
  import opened WireFields
  import opened Gcm
  import opened PacketCodec
  import Fragmenter

  const ENCRYPTED: Half := 0x8000
  const TAG_SIZE: nat := 16

  function NonceOf(h: Header): (r: Nonce)
  {
    if h.kind == COMMAND then
      Be(h.client, 4) + Be(h.sequence, 4) + [h.kind, 0, 0, 0]
    else
      Be(h.client, 4) + Be(h.messageId, 4) + Be(h.fragmentIndex, 2) + [h.kind, 0]
  }

  // What makes a nonce fresh: commands by sequence, everything else by message and fragment.
  predicate SameNonceFields(a: Header, b: Header)
  {
    && a.client == b.client
    && a.kind == b.kind
    && (if a.kind == COMMAND then a.sequence == b.sequence
        else a.messageId == b.messageId && a.fragmentIndex == b.fragmentIndex)
  }

  lemma BeInjective(a: nat, b: nat, n: nat)
    requires a < Pow256(n) && b < Pow256(n) && Be(a, n) == Be(b, n)
    ensures a == b
  {
    BeRoundTrip(a, n);
    BeRoundTrip(b, n);
  }

  lemma NonceUnique(a: Header, b: Header)
    requires a.kind != HANDSHAKE && b.kind != HANDSHAKE
    ensures NonceOf(a) == NonceOf(b) <==> SameNonceFields(a, b)
  {
    hide Be;
    FieldSizes();
    var m, n := NonceOf(a), NonceOf(b);
    if m == n {
      assert m[..4] == Be(a.client, 4) && n[..4] == Be(b.client, 4);
      BeInjective(a.client, b.client, 4);
      assert m[4..8] == Be(if a.kind == COMMAND then a.sequence else a.messageId, 4);
      assert n[4..8] == Be(if b.kind == COMMAND then b.sequence else b.messageId, 4);
      BeInjective(if a.kind == COMMAND then a.sequence else a.messageId,
                  if b.kind == COMMAND then b.sequence else b.messageId, 4);
      assert m[10] == if a.kind == COMMAND then 0 else a.kind;
      assert n[10] == if b.kind == COMMAND then 0 else b.kind;
      if a.kind != COMMAND {
        assert m[8..10] == Be(a.fragmentIndex, 2) && n[8..10] == Be(b.fragmentIndex, 2);
        BeInjective(a.fragmentIndex, b.fragmentIndex, 2);
      }
    }
  }

  // The nonce does not depend on the fields that encryption rewrites.
  lemma NonceOfWire(h: Header, flags: Half, size: Half, checksum: Word)
    ensures NonceOf(h.(flags := flags, payloadSize := size, checksum := checksum)) == NonceOf(h)
  {}

  // The first 44 bytes of an encoded header: the additional authenticated data.
  ghost predicate IsHead(h: Header, head: Bytes)
  {
    |head| == 44 && HeaderOf(head + ZEROS) == h.(checksum := 0)
  }

  lemma HeadUnique(h: Header, a: Bytes, b: Bytes)
    requires IsHead(h, a) && IsHead(h, b)
    ensures a == b
  {
    hide GetWord, GetHalf, GetLong;
    HeaderInjective(a + ZEROS, b + ZEROS);
    assert a == (a + ZEROS)[..44] && b == (b + ZEROS)[..44];
  }

  function WireHeader(h: Header, size: nat): (r: Header)
    requires size + TAG_SIZE < 0x1_0000
  {
    h.(flags := if h.flags < ENCRYPTED then h.flags + ENCRYPTED else h.flags, payloadSize := size + TAG_SIZE)
  }

  // What the wire carries for a payload.
  ghost predicate Carries(e: Option<Cipher>, h: Header, payload: Bytes, d: Bytes)
    requires e.Some? ==> |payload| + TAG_SIZE < 0x1_0000
  {
    if e.None? then
      |d| >= HEADER_SIZE && IsDatagram(h.(checksum := GetWord(d, 44)), payload, d)
    else
      && |d| == HEADER_SIZE + |payload| + TAG_SIZE
      && IsDatagram(WireHeader(h, |payload|).(checksum := GetWord(d, 44)), d[HEADER_SIZE..], d)
      && Sealed(e.value, NonceOf(h), d[..44], payload,
                d[HEADER_SIZE..HEADER_SIZE + |payload|], d[HEADER_SIZE + |payload|..])
  }

  method BuildWirePacket(t: Table, e: Option<Cipher>, h: Header, payload: Bytes) returns (d: array<Byte>)
    requires t.Valid()
    requires |payload| == h.payloadSize
    requires e.Some? ==> |payload| + TAG_SIZE < 0x1_0000
    ensures fresh(d) && Carries(e, h, payload, d[..])
  {
    hide Crc, GetWord, GetHalf, GetLong, Sealed;
    var wire := if e.Some? then WireHeader(h, |payload|) else h;
    d := new Byte[HEADER_SIZE + wire.payloadSize];
    EncodeHeaderTo(wire, d);
    ghost var head := d[..];
    if e.None? {
      forall i | 0 <= i < |payload| { d[HEADER_SIZE + i] := payload[i]; }
      assert d[HEADER_SIZE..] == payload;
    } else {
      var ct := new Byte[|payload|];
      NonceOfWire(h, wire.flags, wire.payloadSize, h.checksum);
      var tag := Encrypt(e.value, NonceOf(wire), d[..44], payload, ct);
      ghost var sealed := ct[..];
      assert Sealed(e.value, NonceOf(h), head[..44], payload, sealed, tag);
      forall i | 0 <= i < |payload| { d[HEADER_SIZE + i] := ct[i]; }
      forall i | 0 <= i < TAG_SIZE { d[HEADER_SIZE + |payload| + i] := tag[i]; }
      assert d[HEADER_SIZE..HEADER_SIZE + |payload|] == sealed && d[HEADER_SIZE + |payload|..] == tag;
    }

    ghost var plain := d[..];
    assert plain[..HEADER_SIZE] == head[..HEADER_SIZE];
    AgreesKept(head, plain, wire.(checksum := 0), HEADER_SIZE);
    FinalizeCrc(t, d);
    HeaderWithChecksum(plain, d[..]);
    assert d[..44] == plain[..44] == plain[..HEADER_SIZE][..44] == head[..HEADER_SIZE][..44] == head[..44];
    if e.Some? { SealedSlices(plain, d[..], |payload|); }
  }

  lemma SealedSlices(a: Bytes, b: Bytes, n: nat)
    requires HEADER_SIZE + n <= |a| == |b| && a[HEADER_SIZE..] == b[HEADER_SIZE..]
    ensures a[HEADER_SIZE..HEADER_SIZE + n] == b[HEADER_SIZE..HEADER_SIZE + n]
    ensures a[HEADER_SIZE + n..] == b[HEADER_SIZE + n..]
  {
    assert forall x: Bytes | |x| == |a| :: x[HEADER_SIZE..HEADER_SIZE + n] == x[HEADER_SIZE..][..n];
    assert forall x: Bytes | |x| == |a| :: x[HEADER_SIZE + n..] == x[HEADER_SIZE..][n..];
  }

  method DecryptPayload(t: Table, e: Option<Cipher>, h: Header, payload: Bytes)
    returns (r: Option<(Header, Bytes)>)
    requires t.Valid()
    ensures forall head, g, plain | IsHead(h, head) :: r == Some((g, plain)) <==>
      && e.Some?
      && |payload| == |plain| + TAG_SIZE
      && g == h.(payloadSize := |plain| % 0x1_0000, flags := h.flags % ENCRYPTED)
      && Sealed(e.value, NonceOf(h), head, plain, payload[..|plain|], payload[|plain|..])
  {
    hide Crc, GetWord, GetHalf, GetLong, Sealed;
    if e.None? || |payload| < TAG_SIZE { return None; }
    var size := |payload| - TAG_SIZE;
    var aad := new Byte[HEADER_SIZE];
    EncodeTo(t, h, [], aad);
    HeadOfEncoding(h, aad[..]);
    ghost var head := aad[..44];
    forall other | IsHead(h, other) ensures other == head { HeadUnique(h, other, head); }
    var plain := new Byte[size];
    var ok := Decrypt(e.value, NonceOf(h), aad[..44], payload[..size], payload[size..], plain);
    forall p, q | Sealed(e.value, NonceOf(h), head, p, payload[..size], payload[size..])
               && Sealed(e.value, NonceOf(h), head, q, payload[..size], payload[size..])
      ensures p == q
    {
      SealedOnce(e.value, NonceOf(h), head, p, q, payload[..size], payload[size..]);
    }
    if !ok { return None; }
    r := Some((h.(payloadSize := size % 0x1_0000, flags := h.flags % ENCRYPTED), plain[..]));
  }

  lemma HeadOfEncoding(h: Header, d: Bytes)
    requires |d| >= HEADER_SIZE && HeaderOf(d) == h.(checksum := GetWord(d, 44))
    ensures IsHead(h, d[..44])
  {
    hide GetHalf, GetLong;
    assert (d[..44] + ZEROS)[..44] == d[..44];
    hide GetWord;
    HeaderWithChecksum(d, d[..44] + ZEROS);
    ZeroWord(d[..44]);
  }

  lemma ZeroWord(head: Bytes)
    requires |head| == 44
    ensures GetWord(head + ZEROS, 44) == 0
  {
    assert (head + ZEROS)[44..48] == ZEROS;
    FromBeZeros(ZEROS);
  }

  // The header and payload behind a received datagram.
  ghost predicate Opens(e: Option<Cipher>, p: Bytes, h: Header, payload: Bytes)
  {
    exists g: Header, body: Bytes ::
      && StartsWith(p, g, body)
      && (if g.flags < ENCRYPTED then h == g && payload == body
          else
            && e.Some?
            && |body| == |payload| + TAG_SIZE
            && h == g.(payloadSize := |payload| % 0x1_0000, flags := g.flags % ENCRYPTED)
            && Sealed(e.value, NonceOf(g), p[..44], payload, body[..|payload|], body[|payload|..]))
  }

  // The receive loop: decode, and open what is flagged.
  method Receive(t: Table, e: Option<Cipher>, p: Bytes) returns (r: Option<(Header, Bytes)>)
    requires t.Valid()
    ensures forall h: Header, payload: Bytes :: r == Some((h, payload)) <==> Opens(e, p, h, payload)
  {
    hide Crc, GetWord, GetHalf, GetLong, Sealed, IsDatagram;
    r := Decode(t, p);
    if r.None? { return None; }
    var (g, body) := r.value;
    assert StartsWith(p, g, body);
    if g.flags >= ENCRYPTED {
      HeadOfDatagram(p, g, body);
      assert IsHead(g, p[..44]);
      r := DecryptPayload(t, e, g, body);
    }
  }

  lemma HeadOfDatagram(p: Bytes, g: Header, body: Bytes)
    requires StartsWith(p, g, body)
    ensures IsHead(g, p[..44])
  {
    hide GetWord, GetHalf, GetLong, Crc;
    HeaderOfPrefix(p, HEADER_SIZE + |body|);
    HeadOfEncoding(g, p);
  }

  // The datagram in front of whatever follows.
  lemma InFront(d: Bytes, trailing: Bytes, h: Header, payload: Bytes)
    requires IsDatagram(h, payload, d) && Wellformed(h, payload)
    ensures StartsWith(d + trailing, h, payload) && (d + trailing)[..44] == d[..44]
  {
    hide IsDatagram;
    assert |d| == HEADER_SIZE + |payload| by { SizeOfDatagram(h, payload, d); }
    assert (d + trailing)[..|d|] == d;
    assert (d + trailing)[..44] == d[..44];
  }

  lemma SizeOfDatagram(h: Header, payload: Bytes, d: Bytes)
    requires IsDatagram(h, payload, d)
    ensures |d| == HEADER_SIZE + |payload|
  {
    hide Crc, GetWord, GetHalf, GetLong;
  }

  // A full fragment fits the mtu on the wire if and only if it is not sealed: the fragments leave no
  // room for the tag.
  lemma FitsMtu(e: Option<Cipher>, h: Header, payload: Bytes, d: Bytes, mtu: nat)
    requires |payload| == Fragmenter.FragPayload(mtu)
    requires e.Some? ==> |payload| + TAG_SIZE < 0x1_0000
    requires Carries(e, h, payload, d)
    ensures |d| == 48 + |payload| + if e.Some? then 16 else 0
    ensures |d| <= mtu <==> mtu > 52 && e.None?
    ensures mtu > 52 && e.Some? ==> |d| == mtu + 16
  {
    hide GetWord, GetHalf, GetLong, Crc, Sealed;
  }

  // The wire round trip, sealed or not, whatever follows the datagram: it succeeds if and only if the
  // sender's own flags leave the bit free that marks sealed packets.
  lemma WireRoundTrip(e: Option<Cipher>, h: Header, payload: Bytes, d: Bytes, trailing: Bytes)
    requires h.magic == MAGIC && h.version == VERSION && h.payloadSize == |payload|
    requires e.Some? ==> |payload| + TAG_SIZE < 0x1_0000
    requires Carries(e, h, payload, d)
    ensures Opens(e, d + trailing, h.(checksum := GetWord(d, 44)), payload) <==> h.flags < ENCRYPTED
  {
    hide GetWord, GetHalf, GetLong, Crc, Sealed;
    hide IsDatagram, StartsWith;
    if h.flags >= ENCRYPTED {
    } else if e.None? {
      InFront(d, trailing, h.(checksum := GetWord(d, 44)), payload);
    } else {
      var g, body := WireHeader(h, |payload|).(checksum := GetWord(d, 44)), d[HEADER_SIZE..];
      InFront(d, trailing, g, body);
      NonceOfWire(h, g.flags, g.payloadSize, g.checksum);
      assert body[..|payload|] == d[HEADER_SIZE..HEADER_SIZE + |payload|];
      assert body[|payload|..] == d[HEADER_SIZE + |payload|..];
    }
  }
}
