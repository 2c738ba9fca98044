// Datagrams: src/packet_codec.cpp, and their encryption in src/transport.cpp.
module PacketCodec {
  import opened Options
  import opened Gf2Poly
  import opened ByteStrings
  import opened Crc32
  import opened WireFields

  type Long = x: int | 0 <= x < 0x1_0000_0000_0000_0000

  const MAGIC: Word := 0x5447_4854
  const VERSION: Byte := 1
  const HEADER_SIZE: nat := 48

  // Packet types are bytes; these two choose the nonce.
  const HANDSHAKE: Byte := 0
  const COMMAND: Byte := 10

  datatype Header = Header(
    magic: Word, version: Byte, kind: Byte, flags: Half, client: Word, session: Long, sequence: Word,
    acknowledgment: Word, messageId: Word, fragmentIndex: Half, fragmentCount: Half, payloadSize: Half,
    reserved: Half, tick: Word, checksum: Word)

  // The low word is read first.
  function GetLong(b: Bytes, off: nat): (v: Long)
    requires off + 8 <= |b|
  {
    GetWord(b, off) + 0x1_0000_0000 * GetWord(b, off + 4)
  }

  // The layout of the 48 bytes.
  function HeaderOf(b: Bytes): (r: Header)
    requires |b| >= HEADER_SIZE
  {
    Header(GetWord(b, 0), b[4], b[5], GetHalf(b, 6), GetWord(b, 8), GetLong(b, 12), GetWord(b, 20),
           GetWord(b, 24), GetWord(b, 28), GetHalf(b, 32), GetHalf(b, 34), GetHalf(b, 36),
           GetHalf(b, 38), GetWord(b, 40), GetWord(b, 44))
  }

  // ---- the header ----

  // The fields that lie within the first n bytes.
  ghost predicate Agrees(b: Bytes, h: Header, n: nat)
    requires HEADER_SIZE <= |b|
  {
    var f := HeaderOf(b);
    && (n >= 4 ==> f.magic == h.magic)
    && (n >= 5 ==> f.version == h.version)
    && (n >= 6 ==> f.kind == h.kind)
    && (n >= 8 ==> f.flags == h.flags)
    && (n >= 12 ==> f.client == h.client)
    && (n >= 20 ==> f.session == h.session)
    && (n >= 24 ==> f.sequence == h.sequence)
    && (n >= 28 ==> f.acknowledgment == h.acknowledgment)
    && (n >= 32 ==> f.messageId == h.messageId)
    && (n >= 34 ==> f.fragmentIndex == h.fragmentIndex)
    && (n >= 36 ==> f.fragmentCount == h.fragmentCount)
    && (n >= 38 ==> f.payloadSize == h.payloadSize)
    && (n >= 40 ==> f.reserved == h.reserved)
    && (n >= 44 ==> f.tick == h.tick)
    && (n >= 48 ==> f.checksum == h.checksum)
  }

  // Fields depend on their own bytes only.
  lemma AgreesKept(a: Bytes, b: Bytes, h: Header, n: nat)
    requires HEADER_SIZE <= |a| && HEADER_SIZE <= |b| && n <= |a| && n <= |b|
    requires Agrees(a, h, n) && a[..n] == b[..n]
    ensures Agrees(b, h, n)
  {
    hide GetWord, GetHalf;
    forall off | 0 <= off && off + 4 <= n
      ensures GetWord(a, off) == GetWord(b, off)
    {
      assert forall k :: off <= k < off + 4 ==> a[k] == a[..n][k] == b[..n][k] == b[k];
      SameWord(a, b, off);
    }
    forall off | 0 <= off && off + 2 <= n
      ensures GetHalf(a, off) == GetHalf(b, off)
    {
      assert forall k :: off <= k < off + 2 ==> a[k] == a[..n][k] == b[..n][k] == b[k];
      SameHalf(a, b, off);
    }
    assert forall k :: 0 <= k < n ==> a[k] == a[..n][k] == b[..n][k] == b[k];
  }

  // ---- writing fields in order: the ones before stay as they are ----

  method PutWord(p: array<Byte>, off: nat, v: Word, ghost h: Header)
    requires HEADER_SIZE <= p.Length && off + 4 <= p.Length && Agrees(p[..], h, off)
    modifies p
    ensures GetWord(p[..], off) == v && Agrees(p[..], h, off)
    ensures forall k :: 0 <= k < off || off + 4 <= k < p.Length ==> p[k] == old(p[k])
  {
    hide Agrees;
    StoreWord(p, off, v);
    assert old(p[..])[..off] == p[..][..off];
    AgreesKept(old(p[..]), p[..], h, off);
  }

  method PutHalf(p: array<Byte>, off: nat, v: Half, ghost h: Header)
    requires HEADER_SIZE <= p.Length && off + 2 <= p.Length && Agrees(p[..], h, off)
    modifies p
    ensures GetHalf(p[..], off) == v && Agrees(p[..], h, off)
    ensures forall k :: 0 <= k < off || off + 2 <= k < p.Length ==> p[k] == old(p[k])
  {
    hide Agrees;
    StoreHalf(p, off, v);
    assert old(p[..])[..off] == p[..][..off];
    AgreesKept(old(p[..]), p[..], h, off);
  }

  method PutByte(p: array<Byte>, off: nat, v: Byte, ghost h: Header)
    requires HEADER_SIZE <= p.Length && off < p.Length && Agrees(p[..], h, off)
    modifies p
    ensures p[off] == v && Agrees(p[..], h, off)
    ensures forall k :: 0 <= k < p.Length && k != off ==> p[k] == old(p[k])
  {
    hide Agrees;
    p[off] := v;
    assert old(p[..])[..off] == p[..][..off];
    AgreesKept(old(p[..]), p[..], h, off);
  }

  // Both words are byte-swapped, and the low one is stored first.
  method PutLong(p: array<Byte>, off: nat, v: Long, ghost h: Header)
    requires HEADER_SIZE <= p.Length && off + 8 <= p.Length && off == 12 && Agrees(p[..], h, off)
    modifies p
    ensures GetLong(p[..], off) == v && Agrees(p[..], h, off)
    ensures forall k :: 0 <= k < off || off + 8 <= k < p.Length ==> p[k] == old(p[k])
  {
    hide GetWord;
    PutWord(p, off, v % 0x1_0000_0000, h);
    ghost var low := p[..];
    PutWord(p, off + 4, v / 0x1_0000_0000, h);
    SameWord(low, p[..], off);
  }

  method EncodeHeaderTo(h: Header, p: array<Byte>)
    requires p.Length >= HEADER_SIZE
    modifies p
    ensures HeaderOf(p[..]) == h.(checksum := 0)
    ensures p[HEADER_SIZE..] == old(p[HEADER_SIZE..])
  {
    hide GetWord, GetHalf, GetLong;
    ghost var g := h.(checksum := 0);
    PutWord(p, 0, h.magic, g);
    PutByte(p, 4, h.version, g);
    PutByte(p, 5, h.kind, g);
    PutHalf(p, 6, h.flags, g);
    PutWord(p, 8, h.client, g);
    PutLong(p, 12, h.session, g);
    PutWord(p, 20, h.sequence, g);
    PutWord(p, 24, h.acknowledgment, g);
    PutWord(p, 28, h.messageId, g);
    PutHalf(p, 32, h.fragmentIndex, g);
    PutHalf(p, 34, h.fragmentCount, g);
    PutHalf(p, 36, h.payloadSize, g);
    PutHalf(p, 38, h.reserved, g);
    PutWord(p, 40, h.tick, g);
    PutWord(p, 44, 0, g);
  }

  // ---- the checksum ----

  const ZEROS: Bytes := [0, 0, 0, 0]

  // The checksum covers everything, with its own field read as zero.
  ghost function Covered(head: Bytes, payload: Bytes): (s: Bytes) { head + ZEROS + payload }

  ghost predicate IsDatagram(h: Header, payload: Bytes, d: Bytes)
  {
    && |d| == HEADER_SIZE + |payload|
    && HeaderOf(d) == h
    && d[HEADER_SIZE..] == payload
    && h.checksum == Crc(Covered(d[..44], payload))
  }

  method FinalizeCrc(t: Table, p: array<Byte>)
    requires t.Valid()
    modifies p
    ensures p.Length < HEADER_SIZE ==> p[..] == old(p[..])
    ensures p.Length >= HEADER_SIZE ==>
      && p[..44] == old(p[..44])
      && p[HEADER_SIZE..] == old(p[HEADER_SIZE..])
      && GetWord(p[..], 44) == Crc(Covered(p[..44], p[HEADER_SIZE..]))
  {
    hide Crc;
    if p.Length < HEADER_SIZE { return; }
    forall i | 44 <= i < 48 { p[i] := 0; }
    assert p[..] == Covered(old(p[..44]), old(p[HEADER_SIZE..]));
    ghost var g := HeaderOf(p[..]);
    var crc := CrcCompute(t, p[..]);
    PutWord(p, 44, crc, g);
  }

  lemma HeaderWithChecksum(a: Bytes, b: Bytes)
    requires HEADER_SIZE <= |a| && HEADER_SIZE <= |b| && a[..44] == b[..44]
    ensures HeaderOf(b) == HeaderOf(a).(checksum := HeaderOf(b).checksum)
  {
    hide GetWord, GetHalf, GetLong;
    AgreesKept(a, b, HeaderOf(a), 44);
  }

  method EncodeTo(t: Table, h: Header, payload: Bytes, p: array<Byte>)
    requires t.Valid() && p.Length == HEADER_SIZE + |payload|
    modifies p
    ensures IsDatagram(h.(checksum := GetWord(p[..], 44)), payload, p[..])
  {
    hide Crc, GetWord;
    EncodeHeaderTo(h, p);
    ghost var encoded := p[..];
    forall i | 0 <= i < |payload| { p[HEADER_SIZE + i] := payload[i]; }
    ghost var plain := p[..];
    AgreesKept(encoded, plain, h.(checksum := 0), HEADER_SIZE);
    assert plain[HEADER_SIZE..] == payload;
    FinalizeCrc(t, p);
    HeaderWithChecksum(plain, p[..]);
  }

  predicate Wellformed(h: Header, payload: Bytes)
  {
    h.magic == MAGIC && h.version == VERSION && h.payloadSize == |payload|
  }

  // A datagram for this payload at the front, whatever follows.
  ghost predicate StartsWith(p: Bytes, h: Header, payload: Bytes)
  {
    && Wellformed(h, payload)
    && HEADER_SIZE + |payload| <= |p|
    && IsDatagram(h, payload, p[..HEADER_SIZE + |payload|])
  }

  method Decode(t: Table, p: Bytes) returns (r: Option<(Header, Bytes)>)
    requires t.Valid()
    ensures forall h, payload :: r == Some((h, payload)) <==> StartsWith(p, h, payload)
  {
    hide Crc, Update, GetWord, GetHalf, GetLong;
    if |p| < HEADER_SIZE { return None; }
    var h := HeaderOf(p);
    ghost var end := HEADER_SIZE + h.payloadSize;
    forall g, payload | StartsWith(p, g, payload)
      ensures g == h && payload == p[HEADER_SIZE..end] && end <= |p|
    {
      HeaderOfPrefix(p, HEADER_SIZE + |payload|);
    }
    if h.magic != MAGIC || h.version != VERSION || |p| < HEADER_SIZE + h.payloadSize { return None; }
    HeaderOfPrefix(p, end);
    var payload := p[HEADER_SIZE..HEADER_SIZE + h.payloadSize];
    assert p[..end][..44] == p[..44] && p[..end][HEADER_SIZE..] == payload;
    var crc := CrcUpdate(t, ONES, p[..44]);
    crc := CrcUpdate(t, crc, ZEROS);
    crc := CrcUpdate(t, crc, payload);
    UpdateConcat(ONES, p[..44], ZEROS);
    UpdateConcat(ONES, p[..44] + ZEROS, payload);
    CrcOfUpdate(Covered(p[..44], payload));
    if Xor(crc, ONES) != h.checksum { return None; }
    r := Some((h, payload));
  }

  lemma CrcOfUpdate(data: Bytes)
    ensures Crc(data) == Xor(Update(ONES, data), ONES)
  {}

  lemma HeaderOfPrefix(p: Bytes, n: nat)
    requires HEADER_SIZE <= n <= |p|
    ensures HeaderOf(p[..n]) == HeaderOf(p)
  {
    hide GetWord, GetHalf, GetLong;
    assert p[..n][..HEADER_SIZE] == p[..HEADER_SIZE];
    AgreesKept(p, p[..n], HeaderOf(p), HEADER_SIZE);
  }

  // A change within at most four consecutive bytes of the payload is noticed.
  lemma CorruptPayloadRejected(h: Header, before: Bytes, x: Bytes, y: Bytes, after: Bytes, d: Bytes, q: Bytes)
    requires |x| == |y| <= 4 && x != y
    requires StartsWith(d, h, before + x + after)
    requires |q| == |d| && q[..HEADER_SIZE] == d[..HEADER_SIZE]
    requires q[HEADER_SIZE..HEADER_SIZE + h.payloadSize] == before + y + after
    ensures forall g, payload :: !StartsWith(q, g, payload)
  {
    hide Crc, GetWord, GetHalf, GetLong;
    var end := HEADER_SIZE + h.payloadSize;
    HeaderOfPrefix(d, end);
    HeaderOfPrefix(d, HEADER_SIZE);
    HeaderOfPrefix(q, HEADER_SIZE);
    var head := d[..44];
    assert head == d[..HEADER_SIZE][..44] == q[..44] == d[..end][..44] == q[..end][..44];
    BurstDetected(head + ZEROS + before, x, y, after);
    assert Covered(head, before + x + after) == head + ZEROS + before + x + after;
    assert Covered(head, before + y + after) == head + ZEROS + before + y + after;
    forall g, payload | StartsWith(q, g, payload)
      ensures payload == before + y + after && g == h
    {
      HeaderOfPrefix(q, HEADER_SIZE + |payload|);
    }
  }

  // And so is one within the covered part of the header, as long as it leaves the size of the payload.
  lemma CorruptHeaderRejected(h: Header, payload: Bytes, before: Bytes, x: Bytes, y: Bytes, after: Bytes,
                              d: Bytes, q: Bytes)
    requires |x| == |y| <= 4 && x != y && |before + x + after| == 44
    requires StartsWith(d, h, payload) && d[..44] == before + x + after
    requires |q| == |d| && q[..44] == before + y + after && q[44..] == d[44..]
    requires GetHalf(q, 36) == GetHalf(d, 36)
    ensures forall g, other :: !StartsWith(q, g, other)
  {
    hide Crc, GetWord, GetHalf, GetLong;
    var end := HEADER_SIZE + h.payloadSize;
    HeaderOfPrefix(d, end);
    BurstDetected(before, x, y, after + ZEROS + payload);
    assert Covered(d[..44], payload) == before + x + (after + ZEROS + payload);
    assert Covered(q[..44], payload) == before + y + (after + ZEROS + payload);
    assert d[..end][..44] == d[..44] && q[..end][..44] == q[..44];
    SameTail(d, q);
    SameWord(d, q, 44);
    assert d[..end][HEADER_SIZE..] == q[..end][HEADER_SIZE..];
    forall g, other | StartsWith(q, g, other)
      ensures other == payload && g.checksum == h.checksum
    {
      HeaderOfPrefix(q, HEADER_SIZE + |other|);
    }
  }

  lemma SameTail(d: Bytes, q: Bytes)
    requires HEADER_SIZE <= |d| == |q| && d[44..] == q[44..]
    ensures forall k :: 44 <= k < |d| ==> d[k] == q[k]
  {
    assert forall k | 44 <= k < |d| :: d[k] == d[44..][k - 44] == q[44..][k - 44] == q[k];
  }

  // ---- the layout ----

  // Network byte order throughout, except that the low word of the session comes first.
  ghost function Layout(h: Header): (b: Bytes)
  {
    Be(h.magic, 4) + [h.version, h.kind] + Be(h.flags, 2) + Be(h.client, 4)
    + Be(h.session % U32, 4) + Be(h.session / U32, 4)
    + Be(h.sequence, 4) + Be(h.acknowledgment, 4) + Be(h.messageId, 4)
    + Be(h.fragmentIndex, 2) + Be(h.fragmentCount, 2) + Be(h.payloadSize, 2) + Be(h.reserved, 2)
    + Be(h.tick, 4) + Be(h.checksum, 4)
  }

  // What the encoder writes and the decoder reads.
  lemma HeaderLayout(b: Bytes)
    requires |b| >= HEADER_SIZE
    ensures b[..HEADER_SIZE] == Layout(HeaderOf(b))
  {
    hide GetWord, GetHalf, Be;
    var h := HeaderOf(b);
    WordAt(b, 0);
    HalfAt(b, 6);
    WordAt(b, 8);
    WordAt(b, 12);
    WordAt(b, 16);
    WordAt(b, 20);
    assert h.session % U32 == GetWord(b, 12) && h.session / U32 == GetWord(b, 16);
    WordAt(b, 24);
    WordAt(b, 28);
    HalfAt(b, 32);
    HalfAt(b, 34);
    HalfAt(b, 36);
    HalfAt(b, 38);
    WordAt(b, 40);
    WordAt(b, 44);
    assert b[..8] == Be(h.magic, 4) + [h.version, h.kind] + Be(h.flags, 2);
    assert b[..20] == b[..8] + b[8..12] + b[12..16] + b[16..20];
    assert b[..32] == b[..20] + b[20..24] + b[24..28] + b[28..32];
    assert b[..40] == b[..32] + b[32..34] + b[34..36] + b[36..38] + b[38..40];
    assert b[..48] == b[..40] + b[40..44] + b[44..48];
  }

  // ---- the layout loses nothing ----

  lemma HeaderInjective(a: Bytes, b: Bytes)
    requires HEADER_SIZE <= |a| && HEADER_SIZE <= |b| && HeaderOf(a) == HeaderOf(b)
    ensures a[..HEADER_SIZE] == b[..HEADER_SIZE]
  {
    hide GetWord, GetHalf;
    assert HeaderOf(a).version == HeaderOf(b).version && HeaderOf(a).kind == HeaderOf(b).kind;
    WordBytes(a, b, 0);
    HalfBytes(a, b, 6);
    WordBytes(a, b, 8);
    assert HeaderOf(a).session == HeaderOf(b).session;
    WordBytes(a, b, 12);
    WordBytes(a, b, 16);
    WordBytes(a, b, 20);
    WordBytes(a, b, 24);
    WordBytes(a, b, 28);
    HalfBytes(a, b, 32);
    HalfBytes(a, b, 34);
    HalfBytes(a, b, 36);
    HalfBytes(a, b, 38);
    WordBytes(a, b, 40);
    WordBytes(a, b, 44);
  }
}
