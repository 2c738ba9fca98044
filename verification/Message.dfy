// One application message on the wire: the length-prefixed stream, its fragments and parities.
module Message {
  import opened Numbers
  import opened ByteStrings
  import opened ErasureCode

  // The header fields that the receiving side reads, and the payload.
  datatype Packet = Packet(messageId: nat, index: nat, count: nat, flags: nat, reserved: nat, payload: Bytes)

  const REAL_SIZE_LIMIT: nat := 0x1000

  // Twelve bits of size below four bits of channel.
  function PackReserved(realSize: nat, channel: nat): (r: nat)
    ensures r < U16
  {
    realSize % REAL_SIZE_LIMIT + channel % 16 * REAL_SIZE_LIMIT
  }

  function RealSize(reserved: nat): (n: nat) { reserved % REAL_SIZE_LIMIT }

  function ChannelOf(reserved: nat): (n: nat) { reserved % U16 / REAL_SIZE_LIMIT }

  // Read back modulo their widths, the channel from the upper four of the sixteen bits.
  lemma ReservedRoundTrip(realSize: nat, channel: nat)
    ensures var r := PackReserved(realSize, channel); r / 0x1000 == channel % 16 && r % 0x1000 == realSize % 0x1000
    ensures RealSize(PackReserved(realSize, channel)) == realSize % REAL_SIZE_LIMIT
    ensures ChannelOf(PackReserved(realSize, channel)) == channel % 16
  {}

  function CeilDiv(a: nat, b: nat): (q: nat)
    requires b > 0
    ensures a > 0 ==> q > 0
  {
    CeilDivBounds(a, b);
    (a + b - 1) / b
  }

  lemma CeilDivBounds(a: nat, b: nat)
    requires b > 0
    ensures var q := (a + b - 1) / b; a <= q * b < a + b && q >= 0
  {
    var q := (a + b - 1) / b;
    assert q * b == (a + b - 1) - (a + b - 1) % b;
  }

  datatype Message = Message(id: nat, payload: Bytes, width: nat, parityCount: nat, channel: nat)
  {
    // What the fragmenter guarantees, with a width that fits the 12-bit size field and counts
    // that fit their 16-bit fields.
    ghost predicate Valid()
    {
      && 0 < id
      && 0 < width < REAL_SIZE_LIMIT
      && |payload| < U32
      && DataCount() + parityCount < U16
    }

    function Stream(): (s: Bytes)
      requires |payload| < U32
      ensures |s| == 4 + |payload|
    {
      Be(|payload|, 4) + payload
    }

    function DataCount(): (n: nat)
      requires width > 0
      ensures n >= 1
    {
      CeilDiv(4 + |payload|, width)
    }

    function Count(): (n: nat)
      requires width > 0
    {
      DataCount() + parityCount
    }

    // Where fragment i starts in the stream.
    function Offset(i: nat): (n: nat) { i * width }

    lemma OffsetNext(i: nat)
      ensures Offset(0) == 0 && Offset(i + 1) == Offset(i) + width
    {}

    // Fragment i of the stream.
    function Slice(i: nat): (f: Bytes)
      requires width > 0 && |payload| < U32 && i < DataCount()
      ensures |f| <= width
    {
      SliceBounds(i);
      var off := Offset(i);
      Stream()[off..if off + width <= |Stream()| then off + width else |Stream()|]
    }

    lemma SliceBounds(i: nat)
      requires width > 0 && i < DataCount()
      ensures Offset(i) < 4 + |payload|
      ensures i + 1 < DataCount() ==> Offset(i) + width <= 4 + |payload|
      ensures i + 1 == DataCount() ==> Offset(i) + width >= 4 + |payload|
    {
      hide Offset, DataCount;
      CoversTotal();
      OffsetNext(i);
      OffsetMonotone(i + 1, DataCount());
      if i + 1 < DataCount() {
        OffsetNext(i + 1);
        OffsetMonotone(i + 2, DataCount());
      }
    }

    lemma CoversTotal()
      requires width > 0
      ensures 4 + |payload| <= Offset(DataCount()) < 4 + |payload| + width
    {
      CeilDivBounds(4 + |payload|, width);
    }

    lemma OffsetMonotone(i: nat, j: nat)
      requires i <= j
      ensures Offset(i) <= Offset(j)
    {
      assert j * width == i * width + (j - i) * width;
      assert (j - i) * width >= 0;
    }

    ghost function Frags(): (f: seq<Bytes>)
      requires width > 0 && |payload| < U32
      ensures |f| == DataCount()
    {
      seq(DataCount(), i requires 0 <= i < DataCount() => Slice(i))
    }

    // What send_data_packet puts on the wire for fragment i.
    ghost function PacketAt(i: nat): (p: Packet)
      requires width > 0 && |payload| < U32 && i < Count()
      ensures |p.payload| == width
    {
      if i < DataCount() then
        Packet(id, i, Count(), DataCount(), PackReserved(|Slice(i)|, channel), Pad(Slice(i), width))
      else
        Packet(id, i, Count(), DataCount(), PackReserved(width, channel),
               Parity(Frags(), i - DataCount(), width, DataCount()))
    }
  }

  // ---- the stream from its pieces ----

  // The pieces are the fragments; the last one may carry its padding.
  ghost predicate PiecesOf(m: Message, pieces: seq<Bytes>)
    requires m.width > 0 && |m.payload| < U32
  {
    && |pieces| == m.DataCount()
    && forall i :: 0 <= i < |pieces| ==>
         pieces[i] == m.Slice(i) || pieces[i] == Pad(m.Slice(i), m.width)
  }

  lemma SliceJoins(m: Message, i: nat, s: Bytes, off: nat)
    requires m.width > 0 && |m.payload| < U32 && i < m.DataCount()
    requires s == m.Stream() && off == m.Offset(i) && off <= |s|
    ensures off + m.width <= |s| ==> s[..off] + m.Slice(i) == s[..off + m.width] && |m.Slice(i)| == m.width
    ensures off + m.width >= |s| ==> s[..off] + m.Slice(i) == s
  {
    hide m.Offset, m.DataCount, Be;
  }

  lemma PadFull(f: Bytes, width: nat)
    requires |f| == width
    ensures Pad(f, width) == f
  {}

  lemma {:induction false} ConcatPrefix(m: Message, pieces: seq<Bytes>, n: nat)
    requires m.width > 0 && |m.payload| < U32 && PiecesOf(m, pieces) && n < m.DataCount()
    ensures m.Offset(n) <= |m.Stream()|
    ensures Concat(pieces, n) == m.Stream()[..m.Offset(n)]
  {
    hide m.Offset, m.DataCount, m.Slice, Be;
    m.SliceBounds(n);
    if n > 0 {
      ConcatPrefix(m, pieces, n - 1);
      m.SliceBounds(n - 1);
      SliceJoins(m, n - 1, m.Stream(), m.Offset(n - 1));
      m.OffsetNext(n - 1);
      PadFull(m.Slice(n - 1), m.width);
    } else {
      m.OffsetNext(0);
    }
  }

  lemma AppendPrefix(init: Bytes, last: Bytes, piece: Bytes)
    requires |last| <= |piece| && piece[..|last|] == last
    ensures |init + piece| >= |init + last|
    ensures (init + piece)[..|init + last|] == init + last
  {}

  lemma PadPrefix(f: Bytes, width: nat)
    requires |f| <= width
    ensures Pad(f, width)[..|f|] == f
  {}

  lemma ConcatStream(m: Message, pieces: seq<Bytes>)
    requires m.width > 0 && |m.payload| < U32 && PiecesOf(m, pieces)
    ensures |Concat(pieces, |pieces|)| >= |m.Stream()|
    ensures Concat(pieces, |pieces|)[..|m.Stream()|] == m.Stream()
  {
    hide m.Offset, m.DataCount, m.Slice, Be;
    var n := m.DataCount();
    ConcatPrefix(m, pieces, n - 1);
    m.SliceBounds(n - 1);
    SliceJoins(m, n - 1, m.Stream(), m.Offset(n - 1));
    PadPrefix(m.Slice(n - 1), m.width);
    AppendPrefix(Concat(pieces, n - 1), m.Slice(n - 1), pieces[n - 1]);
  }

  // What build_msg makes of the concatenated pieces.
  ghost function Trim(stream: Bytes, maxBytes: nat): (s: Bytes)
  {
    if |stream| < 4 then []
    else
      var total := FromBe(stream[..4]);
      if total > maxBytes then []
      else stream[4..4 + Min(total, |stream| - 4)]
  }

  lemma TrimShort(stream: Bytes, maxBytes: nat)
    requires |stream| < 4
    ensures Trim(stream, maxBytes) == []
  {}

  lemma TrimOver(stream: Bytes, maxBytes: nat)
    requires |stream| >= 4 && FromBe(stream[..4]) > maxBytes
    ensures Trim(stream, maxBytes) == []
  {}

  lemma TrimTaken(stream: Bytes, maxBytes: nat, total: nat)
    requires |stream| >= 4 && FromBe(stream[..4]) <= maxBytes
    requires total == Min(FromBe(stream[..4]), |stream| - 4)
    ensures Trim(stream, maxBytes) == stream[4..4 + total]
  {}

  // The pieces give back the payload, or nothing when it is over the receiver's limit.
  lemma TrimRecovers(m: Message, pieces: seq<Bytes>, maxBytes: nat)
    requires m.width > 0 && |m.payload| < U32 && PiecesOf(m, pieces)
    ensures Trim(Concat(pieces, |pieces|), maxBytes) == if |m.payload| > maxBytes then [] else m.payload
  {
    hide m.DataCount, m.Slice, Be, FromBe, Trim, Concat;
    ConcatStream(m, pieces);
    var s, n := Concat(pieces, |pieces|), |m.payload|;
    assert s[..4] == m.Stream()[..4] == Be(n, 4);
    FieldSizes();
    BeRoundTrip(n, 4);
    assert s[4..4 + n] == m.Stream()[4..4 + n] == m.payload;
    if n > maxBytes {
      TrimOver(s, maxBytes);
    } else {
      TrimTaken(s, maxBytes, n);
    }
  }
}
