// What the receiver makes of a set of packets of one message.
module MessageEntries {
  import opened Options
  import opened ByteStrings
  import opened GfLinear
  import opened Vandermonde
  import opened ErasureCode
  import opened ErasureRecovery
  import opened Message
  import opened Reassembly

  // The entry holds exactly the packets of m whose indices are in got.
  ghost predicate EntryOf(e: Incoming, m: Message, got: set<nat>)
    requires m.Valid()
  {
    && e.Valid() && e.total == m.Count() && e.dataCount == m.DataCount() && e.channel == m.channel % 16
    && forall i :: 0 <= i < m.Count() ==>
         if i in got then
           e.fragments[i] == Some(m.PacketAt(i).payload) && e.sizes[i] == RealSize(m.PacketAt(i).reserved)
         else e.fragments[i].None?
  }

  lemma PadTwice(f: Bytes, width: nat)
    ensures Pad(Pad(f, width), width) == Pad(f, width)
  {}

  lemma PadLength(f: Bytes, width: nat)
    requires |f| == width
    ensures Pad(f, width) == f
  {}

  lemma DataFragments(e: Incoming, m: Message, got: set<nat>)
    requires m.Valid() && EntryOf(e, m, got)
    ensures e.Data() == m.DataCount()
    ensures FragmentsOf(e.fragments[..m.DataCount()], m.Frags(), m.width)
  {
    hide m.Slice, m.DataCount, Parity, Pad;
    var n := m.DataCount();
    forall j | 0 <= j < n && e.fragments[j].Some?
      ensures Pad(e.fragments[j].value, m.width) == Pad(m.Frags()[j], m.width)
    {
      PadTwice(m.Slice(j), m.width);
    }
  }

  lemma {:induction false} PresentContents(parity: Slots, n: nat)
    requires n <= |parity|
    ensures forall r :: 0 <= r < |Present(parity, n)| ==>
      var (p, content) := Present(parity, n)[r]; p < n && parity[p] == Some(content)
  {
    if n > 0 { PresentContents(parity, n - 1); }
  }

  lemma ParityFragments(e: Incoming, m: Message, got: set<nat>)
    requires m.Valid() && EntryOf(e, m, got)
    ensures var parity := e.fragments[m.DataCount()..];
      ParitiesOf(Present(parity, |parity|), m.Frags(), m.width)
  {
    hide m.Slice, m.DataCount, Parity, Pad;
    var n := m.DataCount();
    var parity := e.fragments[n..];
    var present := Present(parity, |parity|);
    PresentContents(parity, |parity|);
    forall r | 0 <= r < |present|
      ensures Pad(present[r].1, m.width) == Parity(m.Frags(), present[r].0, m.width, |m.Frags()|)
    {
      var (p, content) := present[r];
      assert parity[p] == e.fragments[n + p];
      PadLength(content, m.width);
    }
  }

  lemma {:induction false} WidestIs(f: Slots, n: nat, w: nat)
    requires n <= |f| && forall i :: 0 <= i < n && f[i].Some? ==> |f[i].value| == w
    ensures Widest(f, n) == 0 || Widest(f, n) == w
    ensures (exists i :: 0 <= i < n && f[i].Some?) ==> Widest(f, n) == w
  {
    if n > 0 { WidestIs(f, n - 1, w); }
  }

  lemma WidestInEntry(e: Incoming, m: Message, got: set<nat>)
    requires m.Valid() && EntryOf(e, m, got)
    ensures var w := Widest(e.fragments, |e.fragments|);
      (w == 0 || w == m.width) && ((exists i :: i in got && i < m.Count()) ==> w == m.width)
  {
    hide m.DataCount, m.Slice, Parity;
    WidestIs(e.fragments, |e.fragments|, m.width);
    if exists i :: i in got && i < m.Count() {
      var i :| i in got && i < m.Count();
      assert e.fragments[i].Some?;
    }
  }

  // ---- what is delivered ----

  lemma PieceOfData(m: Message, i: nat)
    requires m.Valid() && i < m.DataCount()
    ensures Piece(m.PacketAt(i).payload, RealSize(m.PacketAt(i).reserved)) == m.Slice(i)
  {
    hide m.DataCount, m.Slice;
    ReservedRoundTrip(|m.Slice(i)|, m.channel);
  }

  lemma PieceOfRecovered(f: Bytes, width: nat)
    requires width < U16
    ensures Piece(Pad(f, width), width % U16) == Pad(f, width)
  {}

  lemma DeliverComplete(e: Incoming, m: Message, got: set<nat>, maxBytes: nat)
    requires m.Valid() && EntryOf(e, m, got) && Absent(e.fragments[..m.DataCount()], m.DataCount()) == 0
    ensures var n := m.DataCount(); var data := e.fragments[..n];
      Trim(Concat(Pieces(data, e.sizes[..n]), n), maxBytes) == if |m.payload| > maxBytes then [] else m.payload
  {
    hide m.DataCount, m.Slice, Trim, Parity, Piece;
    var n := m.DataCount();
    var data := e.fragments[..n];
    var pieces := Pieces(data, e.sizes[..n]);
    forall i | 0 <= i < n
      ensures pieces[i] == m.Slice(i)
    {
      assert data[i].Some?;
      PieceOfData(m, i);
    }
    TrimRecovers(m, pieces, maxBytes);
  }

  lemma DeliverRecovered(e: Incoming, m: Message, got: set<nat>, maxBytes: nat, present: Parities)
    requires m.Valid() && EntryOf(e, m, got)
    requires ParitiesOf(present, m.Frags(), m.width)
    requires Decoded(e.fragments[..m.DataCount()], present, m.width).Some?
    ensures var n := m.DataCount(); var data := e.fragments[..n];
      var d := Decoded(data, present, m.width).value;
      && (forall i :: 0 <= i < n ==> d[i].Some?)
      && Trim(Concat(Pieces(d, SizesAfter(data, e.sizes[..n], m.width)), n), maxBytes)
           == if |m.payload| > maxBytes then [] else m.payload
  {
    hide m.DataCount, m.Slice, Trim, Parity, Decoded, Piece, Pad;
    var n := m.DataCount();
    var data := e.fragments[..n];
    var d := Decoded(data, present, m.width).value;
    DataFragments(e, m, got);
    DecodeSound(data, present, m.width, m.Frags());
    var pieces := Pieces(d, SizesAfter(data, e.sizes[..n], m.width));
    forall i | 0 <= i < n
      ensures pieces[i] == m.Slice(i) || pieces[i] == Pad(m.Slice(i), m.width)
    {
      if data[i].Some? {
        PieceOfData(m, i);
      } else {
        PieceOfRecovered(m.Slice(i), m.width);
      }
    }
    TrimRecovers(m, pieces, maxBytes);
  }

  // Whatever is assembled from an entry is the message.
  lemma AssembleDelivers(e: Incoming, m: Message, got: set<nat>, now: int, lossWait: int, maxBytes: nat)
    requires m.Valid() && EntryOf(e, m, got)
    ensures var out := Assemble(e, now, lossWait, maxBytes);
      out.Deliver? ==> out.payload == if |m.payload| > maxBytes then [] else m.payload
  {
    hide m.DataCount, m.Slice, Trim, Parity, Decoded, Pieces, Concat, Present, Widest, EntryOf;
    EntryShape(e, m, got);
    var n := m.DataCount();
    var data, parity := e.fragments[..n], e.fragments[n..];
    DataFragments(e, m, got);
    if Absent(data, n) == 0 {
      DeliverComplete(e, m, got, maxBytes);
    } else if Absent(data, n) <= |parity| {
      var present := Present(parity, |parity|);
      var width := Widest(e.fragments, |e.fragments|);
      ParityFragments(e, m, got);
      WidestInEntry(e, m, got);
      if width != 0 && Absent(data, n) <= |present| && Decoded(data, present, width).Some? {
        DeliverRecovered(e, m, got, maxBytes, present);
      }
    }
  }

  lemma EntryShape(e: Incoming, m: Message, got: set<nat>)
    requires m.Valid() && EntryOf(e, m, got)
    ensures e.Valid() && e.total == m.Count() && e.channel == m.channel % 16
  {}

  // ---- when it is delivered ----

  // The data fragments among the first n that have not arrived.
  ghost function Lacking(got: set<nat>, n: nat): (l: seq<nat>)
  {
    if n == 0 then [] else Lacking(got, n - 1) + if n - 1 in got then [] else [n - 1]
  }

  // The indices of the parities that have arrived, among the first n.
  ghost function ParityIndices(m: Message, got: set<nat>, n: nat): (l: seq<nat>)
    requires m.width > 0
    ensures |l| <= n
    ensures |l| > 0 ==> exists i :: m.DataCount() <= i < m.DataCount() + n && i in got
  {
    if n == 0 then []
    else if m.DataCount() + n - 1 in got then ParityIndices(m, got, n - 1) + [n - 1]
    else ParityIndices(m, got, n - 1)
  }

  // All data fragments are there, or the coefficients of the first parities that are there, on
  // the missing positions, form an invertible matrix.
  ghost predicate Recoverable(m: Message, got: set<nat>)
    requires m.width > 0
  {
    var lacking := Lacking(got, m.DataCount());
    var indices := ParityIndices(m, got, m.parityCount);
    || |lacking| == 0
    || (|lacking| <= |indices| && TrivialKernel(Powers(indices[..|lacking|], Points(lacking))))
  }

  lemma {:induction false} LackingIsMissing(data: Slots, got: set<nat>, n: nat)
    requires n <= |data| && forall i :: 0 <= i < n ==> (i in got <==> data[i].Some?)
    ensures Lacking(got, n) == Missing(data, n)
  {
    if n > 0 { LackingIsMissing(data, got, n - 1); }
  }

  lemma {:induction false} IndicesOfPresent(parity: Slots, m: Message, got: set<nat>, n: nat)
    requires m.width > 0 && n <= |parity|
    requires forall i :: 0 <= i < n ==> (m.DataCount() + i in got <==> parity[i].Some?)
    ensures |Present(parity, n)| == |ParityIndices(m, got, n)|
    ensures forall r :: 0 <= r < |Present(parity, n)| ==>
      Present(parity, n)[r].0 == ParityIndices(m, got, n)[r]
  {
    hide m.DataCount;
    if n > 0 { IndicesOfPresent(parity, m, got, n - 1); }
  }

  // The arrived packets, seen through the entry.
  lemma EntrySlots(e: Incoming, m: Message, got: set<nat>)
    requires m.Valid() && EntryOf(e, m, got)
    ensures var n := m.DataCount();
      && e.Data() == n && |e.fragments| == n + m.parityCount
      && forall i :: 0 <= i < |e.fragments| ==> (i in got <==> e.fragments[i].Some?)
  {
    hide m.DataCount, m.Slice, Parity;
  }

  lemma EntryLacking(e: Incoming, m: Message, got: set<nat>)
    requires m.Valid() && EntryOf(e, m, got)
    ensures var n := m.DataCount();
      n <= |e.fragments| && Missing(e.fragments[..n], n) == Lacking(got, n)
  {
    EntrySlots(e, m, got);
    hide m.DataCount, EntryOf, Missing, Lacking;
    LackingIsMissing(e.fragments[..m.DataCount()], got, m.DataCount());
  }

  lemma EntryParities(e: Incoming, m: Message, got: set<nat>)
    requires m.Valid() && EntryOf(e, m, got)
    ensures var n := m.DataCount();
      && n + m.parityCount == |e.fragments|
      && var present := Present(e.fragments[n..], m.parityCount);
      var indices := ParityIndices(m, got, m.parityCount);
      && |present| == |indices|
      && (forall r :: 0 <= r < |present| ==> present[r].0 == indices[r])
  {
    EntrySlots(e, m, got);
    hide m.DataCount, EntryOf, Present, ParityIndices;
    var parity := e.fragments[m.DataCount()..];
    assert forall i :: 0 <= i < |parity| ==> parity[i] == e.fragments[m.DataCount() + i];
    IndicesOfPresent(parity, m, got, |parity|);
  }

  lemma EntryIndices(e: Incoming, m: Message, got: set<nat>)
    requires m.Valid() && EntryOf(e, m, got)
    ensures var n := m.DataCount(); var data, parity := e.fragments[..n], e.fragments[n..];
      && e.Data() == n
      && Missing(data, n) == Lacking(got, n)
      && var present := Present(parity, |parity|); var indices := ParityIndices(m, got, m.parityCount);
      && |present| == |indices|
      && (forall r :: 0 <= r < |present| ==> present[r].0 == indices[r])
      && (|indices| > 0 ==> Widest(e.fragments, |e.fragments|) == m.width)
  {
    EntrySlots(e, m, got);
    EntryLacking(e, m, got);
    EntryParities(e, m, got);
    WidestInEntry(e, m, got);
    hide m.DataCount, EntryOf, Present, Widest, ParityIndices, Missing, Lacking;
    assert |e.fragments[m.DataCount()..]| == m.parityCount;
  }

  lemma RecoverableDecodes(e: Incoming, m: Message, got: set<nat>)
    requires m.Valid() && EntryOf(e, m, got)
    ensures var n := m.DataCount(); var data, parity := e.fragments[..n], e.fragments[n..];
      Decoded(data, Present(parity, |parity|), m.width).Some? <==> Recoverable(m, got)
  {
    hide m.DataCount, m.Slice, Parity, Present, Widest, Decoded, TrivialKernel, EntryOf, Lacking, ParityIndices;
    hide Missing, Powers, Points;
    EntryShape(e, m, got);
    EntryIndices(e, m, got);
    var n := m.DataCount();
    var data, parity := e.fragments[..n], e.fragments[n..];
    var present := Present(parity, |parity|);
    var k := |Lacking(got, n)|;
    if k <= |present| {
      assert Exponents(present, k) == ParityIndices(m, got, m.parityCount)[..k];
    }
    DecodeSucceeds(data, present, m.width);
  }

  // Whether the entry waits, is delivered or is lost depends on what has arrived, and for a loss
  // on the time since its first packet.
  lemma AssembleExactly(e: Incoming, m: Message, got: set<nat>, now: int, lossWait: int, maxBytes: nat)
    requires m.Valid() && EntryOf(e, m, got)
    ensures var out := Assemble(e, now, lossWait, maxBytes);
      && (out.Deliver? <==> Recoverable(m, got))
      && (out.Loss? <==> Overdue(m, got, e.firstSeen, now, lossWait))
      && (out.Loss? ==> out.channel == m.channel % 16)
  {
    hide m.DataCount, Trim, Decoded, Pieces, Concat, Present, Widest, EntryOf, Lacking, ParityIndices, Missing;
    hide TrivialKernel;
    EntryShape(e, m, got);
    EntryIndices(e, m, got);
    RecoverableDecodes(e, m, got);
    var n := m.DataCount();
    assert Absent(e.fragments[..n], n) == |Lacking(got, n)|;
  }

  // More data fragments are missing than there are parities, and the wait is over.
  ghost predicate Overdue(m: Message, got: set<nat>, firstSeen: int, now: int, lossWait: int)
    requires m.width > 0
  {
    |Lacking(got, m.DataCount())| > m.parityCount && now - firstSeen >= lossWait
  }

  // Up to 255 data fragments, consecutive parities are enough.
  lemma {:induction false} LackingRange(got: set<nat>, n: nat)
    ensures forall c :: 0 <= c < |Lacking(got, n)| ==> Lacking(got, n)[c] < n
    ensures forall c, d :: 0 <= c < d < |Lacking(got, n)| ==> Lacking(got, n)[c] < Lacking(got, n)[d]
    ensures forall i :: 0 <= i < n && i !in got ==> i in Lacking(got, n)
    ensures forall i :: i in Lacking(got, n) ==> i !in got
  {
    if n > 0 { LackingRange(got, n - 1); }
  }

  // When the first parities that are there have consecutive indices, the missing positions decide.
  lemma RecoverableConsecutive(m: Message, got: set<nat>, base: nat)
    requires m.width > 0
    requires var k := |Lacking(got, m.DataCount())|; var indices := ParityIndices(m, got, m.parityCount);
      k <= |indices| && Consecutive(indices[..k], base)
    ensures Recoverable(m, got) <==> Separable(Lacking(got, m.DataCount()), base)
  {
    hide m.DataCount, Lacking, ParityIndices, TrivialKernel, Powers, Points, Distinct;
    var lacking := Lacking(got, m.DataCount());
    ConsecutiveInvertible(ParityIndices(m, got, m.parityCount)[..|lacking|], Points(lacking), base);
    SeparablePoints(lacking, base);
  }

  lemma RecoverableSmall(m: Message, got: set<nat>, base: nat)
    requires m.width > 0 && m.DataCount() <= 255
    requires var k := |Lacking(got, m.DataCount())|; var indices := ParityIndices(m, got, m.parityCount);
      k <= |indices| && Consecutive(indices[..k], base)
    ensures Recoverable(m, got)
  {
    hide m.DataCount, Lacking, ParityIndices, Recoverable, Consecutive;
    var lacking := Lacking(got, m.DataCount());
    LackingRange(got, m.DataCount());
    forall c | 0 <= c < |lacking|
      ensures lacking[c] % 256 == lacking[c] < 255
    {}
    RecoverableConsecutive(m, got, base);
  }

  lemma OnlyFragment(m: Message)
    requires m.Valid() && m.DataCount() == 1
    ensures Recoverable(m, {0})
  {
    hide m.DataCount, TrivialKernel;
    assert Lacking({0}, 1) == Lacking({0}, 0) == [];
  }

  lemma NothingRecoverable(m: Message)
    requires m.Valid()
    ensures !Recoverable(m, {})
  {
    hide m.DataCount, TrivialKernel;
    LackingRange({}, m.DataCount());
    assert 0 in Lacking({}, m.DataCount());
  }
}
