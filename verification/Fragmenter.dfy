// Splitting a message into data and parity packets: src/fragmenter.cpp and
// send_data_packet in src/transport.cpp.
module Fragmenter {
  import opened Numbers
  import opened ByteStrings
  import opened GfTables
  import opened ErasureCode
  import opened ReedSolomon
  import opened Message
  import PacketCodec

  const ID_SPACE: nat := 0x8000_0000
  const SAFETY: real := 1.2

  function Ceil(x: real): (n: int) { -(-x).Floor }

  function Share(dataCount: nat, x: real): (r: real) { dataCount as real * x }

  // At least one, and at most the cap and 100.
  function Limited(count: nat, cap: nat): (p: nat)
    ensures p == 100 || p == cap || count <= p
    ensures p <= 1 || p <= count
    ensures p <= cap && p <= 100 && (cap >= 1 ==> p >= 1)
  {
    var p1 := if count < 1 then 1 else count;
    var p2 := if p1 > cap then cap else p1;
    if p2 > 100 then 100 else p2
  }

  // The number of parities for a message; entropy stands for the binary entropy of lateRatio.
  function ParityCountFor(lateRatio: real, dataCount: nat, stage: nat, entropy: real): (p: nat)
    requires dataCount < U16
    ensures p <= 100
    ensures stage == 0 ==> p == 0
    ensures stage > 0 ==> p >= 1
    // at most a fifth of the data fragments, rounded up
    ensures p > 1 ==> 5 * p < dataCount + 5
    ensures stage == 1 || (stage > 1 && (lateRatio <= 0.0001 || 0.9999 <= lateRatio)) ==> p == 1
  {
    if stage == 0 then 0
    else if stage == 1 then 1
    else if lateRatio <= 0.0001 || lateRatio >= 0.9999 then 1
    else
      var redundancy := if entropy * SAFETY >= lateRatio then entropy * SAFETY else lateRatio;
      Limited(Ceil(Share(dataCount, redundancy)) % U16, Max(1, Ceil(Share(dataCount, 0.2))))
  }

  lemma ShareOrder(n: nat, x: real, y: real)
    requires x <= y
    ensures Share(n, x) <= Share(n, y)
  {
    assert n as real * (y - x) >= 0.0;
  }

  // In the last stage: the smallest count, at least one, that covers the late packets and six fifths of the
  // entropy, up to a fifth of the data fragments and up to 100. (The product is cut to 16 bits before.)
  lemma CountCovers(lateRatio: real, dataCount: nat, entropy: real, late: real, spread: real)
    requires dataCount < U16 && 0.0001 < lateRatio < 0.9999
    requires late == dataCount as real * lateRatio && spread == dataCount as real * (entropy * 1.2) <= 65535.0
    ensures var p := ParityCountFor(lateRatio, dataCount, 2, entropy);
      && (p == 100 || 5 * p >= dataCount || (p as real >= late && p as real >= spread))
      && (p == 1 || (p - 1) as real < late || (p - 1) as real < spread)
  {
    assert spread == Share(dataCount, entropy * SAFETY) && late == Share(dataCount, lateRatio);
    Shares(dataCount);
    hide Share;
    var scaled := entropy * SAFETY;
    var redundancy := if scaled >= lateRatio then scaled else lateRatio;
    ShareOrder(dataCount, scaled, redundancy);
    ShareOrder(dataCount, lateRatio, redundancy);
    ShareOrder(dataCount, 0.0, redundancy);
    ShareOrder(dataCount, lateRatio, 1.0);
    hide Limited;
    ParitiesInBetween(Share(dataCount, redundancy), Share(dataCount, 0.2), dataCount);
  }

  lemma Shares(n: nat)
    ensures Share(n, 0.0) == 0.0 && 5.0 * Share(n, 0.2) == Share(n, 1.0) == n as real
  {}

  lemma ParitiesInBetween(need: real, fifth: real, dataCount: nat)
    requires 0.0 <= need <= 65535.0 && 5.0 * fifth == dataCount as real
    ensures Ceil(need) >= 0 && Ceil(fifth) >= 0
    ensures var p := Limited(Ceil(need) % U16, Max(1, Ceil(fifth)));
      (p == 100 || 5 * p >= dataCount || p as real >= need) && (p == 1 || (p - 1) as real < need)
  {
    hide Limited;
    assert Ceil(need) % U16 == Ceil(need);
  }

  // The hysteresis between the redundancy stages.
  function NextStage(stage: nat, lateRatio: real): (s: nat)
    ensures stage <= 2 ==> s <= 2
    // one step at a time
    ensures stage <= 2 ==> s <= stage + 1 && stage <= s + 1
    // up exactly above the threshold for rising, down exactly below the one for falling
    ensures stage <= 2 ==> (s > stage <==> stage < 2 && lateRatio > if stage == 0 then 0.003 else 0.012)
    ensures stage <= 2 ==>
      (s < stage <==> (stage == 1 && lateRatio <= 0.0) || (stage == 2 && lateRatio < 0.008))
  {
    if stage == 0 then (if lateRatio > 0.003 then 1 else 0)
    else if stage == 1 then (if lateRatio > 0.012 then 2 else if lateRatio <= 0.0 then 0 else 1)
    else (if lateRatio < 0.008 then 1 else stage)
  }

  function FragPayload(mtu: nat): (w: nat)
    ensures w >= 5
    // header and payload fill the mtu; one of up to 52 bytes is not kept to
    ensures w + 48 == mtu <==> mtu > 52
    ensures w + 48 <= mtu <==> mtu > 52
  {
    var w := if mtu > PacketCodec.HEADER_SIZE then mtu - PacketCodec.HEADER_SIZE else 64;
    if w <= 4 then 64 else w
  }

  // The next non-zero message id drawn from the counter.
  function DrawnId(counter: nat): (id: nat)
    ensures 0 < id < ID_SPACE
  {
    if counter % ID_SPACE == 0 then 1 else counter % ID_SPACE
  }

  // The id space divides the range of the counter.
  lemma CounterStep(counter: nat)
    ensures (counter + 1) % U32 % ID_SPACE == (counter % ID_SPACE + 1) % ID_SPACE
  {}

  class Sender {
    var msgIdOut: nat           // a 32-bit counter
    var haveLateReport: bool
    var lateRatio: real
    var fecDisable: bool
    var fecStage: nat
    var parities: seq<Bytes>    // scratch buffers, reused from message to message

    constructor ()
      ensures msgIdOut == 1 && !haveLateReport && lateRatio == 0.0 && !fecDisable && fecStage == 0
      ensures parities == []
    {
      msgIdOut := 1;
      haveLateReport := false;
      lateRatio := 0.0;
      fecDisable := false;
      fecStage := 0;
      parities := [];
    }

    method DrawMessageId() returns (id: nat)
      modifies this`msgIdOut
      ensures id == DrawnId(old(msgIdOut))
      ensures msgIdOut < U32 && msgIdOut % ID_SPACE == (id + 1) % ID_SPACE
    {
      CounterStep(msgIdOut);
      id := msgIdOut % ID_SPACE;
      msgIdOut := (msgIdOut + 1) % U32;
      while id == 0
        invariant id == 0 ==> old(msgIdOut) % ID_SPACE == 0 && msgIdOut % ID_SPACE == 1
        invariant id != 0 ==> id == DrawnId(old(msgIdOut))
        invariant msgIdOut < U32 && msgIdOut % ID_SPACE == (id + 1) % ID_SPACE
        decreases id == 0
      {
        CounterStep(msgIdOut);
        id := msgIdOut % ID_SPACE;
        msgIdOut := (msgIdOut + 1) % U32;
      }
    }

    // Adaptive parities, before the channel's own and the probe's.
    method AdaptiveParities(dataCount: nat, entropy: real) returns (p: nat)
      requires dataCount < U16
      modifies this`fecStage
      ensures fecDisable ==> p == 0 && fecStage == old(fecStage)
      ensures !fecDisable && !haveLateReport ==> p == 2 && fecStage == old(fecStage)
      ensures !fecDisable && haveLateReport ==>
        && fecStage == NextStage(old(fecStage), lateRatio)
        && p == ParityCountFor(lateRatio, dataCount, fecStage, entropy)
    {
      if fecDisable {
        p := 0;
      } else if !haveLateReport {
        p := 2;
      } else {
        fecStage := NextStage(fecStage, lateRatio);
        p := ParityCountFor(lateRatio, dataCount, fecStage, entropy);
      }
    }

    // Every fragment of the message, data first, as it is handed to the socket.
    method FragmentAndSend(t: Tables, payload: Bytes, mtu: nat, channel: nat, channelFecExtra: nat,
                           probeExtraParity: nat, entropy: real)
        returns (m: Message, sent: seq<Packet>)
      requires t.Valid() && |payload| < U32
      // the limits of the 12-bit size field and of the 16-bit counts
      requires FragPayload(mtu) < REAL_SIZE_LIMIT
      requires 2 * CeilDiv(4 + |payload|, FragPayload(mtu)) < U16
      modifies this
      ensures m.Valid() && m.id == DrawnId(old(msgIdOut)) && m.payload == payload
      ensures m.width == FragPayload(mtu) && m.channel == channel && m.parityCount <= m.DataCount()
      // the adaptive parities and both extras, cut to 16 bits and to the number of data fragments
      ensures fecStage == if !fecDisable && haveLateReport then NextStage(old(fecStage), lateRatio) else old(fecStage)
      ensures var adaptive :=
        if fecDisable then 0
        else if !haveLateReport then 2
        else ParityCountFor(lateRatio, m.DataCount(), fecStage, entropy);
        m.parityCount == Min((adaptive + channelFecExtra + probeExtraParity) % U16, m.DataCount())
      // disabling redundancy leaves the extras on
      ensures fecDisable ==> (m.parityCount == 0 <==> (channelFecExtra + probeExtraParity) % U16 == 0)
      ensures msgIdOut < U32 && msgIdOut % ID_SPACE == (m.id + 1) % ID_SPACE
      ensures |sent| == m.Count()
      ensures forall i :: 0 <= i < |sent| ==> sent[i] == m.PacketAt(i)
      ensures haveLateReport == old(haveLateReport) && lateRatio == old(lateRatio)
      ensures fecDisable == old(fecDisable)
    {
      hide DrawnId, CeilDiv, ParityCountFor, NextStage, FragPayload;
      var id := DrawMessageId();
      var dataCount := CeilDiv(4 + |payload|, FragPayload(mtu));
      var adaptive := AdaptiveParities(dataCount, entropy);
      var parityCount := (adaptive + channelFecExtra + probeExtraParity) % U16;
      if parityCount > dataCount { parityCount := dataCount; }
      m := Message(id, payload, FragPayload(mtu), parityCount, channel);
      sent := EmitAll(t, m);
    }

    method EmitAll(t: Tables, m: Message) returns (sent: seq<Packet>)
      requires t.Valid() && m.Valid()
      modifies this`parities
      ensures |sent| == m.Count()
      ensures forall i :: 0 <= i < |sent| ==> sent[i] == m.PacketAt(i)
    {
      hide Parity, m.PacketAt, m.Slice, m.DataCount;
      var spans := Spans(m);
      var buffers := EncodeInto(t, spans, m.parityCount, m.width, parities);
      parities := buffers;
      var data := EmitData(m, spans);
      var redundant := EmitParities(m, buffers);
      sent := data + redundant;
    }
  }

  method Spans(m: Message) returns (spans: seq<Bytes>)
    requires m.Valid()
    ensures spans == m.Frags()
  {
    hide m.Slice, m.DataCount;
    spans := [];
    for i := 0 to m.DataCount()
      invariant |spans| == i
      invariant forall k :: 0 <= k < i ==> spans[k] == m.Slice(k)
    {
      spans := spans + [m.Slice(i)];
    }
  }

  method EmitData(m: Message, spans: seq<Bytes>) returns (sent: seq<Packet>)
    requires m.Valid() && spans == m.Frags()
    ensures |sent| == m.DataCount()
    ensures forall k :: 0 <= k < |sent| ==> sent[k] == m.PacketAt(k)
  {
    hide Parity, m.Slice, m.DataCount;
    sent := [];
    for i := 0 to |spans|
      invariant |sent| == i
      invariant forall k :: 0 <= k < i ==> sent[k] == m.PacketAt(k)
    {
      sent := sent + [DataPacket(m, i, |spans[i]|, spans[i])];
    }
  }

  method EmitParities(m: Message, buffers: seq<Bytes>) returns (sent: seq<Packet>)
    requires m.Valid() && |buffers| >= m.parityCount
    requires forall p :: 0 <= p < m.parityCount ==>
      |buffers[p]| >= m.width && buffers[p][..m.width] == Parity(m.Frags(), p, m.width, m.DataCount())
    ensures |sent| == m.parityCount
    ensures forall p :: 0 <= p < |sent| ==> sent[p] == m.PacketAt(m.DataCount() + p)
  {
    hide Parity, m.Slice, m.DataCount;
    sent := [];
    for p := 0 to m.parityCount
      invariant |sent| == p
      invariant forall q :: 0 <= q < p ==> sent[q] == m.PacketAt(m.DataCount() + q)
    {
      sent := sent + [DataPacket(m, m.DataCount() + p, m.width, buffers[p][..m.width])];
    }
  }

  // send_data_packet: the payload is padded to the width.
  function DataPacket(m: Message, index: nat, realSize: nat, frag: Bytes): (r: Packet)
    requires m.width > 0
  {
    Packet(m.id, index, m.Count(), m.DataCount(), PackReserved(realSize, m.channel), Pad(frag, m.width))
  }
}
