// Fragment collection, recovery and delivery: src/reassembler.cpp.
module Reassembler {
  import opened Numbers
  import opened Options
  import opened ByteStrings
  import opened GfTables
  import opened ErasureCode
  import opened ReedSolomon
  import opened Message
  import opened Reassembly
  import SequenceTracking

  // build_msg, on fragments that are all present.
  method BuildMessage(frags: seq<Bytes>, sizes: seq<nat>, maxBytes: nat) returns (result: Bytes)
    requires |frags| == |sizes|
    ensures result == Trim(Concat(Cut(frags, sizes), |frags|), maxBytes)
  {
    hide Trim;
    var n := |frags|;
    ghost var cut := Cut(frags, sizes);
    ghost var stream := Concat(cut, n);
    var streamLen := 0;
    for i := 0 to n
      invariant streamLen == |Concat(cut, i)|
    {
      streamLen := streamLen + Min(sizes[i], |frags[i]|);
    }
    if streamLen < 4 {
      TrimShort(stream, maxBytes);
      return [];
    }
    var prefix := ReadPrefix(frags, sizes);
    var total := FromBe(prefix);
    if total > maxBytes {
      TrimOver(stream, maxBytes);
      return [];
    }
    if total > streamLen - 4 { total := streamLen - 4; }
    result := CopyBody(frags, sizes, total);
    TrimTaken(stream, maxBytes, total);
  }

  ghost function Cut(frags: seq<Bytes>, sizes: seq<nat>): (c: seq<Bytes>)
    requires |frags| == |sizes|
    ensures |c| == |frags|
  {
    seq(|frags|, i requires 0 <= i < |frags| => Piece(frags[i], sizes[i]))
  }

  lemma {:induction false} ConcatGrows(c: seq<Bytes>, i: nat, n: nat)
    requires i <= n <= |c|
    ensures |Concat(c, i)| <= |Concat(c, n)|
    ensures Concat(c, n)[..|Concat(c, i)|] == Concat(c, i)
    decreases n
  {
    if i < n { ConcatGrows(c, i, n - 1); }
  }

  // The first four bytes, which may straddle fragments.
  method ReadPrefix(frags: seq<Bytes>, sizes: seq<nat>) returns (prefix: Bytes)
    requires |frags| == |sizes| && |Concat(Cut(frags, sizes), |frags|)| >= 4
    ensures |prefix| == 4 && prefix == Concat(Cut(frags, sizes), |frags|)[..4]
  {
    var n := |frags|;
    ghost var cut := Cut(frags, sizes);
    prefix := [];
    var need := 4;
    var i := 0;
    while i < n && need > 0
      invariant 0 <= i <= n && 0 <= need <= 4
      invariant |prefix| == 4 - need && need == if |Concat(cut, i)| >= 4 then 0 else 4 - |Concat(cut, i)|
      invariant prefix == Concat(cut, i)[..4 - need]
    {
      var take := Min(Min(sizes[i], |frags[i]|), need);
      assert cut[i][..take] == frags[i][..take];
      prefix := prefix + frags[i][..take];
      need := need - take;
      i := i + 1;
    }
    ConcatGrows(cut, i, n);
    assert Concat(cut, n)[..4] == Concat(cut, n)[..|Concat(cut, i)|][..4];
  }

  // At most total bytes of the stream, after the prefix.
  ghost function Body(stream: Bytes, total: nat): (s: Bytes)
  {
    if |stream| < 4 then [] else stream[4..4 + Min(|stream| - 4, total)]
  }

  ghost function Skip(stream: Bytes): (n: nat) { if |stream| >= 4 then 0 else 4 - |stream| }

  lemma BodySkipped(before: Bytes, piece: Bytes, total: nat)
    requires Skip(before) >= |piece|
    ensures Skip(before + piece) == Skip(before) - |piece|
    ensures Body(before + piece, total) == Body(before, total)
  {}

  lemma BodyTaken(before: Bytes, piece: Bytes, total: nat, left: nat)
    requires Skip(before) < |piece| && |Body(before, total)| < total
    requires left == Min(|piece| - Skip(before), total - |Body(before, total)|)
    ensures Skip(before + piece) == 0
    ensures Body(before + piece, total) == Body(before, total) + piece[Skip(before)..Skip(before) + left]
  {
    var s := before + piece;
    if |before| < 4 {
      assert Body(s, total) == s[4..4 + left];
    }
  }

  lemma {:induction false} BodyStable(c: seq<Bytes>, i: nat, n: nat, total: nat)
    requires i <= n <= |c| && (i == n || |Body(Concat(c, i), total)| >= total)
    requires |Concat(c, n)| >= 4 + total
    ensures Body(Concat(c, i), total) == Concat(c, n)[4..4 + total]
  {
    ConcatGrows(c, i, n);
    var s := Concat(c, n);
    if |Concat(c, i)| >= 4 + total {
      assert s[4..4 + total] == s[..|Concat(c, i)|][4..4 + total];
    } else {
      assert total == 0;
    }
  }

  // The bytes after the prefix.
  method CopyBody(frags: seq<Bytes>, sizes: seq<nat>, total: nat) returns (result: Bytes)
    requires |frags| == |sizes| && |Concat(Cut(frags, sizes), |frags|)| >= 4 + total
    ensures result == Concat(Cut(frags, sizes), |frags|)[4..4 + total]
  {
    hide Body, Skip;
    var n := |frags|;
    ghost var cut := Cut(frags, sizes);
    BodyEmpty(total);
    result := [];
    var skip := 4;
    var i := 0;
    while i < n && |result| < total
      invariant 0 <= i <= n
      invariant skip == Skip(Concat(cut, i)) && result == Body(Concat(cut, i), total)
      invariant |result| <= total
    {
      var size := Min(sizes[i], |frags[i]|);
      ghost var before := Concat(cut, i);
      assert Concat(cut, i + 1) == before + cut[i];
      if skip >= size {
        BodySkipped(before, cut[i], total);
        skip := skip - size;
      } else {
        var left := size - skip;
        if |result| + left > total { left := total - |result|; }
        BodyTaken(before, cut[i], total, left);
        assert cut[i][skip..skip + left] == frags[i][skip..skip + left];
        result := result + frags[i][skip..skip + left];
        skip := 0;
      }
      i := i + 1;
    }
    BodyStable(cut, i, n, total);
  }

  lemma BodyEmpty(total: nat)
    ensures Skip([]) == 4 && Body([], total) == []
  {}

  // ---- try_assemble ----

  method CountAbsent(data: Slots) returns (c: nat)
    ensures c == Absent(data, |data|)
  {
    c := 0;
    for i := 0 to |data|
      invariant c == Absent(data, i)
    {
      if data[i].None? { c := c + 1; }
    }
  }

  method WidestFragment(f: Slots) returns (w: nat)
    ensures w == Widest(f, |f|)
  {
    w := 0;
    for i := 0 to |f|
      invariant w == Widest(f, i)
    {
      if f[i].Some? && |f[i].value| > w { w := |f[i].value|; }
    }
  }

  method PresentParities(parity: Slots) returns (p: Parities)
    ensures p == Present(parity, |parity|)
  {
    p := [];
    for i := 0 to |parity|
      invariant p == Present(parity, i)
    {
      if parity[i].Some? { p := p + [(i, parity[i].value)]; }
    }
  }

  method BuildFromSlots(data: Slots, sizes: seq<nat>, maxBytes: nat) returns (result: Bytes)
    requires |data| == |sizes| && forall i :: 0 <= i < |data| ==> data[i].Some?
    ensures result == Trim(Concat(Pieces(data, sizes), |data|), maxBytes)
  {
    hide Trim;
    var frags := seq(|data|, i requires 0 <= i < |data| => data[i].value);
    assert Cut(frags, sizes) == Pieces(data, sizes);
    result := BuildMessage(frags, sizes, maxBytes);
  }

  // Recovery through the parities; None when decode gives up.
  method Recover(t: Tables, data: Slots, present: Parities, width: nat) returns (r: Option<Slots>)
    requires t.Valid()
    ensures r == Decoded(data, present, width)
  {
    hide Decoded;
    var slots := new Option<Bytes>[|data|](i requires 0 <= i < |data| => data[i]);
    assert slots[..] == data;
    var ok := Decode(t, slots, present, width);
    r := if ok then Some(slots[..]) else None;
  }

  method TryAssemble(t: Tables, e: Incoming, now: int, lossWait: int, maxBytes: nat) returns (out: Outcome)
    requires t.Valid() && e.Valid()
    ensures out == Assemble(e, now, lossWait, maxBytes)
  {
    hide Trim, Concat, Decoded, Pieces;
    var n := e.Data();
    var data, parity := e.fragments[..n], e.fragments[n..];
    var absent := CountAbsent(data);
    if absent == 0 {
      var msg := BuildFromSlots(data, e.sizes[..n], maxBytes);
      return Deliver(msg);
    }
    if absent > |parity| {
      return if now - e.firstSeen < lossWait then Wait else Loss(e.channel);
    }
    var width := WidestFragment(e.fragments);
    if width == 0 { return Wait; }
    var present := PresentParities(parity);
    if absent > |present| { return Wait; }
    var recovered := Recover(t, data, present, width);
    if recovered.None? { return Wait; }
    DecodedComplete(data, present, width);
    var d, sizes := recovered.value, e.sizes[..n];
    for i := 0 to n
      invariant |sizes| == n
      invariant forall k :: 0 <= k < i ==> sizes[k] == SizesAfter(data, e.sizes[..n], width)[k]
      invariant forall k :: i <= k < n ==> sizes[k] == e.sizes[k]
    {
      if data[i].None? { sizes := sizes[i := width % U16]; }
    }
    assert sizes == SizesAfter(data, e.sizes[..n], width);
    var msg := BuildFromSlots(d, sizes, maxBytes);
    out := Deliver(msg);
  }

  // How long an incomplete message may wait, in milliseconds.
  function LossWait(reliable: bool, reportIntervalMs: nat, rttUs: nat): (w: nat)
    ensures reliable ==> w == 12 * reportIntervalMs
    // twice the round trip in whole milliseconds, and at least a quarter of a second
    ensures !reliable ==> w >= 250 && w >= 2 * (rttUs / 1000) && (w == 250 || w == 2 * (rttUs / 1000))
  {
    if reliable then 12 * reportIntervalMs
    else if 2 * (rttUs / 1000) > 250 then 2 * (rttUs / 1000) else 250
  }

  // On reliable channels an incomplete message waits exactly as long as its gaps may be reported.
  lemma WaitMatchesGiveUp(reportIntervalMs: nat, rttUs: nat)
    ensures LossWait(true, reportIntervalMs, rttUs) * 1000 == SequenceTracking.GiveUp(reportIntervalMs)
  {}

  // The receiving half of Peer that collects fragments.
  class Collector {
    var incoming: map<nat, Incoming>
    var completed: map<nat, int>

    constructor ()
      ensures incoming == map[] && completed == map[]
    {
      incoming, completed := map[], map[];
    }

    ghost function Value(): (r: State)
      reads this
    {
      State(incoming, completed)
    }

    method HandleFragment(t: Tables, p: Packet, now: int, lossWait: int, maxBytes: nat) returns (out: Outcome)
      requires t.Valid() && Value().Valid() && p.flags <= p.count
      modifies this
      ensures (Value(), out) == Handle(old(Value()), p, now, lossWait, maxBytes)
    {
      hide Assemble;
      out := Wait;
      if p.count == 0 { return; }
      if p.messageId in completed { return; }
      if p.index >= p.count { return; }
      if p.count > maxBytes / 64 + 8 { return; }
      if p.messageId !in incoming || p.messageId == 0 {
        incoming := incoming[p.messageId := Fresh(p, now)];
      }
      var e := incoming[p.messageId];
      if e.total != p.count { return; }
      if e.fragments[p.index].None? {
        e := e.(fragments := e.fragments[p.index := Some(p.payload)],
                sizes := e.sizes[p.index := RealSize(p.reserved)]);
        incoming := incoming[p.messageId := e];
      }
      assert incoming == old(incoming)[p.messageId := e];
      assert e == Store(EntryFor(old(Value()), p, now), p);
      out := TryAssemble(t, e, now, lossWait, maxBytes);
      if !out.Wait? {
        completed := completed[p.messageId := now];
        incoming := incoming - {p.messageId};
        assert incoming == old(incoming) - {p.messageId};
      }
    }

    // check_offline: both tables are walked, and what has grown old is erased.
    method PurgeStale(now: int, deadTimeout: int)
      modifies this
      ensures Value() == Purged(old(Value()), now, deadTimeout)
    {
      var todo := incoming.Keys;
      while todo != {}
        invariant todo <= old(incoming).Keys && completed == old(completed)
        invariant forall id :: id in incoming <==>
          id in old(incoming) && (id in todo || now - old(incoming)[id].firstSeen < deadTimeout)
        invariant forall id :: id in incoming ==> incoming[id] == old(incoming)[id]
        decreases |todo|
      {
        var id :| id in todo;
        if now - incoming[id].firstSeen >= deadTimeout { incoming := incoming - {id}; }
        todo := todo - {id};
      }
      todo := completed.Keys;
      while todo != {}
        invariant todo <= old(completed).Keys && incoming == Purged(old(Value()), now, deadTimeout).incoming
        invariant forall id :: id in completed <==>
          id in old(completed) && (id in todo || now - old(completed)[id] < deadTimeout)
        invariant forall id :: id in completed ==> completed[id] == old(completed)[id]
        decreases |todo|
      {
        var id :| id in todo;
        if now - completed[id] >= deadTimeout { completed := completed - {id}; }
        todo := todo - {id};
      }
    }
  }
}
