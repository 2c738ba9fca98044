// What handle_data and try_assemble of src/reassembler.cpp do with one data or parity packet.
module Reassembly {
  import opened Numbers
  import opened Options
  import opened ByteStrings
  import opened GfLinear
  import opened ErasureCode
  import opened Message

  // An entry of m_incoming.
  datatype Incoming = Incoming(total: nat, dataCount: nat, channel: nat, fragments: Slots, sizes: seq<nat>,
                               firstSeen: int)
  {
    ghost predicate Valid()
    {
      |fragments| == |sizes| == total >= 1 && dataCount <= total
    }

    function Data(): (n: nat)
      requires total >= 1
    {
      if dataCount > 0 then dataCount else total - 1
    }
  }

  datatype State = State(incoming: map<nat, Incoming>, completed: map<nat, int>)
  {
    ghost predicate Valid()
    {
      forall id :: id in incoming ==> incoming[id].Valid()
    }
  }

  datatype Outcome = Wait | Deliver(payload: Bytes) | Loss(channel: nat)

  function Piece(f: Bytes, size: nat): (s: Bytes) { f[..Min(size, |f|)] }

  ghost function Pieces(data: Slots, sizes: seq<nat>): (p: seq<Bytes>)
    requires |sizes| == |data| && forall i :: 0 <= i < |data| ==> data[i].Some?
    ensures |p| == |data|
  {
    seq(|data|, i requires 0 <= i < |data| => Piece(data[i].value, sizes[i]))
  }

  ghost function Absent(data: Slots, n: nat): (c: nat)
    requires n <= |data|
    ensures c <= n
    ensures c == 0 <==> forall i :: 0 <= i < n ==> data[i].Some?
    ensures c == |Missing(data, n)|
  {
    if n == 0 then 0 else Absent(data, n - 1) + if data[n - 1].None? then 1 else 0
  }

  ghost function Widest(f: Slots, n: nat): (w: nat)
    requires n <= |f|
    ensures forall i :: 0 <= i < n && f[i].Some? ==> |f[i].value| <= w
  {
    if n == 0 then 0
    else
      var w := Widest(f, n - 1);
      if f[n - 1].Some? && |f[n - 1].value| > w then |f[n - 1].value| else w
  }

  // The parities among the first n slots after the data, with their indices.
  ghost function Present(parity: Slots, n: nat): (p: Parities)
    requires n <= |parity|
  {
    if n == 0 then []
    else Present(parity, n - 1) + if parity[n - 1].Some? then [(n - 1, parity[n - 1].value)] else []
  }

  // Sizes after recovery: a recovered fragment counts with the full width.
  ghost function SizesAfter(data: Slots, sizes: seq<nat>, width: nat): (r: seq<nat>)
    requires |data| == |sizes|
    ensures |r| == |data|
  {
    seq(|data|, i requires 0 <= i < |data| => if data[i].Some? then sizes[i] else width % U16)
  }

  lemma DecodedComplete(data: Slots, parity: Parities, width: nat)
    requires Decoded(data, parity, width).Some?
    ensures forall i :: 0 <= i < |data| ==> Decoded(data, parity, width).value[i].Some?
  {
    hide GaussJordan, System, Syndromes;
    var at := Missing(data, |data|);
    if |at| == 0 {
      assert Absent(data, |data|) == 0;
    } else {
      var x := GaussJordan(System(data, parity), Syndromes(data, parity, width, |at|), 0, width).value;
      FillPresent(data, at, x, |at|, |data|);
    }
  }

  lemma FillStep(data: Slots, at: seq<nat>, x: Matrix, n: nat)
    requires 0 < n <= |at| && n <= |x|
    requires forall c :: 0 <= c < |at| ==> at[c] < |data|
    ensures Fill(data, at, x, n) == Fill(data, at, x, n - 1)[at[n - 1] := Some(x[n - 1])]
  {}

  lemma {:induction false} FillPresent(data: Slots, at: seq<nat>, x: Matrix, n: nat, k: nat)
    requires n <= |at| && n <= |x| && k <= |data|
    requires forall c :: 0 <= c < |at| ==> at[c] < |data|
    requires at[..n] == Missing(data, k)
    ensures forall i :: 0 <= i < k ==> Fill(data, at, x, n)[i].Some?
    decreases k
  {
    hide Fill;
    if k > 0 {
      if data[k - 1].None? {
        assert at[..n - 1] == at[..n][..n - 1] == Missing(data, k - 1);
        FillStep(data, at, x, n);
        FillPresent(data, at, x, n - 1, k - 1);
      } else {
        FillPresent(data, at, x, n, k - 1);
        FillKeeps(data, at, x, n, k - 1);
      }
    }
  }

  lemma {:induction false} FillKeeps(data: Slots, at: seq<nat>, x: Matrix, n: nat, i: nat)
    requires n <= |at| && n <= |x| && i < |data| && data[i].Some?
    requires forall c :: 0 <= c < |at| ==> at[c] < |data|
    ensures Fill(data, at, x, n)[i].Some?
  {
    if n > 0 { FillKeeps(data, at, x, n - 1, i); }
  }

  // try_assemble
  ghost function Assemble(e: Incoming, now: int, lossWait: int, maxBytes: nat): (r: Outcome)
    requires e.Valid()
  {
    var n := e.Data();
    var data, parity := e.fragments[..n], e.fragments[n..];
    var absent := Absent(data, n);
    if absent == 0 then Deliver(Trim(Concat(Pieces(data, e.sizes[..n]), n), maxBytes))
    else if absent > |parity| then
      (if now - e.firstSeen < lossWait then Wait else Loss(e.channel))
    else
      var width := Widest(e.fragments, |e.fragments|);
      var present := Present(parity, |parity|);
      if width == 0 || absent > |present| || Decoded(data, present, width).None? then Wait
      else
        DecodedComplete(data, present, width);
        var d := Decoded(data, present, width).value;
        Deliver(Trim(Concat(Pieces(d, SizesAfter(data, e.sizes[..n], width)), n), maxBytes))
  }

  function Fresh(p: Packet, now: int): (e: Incoming)
    requires p.count >= 1 && p.flags <= p.count
    ensures e.Valid()
  {
    Incoming(p.count, p.flags, ChannelOf(p.reserved), seq(p.count, _ => None), seq(p.count, _ => 0), now)
  }

  predicate Acceptable(p: Packet, maxBytes: nat)
  {
    0 < p.count <= maxBytes / 64 + 8 && p.index < p.count
  }

  function EntryFor(s: State, p: Packet, now: int): (r: Incoming)
    requires p.count >= 1 && p.flags <= p.count
  {
    if p.messageId in s.incoming && p.messageId != 0 then s.incoming[p.messageId] else Fresh(p, now)
  }

  function Store(e: Incoming, p: Packet): (r: Incoming)
    requires e.Valid() && p.index < e.total
    ensures r.Valid()
  {
    if e.fragments[p.index].Some? then e
    else e.(fragments := e.fragments[p.index := Some(p.payload)],
            sizes := e.sizes[p.index := RealSize(p.reserved)])
  }

  // handle_data, without its sequence bookkeeping.
  ghost function Handle(s: State, p: Packet, now: int, lossWait: int, maxBytes: nat): (r: (State, Outcome))
    requires s.Valid() && p.flags <= p.count
    ensures r.0.Valid()
  {
    if !Acceptable(p, maxBytes) || p.messageId in s.completed then (s, Wait)
    else
      var e := EntryFor(s, p, now);
      if e.total != p.count then (s, Wait)
      else
        var e' := Store(e, p);
        var outcome := Assemble(e', now, lossWait, maxBytes);
        if outcome.Wait? then (s.(incoming := s.incoming[p.messageId := e']), Wait)
        else (State(s.incoming - {p.messageId}, s.completed[p.messageId := now]), outcome)
  }

  // Entries and completed ids that have reached the time limit are forgotten.
  function Purged(s: State, now: int, deadTimeout: int): (r: State)
  {
    State(map id | id in s.incoming && now - s.incoming[id].firstSeen < deadTimeout :: s.incoming[id],
          map id | id in s.completed && now - s.completed[id] < deadTimeout :: s.completed[id])
  }
}
