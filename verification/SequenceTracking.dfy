// The receive cursor, the gap table and the received set: the sequence part of handle_data in
// src/reassembler.cpp and the gap part of build_payload in src/report.cpp.
module SequenceTracking {
  import opened Numbers

  datatype Tracker = Tracker(
    initialized: bool,
    next: nat,                    // m_next_expected_seq
    recv: set<nat>,               // m_recv_seqs
    missing: map<nat, int>,       // m_missing_seqs: when the gap was noticed
    channel: map<nat, nat>)       // m_missing_channel

  const INITIAL := Tracker(false, 0, {}, map[], map[])

  // The cursor runs over what has been received, which leaves the set on the way.
  function Advance(recv: set<nat>, next: nat): (r: (set<nat>, nat))
    ensures r.0 <= recv && r.1 >= next
    ensures r.1 !in r.0
    ensures forall q :: next <= q < r.1 <==> q in recv && q !in r.0
    ensures forall q :: q in recv && !(next <= q < r.1) ==> q in r.0
    decreases |recv|
  {
    if next in recv then
      var r := Advance(recv - {next}, next + 1);
      r
    else (recv, next)
  }

  function Advanced(t: Tracker): (r: Tracker)
  {
    var (recv, next) := Advance(t.recv, t.next);
    t.(recv := recv, next := next)
  }

  // The gaps from..to that have not been received become missing.
  function NoteGaps(t: Tracker, from: nat, end: nat, ch: nat, now: int): (r: Tracker)
    requires from <= end
    decreases end - from
  {
    if from == end then t
    else if from in t.recv then NoteGaps(t, from + 1, end, ch, now)
    else
      var m := if from in t.missing then t.missing else t.missing[from := now];
      NoteGaps(t.(missing := m, channel := t.channel[from := ch]), from + 1, end, ch, now)
  }

  function Without<V>(m: map<nat, V>, k: nat): (r: map<nat, V>)
    ensures r.Keys == m.Keys - {k}
    ensures forall g :: g in r ==> r[g] == m[g]
  {
    m - {k}
  }

  // One data or parity packet.
  function Receive(t: Tracker, s: nat, ch: nat, now: int): (r: Tracker)
  {
    if s == 0 then t
    else if !t.initialized then t.(next := s + 1, initialized := true)
    else if s >= t.next then
      var t1 := NoteGaps(t, t.next, s, ch, now);
      Advanced(t1.(recv := t1.recv + {s}))
    else
      var t1 := if s in t.missing then
          t.(missing := Without(t.missing, s), channel := Without(t.channel, s))
        else t;
      Advanced(t1.(recv := t1.recv + {s}))
  }

  // ---- the report ----

  datatype Policy = Policy(
    reliable: seq<bool>,          // m_channel_reliable
    retransmit: bool,             // m_peer_retransmit
    lossThreshold: int,           // microseconds
    giveUp: int)

  predicate Reliable(p: Policy, ch: nat)
  {
    ch < 8 && ch < |p.reliable| && p.reliable[ch] && p.retransmit
  }

  const MAX_RETRIES: nat := 10

  // When a sender that still retransmits has given up, in microseconds.
  function GiveUp(reportIntervalMs: nat): (n: nat)
  {
    reportIntervalMs * (MAX_RETRIES + 2) * 1000
  }

  function SkipGap(t: Tracker, g: nat): (r: Tracker)
  {
    if t.initialized && g == t.next then Advanced(t.(next := t.next + 1)) else t
  }

  function ChannelOfGap(t: Tracker, g: nat): (n: nat)
  {
    if g in t.channel then t.channel[g] else 0
  }

  function Forget(t: Tracker, g: nat): (r: Tracker)
  {
    t.(missing := Without(t.missing, g), channel := Without(t.channel, g))
  }

  // One entry of the gap table; the second component says whether it is listed as lost.
  function VisitGap(t: Tracker, g: nat, p: Policy, now: int): (r: (Tracker, bool))
    requires g in t.missing
  {
    if !Reliable(p, ChannelOfGap(t, g)) then (Forget(SkipGap(t, g), g), false)
    else if now - t.missing[g] > p.giveUp then (Forget(t, g), false)
    else if now - t.missing[g] > p.lossThreshold then (SkipGap(t, g), true)
    else (t, false)
  }

  // The entries in todo, in ascending order.
  function VisitGaps(t: Tracker, lost: seq<nat>, todo: set<nat>, p: Policy, now: int): (r: (Tracker, seq<nat>))
    requires todo <= t.missing.Keys
    decreases |todo|
  {
    if todo == {} then (t, lost)
    else
      var g := MinOf(todo);
      var (t', listed) := VisitGap(t, g, p, now);
      VisitGaps(t', if listed then lost + [g] else lost, todo - {g}, p, now)
  }

  const TABLE_LIMIT: nat := 4096

  // The hard limit on the gap table.
  function Shrink(t: Tracker): (r: Tracker)
    ensures |r.missing| <= TABLE_LIMIT
    ensures r.initialized == t.initialized && r.next == t.next && r.recv == t.recv
    ensures r.missing.Keys <= t.missing.Keys
    decreases |t.missing|
  {
    if |t.missing| > TABLE_LIMIT then
      var g := MinOf(t.missing.Keys);
      assert |Without(t.missing, g)| < |t.missing| by { RemoveOne(t.missing, g); }
      Shrink(Forget(t, g))
    else t
  }

  lemma RemoveOne<V>(m: map<nat, V>, g: nat)
    requires g in m
    ensures |Without(m, g)| == |m| - 1
  {
    assert |Without(m, g)| == |Without(m, g).Keys| == |m.Keys - {g}|;
  }

  function Ack(t: Tracker): (n: nat)
  {
    if t.initialized && t.next > 0 then t.next - 1 else 0
  }

  datatype Report = Report(ack: nat, lost: seq<nat>)

  const LISTED: nat := 256

  // How many of n losses a report lists: all but a multiple of 2^16, or the most it can hold.
  function ListedCount(n: nat): (c: nat)
    ensures c <= n && c <= LISTED
    ensures c < LISTED ==> (n - c) % 0x1_0000 == 0
    ensures c == LISTED ==> n % 0x1_0000 >= LISTED
  {
    var c := n % 0x1_0000;
    if c > LISTED then LISTED else c
  }

  function BuildReport(t: Tracker, p: Policy, now: int): (r: (Tracker, Report))
  {
    var (t1, lost) := VisitGaps(t, [], t.missing.Keys, p, now);
    var t2 := Shrink(t1);
    (t2, Report(Ack(t2), lost[..ListedCount(|lost|)]))
  }

  // ---- the same, updating the peer in place ----

  class PeerSequences {
    var initialized: bool
    var next: nat
    var recv: set<nat>
    var missing: map<nat, int>
    var channel: map<nat, nat>

    constructor ()
      ensures Value() == INITIAL
    {
      initialized, next, recv, missing, channel := false, 0, {}, map[], map[];
    }

    function Value(): (r: Tracker)
      reads this
    {
      Tracker(initialized, next, recv, missing, channel)
    }

    method AdvanceCursor()
      modifies this`recv, this`next
      ensures Value() == Advanced(old(Value()))
    {
      while next in recv
        invariant initialized == old(initialized) && missing == old(missing) && channel == old(channel)
        invariant Advance(recv, next) == old(Advance(recv, next))
        decreases |recv|
      {
        recv := recv - {next};
        next := next + 1;
      }
    }

    method NoteGapsUpTo(s: nat, ch: nat, now: int)
      requires next <= s
      modifies this`missing, this`channel
      ensures Value() == NoteGaps(old(Value()), next, s, ch, now)
    {
      ghost var goal := NoteGaps(Value(), next, s, ch, now);
      var g := next;
      while g < s
        invariant next <= g <= s
        invariant goal == NoteGaps(Value(), g, s, ch, now)
      {
        if g !in recv {
          if g !in missing { missing := missing[g := now]; }
          channel := channel[g := ch];
        }
        g := g + 1;
      }
    }

    method ReceiveSequence(s: nat, ch: nat, now: int)
      modifies this
      ensures Value() == Receive(old(Value()), s, ch, now)
    {
      if s == 0 {
      } else if !initialized {
        next := s + 1;
        initialized := true;
      } else if s >= next {
        NoteGapsUpTo(s, ch, now);
        recv := recv + {s};
        AdvanceCursor();
      } else {
        if s in missing {
          missing := Without(missing, s);
          channel := Without(channel, s);
        }
        recv := recv + {s};
        AdvanceCursor();
      }
    }

    method SkipGapAt(g: nat)
      modifies this`recv, this`next
      ensures Value() == SkipGap(old(Value()), g)
    {
      if initialized && g == next {
        next := next + 1;
        AdvanceCursor();
      }
    }

    method ForgetGap(g: nat)
      modifies this`missing, this`channel
      ensures Value() == Forget(old(Value()), g)
    {
      missing := Without(missing, g);
      channel := Without(channel, g);
    }

    // The gap scan of build_payload.
    method Scan(p: Policy, now: int) returns (lost: seq<nat>)
      modifies this
      ensures (Value(), lost) == VisitGaps(old(Value()), [], old(missing.Keys), p, now)
    {
      hide SkipGap;
      lost := [];
      var todo := missing.Keys;
      while todo != {}
        invariant todo <= missing.Keys
        invariant VisitGaps(old(Value()), [], old(missing.Keys), p, now) == VisitGaps(Value(), lost, todo, p, now)
        decreases |todo|
      {
        var g := MinOf(todo);
        ghost var was := Value();
        SkipKeepsTable(was, g);
        var ch := if g in channel then channel[g] else 0;
        if !Reliable(p, ch) {
          SkipGapAt(g);
          ForgetGap(g);
        } else if now - missing[g] > p.giveUp {
          ForgetGap(g);
        } else if now - missing[g] > p.lossThreshold {
          lost := lost + [g];
          SkipGapAt(g);
        }
        todo := todo - {g};
      }
    }

    method MakeReport(p: Policy, now: int) returns (r: Report)
      modifies this
      ensures (Value(), r) == BuildReport(old(Value()), p, now)
    {
      var lost := Scan(p, now);
      ghost var scanned := Value();
      while |missing| > TABLE_LIMIT
        invariant Shrink(scanned) == Shrink(Value())
        decreases |missing|
      {
        var g := MinOf(missing.Keys);
        RemoveOne(missing, g);
        ForgetGap(g);
      }
      r := Report(Ack(Value()), lost[..ListedCount(|lost|)]);
    }
  }

  lemma SkipKeepsTable(t: Tracker, g: nat)
    ensures SkipGap(t, g).missing == t.missing && SkipGap(t, g).channel == t.channel
    ensures SkipGap(t, g).initialized == t.initialized && SkipGap(t, g).next >= t.next
  {}
}
