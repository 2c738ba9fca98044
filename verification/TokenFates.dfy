// What becomes of every packet queued for paced sending: sent, passed over, dropped for want of
// tokens, wiped with an exhausted loan, or still queued.
module TokenFates {
  import opened TokenBucket
  import opened TokenRuns

  datatype Fates = Fates(sent: seq<Packet>, passed: seq<Packet>, dropped: seq<Packet>, wiped: seq<Packet>)

  // The packets that a pass takes over (or, for passed, passes over), in their order.
  function Sift(queue: seq<Packet>, drain: bool, passed: bool): (s: seq<Packet>)
  {
    if |queue| == 0 then []
    else if Passed(queue[0], drain) == passed then [queue[0]] + Sift(queue[1..], drain, passed)
    else Sift(queue[1..], drain, passed)
  }

  lemma {:induction false} SiftSplits(queue: seq<Packet>, drain: bool)
    ensures multiset(Sift(queue, drain, false)) + multiset(Sift(queue, drain, true)) == multiset(queue)
  {
    hide Passed;
    if |queue| > 0 {
      SiftSplits(queue[1..], drain);
      assert queue == [queue[0]] + queue[1..];
    }
  }

  // What left is these packets, in this order.
  ghost predicate Matches(sent: seq<Sent>, packets: seq<Packet>)
  {
    && |sent| == |packets|
    && forall i :: 0 <= i < |sent| ==>
         sent[i].channel == packets[i].channel && sent[i].size == packets[i].size && sent[i].bps == packets[i].bps
  }

  // How many packets the pass dealt with before the one that stopped it, if any did.
  ghost predicate Stops(c: Config, queue: seq<Packet>, drain: bool, p: Pass, k: nat)
  {
    && k <= |queue|
    && Matches(p.sent, Sift(queue[..k], drain, false))
    && (if p.exhausted || p.short then
          && k < |queue| && p.rest == queue[k + 1..] && !Passed(queue[k], drain)
          && (p.exhausted <==> !p.short) && (p.exhausted <==> queue[k].channel == 0)
          && var left := p.bucket - queue[k].size as real;
             if p.exhausted then !WithinLoan(c, left, queue[k].bps) else left < 0.0
        else
          k == |queue| && p.rest == [])
  }

  lemma SiftCons(p: Packet, rest: seq<Packet>, drain: bool)
    ensures Sift([p] + rest, drain, false) == if Passed(p, drain) then Sift(rest, drain, false)
      else [p] + Sift(rest, drain, false)
  {
    assert ([p] + rest)[1..] == rest;
  }

  lemma StopsCons(c: Config, queue: seq<Packet>, drain: bool, p: Pass, k: nat, sent: seq<Sent>)
    requires |queue| > 0 && Stops(c, queue[1..], drain, p, k)
    requires if Passed(queue[0], drain) then sent == [] else
      |sent| == 1 && sent[0].channel == queue[0].channel && sent[0].size == queue[0].size && sent[0].bps == queue[0].bps
    ensures Stops(c, queue, drain, p.(sent := sent + p.sent), k + 1)
  {
    hide WithinLoan, Passed, Sift;
    var rest := queue[1..];
    assert queue[..k + 1] == [queue[0]] + rest[..k];
    SiftCons(queue[0], rest[..k], drain);
    if sent == [] { assert sent + p.sent == p.sent; }
    if k < |rest| { assert rest[k + 1..] == queue[k + 2..]; }
  }

  lemma {:induction false} PassStops(c: Config, bucket: real, drain: bool, queue: seq<Packet>) returns (k: nat)
    ensures Stops(c, queue, drain, SendQueue(c, bucket, drain, queue), k)
    decreases |queue|
  {
    if |queue| == 0 {
      k := 0;
    } else {
      var p, rest := queue[0], queue[1..];
      var left, limit := bucket - p.size as real, LoanLimit(c, p.bps);
      if Passed(p, drain) {
        var n := PassStops(c, bucket, drain, rest);
        k := n + 1;
        hide Stops, LoanLimit, WithinLoan;
        StopsCons(c, queue, drain, SendQueue(c, bucket, drain, rest), n, []);
        assert forall t: Pass :: t.(sent := [] + t.sent) == t;
      } else if (p.channel == 0 && left < -limit) || (p.channel != 0 && left < 0.0) {
        k := 0;
        LimitIsLoan(c, left, p.bps);
      } else {
        var n := PassStops(c, left, drain, rest);
        k := n + 1;
        hide Stops, LoanLimit, WithinLoan;
        StopsCons(c, queue, drain, SendQueue(c, left, drain, rest), n, [Sent(p.channel, p.size, left, p.bps)]);
      }
    }
  }

  // ---- one heartbeat ----

  ghost function Occurs(f: Fates, x: Packet): (n: nat)
  {
    multiset(f.sent)[x] + multiset(f.passed)[x] + multiset(f.dropped)[x] + multiset(f.wiped)[x]
  }

  // Nothing is lost and nothing counted twice.
  ghost predicate Accounted(queue: seq<Packet>, f: Fates, left: seq<Packet>)
  {
    forall x: Packet :: multiset(queue)[x] == Occurs(f, x) + multiset(left)[x]
  }

  ghost function PassOf(c: Config, s: Pacer, b: Beat): (p: Pass)
  {
    var o := Opening(c, s, b);
    SendQueue(c, o.bucket, o.drain, o.queue)
  }

  // What the heartbeat does with the packets it finds queued.
  ghost predicate BeatFates(c: Config, s: Pacer, b: Beat, f: Fates)
  {
    var e, p := Heartbeat(c, s, b), PassOf(c, s, b);
    && Accounted(s.queue + b.arrivals, f, e.pacer.queue)
    && Matches(e.sent, f.sent)
    && (forall x :: x in f.sent ==> !x.skipped && !(x.channel == 0 && s.drain && !b.reset))
    && (forall x :: x in f.passed ==> x.skipped || (x.channel == 0 && s.drain && !b.reset))
    && |f.dropped| == (if p.short then 1 else 0)
    && (forall x :: x in f.dropped ==> !x.skipped && x.channel != 0 && x.size as real > e.pacer.bucket)
    && (if p.exhausted then
          && |f.wiped| > 0 && e.pacer.queue == [] && f.wiped[0].channel == 0
          && !WithinLoan(c, e.pacer.bucket - f.wiped[0].size as real, f.wiped[0].bps)
        else
          f.wiped == [])
    && (e.pacer.queue != [] ==> p.short)
  }

  lemma {:induction false} Sifted(queue: seq<Packet>, drain: bool, passed: bool)
    ensures forall x :: x in Sift(queue, drain, passed) ==> Passed(x, drain) == passed
  {
    hide Passed;
    if |queue| > 0 { Sifted(queue[1..], drain, passed); }
  }

  // The fates of a pass that stopped after k packets.
  function Split(q: seq<Packet>, drain: bool, p: Pass, k: nat): (f: Fates)
    requires k <= |q| && (p.short ==> k < |q|)
  {
    Fates(Sift(q[..k], drain, false), Sift(q[..k], drain, true),
          if p.short then [q[k]] else [], if p.exhausted then q[k..] else [])
  }

  lemma SplitAccounts(c: Config, q: seq<Packet>, drain: bool, p: Pass, k: nat)
    requires Stops(c, q, drain, p, k)
    ensures Accounted(q, Split(q, drain, p, k), if p.exhausted then [] else p.rest)
  {
    hide Sift, WithinLoan, Passed, Matches;
    SiftSplits(q[..k], drain);
    assert q == q[..k] + q[k..];
    if p.short { assert q[k..] == [q[k]] + q[k + 1..]; }
  }

  lemma FateOfBeat(c: Config, s: Pacer, b: Beat) returns (f: Fates)
    ensures BeatFates(c, s, b, f)
  {
    hide SendQueue, Refilled, WithinLoan, Sift, Accounted, Matches;
    var o := Opening(c, s, b);
    var q, p := o.queue, PassOf(c, s, b);
    var k := PassStops(c, o.bucket, o.drain, q);
    SplitAccounts(c, q, o.drain, p, k);
    Sifted(q[..k], o.drain, false);
    Sifted(q[..k], o.drain, true);
    f := Split(q, o.drain, p, k);
  }

  // ---- runs ----

  ghost function Arrivals(beats: seq<Beat>): (s: seq<Packet>)
  {
    if |beats| == 0 then [] else Arrivals(beats[..|beats| - 1]) + beats[|beats| - 1].arrivals
  }

  ghost function ShortBeats(c: Config, s: Pacer, beats: seq<Beat>): (n: nat)
  {
    if |beats| == 0 then 0
    else
      var before := beats[..|beats| - 1];
      ShortBeats(c, s, before) + if PassOf(c, Run(c, s, before).pacer, beats[|beats| - 1]).short then 1 else 0
  }

  // Every packet that was queued or arrived is accounted for, and the short heartbeats have dropped
  // one strict packet each.
  ghost predicate RunFates(c: Config, s: Pacer, beats: seq<Beat>, f: Fates)
  {
    var e := Run(c, s, beats);
    && Accounted(s.queue + Arrivals(beats), f, e.pacer.queue)
    && Matches(e.sent, f.sent)
    && |f.dropped| == ShortBeats(c, s, beats)
    && (forall x :: x in f.dropped ==> !x.skipped && x.channel != 0)
    && (forall x :: x in f.passed ==> x.skipped || x.channel == 0)
  }

  lemma MatchesAppend(a: seq<Sent>, p: seq<Packet>, b: seq<Sent>, q: seq<Packet>)
    requires Matches(a, p) && Matches(b, q)
    ensures Matches(a + b, p + q)
  {}

  function Joined(g: Fates, h: Fates): (f: Fates)
  {
    Fates(g.sent + h.sent, g.passed + h.passed, g.dropped + h.dropped, g.wiped + h.wiped)
  }

  lemma AccountedJoin(queue: seq<Packet>, g: Fates, left: seq<Packet>, arrivals: seq<Packet>, h: Fates,
                      end: seq<Packet>)
    requires Accounted(queue, g, left) && Accounted(left + arrivals, h, end)
    ensures Accounted(queue + arrivals, Joined(g, h), end)
  {
    hide Occurs;
    forall x: Packet
      ensures multiset(queue + arrivals)[x] == Occurs(Joined(g, h), x) + multiset(end)[x]
    {
      CountAppend(queue, arrivals, x);
      CountAppend(left, arrivals, x);
      OccursJoined(g, h, x);
    }
  }

  lemma CountAppend(a: seq<Packet>, b: seq<Packet>, x: Packet)
    ensures multiset(a + b)[x] == multiset(a)[x] + multiset(b)[x]
  {}

  lemma OccursJoined(g: Fates, h: Fates, x: Packet)
    ensures Occurs(Joined(g, h), x) == Occurs(g, x) + Occurs(h, x)
  {
    CountAppend(g.sent, h.sent, x);
    CountAppend(g.passed, h.passed, x);
    CountAppend(g.dropped, h.dropped, x);
    CountAppend(g.wiped, h.wiped, x);
  }

  lemma {:induction false} FateOfRun(c: Config, s: Pacer, beats: seq<Beat>) returns (f: Fates)
    ensures RunFates(c, s, beats, f)
  {
    hide Heartbeat, PassOf, Matches, Accounted;
    if |beats| == 0 {
      f := Fates([], [], [], []);
      Nothing(s.queue);
      assert s.queue + Arrivals(beats) == s.queue;
    } else {
      var n := |beats| - 1;
      var r, b := Run(c, s, beats[..n]), beats[n];
      var g := FateOfRun(c, s, beats[..n]);
      var h := FateOfBeat(c, r.pacer, b);
      f := Joined(g, h);
      var end := Heartbeat(c, r.pacer, b).pacer.queue;
      AccountedJoin(s.queue + Arrivals(beats[..n]), g, r.pacer.queue, b.arrivals, h, end);
      MatchesAppend(r.sent, g.sent, Heartbeat(c, r.pacer, b).sent, h.sent);
      assert s.queue + Arrivals(beats) == s.queue + Arrivals(beats[..n]) + b.arrivals;
    }
  }

  lemma Nothing(queue: seq<Packet>)
    ensures Matches([], []) && Accounted(queue, Fates([], [], [], []), queue)
  {}
}
