// From packets to delivered messages, over every arrival order with losses and duplicates: the
// receiver treats each message as if it were the only one.
module MessageRuns {
  import opened Message
  import opened Reassembly
  import opened MessageEntries

  // Packets arrive, and now and then entries that have grown old are purged.
  datatype Event =
    | Arrive(packet: Packet, now: int, lossWait: int)
    | Purge(now: int, deadTimeout: int)

  type Traffic = map<nat, Message>

  ghost predicate ValidTraffic(sent: Traffic)
  {
    forall id :: id in sent ==> sent[id].Valid() && sent[id].id == id
  }

  // The network delivers packets of the traffic, any number of times and in any order.
  ghost predicate FromTraffic(sent: Traffic, e: Event)
    requires ValidTraffic(sent)
  {
    e.Arrive? ==>
      var id := e.packet.messageId;
      id in sent && e.packet.index < sent[id].Count() && e.packet == sent[id].PacketAt(e.packet.index)
  }

  ghost predicate ValidRun(sent: Traffic, events: seq<Event>)
  {
    ValidTraffic(sent) && forall k :: 0 <= k < |events| ==> FromTraffic(sent, events[k])
  }

  // What the application was told, and about which message.
  type Log = seq<(nat, Outcome)>

  ghost function Step(s: State, e: Event, maxBytes: nat): (r: (State, Log))
    requires s.Valid() && (e.Arrive? ==> e.packet.flags <= e.packet.count)
    ensures r.0.Valid()
  {
    match e
    case Arrive(packet, now, lossWait) =>
      var (s', out) := Handle(s, packet, now, lossWait, maxBytes);
      (s', if out.Wait? then [] else [(packet.messageId, out)])
    case Purge(now, deadTimeout) =>
      (Purged(s, now, deadTimeout), [])
  }

  lemma FlagsFit(sent: Traffic, e: Event)
    requires ValidTraffic(sent) && FromTraffic(sent, e)
    ensures e.Arrive? ==> e.packet.flags <= e.packet.count
  {}

  // The receiver's tables after the first n events, and what it told the application.
  ghost function Run(sent: Traffic, events: seq<Event>, n: nat, maxBytes: nat): (r: (State, Log))
    requires ValidRun(sent, events) && n <= |events|
    ensures r.0.Valid()
  {
    if n == 0 then (State(map[], map[]), [])
    else
      var (s, log) := Run(sent, events, n - 1, maxBytes);
      FlagsFit(sent, events[n - 1]);
      var (s', out) := Step(s, events[n - 1], maxBytes);
      (s', log + out)
  }

  // ---- one message on its own ----

  datatype Progress = Idle | Collecting(got: set<nat>, firstSeen: int) | Done(at: int)

  predicate Own(m: Message, e: Event) { e.Arrive? && e.packet.messageId == m.id }

  // Messages with too many fragments for the receiver's limit are ignored.
  predicate Admitted(m: Message, maxBytes: nat)
    requires m.width > 0
  {
    m.Count() <= maxBytes / 64 + 8
  }

  // What is delivered of a message: its payload, or nothing when that is over the limit.
  function Delivery(m: Message, maxBytes: nat): (out: Outcome)
  {
    Deliver(if |m.payload| > maxBytes then [] else m.payload)
  }

  // A message with these packets: delivered once they suffice, lost once that cannot happen in time.
  ghost function Decide(m: Message, got: set<nat>, firstSeen: int, now: int, lossWait: int, maxBytes: nat)
    : (r: (Progress, seq<Outcome>))
    requires m.width > 0
  {
    if Recoverable(m, got) then (Done(now), [Delivery(m, maxBytes)])
    else if Overdue(m, got, firstSeen, now, lossWait) then (Done(now), [Loss(m.channel % 16)])
    else (Collecting(got, firstSeen), [])
  }

  ghost function Advance(m: Message, p: Progress, e: Event, maxBytes: nat): (r: (Progress, seq<Outcome>))
    requires m.width > 0
  {
    match e
    case Arrive(packet, now, lossWait) =>
      if packet.messageId != m.id || !Admitted(m, maxBytes) || p.Done? then (p, [])
      else if p.Idle? then Decide(m, {packet.index}, now, now, lossWait, maxBytes)
      else Decide(m, p.got + {packet.index}, p.firstSeen, now, lossWait, maxBytes)
    case Purge(now, deadTimeout) =>
      if p.Collecting? && now - p.firstSeen >= deadTimeout then (Idle, [])
      else if p.Done? && now - p.at >= deadTimeout then (Idle, [])
      else (p, [])
  }

  ghost function Course(m: Message, events: seq<Event>, n: nat, maxBytes: nat): (r: (Progress, seq<Outcome>))
    requires m.width > 0 && n <= |events|
  {
    if n == 0 then (Idle, [])
    else
      var (p, outs) := Course(m, events, n - 1, maxBytes);
      var (p', out) := Advance(m, p, events[n - 1], maxBytes);
      (p', outs + out)
  }

  // ---- the tables hold every message's progress ----

  ghost predicate Tracks(s: State, m: Message, p: Progress)
    requires m.Valid()
  {
    match p
    case Idle => m.id !in s.incoming && m.id !in s.completed
    case Collecting(got, firstSeen) =>
      && m.id !in s.completed && m.id in s.incoming
      && EntryOf(s.incoming[m.id], m, got) && s.incoming[m.id].firstSeen == firstSeen
    case Done(at) => m.id !in s.incoming && m.id in s.completed && s.completed[m.id] == at
  }

  // The part of the log that is about one message.
  function About(log: Log, id: nat): (outs: seq<Outcome>)
  {
    if |log| == 0 then []
    else About(log[..|log| - 1], id) + if log[|log| - 1].0 == id then [log[|log| - 1].1] else []
  }

  lemma AboutAppend(log: Log, id: nat, entry: (nat, Outcome))
    ensures About(log + [entry], id) == About(log, id) + if entry.0 == id then [entry.1] else []
  {
    assert (log + [entry])[..|log|] == log;
  }

  // Storing a packet in a message's entry.
  lemma StoreKeepsEntry(e: Incoming, m: Message, got: set<nat>, i: nat)
    requires m.Valid() && EntryOf(e, m, got) && i < m.Count()
    ensures EntryOf(Store(e, m.PacketAt(i)), m, got + {i}) && Store(e, m.PacketAt(i)).firstSeen == e.firstSeen
  {
    hide m.DataCount, m.PacketAt;
    PacketIndex(m, i);
  }

  lemma PacketIndex(m: Message, i: nat)
    requires m.Valid() && i < m.Count()
    ensures m.PacketAt(i).index == i && m.PacketAt(i).count == m.Count() && m.PacketAt(i).flags == m.DataCount()
    ensures m.PacketAt(i).messageId == m.id && ChannelOf(m.PacketAt(i).reserved) == m.channel % 16
  {
    hide m.DataCount;
    ReservedRoundTrip(if i < m.DataCount() then |m.Slice(i)| else m.width, m.channel);
  }

  lemma FreshEntry(m: Message, i: nat, now: int)
    requires m.Valid() && i < m.Count()
    ensures EntryOf(Fresh(m.PacketAt(i), now), m, {})
  {
    hide m.DataCount, m.PacketAt;
    PacketIndex(m, i);
  }

  lemma OtherMessages(s: State, p: Packet, now: int, lossWait: int, maxBytes: nat, id: nat)
    requires s.Valid() && p.flags <= p.count && id != p.messageId
    ensures var s' := Handle(s, p, now, lossWait, maxBytes).0;
      && (id in s'.incoming <==> id in s.incoming)
      && (id in s.incoming ==> s'.incoming[id] == s.incoming[id])
      && (id in s'.completed <==> id in s.completed)
      && (id in s.completed ==> s'.completed[id] == s.completed[id])
  {
    hide Assemble;
  }

  // ---- one step ----

  // A packet for a message that is not done.
  lemma OwnPacket(s: State, m: Message, p: Progress, e: Event, maxBytes: nat)
    requires s.Valid() && m.Valid() && Tracks(s, m, p) && !p.Done? && Admitted(m, maxBytes)
    requires Own(m, e) && e.packet.index < m.Count() && e.packet == m.PacketAt(e.packet.index)
    requires e.packet.flags <= e.packet.count
    ensures var (s', out) := Handle(s, e.packet, e.now, e.lossWait, maxBytes);
      var (p', outs) := Advance(m, p, e, maxBytes);
      Tracks(s', m, p') && outs == if out.Wait? then [] else [out]
  {
    hide m.DataCount, m.PacketAt, Assemble, EntryOf, Recoverable, Overdue, Store;
    var i := e.packet.index;
    PacketIndex(m, i);
    FreshEntry(m, i, e.now);
    var entry := EntryFor(s, e.packet, e.now);
    var got := if p.Idle? then {} else p.got;
    assert EntryOf(entry, m, got);
    StoreKeepsEntry(entry, m, got, i);
    assert {} + {i} == {i};
    EntryShape(entry, m, got);
    AssembleDelivers(Store(entry, e.packet), m, got + {i}, e.now, e.lossWait, maxBytes);
    AssembleExactly(Store(entry, e.packet), m, got + {i}, e.now, e.lossWait, maxBytes);
  }

  // A packet that is ignored.
  lemma IgnoredPacket(s: State, m: Message, p: Progress, e: Event, maxBytes: nat)
    requires s.Valid() && m.Valid() && Tracks(s, m, p) && (p.Done? || !Admitted(m, maxBytes))
    requires Own(m, e) && e.packet.index < m.Count() && e.packet == m.PacketAt(e.packet.index)
    requires e.packet.flags <= e.packet.count
    ensures Handle(s, e.packet, e.now, e.lossWait, maxBytes) == (s, Wait)
  {
    hide m.DataCount, m.PacketAt, Assemble;
    PacketIndex(m, e.packet.index);
  }

  // Every event does to each message what it does to that message alone.
  lemma StepTracks(sent: Traffic, s: State, log: Log, id: nat, p: Progress, e: Event, maxBytes: nat)
    requires s.Valid() && ValidTraffic(sent) && FromTraffic(sent, e) && id in sent && Tracks(s, sent[id], p)
    requires e.Arrive? ==> e.packet.flags <= e.packet.count
    ensures var (s', out) := Step(s, e, maxBytes);
      var (p', outs) := Advance(sent[id], p, e, maxBytes);
      Tracks(s', sent[id], p') && About(log + out, id) == About(log, id) + outs
  {
    hide Handle, EntryOf, Recoverable, Overdue, Admitted, About;
    var m := sent[id];
    assert log + [] == log && About(log, id) + [] == About(log, id);
    if e.Arrive? {
      var out := Handle(s, e.packet, e.now, e.lossWait, maxBytes).1;
      AboutAppend(log, id, (e.packet.messageId, out));
      if e.packet.messageId != id {
        OtherMessages(s, e.packet, e.now, e.lossWait, maxBytes, id);
      } else if p.Done? || !Admitted(m, maxBytes) {
        IgnoredPacket(s, m, p, e, maxBytes);
      } else {
        OwnPacket(s, m, p, e, maxBytes);
      }
    }
  }

  // ---- the theorems ----

  // Over every run, the tables and the log are those of the messages taken one by one.
  lemma {:induction false} RunTracks(sent: Traffic, events: seq<Event>, n: nat, id: nat, maxBytes: nat)
    requires ValidRun(sent, events) && n <= |events| && id in sent
    ensures var (s, log) := Run(sent, events, n, maxBytes);
      var (p, outs) := Course(sent[id], events, n, maxBytes);
      Tracks(s, sent[id], p) && About(log, id) == outs
  {
    hide Step, Advance, Tracks, FromTraffic, About;
    if n == 0 {
      NothingYet(sent[id]);
    } else {
      RunTracks(sent, events, n - 1, id, maxBytes);
      var (s, log) := Run(sent, events, n - 1, maxBytes);
      FlagsFit(sent, events[n - 1]);
      StepTracks(sent, s, log, id, Course(sent[id], events, n - 1, maxBytes).0, events[n - 1], maxBytes);
    }
  }

  lemma NothingYet(m: Message)
    requires m.Valid()
    ensures Tracks(State(map[], map[]), m, Idle) && About([], m.id) == []
  {}

  // What is reported of a message is its payload or its loss.
  lemma {:induction false} CourseOutcomes(m: Message, events: seq<Event>, n: nat, maxBytes: nat)
    requires m.width > 0 && n <= |events|
    ensures forall o :: o in Course(m, events, n, maxBytes).1 ==>
      o == Delivery(m, maxBytes) || o == Loss(m.channel % 16)
  {
    hide Recoverable, Overdue, Admitted;
    if n > 0 { CourseOutcomes(m, events, n - 1, maxBytes); }
  }

  lemma {:induction false} LogAboutSent(sent: Traffic, events: seq<Event>, n: nat, maxBytes: nat)
    requires ValidRun(sent, events) && n <= |events|
    ensures forall entry :: entry in Run(sent, events, n, maxBytes).1 ==> entry.0 in sent
  {
    hide Handle;
    if n > 0 { LogAboutSent(sent, events, n - 1, maxBytes); }
  }

  lemma {:induction false} InAbout(log: Log, entry: (nat, Outcome))
    requires entry in log
    ensures entry.1 in About(log, entry.0)
  {
    if log[|log| - 1] != entry {
      assert log == log[..|log| - 1] + [log[|log| - 1]];
      InAbout(log[..|log| - 1], entry);
    }
  }

  // Over every run, the application is only ever told the payload of a message that was sent, or
  // nothing in its place when it is over the limit, or that it is lost.
  lemma OnlySentIsReported(sent: Traffic, events: seq<Event>, maxBytes: nat, entry: (nat, Outcome))
    requires ValidRun(sent, events) && entry in Run(sent, events, |events|, maxBytes).1
    ensures entry.0 in sent
    ensures entry.1 == Delivery(sent[entry.0], maxBytes) || entry.1 == Loss(sent[entry.0].channel % 16)
  {
    hide Run, About;
    LogAboutSent(sent, events, |events|, maxBytes);
    InAbout(Run(sent, events, |events|, maxBytes).1, entry);
    RunTracks(sent, events, |events|, entry.0, maxBytes);
    CourseOutcomes(sent[entry.0], events, |events|, maxBytes);
  }

  // Whether event k makes the receiver forget that the message was completed.
  ghost predicate Forgets(m: Message, events: seq<Event>, k: nat, maxBytes: nat)
    requires m.width > 0 && k < |events|
  {
    var p := Course(m, events, k, maxBytes).0;
    events[k].Purge? && p.Done? && events[k].now - p.at >= events[k].deadTimeout
  }

  ghost function TimesForgotten(m: Message, events: seq<Event>, n: nat, maxBytes: nat): (c: nat)
    requires m.width > 0 && n <= |events|
    ensures (forall k :: 0 <= k < n ==> !Forgets(m, events, k, maxBytes)) ==> c == 0
  {
    if n == 0 then 0
    else TimesForgotten(m, events, n - 1, maxBytes) + if Forgets(m, events, n - 1, maxBytes) then 1 else 0
  }

  // One report for each time the message was completed.
  lemma {:induction false} ReportsCounted(m: Message, events: seq<Event>, n: nat, maxBytes: nat)
    requires m.width > 0 && n <= |events|
    ensures var (p, outs) := Course(m, events, n, maxBytes);
      |outs| == TimesForgotten(m, events, n, maxBytes) + if p.Done? then 1 else 0
  {
    hide Recoverable, Overdue, Admitted;
    if n > 0 { ReportsCounted(m, events, n - 1, maxBytes); }
  }

  // A message is reported once for each time it was completed: at most once if and only if the
  // receiver has not forgotten it, or has forgotten it once and not completed it again.
  lemma DeliveredAtMostOnce(sent: Traffic, events: seq<Event>, n: nat, id: nat, maxBytes: nat)
    requires ValidRun(sent, events) && n <= |events| && id in sent
    ensures var (s, log) := Run(sent, events, n, maxBytes);
      var forgotten := TimesForgotten(sent[id], events, n, maxBytes);
      && |About(log, id)| == forgotten + (if id in s.completed then 1 else 0)
      && (|About(log, id)| <= 1 <==> forgotten == 0 || (forgotten == 1 && id !in s.completed))
    ensures (forall k :: 0 <= k < n ==> !Forgets(sent[id], events, k, maxBytes)) ==>
      |About(Run(sent, events, n, maxBytes).1, id)| <= 1
  {
    hide Run, Course, About, Tracks, Forgets, TimesForgotten;
    RunTracks(sent, events, n, id, maxBytes);
    ReportsCounted(sent[id], events, n, maxBytes);
    DoneIsCompleted(Run(sent, events, n, maxBytes).0, sent[id], Course(sent[id], events, n, maxBytes).0);
  }

  lemma DoneIsCompleted(s: State, m: Message, p: Progress)
    requires m.Valid() && Tracks(s, m, p)
    ensures p.Done? <==> m.id in s.completed
  {}

  lemma CourseNext(m: Message, events: seq<Event>, n: nat, maxBytes: nat)
    requires m.width > 0 && 0 < n <= |events|
    ensures Course(m, events, 0, maxBytes) == (Idle, [])
    ensures var (p, outs) := Course(m, events, n - 1, maxBytes);
      var (p', out) := Advance(m, p, events[n - 1], maxBytes);
      Course(m, events, n, maxBytes) == (p', outs + out)
  {
    hide Advance;
  }

  // It does happen: a copy that arrives after the purge is delivered again.
  lemma DeliveredAgain(m: Message, maxBytes: nat, deadTimeout: int) returns (sent: Traffic, events: seq<Event>)
    requires m.Valid() && m.DataCount() == 1 && Admitted(m, maxBytes)
    ensures ValidRun(sent, events) && |events| == 3 && m.id in sent && sent[m.id] == m
    ensures About(Run(sent, events, 3, maxBytes).1, m.id) == [Delivery(m, maxBytes), Delivery(m, maxBytes)]
  {
    hide Run, Course, About, Admitted, m.PacketAt, Recoverable;
    var p := m.PacketAt(0);
    PacketIndex(m, 0);
    sent := map[m.id := m];
    events := [Arrive(p, 0, 0), Purge(deadTimeout, deadTimeout), Arrive(p, deadTimeout, 0)];
    OnlyFragment(m);
    assert {p.index} == {0};
    CourseNext(m, events, 1, maxBytes);
    CourseNext(m, events, 2, maxBytes);
    CourseNext(m, events, 3, maxBytes);
    RunTracks(sent, events, 3, m.id, maxBytes);
  }

  // ---- when a message is delivered ----

  // The fragments of a message among the first n events, and the time of the first.
  ghost function Got(m: Message, events: seq<Event>, n: nat): (got: set<nat>)
    requires n <= |events|
  {
    if n == 0 then {}
    else Got(m, events, n - 1) + if Own(m, events[n - 1]) then {events[n - 1].packet.index} else {}
  }

  ghost function FirstSeen(m: Message, events: seq<Event>, n: nat): (t: int)
    requires n <= |events|
  {
    if n == 0 then 0
    else if Got(m, events, n - 1) == {} && Own(m, events[n - 1]) then events[n - 1].now
    else FirstSeen(m, events, n - 1)
  }

  // With event k the fragments suffice.
  ghost predicate Suffices(m: Message, events: seq<Event>, k: nat)
    requires m.width > 0 && k < |events|
  {
    Own(m, events[k]) && Recoverable(m, Got(m, events, k + 1))
  }

  // With event k the wait of the message is over, and what is missing cannot be recovered.
  ghost predicate TimesOut(m: Message, events: seq<Event>, k: nat)
    requires m.width > 0 && k < |events|
  {
    && Own(m, events[k])
    && !Recoverable(m, Got(m, events, k + 1))
    && Overdue(m, Got(m, events, k + 1), FirstSeen(m, events, k + 1), events[k].now, events[k].lossWait)
  }

  // No purge among the first n events takes anything of the message away.
  ghost predicate Unpurged(m: Message, events: seq<Event>, n: nat, maxBytes: nat)
    requires m.width > 0 && n <= |events|
  {
    forall k :: 0 <= k < n && events[k].Purge? ==>
      Advance(m, Course(m, events, k, maxBytes).0, events[k], maxBytes).0 == Course(m, events, k, maxBytes).0
  }

  // Some event before n decides, and the first to decide is enough fragments.
  ghost predicate Succeeds(m: Message, events: seq<Event>, n: nat)
    requires m.width > 0 && n <= |events|
  {
    exists k :: 0 <= k < n && Suffices(m, events, k) && forall j :: 0 <= j < k ==> !TimesOut(m, events, j)
  }

  ghost predicate Fails(m: Message, events: seq<Event>, n: nat)
    requires m.width > 0 && n <= |events|
  {
    exists k :: 0 <= k < n && TimesOut(m, events, k) && forall j :: 0 <= j < k ==> !Suffices(m, events, j)
  }

  ghost predicate Undecided(m: Message, events: seq<Event>, n: nat)
    requires m.width > 0 && n <= |events|
  {
    forall k :: 0 <= k < n ==> !Suffices(m, events, k) && !TimesOut(m, events, k)
  }

  lemma DecidedNext(m: Message, events: seq<Event>, n: nat)
    requires m.width > 0 && n < |events|
    ensures Succeeds(m, events, n + 1) <==>
      Succeeds(m, events, n) || (Undecided(m, events, n) && Suffices(m, events, n))
    ensures Fails(m, events, n + 1) <==> Fails(m, events, n) || (Undecided(m, events, n) && TimesOut(m, events, n))
    ensures Undecided(m, events, n + 1) <==>
      Undecided(m, events, n) && !Suffices(m, events, n) && !TimesOut(m, events, n)
    ensures !(Suffices(m, events, n) && TimesOut(m, events, n))
  {
    hide Own, Recoverable, Overdue;
  }

  ghost function Gathered(m: Message, events: seq<Event>, n: nat): (p: Progress)
    requires n <= |events|
  {
    if Got(m, events, n) == {} then Idle else Collecting(Got(m, events, n), FirstSeen(m, events, n))
  }

  ghost predicate Fated(m: Message, events: seq<Event>, n: nat, maxBytes: nat)
    requires m.width > 0 && n <= |events|
  {
    var (p, outs) := Course(m, events, n, maxBytes);
    && (Undecided(m, events, n) ==> outs == [] && p == Gathered(m, events, n))
    && (!Undecided(m, events, n) ==> p.Done?)
    && (Succeeds(m, events, n) ==> outs == [Delivery(m, maxBytes)])
    && (Fails(m, events, n) ==> outs == [Loss(m.channel % 16)])
    && (Succeeds(m, events, n) || Fails(m, events, n) || Undecided(m, events, n))
  }

  lemma FatedNext(m: Message, events: seq<Event>, n: nat, maxBytes: nat)
    requires m.width > 0 && n < |events| && Admitted(m, maxBytes) && Fated(m, events, n, maxBytes)
    requires events[n].Purge? ==>
      Advance(m, Course(m, events, n, maxBytes).0, events[n], maxBytes).0 == Course(m, events, n, maxBytes).0
    ensures Fated(m, events, n + 1, maxBytes)
  {
    hide Recoverable, Overdue, Admitted, Succeeds, Fails, Undecided;
    DecidedNext(m, events, n);
    if Own(m, events[n]) {
      assert Got(m, events, n + 1) != {};
      assert Got(m, events, n) == {} ==> Got(m, events, n + 1) == {events[n].packet.index};
    }
  }

  lemma {:induction false} CourseFated(m: Message, events: seq<Event>, n: nat, maxBytes: nat)
    requires m.width > 0 && n <= |events| && Admitted(m, maxBytes) && Unpurged(m, events, n, maxBytes)
    ensures Fated(m, events, n, maxBytes)
  {
    hide Course, Advance, Fated, Admitted;
    if n == 0 {
      FatedAtStart(m, events, maxBytes);
    } else {
      CourseFated(m, events, n - 1, maxBytes);
      FatedNext(m, events, n - 1, maxBytes);
    }
  }

  lemma FatedAtStart(m: Message, events: seq<Event>, maxBytes: nat)
    requires m.width > 0
    ensures Fated(m, events, 0, maxBytes)
  {}

  // A message is delivered if and only if enough of it arrives before its wait is over, reported
  // lost if and only if the wait is over first, and not reported at all otherwise. Other
  // messages, their number and their times make no difference.
  lemma DeliveredExactly(sent: Traffic, events: seq<Event>, n: nat, id: nat, maxBytes: nat)
    requires ValidRun(sent, events) && n <= |events| && id in sent
    requires Admitted(sent[id], maxBytes) && Unpurged(sent[id], events, n, maxBytes)
    ensures var outs := About(Run(sent, events, n, maxBytes).1, id); var m := sent[id];
      && (outs == [Delivery(m, maxBytes)] <==> Succeeds(m, events, n))
      && (outs == [Loss(m.channel % 16)] <==> Fails(m, events, n))
      && (outs == [] <==> Undecided(m, events, n))
      && |outs| <= 1
  {
    hide Run, Course, About, Admitted, Unpurged, Recoverable, Overdue, Own;
    RunTracks(sent, events, n, id, maxBytes);
    CourseFated(sent[id], events, n, maxBytes);
  }

  // Whenever enough has arrived, the message has been reported.
  lemma ReportedWhenRecoverable(sent: Traffic, events: seq<Event>, n: nat, id: nat, maxBytes: nat)
    requires ValidRun(sent, events) && n <= |events| && id in sent
    requires Admitted(sent[id], maxBytes) && Unpurged(sent[id], events, n, maxBytes)
    requires Recoverable(sent[id], Got(sent[id], events, n))
    ensures |About(Run(sent, events, n, maxBytes).1, id)| == 1
  {
    hide Admitted, Unpurged, Recoverable, About, Run, Succeeds, Fails, Undecided;
    DeliveredExactly(sent, events, n, id, maxBytes);
    LastOwn(sent[id], events, n);
  }

  // What arrived last was an event that sufficed.
  lemma {:induction false} LastOwn(m: Message, events: seq<Event>, n: nat)
    requires m.Valid() && n <= |events| && Recoverable(m, Got(m, events, n))
    ensures !Undecided(m, events, n)
  {
    hide Recoverable, TimesOut;
    if n == 0 {
      NothingRecoverable(m);
    } else if Own(m, events[n - 1]) {
      assert Suffices(m, events, n - 1);
    } else {
      assert Got(m, events, n) == Got(m, events, n - 1);
      LastOwn(m, events, n - 1);
    }
  }

  // Enough of the message arrives, and its own wait never runs out: it is delivered.
  lemma DeliveredWhenRecoverable(sent: Traffic, events: seq<Event>, n: nat, id: nat, maxBytes: nat)
    requires ValidRun(sent, events) && n <= |events| && id in sent
    requires Admitted(sent[id], maxBytes) && Unpurged(sent[id], events, n, maxBytes)
    requires Recoverable(sent[id], Got(sent[id], events, n))
    requires forall k :: 0 <= k < n ==> !TimesOut(sent[id], events, k)
    ensures About(Run(sent, events, n, maxBytes).1, id) == [Delivery(sent[id], maxBytes)]
  {
    hide Admitted, Unpurged, Recoverable, About, Suffices, TimesOut;
    DeliveredExactly(sent, events, n, id, maxBytes);
    LastOwn(sent[id], events, n);
  }
}
