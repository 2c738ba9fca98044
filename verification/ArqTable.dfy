// The life of an entry of the gap table, over every run: when it is there, which time and channel it
// carries, which reports name it, and when the cursor waits at a sequence that has no entry.
module ArqTable {
  import opened Numbers
  import opened SequenceTracking
  import opened PendingTable
  import opened ArqInvariants
  import opened ArqGaps
  import opened ArqRuns

  // A packet above q that arrives at or above the cursor notes it missing.
  ghost predicate Notes(w: World, a: Action, q: nat)
  {
    a.DeliverData? && w.tracker.initialized && w.tracker.next <= q < a.copy.0 && q !in w.tracker.recv
  }

  // The packet itself, behind the cursor, takes the entry away.
  ghost predicate Fetches(w: World, a: Action, q: nat)
  {
    a.DeliverData? && w.tracker.initialized && a.copy.0 == q && 0 < q < w.tracker.next
  }

  // A report takes it away.
  ghost predicate Forgets(w: World, a: Action, q: nat)
  {
    && a.MakeReport? && q in w.tracker.missing
    && var t := w.tracker; var (p, now) := (a.policy, a.at);
       !Reliable(p, ChannelOfGap(t, q)) || GivenUp(t, q, p, now) || CutOff(t, q, p, now)
  }

  // ---- one step ----

  lemma {:induction false} ScanEntries(t: Tracker, lost: seq<nat>, todo: set<nat>, p: Policy, now: int)
    requires todo <= t.missing.Keys
    ensures var t' := VisitGaps(t, lost, todo, p, now).0;
      forall q :: q in t'.missing ==>
        q in t.missing && t'.missing[q] == t.missing[q] && ChannelOfGap(t', q) == ChannelOfGap(t, q)
    decreases |todo|
  {
    hide SkipGap;
    if todo != {} {
      var g := MinOf(todo);
      SkipKeepsTable(t, g);
      var (t', listed) := VisitGap(t, g, p, now);
      ScanEntries(t', if listed then lost + [g] else lost, todo - {g}, p, now);
    }
  }

  lemma {:induction false} ShrinkEntries(t: Tracker)
    ensures var t' := Shrink(t);
      forall q :: q in t'.missing ==>
        q in t.missing && t'.missing[q] == t.missing[q] && ChannelOfGap(t', q) == ChannelOfGap(t, q)
    decreases |t.missing|
  {
    if |t.missing| > TABLE_LIMIT {
      var g := MinOf(t.missing.Keys);
      RemoveOne(t.missing, g);
      ShrinkEntries(Forget(t, g));
    }
  }

  lemma ReportEntries(t: Tracker, p: Policy, now: int, q: nat)
    requires q in BuildReport(t, p, now).0.missing
    ensures var t' := BuildReport(t, p, now).0;
      q in t.missing && t'.missing[q] == t.missing[q] && ChannelOfGap(t', q) == ChannelOfGap(t, q)
  {
    hide VisitGaps, Shrink;
    ScanEntries(t, [], t.missing.Keys, p, now);
    ShrinkEntries(VisitGaps(t, [], t.missing.Keys, p, now).0);
  }

  lemma ReceiveEntries(t: Tracker, s: nat, ch: nat, now: int, q: nat)
    requires !t.initialized ==> t.missing == map[]
    ensures var t' := Receive(t, s, ch, now);
      var noted := t.initialized && t.next <= q < s && q !in t.recv;
      && (q in t'.missing <==> noted || (q in t.missing && !(t.initialized && s == q && q < t.next && s != 0)))
      && (q in t'.missing ==>
           && t'.missing[q] == (if q in t.missing then t.missing[q] else now)
           && ChannelOfGap(t', q) == (if noted then ch else ChannelOfGap(t, q)))
  {
    hide Advanced, NoteGaps;
    if s != 0 && t.initialized {
      if s >= t.next {
        NoteGapsEffect(t, t.next, s, ch, now);
        if !(t.next <= q < s && q !in t.recv) { NotedOutside(t, t.next, s, ch, now, q); }
      }
      var t1 := if s >= t.next then NoteGaps(t, t.next, s, ch, now)
        else if s in t.missing then t.(missing := Without(t.missing, s), channel := Without(t.channel, s)) else t;
      TableUnmoved(t1.(recv := t1.recv + {s}));
    }
  }

  lemma {:induction false} NotedOutside(t: Tracker, from: nat, end: nat, ch: nat, now: int, q: nat)
    requires from <= end && !(from <= q < end && q !in t.recv)
    ensures ChannelOfGap(NoteGaps(t, from, end, ch, now), q) == ChannelOfGap(t, q)
    decreases end - from
  {
    if from == end {
    } else if from in t.recv {
      NotedOutside(t, from + 1, end, ch, now, q);
    } else {
      var m := if from in t.missing then t.missing else t.missing[from := now];
      NotedOutside(t.(missing := m, channel := t.channel[from := ch]), from + 1, end, ch, now, q);
    }
  }

  lemma EntryStep(w: World, a: Action, q: nat)
    requires Invariant(w) && Enabled(w, a)
    ensures var t, t' := w.tracker, Next(w, a).tracker;
      && (q in t'.missing <==> Notes(w, a, q) || (q in t.missing && !Fetches(w, a, q) && !Forgets(w, a, q)))
      && (q in t'.missing ==>
           && t'.missing[q] == (if q in t.missing then t.missing[q] else a.at)
           && ChannelOfGap(t', q) == (if Notes(w, a, q) then a.copy.1 else ChannelOfGap(t, q)))
  {
    hide Receive, BuildReport, ReceiveHistory, ReportHistory, CutOff, EntriesOk, WorkOk, NumbersOk;
    match a
    case DeliverData(c, now) => ReceiveEntries(w.tracker, c.0, c.1, now, q);
    case MakeReport(p, now) =>
      ReportTable(w.tracker, p, now, q);
      if q in Next(w, a).tracker.missing { ReportEntries(w.tracker, p, now, q); }
    case _ =>
  }

  // ---- the entry in a run ----

  // The entry dates from step first, the last step before i to note it anew, and was last noted at
  // step last.
  ghost predicate Origin(ws: seq<World>, actions: seq<Action>, i: nat, q: nat, first: nat, last: nat)
    requires |ws| == |actions| + 1 && i < |ws|
  {
    && first <= last < i
    && Notes(ws[first], actions[first], q) && q !in ws[first].tracker.missing
    && (forall k :: first < k < i ==> !Fetches(ws[k], actions[k], q) && !Forgets(ws[k], actions[k], q))
    && Notes(ws[last], actions[last], q)
    && (forall k :: last < k < i ==> !Notes(ws[k], actions[k], q))
  }

  lemma {:induction false} EntryOrigin(ws: seq<World>, actions: seq<Action>, i: nat, q: nat)
    returns (first: nat, last: nat)
    requires IsRun(ws, actions) && i < |ws| && q in ws[i].tracker.missing
    ensures Origin(ws, actions, i, q, first, last)
  {
    hide Notes, Fetches, Forgets, Next, Invariant, Enabled;
    assert i > 0;
    var n := i - 1;
    RunInvariant(ws, actions, n);
    EntryStep(ws[n], actions[n], q);
    if q in ws[n].tracker.missing {
      first, last := EntryOrigin(ws, actions, n, q);
      if Notes(ws[n], actions[n], q) { last := n; NotesKeeps(ws[n], actions[n], q); }
    } else {
      first, last := n, n;
    }
  }

  lemma NotesKeeps(w: World, a: Action, q: nat)
    requires Notes(w, a, q)
    ensures !Fetches(w, a, q) && !Forgets(w, a, q)
  {}

  lemma {:induction false} OriginEntry(ws: seq<World>, actions: seq<Action>, i: nat, q: nat, first: nat, last: nat)
    requires IsRun(ws, actions) && i < |ws| && Origin(ws, actions, i, q, first, last)
    ensures var t := ws[i].tracker;
      q in t.missing && t.missing[q] == actions[first].at && ChannelOfGap(t, q) == actions[last].copy.1
  {
    hide Notes, Fetches, Forgets, Next, Invariant, Enabled;
    var n := i - 1;
    RunInvariant(ws, actions, n);
    EntryStep(ws[n], actions[n], q);
    if first < n {
      var before := last;
      if last == n { before := LastNote(ws, actions, n, q, first); }
      OriginEntry(ws, actions, n, q, first, before);
    }
  }

  lemma {:induction false} LastNote(ws: seq<World>, actions: seq<Action>, n: nat, q: nat, first: nat)
    returns (last: nat)
    requires |ws| == |actions| + 1 && first < n < |ws| && Notes(ws[first], actions[first], q)
    ensures first <= last < n && Notes(ws[last], actions[last], q)
    ensures forall k :: last < k < n ==> !Notes(ws[k], actions[k], q)
    decreases n
  {
    hide Notes;
    if first == n - 1 || Notes(ws[n - 1], actions[n - 1], q) {
      last := n - 1;
    } else {
      last := LastNote(ws, actions, n - 1, q, first);
    }
  }

  // In every run, the table holds exactly the sequences with such an origin.
  lemma TableInRun(ws: seq<World>, actions: seq<Action>, i: nat, q: nat)
    requires IsRun(ws, actions) && i < |ws|
    ensures q in ws[i].tracker.missing <==> exists first: nat, last: nat :: Origin(ws, actions, i, q, first, last)
  {
    hide Origin, Next, Enabled;
    if q in ws[i].tracker.missing { var first, last := EntryOrigin(ws, actions, i, q); }
    forall first: nat, last: nat | Origin(ws, actions, i, q, first, last)
      ensures q in ws[i].tracker.missing
    {
      OriginEntry(ws, actions, i, q, first, last);
    }
  }

  // ---- which sequences reports name ----

  // Named at all, as far as reliability and time go: by the channel of the packet that last noted the
  // gap, and by the time of the one that first did.
  ghost predicate Due(actions: seq<Action>, i: nat, first: nat, last: nat)
    requires first < i < |actions| && last < i && actions[i].MakeReport?
  {
    && actions[first].DeliverData? && actions[last].DeliverData?
    && var (p, now, ch) := (actions[i].policy, actions[i].at, actions[last].copy.1);
       && p.retransmit && ch < 8 && ch < |p.reliable| && p.reliable[ch]
       && p.lossThreshold < now - actions[first].at <= p.giveUp
  }

  lemma OriginActions(ws: seq<World>, actions: seq<Action>, i: nat, q: nat, first: nat, last: nat)
    requires |ws| == |actions| + 1 && i < |ws| && Origin(ws, actions, i, q, first, last)
    ensures first < i && last < i && actions[first].DeliverData? && actions[last].DeliverData?
  {}

  // In every run, a report names a sequence if and only if it has an entry, the packet that last
  // noted it came on a reliable channel, the one that first did came long enough ago but not too
  // long, and there is room after the smaller ones.
  lemma NamedInRun(ws: seq<World>, actions: seq<Action>, i: nat, q: nat)
    requires IsRun(ws, actions) && i < |actions| && actions[i].MakeReport?
    ensures var t := ws[i].tracker; var (p, now) := (actions[i].policy, actions[i].at);
      q in BuildReport(t, p, now).1.lost <==>
        && (exists first: nat, last: nat ::
             first < i && last < i && Origin(ws, actions, i, q, first, last) && Due(actions, i, first, last))
        && |SmallerOverdue(t, q, p, now)| < ListedCount(|OverdueGaps(t, p, now)|)
  {
    hide Origin, Next, Enabled, BuildReport, ListedCount, SmallerOverdue, OverdueGaps;
    var t := ws[i].tracker;
    var (p, now) := (actions[i].policy, actions[i].at);
    ReportLists(t, p, now, q);
    if q in t.missing {
      var first, last := EntryOrigin(ws, actions, i, q);
      OriginActions(ws, actions, i, q, first, last);
      OriginEntry(ws, actions, i, q, first, last);
    }
    forall first: nat, last: nat | Origin(ws, actions, i, q, first, last)
      ensures q in t.missing && first < i && last < i
      ensures Due(actions, i, first, last) <==> Overdue(t, q, p, now)
    {
      OriginActions(ws, actions, i, q, first, last);
      OriginEntry(ws, actions, i, q, first, last);
    }
  }

  // A sequence the cursor has passed without an entry is never named again.
  lemma {:induction false} PassedUnnamed(ws: seq<World>, actions: seq<Action>, i: nat, j: nat, q: nat)
    requires IsRun(ws, actions) && i <= j < |actions| && actions[j].MakeReport?
    requires ws[i].tracker.initialized && q < ws[i].tracker.next && q !in ws[i].tracker.missing
    ensures q !in BuildReport(ws[j].tracker, actions[j].policy, actions[j].at).1.lost
  {
    hide BuildReport, Next, Enabled;
    PassedAbsent(ws, actions, i, j, q);
    ReportLists(ws[j].tracker, actions[j].policy, actions[j].at, q);
  }

  lemma {:induction false} PassedAbsent(ws: seq<World>, actions: seq<Action>, i: nat, j: nat, q: nat)
    requires IsRun(ws, actions) && i <= j < |ws|
    requires ws[i].tracker.initialized && q < ws[i].tracker.next && q !in ws[i].tracker.missing
    ensures q !in ws[j].tracker.missing
    decreases j
  {
    hide Next, Enabled, Fetches, Forgets, Invariant;
    if i < j {
      PassedAbsent(ws, actions, i, j - 1, q);
      CursorMonotone(ws, actions, i, j - 1);
      RunInvariant(ws, actions, j - 1);
      EntryStep(ws[j - 1], actions[j - 1], q);
    }
  }

  // ---- when the cursor waits at a sequence without an entry ----

  lemma {:induction false} ReceivedStays(ws: seq<World>, actions: seq<Action>, i: nat, j: nat, s: nat)
    requires IsRun(ws, actions) && i <= j < |ws| && s in ws[i].history.received
    ensures s in ws[j].history.received
    decreases j
  {
    hide Enabled;
    if i < j {
      ReceivedStays(ws, actions, i, j - 1, s);
      ReceivedGrows(ws[j - 1], actions[j - 1], s);
    }
  }

  lemma ReceivedGrows(w: World, a: Action, s: nat)
    requires Enabled(w, a)
    ensures s in Next(w, a).history.received <==>
      s in w.history.received || (a.DeliverData? && a.copy.0 == s && s != 0)
  {
    hide Receive, BuildReport, ReportHistory;
    if a.MakeReport? { ReportReceived(w.tracker, w.history, a.policy, a.at); }
  }

  // When a packet above the cursor has been received, the awaited sequence has been noted.
  lemma {:induction false} NotedBelow(ws: seq<World>, actions: seq<Action>, i: nat, q: nat, s: nat) returns (j: nat)
    requires IsRun(ws, actions) && i < |ws| && ws[i].tracker.initialized
    requires ws[i].tracker.next <= q < s && q !in ws[i].history.received && s in ws[i].history.received
    ensures j < i && Notes(ws[j], actions[j], q)
  {
    hide Next, Enabled;
    assert i > 0;
    var n := i - 1;
    CursorMonotone(ws, actions, n, i);
    RunInvariant(ws, actions, n);
    ReceivedGrows(ws[n], actions[n], s);
    ReceivedGrows(ws[n], actions[n], q);
    if s in ws[n].history.received {
      j := NotedBelow(ws, actions, n, q, s);
    } else {
      FirstAbove(ws[n], actions[n], q);
      j := n;
    }
  }

  lemma FirstAbove(w: World, a: Action, q: nat)
    requires Invariant(w) && Enabled(w, a) && a.DeliverData? && q !in w.history.received
    requires Next(w, a).tracker.initialized && Next(w, a).tracker.next <= q < a.copy.0
    ensures Notes(w, a, q)
  {
    CursorStep(w, a);
  }

  // Noted once, and gone: some report forgot it, and nothing noted it since.
  lemma {:induction false} LastForgotten(ws: seq<World>, actions: seq<Action>, i: nat, q: nat, j: nat) returns (k: nat)
    requires IsRun(ws, actions) && j < i < |ws| && Notes(ws[j], actions[j], q)
    requires q >= ws[i].tracker.next && q !in ws[i].tracker.missing
    ensures j < k < i && Forgets(ws[k], actions[k], q)
    ensures forall m :: k < m < i ==> !Notes(ws[m], actions[m], q)
  {
    hide Next, Enabled, Notes, Forgets, Invariant;
    var n := i - 1;
    CursorMonotone(ws, actions, n, i);
    RunInvariant(ws, actions, n);
    EntryStep(ws[n], actions[n], q);
    if q in ws[n].tracker.missing {
      k := n;
      assert !Notes(ws[n], actions[n], q);
    } else {
      k := LastForgotten(ws, actions, n, q, j);
    }
  }

  lemma {:induction false} StaysForgotten(ws: seq<World>, actions: seq<Action>, i: nat, q: nat, k: nat)
    requires IsRun(ws, actions) && k < i < |ws| && Forgets(ws[k], actions[k], q)
    requires forall m :: k < m < i ==> !Notes(ws[m], actions[m], q)
    ensures q !in ws[i].tracker.missing
  {
    hide Next, Enabled, Forgets, Invariant;
    var n := i - 1;
    RunInvariant(ws, actions, n);
    EntryStep(ws[n], actions[n], q);
    if k < n { StaysForgotten(ws, actions, n, q, k); } else { ForgetsNotes(ws[n], actions[n], q); }
  }

  lemma ForgetsNotes(w: World, a: Action, q: nat)
    requires Forgets(w, a, q)
    ensures !Notes(w, a, q)
  {}

  ghost predicate PacketAbove(w: World, q: nat) { exists s :: s in w.history.received && s > q }

  // In every run: the cursor waits below a received packet, at a sequence that is not in the table,
  // if and only if some earlier report forgot that sequence and no packet has noted it since.
  lemma CursorUnlistedInRun(ws: seq<World>, actions: seq<Action>, i: nat)
    requires IsRun(ws, actions) && i < |ws| && ws[i].tracker.initialized
    ensures var q := ws[i].tracker.next;
      PacketAbove(ws[i], q) && q !in ws[i].tracker.missing <==>
        exists k :: 0 <= k < i && Forgets(ws[k], actions[k], q) &&
          forall m :: k < m < i ==> !Notes(ws[m], actions[m], q)
  {
    hide Next, Enabled, Forgets;
    var q := ws[i].tracker.next;
    RunInvariant(ws, actions, i);
    assert q !in ws[i].history.received;
    hide Invariant;
    if PacketAbove(ws[i], q) && q !in ws[i].tracker.missing {
      var s :| s in ws[i].history.received && s > q;
      var j := NotedBelow(ws, actions, i, q, s);
      var k := LastForgotten(ws, actions, i, q, j);
    }
    if k: nat :| k < i && Forgets(ws[k], actions[k], q) && forall m :: k < m < i ==> !Notes(ws[m], actions[m], q) {
      StaysForgotten(ws, actions, i, q, k);
      ForgottenBelow(ws, actions, i, q, k);
    }
  }

  lemma ForgottenBelow(ws: seq<World>, actions: seq<Action>, i: nat, q: nat, k: nat)
    requires IsRun(ws, actions) && k < i < |ws| && Forgets(ws[k], actions[k], q)
    ensures PacketAbove(ws[i], q)
  {
    hide Next, Enabled;
    var first, last := EntryOrigin(ws, actions, k, q);
    var s := actions[first].copy.0;
    ReceivedGrows(ws[first], actions[first], s);
    ReceivedStays(ws, actions, first + 1, i, s);
  }

  // Until a packet at or above it arrives, the cursor stays there and no report names the sequence.
  lemma {:induction false} UnlistedUntilPacket(ws: seq<World>, actions: seq<Action>, i: nat, j: nat)
    requires IsRun(ws, actions) && i <= j < |ws|
    requires ws[i].tracker.initialized && ws[i].tracker.next !in ws[i].tracker.missing
    requires forall k :: i <= k < j && actions[k].DeliverData? ==> actions[k].copy.0 < ws[i].tracker.next
    ensures ws[j].tracker.initialized && ws[j].tracker.next == ws[i].tracker.next
    ensures ws[j].tracker.next !in ws[j].tracker.missing
    ensures j < |actions| && actions[j].MakeReport? ==>
      ws[i].tracker.next !in BuildReport(ws[j].tracker, actions[j].policy, actions[j].at).1.lost
    decreases j
  {
    hide BuildReport, Next, Enabled, Invariant;
    if i < j {
      UnlistedUntilPacket(ws, actions, i, j - 1);
      RunInvariant(ws, actions, j - 1);
      UnlistedStep(ws[j - 1], actions[j - 1]);
    }
    if j < |actions| && actions[j].MakeReport? {
      UnlistedForReports(ws[j].tracker, actions[j].policy, actions[j].at);
    }
  }

  lemma UnlistedStep(w: World, a: Action)
    requires Invariant(w) && Enabled(w, a) && w.tracker.initialized && w.tracker.next !in w.tracker.missing
    requires a.DeliverData? ==> a.copy.0 < w.tracker.next
    ensures var t' := Next(w, a).tracker;
      t'.initialized && t'.next == w.tracker.next && t'.next !in t'.missing
  {
    hide BuildReport, Receive, ReceiveHistory, ReportHistory, EntriesOk, WorkOk, NumbersOk;
    CursorStep(w, a);
    match a
    case DeliverData(c, now) =>
      if c.0 == 0 { Unnumbered(w.tracker, c.1, now); } else { NotedAgain(w.tracker, c.0, c.1, now); }
    case MakeReport(p, now) => UnlistedForReports(w.tracker, p, now);
    case _ =>
  }

  lemma Unnumbered(t: Tracker, ch: nat, now: int)
    ensures Receive(t, 0, ch, now) == t
  {}

  // ---- a run in which a lost packet on a reliable channel is never named ----

  // Packets 1 and 2 are sent on channel 2 and packet 3 on channel 0; 2 is lost, and 3 notes its gap
  // on channel 0. The report moves the cursor over it, and no later one names it.
  lemma MislabelledGap(p: Policy, now: int) returns (ws: seq<World>, actions: seq<Action>)
    requires Reliable(p, 2) && !Reliable(p, 0)
    ensures IsRun(ws, actions) && |actions| == 6 && actions[5] == MakeReport(p, now)
    ensures (2, 2) in ws[6].data && 2 in ws[6].pending && 2 !in ws[6].history.received
    ensures 2 in ws[5].tracker.missing && 2 !in BuildReport(ws[5].tracker, p, now).1.lost
    ensures ws[6].tracker.next == 4 && 2 !in ws[6].tracker.missing
  {
    hide BuildReport, ReportHistory, Receive, ReceiveHistory;
    var w0 := World(1, map[], {}, map[], INITIAL, {}, {}, History({}, {}, 0, {}), map[], map[]);
    var a1, a2, a3 := Send(2, true), Send(2, true), Send(0, true);
    var w1 := Next(w0, a1);
    var w2 := Next(w1, a2);
    var w3 := Next(w2, a3);
    var a4, a5, a6 := DeliverData((1, 2), 0), DeliverData((3, 0), 0), MakeReport(p, now);
    var w4 := Next(w3, a4);
    var w5 := Next(w4, a5);
    var w6 := Next(w5, a6);
    ws, actions := [w0, w1, w2, w3, w4, w5, w6], [a1, a2, a3, a4, a5, a6];
    TwoReceived(w3.tracker, w3.history);
    GapSkipped(w5.tracker, p, now);
    ReportReceived(w5.tracker, w5.history, p, now);
  }

  lemma TwoReceived(t: Tracker, h: History)
    requires t == INITIAL && h == History({}, {}, 0, {})
    ensures var t' := Receive(Receive(t, 1, 2, 0), 3, 0, 0);
      t' == Tracker(true, 2, {3}, map[2 := 0], map[2 := 0])
    ensures ReceiveHistory(Receive(t, 1, 2, 0), ReceiveHistory(t, h, 1), 3).received == {1, 3}
  {
    var t1 := Tracker(true, 2, {}, map[], map[]);
    var n := Tracker(true, 2, {}, map[2 := 0], map[2 := 0]);
    assert Receive(t, 1, 2, 0) == t1;
    assert NoteGaps(n, 3, 3, 0, 0) == n;
    assert NoteGaps(t1, 2, 3, 0, 0) == n;
    assert Advance({3}, 2) == ({3}, 2);
  }

  lemma GapSkipped(t: Tracker, p: Policy, now: int)
    requires t == Tracker(true, 2, {3}, map[2 := 0], map[2 := 0]) && !Reliable(p, 0)
    ensures var (t', r) := BuildReport(t, p, now); t'.next == 4 && 2 !in t'.missing && 2 !in r.lost
  {
    hide BuildReport;
    assert Crossed(t, 2, p, now) && Crossed(t, 3, p, now);
    ReportRests(t, p, now, 4);
    ReportTable(t, p, now, 2);
    ReportLists(t, p, now, 2);
  }
}
