// Sender, receiver and a network that loses, duplicates and reorders: the retransmission
// protocol over every run.
module ArqRuns {
  import opened Numbers
  import opened SequenceTracking
  import opened PendingTable
  import opened ArqInvariants
  import opened ArqGaps

  type Copy = (nat, nat)      // a data packet in flight: sequence and channel

  // Each field group is guarded by one mutex in the source; one step is one locked section.
  datatype World = World(
    nextOut: nat,             // the sender
    pending: Table,
    unrecorded: set<nat>,     // sent, size not recorded yet
    work: Table,              // copies the report handler still has to resend
    tracker: Tracker,         // the receiver
    data: set<Copy>,          // everything ever sent: the network may deliver any of it, at any
    reports: set<Report>,     // time, again and again, or never
    history: History,         // ghost: the receiver's past
    resends: map<nat, nat>,   // ghost: resends of each packet
    stubResends: map<nat, nat>)

  datatype Action =
    | Send(channel: nat, keep: bool)
    | SendParity(channel: nat)
    | RecordSize(sequence: nat)
    | DeliverData(copy: Copy, at: int)
    | MakeReport(policy: Policy, at: int)
    | HandleReport(report: Report)
    | Resend(sequence: nat)

  ghost predicate Initial(w: World)
  {
    && w.nextOut == 1 && w.pending == map[] && w.unrecorded == {} && w.work == map[]
    && w.tracker == INITIAL && w.data == {} && w.reports == {}
    && w.history == History({}, {}, 0, {}) && w.resends == map[] && w.stubResends == map[]
  }

  function Count(m: map<nat, nat>, k: nat): (n: nat) { if k in m then m[k] else 0 }

  ghost predicate Enabled(w: World, a: Action)
  {
    match a
    case Send(_, _) => true
    case SendParity(_) => true
    case RecordSize(s) => s in w.unrecorded
    case DeliverData(c, _) => c in w.data
    case MakeReport(_, _) => true
    case HandleReport(r) => r in w.reports && w.work == map[]
    case Resend(k) => k in w.work
  }

  ghost function Next(w: World, a: Action): (r: World)
    requires Enabled(w, a)
  {
    match a
    case Send(ch, keep) =>
      var s := w.nextOut;
      w.(nextOut := s + 1,
         pending := if keep then Kept(w.pending, s, ch) else w.pending,
         unrecorded := if keep then w.unrecorded + {s} else w.unrecorded,
         data := w.data + {(s, ch)})
    case SendParity(ch) =>
      w.(data := w.data + {(0, ch)})
    case RecordSize(s) =>
      w.(pending := if s in w.pending then w.pending else w.pending[s := Pending(0, 0, true)],
         unrecorded := w.unrecorded - {s})
    case DeliverData(c, now) =>
      w.(tracker := Receive(w.tracker, c.0, c.1, now),
         history := ReceiveHistory(w.tracker, w.history, c.0))
    case MakeReport(p, now) =>
      var (t, r) := BuildReport(w.tracker, p, now);
      w.(tracker := t, reports := w.reports + {r}, history := ReportHistory(w.tracker, w.history, p, now))
    case HandleReport(r) =>
      w.(pending := Prune(w.pending, r), work := Snapshot(w.pending, r))
    case Resend(k) =>
      var e := w.work[k];
      w.(work := w.work - {k},
         pending := Bump(w.pending, k),
         data := w.data + {Resent(k, e)},
         resends := if e.stub then w.resends else w.resends[k := Count(w.resends, k) + 1],
         stubResends := if e.stub then w.stubResends[k := Count(w.stubResends, k) + 1] else w.stubResends)
  }

  // ---- the invariant ----

  ghost predicate ReportsBelowCursor(w: World)
  {
    forall r :: r in w.reports ==> if w.tracker.initialized then r.ack < w.tracker.next else r.ack == 0
  }

  // How often an entry has been resent is what its retry counter says.
  ghost predicate Counted(w: World, k: nat)
    requires k in w.pending
  {
    var e := w.pending[k];
    e.retries <= MAX_RETRIES && e.retries == Count(if e.stub then w.stubResends else w.resends, k)
  }

  ghost predicate EntriesOk(w: World)
  {
    && (forall k :: k in w.pending ==> 1 <= k < w.nextOut && Counted(w, k))
    && (forall k :: k in w.pending && w.pending[k].stub ==> k !in w.unrecorded)
    && (forall k :: k in w.unrecorded ==> 1 <= k < w.nextOut && Count(w.stubResends, k) == 0)
    && (forall k :: k in w.resends ==> k < w.nextOut && w.resends[k] <= MAX_RETRIES)
    && (forall k :: k in w.stubResends ==> k < w.nextOut && w.stubResends[k] <= MAX_RETRIES)
  }

  // A copy waiting to be resent is the entry it was taken from.
  ghost predicate WorkOk(w: World)
  {
    forall k :: k in w.work ==> k in w.pending && w.work[k] == w.pending[k] && w.pending[k].retries < MAX_RETRIES
  }

  ghost predicate NumbersOk(w: World)
  {
    && w.nextOut >= 1
    && (forall c :: c in w.data ==> c.0 < w.nextOut)
    && (forall q :: q in w.history.received ==> 1 <= q < w.nextOut)
  }

  ghost predicate Invariant(w: World)
  {
    CursorInvariant(w.tracker, w.history) && ReportsBelowCursor(w) && EntriesOk(w) && WorkOk(w) && NumbersOk(w)
  }

  lemma InitialInvariant(w: World)
    requires Initial(w)
    ensures Invariant(w)
  {}

  lemma SendKeeps(w: World, a: Action)
    requires Invariant(w) && (a.Send? || a.SendParity?) && Enabled(w, a)
    ensures Invariant(Next(w, a))
  {
    hide CursorInvariant;
  }

  lemma RecordSizeKeeps(w: World, a: Action)
    requires Invariant(w) && a.RecordSize? && Enabled(w, a)
    ensures Invariant(Next(w, a))
  {
    hide CursorInvariant;
  }

  lemma DeliverKeeps(w: World, a: Action)
    requires Invariant(w) && a.DeliverData? && Enabled(w, a)
    ensures Invariant(Next(w, a))
  {
    hide CursorInvariant, Receive, EntriesOk, WorkOk;
    ReceiveKeeps(w.tracker, w.history, a.copy.0, a.copy.1, a.at);
    UninitializedCursor(w.tracker, w.history);
    UninitializedCursor(Next(w, a).tracker, Next(w, a).history);
    SameEntries(w, Next(w, a));
  }

  lemma UninitializedCursor(t: Tracker, h: History)
    requires CursorInvariant(t, h)
    ensures !t.initialized ==> t.next == 0
    ensures t.initialized ==> t.next >= 1
  {}

  lemma SameEntries(w: World, v: World)
    requires EntriesOk(w) && WorkOk(w)
    requires v.nextOut == w.nextOut && v.pending == w.pending && v.unrecorded == w.unrecorded && v.work == w.work
    requires v.resends == w.resends && v.stubResends == w.stubResends
    ensures EntriesOk(v) && WorkOk(v)
  {}

  lemma MakeReportKeeps(w: World, a: Action)
    requires Invariant(w) && a.MakeReport? && Enabled(w, a)
    ensures Invariant(Next(w, a))
  {
    hide CursorInvariant, BuildReport, EntriesOk, WorkOk, ReportHistory;
    ReportKeeps(w.tracker, w.history, a.policy, a.at);
    ReportReceived(w.tracker, w.history, a.policy, a.at);
    SameEntries(w, Next(w, a));
  }

  lemma {:induction false} ScanReceived(t: Tracker, h: History, todo: set<nat>, p: Policy, now: int)
    requires todo <= t.missing.Keys
    ensures ScanHistory(t, h, todo, p, now).received == h.received
    ensures ScanHistory(t, h, todo, p, now).base == h.base
    decreases |todo|
  {
    if todo != {} {
      var g := MinOf(todo);
      SkipKeepsTable(t, g);
      ScanReceived(VisitGap(t, g, p, now).0, VisitHistory(t, h, g, p, now), todo - {g}, p, now);
    }
  }

  lemma ReportReceived(t: Tracker, h: History, p: Policy, now: int)
    ensures ReportHistory(t, h, p, now).received == h.received
  {
    ScanReceived(t, h, t.missing.Keys, p, now);
  }

  lemma HandleReportKeeps(w: World, a: Action)
    requires Invariant(w) && a.HandleReport? && Enabled(w, a)
    ensures Invariant(Next(w, a))
  {
    hide CursorInvariant;
  }

  lemma ResendEntries(w: World, a: Action)
    requires EntriesOk(w) && WorkOk(w) && a.Resend? && Enabled(w, a)
    ensures EntriesOk(Next(w, a))
  {}

  lemma ResendWork(w: World, a: Action)
    requires WorkOk(w) && a.Resend? && Enabled(w, a)
    ensures WorkOk(Next(w, a))
  {}

  lemma ResendKeeps(w: World, a: Action)
    requires Invariant(w) && a.Resend? && Enabled(w, a)
    ensures Invariant(Next(w, a))
  {
    hide CursorInvariant;
    ResendEntries(w, a);
    ResendWork(w, a);
    assert w.work[a.sequence] == w.pending[a.sequence] && Counted(w, a.sequence);
    hide EntriesOk, WorkOk, Counted;
  }

  lemma NextKeeps(w: World, a: Action)
    requires Invariant(w) && Enabled(w, a)
    ensures Invariant(Next(w, a))
  {
    hide Invariant, Enabled, Next;
    match a
    case Send(_, _) => SendKeeps(w, a);
    case SendParity(_) => SendKeeps(w, a);
    case RecordSize(_) => RecordSizeKeeps(w, a);
    case DeliverData(_, _) => DeliverKeeps(w, a);
    case MakeReport(_, _) => MakeReportKeeps(w, a);
    case HandleReport(_) => HandleReportKeeps(w, a);
    case Resend(_) => ResendKeeps(w, a);
  }

  // ---- runs ----

  ghost predicate IsRun(ws: seq<World>, actions: seq<Action>)
  {
    && |ws| == |actions| + 1 && Initial(ws[0])
    && forall i :: 0 <= i < |actions| ==> Enabled(ws[i], actions[i]) && ws[i + 1] == Next(ws[i], actions[i])
  }

  lemma {:induction false} RunInvariant(ws: seq<World>, actions: seq<Action>, i: nat)
    requires IsRun(ws, actions) && i < |ws|
    ensures Invariant(ws[i])
  {
    hide Invariant, Initial, Next;
    if i == 0 {
      InitialInvariant(ws[0]);
    } else {
      RunInvariant(ws, actions, i - 1);
      NextKeeps(ws[i - 1], actions[i - 1]);
    }
  }

  lemma CursorStep(w: World, a: Action)
    requires Invariant(w) && Enabled(w, a)
    ensures var v := Next(w, a);
      v.tracker.next >= w.tracker.next && (w.tracker.initialized ==> v.tracker.initialized)
  {
    hide CursorInvariant, Receive, BuildReport, EntriesOk, WorkOk, ReportHistory, ReceiveHistory;
    match a
    case DeliverData(c, now) => ReceiveKeeps(w.tracker, w.history, c.0, c.1, now);
    case MakeReport(p, now) => ReportKeeps(w.tracker, w.history, p, now);
    case _ =>
  }

  // The cursor never moves back.
  lemma {:induction false} CursorMonotone(ws: seq<World>, actions: seq<Action>, i: nat, j: nat)
    requires IsRun(ws, actions) && i <= j < |ws|
    ensures ws[i].tracker.next <= ws[j].tracker.next
    ensures ws[i].tracker.initialized ==> ws[j].tracker.initialized
    decreases j
  {
    hide Invariant, Initial, Next;
    if i < j {
      CursorMonotone(ws, actions, i, j - 1);
      RunInvariant(ws, actions, j - 1);
      CursorStep(ws[j - 1], actions[j - 1]);
    }
  }

  // Behind the receiver's cursor: received, skipped by a report, or sent before the first
  // packet that ever arrived.
  ghost predicate Behind(w: World, k: nat)
  {
    && w.tracker.initialized && k < w.tracker.next
    && (k in w.history.received || k in w.history.skipped || k < w.history.base)
  }

  // What a report takes out of the sender's buffer in any run: entries behind the receiver's
  // cursor and entries whose ten retries are used up. What stays is above the acknowledgement
  // or listed as lost.
  lemma PruneIsSafe(ws: seq<World>, actions: seq<Action>, i: nat, k: nat)
    requires IsRun(ws, actions) && i < |actions| && actions[i].HandleReport?
    requires k in ws[i].pending
    ensures var r := actions[i].report;
      if k in ws[i + 1].pending then
        k > r.ack || k in r.lost
      else
        ws[i].pending[k].retries == MAX_RETRIES || Behind(ws[i], k)
  {
    hide Invariant, Initial;
    RunInvariant(ws, actions, i);
    PruneStep(ws[i], actions[i].report, k);
  }

  lemma PruneStep(w: World, r: Report, k: nat)
    requires Invariant(w) && Enabled(w, HandleReport(r)) && k in w.pending
    ensures if k in Prune(w.pending, r) then k > r.ack || k in r.lost
      else w.pending[k].retries == MAX_RETRIES || Behind(w, k)
  {}

  // Behind the cursor once, behind it for ever.
  lemma {:induction false} BehindForever(ws: seq<World>, actions: seq<Action>, i: nat, j: nat, k: nat)
    requires IsRun(ws, actions) && i <= j < |ws| && Behind(ws[i], k)
    ensures Behind(ws[j], k)
  {
    hide Invariant;
    CursorMonotone(ws, actions, i, j);
    RunInvariant(ws, actions, j);
    AnyBehind(ws[j], k);
  }

  lemma AnyBehind(w: World, k: nat)
    requires Invariant(w) && w.tracker.initialized && k < w.tracker.next
    ensures Behind(w, k)
  {}

  // No packet is resent more than ten times, and neither is a stub.
  lemma ResendsAreBounded(ws: seq<World>, actions: seq<Action>, i: nat, k: nat)
    requires IsRun(ws, actions) && i < |ws|
    ensures Count(ws[i].resends, k) <= MAX_RETRIES && Count(ws[i].stubResends, k) <= MAX_RETRIES
  {
    RunInvariant(ws, actions, i);
  }

  // The receiver's invariant in every run.
  lemma ReceiverInRun(ws: seq<World>, actions: seq<Action>, i: nat)
    requires IsRun(ws, actions) && i < |ws|
    ensures CursorInvariant(ws[i].tracker, ws[i].history)
    ensures forall q :: q in ws[i].history.received ==> 1 <= q < ws[i].nextOut
  {
    RunInvariant(ws, actions, i);
  }

  // ---- which received sequences reports name ----

  lemma GapsStep(w: World, a: Action)
    requires Invariant(w) && Enabled(w, a) && GapsKnown(w.tracker, w.history)
    ensures var v := Next(w, a);
      && GapsKnown(v.tracker, v.history)
      && v.history.filled ==
           if a.DeliverData? && Fills(w.tracker, a.copy.0) then w.history.filled + {a.copy.0} else w.history.filled
  {
    hide CursorInvariant, GapsKnown, Receive, BuildReport, EntriesOk, WorkOk, NumbersOk, ReportHistory;
    match a
    case DeliverData(c, now) => ReceiveKeepsGaps(w.tracker, w.history, c.0, c.1, now);
    case MakeReport(p, now) => ReportKeepsGaps(w.tracker, w.history, p, now);
    case _ =>
  }

  lemma {:induction false} GapsInRun(ws: seq<World>, actions: seq<Action>, i: nat)
    requires IsRun(ws, actions) && i < |ws|
    ensures GapsKnown(ws[i].tracker, ws[i].history)
  {
    hide Invariant, Next;
    if i > 0 {
      GapsInRun(ws, actions, i - 1);
      RunInvariant(ws, actions, i - 1);
      GapsStep(ws[i - 1], actions[i - 1]);
    }
  }

  // Some packet before i filled the gap at or above the cursor.
  ghost predicate FilledBefore(ws: seq<World>, actions: seq<Action>, i: nat, q: nat)
    requires |ws| == |actions| + 1 && i < |ws|
  {
    exists j :: 0 <= j < i && actions[j].DeliverData? && actions[j].copy.0 == q && Fills(ws[j].tracker, q)
  }

  lemma {:induction false} FilledInRun(ws: seq<World>, actions: seq<Action>, i: nat, q: nat)
    requires IsRun(ws, actions) && i < |ws|
    ensures q in ws[i].history.filled <==> FilledBefore(ws, actions, i, q)
  {
    hide Invariant, Next, Fills;
    if i > 0 {
      FilledInRun(ws, actions, i - 1, q);
      GapsInRun(ws, actions, i - 1);
      RunInvariant(ws, actions, i - 1);
      GapsStep(ws[i - 1], actions[i - 1]);
    }
  }

  // In every run, a report names a sequence that was received if and only if its packet came at
  // or above the cursor while the gap was noted, and the gap is overdue and there is room for it.
  lemma ReceivedListedInRun(ws: seq<World>, actions: seq<Action>, i: nat, q: nat)
    requires IsRun(ws, actions) && i < |actions| && actions[i].MakeReport?
    ensures var t := ws[i].tracker; var (p, now) := (actions[i].policy, actions[i].at);
      q in BuildReport(t, p, now).1.lost && q in ws[i].history.received <==>
        && FilledBefore(ws, actions, i, q)
        && Overdue(t, q, p, now)
        && |SmallerOverdue(t, q, p, now)| < ListedCount(|OverdueGaps(t, p, now)|)
  {
    hide Next, Enabled, FilledBefore, BuildReport, ListedCount, SmallerOverdue, OverdueGaps, GapsKnown, Overdue;
    GapsInRun(ws, actions, i);
    FilledInRun(ws, actions, i, q);
    ReceivedIsListed(ws[i].tracker, ws[i].history, actions[i].policy, actions[i].at, q);
  }

  // ---- entries that come back ----

  // After its entry is gone, a number comes back if and only if the size of its packet is only
  // recorded now, and then as a stub.
  lemma OnlyStubsReturn(w: World, a: Action, k: nat)
    requires Invariant(w) && Enabled(w, a) && k !in w.pending && k < w.nextOut
    ensures k in Next(w, a).pending <==> a == RecordSize(k)
    ensures a == RecordSize(k) ==> Next(w, a).pending[k] == Pending(0, 0, true)
  {
    hide CursorInvariant, Receive, BuildReport;
  }

  // It does happen: a packet is sent, received, acknowledged and pruned before its size is recorded.
  lemma StubComesBack(p: Policy) returns (ws: seq<World>, actions: seq<Action>)
    ensures IsRun(ws, actions) && |ws| == 6
    ensures 1 in ws[1].pending && !ws[1].pending[1].stub
    ensures 1 !in ws[4].pending
    ensures 1 in ws[5].pending && ws[5].pending[1].stub
  {
    hide Next, Enabled, Initial;
    var w0, w1, w2 := SentAndReceived();
    var w3, w4, w5 := PrunedBeforeRecorded(w2, p);
    ws := [w0, w1, w2, w3, w4, w5];
    actions := [Send(2, true), DeliverData((1, 2), 0), MakeReport(p, 0), HandleReport(Report(1, [])), RecordSize(1)];
  }

  lemma SentAndReceived() returns (w0: World, w1: World, w2: World)
    ensures Initial(w0)
    ensures Enabled(w0, Send(2, true)) && w1 == Next(w0, Send(2, true))
    ensures Enabled(w1, DeliverData((1, 2), 0)) && w2 == Next(w1, DeliverData((1, 2), 0))
    ensures w1.pending == w2.pending == map[1 := Pending(0, 2, false)]
    ensures w2.tracker == Tracker(true, 2, {}, map[], map[]) && w2.unrecorded == {1} && w2.work == map[]
  {
    w0 := World(1, map[], {}, map[], INITIAL, {}, {}, History({}, {}, 0, {}), map[], map[]);
    w1 := Next(w0, Send(2, true));
    w2 := Next(w1, DeliverData((1, 2), 0));
  }

  // The second half: the report overtakes the recording of the size.
  lemma PrunedBeforeRecorded(w2: World, p: Policy) returns (w3: World, w4: World, w5: World)
    requires w2.tracker == Tracker(true, 2, {}, map[], map[]) && w2.unrecorded == {1} && w2.work == map[]
    requires w2.pending == map[1 := Pending(0, 2, false)]
    ensures Enabled(w2, MakeReport(p, 0)) && w3 == Next(w2, MakeReport(p, 0))
    ensures Enabled(w3, HandleReport(Report(1, []))) && w4 == Next(w3, HandleReport(Report(1, [])))
    ensures Enabled(w4, RecordSize(1)) && w5 == Next(w4, RecordSize(1))
    ensures 1 !in w4.pending && 1 in w5.pending && w5.pending[1].stub
  {
    hide BuildReport, ReportHistory;
    var r := Report(1, []);
    NoGaps(w2.tracker, p, 0);
    w3 := Next(w2, MakeReport(p, 0));
    w4 := Next(w3, HandleReport(r));
    w5 := Next(w4, RecordSize(1));
  }

  lemma NoGaps(t: Tracker, p: Policy, now: int)
    requires t.missing == map[] && t.initialized && t.next > 0
    ensures BuildReport(t, p, now) == (t, Report(t.next - 1, []))
    ensures forall h: History :: ReportHistory(t, h, p, now) == h
  {
    assert t.missing.Keys == {};
  }
}
