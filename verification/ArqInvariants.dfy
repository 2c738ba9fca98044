// What the receive cursor guarantees, over every interleaving of packets and reports.
module ArqInvariants {
  import opened Numbers
  import opened SequenceTracking

  // What has happened on the receiving side since the peer was created.
  datatype History = History(
    received: set<nat>,     // every numbered packet handled
    skipped: set<nat>,      // every gap a report moved the cursor over
    base: nat,              // one past the first numbered packet
    filled: set<nat>)       // gaps that were noted missing when their packet came at or above the cursor

  // Everything but the cursor's own rest condition.
  ghost predicate Accounted(t: Tracker, h: History)
  {
    && 1 <= h.base <= t.next
    && (forall q :: h.base <= q < t.next ==> q in h.received || q in h.skipped)
    && (forall q :: q in h.received && q >= t.next ==> q in t.recv)
    && t.recv <= h.received
  }

  ghost predicate CursorInvariant(t: Tracker, h: History)
  {
    if t.initialized then
      Accounted(t, h) && t.next !in t.recv
    else
      t.recv == {} && t.missing == map[] && t.next == 0 && h.received == {} && h.skipped == {}
  }

  // A packet at or above the cursor leaves its own gap in the table.
  ghost predicate Fills(t: Tracker, s: nat)
  {
    t.initialized && s != 0 && s >= t.next && s in t.missing
  }

  ghost function ReceiveHistory(t: Tracker, h: History, s: nat): (r: History)
  {
    if s == 0 then h
    else h.(received := h.received + {s}, base := if t.initialized then h.base else s + 1,
            filled := if Fills(t, s) then h.filled + {s} else h.filled)
  }

  lemma AdvanceRests(t: Tracker, h: History)
    requires t.initialized && Accounted(t, h)
    ensures CursorInvariant(Advanced(t), h) && Advanced(t).next >= t.next
    ensures Advanced(t).missing == t.missing && Advanced(t).channel == t.channel
  {}

  // The gaps that NoteGaps adds.
  lemma {:induction false} NoteGapsEffect(t: Tracker, from: nat, end: nat, ch: nat, now: int)
    requires from <= end
    ensures var r := NoteGaps(t, from, end, ch, now);
      && r.initialized == t.initialized && r.next == t.next && r.recv == t.recv
      && (forall g :: g in r.missing <==> (g in t.missing || (from <= g < end && g !in t.recv)))
      && (forall g :: g in t.missing ==> r.missing[g] == t.missing[g])
      && (forall g :: g in r.missing && g !in t.missing ==> r.missing[g] == now)
      && (forall g :: from <= g < end && g !in t.recv ==> g in r.channel && r.channel[g] == ch)
      && (forall g :: g in t.channel && !(from <= g < end) ==> g in r.channel && r.channel[g] == t.channel[g])
    decreases end - from
  {
    if from == end {
    } else if from in t.recv {
      NoteGapsEffect(t, from + 1, end, ch, now);
    } else {
      var m := if from in t.missing then t.missing else t.missing[from := now];
      NoteGapsEffect(t.(missing := m, channel := t.channel[from := ch]), from + 1, end, ch, now);
    }
  }

  // A packet keeps the invariant and never moves the cursor back.
  lemma ReceiveKeeps(t: Tracker, h: History, s: nat, ch: nat, now: int)
    requires CursorInvariant(t, h)
    ensures CursorInvariant(Receive(t, s, ch, now), ReceiveHistory(t, h, s))
    ensures Receive(t, s, ch, now).next >= t.next
    ensures t.initialized ==> Receive(t, s, ch, now).initialized
  {
    hide Advanced, NoteGaps;
    if s != 0 && t.initialized {
      var h' := ReceiveHistory(t, h, s);
      if s >= t.next {
        NoteGapsEffect(t, t.next, s, ch, now);
        var t1 := NoteGaps(t, t.next, s, ch, now);
        AdvanceRests(t1.(recv := t1.recv + {s}), h');
      } else {
        var t1 := if s in t.missing then
            t.(missing := Without(t.missing, s), channel := Without(t.channel, s))
          else t;
        AdvanceRests(t1.(recv := t1.recv + {s}), h');
      }
    }
  }

  // After a packet at or above the cursor, every hole up to it is in the gap table.
  lemma HolesAreMissing(t: Tracker, h: History, s: nat, ch: nat, now: int, q: nat)
    requires CursorInvariant(t, h) && t.initialized && s >= t.next && s != 0
    requires var t' := Receive(t, s, ch, now); t'.next <= q < s && q !in ReceiveHistory(t, h, s).received
    ensures q in Receive(t, s, ch, now).missing
  {
    hide Advanced, NoteGaps;
    NoteGapsEffect(t, t.next, s, ch, now);
    var t1 := NoteGaps(t, t.next, s, ch, now);
    AdvanceRests(t1.(recv := t1.recv + {s}), ReceiveHistory(t, h, s));
  }

  // ---- reports ----

  ghost function SkipHistory(t: Tracker, h: History, g: nat): (r: History)
  {
    if t.initialized && g == t.next then h.(skipped := h.skipped + {g}) else h
  }

  lemma SkipKeeps(t: Tracker, h: History, g: nat)
    requires CursorInvariant(t, h)
    ensures CursorInvariant(SkipGap(t, g), SkipHistory(t, h, g))
    ensures SkipGap(t, g).next >= t.next && SkipGap(t, g).initialized == t.initialized
    ensures SkipGap(t, g).missing == t.missing && SkipGap(t, g).channel == t.channel
  {
    hide Advanced;
    if t.initialized && g == t.next {
      AdvanceRests(t.(next := t.next + 1), SkipHistory(t, h, g));
    }
  }

  ghost function VisitHistory(t: Tracker, h: History, g: nat, p: Policy, now: int): (r: History)
    requires g in t.missing
  {
    if !Reliable(p, ChannelOfGap(t, g)) then SkipHistory(t, h, g)
    else if now - t.missing[g] > p.giveUp then h
    else if now - t.missing[g] > p.lossThreshold then SkipHistory(t, h, g)
    else h
  }

  lemma VisitKeeps(t: Tracker, h: History, g: nat, p: Policy, now: int)
    requires CursorInvariant(t, h) && g in t.missing
    ensures var (t', listed) := VisitGap(t, g, p, now);
      && CursorInvariant(t', VisitHistory(t, h, g, p, now))
      && t'.next >= t.next && t'.initialized == t.initialized
      && t.missing.Keys - {g} <= t'.missing.Keys <= t.missing.Keys
      && (listed ==> t'.missing == t.missing)
  {
    hide SkipGap;
    SkipKeeps(t, h, g);
  }

  ghost function ScanHistory(t: Tracker, h: History, todo: set<nat>, p: Policy, now: int): (r: History)
    requires todo <= t.missing.Keys
    decreases |todo|
  {
    if todo == {} then h
    else
      var g := MinOf(todo);
      ScanHistory(VisitGap(t, g, p, now).0, VisitHistory(t, h, g, p, now), todo - {g}, p, now)
  }

  lemma {:induction false} ScanKeeps(t: Tracker, h: History, lost: seq<nat>, todo: set<nat>, p: Policy, now: int)
    requires CursorInvariant(t, h) && todo <= t.missing.Keys
    ensures var (t', lost') := VisitGaps(t, lost, todo, p, now);
      && CursorInvariant(t', ScanHistory(t, h, todo, p, now))
      && t'.next >= t.next && t'.initialized == t.initialized
    decreases |todo|
  {
    hide VisitGap, CursorInvariant;
    if todo != {} {
      var g := MinOf(todo);
      VisitKeeps(t, h, g, p, now);
      var (t', listed) := VisitGap(t, g, p, now);
      ScanKeeps(t', VisitHistory(t, h, g, p, now), if listed then lost + [g] else lost, todo - {g}, p, now);
    }
  }

  ghost function ReportHistory(t: Tracker, h: History, p: Policy, now: int): (r: History)
  {
    ScanHistory(t, h, t.missing.Keys, p, now)
  }

  // A report keeps the invariant, never moves the cursor back, and acknowledges only what lies
  // below the cursor.
  lemma ReportKeeps(t: Tracker, h: History, p: Policy, now: int)
    requires CursorInvariant(t, h)
    ensures var (t', r) := BuildReport(t, p, now);
      && CursorInvariant(t', ReportHistory(t, h, p, now))
      && t'.next >= t.next && t'.initialized == t.initialized
      && (if t'.initialized then r.ack + 1 == t'.next else r.ack == 0)
  {
    hide VisitGaps;
    ScanKeeps(t, h, [], t.missing.Keys, p, now);
  }

  // Every sequence listed as lost is a gap on a reliable channel that has been open for longer
  // than the loss threshold, but not for longer than the sender keeps trying.
  ghost predicate Overdue(t: Tracker, g: nat, p: Policy, now: int)
  {
    g in t.missing && Reliable(p, ChannelOfGap(t, g)) && p.lossThreshold < now - t.missing[g] <= p.giveUp
  }

  // A report moves the cursor only over gaps that have not been received, on unreliable channels or
  // overdue.
  ghost predicate Skippable(t: Tracker, h: History, g: nat, p: Policy, now: int)
  {
    && g in t.missing && g !in h.received
    && (!Reliable(p, ChannelOfGap(t, g)) || Overdue(t, g, p, now))
  }

  lemma VisitSkips(t: Tracker, h: History, g: nat, p: Policy, now: int)
    requires CursorInvariant(t, h) && g in t.missing
    ensures var h' := VisitHistory(t, h, g, p, now);
      && h'.received == h.received
      && forall q :: q in h'.skipped ==> q in h.skipped || (q == g && Skippable(t, h, g, p, now))
  {}

  lemma {:induction false} ScanSkips(t0: Tracker, t: Tracker, h: History, todo: set<nat>, p: Policy, now: int)
    requires todo <= t.missing.Keys && CursorInvariant(t, h)
    requires forall g :: g in todo ==>
      g in t0.missing && t.missing[g] == t0.missing[g] && ChannelOfGap(t, g) == ChannelOfGap(t0, g)
    ensures forall g :: g in ScanHistory(t, h, todo, p, now).skipped ==>
      g in h.skipped || (g in todo && Skippable(t0, h, g, p, now))
    decreases |todo|
  {
    hide CursorInvariant;
    if todo != {} {
      var g := MinOf(todo);
      SkipKeepsTable(t, g);
      VisitKeeps(t, h, g, p, now);
      VisitSkips(t, h, g, p, now);
      ScanSkips(t0, VisitGap(t, g, p, now).0, VisitHistory(t, h, g, p, now), todo - {g}, p, now);
    }
  }

  lemma ReportSkips(t: Tracker, h: History, p: Policy, now: int)
    requires CursorInvariant(t, h)
    ensures forall g :: g in ReportHistory(t, h, p, now).skipped ==> g in h.skipped || Skippable(t, h, g, p, now)
  {
    ScanSkips(t, t, h, t.missing.Keys, p, now);
  }
}
