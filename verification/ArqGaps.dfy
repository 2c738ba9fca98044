// The gap table: which gaps a report lists, which received sequences it names, and when the cursor
// waits at a gap that is no longer in the table.
module ArqGaps {
  import opened Numbers
  import opened SequenceTracking
  import opened ArqInvariants

  // ---- what a report lists ----

  ghost function OverdueGaps(t: Tracker, p: Policy, now: int): (gaps: set<nat>)
  {
    set g | g in t.missing && Overdue(t, g, p, now)
  }

  ghost predicate Ascending(s: seq<nat>)
  {
    forall i, j :: 0 <= i < j < |s| ==> s[i] < s[j]
  }

  lemma AscendingAppend(s: seq<nat>, g: nat)
    requires Ascending(s) && forall x :: x in s ==> x < g
    ensures Ascending(s + [g])
  {
    assert forall i :: 0 <= i < |s| ==> s[i] in s;
  }

  // The scan lists exactly the overdue gaps, in ascending order.
  lemma {:induction false} ScanLists(t0: Tracker, t: Tracker, lost: seq<nat>, todo: set<nat>, p: Policy, now: int)
    requires todo <= t.missing.Keys
    requires forall g :: g in todo ==>
      g in t0.missing && t.missing[g] == t0.missing[g] && ChannelOfGap(t, g) == ChannelOfGap(t0, g)
    requires Ascending(lost) && forall g, h :: g in lost && h in todo ==> g < h
    ensures var lost' := VisitGaps(t, lost, todo, p, now).1;
      Ascending(lost') && forall g :: g in lost' <==> g in lost || (g in todo && Overdue(t0, g, p, now))
    decreases |todo|
  {
    if todo != {} {
      var g := MinOf(todo);
      SkipKeepsTable(t, g);
      var (t', listed) := VisitGap(t, g, p, now);
      AscendingAppend(lost, g);
      ScanLists(t0, t', if listed then lost + [g] else lost, todo - {g}, p, now);
    }
  }

  lemma {:induction false} AscendingSize(s: seq<nat>)
    requires Ascending(s)
    ensures |Elements(s)| == |s|
  {
    if |s| > 0 {
      var init, last := s[..|s| - 1], s[|s| - 1];
      AscendingSize(init);
      assert s == init + [last];
      assert Elements(s) == Elements(init) + {last};
      assert last !in Elements(init);
    }
  }

  ghost function Below(s: set<nat>, g: nat): (b: set<nat>) { set h | h in s && h < g }

  // In an ascending list the place of an element is the number of smaller ones.
  lemma PlaceInList(s: seq<nat>, i: nat)
    requires Ascending(s) && i < |s|
    ensures |Below(Elements(s), s[i])| == i
  {
    assert Below(Elements(s), s[i]) == Elements(s[..i]);
    AscendingSize(s[..i]);
  }

  ghost function SmallerOverdue(t: Tracker, g: nat, p: Policy, now: int): (gaps: set<nat>)
  {
    Below(OverdueGaps(t, p, now), g)
  }

  // A report names a gap if and only if it is overdue and there is room for it after the smaller ones.
  lemma ReportLists(t: Tracker, p: Policy, now: int, g: nat)
    ensures g in BuildReport(t, p, now).1.lost <==>
      Overdue(t, g, p, now) && |SmallerOverdue(t, g, p, now)| < ListedCount(|OverdueGaps(t, p, now)|)
  {
    hide VisitGaps, Shrink, Overdue, ListedCount;
    ScanLists(t, t, [], t.missing.Keys, p, now);
    var lost := VisitGaps(t, [], t.missing.Keys, p, now).1;
    OverdueIsMissing(t, p, now);
    assert Elements(lost) == OverdueGaps(t, p, now);
    AscendingSize(lost);
    CutShort(lost, ListedCount(|lost|), g);
  }

  lemma OverdueIsMissing(t: Tracker, p: Policy, now: int)
    ensures forall g :: Overdue(t, g, p, now) ==> g in t.missing
  {}

  lemma CutShort(s: seq<nat>, n: nat, g: nat)
    requires Ascending(s) && n <= |s|
    ensures g in s[..n] <==> g in s && |Below(Elements(s), g)| < n
  {
    if g in s {
      var i :| 0 <= i < |s| && s[i] == g;
      PlaceInList(s, i);
      if i < n { assert s[..n][i] == g; }
      if g in s[..n] {
        var k :| 0 <= k < n && s[..n][k] == g;
        assert s[k] == s[i] && k == i;
      }
    }
  }

  // With at most 256 overdue gaps all of them are listed.
  lemma AllListed(t: Tracker, p: Policy, now: int, g: nat)
    requires |OverdueGaps(t, p, now)| <= LISTED
    ensures g in BuildReport(t, p, now).1.lost <==> Overdue(t, g, p, now)
  {
    hide BuildReport;
    ReportLists(t, p, now, g);
    if Overdue(t, g, p, now) {
      var smaller, all := SmallerOverdue(t, g, p, now), OverdueGaps(t, p, now);
      assert g in all && g !in smaller && smaller <= all - {g};
      SubsetSize(smaller, all - {g});
    }
  }

  // ---- received sequences in the table ----

  // A packet leaves its own entry in the table exactly when it fills a gap at or above the cursor.
  lemma StaysInTable(t: Tracker, s: nat, ch: nat, now: int)
    requires t.initialized && s != 0
    ensures s in Receive(t, s, ch, now).missing <==> Fills(t, s)
  {
    hide Advanced, NoteGaps;
    if s >= t.next {
      NoteGapsEffect(t, t.next, s, ch, now);
    }
    var t1 := if s >= t.next then NoteGaps(t, t.next, s, ch, now)
      else if s in t.missing then t.(missing := Without(t.missing, s), channel := Without(t.channel, s)) else t;
    TableUnmoved(t1.(recv := t1.recv + {s}));
  }

  lemma TableUnmoved(t: Tracker)
    ensures Advanced(t).missing == t.missing && Advanced(t).channel == t.channel
  {}

  // An entry has been received if and only if its packet filled it at or above the cursor.
  ghost predicate GapsKnown(t: Tracker, h: History)
  {
    && h.filled <= h.received
    && forall q :: q in t.missing ==> (q in h.received <==> q in h.filled)
  }

  lemma ReceiveKeepsGaps(t: Tracker, h: History, s: nat, ch: nat, now: int)
    requires CursorInvariant(t, h) && GapsKnown(t, h)
    ensures GapsKnown(Receive(t, s, ch, now), ReceiveHistory(t, h, s))
  {
    hide Advanced, NoteGaps;
    if s != 0 && t.initialized {
      if s >= t.next {
        NoteGapsEffect(t, t.next, s, ch, now);
      }
      var t1 := if s >= t.next then NoteGaps(t, t.next, s, ch, now)
        else if s in t.missing then t.(missing := Without(t.missing, s), channel := Without(t.channel, s)) else t;
      TableUnmoved(t1.(recv := t1.recv + {s}));
    }
  }

  lemma {:induction false} ScanOnlyRemoves(t: Tracker, h: History, lost: seq<nat>, todo: set<nat>, p: Policy, now: int)
    requires todo <= t.missing.Keys
    ensures VisitGaps(t, lost, todo, p, now).0.missing.Keys <= t.missing.Keys
    ensures ScanHistory(t, h, todo, p, now).received == h.received && ScanHistory(t, h, todo, p, now).filled == h.filled
    decreases |todo|
  {
    if todo != {} {
      var g := MinOf(todo);
      SkipKeepsTable(t, g);
      var (t', listed) := VisitGap(t, g, p, now);
      ScanOnlyRemoves(t', VisitHistory(t, h, g, p, now), if listed then lost + [g] else lost, todo - {g}, p, now);
    }
  }

  lemma ReportKeepsGaps(t: Tracker, h: History, p: Policy, now: int)
    requires GapsKnown(t, h)
    ensures GapsKnown(BuildReport(t, p, now).0, ReportHistory(t, h, p, now))
    ensures ReportHistory(t, h, p, now).received == h.received && ReportHistory(t, h, p, now).filled == h.filled
  {
    hide VisitGaps, Shrink;
    ScanOnlyRemoves(t, h, [], t.missing.Keys, p, now);
  }

  // So a report names a received sequence if and only if a gap filled at or above the cursor is
  // overdue and there is room for it.
  lemma ReceivedIsListed(t: Tracker, h: History, p: Policy, now: int, q: nat)
    requires GapsKnown(t, h)
    ensures q in BuildReport(t, p, now).1.lost && q in h.received <==>
      && q in h.filled
      && Overdue(t, q, p, now)
      && |SmallerOverdue(t, q, p, now)| < ListedCount(|OverdueGaps(t, p, now)|)
  {
    hide BuildReport, ListedCount, SmallerOverdue, OverdueGaps;
    ReportLists(t, p, now, q);
  }

  // ---- a cursor that waits at a gap that is not in the table ----

  // Whether the scan leaves the entry in the table.
  ghost predicate Survives(t: Tracker, g: nat, p: Policy, now: int)
  {
    g in t.missing && Reliable(p, ChannelOfGap(t, g)) && now - t.missing[g] <= p.giveUp
  }

  ghost predicate GivenUp(t: Tracker, g: nat, p: Policy, now: int)
  {
    g in t.missing && Reliable(p, ChannelOfGap(t, g)) && now - t.missing[g] > p.giveUp
  }

  // So many larger gaps survive the scan that the limit on the table cuts this one off.
  ghost predicate CutOff(t: Tracker, g: nat, p: Policy, now: int)
  {
    |LargerSurvivors(t, g, p, now)| >= TABLE_LIMIT
  }

  ghost function LargerSurvivors(t: Tracker, g: nat, p: Policy, now: int): (larger: set<nat>)
  {
    set h | h in t.missing && h > g && Survives(t, h, p, now)
  }

  lemma {:induction false} ScanTable(t0: Tracker, t: Tracker, lost: seq<nat>, todo: set<nat>, p: Policy, now: int)
    requires todo <= t.missing.Keys
    requires forall g :: g in todo ==>
      g in t0.missing && t.missing[g] == t0.missing[g] && ChannelOfGap(t, g) == ChannelOfGap(t0, g)
    ensures var t' := VisitGaps(t, lost, todo, p, now).0;
      forall q :: q in t'.missing <==> q in t.missing && (q in todo ==> Survives(t0, q, p, now))
    decreases |todo|
  {
    hide SkipGap;
    if todo != {} {
      var g := MinOf(todo);
      SkipKeepsTable(t, g);
      var (t', listed) := VisitGap(t, g, p, now);
      ScanTable(t0, t', if listed then lost + [g] else lost, todo - {g}, p, now);
    }
  }

  ghost function Larger(m: map<nat, int>, g: nat): (larger: set<nat>) { set h | h in m && h > g }

  lemma ShrinkStep(t: Tracker)
    ensures |t.missing| <= TABLE_LIMIT ==> Shrink(t) == t
    ensures |t.missing| > TABLE_LIMIT ==> Shrink(t) == Shrink(Forget(t, MinOf(t.missing.Keys)))
  {}

  lemma LargerThanLeast(m: map<nat, int>, least: nat, g: nat)
    requires least in m && g in m && forall k :: k in m ==> least <= k
    ensures g == least ==> |Larger(m, g)| == |m| - 1
    ensures g != least ==> Larger(Without(m, least), g) == Larger(m, g)
  {
    assert g == least ==> Larger(m, g) == m.Keys - {least};
    assert |m.Keys| == |m|;
  }

  lemma LargerFits(m: map<nat, int>, g: nat)
    requires g in m
    ensures |Larger(m, g)| < |m|
  {
    assert |m.Keys| == |m|;
    SubsetSize(Larger(m, g), m.Keys - {g});
  }

  // The limit on the table takes the smallest gaps.
  lemma {:induction false} ShrinkKeeps(t: Tracker, g: nat)
    ensures g in Shrink(t).missing <==> g in t.missing && |Larger(t.missing, g)| < TABLE_LIMIT
    decreases |t.missing|
  {
    hide Shrink, Larger;
    ShrinkStep(t);
    if |t.missing| > TABLE_LIMIT {
      var least := MinOf(t.missing.Keys);
      RemoveOne(t.missing, least);
      ShrinkKeeps(Forget(t, least), g);
      if g in t.missing { LargerThanLeast(t.missing, least, g); }
    } else if g in t.missing {
      LargerFits(t.missing, g);
    }
  }

  // What a report leaves in the table.
  lemma ReportTable(t: Tracker, p: Policy, now: int, q: nat)
    ensures q in BuildReport(t, p, now).0.missing <==> Survives(t, q, p, now) && !CutOff(t, q, p, now)
  {
    hide VisitGaps, Shrink;
    var t1 := VisitGaps(t, [], t.missing.Keys, p, now).0;
    ScanTable(t, t, [], t.missing.Keys, p, now);
    ShrinkKeeps(t1, q);
    assert Larger(t1.missing, q) == LargerSurvivors(t, q, p, now);
  }

  // A gap the cursor is moved over when the scan finds it there.
  ghost predicate Passable(t: Tracker, q: nat, p: Policy, now: int)
  {
    q in t.missing && (!Reliable(p, ChannelOfGap(t, q)) || Overdue(t, q, p, now))
  }

  ghost predicate Crossed(t: Tracker, q: nat, p: Policy, now: int)
  {
    Passable(t, q, p, now) || (q > t.next && q in t.recv)
  }

  // The first sequence from the cursor on that stops it.
  ghost predicate RestsAt(t: Tracker, p: Policy, now: int, c: nat)
  {
    t.next <= c && !Crossed(t, c, p, now) && forall q :: t.next <= q < c ==> Crossed(t, q, p, now)
  }

  // Part of the way through the scan of t0, with todo still to be visited.
  ghost predicate Scanned(t0: Tracker, t: Tracker, todo: set<nat>, p: Policy, now: int)
  {
    && t.initialized && t0.next <= t.next && todo <= t.missing.Keys
    && (forall g :: g in todo ==>
         g in t0.missing && t.missing[g] == t0.missing[g] && ChannelOfGap(t, g) == ChannelOfGap(t0, g))
    && (forall g, h :: g in todo && h in t0.missing && h > g ==> h in todo)
    && (forall q :: t0.next <= q < t.next ==> Crossed(t0, q, p, now))
    && (forall q :: q >= t.next ==> (q in t.recv <==> q in t0.recv))
    && (t.next == t0.next || t.next !in t0.recv)
    && (t.next !in todo ==> !Passable(t0, t.next, p, now))
  }

  lemma ScanStep(t0: Tracker, t: Tracker, todo: set<nat>, p: Policy, now: int)
    requires todo != {} && Scanned(t0, t, todo, p, now)
    ensures var g := MinOf(todo); Scanned(t0, VisitGap(t, g, p, now).0, todo - {g}, p, now)
  {
    hide Advance;
    var g := MinOf(todo);
    SkipKeepsTable(t, g);
  }

  lemma {:induction false} ScanRests(t0: Tracker, t: Tracker, lost: seq<nat>, todo: set<nat>, p: Policy, now: int)
    requires todo <= t.missing.Keys && Scanned(t0, t, todo, p, now)
    ensures Scanned(t0, VisitGaps(t, lost, todo, p, now).0, {}, p, now)
    decreases |todo|
  {
    hide VisitGap;
    if todo != {} {
      hide Scanned;
      var g := MinOf(todo);
      ScanStep(t0, t, todo, p, now);
      var (t', listed) := VisitGap(t, g, p, now);
      ScannedTodo(t0, t', todo - {g}, p, now);
      ScanRests(t0, t', if listed then lost + [g] else lost, todo - {g}, p, now);
    }
  }

  lemma ScannedTodo(t0: Tracker, t: Tracker, todo: set<nat>, p: Policy, now: int)
    requires Scanned(t0, t, todo, p, now)
    ensures todo <= t.missing.Keys
  {}

  // What was received above the cursor stays stored.
  lemma ReportReceives(t: Tracker, p: Policy, now: int, q: nat)
    requires t.initialized && q >= BuildReport(t, p, now).0.next
    ensures q in BuildReport(t, p, now).0.recv <==> q in t.recv
  {
    hide VisitGaps, Shrink, Crossed;
    assert Scanned(t, t, t.missing.Keys, p, now);
    ScanRests(t, t, [], t.missing.Keys, p, now);
  }

  lemma ScannedRests(t0: Tracker, t: Tracker, p: Policy, now: int)
    requires Scanned(t0, t, {}, p, now)
    ensures RestsAt(t0, p, now, t.next)
  {}

  lemma RestsOnce(t: Tracker, p: Policy, now: int, c: nat, d: nat)
    requires RestsAt(t, p, now, c) && RestsAt(t, p, now, d)
    ensures c == d
  {
    hide Crossed;
    assert c < d ==> Crossed(t, c, p, now);
    assert d < c ==> Crossed(t, d, p, now);
  }

  // A report leaves the cursor at the first sequence that stops it, and nowhere else.
  lemma ReportRests(t: Tracker, p: Policy, now: int, c: nat)
    requires t.initialized
    ensures BuildReport(t, p, now).0.next == c <==> RestsAt(t, p, now, c)
  {
    hide VisitGaps, Shrink, Crossed, RestsAt;
    var t1 := VisitGaps(t, [], t.missing.Keys, p, now).0;
    assert Scanned(t, t, t.missing.Keys, p, now);
    ScanRests(t, t, [], t.missing.Keys, p, now);
    ScannedRests(t, t1, p, now);
    if RestsAt(t, p, now, c) { RestsOnce(t, p, now, c, t1.next); }
  }

  // Wherever a report leaves the cursor, the sequence it waits at is not in the table if and only
  // if it was not noted missing, has been given up, or is cut off by the limit.
  lemma CursorWaitsUnlisted(t: Tracker, p: Policy, now: int, c: nat)
    requires t.initialized && RestsAt(t, p, now, c)
    ensures var t' := BuildReport(t, p, now).0;
      && t'.next == c
      && (c !in t'.missing <==> c !in t.missing || GivenUp(t, c, p, now) || CutOff(t, c, p, now))
  {
    hide BuildReport, CutOff;
    ReportRests(t, p, now, c);
    ReportTable(t, p, now, c);
  }

  // While it waits at a sequence outside the table, no report moves it or names that sequence.
  lemma UnlistedForReports(t: Tracker, p: Policy, now: int)
    requires t.initialized && t.next !in t.missing
    ensures var (t', r) := BuildReport(t, p, now);
      t'.next == t.next && t.next !in t'.missing && t.next !in r.lost
  {
    hide BuildReport;
    ReportLists(t, p, now, t.next);
    ReportTable(t, p, now, t.next);
    ReportRests(t, p, now, t.next);
  }

  // A packet ends that if and only if it is the awaited one, which moves the cursor, or lies above
  // it, which notes the sequence again.
  lemma NotedAgain(t: Tracker, s: nat, ch: nat, now: int)
    requires t.initialized && t.next !in t.missing && t.next !in t.recv && s != 0
    ensures var t' := Receive(t, s, ch, now);
      && (t'.next == t.next <==> s != t.next)
      && (t.next in t'.missing <==> s > t.next)
  {
    hide NoteGaps;
    if s >= t.next { NoteGapsEffect(t, t.next, s, ch, now); }
  }

  // ---- runs in which this happens ----

  // A gap filled by a packet at the cursor stays in the table, so a report may list a sequence
  // that has been received.
  lemma FilledGapMayBeListed(now: int, p: Policy)
    requires Reliable(p, 2) && p.lossThreshold < now <= p.giveUp
    ensures var t := Receive(Receive(Receive(INITIAL, 1, 2, 0), 3, 2, 0), 2, 2, 0);
      t.next == 4 && 2 in BuildReport(t, p, now).1.lost
  {
    hide BuildReport;
    var t := FilledGap();
    assert Overdue(t, 2, p, now);
    assert OverdueGaps(t, p, now) == {2};
    AllListed(t, p, now, 2);
  }

  lemma FilledGap() returns (t: Tracker)
    ensures t == Receive(Receive(Receive(INITIAL, 1, 2, 0), 3, 2, 0), 2, 2, 0)
    ensures t.next == 4 && t.missing == map[2 := 0] && t.channel == map[2 := 2]
  {
    var t2 := OneGap();
    t := Receive(t2, 2, 2, 0);
    assert Advance({3, 2}, 2) == ({}, 4) by {
      assert {3, 2} - {2} == {3};
      assert {3} - {3} == {};
      assert Advance({}, 4) == ({}, 4);
      assert Advance({3}, 3) == ({}, 4);
    }
    assert {3} + {2} == {3, 2};
  }

  // A gap that no report listed in time is dropped from the table without moving the cursor, which
  // then waits at a sequence that no report names until a packet above it notes it again.
  lemma CursorMayWaitUnlisted(now: int, p: Policy)
    requires Reliable(p, 2) && p.giveUp < now
    ensures var t := Receive(Receive(INITIAL, 1, 2, 0), 3, 2, 0); var t' := BuildReport(t, p, now).0;
      t.next == 2 && 2 in t.missing && t'.next == 2 && t'.missing == map[]
  {
    var t := OneGap();
    assert t.missing.Keys == {2};
    assert MinOf({2}) == 2;
    assert {2} - {2} == {};
    assert VisitGap(t, 2, p, now) == (Forget(t, 2), false);
    assert Without(map[2 := 0], 2) == map[];
    assert VisitGaps(Forget(t, 2), [], {}, p, now) == (Forget(t, 2), []);
  }

  lemma OneGap() returns (t: Tracker)
    ensures t == Receive(Receive(INITIAL, 1, 2, 0), 3, 2, 0)
    ensures t == Tracker(true, 2, {3}, map[2 := 0], map[2 := 2])
  {
    var t1 := Receive(INITIAL, 1, 2, 0);
    assert t1 == Tracker(true, 2, {}, map[], map[]);
    t := Receive(t1, 3, 2, 0);
    assert t == Tracker(true, 2, {3}, map[2 := 0], map[2 := 2]) by {
      assert NoteGaps(t1, 3, 3, 2, 0) == t1;
      var n := Tracker(true, 2, {}, map[2 := 0], map[2 := 2]);
      assert NoteGaps(n, 3, 3, 2, 0) == n;
      assert NoteGaps(t1, 2, 3, 2, 0) == n;
      assert Advance({3}, 2) == ({3}, 2);
    }
  }

  lemma Jump(s: nat) returns (t: Tracker)
    requires s > 2
    ensures t == Receive(Receive(INITIAL, 1, 2, 0), s, 2, 0) && t.initialized && t.next == 2
    ensures t.missing.Keys == Range(2, s)
    ensures forall g :: g in t.missing ==> t.missing[g] == 0 && ChannelOfGap(t, g) == 2
  {
    hide NoteGaps, Advanced, Advance, Range;
    var t1 := Tracker(true, 2, {}, map[], map[]);
    NoteGapsEffect(t1, 2, s, 2, 0);
    var n := NoteGaps(t1, 2, s, 2, 0);
    t := Receive(t1, s, 2, 0);
    TableUnmoved(n.(recv := n.recv + {s}));
    NotAtCursor(n.(recv := n.recv + {s}));
    assert forall g :: g in t.missing <==> g in Range(2, s);
  }

  // A young gap can go the same way: a jump of more than 4096 sequences, and a report at once.
  lemma YoungGapIsCutOff(p: Policy, s: nat)
    requires Reliable(p, 2) && 0 <= p.lossThreshold && 0 <= p.giveUp && s >= TABLE_LIMIT + 3
    ensures var t := Receive(Receive(INITIAL, 1, 2, 0), s, 2, 0); var t' := BuildReport(t, p, 0).0;
      t.next == 2 && 2 in t.missing && t'.next == 2 && 2 !in t'.missing
  {
    hide Receive, BuildReport, Range;
    var t := Jump(s);
    RangeSize(3, s);
    assert LargerSurvivors(t, 2, p, 0) == Range(3, s);
    CursorWaitsUnlisted(t, p, 0, 2);
  }

  // The cursor can also come to rest at a gap that the same report forgets: it is moved over 2, which
  // was last noted by a packet on an unreliable channel, and 3 has arrived.
  lemma CursorStopsAtForgotten(now: int, p: Policy)
    requires Reliable(p, 2) && !Reliable(p, 0) && p.giveUp < now
    ensures var t := Receive(Receive(Receive(INITIAL, 1, 2, 0), 5, 2, 0), 3, 0, 0); var t' := BuildReport(t, p, now).0;
      t.next == 2 && 2 in t.missing && t'.next == 4 && 4 !in t'.missing && 5 in t'.recv
  {
    hide Receive, BuildReport;
    var t := Overtaken();
    assert Passable(t, 2, p, now) && GivenUp(t, 4, p, now);
    assert Crossed(t, 2, p, now) && Crossed(t, 3, p, now);
    assert RestsAt(t, p, now, 4);
    CursorWaitsUnlisted(t, p, now, 4);
    ReportReceives(t, p, now, 5);
  }

  lemma Overtaken() returns (t: Tracker)
    ensures t == Receive(Receive(Receive(INITIAL, 1, 2, 0), 5, 2, 0), 3, 0, 0)
    ensures t.initialized && t.next == 2 && t.recv == {3, 5} && t.missing == map[2 := 0, 3 := 0, 4 := 0]
    ensures ChannelOfGap(t, 2) == 0 && ChannelOfGap(t, 3) == 2 && ChannelOfGap(t, 4) == 2
  {
    hide NoteGaps, Advanced, Advance;
    var t1 := Tracker(true, 2, {}, map[], map[]);
    NoteGapsEffect(t1, 2, 5, 2, 0);
    var n2 := NoteGaps(t1, 2, 5, 2, 0);
    NotAtCursor(n2.(recv := n2.recv + {5}));
    var t2 := Receive(t1, 5, 2, 0);
    NoteGapsEffect(t2, 2, 3, 0, 0);
    var n3 := NoteGaps(t2, 2, 3, 0, 0);
    NotAtCursor(n3.(recv := n3.recv + {3}));
    t := Receive(t2, 3, 0, 0);
  }

  lemma NotAtCursor(t: Tracker)
    requires t.next !in t.recv
    ensures Advanced(t) == t
  {}
}
