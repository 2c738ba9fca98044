// Order, first arrivals and completeness of commands over every run between resets.
module CommandRuns {
  import opened Numbers
  import opened ByteStrings
  import opened CommandChannel

  datatype Event = Arrive(s: nat, payload: Bytes, rtt: nat, now: int) | Flush(rtt: nat, now: int)

  function Step(ch: Channel, e: Event): (r: Output)
  {
    match e
    case Arrive(s, payload, rtt, now) => Handle(ch, s, payload, rtt, now)
    case Flush(rtt, now) => Expire(ch, rtt, now)
  }

  function Run(events: seq<Event>): (r: Output)
  {
    if |events| == 0 then Output(CLOSED, [])
    else
      var before := Run(events[..|events| - 1]);
      var last := Step(before.channel, events[|events| - 1]);
      Output(last.channel, before.out + last.out)
  }

  // ---- the commands that count: what arrives at or above the cursor ----

  // The first payload taken in for each sequence.
  ghost function Taken(events: seq<Event>): (m: map<nat, Bytes>)
  {
    if |events| == 0 then map[]
    else
      var before := events[..|events| - 1];
      Noted(Taken(before), Run(before).channel, events[|events| - 1])
  }

  ghost function Noted(taken: map<nat, Bytes>, ch: Channel, e: Event): (m: map<nat, Bytes>)
  {
    if e.Arrive? && e.s != 0 && (ch.initialized ==> ch.next <= e.s) && e.s !in taken then taken[e.s := e.payload]
    else taken
  }

  // ---- what holds between steps ----

  ghost predicate Ordered(out: seq<Command>)
  {
    forall i, j :: 0 <= i < j < |out| ==> out[i].sequence < out[j].sequence
  }

  ghost predicate Below(out: seq<Command>, bound: nat)
  {
    forall c :: c in out ==> c.sequence < bound
  }

  ghost predicate AtLeast(out: seq<Command>, bound: nat)
  {
    forall c :: c in out ==> c.sequence >= bound
  }

  // Everything taken in is delivered or held, and nothing else is.
  ghost predicate Accounted(taken: map<nat, Bytes>, held: map<nat, Bytes>, out: seq<Command>)
  {
    && (forall c :: c in out ==> c.sequence in taken && taken[c.sequence] == c.payload)
    && (forall s :: s in held ==> s in taken && taken[s] == held[s])
    && (forall s :: s in taken ==> s in held || Command(s, taken[s]) in out)
  }

  ghost predicate Inv(taken: map<nat, Bytes>, r: Output)
  {
    && (forall s :: s in r.channel.held ==> s > r.channel.next)
    && (!r.channel.initialized ==> r.channel == CLOSED && r.out == [] && taken == map[])
    && Below(r.out, r.channel.next)
    && Ordered(r.out)
    && Accounted(taken, r.channel.held, r.out)
  }

  // ---- draining ----

  lemma {:induction false} DrainOrder(ch: Channel)
    requires forall s :: s in ch.held ==> s >= ch.next
    ensures var r := Drain(ch);
      && r.channel == ch.(next := ch.next + |r.out|, held := r.channel.held)
      && (forall i :: 0 <= i < |r.out| ==> DrainedAt(ch, r.out, i))
      && (forall s :: s in r.channel.held <==> s in ch.held && s >= ch.next + |r.out|)
      && (forall s :: s in r.channel.held ==> s > r.channel.next && r.channel.held[s] == ch.held[s])
    decreases |ch.held|
  {
    hide Drain;
    if ch.next !in ch.held {
      DrainEnd(ch);
    } else {
      var c := ch.(next := ch.next + 1, held := ch.held - {ch.next});
      DrainOrder(c);
      DrainNext(ch);
      var t, r := Drain(c), Drain(ch);
      forall i | 0 <= i < |r.out| ensures DrainedAt(ch, r.out, i) {
        if i > 0 { assert DrainedAt(c, t.out, i - 1); }
      }
    }
  }

  ghost predicate DrainedAt(ch: Channel, out: seq<Command>, i: nat)
    requires i < |out|
  {
    ch.next + i in ch.held && out[i] == Command(ch.next + i, ch.held[ch.next + i])
  }

  // What one drain hands over: ordered, from the cursor up to the new one, and nothing lost.
  lemma DrainAccounts(ch: Channel)
    requires forall s :: s in ch.held ==> s >= ch.next
    ensures var r := Drain(ch);
      && Ordered(r.out) && AtLeast(r.out, ch.next) && Below(r.out, r.channel.next)
      && Accounted(ch.held, r.channel.held, r.out)
  {
    hide Drain, DrainedAt;
    DrainOrder(ch);
    var r := Drain(ch);
    RunOfCommands(ch, r.out);
    AllHandedOver(ch, r.out);
  }

  lemma RunOfCommands(ch: Channel, out: seq<Command>)
    requires forall i :: 0 <= i < |out| ==> DrainedAt(ch, out, i)
    ensures Ordered(out) && AtLeast(out, ch.next) && Below(out, ch.next + |out|)
    ensures forall c :: c in out ==> c.sequence in ch.held && ch.held[c.sequence] == c.payload
  {
    hide DrainedAt;
    forall i | 0 <= i < |out|
      ensures out[i].sequence == ch.next + i && out[i].sequence in ch.held && out[i].payload == ch.held[out[i].sequence]
    {
      DrainedValue(ch, out, i);
    }
  }

  lemma DrainedValue(ch: Channel, out: seq<Command>, i: nat)
    requires i < |out| && DrainedAt(ch, out, i)
    ensures ch.next + i in ch.held && out[i] == Command(ch.next + i, ch.held[ch.next + i])
  {}

  lemma AllHandedOver(ch: Channel, out: seq<Command>)
    requires forall i :: 0 <= i < |out| ==> DrainedAt(ch, out, i)
    ensures forall s :: s in ch.held && ch.next <= s < ch.next + |out| ==> Command(s, ch.held[s]) in out
  {
    hide DrainedAt;
    forall s | s in ch.held && ch.next <= s < ch.next + |out|
      ensures Command(s, ch.held[s]) in out
    {
      DrainedValue(ch, out, s - ch.next);
    }
  }

  // ---- one step ----

  // Old output below the cursor, new output from it on: together ordered, and together complete.
  lemma OutputsJoin(taken: map<nat, Bytes>, held: map<nat, Bytes>, out: seq<Command>, next: nat, more: seq<Command>,
                    left: map<nat, Bytes>, end: nat)
    requires Below(out, next) && Ordered(out) && next <= end
    requires AtLeast(more, next) && Below(more, end) && Ordered(more)
    requires Accounted(taken, held, out) && Accounted(held, left, more)
    ensures Below(out + more, end) && Ordered(out + more) && Accounted(taken, left, out + more)
  {
    forall i, j | 0 <= i < j < |out + more|
      ensures (out + more)[i].sequence < (out + more)[j].sequence
    {
      if i < |out| <= j {
        assert out[i] in out && more[j - |out|] in more;
      }
    }
  }

  lemma SmallestIsNew(held: map<nat, Bytes>, next: nat)
    requires held != map[] && forall s :: s in held ==> s > next
    ensures Smallest(held) > next
  {}

  lemma ExpireKeeps(taken: map<nat, Bytes>, ch: Channel, out: seq<Command>, rtt: nat, now: int)
    requires Inv(taken, Output(ch, out)) && ch.initialized
    ensures var r := Expire(ch, rtt, now); Inv(taken, Output(r.channel, out + r.out)) && r.channel.initialized
  {
    hide Drain, Smallest;
    if Expires(ch, rtt, now) {
      SmallestIsNew(ch.held, ch.next);
      var c := ch.(next := Smallest(ch.held));
      assert c.next in ch.held && forall s :: s in ch.held ==> s >= c.next;
      DrainOrder(c);
      DrainAccounts(c);
      var d := Drain(c);
      OutputsJoin(taken, ch.held, out, c.next, d.out, d.channel.held, d.channel.next);
    } else {
      assert out + [] == out;
    }
  }

  lemma InOrderKeeps(taken: map<nat, Bytes>, ch: Channel, out: seq<Command>, payload: Bytes)
    requires Inv(taken, Output(ch, out)) && ch.initialized
    ensures var r := Drain(ch.(next := ch.next + 1));
      && ch.next !in taken
      && Inv(taken[ch.next := payload], Output(r.channel, out + ([Command(ch.next, payload)] + r.out)))
  {
    hide Drain, Ordered, Accounted, Below, AtLeast;
    var first, d := [Command(ch.next, payload)], ch.(next := ch.next + 1);
    var r := Drain(d);
    DrainOrder(d);
    DrainAccounts(d);
    FreshCommand(taken, ch.held, out, ch.next, payload);
    OutputsJoin(taken[ch.next := payload], ch.held, out + first, d.next, r.out, r.channel.held, r.channel.next);
    assert out + (first + r.out) == out + first + r.out;
  }

  // The first command starts the channel where it stands.
  lemma StartedKeeps(taken: map<nat, Bytes>, ch: Channel, out: seq<Command>, s: nat)
    requires Inv(taken, Output(ch, out))
    ensures Inv(taken, Output(Started(ch, s), out)) && Started(ch, s).initialized
  {}

  lemma HandleKeeps(taken: map<nat, Bytes>, ch: Channel, out: seq<Command>, e: Event)
    requires Inv(taken, Output(ch, out)) && e.Arrive? && e.s != 0
    ensures var r := Step(ch, e); Inv(Noted(taken, ch, e), Output(r.channel, out + r.out))
  {
    hide Drain, Expire, Hold, Inv;
    var c := Started(ch, e.s);
    StartedKeeps(taken, ch, out, e.s);
    if e.s < c.next {
      assert out + [] == out;
    } else if e.s == c.next {
      InOrderKeeps(taken, c, out, e.payload);
    } else {
      HoldKeeps(taken, c, out, e.s, e.payload, e.now);
      ExpireKeeps(Noted(taken, ch, e), Hold(c, e.s, e.payload, e.now), out, e.rtt, e.now);
    }
  }

  // A command at the cursor was never taken before.
  lemma FreshCommand(taken: map<nat, Bytes>, held: map<nat, Bytes>, out: seq<Command>, s: nat, payload: Bytes)
    requires Below(out, s) && Ordered(out) && Accounted(taken, held, out) && s !in held
    ensures s !in taken
    ensures var more := out + [Command(s, payload)];
      Below(more, s + 1) && Ordered(more) && Accounted(taken[s := payload], held, more)
  {
    var more := out + [Command(s, payload)];
    forall i, j | 0 <= i < j < |more|
      ensures more[i].sequence < more[j].sequence
    {
      assert i < |out| && more[i] in out;
    }
    assert more[|out|] == Command(s, payload);
  }

  lemma HoldKeeps(taken: map<nat, Bytes>, ch: Channel, out: seq<Command>, s: nat, payload: Bytes, now: int)
    requires Inv(taken, Output(ch, out)) && ch.initialized && s > ch.next
    ensures Inv(if s in taken then taken else taken[s := payload], Output(Hold(ch, s, payload, now), out))
    ensures Hold(ch, s, payload, now).initialized
  {
    assert s in taken ==> s in ch.held;
  }

  lemma {:induction false} RunKeeps(events: seq<Event>)
    ensures Inv(Taken(events), Run(events))
  {
    hide Inv, Step, Noted;
    if |events| == 0 {
      StartsClosed();
    } else {
      var before, e := events[..|events| - 1], events[|events| - 1];
      RunKeeps(before);
      StepKeeps(Taken(before), Run(before).channel, Run(before).out, e);
    }
  }

  lemma StartsClosed()
    ensures Inv(map[], Output(CLOSED, []))
  {}

  lemma StepKeeps(taken: map<nat, Bytes>, ch: Channel, out: seq<Command>, e: Event)
    requires Inv(taken, Output(ch, out))
    ensures var r := Step(ch, e); Inv(Noted(taken, ch, e), Output(r.channel, out + r.out))
  {
    hide Drain;
    if e.Arrive? && e.s != 0 {
      HandleKeeps(taken, ch, out, e);
    } else if e.Flush? && ch.initialized {
      ExpireKeeps(taken, ch, out, e.rtt, e.now);
    } else {
      assert out + [] == out;
    }
  }

  // ---- theorems over every run ----

  // Delivered sequences strictly increase and stay below the cursor, held ones stay above it, and
  // every command taken in is delivered or held with its own payload.
  lemma DeliveredInOrder(events: seq<Event>)
    ensures var r := Run(events);
      && Ordered(r.out)
      && Below(r.out, r.channel.next)
      && (forall s :: s in r.channel.held ==> s > r.channel.next)
      && Accounted(Taken(events), r.channel.held, r.out)
  {
    hide Run, Taken;
    RunKeeps(events);
  }

  lemma CursorMoves(taken: map<nat, Bytes>, ch: Channel, out: seq<Command>, e: Event)
    requires Inv(taken, Output(ch, out))
    ensures var r := Step(ch, e).channel;
      && (ch.initialized ==> r.initialized && ch.next <= r.next)
      && (e.Arrive? && e.s != 0 ==> r.initialized && (e.s in Noted(taken, ch, e) || e.s < r.next))
  {
    hide Drain, Smallest;
    if e.Arrive? && e.s != 0 {
      var c := Started(ch, e.s);
      if e.s == c.next {
        DrainOrder(c.(next := c.next + 1));
      } else if e.s > c.next {
        ExpireMoves(Hold(c, e.s, e.payload, e.now), e.rtt, e.now);
      }
    } else if e.Flush? && ch.initialized {
      ExpireMoves(ch, e.rtt, e.now);
    }
  }

  lemma ExpireMoves(ch: Channel, rtt: nat, now: int)
    requires forall s :: s in ch.held ==> s > ch.next
    ensures var r := Expire(ch, rtt, now).channel; r.initialized == ch.initialized && r.next >= ch.next
  {
    hide Drain, Smallest;
    if Expires(ch, rtt, now) {
      SmallestIsNew(ch.held, ch.next);
      DrainOrder(ch.(next := Smallest(ch.held)));
    }
  }

  // Whether a sequence arrived at all, and with what the first time.
  ghost predicate Arrived(events: seq<Event>, s: nat)
  {
    exists i :: 0 <= i < |events| && events[i].Arrive? && events[i].s == s
  }

  ghost function FirstPayload(events: seq<Event>, s: nat): (r: Bytes)
  {
    if |events| == 0 then []
    else
      var before, e := events[..|events| - 1], events[|events| - 1];
      if !Arrived(before, s) && e.Arrive? && e.s == s then e.payload else FirstPayload(before, s)
  }

  lemma {:induction false} FirstArrivals(events: seq<Event>)
    ensures forall s :: s in Taken(events) ==> Arrived(events, s) && Taken(events)[s] == FirstPayload(events, s)
    ensures forall s: nat :: s != 0 && Arrived(events, s) ==>
      Run(events).channel.initialized && (s in Taken(events) || s < Run(events).channel.next)
  {
    hide Step, Inv;
    if |events| > 0 {
      var before, e := events[..|events| - 1], events[|events| - 1];
      FirstArrivals(before);
      RunKeeps(before);
      CursorMoves(Taken(before), Run(before).channel, Run(before).out, e);
      forall s: nat ensures Arrived(events, s) <==> Arrived(before, s) || (e.Arrive? && e.s == s) {
        ArrivedLast(events, s);
      }
    }
  }

  lemma ArrivedLast(events: seq<Event>, s: nat)
    requires |events| > 0
    ensures var before, e := events[..|events| - 1], events[|events| - 1];
      Arrived(events, s) <==> Arrived(before, s) || (e.Arrive? && e.s == s)
  {
    var before := events[..|events| - 1];
    if i :| 0 <= i < |events| && events[i].Arrive? && events[i].s == s {
      assert i < |before| ==> before[i] == events[i];
    }
    if i :| 0 <= i < |before| && before[i].Arrive? && before[i].s == s {
      assert before[i] == events[i];
    }
  }

  // Each delivered payload is the first that arrived under its sequence.
  lemma DeliversFirstArrival(events: seq<Event>, c: Command)
    requires c in Run(events).out
    ensures Arrived(events, c.sequence) && c.payload == FirstPayload(events, c.sequence)
  {
    hide Run, Taken, FirstPayload, Arrived;
    DeliveredInOrder(events);
    FirstArrivals(events);
  }

  // ---- expiry ----

  // An expiry that fires hands over at least the smallest held command.
  lemma ExpiryShrinks(ch: Channel, rtt: nat, now: int)
    requires Expires(ch, rtt, now)
    ensures var r := Expire(ch, rtt, now);
      && |r.channel.held| < |ch.held|
      && |r.out| > 0 && r.out[0] == Command(Smallest(ch.held), ch.held[Smallest(ch.held)])
  {
    hide Smallest;
    var c := ch.(next := Smallest(ch.held));
    var d := c.(next := c.next + 1, held := c.held - {c.next});
    DrainOrder(d);
    assert Drain(c).channel == Drain(d).channel;
    assert Drain(c).channel.held.Keys <= d.held.Keys;
    SubsetSize(Drain(c).channel.held.Keys, d.held.Keys);
    assert |d.held.Keys| == |ch.held.Keys - {c.next}|;
  }

  // Whether the step skips a gap.
  ghost predicate Fires(ch: Channel, e: Event)
  {
    match e
    case Arrive(s, payload, rtt, now) =>
      s != 0 && s > Started(ch, s).next && Expires(Hold(Started(ch, s), s, payload, now), rtt, now)
    case Flush(rtt, now) => Expires(ch, rtt, now)
  }

  ghost predicate Patient(events: seq<Event>)
  {
    forall i :: 0 <= i < |events| ==> !Fires(Run(events[..i]).channel, events[i])
  }

  ghost predicate Consecutive(out: seq<Command>, next: nat)
  {
    next >= |out| && forall i :: 0 <= i < |out| ==> out[i].sequence == next - |out| + i
  }

  lemma PatientStep(ch: Channel, out: seq<Command>, taken: map<nat, Bytes>, e: Event)
    requires Inv(taken, Output(ch, out)) && Consecutive(out, ch.next) && !Fires(ch, e)
    ensures var r := Step(ch, e); Consecutive(out + r.out, r.channel.next)
  {
    hide Drain;
    if e.Arrive? && e.s != 0 && e.s == Started(ch, e.s).next {
      var d := Started(ch, e.s).(next := e.s + 1);
      DrainOrder(d);
      forall i | 0 <= i < |Drain(d).out| ensures Drain(d).out[i].sequence == d.next + i {
        assert DrainedAt(d, Drain(d).out, i);
      }
    } else {
      assert out + [] == out;
    }
  }

  // While no wait runs out, delivery has no gaps.
  lemma {:induction false} ContiguousWhilePatient(events: seq<Event>)
    requires Patient(events)
    ensures Consecutive(Run(events).out, Run(events).channel.next)
  {
    hide Step, Inv, Fires, Consecutive;
    if |events| == 0 {
      assert Consecutive([], 0) by { ConsecutiveEmpty(); }
    } else {
      var before, e := events[..|events| - 1], events[|events| - 1];
      assert forall i :: 0 <= i < |before| ==> before[..i] == events[..i];
      ContiguousWhilePatient(before);
      RunKeeps(before);
      PatientStep(Run(before).channel, Run(before).out, Taken(before), e);
    }
  }

  lemma ConsecutiveEmpty()
    ensures Consecutive([], 0)
  {}

  // ---- how long a command is held ----

  // A sequence from the smallest held one up to s is not held.
  ghost predicate GapBefore(held: map<nat, Bytes>, s: nat)
    requires held != map[]
  {
    exists q :: Smallest(held) <= q <= s && q !in held
  }

  // An expiry releases the held commands up to the next gap and no others.
  lemma ExpiryReleases(ch: Channel, rtt: nat, now: int, s: nat)
    requires Expires(ch, rtt, now) && s in ch.held
    ensures s in Expire(ch, rtt, now).channel.held <==> GapBefore(ch.held, s)
  {
    hide Drain, Smallest;
    var c := ch.(next := Smallest(ch.held));
    DrainOrder(c);
    var r := Drain(c);
    if s in r.channel.held {
      assert r.channel.next !in ch.held && c.next <= r.channel.next <= s;
    } else {
      forall q | c.next <= q <= s
        ensures q in ch.held
      {
        assert DrainedAt(c, r.out, q - c.next);
      }
    }
  }

  // So all of them leave if and only if they have no gap between them, and otherwise the wait
  // starts again.
  lemma SecondGapWaitsAgain(ch: Channel, rtt: nat, now: int, later: int)
    requires Expires(ch, rtt, now)
    ensures var r := Expire(ch, rtt, now).channel;
      && (r.held == map[] <==> forall s :: s in ch.held ==> !GapBefore(ch.held, s))
      && (r.held != map[] ==> (Expires(r, rtt, later) <==> later - now >= 3 * (if rtt > 0 then rtt else 10000)))
  {
    hide Drain, Smallest, GapBefore;
    var r := Expire(ch, rtt, now).channel;
    var c := ch.(next := Smallest(ch.held));
    DrainOrder(c);
    forall s | s in ch.held
      ensures s in r.held <==> GapBefore(ch.held, s)
    {
      ExpiryReleases(ch, rtt, now, s);
    }
    assert r.held == map[] <==> forall s :: s !in r.held;
  }

  function Time(e: Event): (t: int) { e.now }

  ghost predicate ClockAdvances(events: seq<Event>)
  {
    forall i, j :: 0 <= i < j < |events| ==> Time(events[i]) <= Time(events[j])
  }

  // When each held command was taken in.
  ghost function Since(events: seq<Event>): (since: map<nat, int>)
    ensures since.Keys == Run(events).channel.held.Keys
  {
    if |events| == 0 then map[]
    else
      var before := Since(events[..|events| - 1]);
      map s | s in Run(events).channel.held :: if s in before then before[s] else Time(events[|events| - 1])
  }

  // An expiry has fired and left the command behind.
  ghost predicate Outlived(events: seq<Event>, s: nat)
  {
    exists i :: 0 <= i < |events| && Fires(Run(events[..i]).channel, events[i]) &&
      s in Run(events[..i + 1]).channel.held
  }

  lemma OutlivedStays(events: seq<Event>, s: nat)
    requires |events| > 0 && Outlived(events[..|events| - 1], s)
    ensures Outlived(events, s)
  {
    hide Fires, Run;
    var before := events[..|events| - 1];
    var i :| 0 <= i < |before| && Fires(Run(before[..i]).channel, before[i]) && s in Run(before[..i + 1]).channel.held;
    assert before[..i] == events[..i] && before[..i + 1] == events[..i + 1];
  }

  lemma OutlivedNow(events: seq<Event>, s: nat)
    requires |events| > 0 && s in Run(events).channel.held
    requires Fires(Run(events[..|events| - 1]).channel, events[|events| - 1])
    ensures Outlived(events, s)
  {
    hide Fires, Run;
    assert events[..|events|] == events;
  }

  // What a step does to the start of the wait, unless an expiry fires.
  lemma WaitStart(ch: Channel, e: Event)
    requires forall s :: s in ch.held ==> s > ch.next
    requires !ch.initialized ==> ch.held == map[]
    requires !Fires(ch, e)
    ensures var r := Step(ch, e).channel;
      && (forall s :: s in r.held ==> s in ch.held || (e.Arrive? && s == e.s))
      && (r.held != map[] ==> r.gapSince == (if ch.held == map[] then Time(e) else ch.gapSince))
  {
    hide Drain;
    if e.Arrive? && e.s != 0 && e.s == Started(ch, e.s).next {
      DrainOrder(Started(ch, e.s).(next := e.s + 1));
    }
  }

  lemma WaitRestarts(ch: Channel, e: Event)
    requires Fires(ch, e) && Step(ch, e).channel.held != map[]
    ensures Step(ch, e).channel.gapSince == Time(e)
  {
    hide Drain, Smallest;
  }

  // The wait of a held command starts no later than the command came, unless it outlived an expiry.
  lemma {:induction false} WaitStartsInTime(events: seq<Event>)
    requires ClockAdvances(events)
    ensures var ch := Run(events).channel;
      && (ch.held != map[] ==> |events| > 0 && ch.gapSince <= Time(events[|events| - 1]))
      && (forall s :: s in ch.held ==> Since(events)[s] <= Time(events[|events| - 1]))
      && (forall s :: s in ch.held ==> ch.gapSince <= Since(events)[s] || Outlived(events, s))
  {
    hide Step, Inv, Fires, Outlived, Noted;
    if |events| > 0 {
      var before, e := events[..|events| - 1], events[|events| - 1];
      WaitStartsInTime(before);
      RunKeeps(before);
      HeldAboveCursor(Taken(before), Run(before));
      var ch, r := Run(before).channel, Run(events).channel;
      if Fires(ch, e) {
        if r.held != map[] { WaitRestarts(ch, e); }
        forall s | s in r.held ensures Outlived(events, s) { OutlivedNow(events, s); }
      } else {
        WaitStart(ch, e);
        forall s | s in r.held && Outlived(before, s) ensures Outlived(events, s) { OutlivedStays(events, s); }
      }
    }
  }

  lemma HeldAboveCursor(taken: map<nat, Bytes>, r: Output)
    requires Inv(taken, r)
    ensures forall s :: s in r.channel.held ==> s > r.channel.next
    ensures !r.channel.initialized ==> r.channel.held == map[]
  {}

  // In every run: at a check, a command held for 3 RTT or longer stays held if and only if a second
  // gap comes before it or the wait was restarted less than 3 RTT ago; and only an expiry that left
  // this very command behind restarts it.
  lemma HeldBeyondThreeRtt(events: seq<Event>, s: nat, rtt: nat, now: int)
    requires ClockAdvances(events + [Flush(rtt, now)]) && s in Run(events).channel.held
    requires now - Since(events)[s] >= 3 * (if rtt > 0 then rtt else 10000)
    ensures var ch := Run(events).channel;
      && (s in Expire(ch, rtt, now).channel.held <==> !WaitOver(ch, rtt, now) || GapBefore(ch.held, s))
      && (!WaitOver(ch, rtt, now) ==> Outlived(events, s))
  {
    hide Run, Since, GapBefore, Drain, Smallest, Outlived;
    assert forall i :: 0 <= i < |events| ==> (events + [Flush(rtt, now)])[i] == events[i];
    WaitStartsInTime(events);
    var ch := Run(events).channel;
    if Expires(ch, rtt, now) { ExpiryReleases(ch, rtt, now, s); }
  }

  // Such a run: 3 and 5 arrive at time 0 with a round trip of 10, the gap at 2 expires at time 30,
  // and at time 31 command 5 is still held.
  lemma HeldTooLong(p: Bytes)
    ensures var events := [Arrive(1, p, 10, 0), Arrive(3, p, 10, 0), Arrive(5, p, 10, 0), Flush(10, 30), Flush(10, 31)];
      5 in Run(events).channel.held && Since(events)[5] == 0
  {
    var e1, e2, e3 := Arrive(1, p, 10, 0), Arrive(3, p, 10, 0), Arrive(5, p, 10, 0);
    var e4, e5 := Flush(10, 30), Flush(10, 31);
    var c1 := Channel(true, 2, map[], 0);
    var c2 := c1.(held := map[3 := p]);
    var c3 := c1.(held := map[3 := p, 5 := p]);
    var c4 := Channel(true, 4, map[5 := p], 30);
    assert Step(CLOSED, e1).channel == c1;
    assert Step(c1, e2).channel == c2;
    assert Step(c2, e3).channel == c3;
    ExampleExpiry(c3, p);
    assert Step(c3, e4).channel == c4;
    assert Step(c4, e5).channel == c4;
    hide Step;
    assert [] + [e1] == [e1] && [e1] + [e2] == [e1, e2] && [e1, e2] + [e3] == [e1, e2, e3];
    assert [e1, e2, e3] + [e4] == [e1, e2, e3, e4] && [e1, e2, e3, e4] + [e5] == [e1, e2, e3, e4, e5];
    RunNext([], e1);
    RunNext([e1], e2);
    RunNext([e1, e2], e3);
    RunNext([e1, e2, e3], e4);
    RunNext([e1, e2, e3, e4], e5);
  }

  // One event more, in the state and in the times.
  lemma RunNext(events: seq<Event>, e: Event)
    ensures Run(events + [e]).channel == Step(Run(events).channel, e).channel
    ensures forall s :: s in Run(events + [e]).channel.held ==>
      Since(events + [e])[s] == if s in Run(events).channel.held then Since(events)[s] else Time(e)
  {
    hide Step;
    assert (events + [e])[..|events|] == events;
  }

  lemma ExampleExpiry(ch: Channel, p: Bytes)
    requires ch == Channel(true, 2, map[3 := p, 5 := p], 0)
    ensures Expire(ch, 10, 30).channel == Channel(true, 4, map[5 := p], 30)
  {
    assert 3 in ch.held && Smallest(ch.held) == 3;
    var c := ch.(next := 4, held := ch.held - {3});
    assert c.held == map[5 := p];
    assert Drain(c) == Output(c, []);
    DrainNext(ch.(next := 3));
    assert Expires(ch, 10, 30);
    assert 5 in c.held;
  }
}
