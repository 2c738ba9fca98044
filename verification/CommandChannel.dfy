// Ordered command delivery: src/command.cpp. The clock is an argument, in microseconds.
module CommandChannel {
  import opened Numbers
  import opened ByteStrings

  const MAX_WAIT_RTT: nat := 3
  const DEFAULT_RTT: nat := 10000

  // A delivered command.
  datatype Command = Command(sequence: nat, payload: Bytes)

  datatype Channel = Channel(initialized: bool, next: nat, held: map<nat, Bytes>, gapSince: int)

  // A step of the channel: its new state and what it hands over, in order.
  datatype Output = Output(channel: Channel, out: seq<Command>)

  lemma NonemptyKeys(held: map<nat, Bytes>)
    requires held != map[]
    ensures held.Keys != {}
  {
    assert held.Keys == {} ==> held == map[];
  }

  // The first of the held commands, which the source keeps in order.
  function Smallest(held: map<nat, Bytes>): (k: nat)
    requires held != map[]
    ensures k in held && forall j :: j in held ==> k <= j
  {
    NonemptyKeys(held);
    MinOf(held.Keys)
  }

  // ---- the channel ----

  function Drain(ch: Channel): (r: Output)
    decreases |ch.held|
  {
    if ch.next in ch.held then
      var tail := Drain(ch.(next := ch.next + 1, held := ch.held - {ch.next}));
      tail.(out := [Command(ch.next, ch.held[ch.next])] + tail.out)
    else Output(ch, [])
  }

  function Payloads(out: seq<Command>): (s: seq<Bytes>)
  {
    seq(|out|, i requires 0 <= i < |out| => out[i].payload)
  }

  lemma DrainNext(ch: Channel)
    requires ch.next in ch.held
    ensures var first := Command(ch.next, ch.held[ch.next]);
      var t, r := Drain(ch.(next := ch.next + 1, held := ch.held - {ch.next})), Drain(ch);
      && r.channel == t.channel && r.out == [first] + t.out && Payloads(r.out) == [first.payload] + Payloads(t.out)
  {}

  lemma DrainEnd(ch: Channel)
    requires ch.next !in ch.held
    ensures Drain(ch) == Output(ch, []) && Payloads([]) == []
  {}

  predicate WaitOver(ch: Channel, rtt: nat, now: int)
  {
    now - ch.gapSince >= MAX_WAIT_RTT * (if rtt > 0 then rtt else DEFAULT_RTT)
  }

  predicate Expires(ch: Channel, rtt: nat, now: int) { ch.held != map[] && WaitOver(ch, rtt, now) }

  function Expire(ch: Channel, rtt: nat, now: int): (r: Output)
  {
    if !Expires(ch, rtt, now) then Output(ch, [])
    else
      var r := Drain(ch.(next := Smallest(ch.held)));
      if r.channel.held == map[] then r else r.(channel := r.channel.(gapSince := now))
  }

  function Started(ch: Channel, s: nat): (r: Channel)
  {
    if ch.initialized then ch else ch.(initialized := true, next := s)
  }

  // The first arrival of a sequence is the one that is kept.
  function Hold(ch: Channel, s: nat, payload: Bytes, now: int): (r: Channel)
  {
    ch.(gapSince := if ch.held == map[] then now else ch.gapSince,
        held := if s in ch.held then ch.held else ch.held[s := payload])
  }

  function Handle(ch: Channel, s: nat, payload: Bytes, rtt: nat, now: int): (r: Output)
  {
    if s == 0 then Output(ch, [])
    else
      var c := Started(ch, s);
      if s < c.next then Output(c, [])
      else if s == c.next then
        var r := Drain(c.(next := c.next + 1));
        r.(out := [Command(s, payload)] + r.out)
      else Expire(Hold(c, s, payload, now), rtt, now)
  }

  const CLOSED := Channel(false, 0, map[], 0)

  class Peer {
    var nextExpected: nat
    var initialized: bool
    var held: map<nat, Bytes>
    var gapSince: int
    // What has been handed over since the last reset.
    ghost var delivered: seq<Command>

    ghost function State(): (r: Channel)
      reads this
    {
      Channel(initialized, nextExpected, held, gapSince)
    }

    constructor ()
      ensures State() == CLOSED && delivered == []
    {
      nextExpected, initialized, held, gapSince, delivered := 0, false, map[], 0, [];
    }

    method Reset()
      modifies this
      ensures State() == CLOSED && delivered == []
    {
      nextExpected, initialized, held, gapSince, delivered := 0, false, map[], 0, [];
    }

    method DrainInto(out: seq<Bytes>) returns (all: seq<Bytes>)
      modifies this`nextExpected, this`held, this`delivered
      ensures var r := Drain(old(State()));
        State() == r.channel && delivered == old(delivered) + r.out && all == out + Payloads(r.out)
    {
      hide Drain, Payloads;
      all := out;
      ghost var goal := Drain(State());
      while nextExpected in held
        invariant initialized == old(initialized) && gapSince == old(gapSince)
        invariant var r := Drain(State());
          && r.channel == goal.channel
          && delivered + r.out == old(delivered) + goal.out
          && all + Payloads(r.out) == out + Payloads(goal.out)
        decreases |held|
      {
        DrainNext(State());
        var payload := held[nextExpected];
        all := all + [payload];
        delivered := delivered + [Command(nextExpected, payload)];
        held := held - {nextExpected};
        nextExpected := nextExpected + 1;
      }
      DrainEnd(State());
    }

    method ExpireInto(out: seq<Bytes>, rtt: nat, now: int) returns (all: seq<Bytes>)
      modifies this`nextExpected, this`held, this`delivered, this`gapSince
      ensures var r := Expire(old(State()), rtt, now);
        State() == r.channel && delivered == old(delivered) + r.out && all == out + Payloads(r.out)
    {
      hide Drain, Smallest;
      if held == map[] { return out; }
      var wait := MAX_WAIT_RTT * (if rtt > 0 then rtt else DEFAULT_RTT);
      if now - gapSince < wait { return out; }
      nextExpected := Smallest(held);
      all := DrainInto(out);
      if held != map[] { gapSince := now; }
    }

    method HandleCommand(s: nat, payload: Bytes, rtt: nat, now: int) returns (out: seq<Bytes>)
      modifies this
      ensures var r := Handle(old(State()), s, payload, rtt, now);
        State() == r.channel && delivered == old(delivered) + r.out && out == Payloads(r.out)
    {
      hide Drain, Expire;
      out := [];
      if s == 0 { return; }
      if !initialized {
        nextExpected := s;
        initialized := true;
      }
      if s < nextExpected { return; }
      if s == nextExpected {
        delivered := delivered + [Command(s, payload)];
        nextExpected := nextExpected + 1;
        out := DrainInto([payload]);
      } else {
        if held == map[] { gapSince := now; }
        if s !in held { held := held[s := payload]; }
        out := ExpireInto([], rtt, now);
      }
    }

    method FlushExpired(rtt: nat, now: int) returns (out: seq<Bytes>)
      modifies this
      ensures var r := Expire(old(State()), rtt, now);
        State() == r.channel && delivered == old(delivered) + r.out && out == Payloads(r.out)
    {
      out := ExpireInto([], rtt, now);
    }
  }
}
