// Paced sending: refill_token_bucket, loan_limit, token_bucket_cap and one heartbeat of
// sender_loop in src/transport.cpp. Token counts are exact reals.
module TokenBucket {
  // A queued packet with what the loop reads when it takes it: whether its channel is being
  // drained or its peer unreachable, and the bandwidth estimate at that moment.
  datatype Packet = Packet(channel: nat, size: nat, skipped: bool, bps: nat)

  datatype Config = Config(mtu: nat, loanSeconds: real)

  // A packet on the wire, with the bucket after it and the bandwidth estimate when it was taken.
  datatype Sent = Sent(channel: nat, size: nat, after: real, bps: nat)

  const DEEP_QUEUE: nat := 32

  function LoanLimit(c: Config, bps: nat): (limit: real)
    ensures limit >= 0.0
  {
    if c.loanSeconds <= 0.0 then 0.0 else bps as real * c.loanSeconds
  }

  function BucketCap(c: Config, bps: nat): (cap: real)
    ensures cap >= 0.0
  {
    var floor, share := c.mtu as real * 4.0, bps as real * 0.02;
    if floor >= share then floor else share
  }

  function Tokens(bps: nat, elapsed: int): (t: real)
    ensures t >= 0.0
  {
    if elapsed <= 0 then 0.0 else bps as real * elapsed as real / 1000000.0
  }

  function Refilled(c: Config, bucket: real, bps: nat, elapsed: int): (x: real)
  {
    if elapsed <= 0 then bucket
    else
      var full := bucket + Tokens(bps, elapsed);
      if full > BucketCap(c, bps) then BucketCap(c, bps) else full
  }

  // ---- one pass over the ordinary queue ----

  datatype Pass = Pass(bucket: real, rest: seq<Packet>, sent: seq<Sent>, exhausted: bool, short: bool)

  predicate Passed(p: Packet, drain: bool) { p.skipped || (p.channel == 0 && drain) }

  function SendQueue(c: Config, bucket: real, drain: bool, queue: seq<Packet>): (r: Pass)
    decreases |queue|
  {
    if |queue| == 0 then Pass(bucket, [], [], false, false)
    else
      var p, rest := queue[0], queue[1..];
      var left, limit := bucket - p.size as real, LoanLimit(c, p.bps);
      if Passed(p, drain) then SendQueue(c, bucket, drain, rest)
      else if p.channel == 0 && left < -limit then Pass(bucket, rest, [], true, false)
      else if p.channel != 0 && left < 0.0 then Pass(bucket, rest, [], false, true)
      else
        var tail := SendQueue(c, left, drain, rest);
        tail.(sent := [Sent(p.channel, p.size, left, p.bps)] + tail.sent)
  }

  // ---- one heartbeat ----

  datatype Pacer = Pacer(bucket: real, drain: bool, reported: bool, limited: bool, queue: seq<Packet>)

  // What happens before and in a heartbeat: the packets queued since the last one, the time and
  // the bandwidth the refill sees, and whether an evacuation asked for a reset.
  datatype Beat = Beat(arrivals: seq<Packet>, elapsed: int, bps: nat, reset: bool)

  datatype Effect = Effect(pacer: Pacer, sent: seq<Sent>, callbacks: seq<bool>)

  function Opening(c: Config, s: Pacer, b: Beat): (r: Pacer)
  {
    var bucket, queue := Refilled(c, s.bucket, b.bps, b.elapsed), s.queue + b.arrivals;
    var reset := if b.reset then s.(bucket := 0.0, drain := false, reported := false) else s.(bucket := bucket);
    reset.(queue := queue, limited := reset.bucket < 0.0 || |queue| >= DEEP_QUEUE)
  }

  // The loan is called in when the pass stopped for it, and settled once the bucket is not in debt.
  function Closing(o: Pacer, p: Pass): (r: Effect)
  {
    var alarm := if p.exhausted && !o.reported then [true] else [];
    var drain := o.drain || p.exhausted;
    var clear := drain && p.bucket >= 0.0;
    Effect(
      Pacer(p.bucket, drain && !clear, (o.reported || p.exhausted) && !clear, o.limited || p.short,
            if p.exhausted then [] else p.rest),
      p.sent,
      alarm + (if clear then [false] else []))
  }

  function Heartbeat(c: Config, s: Pacer, b: Beat): (r: Effect)
  {
    var o := Opening(c, s, b);
    Closing(o, SendQueue(c, o.bucket, o.drain, o.queue))
  }

  class Sender {
    const config: Config
    var bucket: real
    var drain: bool
    var reported: bool
    var limited: bool
    var queue: seq<Packet>
    var audio: seq<Packet>
    // Everything that left, and every loan callback.
    ghost var wire: seq<Sent>
    ghost var audioWire: seq<Packet>
    ghost var callbacks: seq<bool>

    ghost function State(): (r: Pacer)
      reads this
    {
      Pacer(bucket, drain, reported, limited, queue)
    }

    constructor (config: Config)
      ensures State() == Pacer(0.0, false, false, false, []) && this.config == config
      ensures audio == [] && wire == [] && audioWire == [] && callbacks == []
    {
      this.config := config;
      bucket, drain, reported, limited := 0.0, false, false, false;
      queue, audio, wire, audioWire, callbacks := [], [], [], [], [];
    }

    method RefillTokenBucket(bps: nat, elapsed: int)
      modifies this`bucket
      ensures bucket == Refilled(config, old(bucket), bps, elapsed)
      // bps bytes each second, up to four datagrams or a fiftieth of a second, whichever is more
      ensures elapsed > 0 ==>
        var full := old(bucket) + bps as real * elapsed as real / 1000000.0;
        bucket == (if full <= 4.0 * config.mtu as real || full <= bps as real / 50.0 then full
                   else if 4.0 * config.mtu as real >= bps as real / 50.0 then 4.0 * config.mtu as real
                   else bps as real / 50.0)
    {
      if elapsed <= 0 { return; }
      bucket := bucket + Tokens(bps, elapsed);
      var cap := BucketCap(config, bps);
      if bucket > cap { bucket := cap; }
    }

    // Audio goes out whatever the bucket holds.
    method SendAudio()
      modifies this`audio, this`audioWire
      ensures audio == []
      ensures audioWire == old(audioWire) + Unskipped(old(audio))
    {
      assert audioWire + Unskipped(audio) == old(audioWire) + Unskipped(old(audio));
      while |audio| > 0
        invariant audioWire + Unskipped(audio) == old(audioWire) + Unskipped(old(audio))
        decreases |audio|
      {
        var pkt := audio[0];
        audio := audio[1..];
        if pkt.skipped { continue; }
        audioWire := audioWire + [pkt];
      }
    }

    // The ordinary queue, up to the first packet that does not get its tokens.
    method SendOrdinary() returns (exhausted: bool)
      modifies this`bucket, this`limited, this`queue, this`wire
      ensures var p := SendQueue(config, old(bucket), drain, old(queue));
        && bucket == p.bucket && queue == p.rest && wire == old(wire) + p.sent
        && exhausted == p.exhausted && limited == (old(limited) || p.short)
    {
      exhausted := false;
      ghost var goal := SendQueue(config, bucket, drain, queue);
      while true
        invariant !exhausted && limited == old(limited)
        invariant var p := SendQueue(config, bucket, drain, queue);
          && p.bucket == goal.bucket && p.rest == goal.rest && p.exhausted == goal.exhausted
          && p.short == goal.short && wire + p.sent == old(wire) + goal.sent
        decreases |queue|
      {
        if |queue| == 0 { break; }
        var pkt := queue[0];
        queue := queue[1..];
        if pkt.skipped { continue; }
        if pkt.channel == 0 && drain { continue; }
        var cost, limit := pkt.size as real, LoanLimit(config, pkt.bps);
        if pkt.channel == 0 {
          if bucket - cost >= -limit {
            bucket := bucket - cost;
            wire := wire + [Sent(pkt.channel, pkt.size, bucket, pkt.bps)];
          } else {
            exhausted := true;
            break;
          }
        } else {
          if bucket >= cost {
            bucket := bucket - cost;
            wire := wire + [Sent(pkt.channel, pkt.size, bucket, pkt.bps)];
          } else {
            limited := true;
            break;
          }
        }
      }
    }

    method OpenHeartbeat(b: Beat)
      modifies this`bucket, this`drain, this`reported, this`limited, this`queue
      ensures State() == Opening(config, old(State()), b)
      ensures limited <==> bucket < 0.0 || |queue| >= 32
    {
      hide Refilled;
      queue := queue + b.arrivals;
      RefillTokenBucket(b.bps, b.elapsed);
      if b.reset { bucket, drain, reported := 0.0, false, false; }
      limited := bucket < 0.0 || |queue| >= DEEP_QUEUE;
    }

    method SettleLoan(exhausted: bool)
      modifies this`drain, this`reported, this`queue, this`callbacks
      ensures forall p: Pass :: p.exhausted == exhausted && p.bucket == bucket && p.rest == old(queue) && !p.short ==>
        State() == Closing(old(State()), p).pacer && callbacks == old(callbacks) + Closing(old(State()), p).callbacks
    {
      if exhausted {
        queue := [];
        drain := true;
        if !reported {
          reported := true;
          callbacks := callbacks + [true];
        }
      }
      if drain && bucket >= 0.0 {
        drain, reported := false, false;
        callbacks := callbacks + [false];
      }
    }

    method RunHeartbeat(b: Beat)
      modifies this
      ensures var e := Heartbeat(config, old(State()), b);
        State() == e.pacer && wire == old(wire) + e.sent && callbacks == old(callbacks) + e.callbacks
      ensures audio == [] && audioWire == old(audioWire) + Unskipped(old(audio))
    {
      hide Opening, SendQueue, Closing;
      OpenHeartbeat(b);
      ghost var o := State();
      SendAudio();
      var exhausted := SendOrdinary();
      ghost var p := SendQueue(config, o.bucket, o.drain, o.queue);
      ClosingOfPass(o, State(), p);
      SettleLoan(exhausted);
    }
  }

  // Where the pass left the bucket, the queue and the marks.
  lemma ClosingOfPass(o: Pacer, after: Pacer, p: Pass)
    requires after == o.(bucket := p.bucket, queue := p.rest, limited := o.limited || p.short)
    ensures Closing(after, p.(short := false)).pacer == Closing(o, p).pacer
    ensures Closing(after, p.(short := false)).callbacks == Closing(o, p).callbacks
    ensures Closing(o, p).sent == p.sent
  {}

  function Unskipped(packets: seq<Packet>): (s: seq<Packet>)
  {
    if |packets| == 0 then []
    else if packets[0].skipped then Unskipped(packets[1..])
    else [packets[0]] + Unskipped(packets[1..])
  }
}
