// Token and loan conservation over every run of heartbeats.
module TokenRuns {
  import opened TokenBucket

  function Run(c: Config, s: Pacer, beats: seq<Beat>): (r: Effect)
  {
    if |beats| == 0 then Effect(s, [], [])
    else
      var before := Run(c, s, beats[..|beats| - 1]);
      var last := Heartbeat(c, before.pacer, beats[|beats| - 1]);
      Effect(last.pacer, before.sent + last.sent, before.callbacks + last.callbacks)
  }

  // ---- one pass ----

  function Total(sent: seq<Sent>): (n: nat)
  {
    if |sent| == 0 then 0 else sent[0].size + Total(sent[1..])
  }

  lemma {:induction false} TotalAppend(a: seq<Sent>, b: seq<Sent>)
    ensures Total(a + b) == Total(a) + Total(b)
  {
    if |a| == 0 {
      assert a + b == b;
    } else {
      TotalAppend(a[1..], b);
      assert (a + b)[1..] == a[1..] + b;
    }
  }

  // Video may go into debt up to the loan limit, and not at all while draining; other channels
  // leave no debt.
  ghost predicate Disciplined(c: Config, s: Sent, drain: bool)
  {
    && (s.channel == 0 ==> !drain && WithinLoan(c, s.after, s.bps))
    && (s.channel != 0 ==> s.after >= 0.0)
  }

  // In debt by at most what the estimated bandwidth carries in the seconds of the loan.
  ghost predicate WithinLoan(c: Config, bucket: real, bps: nat)
  {
    bucket >= 0.0 || -bucket <= bps as real * c.loanSeconds
  }

  lemma LimitIsLoan(c: Config, bucket: real, bps: nat)
    ensures bucket >= -LoanLimit(c, bps) <==> WithinLoan(c, bucket, bps)
  {
    if c.loanSeconds <= 0.0 { assert bps as real * c.loanSeconds <= 0.0; }
  }

  lemma {:induction false} PassSpends(c: Config, bucket: real, drain: bool, queue: seq<Packet>)
    ensures var p := SendQueue(c, bucket, drain, queue);
      && Total(p.sent) as real + p.bucket == bucket
      && (forall s :: s in p.sent ==> Disciplined(c, s, drain))
      && p.bucket == (if |p.sent| == 0 then bucket else p.sent[|p.sent| - 1].after)
    decreases |queue|
  {
    hide LoanLimit, WithinLoan;
    if |queue| > 0 {
      var p, rest := queue[0], queue[1..];
      var left, limit := bucket - p.size as real, LoanLimit(c, p.bps);
      LimitIsLoan(c, left, p.bps);
      if Passed(p, drain) {
        PassSpends(c, bucket, drain, rest);
      } else if !(p.channel == 0 && left < -limit) && !(p.channel != 0 && left < 0.0) {
        PassSpends(c, left, drain, rest);
        var tail := SendQueue(c, left, drain, rest);
        assert ([Sent(p.channel, p.size, left, p.bps)] + tail.sent)[1..] == tail.sent;
      }
    }
  }

  // A strict packet without its tokens has already left the queue: it is neither sent nor kept.
  lemma ShortPacketIsLost(c: Config, bucket: real, drain: bool, p: Packet, rest: seq<Packet>)
    requires !p.skipped && p.channel != 0
    ensures var r := SendQueue(c, bucket, drain, [p] + rest);
      (bucket < p.size as real <==> r.sent == [] && r.rest == rest && r.short && r.bucket == bucket)
  {
    var queue := [p] + rest;
    assert queue[0] == p && queue[1..] == rest;
    var left := bucket - p.size as real;
    if left >= 0.0 {
      assert SendQueue(c, bucket, drain, queue).sent != [];
    }
  }

  // ---- one heartbeat ----

  function Earned(b: Beat): (x: real) { Tokens(b.bps, b.elapsed) }

  // The debt that an evacuation writes off.
  function Forgiven(c: Config, s: Pacer, b: Beat): (x: real)
  {
    if b.reset && Refilled(c, s.bucket, b.bps, b.elapsed) < 0.0 then -Refilled(c, s.bucket, b.bps, b.elapsed) else 0.0
  }

  lemma RefillBounds(c: Config, bucket: real, bps: nat, elapsed: int)
    ensures Refilled(c, bucket, bps, elapsed) <= bucket + Tokens(bps, elapsed)
    ensures Refilled(c, bucket, bps, elapsed) >= bucket || Refilled(c, bucket, bps, elapsed) >= 0.0
    ensures elapsed > 0 ==> Refilled(c, bucket, bps, elapsed) <= BucketCap(c, bps)
  {
    hide Tokens, BucketCap;
  }

  lemma BeatLedger(c: Config, s: Pacer, b: Beat)
    ensures var e := Heartbeat(c, s, b);
      && Total(e.sent) as real + e.pacer.bucket <= s.bucket + Earned(b) + Forgiven(c, s, b)
      && (|e.sent| > 0 ==> e.pacer.bucket == e.sent[|e.sent| - 1].after)
      && (|e.sent| == 0 ==> e.pacer.bucket >= s.bucket || e.pacer.bucket >= 0.0)
  {
    hide SendQueue, Refilled, Tokens;
    RefillBounds(c, s.bucket, b.bps, b.elapsed);
    var o := Opening(c, s, b);
    PassSpends(c, o.bucket, o.drain, o.queue);
  }

  // What leaves in a heartbeat, given whether video was being drained when its pass began.
  lemma BeatDiscipline(c: Config, s: Pacer, b: Beat)
    ensures forall x :: x in Heartbeat(c, s, b).sent ==> Disciplined(c, x, s.drain && !b.reset)
  {
    hide SendQueue, Refilled;
    var o := Opening(c, s, b);
    PassSpends(c, o.bucket, o.drain, o.queue);
  }

  // ---- runs ----

  function EarnedRun(beats: seq<Beat>): (x: real)
  {
    if |beats| == 0 then 0.0 else EarnedRun(beats[..|beats| - 1]) + Earned(beats[|beats| - 1])
  }

  function ForgivenRun(c: Config, s: Pacer, beats: seq<Beat>): (x: real)
  {
    if |beats| == 0 then 0.0
    else
      var before := beats[..|beats| - 1];
      ForgivenRun(c, s, before) + Forgiven(c, Run(c, s, before).pacer, beats[|beats| - 1])
  }

  // Bytes sent and tokens left come out of the first bucket, the refills and the debts written off;
  // the bucket is at most the last loan limit in debt.
  lemma {:induction false} RunLedger(c: Config, s: Pacer, beats: seq<Beat>)
    ensures var e := Run(c, s, beats);
      && Total(e.sent) as real + e.pacer.bucket <= s.bucket + EarnedRun(beats) + ForgivenRun(c, s, beats)
      && (forall x :: x in e.sent ==> Disciplined(c, x, false))
      && (|e.sent| > 0 ==> WithinLoan(c, e.pacer.bucket, e.sent[|e.sent| - 1].bps))
  {
    hide Heartbeat, Earned, Forgiven, WithinLoan, Disciplined;
    if |beats| > 0 {
      var before, b := beats[..|beats| - 1], beats[|beats| - 1];
      RunLedger(c, s, before);
      var r := Run(c, s, before);
      var last := Heartbeat(c, r.pacer, b);
      BeatLedger(c, r.pacer, b);
      BeatDiscipline(c, r.pacer, b);
      TotalAppend(r.sent, last.sent);
      LastWithin(c, r.pacer.bucket, r.sent, last.pacer.bucket, last.sent, r.pacer.drain && !b.reset);
      AllDisciplined(c, r.sent, last.sent, r.pacer.drain && !b.reset);
    }
  }

  lemma AllDisciplined(c: Config, sent: seq<Sent>, more: seq<Sent>, drain: bool)
    requires forall x :: x in sent ==> Disciplined(c, x, false)
    requires forall x :: x in more ==> Disciplined(c, x, drain)
    ensures forall x :: x in sent + more ==> Disciplined(c, x, false)
  {}

  // The last packet on the wire bounds the debt.
  lemma LastWithin(c: Config, bucket: real, sent: seq<Sent>, after: real, more: seq<Sent>, drain: bool)
    requires |sent| > 0 ==> WithinLoan(c, bucket, sent[|sent| - 1].bps)
    requires if |more| > 0 then after == more[|more| - 1].after else after >= bucket || after >= 0.0
    requires forall x :: x in more ==> Disciplined(c, x, drain)
    ensures var all := sent + more; |all| > 0 ==> WithinLoan(c, after, all[|all| - 1].bps)
  {
    if |more| > 0 {
      assert more[|more| - 1] in more;
    } else {
      assert sent + more == sent;
    }
  }

  // Without evacuations, what is sent beyond the tokens is at most the loan at the last send.
  lemma SpendingBound(c: Config, s: Pacer, beats: seq<Beat>)
    requires forall i :: 0 <= i < |beats| ==> !beats[i].reset
    ensures var sent := Run(c, s, beats).sent;
      |sent| > 0 ==>
        || Total(sent) as real <= s.bucket + EarnedRun(beats)
        || Total(sent) as real <= s.bucket + EarnedRun(beats) + sent[|sent| - 1].bps as real * c.loanSeconds
  {
    hide Run, EarnedRun;
    RunLedger(c, s, beats);
    NothingForgiven(c, s, beats);
  }

  // The bytes that the bandwidth carries between the heartbeats, a million times over.
  function Carried(beats: seq<Beat>): (n: nat)
  {
    if |beats| == 0 then 0
    else
      var b := beats[|beats| - 1];
      Carried(beats[..|beats| - 1]) + if b.elapsed > 0 then b.bps * b.elapsed else 0
  }

  lemma {:induction false} EarnedIsCarried(beats: seq<Beat>)
    ensures 1000000.0 * EarnedRun(beats) == Carried(beats) as real
  {
    hide Tokens;
    if |beats| > 0 {
      var b := beats[|beats| - 1];
      EarnedIsCarried(beats[..|beats| - 1]);
      MillionTokens(b.bps, b.elapsed);
    }
  }

  lemma MillionTokens(bps: nat, elapsed: int)
    ensures 1000000.0 * Tokens(bps, elapsed) == if elapsed > 0 then (bps * elapsed) as real else 0.0
  {
    assert elapsed > 0 ==> bps as real * elapsed as real == (bps * elapsed) as real;
  }

  // So over every run without evacuations the rate is the bandwidth, beyond the first bucket and one loan.
  lemma PacedRate(c: Config, s: Pacer, beats: seq<Beat>)
    requires forall i :: 0 <= i < |beats| ==> !beats[i].reset
    ensures var sent := Run(c, s, beats).sent; var spent := 1000000.0 * (Total(sent) as real - s.bucket);
      |sent| > 0 ==>
        || spent <= Carried(beats) as real
        || spent <= Carried(beats) as real + 1000000.0 * (sent[|sent| - 1].bps as real * c.loanSeconds)
  {
    hide Run, EarnedRun, Carried;
    SpendingBound(c, s, beats);
    EarnedIsCarried(beats);
  }

  lemma {:induction false} NothingForgiven(c: Config, s: Pacer, beats: seq<Beat>)
    requires forall i :: 0 <= i < |beats| ==> !beats[i].reset
    ensures ForgivenRun(c, s, beats) == 0.0
  {
    hide Run;
    if |beats| > 0 { NothingForgiven(c, s, beats[..|beats| - 1]); }
  }

  // ---- the loan callbacks ----

  ghost predicate AtRest(s: Pacer) { s.drain == s.reported && (s.drain ==> s.bucket < 0.0) }

  // The callbacks of a heartbeat, after a false for a report that an evacuation cancels silently.
  function Marks(c: Config, s: Pacer, b: Beat): (r: seq<bool>)
  {
    (if b.reset && s.reported then [false] else []) + Heartbeat(c, s, b).callbacks
  }

  function RunMarks(c: Config, s: Pacer, beats: seq<Beat>): (r: seq<bool>)
  {
    if |beats| == 0 then []
    else
      var before := beats[..|beats| - 1];
      RunMarks(c, s, before) + Marks(c, Run(c, s, before).pacer, beats[|beats| - 1])
  }

  ghost predicate Alternate(marks: seq<bool>, first: bool)
  {
    forall i :: 0 <= i < |marks| ==> marks[i] == (if i % 2 == 0 then first else !first)
  }

  lemma AlternateAppend(a: seq<bool>, b: seq<bool>, first: bool)
    requires Alternate(a, first) && Alternate(b, if |a| % 2 == 0 then first else !first)
    ensures Alternate(a + b, first)
  {
    forall i | |a| <= i < |a + b|
      ensures (a + b)[i] == (if i % 2 == 0 then first else !first)
    {
      assert (a + b)[i] == b[i - |a|];
    }
  }

  lemma BeatMarks(c: Config, s: Pacer, b: Beat)
    requires AtRest(s)
    ensures var e := Heartbeat(c, s, b); var marks := Marks(c, s, b);
      && AtRest(e.pacer)
      && Alternate(marks, !s.reported)
      && (|marks| % 2 == 0 <==> e.pacer.reported == s.reported)
  {
    hide SendQueue, Refilled;
  }

  // Counting cancelled reports, exhausted and recovered alternate in every run.
  lemma {:induction false} MarksAlternate(c: Config, s: Pacer, beats: seq<Beat>)
    requires AtRest(s) && !s.reported
    ensures AtRest(Run(c, s, beats).pacer)
    ensures Alternate(RunMarks(c, s, beats), true)
    ensures |RunMarks(c, s, beats)| % 2 == 1 <==> Run(c, s, beats).pacer.reported
  {
    hide Heartbeat, Marks, Alternate;
    if |beats| == 0 {
      assert Alternate([], true) by { AlternateEmpty(); }
    } else {
      var before, b := beats[..|beats| - 1], beats[|beats| - 1];
      MarksAlternate(c, s, before);
      var r := Run(c, s, before).pacer;
      BeatMarks(c, r, b);
      AlternateAppend(RunMarks(c, s, before), Marks(c, r, b), true);
    }
  }

  lemma AlternateEmpty()
    ensures Alternate([], true)
  {}

  // ---- the callbacks themselves alternate unless one follows a cancelled report ----

  // Beat i resets the loan while the application believes it exhausted.
  ghost predicate Cancels(c: Config, s: Pacer, beats: seq<Beat>, i: nat)
    requires i < |beats|
  {
    beats[i].reset && Run(c, s, beats[..i]).pacer.reported
  }

  ghost predicate CancelsNothing(c: Config, s: Pacer, beats: seq<Beat>)
  {
    forall i :: 0 <= i < |beats| ==> !Cancels(c, s, beats, i)
  }

  lemma PrefixCancels(c: Config, s: Pacer, beats: seq<Beat>, n: nat)
    requires n <= |beats|
    ensures forall i :: 0 <= i < n ==> (Cancels(c, s, beats[..n], i) <==> Cancels(c, s, beats, i))
  {
    forall i | 0 <= i < n
      ensures Cancels(c, s, beats[..n], i) <==> Cancels(c, s, beats, i)
    {
      assert beats[..n][..i] == beats[..i];
    }
  }

  lemma {:induction false} CallbacksAlternate(c: Config, s: Pacer, beats: seq<Beat>)
    requires AtRest(s) && !s.reported && CancelsNothing(c, s, beats)
    ensures Run(c, s, beats).callbacks == RunMarks(c, s, beats) && Alternate(Run(c, s, beats).callbacks, true)
  {
    MarksAlternate(c, s, beats);
    hide Heartbeat, Alternate, AtRest;
    if |beats| > 0 {
      var n := |beats| - 1;
      PrefixCancels(c, s, beats, n);
      CallbacksAlternate(c, s, beats[..n]);
      assert !Cancels(c, s, beats, n);
    }
  }

  // The first cancelled report.
  lemma {:induction false} FirstCancel(c: Config, s: Pacer, beats: seq<Beat>) returns (i: nat)
    requires !CancelsNothing(c, s, beats)
    ensures i < |beats| && Cancels(c, s, beats, i) && CancelsNothing(c, s, beats[..i])
  {
    var n := |beats| - 1;
    hide Cancels;
    PrefixCancels(c, s, beats, n);
    if CancelsNothing(c, s, beats[..n]) {
      i := n;
    } else {
      i := FirstCancel(c, s, beats[..n]);
      assert beats[..n][..i] == beats[..i];
    }
  }

  // From a cancelled report on, the next callback is another alarm.
  lemma {:induction false} AfterCancel(c: Config, s: Pacer, beats: seq<Beat>, i: nat)
    requires AtRest(s) && !s.reported && i < |beats|
    requires Cancels(c, s, beats, i) && CancelsNothing(c, s, beats[..i])
    ensures var cb0, cb := Run(c, s, beats[..i]).callbacks, Run(c, s, beats).callbacks;
      && Alternate(cb0, true) && |cb0| % 2 == 1
      && cb0 <= cb
      && (cb == cb0 ==> !Run(c, s, beats).pacer.reported)
      && (cb != cb0 ==> cb[|cb0|])
    decreases |beats|
  {
    hide Heartbeat;
    var n := |beats| - 1;
    var before := beats[..n];
    MarksAlternate(c, s, before);
    BeatMarks(c, Run(c, s, before).pacer, beats[n]);
    if i == n {
      CallbacksAlternate(c, s, before);
      var last := Heartbeat(c, Run(c, s, before).pacer, beats[n]).callbacks;
      assert |last| > 0 ==> ([false] + last)[1] == last[0];
    } else {
      PrefixCancels(c, s, beats, n);
      assert before[..i] == beats[..i];
      AfterCancel(c, s, before, i);
      var cb0, cb1 := Run(c, s, beats[..i]).callbacks, Run(c, s, before).callbacks;
      var last := Heartbeat(c, Run(c, s, before).pacer, beats[n]).callbacks;
      if cb1 == cb0 {
        assert Marks(c, Run(c, s, before).pacer, beats[n]) == last;
        assert |last| > 0 ==> (cb0 + last)[|cb0|] == last[0] == true;
      } else {
        assert (cb1 + last)[|cb0|] == cb1[|cb0|];
      }
    }
  }

  lemma {:induction false} CallbacksGrow(c: Config, s: Pacer, beats: seq<Beat>, n: nat)
    requires n <= |beats|
    ensures Run(c, s, beats[..n]).callbacks <= Run(c, s, beats).callbacks
    decreases |beats|
  {
    hide Heartbeat;
    if n < |beats| {
      CallbacksGrow(c, s, beats[..|beats| - 1], n);
      assert beats[..|beats| - 1][..n] == beats[..n];
    } else {
      assert beats[..n] == beats;
    }
  }

  // No callback comes in or after a beat that cancels a report.
  ghost predicate SilentOnceCancelled(c: Config, s: Pacer, beats: seq<Beat>)
  {
    forall i :: 0 <= i < |beats| && Cancels(c, s, beats, i) ==>
      Run(c, s, beats).callbacks == Run(c, s, beats[..i]).callbacks
  }

  lemma SilentExactly(c: Config, s: Pacer, beats: seq<Beat>)
    requires AtRest(s) && !s.reported
    ensures Alternate(Run(c, s, beats).callbacks, true) <==> SilentOnceCancelled(c, s, beats)
  {
    hide Run, AtRest;
    if CancelsNothing(c, s, beats) {
      CallbacksAlternate(c, s, beats);
    } else {
      var i := FirstCancel(c, s, beats);
      AfterCancel(c, s, beats, i);
      var cb0, cb := Run(c, s, beats[..i]).callbacks, Run(c, s, beats).callbacks;
      if cb == cb0 {
        forall j | 0 <= j < |beats| && Cancels(c, s, beats, j)
          ensures Run(c, s, beats[..j]).callbacks == cb
        {
          NoneBefore(c, s, beats, i, j);
        }
      } else {
        assert !Alternate(cb, true);
      }
    }
  }

  lemma NoneBefore(c: Config, s: Pacer, beats: seq<Beat>, i: nat, j: nat)
    requires AtRest(s) && !s.reported && i < |beats| && j < |beats|
    requires Cancels(c, s, beats, i) && CancelsNothing(c, s, beats[..i]) && Cancels(c, s, beats, j)
    requires Run(c, s, beats).callbacks == Run(c, s, beats[..i]).callbacks
    ensures Run(c, s, beats[..j]).callbacks == Run(c, s, beats).callbacks
  {
    hide Run, AtRest;
    CallbacksGrow(c, s, beats, j);
    if j < i {
      PrefixCancels(c, s, beats, i);
    } else if j > i {
      PrefixCancels(c, s, beats, j);
      assert beats[..j][..i] == beats[..i];
      AfterCancel(c, s, beats[..j], i);
    }
  }

  // The pass of beat k stops for the loan.
  ghost predicate Exhausts(c: Config, s: Pacer, beats: seq<Beat>, k: nat)
    requires k < |beats|
  {
    var o := Opening(c, Run(c, s, beats[..k]).pacer, beats[k]);
    SendQueue(c, o.bucket, o.drain, o.queue).exhausted
  }

  // Nothing calls the loan in during or after a beat that cancels a report.
  ghost predicate QuietOnceCancelled(c: Config, s: Pacer, beats: seq<Beat>)
  {
    forall i, k :: 0 <= i <= k < |beats| && Cancels(c, s, beats, i) ==> !Exhausts(c, s, beats, k)
  }

  // With nothing reported when the pass begins, only an exhausted loan makes a callback.
  lemma QuietBeat(c: Config, s: Pacer, b: Beat)
    requires AtRest(s) && (!s.reported || b.reset)
    ensures var o, e := Opening(c, s, b), Heartbeat(c, s, b);
      && (e.callbacks == [] <==> !SendQueue(c, o.bucket, o.drain, o.queue).exhausted)
      && (e.callbacks == [] ==> !e.pacer.reported)
  {
    hide SendQueue, Refilled;
  }

  lemma PrefixExhausts(c: Config, s: Pacer, beats: seq<Beat>, n: nat, k: nat)
    requires k < n <= |beats|
    ensures Exhausts(c, s, beats[..n], k) <==> Exhausts(c, s, beats, k)
  {
    assert beats[..n][..k] == beats[..k];
  }

  lemma {:induction false} QuietAfter(c: Config, s: Pacer, beats: seq<Beat>, i: nat)
    requires AtRest(s) && !s.reported && i < |beats| && Cancels(c, s, beats, i)
    ensures Run(c, s, beats).callbacks == Run(c, s, beats[..i]).callbacks <==>
      forall k :: i <= k < |beats| ==> !Exhausts(c, s, beats, k)
    ensures Run(c, s, beats).callbacks == Run(c, s, beats[..i]).callbacks ==> !Run(c, s, beats).pacer.reported
    decreases |beats|
  {
    hide Heartbeat, AtRest, Exhausts;
    var n := |beats| - 1;
    var before := beats[..n];
    MarksAlternate(c, s, before);
    LastExhausts(c, s, beats);
    if i == n {
      QuietBeat(c, Run(c, s, before).pacer, beats[n]);
    } else {
      PrefixCancels(c, s, beats, n);
      assert before[..i] == beats[..i];
      forall k | i <= k < n
        ensures Exhausts(c, s, before, k) <==> Exhausts(c, s, beats, k)
      {
        PrefixExhausts(c, s, beats, n, k);
      }
      QuietAfter(c, s, before, i);
      CallbacksGrow(c, s, before, i);
      if Run(c, s, before).callbacks == Run(c, s, beats[..i]).callbacks {
        QuietBeat(c, Run(c, s, before).pacer, beats[n]);
      }
    }
  }

  lemma LastExhausts(c: Config, s: Pacer, beats: seq<Beat>)
    requires |beats| > 0
    ensures var n := |beats| - 1; var o := Opening(c, Run(c, s, beats[..n]).pacer, beats[n]);
      Exhausts(c, s, beats, n) <==> SendQueue(c, o.bucket, o.drain, o.queue).exhausted
  {}

  lemma StillDraining(c: Config, s: Pacer, b: Beat)
    ensures var o, e := Opening(c, s, b), Heartbeat(c, s, b);
      (s.drain && !b.reset) || SendQueue(c, o.bucket, o.drain, o.queue).exhausted ==>
        (e.pacer.drain <==> e.pacer.bucket < 0.0)
  {
    hide SendQueue, Refilled;
  }

  // From the heartbeat that calls the loan in on, no video leaves before one that ends out of debt or an
  // evacuation.
  lemma {:induction false} NoVideoInDebt(c: Config, s: Pacer, beats: seq<Beat>, k: nat)
    requires k < |beats| && Exhausts(c, s, beats, k)
    requires forall m :: k < m < |beats| ==> !beats[m].reset
    requires forall m :: k < m <= |beats| ==> Run(c, s, beats[..m]).pacer.bucket < 0.0
    ensures Run(c, s, beats).pacer.drain
    ensures Run(c, s, beats[..k + 1]).sent <= Run(c, s, beats).sent
    ensures forall x :: x in Run(c, s, beats).sent[|Run(c, s, beats[..k + 1]).sent|..] ==> x.channel != 0
    decreases |beats|
  {
    hide Heartbeat;
    var n := |beats| - 1;
    var before := beats[..n];
    var r := Run(c, s, before);
    assert beats[..n + 1] == beats;
    LastExhausts(c, s, beats);
    StillDraining(c, r.pacer, beats[n]);
    if k < n {
      PrefixExhausts(c, s, beats, n, k);
      assert forall m :: 0 <= m <= n ==> before[..m] == beats[..m];
      NoVideoInDebt(c, s, before, k);
      BeatDiscipline(c, r.pacer, beats[n]);
      SentAfter(r.sent, Heartbeat(c, r.pacer, beats[n]).sent, |Run(c, s, beats[..k + 1]).sent|);
    }
  }

  lemma SentAfter(sent: seq<Sent>, more: seq<Sent>, n: nat)
    requires n <= |sent|
    ensures (sent + more)[n..] == sent[n..] + more
  {}

  // The callbacks alternate if and only if no pass stops for the loan in or after a beat that
  // cancels a report.
  lemma AlternatesExactly(c: Config, s: Pacer, beats: seq<Beat>)
    requires AtRest(s) && !s.reported
    ensures Alternate(Run(c, s, beats).callbacks, true) <==> QuietOnceCancelled(c, s, beats)
  {
    hide Run, AtRest, Cancels, Exhausts;
    SilentExactly(c, s, beats);
    forall i | 0 <= i < |beats| && Cancels(c, s, beats, i)
      ensures Run(c, s, beats).callbacks == Run(c, s, beats[..i]).callbacks <==>
        forall k :: i <= k < |beats| ==> !Exhausts(c, s, beats, k)
    {
      QuietAfter(c, s, beats, i);
    }
  }

  // A run of two heartbeats that raises the alarm twice: the loan is called in, an evacuation
  // cancels it silently, and the next packet calls it in again.
  lemma CancelledAlarmRepeats(c: Config)
    requires c == Config(1350, 0.5)
    ensures var small, large := Packet(0, 40, false, 100), Packet(0, 1000, false, 100);
      var beats := [Beat([small, large], 0, 100, false), Beat([large], 0, 100, true)];
      Run(c, Pacer(0.0, false, false, false, []), beats).callbacks == [true, true, false]
  {
    hide SendQueue;
    var small, large := Packet(0, 40, false, 100), Packet(0, 1000, false, 100);
    var b1, b2 := Beat([small, large], 0, 100, false), Beat([large], 0, 100, true);
    var s := Pacer(0.0, false, false, false, []);
    FirstPass(c, small, large);
    SecondPass(c, large);
    assert s.queue + [small, large] == [small, large] && [] + [large] == [large];
    var e1 := Heartbeat(c, s, b1);
    assert e1.callbacks == [true] && e1.pacer == Pacer(-40.0, true, true, false, []);
    var e2 := Heartbeat(c, e1.pacer, b2);
    assert e2.callbacks == [true, false];
    assert [b1, b2][..1] == [b1] && [b1][..0] == [];
    assert Run(c, s, [b1]).callbacks == [true] && Run(c, s, [b1]).pacer == e1.pacer;
  }

  lemma FirstPass(c: Config, small: Packet, large: Packet)
    requires c == Config(1350, 0.5)
    requires small == Packet(0, 40, false, 100) && large == Packet(0, 1000, false, 100)
    ensures var p := SendQueue(c, 0.0, false, [small, large]); p.exhausted && p.bucket == -40.0 && !p.short
  {
    assert LoanLimit(c, 100) == 50.0;
    assert [small, large][1..] == [large];
  }

  lemma SecondPass(c: Config, large: Packet)
    requires c == Config(1350, 0.5) && large == Packet(0, 1000, false, 100)
    ensures var p := SendQueue(c, 0.0, false, [large]); p.exhausted && p.bucket == 0.0 && !p.short
  {
    assert LoanLimit(c, 100) == 50.0;
  }
}
