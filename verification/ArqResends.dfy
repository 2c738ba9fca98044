// Over every run: what a report makes the sender keep and resend, and what a resent copy carries.
module ArqResends {
  import opened ArqRuns

  // A report puts aside for resending the buffered packets that it names and that have been resent
  // fewer than ten times, and keeps those that it names or does not acknowledge, as they are.
  lemma HandledInRun(ws: seq<World>, actions: seq<Action>, i: nat, k: nat)
    requires IsRun(ws, actions) && i < |actions| && actions[i].HandleReport?
    ensures var r, before, after := actions[i].report, ws[i].pending, ws[i + 1];
      && (k in after.work <==> k in before && k in r.lost && before[k].retries < 10)
      && (k in after.pending <==> k in before && before[k].retries < 10 && (k in r.lost || k > r.ack))
      && (k in after.work ==> after.work[k] == before[k])
      && (k in after.pending ==> after.pending[k] == before[k])
  {}

  // The packet with this number was sent before step i, on this channel.
  ghost predicate SentOn(ws: seq<World>, actions: seq<Action>, i: nat, k: nat, ch: nat)
    requires |ws| == |actions| + 1 && i < |ws|
  {
    exists j :: 0 <= j < i && actions[j].Send? && actions[j].channel == ch && ws[j].nextOut == k
  }

  lemma {:induction false} NumbersGrow(ws: seq<World>, actions: seq<Action>, i: nat, j: nat)
    requires IsRun(ws, actions) && i < j < |ws| && actions[i].Send?
    ensures ws[i].nextOut < ws[j].nextOut
    decreases j
  {
    hide Enabled;
    if i + 1 < j {
      NumbersGrow(ws, actions, i, j - 1);
    }
  }

  // Every number is sent once, on one channel.
  lemma OneChannel(ws: seq<World>, actions: seq<Action>, i: nat, k: nat, ch: nat, other: nat)
    requires IsRun(ws, actions) && i < |ws| && SentOn(ws, actions, i, k, ch) && SentOn(ws, actions, i, k, other)
    ensures ch == other
  {
    hide Next, Enabled;
    var j :| 0 <= j < i && actions[j].Send? && actions[j].channel == ch && ws[j].nextOut == k;
    var m :| 0 <= m < i && actions[m].Send? && actions[m].channel == other && ws[m].nextOut == k;
    if j < m { NumbersGrow(ws, actions, j, m); }
    if m < j { NumbersGrow(ws, actions, m, j); }
  }

  ghost predicate AllSent(ws: seq<World>, actions: seq<Action>, i: nat)
    requires |ws| == |actions| + 1 && i < |ws|
  {
    var w := ws[i];
    && (forall k :: k in w.pending && !w.pending[k].stub ==> SentOn(ws, actions, i, k, w.pending[k].channel))
    && (forall k :: k in w.work && !w.work[k].stub ==> SentOn(ws, actions, i, k, w.work[k].channel))
    && (forall c :: c in w.data && c.0 > 0 ==> SentOn(ws, actions, i, c.0, c.1))
  }

  // One more step keeps what was sent so far, and adds the packet that it sends itself.
  lemma SentOneMore(ws: seq<World>, actions: seq<Action>, n: nat)
    requires |ws| == |actions| + 1 && n < |actions|
    ensures forall k, ch :: SentOn(ws, actions, n, k, ch) ==> SentOn(ws, actions, n + 1, k, ch)
    ensures actions[n].Send? ==> SentOn(ws, actions, n + 1, ws[n].nextOut, actions[n].channel)
  {}

  lemma PendingStep(ws: seq<World>, actions: seq<Action>, n: nat, k: nat)
    requires IsRun(ws, actions) && n < |actions| && AllSent(ws, actions, n)
    requires k in ws[n + 1].pending && !ws[n + 1].pending[k].stub
    ensures SentOn(ws, actions, n + 1, k, ws[n + 1].pending[k].channel)
  {
    hide SentOn;
    SentOneMore(ws, actions, n);
  }

  lemma WorkStep(ws: seq<World>, actions: seq<Action>, n: nat, k: nat)
    requires IsRun(ws, actions) && n < |actions| && AllSent(ws, actions, n)
    requires k in ws[n + 1].work && !ws[n + 1].work[k].stub
    ensures SentOn(ws, actions, n + 1, k, ws[n + 1].work[k].channel)
  {
    hide SentOn;
    SentOneMore(ws, actions, n);
  }

  lemma DataStep(ws: seq<World>, actions: seq<Action>, n: nat, c: Copy)
    requires IsRun(ws, actions) && n < |actions| && AllSent(ws, actions, n)
    requires c in ws[n + 1].data && c.0 > 0
    ensures SentOn(ws, actions, n + 1, c.0, c.1)
  {
    hide SentOn;
    SentOneMore(ws, actions, n);
  }

  // Every buffered packet, every one put aside and every copy in the network carries the channel it was
  // sent on.
  lemma {:induction false} ChannelsInRun(ws: seq<World>, actions: seq<Action>, i: nat)
    requires IsRun(ws, actions) && i < |ws|
    ensures AllSent(ws, actions, i)
  {
    hide SentOn, Next, Enabled;
    if i > 0 {
      ChannelsInRun(ws, actions, i - 1);
      forall k | k in ws[i].pending && !ws[i].pending[k].stub
        ensures SentOn(ws, actions, i, k, ws[i].pending[k].channel)
      {
        PendingStep(ws, actions, i - 1, k);
      }
      forall k | k in ws[i].work && !ws[i].work[k].stub
        ensures SentOn(ws, actions, i, k, ws[i].work[k].channel)
      {
        WorkStep(ws, actions, i - 1, k);
      }
      forall c | c in ws[i].data && c.0 > 0
        ensures SentOn(ws, actions, i, c.0, c.1)
      {
        DataStep(ws, actions, i - 1, c);
      }
    }
  }

  // A resend puts one more copy of the packet itself into the network, on the channel it was sent on,
  // and counts it.
  lemma ResentInRun(ws: seq<World>, actions: seq<Action>, i: nat) returns (ch: nat)
    requires IsRun(ws, actions) && i < |actions| && actions[i].Resend?
    requires !ws[i].work[actions[i].sequence].stub
    ensures var k := actions[i].sequence;
      && SentOn(ws, actions, i, k, ch)
      && ws[i + 1].data == ws[i].data + {(k, ch)}
      && k !in ws[i + 1].work
      && k in ws[i].pending && k in ws[i + 1].pending
      && ws[i + 1].pending[k] == ws[i].pending[k].(retries := ws[i].pending[k].retries + 1)
  {
    hide SentOn;
    ChannelsInRun(ws, actions, i);
    RunInvariant(ws, actions, i);
    ch := ws[i].work[actions[i].sequence].channel;
  }
}
