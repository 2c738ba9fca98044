// The retransmission buffer: send_data_packet in src/transport.cpp and the pruning and bounded
// resending of Report::handle in src/report.cpp.
module PendingTable {
  import opened Numbers
  import opened SequenceTracking

  // A buffered packet. A stub is the empty entry that send_data_packet leaves behind when the
  // packet it has just sent was pruned before its size could be recorded.
  datatype Pending = Pending(retries: nat, channel: nat, stub: bool)

  type Table = map<nat, Pending>

  predicate Prunable(r: Report, k: nat, e: Pending)
  {
    (k <= r.ack && k !in r.lost) || e.retries >= MAX_RETRIES
  }

  predicate ToResend(r: Report, k: nat, e: Pending)
  {
    k in r.lost && e.retries < MAX_RETRIES
  }

  // The locked section of handle: what stays, and the copies to resend.
  function Prune(t: Table, r: Report): (u: Table)
  {
    map k | k in t && !Prunable(r, k, t[k]) :: t[k]
  }

  function Snapshot(t: Table, r: Report): (u: Table)
  {
    map k | k in t && ToResend(r, k, t[k]) :: t[k]
  }

  // Counting one resend, under the lock again.
  function Bump(t: Table, k: nat): (u: Table)
  {
    if k in t && t[k].retries < MAX_RETRIES then t[k := t[k].(retries := t[k].retries + 1)] else t
  }

  // What a resent copy carries: a stub has an all-zero header.
  function Resent(k: nat, e: Pending): (r: (nat, nat))
  {
    if e.stub then (0, 0) else (k, e.channel)
  }

  // The entry takes the new header; the retry count of one already there stays.
  function Kept(t: Table, s: nat, channel: nat): (u: Table)
  {
    t[s := Pending(if s in t then t[s].retries else 0, channel, false)]
  }

  class PeerPending {
    var nextOut: nat      // m_sequence_out
    var pending: Table

    constructor ()
      ensures nextOut == 1 && pending == map[]
    {
      nextOut, pending := 1, map[];
    }

    // The locked section of send_data_packet.
    method AssignSequence(channel: nat, keep: bool) returns (s: nat)
      modifies this
      ensures s == old(nextOut) && nextOut == s + 1
      ensures pending == if keep then Kept(old(pending), s, channel) else old(pending)
    {
      s := nextOut;
      nextOut := nextOut + 1;
      if keep {
        pending := pending[s := Pending(if s in pending then pending[s].retries else 0, channel, false)];
      }
    }

    // Writing the size into the table brings back an entry that is gone, empty.
    method RecordSize(s: nat)
      modifies this`pending
      ensures pending == if s in old(pending) then old(pending) else old(pending)[s := Pending(0, 0, true)]
    {
      if s !in pending { pending := pending[s := Pending(0, 0, true)]; }
    }

    method SnapshotAndPrune(r: Report) returns (work: Table)
      modifies this`pending
      ensures work == Snapshot(old(pending), r) && pending == Prune(old(pending), r)
    {
      work := map[];
      var todo := pending.Keys;
      while todo != {}
        invariant todo <= pending.Keys && pending == old(pending)
        invariant forall k :: k in work <==> k in pending && k !in todo && ToResend(r, k, pending[k])
        invariant forall k :: k in work ==> work[k] == pending[k]
        decreases todo
      {
        var k := MinOf(todo);
        if ToResend(r, k, pending[k]) { work := work[k := pending[k]]; }
        todo := todo - {k};
      }
      assert work == Snapshot(pending, r);
      todo := pending.Keys;
      while todo != {}
        invariant todo <= pending.Keys
        invariant forall k :: k in pending <==>
          k in old(pending) && (k in todo || !Prunable(r, k, old(pending)[k]))
        invariant forall k :: k in pending ==> pending[k] == old(pending)[k]
        decreases todo
      {
        var k := MinOf(todo);
        if Prunable(r, k, pending[k]) { pending := pending - {k}; }
        todo := todo - {k};
      }
      assert pending == Prune(old(pending), r);
    }

    // One iteration of the resend loop, after the callback.
    method CountResend(k: nat)
      modifies this`pending
      ensures pending == Bump(old(pending), k)
    {
      if k in pending && pending[k].retries < MAX_RETRIES {
        pending := pending[k := pending[k].(retries := pending[k].retries + 1)];
      }
    }
  }
}
