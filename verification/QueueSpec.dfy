// A bounded queue that can be closed, and its runs.
module QueueSpec {
  datatype Queue<T> = Queue(items: seq<T>, capacity: nat, closed: bool)
  {
    ghost predicate Valid() { capacity > 0 ==> |items| <= capacity }

    predicate Refuses() { closed || (capacity > 0 && |items| >= capacity) }
  }

  datatype Step<T> = Offer(item: T) | Remove | Close

  // The queue after a run, with what went in and what came out.
  datatype Outcome<T> = Outcome(queue: Queue<T>, accepted: seq<T>, delivered: seq<T>)

  function Next<T>(q: Queue<T>, step: Step<T>): (r: Outcome<T>)
  {
    match step
    case Offer(item) =>
      if q.Refuses() then Outcome(q, [], []) else Outcome(q.(items := q.items + [item]), [item], [])
    case Remove =>
      if |q.items| == 0 then Outcome(q, [], []) else Outcome(q.(items := q.items[1..]), [], [q.items[0]])
    case Close =>
      Outcome(q.(closed := true), [], [])
  }

  function Run<T>(q: Queue<T>, steps: seq<Step<T>>): (r: Outcome<T>)
  {
    if |steps| == 0 then Outcome(q, [], [])
    else
      var before := Run(q, steps[..|steps| - 1]);
      var last := Next(before.queue, steps[|steps| - 1]);
      Outcome(last.queue, before.accepted + last.accepted, before.delivered + last.delivered)
  }

  lemma NextKeepsOrder<T>(q: Queue<T>, step: Step<T>)
    requires q.Valid()
    ensures var r := Next(q, step); q.items + r.accepted == r.delivered + r.queue.items && r.queue.Valid()
  {}

  lemma Chain<T>(a: seq<T>, in1: seq<T>, in2: seq<T>, out1: seq<T>, mid: seq<T>, out2: seq<T>, end: seq<T>)
    requires a + in1 == out1 + mid && mid + in2 == out2 + end
    ensures a + (in1 + in2) == (out1 + out2) + end
  {
    assert a + (in1 + in2) == (a + in1) + in2;
    assert (out1 + mid) + in2 == out1 + (mid + in2);
    assert out1 + (out2 + end) == (out1 + out2) + end;
  }

  // Items leave in the order they came, none lost and none twice; the bound holds throughout.
  lemma {:induction false} FirstInFirstOut<T>(q: Queue<T>, steps: seq<Step<T>>)
    requires q.Valid()
    ensures var r := Run(q, steps); q.items + r.accepted == r.delivered + r.queue.items && r.queue.Valid()
  {
    hide Next;
    if |steps| == 0 {
      assert q.items + [] == [] + q.items;
    } else {
      FirstInFirstOut(q, steps[..|steps| - 1]);
      var before := Run(q, steps[..|steps| - 1]);
      var last := Next(before.queue, steps[|steps| - 1]);
      NextKeepsOrder(before.queue, steps[|steps| - 1]);
      Chain(q.items, before.accepted, last.accepted, before.delivered, before.queue.items, last.delivered,
            last.queue.items);
    }
  }

  // Nothing enters a closed queue, and it stays closed.
  lemma {:induction false} ClosedForGood<T>(q: Queue<T>, steps: seq<Step<T>>)
    requires q.closed
    ensures Run(q, steps).queue.closed && Run(q, steps).accepted == []
  {
    if |steps| > 0 { ClosedForGood(q, steps[..|steps| - 1]); }
  }

  // What a closed queue still holds drains in order.
  lemma DrainsAfterClose<T>(q: Queue<T>, steps: seq<Step<T>>)
    requires q.Valid() && q.closed && Run(q, steps).queue.items == []
    ensures Run(q, steps).delivered == q.items
  {
    FirstInFirstOut(q, steps);
    ClosedForGood(q, steps);
    var r := Run(q, steps);
    assert q.items + [] == q.items && r.delivered + [] == r.delivered;
  }

  lemma {:induction false} EnoughRemovals<T>(q: Queue<T>, steps: seq<Step<T>>)
    requires q.closed && forall i :: 0 <= i < |steps| ==> steps[i] == Remove
    ensures |Run(q, steps).queue.items| == if |steps| <= |q.items| then |q.items| - |steps| else 0
  {
    if |steps| > 0 {
      EnoughRemovals(q, steps[..|steps| - 1]);
      assert steps[|steps| - 1] == Remove;
    }
  }
}
