// The recycling queue of include/tight/blocking_queue.hpp. Each method is one section under the
// mutex; a method that waits is the step it takes once its wait is over.
module BlockingQueue {
  import opened Options
  import opened QueueSpec

  const FREE_LIMIT: nat := 64

  class Node<T> {
    var item: Option<T>
    var next: Node?<T>

    constructor ()
      ensures item == None && next == null
    {
      item, next := None, null;
    }
  }

  // A list of distinct nodes, linked in order, the last one to null.
  ghost predicate Linked<T>(list: seq<Node<T>>, first: Node?<T>)
    reads list
  {
    && (forall i, j :: 0 <= i < j < |list| ==> list[i] != list[j])
    && (forall i :: 0 <= i < |list| - 1 ==> list[i].next == list[i + 1])
    && (|list| == 0 ==> first == null)
    && (|list| > 0 ==> first == list[0] && list[|list| - 1].next == null)
  }

  lemma Rest<T>(list: seq<Node<T>>, first: Node<T>)
    requires Linked(list, first)
    ensures |list| > 0 && Linked(list[1..], first.next) && first !in list[1..]
  {
    var rest := list[1..];
    assert forall i :: 0 <= i < |rest| ==> rest[i] == list[i + 1];
  }

  lemma Prepend<T>(node: Node<T>, list: seq<Node<T>>, first: Node?<T>)
    requires Linked(list, first) && node !in list && node.next == first
    ensures Linked([node] + list, node)
  {
    var longer := [node] + list;
    assert forall i :: 0 < i < |longer| ==> longer[i] == list[i - 1];
  }

  class BlockingQueue<T> {
    const capacity: nat
    var size: nat
    var head: Node?<T>
    var tail: Node?<T>
    var freeNodes: Node?<T>
    var freeCount: nat
    var closed: bool

    // The two lists, from their first node.
    ghost var live: seq<Node<T>>
    ghost var free: seq<Node<T>>

    ghost predicate Valid()
      reads this, live, free
    {
      && Linked(live, head)
      && Linked(free, freeNodes)
      && (forall i, j :: 0 <= i < |live| && 0 <= j < |free| ==> live[i] != free[j])
      && (forall i :: 0 <= i < |live| ==> live[i].item.Some?)
      && (forall j :: 0 <= j < |free| ==> free[j].item.None?)
      && tail == (if |live| == 0 then null else live[|live| - 1])
      && size == |live|
      && freeCount == |free| <= FREE_LIMIT
      && (capacity > 0 ==> size <= capacity)
    }

    ghost function Items(): (items: seq<T>)
      requires Valid()
      reads this, live, free
      ensures |items| == size
    {
      seq(|live|, i requires 0 <= i < |live| && Valid() reads this, live, free => live[i].item.value)
    }

    ghost function Abstract(): (r: Queue<T>)
      requires Valid()
      reads this, live, free
    {
      Queue(Items(), capacity, closed)
    }

    constructor (limit: nat := 0)
      ensures Valid() && Abstract() == Queue([], limit, false)
    {
      capacity := limit;
      size, freeCount, closed := 0, 0, false;
      head, tail, freeNodes := null, null, null;
      live, free := [], [];
    }

    // The first free node, or a new one.
    method ObtainNode() returns (node: Node<T>)
      requires Valid()
      modifies this`freeNodes, this`freeCount, this`free, free
      ensures Valid() && Abstract() == old(Abstract())
      ensures node !in live && node !in free && node.next == null && node.item == None
      ensures node in old(free) || fresh(node)
      ensures forall n :: n in free ==> n in old(free)
    {
      if freeNodes != null {
        node := freeNodes;
        Rest(free, freeNodes);
        freeNodes := node.next;
        node.next := null;
        freeCount := freeCount - 1;
        free := free[1..];
      } else {
        node := new Node();
      }
    }

    method LinkTail(node: Node<T>)
      requires Valid() && node !in live && node !in free && node.next == null && node.item.Some?
      requires capacity > 0 ==> size < capacity
      modifies this`head, this`tail, this`size, this`live, live
      ensures Valid() && Abstract() == old(Abstract()).(items := old(Items()) + [node.item.value])
      ensures live == old(live) + [node]
    {
      if tail != null {
        tail.next := node;
        tail := node;
      } else {
        head, tail := node, node;
      }
      size := size + 1;
      live := live + [node];
    }

    // Back to the free list while it is short; otherwise the node is dropped.
    method RecycleNode(node: Node<T>)
      requires Valid() && node !in live && node !in free
      modifies this`freeNodes, this`freeCount, this`free, node
      ensures Valid() && Abstract() == old(Abstract())
      ensures free == if old(|free|) < FREE_LIMIT then [node] + old(free) else old(free)
    {
      node.item := None;
      if freeCount < FREE_LIMIT {
        node.next := freeNodes;
        Prepend(node, free, freeNodes);
        freeNodes := node;
        freeCount := freeCount + 1;
        free := [node] + free;
      }
    }

    method UnlinkHead() returns (item: Option<T>)
      requires Valid() && size > 0
      modifies this`head, this`tail, this`size, this`live, this`freeNodes, this`freeCount, this`free, live
      ensures Valid()
      ensures item == Some(old(Items())[0])
      ensures Abstract() == old(Abstract()).(items := old(Items())[1..])
      ensures forall n :: n in live + free ==> n in old(live + free)
    {
      var node := head;
      Rest(live, head);
      head := node.next;
      if head == null { tail := null; }
      size := size - 1;
      item := node.item;
      live := live[1..];
      RecycleNode(node);
    }

    // The critical section that push and try_push share, with room or with the queue closed.
    method Append(item: T)
      requires Valid() && !Abstract().Refuses()
      modifies this, live, free
      ensures Valid() && Abstract() == Next(old(Abstract()), Offer(item)).queue
      ensures forall n :: n in live + free ==> n in old(live + free) || fresh(n)
    {
      var node := ObtainNode();
      ghost var items := Items();
      node.item := Some(item);
      assert Items() == items;
      LinkTail(node);
    }

    // push, once it has stopped waiting for room.
    method Push(item: T) returns (ok: bool)
      requires Valid()
      requires closed || capacity == 0 || size < capacity
      modifies this, live, free
      ensures Valid() && ok == !old(closed)
      ensures Abstract() == Next(old(Abstract()), Offer(item)).queue
      ensures forall n :: n in live + free ==> n in old(live + free) || fresh(n)
    {
      if closed { return false; }
      Append(item);
      ok := true;
    }

    method TryPush(item: T) returns (ok: bool)
      requires Valid()
      modifies this, live, free
      ensures Valid() && ok == !old(Abstract().Refuses())
      ensures Abstract() == Next(old(Abstract()), Offer(item)).queue
      ensures forall n :: n in live + free ==> n in old(live + free) || fresh(n)
    {
      if closed || (capacity > 0 && size >= capacity) { return false; }
      Append(item);
      ok := true;
    }

    // take, once it has stopped waiting for an item.
    method Take() returns (item: Option<T>)
      requires Valid()
      requires closed || size > 0
      modifies this, live, free
      ensures Valid() && Abstract() == Next(old(Abstract()), Remove).queue
      ensures item == if old(size) == 0 then None else Some(old(Items())[0])
      ensures forall n :: n in live + free ==> n in old(live + free)
    {
      if closed && size == 0 { return None; }
      item := UnlinkHead();
    }

    // take_for: the wait ends with its condition, or without it at the deadline.
    method TakeFor() returns (item: Option<T>)
      requires Valid()
      modifies this, live, free
      ensures Valid() && Abstract() == Next(old(Abstract()), Remove).queue
      ensures item == if old(size) == 0 then None else Some(old(Items())[0])
      ensures forall n :: n in live + free ==> n in old(live + free)
    {
      var met := size > 0 || closed;
      if !met || (closed && size == 0) { return None; }
      item := UnlinkHead();
    }

    method Poll() returns (item: Option<T>)
      requires Valid()
      modifies this, live, free
      ensures Valid() && Abstract() == Next(old(Abstract()), Remove).queue
      ensures item == if old(size) == 0 then None else Some(old(Items())[0])
      ensures forall n :: n in live + free ==> n in old(live + free)
    {
      if size == 0 { return None; }
      item := UnlinkHead();
    }

    method Close()
      requires Valid()
      modifies this`closed
      ensures Valid() && Abstract() == Next(old(Abstract()), Step.Close).queue
    {
      closed := true;
    }
  }
}
