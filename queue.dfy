/** The linked FIFO queue of src/lib/commons/queue/queue.c. Nodes live in an
    arena: node `k` stores `data[k]` and, in `next[k]`, the node behind it
    (`Null` for the rear). Enqueued nodes are appended to the arena, so the
    handles from front to rear are increasing. */
module Queues {
  import opened Common

  class Queue<T> {
    var data: seq<T>
    var next: seq<int>
    var front: int
    var rear: int
    var size: int
    /** The elements from front to rear. */
    ghost var Contents: seq<T>
    /** The node handles from front to rear. */
    ghost var order: seq<nat>

    ghost predicate Valid()
      reads this
    {
      |next| == |data| &&
      |order| == |Contents| == size &&
      (forall k :: 0 <= k < |order| ==> order[k] < |data| && data[order[k]] == Contents[k]) &&
      (forall k :: 0 <= k < |order| - 1 ==> order[k] < order[k + 1]) &&
      front == (if order == [] then Null else order[0]) &&
      rear == (if order == [] then Null else order[|order| - 1]) &&
      (forall k {:trigger next[order[k]]} :: 0 <= k < |order| - 1 ==> next[order[k]] == order[k + 1]) &&
      (order != [] ==> next[order[|order| - 1]] == Null)
    }

    /** queue_create: an empty queue. */
    constructor ()
      ensures Valid() && Contents == []
    {
      data, next := [], [];
      front, rear, size := Null, Null, 0;
      Contents, order := [], [];
    }

    /** queue_is_empty: the front is NULL. */
    function IsEmpty(): (e: bool)
      reads this
      requires Valid()
      ensures e <==> Contents == []
    {
      front == Null
    }

    /** queue_size. */
    function Size(): (n: int)
      reads this
      requires Valid()
      ensures n == |Contents|
    {
      size
    }

    /** queue_enqueue: the new node becomes the rear (and the front as well
        when the queue was empty). */
    method Enqueue(x: T) returns (ok: bool)
      requires Valid()
      modifies this
      ensures Valid() && ok
      ensures Contents == old(Contents) + [x] && size == old(size) + 1
    {
      var n := |data|;
      if IsEmpty() {
        data, next := data + [x], next + [Null];
        front, rear := n, n;
      } else {
        data, next := data + [x], next[rear := n] + [Null];
        rear := n;
      }
      size := size + 1;
      Contents, order := Contents + [x], order + [n];
      ok := true;
    }

    /** queue_dequeue: the front element, or NULL (and no change) on an empty
        queue; the rear is reset when the last node leaves. */
    method Dequeue() returns (r: Option<T>)
      requires Valid()
      modifies this
      ensures Valid()
      ensures old(Contents) == [] ==> r == None && Contents == old(Contents) && size == old(size)
      ensures old(Contents) != [] ==>
        r == Some(old(Contents)[0]) && Contents == old(Contents)[1..] && size == old(size) - 1
    {
      if IsEmpty() {
        return None;
      }
      r := Some(data[front]);
      front := next[front];
      if front == Null {
        rear := Null;
      }
      size := size - 1;
      Contents, order := Contents[1..], order[1..];
    }

    /** queue_peek: the front element without removing it, or NULL. */
    method Peek() returns (r: Option<T>)
      requires Valid()
      ensures r == if Contents == [] then None else Some(Contents[0])
    {
      if IsEmpty() {
        return None;
      }
      r := Some(data[front]);
    }

    /** queue_clear: dequeues until the queue is empty. */
    method Clear()
      requires Valid()
      modifies this
      ensures Valid() && Contents == [] && size == 0
    {
      while !IsEmpty()
        invariant Valid()
        decreases |Contents|
      {
        var _ := Dequeue();
      }
    }
  }

  /** A client of the queue: enqueueing `xs` and then dequeueing until empty
      yields `xs` in the same order (FIFO). */
  method EnqueueAllThenDequeueAll<T>(xs: seq<T>) returns (ys: seq<T>)
    ensures ys == xs
  {
    var q := new Queue<T>();
    var i := 0;
    while i < |xs|
      invariant q.Valid() && 0 <= i <= |xs|
      invariant q.Contents == xs[..i]
    {
      var _ := q.Enqueue(xs[i]);
      i := i + 1;
    }
    ys := [];
    while !q.IsEmpty()
      invariant q.Valid()
      invariant ys + q.Contents == xs
      decreases |q.Contents|
    {
      var r := q.Dequeue();
      ys := ys + [r.value];
    }
  }
}
