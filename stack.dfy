/** The linked stack of src/lib/commons/stack/stack.c. Nodes live in an arena:
    node `k` stores `data[k]` and, in `next[k]`, the node below it (`Null` at
    the bottom). Handles of popped nodes are never reused, as freed memory
    would not be reachable either. */
module Stacks {
  import opened Common

  class Stack<T> {
    var data: seq<T>
    var next: seq<int>
    var top: int
    var size: int
    /** The elements from the top down. */
    ghost var Contents: seq<T>
    /** The node handles from the top down. */
    ghost var order: seq<nat>

    ghost predicate Valid()
      reads this
    {
      |next| == |data| &&
      |order| == |Contents| == size &&
      (forall k :: 0 <= k < |order| ==> order[k] < |data| && data[order[k]] == Contents[k]) &&
      top == (if order == [] then Null else order[0]) &&
      (forall k {:trigger next[order[k]]} :: 0 <= k < |order| - 1 ==> next[order[k]] == order[k + 1]) &&
      (order != [] ==> next[order[|order| - 1]] == Null)
    }

    /** stack_create: an empty stack. */
    constructor ()
      ensures Valid() && Contents == []
    {
      data, next := [], [];
      top, size := Null, 0;
      Contents, order := [], [];
    }

    /** stack_push: the new node becomes the top; any element, NULL included,
        is accepted. */
    method Push(x: T) returns (ok: bool)
      requires Valid()
      modifies this
      ensures Valid() && ok
      ensures Contents == [x] + old(Contents) && size == old(size) + 1
    {
      var n := |data|;
      data, next := data + [x], next + [top];
      top := n;
      size := size + 1;
      Contents, order := [x] + Contents, [n] + order;
      ok := true;
    }

    /** stack_pop: the top element, or NULL (and no change) on an empty stack. */
    method Pop() returns (r: Option<T>)
      requires Valid()
      modifies this
      ensures Valid()
      ensures old(Contents) == [] ==> r == None && Contents == old(Contents) && size == old(size)
      ensures old(Contents) != [] ==>
        r == Some(old(Contents)[0]) && Contents == old(Contents)[1..] && size == old(size) - 1
    {
      if top == Null {
        return None;
      }
      r := Some(data[top]);
      top := next[top];
      size := size - 1;
      Contents, order := Contents[1..], order[1..];
    }

    /** stack_peek: the top element without removing it, or NULL. */
    method Peek() returns (r: Option<T>)
      requires Valid()
      ensures r == if Contents == [] then None else Some(Contents[0])
    {
      if top == Null {
        return None;
      }
      r := Some(data[top]);
    }

    /** stack_peek_at: the element `index` places below the top (0 is the top),
        or NULL when `index` is negative or not below the size. */
    method PeekAt(index: int) returns (r: Option<T>)
      requires Valid()
      ensures r == if 0 <= index < |Contents| then Some(Contents[index]) else None
    {
      if top == Null || index < 0 || index >= size {
        return None;
      }
      var current := top;
      var i := 0;
      while i < index
        invariant 0 <= i <= index < |order|
        invariant current == order[i]
      {
        current := next[current];
        i := i + 1;
      }
      r := Some(data[current]);
    }

    /** stack_is_empty: the top is NULL. */
    function IsEmpty(): (e: bool)
      reads this
      requires Valid()
      ensures e <==> Contents == []
    {
      top == Null
    }

    /** stack_size. */
    function Size(): (n: int)
      reads this
      requires Valid()
      ensures n == |Contents|
    {
      size
    }

    /** stack_clear: pops until the stack is empty; the stack stays usable. */
    method Clear()
      requires Valid()
      modifies this
      ensures Valid() && Contents == [] && size == 0
    {
      while !IsEmpty()
        invariant Valid()
        decreases |Contents|
      {
        var _ := Pop();
      }
    }
  }

  /** A client of the stack: pushing `xs` and then popping until empty yields
      `xs` in reverse order (LIFO). */
  method PushAllThenPopAll<T>(xs: seq<T>) returns (ys: seq<T>)
    ensures |ys| == |xs|
    ensures forall k :: 0 <= k < |xs| ==> ys[k] == xs[|xs| - 1 - k]
  {
    var s := new Stack<T>();
    var i := 0;
    while i < |xs|
      invariant s.Valid() && 0 <= i <= |xs|
      invariant |s.Contents| == i
      invariant forall k :: 0 <= k < i ==> s.Contents[k] == xs[i - 1 - k]
    {
      var _ := s.Push(xs[i]);
      i := i + 1;
    }
    ys := [];
    while !s.IsEmpty()
      invariant s.Valid()
      invariant |ys| + |s.Contents| == |xs|
      invariant forall k :: 0 <= k < |ys| ==> ys[k] == xs[|xs| - 1 - k]
      invariant forall k :: 0 <= k < |s.Contents| ==> s.Contents[k] == xs[|s.Contents| - 1 - k]
      decreases |s.Contents|
    {
      var r := s.Pop();
      ys := ys + [r.value];
    }
  }
}
