/** The doubly linked list of src/lib/commons/list/list.c. Nodes live in an
    arena: node `k` stores `data[k]`, its successor `next[k]` and its
    predecessor `prev[k]` (`Null` past either end). Elements are compared by
    equality, which stands for the pointer comparison of the source. */
module Lists {
  import opened Common

  /** The sequence `s` without its first occurrence of `x`. */
  function RemoveFirst<T(==)>(s: seq<T>, x: T): seq<T>
  {
    if s == [] then []
    else if s[0] == x then s[1..]
    else [s[0]] + RemoveFirst(s[1..], x)
  }

  /** Removing the first occurrence takes exactly one `x` away, and changes
      nothing when there is none. */
  lemma {:induction false} RemoveFirstRemovesOne<T>(s: seq<T>, x: T)
    ensures multiset(RemoveFirst(s, x)) == multiset(s) - multiset{x}
    ensures x in s ==> |RemoveFirst(s, x)| == |s| - 1
    ensures x !in s ==> RemoveFirst(s, x) == s
  {
    if s != [] {
      assert s == [s[0]] + s[1..];
      if s[0] != x {
        RemoveFirstRemovesOne(s[1..], x);
        assert multiset(s) - multiset{x} == multiset{s[0]} + (multiset(s[1..]) - multiset{x});
      }
    }
  }

  /** The node handles `order` form a doubly linked chain from `head` to
      `tail` through `next` and `prev`, each handle at most once. */
  ghost predicate Linked(order: seq<nat>, next: seq<int>, prev: seq<int>, head: int, tail: int)
  {
    (forall k :: 0 <= k < |order| ==> order[k] < |next| && order[k] < |prev|) &&
    (forall i, j :: 0 <= i < j < |order| ==> order[i] != order[j]) &&
    head == (if order == [] then Null else order[0]) &&
    tail == (if order == [] then Null else order[|order| - 1]) &&
    (forall k {:trigger next[order[k]]} :: 0 <= k < |order| - 1 ==> next[order[k]] == order[k + 1]) &&
    (forall k {:trigger prev[order[k]]} :: 0 < k < |order| ==> prev[order[k]] == order[k - 1]) &&
    (order != [] ==> next[order[|order| - 1]] == Null && prev[order[0]] == Null)
  }

  /** Appending the fresh node `n` the way list_insert_back does extends
      the chain at its tail. */
  lemma AppendKeepsLinked(order: seq<nat>, next: seq<int>, prev: seq<int>, head: int, tail: int, n: nat,
                          next': seq<int>, prev': seq<int>, head': int, tail': int)
    requires Linked(order, next, prev, head, tail) && n == |next| == |prev|
    requires tail < |next|
    requires next' == (if tail != Null then (next + [Null])[tail := n] else next + [Null])
    requires prev' == prev + [tail]
    requires head' == (if head == Null then n else head) && tail' == n
    ensures Linked(order + [n], next', prev', head', tail')
  {
    var o := order + [n];
    forall k | 0 <= k < |o| - 1
      ensures next'[o[k]] == o[k + 1]
    {
      if k < |order| - 1 {
        assert order[k] != order[|order| - 1];
      }
    }
  }

  /** Prepending the fresh node `n` the way list_insert_front does extends
      the chain at its head. */
  lemma PrependKeepsLinked(order: seq<nat>, next: seq<int>, prev: seq<int>, head: int, tail: int, n: nat,
                           next': seq<int>, prev': seq<int>, head': int, tail': int)
    requires Linked(order, next, prev, head, tail) && n == |next| == |prev|
    requires head < |prev|
    requires next' == next + [head]
    requires prev' == (if head != Null then (prev + [Null])[head := n] else prev + [Null])
    requires tail' == (if tail == Null then n else tail) && head' == n
    ensures Linked([n] + order, next', prev', head', tail')
  {
    var o := [n] + order;
    forall k | 0 < k < |o|
      ensures prev'[o[k]] == o[k - 1]
    {
      if k > 1 {
        assert order[k - 1] != order[0];
      }
    }
  }

  /** The handles of `order` with position `k` cut out. */
  lemma CutIndices<T>(s: seq<T>, k: nat, o: seq<T>)
    requires k < |s| && o == s[..k] + s[k + 1..]
    ensures |o| == |s| - 1
    ensures forall i :: 0 <= i < |o| ==> o[i] == if i < k then s[i] else s[i + 1]
  {
  }

  /** Cutting position `k` out of a sequence of distinct handles leaves them
      distinct. */
  lemma CutDistinct(order: seq<nat>, k: nat, o: seq<nat>)
    requires k < |order| && o == order[..k] + order[k + 1..]
    requires forall i, j :: 0 <= i < j < |order| ==> order[i] != order[j]
    ensures forall i, j :: 0 <= i < j < |o| ==> o[i] != o[j]
  {
    CutIndices(order, k, o);
    forall i, j | 0 <= i < j < |o|
      ensures o[i] != o[j]
    {
      var i0 := if i < k then i else i + 1;
      var j0 := if j < k then j else j + 1;
      assert o[i] == order[i0] && o[j] == order[j0] && i0 < j0;
    }
  }

  /** Unlinking the node at position `k` the way list_remove does (its
      predecessor `p` skips to its successor `q`, or the head moves; `q`
      points back to `p`, or the tail moves) leaves the chain without it. */
  lemma UnlinkKeepsLinked(order: seq<nat>, next: seq<int>, prev: seq<int>, head: int, tail: int, k: nat,
                          p: int, q: int, o: seq<nat>, next': seq<int>, prev': seq<int>, head': int, tail': int)
    requires Linked(order, next, prev, head, tail) && k < |order|
    requires o == order[..k] + order[k + 1..]
    requires p == (if k == 0 then Null else order[k - 1])
    requires q == (if k == |order| - 1 then Null else order[k + 1])
    requires next' == (if p != Null then next[p := q] else next)
    requires head' == (if p != Null then head else q)
    requires prev' == (if q != Null then prev[q := p] else prev)
    requires tail' == (if q != Null then tail else p)
    ensures Linked(o, next', prev', head', tail')
  {
    CutIndices(order, k, o);
    CutDistinct(order, k, o);
    forall i | 0 <= i < |o| - 1
      ensures next'[o[i]] == o[i + 1]
    {
      if i < k - 1 {
        assert order[i] != order[k - 1];
      } else if i >= k && k > 0 {
        assert order[i + 1] != order[k - 1];
      }
    }
    forall i | 0 < i < |o|
      ensures prev'[o[i]] == o[i - 1]
    {
      if i < k && k + 1 < |order| {
        assert order[i] != order[k + 1];
      } else if i > k && k + 1 < |order| {
        assert order[i + 1] != order[k + 1];
      }
    }
    if 0 < k < |order| - 1 {
      assert order[|order| - 1] != order[k - 1];
      assert order[0] != order[k + 1];
    }
  }

  /** Node `order[k]` of the arena `data` holds the `k`-th element. */
  ghost predicate Stored<T>(order: seq<nat>, data: seq<T>, contents: seq<T>)
  {
    |order| == |contents| &&
    forall k :: 0 <= k < |order| ==> order[k] < |data| && data[order[k]] == contents[k]
  }

  /** Cutting the same position out of the handles and the elements keeps
      them in step. */
  lemma CutStored<T>(order: seq<nat>, data: seq<T>, contents: seq<T>, k: nat, o: seq<nat>, c: seq<T>)
    requires Stored(order, data, contents) && k < |order|
    requires o == order[..k] + order[k + 1..] && c == contents[..k] + contents[k + 1..]
    ensures Stored(o, data, c)
  {
    CutIndices(order, k, o);
    CutIndices(contents, k, c);
  }

  /** Removing the first occurrence of `x`, found at position `k`, cuts out
      exactly that position. */
  lemma {:induction false} RemoveFirstAt<T>(s: seq<T>, k: nat, x: T)
    requires k < |s| && s[k] == x && x !in s[..k]
    ensures RemoveFirst(s, x) == s[..k] + s[k + 1..]
  {
    if k > 0 {
      assert s[..k] == [s[0]] + s[1..k];
      assert s[1..][..k - 1] == s[1..k];
      RemoveFirstAt(s[1..], k - 1, x);
      assert s[1..][k..] == s[k + 1..];
    }
  }

  class List<T(==)> {
    var data: seq<T>
    var next: seq<int>
    var prev: seq<int>
    var head: int
    var tail: int
    var size: int
    /** The elements from head to tail. */
    ghost var Contents: seq<T>
    /** The node handles from head to tail. */
    ghost var order: seq<nat>

    ghost predicate Valid()
      reads this
    {
      |next| == |prev| == |data| &&
      |order| == size &&
      Stored(order, data, Contents) &&
      Linked(order, next, prev, head, tail)
    }

    /** list_create: an empty list. */
    constructor ()
      ensures Valid() && Contents == []
    {
      data, next, prev := [], [], [];
      head, tail, size := Null, Null, 0;
      Contents, order := [], [];
    }

    /** list_insert_back: the new node becomes the tail. */
    method InsertBack(x: T) returns (ok: bool)
      requires Valid()
      modifies this
      ensures Valid() && ok
      ensures Contents == old(Contents) + [x] && size == old(size) + 1
    {
      var n := |data|;
      ghost var next0, prev0, head0, tail0 := next, prev, head, tail;
      assert tail < |next|;
      data, next, prev := data + [x], next + [Null], prev + [tail];
      if tail != Null {
        next := next[tail := n];
      }
      tail := n;
      if head == Null {
        head := n;
      }
      AppendKeepsLinked(order, next0, prev0, head0, tail0, n, next, prev, head, tail);
      size := size + 1;
      Contents, order := Contents + [x], order + [n];
      ok := true;
    }

    /** list_insert_front: the new node becomes the head. */
    method InsertFront(x: T) returns (ok: bool)
      requires Valid()
      modifies this
      ensures Valid() && ok
      ensures Contents == [x] + old(Contents) && size == old(size) + 1
    {
      var n := |data|;
      ghost var next0, prev0, head0, tail0 := next, prev, head, tail;
      assert head < |prev|;
      data, next, prev := data + [x], next + [head], prev + [Null];
      if head != Null {
        prev := prev[head := n];
      }
      head := n;
      if tail == Null {
        tail := n;
      }
      PrependKeepsLinked(order, next0, prev0, head0, tail0, n, next, prev, head, tail);
      size := size + 1;
      Contents, order := [x] + Contents, [n] + order;
      ok := true;
    }

    /** The walk of list_remove: the first node, from the head, holding `x`,
        with its position `k`, or NULL when no node holds it. */
    method Find(x: T) returns (current: int, ghost k: nat)
      requires Valid()
      ensures current == Null <==> x !in Contents
      ensures current != Null ==>
        k < |order| && current == order[k] && Contents[k] == x && x !in Contents[..k]
    {
      current, k := head, 0;
      while current != Null && data[current] != x
        invariant 0 <= k <= |order|
        invariant current == if k < |order| then order[k] else Null
        invariant x !in Contents[..k]
        decreases |order| - k
      {
        current := next[current];
        k := k + 1;
      }
      if current == Null {
        assert Contents[..k] == Contents;
      }
    }

    /** The unlinking step of list_remove: the node at position `k` is cut
        out of the chain; its predecessor and successor are joined, or the
        head or tail moves past it. */
    method Unlink(ghost k: nat, current: int)
      requires Valid() && k < |order| && current == order[k]
      modifies this
      ensures Valid()
      ensures Contents == old(Contents[..k] + Contents[k + 1..]) && size == old(size) - 1
    {
      var p, q := prev[current], next[current];
      assert p == if k == 0 then Null else order[k - 1];
      assert q == if k == |order| - 1 then Null else order[k + 1];
      var next', prev', head', tail' := next, prev, head, tail;
      if p != Null {
        next' := next'[p := q];
      } else {
        head' := q;
      }
      if q != Null {
        prev' := prev'[q := p];
      } else {
        tail' := p;
      }
      ghost var o, c := order[..k] + order[k + 1..], Contents[..k] + Contents[k + 1..];
      UnlinkKeepsLinked(order, next, prev, head, tail, k, p, q, o, next', prev', head', tail');
      CutStored(order, data, Contents, k, o, c);
      next, prev, head, tail, size := next', prev', head', tail', size - 1;
      Contents, order := c, o;
    }

    /** list_remove: unlinks the first node holding `x`; reports whether
        there was one. */
    method Remove(x: T) returns (removed: bool)
      requires Valid()
      modifies this
      ensures Valid()
      ensures removed <==> x in old(Contents)
      ensures Contents == RemoveFirst(old(Contents), x)
      ensures size == |Contents|
    {
      var current, k := Find(x);
      if current == Null {
        RemoveFirstRemovesOne(Contents, x);
        return false;
      }
      RemoveFirstAt(Contents, k, x);
      Unlink(k, current);
      removed := true;
    }

    /** list_get: the element at `index`, or NULL when `index` is negative or
        not below the size. */
    method Get(index: int) returns (r: Option<T>)
      requires Valid()
      ensures r == if 0 <= index < |Contents| then Some(Contents[index]) else None
    {
      if index < 0 || index >= size {
        return None;
      }
      var current := head;
      var i := 0;
      while i < index
        invariant 0 <= i <= index < |order|
        invariant current == order[i]
      {
        current := next[current];
        i := i + 1;
      }
      r := Some(data[current]);
    }

    /** list_get_first: the head element, or NULL. */
    method GetFirst() returns (r: Option<T>)
      requires Valid()
      ensures r == if Contents == [] then None else Some(Contents[0])
    {
      if head == Null {
        return None;
      }
      r := Some(data[head]);
    }

    /** list_get_last: the tail element, or NULL. */
    method GetLast() returns (r: Option<T>)
      requires Valid()
      ensures r == if Contents == [] then None else Some(Contents[|Contents| - 1])
    {
      if tail == Null {
        return None;
      }
      r := Some(data[tail]);
    }

    /** list_size. */
    function Size(): (n: int)
      reads this
      requires Valid()
      ensures n == |Contents|
    {
      size
    }

    /** list_is_empty: the size is zero. */
    function IsEmpty(): (e: bool)
      reads this
      requires Valid()
      ensures e <==> Contents == []
    {
      size == 0
    }

    /** list_clear: every node is released and the list is empty again. */
    method Clear()
      requires Valid()
      modifies this
      ensures Valid() && Contents == [] && size == 0
    {
      head, tail, size := Null, Null, 0;
      Contents, order := [], [];
    }
  }
}
