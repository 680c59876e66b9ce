/** The shape registry of src/lib/city/city.c. Shapes are records the
    program allocates and then refers to by pointer; the model keeps every
    allocated record in the city's `heap` and refers to it by its index, with
    `Null` for a NULL pointer. The registry keeps the shapes in insertion
    order twice (`shapes` for lookups and queries, `svg` for drawing) and
    pushes every added shape onto `cleanup`, from which they are freed at the
    end. */
module Cities {
  import opened Common
  import opened Shapes
  import Lists
  import Stacks

  /** The id a shape carries; a text style has none. */
  function ShapeId(s: Shape): (r: Option<int>)
    ensures r.None? <==> s.TextStyle?
  {
    match s
    case Circle(id, _, _, _, _, _) => Some(id)
    case Rectangle(id, _, _, _, _, _, _) => Some(id)
    case Line(id, _, _, _, _, _, _) => Some(id)
    case Text(id, _, _, _, _, _, _) => Some(id)
    case TextStyle(_, _, _) => None
  }

  /** The id behind handle `h`; NULL and dangling handles have none. */
  function IdAt(heap: seq<Shape>, h: int): Option<int>
  {
    if 0 <= h < |heap| then ShapeId(heap[h]) else None
  }

  /** The position of the first handle of `hs` whose shape has id `id`
      (|hs| when there is none). */
  function FirstWithId(heap: seq<Shape>, hs: seq<int>, id: int): (k: nat)
    ensures k <= |hs|
    ensures forall j :: 0 <= j < k ==> IdAt(heap, hs[j]) != Some(id)
    ensures k < |hs| ==> IdAt(heap, hs[k]) == Some(id)
  {
    if hs == [] then 0
    else if IdAt(heap, hs[0]) == Some(id) then 0
    else 1 + FirstWithId(heap, hs[1..], id)
  }

  /** The shape city_get_shape_by_id returns: the first with the id, or NULL. */
  function FindById(heap: seq<Shape>, hs: seq<int>, id: int): int
  {
    var k := FirstWithId(heap, hs, id);
    if k < |hs| then hs[k] else Null
  }

  /** The lookup finds nothing exactly when no shape of `hs` has the id, and
      what it finds is a listed shape with that id. */
  lemma FindByIdMeaning(heap: seq<Shape>, hs: seq<int>, id: int)
    ensures FindById(heap, hs, id) == Null <==> forall j :: 0 <= j < |hs| ==> IdAt(heap, hs[j]) != Some(id)
    ensures FindById(heap, hs, id) != Null ==>
      FindById(heap, hs, id) in hs && IdAt(heap, FindById(heap, hs, id)) == Some(id)
  {
    var k := FirstWithId(heap, hs, id);
    if k < |hs| {
      assert IdAt(heap, hs[k]) == Some(id);
      assert hs[k] != Null;
    }
  }

  /** The lookup sees only the ids of the listed shapes: a heap that keeps
      them gives the same answer. */
  lemma {:induction false} FirstWithIdSameIds(heap: seq<Shape>, heap': seq<Shape>, hs: seq<int>, id: int)
    requires forall j :: 0 <= j < |hs| ==> IdAt(heap, hs[j]) == IdAt(heap', hs[j])
    ensures FirstWithId(heap, hs, id) == FirstWithId(heap', hs, id)
  {
    if hs != [] {
      FirstWithIdSameIds(heap, heap', hs[1..], id);
    }
  }

  /** The handles of `hs`, in order, whose shapes satisfy `p`; NULL handles
      are skipped. */
  function Select(heap: seq<Shape>, hs: seq<int>, p: Shape -> bool): seq<int>
  {
    if hs == [] then []
    else
      var last := hs[|hs| - 1];
      Select(heap, hs[..|hs| - 1], p) + (if 0 <= last < |heap| && p(heap[last]) then [last] else [])
  }

  /** The selection holds exactly the listed handles whose shapes satisfy
      `p`, and no more of them than there are. */
  lemma {:induction false} SelectMembers(heap: seq<Shape>, hs: seq<int>, p: Shape -> bool)
    ensures |Select(heap, hs, p)| <= |hs|
    ensures forall h :: h in Select(heap, hs, p) <==> h in hs && 0 <= h < |heap| && p(heap[h])
  {
    if hs != [] {
      var init := hs[..|hs| - 1];
      SelectMembers(heap, init, p);
      assert hs == init + [hs[|hs| - 1]];
    }
  }

  /** Selecting from a concatenation selects from each part in turn, so
      the selection keeps the order of `hs`. */
  lemma {:induction false} SelectAppend(heap: seq<Shape>, a: seq<int>, b: seq<int>, p: Shape -> bool)
    ensures Select(heap, a + b, p) == Select(heap, a, p) + Select(heap, b, p)
    decreases |b|
  {
    if b != [] {
      var b' := b[..|b| - 1];
      assert (a + b)[..|a + b| - 1] == a + b';
      var last := b[|b| - 1];
      assert (a + b)[|a + b| - 1] == last;
      var tail := if 0 <= last < |heap| && p(heap[last]) then [last] else [];
      assert Select(heap, a + b, p) == Select(heap, a + b', p) + tail;
      assert Select(heap, b, p) == Select(heap, b', p) + tail;
      SelectAppend(heap, a, b', p);
    } else {
      assert a + b == a;
    }
  }

  /** One more handle considered by the selection loop. */
  lemma SelectStep(heap: seq<Shape>, hs: seq<int>, i: nat, p: Shape -> bool)
    requires i < |hs|
    ensures Select(heap, hs[..i + 1], p) ==
      Select(heap, hs[..i], p) + (if 0 <= hs[i] < |heap| && p(heap[hs[i]]) then [hs[i]] else [])
  {
    assert hs[..i + 1][..i] == hs[..i];
  }

  /** Removing an element keeps only elements that were there. */
  lemma {:induction false} RemoveFirstKeeps(s: seq<int>, x: int)
    ensures forall g :: g in Lists.RemoveFirst(s, x) ==> g in s
  {
    if s != [] && s[0] != x {
      RemoveFirstKeeps(s[1..], x);
    }
  }

  /** The rectangle a shape occupies, as city_get_bounding_box measures it. */
  datatype Box = Box(x1: real, y1: real, x2: real, y2: real)

  /** The extent of one shape: a circle's enclosing square, a rectangle from
      its corner, a line's end points sorted, and a text as a flat span of
      ten units per byte of its UTF-8 text placed by its anchor; a text
      style has none. */
  function Extent(s: Shape): Option<Box>
  {
    match s
    case Circle(_, x, y, r, _, _) => Some(Box(x - r, y - r, x + r, y + r))
    case Rectangle(_, x, y, w, h, _, _) => Some(Box(x, y, x + w, y + h))
    case Line(_, lx1, ly1, lx2, ly2, _, _) =>
      Some(Box(if lx1 < lx2 then lx1 else lx2, if ly1 < ly2 then ly1 else ly2,
               if lx1 > lx2 then lx1 else lx2, if ly1 > ly2 then ly1 else ly2))
    case Text(_, x, y, _, _, anchor, text) =>
      var width := 10.0 * (Utf8Length(text) as real);
      if anchor == 'i' || anchor == 'I' then Some(Box(x, y, x + width, y))
      else if anchor == 'm' || anchor == 'M' then Some(Box(x - width / 2.0, y, x + width / 2.0, y))
      else Some(Box(x - width, y, x, y))
    case TextStyle(_, _, _) => None
  }

  function ExtentAt(heap: seq<Shape>, h: int): Option<Box>
  {
    if 0 <= h < |heap| then Extent(heap[h]) else None
  }

  /** One step of the min/max loop: a box widened to take in `e`. */
  function Widen(acc: Option<Box>, e: Option<Box>): Option<Box>
  {
    match (acc, e)
    case (_, None) => acc
    case (None, Some(b)) => e
    case (Some(a), Some(b)) =>
      Some(Box(if b.x1 < a.x1 then b.x1 else a.x1, if b.y1 < a.y1 then b.y1 else a.y1,
               if b.x2 > a.x2 then b.x2 else a.x2, if b.y2 > a.y2 then b.y2 else a.y2))
  }

  /** The box the loop has gathered after the handles `hs`, none while no
      shape has contributed. */
  function Cover(heap: seq<Shape>, hs: seq<int>): Option<Box>
  {
    if hs == [] then None
    else Widen(Cover(heap, hs[..|hs| - 1]), ExtentAt(heap, hs[|hs| - 1]))
  }

  /** The box city_get_bounding_box reports: the gathered one, or
      (0, 0, 1000, 1000) when nothing contributed. */
  function BoundingBox(heap: seq<Shape>, hs: seq<int>): Box
  {
    match Cover(heap, hs)
    case None => Box(0.0, 0.0, 1000.0, 1000.0)
    case Some(b) => b
  }

  predicate Inside(e: Box, b: Box)
  {
    b.x1 <= e.x1 && b.y1 <= e.y1 && e.x2 <= b.x2 && e.y2 <= b.y2
  }

  /** The gathered box exists exactly when some shape has an extent, holds
      every extent, and each of its sides is a side of some extent. */
  lemma {:induction false} CoverIsTight(heap: seq<Shape>, hs: seq<int>)
    ensures Cover(heap, hs).None? <==> forall k :: 0 <= k < |hs| ==> ExtentAt(heap, hs[k]).None?
    ensures Cover(heap, hs).Some? ==> var b := Cover(heap, hs).value;
      (forall k :: 0 <= k < |hs| && ExtentAt(heap, hs[k]).Some? ==> Inside(ExtentAt(heap, hs[k]).value, b)) &&
      (exists k :: 0 <= k < |hs| && ExtentAt(heap, hs[k]).Some? && ExtentAt(heap, hs[k]).value.x1 == b.x1) &&
      (exists k :: 0 <= k < |hs| && ExtentAt(heap, hs[k]).Some? && ExtentAt(heap, hs[k]).value.y1 == b.y1) &&
      (exists k :: 0 <= k < |hs| && ExtentAt(heap, hs[k]).Some? && ExtentAt(heap, hs[k]).value.x2 == b.x2) &&
      (exists k :: 0 <= k < |hs| && ExtentAt(heap, hs[k]).Some? && ExtentAt(heap, hs[k]).value.y2 == b.y2)
  {
    if hs != [] {
      var n := |hs| - 1;
      var init := hs[..n];
      CoverIsTight(heap, init);
      assert forall k :: 0 <= k < n ==> init[k] == hs[k];
      var e := ExtentAt(heap, hs[n]);
      if Cover(heap, init).Some? && e.Some? {
        var a, b := Cover(heap, init).value, Cover(heap, hs).value;
        var k1 :| 0 <= k1 < n && ExtentAt(heap, init[k1]).Some? && ExtentAt(heap, init[k1]).value.x1 == a.x1;
        var k2 :| 0 <= k2 < n && ExtentAt(heap, init[k2]).Some? && ExtentAt(heap, init[k2]).value.y1 == a.y1;
        var k3 :| 0 <= k3 < n && ExtentAt(heap, init[k3]).Some? && ExtentAt(heap, init[k3]).value.x2 == a.x2;
        var k4 :| 0 <= k4 < n && ExtentAt(heap, init[k4]).Some? && ExtentAt(heap, init[k4]).value.y2 == a.y2;
        var w1 := if e.value.x1 < a.x1 then n else k1;
        var w2 := if e.value.y1 < a.y1 then n else k2;
        var w3 := if e.value.x2 > a.x2 then n else k3;
        var w4 := if e.value.y2 > a.y2 then n else k4;
        assert ExtentAt(heap, hs[w1]).value.x1 == b.x1;
        assert ExtentAt(heap, hs[w2]).value.y1 == b.y1;
        assert ExtentAt(heap, hs[w3]).value.x2 == b.x2;
        assert ExtentAt(heap, hs[w4]).value.y2 == b.y2;
      } else if e.Some? {
        assert ExtentAt(heap, hs[n]).value == Cover(heap, hs).value;
      }
    }
  }

  /** Every extent has its low corner at or below its high corner, so a
      box gathered from shapes is never inverted. */
  lemma ExtentOrdered(s: Shape)
    requires s.Circle? ==> s.radius >= 0.0
    requires s.Rectangle? ==> s.width >= 0.0 && s.height >= 0.0
    ensures Extent(s).Some? ==> Extent(s).value.x1 <= Extent(s).value.x2 && Extent(s).value.y1 <= Extent(s).value.y2
  {
  }

  /** A text whose anchor is neither 'i'/'I' nor 'm'/'M' ends at its
      position, whatever the anchor is. */
  lemma TextExtentAnchors(id: int, x: real, y: real, border: string, fill: string, anchor: char, text: string)
    ensures var w := 10.0 * (Utf8Length(text) as real);
      var e := Extent(Text(id, x, y, border, fill, anchor, text)).value;
      e.y1 == e.y2 == y && e.x2 - e.x1 == w &&
      ((anchor == 'i' || anchor == 'I') ==> e.x1 == x) &&
      ((anchor == 'm' || anchor == 'M') ==> e.x1 + e.x2 == 2.0 * x) &&
      (anchor !in "iImM" ==> e.x2 == x)
  {
  }

  /** The width counts bytes: "ação" anchored at 0 by 'i' spans 0 to 60,
      two bytes for each of its accented letters. */
  lemma TextExtentCountsBytes()
    ensures Extent(Text(1, 0.0, 5.0, "black", "white", 'i', "ação")) == Some(Box(0.0, 5.0, 60.0, 5.0))
  {
    Utf8LengthExample();
  }

  class City {
    /** Every shape record allocated so far, by handle. */
    var heap: seq<Shape>
    const shapes: Lists.List<int>
    const svg: Lists.List<int>
    const cleanup: Stacks.Stack<int>
    var nextId: int

    /** Handles that are NULL or name an allocated record. */
    ghost predicate Handles(hs: seq<int>)
      reads this
    {
      forall h :: h in hs ==> h == Null || 0 <= h < |heap|
    }

    ghost predicate Valid()
      reads this, shapes, svg, cleanup
    {
      shapes != svg && shapes.Valid() && svg.Valid() && cleanup.Valid() && nextId >= 1 &&
      Handles(shapes.Contents) && Handles(svg.Contents) && Handles(cleanup.Contents)
    }

    /** city_create: three empty containers and the id counter at 1. */
    constructor ()
      ensures Valid() && heap == [] && nextId == 1
      ensures shapes.Contents == [] && svg.Contents == [] && cleanup.Contents == []
    {
      heap := [];
      shapes := new Lists.List<int>();
      svg := new Lists.List<int>();
      cleanup := new Stacks.Stack<int>();
      nextId := 1;
    }

    /** A shape constructor (circle_create, line_create, ...): a new record,
        not yet in the city. */
    method Allocate(s: Shape) returns (h: int)
      requires Valid()
      modifies this
      ensures Valid() && h == |old(heap)| && heap == old(heap) + [s] && nextId == old(nextId)
    {
      h := |heap|;
      heap := heap + [s];
    }

    /** line_set_barrier(line, true) on the record behind `h`. */
    method SetBarrier(h: int)
      requires Valid() && 0 <= h < |heap|
      modifies this
      ensures Valid() && heap == old(heap)[h := MarkBarrier(old(heap)[h])] && nextId == old(nextId)
    {
      heap := heap[h := MarkBarrier(heap[h])];
    }

    /** city_add_shape: appended to both lists and pushed for clean-up. */
    method AddShape(h: int)
      requires Valid() && (h == Null || 0 <= h < |heap|)
      modifies shapes, svg, cleanup
      ensures Valid()
      ensures shapes.Contents == old(shapes.Contents) + [h]
      ensures svg.Contents == old(svg.Contents) + [h]
      ensures cleanup.Contents == [h] + old(cleanup.Contents)
    {
      var _ := shapes.InsertBack(h);
      var _ := cleanup.Push(h);
      var _ := svg.InsertBack(h);
    }

    /** city_remove_shape: the first occurrence leaves both lists, the
        clean-up stack keeps it, and the result says whether it was in the
        shapes list; a NULL shape changes nothing. */
    method RemoveShape(h: int) returns (removed: bool)
      requires Valid()
      modifies shapes, svg
      ensures Valid()
      ensures removed <==> h != Null && h in old(shapes.Contents)
      ensures shapes.Contents == (if h == Null then old(shapes.Contents) else Lists.RemoveFirst(old(shapes.Contents), h))
      ensures svg.Contents == (if h == Null then old(svg.Contents) else Lists.RemoveFirst(old(svg.Contents), h))
    {
      if h == Null {
        return false;
      }
      RemoveFirstKeeps(shapes.Contents, h);
      RemoveFirstKeeps(svg.Contents, h);
      removed := shapes.Remove(h);
      var _ := svg.Remove(h);
    }

    /** city_get_next_id: the counter, which then moves on by one. */
    method GetNextId() returns (id: int)
      requires Valid()
      modifies this
      ensures Valid() && heap == old(heap)
      ensures id == old(nextId) && nextId == id + 1
    {
      id := nextId;
      nextId := nextId + 1;
    }

    /** city_update_max_id: the counter is raised past `id`, never lowered. */
    method UpdateMaxId(id: int)
      requires Valid()
      modifies this
      ensures Valid() && heap == old(heap)
      ensures nextId == (if id >= old(nextId) then id + 1 else old(nextId))
      ensures nextId > id && nextId >= old(nextId)
    {
      if id >= nextId {
        nextId := id + 1;
      }
    }

    /** city_get_shape_by_id: the first listed shape carrying `id`, NULL
        when there is none; NULL entries and text styles never match. */
    method GetShapeById(id: int) returns (h: int)
      requires Valid()
      ensures h == FindById(heap, shapes.Contents, id)
    {
      var n := shapes.Size();
      var i := 0;
      while i < n
        invariant 0 <= i <= n && n == |shapes.Contents|
        invariant forall j :: 0 <= j < i ==> IdAt(heap, shapes.Contents[j]) != Some(id)
      {
        var s := shapes.Get(i);
        var g := s.value;
        assert g in shapes.Contents;
        if g != Null {
          var shapeId := ShapeId(heap[g]);
          if shapeId.Some? && shapeId.value == id {
            FirstAt(shapes.Contents, id, i);
            return g;
          }
        }
        i := i + 1;
      }
      FirstAt(shapes.Contents, id, n);
      return Null;
    }

    /** The lookup from position `i` when no earlier shape matches. */
    lemma {:induction false} FirstAt(hs: seq<int>, id: int, i: nat)
      requires i <= |hs| && forall j :: 0 <= j < i ==> IdAt(heap, hs[j]) != Some(id)
      requires i < |hs| ==> IdAt(heap, hs[i]) == Some(id)
      ensures FirstWithId(heap, hs, id) == i
    {
      if i > 0 {
        assert IdAt(heap, hs[0]) != Some(id);
        FirstAt(hs[1..], id, i - 1);
      }
    }

    /** city_get_barriers: a new list of the listed lines flagged as
        barriers, in list order. */
    method GetBarriers() returns (b: Lists.List<int>)
      requires Valid()
      ensures fresh(b) && b.Valid()
      ensures b.Contents == Select(heap, shapes.Contents, IsBarrier)
    {
      b := new Lists.List<int>();
      ghost var hs := shapes.Contents;
      var n := shapes.Size();
      for i := 0 to n
        modifies b
        invariant b.Valid() && n == |hs|
        invariant b.Contents == Select(heap, hs[..i], IsBarrier)
      {
        var s := shapes.Get(i);
        var g := s.value;
        assert g == hs[i] && g in hs;
        SelectStep(heap, hs, i, IsBarrier);
        if g != Null && IsBarrier(heap[g]) {
          var _ := b.InsertBack(g);
        }
      }
      assert hs[..n] == hs;
    }

    /** city_get_bounding_box: the min/max over the extents in the drawing
        list, or (0, 0, 1000, 1000) when the list is empty or no shape
        contributes. */
    method GetBoundingBox() returns (minX: real, minY: real, maxX: real, maxY: real)
      requires Valid()
      ensures Box(minX, minY, maxX, maxY) == BoundingBox(heap, svg.Contents)
    {
      var n := svg.Size();
      if n == 0 {
        return 0.0, 0.0, 1000.0, 1000.0;
      }
      var found := false;
      minX, minY, maxX, maxY := 0.0, 0.0, 0.0, 0.0;
      for i := 0 to n
        invariant n == |svg.Contents|
        invariant found <==> Cover(heap, svg.Contents[..i]).Some?
        invariant found ==> Cover(heap, svg.Contents[..i]).value == Box(minX, minY, maxX, maxY)
      {
        var s := svg.Get(i);
        var g := s.value;
        assert g in svg.Contents;
        assert svg.Contents[..i + 1][..i] == svg.Contents[..i];
        if g == Null {
          continue;
        }
        var e := Extent(heap[g]);
        if e.None? {
          continue;
        }
        var x1, y1, x2, y2 := e.value.x1, e.value.y1, e.value.x2, e.value.y2;
        if !found || x1 < minX {
          minX := x1;
        }
        if !found || y1 < minY {
          minY := y1;
        }
        if !found || x2 > maxX {
          maxX := x2;
        }
        if !found || y2 > maxY {
          maxY := y2;
        }
        found := true;
      }
      assert svg.Contents[..n] == svg.Contents;
      if !found {
        minX, minY, maxX, maxY := 0.0, 0.0, 1000.0, 1000.0;
      }
    }
  }

  /** Two successive ids from the counter are increasing, and an id taken
      after city_update_max_id(id) is above `id`. */
  method IdsIncrease(c: City, id: int) returns (a: int, b: int)
    requires c.Valid()
    modifies c
    ensures c.Valid() && a > id && b == a + 1
  {
    c.UpdateMaxId(id);
    a := c.GetNextId();
    b := c.GetNextId();
  }
}
