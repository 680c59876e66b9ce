/** The city-editing commands of src/lib/qry_handler/qry_handler.c: the
    "anteparo" command, which turns the shapes in an id range into barrier
    segments, the cloning of the shapes a bomb reaches, and the two point
    tests used by the bomb commands. Which shapes a bomb reaches depends on
    its visibility region; here it is a predicate given by the caller. */
module Query {
  import opened Common
  import opened Shapes
  import opened Cities
  import Lists
  import Geometry
  import Sorting

  /** The orientation token of the command: its first character, 'h'
      when the token is missing. */
  function Orientation(token: Option<string>): (o: char)
    requires token.Some? ==> |token.value| > 0
    ensures token.None? ==> o == 'h'
    ensures token.Some? ==> o == token.value[0]
  {
    if token.Some? then token.value[0] else 'h'
  }

  predicate Vertical(orient: char)
  {
    orient == 'v' || orient == 'V'
  }

  /** The segment a circle becomes: its vertical diameter for 'v'/'V', its
      horizontal one for any other orientation, in the border colour. */
  function CircleSegment(s: Shape, id: int, orient: char): Shape
    requires s.Circle?
  {
    if Vertical(orient) then NewLine(id, s.x, s.y - s.radius, s.x, s.y + s.radius, s.border)
    else NewLine(id, s.x - s.radius, s.y, s.x + s.radius, s.y, s.border)
  }

  /** The four sides of a rectangle, in the order bottom, right, top, left
      of its corner (x, y), with ids `ids`. */
  function RectangleSides(s: Shape, ids: seq<int>): (r: seq<Shape>)
    requires s.Rectangle? && |ids| == 4
    ensures |r| == 4
  {
    var x, y, w, h := s.x, s.y, s.width, s.height;
    [NewLine(ids[0], x, y, x + w, y, s.border),
     NewLine(ids[1], x + w, y, x + w, y + h, s.border),
     NewLine(ids[2], x + w, y + h, x, y + h, s.border),
     NewLine(ids[3], x, y + h, x, y, s.border)]
  }

  /** The segment a text becomes: ten units per byte of its UTF-8 text at
      the height of the text, starting at x for 'i'/'I', ending at x for 'f'/'F' and
      centred on x otherwise. */
  function TextSegment(s: Shape, id: int): Shape
    requires s.Text?
  {
    var len := Utf8Length(s.text) as real;
    if s.anchor == 'i' || s.anchor == 'I' then NewLine(id, s.x, s.y, s.x + 10.0 * len, s.y, s.border)
    else if s.anchor == 'f' || s.anchor == 'F' then NewLine(id, s.x - 10.0 * len, s.y, s.x, s.y, s.border)
    else NewLine(id, s.x - 10.0 * len / 2.0, s.y, s.x + 10.0 * len / 2.0, s.y, s.border)
  }

  /** The barrier segments the command adds for one shape, numbered from
      `next`: lines (which stay) and text styles give none. */
  function Segments(s: Shape, orient: char, next: int): seq<Shape>
  {
    match s
    case Circle(_, _, _, _, _, _) => [MarkBarrier(CircleSegment(s, next, orient))]
    case Rectangle(_, _, _, _, _, _, _) =>
      MarkAll(RectangleSides(s, Run(next, 4)))
    case Text(_, _, _, _, _, _, _) => [MarkBarrier(TextSegment(s, next))]
    case _ => []
  }

  /** A circle becomes the diameter of length 2r through its centre, along
      the chosen axis. */
  lemma CircleSegmentIsDiameter(s: Shape, id: int, orient: char)
    requires s.Circle?
    ensures var l := CircleSegment(s, id, orient);
      l.Line? && l.id == id && !l.barrier && l.color == s.border &&
      (l.x1 + l.x2) / 2.0 == s.x && (l.y1 + l.y2) / 2.0 == s.y &&
      (Vertical(orient) ==> l.x1 == l.x2 && l.y2 - l.y1 == 2.0 * s.radius) &&
      (!Vertical(orient) ==> l.y1 == l.y2 && l.x2 - l.x1 == 2.0 * s.radius)
  {
  }

  /** The sides of a rectangle form a closed path from its corner: each
      ends where the next begins and the last returns to (x, y), and the
      path passes through all four corners. */
  lemma RectangleSidesClosed(s: Shape, ids: seq<int>)
    requires s.Rectangle? && |ids| == 4
    ensures var r := RectangleSides(s, ids);
      (forall i :: 0 <= i < 4 ==> r[i].Line? && r[i].id == ids[i] && !r[i].barrier && r[i].color == s.border) &&
      (forall i :: 0 <= i < 4 ==> r[i].x2 == r[(i + 1) % 4].x1 && r[i].y2 == r[(i + 1) % 4].y1) &&
      r[0].x1 == s.x && r[0].y1 == s.y &&
      r[1].x1 == s.x + s.width && r[1].y1 == s.y &&
      r[2].x1 == s.x + s.width && r[2].y1 == s.y + s.height &&
      r[3].x1 == s.x && r[3].y1 == s.y + s.height
  {
    var r := RectangleSides(s, ids);
    assert (0 + 1) % 4 == 1 && (1 + 1) % 4 == 2 && (2 + 1) % 4 == 3 && (3 + 1) % 4 == 0;
  }

  /** A text becomes a horizontal segment at its height, ten units per
      byte of its UTF-8 text long, placed by its anchor. */
  lemma TextSegmentPlacement(s: Shape, id: int)
    requires s.Text?
    ensures var l := TextSegment(s, id);
      l.Line? && l.id == id && !l.barrier && l.color == s.border &&
      l.y1 == l.y2 == s.y && l.x2 - l.x1 == 10.0 * (Utf8Length(s.text) as real) &&
      ((s.anchor == 'i' || s.anchor == 'I') ==> l.x1 == s.x) &&
      ((s.anchor == 'f' || s.anchor == 'F') ==> l.x2 == s.x) &&
      (s.anchor !in "iIfF" ==> l.x1 + l.x2 == 2.0 * s.x)
  {
  }

  /** For the anchors 'i', 'm' and 'f' in either case the text's segment
      covers exactly the span the bounding box gives the text. */
  lemma TextSegmentMatchesExtent(s: Shape, id: int)
    requires s.Text? && s.anchor in "iImMfF"
    ensures var l, e := TextSegment(s, id), Extent(s).value;
      l.x1 == e.x1 && l.x2 == e.x2 && l.y1 == e.y1 && l.y2 == e.y2
  {
  }

  /** Any other anchor is centred by the command but ends at x in the
      bounding box: the text "ab" at 0 with anchor 'x' gives the segment
      from -10 to 10 and the extent from -20 to 0. */
  lemma OtherAnchorsDisagree()
    ensures var s := Text(1, 0.0, 0.0, "black", "white", 'x', "ab");
      TextSegment(s, 2).x1 == -10.0 && TextSegment(s, 2).x2 == 10.0 &&
      Extent(s).value.x1 == -20.0 && Extent(s).value.x2 == 0.0
  {
  }

  /** The removal queue after the ids lo .. hi - 1 have been looked up in
      the shapes `hs`: each shape found is queued, and a line takes itself
      off the queue again (it is only marked as a barrier). */
  function Removed(heap: seq<Shape>, hs: seq<int>, lo: int, hi: int): seq<int>
    decreases hi - lo
  {
    if hi <= lo then []
    else
      var r := Removed(heap, hs, lo, hi - 1);
      var h := FindById(heap, hs, hi - 1);
      if !(0 <= h < |heap|) then r
      else if heap[h].Line? then Lists.RemoveFirst(r + [h], h)
      else r + [h]
  }

  /** The new segments after the ids lo .. hi - 1, numbered from `next`. */
  function Added(heap: seq<Shape>, hs: seq<int>, lo: int, hi: int, orient: char, next: int): seq<Shape>
    decreases hi - lo
  {
    if hi <= lo then []
    else
      var a := Added(heap, hs, lo, hi - 1, orient, next);
      var h := FindById(heap, hs, hi - 1);
      if 0 <= h < |heap| then a + Segments(heap[h], orient, next + |a|) else a
  }

  /** Whether the command marks the line at `h` as a barrier: it is the
      shape found for its own id, inside lo .. hi - 1. */
  predicate MarkedBy(heap: seq<Shape>, hs: seq<int>, lo: int, hi: int, h: int)
  {
    0 <= h < |heap| && heap[h].Line? && lo <= heap[h].id < hi && FindById(heap, hs, heap[h].id) == h
  }

  /** Every new segment is a barrier line, and their ids are consecutive
      from the counter's value. */
  lemma {:induction false} AddedAreBarriers(heap: seq<Shape>, hs: seq<int>, lo: int, hi: int, orient: char, next: int)
    ensures forall k :: 0 <= k < |Added(heap, hs, lo, hi, orient, next)| ==>
      IsBarrier(Added(heap, hs, lo, hi, orient, next)[k]) && Added(heap, hs, lo, hi, orient, next)[k].id == next + k
    decreases hi - lo
  {
    if hi > lo {
      AddedAreBarriers(heap, hs, lo, hi - 1, orient, next);
      var p := Added(heap, hs, lo, hi - 1, orient, next);
      var h := FindById(heap, hs, hi - 1);
      if 0 <= h < |heap| {
        var segs := Segments(heap[h], orient, next + |p|);
        SegmentsAreBarriers(heap[h], orient, next + |p|);
        var a := p + segs;
        assert Added(heap, hs, lo, hi, orient, next) == a;
        forall k | 0 <= k < |a|
          ensures IsBarrier(a[k]) && a[k].id == next + k
        {
          if k >= |p| {
            assert a[k] == segs[k - |p|];
          } else {
            assert a[k] == p[k];
          }
        }
      } else {
        assert Added(heap, hs, lo, hi, orient, next) == p;
      }
    }
  }

  /** The new segments of one shape are barrier lines numbered from
      `next`: none for a line or a text style, one for a circle or a text,
      four for a rectangle. */
  lemma SegmentsAreBarriers(s: Shape, orient: char, next: int)
    ensures var segs := Segments(s, orient, next);
      |segs| == (if s.Rectangle? then 4 else if s.Circle? || s.Text? then 1 else 0) &&
      forall k :: 0 <= k < |segs| ==> segs[k].Line? && segs[k].barrier && segs[k].id == next + k
  {
    if s.Rectangle? {
      var sides := RectangleSides(s, Run(next, 4));
      assert forall k :: 0 <= k < 4 ==> sides[k].Line? && sides[k].id == next + k;
    }
  }

  /** Only listed circles, rectangles and texts with ids in the range are
      removed, each once: lines stay in the city. */
  lemma {:induction false} RemovedShapes(heap: seq<Shape>, hs: seq<int>, lo: int, hi: int)
    ensures var r := Removed(heap, hs, lo, hi);
      (forall h :: h in r ==> h in hs && 0 <= h < |heap| &&
                              (heap[h].Circle? || heap[h].Rectangle? || heap[h].Text?)) &&
      (forall h :: h in r ==> lo <= IdAt(heap, h).value < hi) &&
      (forall i, j :: 0 <= i < j < |r| ==> r[i] != r[j])
    decreases hi - lo
  {
    if hi > lo {
      RemovedShapes(heap, hs, lo, hi - 1);
      var p := Removed(heap, hs, lo, hi - 1);
      var h := FindById(heap, hs, hi - 1);
      FindByIdMeaning(heap, hs, hi - 1);
      if 0 <= h < |heap| {
        assert IdAt(heap, h) == Some(hi - 1);
        assert h !in p;
        if heap[h].Line? {
          RemoveLast(p, h);
        }
      }
    }
  }

  /** Every circle, rectangle and text found for an id in the range is
      removed. */
  lemma {:induction false} RemovedAll(heap: seq<Shape>, hs: seq<int>, lo: int, hi: int, j: int)
    requires lo <= j < hi
    requires 0 <= FindById(heap, hs, j) < |heap| && !heap[FindById(heap, hs, j)].Line?
    ensures FindById(heap, hs, j) in Removed(heap, hs, lo, hi)
    decreases hi - lo
  {
    var h := FindById(heap, hs, j);
    if j < hi - 1 {
      RemovedAll(heap, hs, lo, hi - 1, j);
      RemovedKeeps(heap, hs, lo, hi, h);
    } else {
      RemovedGrows(heap, hs, lo, hi);
    }
  }

  lemma RemovedKeeps(heap: seq<Shape>, hs: seq<int>, lo: int, hi: int, x: int)
    requires lo < hi && x in Removed(heap, hs, lo, hi - 1)
    ensures x in Removed(heap, hs, lo, hi)
  {
    RemovedGrows(heap, hs, lo, hi);
  }

  /** A shape queued for removal stays queued when one more id is looked
      up: a line found takes only itself off the queue, and it was never
      on it. */
  lemma RemovedGrows(heap: seq<Shape>, hs: seq<int>, lo: int, hi: int)
    requires lo < hi
    ensures var p, h := Removed(heap, hs, lo, hi - 1), FindById(heap, hs, hi - 1);
      Removed(heap, hs, lo, hi) == if 0 <= h < |heap| && !heap[h].Line? then p + [h] else p
  {
    var p := Removed(heap, hs, lo, hi - 1);
    var h := FindById(heap, hs, hi - 1);
    if 0 <= h < |heap| && heap[h].Line? {
      RemovedNoLine(heap, hs, lo, hi - 1, h);
      RemoveLast(p, h);
    }
  }

  lemma RemovedNoLine(heap: seq<Shape>, hs: seq<int>, lo: int, hi: int, h: int)
    requires 0 <= h < |heap| && heap[h].Line?
    ensures h !in Removed(heap, hs, lo, hi)
  {
    RemovedShapes(heap, hs, lo, hi);
  }

  /** Removing the first occurrence of an element appended to a sequence
      that lacks it gives the sequence back. */
  lemma RemoveLast(r: seq<int>, h: int)
    requires h !in r
    ensures Lists.RemoveFirst(r + [h], h) == r
  {
    Lists.RemoveFirstAt(r + [h], |r|, h);
    assert (r + [h])[..|r|] == r;
  }

  /** The shapes `rs` removed from `s` one after the other. */
  function RemoveEach(s: seq<int>, rs: seq<int>): seq<int>
  {
    if rs == [] then s else Lists.RemoveFirst(RemoveEach(s, rs[..|rs| - 1]), rs[|rs| - 1])
  }

  /** A new segment is allocated and marked as a barrier. */
  method AllocateBarrier(c: City, segment: Shape) returns (g: int)
    requires c.Valid()
    modifies c
    ensures c.Valid() && c.nextId == old(c.nextId)
    ensures g == |old(c.heap)| && c.heap == old(c.heap) + [MarkBarrier(segment)]
  {
    g := c.Allocate(segment);
    c.SetBarrier(g);
  }

  /** A circle or a text: one id, one segment, marked as a barrier. */
  method RewriteSingle(c: City, s: Shape, orient: char) returns (made: seq<int>)
    requires c.Valid() && (s.Circle? || s.Text?)
    modifies c
    ensures c.Valid()
    ensures c.heap == old(c.heap) + Segments(s, orient, old(c.nextId))
    ensures c.nextId == old(c.nextId) + 1
    ensures made == Run(|old(c.heap)|, 1)
  {
    var newId := c.GetNextId();
    var segment := if s.Circle? then CircleSegment(s, newId, orient) else TextSegment(s, newId);
    var g := AllocateBarrier(c, segment);
    made := [g];
  }

  /** The ids of a rectangle's sides, drawn one after the other into
      `ids`. */
  method DrawIds(c: City, ids: array<int>)
    requires c.Valid()
    modifies c, ids
    ensures c.Valid() && c.heap == old(c.heap) && c.nextId == old(c.nextId) + ids.Length
    ensures ids[..] == Run(old(c.nextId), ids.Length)
  {
    ghost var n0 := c.nextId;
    for i := 0 to ids.Length
      invariant c.Valid() && c.heap == old(c.heap) && c.nextId == n0 + i
      invariant forall k :: 0 <= k < i ==> ids[k] == n0 + k
    {
      ids[i] := c.GetNextId();
    }
    assert ids[..] == Run(n0, ids.Length);
  }

  /** The segments marked as barriers. */
  function MarkAll(segments: seq<Shape>): (r: seq<Shape>)
    ensures |r| == |segments| && forall k :: 0 <= k < |r| ==> r[k] == MarkBarrier(segments[k])
  {
    if segments == [] then [] else [MarkBarrier(segments[0])] + MarkAll(segments[1..])
  }

  /** Each segment is allocated and marked as a barrier, in order. */
  method AllocateAll(c: City, segments: seq<Shape>) returns (made: seq<int>)
    requires c.Valid()
    modifies c
    ensures c.Valid() && c.nextId == old(c.nextId)
    ensures c.heap == old(c.heap) + MarkAll(segments) && made == Run(|old(c.heap)|, |segments|)
  {
    ghost var heap0, marked := c.heap, MarkAll(segments);
    made := [];
    for i := 0 to |segments|
      invariant c.Valid() && c.nextId == old(c.nextId)
      invariant c.heap == heap0 + marked[..i] && made == Run(|heap0|, i)
    {
      var g := AllocateBarrier(c, segments[i]);
      assert marked[..i + 1] == marked[..i] + [marked[i]];
      made := made + [g];
    }
    assert marked[..|segments|] == marked;
  }

  /** A rectangle: four ids drawn first, then the four sides, each marked
      as a barrier. */
  method RewriteRectangle(c: City, s: Shape, orient: char) returns (made: seq<int>)
    requires c.Valid() && s.Rectangle?
    modifies c
    ensures c.Valid()
    ensures c.heap == old(c.heap) + Segments(s, orient, old(c.nextId))
    ensures c.nextId == old(c.nextId) + 4
    ensures made == Run(|old(c.heap)|, 4)
  {
    ghost var n0 := c.nextId;
    var ids := new int[4];
    DrawIds(c, ids);
    var sides := RectangleSides(s, ids[..]);
    made := AllocateAll(c, sides);
  }

  /** One rewritten circle, rectangle or text: the new segments get the
      next ids, are allocated in order and marked as barriers. */
  method RewriteShape(c: City, s: Shape, orient: char) returns (made: seq<int>)
    requires c.Valid() && !s.Line?
    modifies c
    ensures c.Valid()
    ensures c.heap == old(c.heap) + Segments(s, orient, old(c.nextId))
    ensures c.nextId == old(c.nextId) + |Segments(s, orient, old(c.nextId))|
    ensures made == Run(|old(c.heap)|, |Segments(s, orient, old(c.nextId))|)
  {
    if s.Circle? || s.Text? {
      made := RewriteSingle(c, s, orient);
    } else if s.Rectangle? {
      made := RewriteRectangle(c, s, orient);
    } else {
      made := [];
    }
  }

  /** The state the first loop of the command works on: the records, the
      id counter and the two lists it builds. */
  datatype Pass = Pass(heap: seq<Shape>, nextId: int, remove: seq<int>, add: seq<int>)

  /** One pass of the first loop, for the id `id`: the shape is looked up
      in the current records; a line is marked as a barrier and taken off
      the removal queue again, any other shape is queued for removal and
      its segments are allocated with the next ids. */
  function Visit(r: Pass, hs: seq<int>, id: int, orient: char): Pass
  {
    var h := FindById(r.heap, hs, id);
    if !(0 <= h < |r.heap|) then r
    else if r.heap[h].Line? then
      Pass(r.heap[h := MarkBarrier(r.heap[h])], r.nextId, Lists.RemoveFirst(r.remove + [h], h), r.add)
    else
      var segs := Segments(r.heap[h], orient, r.nextId);
      Pass(r.heap + segs, r.nextId + |segs|, r.remove + [h], r.add + Run(|r.heap|, |segs|))
  }

  /** The first loop over the ids lo .. hi - 1. */
  function Visited(r: Pass, hs: seq<int>, lo: int, hi: int, orient: char): Pass
    decreases hi - lo
  {
    if hi <= lo then r else Visit(Visited(r, hs, lo, hi - 1, orient), hs, hi - 1, orient)
  }

  /** The loop state `r` after the ids lo .. hi - 1 agrees with what the
      command plans on the initial records: the same removals, the planned
      segments allocated after the old records with consecutive handles,
      and exactly the lines it marks flagged as barriers. */
  predicate Tracks(heap0: seq<Shape>, hs: seq<int>, lo: int, hi: int, n0: int, orient: char, r: Pass)
  {
    Agrees(heap0, hs, lo, hi, n0, Removed(heap0, hs, lo, hi), Added(heap0, hs, lo, hi, orient, n0), r)
  }

  /** The loop state `r` holds the removals `remove` and the segments
      `add` allocated after the old records, and exactly the lines marked
      so far flagged as barriers. */
  predicate Agrees(heap0: seq<Shape>, hs: seq<int>, lo: int, hi: int, n0: int, remove: seq<int>, add: seq<Shape>, r: Pass)
  {
    r.remove == remove && r.nextId == n0 + |add| &&
    |r.heap| == |heap0| + |add| && r.heap[|heap0|..] == add && r.add == Run(|heap0|, |add|) &&
    forall h :: 0 <= h < |heap0| ==>
      r.heap[h] == if MarkedBy(heap0, hs, lo, hi, h) then MarkBarrier(heap0[h]) else heap0[h]
  }

  /** Consecutive runs join. */
  lemma RunJoin(a: int, m: nat, k: nat)
    ensures Run(a, m) + Run(a + m, k) == Run(a, m + k)
  {
    var joined := Run(a, m) + Run(a + m, k);
    assert forall j :: 0 <= j < m + k ==> joined[j] == a + j;
  }

  /** A shape's own lookup is not disturbed by the lines marked so far. */
  lemma MarkedOnlyFound(heap0: seq<Shape>, hs: seq<int>, lo: int, hi: int, h: int)
    requires lo < hi && MarkedBy(heap0, hs, lo, hi, h) && !MarkedBy(heap0, hs, lo, hi - 1, h)
    ensures heap0[h].id == hi - 1 && FindById(heap0, hs, hi - 1) == h
  {
  }

  /** One pass keeps the loop state in step with the plan. */
  lemma TracksStep(heap0: seq<Shape>, hs: seq<int>, lo: int, hi: int, n0: int, orient: char, r: Pass)
    requires lo < hi && forall h :: h in hs ==> h == Null || 0 <= h < |heap0|
    requires Tracks(heap0, hs, lo, hi - 1, n0, orient, r)
    ensures Tracks(heap0, hs, lo, hi, n0, orient, Visit(r, hs, hi - 1, orient))
  {
    assert forall h :: 0 <= h < |heap0| ==> r.heap[h] == heap0[h] || r.heap[h] == MarkBarrier(heap0[h]);
    SameLookup(heap0, r.heap, hs, hi - 1);
    var h := FindById(heap0, hs, hi - 1);
    FindByIdMeaning(heap0, hs, hi - 1);
    RemovedGrows(heap0, hs, lo, hi);
    if 0 <= h < |heap0| {
      assert IdAt(heap0, h) == Some(hi - 1);
      if heap0[h].Line? {
        TracksLine(heap0, hs, lo, hi, n0, orient, r, h);
      } else {
        TracksSegments(heap0, hs, lo, hi, n0, orient, r, h);
      }
    } else {
      TracksNone(heap0, hs, lo, hi, n0, orient, r);
    }
  }

  /** A line found for the id is marked and stays in the city. */
  lemma TracksLine(heap0: seq<Shape>, hs: seq<int>, lo: int, hi: int, n0: int, orient: char, r: Pass, h: int)
    requires lo < hi && Tracks(heap0, hs, lo, hi - 1, n0, orient, r)
    requires 0 <= h < |heap0| && heap0[h].Line? && heap0[h].id == hi - 1
    requires FindById(heap0, hs, hi - 1) == h && FindById(r.heap, hs, hi - 1) == h
    requires Lists.RemoveFirst(r.remove + [h], h) == Removed(heap0, hs, lo, hi)
    ensures Tracks(heap0, hs, lo, hi, n0, orient, Visit(r, hs, hi - 1, orient))
  {
    var s := heap0[h];
    var w := Visit(r, hs, hi - 1, orient);
    assert Added(heap0, hs, lo, hi, orient, n0) == Added(heap0, hs, lo, hi - 1, orient, n0);
    assert MarkBarrier(r.heap[h]) == MarkBarrier(s);
    assert w.heap == r.heap[h := MarkBarrier(s)];
    assert w.heap[|heap0|..] == r.heap[|heap0|..];
    forall g | 0 <= g < |heap0|
      ensures w.heap[g] == if MarkedBy(heap0, hs, lo, hi, g) then MarkBarrier(heap0[g]) else heap0[g]
    {
      if g != h && MarkedBy(heap0, hs, lo, hi, g) && !MarkedBy(heap0, hs, lo, hi - 1, g) {
        MarkedOnlyFound(heap0, hs, lo, hi, g);
      }
    }
  }

  /** A circle, rectangle or text found for the id gets its segments
      allocated after the records made so far. */
  lemma TracksSegments(heap0: seq<Shape>, hs: seq<int>, lo: int, hi: int, n0: int, orient: char, r: Pass, h: int)
    requires lo < hi && Tracks(heap0, hs, lo, hi - 1, n0, orient, r)
    requires 0 <= h < |heap0| && !heap0[h].Line?
    requires FindById(heap0, hs, hi - 1) == h && FindById(r.heap, hs, hi - 1) == h
    requires r.remove + [h] == Removed(heap0, hs, lo, hi)
    ensures Tracks(heap0, hs, lo, hi, n0, orient, Visit(r, hs, hi - 1, orient))
  {
    var p := Added(heap0, hs, lo, hi - 1, orient, n0);
    assert r.heap[h] == heap0[h];
    var segs := Segments(heap0[h], orient, r.nextId);
    AddedSegments(heap0, hs, lo, hi, orient, n0, h);
    VisitSegments(r, hs, hi - 1, orient, h);
    AgreesAppend(heap0, hs, lo, hi, n0, p, segs, r, h);
  }

  /** Appending the segments of a circle, rectangle or text keeps the
      loop state in agreement. */
  lemma AgreesAppend(heap0: seq<Shape>, hs: seq<int>, lo: int, hi: int, n0: int, p: seq<Shape>, segs: seq<Shape>, r: Pass, h: int)
    requires lo < hi && Agrees(heap0, hs, lo, hi - 1, n0, r.remove, p, r)
    requires 0 <= h < |heap0| && !heap0[h].Line? && FindById(heap0, hs, hi - 1) == h
    ensures Agrees(heap0, hs, lo, hi, n0, r.remove + [h], p + segs,
                   Pass(r.heap + segs, r.nextId + |segs|, r.remove + [h], r.add + Run(|r.heap|, |segs|)))
  {
    MarksKept(heap0, hs, lo, hi, r.heap, segs, h);
    TailAppend(|heap0|, r.heap, r.add, p, segs);
  }

  /** Appending records after the old ones keeps the marks on the old
      ones, and the shape found for the last id, not a line, adds no mark. */
  lemma MarksKept(heap0: seq<Shape>, hs: seq<int>, lo: int, hi: int, heap: seq<Shape>, segs: seq<Shape>, h: int)
    requires lo < hi && |heap| >= |heap0|
    requires forall g :: 0 <= g < |heap0| ==>
      heap[g] == if MarkedBy(heap0, hs, lo, hi - 1, g) then MarkBarrier(heap0[g]) else heap0[g]
    requires 0 <= h < |heap0| && !heap0[h].Line? && FindById(heap0, hs, hi - 1) == h
    ensures forall g :: 0 <= g < |heap0| ==>
      (heap + segs)[g] == if MarkedBy(heap0, hs, lo, hi, g) then MarkBarrier(heap0[g]) else heap0[g]
  {
    forall g | 0 <= g < |heap0|
      ensures (heap + segs)[g] == if MarkedBy(heap0, hs, lo, hi, g) then MarkBarrier(heap0[g]) else heap0[g]
    {
      if MarkedBy(heap0, hs, lo, hi, g) && !MarkedBy(heap0, hs, lo, hi - 1, g) {
        MarkedOnlyFound(heap0, hs, lo, hi, g);
      }
    }
  }

  /** Records and handles appended after a tail of new records extend it. */
  lemma TailAppend(n: nat, heap: seq<Shape>, add: seq<int>, p: seq<Shape>, segs: seq<Shape>)
    requires |heap| == n + |p| && heap[n..] == p && add == Run(n, |p|)
    ensures (heap + segs)[n..] == p + segs
    ensures add + Run(|heap|, |segs|) == Run(n, |p + segs|)
  {
    assert (heap + segs)[n..] == heap[n..] + segs;
    RunJoin(n, |p|, |segs|);
  }

  /** The pass over a circle, rectangle or text, written out. */
  lemma VisitSegments(r: Pass, hs: seq<int>, id: int, orient: char, h: int)
    requires FindById(r.heap, hs, id) == h && 0 <= h < |r.heap| && !r.heap[h].Line?
    ensures var segs := Segments(r.heap[h], orient, r.nextId);
      Visit(r, hs, id, orient) == Pass(r.heap + segs, r.nextId + |segs|, r.remove + [h], r.add + Run(|r.heap|, |segs|))
  {
  }

  /** The plan grows by the segments of the shape found for the last id. */
  lemma AddedSegments(heap0: seq<Shape>, hs: seq<int>, lo: int, hi: int, orient: char, n0: int, h: int)
    requires lo < hi && FindById(heap0, hs, hi - 1) == h && 0 <= h < |heap0|
    ensures var p := Added(heap0, hs, lo, hi - 1, orient, n0);
      Added(heap0, hs, lo, hi, orient, n0) == p + Segments(heap0[h], orient, n0 + |p|)
  {
  }

  /** An id that is not found changes nothing. */
  lemma TracksNone(heap0: seq<Shape>, hs: seq<int>, lo: int, hi: int, n0: int, orient: char, r: Pass)
    requires lo < hi && Tracks(heap0, hs, lo, hi - 1, n0, orient, r)
    requires !(0 <= FindById(heap0, hs, hi - 1) < |heap0|) && FindById(r.heap, hs, hi - 1) == FindById(heap0, hs, hi - 1)
    requires forall h :: h in hs ==> h == Null || 0 <= h < |heap0|
    requires r.remove == Removed(heap0, hs, lo, hi)
    ensures Tracks(heap0, hs, lo, hi, n0, orient, Visit(r, hs, hi - 1, orient))
  {
    assert Added(heap0, hs, lo, hi, orient, n0) == Added(heap0, hs, lo, hi - 1, orient, n0);
    forall g | 0 <= g < |heap0|
      ensures MarkedBy(heap0, hs, lo, hi, g) == MarkedBy(heap0, hs, lo, hi - 1, g)
    {
      if MarkedBy(heap0, hs, lo, hi, g) && !MarkedBy(heap0, hs, lo, hi - 1, g) {
        MarkedOnlyFound(heap0, hs, lo, hi, g);
      }
    }
  }

  /** The loop, which looks shapes up in the records it is changing, does
      what the command plans on the initial records. */
  lemma {:induction false} VisitedIsPlanned(heap0: seq<Shape>, hs: seq<int>, lo: int, hi: int, n0: int, orient: char)
    requires forall h :: h in hs ==> h == Null || 0 <= h < |heap0|
    ensures Tracks(heap0, hs, lo, hi, n0, orient, Visited(Pass(heap0, n0, [], []), hs, lo, hi, orient))
    decreases hi - lo
  {
    if hi > lo {
      VisitedIsPlanned(heap0, hs, lo, hi - 1, n0, orient);
      TracksStep(heap0, hs, lo, hi, n0, orient, Visited(Pass(heap0, n0, [], []), hs, lo, hi - 1, orient));
    } else {
      assert heap0[|heap0|..] == [];
    }
  }

  /** One pass of the first loop, for the id `id`. */
  method VisitId(c: City, id: int, orient: char, toRemove: seq<int>, toAdd: seq<int>) returns (remove': seq<int>, add': seq<int>)
    requires c.Valid()
    modifies c
    ensures c.Valid()
    ensures Pass(c.heap, c.nextId, remove', add') == Visit(Pass(old(c.heap), old(c.nextId), toRemove, toAdd), c.shapes.Contents, id, orient)
  {
    remove', add' := toRemove, toAdd;
    var h := c.GetShapeById(id);
    FindByIdMeaning(c.heap, c.shapes.Contents, id);
    if h != Null {
      assert h in c.shapes.Contents;
      var s := c.heap[h];
      remove' := remove' + [h];
      if s.Line? {
        c.SetBarrier(h);
        remove' := Lists.RemoveFirst(remove', h);
      } else {
        var made := RewriteShape(c, s, orient);
        add' := add' + made;
      }
    }
  }

  /** The first loop of the command: every id from lo to hi is looked up;
      lines found are marked, and the two lists are built. */
  method CollectRewrites(c: City, lo: int, hi: int, orient: char) returns (toRemove: seq<int>, toAdd: seq<int>)
    requires c.Valid()
    modifies c
    ensures c.Valid()
    ensures Pass(c.heap, c.nextId, toRemove, toAdd) == Visited(Pass(old(c.heap), old(c.nextId), [], []), c.shapes.Contents, lo, hi + 1, orient)
  {
    ghost var r0, hs := Pass(c.heap, c.nextId, [], []), c.shapes.Contents;
    toRemove, toAdd := [], [];
    var id := lo;
    while id <= hi
      invariant c.Valid() && lo <= id && (id <= hi + 1 || id == lo)
      invariant Pass(c.heap, c.nextId, toRemove, toAdd) == Visited(r0, hs, lo, id, orient)
      decreases hi - id
    {
      ghost var before := Visited(r0, hs, lo, id, orient);
      assert Visited(r0, hs, lo, id + 1, orient) == Visit(before, hs, id, orient);
      toRemove, toAdd := VisitId(c, id, orient, toRemove, toAdd);
      id := id + 1;
    }
  }

  /** The lookup made during the loop agrees with one on the initial heap:
      marking a line keeps its id, and new segments are not listed. */
  lemma SameLookup(heap0: seq<Shape>, heap: seq<Shape>, hs: seq<int>, id: int)
    requires |heap| >= |heap0|
    requires forall h :: h in hs ==> h == Null || 0 <= h < |heap0|
    requires forall h :: 0 <= h < |heap0| ==> heap[h] == heap0[h] || heap[h] == MarkBarrier(heap0[h])
    ensures FindById(heap, hs, id) == FindById(heap0, hs, id)
  {
    forall j | 0 <= j < |hs|
      ensures IdAt(heap, hs[j]) == IdAt(heap0, hs[j])
    {
      assert hs[j] in hs;
    }
    FirstWithIdSameIds(heap, heap0, hs, id);
  }

  /** The second loop: each queued shape is removed from the city. */
  method RemoveAll(c: City, rs: seq<int>)
    requires c.Valid() && forall k :: 0 <= k < |rs| ==> rs[k] != Null
    modifies c.shapes, c.svg
    ensures c.Valid()
    ensures c.shapes.Contents == RemoveEach(old(c.shapes.Contents), rs)
    ensures c.svg.Contents == RemoveEach(old(c.svg.Contents), rs)
  {
    ghost var s0, v0 := c.shapes.Contents, c.svg.Contents;
    for i := 0 to |rs|
      invariant c.Valid()
      invariant c.shapes.Contents == RemoveEach(s0, rs[..i])
      invariant c.svg.Contents == RemoveEach(v0, rs[..i])
    {
      RemoveEachStep(s0, rs, i);
      RemoveEachStep(v0, rs, i);
      var _ := c.RemoveShape(rs[i]);
    }
    assert rs[..|rs|] == rs;
  }

  lemma RemoveEachStep(s: seq<int>, rs: seq<int>, i: nat)
    requires i < |rs|
    ensures RemoveEach(s, rs[..i + 1]) == Lists.RemoveFirst(RemoveEach(s, rs[..i]), rs[i])
  {
    assert rs[..i + 1][..i] == rs[..i];
  }

  /** The third loop: each new shape is added to the city in order. */
  method AddAll(c: City, hs: seq<int>)
    requires c.Valid() && forall k :: 0 <= k < |hs| ==> 0 <= hs[k] < |c.heap|
    modifies c.shapes, c.svg, c.cleanup
    ensures c.Valid()
    ensures c.shapes.Contents == old(c.shapes.Contents) + hs
    ensures c.svg.Contents == old(c.svg.Contents) + hs
    ensures c.cleanup.Contents == Sorting.Reverse(hs) + old(c.cleanup.Contents)
  {
    ghost var s0, v0, c0 := c.shapes.Contents, c.svg.Contents, c.cleanup.Contents;
    for i := 0 to |hs|
      invariant c.Valid()
      invariant c.shapes.Contents == s0 + hs[..i]
      invariant c.svg.Contents == v0 + hs[..i]
      invariant c.cleanup.Contents == Sorting.Reverse(hs[..i]) + c0
    {
      AppendStep(s0, hs, i);
      AppendStep(v0, hs, i);
      PrependStep(c0, hs, i);
      c.AddShape(hs[i]);
    }
    assert hs[..|hs|] == hs;
  }

  /** One more element taken from the front of `hs`, appended. */
  lemma AppendStep(s: seq<int>, hs: seq<int>, i: nat)
    requires i < |hs|
    ensures s + hs[..i + 1] == (s + hs[..i]) + [hs[i]]
  {
    assert hs[..i + 1] == hs[..i] + [hs[i]];
  }

  /** One more element taken from the front of `hs`, pushed. */
  lemma PrependStep(s: seq<int>, hs: seq<int>, i: nat)
    requires i < |hs|
    ensures Sorting.Reverse(hs[..i + 1]) + s == [hs[i]] + (Sorting.Reverse(hs[..i]) + s)
  {
    assert hs[..i + 1][..i] == hs[..i];
  }

  /** execute_anteparo_command: the shapes with ids lo .. hi are rewritten;
      the circles, rectangles and texts among them leave the city before
      their barrier segments join it at the end, and lines found are only
      marked as barriers. */
  method Anteparo(c: City, lo: int, hi: int, orient: char) returns (ghost removed: seq<int>, ghost added: seq<int>)
    requires c.Valid()
    modifies c, c.shapes, c.svg, c.cleanup
    ensures c.Valid()
    ensures Tracks(old(c.heap), old(c.shapes.Contents), lo, hi + 1, old(c.nextId), orient, Pass(c.heap, c.nextId, removed, added))
    ensures c.shapes.Contents == RemoveEach(old(c.shapes.Contents), removed) + added
    ensures c.svg.Contents == RemoveEach(old(c.svg.Contents), removed) + added
    ensures c.cleanup.Contents == Sorting.Reverse(added) + old(c.cleanup.Contents)
  {
    ghost var heap0, hs := c.heap, c.shapes.Contents;
    var toRemove, toAdd := CollectRewrites(c, lo, hi, orient);
    VisitedIsPlanned(heap0, hs, lo, hi + 1, old(c.nextId), orient);
    ghost var pass := Pass(c.heap, c.nextId, toRemove, toAdd);
    TracksHandles(heap0, hs, lo, hi + 1, old(c.nextId), orient, pass);
    RemoveAll(c, toRemove);
    AddAll(c, toAdd);
    removed, added := toRemove, toAdd;
  }

  /** The handles the first loop collects are real records: the queued ones
      are old records, the new ones are the records it allocated. */
  lemma TracksHandles(heap0: seq<Shape>, hs: seq<int>, lo: int, hi: int, n0: int, orient: char, r: Pass)
    requires Tracks(heap0, hs, lo, hi, n0, orient, r)
    ensures forall k :: 0 <= k < |r.remove| ==> r.remove[k] != Null
    ensures forall k :: 0 <= k < |r.add| ==> 0 <= r.add[k] < |r.heap|
  {
    RemovedShapes(heap0, hs, lo, hi);
    assert forall k :: 0 <= k < |r.remove| ==> r.remove[k] in r.remove;
  }

  /** The clone of a shape: the given id and the position moved by
      (dx, dy), every other attribute copied; a cloned line is created
      afresh and so is not a barrier; text styles are not cloned. */
  function Translated(s: Shape, id: int, dx: real, dy: real): Option<Shape>
  {
    match s
    case Circle(_, x, y, r, b, f) => Some(Circle(id, x + dx, y + dy, r, b, f))
    case Rectangle(_, x, y, w, h, b, f) => Some(Rectangle(id, x + dx, y + dy, w, h, b, f))
    case Line(_, x1, y1, x2, y2, col, _) => Some(NewLine(id, x1 + dx, y1 + dy, x2 + dx, y2 + dy, col))
    case Text(_, x, y, b, f, a, t) => Some(Text(id, x + dx, y + dy, b, f, a, t))
    case TextStyle(_, _, _) => None
  }

  /** Moving a clone back by (-dx, -dy) under the original id gives the
      original shape, except that a line is no longer a barrier. */
  lemma TranslatedBack(s: Shape, id: int, dx: real, dy: real)
    requires !s.TextStyle?
    ensures Translated(s, id, dx, dy).Some?
    ensures ShapeId(Translated(s, id, dx, dy).value) == Some(id)
    ensures Translated(Translated(s, id, dx, dy).value, ShapeId(s).value, -dx, -dy) ==
      Some(if s.Line? then s.(barrier := false) else s)
  {
  }

  /** The clone of `s` made under id `id`, as a sequence of none or one. */
  function CloneOf(s: Shape, id: int, dx: real, dy: real): (r: seq<Shape>)
    ensures |r| <= 1
  {
    var t := Translated(s, id, dx, dy);
    if t.Some? then [t.value] else []
  }

  /** The clones the loop makes of `ss`, the k-th taking id next + k; a
      text style uses up its id but gives no clone. */
  function Clones(ss: seq<Shape>, next: int, dx: real, dy: real): seq<Shape>
  {
    if ss == [] then []
    else
      var n := |ss| - 1;
      Clones(ss[..n], next, dx, dy) + CloneOf(ss[n], next + n, dx, dy)
  }

  /** Without text styles there is one clone per shape, in order, with
      consecutive ids. */
  lemma {:induction false} ClonesInOrder(ss: seq<Shape>, next: int, dx: real, dy: real)
    requires forall k :: 0 <= k < |ss| ==> !ss[k].TextStyle?
    ensures |Clones(ss, next, dx, dy)| == |ss|
    ensures forall k :: 0 <= k < |ss| ==> Some(Clones(ss, next, dx, dy)[k]) == Translated(ss[k], next + k, dx, dy)
  {
    if ss != [] {
      var n := |ss| - 1;
      ClonesInOrder(ss[..n], next, dx, dy);
    }
  }

  /** The shapes behind handles. */
  function Deref(heap: seq<Shape>, hs: seq<int>): (r: seq<Shape>)
    requires forall k :: 0 <= k < |hs| ==> 0 <= hs[k] < |heap|
    ensures |r| == |hs| && forall k :: 0 <= k < |hs| ==> r[k] == heap[hs[k]]
  {
    if hs == [] then [] else [heap[hs[0]]] + Deref(heap, hs[1..])
  }

  /** The selection loop of the cloning bomb: the listed shapes, in order,
      that its region reaches. */
  method SelectReached(c: City, reached: Shape -> bool) returns (sel: seq<int>)
    requires c.Valid()
    ensures sel == Select(c.heap, c.shapes.Contents, reached)
  {
    ghost var hs := c.shapes.Contents;
    sel := [];
    var n := c.shapes.Size();
    for i := 0 to n
      invariant n == |hs| && sel == Select(c.heap, hs[..i], reached)
    {
      var s := c.shapes.Get(i);
      var g := s.value;
      assert g == hs[i] && g in hs;
      SelectStep(c.heap, hs, i, reached);
      if g != Null && reached(c.heap[g]) {
        sel := sel + [g];
      }
    }
    assert hs[..n] == hs;
  }

  /** What the commands see of a city: its records, its two lists, its
      clean-up stack and its id counter. */
  datatype View = View(heap: seq<Shape>, shapes: seq<int>, svg: seq<int>, cleanup: seq<int>, nextId: int)

  ghost function ViewOf(c: City): View
    reads c, c.shapes, c.svg, c.cleanup
  {
    View(c.heap, c.shapes.Contents, c.svg.Contents, c.cleanup.Contents, c.nextId)
  }

  /** The handles a, a + 1, ..., a + n - 1. */
  function Run(a: int, n: nat): (r: seq<int>)
    ensures |r| == n && forall k :: 0 <= k < n ==> r[k] == a + k
  {
    if n == 0 then [] else Run(a, n - 1) + [a + n - 1]
  }

  /** One pass of the cloning loop on a view: the next id is drawn, and
      the clone, if the shape has one, is allocated and added. */
  function CloneInto(v: View, s: Shape, dx: real, dy: real): View
  {
    var t := CloneOf(s, v.nextId, dx, dy);
    if |t| == 1 then
      var h := |v.heap|;
      View(v.heap + t, v.shapes + [h], v.svg + [h], [h] + v.cleanup, v.nextId + 1)
    else v.(nextId := v.nextId + 1)
  }

  /** The cloning loop on a view, over the shapes `ss`. */
  function CloneAll(v: View, ss: seq<Shape>, dx: real, dy: real): View
  {
    if ss == [] then v else CloneInto(CloneAll(v, ss[..|ss| - 1], dx, dy), ss[|ss| - 1], dx, dy)
  }

  /** After the loop every shape has used up one id, and the clones follow
      the old records in order. */
  lemma {:induction false} CloneAllHeap(v: View, ss: seq<Shape>, dx: real, dy: real)
    ensures CloneAll(v, ss, dx, dy).heap == v.heap + Clones(ss, v.nextId, dx, dy)
    ensures CloneAll(v, ss, dx, dy).nextId == v.nextId + |ss|
  {
    if ss != [] {
      var n := |ss| - 1;
      CloneAllHeap(v, ss[..n], dx, dy);
      var cl := Clones(ss[..n], v.nextId, dx, dy);
      var one := CloneOf(ss[n], v.nextId + n, dx, dy);
      assert v.heap + (cl + one) == (v.heap + cl) + one;
    }
  }

  /** A pass adds no clone and leaves the lists alone, or adds one clone
      whose handle joins both lists and the clean-up stack. */
  lemma CloneIntoLists(u: View, s: Shape, dx: real, dy: real)
    ensures var w, h := CloneInto(u, s, dx, dy), |u.heap|;
      (|w.heap| == h && w.shapes == u.shapes && w.svg == u.svg && w.cleanup == u.cleanup) ||
      (|w.heap| == h + 1 && w.shapes == u.shapes + [h] && w.svg == u.svg + [h] && w.cleanup == [h] + u.cleanup)
  {
  }

  /** The handles of the clones, consecutive from the first free one, are
      appended to both lists in order. */
  lemma {:induction false} CloneAllMeaning(v: View, ss: seq<Shape>, dx: real, dy: real)
    ensures var w := CloneAll(v, ss, dx, dy);
      |w.heap| >= |v.heap| &&
      var made := Run(|v.heap|, |w.heap| - |v.heap|);
      w.shapes == v.shapes + made && w.svg == v.svg + made
  {
    if ss != [] {
      var n := |ss| - 1;
      CloneAllMeaning(v, ss[..n], dx, dy);
      var u := CloneAll(v, ss[..n], dx, dy);
      var w := CloneInto(u, ss[n], dx, dy);
      assert CloneAll(v, ss, dx, dy) == w;
      CloneIntoLists(u, ss[n], dx, dy);
      if |w.heap| != |u.heap| {
        var m := |u.heap| - |v.heap|;
        RunAppend(v.shapes, |v.heap|, m);
        RunAppend(v.svg, |v.heap|, m);
      }
    }
  }

  /** The handles a + n - 1 down to a. */
  function RunDown(a: int, n: nat): (r: seq<int>)
    ensures |r| == n
  {
    if n == 0 then [] else [a + n - 1] + RunDown(a, n - 1)
  }

  /** Counting down is a run reversed. */
  lemma {:induction false} RunDownReversed(a: int, n: nat)
    ensures RunDown(a, n) == Sorting.Reverse(Run(a, n))
  {
    if n > 0 {
      RunDownReversed(a, n - 1);
      assert Run(a, n)[..n - 1] == Run(a, n - 1);
    }
  }

  /** The clones' handles are pushed on the clean-up stack in order, so
      they come off it newest first. */
  lemma {:induction false} CloneAllCleanup(v: View, ss: seq<Shape>, dx: real, dy: real)
    ensures var w := CloneAll(v, ss, dx, dy);
      |w.heap| >= |v.heap| &&
      w.cleanup == RunDown(|v.heap|, |w.heap| - |v.heap|) + v.cleanup
  {
    if ss != [] {
      var n := |ss| - 1;
      CloneAllCleanup(v, ss[..n], dx, dy);
      var u := CloneAll(v, ss[..n], dx, dy);
      var w := CloneInto(u, ss[n], dx, dy);
      assert CloneAll(v, ss, dx, dy) == w;
      CloneIntoLists(u, ss[n], dx, dy);
      if |w.heap| != |u.heap| {
        var m := |u.heap| - |v.heap|;
        assert RunDown(|v.heap|, m + 1) == [|v.heap| + m] + RunDown(|v.heap|, m);
      }
    }
  }

  /** One more handle at the end of a run. */
  lemma RunAppend(s: seq<int>, a: int, m: nat)
    ensures s + Run(a, m + 1) == (s + Run(a, m)) + [a + m]
  {
  }

  lemma CloneAllStep(v: View, ss: seq<Shape>, dx: real, dy: real, i: nat)
    requires i < |ss|
    ensures CloneAll(v, ss[..i + 1], dx, dy) == CloneInto(CloneAll(v, ss[..i], dx, dy), ss[i], dx, dy)
  {
    assert ss[..i + 1][..i] == ss[..i];
  }

  /** One pass of the cloning loop on the city. */
  method CloneOne(c: City, original: Shape, dx: real, dy: real)
    requires c.Valid()
    modifies c, c.shapes, c.svg, c.cleanup
    ensures c.Valid() && ViewOf(c) == CloneInto(old(ViewOf(c)), original, dx, dy)
    ensures |c.heap| >= |old(c.heap)| && forall k :: 0 <= k < |old(c.heap)| ==> c.heap[k] == old(c.heap)[k]
  {
    var cloneId := c.GetNextId();
    var t := Translated(original, cloneId, dx, dy);
    if t.Some? {
      assert CloneOf(original, cloneId, dx, dy) == [t.value];
      var g := c.Allocate(t.value);
      c.AddShape(g);
    }
  }

  /** The cloning loop of execute_cloning_bomb: every selected shape takes
      the next id, and its translated clone is allocated and added to the
      city. */
  method CloneShapes(c: City, sel: seq<int>, dx: real, dy: real)
    requires c.Valid() && forall k :: 0 <= k < |sel| ==> 0 <= sel[k] < |c.heap|
    modifies c, c.shapes, c.svg, c.cleanup
    ensures c.Valid() && ViewOf(c) == CloneAll(old(ViewOf(c)), Deref(old(c.heap), sel), dx, dy)
  {
    ghost var v0, ss := ViewOf(c), Deref(c.heap, sel);
    for i := 0 to |sel|
      invariant c.Valid() && ViewOf(c) == CloneAll(v0, ss[..i], dx, dy)
      invariant forall k :: 0 <= k < |sel| ==> 0 <= sel[k] < |c.heap| && c.heap[sel[k]] == ss[k]
    {
      var original := c.heap[sel[i]];
      assert original == ss[i];
      CloneAllStep(v0, ss, dx, dy, i);
      CloneOne(c, original, dx, dy);
    }
    assert ss[..|sel|] == ss;
  }

  /** point_on_segment: within 1e-6 of the line through the end points (by
      the cross product) and inside their bounding box widened by 1e-6. */
  predicate PointOnSegment(px: real, py: real, x1: real, y1: real, x2: real, y2: real)
  {
    Geometry.Abs(Geometry.Cross(x1, y1, x2, y2, px, py)) <= 0.000001 &&
    (if x1 < x2 then x1 else x2) - 0.000001 <= px <= (if x1 > x2 then x1 else x2) + 0.000001 &&
    (if y1 < y2 then y1 else y2) - 0.000001 <= py <= (if y1 > y2 then y1 else y2) + 0.000001
  }

  /** A point between two values lies between them. */
  lemma Scale(t: real, a: real, b: real)
    requires 0.0 <= t <= 1.0 && a <= b
    ensures !(a + t * (b - a) < a) && !(a + t * (b - a) > b)
  {
    assert !((1.0 - t) * (b - a) < 0.0);
    assert !(t * (b - a) < 0.0);
  }

  lemma Between(a: real, b: real, t: real)
    requires 0.0 <= t <= 1.0
    ensures (if a < b then a else b) <= a + t * (b - a) <= (if a > b then a else b)
  {
    if a < b {
      Scale(t, a, b);
    } else {
      Scale(1.0 - t, b, a);
    }
  }

  /** Every point of the segment is on it, the end points included. */
  lemma AlongIsOnSegment(x1: real, y1: real, x2: real, y2: real, t: real)
    requires 0.0 <= t <= 1.0
    ensures var p := Geometry.Along(x1, y1, x2, y2, t); PointOnSegment(p.x, p.y, x1, y1, x2, y2)
  {
    Geometry.CrossCollinear(x1, y1, x2, y2, t);
    Between(x1, x2, t);
    Between(y1, y2, t);
  }

  /** The test does not depend on the direction of the segment. */
  lemma PointOnSegmentReversed(px: real, py: real, x1: real, y1: real, x2: real, y2: real)
    ensures PointOnSegment(px, py, x1, y1, x2, y2) == PointOnSegment(px, py, x2, y2, x1, y1)
  {
    var c := Geometry.Cross(x1, y1, x2, y2, px, py);
    assert Geometry.Cross(x2, y2, x1, y1, px, py) == -c;
  }

  /** is_point_in_rect: the closed rectangle [x, x+w] by [y, y+h]. */
  predicate PointInRect(px: real, py: real, r: Shape)
    requires r.Rectangle?
  {
    r.x <= px <= r.x + r.width && r.y <= py <= r.y + r.height
  }

  /** The corners of a rectangle of non-negative size are inside it, and a
      point moved with a cloned rectangle stays inside exactly when it was
      inside the original. */
  lemma PointInRectCornersAndClone(r: Shape, id: int, dx: real, dy: real, px: real, py: real)
    requires r.Rectangle? && r.width >= 0.0 && r.height >= 0.0
    ensures PointInRect(r.x, r.y, r) && PointInRect(r.x + r.width, r.y + r.height, r)
    ensures PointInRect(px + dx, py + dy, Translated(r, id, dx, dy).value) == PointInRect(px, py, r)
  {
  }
}
