/** The editor's message handler (`VecRed::update`) restricted to the arms
    that touch the geometry or the journal. Each arm is a function from the
    editor state to the next one; `Update` dispatches and returns `None` where
    the source would panic on an out-of-range index. */
module Editing {
  import opened Wrappers
  import opened Geometry
  import opened UndoJournal
  import opened Messages

  /** The selected point: an editable copy of its position and radius, and its
      index. */
  datatype Chosen = Chosen(pos: Pos, radius: real, num: nat)

  /** The parts of the editor state the core reads and writes. `scale` sizes
      the hit-test tolerance; `defaultCircle` is the radius of new points. */
  datatype VecRed = VecRed(
    model: Model,
    journal: UndoManager,
    chosen: Option<Chosen>,
    mode: string,
    scale: real,
    defaultCircle: real)

  /** The selection, if any, names an existing point; the arms that index
      with it panic otherwise. */
  predicate ChosenInRange(ed: VecRed) {
    ed.chosen.Some? ==> ed.chosen.value.num < |ed.model.dots|
  }

  // ---------------------------------------------------------------------------
  // Find-or-create
  // ---------------------------------------------------------------------------

  datatype Added = Added(model: Model, journal: UndoManager, index: nat)

  /** Hit-tests `at`; on a miss appends a point there with the default radius
      and journals it. Returns the index of the found or created point. */
  function AddDot(near: NearFn, m: Model, j: UndoManager, at: Pos, scale: real, circle: real): (r: Added)
    ensures r.index < |r.model.dots| && r.index == FindPoint(near, m.dots, at, scale)
    ensures r.model.lines == m.lines && r.model.nodeDots == m.nodeDots && r.model.nodeLines == m.nodeLines
    ensures FindPoint(near, m.dots, at, scale) < |m.dots| ==>
              r.model == m && r.journal == j && near(m.dots[r.index].pos, at, scale)
              && forall k :: 0 <= k < r.index ==> !near(m.dots[k].pos, at, scale)
    ensures FindPoint(near, m.dots, at, scale) == |m.dots| ==>
              r.model.dots == m.dots + [Dot(at, circle)] && r.journal == Push(j, PointAdded)
              && r.index == |m.dots|
  {
    var number := FindPoint(near, m.dots, at, scale);
    if number == |m.dots| then
      Added(m.(dots := m.dots + [Dot(at, circle)]), PushedDot(j), number)
    else
      Added(m, j, number)
  }

  // ---------------------------------------------------------------------------
  // The message arms
  // ---------------------------------------------------------------------------

  /** `DefDot`: select the point near `at`, creating it first on a miss. */
  function DefDot(near: NearFn, ed: VecRed, at: Pos): (r: VecRed)
    ensures r.chosen.Some? && r.chosen.value.num < |r.model.dots|
    ensures var k := r.chosen.value.num;
      r.chosen.value == Chosen(r.model.dots[k].pos, r.model.dots[k].radius, k)
    ensures |r.model.dots| == |ed.model.dots| + 1 <==>
              forall k :: 0 <= k < |ed.model.dots| ==> !near(ed.model.dots[k].pos, at, ed.scale)
    ensures |r.model.dots| == |ed.model.dots| || |r.model.dots| == |ed.model.dots| + 1
    ensures r.model.dots[..|ed.model.dots|] == ed.model.dots && r.model.lines == ed.model.lines
    ensures r.chosen.value.num == FindPoint(near, ed.model.dots, at, ed.scale)
    ensures FindPoint(near, ed.model.dots, at, ed.scale) == |ed.model.dots| ==>
              r.model == ed.model.(dots := ed.model.dots + [Dot(at, ed.defaultCircle)])
              && r.journal == PushedDot(ed.journal)
    ensures FindPoint(near, ed.model.dots, at, ed.scale) < |ed.model.dots| ==>
              r.model == ed.model && r.journal == ed.journal
    ensures r.mode == ed.mode && r.scale == ed.scale && r.defaultCircle == ed.defaultCircle
  {
    var a := AddDot(near, ed.model, ed.journal, at, ed.scale, ed.defaultCircle);
    var d := a.model.dots[a.index];
    ed.(model := a.model, journal := a.journal, chosen := Some(Chosen(d.pos, d.radius, a.index)))
  }

  /** The records a primitive creation journals: one `PointAdded` per point
      it created, then `PrimitiveAdded` when the primitive was stored. */
  function CreationRecords(created: nat, stored: bool): (r: seq<UndoRecord>)
    ensures |r| == created + (if stored then 1 else 0)
    ensures forall i :: 0 <= i < created ==> r[i] == PointAdded
    ensures stored ==> r[created] == PrimitiveAdded
  {
    seq(created, _ => PointAdded) + (if stored then [PrimitiveAdded] else [])
  }

  /** Find-or-create over several positions in order, as `DefLine` does with
      its endpoints. Returns the resulting model and journal and the index
      each position resolved to. */
  function AddDots(near: NearFn, m: Model, j: UndoManager, points: seq<Pos>, scale: real, circle: real)
    : (r: (Model, UndoManager, seq<nat>))
    ensures |r.2| == |points|
    ensures m.dots <= r.0.dots && |r.0.dots| <= |m.dots| + |points|
    ensures r.0.lines == m.lines && r.0.nodeDots == m.nodeDots && r.0.nodeLines == m.nodeLines
    ensures NewDotsFrom(r.0.dots, |m.dots|, points, circle)
    ensures ResolvedTo(near, r.0.dots, r.2, points, scale)
    ensures r.1 == PushAll(j, CreationRecords(|r.0.dots| - |m.dots|, false))
    ensures FoundOrCreated(near, m.dots, r.0.dots, r.2, points, scale, circle)
    decreases |points|
  {
    if |points| == 0 then (m, j, [])
    else
      var prev := AddDots(near, m, j, points[..|points| - 1], scale, circle);
      var a := AddDot(near, prev.0, prev.1, points[|points| - 1], scale, circle);
      AddDotsGrows(near, m, j, points, scale, circle, prev, a);
      AddDotsResolves(near, m, points, scale, circle, prev, a);
      (a.model, a.journal, prev.2 + [a.index])
  }

  /** How `AddDots` grows the model and the journal: the points only get
      appended, each new one at one of the positions, one `PointAdded` each. */
  predicate AddDotsGrowth(m: Model, j: UndoManager, points: seq<Pos>, circle: real,
                          r: (Model, UndoManager, seq<nat>))
  {
    && |r.2| == |points|
    && m.dots <= r.0.dots && |r.0.dots| <= |m.dots| + |points|
    && r.0.lines == m.lines && r.0.nodeDots == m.nodeDots && r.0.nodeLines == m.nodeLines
    && NewDotsFrom(r.0.dots, |m.dots|, points, circle)
    && r.1 == PushAll(j, CreationRecords(|r.0.dots| - |m.dots|, false))
  }

  /** One more position keeps `AddDotsGrowth`. */
  lemma AddDotsGrows(near: NearFn, m: Model, j: UndoManager, points: seq<Pos>, scale: real, circle: real,
                     prev: (Model, UndoManager, seq<nat>), a: Added)
    requires |points| > 0
    requires AddDotsGrowth(m, j, points[..|points| - 1], circle, prev)
    requires a == AddDot(near, prev.0, prev.1, points[|points| - 1], scale, circle)
    ensures AddDotsGrowth(m, j, points, circle, (a.model, a.journal, prev.2 + [a.index]))
  {
    AddDotsStep(m.dots, prev.0.dots, a.model.dots, points, circle);
    CreationRecordsStep(j, |prev.0.dots| - |m.dots|);
  }

  /** One more position keeps the resolution facts of `AddDots`. */
  lemma AddDotsResolves(near: NearFn, m: Model, points: seq<Pos>, scale: real, circle: real,
                        prev: (Model, UndoManager, seq<nat>), a: Added)
    requires |points| > 0 && m.dots <= prev.0.dots
    requires ResolvedTo(near, prev.0.dots, prev.2, points[..|points| - 1], scale)
    requires FoundOrCreated(near, m.dots, prev.0.dots, prev.2, points[..|points| - 1], scale, circle)
    requires a == AddDot(near, prev.0, prev.1, points[|points| - 1], scale, circle)
    ensures ResolvedTo(near, a.model.dots, prev.2 + [a.index], points, scale)
    ensures FoundOrCreated(near, m.dots, a.model.dots, prev.2 + [a.index], points, scale, circle)
  {
    ResolvedToStep(near, prev.0.dots, a.model.dots, prev.2, a.index, points, scale);
    FoundOrCreatedStep(near, m.dots, prev.0.dots, a.model.dots, prev.2, a.index, points, scale, circle);
  }

  /** One more find-or-create extends the relation. */
  lemma FoundOrCreatedStep(near: NearFn, d0: seq<Dot>, d1: seq<Dot>, d2: seq<Dot>, idx: seq<nat>, k: nat,
                           points: seq<Pos>, scale: real, circle: real)
    requires |points| > 0
    requires FoundOrCreated(near, d0, d1, idx, points[..|points| - 1], scale, circle)
    requires var p := points[|points| - 1];
      if FindPoint(near, d1, p, scale) == |d1| then d2 == d1 + [Dot(p, circle)] && k == |d1|
      else d2 == d1 && k == FindPoint(near, d1, p, scale)
    ensures FoundOrCreated(near, d0, d2, idx + [k], points, scale, circle)
  {
    var n := |points| - 1;
    assert (idx + [k])[..n] == idx;
    if FindPoint(near, d1, points[n], scale) == |d1| {
      assert d2[..|d2| - 1] == d1;
    }
  }

  /** Each position `points[i]` resolved to the point `idx[i]`: one stored
      exactly there or within the tolerance of it. */
  predicate ResolvedTo(near: NearFn, dots: seq<Dot>, idx: seq<nat>, points: seq<Pos>, scale: real) {
    |idx| == |points|
    && forall i :: 0 <= i < |points| ==>
         idx[i] < |dots| && (dots[idx[i]].pos == points[i] || near(dots[idx[i]].pos, points[i], scale))
  }

  lemma ResolvedToStep(near: NearFn, d1: seq<Dot>, d2: seq<Dot>, idx: seq<nat>, k: nat,
                       points: seq<Pos>, scale: real)
    requires |points| > 0 && d1 <= d2
    requires ResolvedTo(near, d1, idx, points[..|points| - 1], scale)
    requires k < |d2| && (d2[k].pos == points[|points| - 1] || near(d2[k].pos, points[|points| - 1], scale))
    ensures ResolvedTo(near, d2, idx + [k], points, scale)
  {
    var n := |points| - 1;
    forall i | 0 <= i < |points|
      ensures (idx + [k])[i] < |d2|
      ensures d2[(idx + [k])[i]].pos == points[i] || near(d2[(idx + [k])[i]].pos, points[i], scale)
    {
      if i < n {
        assert points[..n][i] == points[i];
        assert d1[idx[i]] == d2[idx[i]];
      }
    }
  }

  /** `dots` and `idx` are what find-or-create over `points`, in order, gives
      from the points `d0`: each position is either a hit, resolving to the
      first point near it among the points so far, or a miss, which appends
      `Dot(p, circle)` and resolves to that new last index. */
  predicate FoundOrCreated(near: NearFn, d0: seq<Dot>, dots: seq<Dot>, idx: seq<int>, points: seq<Pos>,
                           scale: real, circle: real)
    decreases |points|
  {
    if |points| == 0 then dots == d0 && idx == []
    else
      var n := |points| - 1;
      && |idx| == |points|
      && ( (&& FindPoint(near, dots, points[n], scale) < |dots|
            && idx[n] == FindPoint(near, dots, points[n], scale)
            && FoundOrCreated(near, d0, dots, idx[..n], points[..n], scale, circle))
         || (&& |dots| > 0
             && FindPoint(near, dots[..|dots| - 1], points[n], scale) == |dots| - 1
             && dots[|dots| - 1] == Dot(points[n], circle) && idx[n] == |dots| - 1
             && FoundOrCreated(near, d0, dots[..|dots| - 1], idx[..n], points[..n], scale, circle)))
  }

  /** Undoes the last step of find-or-create: the points `e` before the last
      position, and how that position resolved against them. */
  lemma FoundOrCreatedLast(near: NearFn, d0: seq<Dot>, dots: seq<Dot>, idx: seq<int>, points: seq<Pos>,
                           scale: real, circle: real) returns (e: seq<Dot>)
    requires |points| > 0 && FoundOrCreated(near, d0, dots, idx, points, scale, circle)
    ensures FoundOrCreated(near, d0, e, idx[..|points| - 1], points[..|points| - 1], scale, circle)
    ensures idx == idx[..|points| - 1] + [idx[|points| - 1]]
    ensures FindPoint(near, e, points[|points| - 1], scale) < |e| ==>
              dots == e && idx[|points| - 1] == FindPoint(near, e, points[|points| - 1], scale)
    ensures FindPoint(near, e, points[|points| - 1], scale) == |e| ==>
              dots == e + [Dot(points[|points| - 1], circle)] && idx[|points| - 1] == |e|
  {
    var n := |points| - 1;
    if FindPoint(near, dots, points[n], scale) < |dots| && idx[n] == FindPoint(near, dots, points[n], scale)
       && FoundOrCreated(near, d0, dots, idx[..n], points[..n], scale, circle) {
      e := dots;
    } else {
      e := dots[..|dots| - 1];
      assert dots == e + [Dot(points[n], circle)];
    }
    assert idx == idx[..n] + [idx[n]];
  }

  /** Find-or-create is deterministic: the starting points and the positions
      fix both the resulting points and the resolved indices. */
  lemma {:induction false} FoundOrCreatedUnique(near: NearFn, d0: seq<Dot>, points: seq<Pos>, scale: real,
                                                circle: real, dots1: seq<Dot>, idx1: seq<int>,
                                                dots2: seq<Dot>, idx2: seq<int>)
    requires FoundOrCreated(near, d0, dots1, idx1, points, scale, circle)
    requires FoundOrCreated(near, d0, dots2, idx2, points, scale, circle)
    ensures dots1 == dots2 && idx1 == idx2
    decreases |points|
  {
    if |points| > 0 {
      var n := |points| - 1;
      var e1 := FoundOrCreatedLast(near, d0, dots1, idx1, points, scale, circle);
      var e2 := FoundOrCreatedLast(near, d0, dots2, idx2, points, scale, circle);
      FoundOrCreatedUnique(near, d0, points[..n], scale, circle, e1, idx1[..n], e2, idx2[..n]);
    }
  }

  /** Every point from index `n` on is a new point at one of `points`. */
  predicate NewDotsFrom(dots: seq<Dot>, n: nat, points: seq<Pos>, circle: real) {
    forall k :: n <= k < |dots| ==> dots[k].radius == circle && dots[k].pos in points
  }

  lemma AddDotsStep(d0: seq<Dot>, d1: seq<Dot>, d2: seq<Dot>, points: seq<Pos>, circle: real)
    requires |points| > 0
    requires d0 <= d1 && NewDotsFrom(d1, |d0|, points[..|points| - 1], circle)
    requires d2 == d1 || d2 == d1 + [Dot(points[|points| - 1], circle)]
    ensures d0 <= d2 && NewDotsFrom(d2, |d0|, points, circle)
  {
    assert forall x :: x in points[..|points| - 1] ==> x in points;
    assert points[|points| - 1] in points;
  }

  lemma CreationRecordsStep(j: UndoManager, c: nat)
    ensures Push(PushAll(j, CreationRecords(c, false)), PointAdded) == PushAll(j, CreationRecords(c + 1, false))
  {
    PushAllSnoc(j, CreationRecords(c, false), PointAdded);
    assert CreationRecords(c, false) + [PointAdded] == CreationRecords(c + 1, false);
  }

  /** Journaling the stored primitive after the created points. */
  lemma CreationRecordsStored(j: UndoManager, c: nat)
    ensures PushedLine(PushAll(j, CreationRecords(c, false))) == PushAll(j, CreationRecords(c, true))
  {
    PushAllSnoc(j, CreationRecords(c, false), PrimitiveAdded);
    assert CreationRecords(c, false) + [PrimitiveAdded] == CreationRecords(c, true);
  }

  /** A primitive with repeated indices is rejected: a segment needs two
      distinct points, an arc three. */
  predicate Degenerate(p: Prim): (d: bool)
    ensures p.IsSegment() ==> (d <==> p.a == p.b)
    ensures !p.IsSegment() ==> (!d <==> p.a != p.b && p.a != p.c && p.b != p.c)
  {
    p.a == p.b || (p.c != Segment && (p.a == p.c || p.b == p.c))
  }

  /** The messages `DefLine` can be handed without indexing past its
      positions: two for a segment, three for an arc. */
  predicate DefLineArgsOk(points: seq<Pos>, shape: Prim) {
    |points| >= 2 && (shape.c != Segment ==> |points| >= 3)
  }

  /** A primitive `DefLine` may store over `n` points for the given shape. */
  predicate StorableLine(p: Prim, n: nat, shape: Prim) {
    !Degenerate(p) && PrimOk(p, n) && (p.IsSegment() <==> shape.c == Segment)
  }

  lemma NewDotsWiden(dots: seq<Dot>, n: nat, points: seq<Pos>, count: nat, circle: real)
    requires count <= |points|
    requires NewDotsFrom(dots, n, points[..count], circle)
    ensures NewDotsFrom(dots, n, points, circle)
  {
    assert forall x :: x in points[..count] ==> x in points;
  }

  /** The number of positions a shape resolves: two for a segment, three for
      an arc. */
  function ShapeSize(shape: Prim): nat {
    if shape.c == Segment then 2 else 3
  }

  /** The point indices a primitive refers to, in slot order. */
  function ShapeIndices(p: Prim): seq<int> {
    if p.IsSegment() then [p.a, p.b] else [p.a, p.b, p.c]
  }

  /** `DefLine`: find-or-create each position in order, then store and journal
      the segment or arc over the resulting indices when they are distinct.
      Points created on the way stay even when the primitive is rejected. */
  function DefLine(near: NearFn, ed: VecRed, points: seq<Pos>, shape: Prim): (r: VecRed)
    requires DefLineArgsOk(points, shape)
    ensures r.chosen.None?
    ensures ed.model.dots <= r.model.dots
    ensures |r.model.dots| <= |ed.model.dots| + (if shape.c == Segment then 2 else 3)
    ensures NewDotsFrom(r.model.dots, |ed.model.dots|, points, ed.defaultCircle)
    ensures ed.model.lines <= r.model.lines && |r.model.lines| <= |ed.model.lines| + 1
    ensures r.model == ed.model.(dots := r.model.dots, lines := r.model.lines)
    ensures |r.model.lines| == |ed.model.lines| + 1 ==>
              StorableLine(r.model.lines[|ed.model.lines|], |r.model.dots|, shape)
    ensures r.journal == PushAll(ed.journal, CreationRecords(|r.model.dots| - |ed.model.dots|,
                                                             |r.model.lines| > |ed.model.lines|))
    ensures var q := ResolveShape(near, ed.model, ed.journal, points, shape, ed.scale, ed.defaultCircle).2;
      && FoundOrCreated(near, ed.model.dots, r.model.dots, ShapeIndices(q), points[..ShapeSize(shape)],
                        ed.scale, ed.defaultCircle)
      && r.model.lines == if Degenerate(q) then ed.model.lines else ed.model.lines + [q]
    ensures r.mode == ed.mode && r.scale == ed.scale && r.defaultCircle == ed.defaultCircle
  {
    var res := ResolveShape(near, ed.model, ed.journal, points, shape, ed.scale, ed.defaultCircle);
    StorePrim(ed, res.0, res.1, res.2, shape)
  }

  /** The first half of `DefLine`: find-or-create the two (segment) or three
      (arc) positions and build the primitive over the resulting indices. */
  function ResolveShape(near: NearFn, m: Model, j: UndoManager, points: seq<Pos>, shape: Prim,
                        scale: real, circle: real): (r: (Model, UndoManager, Prim))
    requires DefLineArgsOk(points, shape)
    ensures r.0 == m.(dots := r.0.dots) && m.dots <= r.0.dots
    ensures |r.0.dots| <= |m.dots| + (if shape.c == Segment then 2 else 3)
    ensures NewDotsFrom(r.0.dots, |m.dots|, points, circle)
    ensures r.1 == PushAll(j, CreationRecords(|r.0.dots| - |m.dots|, false))
    ensures PrimOk(r.2, |r.0.dots|) && (r.2.IsSegment() <==> shape.c == Segment)
    ensures FoundOrCreated(near, m.dots, r.0.dots, ShapeIndices(r.2), points[..ShapeSize(shape)], scale, circle)
  {
    var res := AddDots(near, m, j, points[..ShapeSize(shape)], scale, circle);
    NewDotsWiden(res.0.dots, |m.dots|, points, ShapeSize(shape), circle);
    (res.0, res.1, ShapeOver(res.2, |res.0.dots|, shape))
  }

  /** The primitive of the given shape over the resolved indices `idx`. */
  function ShapeOver(idx: seq<nat>, n: nat, shape: Prim): (p: Prim)
    requires |idx| == ShapeSize(shape) && forall i :: 0 <= i < |idx| ==> idx[i] < n
    ensures PrimOk(p, n) && (p.IsSegment() <==> shape.c == Segment)
    ensures ShapeIndices(p) == idx
  {
    assert idx[0] < n && idx[1] < n;
    if shape.c == Segment then Prim(idx[0], idx[1], Segment)
    else
      assert idx[2] < n;
      Prim(idx[0], idx[1], idx[2])
  }

  /** The second half of `DefLine`: after the points are resolved into `m`
      with journal `j`, store and journal `p` unless it is degenerate. */
  function StorePrim(ed: VecRed, m: Model, j: UndoManager, p: Prim, shape: Prim): (r: VecRed)
    requires m == ed.model.(dots := m.dots) && ed.model.dots <= m.dots
    requires j == PushAll(ed.journal, CreationRecords(|m.dots| - |ed.model.dots|, false))
    requires PrimOk(p, |m.dots|) && (p.IsSegment() <==> shape.c == Segment)
    ensures r.chosen.None? && r.model.dots == m.dots
    ensures r.model == ed.model.(dots := r.model.dots, lines := r.model.lines)
    ensures ed.model.lines <= r.model.lines && |r.model.lines| <= |ed.model.lines| + 1
    ensures r.model.lines == if Degenerate(p) then m.lines else m.lines + [p]
    ensures |r.model.lines| == |ed.model.lines| + 1 ==>
              StorableLine(r.model.lines[|ed.model.lines|], |r.model.dots|, shape)
    ensures r.journal == PushAll(ed.journal, CreationRecords(|r.model.dots| - |ed.model.dots|,
                                                             |r.model.lines| > |ed.model.lines|))
    ensures r.mode == ed.mode && r.scale == ed.scale && r.defaultCircle == ed.defaultCircle
  {
    var base := ed.(model := m, journal := j, chosen := None);
    if Degenerate(p) then base
    else
      CreationRecordsStored(ed.journal, |m.dots| - |ed.model.dots|);
      base.(model := m.(lines := m.lines + [p]), journal := PushedLine(j))
  }

  /** `ChangeApply`: write the edited copy of the selection back to its point,
      journaling the previous value, but only when it differs. */
  function ChangeApply(ed: VecRed): (r: VecRed)
    requires ChosenInRange(ed)
    ensures r.model.lines == ed.model.lines && |r.model.dots| == |ed.model.dots|
    ensures ed.chosen.None? ==> r == ed
    ensures ed.chosen.Some? ==>
              var c := ed.chosen.value;
              var prev := ed.model.dots[c.num];
              if prev == Dot(c.pos, c.radius) then r == ed
              else r == ed.(model := ed.model.(dots := ed.model.dots[c.num := Dot(c.pos, c.radius)]),
                            journal := ChangedDot(ed.journal, prev, c.num))
    ensures r.mode == ed.mode && r.scale == ed.scale && r.defaultCircle == ed.defaultCircle
    ensures r.model.nodeDots == ed.model.nodeDots && r.model.nodeLines == ed.model.nodeLines
  {
    match ed.chosen
    case None => ed
    case Some(c) =>
      var prev := ed.model.dots[c.num];
      if prev.pos != c.pos || prev.radius != c.radius then
        ed.(journal := ChangedDot(ed.journal, prev, c.num),
            model := ed.model.(dots := ed.model.dots[c.num := Dot(c.pos, c.radius)]))
      else ed
  }

  // ---------------------------------------------------------------------------
  // Point deletion
  // ---------------------------------------------------------------------------

  /** The primitives that survive deleting point `num`, in their order. */
  function Retain(lines: seq<Prim>, num: nat): (r: seq<Prim>)
    ensures |r| <= |lines|
    ensures forall i :: 0 <= i < |r| ==> !r[i].Refs(num)
    decreases |lines|
  {
    if |lines| == 0 then []
    else
      var last := lines[|lines| - 1];
      Retain(lines[..|lines| - 1], num) + (if last.Refs(num) then [] else [last])
  }

  /** Exactly the primitives that do not reference `num` survive. */
  lemma {:induction false} RetainSpec(lines: seq<Prim>, num: nat)
    ensures var r := Retain(lines, num);
      && (forall i :: 0 <= i < |r| ==> !r[i].Refs(num))
      && (forall x :: x in r ==> x in lines)
      && (forall i :: 0 <= i < |lines| && !lines[i].Refs(num) ==> lines[i] in r)
    decreases |lines|
  {
    if |lines| > 0 {
      var front := lines[..|lines| - 1];
      var last := lines[|lines| - 1];
      RetainSpec(front, num);
      var rf := Retain(front, num);
      var r := rf + (if last.Refs(num) then [] else [last]);
      assert r == Retain(lines, num);
      forall i | 0 <= i < |r|
        ensures !r[i].Refs(num)
      {
        if i < |rf| {
          assert r[i] == rf[i];
        }
      }
      forall x | x in r
        ensures x in lines
      {
        if x in rf {
          var k :| 0 <= k < |front| && front[k] == x;
          assert lines[k] == x;
        }
      }
      forall i | 0 <= i < |lines| && !lines[i].Refs(num)
        ensures lines[i] in r
      {
        if i < |front| {
          assert lines[i] == front[i];
          assert front[i] in rf;
        } else {
          assert r[|r| - 1] == last;
        }
      }
    }
  }

  /** The journal entries for the primitives that reference `num`, pushed
      from the highest placement down, each with its original placement. */
  function RemovedRecords(lines: seq<Prim>, num: nat): (r: seq<UndoRecord>)
    ensures |r| + |Retain(lines, num)| == |lines|
    decreases |lines|
  {
    if |lines| == 0 then []
    else
      var n := |lines| - 1;
      (if lines[n].Refs(num) then [PrimitiveRemoved(lines[n], n)] else []) + RemovedRecords(lines[..n], num)
  }

  /** `rec` journals the removal of `lines[rec.placement]`, which references `num`. */
  predicate RemovalOf(rec: UndoRecord, lines: seq<Prim>, num: nat)
  {
    rec.PrimitiveRemoved? && rec.placement < |lines|
    && rec.prim == lines[rec.placement] && lines[rec.placement].Refs(num)
  }

  /** Removals of entries of `front` are removals of entries of any
      extension of it. */
  lemma RemovalsWiden(rs: seq<UndoRecord>, front: seq<Prim>, lines: seq<Prim>, num: nat)
    requires front <= lines
    requires forall i :: 0 <= i < |rs| ==> RemovalOf(rs[i], front, num)
    ensures forall i :: 0 <= i < |rs| ==> RemovalOf(rs[i], lines, num)
  {
    forall i | 0 <= i < |rs|
      ensures RemovalOf(rs[i], lines, num)
    {
      assert lines[rs[i].placement] == front[rs[i].placement];
    }
  }

  /** Every journaled entry records a referencing primitive at its own
      placement. */
  lemma {:induction false} RemovedRecordsExact(lines: seq<Prim>, num: nat)
    ensures forall i :: 0 <= i < |RemovedRecords(lines, num)| ==>
              RemovalOf(RemovedRecords(lines, num)[i], lines, num)
    decreases |lines|
  {
    if |lines| > 0 {
      var n := |lines| - 1;
      var front := lines[..n];
      RemovedRecordsExact(front, num);
      var prev := RemovedRecords(front, num);
      RemovalsWiden(prev, front, lines, num);
      if lines[n].Refs(num) {
        var r := [PrimitiveRemoved(lines[n], n)] + prev;
        assert r == RemovedRecords(lines, num);
        forall i | 0 < i < |r|
          ensures RemovalOf(r[i], lines, num)
        {
          assert r[i] == prev[i - 1];
        }
      } else {
        assert RemovedRecords(lines, num) == prev;
      }
    } else {
      assert RemovedRecords(lines, num) == [];
    }
  }

  /** Removal records whose placements strictly decrease. */
  predicate Descending(r: seq<UndoRecord>)
  {
    forall i, k :: 0 <= i < k < |r| ==> r[i].PrimitiveRemoved? && r[k].PrimitiveRemoved?
                                        && r[i].placement > r[k].placement
  }

  /** A removal placed above every record of a descending list extends it. */
  lemma DescendingCons(h: UndoRecord, prev: seq<UndoRecord>)
    requires h.PrimitiveRemoved? && Descending(prev)
    requires forall k :: 0 <= k < |prev| ==> prev[k].PrimitiveRemoved? && prev[k].placement < h.placement
    ensures Descending([h] + prev)
  {
    var r := [h] + prev;
    forall i, k | 0 <= i < k < |r|
      ensures r[i].PrimitiveRemoved? && r[k].PrimitiveRemoved? && r[i].placement > r[k].placement
    {
      assert r[k] == prev[k - 1];
      if i > 0 {
        assert r[i] == prev[i - 1];
      }
    }
  }

  /** The entries are pushed from the highest placement down. */
  lemma {:induction false} RemovedRecordsDescending(lines: seq<Prim>, num: nat)
    ensures Descending(RemovedRecords(lines, num))
    decreases |lines|
  {
    if |lines| > 0 {
      var n := |lines| - 1;
      var front := lines[..n];
      RemovedRecordsDescending(front, num);
      var prev := RemovedRecords(front, num);
      if lines[n].Refs(num) {
        RemovedRecordsExact(front, num);
        assert forall k :: 0 <= k < |prev| ==> RemovalOf(prev[k], front, num);
        DescendingCons(PrimitiveRemoved(lines[n], n), prev);
      } else {
        assert RemovedRecords(lines, num) == prev;
      }
    } else {
      assert RemovedRecords(lines, num) == [];
    }
  }

  /** No primitive that references `num` is missed. */
  lemma {:induction false} RemovedRecordsComplete(lines: seq<Prim>, num: nat)
    ensures forall p :: 0 <= p < |lines| && lines[p].Refs(num) ==>
              PrimitiveRemoved(lines[p], p) in RemovedRecords(lines, num)
    decreases |lines|
  {
    if |lines| > 0 {
      var n := |lines| - 1;
      var front := lines[..n];
      RemovedRecordsComplete(front, num);
      forall p | 0 <= p < n && lines[p].Refs(num)
        ensures PrimitiveRemoved(lines[p], p) in RemovedRecords(lines, num)
      {
        assert front[p] == lines[p];
      }
    }
  }

  /** Every journal entry a deletion of point `num` pushes, in push order. */
  function DeleteRecords(m: Model, num: nat): (r: seq<UndoRecord>)
    requires num < |m.dots|
    ensures |r| == |RemovedRecords(m.lines, num)| + 1
    ensures r[|r| - 1] == PointRemoved(m.dots[num], num)
  {
    RemovedRecords(m.lines, num) + [PointRemoved(m.dots[num], num)]
  }

  /** Rust's `Vec::swap_remove`: the last element takes index `i`. */
  function SwapRemove<T>(s: seq<T>, i: nat): (r: seq<T>)
    requires i < |s|
    ensures |r| == |s| - 1
    ensures i < |s| - 1 ==> r[i] == s[|s| - 1]
    ensures forall k :: 0 <= k < |r| && k != i ==> r[k] == s[k]
  {
    Swap(s, i, |s| - 1)[..|s| - 1]
  }

  /** The reference rename deletion performs: the old last index becomes `num`. */
  function Rename(v: int, from: int, to: int): int {
    if v == from then to else v
  }

  /** `DeleteDot`: drop every primitive referencing the selected point,
      swap-remove the point (or pop it when it is last), and redirect the
      references to the moved point to its new index. Each dropped primitive
      and then the point are journaled. */
  function DeleteDot(ed: VecRed): (r: VecRed)
    requires ChosenInRange(ed)
    ensures ed.chosen.None? ==> r == ed
    ensures ed.chosen.Some? ==>
              var num := ed.chosen.value.num;
              var n := |ed.model.dots|;
              var kept := Retain(ed.model.lines, num);
              && r.chosen.None? && r.mode == "Move"
              && |r.model.dots| == n - 1
              && (num < n - 1 ==> r.model.dots[num] == ed.model.dots[n - 1])
              && (forall k :: 0 <= k < n - 1 && k != num ==> r.model.dots[k] == ed.model.dots[k])
              && |r.model.lines| == |kept|
              && (forall i :: 0 <= i < |kept| ==>
                    r.model.lines[i] == Prim(Rename(kept[i].a, n - 1, num), Rename(kept[i].b, n - 1, num),
                                             Rename(kept[i].c, n - 1, num)))
              && (forall i :: 0 <= i < |kept| ==> !r.model.lines[i].Refs(n - 1))
              && r.journal == PushAll(ed.journal, DeleteRecords(ed.model, num))
              && r.model.nodeDots == ed.model.nodeDots && r.model.nodeLines == ed.model.nodeLines
    ensures r.scale == ed.scale && r.defaultCircle == ed.defaultCircle
  {
    match ed.chosen
    case None => ed
    case Some(c) =>
      var m := ed.model;
      var num := c.num;
      var j := PushAll(ed.journal, RemovedRecords(m.lines, num));
      var kept := Retain(m.lines, num);
      RetainSpec(m.lines, num);
      var j2 := DeletedDot(j, m.dots[num], num);
      PushAllSnoc(ed.journal, RemovedRecords(m.lines, num), PointRemoved(m.dots[num], num));
      var dots := if num != |m.dots| - 1 then SwapRemove(m.dots, num) else Pop(m.dots);
      var lines := if num != |dots| then ReplaceLine(kept, |dots|, num) else kept;
      ed.(model := m.(dots := dots, lines := lines), journal := j2, chosen := None, mode := "Move")
  }

  // ---------------------------------------------------------------------------
  // Undo, clear, load
  // ---------------------------------------------------------------------------

  /** `Undo`: pop the latest journal entry and run its inverse; `None` when the
      inverse panics. */
  function Undo(ed: VecRed): (r: Option<VecRed>)
    ensures var u := UndoJournal.Undo(ed.journal);
      var applied := ApplyUndo(ed.model, u.1);
      (r.Some? <==> applied.Some?)
      && (r.Some? ==> r.value == ed.(model := applied.value, journal := u.0, mode := "Move"))
  {
    var u := UndoJournal.Undo(ed.journal);
    match ApplyUndo(ed.model, u.1)
    case None => None
    case Some(m) => Some(ed.(model := m, journal := u.0, mode := "Move"))
  }

  /** `ClearAll`: no points, no primitives, no history, no selection. */
  function ClearAll(ed: VecRed): (r: VecRed)
    ensures r.model.dots == [] && r.model.lines == [] && r.journal.stack == [] && r.chosen.None?
    ensures r.model.nodeDots == ed.model.nodeDots && r.model.nodeLines == ed.model.nodeLines
    ensures r.journal.maxLen == ed.journal.maxLen
    ensures r.mode == ed.mode && r.scale == ed.scale && r.defaultCircle == ed.defaultCircle
  {
    ed.(model := ed.model.(dots := [], lines := []), journal := Clear(ed.journal), chosen := None)
  }

  /** `GetData`: replace points and primitives wholesale; the history is
      dropped since its indices no longer mean anything. */
  function GetData(ed: VecRed, dots: seq<Dot>, lines: seq<Prim>): (r: VecRed)
    ensures r.model.dots == dots && r.model.lines == lines
    ensures r.journal.stack == [] && r.chosen.None? && r.mode == "Move"
    ensures r.model.nodeDots == ed.model.nodeDots && r.model.nodeLines == ed.model.nodeLines
    ensures r.journal.maxLen == ed.journal.maxLen
    ensures r.scale == ed.scale && r.defaultCircle == ed.defaultCircle
  {
    ed.(model := ed.model.(dots := dots, lines := lines), journal := Clear(ed.journal),
        chosen := None, mode := "Move")
  }

  /** `VecRed::update` for the messages of the core. `None` stands for the
      panic of an out-of-range index; `SetZoom` only moves the view. */
  function Update(near: NearFn, ed: VecRed, msg: Message): (r: Option<VecRed>)
    ensures msg.DefLine? ==> (r.Some? <==> DefLineArgsOk(msg.points, msg.shape))
    ensures msg.ChangeApply? || msg.DeleteDot? ==> (r.Some? <==> ChosenInRange(ed))
    ensures msg.ClearAll? || msg.GetData? ==> r.Some? && r.value.journal.stack == []
    ensures msg.DefUnselect? ==> r == Some(ed.(chosen := None))
  {
    match msg
    case ChangeMode(mode) => Some(ed.(mode := mode))
    case GetData(dots, lines) => Some(GetData(ed, dots, lines))
    case DefDot(at) => Some(DefDot(near, ed, at))
    case DefLine(points, shape) =>
      if DefLineArgsOk(points, shape) then Some(DefLine(near, ed, points, shape)) else None
    case DefUnselect => Some(ed.(chosen := None))
    case ChangeApply => if ChosenInRange(ed) then Some(ChangeApply(ed)) else None
    case DeleteDot => if ChosenInRange(ed) then Some(DeleteDot(ed)) else None
    case Undo => Undo(ed)
    case ClearAll => Some(ClearAll(ed))
    case SetZoom(_, _, _) => Some(ed)
  }

  /** `k` consecutive `Undo` messages. */
  function UndoTimes(ed: VecRed, k: nat): (r: Option<VecRed>)
    decreases k
  {
    if k == 0 then Some(ed)
    else
      match Undo(ed)
      case None => None
      case Some(e1) => UndoTimes(e1, k - 1)
  }
}
