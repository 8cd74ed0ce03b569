/** The geometry store of the editor: points with a radius, primitives that
    refer to points by index, hit-testing, the bounding box, the reference swap
    used by point deletion and its undo, and the flat export. */
module Geometry {

  /** A position in model space (iced's f32 `Point`, over the reals). */
  datatype Pos = Pos(x: real, y: real)

  /** A stored point: its position and the radius drawn around it. */
  datatype Dot = Dot(pos: Pos, radius: real)

  /** The value of a primitive's third slot that marks a straight segment. */
  const Segment: int := -1

  /** A primitive: a segment (a, b) when `c == Segment`, otherwise an arc through
      the points a, b and c. Slots are i32 indices into the point list. */
  datatype Prim = Prim(a: int, b: int, c: int) {

    predicate IsSegment() {
      c == Segment
    }

    /** True when index `k` occurs in any of the three slots. */
    predicate Refs(k: int) {
      a == k || b == k || c == k
    }
  }

  /** The drawing: points, primitives, and the node points and node lines a
      mesh generator fills in (the editor only loads and exports those). */
  datatype Model = Model(dots: seq<Dot>, lines: seq<Prim>, nodeDots: seq<Pos>, nodeLines: seq<(int, int)>)

  /** The hit-test tolerance: `near(p, q, scale)` holds when the Euclidean
      distance from `p` to `q` is below `2 * scale`. The distance itself is f32
      arithmetic and is left uninterpreted. */
  type NearFn = (Pos, Pos, real) -> bool

  // ---------------------------------------------------------------------------
  // Hit-testing (Model::find_point)
  // ---------------------------------------------------------------------------

  /** First index at or after `i` whose point is near `q`, or `|dots|`. */
  function FindFrom(near: NearFn, dots: seq<Dot>, q: Pos, scale: real, i: nat): (r: nat)
    requires i <= |dots|
    ensures i <= r <= |dots|
    ensures r < |dots| ==> near(dots[r].pos, q, scale)
    ensures forall j :: i <= j < r ==> !near(dots[j].pos, q, scale)
    decreases |dots| - i
  {
    if i == |dots| then i
    else if near(dots[i].pos, q, scale) then i
    else FindFrom(near, dots, q, scale, i + 1)
  }

  /** Index of the first point within `2 * scale` of `q`; `|dots|` when there
      is none, which is also the index a newly appended point receives. */
  function FindPoint(near: NearFn, dots: seq<Dot>, q: Pos, scale: real): (r: nat)
    ensures r <= |dots|
    ensures r < |dots| ==> near(dots[r].pos, q, scale)
    ensures forall j :: 0 <= j < r ==> !near(dots[j].pos, q, scale)
    ensures r == |dots| <==> forall j :: 0 <= j < |dots| ==> !near(dots[j].pos, q, scale)
  {
    FindFrom(near, dots, q, scale, 0)
  }

  /** Hit-testing the exact position of a stored point, under a tolerance
      that counts a point as near itself, never creates a new point: it finds
      that point or an earlier one. */
  lemma FindPointAtStoredPosition(near: NearFn, dots: seq<Dot>, i: nat, scale: real)
    requires i < |dots|
    requires near(dots[i].pos, dots[i].pos, scale)
    ensures FindPoint(near, dots, dots[i].pos, scale) <= i
  {
  }

  /** A point found by the hit-test is the unique answer: any index with a near
      point and only far points before it is the result. */
  lemma FindPointIsFirstMatch(near: NearFn, dots: seq<Dot>, q: Pos, scale: real, k: nat)
    requires k < |dots| && near(dots[k].pos, q, scale)
    requires forall j :: 0 <= j < k ==> !near(dots[j].pos, q, scale)
    ensures FindPoint(near, dots, q, scale) == k
  {
  }

  // ---------------------------------------------------------------------------
  // Bounding box (Model::find_min_max)
  // ---------------------------------------------------------------------------

  function Min(a: real, b: real): real {
    if a <= b then a else b
  }

  function Max(a: real, b: real): real {
    if a <= b then b else a
  }

  /** The corner box of all points: the fold starts from the first point and
      takes per-axis minima and maxima; an empty list gives ((0,0),(1000,1000)). */
  method FindMinMax(dots: seq<Dot>) returns (lo: Pos, hi: Pos)
    ensures |dots| == 0 ==> lo == Pos(0.0, 0.0) && hi == Pos(1000.0, 1000.0)
    ensures forall i :: 0 <= i < |dots| ==>
              lo.x <= dots[i].pos.x <= hi.x && lo.y <= dots[i].pos.y <= hi.y
    ensures |dots| > 0 ==> exists i :: 0 <= i < |dots| && dots[i].pos.x == lo.x
    ensures |dots| > 0 ==> exists i :: 0 <= i < |dots| && dots[i].pos.y == lo.y
    ensures |dots| > 0 ==> exists i :: 0 <= i < |dots| && dots[i].pos.x == hi.x
    ensures |dots| > 0 ==> exists i :: 0 <= i < |dots| && dots[i].pos.y == hi.y
  {
    if |dots| == 0 {
      return Pos(0.0, 0.0), Pos(1000.0, 1000.0);
    }
    lo := dots[0].pos;
    hi := lo;
    var k := 0;
    ghost var ix, iy, ax, ay := 0, 0, 0, 0;
    while k < |dots|
      invariant 0 <= k <= |dots|
      invariant forall i :: 0 <= i < k ==>
                  lo.x <= dots[i].pos.x <= hi.x && lo.y <= dots[i].pos.y <= hi.y
      invariant 0 <= ix < |dots| && dots[ix].pos.x == lo.x
      invariant 0 <= iy < |dots| && dots[iy].pos.y == lo.y
      invariant 0 <= ax < |dots| && dots[ax].pos.x == hi.x
      invariant 0 <= ay < |dots| && dots[ay].pos.y == hi.y
    {
      var p := dots[k].pos;
      if p.x < lo.x { ix := k; }
      if p.y < lo.y { iy := k; }
      if p.x > hi.x { ax := k; }
      if p.y > hi.y { ay := k; }
      lo := Pos(Min(lo.x, p.x), Min(lo.y, p.y));
      hi := Pos(Max(hi.x, p.x), Max(hi.y, p.y));
      k := k + 1;
    }
  }

  // ---------------------------------------------------------------------------
  // Reference swap (Model::replace_line)
  // ---------------------------------------------------------------------------

  /** One slot of `replace_line`: `one` becomes `two`, else `two` becomes `one`. */
  function SwapRef(v: int, one: int, two: int): int {
    if v == one then two else if v == two then one else v
  }

  function SwapPrim(p: Prim, one: int, two: int): Prim {
    Prim(SwapRef(p.a, one, two), SwapRef(p.b, one, two), SwapRef(p.c, one, two))
  }

  /** Exchanges the point references `one` and `two` in every slot of every
      primitive, keeping the number and order of primitives. */
  function ReplaceLine(lines: seq<Prim>, one: nat, two: nat): (r: seq<Prim>)
    ensures |r| == |lines|
    ensures forall i :: 0 <= i < |lines| ==> r[i] == SwapPrim(lines[i], one, two)
  {
    seq(|lines|, i requires 0 <= i < |lines| => SwapPrim(lines[i], one, two))
  }

  /** Per slot, `replace_line` is an exchange of the two values: exactly the
      slots holding `one` hold `two` afterwards and vice versa, and no other
      value moves. */
  lemma ReplaceLineExchanges(lines: seq<Prim>, one: nat, two: nat, i: nat)
    requires i < |lines|
    ensures ReplaceLine(lines, one, two)[i].Refs(two) <==> lines[i].Refs(one)
    ensures ReplaceLine(lines, one, two)[i].Refs(one) <==> lines[i].Refs(two)
    ensures forall k: int :: k != one && k != two ==>
              (ReplaceLine(lines, one, two)[i].Refs(k) <==> lines[i].Refs(k))
  {
  }

  /** The two arguments of `replace_line` play symmetric roles. */
  lemma ReplaceLineSymmetric(lines: seq<Prim>, one: nat, two: nat)
    ensures ReplaceLine(lines, one, two) == ReplaceLine(lines, two, one)
  {
  }

  /** Applying `replace_line` twice with the same arguments is the identity;
      with the arguments in either order, as the delete and its undo do. */
  lemma ReplaceLineInvolution(lines: seq<Prim>, one: nat, two: nat)
    ensures ReplaceLine(ReplaceLine(lines, one, two), one, two) == lines
    ensures ReplaceLine(ReplaceLine(lines, one, two), two, one) == lines
  {
    ReplaceLineSymmetric(ReplaceLine(lines, one, two), one, two);
  }

  /** `replace_line(k, k)` changes nothing. */
  lemma ReplaceLineSame(lines: seq<Prim>, k: nat)
    ensures ReplaceLine(lines, k, k) == lines
  {
  }

  // ---------------------------------------------------------------------------
  // Referential integrity
  // ---------------------------------------------------------------------------

  predicate RefOk(v: int, n: nat) {
    0 <= v < n
  }

  /** A primitive whose slots are valid point indices, the third slot possibly
      being the segment marker. */
  predicate PrimOk(p: Prim, n: nat) {
    RefOk(p.a, n) && RefOk(p.b, n) && (p.c == Segment || RefOk(p.c, n))
  }

  /** Every primitive refers only to existing points. */
  predicate Valid(dots: seq<Dot>, lines: seq<Prim>) {
    forall i :: 0 <= i < |lines| ==> PrimOk(lines[i], |dots|)
  }

  // ---------------------------------------------------------------------------
  // Flat export (Model::export)
  // ---------------------------------------------------------------------------

  /** The four flat arrays handed to the file writer and the native solver. */
  datatype Exported = Exported(
    points: seq<(real, real, real)>,
    lines: seq<(int, int, int)>,
    nodeDots: seq<(real, real)>,
    nodeLines: seq<(int, int)>)

  /** Each point becomes `[x, y, radius]`, each primitive its index triple,
      each node point `[x, y]`, each node line its pair; lengths and order are
      kept. */
  function Export(m: Model): (r: Exported)
    ensures |r.points| == |m.dots| && |r.lines| == |m.lines|
    ensures |r.nodeDots| == |m.nodeDots| && r.nodeLines == m.nodeLines
    ensures forall i :: 0 <= i < |m.dots| ==>
              r.points[i] == (m.dots[i].pos.x, m.dots[i].pos.y, m.dots[i].radius)
    ensures forall i :: 0 <= i < |m.lines| ==>
              r.lines[i] == (m.lines[i].a, m.lines[i].b, m.lines[i].c)
    ensures forall i :: 0 <= i < |m.nodeDots| ==>
              r.nodeDots[i] == (m.nodeDots[i].x, m.nodeDots[i].y)
  {
    Exported(
      seq(|m.dots|, i requires 0 <= i < |m.dots| => (m.dots[i].pos.x, m.dots[i].pos.y, m.dots[i].radius)),
      seq(|m.lines|, i requires 0 <= i < |m.lines| => (m.lines[i].a, m.lines[i].b, m.lines[i].c)),
      seq(|m.nodeDots|, i requires 0 <= i < |m.nodeDots| => (m.nodeDots[i].x, m.nodeDots[i].y)),
      m.nodeLines)
  }
}
