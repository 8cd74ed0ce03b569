/** The pending-gesture state of the canvas (`Drawing`) and the parts of it
    that do not draw: its tool name and how its anchors resolve to positions. */
module Gesture {
  import opened Wrappers
  import opened Geometry

  /** A pending gesture. `Idle` is the source's `Drawing::None`; the anchor
      states keep a position and, optionally, the index of the point it came
      from, so that a point moved meanwhile is used at its live position. */
  datatype Drawing =
    | Idle
    | Line
    | LinePoint(point: Pos, num: Option<nat>)
    | Arc
    | ArcPoint(point: Pos, num: Option<nat>)
    | ArcTwoPoints(pointOne: Pos, numOne: Option<nat>, pointTwo: Pos, numTwo: Option<nat>)
    | Point
    | SelectPoint(point: Pos, index: nat)
    | Scaling(startingPoint: Pos)

  /** The state a fresh canvas starts in. */
  function Default(): (d: Drawing)
    ensures d.Idle? && AsStr(d) == "Move"
  {
    Idle
  }

  /** The tool name a state belongs to, compared with the active mode string. */
  function AsStr(d: Drawing): (s: string)
    ensures s == "Point" <==> d.Point?
    ensures s == "Line" <==> d.Line? || d.LinePoint?
    ensures s == "Arc" <==> d.Arc? || d.ArcPoint? || d.ArcTwoPoints?
    ensures s == "Move" <==> d.Idle? || d.SelectPoint? || d.Scaling?
  {
    match d
    case Point => "Point"
    case Line | LinePoint(_, _) => "Line"
    case Arc | ArcPoint(_, _) | ArcTwoPoints(_, _, _, _) => "Arc"
    case _ => "Move"
  }

  /** An anchor's live position: the stored point's position when the index
      is present and in range, else the position captured with the anchor. */
  function ResolveAnchor(points: seq<Dot>, point: Pos, num: Option<nat>): (r: Pos)
    ensures num.Some? && num.value < |points| ==> r == points[num.value].pos
    ensures num.None? || num.value >= |points| ==> r == point
  {
    match num
    case Some(index) => if index < |points| then points[index].pos else point
    case None => point
  }

  /** The anchor positions the overlay marks for a state, in drawing order. A
      selection whose index is out of range marks nothing. */
  function Highlighted(d: Drawing, points: seq<Dot>): (r: seq<Pos>)
    ensures d.SelectPoint? ==>
              (d.index < |points| ==> r == [points[d.index].pos]) && (d.index >= |points| ==> r == [])
    ensures d.LinePoint? || d.ArcPoint? ==> r == [ResolveAnchor(points, d.point, d.num)]
    ensures d.ArcTwoPoints? ==>
              r == [ResolveAnchor(points, d.pointOne, d.numOne), ResolveAnchor(points, d.pointTwo, d.numTwo)]
    ensures d.Idle? || d.Line? || d.Arc? || d.Point? || d.Scaling? ==> r == []
  {
    match d
    case LinePoint(p, n) => [ResolveAnchor(points, p, n)]
    case SelectPoint(p, n) => if n < |points| then [ResolveAnchor(points, p, Some(n))] else []
    case ArcPoint(p, n) => [ResolveAnchor(points, p, n)]
    case ArcTwoPoints(p1, n1, p2, n2) => [ResolveAnchor(points, p1, n1), ResolveAnchor(points, p2, n2)]
    case _ => []
  }
}
