/** The canvas program: on every event it first reconciles the pending
    gesture with the active mode, then turns mouse presses and releases into
    edit messages. */
module Framework {
  import opened Wrappers
  import opened Geometry
  import opened Messages
  import opened Gesture

  datatype Button = Left | Right | Middle

  datatype MouseEvent =
    | ButtonPressed(button: Button)
    | ButtonReleased(button: Button)
    | CursorMoved

  /** A canvas event: a mouse event, or anything else (keyboard, touch). */
  datatype Event = Mouse(mouse: MouseEvent) | NonMouse

  datatype Status = Captured | Ignored

  /** What the canvas reads. `reverse` maps a screen position to model space
      (the zoom); `snap` is the grid rounding, applied when `snapOn`; `near` is
      the hit-test tolerance, used with `scale`. */
  datatype Canvas = Canvas(
    dots: seq<Dot>,
    scale: real,
    mode: string,
    snapOn: bool,
    snap: Pos -> Pos,
    reverse: Pos -> Pos,
    near: NearFn)

  /** The outcome of one event: the new pending state, whether the event was
      consumed, and the message for the editor, if any. */
  datatype Step = Step(state: Drawing, status: Status, message: Option<Message>)

  /** The primitive shapes carried by `DefLine`: a segment over two positions
      or an arc over three. */
  const SegmentShape: Prim := Prim(0, 1, Segment)
  const ArcShape: Prim := Prim(0, 1, 2)

  /** Brings the pending state in line with the mode before an event is
      handled. A selection or the other tool's single anchor is carried over
      into Line or Arc; any other mode abandons pending anchors. */
  function Reconcile(mode: string, s: Drawing): (r: Drawing)
    ensures mode == AsStr(s) ==> r == s
    ensures mode == "Line" ==>
              (s.SelectPoint? ==> r == LinePoint(s.point, Some(s.index)))
              && (s.ArcPoint? ==> r == LinePoint(s.point, s.num))
              && (!s.SelectPoint? && !s.ArcPoint? ==> r == s)
    ensures mode == "Arc" ==>
              (s.SelectPoint? ==> r == ArcPoint(s.point, Some(s.index)))
              && (s.LinePoint? ==> r == ArcPoint(s.point, s.num))
              && (!s.SelectPoint? && !s.LinePoint? ==> r == s)
    ensures mode != "Line" && mode != "Arc" ==>
              (s.LinePoint? || s.ArcPoint? || s.ArcTwoPoints? ==> r == Idle)
              && (!s.LinePoint? && !s.ArcPoint? && !s.ArcTwoPoints? ==> r == s)
  {
    if mode == AsStr(s) then s
    else if mode == "Line" then
      match s
      case SelectPoint(p, n) => LinePoint(p, Some(n))
      case ArcPoint(p, n) => LinePoint(p, n)
      case _ => s
    else if mode == "Arc" then
      match s
      case SelectPoint(p, n) => ArcPoint(p, Some(n))
      case LinePoint(p, n) => ArcPoint(p, n)
      case _ => s
    else
      match s
      case LinePoint(_, _) | ArcPoint(_, _) | ArcTwoPoints(_, _, _, _) => Idle
      case _ => s
  }

  /** Reconciling twice with the same mode is reconciling once. */
  lemma ReconcileIdempotent(mode: string, s: Drawing)
    ensures Reconcile(mode, Reconcile(mode, s)) == Reconcile(mode, s)
  {
  }

  /** Reconciliation keeps an anchor's position and snapped index: a state
      carrying one anchor still carries the same one afterwards, or none. */
  lemma ReconcileKeepsAnchor(mode: string, s: Drawing)
    requires s.LinePoint? || s.ArcPoint?
    ensures var r := Reconcile(mode, s);
      r.Idle? || ((r.LinePoint? || r.ArcPoint?) && r.point == s.point && r.num == s.num)
  {
  }

  /** The armed state a left press resets to when the state belongs to another
      tool. The point tool is matched under the name "Dot". */
  function PressTarget(mode: string): (r: Drawing)
    ensures mode == "Dot" ==> r == Point
    ensures mode == "Line" ==> r == Line
    ensures mode == "Arc" ==> r == Arc
    ensures mode != "Dot" && mode != "Line" && mode != "Arc" ==> r == Idle
  {
    if mode == "Dot" then Point
    else if mode == "Line" then Line
    else if mode == "Arc" then Arc
    else Idle
  }

  /** Left press: a state of another tool is first reset to the mode's armed
      state; then the point tool selects or creates a point, the Line and Arc
      tools arm, advance or complete their gesture, and any other state starts
      a zoom rectangle. */
  function LeftPress(c: Canvas, s: Drawing, cursor: Pos): (r: Step)
    ensures r.status == Captured
  {
    var at := c.reverse(cursor);
    var s1 := if AsStr(s) != c.mode then PressTarget(c.mode) else s;
    match s1
    case Point =>
      Step(SelectPoint(at, FindPoint(c.near, c.dots, at, c.scale)), Captured, Some(DefDot(at)))
    case Line =>
      Step(LinePoint(at, None), Captured, None)
    case LinePoint(p, n) =>
      Step(Line, Captured, Some(DefLine([ResolveAnchor(c.dots, p, n), at], SegmentShape)))
    case Arc =>
      Step(ArcPoint(at, None), Captured, None)
    case ArcPoint(p, n) =>
      Step(ArcTwoPoints(p, n, at, None), Captured, None)
    case ArcTwoPoints(p1, n1, p2, n2) =>
      Step(Arc, Captured,
           Some(DefLine([ResolveAnchor(c.dots, p1, n1), ResolveAnchor(c.dots, p2, n2), at], ArcShape)))
    case _ =>
      Step(Scaling(cursor), Captured, Some(DefUnselect))
  }

  /** Right press: snaps to an existing point; over empty space it does
      nothing. */
  function RightPress(c: Canvas, s: Drawing, cursor: Pos): (r: Step)
    ensures r.status == Captured
  {
    var at := c.reverse(cursor);
    var a := FindPoint(c.near, c.dots, at, c.scale);
    if a >= |c.dots| then Step(s, Captured, None)
    else
      match s
      case LinePoint(p, _) =>
        Step(Line, Captured, Some(DefLine([p, at], SegmentShape)))
      case ArcPoint(p, n) =>
        Step(ArcTwoPoints(p, n, c.dots[a].pos, Some(a)), Captured, None)
      case ArcTwoPoints(p1, _, p2, _) =>
        Step(Arc, Captured, Some(DefLine([p1, p2, at], ArcShape)))
      case _ =>
        Step(SelectPoint(c.dots[a].pos, a), Captured, Some(DefDot(at)))
  }

  /** `Framework::simple_mouse_events`: a mouse event at a position inside the
      canvas (after grid snapping, before the zoom is reversed). */
  function SimpleMouseEvents(c: Canvas, s: Drawing, e: MouseEvent, cursor: Pos): (r: Step)
    ensures r.status == Captured
    ensures e == ButtonReleased(Left) ==>
              (s.Scaling? ==>
                 r.state == Idle && r.message == Some(SetZoom(c.reverse(s.startingPoint), c.reverse(cursor), false)))
              && (!s.Scaling? ==> r.state == s && r.message == None)
    ensures (e.CursorMoved? || e == ButtonPressed(Middle) || e == ButtonReleased(Right) || e == ButtonReleased(Middle))
              ==> r.state == s && r.message == None
    ensures e == ButtonPressed(Right) && FindPoint(c.near, c.dots, c.reverse(cursor), c.scale) == |c.dots| ==>
              r.state == s && r.message == None
  {
    match e
    case ButtonPressed(Left) => LeftPress(c, s, cursor)
    case ButtonPressed(Right) => RightPress(c, s, cursor)
    case ButtonReleased(Left) =>
      if s.Scaling? then
        Step(Idle, Captured, Some(SetZoom(c.reverse(s.startingPoint), c.reverse(cursor), false)))
      else Step(s, Captured, None)
    case _ => Step(s, Captured, None)
  }

  /** `Framework::update`: reconcile, then handle mouse events inside the
      canvas; events outside it and non-mouse events are ignored. */
  function Update(c: Canvas, s: Drawing, event: Event, cursorInBounds: Option<Pos>): (r: Step)
    ensures event.NonMouse? || cursorInBounds.None? ==>
              r == Step(Reconcile(c.mode, s), Ignored, None)
    ensures event.Mouse? && cursorInBounds.Some? ==> r.status == Captured
    ensures event.Mouse? && cursorInBounds.Some? ==>
              r == SimpleMouseEvents(c, Reconcile(c.mode, s), event.mouse,
                                     if c.snapOn then c.snap(cursorInBounds.value) else cursorInBounds.value)
  {
    var s1 := Reconcile(c.mode, s);
    match event
    case NonMouse => Step(s1, Ignored, None)
    case Mouse(me) =>
      match cursorInBounds
      case None => Step(s1, Ignored, None)
      case Some(p) =>
        var cursor := if c.snapOn then c.snap(p) else p;
        SimpleMouseEvents(c, s1, me, cursor)
  }

  // ---------------------------------------------------------------------------
  // Properties of the press handlers
  // ---------------------------------------------------------------------------

  /** A first left press under the Line or Arc tool, whether the tool was
      already armed or the state belonged to another tool, captures the cursor
      as the first anchor and emits nothing; a second Arc press captures the
      second anchor. */
  lemma LeftPressCapturesAnchors(c: Canvas, s: Drawing, cursor: Pos)
    ensures var r := LeftPress(c, s, cursor);
      var at := c.reverse(cursor);
      && (c.mode == "Line" && !s.LinePoint? ==> r.state == LinePoint(at, None) && r.message.None?)
      && (c.mode == "Arc" && !s.ArcPoint? && !s.ArcTwoPoints? ==> r.state == ArcPoint(at, None) && r.message.None?)
      && (c.mode == "Arc" && s.ArcPoint? ==>
            r.state == ArcTwoPoints(s.point, s.num, at, None) && r.message.None?)
  {
  }

  /** Completing a segment or an arc by left press uses each anchor's live
      position, emits the matching shape and re-arms the tool. */
  lemma LeftPressCompletes(c: Canvas, s: Drawing, cursor: Pos)
    ensures var r := LeftPress(c, s, cursor);
      var at := c.reverse(cursor);
      && (c.mode == "Line" && s.LinePoint? ==>
            r.state == Line
            && r.message == Some(DefLine([ResolveAnchor(c.dots, s.point, s.num), at], Prim(0, 1, -1))))
      && (c.mode == "Arc" && s.ArcTwoPoints? ==>
            r.state == Arc
            && r.message == Some(DefLine([ResolveAnchor(c.dots, s.pointOne, s.numOne),
                                          ResolveAnchor(c.dots, s.pointTwo, s.numTwo), at], Prim(0, 1, 2))))
  {
  }

  /** Under any mode but a drawing tool, a left press starts a zoom rectangle
      anchored at the raw screen position and clears the selection. The armed
      point state is the one exception, and only while the mode is "Point". */
  lemma LeftPressOtherwiseZooms(c: Canvas, s: Drawing, cursor: Pos)
    requires c.mode != "Dot" && c.mode != "Line" && c.mode != "Arc"
    requires !s.Point? || c.mode != "Point"
    ensures LeftPress(c, s, cursor) == Step(Scaling(cursor), Captured, Some(DefUnselect))
  {
  }

  /** Right press on a point: a pending segment completes at the cursor with
      the anchor as stored; an Arc anchor takes the hit point as its second
      anchor; a pending arc completes with its anchors as stored; any other
      state selects the hit point. */
  lemma RightPressOnPoint(c: Canvas, s: Drawing, cursor: Pos)
    requires FindPoint(c.near, c.dots, c.reverse(cursor), c.scale) < |c.dots|
    ensures var a := FindPoint(c.near, c.dots, c.reverse(cursor), c.scale);
      var at := c.reverse(cursor);
      var r := RightPress(c, s, cursor);
      && (s.LinePoint? ==> r.state == Line && r.message == Some(DefLine([s.point, at], Prim(0, 1, -1))))
      && (s.ArcPoint? ==> r.state == ArcTwoPoints(s.point, s.num, c.dots[a].pos, Some(a)) && r.message.None?)
      && (s.ArcTwoPoints? ==>
            r.state == Arc && r.message == Some(DefLine([s.pointOne, s.pointTwo, at], Prim(0, 1, 2))))
      && (!s.LinePoint? && !s.ArcPoint? && !s.ArcTwoPoints? ==>
            r.state == SelectPoint(c.dots[a].pos, a) && r.message == Some(DefDot(at)))
  {
  }

  /** With the grid snap on, a right press inside the canvas hit-tests the
      snapped cursor: it does nothing exactly when no point is near the
      snapped position, and otherwise moves the gesture or emits a message. */
  lemma SnappedRightPress(c: Canvas, s: Drawing, p: Pos)
    requires c.snapOn
    ensures var r := Update(c, s, Mouse(ButtonPressed(Right)), Some(p));
      var hit := FindPoint(c.near, c.dots, c.reverse(c.snap(p)), c.scale);
      && (hit == |c.dots| ==> r.state == Reconcile(c.mode, s) && r.message.None?)
      && (hit < |c.dots| ==> r.state != Reconcile(c.mode, s) || r.message.Some?)
  {
  }

  /** A step whose `DefLine`, if any, carries two positions with the segment
      marker or three with a non-marker third slot, which is what the editor
      indexes. */
  predicate EmitsWellFormed(r: Step) {
    r.message.Some? && r.message.value.DefLine? ==>
      var m := r.message.value;
      (|m.points| == 2 && m.shape.c == Segment) || (|m.points| == 3 && m.shape.c != Segment)
  }

  /** The `DefLine`s a left press emits are well formed. */
  lemma LeftPressEmitsWellFormed(c: Canvas, s: Drawing, cursor: Pos)
    ensures EmitsWellFormed(LeftPress(c, s, cursor))
  {
  }

  /** The `DefLine`s a right press emits are well formed. */
  lemma RightPressEmitsWellFormed(c: Canvas, s: Drawing, cursor: Pos)
    ensures EmitsWellFormed(RightPress(c, s, cursor))
  {
  }

  /** The `DefLine`s any mouse event emits are well formed. */
  lemma MouseEventEmitsWellFormed(c: Canvas, s: Drawing, e: MouseEvent, cursor: Pos)
    ensures EmitsWellFormed(SimpleMouseEvents(c, s, e, cursor))
  {
    LeftPressEmitsWellFormed(c, s, cursor);
    RightPressEmitsWellFormed(c, s, cursor);
  }

  /** Every `DefLine` the canvas emits is well formed. */
  lemma EmittedLinesWellFormed(c: Canvas, s: Drawing, event: Event, cursorInBounds: Option<Pos>)
    ensures EmitsWellFormed(Update(c, s, event, cursorInBounds))
  {
    if event.Mouse? && cursorInBounds.Some? {
      var p := cursorInBounds.value;
      MouseEventEmitsWellFormed(c, Reconcile(c.mode, s), event.mouse, if c.snapOn then c.snap(p) else p);
    }
  }

  // ---------------------------------------------------------------------------
  // The tool name of the point tool
  // ---------------------------------------------------------------------------

  /** The point tool is dispatched under "Dot" while its state reports
      "Point". Under "Dot" no state ever matches, so every left press resets
      to the armed point state and selects or creates a point, which is what
      a matching name would do too. */
  lemma DotModeLeftPressSelects(c: Canvas, s: Drawing, cursor: Pos)
    requires c.mode == "Dot"
    ensures var at := c.reverse(cursor);
      LeftPress(c, s, cursor)
        == Step(SelectPoint(at, FindPoint(c.near, c.dots, at, c.scale)), Captured, Some(DefDot(at)))
  {
    assert AsStr(s) != "Dot";
  }

  /** Under the name "Point" that `as_str` reports, no left press from any
      state but the armed point state creates a point: the reset falls through
      to the default and the press starts a zoom rectangle instead. */
  lemma PointModeNeverCreates(c: Canvas, s: Drawing, cursor: Pos)
    requires c.mode == "Point"
    requires !s.Point?
    ensures LeftPress(c, s, cursor) == Step(Scaling(cursor), Captured, Some(DefUnselect))
  {
  }

  // ---------------------------------------------------------------------------
  // Gesture scenarios
  // ---------------------------------------------------------------------------

  /** Line tool from a fresh canvas: a left press at A over empty space arms an
      anchor, a left press at B emits the segment A-B. */
  lemma LineGestureScenario(c: Canvas, a: Pos, b: Pos)
    requires c.mode == "Line" && !c.snapOn
    ensures var s1 := Update(c, Default(), Mouse(ButtonPressed(Left)), Some(a));
      var s2 := Update(c, s1.state, Mouse(ButtonPressed(Left)), Some(b));
      && s1.state == LinePoint(c.reverse(a), None) && s1.message.None?
      && s2.state == Line
      && s2.message == Some(DefLine([c.reverse(a), c.reverse(b)], Prim(0, 1, -1)))
  {
  }

  /** A Line anchor snapped to point `k` survives a switch to Arc and becomes
      the arc's first anchor, resolved to the point's live position. */
  lemma SwitchLineToArcScenario(c: Canvas, p: Pos, k: nat, b: Pos, d: Pos)
    requires c.mode == "Arc" && !c.snapOn && k < |c.dots|
    ensures var s1 := Update(c, LinePoint(p, Some(k)), Mouse(ButtonPressed(Left)), Some(b));
      var s2 := Update(c, s1.state, Mouse(ButtonPressed(Left)), Some(d));
      && s1.state == ArcTwoPoints(p, Some(k), c.reverse(b), None) && s1.message.None?
      && s2.state == Arc
      && s2.message == Some(DefLine([c.dots[k].pos, c.reverse(b), c.reverse(d)], Prim(0, 1, 2)))
  {
  }
}
