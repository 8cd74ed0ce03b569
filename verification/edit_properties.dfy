/** Properties of the editor's arms taken together: referential integrity is
    kept by every arm that builds geometry, and undoing the entries an arm
    journaled gives back the geometry it started from. */
module EditProperties {
  import opened Wrappers
  import opened Geometry
  import opened UndoJournal
  import Messages
  import opened Editing

  // ---------------------------------------------------------------------------
  // Undo messages replay the journal
  // ---------------------------------------------------------------------------

  /** When the journal ends with `recs`, that many `Undo` messages roll them
      back newest first and leave the journal holding what came before. */
  lemma {:induction false} UndoTimesRollback(ed: VecRed, base: seq<UndoRecord>, recs: seq<UndoRecord>)
    requires ed.journal.stack == base + recs
    ensures var r := UndoTimes(ed, |recs|);
      var rb := Rollback(ed.model, recs);
      (r.Some? <==> rb.Some?) && (r.Some? ==> r.value.model == rb.value && r.value.journal.stack == base)
    decreases |recs|
  {
    if |recs| == 0 {
      assert base + recs == base;
    } else {
      var n := |recs| - 1;
      var u := UndoJournal.Undo(ed.journal);
      assert (base + recs)[|base + recs| - 1] == recs[n];
      assert (base + recs)[..|base + recs| - 1] == base + recs[..n];
      match ApplyInverse(ed.model, recs[n])
      case None =>
      case Some(m1) =>
        UndoTimesRollback(ed.(model := m1, journal := u.0, mode := "Move"), base, recs[..n]);
    }
  }

  /** An arm that pushed `recs` onto a journal with room for them all is
      undone by as many `Undo` messages, which roll the records back and
      restore the journal. */
  lemma UndoJournaled(d: VecRed, j0: UndoManager, recs: seq<UndoRecord>)
    requires d.journal == PushAll(j0, recs)
    requires |j0.stack| + |recs| < j0.maxLen
    ensures var r := UndoTimes(d, |recs|);
      var rb := Rollback(d.model, recs);
      (r.Some? <==> rb.Some?) && (r.Some? ==> r.value.model == rb.value && r.value.journal.stack == j0.stack)
  {
    PushAllNoEviction(j0, recs);
    UndoTimesRollback(d, j0.stack, recs);
  }

  // ---------------------------------------------------------------------------
  // Deleting a point and undoing it
  // ---------------------------------------------------------------------------

  /** The last primitive is either kept by the deletion or journaled with its
      placement, never both. */
  lemma RemovalOfLast(lines: seq<Prim>, num: nat)
    requires |lines| > 0
    ensures var n := |lines| - 1;
      var x := lines[n];
      && Retain(lines, num) == Retain(lines[..n], num) + (if x.Refs(num) then [] else [x])
      && RemovedRecords(lines, num)
         == (if x.Refs(num) then [PrimitiveRemoved(x, n)] else []) + RemovedRecords(lines[..n], num)
  {
  }

  /** A non-empty sequence is its front followed by its last element. */
  lemma FrontAndLast<T>(s: seq<T>)
    requires |s| > 0
    ensures s[..|s| - 1] + [s[|s| - 1]] == s
  {
  }

  /** Re-inserting a primitive at its old placement in front of the suffix. */
  lemma ReinsertOne(m: Model, front: seq<Prim>, x: Prim, s: seq<Prim>)
    ensures Rollback(m.(lines := front + s), [PrimitiveRemoved(x, |front|)])
         == Some(m.(lines := front + [x] + s))
  {
    assert (front + s)[..|front|] == front && (front + s)[|front|..] == s;
    assert Insert(front + s, |front|, x) == front + [x] + s;
  }

  /** One step of the re-insertion, stated without reference to how the kept
      primitives and the journal entries were computed. */
  lemma ReinsertStep(m: Model, front: seq<Prim>, x: Prim, s: seq<Prim>,
                     keptFront: seq<Prim>, recsFront: seq<UndoRecord>, dropped: bool,
                     kept: seq<Prim>, recs: seq<UndoRecord>)
    requires var keep := if dropped then [] else [x];
      Rollback(m.(lines := keptFront + (keep + s)), recsFront) == Some(m.(lines := front + (keep + s)))
    requires kept == keptFront + (if dropped then [] else [x])
    requires recs == (if dropped then [PrimitiveRemoved(x, |front|)] else []) + recsFront
    ensures Rollback(m.(lines := kept + s), recs) == Some(m.(lines := front + [x] + s))
  {
    var keep: seq<Prim> := if dropped then [] else [x];
    var rec: seq<UndoRecord> := if dropped then [PrimitiveRemoved(x, |front|)] else [];
    assert keptFront + keep + s == keptFront + (keep + s);
    RollbackAppend(m.(lines := keptFront + (keep + s)), rec, recsFront);
    if dropped {
      assert keep + s == s;
      ReinsertOne(m, front, x, s);
    } else {
      assert front + (keep + s) == front + [x] + s;
    }
  }

  /** Re-inserting the removed primitives, lowest placement first, in front of
      any suffix `s`, rebuilds the primitive list the deletion started from. */
  lemma {:induction false} ReinsertRestores(m: Model, lines: seq<Prim>, s: seq<Prim>, num: nat)
    ensures Rollback(m.(lines := Retain(lines, num) + s), RemovedRecords(lines, num))
         == Some(m.(lines := lines + s))
    decreases |lines|
  {
    if |lines| == 0 {
      assert Retain(lines, num) + s == s && lines + s == s;
    } else {
      var n := |lines| - 1;
      var front := lines[..n];
      var x := lines[n];
      var dropped := x.Refs(num);
      var keep: seq<Prim> := if dropped then [] else [x];
      var rec: seq<UndoRecord> := if dropped then [PrimitiveRemoved(x, n)] else [];
      var kf := Retain(front, num);
      var rf := RemovedRecords(front, num);
      RemovalOfLast(lines, num);
      ReinsertRestores(m, front, keep + s, num);
      ReinsertStep(m, front, x, s, kf, rf, dropped, Retain(lines, num), RemovedRecords(lines, num));
      FrontAndLast(lines);
    }
  }

  /** Swapping the removed point back in after a swap-remove restores the
      original point list. */
  lemma SwapRemoveUndo<T>(s: seq<T>, i: nat)
    requires i < |s|
    ensures i < |s| - 1 ==> Swap(SwapRemove(s, i) + [s[i]], |s| - 1, i) == s
    ensures i == |s| - 1 ==> Swap(Pop(s) + [s[i]], |s| - 1, i) == s
  {
    if i < |s| - 1 {
      var t := Swap(SwapRemove(s, i) + [s[i]], |s| - 1, i);
      assert forall k :: 0 <= k < |s| ==> t[k] == s[k];
    }
  }

  /** The first entry undone after a deletion, the point's own, restores the
      point list and undoes the rename, leaving the surviving primitives. */
  lemma PointRemovedUndoesDelete(ed: VecRed)
    requires ed.chosen.Some? && ed.chosen.value.num < |ed.model.dots|
    ensures var num := ed.chosen.value.num;
      ApplyInverse(DeleteDot(ed).model, PointRemoved(ed.model.dots[num], num))
        == Some(ed.model.(lines := Retain(ed.model.lines, num)))
  {
    var m := ed.model;
    var num := ed.chosen.value.num;
    var n := |m.dots|;
    var kept := Retain(m.lines, num);
    SwapRemoveUndo(m.dots, num);
    if num != n - 1 {
      ReplaceLineInvolution(kept, n - 1, num);
    } else {
      ReplaceLineSame(kept, num);
    }
  }

  /** Once the point's own entry is undone, undoing the primitive entries
      re-inserts every dropped primitive: the whole deletion rolls back. */
  lemma DeleteRecordsRollBack(m: Model, num: nat, deleted: Model)
    requires num < |m.dots|
    requires ApplyInverse(deleted, PointRemoved(m.dots[num], num)) == Some(m.(lines := Retain(m.lines, num)))
    ensures Rollback(deleted, DeleteRecords(m, num)) == Some(m)
  {
    var point := PointRemoved(m.dots[num], num);
    RollbackAppend(deleted, RemovedRecords(m.lines, num), [point]);
    assert [point][..0] == [];
    ReinsertRestores(m, m.lines, [], num);
    assert Retain(m.lines, num) + [] == Retain(m.lines, num);
    assert m.lines + [] == m.lines;
  }

  /** Deleting the selected point and then undoing every entry the deletion
      journaled gives back the exact point and primitive lists, provided the
      journal had room for all of them. */
  lemma DeleteDotThenUndo(ed: VecRed)
    requires ed.chosen.Some? && ed.chosen.value.num < |ed.model.dots|
    requires |ed.journal.stack| + |RemovedRecords(ed.model.lines, ed.chosen.value.num)| + 1 < ed.journal.maxLen
    ensures var r := UndoTimes(DeleteDot(ed), |RemovedRecords(ed.model.lines, ed.chosen.value.num)| + 1);
      r.Some? && r.value.model == ed.model && r.value.journal.stack == ed.journal.stack
  {
    var num := ed.chosen.value.num;
    var d := DeleteDot(ed);
    PointRemovedUndoesDelete(ed);
    DeleteRecordsRollBack(ed.model, num, d.model);
    UndoJournaled(d, ed.journal, DeleteRecords(ed.model, num));
  }

  /** The two-point example: a segment between points 0 and 1; deleting point
      0 drops the segment and moves point 1 to index 0; two undos bring both
      back in their original order. */
  lemma DeleteScenario(ed: VecRed, d0: Dot, d1: Dot)
    requires ed.model.dots == [d0, d1] && ed.model.lines == [Prim(0, 1, Segment)]
    requires ed.chosen.Some? && ed.chosen.value.num == 0
    requires ed.journal.stack == [] && ed.journal.maxLen == DefaultMaxLen
    ensures DeleteDot(ed).model.dots == [d1] && DeleteDot(ed).model.lines == []
    ensures var r := UndoTimes(DeleteDot(ed), 2); r.Some? && r.value.model == ed.model
  {
    var lines := ed.model.lines;
    assert Retain(lines[..0], 0) == [];
    assert Retain(lines, 0) == [];
    assert RemovedRecords(lines[..0], 0) == [];
    assert |RemovedRecords(lines, 0)| == 1;
    DeleteDotThenUndo(ed);
  }

  // ---------------------------------------------------------------------------
  // Referential integrity
  // ---------------------------------------------------------------------------

  lemma DefDotKeepsValid(near: NearFn, ed: VecRed, at: Pos)
    requires Valid(ed.model.dots, ed.model.lines)
    ensures Valid(DefDot(near, ed, at).model.dots, DefDot(near, ed, at).model.lines)
  {
  }

  lemma DefLineKeepsValid(near: NearFn, ed: VecRed, points: seq<Pos>, shape: Prim)
    requires DefLineArgsOk(points, shape)
    requires Valid(ed.model.dots, ed.model.lines)
    ensures var r := DefLine(near, ed, points, shape); Valid(r.model.dots, r.model.lines)
  {
    var r := DefLine(near, ed, points, shape);
    AppendKeepsValid(ed.model.dots, ed.model.lines, r.model.dots, r.model.lines);
  }

  /** Growing the point list and appending at most one primitive over the
      grown list keeps every reference valid. */
  lemma AppendKeepsValid(d0: seq<Dot>, l0: seq<Prim>, d1: seq<Dot>, l1: seq<Prim>)
    requires Valid(d0, l0) && |d0| <= |d1|
    requires l0 <= l1 && |l1| <= |l0| + 1
    requires |l1| == |l0| + 1 ==> PrimOk(l1[|l0|], |d1|)
    ensures Valid(d1, l1)
  {
    forall i | 0 <= i < |l1|
      ensures PrimOk(l1[i], |d1|)
    {
      if i < |l0| {
        assert l1[i] == l0[i];
      }
    }
  }

  /** A surviving primitive, once renamed, refers only to the shrunk list. */
  lemma RenameKeepsRef(v: int, n: nat, num: nat)
    requires num < n && (v == Segment || RefOk(v, n)) && v != num
    ensures var w := Rename(v, n - 1, num); w == Segment || RefOk(w, n - 1)
    ensures v == Segment ==> Rename(v, n - 1, num) == Segment
  {
  }

  lemma DeleteDotKeepsValid(ed: VecRed)
    requires ChosenInRange(ed)
    requires Valid(ed.model.dots, ed.model.lines)
    ensures Valid(DeleteDot(ed).model.dots, DeleteDot(ed).model.lines)
  {
    if ed.chosen.Some? {
      var r := DeleteDot(ed);
      var num := ed.chosen.value.num;
      var n := |ed.model.dots|;
      var kept := Retain(ed.model.lines, num);
      RetainSpec(ed.model.lines, num);
      forall i | 0 <= i < |r.model.lines|
        ensures PrimOk(r.model.lines[i], n - 1)
      {
        var p := kept[i];
        assert p in ed.model.lines;
        var k :| 0 <= k < |ed.model.lines| && ed.model.lines[k] == p;
        assert PrimOk(p, n) && !p.Refs(num);
        RenameKeepsRef(p.a, n, num);
        RenameKeepsRef(p.b, n, num);
        RenameKeepsRef(p.c, n, num);
      }
    }
  }

  /** Every message that builds geometry from the current one keeps all
      primitive references inside the point list. */
  lemma UpdateKeepsValid(near: NearFn, ed: VecRed, msg: Messages.Message)
    requires Valid(ed.model.dots, ed.model.lines)
    requires !msg.GetData? && !msg.Undo?
    ensures var r := Update(near, ed, msg);
      r.Some? ==> Valid(r.value.model.dots, r.value.model.lines)
  {
    if msg.DefDot? {
      DefDotKeepsValid(near, ed, msg.at);
    } else if msg.DefLine? && DefLineArgsOk(msg.points, msg.shape) {
      DefLineKeepsValid(near, ed, msg.points, msg.shape);
    } else if msg.DeleteDot? && ChosenInRange(ed) {
      DeleteDotKeepsValid(ed);
    }
  }

  // ---------------------------------------------------------------------------
  // Undoing the other edits
  // ---------------------------------------------------------------------------

  /** Undoing a point creation by `DefDot` removes it again. */
  lemma DefDotThenUndo(near: NearFn, ed: VecRed, at: Pos)
    requires |ed.journal.stack| + 1 < ed.journal.maxLen
    ensures var d := DefDot(near, ed, at);
      |d.model.dots| == |ed.model.dots| + 1 ==>
        var r := Editing.Undo(d); r.Some? && r.value.model == ed.model && r.value.journal == ed.journal
  {
    var d := DefDot(near, ed, at);
    if |d.model.dots| == |ed.model.dots| + 1 {
      assert d.model.dots[..|ed.model.dots|] == ed.model.dots;
    }
  }

  /** A `DefDot` that created no point found one and leaves nothing to undo,
      however full the journal is. */
  lemma DefDotHitChangesNothing(near: NearFn, ed: VecRed, at: Pos)
    ensures var d := DefDot(near, ed, at);
      |d.model.dots| == |ed.model.dots| ==> d.model == ed.model && d.journal == ed.journal
  {
  }

  /** Undoing a `ChangeApply` that wrote a new value puts the old one back. */
  lemma ChangeApplyThenUndo(ed: VecRed)
    requires ChosenInRange(ed) && ed.chosen.Some?
    ensures var c := ChangeApply(ed);
      c != ed ==> var r := Editing.Undo(c); r.Some? && r.value.model == ed.model && r.value.journal == ed.journal
  {
    var c := ChangeApply(ed);
    if c != ed {
      var num := ed.chosen.value.num;
      assert ed.model.dots[num := Dot(ed.chosen.value.pos, ed.chosen.value.radius)][num := ed.model.dots[num]]
          == ed.model.dots;
      assert (ed.journal.stack + [PointChanged(ed.model.dots[num], num)])[..|ed.journal.stack|] == ed.journal.stack;
    }
  }

  /** Rolling back `c` point creations drops the last `c` points. */
  lemma {:induction false} RollbackCreatedPoints(m: Model, c: nat)
    requires c <= |m.dots|
    ensures Rollback(m, CreationRecords(c, false)) == Some(m.(dots := m.dots[..|m.dots| - c]))
    decreases c
  {
    if c > 0 {
      var recs := CreationRecords(c, false);
      assert recs[..c - 1] == CreationRecords(c - 1, false);
      var m1 := m.(dots := m.dots[..|m.dots| - 1]);
      RollbackCreatedPoints(m1, c - 1);
      assert m1.dots[..|m1.dots| - (c - 1)] == m.dots[..|m.dots| - c];
    } else {
      assert m.dots[..|m.dots|] == m.dots;
    }
  }

  /** `after` is `before` with `created` points and, when `stored`, one
      primitive appended, and the matching creation entries journaled. */
  predicate CreatedFrom(before: VecRed, after: VecRed, created: nat, stored: bool) {
    && before.model.dots <= after.model.dots && |after.model.dots| == |before.model.dots| + created
    && before.model.lines <= after.model.lines
    && |after.model.lines| == |before.model.lines| + (if stored then 1 else 0)
    && after.model.nodeDots == before.model.nodeDots && after.model.nodeLines == before.model.nodeLines
    && after.journal == PushAll(before.journal, CreationRecords(created, stored))
  }

  /** As many `Undo` messages as `after` has extra points and primitives over
      `before` give back the geometry and the journal of `before`. */
  predicate UndoRestores(before: VecRed, after: VecRed) {
    var k := |after.model.dots| - |before.model.dots| + |after.model.lines| - |before.model.lines|;
    k >= 0 &&
    var r := UndoTimes(after, k);
    r.Some? && r.value.model == before.model && r.value.journal.stack == before.journal.stack
  }

  /** Rolling back the creation entries drops the primitive, then the points. */
  lemma CreationRollback(before: VecRed, after: VecRed, created: nat, stored: bool)
    requires CreatedFrom(before, after, created, stored)
    ensures Rollback(after.model, CreationRecords(created, stored)) == Some(before.model)
  {
    var m0 := after.model.(lines := before.model.lines);
    if stored {
      RollbackAppend(after.model, CreationRecords(created, false), [PrimitiveAdded]);
      assert CreationRecords(created, false) + [PrimitiveAdded] == CreationRecords(created, stored);
      assert after.model.lines[..|after.model.lines| - 1] == before.model.lines;
      assert ApplyInverse(after.model, PrimitiveAdded) == Some(m0);
    } else {
      assert after.model.lines == before.model.lines;
    }
    RollbackCreatedPoints(m0, created);
    assert m0.dots[..|m0.dots| - created] == before.model.dots;
  }

  /** Undoing the creation entries of any arm that appended `created` points
      and, when `stored`, one primitive, restores the geometry it started
      from. */
  lemma CreationThenUndo(before: VecRed, after: VecRed, created: nat, stored: bool)
    requires CreatedFrom(before, after, created, stored)
    requires |before.journal.stack| + created + 1 < before.journal.maxLen
    ensures UndoRestores(before, after)
  {
    var recs := CreationRecords(created, stored);
    assert |recs| == |after.model.dots| - |before.model.dots| + |after.model.lines| - |before.model.lines|;
    UndoJournaled(after, before.journal, recs);
    CreationRollback(before, after, created, stored);
  }

  /** `DefLine` appends at most three points and at most one primitive and
      journals exactly those creations. */
  lemma DefLineCreates(near: NearFn, ed: VecRed, points: seq<Pos>, shape: Prim)
    requires DefLineArgsOk(points, shape)
    ensures var d := DefLine(near, ed, points, shape);
      var created := |d.model.dots| - |ed.model.dots|;
      created <= 3 && CreatedFrom(ed, d, created, |d.model.lines| > |ed.model.lines|)
  {
  }

  /** Undoing every entry a `DefLine` journaled drops the primitive it stored
      and the points it created, restoring the geometry it started from. */
  lemma DefLineThenUndo(near: NearFn, ed: VecRed, points: seq<Pos>, shape: Prim)
    requires DefLineArgsOk(points, shape)
    requires |ed.journal.stack| + ShapeSize(shape) + 1 < ed.journal.maxLen
    ensures UndoRestores(ed, DefLine(near, ed, points, shape))
  {
    var d := DefLine(near, ed, points, shape);
    DefLineCreates(near, ed, points, shape);
    CreationThenUndo(ed, d, |d.model.dots| - |ed.model.dots|, |d.model.lines| > |ed.model.lines|);
  }

  /** One step of `AddDots`: the last position is resolved after the others. */
  lemma AddDotsLast(near: NearFn, m: Model, j: UndoManager, points: seq<Pos>, scale: real, circle: real)
    requires |points| > 0
    ensures var prev := AddDots(near, m, j, points[..|points| - 1], scale, circle);
      var a := AddDot(near, prev.0, prev.1, points[|points| - 1], scale, circle);
      AddDots(near, m, j, points, scale, circle) == (a.model, a.journal, prev.2 + [a.index])
  {
  }

  /** Hit-testing a position right after resolving it finds the same point. */
  lemma AddDotAgain(near: NearFn, m: Model, j: UndoManager, p: Pos, scale: real, circle: real)
    requires near(p, p, scale)
    ensures var a := AddDot(near, m, j, p, scale, circle);
      AddDot(near, a.model, a.journal, p, scale, circle) == a
  {
    var a := AddDot(near, m, j, p, scale, circle);
    if FindPoint(near, m.dots, p, scale) == |m.dots| {
      FindPointIsFirstMatch(near, a.model.dots, p, scale, |m.dots|);
    }
  }

  /** Resolving a single position is one find-or-create. */
  lemma AddDotsOne(near: NearFn, m: Model, j: UndoManager, p: Pos, scale: real, circle: real)
    ensures var a := AddDot(near, m, j, p, scale, circle);
      AddDots(near, m, j, [p], scale, circle) == (a.model, a.journal, [a.index])
  {
    var a := AddDot(near, m, j, p, scale, circle);
    var one := [p];
    assert one[..0] == [] && one[0] == p;
    var none: seq<Pos> := [];
    var noIndex: seq<nat> := [];
    assert AddDots(near, m, j, none, scale, circle) == (m, j, noIndex);
    assert noIndex + [a.index] == [a.index];
    AddDotsLast(near, m, j, one, scale, circle);
  }

  /** Resolving the same position twice, under a tolerance that counts a
      point as near itself, yields one index and creates at most one point. */
  lemma AddDotsTwice(near: NearFn, m: Model, j: UndoManager, p: Pos, scale: real, circle: real)
    requires near(p, p, scale)
    ensures var r := AddDots(near, m, j, [p, p], scale, circle);
      r.2[0] == r.2[1] && |r.0.dots| <= |m.dots| + 1
  {
    var a := AddDot(near, m, j, p, scale, circle);
    AddDotAgain(near, m, j, p, scale, circle);
    AddDotsOne(near, m, j, p, scale, circle);
    PairHalves(p);
    AddDotsLast(near, m, j, [p, p], scale, circle);
  }

  /** The front of a repeated pair is the single element. */
  lemma PairHalves<T>(x: T)
    ensures [x, x][..1] == [x] && [x, x][1] == x
  {
  }

  /** A segment request whose two positions coincide, under a tolerance that
      counts a point as near itself, stores nothing and journals at most the
      one point it created. */
  lemma DegenerateSegmentRejected(near: NearFn, ed: VecRed, p: Pos)
    requires near(p, p, ed.scale)
    ensures var d := DefLine(near, ed, [p, p], Prim(0, 1, Segment));
      d.model.lines == ed.model.lines && |d.model.dots| <= |ed.model.dots| + 1
      && d.journal == PushAll(ed.journal, CreationRecords(|d.model.dots| - |ed.model.dots|, false))
  {
    assert [p, p][..2] == [p, p];
    AddDotsTwice(near, ed.model, ed.journal, p, ed.scale, ed.defaultCircle);
  }
}
