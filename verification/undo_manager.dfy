/** The undo journal: a bounded stack of inverse operations. The source keeps
    boxed closures; here each closure is the record of which mutation it undoes,
    and `ApplyInverse` is the one interpreter of those records. */
module UndoJournal {
  import opened Wrappers
  import opened Geometry

  /** What a journal entry undoes. */
  datatype UndoRecord =
    | PointAdded                                  // undo: drop the last point
    | PrimitiveAdded                              // undo: drop the last primitive
    | PointRemoved(pt: Dot, num: nat)             // undo a swap-remove of point `num`
    | PrimitiveRemoved(prim: Prim, placement: nat) // undo: re-insert at `placement`
    | PointChanged(prev: Dot, num: nat)           // undo: write `prev` back at `num`

  /** The journal: entries oldest first, and the length at which the oldest
      entry is evicted. */
  datatype UndoManager = UndoManager(stack: seq<UndoRecord>, maxLen: nat)

  const DefaultMaxLen: nat := 25

  /** A fresh journal: empty, evicting at 25 entries. */
  function Default(): (j: UndoManager)
    ensures j.stack == [] && j.maxLen == 25
  {
    UndoManager([], DefaultMaxLen)
  }

  /** Empties the journal. */
  function Clear(j: UndoManager): (r: UndoManager)
    ensures r.stack == [] && r.maxLen == j.maxLen
  {
    j.(stack := [])
  }

  /** Appends `rec`; when the journal then holds `maxLen` entries or more, the
      oldest one (index 0) is dropped. */
  function Push(j: UndoManager, rec: UndoRecord): (r: UndoManager)
    ensures r.maxLen == j.maxLen
    ensures |j.stack| + 1 < j.maxLen ==> r.stack == j.stack + [rec]
    ensures |j.stack| + 1 >= j.maxLen ==> r.stack == (j.stack + [rec])[1..]
    ensures |r.stack| <= if |j.stack| < j.maxLen - 1 then j.maxLen - 1 else |j.stack|
    ensures |r.stack| > 0 ==> r.stack[|r.stack| - 1] == rec
  {
    var s := j.stack + [rec];
    if |s| >= j.maxLen then j.(stack := s[1..]) else j.(stack := s)
  }

  /** Pushes several records in order. */
  function PushAll(j: UndoManager, recs: seq<UndoRecord>): (r: UndoManager)
    ensures r.maxLen == j.maxLen
    decreases |recs|
  {
    if |recs| == 0 then j else PushAll(Push(j, recs[0]), recs[1..])
  }

  /** Pushing `a + [x]` is pushing `a` and then `x`. */
  lemma {:induction false} PushAllSnoc(j: UndoManager, a: seq<UndoRecord>, x: UndoRecord)
    ensures PushAll(j, a + [x]) == Push(PushAll(j, a), x)
    decreases |a|
  {
    if |a| == 0 {
      assert a + [x] == [x];
    } else {
      assert (a + [x])[0] == a[0];
      assert (a + [x])[1..] == a[1..] + [x];
      PushAllSnoc(Push(j, a[0]), a[1..], x);
    }
  }

  /** With room for all of them, pushing several records appends them all. */
  lemma {:induction false} PushAllNoEviction(j: UndoManager, recs: seq<UndoRecord>)
    requires |j.stack| + |recs| < j.maxLen
    ensures PushAll(j, recs).stack == j.stack + recs
    decreases |recs|
  {
    if |recs| > 0 {
      PushAllNoEviction(Push(j, recs[0]), recs[1..]);
      assert j.stack + [recs[0]] + recs[1..] == j.stack + recs;
    }
  }

  /** Starting at or below the cap, no sequence of pushes takes the journal
      past `maxLen - 1` entries. */
  lemma {:induction false} PushAllBounded(j: UndoManager, recs: seq<UndoRecord>)
    requires |j.stack| < j.maxLen
    ensures |PushAll(j, recs).stack| < j.maxLen
    decreases |recs|
  {
    if |recs| > 0 {
      PushAllBounded(Push(j, recs[0]), recs[1..]);
    }
  }

  /** `UndoManager::deleted_dot`: journals the removal of point `num`, whose
      undo re-inserts `dot` there. */
  function DeletedDot(j: UndoManager, dot: Dot, num: nat): UndoManager {
    Push(j, PointRemoved(dot, num))
  }

  /** `UndoManager::deleted_line`: journals the removal of the primitive at
      `placement`, whose undo re-inserts `line` there. */
  function DeletedLine(j: UndoManager, line: Prim, placement: nat): UndoManager {
    Push(j, PrimitiveRemoved(line, placement))
  }

  /** `UndoManager::pushed_dot`: journals an appended point, whose undo pops it. */
  function PushedDot(j: UndoManager): UndoManager {
    Push(j, PointAdded)
  }

  /** `UndoManager::pushed_line`: journals an appended primitive, whose undo
      pops it. */
  function PushedLine(j: UndoManager): UndoManager {
    Push(j, PrimitiveAdded)
  }

  /** `UndoManager::changed_dot` appends directly, without the eviction step. */
  function ChangedDot(j: UndoManager, prev: Dot, num: nat): (r: UndoManager)
    ensures r.maxLen == j.maxLen
    ensures r.stack == j.stack + [PointChanged(prev, num)]
  {
    j.(stack := j.stack + [PointChanged(prev, num)])
  }

  /** A journal already holding `maxLen - 1` entries stays there under `Push`,
      while `ChangedDot` takes it to `maxLen`: the cap is bypassed. */
  lemma ChangedDotBypassesCap(j: UndoManager, prev: Dot, num: nat)
    requires j.maxLen >= 1 && |j.stack| == j.maxLen - 1
    ensures |Push(j, PointChanged(prev, num)).stack| == j.maxLen - 1
    ensures |ChangedDot(j, prev, num).stack| == j.maxLen
  {
  }

  /** Pops the most recent entry. `None` is the no-op returned for an empty
      journal. */
  function Undo(j: UndoManager): (r: (UndoManager, Option<UndoRecord>))
    ensures r.0.maxLen == j.maxLen
    ensures |j.stack| == 0 ==> r.0 == j && r.1 == None
    ensures |j.stack| > 0 ==> r.1.Some? && r.0.stack + [r.1.value] == j.stack
  {
    if |j.stack| == 0 then (j, None)
    else (j.(stack := j.stack[..|j.stack| - 1]), Some(j.stack[|j.stack| - 1]))
  }

  /** The most recently pushed record is the next one undone. */
  lemma UndoAfterPush(j: UndoManager, rec: UndoRecord)
    requires j.maxLen >= 2
    ensures Undo(Push(j, rec)).1 == Some(rec)
    ensures |j.stack| + 1 < j.maxLen ==> Undo(Push(j, rec)).0 == j
  {
    assert |(j.stack + [rec])[1..]| > 0 || |j.stack| + 1 < j.maxLen;
  }

  /** Each of the four journaling entry points puts its record on top, where
      the next undo finds it; with room left, that undo gives back the journal
      as it was. */
  lemma EntriesUndoneNext(j: UndoManager, dot: Dot, num: nat, line: Prim, placement: nat)
    requires j.maxLen >= 2
    ensures Undo(DeletedDot(j, dot, num)).1 == Some(PointRemoved(dot, num))
    ensures Undo(DeletedLine(j, line, placement)).1 == Some(PrimitiveRemoved(line, placement))
    ensures Undo(PushedDot(j)).1 == Some(PointAdded)
    ensures Undo(PushedLine(j)).1 == Some(PrimitiveAdded)
    ensures |j.stack| + 1 < j.maxLen ==>
              && Undo(DeletedDot(j, dot, num)).0 == j && Undo(DeletedLine(j, line, placement)).0 == j
              && Undo(PushedDot(j)).0 == j && Undo(PushedLine(j)).0 == j
  {
    UndoAfterPush(j, PointRemoved(dot, num));
    UndoAfterPush(j, PrimitiveRemoved(line, placement));
    UndoAfterPush(j, PointAdded);
    UndoAfterPush(j, PrimitiveAdded);
  }

  // ---------------------------------------------------------------------------
  // Interpreting the records
  // ---------------------------------------------------------------------------

  /** Exchanges the elements at `i` and `k` (Rust's `Vec::swap`). */
  function Swap<T>(s: seq<T>, i: nat, k: nat): (r: seq<T>)
    requires i < |s| && k < |s|
    ensures |r| == |s| && r[i] == s[k] && r[k] == s[i]
    ensures forall n :: 0 <= n < |s| && n != i && n != k ==> r[n] == s[n]
  {
    s[i := s[k]][k := s[i]]
  }

  /** Rust's `Vec::insert`: `x` lands at `p`, later elements shift right. */
  function Insert<T>(s: seq<T>, p: nat, x: T): (r: seq<T>)
    requires p <= |s|
    ensures |r| == |s| + 1 && r[p] == x
    ensures r[..p] == s[..p] && r[p + 1..] == s[p..]
  {
    s[..p] + [x] + s[p..]
  }

  /** Rust's `Vec::pop` with the popped value discarded: an empty vector
      stays empty. */
  function Pop<T>(s: seq<T>): (r: seq<T>)
    ensures |s| == 0 ==> r == s
    ensures |s| > 0 ==> r + [s[|s| - 1]] == s
  {
    if |s| == 0 then s else s[..|s| - 1]
  }

  /** Runs the inverse operation a record stands for. `None` is the panic the
      closure would raise on an out-of-range index. */
  function ApplyInverse(m: Model, rec: UndoRecord): (r: Option<Model>)
    ensures r.Some? ==> r.value.nodeDots == m.nodeDots && r.value.nodeLines == m.nodeLines
    ensures rec.PointRemoved? ==> (r.Some? <==> rec.num <= |m.dots|)
    ensures rec.PrimitiveRemoved? ==> (r.Some? <==> rec.placement <= |m.lines|)
    ensures rec.PointChanged? ==> (r.Some? <==> rec.num < |m.dots|)
    ensures rec.PointAdded? || rec.PrimitiveAdded? ==> r.Some?
    ensures r.Some? && !rec.PointRemoved? && !rec.PrimitiveRemoved? && !rec.PrimitiveAdded? ==>
              r.value.lines == m.lines
    ensures r.Some? && (rec.PrimitiveAdded? || rec.PrimitiveRemoved?) ==> r.value.dots == m.dots
    ensures r.Some? && rec.PointChanged? ==> r.value.dots == m.dots[rec.num := rec.prev]
  {
    match rec
    case PointAdded => Some(m.(dots := Pop(m.dots)))
    case PrimitiveAdded => Some(m.(lines := Pop(m.lines)))
    case PointRemoved(d, num) =>
      var len := |m.dots|;
      if num > len then None
      else Some(m.(dots := Swap(m.dots + [d], len, num), lines := ReplaceLine(m.lines, num, len)))
    case PrimitiveRemoved(l, p) =>
      if p > |m.lines| then None else Some(m.(lines := Insert(m.lines, p, l)))
    case PointChanged(prev, num) =>
      if num >= |m.dots| then None else Some(m.(dots := m.dots[num := prev]))
  }

  /** Undoing a point removal puts the point back at its index and moves the
      point that had taken its place back to the end, exchanging the two
      indices in every primitive; at the end index the point is only
      appended. */
  lemma PointRemovedInverse(m: Model, d: Dot, num: nat)
    requires num <= |m.dots|
    ensures var r := ApplyInverse(m, PointRemoved(d, num)).value;
      && |r.dots| == |m.dots| + 1
      && r.dots[num] == d
      && (num < |m.dots| ==> r.dots[|m.dots|] == m.dots[num])
      && (forall i :: 0 <= i < |m.dots| && i != num ==> r.dots[i] == m.dots[i])
      && (num == |m.dots| ==> r.dots == m.dots + [d] && r.lines == m.lines)
      && (num < |m.dots| ==> r.lines == ReplaceLine(m.lines, num, |m.dots|))
      && r.nodeDots == m.nodeDots && r.nodeLines == m.nodeLines
  {
    if num == |m.dots| {
      ReplaceLineSame(m.lines, num);
    }
  }

  /** Undoing a primitive removal re-inserts it at its placement, shifting the
      later primitives by one. */
  lemma PrimitiveRemovedInverse(m: Model, l: Prim, p: nat)
    requires p <= |m.lines|
    ensures var r := ApplyInverse(m, PrimitiveRemoved(l, p)).value;
      && r.lines[p] == l && |r.lines| == |m.lines| + 1
      && (forall i :: 0 <= i < p ==> r.lines[i] == m.lines[i])
      && (forall i :: p < i <= |m.lines| ==> r.lines[i] == m.lines[i - 1])
  {
    var r := ApplyInverse(m, PrimitiveRemoved(l, p)).value;
    forall i | p < i <= |m.lines|
      ensures r.lines[i] == m.lines[i - 1]
    {
      assert r.lines[i] == r.lines[p + 1..][i - p - 1];
    }
  }

  /** Undoing an append drops exactly the last element and nothing else. */
  lemma AddedInverse(m: Model)
    ensures |m.dots| > 0 ==> ApplyInverse(m, PointAdded).value == m.(dots := m.dots[..|m.dots| - 1])
    ensures |m.lines| > 0 ==> ApplyInverse(m, PrimitiveAdded).value == m.(lines := m.lines[..|m.lines| - 1])
  {
  }

  /** Undoing a point edit writes the previous value back at its index; every
      other point, the primitives and the node data stay as they are. */
  lemma PointChangedInverse(m: Model, prev: Dot, num: nat)
    requires num < |m.dots|
    ensures var r := ApplyInverse(m, PointChanged(prev, num)).value;
      && |r.dots| == |m.dots| && r.dots[num] == prev
      && (forall i :: 0 <= i < |m.dots| && i != num ==> r.dots[i] == m.dots[i])
      && r.lines == m.lines && r.nodeDots == m.nodeDots && r.nodeLines == m.nodeLines
  {
  }

  /** The no-op returned for an empty journal leaves the model unchanged. */
  function ApplyUndo(m: Model, rec: Option<UndoRecord>): (r: Option<Model>)
    ensures rec.None? ==> r == Some(m)
    ensures rec.Some? ==> r == ApplyInverse(m, rec.value)
  {
    match rec
    case None => Some(m)
    case Some(x) => ApplyInverse(m, x)
  }

  /** Applies the inverses of `recs`, most recent (last) first. */
  function Rollback(m: Model, recs: seq<UndoRecord>): (r: Option<Model>)
    decreases |recs|
  {
    if |recs| == 0 then Some(m)
    else
      match ApplyInverse(m, recs[|recs| - 1])
      case None => None
      case Some(m1) => Rollback(m1, recs[..|recs| - 1])
  }

  /** Rolling back `a + b` rolls back `b` and then `a`. */
  lemma {:induction false} RollbackAppend(m: Model, a: seq<UndoRecord>, b: seq<UndoRecord>)
    ensures Rollback(m, a + b) ==
      match Rollback(m, b)
      case None => None
      case Some(m1) => Rollback(m1, a)
    decreases |b|
  {
    if |b| == 0 {
      assert a + b == a;
    } else {
      var last := b[|b| - 1];
      assert (a + b)[|a + b| - 1] == last;
      assert (a + b)[..|a + b| - 1] == a + b[..|b| - 1];
      match ApplyInverse(m, last)
      case None =>
      case Some(m1) =>
        RollbackAppend(m1, a, b[..|b| - 1]);
    }
  }
}
