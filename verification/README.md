# vec_red core, modelled in Dafny

vec_red is a small vector editor for plane frame geometry. A drawing is a
list of points, each with a radius, and a list of primitives that refer to
points by index. A primitive is either a segment `(a, b, -1)` or an arc
`(a, b, c)` through three points. The drawing also holds node points and
node lines, which a mesh generator fills in and the editor only loads and
saves.

This project models the part of the editor that decides what happens to
that geometry:

- **Geometry store** (`geometry.dfy`, module `Geometry`). The data model,
  hit-testing (`find_point`), the bounding box (`find_min_max`), the
  reference swap (`replace_line`) and the flat export.
- **Undo journal** (`undo_manager.dfy`, module `UndoJournal`). A bounded
  stack of inverse operations. The source stores boxed closures. Here each
  closure is the record of which mutation it undoes, and `ApplyInverse`
  interprets the records.
- **Gesture state machine** (`drawing.dfy`, module `Gesture`, and
  `framework.dfy`, module `Framework`).
  - The pending state of the canvas and its tool names.
  - Reconciliation of that state with the active mode.
  - The translation of mouse presses and releases into edit messages.
- **Controller** (`update.dfy`, module `Editing`; messages in `messages.dfy`).
  - The geometry and journal arms of `VecRed::update`: `DefDot`, `DefLine`,
    `ChangeApply`, `DeleteDot`, `Undo`, `ClearAll`, `GetData`, `ChangeMode`
    and `DefUnselect`.
  - Each arm is a pure function of the editor state.
  - A Rust panic on an out-of-range index is `None`.
- **Row codec** (`load_model.dfy`, module `LoadModel`). The tab-separated
  file format, the import and export of a drawing, and the path tests that
  choose the format.
- **Properties across arms** (`edit_properties.dfy`, module
  `EditProperties`):
  - Undoing a deletion, creation or edit restores the drawing.
  - `DefDot`, `DefLine`, `ChangeApply`, `DeleteDot`, `ClearAll`, `ChangeMode`,
    `DefUnselect` and `SetZoom` keep primitive references inside the point
    list. `GetData` installs whatever geometry it is given. `Undo` runs a
    journal entry against the current drawing, and an arbitrary journal can
    pop a point that a primitive still refers to. Neither is covered.
  - Concrete gesture and deletion scenarios.

Positions and radii are reals. The hit-test tolerance is a parameter
`near(p, q, scale)`, which the source defines as Euclidean distance below
`2 * scale`. The zoom's reverse map and the grid snap are function-valued
parameters of the canvas.

## Model

| member | source | states |
|---|---|---|
| Geometry.FindPoint | src/model/model_main.rs:73-78 | The result is the first index whose point is near the query. Every earlier point is far. The result equals the point count exactly when no point is near. |
| Geometry.FindPointIsFirstMatch | src/model/model_main.rs:73-78 | Any index with a near point and only far points before it is the hit-test's answer, so the answer is unique. |
| Geometry.FindPointAtStoredPosition | src/model/model_main.rs:73-78 | Under a tolerance that counts a point as near itself, hit-testing a stored point's own position finds that point or an earlier one, never "none". |
| Geometry.FindMinMax | src/model/model_main.rs:80-97 | Every point lies inside the returned box, and each of the four sides is attained by some point. With no points the box is (0,0)-(1000,1000). |
| Geometry.ReplaceLine | src/model/model_main.rs:99-119 | Keeps the number and order of primitives. Each primitive has its slots holding `one` and `two` exchanged. |
| Geometry.ReplaceLineExchanges | src/model/model_main.rs:99-119 | Per primitive, it refers to `two` afterwards iff it referred to `one` before, and vice versa. References to every other index are unchanged. |
| Geometry.ReplaceLineSymmetric | src/model/model_main.rs:99-119 | The two index arguments are interchangeable. |
| Geometry.ReplaceLineInvolution | src/model/model_main.rs:99-119 | Applying the swap twice, with the arguments in either order, gives back the original primitives. Deletion and its undo rely on this. |
| Geometry.ReplaceLineSame | src/model/model_main.rs:99-119 | Swapping an index with itself changes nothing. |
| Geometry.Export | src/model/model_main.rs:123-150 | The four flat arrays have the lengths and order of the four collections. Element `i` is point `i` as `[x, y, r]`, primitive `i` as its index triple, node point `i` as `[x, y]`, and node line `i`. |
| UndoJournal.Default | src/undo_manager.rs:63-70 | A fresh journal is empty and evicts at 25 entries. |
| UndoJournal.Clear | src/undo_manager.rs:11-13 | Clearing empties the stack and keeps the cap. |
| UndoJournal.Push | src/undo_manager.rs:47-52 | Appends the record. When the length reaches the cap, the oldest entry is dropped. The record is always on top. The length stays at most `maxLen - 1`, or unchanged if it was already above. |
| UndoJournal.PushAllSnoc | src/undo_manager.rs:47-52 | Pushing `a + [x]` is pushing `a` and then `x`. |
| UndoJournal.PushAllNoEviction | src/undo_manager.rs:47-52 | With room for them all, pushing several records appends exactly those records. |
| UndoJournal.PushAllBounded | src/undo_manager.rs:47-52 | From a journal below the cap, no sequence of pushes reaches the cap. |
| UndoJournal.ChangedDot | src/undo_manager.rs:41-46 | `changed_dot` appends its record without the eviction step. |
| UndoJournal.ChangedDotBypassesCap | src/undo_manager.rs:41-52 | On a journal at `maxLen - 1` entries, `push` stays at `maxLen - 1` while `changed_dot` reaches `maxLen`. |
| UndoJournal.Undo | src/undo_manager.rs:53-60 | Pops the newest record: the rest plus the popped record is the old stack. An empty journal yields the no-op and is unchanged. |
| UndoJournal.UndoAfterPush | src/undo_manager.rs:47-60 | The record just pushed is the next one undone. With room left, undoing it gives back the journal as it was. |
| UndoJournal.EntriesUndoneNext | src/undo_manager.rs:14-40 | Each of `deleted_dot`, `deleted_line`, `pushed_dot` and `pushed_line` puts its own record on top, where the next undo finds it. With room left, that undo restores the journal. |
| UndoJournal.ApplyInverse | src/undo_manager.rs:14-46 | Running an entry's closure panics exactly when its index is out of range: a point re-insert past the end, a primitive insert past the end, or a point write at or past the end. Pops never panic. Node data is never touched. Each closure touches only the list it names. A point write puts the previous value back at its index. |
| UndoJournal.PointRemovedInverse | src/undo_manager.rs:14-22 | Undoing a point removal puts the point back at its index, moves the point that had taken its place to the end, and keeps the others. Every primitive has the two indices exchanged. At the end index it only appends and leaves the primitives alone. Node data is untouched. |
| UndoJournal.PrimitiveRemovedInverse | src/undo_manager.rs:23-28 | Undoing a primitive removal re-inserts it at its placement. Earlier primitives stay put and later ones shift up by one. |
| UndoJournal.PointChangedInverse | src/undo_manager.rs:41-46 | Undoing a point edit writes the previous value back at its index. Every other point, the primitives and the node data are unchanged. |
| UndoJournal.AddedInverse | src/undo_manager.rs:29-40 | Undoing an append drops exactly the last point, or the last primitive, and nothing else. |
| UndoJournal.ApplyUndo | src/undo_manager.rs:53-60 | The no-op closure of an empty journal leaves the drawing unchanged. A real entry runs its inverse. |
| UndoJournal.RollbackAppend | src/undo_manager.rs:53-60 | Rolling back `a + b` rolls back `b`, newest first, and then `a`. |
| Gesture.Default | src/model/drawing.rs:21-25 | A fresh canvas is idle, which is the "Move" tool. |
| Gesture.AsStr | src/model/drawing.rs:89-96 | Each tool name is reported by exactly its states: "Point" by the armed point state, "Line" by the line states, "Arc" by the three arc states, and "Move" by every other state. |
| Gesture.ResolveAnchor | src/model/drawing.rs:73-85 | An anchor with an in-range point index resolves to that point's live position. Otherwise it resolves to the position captured with it. |
| Gesture.Highlighted | src/model/drawing.rs:31-55 | The anchors the overlay marks per state. A selection whose index is out of range marks nothing. |
| Framework.Reconcile | src/model/framework.rs:26-52 | A state of the active tool is kept. Under Line, a selection or an arc anchor becomes a line anchor. Under Arc, a selection or a line anchor becomes an arc anchor. Under any other mode, pending anchors are abandoned. Nothing else changes. |
| Framework.ReconcileIdempotent | src/model/framework.rs:26-52 | Reconciling twice with the same mode is reconciling once. |
| Framework.ReconcileKeepsAnchor | src/model/framework.rs:26-52 | A carried-over anchor keeps its position and point index, or the anchor is dropped. |
| Framework.PressTarget | src/model/framework.rs:93-100 | The armed state a left press resets to under each mode: "Dot", "Line", "Arc", or idle for anything else. |
| Framework.LeftPress | src/model/framework.rs:92-148 | A left press is always captured. Its transitions are stated by the lemmas below. |
| Framework.LeftPressCapturesAnchors | src/model/framework.rs:92-129 | Under Line or Arc, a press that does not complete a shape takes an anchor at the cursor in model space. This holds from the tool's armed state and from another tool's state. A second Arc press takes a second anchor. None of these emits a message. |
| Framework.LeftPressCompletes | src/model/framework.rs:112-141 | Completing a segment or an arc by left press emits it over the anchors' live positions and the cursor, then re-arms the tool. |
| Framework.LeftPressOtherwiseZooms | src/model/framework.rs:92-146 | Under a non-drawing mode, a left press starts a zoom rectangle at the raw cursor and clears the selection. This holds from every state except the armed point state under the mode "Point". |
| Framework.DotModeLeftPressSelects | src/model/framework.rs:93-106 | Under "Dot", every left press selects or creates the point at the cursor, whatever the state. |
| Framework.PointModeNeverCreates | src/model/framework.rs:93-146 | Under "Point", the name `as_str` reports, a left press from any state other than the armed point state starts a zoom rectangle instead of creating a point. |
| Framework.RightPress | src/model/framework.rs:158-187 | A right press is always captured. Its transitions are stated by RightPressOnPoint and SimpleMouseEvents. |
| Framework.RightPressOnPoint | src/model/framework.rs:158-187 | A right press on a point does one of four things. It completes a pending segment with the stored anchor. It gives an arc anchor the hit point as second anchor. It completes a pending arc. Otherwise it selects the hit point. |
| Framework.SimpleMouseEvents | src/model/framework.rs:89-192 | Every mouse event is captured. A left release ends a zoom rectangle with `SetZoom` and goes idle, and otherwise does nothing. A right press over empty space, a cursor move, a middle press, and middle or right releases change nothing. |
| Framework.Update | src/model/framework.rs:23-68 | Non-mouse events and events outside the canvas are ignored after reconciliation. A mouse event inside is captured and handled at the grid-snapped cursor when the snap is on, the raw cursor otherwise, against the reconciled state. |
| Framework.SnappedRightPress | src/model/framework.rs:57-62 | With the snap on, a right press does nothing exactly when no point is near the snapped position, and otherwise changes the gesture or emits a message. |
| Framework.LeftPressEmitsWellFormed | src/model/framework.rs:107-141 | Every `DefLine` a left press emits has two positions with the segment marker, or three positions with an arc shape. |
| Framework.RightPressEmitsWellFormed | src/model/framework.rs:158-187 | The same for the `DefLine`s a right press emits. |
| Framework.EmittedLinesWellFormed | src/model/framework.rs:23-192 | Every `DefLine` the canvas emits carries as many positions as the editor indexes for its shape. |
| Framework.LineGestureScenario | src/model/framework.rs:107-119 | On a fresh canvas in Line mode, a press at A then a press at B emits the segment A-B. |
| Framework.SwitchLineToArcScenario | src/model/framework.rs:34-141 | A line anchor snapped to point `k` survives a switch to Arc and becomes the first arc anchor, resolved to the point's live position. |
| Editing.AddDot | src/app/update.rs:46-53 | On a hit, nothing changes and the index is the first near point. On a miss, the point is appended with the default radius, `PointAdded` is journaled, and the index is the new last one. |
| Editing.DefDot | src/app/update.rs:30-43 | The selection is the first near point, or the new one when none is near, with its stored values. On a miss, exactly `Dot(at, default radius)` is appended and `PointAdded` is journaled. On a hit, the drawing and the journal are unchanged. The mode, scale and default radius are kept. |
| Editing.CreationRecords | src/app/update.rs:46-66 | The journal entries of a creation: one `PointAdded` per new point, then `PrimitiveAdded` when a primitive was stored. |
| Editing.AddDots | src/app/update.rs:46-55 | Resolving several positions in order. Each position resolves to the first near point among the points so far, or on a miss to a point appended exactly there. Only those new points are appended. The journal holds one `PointAdded` per new point. |
| Editing.FoundOrCreatedUnique | src/app/update.rs:46-55 | Find-or-create is deterministic: the starting points and the positions fix the resulting points and the resolved indices. |
| Editing.ResolveShape | src/app/update.rs:46-66 | Resolves two positions for a segment or three for an arc. The primitive's slots are the indices the positions resolved to, in order. It refers only to existing points and has the requested shape. |
| Editing.Degenerate | src/app/update.rs:56-66 | A segment is rejected exactly when its two indices coincide, an arc exactly when any two of its three do. |
| Editing.StorePrim | src/app/update.rs:56-69 | The primitive is stored and journaled exactly when its indices are distinct. The selection is cleared. The mode, scale and default radius are kept. |
| Editing.DefLine | src/app/update.rs:45-70 | The points are find-or-create over the 2 or 3 positions. The primitive over the resolved indices is appended exactly when it is not degenerate, and nothing else is. A stored primitive is in range and of the requested shape. The journal holds exactly the creations. The selection is cleared. The mode, scale, default radius and node data are kept. |
| Editing.ChangeApply | src/app/update.rs:94-104 | Writes the edited copy back and journals the old value, only when it differs, changing nothing else. Without a selection nothing changes. |
| Editing.Retain | src/app/update.rs:129 | No survivor of a deletion refers to the deleted point. |
| Editing.RetainSpec | src/app/update.rs:129 | The survivors of a deletion are exactly the primitives that do not refer to the point, and nothing else. |
| Editing.RemovedRecords | src/app/update.rs:120-128 | The journaled removals and the survivors together account for every primitive. |
| Editing.RemovedRecordsExact | src/app/update.rs:120-128 | Each journaled removal names a primitive referring to the point, at its own placement. |
| Editing.RemovedRecordsDescending | src/app/update.rs:120-128 | Removals are journaled from the highest placement to the lowest. |
| Editing.RemovedRecordsComplete | src/app/update.rs:120-128 | Every primitive referring to the point is journaled. |
| Editing.DeleteRecords | src/app/update.rs:120-136 | A deletion journals its primitive removals and then the point's own entry. |
| Editing.SwapRemove | src/app/update.rs:130-137 | The last point takes the deleted index and the other points keep theirs. |
| Editing.DeleteDot | src/app/update.rs:116-144 | Drops the primitives referring to the point and swap-removes the point. References to the moved point are redirected to its new index, and no survivor refers to the old last index. Journals the removals, then the point. Clears the selection and returns to "Move". Scale, default radius and node data are kept. |
| Editing.Undo | src/app/update.rs:146-150 | Pops the newest entry and runs its inverse, panicking exactly when the inverse does. Returns to "Move". |
| Editing.ClearAll | src/app/update.rs:152-158 | No points, primitives, history or selection remain. Node data, the journal cap, the mode, the scale and the default radius are kept. |
| Editing.GetData | src/app/update.rs:20-28 | Replaces the points and primitives, drops the history and the selection, and returns to "Move". Node data, the journal cap, the scale and the default radius are kept. |
| Editing.Update | src/app/update.rs:10-158 | `DefLine` panics exactly when it lacks positions for its shape. `ChangeApply` and `DeleteDot` panic exactly when the selection is out of range. `ClearAll` and `GetData` empty the journal. `DefUnselect` only clears the selection. |
| EditProperties.UndoTimesRollback | src/app/update.rs:146-150 | When the journal ends with `recs`, that many undos roll them back newest first and leave the journal holding what came before. |
| EditProperties.UndoJournaled | src/app/update.rs:146-150 | An arm that pushed records onto a journal with room for them is rolled back by as many undos. |
| EditProperties.ReinsertRestores | src/app/update.rs:120-129 | Re-inserting the journaled removals into the survivors rebuilds the original primitive list. |
| EditProperties.SwapRemoveUndo | src/undo_manager.rs:14-22 | The swap in the point-removal undo reverses `swap_remove` and `pop`. |
| EditProperties.PointRemovedUndoesDelete | src/undo_manager.rs:14-22 | The point's own undo entry restores the point list and reverses the rename. |
| EditProperties.DeleteRecordsRollBack | src/app/update.rs:116-144 | After the point entry, the primitive entries restore the whole drawing. |
| EditProperties.DeleteDotThenUndo | src/app/update.rs:116-150 | A deletion followed by one undo per journaled entry gives back the exact points, primitives and journal, when the journal had room. |
| EditProperties.DeleteScenario | src/app/update.rs:116-150 | Two points with one segment: deleting point 0 drops the segment and moves point 1 to index 0. Two undos restore both. |
| EditProperties.DefDotKeepsValid | src/app/update.rs:30-43 | `DefDot` keeps every primitive reference inside the point list. |
| EditProperties.DefLineKeepsValid | src/app/update.rs:45-70 | `DefLine` keeps every primitive reference inside the point list. |
| EditProperties.RenameKeepsRef | src/app/update.rs:138-140 | A surviving reference, once renamed, points inside the shrunk list. The segment marker is untouched. |
| EditProperties.DeleteDotKeepsValid | src/app/update.rs:116-144 | `DeleteDot` keeps every primitive reference inside the shrunk point list. |
| EditProperties.UpdateKeepsValid | src/app/update.rs:10-158 | Every message except `GetData` and `Undo` keeps references valid. |
| EditProperties.DefDotThenUndo | src/app/update.rs:30-43 | Undoing a created point removes it again and restores the journal. |
| EditProperties.DefDotHitChangesNothing | src/app/update.rs:30-43 | A `DefDot` that created no point leaves the drawing and the journal as they were, whatever the journal's fill. |
| EditProperties.ChangeApplyThenUndo | src/app/update.rs:94-104 | Undoing an applied edit puts the old point value back and restores the journal. |
| EditProperties.RollbackCreatedPoints | src/undo_manager.rs:29-34 | Rolling back `c` point creations drops the last `c` points. |
| EditProperties.CreationRollback | src/undo_manager.rs:29-40 | Rolling back creation entries drops the stored primitive, then the created points. |
| EditProperties.CreationThenUndo | src/app/update.rs:30-70 | One undo per created point and primitive restores the geometry and the journal of before. |
| EditProperties.DefLineCreates | src/app/update.rs:45-70 | `DefLine` appends at most three points and one primitive and journals exactly those. |
| EditProperties.DefLineThenUndo | src/app/update.rs:45-70 | With room in the journal for every entry the shape can write (three for a segment, four for an arc), undoing a `DefLine` restores the geometry and the journal it started from. |
| EditProperties.AddDotAgain | src/app/update.rs:46-53 | Resolving a position right after resolving it finds the same point and changes nothing. |
| EditProperties.AddDotsTwice | src/app/update.rs:46-55 | Resolving the same position twice yields one index and at most one new point. |
| EditProperties.DegenerateSegmentRejected | src/app/update.rs:56-60 | A segment over two coinciding positions stores nothing and journals at most the one point it created. |
| LoadModel.NewRow | src/model/load_model.rs:20-50 | A present primitive or node line fills all of its fields, and an absent one leaves them all empty. Float fields are copied. |
| LoadModel.NewRowReadsBack | src/model/load_model.rs:20-96 | Reading a packed row back gives every value packed. |
| LoadModel.PaddingReadsEmpty | src/model/load_model.rs:126-131 | NaN padding yields no point and no node point on import. |
| LoadModel.ImportRows | src/model/load_model.rs:64-107 | Each record contributes at most one entry to each collection. Its contents are stated by ImportRowsAppend and ImportExportRoundTrip. |
| LoadModel.ImportRowsAppend | src/model/load_model.rs:71-97 | Importing a split file concatenates the imports of its parts. |
| LoadModel.ImportRowsAsWritten | src/model/load_model.rs:64-107 | The loader as written, when it does not panic, differs from the corrected one only in the values of the node lines. |
| LoadModel.AsWrittenPanicsIff | src/model/load_model.rs:72-92 | The loader as written panics exactly when some decoded row has both node-line fields but lacks `l1` or `l2`. Whether `l3` is present does not matter. |
| LoadModel.AsWrittenDecodedPanicsIff | src/model/load_model.rs:72-92 | The same for a file in which every record decoded. |
| LoadModel.AsWrittenAgreesWithoutNodeLines | src/model/load_model.rs:89-92 | On files without node lines, the loader as written equals the corrected one. |
| LoadModel.AsWrittenPanicsOnNodeLineWithoutPrimitive | src/model/load_model.rs:89-92 | The loader as written panics when it reloads a node line saved on a row without a primitive. |
| LoadModel.AsWrittenSwapsNodeLine | src/model/load_model.rs:89-92 | The loader as written reloads a saved node line (5, 6) as (0, 1), the first two slots of the primitive on its row. |
| LoadModel.ExportRows | src/model/load_model.rs:121-140 | One row per index below the larger of the point and primitive counts. Row `i` carries the `i`-th entry of each collection and nothing where a collection is shorter. In every row the three primitive slots are all present or all absent. |
| LoadModel.ExportPanicRows | src/model/load_model.rs:121-140 | Written rows include one the loader as written panics on exactly when there are fewer primitives than points and fewer primitives than node lines. |
| LoadModel.ImportExportRoundTrip | src/model/load_model.rs:64-140 | Saving and loading gives back the points and primitives exactly. Node points and node lines come back up to the number of rows written. |
| LoadModel.Trim | src/model/load_model.rs:54 | The trimmed path is the untrimmed one minus its leading and trailing whitespace, and it neither starts nor ends with whitespace. |
| LoadModel.TrimIdempotent | src/model/load_model.rs:54 | Trimming twice is trimming once. |
| LoadModel.ImportAccepts | src/model/load_model.rs:53-55 | An accepted path has at least four characters, loses at most one to trimming, and reads "csv" from four characters before the untrimmed end to two before it. |
| LoadModel.ExportAccepts | src/model/load_model.rs:110-112 | A path is accepted exactly when it has at least four characters and reads "csv" from four characters before its end to two before it. |
| LoadModel.GetInclusive | src/model/load_model.rs:54 | An inclusive slice exists exactly when the range fits, and holds the characters of the range. |
| LoadModel.ExtensionWantsOneTrailingChar | src/model/load_model.rs:52-119 | Both tests reject "a.csv" and accept "a.csv\n", because they read "csv" one character before the end. |
| LoadModel.AcceptsAgreeWhenTrimmed | src/model/load_model.rs:52-119 | On a path with nothing to trim, the import and export tests agree. |
| LoadModel.LeadingSpaceSplitsTests | src/model/load_model.rs:52-119 | A leading space shifts the import test but not the export test: " a.csv" is accepted by the import only. |
| LoadModel.ImportModel | src/model/load_model.rs:52-107 | The import as written panics exactly when the path passes, the file opens and some row has a node line but lacks `l1` or `l2`. Otherwise it reports success exactly when the path passes and the file opens. It then replaces all four collections with the as-written loader's result: the points, primitives and node points as the file holds them, and as many node lines as the file has. On failure the drawing is kept. |
| LoadModel.ImportModelIntended | src/model/load_model.rs:52-107 | The import with node lines read from their own fields never panics. It succeeds exactly when the path passes and the file opens, and then replaces all four collections. Otherwise the drawing is kept. |
| LoadModel.ExportModel | src/model/load_model.rs:109-140 | The export succeeds exactly when the path passes and the file can be created. It then writes the export rows. |
| LoadModel.SaveThenLoad | src/model/load_model.rs:52-140 | Saving to a path both tests accept and loading it back panics exactly when there are fewer primitives than points and fewer than node lines. Otherwise it replaces any drawing with the saved points and primitives. |
| LoadModel.SaveThenLoadIntended | src/model/load_model.rs:52-140 | With the corrected loader, saving and loading back always succeeds and replaces any drawing with the saved points and primitives. |

## Left out

- Rendering is not modelled: `draw_model`, arc approximation, the gesture overlay strokes and cache redraws. `Gesture.Highlighted` keeps only which anchors are marked.
- Zoom, grid and snap arithmetic are left out. The reverse map and the snap are opaque parameters of `Canvas`.
- f32 arithmetic is replaced by reals. No rounding, infinities or NaN comparisons are modelled, except NaN as a field value in the row codec. The Euclidean distance behind the hit-test is the parameter `near`.
- The messages `ChangeDot`, `EditPath`, `EditScale`, `Resize` and the settings and keyboard messages are not modelled: they edit text fields, settings or the window, not the geometry. `ChangeApply` takes the already-parsed selection as its input.
- `SetZoom` is treated as a view-only message that leaves the editor state unchanged.
- The text editor contents `DefDot` fills in are not modelled.
- `excel_parse` and the native solver calls are not modelled. `GetData` takes the loaded points and primitives as arguments.
- File I/O and the csv crate are not modelled. A file is the sequence of its records, each decoded or failed. A failed open is `None`. Write and flush failures are left out.
- i32 and usize overflow is not modelled. Indices are unbounded integers, and `as i32` casts are the identity.
- `str::trim` is modelled on ASCII whitespace only. Paths are taken as ASCII, so a character is one byte and every slice is on a character boundary.
- The superseded top-level copies of the framework and the main window are not part of this model.
- Framework.LeftPress: its own contract states only that the press is captured. Its transitions under Line and Arc are stated by LeftPressCapturesAnchors and LeftPressCompletes, which together cover every state. Under the other modes they are stated by LeftPressOtherwiseZooms, DotModeLeftPressSelects and PointModeNeverCreates.
- Framework.RightPress: its own contract states only that the press is captured. Its transitions are stated by RightPressOnPoint and SimpleMouseEvents.
- LoadModel.ImportRows: its own contract bounds the collection sizes only. Its contents are stated by ImportRowsAppend and ImportExportRoundTrip.
- EditProperties.UpdateKeepsValid: does not cover `GetData` or `Undo`. `GetData` installs arbitrary geometry. `Undo` keeps references valid only when the journal matches the drawing's history. Take the journal `[PointAdded]` and a primitive on the last point: the undo pops that point and the primitive dangles.
- UndoJournal.DeletedDot, DeletedLine, PushedDot and PushedLine carry no contract of their own. Each is a `Push` of one record, and EntriesUndoneNext states their effect.
- The point tool name is a mismatch that is modelled as written. The canvas dispatches the point tool under "Dot" in `PressTarget`, while the state reports "Point" in `AsStr`. `DotModeLeftPressSelects` and `PointModeNeverCreates` state what each name does. The two files also name the state variants differently: `Dot`, `SelectDot`, `LineDot`, `ArcDot` and `ArcTwoDots` in the framework, `Point`, `SelectPoint`, `LinePoint`, `ArcPoint` and `ArcTwoPoints` in the gesture state. The model treats each pair as one variant, under the gesture state's name.
- The journal cap is modelled as written. `push` evicts when the length reaches `max_len`, so the journal holds at most `max_len - 1` entries (24 by default). `changed_dot` skips the eviction.

## Findings

| source | as written | input that shows it | evidently intended | confidence | as-written member | corrected member |
|---|---|---|---|---|---|---|
| src/model/load_model.rs:89-92 | A row whose node-line fields `n_l1`, `n_l2` are both present pushes `(l1, l2)`, the row's primitive slots, as the node line, and unwraps them. | Saving `Model([], [Prim(0,1,-1)], [], [(5,6)])` and loading it gives the node line `(0,1)`. A node line on a row without a primitive makes `unwrap` panic. | Push `(n_l1, n_l2)`, so that a saved node line loads back unchanged. | not executed | LoadModel.ImportRowsAsWritten, LoadModel.ImportModel | LoadModel.ImportRows, LoadModel.ImportModelIntended |
