/** The messages the canvas emits and the editor consumes (the crate's
    `Message` enum, restricted to the variants of the editing core). */
module Messages {
  import opened Geometry

  datatype Message =
    | ChangeMode(mode: string)
      /** Replaces points and primitives with generated data. */
    | GetData(dots: seq<Dot>, lines: seq<Prim>)
      /** Select the point near `at`, creating one there when none is near. */
    | DefDot(at: Pos)
      /** Create a primitive over the given positions; only the third slot of
          `shape` is read, as the segment marker. */
    | DefLine(points: seq<Pos>, shape: Prim)
    | DefUnselect
    | ChangeApply
    | DeleteDot
    | Undo
    | ClearAll
      /** Fit the view to the rectangle spanned by two model positions. */
    | SetZoom(from: Pos, to: Pos, forced: bool)
}
