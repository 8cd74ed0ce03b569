/** The tab-separated row codec the editor saves and loads drawings with. One
    row carries up to one point, one primitive, one node point and one node
    line; fields a row does not carry are NaN (floats) or empty (integers).
    The file system and the csv crate are left out: a file is the sequence of
    its records, each either a decoded `Row` or `None` for a record that failed
    to deserialize. */
module LoadModel {
  import opened Wrappers
  import opened Geometry

  // ---------------------------------------------------------------------------
  // Rows
  // ---------------------------------------------------------------------------

  /** An f32 field: NaN, or a number (over the reals). */
  datatype F32 = NaN | Num(value: real)

  /** One record: point x, y, radius; primitive slots; node point x, y; node
      line ends. */
  datatype Row = Row(
    p1: F32, p2: F32, p3: F32,
    l1: Option<int>, l2: Option<int>, l3: Option<int>,
    nd1: F32, nd2: F32,
    nl1: Option<int>, nl2: Option<int>)

  /** `Csv::new`: a missing primitive or node line becomes all-empty fields, a
      present one fills every field with its components. */
  function NewRow(dots: (F32, F32, F32), lines: Option<(int, int, int)>,
                  nodeDots: (F32, F32), nodeLines: Option<(int, int)>): (r: Row)
    ensures (r.p1, r.p2, r.p3) == dots && (r.nd1, r.nd2) == nodeDots
    ensures lines.None? <==> (r.l1.None? && r.l2.None? && r.l3.None?)
    ensures lines.Some? <==> (r.l1.Some? && r.l2.Some? && r.l3.Some?)
    ensures nodeLines.None? <==> (r.nl1.None? && r.nl2.None?)
    ensures nodeLines.Some? <==> (r.nl1.Some? && r.nl2.Some?)
  {
    var ls := match lines
      case None => (None, None, None)
      case Some(l) => (Some(l.0), Some(l.1), Some(l.2));
    var ns := match nodeLines
      case None => (None, None)
      case Some(l) => (Some(l.0), Some(l.1));
    Row(dots.0, dots.1, dots.2, ls.0, ls.1, ls.2, nodeDots.0, nodeDots.1, ns.0, ns.1)
  }

  /** The point a row yields: only when none of its three fields is NaN. */
  function RowDot(row: Row): Option<Dot> {
    if row.p1.Num? && row.p2.Num? && row.p3.Num? then
      Some(Dot(Pos(row.p1.value, row.p2.value), row.p3.value))
    else None
  }

  /** The primitive a row yields: only when all three slots are present. */
  function RowLine(row: Row): Option<Prim> {
    if row.l1.Some? && row.l2.Some? && row.l3.Some? then
      Some(Prim(row.l1.value, row.l2.value, row.l3.value))
    else None
  }

  /** The node point a row yields: only when neither field is NaN. */
  function RowNodeDot(row: Row): Option<Pos> {
    if row.nd1.Num? && row.nd2.Num? then Some(Pos(row.nd1.value, row.nd2.value)) else None
  }

  /** The node line a row yields: only when both ends are present. */
  function RowNodeLine(row: Row): Option<(int, int)> {
    if row.nl1.Some? && row.nl2.Some? then Some((row.nl1.value, row.nl2.value)) else None
  }

  /** A present value as a one-element list, an absent one as the empty list. */
  function Listed<T>(o: Option<T>): (r: seq<T>)
    ensures o.None? ==> r == []
    ensures o.Some? ==> r == [o.value]
  {
    if o.Some? then [o.value] else []
  }

  /** Packing a row and reading it back gives every field that was packed. */
  lemma NewRowReadsBack(x: real, y: real, radius: real, lines: Option<(int, int, int)>,
                        nx: real, ny: real, nodeLines: Option<(int, int)>)
    ensures var row := NewRow((Num(x), Num(y), Num(radius)), lines, (Num(nx), Num(ny)), nodeLines);
      && RowDot(row) == Some(Dot(Pos(x, y), radius))
      && RowLine(row) == (if lines.Some? then Some(Prim(lines.value.0, lines.value.1, lines.value.2)) else None)
      && RowNodeDot(row) == Some(Pos(nx, ny))
      && RowNodeLine(row) == nodeLines
  {
  }

  /** Padding fields never yield anything. */
  lemma PaddingReadsEmpty(lines: Option<(int, int, int)>, nodeLines: Option<(int, int)>)
    ensures var row := NewRow((NaN, NaN, NaN), lines, (NaN, NaN), nodeLines);
      RowDot(row).None? && RowNodeDot(row).None?
  {
  }

  // ---------------------------------------------------------------------------
  // Import
  // ---------------------------------------------------------------------------

  /** The rows of a file in which every record decoded. */
  function Decoded(rows: seq<Row>): (r: seq<Option<Row>>)
    ensures |r| == |rows| && forall i :: 0 <= i < |rows| ==> r[i] == Some(rows[i])
  {
    seq(|rows|, i requires 0 <= i < |rows| => Some(rows[i]))
  }

  /** `import_csv_model` with the node-line fix applied: the four collections
      are rebuilt from the decoded rows, in order, each row contributing what
      its fields carry, and a row's node line is read from its node-line
      columns. */
  function ImportRows(recs: seq<Option<Row>>): (r: Model)
    ensures |r.dots| <= |recs| && |r.lines| <= |recs|
    ensures |r.nodeDots| <= |recs| && |r.nodeLines| <= |recs|
    decreases |recs|
  {
    if |recs| == 0 then Model([], [], [], [])
    else
      var prev := ImportRows(recs[..|recs| - 1]);
      match recs[|recs| - 1]
      case None => prev
      case Some(row) =>
        Model(prev.dots + Listed(RowDot(row)), prev.lines + Listed(RowLine(row)),
              prev.nodeDots + Listed(RowNodeDot(row)), prev.nodeLines + Listed(RowNodeLine(row)))
  }

  /** `import_csv_model` as written: a row with both node-line fields present
      pushes its primitive columns `l1`, `l2` instead, and `unwrap` panics
      (`None`) when either of those is empty. When it does not panic, only
      the values of the node lines differ from the fixed import. */
  function ImportRowsAsWritten(recs: seq<Option<Row>>): (r: Option<Model>)
    ensures r.Some? ==>
              && r.value.dots == ImportRows(recs).dots && r.value.lines == ImportRows(recs).lines
              && r.value.nodeDots == ImportRows(recs).nodeDots
              && |r.value.nodeLines| == |ImportRows(recs).nodeLines|
    decreases |recs|
  {
    if |recs| == 0 then Some(Model([], [], [], []))
    else
      match ImportRowsAsWritten(recs[..|recs| - 1])
      case None => None
      case Some(prev) =>
        match recs[|recs| - 1]
        case None => Some(prev)
        case Some(row) =>
          var base := Model(prev.dots + Listed(RowDot(row)), prev.lines + Listed(RowLine(row)),
                            prev.nodeDots + Listed(RowNodeDot(row)), prev.nodeLines);
          if RowNodeLine(row).None? then Some(base)
          else if row.l1.None? || row.l2.None? then None
          else Some(base.(nodeLines := prev.nodeLines + [(row.l1.value, row.l2.value)]))
  }

  /** The four collections of `x` followed by those of `y`. */
  function Concat(x: Model, y: Model): Model {
    Model(x.dots + y.dots, x.lines + y.lines, x.nodeDots + y.nodeDots, x.nodeLines + y.nodeLines)
  }

  /** What one decoded row contributes on its own. */
  function RowModel(row: Row): Model {
    Model(Listed(RowDot(row)), Listed(RowLine(row)), Listed(RowNodeDot(row)), Listed(RowNodeLine(row)))
  }

  /** Concatenation of models is associative. */
  lemma ConcatAssoc(x: Model, y: Model, z: Model)
    ensures Concat(Concat(x, y), z) == Concat(x, Concat(y, z))
  {
    assert x.dots + y.dots + z.dots == x.dots + (y.dots + z.dots);
    assert x.lines + y.lines + z.lines == x.lines + (y.lines + z.lines);
    assert x.nodeDots + y.nodeDots + z.nodeDots == x.nodeDots + (y.nodeDots + z.nodeDots);
    assert x.nodeLines + y.nodeLines + z.nodeLines == x.nodeLines + (y.nodeLines + z.nodeLines);
  }

  /** Importing a file split in two imports each part and concatenates the
      collections. */
  lemma {:induction false} ImportRowsAppend(a: seq<Option<Row>>, b: seq<Option<Row>>)
    ensures ImportRows(a + b) == Concat(ImportRows(a), ImportRows(b))
    decreases |b|
  {
    if |b| == 0 {
      assert a + b == a;
      var ra := ImportRows(a);
      assert ra.dots + [] == ra.dots && ra.lines + [] == ra.lines;
      assert ra.nodeDots + [] == ra.nodeDots && ra.nodeLines + [] == ra.nodeLines;
    } else {
      var n := |b| - 1;
      assert (a + b)[..|a + b| - 1] == a + b[..n];
      assert (a + b)[|a + b| - 1] == b[n];
      ImportRowsAppend(a, b[..n]);
      match b[n]
      case None =>
      case Some(row) =>
        ConcatAssoc(ImportRows(a), ImportRows(b[..n]), RowModel(row));
    }
  }

  /** The as-written import agrees with the fixed one on files in which no
      row carries a node line. */
  lemma {:induction false} AsWrittenAgreesWithoutNodeLines(recs: seq<Option<Row>>)
    requires forall i :: 0 <= i < |recs| && recs[i].Some? ==> RowNodeLine(recs[i].value).None?
    ensures ImportRowsAsWritten(recs) == Some(ImportRows(recs))
    decreases |recs|
  {
    if |recs| > 0 {
      var front := recs[..|recs| - 1];
      assert forall i :: 0 <= i < |front| ==> front[i] == recs[i];
      AsWrittenAgreesWithoutNodeLines(front);
      match recs[|recs| - 1]
      case None =>
      case Some(row) =>
        assert RowNodeLine(row).None?;
        var prev := ImportRows(front);
        assert prev.nodeLines + Listed(RowNodeLine(row)) == prev.nodeLines;
    }
  }

  /** A row on which the loader as written panics: it carries a node line but
      one of the primitive slots the loader reads instead is empty. */
  predicate PanicRow(row: Row) {
    RowNodeLine(row).Some? && (row.l1.None? || row.l2.None?)
  }

  /** The loader as written panics exactly when some decoded row is a panic
      row. */
  lemma {:induction false} AsWrittenPanicsIff(recs: seq<Option<Row>>)
    ensures ImportRowsAsWritten(recs).None? <==>
              exists i :: 0 <= i < |recs| && recs[i].Some? && PanicRow(recs[i].value)
    decreases |recs|
  {
    if |recs| > 0 {
      var n := |recs| - 1;
      var front := recs[..n];
      AsWrittenPanicsIff(front);
      AsWrittenPanicsLast(recs);
      if exists i :: 0 <= i < |front| && front[i].Some? && PanicRow(front[i].value) {
        var i :| 0 <= i < |front| && front[i].Some? && PanicRow(front[i].value);
        assert recs[i] == front[i];
      }
      if exists i :: 0 <= i < |recs| && recs[i].Some? && PanicRow(recs[i].value) {
        var i :| 0 <= i < |recs| && recs[i].Some? && PanicRow(recs[i].value);
        if i < n {
          assert front[i] == recs[i];
        }
      }
    }
  }

  /** One more record makes the loader panic when the earlier ones did or
      when it is a panic row itself. */
  lemma AsWrittenPanicsLast(recs: seq<Option<Row>>)
    requires |recs| > 0
    ensures ImportRowsAsWritten(recs).None? <==>
              ImportRowsAsWritten(recs[..|recs| - 1]).None?
              || (recs[|recs| - 1].Some? && PanicRow(recs[|recs| - 1].value))
  {
  }

  /** The same for a file in which every record decoded. */
  lemma AsWrittenDecodedPanicsIff(rows: seq<Row>)
    ensures ImportRowsAsWritten(Decoded(rows)).None? <==> exists i :: 0 <= i < |rows| && PanicRow(rows[i])
  {
    var recs := Decoded(rows);
    AsWrittenPanicsIff(recs);
    if exists i :: 0 <= i < |recs| && recs[i].Some? && PanicRow(recs[i].value) {
      var i :| 0 <= i < |recs| && recs[i].Some? && PanicRow(recs[i].value);
      assert PanicRow(rows[i]);
    }
    if exists i :: 0 <= i < |rows| && PanicRow(rows[i]) {
      var i :| 0 <= i < |rows| && PanicRow(rows[i]);
      assert recs[i] == Some(rows[i]);
    }
  }

  // ---------------------------------------------------------------------------
  // Export
  // ---------------------------------------------------------------------------

  function MaxNat(a: nat, b: nat): nat {
    if a < b then b else a
  }

  /** `export_csv_model`'s rows: one per index below the larger of the point
      and primitive counts; row `i` carries point `i` or NaN padding,
      primitive `i` or empty fields, node point `i` or NaN padding, and node
      line `i` or empty fields. Node data past the last row is not written. */
  function ExportRows(m: Model): (r: seq<Row>)
    ensures |r| == MaxNat(|m.dots|, |m.lines|) && Carries(r, m) && SlotsTogether(r)
  {
    var e := Export(m);
    var n := MaxNat(|m.dots|, |m.lines|);
    seq(n, i requires 0 <= i < n =>
      NewRow(if i < |e.points| then (Num(e.points[i].0), Num(e.points[i].1), Num(e.points[i].2))
             else (NaN, NaN, NaN),
             if i < |e.lines| then Some(e.lines[i]) else None,
             if i < |e.nodeDots| then (Num(e.nodeDots[i].0), Num(e.nodeDots[i].1)) else (NaN, NaN),
             if i < |e.nodeLines| then Some(e.nodeLines[i]) else None))
  }

  /** Row `i` carries the `i`-th entry of each of the model's collections,
      and nothing where a collection is shorter. */
  predicate Carries(rows: seq<Row>, m: Model) {
    forall i :: 0 <= i < |rows| ==>
      && RowDot(rows[i]) == (if i < |m.dots| then Some(m.dots[i]) else None)
      && RowLine(rows[i]) == (if i < |m.lines| then Some(m.lines[i]) else None)
      && RowNodeDot(rows[i]) == (if i < |m.nodeDots| then Some(m.nodeDots[i]) else None)
      && RowNodeLine(rows[i]) == (if i < |m.nodeLines| then Some(m.nodeLines[i]) else None)
  }

  /** Every row has its three primitive slots all filled or all empty, as
      `Csv::new` writes them. */
  predicate SlotsTogether(rows: seq<Row>) {
    forall i :: 0 <= i < |rows| ==>
      (rows[i].l1.Some? && rows[i].l2.Some? && rows[i].l3.Some?)
      || (rows[i].l1.None? && rows[i].l2.None? && rows[i].l3.None?)
  }

  function MinNat(a: nat, b: nat): nat {
    if a < b then a else b
  }

  /** Importing one record more extends each collection by what the record
      carries. */
  lemma ImportRowsSnoc(recs: seq<Option<Row>>, k: nat, row: Row)
    requires 0 < k <= |recs| && recs[k - 1] == Some(row)
    ensures var prev := ImportRows(recs[..k - 1]);
      ImportRows(recs[..k]) == Model(prev.dots + Listed(RowDot(row)), prev.lines + Listed(RowLine(row)),
                                     prev.nodeDots + Listed(RowNodeDot(row)),
                                     prev.nodeLines + Listed(RowNodeLine(row)))
  {
    assert recs[..k][..k - 1] == recs[..k - 1];
  }

  /** A prefix clipped to the list grows by the element at its end, if any. */
  lemma ClippedPrefixStep<T>(s: seq<T>, k: nat, o: Option<T>)
    requires k > 0 && o == (if k - 1 < |s| then Some(s[k - 1]) else None)
    ensures s[..MinNat(k, |s|)] == s[..MinNat(k - 1, |s|)] + Listed(o)
  {
  }

  /** The collections the first `k` rows carrying `m` import to. */
  lemma {:induction false} ImportExportPrefix(m: Model, rows: seq<Row>, k: nat)
    requires Carries(rows, m) && k <= |rows|
    ensures ImportRows(Decoded(rows)[..k])
      == Model(m.dots[..MinNat(k, |m.dots|)], m.lines[..MinNat(k, |m.lines|)],
               m.nodeDots[..MinNat(k, |m.nodeDots|)], m.nodeLines[..MinNat(k, |m.nodeLines|)])
    decreases k
  {
    if k > 0 {
      var recs := Decoded(rows);
      var row := rows[k - 1];
      ImportExportPrefix(m, rows, k - 1);
      ImportRowsSnoc(recs, k, row);
      ClippedPrefixStep(m.dots, k, RowDot(row));
      ClippedPrefixStep(m.lines, k, RowLine(row));
      ClippedPrefixStep(m.nodeDots, k, RowNodeDot(row));
      ClippedPrefixStep(m.nodeLines, k, RowNodeLine(row));
    }
  }

  /** Saving and loading gives back the points and primitives exactly, and
      the node points and node lines up to the number of rows written. */
  lemma ImportExportRoundTrip(m: Model)
    ensures var n := MaxNat(|m.dots|, |m.lines|);
      var r := ImportRows(Decoded(ExportRows(m)));
      && r.dots == m.dots && r.lines == m.lines
      && r.nodeDots == m.nodeDots[..MinNat(n, |m.nodeDots|)]
      && r.nodeLines == m.nodeLines[..MinNat(n, |m.nodeLines|)]
  {
    var rows := ExportRows(m);
    var recs := Decoded(rows);
    ImportExportPrefix(m, rows, |rows|);
    assert recs[..|rows|] == recs;
    assert m.dots[..MinNat(|rows|, |m.dots|)] == m.dots;
    assert m.lines[..MinNat(|rows|, |m.lines|)] == m.lines;
  }

  /** With the loader as written, saving a drawing that has a node line but
      no primitive and loading it back panics. */
  lemma AsWrittenPanicsOnNodeLineWithoutPrimitive()
    ensures var m := Model([Dot(Pos(0.0, 0.0), 1.0)], [], [], [(0, 0)]);
      ImportRowsAsWritten(Decoded(ExportRows(m))).None?
  {
    var m := Model([Dot(Pos(0.0, 0.0), 1.0)], [], [], [(0, 0)]);
    var rows := ExportRows(m);
    assert |rows| == 1;
    var recs := Decoded(rows);
    assert recs[..0] == [];
    assert RowNodeLine(rows[0]) == Some((0, 0)) && RowLine(rows[0]).None?;
  }

  /** The loader as written on a one-record file whose row carries a node
      line and both primitive ends it reads instead. */
  lemma AsWrittenOneRow(row: Row)
    requires RowNodeLine(row).Some? && row.l1.Some? && row.l2.Some?
    ensures ImportRowsAsWritten([Some(row)])
      == Some(Model(Listed(RowDot(row)), Listed(RowLine(row)), Listed(RowNodeDot(row)),
                    [(row.l1.value, row.l2.value)]))
  {
    var recs := [Some(row)];
    var empty := Model([], [], [], []);
    assert recs[..0] == [] && recs[0] == Some(row);
    assert ImportRowsAsWritten(recs[..0]) == Some(empty);
    assert [] + Listed(RowDot(row)) == Listed(RowDot(row)) && [] + Listed(RowLine(row)) == Listed(RowLine(row));
    assert [] + Listed(RowNodeDot(row)) == Listed(RowNodeDot(row));
    assert empty.nodeLines + [(row.l1.value, row.l2.value)] == [(row.l1.value, row.l2.value)];
  }

  /** With the loader as written, a saved node line comes back as the first
      two slots of the primitive on its row. */
  lemma AsWrittenSwapsNodeLine()
    ensures var m := Model([], [Prim(0, 1, Segment)], [], [(5, 6)]);
      ImportRowsAsWritten(Decoded(ExportRows(m))) == Some(Model([], [Prim(0, 1, Segment)], [], [(0, 1)]))
  {
    var m := Model([], [Prim(0, 1, Segment)], [], [(5, 6)]);
    var rows := ExportRows(m);
    assert |rows| == 1;
    var row := rows[0];
    assert Decoded(rows) == [Some(row)];
    assert RowLine(row) == Some(Prim(0, 1, Segment)) && RowNodeLine(row) == Some((5, 6));
    assert RowDot(row).None? && RowNodeDot(row).None?;
    AsWrittenOneRow(row);
  }

  // ---------------------------------------------------------------------------
  // Paths
  // ---------------------------------------------------------------------------

  /** The ASCII characters `str::trim` removes (paths are taken as ASCII, so
      a character is one byte). */
  predicate IsSpace(ch: char) {
    ch == ' ' || ch == '\t' || ch == '\n' || ch == '\r' || ch == '\U{0B}' || ch == '\U{0C}'
  }

  /** The number of whitespace characters `s` starts with. */
  function LeadingSpaces(s: string): (k: nat)
    ensures k <= |s|
    ensures forall i :: 0 <= i < k ==> IsSpace(s[i])
    ensures k < |s| ==> !IsSpace(s[k])
    decreases |s|
  {
    if |s| > 0 && IsSpace(s[0]) then 1 + LeadingSpaces(s[1..]) else 0
  }

  /** The number of whitespace characters `s` ends with. */
  function TrailingSpaces(s: string): (k: nat)
    ensures k <= |s|
    ensures forall i :: |s| - k <= i < |s| ==> IsSpace(s[i])
    ensures k < |s| ==> !IsSpace(s[|s| - 1 - k])
    decreases |s|
  {
    if |s| > 0 && IsSpace(s[|s| - 1]) then 1 + TrailingSpaces(s[..|s| - 1]) else 0
  }

  /** `str::trim`: `s` without its leading and trailing whitespace. */
  function Trim(s: string): (r: string)
    ensures LeadingSpaces(s) + |r| <= |s|
    ensures r == s[LeadingSpaces(s)..LeadingSpaces(s) + |r|]
    ensures forall i :: 0 <= i < LeadingSpaces(s) ==> IsSpace(s[i])
    ensures forall i :: LeadingSpaces(s) + |r| <= i < |s| ==> IsSpace(s[i])
    ensures |r| > 0 ==> !IsSpace(r[0]) && !IsSpace(r[|r| - 1])
  {
    var a := LeadingSpaces(s);
    if a == |s| then []
    else
      s[a..|s| - TrailingSpaces(s)]
  }

  /** Trimming twice trims nothing more. */
  lemma TrimIdempotent(s: string)
    ensures Trim(Trim(s)) == Trim(s)
  {
    var t := Trim(s);
    if |t| > 0 {
      assert LeadingSpaces(t) == 0;
      assert TrailingSpaces(t) == 0;
    }
  }

  /** `str::get(a..=b)` for ASCII text: the characters `a` to `b` inclusive,
      or `None` when the range does not fit. */
  function GetInclusive(s: string, a: int, b: int): (r: Option<string>)
    ensures r.Some? <==> 0 <= a <= b + 1 <= |s|
    ensures r.Some? ==> |r.value| == b + 1 - a && forall i :: 0 <= i < |r.value| ==> r.value[i] == s[a + i]
  {
    if 0 <= a <= b + 1 <= |s| then Some(s[a..b + 1]) else None
  }

  /** `import_model`'s dispatch test: the path is at least four characters
      long, and the trimmed path holds "csv" at the untrimmed path's indices
      `len-4..=len-2`. An accepted path therefore loses at most one
      whitespace character to trimming. */
  predicate ImportAccepts(path: string): (ok: bool)
    ensures ok ==> |path| >= 4 && |Trim(path)| >= |path| - 1 && Trim(path)[|path| - 4..|path| - 1] == "csv"
  {
    |path| >= 4 && GetInclusive(Trim(path), |path| - 4, |path| - 2) == Some("csv")
  }

  /** `export_model`'s dispatch test, on the untrimmed path. */
  predicate ExportAccepts(path: string): (ok: bool)
    ensures ok <==> |path| >= 4 && path[|path| - 4..|path| - 1] == "csv"
  {
    |path| >= 4 && GetInclusive(path, |path| - 4, |path| - 2) == Some("csv")
  }

  /** The tests look for "csv" followed by exactly one more character: a name
      that ends in "csv" itself is turned away by both, and the same name with
      one trailing newline is accepted by both. */
  lemma ExtensionWantsOneTrailingChar()
    ensures !ImportAccepts("a.csv") && !ExportAccepts("a.csv")
    ensures ImportAccepts("a.csv\n") && ExportAccepts("a.csv\n")
    ensures Trim("a.csv\n") == "a.csv"
  {
    assert LeadingSpaces("a.csv") == 0;
    assert TrailingSpaces("a.csv") == 0;
    assert "a.csv"[1..4] == ".cs";
    assert "a.csv\n"[..5] == "a.csv";
    assert TrailingSpaces("a.csv\n") == 1;
    assert LeadingSpaces("a.csv\n") == 0;
    assert Trim("a.csv\n") == "a.csv\n"[0..5] == "a.csv";
    assert "a.csv"[2..5] == "csv";
    assert "a.csv\n"[2..5] == "csv";
  }

  /** On a path with nothing to trim the two tests agree. */
  lemma AcceptsAgreeWhenTrimmed(path: string)
    requires Trim(path) == path
    ensures ImportAccepts(path) <==> ExportAccepts(path)
  {
  }

  /** Leading whitespace shifts the import test but not the export test: the
      import accepts " a.csv" while the export turns it away. */
  lemma LeadingSpaceSplitsTests()
    ensures ImportAccepts(" a.csv") && !ExportAccepts(" a.csv")
  {
    assert LeadingSpaces(" a.csv") == 1 by {
      assert " a.csv"[1..] == "a.csv";
      assert LeadingSpaces("a.csv") == 0;
    }
    assert TrailingSpaces(" a.csv") == 0;
    assert " a.csv"[1..6] == "a.csv";
    assert "a.csv"[2..5] == "csv";
    assert " a.csv"[2..5] == ".cs";
  }

  // ---------------------------------------------------------------------------
  // The entry points
  // ---------------------------------------------------------------------------

  /** `import_model`: when the path passes the test and the file opens
      (`file` holds its records), the four collections are replaced by what
      the loader as written reads and the result is true; otherwise the
      drawing is kept and the result is false. `None` is the loader's panic. */
  function ImportModel(path: string, file: Option<seq<Option<Row>>>, m: Model): (r: Option<(bool, Model)>)
    ensures r.None? <==> ImportAccepts(path) && file.Some? && ImportRowsAsWritten(file.value).None?
    ensures r.Some? ==> (r.value.0 <==> ImportAccepts(path) && file.Some?)
    ensures r.Some? && !r.value.0 ==> r.value.1 == m
    ensures r.Some? && r.value.0 ==>
              && r.value.1.dots == ImportRows(file.value).dots && r.value.1.lines == ImportRows(file.value).lines
              && r.value.1.nodeDots == ImportRows(file.value).nodeDots
              && |r.value.1.nodeLines| == |ImportRows(file.value).nodeLines|
              && Some(r.value.1) == ImportRowsAsWritten(file.value)
  {
    if ImportAccepts(path) && file.Some? then
      match ImportRowsAsWritten(file.value)
      case None => None
      case Some(x) => Some((true, x))
    else Some((false, m))
  }

  /** `import_model` with the node-line fix applied: the four collections are
      replaced by the corrected import. */
  function ImportModelIntended(path: string, file: Option<seq<Option<Row>>>, m: Model): (r: (bool, Model))
    ensures r.0 <==> ImportAccepts(path) && file.Some?
    ensures !r.0 ==> r.1 == m
    ensures r.0 ==> r.1 == ImportRows(file.value)
  {
    if ImportAccepts(path) && file.Some? then (true, ImportRows(file.value)) else (false, m)
  }

  /** `export_model`: when the path passes the test and the file can be
      created, the rows written; `None` (the result false) otherwise. */
  function ExportModel(path: string, canCreate: bool, m: Model): (r: Option<seq<Row>>)
    ensures r.Some? <==> ExportAccepts(path) && canCreate
    ensures r.Some? ==> r.value == ExportRows(m)
  {
    if ExportAccepts(path) && canCreate then Some(ExportRows(m)) else None
  }

  /** The rows written for `m` include a panic row exactly when there are
      fewer primitives than both points and node lines: row `|m.lines|` is
      then written with a node line and no primitive. */
  lemma ExportPanicRows(m: Model, rows: seq<Row>)
    requires |rows| == MaxNat(|m.dots|, |m.lines|) && Carries(rows, m) && SlotsTogether(rows)
    ensures (exists i :: 0 <= i < |rows| && PanicRow(rows[i])) <==> |m.lines| < |m.dots| && |m.lines| < |m.nodeLines|
  {
    if |m.lines| < |m.dots| && |m.lines| < |m.nodeLines| {
      assert PanicRow(rows[|m.lines|]);
    }
    if exists i :: 0 <= i < |rows| && PanicRow(rows[i]) {
      var i :| 0 <= i < |rows| && PanicRow(rows[i]);
      assert RowLine(rows[i]).None? && RowNodeLine(rows[i]).Some?;
    }
  }

  /** Saving to a path both tests accept and loading the saved file back
      with the loader as written panics exactly when some saved row carries
      a node line but no primitive: there are fewer primitives than both
      points and node lines. Otherwise it replaces any drawing with the saved
      points and primitives. */
  lemma SaveThenLoad(path: string, m: Model, other: Model)
    requires ImportAccepts(path) && ExportAccepts(path)
    ensures var saved := ExportModel(path, true, m);
      saved.Some? &&
      var loaded := ImportModel(path, Some(Decoded(saved.value)), other);
      && (loaded.None? <==> |m.lines| < |m.dots| && |m.lines| < |m.nodeLines|)
      && (loaded.Some? ==> loaded.value.0 && loaded.value.1.dots == m.dots && loaded.value.1.lines == m.lines)
  {
    var rows := ExportRows(m);
    ImportExportRoundTrip(m);
    AsWrittenDecodedPanicsIff(rows);
    ExportPanicRows(m, rows);
  }

  /** With the corrected loader, saving to a path both tests accept and
      loading the saved file back replaces any drawing with the saved points
      and primitives. */
  lemma SaveThenLoadIntended(path: string, m: Model, other: Model)
    requires ImportAccepts(path) && ExportAccepts(path)
    ensures var saved := ExportModel(path, true, m);
      saved.Some? &&
      var loaded := ImportModelIntended(path, Some(Decoded(saved.value)), other);
      loaded.0 && loaded.1.dots == m.dots && loaded.1.lines == m.lines
  {
    ImportExportRoundTrip(m);
  }
}
