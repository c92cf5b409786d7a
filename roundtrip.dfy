/**
 * Reading back what ExportGrid writes: ImportGrid of the exported text succeeds, and every
 * cell reads as the cell of the original grid moved by (-row.min, -col.min), where row.min
 * and col.min are the bounds of the non-empty cells.
 */
module RoundTrip {
  import opened Wrappers
  import opened SparseGrid
  import opened Extent
  import opened TextUtil
  import opened Codec
  import opened Importer

  // ---------------------------------------------------------------------------------------
  // Scanning the pieces of an exported row
  // ---------------------------------------------------------------------------------------

  /** Scanning a + b is scanning a, then b from where a left off. */
  lemma {:induction false} ScanAppend(st: Scan, a: string, b: string)
    ensures ScanFrom(st, a + b) ==
      match ScanFrom(st, a)
      case Failure(e) => Failure(e)
      case Success(next) => ScanFrom(next, b)
    decreases |a|
  {
    if a == [] {
      assert a + b == b;
    } else {
      HeadAppend(a, b);
      match ScanChar(st, a[0]) {
        case Failure(e) =>
        case Success(next) => ScanAppend(next, a[1..], b);
      }
    }
  }

  /** Signs and digits only go into the buffer. */
  lemma {:induction false} ScanNumeral(cells: seq<int>, buf: string, t: string)
    requires forall i :: 0 <= i < |t| ==> t[i] == '-' || IsDigit(t[i])
    ensures ScanFrom(Scan(cells, buf), t) == Success(Scan(cells, buf + t))
    decreases |t|
  {
    if t == [] {
      assert buf + t == buf;
    } else {
      ScanNumeral(cells, buf + [t[0]], t[1..]);
      ConsParts(t);
      AppendAssoc(buf, [t[0]], t[1..]);
    }
  }

  /** A row scanned up to its last number, which is still in the buffer. */
  function Held(p: seq<int>): Scan
    requires p != []
  {
    Scan(p[..|p| - 1], IntToString(p[|p| - 1]))
  }

  lemma ScanBlank(st: Scan)
    ensures ScanFrom(st, " ") == Success(st)
  {
    assert " "[0] == ' ' && " "[1..] == "";
  }

  /** ", " and " / " write the buffered number. */
  lemma ScanSeparator(p: seq<int>, sep: string)
    requires p != [] && (sep == ", " || sep == " / ")
    ensures ScanFrom(Held(p), sep) == Success(Scan(p, ""))
  {
    var st, done := Held(p), Scan(p, "");
    ParseIntToString(p[|p| - 1]);
    SnocParts(p);
    ScanBlank(done);
    if sep == ", " {
      assert sep[0] == ',' && sep[1..] == " ";
      assert ScanChar(st, ',') == Success(done);
    } else {
      assert sep[0] == ' ' && sep[1..] == "/ " && sep[1..][0] == '/' && sep[1..][1..] == " ";
      assert ScanChar(st, '/') == Success(done);
    }
  }

  /** "z: " writes z empty cells. */
  lemma ScanHead(cells: seq<int>, z: nat)
    ensures ScanFrom(Scan(cells, ""), IntToString(z) + ": ") == Success(Scan(cells + Zeros(z), ""))
  {
    var t := IntToString(z);
    ScanAppend(Scan(cells, ""), t, ": ");
    ScanNumeral(cells, "", t);
    assert "" + t == t;
    ParseIntToString(z);
    var done := Scan(cells + Zeros(z), "");
    assert ScanChar(Scan(cells, t), ':') == Success(done);
    assert ": "[0] == ':' && ": "[1..] == " ";
    ScanBlank(done);
  }

  /** "v, v, v" writes all but the last number and leaves the last one in the buffer. */
  lemma {:induction false} ScanValues(cells: seq<int>, vs: seq<int>)
    requires vs != []
    ensures ScanFrom(Scan(cells, ""), Join(IntStrings(vs), ", ")) == Success(Held(cells + vs))
    decreases |vs|
  {
    var init, v := vs[..|vs| - 1], vs[|vs| - 1];
    var t := IntToString(v);
    assert IntStrings(vs) == IntStrings(init) + [t];
    assert "" + t == t;
    SnocParts(vs);
    AppendAssoc(cells, init, [v]);
    TakeSnoc(cells + init, v);
    if init == [] {
      assert IntStrings(vs) == [t];
      assert cells + init == cells;
      ScanNumeral(cells, "", t);
    } else {
      var a := Join(IntStrings(init), ", ");
      JoinAppend(IntStrings(init), ", ", t);
      ScanValues(cells, init);
      ScanAppend(Scan(cells, ""), a + ", ", t);
      ScanAppend(Scan(cells, ""), a, ", ");
      ScanSeparator(cells + init, ", ");
      ScanNumeral(cells + init, "", t);
    }
  }

  /** One run: its empty cells, its numbers but the last, and the last one buffered. */
  lemma ScanRun(cells: seq<int>, r: Run)
    requires r.values != []
    ensures ScanFrom(Scan(cells, ""), RunText(r)) == Success(Held(cells + Zeros(r.zeros) + r.values))
  {
    ScanAppend(Scan(cells, ""), RunHead(r), Join(IntStrings(r.values), ", "));
    ScanHead(cells, r.zeros);
    ScanValues(cells + Zeros(r.zeros), r.values);
  }

  /** The runs of a row joined by " / ": every cell they stand for, the last one buffered. */
  lemma {:induction false} ScanRuns(cells: seq<int>, rs: seq<Run>)
    requires rs != [] && WellFormed(rs)
    ensures Expand(rs) != []
    ensures ScanFrom(Scan(cells, ""), Join(RunTexts(rs), " / ")) == Success(Held(cells + Expand(rs)))
    decreases |rs|
  {
    var init, last := rs[..|rs| - 1], rs[|rs| - 1];
    assert GoodRun(last);
    ExpandLast(rs);
    if init == [] {
      assert RunTexts(rs) == [RunText(last)];
      assert cells + Expand(rs) == cells + Zeros(last.zeros) + last.values;
      ScanRun(cells, last);
    } else {
      assert forall i :: 0 <= i < |init| ==> init[i] == rs[i];
      ScanRuns(cells, init);
      assert RunTexts(rs) == RunTexts(init) + [RunText(last)];
      JoinAppend(RunTexts(init), " / ", RunText(last));
      ScanRunsStep(cells, Join(RunTexts(init), " / "), Expand(init), last);
    }
  }

  /** The cells of the runs: those of all but the last, then the last run's. */
  lemma ExpandLast(rs: seq<Run>)
    requires rs != []
    ensures var init, last := rs[..|rs| - 1], rs[|rs| - 1];
      Expand(rs) == Expand(init) + (Zeros(last.zeros) + last.values)
  {
    var init, last := rs[..|rs| - 1], rs[|rs| - 1];
    AppendAssoc(Expand(init), Zeros(last.zeros), last.values);
  }

  /** One more run after " / ". */
  lemma ScanRunsStep(cells: seq<int>, a: string, e: seq<int>, last: Run)
    requires e != [] && last.values != []
    requires ScanFrom(Scan(cells, ""), a) == Success(Held(cells + e))
    ensures ScanFrom(Scan(cells, ""), a + " / " + RunText(last)) ==
      Success(Held(cells + (e + (Zeros(last.zeros) + last.values))))
  {
    ScanAppend(Scan(cells, ""), a + " / ", RunText(last));
    ScanAppend(Scan(cells, ""), a, " / ");
    ScanSeparator(cells + e, " / ");
    ScanRun(cells + e, last);
    AppendAssoc(cells + e, Zeros(last.zeros), last.values);
    AppendAssoc(cells, e, Zeros(last.zeros) + last.values);
  }

  /** Cell c of a row, reading 0 outside it. */
  function At(p: seq<int>, c: int): int
  {
    if 0 <= c < |p| then p[c] else 0
  }

  /** The body of an all-empty row, "", reads as one empty cell. */
  lemma ReadEmptyRow()
    ensures ReadRow("") == Success([0])
  {
    assert ScanFrom(Scan([], ""), "") == Success(Scan([], ""));
    assert Trim("") == "";
    assert ParseNumber("") == Some(0);
    assert [] + [0] == [0];
  }

  /** The runs joined by " / " read as the cells they stand for. */
  lemma ReadRuns(rs: seq<Run>)
    requires rs != [] && WellFormed(rs)
    ensures ReadRow(Join(RunTexts(rs), " / ")) == Success(Expand(rs))
  {
    var e := Expand(rs);
    ScanRuns([], rs);
    assert [] + e == e;
    ParseIntToString(e[|e| - 1]);
    SnocParts(e);
  }

  /** ImportGrid reads back from the text of a row exactly the cells of that row. */
  lemma RowReadBack(p: seq<int>)
    ensures ReadRow(RowBody(p)).Success?
    ensures forall c :: At(ReadRow(RowBody(p)).value, c) == At(p, c)
  {
    var rs := Runs(p);
    RunsExpand(p);
    var e := Expand(rs);
    if rs == [] {
      assert RowBody(p) == "";
      ReadEmptyRow();
      assert e == [] && p == [] + Zeros(TrailingZeros(p));
    } else {
      ReadRuns(rs);
    }
  }

  // ---------------------------------------------------------------------------------------
  // Splitting the exported text into rows
  // ---------------------------------------------------------------------------------------

  /** No parenthesis in s. */
  predicate Plain(s: string)
  {
    forall i :: 0 <= i < |s| ==> s[i] != '(' && s[i] != ')'
  }

  lemma PlainAppend(a: string, b: string)
    requires Plain(a) && Plain(b)
    ensures Plain(a + b)
  {
  }

  lemma {:induction false} PlainValues(vs: seq<int>)
    ensures Plain(Join(IntStrings(vs), ", "))
    decreases |vs|
  {
    if vs != [] {
      var init := vs[..|vs| - 1];
      var t := IntToString(vs[|vs| - 1]);
      assert IntStrings(vs) == IntStrings(init) + [t];
      if init == [] {
        assert IntStrings(vs) == [t];
      } else {
        PlainValues(init);
        JoinAppend(IntStrings(init), ", ", t);
        PlainAppend(Join(IntStrings(init), ", "), ", ");
        PlainAppend(Join(IntStrings(init), ", ") + ", ", t);
      }
    }
  }

  lemma PlainRun(r: Run)
    ensures Plain(RunText(r))
  {
    PlainValues(r.values);
    PlainAppend(IntToString(r.zeros), ": ");
    PlainAppend(RunHead(r), Join(IntStrings(r.values), ", "));
  }

  lemma {:induction false} PlainRuns(rs: seq<Run>)
    ensures Plain(Join(RunTexts(rs), " / "))
    decreases |rs|
  {
    if rs != [] {
      var init, last := rs[..|rs| - 1], rs[|rs| - 1];
      assert RunTexts(rs) == RunTexts(init) + [RunText(last)];
      PlainRun(last);
      if init == [] {
        assert RunTexts(rs) == [RunText(last)];
      } else {
        PlainRuns(init);
        JoinAppend(RunTexts(init), " / ", RunText(last));
        PlainAppend(Join(RunTexts(init), " / "), " / ");
        PlainAppend(Join(RunTexts(init), " / ") + " / ", RunText(last));
      }
    }
  }

  /** The text between the parentheses of an exported row holds no parenthesis. */
  lemma PlainBody(p: seq<int>)
    ensures '(' !in RowBody(p) && ')' !in RowBody(p)
  {
    PlainRuns(Runs(p));
  }

  /** The pieces "body), " of a split on "(", the last one without the ", ". */
  function Pieces(bodies: seq<string>): (r: seq<string>)
    requires bodies != []
    ensures |r| == |bodies|
    ensures forall i :: 0 <= i < |r| ==> r[i] == bodies[i] + ")" + (if i + 1 < |r| then ", " else "")
    decreases |bodies|
  {
    if |bodies| == 1 then [bodies[0] + ")" + ""] else [bodies[0] + ")" + ", "] + Pieces(bodies[1..])
  }

  lemma JoinFirst(parts: seq<string>, sep: string)
    requires parts != [] && parts[0] != []
    ensures Join(parts, sep) != [] && Join(parts, sep)[0] == parts[0][0]
  {
    if |parts| > 1 {
      ConsParts(parts);
      JoinFront(parts[0], parts[1..], sep);
    }
  }

  lemma NoOpen(b: string)
    requires '(' !in b
    ensures '(' !in b + ")" + ", " && '(' !in b + ")"
  {
  }

  lemma RegroupRows(b: string, r: string)
    ensures (['('] + (b + ")")) + ", " + (['('] + r) == ['('] + (b + ")" + ", " + ['('] + r)
  {
    var x, y, z, w := ['('], b + ")", ", ", ['('] + r;
    AppendAssoc(x + y, z, w);
    AppendAssoc(x, y, z + w);
    AppendAssoc(y + z, ['('], r);
    AppendAssoc(y, z, w);
  }

  /** "(b0), (b1), ..." splits on "(" into an empty piece, then one piece per body. */
  lemma {:induction false} SplitRows(texts: seq<string>, bodies: seq<string>)
    requires texts != [] && |texts| == |bodies|
    requires forall i :: 0 <= i < |texts| ==> texts[i] == "(" + bodies[i] + ")"
    requires forall i :: 0 <= i < |bodies| ==> '(' !in bodies[i]
    ensures Split(Join(texts, ", "), '(') == [[]] + Pieces(bodies)
    decreases |texts|
  {
    var b := bodies[0];
    assert texts[0] == ['('] + (b + ")");
    if |texts| == 1 {
      assert texts == [texts[0]];
      assert b + ")" + "" == b + ")";
      NoOpen(b);
      SplitCons('(', b + ")", '(');
      SplitNone(b + ")", '(');
    } else {
      var rest := texts[1..];
      var a := b + ")" + ", ";
      SplitRows(rest, bodies[1..]);
      ConsParts(texts);
      JoinFront(texts[0], rest, ", ");
      JoinFirst(rest, ", ");
      var r := Join(rest, ", ")[1..];
      ConsParts(Join(rest, ", "));
      RegroupRows(b, r);
      SplitCons('(', a + ['('] + r, '(');
      SplitAt(a, '(', r);
      NoOpen(b);
      SplitNone(a, '(');
      SplitCons('(', r, '(');
      assert Split(r, '(') == ([[]] + Split(r, '('))[1..];
    }
  }

  lemma {:induction false} NonEmptyAll(parts: seq<string>)
    requires forall i :: 0 <= i < |parts| ==> parts[i] != []
    ensures NonEmpty(parts) == parts
    decreases |parts|
  {
    if parts != [] {
      NonEmptyAll(parts[1..]);
      ConsParts(parts);
    }
  }

  /** Cutting "b)..." at its first ")" gives b back. */
  lemma HeadOfPiece(b: string, tail: string)
    requires ')' !in b
    ensures Split(b + ")" + tail, ')')[0] == b
  {
    SplitAt(b, ')', tail);
    SplitNone(b, ')');
  }

  /** The row strings ImportGrid finds in "(b0), (b1), ...": the bodies, in order. */
  lemma RowStringsOf(texts: seq<string>, bodies: seq<string>)
    requires |texts| == |bodies|
    requires forall i :: 0 <= i < |texts| ==> texts[i] == "(" + bodies[i] + ")"
    requires forall i :: 0 <= i < |bodies| ==> '(' !in bodies[i] && ')' !in bodies[i]
    ensures RowStrings(Join(texts, ", ")) == bodies
  {
    if texts == [] {
      assert Split([], '(') == [[]];
    } else {
      SplitRows(texts, bodies);
      var ps := Pieces(bodies);
      assert ([[]] + ps)[0] == [] && ([[]] + ps)[1..] == ps;
      NonEmptyAll(ps);
      HeadsOfPieces(bodies);
    }
  }

  /** Each piece "b)..." yields its body b. */
  lemma HeadsOfPieces(bodies: seq<string>)
    requires bodies != []
    requires forall i :: 0 <= i < |bodies| ==> ')' !in bodies[i]
    ensures Heads(Pieces(bodies)) == bodies
  {
    var ps := Pieces(bodies);
    var heads := Heads(ps);
    forall i | 0 <= i < |bodies|
      ensures heads[i] == bodies[i]
    {
      var tail: string := if i + 1 < |ps| then ", " else "";
      assert ps[i] == bodies[i] + ")" + tail;
      HeadOfPiece(bodies[i], tail);
    }
  }

  // ---------------------------------------------------------------------------------------
  // The round trip
  // ---------------------------------------------------------------------------------------

  /** The bodies of rows lo..hi, each over columns cl..ch. */
  ghost function Bodies(g: Grid, lo: int, hi: int, cl: int, ch: int): (r: seq<string>)
    ensures |r| == Width(lo, hi)
    decreases Width(lo, hi)
  {
    if hi < lo then [] else Bodies(g, lo, hi - 1, cl, ch) + [RowBody(RowValues(g, hi, cl, ch))]
  }

  lemma {:induction false} BodiesAt(g: Grid, lo: int, hi: int, cl: int, ch: int, i: nat, row: int)
    requires i < Width(lo, hi) && row == lo + i
    ensures Bodies(g, lo, hi, cl, ch)[i] == RowBody(RowValues(g, row, cl, ch))
    decreases Width(lo, hi)
  {
    var init, last := Bodies(g, lo, hi - 1, cl, ch), RowBody(RowValues(g, hi, cl, ch));
    assert Bodies(g, lo, hi, cl, ch) == init + [last];
    if i < |init| {
      BodiesAt(g, lo, hi - 1, cl, ch, i, row);
      assert (init + [last])[i] == init[i];
    } else {
      assert (init + [last])[i] == last;
      assert row == hi;
    }
  }

  /** A cell outside the bounds of the non-empty cells is empty. */
  lemma OutsideEmpty(g: Grid, b: Bounds, row: int, col: int)
    requires IsBounds(g, false, b)
    requires !(b.row.min <= row <= b.row.max && b.col.min <= col <= b.col.max)
    ensures GridGet(g, row, col) == 0
  {
    if (row, col) in g {
      assert Counted(g[(row, col)], false) ==> b.row.min <= row <= b.row.max && b.col.min <= col <= b.col.max;
    }
  }

  /** The cells of rows lo..hi, each over columns cl..ch. */
  ghost function Rect(g: Grid, lo: int, hi: int, cl: int, ch: int): (r: seq<seq<int>>)
    ensures |r| == Width(lo, hi)
    decreases Width(lo, hi)
  {
    if hi < lo then [] else Rect(g, lo, hi - 1, cl, ch) + [RowValues(g, hi, cl, ch)]
  }

  lemma {:induction false} RectAt(g: Grid, lo: int, hi: int, cl: int, ch: int, i: nat, row: int)
    requires i < Width(lo, hi) && row == lo + i
    ensures Rect(g, lo, hi, cl, ch)[i] == RowValues(g, row, cl, ch)
    decreases Width(lo, hi)
  {
    var init, last := Rect(g, lo, hi - 1, cl, ch), RowValues(g, hi, cl, ch);
    assert Rect(g, lo, hi, cl, ch) == init + [last];
    if i < |init| {
      RectAt(g, lo, hi - 1, cl, ch, i, row);
      assert (init + [last])[i] == init[i];
    } else {
      assert (init + [last])[i] == last;
      assert row == hi;
    }
  }

  /** Row i of the rectangle: its text is its body in parentheses, and the body reads back as the row. */
  lemma RowPair(g: Grid, lo: int, hi: int, cl: int, ch: int, i: nat, text: string, body: string, p: seq<int>)
    requires i < Width(lo, hi)
    requires text == RowTexts(g, lo, hi, cl, ch)[i] && body == Bodies(g, lo, hi, cl, ch)[i]
    requires p == Rect(g, lo, hi, cl, ch)[i]
    ensures text == "(" + body + ")" && '(' !in body && ')' !in body
    ensures ReadRow(body).Success? && forall c :: At(ReadRow(body).value, c) == At(p, c)
  {
    var row := lo + i;
    RowTextsAt(g, lo, hi, cl, ch, i, row);
    BodiesAt(g, lo, hi, cl, ch, i, row);
    RectAt(g, lo, hi, cl, ch, i, row);
    PlainBody(p);
    RowReadBack(p);
  }

  /** The rows lo..hi, written and read back, hold row lo + r of g at row r. */
  lemma RectReadBack(g: Grid, lo: int, hi: int, cl: int, ch: int)
    ensures var back := ImportText(Join(RowTexts(g, lo, hi, cl, ch), ", "));
      back.Success? &&
      forall r, c :: GridGet(back.value, r, c) == if 0 <= r < Width(lo, hi) then At(Rect(g, lo, hi, cl, ch)[r], c) else 0
  {
    var texts, bodies, cells := RowTexts(g, lo, hi, cl, ch), Bodies(g, lo, hi, cl, ch), Rect(g, lo, hi, cl, ch);
    RowPairs(g, lo, hi, cl, ch, texts, bodies, cells);
    RowStringsOf(texts, bodies);
    RowsBack(bodies, cells);
    assert ImportText(Join(texts, ", ")) == Success(PutRows(ImportRows(bodies).value));
  }

  /** Every row of the rectangle is written as its body in parentheses, and the body reads back. */
  lemma RowPairs(g: Grid, lo: int, hi: int, cl: int, ch: int, texts: seq<string>, bodies: seq<string>, cells: seq<seq<int>>)
    requires texts == RowTexts(g, lo, hi, cl, ch) && bodies == Bodies(g, lo, hi, cl, ch) && cells == Rect(g, lo, hi, cl, ch)
    ensures forall i :: 0 <= i < |texts| ==> texts[i] == "(" + bodies[i] + ")" && '(' !in bodies[i] && ')' !in bodies[i]
    ensures forall i :: 0 <= i < |bodies| ==> ReadRow(bodies[i]).Success?
    ensures forall i, c :: 0 <= i < |bodies| ==> At(ReadRow(bodies[i]).value, c) == At(cells[i], c)
  {
    forall i | 0 <= i < |texts|
      ensures texts[i] == "(" + bodies[i] + ")" && '(' !in bodies[i] && ')' !in bodies[i]
      ensures ReadRow(bodies[i]).Success?
      ensures forall c :: At(ReadRow(bodies[i]).value, c) == At(cells[i], c)
    {
      RowPair(g, lo, hi, cl, ch, i, texts[i], bodies[i], cells[i]);
    }
  }

  /** The grid built from rows that read back as the rectangle's rows holds the rectangle. */
  lemma RowsBack(bodies: seq<string>, cells: seq<seq<int>>)
    requires |bodies| == |cells|
    requires forall i :: 0 <= i < |bodies| ==> ReadRow(bodies[i]).Success?
    requires forall i, c :: 0 <= i < |bodies| ==> At(ReadRow(bodies[i]).value, c) == At(cells[i], c)
    ensures ImportRows(bodies).Success?
    ensures forall r, c :: GridGet(PutRows(ImportRows(bodies).value), r, c) == if 0 <= r < |cells| then At(cells[r], c) else 0
  {
    ImportRowsSucceeds(bodies);
    var rows := ImportRows(bodies).value;
    var back := PutRows(rows);
    forall r, c
      ensures GridGet(back, r, c) == if 0 <= r < |cells| then At(cells[r], c) else 0
    {
      PutRowsGet(rows, r, c);
      if 0 <= r < |rows| {
        ImportRowsAt(bodies, r);
      }
    }
  }

  lemma PutRowsGet(rows: seq<seq<int>>, r: int, c: int)
    ensures GridGet(PutRows(rows), r, c) == if 0 <= r < |rows| then At(rows[r], c) else 0
  {
  }

  /** One cell of the round trip: read from row r of the rectangle, or outside it and empty. */
  lemma CellBack(g: Grid, b: Bounds, back: Grid, r: int, c: int)
    requires IsBounds(g, false, b)
    requires var cells := Rect(g, b.row.min, b.row.max, b.col.min, b.col.max);
      GridGet(back, r, c) == if 0 <= r < |cells| then At(cells[r], c) else 0
    ensures GridGet(back, r, c) == GridGet(g, r + b.row.min, c + b.col.min)
  {
    var row, col := r + b.row.min, c + b.col.min;
    var cells := Rect(g, b.row.min, b.row.max, b.col.min, b.col.max);
    if 0 <= r < |cells| {
      RectAt(g, b.row.min, b.row.max, b.col.min, b.col.max, r, row);
      var p := cells[r];
      if 0 <= c < |p| {
        assert p[c] == GridGet(g, row, col);
      } else {
        OutsideEmpty(g, b, row, col);
      }
    } else {
      OutsideEmpty(g, b, row, col);
    }
  }

  /**
   * Exporting, then importing, succeeds and moves the grid so that the bounds b of its
   * non-empty cells start at row 0, column 0.
   */
  lemma ExportImport(g: Grid, b: Bounds)
    requires b == BoundsOf(g, false)
    ensures ImportText(ExportText(g)).Success?
    ensures forall r, c :: GridGet(ImportText(ExportText(g)).value, r, c) == GridGet(g, r + b.row.min, c + b.col.min)
  {
    RectReadBack(g, b.row.min, b.row.max, b.col.min, b.col.max);
    assert ExportText(g) == Join(RowTexts(g, b.row.min, b.row.max, b.col.min, b.col.max), ", ");
    CellsBack(g, b, ImportText(ExportText(g)).value);
  }

  lemma CellsBack(g: Grid, b: Bounds, back: Grid)
    requires IsBounds(g, false, b)
    requires var cells := Rect(g, b.row.min, b.row.max, b.col.min, b.col.max);
      forall r, c :: GridGet(back, r, c) == if 0 <= r < |cells| then At(cells[r], c) else 0
    ensures forall r, c :: GridGet(back, r, c) == GridGet(g, r + b.row.min, c + b.col.min)
  {
    forall r, c
      ensures GridGet(back, r, c) == GridGet(g, r + b.row.min, c + b.col.min)
    {
      CellBack(g, b, back, r, c);
    }
  }
}
