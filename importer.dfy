/**
 * ImportGrid of src/logic/io.ts. The text between each "(" and the next ")" is one row,
 * numbered from 0 in order. Inside a row blanks are skipped, "z:" writes z empty cells,
 * and every number ended by "," or "/" — and the one left at the end — is written into
 * the next cell.
 */
module Importer {
  import opened Wrappers
  import opened SparseGrid
  import opened TextUtil
  import opened Codec

  /** A token Number would not read as an integer. */
  datatype ImportError = BadNumber(token: string)

  /** Where the scan of one row stands: the cells written so far, and the characters buffered. */
  datatype Scan = Scan(cells: seq<int>, buf: string)

  /** How many cells "z:" writes: the loop `z < zeroes` runs no time for a negative count. */
  function ZeroCount(n: int): (k: nat)
    ensures n >= 0 ==> k == n
    ensures n < 0 ==> k == 0
  {
    if n < 0 then 0 else n
  }

  /** One character of a row. */
  function ScanChar(st: Scan, c: char): (r: Result<Scan, ImportError>)
    ensures r.Failure? <==> (c == ':' || c == ',' || c == '/') && ParseNumber(st.buf).None?
    ensures r.Success? ==> |st.cells| <= |r.value.cells| && r.value.cells[..|st.cells|] == st.cells
    ensures r.Success? && c != ' ' && c != ':' && c != ',' && c != '/' ==> r.value == Scan(st.cells, st.buf + [c])
  {
    if c == ' ' then Success(st)
    else if c == ':' then
      match ParseNumber(st.buf)
      case None => Failure(BadNumber(st.buf))
      case Some(n) => Success(Scan(st.cells + Zeros(ZeroCount(n)), ""))
    else if c == ',' || c == '/' then
      match ParseNumber(st.buf)
      case None => Failure(BadNumber(st.buf))
      case Some(v) => Success(Scan(st.cells + [v], ""))
    else Success(Scan(st.cells, st.buf + [c]))
  }

  /** The characters s, one after the other, from st; the first bad token stops the scan. */
  function ScanFrom(st: Scan, s: string): (r: Result<Scan, ImportError>)
    ensures r.Success? ==> |st.cells| <= |r.value.cells| && r.value.cells[..|st.cells|] == st.cells
    decreases |s|
  {
    if s == [] then Success(st)
    else
      match ScanChar(st, s[0])
      case Failure(e) => Failure(e)
      case Success(next) => ScanFrom(next, s[1..])
  }

  /** The cells of one row: the scan, then the number left in the buffer written last. */
  function ReadRow(row: string): (r: Result<seq<int>, ImportError>)
    ensures r.Success? ==> r.value != []
  {
    match ScanFrom(Scan([], ""), row)
    case Failure(e) => Failure(e)
    case Success(st) =>
      match ParseNumber(st.buf)
      case None => Failure(BadNumber(st.buf))
      case Some(v) => Success(st.cells + [v])
  }

  /** The first pieces of each split on ")". */
  function Heads(pieces: seq<string>): (r: seq<string>)
    ensures |r| == |pieces|
    ensures forall i :: 0 <= i < |r| ==> r[i] == Split(pieces[i], ')')[0]
  {
    if pieces == [] then [] else Heads(pieces[..|pieces| - 1]) + [Split(pieces[|pieces| - 1], ')')[0]]
  }

  /** The row texts: the non-empty pieces between "(" characters, each cut at its first ")". */
  function RowStrings(str: string): seq<string>
  {
    Heads(NonEmpty(Split(str, '(')))
  }

  /** Every row read in turn; the first row with a bad token is the failure. */
  function ImportRows(rows: seq<string>): (r: Result<seq<seq<int>>, ImportError>)
    ensures r.Success? ==> |r.value| == |rows|
  {
    if rows == [] then Success([])
    else
      match ImportRows(rows[..|rows| - 1])
      case Failure(e) => Failure(e)
      case Success(done) =>
        match ReadRow(rows[|rows| - 1])
        case Failure(e) => Failure(e)
        case Success(cells) => Success(done + [cells])
  }

  /** Row r written cell by cell from column 0. */
  function PutRow(g: Grid, r: int, cells: seq<int>): Grid
  {
    if cells == [] then g
    else GridSet(PutRow(g, r, cells[..|cells| - 1]), r, |cells| - 1, cells[|cells| - 1])
  }

  /** Writing a row stores (r, i) with cells[i] for every i, and leaves every other cell alone. */
  lemma {:induction false} PutRowAt(g: Grid, r: int, cells: seq<int>, cell: Cell)
    ensures cell in PutRow(g, r, cells) <==> cell in g || (cell.0 == r && 0 <= cell.1 < |cells|)
    ensures cell in PutRow(g, r, cells) ==>
      PutRow(g, r, cells)[cell] == if cell.0 == r && 0 <= cell.1 < |cells| then cells[cell.1] else g[cell]
  {
    if cells != [] {
      PutRowAt(g, r, cells[..|cells| - 1], cell);
    }
  }

  /** The grid holding row i at index i: exactly the cells written, nothing else. */
  function PutRows(rows: seq<seq<int>>): (g: Grid)
    ensures forall cell :: cell in g <==> 0 <= cell.0 < |rows| && 0 <= cell.1 < |rows[cell.0]|
    ensures forall cell :: cell in g ==> g[cell] == rows[cell.0][cell.1]
  {
    if rows == [] then map[]
    else
      var n := |rows| - 1;
      var g := PutRows(rows[..n]);
      var h := PutRow(g, n, rows[n]);
      assert forall cell :: (cell in h <==> 0 <= cell.0 < |rows| && 0 <= cell.1 < |rows[cell.0]|)
                            && (cell in h ==> h[cell] == rows[cell.0][cell.1]) by {
        forall cell
          ensures cell in h <==> 0 <= cell.0 < |rows| && 0 <= cell.1 < |rows[cell.0]|
          ensures cell in h ==> h[cell] == rows[cell.0][cell.1]
        {
          PutRowAt(g, n, rows[n], cell);
        }
      }
      h
  }

  /** What ImportGrid returns for str. */
  function ImportText(str: string): Result<Grid, ImportError>
  {
    match ImportRows(RowStrings(str))
    case Failure(e) => Failure(e)
    case Success(rows) => Success(PutRows(rows))
  }

  /** The empty text has no row: it imports as the empty grid. */
  lemma ImportNothing()
    ensures ImportText("") == Success(map[])
  {
    assert Split("", '(') == [""];
    assert NonEmpty([""]) == [];
  }

  /** What reading one row into g gives. */
  function RowInto(g: Grid, r: int, row: string): Result<Grid, ImportError>
  {
    match ReadRow(row)
    case Failure(e) => Failure(e)
    case Success(cells) => Success(PutRow(g, r, cells))
  }

  // ---------------------------------------------------------------------------------------
  // Steps of the scan
  // ---------------------------------------------------------------------------------------

  lemma ScanNext(st: Scan, s: string, i: nat)
    requires i < |s|
    ensures ScanFrom(st, s[i..]) ==
      match ScanChar(st, s[i])
      case Failure(e) => Failure(e)
      case Success(next) => ScanFrom(next, s[i + 1..])
  {
    assert s[i..][0] == s[i] && s[i..][1..] == s[i + 1..];
  }

  lemma ScanDone(st: Scan, s: string)
    ensures ScanFrom(st, s[|s|..]) == Success(st)
  {
    assert s[|s|..] == [];
  }

  lemma PutRowNext(g: Grid, r: int, cells: seq<int>, v: int)
    ensures PutRow(g, r, cells + [v]) == GridSet(PutRow(g, r, cells), r, |cells|, v)
  {
    assert (cells + [v])[..|cells|] == cells;
  }

  lemma PutRowsNext(rows: seq<seq<int>>, cells: seq<int>)
    ensures PutRows(rows + [cells]) == PutRow(PutRows(rows), |rows|, cells)
  {
    assert (rows + [cells])[..|rows|] == rows;
  }

  lemma ImportRowsNext(rows: seq<string>, k: nat, done: seq<seq<int>>)
    requires k < |rows| && ImportRows(rows[..k]) == Success(done)
    ensures ImportRows(rows[..k + 1]) ==
      match ReadRow(rows[k])
      case Failure(e) => Failure(e)
      case Success(cells) => Success(done + [cells])
  {
    assert rows[..k + 1][..k] == rows[..k];
  }

  lemma FailureNext(rows: seq<string>, k: nat, e: ImportError)
    requires k < |rows| && ImportRows(rows[..k]) == Failure(e)
    ensures ImportRows(rows[..k + 1]) == Failure(e)
  {
    var longer := rows[..k + 1];
    assert longer[..|longer| - 1] == rows[..k];
  }

  /** When the import succeeds, entry i holds the cells row i reads as. */
  lemma {:induction false} ImportRowsAt(rows: seq<string>, i: int)
    requires 0 <= i < |rows| && ImportRows(rows).Success?
    ensures ReadRow(rows[i]) == Success(ImportRows(rows).value[i])
  {
    var n := |rows| - 1;
    var init := rows[..n];
    if i < n {
      ImportRowsAt(init, i);
      assert init[i] == rows[i];
    }
  }

  /** The import fails only when some row fails to read. */
  lemma {:induction false} ImportRowsSucceeds(rows: seq<string>)
    requires forall i :: 0 <= i < |rows| ==> ReadRow(rows[i]).Success?
    ensures ImportRows(rows).Success?
  {
    if rows != [] {
      var n := |rows| - 1;
      var init := rows[..n];
      assert forall i :: 0 <= i < n ==> init[i] == rows[i];
      ImportRowsSucceeds(init);
      assert ReadRow(rows[n]).Success?;
    }
  }

  /** Once a row fails, every longer prefix fails with the same error. */
  lemma {:induction false} ImportRowsFails(rows: seq<string>, k: nat, m: nat, e: ImportError)
    requires k <= m <= |rows| && ImportRows(rows[..k]) == Failure(e)
    ensures ImportRows(rows[..m]) == Failure(e)
    decreases m - k
  {
    if k < m {
      FailureNext(rows, k, e);
      ImportRowsFails(rows, k + 1, m, e);
    }
  }

  // ---------------------------------------------------------------------------------------
  // ImportGrid
  // ---------------------------------------------------------------------------------------

  lemma ZeroStep(base: Grid, r: int, cells: seq<int>, z: nat, done: seq<int>, g: Grid)
    requires done == cells + Zeros(z) && g == PutRow(base, r, done)
    ensures done + [0] == cells + Zeros(z + 1)
    ensures GridSet(g, r, |done|, 0) == PutRow(base, r, done + [0])
  {
    PutRowNext(base, r, done, 0);
    AppendAssoc(cells, Zeros(z), [0]);
  }

  /** The zeroes loop of "z:": n empty cells written at the next columns of row r. */
  method WriteZeros(ghost base: Grid, grid: Grid, r: int, ghost cells: seq<int>, index: int, n: int)
    returns (g: Grid, gridRowIndex: int, ghost cells': seq<int>)
    requires grid == PutRow(base, r, cells) && index == |cells|
    ensures cells' == cells + Zeros(ZeroCount(n))
    ensures g == PutRow(base, r, cells') && gridRowIndex == |cells'|
  {
    g, gridRowIndex, cells' := grid, index, cells;
    var z := 0;
    while z < n
      invariant 0 <= z <= ZeroCount(n)
      invariant cells' == cells + Zeros(z)
      invariant g == PutRow(base, r, cells') && gridRowIndex == |cells'|
    {
      ZeroStep(base, r, cells, z, cells', g);
      g := GridSet(g, r, gridRowIndex, 0);
      cells' := cells' + [0];
      gridRowIndex := gridRowIndex + 1;
      z := z + 1;
    }
  }

  /** A number written at the next column of row r. */
  method WriteCell(ghost base: Grid, grid: Grid, r: int, ghost cells: seq<int>, index: int, v: int)
    returns (g: Grid, gridRowIndex: int, ghost cells': seq<int>)
    requires grid == PutRow(base, r, cells) && index == |cells|
    ensures cells' == cells + [v]
    ensures g == PutRow(base, r, cells') && gridRowIndex == |cells'|
  {
    PutRowNext(base, r, cells, v);
    g := GridSet(grid, r, index, v);
    cells' := cells + [v];
    gridRowIndex := index + 1;
  }

  /**
   * The body of the character loop: a blank is skipped, "z:" writes z empty cells, a number
   * ended by "," or "/" is written, any other character is buffered. The outcome is ScanChar's.
   */
  method ReadChar(ghost base: Grid, grid: Grid, r: int, ghost cells: seq<int>, index: int, buffer: string, ch: char)
    returns (result: Result<(Grid, int, string), ImportError>, ghost cells': seq<int>)
    requires grid == PutRow(base, r, cells) && index == |cells|
    ensures result.Failure? <==> ScanChar(Scan(cells, buffer), ch).Failure?
    ensures result.Failure? ==> result.error == ScanChar(Scan(cells, buffer), ch).error
    ensures result.Success? ==>
      && ScanChar(Scan(cells, buffer), ch) == Success(Scan(cells', result.value.2))
      && result.value.0 == PutRow(base, r, cells') && result.value.1 == |cells'|
  {
    cells' := cells;
    if ch == ' ' {
      return Success((grid, index, buffer)), cells';
    }
    if ch == ':' {
      var zeroes := ParseNumber(buffer);
      if zeroes.None? {
        return Failure(BadNumber(buffer)), cells';
      }
      var g, gridRowIndex;
      g, gridRowIndex, cells' := WriteZeros(base, grid, r, cells, index, zeroes.value);
      return Success((g, gridRowIndex, "")), cells';
    }
    if ch == ',' || ch == '/' {
      var value := ParseNumber(buffer);
      if value.None? {
        return Failure(BadNumber(buffer)), cells';
      }
      var g, gridRowIndex;
      g, gridRowIndex, cells' := WriteCell(base, grid, r, cells, index, value.value);
      return Success((g, gridRowIndex, "")), cells';
    }
    result := Success((grid, index, buffer + [ch]));
  }

  /** One row of ImportGrid: its characters scanned into row r of grid. */
  method ImportRow(grid: Grid, r: int, row: string) returns (result: Result<Grid, ImportError>)
    ensures result == RowInto(grid, r, row)
  {
    var g := grid;
    var gridRowIndex := 0;
    var currentBuffer := "";
    ghost var cells: seq<int> := [];
    var i := 0;
    while i < |row|
      invariant 0 <= i <= |row|
      invariant g == PutRow(grid, r, cells) && gridRowIndex == |cells|
      invariant ScanFrom(Scan([], ""), row) == ScanFrom(Scan(cells, currentBuffer), row[i..])
    {
      ScanNext(Scan(cells, currentBuffer), row, i);
      var step;
      step, cells := ReadChar(grid, g, r, cells, gridRowIndex, currentBuffer, row[i]);
      if step.Failure? {
        return Failure(step.error);
      }
      g, gridRowIndex, currentBuffer := step.value.0, step.value.1, step.value.2;
      i := i + 1;
    }
    ScanDone(Scan(cells, currentBuffer), row);
    var value := ParseNumber(currentBuffer);
    if value.None? {
      return Failure(BadNumber(currentBuffer));
    }
    g, gridRowIndex, cells := WriteCell(grid, g, r, cells, gridRowIndex, value.value);
    result := Success(g);
  }

  /** ImportGrid: the row texts, each scanned into the next row of a new grid. */
  method ImportGrid(str: string) returns (result: Result<Grid, ImportError>)
    ensures result == ImportText(str)
  {
    var rows := RowStrings(str);
    var grid: Grid := map[];
    ghost var done: seq<seq<int>> := [];
    var r := 0;
    while r < |rows|
      invariant 0 <= r <= |rows|
      invariant ImportRows(rows[..r]) == Success(done)
      invariant grid == PutRows(done)
    {
      ImportRowsNext(rows, r, done);
      var next := ImportRow(grid, r, rows[r]);
      if next.Failure? {
        ImportRowsFails(rows, r + 1, |rows|, next.error);
        TakeAll(rows);
        return Failure(next.error);
      }
      ghost var cells := ReadRow(rows[r]).value;
      PutRowsNext(done, cells);
      grid := next.value;
      done := done + [cells];
      r := r + 1;
    }
    TakeAll(rows);
    result := Success(grid);
  }
}
