/**
 * Bounds of a sparse grid and the traversal of the rectangle they span (GridBounds and
 * BoundsForEach of src/logic/grid.ts).
 */
module Extent {
  import opened SparseGrid

  /** Number.MAX_SAFE_INTEGER and Number.MIN_SAFE_INTEGER, the starting points of the scan. */
  const MAX_SAFE_INTEGER: int := 9007199254740991
  const MIN_SAFE_INTEGER: int := -9007199254740991

  datatype Bound = Bound(min: int, max: int)

  datatype Bounds = Bounds(row: Bound, col: Bound)

  /** What GridBounds returns when no cell counts: min above max on both axes. */
  const EmptyBounds: Bounds :=
    Bounds(Bound(MAX_SAFE_INTEGER, MIN_SAFE_INTEGER), Bound(MAX_SAFE_INTEGER, MIN_SAFE_INTEGER))

  /** A stored cell counts towards the bounds when it is non-zero, or always with includeZeroes. */
  predicate Counted(value: int, includeZeroes: bool)
  {
    value != 0 || includeZeroes
  }

  /**
   * `b` is what the scan of GridBounds ends with: each min is Math.min of MAX_SAFE_INTEGER and
   * the coordinates of the counted cells, each max Math.max of MIN_SAFE_INTEGER and them.
   */
  ghost predicate IsBounds(g: Grid, includeZeroes: bool, b: Bounds)
  {
    && b.row.min <= MAX_SAFE_INTEGER && b.col.min <= MAX_SAFE_INTEGER
    && b.row.max >= MIN_SAFE_INTEGER && b.col.max >= MIN_SAFE_INTEGER
    && (forall c :: c in g && Counted(g[c], includeZeroes) ==>
          b.row.min <= c.0 <= b.row.max && b.col.min <= c.1 <= b.col.max)
    && (b.row.min == MAX_SAFE_INTEGER || RowAttained(g, includeZeroes, b.row.min))
    && (b.row.max == MIN_SAFE_INTEGER || RowAttained(g, includeZeroes, b.row.max))
    && (b.col.min == MAX_SAFE_INTEGER || ColAttained(g, includeZeroes, b.col.min))
    && (b.col.max == MIN_SAFE_INTEGER || ColAttained(g, includeZeroes, b.col.max))
  }

  /** Some counted cell lies on row r. */
  ghost predicate RowAttained(g: Grid, includeZeroes: bool, r: int)
  {
    exists c :: c in g && Counted(g[c], includeZeroes) && c.0 == r
  }

  /** Some counted cell lies on column k. */
  ghost predicate ColAttained(g: Grid, includeZeroes: bool, k: int)
  {
    exists c :: c in g && Counted(g[c], includeZeroes) && c.1 == k
  }

  /** Storing a new cell keeps every attained row and column attained, and adds its own if it counts. */
  lemma AttainedGrow(seen: Grid, includeZeroes: bool, cell: Cell, value: int, r: int, k: int)
    requires cell !in seen
    ensures RowAttained(seen, includeZeroes, r) ==> RowAttained(seen[cell := value], includeZeroes, r)
    ensures ColAttained(seen, includeZeroes, k) ==> ColAttained(seen[cell := value], includeZeroes, k)
    ensures Counted(value, includeZeroes) ==>
      RowAttained(seen[cell := value], includeZeroes, cell.0) && ColAttained(seen[cell := value], includeZeroes, cell.1)
  {
    var seen' := seen[cell := value];
    if RowAttained(seen, includeZeroes, r) {
      var c :| c in seen && Counted(seen[c], includeZeroes) && c.0 == r;
      assert c in seen' && seen'[c] == seen[c];
    }
    if ColAttained(seen, includeZeroes, k) {
      var c :| c in seen && Counted(seen[c], includeZeroes) && c.1 == k;
      assert c in seen' && seen'[c] == seen[c];
    }
    if Counted(value, includeZeroes) {
      assert cell in seen' && seen'[cell] == value;
    }
  }

  /** The scan's result does not depend on the order of the visits: there is only one. */
  lemma BoundsUnique(g: Grid, includeZeroes: bool, b: Bounds, b': Bounds)
    requires IsBounds(g, includeZeroes, b) && IsBounds(g, includeZeroes, b')
    ensures b == b'
  {
  }

  /** Whatever satisfies IsBounds is BoundsOf. */
  lemma BoundsIs(g: Grid, includeZeroes: bool, b: Bounds)
    requires IsBounds(g, includeZeroes, b)
    ensures b == BoundsOf(g, includeZeroes)
  {
    BoundsUnique(g, includeZeroes, b, BoundsOf(g, includeZeroes));
  }

  /** On a grid that stores no 0, counting stored zeros or not gives the same bounds. */
  lemma ZerolessBounds(g: Grid)
    requires forall c :: c in g ==> g[c] != 0
    ensures BoundsOf(g, false) == BoundsOf(g, true)
  {
    var b := BoundsOf(g, true);
    assert IsBounds(g, false, b) by {
      if b.row.min != MAX_SAFE_INTEGER {
        var c :| c in g && Counted(g[c], true) && c.0 == b.row.min;
        assert Counted(g[c], false);
      }
      if b.row.max != MIN_SAFE_INTEGER {
        var c :| c in g && Counted(g[c], true) && c.0 == b.row.max;
        assert Counted(g[c], false);
      }
      if b.col.min != MAX_SAFE_INTEGER {
        var c :| c in g && Counted(g[c], true) && c.1 == b.col.min;
        assert Counted(g[c], false);
      }
      if b.col.max != MIN_SAFE_INTEGER {
        var c :| c in g && Counted(g[c], true) && c.1 == b.col.max;
        assert Counted(g[c], false);
      }
    }
    BoundsIs(g, false, b);
  }

  /** One visit of the scan: the bounds widened to take in `cell` when it counts. */
  function Widen(b: Bounds, cell: Cell, value: int, includeZeroes: bool): Bounds
  {
    if !Counted(value, includeZeroes) then b
    else
      Bounds(Bound(if cell.0 < b.row.min then cell.0 else b.row.min,
                   if cell.0 > b.row.max then cell.0 else b.row.max),
             Bound(if cell.1 < b.col.min then cell.1 else b.col.min,
                   if cell.1 > b.col.max then cell.1 else b.col.max))
  }

  lemma WidenStep(seen: Grid, includeZeroes: bool, b: Bounds, cell: Cell, value: int)
    requires cell !in seen
    requires IsBounds(seen, includeZeroes, b)
    ensures IsBounds(seen[cell := value], includeZeroes, Widen(b, cell, value, includeZeroes))
  {
    AttainedGrow(seen, includeZeroes, cell, value, b.row.min, b.col.min);
    AttainedGrow(seen, includeZeroes, cell, value, b.row.max, b.col.max);
  }

  lemma {:induction false} BoundsExist(g: Grid, includeZeroes: bool)
    ensures exists b :: IsBounds(g, includeZeroes, b)
    decreases |g|
  {
    if g == map[] {
      assert IsBounds(g, includeZeroes, EmptyBounds);
    } else {
      var k :| k in g;
      var g' := g - {k};
      RemoveOne(g, k);
      BoundsExist(g', includeZeroes);
      var b' :| IsBounds(g', includeZeroes, b');
      WidenStep(g', includeZeroes, b', k, g[k]);
      assert IsBounds(g, includeZeroes, Widen(b', k, g[k], includeZeroes));
    }
  }

  /** The bounds of `g`: the one value IsBounds allows. */
  ghost function BoundsOf(g: Grid, includeZeroes: bool): (b: Bounds)
    ensures IsBounds(g, includeZeroes, b)
  {
    BoundsExist(g, includeZeroes);
    var b :| IsBounds(g, includeZeroes, b);
    b
  }

  /**
   * GridBounds: visits every stored cell and keeps running Math.min/Math.max of the
   * coordinates of the counted ones.
   */
  method GridBounds(g: Grid, order: seq<Cell>, includeZeroes: bool) returns (b: Bounds)
    requires IsEnumeration(g, order)
    ensures IsBounds(g, includeZeroes, b)
  {
    var rowMin, rowMax := MAX_SAFE_INTEGER, MIN_SAFE_INTEGER;
    var colMin, colMax := MAX_SAFE_INTEGER, MIN_SAFE_INTEGER;
    VisitedEnds(g, order);
    for i := 0 to |order|
      invariant IsBounds(Visited(g, order, i), includeZeroes, Bounds(Bound(rowMin, rowMax), Bound(colMin, colMax)))
    {
      var cell := order[i];
      VisitedStep(g, order, i);
      var value := g[cell];
      ghost var after := Widen(Bounds(Bound(rowMin, rowMax), Bound(colMin, colMax)), cell, value, includeZeroes);
      WidenStep(Visited(g, order, i), includeZeroes, Bounds(Bound(rowMin, rowMax), Bound(colMin, colMax)), cell, value);
      if Counted(value, includeZeroes) {
        rowMin := if cell.0 < rowMin then cell.0 else rowMin;
        rowMax := if cell.0 > rowMax then cell.0 else rowMax;
        colMin := if cell.1 < colMin then cell.1 else colMin;
        colMax := if cell.1 > colMax then cell.1 else colMax;
      }
      assert Bounds(Bound(rowMin, rowMax), Bound(colMin, colMax)) == after;
    }
    b := Bounds(Bound(rowMin, rowMax), Bound(colMin, colMax));
  }

  /** With no counted cell the bounds are the empty sentinel. */
  lemma BoundsOfNothing(g: Grid, includeZeroes: bool)
    requires forall c :: c in g ==> !Counted(g[c], includeZeroes)
    ensures BoundsOf(g, includeZeroes) == EmptyBounds
  {
  }

  /** Every coordinate of a counted cell is within the safe-integer range. */
  ghost predicate SafeCoordinates(g: Grid, includeZeroes: bool)
  {
    forall c :: c in g && Counted(g[c], includeZeroes) ==>
      MIN_SAFE_INTEGER <= c.0 <= MAX_SAFE_INTEGER && MIN_SAFE_INTEGER <= c.1 <= MAX_SAFE_INTEGER
  }

  /** With some counted cell (at safe coordinates), each of the four bounds is attained. */
  lemma BoundsAttained(g: Grid, includeZeroes: bool)
    requires SafeCoordinates(g, includeZeroes)
    requires exists c :: c in g && Counted(g[c], includeZeroes)
    ensures var b := BoundsOf(g, includeZeroes);
      && b.row.min <= b.row.max && b.col.min <= b.col.max
      && RowAttained(g, includeZeroes, b.row.min) && RowAttained(g, includeZeroes, b.row.max)
      && ColAttained(g, includeZeroes, b.col.min) && ColAttained(g, includeZeroes, b.col.max)
  {
    var b := BoundsOf(g, includeZeroes);
    var c :| c in g && Counted(g[c], includeZeroes);
    if b.row.min == MAX_SAFE_INTEGER {
      assert c.0 == b.row.min;
    }
    if b.row.max == MIN_SAFE_INTEGER {
      assert c.0 == b.row.max;
    }
    if b.col.min == MAX_SAFE_INTEGER {
      assert c.1 == b.col.min;
    }
    if b.col.max == MIN_SAFE_INTEGER {
      assert c.1 == b.col.max;
    }
  }

  // ---------------------------------------------------------------------------------------
  // BoundsForEach
  // ---------------------------------------------------------------------------------------

  /** Columns lo..hi of one row, left to right. */
  function RowCells(row: int, lo: int, hi: int): (r: seq<Cell>)
    ensures |r| == if hi < lo then 0 else hi - lo + 1
    ensures forall j :: 0 <= j < |r| ==> r[j] == (row, lo + j)
    ensures forall c :: c in r <==> c.0 == row && lo <= c.1 <= hi
    decreases hi - lo
  {
    if hi < lo then [] else RowCells(row, lo, hi - 1) + [(row, hi)]
  }

  /** The rectangle rows rowLo..rowHi by columns colLo..colHi, row by row. */
  function RectCells(rowLo: int, rowHi: int, colLo: int, colHi: int): seq<Cell>
    decreases rowHi - rowLo
  {
    if rowHi < rowLo then [] else RectCells(rowLo, rowHi - 1, colLo, colHi) + RowCells(rowHi, colLo, colHi)
  }

  /**
   * The traversal covers exactly the cells of the rectangle, in strictly row-major order (so
   * each of them once).
   */
  lemma {:induction false} RectCellsExact(rowLo: int, rowHi: int, colLo: int, colHi: int)
    ensures var r := RectCells(rowLo, rowHi, colLo, colHi);
      && (forall c :: c in r <==> rowLo <= c.0 <= rowHi && colLo <= c.1 <= colHi)
      && (forall i, j :: 0 <= i < j < |r| ==> CellBefore(r[i], r[j]))
    decreases rowHi - rowLo
  {
    if rowLo <= rowHi {
      var above := RectCells(rowLo, rowHi - 1, colLo, colHi);
      var last := RowCells(rowHi, colLo, colHi);
      RectCellsExact(rowLo, rowHi - 1, colLo, colHi);
      assert forall i :: 0 <= i < |above| ==> above[i] in above;
      assert RectCells(rowLo, rowHi, colLo, colHi) == above + last;
    }
  }

  /** The callbacks made for `cells`: each gets GridGet's value for its cell. */
  function ReadCells(g: Grid, cells: seq<Cell>): (r: seq<Visit>)
    ensures |r| == |cells|
    ensures forall i :: 0 <= i < |cells| ==>
      r[i] == Visit(GridGet(g, cells[i].0, cells[i].1), cells[i].0, cells[i].1)
  {
    if cells == [] then []
    else
      var last := cells[|cells| - 1];
      ReadCells(g, cells[..|cells| - 1]) + [Visit(GridGet(g, last.0, last.1), last.0, last.1)]
  }

  lemma ReadCellsAppend(g: Grid, a: seq<Cell>, b: seq<Cell>)
    ensures ReadCells(g, a + b) == ReadCells(g, a) + ReadCells(g, b)
  {
  }

  /** The inner loop of BoundsForEach: one row of the rectangle, left to right. */
  method VisitRow(g: Grid, row: int, colLo: int, colHi: int) returns (visits: seq<Visit>)
    ensures visits == ReadCells(g, RowCells(row, colLo, colHi))
  {
    visits := [];
    var col := colLo;
    while col <= colHi
      invariant colLo <= col <= if colHi < colLo then colLo else colHi + 1
      invariant visits == ReadCells(g, RowCells(row, colLo, col - 1))
      decreases colHi - col
    {
      visits := visits + [Visit(GridGet(g, row, col), row, col)];
      col := col + 1;
    }
  }

  /** The cells of the rectangle `b` widened by `extra` on every side, in traversal order. */
  function Span(b: Bounds, extra: int): seq<Cell>
  {
    RectCells(b.row.min - extra, b.row.max + extra, b.col.min - extra, b.col.max + extra)
  }

  /** The two loops of BoundsForEach: the rectangle `b` widened by `extra`, row by row. */
  method VisitRect(g: Grid, b: Bounds, extra: int) returns (visits: seq<Visit>)
    ensures visits == ReadCells(g, Span(b, extra))
  {
    var rowLo, rowHi := b.row.min - extra, b.row.max + extra;
    var colLo, colHi := b.col.min - extra, b.col.max + extra;
    visits := [];
    var row := rowLo;
    while row <= rowHi
      invariant rowLo <= row <= if rowHi < rowLo then rowLo else rowHi + 1
      invariant visits == ReadCells(g, RectCells(rowLo, row - 1, colLo, colHi))
      decreases rowHi - row
    {
      var rowVisits := VisitRow(g, row, colLo, colHi);
      ReadCellsAppend(g, RectCells(rowLo, row - 1, colLo, colHi), RowCells(row, colLo, colHi));
      visits := visits + rowVisits;
      row := row + 1;
    }
  }

  /**
   * BoundsForEach: one callback per cell of the bounds rectangle (zeros included) widened by
   * `extra` on every side, row by row and left to right, each with GridGet's value.
   */
  method BoundsForEach(g: Grid, order: seq<Cell>, extra: int) returns (visits: seq<Visit>)
    requires IsEnumeration(g, order)
    ensures visits == ReadCells(g, Span(BoundsOf(g, true), extra))
  {
    var bounds := GridBounds(g, order, true);
    BoundsIs(g, true, bounds);
    visits := VisitRect(g, bounds, extra);
  }
}
