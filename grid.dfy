/**
 * The sparse grid of src/logic/grid.ts: reading and writing cells, the order in which the
 * stored cells are visited, filtered copies and the histogram of stored values.
 */
module SparseGrid {

  /** A (row, col) coordinate; either part may be negative. */
  type Cell = (int, int)

  /**
   * The cells that have been written, with what was written to them. A cell written with 0
   * stays stored (it is still visited by a traversal) but reads exactly like a missing one.
   */
  type Grid = map<Cell, int>

  /** GridGet: the stored value, or 0 for a cell that was never written. */
  function GridGet(g: Grid, row: int, col: int): int
  {
    if (row, col) in g then g[(row, col)] else 0
  }

  /** A cell holding 0 and a cell never written read alike, and only those read as 0. */
  lemma GetZero(g: Grid, row: int, col: int)
    ensures GridGet(g, row, col) == 0 <==> (row, col) !in g || g[(row, col)] == 0
    ensures (row, col) in g && g[(row, col)] == 0 ==>
              forall r, c :: GridGet(g, r, c) == GridGet(g - {(row, col)}, r, c)
  {
  }

  /** GridSet: writes one cell (creating its row when needed). */
  function GridSet(g: Grid, row: int, col: int, value: int): Grid
  {
    g[(row, col) := value]
  }

  /** After GridSet the cell reads as the value written, every other cell as before. */
  lemma GridSetReads(g: Grid, row: int, col: int, value: int)
    ensures GridGet(GridSet(g, row, col, value), row, col) == value
    ensures forall rr, cc :: (rr, cc) != (row, col) ==>
      GridGet(GridSet(g, row, col, value), rr, cc) == GridGet(g, rr, cc)
    ensures GridSet(g, row, col, value).Keys == g.Keys + {(row, col)}
  {
  }

  // ---------------------------------------------------------------------------------------
  // Traversal order (GridForEach)
  // ---------------------------------------------------------------------------------------

  /**
   * `order` lists every stored cell of `g` exactly once: the visits GridForEach makes.
   * Every traversal below takes its visiting order as such a parameter.
   */
  ghost predicate IsEnumeration(g: Grid, order: seq<Cell>)
  {
    && (forall i, j :: 0 <= i < j < |order| ==> order[i] != order[j])
    && (forall c :: c in order <==> c in g)
  }

  /** GridForEach makes exactly one visit per stored cell. */
  lemma {:induction false} EnumerationLength(g: Grid, order: seq<Cell>)
    requires IsEnumeration(g, order)
    ensures |order| == |g|
  {
    if order != [] {
      var last := order[|order| - 1];
      var rest := order[..|order| - 1];
      assert order == rest + [last];
      var g' := g - {last};
      assert g'.Keys == g.Keys - {last};
      forall c
        ensures c in rest <==> c in g'
      {
        if c in rest {
          var j :| 0 <= j < |rest| && rest[j] == c;
          assert order[j] == c && order[|order| - 1] == last;
        }
      }
      EnumerationLength(g', rest);
    }
  }

  /** The stored cells a traversal in `order` has visited after `i` steps, with their values. */
  ghost function Visited(g: Grid, order: seq<Cell>, i: nat): Grid
    requires i <= |order|
  {
    map c | c in order[..i] && c in g :: g[c]
  }

  /** Step `i` of a traversal visits a stored cell not seen before and adds it. */
  lemma VisitedStep(g: Grid, order: seq<Cell>, i: nat)
    requires IsEnumeration(g, order)
    requires i < |order|
    ensures order[i] in g && order[i] !in Visited(g, order, i)
    ensures Visited(g, order, i + 1) == Visited(g, order, i)[order[i] := g[order[i]]]
  {
    assert order[..i + 1] == order[..i] + [order[i]];
    assert order[i] in order;
    assert forall j :: 0 <= j < i ==> order[..i][j] != order[i];
  }

  /** Before the first step nothing is visited; after the last, the whole grid. */
  lemma VisitedEnds(g: Grid, order: seq<Cell>)
    requires IsEnumeration(g, order)
    ensures Visited(g, order, 0) == map[]
    ensures Visited(g, order, |order|) == g
  {
    assert order[..|order|] == order;
  }

  /** Strict row-major order on cells: by row, then by column. */
  predicate CellBefore(a: Cell, b: Cell)
  {
    a.0 < b.0 || (a.0 == b.0 && a.1 < b.1)
  }

  lemma {:induction false} FirstCellExists(s: set<Cell>)
    requires s != {}
    ensures exists c :: c in s && forall d :: d in s && d != c ==> CellBefore(c, d)
  {
    var x :| x in s;
    if s != {x} {
      FirstCellExists(s - {x});
      var m :| m in s - {x} && forall d :: d in s - {x} && d != m ==> CellBefore(m, d);
      if CellBefore(x, m) {
        forall d | d in s && d != x
          ensures CellBefore(x, d)
        {
          if d != m {
            assert CellBefore(m, d);
          }
        }
      } else {
        forall d | d in s && d != m
          ensures CellBefore(m, d)
        {
          if d == x {
            assert x != m;
          }
        }
      }
    }
  }

  /** The row-major first cell of a non-empty set. */
  function FirstCell(s: set<Cell>): (c: Cell)
    requires s != {}
    ensures c in s
    ensures forall d :: d in s && d != c ==> CellBefore(c, d)
  {
    FirstCellExists(s);
    var c :| c in s && forall d :: d in s && d != c ==> CellBefore(c, d);
    c
  }

  /** The cells of `s` in strictly increasing row-major order. */
  function SortedCells(s: set<Cell>): (r: seq<Cell>)
    ensures forall c :: c in r <==> c in s
    ensures forall i, j :: 0 <= i < j < |r| ==> CellBefore(r[i], r[j])
    decreases |s|
  {
    if s == {} then []
    else
      var c := FirstCell(s);
      [c] + SortedCells(s - {c})
  }

  /**
   * The visiting order used wherever the model needs one concrete order: row-major. It is an
   * enumeration, and with no negative index it is also the order of JavaScript's for...in.
   */
  function RowMajor(g: Grid): (order: seq<Cell>)
    ensures IsEnumeration(g, order)
    ensures forall i, j :: 0 <= i < j < |order| ==> CellBefore(order[i], order[j])
  {
    SortedCells(g.Keys)
  }

  /** The arguments of one GridForEach callback: (value, row, col). */
  datatype Visit = Visit(value: int, row: int, col: int)

  /**
   * GridForEach: one callback per stored cell, zeros included, in the order `order`; as many
   * callbacks as stored cells, no cell twice.
   */
  method GridForEach(g: Grid, order: seq<Cell>) returns (visits: seq<Visit>)
    requires IsEnumeration(g, order)
    ensures |visits| == |g| == |order|
    ensures forall i :: 0 <= i < |order| ==> visits[i] == Visit(g[order[i]], order[i].0, order[i].1)
    ensures forall i :: 0 <= i < |visits| ==>
      (visits[i].row, visits[i].col) in g && visits[i].value == g[(visits[i].row, visits[i].col)]
    ensures forall i, j :: 0 <= i < j < |visits| ==> (visits[i].row, visits[i].col) != (visits[j].row, visits[j].col)
  {
    EnumerationLength(g, order);
    visits := [];
    for i := 0 to |order|
      invariant |visits| == i
      invariant forall j :: 0 <= j < i ==> visits[j] == Visit(g[order[j]], order[j].0, order[j].1)
    {
      var cell := order[i];
      visits := visits + [Visit(g[cell], cell.0, cell.1)];
    }
  }

  // ---------------------------------------------------------------------------------------
  // Filtered copies (GridCopy, GridOnes, and GridFilter of buildingblock.ts)
  // ---------------------------------------------------------------------------------------

  /** The stored cells whose (value, row, col) `keep` accepts, with their values. */
  function Restrict(g: Grid, keep: (int, int, int) -> bool): Grid
  {
    map c | c in g && keep(g[c], c.0, c.1) :: g[c]
  }

  /** The loop shared by the copying functions: visit every stored cell, GridSet the kept ones. */
  method CopyWhere(g: Grid, order: seq<Cell>, keep: (int, int, int) -> bool) returns (r: Grid)
    requires IsEnumeration(g, order)
    ensures r == Restrict(g, keep)
  {
    r := map[];
    for i := 0 to |order|
      invariant forall c :: c in r <==> c in order[..i] && keep(g[c], c.0, c.1)
      invariant forall c :: c in r ==> r[c] == g[c]
    {
      var cell := order[i];
      assert order[..i + 1] == order[..i] + [cell];
      var value := g[cell];
      if keep(value, cell.0, cell.1) {
        r := GridSet(r, cell.0, cell.1, value);
      }
    }
    assert order[..|order|] == order;
  }

  function IsNonZero(value: int, row: int, col: int): bool { value != 0 }

  function IsOne(value: int, row: int, col: int): bool { value == 1 }

  /** GridCopy: a fresh grid with exactly the non-zero cells; it reads like the original everywhere. */
  method GridCopy(g: Grid, order: seq<Cell>) returns (r: Grid)
    requires IsEnumeration(g, order)
    ensures r == Restrict(g, IsNonZero)
    ensures forall c :: c in r <==> c in g && g[c] != 0
    ensures forall c :: c in r ==> r[c] == g[c]
    ensures forall row, col :: GridGet(r, row, col) == GridGet(g, row, col)
  {
    r := CopyWhere(g, order, IsNonZero);
  }

  /** GridOnes: a fresh grid with exactly the cells holding 1. */
  method GridOnes(g: Grid, order: seq<Cell>) returns (r: Grid)
    requires IsEnumeration(g, order)
    ensures forall c :: c in r <==> c in g && g[c] == 1
    ensures forall c :: c in r ==> r[c] == 1
    ensures forall row, col :: GridGet(r, row, col) == if GridGet(g, row, col) == 1 then 1 else 0
  {
    r := CopyWhere(g, order, IsOne);
  }

  // ---------------------------------------------------------------------------------------
  // Histogram (GridCount) and the length of the histogram
  // ---------------------------------------------------------------------------------------

  /** The stored cells holding `v`. */
  function Holding(g: Grid, v: int): set<Cell>
  {
    set c | c in g && g[c] == v
  }

  /**
   * `n` is the length of GridCount's array: one more than the largest non-negative stored
   * value, or 0 when no stored value is non-negative (a negative value is not an array index).
   */
  ghost predicate IsScore(g: Grid, n: nat)
  {
    && (forall c :: c in g && g[c] >= 0 ==> g[c] < n)
    && (n > 0 ==> exists c :: c in g && g[c] == n - 1)
  }

  /** Taking one stored cell out of a grid leaves a smaller grid that rebuilds it. */
  lemma RemoveOne(g: Grid, k: Cell)
    requires k in g
    ensures (g - {k}).Keys == g.Keys - {k} && |g - {k}| < |g|
    ensures (g - {k})[k := g[k]] == g
  {
    assert (g - {k}).Keys == g.Keys - {k};
  }

  lemma {:induction false} ScoreExists(g: Grid)
    ensures exists n :: IsScore(g, n)
    decreases |g|
  {
    if g != map[] {
      var k :| k in g;
      var g' := g - {k};
      assert g'.Keys == g.Keys - {k};
      ScoreExists(g');
      var n': nat :| IsScore(g', n');
      var n: nat := if g[k] >= 0 && g[k] + 1 > n' then g[k] + 1 else n';
      forall c | c in g && g[c] >= 0
        ensures g[c] < n
      {
        if c != k {
          assert c in g' && g'[c] == g[c];
        }
      }
      if n > 0 {
        if n == g[k] + 1 {
          assert k in g && g[k] == n - 1;
        } else {
          var c :| c in g' && g'[c] == n' - 1;
          assert c in g && g[c] == n - 1;
        }
      }
      assert IsScore(g, n);
    } else {
      assert IsScore(g, 0);
    }
  }

  lemma ScoreUnique(g: Grid, n: nat, m: nat)
    requires IsScore(g, n) && IsScore(g, m)
    ensures n == m
  {
  }

  /** GridCount(g).length, the quantity the solver and the manual mode call `next`. */
  ghost function Score(g: Grid): (n: nat)
    ensures IsScore(g, n)
  {
    ScoreExists(g);
    var n :| IsScore(g, n);
    n
  }

  lemma HoldingAdd(seen: Grid, x: Cell, w: int, v: int)
    requires x !in seen
    ensures Holding(seen[x := w], v) == if w == v then Holding(seen, v) + {x} else Holding(seen, v)
    ensures |Holding(seen[x := w], v)| == if w == v then |Holding(seen, v)| + 1 else |Holding(seen, v)|
  {
    var h, h' := Holding(seen, v), Holding(seen[x := w], v);
    forall c
      ensures c in h' <==> c in h || (w == v && c == x)
    {
    }
    if w == v {
      assert h' == h + {x};
      assert x !in h;
    } else {
      assert h' == h;
    }
  }

  /** One visit of GridCount: the tally of `value` goes up by one, growing the array if needed. */
  lemma {:induction false} CountStep(seen: Grid, counts: seq<nat>, cell: Cell, value: int, counts': seq<nat>)
    requires cell !in seen
    requires IsScore(seen, |counts|)
    requires forall v :: 0 <= v < |counts| ==> counts[v] == |Holding(seen, v)|
    requires value < 0 ==> counts' == counts
    requires value >= 0 ==> |counts'| == if value < |counts| then |counts| else value + 1
    requires forall v :: 0 <= v < |counts'| ==>
               counts'[v] == (if v < |counts| then counts[v] else 0) + (if v == value then 1 else 0)
    ensures IsScore(seen[cell := value], |counts'|)
    ensures forall v :: 0 <= v < |counts'| ==> counts'[v] == |Holding(seen[cell := value], v)|
  {
    var seen' := seen[cell := value];
    forall v | 0 <= v < |counts'|
      ensures counts'[v] == |Holding(seen', v)|
    {
      HoldingAdd(seen, cell, value, v);
      if v >= |counts| {
        assert Holding(seen, v) == {};
      }
    }
    assert |counts| <= |counts'|;
    forall c | c in seen' && seen'[c] >= 0
      ensures seen'[c] < |counts'|
    {
      if c != cell {
        assert c in seen && seen'[c] == seen[c];
      }
    }
    if |counts'| > 0 {
      if |counts'| == value + 1 {
        assert cell in seen' && seen'[cell] == |counts'| - 1;
      } else {
        assert |counts'| == |counts|;
        var c :| c in seen && seen[c] == |counts| - 1;
        assert c in seen' && seen'[c] == |counts'| - 1;
      }
    }
  }

  /**
   * GridCount: counts[v] is the number of stored cells holding v, for every v below the
   * length, and the length is Score(g), whatever the visiting order.
   */
  method GridCount(g: Grid, order: seq<Cell>) returns (counts: seq<nat>)
    requires IsEnumeration(g, order)
    ensures |counts| == Score(g)
    ensures forall v :: 0 <= v < |counts| ==> counts[v] == |Holding(g, v)|
  {
    counts := [];
    ghost var seen: Grid := map[];
    for i := 0 to |order|
      invariant forall c :: c in seen <==> c in order[..i]
      invariant forall c :: c in seen ==> c in g && seen[c] == g[c]
      invariant IsScore(seen, |counts|)
      invariant forall v :: 0 <= v < |counts| ==> counts[v] == |Holding(seen, v)|
    {
      var cell := order[i];
      assert order[..i + 1] == order[..i] + [cell];
      assert forall j :: 0 <= j < i ==> order[..i][j] != cell;
      assert cell !in seen;
      var value := g[cell];
      ghost var before := counts;
      if value >= 0 {
        if value >= |counts| {
          counts := counts + seq(value - |counts| + 1, _ => 0);
        }
        counts := counts[value := counts[value] + 1];
      }
      CountStep(seen, before, cell, value, counts);
      seen := seen[cell := value];
    }
    assert seen.Keys == g.Keys by {
      assert order[..|order|] == order;
    }
    assert seen == g;
    ScoreUnique(g, |counts|, Score(g));
  }
}
