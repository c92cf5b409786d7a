/**
 * The 3x3 neighbourhood traversals of src/logic/grid.ts: GridNeighborsForEach, which hands
 * every stored cell its neighbourhood, and GridSumNeighbors, which labels every cell next to
 * a stone with the sum of the stones around it.
 */
module NeighborSum {
  import opened SparseGrid

  /** An offset (roff, coff) of the 3x3 neighbourhood, the centre (0, 0) included. */
  predicate IsOffset(d: Cell)
  {
    -1 <= d.0 <= 1 && -1 <= d.1 <= 1
  }

  /**
   * Where the offset d comes in the two loops (roff outer, coff inner, each from -1 to 1):
   * 0 for (-1, -1) up to 8 for (1, 1). At (roff, coff) the loops are at step 3 * roff + coff + 4.
   */
  function Step(d: Cell): int
  {
    3 * d.0 + d.1 + 4
  }

  /** Distinct offsets come at distinct steps. */
  lemma StepInjective(d: Cell, e: Cell)
    requires IsOffset(d) && IsOffset(e)
    ensures Step(d) == Step(e) <==> d == e
  {
  }

  // ---------------------------------------------------------------------------------------
  // GridNeighborsForEach
  // ---------------------------------------------------------------------------------------

  /** The nine offsets of the 3x3 neighbourhood. */
  const Offsets: set<Cell> :=
    {(-1, -1), (-1, 0), (-1, 1), (0, -1), (0, 0), (0, 1), (1, -1), (1, 0), (1, 1)}

  lemma OffsetsExact(d: Cell)
    ensures d in Offsets <==> IsOffset(d)
  {
  }

  /** The neighbourhood grid of (row, col): all nine offsets, each holding GridGet's value there. */
  function Block(g: Grid, row: int, col: int): (b: Grid)
    ensures forall d {:trigger d in b} :: d in b <==> IsOffset(d)
    ensures forall d :: d in b ==> b[d] == GridGet(g, row + d.0, col + d.1)
  {
    var b := map d | d in Offsets :: GridGet(g, row + d.0, col + d.1);
    assert forall d {:trigger d in b} :: d in b <==> IsOffset(d) by {
      forall d
        ensures d in b <==> IsOffset(d)
      {
        OffsetsExact(d);
      }
    }
    b
  }

  /** The part of the neighbourhood grid the loops have written before step t. */
  ghost predicate IsPartBlock(g: Grid, row: int, col: int, t: int, b: Grid)
  {
    && (forall d {:trigger d in b} :: d in b <==> IsOffset(d) && Step(d) < t)
    && (forall d :: d in b ==> b[d] == GridGet(g, row + d.0, col + d.1))
  }

  lemma PartBlockStep(g: Grid, row: int, col: int, roff: int, coff: int, b: Grid)
    requires IsOffset((roff, coff))
    requires IsPartBlock(g, row, col, Step((roff, coff)), b)
    ensures IsPartBlock(g, row, col, Step((roff, coff)) + 1, GridSet(b, roff, coff, GridGet(g, row + roff, col + coff)))
  {
    forall d | IsOffset(d)
      ensures Step(d) == Step((roff, coff)) <==> d == (roff, coff)
    {
      StepInjective(d, (roff, coff));
    }
  }

  /**
   * The two loops of GridNeighborsForEach: the neighbourhood of (row, col), offsets as keys,
   * zeros stored too. Its centre is the cell's own value.
   */
  method Neighborhood(g: Grid, row: int, col: int) returns (neighbors: Grid)
    ensures neighbors == Block(g, row, col)
    ensures neighbors[(0, 0)] == GridGet(g, row, col)
  {
    neighbors := map[];
    var roff := -1;
    while roff <= 1
      invariant -1 <= roff <= 2
      invariant IsPartBlock(g, row, col, 3 * roff + 3, neighbors)
    {
      var coff := -1;
      while coff <= 1
        invariant -1 <= coff <= 2
        invariant IsPartBlock(g, row, col, 3 * roff + coff + 4, neighbors)
      {
        PartBlockStep(g, row, col, roff, coff, neighbors);
        var neighborValue := GridGet(g, row + roff, col + coff);
        neighbors := GridSet(neighbors, roff, coff, neighborValue);
        coff := coff + 1;
      }
      roff := roff + 1;
    }
    assert neighbors.Keys == Block(g, row, col).Keys;
  }

  /** The arguments of one callback of GridNeighborsForEach: (value, row, col, neighbours). */
  datatype NeighborVisit = NeighborVisit(value: int, row: int, col: int, neighbors: Grid)

  /** The callbacks GridNeighborsForEach makes for the cells `cells`, in that order. */
  function NeighborCalls(g: Grid, cells: seq<Cell>): (calls: seq<NeighborVisit>)
    ensures |calls| == |cells|
  {
    if cells == [] then []
    else
      var c := cells[|cells| - 1];
      NeighborCalls(g, cells[..|cells| - 1])
        + [NeighborVisit(GridGet(g, c.0, c.1), c.0, c.1, Block(g, c.0, c.1))]
  }

  lemma NeighborCallsNext(g: Grid, cells: seq<Cell>, i: int)
    requires 0 <= i < |cells|
    ensures NeighborCalls(g, cells[..i + 1]) == NeighborCalls(g, cells[..i]) +
      [NeighborVisit(GridGet(g, cells[i].0, cells[i].1), cells[i].0, cells[i].1, Block(g, cells[i].0, cells[i].1))]
  {
    var longer := cells[..i + 1];
    assert longer[..i] == cells[..i];
  }

  /** The i-th callback is about the i-th cell: its value and its neighbourhood. */
  lemma {:induction false} NeighborCallsAt(g: Grid, cells: seq<Cell>, i: int)
    requires 0 <= i < |cells|
    ensures NeighborCalls(g, cells)[i] ==
      NeighborVisit(GridGet(g, cells[i].0, cells[i].1), cells[i].0, cells[i].1, Block(g, cells[i].0, cells[i].1))
  {
    if i < |cells| - 1 {
      NeighborCallsAt(g, cells[..|cells| - 1], i);
    }
  }

  /**
   * GridNeighborsForEach: one callback per stored cell, in traversal order, with the stored
   * value and the cell's 3x3 neighbourhood.
   */
  method GridNeighborsForEach(g: Grid, order: seq<Cell>) returns (calls: seq<NeighborVisit>)
    requires IsEnumeration(g, order)
    ensures calls == NeighborCalls(g, order)
    ensures forall i :: 0 <= i < |order| ==> calls[i].value == g[order[i]]
  {
    calls := [];
    for i := 0 to |order|
      invariant calls == NeighborCalls(g, order[..i])
    {
      var cell := order[i];
      var neighbors := Neighborhood(g, cell.0, cell.1);
      NeighborCallsNext(g, order, i);
      calls := calls + [NeighborVisit(g[cell], cell.0, cell.1, neighbors)];
    }
    assert order[..|order|] == order;
    forall i | 0 <= i < |order|
      ensures calls[i].value == g[order[i]]
    {
      NeighborCallsAt(g, order, i);
    }
  }

  // ---------------------------------------------------------------------------------------
  // What GridSumNeighbors computes
  // ---------------------------------------------------------------------------------------

  /** A stone: a stored cell with a positive value. */
  predicate IsStone(g: Grid, c: Cell)
  {
    c in g && g[c] > 0
  }

  /** What a cell adds to the sums of its neighbours: its value if it is a stone, else 0. */
  function Weight(g: Grid, c: Cell): nat
  {
    if IsStone(g, c) then g[c] else 0
  }

  /** The sum of the stones on the eight cells around (row, col). */
  function MooreSum(g: Grid, row: int, col: int): nat
  {
    Weight(g, (row - 1, col - 1)) + Weight(g, (row - 1, col)) + Weight(g, (row - 1, col + 1)) +
    Weight(g, (row, col - 1)) + Weight(g, (row, col + 1)) +
    Weight(g, (row + 1, col - 1)) + Weight(g, (row + 1, col)) + Weight(g, (row + 1, col + 1))
  }

  /** Weight counted only for the cells a traversal has already handled. */
  function WeightIn(g: Grid, done: set<Cell>, c: Cell): nat
  {
    if c in done then Weight(g, c) else 0
  }

  /** MooreSum counting only the stones among `done`. */
  function SumIn(g: Grid, done: set<Cell>, row: int, col: int): nat
  {
    WeightIn(g, done, (row - 1, col - 1)) + WeightIn(g, done, (row - 1, col)) +
    WeightIn(g, done, (row - 1, col + 1)) + WeightIn(g, done, (row, col - 1)) +
    WeightIn(g, done, (row, col + 1)) + WeightIn(g, done, (row + 1, col - 1)) +
    WeightIn(g, done, (row + 1, col)) + WeightIn(g, done, (row + 1, col + 1))
  }

  /** Whether the sum grid, once the cells `done` are handled, stores the cell k. */
  predicate Summed(g: Grid, done: set<Cell>, k: Cell)
  {
    (k in done && IsStone(g, k)) || SumIn(g, done, k.0, k.1) > 0
  }

  /** What the sum grid, once the cells `done` are handled, holds at a stored cell k. */
  function SumValue(g: Grid, done: set<Cell>, k: Cell): int
  {
    if k in done && IsStone(g, k) then -1 else SumIn(g, done, k.0, k.1)
  }

  /**
   * `s` is the sum grid once the stored cells `done` have been handled: the handled stones
   * hold -1, every other cell next to a handled stone holds the sum of the handled stones
   * around it, and no other cell is stored.
   */
  ghost predicate IsSums(g: Grid, done: set<Cell>, s: Grid)
  {
    forall k {:trigger k in s} :: (k in s <==> Summed(g, done, k)) && (k in s ==> s[k] == SumValue(g, done, k))
  }

  lemma SumsUnique(g: Grid, done: set<Cell>, s: Grid, s': Grid)
    requires IsSums(g, done, s) && IsSums(g, done, s')
    ensures s == s'
  {
    assert s.Keys == s'.Keys;
  }

  /** How handling one more stored cell `x` changes SumIn at `k`. */
  lemma SumInAdd(g: Grid, done: set<Cell>, x: Cell, k: Cell)
    requires x !in done
    ensures SumIn(g, done + {x}, k.0, k.1) ==
      SumIn(g, done, k.0, k.1) + if IsOffset((x.0 - k.0, x.1 - k.1)) && x != k then Weight(g, x) else 0
  {
    forall n
      ensures WeightIn(g, done + {x}, n) == WeightIn(g, done, n) + if n == x then Weight(g, x) else 0
    {
    }
  }

  /** The nine cells of the 3x3 neighbourhood of x. */
  function Around(x: Cell): set<Cell>
  {
    {(x.0 - 1, x.1 - 1), (x.0 - 1, x.1), (x.0 - 1, x.1 + 1), (x.0, x.1 - 1), x, (x.0, x.1 + 1),
     (x.0 + 1, x.1 - 1), (x.0 + 1, x.1), (x.0 + 1, x.1 + 1)}
  }

  lemma AroundMember(x: Cell, k: Cell)
    ensures k in Around(x) <==> IsOffset((k.0 - x.0, k.1 - x.1))
  {
  }

  /** A cell stored once x is handled too was stored before, or lies next to x. */
  lemma SummedGrow(g: Grid, done: set<Cell>, s: Grid, x: Cell, k: Cell)
    requires x !in done
    requires IsSums(g, done, s)
    requires Summed(g, done + {x}, k)
    ensures k in s.Keys + Around(x)
  {
    SumInAdd(g, done, x, k);
    AroundMember(x, k);
    if k !in Around(x) {
      assert Summed(g, done, k);
    }
  }

  /** One more handled cell: the sums after it exist when the sums before it do. */
  lemma SumsGrow(g: Grid, done: set<Cell>, s: Grid, x: Cell)
    requires x !in done
    requires IsSums(g, done, s)
    ensures exists s' :: IsSums(g, done + {x}, s')
  {
    var d := done + {x};
    var s' := map k | k in s.Keys + Around(x) && Summed(g, d, k) :: SumValue(g, d, k);
    forall k
      ensures k in s' <==> Summed(g, d, k)
    {
      if Summed(g, d, k) {
        SummedGrow(g, done, s, x, k);
      }
    }
    assert IsSums(g, d, s');
  }

  lemma {:induction false} SumsExist(g: Grid, done: set<Cell>)
    ensures exists s :: IsSums(g, done, s)
    decreases |done|
  {
    if done == {} {
      assert IsSums(g, done, map[]);
    } else {
      var x :| x in done;
      SumsExist(g, done - {x});
      var s :| IsSums(g, done - {x}, s);
      SumsGrow(g, done - {x}, s, x);
      assert done - {x} + {x} == done;
    }
  }

  /**
   * The grid GridSumNeighbors returns: -1 on every stone; on every other cell with a stone
   * next to it, the sum of the stones around it; nothing anywhere else.
   */
  ghost function NeighborSums(g: Grid): (r: Grid)
    ensures IsSums(g, g.Keys, r)
    ensures forall k {:trigger k in r} :: k in r <==> IsStone(g, k) || MooreSum(g, k.0, k.1) > 0
    ensures forall k :: k in r ==> r[k] == if IsStone(g, k) then -1 else MooreSum(g, k.0, k.1)
  {
    SumsExist(g, g.Keys);
    var r :| IsSums(g, g.Keys, r);
    assert forall k: Cell :: SumIn(g, g.Keys, k.0, k.1) == MooreSum(g, k.0, k.1);
    r
  }

  /** What GridGet reads from the sum grid at any cell. */
  lemma NeighborSumsGet(g: Grid, row: int, col: int)
    ensures GridGet(NeighborSums(g), row, col) ==
      if GridGet(g, row, col) > 0 then -1 else MooreSum(g, row, col)
  {
    var k := (row, col);
    if IsStone(g, k) || MooreSum(g, row, col) > 0 {
      assert k in NeighborSums(g);
    }
  }

  // ---------------------------------------------------------------------------------------
  // GridSumNeighbors
  // ---------------------------------------------------------------------------------------

  /** Whether k is (row, col) moved by an offset the loops handle before step t. */
  predicate Reached(row: int, col: int, t: int, k: Cell)
  {
    IsOffset((k.0 - row, k.1 - col)) && Step((k.0 - row, k.1 - col)) < t
  }

  /**
   * `s` is the sum grid `s0` after the callback for the cell (row, col) holding `value` has
   * reached step t: nothing changes unless value > 0; then the cell itself becomes -1 once
   * reached, and each reached neighbour that was not negative gains `value`.
   */
  ghost predicate IsStamped(s0: Grid, row: int, col: int, value: int, t: int, s: Grid)
  {
    if value <= 0 then s == s0
    else
      forall k {:trigger k in s} ::
        && (k in s <==> k in s0 || Reached(row, col, t, k))
        && (k in s ==>
              s[k] == if k == (row, col) && Reached(row, col, t, k) then -1
                      else if Reached(row, col, t, k) && k != (row, col) && GridGet(s0, k.0, k.1) >= 0
                      then GridGet(s0, k.0, k.1) + value
                      else GridGet(s0, k.0, k.1))
  }

  /** The row offset the loops are at on step t (0 to 8). */
  function StepRow(t: int): int
  {
    if t < 3 then -1 else if t < 6 then 0 else 1
  }

  /** The column offset the loops are at on step t (0 to 8). */
  function StepCol(t: int): int
  {
    t - 3 * StepRow(t) - 4
  }

  /**
   * One pass of the inner loop body at offset (roff, coff): nothing for a value that is not a
   * stone; the centre becomes -1; a neighbour that is not negative gains the value.
   */
  function StampOne(s: Grid, row: int, col: int, value: int, roff: int, coff: int): Grid
  {
    if value <= 0 then s
    else if roff == 0 && coff == 0 then GridSet(s, row, col, -1)
    else if GridGet(s, row + roff, col + coff) < 0 then s
    else GridSet(s, row + roff, col + coff, GridGet(s, row + roff, col + coff) + value)
  }

  /** The sum grid after the first t passes of the loops, started from s0. */
  function StampUpTo(s0: Grid, row: int, col: int, value: int, t: nat): Grid
  {
    if t == 0 then s0
    else StampOne(StampUpTo(s0, row, col, value, t - 1), row, col, value, StepRow(t - 1), StepCol(t - 1))
  }

  /** One pass of the inner loop body, at offset (roff, coff), takes the stamp from step t to t + 1. */
  lemma StampStep(s0: Grid, row: int, col: int, value: int, roff: int, coff: int, t: int, s: Grid)
    requires IsOffset((roff, coff)) && t == Step((roff, coff))
    requires IsStamped(s0, row, col, value, t, s)
    ensures IsStamped(s0, row, col, value, t + 1, StampOne(s, row, col, value, roff, coff))
  {
    if value > 0 {
      var n := (row + roff, col + coff);
      forall k
        ensures Reached(row, col, t + 1, k) <==> Reached(row, col, t, k) || k == n
      {
        if IsOffset((k.0 - row, k.1 - col)) {
          StepInjective((k.0 - row, k.1 - col), (roff, coff));
        }
      }
      assert !Reached(row, col, t, n);
      assert GridGet(s, n.0, n.1) == GridGet(s0, n.0, n.1);
    }
  }

  /** The first t passes give the stamp at step t. */
  lemma {:induction false} StampUpToStamped(s0: Grid, row: int, col: int, value: int, t: nat)
    requires t <= 9
    ensures IsStamped(s0, row, col, value, t, StampUpTo(s0, row, col, value, t))
  {
    if t > 0 {
      StampUpToStamped(s0, row, col, value, t - 1);
      StampStep(s0, row, col, value, StepRow(t - 1), StepCol(t - 1), t - 1, StampUpTo(s0, row, col, value, t - 1));
    }
  }

  /**
   * The body of the inner loop of the callback, at offset (roff, coff): a value that is not a
   * stone changes nothing, the centre becomes -1, and a neighbour that is not already negative
   * gains the value.
   */
  method StampOffset(sum: Grid, row: int, col: int, value: int, roff: int, coff: int) returns (sum': Grid)
    ensures sum' == StampOne(sum, row, col, value, roff, coff)
  {
    sum' := sum;
    if value <= 0 {
      return;
    }
    // Set filled cells to -1
    if value > 0 && roff == 0 && coff == 0 {
      sum' := GridSet(sum', row, col, -1);
      return;
    }
    var r := row + roff;
    var c := col + coff;
    var currentValue := GridGet(sum', r, c);
    if currentValue < 0 {
      return;
    }
    sum' := GridSet(sum', r, c, currentValue + value);
  }

  /**
   * The callback GridSumNeighbors hands GridForEach, for the cell (row, col) holding `value`:
   * its two loops over the 3x3 neighbourhood.
   */
  method StampNeighbors(sum: Grid, row: int, col: int, value: int) returns (sum': Grid)
    ensures IsStamped(sum, row, col, value, 9, sum')
  {
    sum' := sum;
    ghost var step := 0;
    var roff := -1;
    while roff <= 1
      invariant -1 <= roff <= 2 && step == 3 * roff + 3
      invariant sum' == StampUpTo(sum, row, col, value, step)
    {
      var coff := -1;
      while coff <= 1
        invariant -1 <= coff <= 2 && step == 3 * roff + coff + 4
        invariant sum' == StampUpTo(sum, row, col, value, step)
      {
        assert StepRow(step) == roff && StepCol(step) == coff;
        sum' := StampOffset(sum', row, col, value, roff, coff);
        step := step + 1;
        coff := coff + 1;
      }
      roff := roff + 1;
    }
    StampUpToStamped(sum, row, col, value, 9);
  }

  /** Handling one more stored cell is one call of the callback. */
  lemma SumsStep(g: Grid, done: set<Cell>, s: Grid, x: Cell, s': Grid)
    requires x in g && x !in done
    requires IsSums(g, done, s)
    requires IsStamped(s, x.0, x.1, g[x], 9, s')
    ensures IsSums(g, done + {x}, s')
  {
    forall k
      ensures (k in s' <==> Summed(g, done + {x}, k)) && (k in s' ==> s'[k] == SumValue(g, done + {x}, k))
    {
      SumInAdd(g, done, x, k);
      if g[x] > 0 && Reached(x.0, x.1, 9, k) && k != x && !(k in done && IsStone(g, k)) {
        assert GridGet(s, k.0, k.1) == SumIn(g, done, k.0, k.1);
      }
    }
  }

  /**
   * GridSumNeighbors: runs the callback on every stored cell in traversal order. Whatever the
   * order, the result is NeighborSums.
   */
  method GridSumNeighbors(g: Grid, order: seq<Cell>) returns (sum: Grid)
    requires IsEnumeration(g, order)
    ensures sum == NeighborSums(g)
  {
    sum := map[];
    VisitedEnds(g, order);
    for i := 0 to |order|
      invariant IsSums(g, Visited(g, order, i).Keys, sum)
    {
      var cell := order[i];
      VisitedStep(g, order, i);
      ghost var done := Visited(g, order, i).Keys;
      assert Visited(g, order, i + 1).Keys == done + {cell};
      ghost var before := sum;
      sum := StampNeighbors(sum, cell.0, cell.1, g[cell]);
      SumsStep(g, done, before, cell, sum);
    }
    SumsUnique(g, g.Keys, sum, NeighborSums(g));
  }

  /** Two 3s on a diagonal: each is -1, the cells next to both hold 6, the far corner 3. */
  lemma TwoStonesExample()
    ensures var s := NeighborSums(map[(0, 0) := 3, (1, 1) := 3]);
      GridGet(s, 0, 0) == -1 && GridGet(s, 1, 1) == -1 && GridGet(s, 0, 1) == 6 &&
      GridGet(s, 2, 2) == 3 && GridGet(s, 3, 3) == 0
  {
    var g := map[(0, 0) := 3, (1, 1) := 3];
    assert GridGet(g, 0, 0) == 3 && GridGet(g, 1, 1) == 3;
    assert GridGet(g, 0, 1) == 0 && GridGet(g, 2, 2) == 0 && GridGet(g, 3, 3) == 0;
    assert MooreSum(g, 0, 1) == 6;
    assert MooreSum(g, 2, 2) == 3;
    assert MooreSum(g, 3, 3) == 0;
    NeighborSumsGet(g, 0, 0);
    NeighborSumsGet(g, 1, 1);
    NeighborSumsGet(g, 0, 1);
    NeighborSumsGet(g, 2, 2);
    NeighborSumsGet(g, 3, 3);
  }
}
