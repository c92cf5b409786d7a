/**
 * src/logic/buildingblock.ts: the 3x3 neighbourhood of every label of a grid, and the filtered
 * copy of a grid.
 */
module Blocks {
  import opened SparseGrid
  import opened NeighborSum

  /**
   * The `blocks` array once the callbacks `calls` have run: each callback for a label above 1
   * stores the neighbourhood it is handed under that label, replacing what was there.
   */
  function Stored(calls: seq<NeighborVisit>): map<int, Grid>
  {
    if calls == [] then map[]
    else
      var call := calls[|calls| - 1];
      var blocks := Stored(calls[..|calls| - 1]);
      if call.value > 1 then blocks[call.value := call.neighbors] else blocks
  }

  lemma StoredNext(calls: seq<NeighborVisit>, i: int)
    requires 0 <= i < |calls|
    ensures Stored(calls[..i + 1]) ==
      if calls[i].value > 1 then Stored(calls[..i])[calls[i].value := calls[i].neighbors] else Stored(calls[..i])
  {
    var longer := calls[..i + 1];
    assert longer[..i] == calls[..i];
  }

  /** Callback i is the last one for the label v. */
  predicate LastCall(calls: seq<NeighborVisit>, v: int, i: int)
  {
    && 0 <= i < |calls|
    && calls[i].value == v
    && forall j :: i < j < |calls| ==> calls[j].value != v
  }

  /** The keys are exactly the labels above 1 some callback was handed. */
  lemma {:induction false} StoredKeys(calls: seq<NeighborVisit>, v: int)
    ensures v in Stored(calls) <==> v > 1 && exists j :: 0 <= j < |calls| && calls[j].value == v
  {
    if calls != [] {
      var n := |calls| - 1;
      var init := calls[..n];
      StoredKeys(init, v);
      if exists j :: 0 <= j < |calls| && calls[j].value == v {
        var j :| 0 <= j < |calls| && calls[j].value == v;
        if j < n {
          assert init[j] == calls[j];
        }
      }
      if exists j :: 0 <= j < |init| && init[j].value == v {
        var j :| 0 <= j < |init| && init[j].value == v;
        assert calls[j] == init[j];
      }
    }
  }

  /** Under v is the neighbourhood handed to the last callback for v. */
  lemma {:induction false} StoredLast(calls: seq<NeighborVisit>, v: int)
    requires v in Stored(calls)
    ensures exists i :: LastCall(calls, v, i) && Stored(calls)[v] == calls[i].neighbors
  {
    var n := |calls| - 1;
    StoredKeys(calls, v);
    if calls[n].value == v {
      assert LastCall(calls, v, n);
    } else {
      var init := calls[..n];
      StoredLast(init, v);
      var i :| LastCall(init, v, i) && Stored(init)[v] == init[i].neighbors;
      assert LastCall(calls, v, i);
    }
  }

  /** Position i of the visiting order is the last one whose cell holds `v`. */
  ghost predicate LastHolding(g: Grid, order: seq<Cell>, v: int, i: int)
    requires forall c :: c in order ==> c in g
  {
    && 0 <= i < |order|
    && g[order[i]] == v
    && forall j :: i < j < |order| ==> g[order[j]] != v
  }

  /** The centre of a neighbourhood is the cell itself. */
  lemma BlockCentre(g: Grid, row: int, col: int)
    ensures (0, 0) in Block(g, row, col) && Block(g, row, col)[(0, 0)] == GridGet(g, row, col)
  {
    var b := Block(g, row, col);
    assert IsOffset((0, 0));
    assert b[(0, 0)] == GridGet(g, row + 0, col + 0);
  }

  /** The callback for position i of the traversal is handed the value and block of order[i]. */
  lemma CallAt(g: Grid, order: seq<Cell>, i: int)
    requires IsEnumeration(g, order) && 0 <= i < |order|
    ensures NeighborCalls(g, order)[i].value == g[order[i]]
    ensures NeighborCalls(g, order)[i].neighbors == Block(g, order[i].0, order[i].1)
  {
    NeighborCallsAt(g, order, i);
  }

  /** Over a whole traversal, the keys are exactly the labels above 1 stored in the grid. */
  lemma {:induction false} BlocksKeys(g: Grid, order: seq<Cell>, v: int)
    requires IsEnumeration(g, order)
    ensures v in Stored(NeighborCalls(g, order)) <==> v > 1 && Holding(g, v) != {}
  {
    var calls := NeighborCalls(g, order);
    StoredKeys(calls, v);
    if v > 1 && Holding(g, v) != {} {
      var c :| c in Holding(g, v);
      var j :| 0 <= j < |order| && order[j] == c;
      CallAt(g, order, j);
    }
    if exists j :: 0 <= j < |calls| && calls[j].value == v {
      var j :| 0 <= j < |calls| && calls[j].value == v;
      CallAt(g, order, j);
      assert order[j] in Holding(g, v);
    }
  }

  /** Over a whole traversal, the block of v is the neighbourhood of the last cell holding v. */
  lemma {:induction false} BlocksLast(g: Grid, order: seq<Cell>, v: int)
    requires IsEnumeration(g, order)
    requires v in Stored(NeighborCalls(g, order))
    ensures exists i :: LastHolding(g, order, v, i) && Stored(NeighborCalls(g, order))[v] == Block(g, order[i].0, order[i].1)
  {
    var calls := NeighborCalls(g, order);
    StoredLast(calls, v);
    var i :| LastCall(calls, v, i) && Stored(calls)[v] == calls[i].neighbors;
    CallAt(g, order, i);
    forall j | i < j < |order|
      ensures g[order[j]] != v
    {
      CallAt(g, order, j);
    }
    assert LastHolding(g, order, v, i);
  }

  /** The block stored under v has v at its centre. */
  lemma {:induction false} BlocksCentre(g: Grid, order: seq<Cell>, v: int)
    requires IsEnumeration(g, order)
    requires v in Stored(NeighborCalls(g, order))
    ensures (0, 0) in Stored(NeighborCalls(g, order))[v] && Stored(NeighborCalls(g, order))[v][(0, 0)] == v
  {
    BlocksLast(g, order, v);
    var i :| LastHolding(g, order, v, i) && Stored(NeighborCalls(g, order))[v] == Block(g, order[i].0, order[i].1);
    BlockCentre(g, order[i].0, order[i].1);
  }

  /**
   * BlocksExtract: the GridNeighborsForEach callback stores, under every label above 1, the
   * neighbourhood it is handed, so the last visit of a label wins.
   */
  method BlocksExtract(g: Grid, order: seq<Cell>) returns (blocks: map<int, Grid>)
    requires IsEnumeration(g, order)
    ensures blocks == Stored(NeighborCalls(g, order))
  {
    var calls := GridNeighborsForEach(g, order);
    blocks := map[];
    for i := 0 to |calls|
      invariant blocks == Stored(calls[..i])
    {
      StoredNext(calls, i);
      var call := calls[i];
      if call.value > 1 {
        blocks := blocks[call.value := call.neighbors];
      }
    }
    assert calls[..|calls|] == calls;
  }

  /**
   * GridFilter: a new grid holding exactly the stored cells whose (value, row, col) the filter
   * accepts, with their values; the input grid is a value and stays as it was.
   */
  method GridFilter(g: Grid, order: seq<Cell>, filter: (int, int, int) -> bool) returns (r: Grid)
    requires IsEnumeration(g, order)
    ensures forall c :: c in r <==> c in g && filter(g[c], c.0, c.1)
    ensures forall c :: c in r ==> r[c] == g[c]
  {
    r := CopyWhere(g, order, filter);
  }
}
