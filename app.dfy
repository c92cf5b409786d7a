/**
 * The manual-play rules of src/App.tsx: the tile GridView shows for a cell, the AddStones click
 * rule (place the next label, or take the last one back) and the OnePlacer toggle.
 */
module App {
  import opened SparseGrid
  import opened NeighborSum
  import opened Extent

  /** The data a tile hands to the click handler: whether it shows a stone, and its number. */
  datatype Tile = Tile(isPlaced: bool, value: int)

  /**
   * GridView's tile for (row, col), given the game grid and its sum grid: a stone when the sum
   * entry is -1, showing its label; otherwise the sum.
   */
  function Shown(g: Grid, sums: Grid, row: int, col: int): Tile
  {
    var neighborValue := GridGet(sums, row, col);
    var isPlaced := neighborValue == -1;
    Tile(isPlaced, if isPlaced then GridGet(g, row, col) else neighborValue)
  }

  /** A tile is placed exactly on a stone, showing its label; any other tile shows its sum. */
  lemma ShownMeaning(g: Grid, row: int, col: int)
    ensures Shown(g, NeighborSums(g), row, col).isPlaced <==> IsStone(g, (row, col))
    ensures Shown(g, NeighborSums(g), row, col).value ==
      if IsStone(g, (row, col)) then g[(row, col)] else MooreSum(g, row, col)
  {
    NeighborSumsGet(g, row, col);
  }

  /**
   * The rectangle GridView draws. App's own Bounds skips stored zeros, while GridBounds in the
   * library is called with includeZeroes; over the sum grid GridView walks, which never stores
   * 0 (a stone's -1 or a positive neighbour sum), the two give the same rectangle.
   */
  lemma ViewBounds(g: Grid)
    ensures forall c :: c in NeighborSums(g) ==> NeighborSums(g)[c] != 0
    ensures BoundsOf(NeighborSums(g), false) == BoundsOf(NeighborSums(g), true)
  {
    var sums := NeighborSums(g);
    ZerolessBounds(sums);
  }

  /** The AddStones click rule on the tile (row, col) of `g`, whose next label is Score(g). */
  ghost function AddStonesClick(g: Grid, row: int, col: int): Grid
  {
    var next := Score(g);
    var tile := Shown(g, NeighborSums(g), row, col);
    if tile.value == next - 1 && tile.isPlaced then GridSet(g, row, col, 0)
    else if tile.value != next then g
    else GridSet(g, row, col, tile.value)
  }

  /** Clicking the stone labelled next - 1 clears it and changes nothing else. */
  lemma AddStonesUndo(g: Grid, row: int, col: int)
    requires IsStone(g, (row, col)) && g[(row, col)] == Score(g) - 1
    ensures GridGet(AddStonesClick(g, row, col), row, col) == 0
    ensures forall r, c :: (r, c) != (row, col) ==> GridGet(AddStonesClick(g, row, col), r, c) == GridGet(g, r, c)
  {
    ShownMeaning(g, row, col);
  }

  /** Outside the undo case, a click on a tile not showing the next label changes nothing. */
  lemma AddStonesIgnore(g: Grid, row: int, col: int)
    requires !(IsStone(g, (row, col)) && g[(row, col)] == Score(g) - 1)
    requires Shown(g, NeighborSums(g), row, col).value != Score(g)
    ensures AddStonesClick(g, row, col) == g
  {
    ShownMeaning(g, row, col);
  }

  /**
   * A tile showing the next label is never a stone (every label is below next): it is a cell
   * whose neighbours add up to next. The click stores next there, changes nothing else and
   * advances the next label by one.
   */
  lemma AddStonesPlace(g: Grid, row: int, col: int)
    requires Shown(g, NeighborSums(g), row, col).value == Score(g)
    ensures !IsStone(g, (row, col)) && MooreSum(g, row, col) == Score(g)
    ensures AddStonesClick(g, row, col) == g[(row, col) := Score(g)]
    ensures Score(AddStonesClick(g, row, col)) == Score(g) + 1
  {
    ShownMeaning(g, row, col);
    var next := Score(g);
    var g' := g[(row, col) := next];
    assert IsScore(g', next + 1) by {
      assert g'[(row, col)] == next;
    }
    ScoreUnique(g', Score(g'), next + 1);
  }

  /** The OnePlacer click rule: clear a stone, put a 1 anywhere else. */
  function OnePlacerClick(g: Grid, sums: Grid, row: int, col: int): Grid
  {
    GridSet(g, row, col, if Shown(g, sums, row, col).isPlaced then 0 else 1)
  }

  /** A OnePlacer click toggles the cell between stone and 1, and changes no other cell. */
  lemma OnePlacerToggle(g: Grid, row: int, col: int)
    ensures GridGet(OnePlacerClick(g, NeighborSums(g), row, col), row, col) == if IsStone(g, (row, col)) then 0 else 1
    ensures forall r, c :: (r, c) != (row, col) ==>
      GridGet(OnePlacerClick(g, NeighborSums(g), row, col), r, c) == GridGet(g, r, c)
  {
    ShownMeaning(g, row, col);
  }

  /** The module-level game grid that both modes edit in place. */
  class Game {
    var gameGrid: Grid

    /** The starting grid is a parameter: the start-up literal, or a grid read by the importer. */
    constructor(initial: Grid)
      ensures gameGrid == initial
    {
      gameGrid := initial;
    }

    /**
     * AddStones' click handler on the tile (row, col): next is CountValues(gameGrid).length,
     * the tile is GridView's for the sum grid.
     */
    method ClickAddStones(row: int, col: int)
      modifies this
      ensures gameGrid == AddStonesClick(old(gameGrid), row, col)
    {
      var neighbors := GridSumNeighbors(gameGrid, RowMajor(gameGrid));
      var counts := GridCount(gameGrid, RowMajor(gameGrid));
      var next := |counts|;
      var tile := Shown(gameGrid, neighbors, row, col);
      if tile.value == next - 1 && tile.isPlaced {
        gameGrid := GridSet(gameGrid, row, col, 0);
        return;
      }
      if tile.value != next {
        return;
      }
      gameGrid := GridSet(gameGrid, row, col, tile.value);
    }

    /** OnePlacer's click handler on the tile (row, col). */
    method ClickOnePlacer(row: int, col: int)
      modifies this
      ensures gameGrid == OnePlacerClick(old(gameGrid), NeighborSums(old(gameGrid)), row, col)
    {
      var neighbors := GridSumNeighbors(gameGrid, RowMajor(gameGrid));
      var tile := Shown(gameGrid, neighbors, row, col);
      gameGrid := GridSet(gameGrid, row, col, if tile.isPlaced then 0 else 1);
    }
  }
}
