/**
 * The exhaustive solver of src/logic/solvers.ts: from a grid whose next label is `next`, try
 * every cell whose neighbour sum is `next`, solve each resulting grid recursively and keep the
 * first one with the highest score; module-level progress state reports improvements.
 */
module Solver {
  import opened SparseGrid
  import opened NeighborSum

  // ---------------------------------------------------------------------------------------
  // Plays and children
  // ---------------------------------------------------------------------------------------

  /** The cells of `order` whose entry in the sum grid `s` is `next`, kept in visiting order. */
  function PlaysIn(s: Grid, order: seq<Cell>, next: int): (plays: seq<Cell>)
    requires forall c :: c in order ==> c in s
    ensures forall c :: c in plays <==> c in order && s[c] == next
  {
    if order == [] then []
    else
      var init, last := order[..|order| - 1], order[|order| - 1];
      assert forall c :: c in order <==> c in init || c == last;
      PlaysIn(s, init, next) + (if s[last] == next then [last] else [])
  }

  /** The plays of a grid: the cells whose neighbour sum is the next label, in row-major order. */
  ghost function Plays(g: Grid): seq<Cell>
  {
    var s := NeighborSums(g);
    PlaysIn(s, RowMajor(s), Score(g))
  }

  /**
   * A cell is a play exactly when it holds no stone and the stones around it add up to the
   * next label; that label is then positive.
   */
  lemma {:induction false} PlaysExact(g: Grid, c: Cell)
    ensures c in Plays(g) <==> !IsStone(g, c) && MooreSum(g, c.0, c.1) == Score(g) && Score(g) > 0
  {
    var s := NeighborSums(g);
    assert c in Plays(g) <==> c in s && s[c] == Score(g);
  }

  /**
   * The grid a play leads to: the copy of `g` (its non-zero cells) with the cell `c` set to
   * `next`; every other cell reads as in `g`.
   */
  function Child(g: Grid, c: Cell, next: int): (child: Grid)
    ensures forall d :: d in child <==> d == c || (d in g && g[d] != 0)
    ensures child[c] == next
    ensures forall d :: d in child && d != c ==> child[d] == g[d]
    ensures forall row, col :: (row, col) != c ==> GridGet(child, row, col) == GridGet(g, row, col)
  {
    GridSet(Restrict(g, IsNonZero), c.0, c.1, next)
  }

  // ---------------------------------------------------------------------------------------
  // The search as a function
  // ---------------------------------------------------------------------------------------

  /**
   * The position of the result that replaces the running best, starting from the score
   * `floor`: the first result whose score is above `floor` and above every other result's, or
   * -1 when no result beats `floor`.
   */
  ghost function Pick(results: seq<Grid>, floor: nat): (i: int)
    ensures -1 <= i < |results|
    ensures i == -1 <==> forall k :: 0 <= k < |results| ==> Score(results[k]) <= floor
    ensures 0 <= i ==> floor < Score(results[i])
    ensures 0 <= i ==> forall k :: 0 <= k < |results| ==> Score(results[k]) <= Score(results[i])
    ensures 0 <= i ==> forall k :: 0 <= k < i ==> Score(results[k]) < Score(results[i])
  {
    if results == [] then -1
    else
      var j := Pick(results[..|results| - 1], floor);
      var best := if j < 0 then floor else Score(results[j]);
      if best < Score(results[|results| - 1]) then |results| - 1 else j
  }

  /**
   * The best grid among `results`, or `g` itself when none scores above `floor`; no result
   * scores above both `floor` and the kept grid.
   */
  ghost function BestOf(g: Grid, floor: nat, results: seq<Grid>): (best: Grid)
    ensures best == g || best in results
    ensures best != g ==> floor < Score(best)
    ensures forall k :: 0 <= k < |results| ==> Score(results[k]) <= floor || Score(results[k]) <= Score(best)
  {
    var i := Pick(results, floor);
    if i < 0 then g else results[i]
  }

  /**
   * What BruteForceGridSolver returns for `g`, searching at most `fuel` levels deep: the grid
   * itself when there is no fuel left, otherwise the expansion of its plays.
   */
  ghost function Solve(g: Grid, fuel: nat): Grid
    decreases fuel, 0
  {
    if fuel == 0 then g else Expand(g, fuel - 1)
  }

  /**
   * The first child solution of the highest score when that beats the grid's own score, else
   * the grid itself (in particular when there is no play).
   */
  ghost function Expand(g: Grid, inner: nat): Grid
    decreases inner, 3
  {
    BestOf(g, Score(g), ChildSolutions(g, inner))
  }

  /** The solutions of the children of all plays of `g`, each searched `inner` levels deep. */
  ghost function ChildSolutions(g: Grid, inner: nat): seq<Grid>
    decreases inner, 2
  {
    Solutions(g, Plays(g), Score(g), inner)
  }

  /** The solutions of the children of `plays`, in play order, each searched `fuel` levels deep. */
  ghost function Solutions(g: Grid, plays: seq<Cell>, next: int, fuel: nat): (results: seq<Grid>)
    ensures |results| == |plays|
    decreases fuel, 1, |plays|
  {
    if plays == [] then []
    else
      var n := |plays| - 1;
      Solutions(g, plays[..n], next, fuel) + [Solve(Child(g, plays[n], next), fuel)]
  }

  /** Solving the children of one more play appends that child's solution. */
  lemma {:induction false} SolutionsSnoc(g: Grid, plays: seq<Cell>, play: Cell, next: int, fuel: nat)
    ensures Solutions(g, plays + [play], next, fuel) ==
            Solutions(g, plays, next, fuel) + [Solve(Child(g, play, next), fuel)]
  {
    var longer := plays + [play];
    assert longer[..|plays|] == plays;
  }

  /** Solving the children of one more play of `plays` appends that child's solution. */
  lemma SolutionsPrefix(g: Grid, plays: seq<Cell>, next: int, fuel: nat, i: int)
    requires 0 <= i < |plays|
    ensures Solutions(g, plays[..i + 1], next, fuel) ==
            Solutions(g, plays[..i], next, fuel) + [Solve(Child(g, plays[i], next), fuel)]
  {
    SolutionsSnoc(g, plays[..i], plays[i], next, fuel);
    assert plays[..i + 1] == plays[..i] + [plays[i]];
  }

  /** The i-th solution is the solution of the child of the i-th play. */
  lemma {:induction false} SolutionsAt(g: Grid, plays: seq<Cell>, next: int, fuel: nat, i: int)
    requires 0 <= i < |plays|
    ensures Solutions(g, plays, next, fuel)[i] == Solve(Child(g, plays[i], next), fuel)
  {
    var n := |plays| - 1;
    if i < n {
      SolutionsAt(g, plays[..n], next, fuel, i);
    }
  }

  /** Solve with fuel left: the expansion of the plays one level shallower. */
  lemma {:induction false} SolveStep(g: Grid, inner: nat)
    ensures Solve(g, inner + 1) == Expand(g, inner)
  {
  }

  /** The expansion of a grid, given its plays, its next label and its children's solutions. */
  lemma {:induction false} ExpandWith(g: Grid, inner: nat, plays: seq<Cell>, next: nat, results: seq<Grid>)
    requires plays == Plays(g) && next == Score(g) && results == Solutions(g, plays, next, inner)
    ensures Expand(g, inner) == BestOf(g, next, results)
    ensures plays == [] ==> Expand(g, inner) == g
  {
    assert ChildSolutions(g, inner) == results;
  }

  /** Without a play the solver returns the grid it was given. */
  lemma {:induction false} SolveWithoutPlays(g: Grid, fuel: nat)
    requires Plays(g) == []
    ensures Solve(g, fuel) == g
  {
    if fuel > 0 {
      var inner := fuel - 1;
      SolveStep(g, inner);
      ExpandWith(g, inner, [], Score(g), []);
    }
  }

  /**
   * The solution scores at least as much as the input, and more whenever it is not the input
   * itself.
   */
  lemma {:induction false} SolveScore(g: Grid, fuel: nat)
    ensures Score(g) <= Score(Solve(g, fuel))
    ensures Solve(g, fuel) != g ==> Score(g) < Score(Solve(g, fuel))
  {
    if fuel > 0 {
      var inner := fuel - 1;
      SolveStep(g, inner);
    }
  }

  /** Every stone of the input keeps its label in the solution. */
  lemma {:induction false} SolveKeepsStones(g: Grid, fuel: nat, c: Cell)
    requires IsStone(g, c)
    ensures c in Solve(g, fuel) && Solve(g, fuel)[c] == g[c]
    decreases fuel
  {
    var plays := Plays(g);
    if fuel > 0 && plays != [] {
      var next, inner := Score(g), fuel - 1;
      var results := Solutions(g, plays, next, inner);
      var i := Pick(results, next);
      SolveStep(g, inner);
      ExpandWith(g, inner, plays, next, results);
      if 0 <= i {
        var child := Child(g, plays[i], next);
        assert BestOf(g, next, results) == results[i];
        SolutionsAt(g, plays, next, inner, i);
        ChildKeepsStone(g, plays[i], next, c);
        SolveKeepsStones(child, inner, c);
      } else {
        assert BestOf(g, next, results) == g;
      }
    } else if fuel > 0 {
      SolveWithoutPlays(g, fuel);
    }
  }

  /** A play is never a stone, so the child of a play keeps every stone. */
  lemma {:induction false} ChildKeepsStone(g: Grid, p: Cell, next: int, c: Cell)
    requires p in Plays(g) && next == Score(g)
    requires IsStone(g, c)
    ensures IsStone(Child(g, p, next), c) && Child(g, p, next)[c] == g[c]
  {
    PlaysExact(g, p);
  }

  // ---------------------------------------------------------------------------------------
  // The loops of BruteForceGridSolver
  // ---------------------------------------------------------------------------------------

  /** The plays collected from the sum grid of `g`, for its next label, are Plays(g). */
  lemma PlaysFromSums(g: Grid, s: Grid, next: int, plays: seq<Cell>)
    requires s == NeighborSums(g) && next == Score(g) && plays == PlaysIn(s, RowMajor(s), next)
    ensures plays == Plays(g)
  {
  }

  /** The GridForEach over the sum grid that pushes every cell holding `next`. */
  method CollectPlays(s: Grid, order: seq<Cell>, next: int) returns (plays: seq<Cell>)
    requires IsEnumeration(s, order)
    ensures plays == PlaysIn(s, order, next)
  {
    var visits := GridForEach(s, order);
    plays := [];
    for i := 0 to |order|
      invariant plays == PlaysIn(s, order[..i], next)
    {
      PlaysInNext(s, order, next, i);
      var visit := visits[i];
      if visit.value == next {
        plays := plays + [(visit.row, visit.col)];
      }
    }
    assert order[..|order|] == order;
  }

  lemma PlaysInNext(s: Grid, order: seq<Cell>, next: int, i: int)
    requires IsEnumeration(s, order) && 0 <= i < |order|
    ensures PlaysIn(s, order[..i + 1], next) ==
      PlaysIn(s, order[..i], next) + (if s[order[i]] == next then [order[i]] else [])
  {
    var longer := order[..i + 1];
    assert longer[..i] == order[..i];
  }

  /**
   * neighborCounts[next] > 0, with an index past the end of the array reading as missing:
   * true exactly when the grid has a play.
   */
  lemma {:induction false} HasPlays(g: Grid, s: Grid, neighborCounts: seq<nat>, next: nat)
    requires s == NeighborSums(g) && next == Score(g)
    requires |neighborCounts| == Score(s)
    requires forall v :: 0 <= v < |neighborCounts| ==> neighborCounts[v] == |Holding(s, v)|
    ensures (next < |neighborCounts| && neighborCounts[next] > 0) <==> Plays(g) != []
  {
    var plays := Plays(g);
    if plays != [] {
      assert plays[0] in Holding(s, next);
    }
    if Holding(s, next) != {} {
      var c :| c in Holding(s, next);
      assert c in plays;
    }
    if |neighborCounts| <= next {
      assert Holding(s, next) == {};
    }
  }

  /** The best-selection loop: a result replaces the running best only with a higher score. */
  method PickBest(g: Grid, floor: nat, results: seq<Grid>) returns (bestGrid: Grid)
    ensures bestGrid == BestOf(g, floor, results)
  {
    bestGrid := g;
    var bestScore := floor;
    for i := 0 to |results|
      invariant var j := Pick(results[..i], floor);
        && bestGrid == (if j < 0 then g else results[j])
        && bestScore == (if j < 0 then floor else Score(results[j]))
    {
      assert results[..i + 1][..i] == results[..i];
      var result := results[i];
      var counts := GridCount(result, RowMajor(result));
      var score := |counts|;
      if score > bestScore {
        bestScore := score;
        bestGrid := result;
      }
    }
    assert results[..|results|] == results;
  }

  // ---------------------------------------------------------------------------------------
  // Progress state
  // ---------------------------------------------------------------------------------------

  /**
   * One call of the solver listener: the grid handed over and whether the search is done;
   * `level` is the value bestSoFar holds when the report is made.
   */
  datatype Report = Report(best: Grid, isDone: bool, level: int)

  /**
   * No result scores above `level`, and `level` is `floor` or the score of one of the results:
   * the bestSoFar that solving the results in turn leaves behind, starting from `floor`.
   */
  ghost predicate Attains(results: seq<Grid>, floor: int, level: int) {
    && (forall k :: 0 <= k < |results| ==> Score(results[k]) <= level)
    && (level == floor || exists k :: 0 <= k < |results| && level == Score(results[k]))
  }

  /** Solving one more result, which leaves bestSoFar at the old level or at its score. */
  lemma AttainsSnoc(results: seq<Grid>, result: Grid, floor: int, middle: int, level: int)
    requires Attains(results, floor, middle)
    requires middle <= level && Score(result) <= level
    requires level == middle || level == Score(result)
    ensures Attains(results + [result], floor, level)
  {
    var all := results + [result];
    forall k | 0 <= k < |all|
      ensures Score(all[k]) <= level
    {
      if k < |results| {
        assert all[k] == results[k];
      }
    }
    if level == Score(result) {
      assert all[|results|] == result;
    } else if level != floor {
      var k :| 0 <= k < |results| && level == Score(results[k]);
      assert all[k] == results[k];
    }
  }

  /**
   * The reports at positions from..to-1 are progress reports (none final), each handing over a
   * grid that scores exactly its level, and their levels rise strictly and lie in
   * (floor, ceiling]: the label count of the grids the listener receives only grows.
   */
  ghost predicate Rising(reports: seq<Report>, from: nat, to: nat, floor: int, ceiling: int)
    requires from <= to <= |reports|
  {
    && (forall i :: from <= i < to ==>
          && !reports[i].isDone && floor < reports[i].level <= ceiling
          && Score(reports[i].best) == reports[i].level)
    && (forall i, j :: from <= i < j < to ==> reports[i].level < reports[j].level)
  }

  /** A rising run continued, past the end of its log, by a run above it is one rising run. */
  lemma {:induction false} RisingJoin(before: seq<Report>, after: seq<Report>, from: nat, low: int, middle: int, high: int)
    requires before <= after && from <= |before|
    requires low <= middle <= high
    requires Rising(before, from, |before|, low, middle)
    requires Rising(after, |before|, |after|, middle, high)
    ensures Rising(after, from, |after|, low, high)
  {
    assert forall i :: 0 <= i < |before| ==> after[i] == before[i];
  }

  /**
   * The sum grid and its value counts; no play when neighborCounts[next] is missing or 0,
   * otherwise the cells of the sum grid holding `next`, in traversal order.
   */
  method FindPlays(grid: Grid, next: nat) returns (plays: seq<Cell>)
    requires next == Score(grid)
    ensures plays == Plays(grid)
  {
    var neighbors := GridSumNeighbors(grid, RowMajor(grid));
    var neighborCounts := GridCount(neighbors, RowMajor(neighbors));
    HasPlays(grid, neighbors, neighborCounts, next);
    if next < |neighborCounts| && neighborCounts[next] > 0 {
      plays := CollectPlays(neighbors, RowMajor(neighbors), next);
      PlaysFromSums(grid, neighbors, next, plays);
    } else {
      plays := [];
    }
  }

  /** The module-level state of src/logic/solvers.ts, with the listener's calls recorded. */
  class SolverProgress {
    var bestSoFar: int
    var isRunning: bool
    var reports: seq<Report>

    constructor()
      ensures bestSoFar == 0 && !isRunning && reports == []
    {
      bestSoFar := 0;
      isRunning := false;
      reports := [];
    }

    /**
     * BruteForceGridSolver, searching at most `fuel` levels deep. It returns Solve(grid, fuel)
     * and only appends reports. A top-level call starts bestSoFar from 0 and ends with exactly
     * one final report, after reports whose levels rise and whose grids score no more than the
     * final one; an inner call leaves isRunning alone, appends reports whose levels rise above
     * the old bestSoFar, and leaves bestSoFar at its old value or at its result's score.
     */
    method BruteForceGridSolver(grid: Grid, firstStep: bool, fuel: nat) returns (bestGrid: Grid)
      modifies this
      decreases fuel, 2
      ensures bestGrid == Solve(grid, fuel)
      ensures old(reports) <= reports
      ensures firstStep ==>
        && !isRunning && 0 <= bestSoFar
        && |old(reports)| < |reports|
        && reports[|reports| - 1] == Report(bestGrid, true, bestSoFar)
        && Rising(reports, |old(reports)|, |reports| - 1, 0, bestSoFar)
        && bestSoFar <= Score(bestGrid)
        && (forall i :: |old(reports)| <= i < |reports| - 1 ==> Score(reports[i].best) <= Score(bestGrid))
      ensures !firstStep ==>
        && isRunning == old(isRunning) && old(bestSoFar) <= bestSoFar
        && Rising(reports, |old(reports)|, |reports|, old(bestSoFar), bestSoFar)
        && Score(bestGrid) <= bestSoFar
        && (bestSoFar == old(bestSoFar) || bestSoFar == Score(bestGrid))
    {
      bestGrid := grid;
      var counts := GridCount(grid, RowMajor(grid));
      var next := |counts|;
      if firstStep {
        bestSoFar := 0;
        isRunning := true;
      }
      bestGrid := Search(grid, next, fuel);
      if firstStep {
        isRunning := false;
        reports := reports + [Report(bestGrid, true, bestSoFar)];
      } else if next > bestSoFar {
        // a result better than the grid would already have raised bestSoFar to its score
        SolveScore(grid, fuel);
        assert Score(bestGrid) == next;
        ghost var before, middle := reports, bestSoFar;
        bestSoFar := next;
        reports := reports + [Report(bestGrid, false, bestSoFar)];
        RisingJoin(before, reports, |old(reports)|, old(bestSoFar), middle, bestSoFar);
      }
    }

    /**
     * The search part of BruteForceGridSolver for a grid whose next label is `next`: find the
     * plays, solve their children and keep the best result.
     */
    method Search(grid: Grid, next: nat, fuel: nat) returns (bestGrid: Grid)
      requires next == Score(grid)
      modifies this
      decreases fuel, 1
      ensures bestGrid == Solve(grid, fuel)
      ensures old(reports) <= reports
      ensures isRunning == old(isRunning) && old(bestSoFar) <= bestSoFar
      ensures Rising(reports, |old(reports)|, |reports|, old(bestSoFar), bestSoFar)
      ensures bestGrid == grid || Score(bestGrid) <= bestSoFar
      ensures bestSoFar == old(bestSoFar) || bestSoFar <= Score(bestGrid)
    {
      bestGrid := grid;
      if fuel > 0 {
        var plays := FindPlays(grid, next);
        if plays != [] {
          bestGrid := SearchPlays(grid, plays, next, fuel);
        } else {
          SolveWithoutPlays(grid, fuel);
        }
      }
    }

    /** The search below a grid that has plays: solve every child, keep the best result. */
    method SearchPlays(grid: Grid, plays: seq<Cell>, next: nat, fuel: nat) returns (bestGrid: Grid)
      requires plays == Plays(grid) && next == Score(grid) && 0 < fuel
      modifies this
      decreases fuel, 0
      ensures bestGrid == Solve(grid, fuel)
      ensures old(reports) <= reports
      ensures isRunning == old(isRunning) && old(bestSoFar) <= bestSoFar
      ensures Rising(reports, |old(reports)|, |reports|, old(bestSoFar), bestSoFar)
      ensures bestGrid == grid || Score(bestGrid) <= bestSoFar
      ensures bestSoFar == old(bestSoFar) || bestSoFar <= Score(bestGrid)
    {
      var inner := fuel - 1;
      var results := SolveChildren(grid, plays, next, inner);
      bestGrid := PickBest(grid, next, results);
      SolveStep(grid, inner);
      ExpandWith(grid, inner, plays, next, results);
    }

    /** Solves the child of every play in turn, each as an inner call. */
    method SolveChildren(grid: Grid, plays: seq<Cell>, next: int, fuel: nat) returns (results: seq<Grid>)
      modifies this
      decreases fuel, 4
      ensures results == Solutions(grid, plays, next, fuel)
      ensures old(reports) <= reports
      ensures isRunning == old(isRunning) && old(bestSoFar) <= bestSoFar
      ensures Rising(reports, |old(reports)|, |reports|, old(bestSoFar), bestSoFar)
      ensures Attains(results, old(bestSoFar), bestSoFar)
    {
      results := [];
      for i := 0 to |plays|
        invariant results == Solutions(grid, plays[..i], next, fuel)
        invariant old(reports) <= reports
        invariant isRunning == old(isRunning) && old(bestSoFar) <= bestSoFar
        invariant Rising(reports, |old(reports)|, |reports|, old(bestSoFar), bestSoFar)
        invariant Attains(results, old(bestSoFar), bestSoFar)
      {
        ghost var before, middle := reports, bestSoFar;
        var result := SolveChild(grid, plays[i], next, fuel);
        RisingJoin(before, reports, |old(reports)|, old(bestSoFar), middle, bestSoFar);
        SolutionsPrefix(grid, plays, next, fuel, i);
        AttainsSnoc(results, result, old(bestSoFar), middle, bestSoFar);
        results := results + [result];
      }
      assert plays[..|plays|] == plays;
    }

    /** One element of the map over the plays: copy the grid, place `next`, solve the copy. */
    method SolveChild(grid: Grid, play: Cell, next: int, fuel: nat) returns (result: Grid)
      modifies this
      decreases fuel, 3
      ensures result == Solve(Child(grid, play, next), fuel)
      ensures old(reports) <= reports
      ensures isRunning == old(isRunning) && old(bestSoFar) <= bestSoFar
      ensures Rising(reports, |old(reports)|, |reports|, old(bestSoFar), bestSoFar)
      ensures Score(result) <= bestSoFar
      ensures bestSoFar == old(bestSoFar) || bestSoFar == Score(result)
    {
      var newGrid := GridCopy(grid, RowMajor(grid));
      newGrid := GridSet(newGrid, play.0, play.1, next);
      result := BruteForceGridSolver(newGrid, false, fuel);
    }
  }
}
