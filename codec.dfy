/**
 * The run-length text format of src/logic/io.ts. ExportGrid writes every row of the bounds
 * rectangle as "(z: v, v / z: v)" — each run of non-empty cells preceded by the number of
 * empty cells before it — and ImportGrid reads such text back, numbering rows and columns
 * from 0.
 */
module Codec {
  import opened Wrappers
  import opened SparseGrid
  import opened Extent
  import opened TextUtil

  // ---------------------------------------------------------------------------------------
  // Runs of a row
  // ---------------------------------------------------------------------------------------

  /** n empty cells. */
  function Zeros(n: nat): (z: seq<int>)
    ensures |z| == n && forall i :: 0 <= i < n ==> z[i] == 0
  {
    if n == 0 then [] else Zeros(n - 1) + [0]
  }

  /** The number of empty cells a row ends with. */
  function TrailingZeros(p: seq<int>): (n: nat)
    ensures n <= |p|
    ensures forall i :: |p| - n <= i < |p| ==> p[i] == 0
    ensures n < |p| ==> p[|p| - n - 1] != 0
  {
    if p == [] || p[|p| - 1] != 0 then 0 else TrailingZeros(p[..|p| - 1]) + 1
  }

  /** A run: the count of empty cells before it, then its non-empty cells. */
  datatype Run = Run(zeros: nat, values: seq<int>)

  /**
   * The runs of a row as ExportGrid meets them left to right: an empty cell ends the current
   * run, a non-empty one extends it or opens a new one after the empty cells counted so far.
   */
  function Runs(p: seq<int>): (rs: seq<Run>)
    ensures p != [] && p[|p| - 1] != 0 ==> rs != []
  {
    if p == [] then []
    else
      var q, v := p[..|p| - 1], p[|p| - 1];
      var rs := Runs(q);
      if v == 0 then rs
      else if q != [] && q[|q| - 1] != 0 then
        rs[..|rs| - 1] + [Run(rs[|rs| - 1].zeros, rs[|rs| - 1].values + [v])]
      else rs + [Run(TrailingZeros(q), [v])]
  }

  /** The cells a list of runs stands for. */
  function Expand(rs: seq<Run>): seq<int>
  {
    if rs == [] then [] else Expand(rs[..|rs| - 1]) + Zeros(rs[|rs| - 1].zeros) + rs[|rs| - 1].values
  }

  /** A run holds at least one cell, and only non-empty ones. */
  predicate GoodRun(r: Run)
  {
    r.values != [] && forall j :: 0 <= j < |r.values| ==> r.values[j] != 0
  }

  predicate WellFormed(rs: seq<Run>)
  {
    forall i :: 0 <= i < |rs| ==> GoodRun(rs[i])
  }

  lemma ExpandSnoc(rs: seq<Run>, r: Run)
    ensures Expand(rs + [r]) == Expand(rs) + Zeros(r.zeros) + r.values
  {
    assert (rs + [r])[..|rs|] == rs;
  }

  /** The runs followed by the trailing empty cells are the row again: nothing lost, nothing invented. */
  lemma {:induction false} RunsExpand(p: seq<int>)
    ensures Expand(Runs(p)) + Zeros(TrailingZeros(p)) == p
    ensures WellFormed(Runs(p))
  {
    if p != [] {
      var q, v := p[..|p| - 1], p[|p| - 1];
      assert p == q + [v];
      RunsExpand(q);
      ExpandStep(q, v);
      WellFormedStep(q, v);
    }
  }

  lemma ExpandStep(q: seq<int>, v: int)
    requires Expand(Runs(q)) + Zeros(TrailingZeros(q)) == q
    ensures Expand(Runs(q + [v])) + Zeros(TrailingZeros(q + [v])) == q + [v]
  {
    var e, t := Expand(Runs(q)), TrailingZeros(q);
    if v == 0 {
      RunsZero(q);
      ExpandZero(e, t, q);
    } else if q != [] && q[|q| - 1] != 0 {
      ExpandStepExtend(q, v, e, t);
    } else {
      ExpandStepOpen(q, v, e, t);
    }
  }

  /** A non-empty cell ends no run of empty cells. */
  lemma TrailingNonZero(q: seq<int>, v: int)
    requires v != 0
    ensures TrailingZeros(q + [v]) == 0 && Zeros(0) == []
  {
    assert (q + [v])[|q|] == v;
  }

  lemma ExpandStepExtend(q: seq<int>, v: int, e: seq<int>, t: nat)
    requires e == Expand(Runs(q)) && t == TrailingZeros(q) && e + Zeros(t) == q
    requires v != 0 && q != [] && q[|q| - 1] != 0
    ensures Expand(Runs(q + [v])) + Zeros(TrailingZeros(q + [v])) == q + [v]
  {
    RunsExtend(q, v);
    assert t == 0 && Zeros(0) == [];
    ExpandExtend(Runs(q), q, v);
    TrailingNonZero(q, v);
  }

  lemma ExpandStepOpen(q: seq<int>, v: int, e: seq<int>, t: nat)
    requires e == Expand(Runs(q)) && t == TrailingZeros(q) && e + Zeros(t) == q
    requires v != 0 && (q == [] || q[|q| - 1] == 0)
    ensures Expand(Runs(q + [v])) + Zeros(TrailingZeros(q + [v])) == q + [v]
  {
    var rs := Runs(q);
    RunsOpen(q, v);
    ExpandSnoc(rs, Run(t, [v]));
    assert Expand(Runs(q + [v])) == q + [v];
    TrailingNonZero(q, v);
  }

  lemma WellFormedStep(q: seq<int>, v: int)
    requires WellFormed(Runs(q))
    ensures WellFormed(Runs(q + [v]))
  {
    if v == 0 {
      RunsZero(q);
    } else if q != [] && q[|q| - 1] != 0 {
      RunsExtend(q, v);
      WellFormedExtend(Runs(q), v);
    } else {
      RunsOpen(q, v);
      assert GoodRun(Run(TrailingZeros(q), [v]));
    }
  }

  lemma ExpandZero(e: seq<int>, n: nat, q: seq<int>)
    requires e + Zeros(n) == q
    ensures e + Zeros(n + 1) == q + [0]
  {
    assert Zeros(n + 1) == Zeros(n) + [0];
    AppendAssoc(e, Zeros(n), [0]);
  }

  lemma ExpandExtend(rs: seq<Run>, q: seq<int>, v: int)
    requires rs != [] && Expand(rs) == q
    ensures Expand(rs[..|rs| - 1] + [Run(rs[|rs| - 1].zeros, rs[|rs| - 1].values + [v])]) == q + [v]
  {
    var init, last := rs[..|rs| - 1], rs[|rs| - 1];
    assert Expand(rs) == Expand(init) + Zeros(last.zeros) + last.values;
    ExpandSnoc(init, Run(last.zeros, last.values + [v]));
    AppendAssoc(Expand(init) + Zeros(last.zeros), last.values, [v]);
  }

  lemma WellFormedExtend(rs: seq<Run>, v: int)
    requires rs != [] && WellFormed(rs) && v != 0
    ensures WellFormed(rs[..|rs| - 1] + [Run(rs[|rs| - 1].zeros, rs[|rs| - 1].values + [v])])
  {
    var last := rs[|rs| - 1];
    assert GoodRun(last);
    assert GoodRun(Run(last.zeros, last.values + [v]));
  }

  /** An empty cell at the end of a row opens no run. */
  lemma RunsZero(p: seq<int>)
    ensures Runs(p + [0]) == Runs(p)
    ensures TrailingZeros(p + [0]) == TrailingZeros(p) + 1
  {
    assert (p + [0])[..|p|] == p;
  }

  /** A non-empty cell after an empty one (or at the start) opens a run. */
  lemma RunsOpen(p: seq<int>, v: int)
    requires v != 0 && (p == [] || p[|p| - 1] == 0)
    ensures Runs(p + [v]) == Runs(p) + [Run(TrailingZeros(p), [v])]
  {
    assert (p + [v])[..|p|] == p;
  }

  /** A non-empty cell after a non-empty one extends the last run. */
  lemma RunsExtend(p: seq<int>, v: int)
    requires v != 0 && p != [] && p[|p| - 1] != 0
    ensures var rs := Runs(p);
      Runs(p + [v]) == rs[..|rs| - 1] + [Run(rs[|rs| - 1].zeros, rs[|rs| - 1].values + [v])]
  {
    assert (p + [v])[..|p|] == p;
  }

  // ---------------------------------------------------------------------------------------
  // The text of a row
  // ---------------------------------------------------------------------------------------

  /** The numbers of a run, each as String writes it. */
  function IntStrings(vs: seq<int>): (r: seq<string>)
    ensures |r| == |vs|
  {
    if vs == [] then [] else IntStrings(vs[..|vs| - 1]) + [IntToString(vs[|vs| - 1])]
  }

  /** "z: " — the count of empty cells before a run. */
  function RunHead(r: Run): string
  {
    IntToString(r.zeros) + ": "
  }

  /** "z: v, v, v" */
  function RunText(r: Run): string
  {
    RunHead(r) + Join(IntStrings(r.values), ", ")
  }

  function RunTexts(rs: seq<Run>): (r: seq<string>)
    ensures |r| == |rs|
  {
    if rs == [] then [] else RunTexts(rs[..|rs| - 1]) + [RunText(rs[|rs| - 1])]
  }

  /** What ExportGrid writes between the parentheses of a row: the runs joined by " / ". */
  function RowBody(p: seq<int>): string
  {
    Join(RunTexts(Runs(p)), " / ")
  }

  function RowText(p: seq<int>): string
  {
    "(" + RowBody(p) + ")"
  }

  /** Trailing empty cells never reach the text: a row reads the same with more of them. */
  lemma {:induction false} RowTextTrailing(p: seq<int>, n: nat)
    ensures RowText(p + Zeros(n)) == RowText(p)
  {
    if n > 0 {
      var m := n - 1;
      RowTextTrailing(p, m);
      assert p + Zeros(n) == (p + Zeros(m)) + [0];
      RunsZero(p + Zeros(m));
    } else {
      assert p + Zeros(n) == p;
    }
  }

  /** A row of empty cells is written "()". */
  lemma EmptyRowText(n: nat)
    ensures RowText(Zeros(n)) == "()"
  {
    RowTextTrailing([], n);
    assert [] + Zeros(n) == Zeros(n);
  }

  /** The number of columns lo..hi. */
  function Width(lo: int, hi: int): nat
  {
    if lo <= hi then hi - lo + 1 else 0
  }

  /** Columns lo..hi of a row, as GridGet reads them. */
  function RowValues(g: Grid, row: int, lo: int, hi: int): (p: seq<int>)
    ensures |p| == Width(lo, hi)
    ensures forall i :: 0 <= i < |p| ==> p[i] == GridGet(g, row, lo + i)
    decreases Width(lo, hi)
  {
    if hi < lo then [] else RowValues(g, row, lo, hi - 1) + [GridGet(g, row, hi)]
  }

  /** One more column of a row's values. */
  lemma RowValuesNext(g: Grid, row: int, lo: int, col: int)
    requires lo <= col
    ensures RowValues(g, row, lo, col) == RowValues(g, row, lo, col - 1) + [GridGet(g, row, col)]
  {
  }

  /** The texts of rows lo..hi, each over columns cl..ch, top to bottom. */
  function RowTexts(g: Grid, lo: int, hi: int, cl: int, ch: int): (r: seq<string>)
    ensures |r| == Width(lo, hi)
    decreases Width(lo, hi)
  {
    if hi < lo then [] else RowTexts(g, lo, hi - 1, cl, ch) + [RowText(RowValues(g, hi, cl, ch))]
  }

  /** Row lo + i of the rectangle is the i-th row text. */
  lemma {:induction false} RowTextsAt(g: Grid, lo: int, hi: int, cl: int, ch: int, i: nat, row: int)
    requires i < Width(lo, hi) && row == lo + i
    ensures RowTexts(g, lo, hi, cl, ch)[i] == RowText(RowValues(g, row, cl, ch))
    decreases Width(lo, hi)
  {
    var init, last := RowTexts(g, lo, hi - 1, cl, ch), RowText(RowValues(g, hi, cl, ch));
    assert RowTexts(g, lo, hi, cl, ch) == init + [last];
    if i < |init| {
      RowTextsAt(g, lo, hi - 1, cl, ch, i, row);
      assert (init + [last])[i] == init[i];
    } else {
      assert (init + [last])[i] == last;
      assert row == hi;
    }
  }

  /**
   * The text ExportGrid produces: the rows of the bounds of the non-empty cells, top to
   * bottom, each over the columns of those bounds, joined by ", ".
   */
  ghost function ExportText(g: Grid): string
  {
    var b := BoundsOf(g, false);
    Join(RowTexts(g, b.row.min, b.row.max, b.col.min, b.col.max), ", ")
  }

  /** A grid without a non-empty cell is written as the empty text. */
  lemma ExportNothing(g: Grid)
    requires forall c :: c in g ==> g[c] == 0
    ensures ExportText(g) == ""
  {
    BoundsOfNothing(g, false);
  }

  // ---------------------------------------------------------------------------------------
  // ExportGrid
  // ---------------------------------------------------------------------------------------

  /** The text of all runs but the last, and the head of the last. */
  function Prefix(rs: seq<Run>): string
    requires rs != []
  {
    (if |rs| == 1 then "" else Join(RunTexts(rs[..|rs| - 1]), " / ") + " / ") + RunHead(rs[|rs| - 1])
  }

  lemma RunTextsSnoc(rs: seq<Run>, r: Run)
    ensures RunTexts(rs + [r]) == RunTexts(rs) + [RunText(r)]
  {
    assert (rs + [r])[..|rs|] == rs;
  }

  /** The text of the runs is the prefix followed by the numbers of the last run. */
  lemma PrefixJoin(rs: seq<Run>)
    requires rs != []
    ensures Join(RunTexts(rs), " / ") == Prefix(rs) + Join(IntStrings(rs[|rs| - 1].values), ", ")
  {
    var init, last := rs[..|rs| - 1], rs[|rs| - 1];
    var nums := Join(IntStrings(last.values), ", ");
    assert RunTexts(rs) == RunTexts(init) + [RunText(last)];
    if |rs| == 1 {
      assert RunTexts(rs) == [RunText(last)];
      assert Prefix(rs) == RunHead(last);
    } else {
      JoinAppend(RunTexts(init), " / ", RunText(last));
      AppendAssoc(Join(RunTexts(init), " / ") + " / ", RunHead(last), nums);
    }
  }

  /**
   * Where the column loop of ExportGrid stands after the cells p: while counting empty cells,
   * rowStr holds "(" and the text of every run so far and currentZeros the empty cells since
   * the last run; inside a run, rowStr ends with its head and currentNumbers holds its cells.
   */
  ghost predicate ExportState(p: seq<int>, rowStr: string, counting: bool, zeros: int, numbers: seq<int>, first: bool)
  {
    var rs := Runs(p);
    && (first <==> rs == [])
    && (counting ==>
          (p == [] || p[|p| - 1] == 0) && numbers == [] && zeros == TrailingZeros(p) &&
          rowStr == "(" + Join(RunTexts(rs), " / "))
    && (!counting ==>
          p != [] && p[|p| - 1] != 0 && rs != [] && numbers == rs[|rs| - 1].values && rowStr == "(" + Prefix(rs))
  }

  lemma StepZeroCounting(p: seq<int>, rowStr: string, zeros: int, first: bool)
    requires ExportState(p, rowStr, true, zeros, [], first)
    ensures ExportState(p + [0], rowStr, true, zeros + 1, [], first)
  {
    RunsZero(p);
  }

  lemma StepZeroClose(p: seq<int>, rowStr: string, zeros: int, numbers: seq<int>, first: bool)
    requires ExportState(p, rowStr, false, zeros, numbers, first)
    ensures ExportState(p + [0], rowStr + Join(IntStrings(numbers), ", "), true, 1, [], first)
  {
    RunsZero(p);
    PrefixJoin(Runs(p));
    AppendAssoc("(", Prefix(Runs(p)), Join(IntStrings(numbers), ", "));
  }

  lemma StepOpen(p: seq<int>, rowStr: string, lead: string, zeros: int, first: bool, v: int)
    requires v != 0
    requires ExportState(p, rowStr, true, zeros, [], first)
    requires lead == (if first then rowStr else rowStr + " / ")
    ensures ExportState(p + [v], lead + IntToString(zeros) + ": ", false, 0, [v], false)
  {
    var rs := Runs(p);
    var r := Run(TrailingZeros(p), [v]);
    RunsOpen(p, v);
    OpenPrefix(rs, r);
    if first {
      assert RunTexts(rs) == [];
    }
    OpenText(Join(RunTexts(rs), " / "), rowStr, lead, IntToString(zeros), first);
  }

  /** The prefix after opening a run: the text of the earlier runs, then the new run's head. */
  lemma OpenPrefix(rs: seq<Run>, r: Run)
    ensures Prefix(rs + [r]) == (if rs == [] then "" else Join(RunTexts(rs), " / ") + " / ") + RunHead(r)
  {
    var rs' := rs + [r];
    assert rs'[..|rs'| - 1] == rs;
  }

  lemma OpenText(done: string, rowStr: string, lead: string, count: string, first: bool)
    requires rowStr == "(" + done
    requires first ==> done == ""
    requires lead == (if first then rowStr else rowStr + " / ")
    ensures lead + count + ": " == "(" + ((if first then "" else done + " / ") + (count + ": "))
  {
    AppendAssoc(lead, count, ": ");
    if !first {
      AppendAssoc("(", done + " / ", count + ": ");
      AppendAssoc("(", done, " / ");
    }
  }

  lemma StepExtend(p: seq<int>, rowStr: string, zeros: int, numbers: seq<int>, first: bool, v: int)
    requires v != 0
    requires ExportState(p, rowStr, false, zeros, numbers, first)
    ensures ExportState(p + [v], rowStr, false, zeros, numbers + [v], first)
  {
    var rs := Runs(p);
    RunsExtend(p, v);
    var rs' := Runs(p + [v]);
    assert rs'[..|rs'| - 1] == rs[..|rs| - 1];
  }

  /** Before the first column: counting empty cells, nothing written but "(". */
  lemma ExportStart()
    ensures ExportState([], "(", true, 0, [], true)
  {
    assert RunTexts([]) == [];
  }

  /** At the end of the row the numbers of the open run are written and the parenthesis closed. */
  lemma ExportFinish(p: seq<int>, rowStr: string, counting: bool, zeros: int, numbers: seq<int>, first: bool)
    requires ExportState(p, rowStr, counting, zeros, numbers, first)
    ensures rowStr + Join(IntStrings(numbers), ", ") + ")" == RowText(p)
  {
    if counting {
      assert IntStrings(numbers) == [];
    } else {
      PrefixJoin(Runs(p));
      AppendAssoc("(", Prefix(Runs(p)), Join(IntStrings(numbers), ", "));
    }
  }

  /**
   * One column of ExportGrid's row loop: an empty cell is counted, or closes the current run
   * by writing its numbers; a non-empty cell opens a run (writing " / " unless it is the
   * first, then the count of empty cells and ": ") or joins the current one.
   */
  method ExportCell(ghost done: seq<int>, value: int, rowStr: string, isCountingZeroes: bool, currentZeros: int,
                    currentNumbers: seq<int>, isFirst: bool)
    returns (rowStr': string, isCountingZeroes': bool, currentZeros': int, currentNumbers': seq<int>, isFirst': bool)
    requires ExportState(done, rowStr, isCountingZeroes, currentZeros, currentNumbers, isFirst)
    ensures ExportState(done + [value], rowStr', isCountingZeroes', currentZeros', currentNumbers', isFirst')
  {
    rowStr', isCountingZeroes', currentZeros', currentNumbers', isFirst' :=
      rowStr, isCountingZeroes, currentZeros, currentNumbers, isFirst;
    if value == 0 {
      if isCountingZeroes' {
        currentZeros' := currentZeros' + 1;
        StepZeroCounting(done, rowStr, currentZeros, isFirst);
        return;
      }
      rowStr' := rowStr' + Join(IntStrings(currentNumbers'), ", ");
      currentNumbers' := [];
      isCountingZeroes' := true;
      currentZeros' := 1;
      StepZeroClose(done, rowStr, currentZeros, currentNumbers, isFirst);
      return;
    }
    if isCountingZeroes' {
      if !isFirst' {
        rowStr' := rowStr' + " / ";
      }
      if isFirst' {
        isFirst' := false;
      }
      ghost var lead := rowStr';
      rowStr' := rowStr' + IntToString(currentZeros') + ": ";
      isCountingZeroes' := false;
      currentZeros' := 0;
      currentNumbers' := [];
      currentNumbers' := currentNumbers' + [value];
      StepOpen(done, rowStr, lead, currentZeros, isFirst, value);
      assert currentNumbers' == [value];
    } else {
      currentNumbers' := currentNumbers' + [value];
      StepExtend(done, rowStr, currentZeros, currentNumbers, isFirst, value);
    }
  }

  /** The column loop of ExportGrid for one row. */
  method ExportColumns(g: Grid, row: int, lo: int, hi: int)
    returns (rowStr: string, isCountingZeroes: bool, currentZeros: int, currentNumbers: seq<int>, isFirst: bool,
             ghost done: seq<int>)
    ensures done == RowValues(g, row, lo, hi)
    ensures ExportState(done, rowStr, isCountingZeroes, currentZeros, currentNumbers, isFirst)
  {
    rowStr := "(";
    isCountingZeroes := true;
    currentZeros := 0;
    currentNumbers := [];
    isFirst := true;
    var col := lo;
    done := [];
    ExportStart();
    while col <= hi
      invariant lo <= col <= (if lo <= hi then hi + 1 else lo)
      invariant done == RowValues(g, row, lo, col - 1)
      invariant ExportState(done, rowStr, isCountingZeroes, currentZeros, currentNumbers, isFirst)
      decreases hi - col
    {
      var value := GridGet(g, row, col);
      rowStr, isCountingZeroes, currentZeros, currentNumbers, isFirst :=
        ExportCell(done, value, rowStr, isCountingZeroes, currentZeros, currentNumbers, isFirst);
      RowValuesNext(g, row, lo, col);
      done := done + [value];
      col := col + 1;
    }
  }

  /** One row of ExportGrid: "(", the runs, then ")". */
  method ExportRow(g: Grid, row: int, lo: int, hi: int) returns (rowStr: string)
    ensures rowStr == RowText(RowValues(g, row, lo, hi))
  {
    var isCountingZeroes, currentZeros, currentNumbers, isFirst;
    ghost var done;
    rowStr, isCountingZeroes, currentZeros, currentNumbers, isFirst, done := ExportColumns(g, row, lo, hi);
    ExportFinish(done, rowStr, isCountingZeroes, currentZeros, currentNumbers, isFirst);
    rowStr := rowStr + Join(IntStrings(currentNumbers), ", ");
    rowStr := rowStr + ")";
  }

  /** The rows lo..hi of the bounds rectangle, each over columns cl..ch, as text. */
  method ExportRows(g: Grid, lo: int, hi: int, cl: int, ch: int) returns (rowStrs: seq<string>)
    ensures rowStrs == RowTexts(g, lo, hi, cl, ch)
  {
    rowStrs := [];
    var row := lo;
    while row <= hi
      invariant lo <= row <= (if lo <= hi then hi + 1 else lo)
      invariant rowStrs == RowTexts(g, lo, row - 1, cl, ch)
      decreases hi - row
    {
      var rowStr := ExportRow(g, row, cl, ch);
      rowStrs := rowStrs + [rowStr];
      row := row + 1;
    }
    if lo <= hi {
      assert row - 1 == hi;
    } else {
      assert RowTexts(g, lo, hi, cl, ch) == [] == rowStrs;
    }
  }

  /**
   * The grid as text: the bounds of the non-empty cells, then each row of that rectangle
   * in turn, the row texts joined by ", ".
   */
  method ExportGrid(g: Grid, order: seq<Cell>) returns (text: string)
    requires IsEnumeration(g, order)
    ensures text == ExportText(g)
  {
    var bounds := GridBounds(g, order, false);
    BoundsIs(g, false, bounds);
    var rowStrs := ExportRows(g, bounds.row.min, bounds.row.max, bounds.col.min, bounds.col.max);
    text := Join(rowStrs, ", ");
  }

}
