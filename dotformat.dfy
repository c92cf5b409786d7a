/**
 * The "dot grid" importer of io.ts and the example puzzles written in it. Lines of the text
 * are rows and space-separated tokens are columns; blank lines and runs of spaces are skipped,
 * and a token whose number is 0 or not a number (such as ".") leaves its cell empty.
 */
module DotFormat {
  import opened Wrappers
  import opened SparseGrid
  import opened TextUtil

  /** str.split("\n").filter((s) => s): the non-blank lines, in order. */
  function Lines(str: string): seq<string>
  {
    NonEmpty(Split(str, '\n'))
  }

  /** row.split(" ").filter((s) => s): the tokens of a line, in order. */
  function Tokens(line: string): seq<string>
  {
    NonEmpty(Split(line, ' '))
  }

  /** The value a token stores: its number, or 0 when it stores nothing (0 or not a number). */
  function TokenValue(t: string): (v: int)
    ensures v != 0 <==> ParseNumber(t).Some? && ParseNumber(t).value != 0
    ensures v != 0 ==> ParseNumber(t) == Some(v)
  {
    match ParseNumber(t)
    case Some(n) => n
    case None => 0
  }

  /** Whether token j of a line written into row k stores cell c: c is (k, j) and its number is not 0. */
  predicate Stores(k: int, tokens: seq<string>, c: Cell)
  {
    c.0 == k && 0 <= c.1 < |tokens| && TokenValue(tokens[c.1]) != 0
  }

  /** Whether the lines store cell c: some line k has a token at column c.1 whose number is not 0. */
  predicate DotCell(lines: seq<string>, c: Cell)
  {
    0 <= c.0 < |lines| && Stores(c.0, Tokens(lines[c.0]), c)
  }

  /** The tokens of one line written into row k of g, from column 0. */
  function DotRow(g: Grid, k: int, tokens: seq<string>): Grid
  {
    if tokens == [] then g
    else
      var g' := DotRow(g, k, tokens[..|tokens| - 1]);
      var v := TokenValue(tokens[|tokens| - 1]);
      if v == 0 then g' else GridSet(g', k, |tokens| - 1, v)
  }

  /** The lines written into rows 0, 1, ... of a new grid. */
  function DotRows(lines: seq<string>): Grid
  {
    if lines == [] then map[]
    else DotRow(DotRows(lines[..|lines| - 1]), |lines| - 1, Tokens(lines[|lines| - 1]))
  }

  /** What ImportDotFormat returns for str. */
  function DotGrid(str: string): Grid
  {
    DotRows(Lines(str))
  }

  /** Writing a line adds exactly its stored tokens to row k and keeps every other cell. */
  lemma {:induction false} DotRowCells(g: Grid, k: int, tokens: seq<string>)
    ensures forall c :: c in DotRow(g, k, tokens) <==> c in g || Stores(k, tokens, c)
    ensures forall c :: Stores(k, tokens, c) ==> DotRow(g, k, tokens)[c] == TokenValue(tokens[c.1])
    ensures forall c :: c in g && !Stores(k, tokens, c) ==> DotRow(g, k, tokens)[c] == g[c]
    decreases |tokens|
  {
    if tokens != [] {
      var init, j := tokens[..|tokens| - 1], |tokens| - 1;
      DotRowCells(g, k, init);
      StoresSnoc(k, tokens, init, j);
    }
  }

  lemma StoresSnoc(k: int, tokens: seq<string>, init: seq<string>, j: int)
    requires tokens != [] && init == tokens[..|tokens| - 1] && j == |tokens| - 1
    ensures forall c :: Stores(k, tokens, c) <==> Stores(k, init, c) || (c == (k, j) && TokenValue(tokens[j]) != 0)
    ensures forall c :: Stores(k, init, c) ==> init[c.1] == tokens[c.1]
  {
  }

  /** Row k of the result is line k: its cells are the line's stored tokens. */
  lemma {:induction false} DotRowsCells(lines: seq<string>)
    ensures forall c :: c in DotRows(lines) <==> DotCell(lines, c)
    ensures forall c :: DotCell(lines, c) ==> DotRows(lines)[c] == TokenValue(Tokens(lines[c.0])[c.1])
    decreases |lines|
  {
    if lines != [] {
      var init, k := lines[..|lines| - 1], |lines| - 1;
      DotRowsCells(init);
      DotRowCells(DotRows(init), k, Tokens(lines[k]));
      forall c | DotCell(init, c)
        ensures DotCell(lines, c) && c.0 != k && lines[c.0] == init[c.0]
      {
      }
    }
  }

  /**
   * ImportDotFormat's result: the k-th non-blank line is row k, the j-th token of a line is
   * column j, and exactly the tokens whose number is not 0 are stored, with that number.
   */
  lemma DotGridCells(str: string)
    ensures forall c :: c in DotGrid(str) <==> DotCell(Lines(str), c)
    ensures forall c :: DotCell(Lines(str), c) ==>
      DotGrid(str)[c] != 0 && ParseNumber(Tokens(Lines(str)[c.0])[c.1]) == Some(DotGrid(str)[c])
  {
    DotRowsCells(Lines(str));
  }

  lemma DotRowNext(g: Grid, k: int, tokens: seq<string>, j: int)
    requires 0 <= j < |tokens|
    ensures DotRow(g, k, tokens[..j + 1]) ==
      var v := TokenValue(tokens[j]); if v == 0 then DotRow(g, k, tokens[..j]) else GridSet(DotRow(g, k, tokens[..j]), k, j, v)
  {
    assert tokens[..j + 1][..j] == tokens[..j];
  }

  /** One line of ImportDotFormat: each token with a non-zero number GridSet at its column of row k. */
  method ImportDotRow(grid: Grid, k: int, line: string) returns (g: Grid)
    ensures g == DotRow(grid, k, Tokens(line))
  {
    var elements := Tokens(line);
    g := grid;
    for col := 0 to |elements|
      invariant g == DotRow(grid, k, elements[..col])
    {
      DotRowNext(grid, k, elements, col);
      var value := ParseNumber(elements[col]);
      if value.None? || value.value == 0 {
        continue;
      }
      g := GridSet(g, k, col, value.value);
    }
    assert elements[..|elements|] == elements;
  }

  lemma DotRowsNext(lines: seq<string>, k: int, g: Grid)
    requires 0 <= k < |lines| && g == DotRows(lines[..k])
    ensures DotRow(g, k, Tokens(lines[k])) == DotRows(lines[..k + 1])
  {
    assert lines[..k + 1][..k] == lines[..k];
  }

  /** ImportDotFormat: line k of the text becomes row k, token j of a line column j. */
  method ImportDotFormat(str: string) returns (grid: Grid)
    ensures grid == DotGrid(str)
  {
    var rows := Lines(str);
    grid := map[];
    for row := 0 to |rows|
      invariant grid == DotRows(rows[..row])
    {
      DotRowsNext(rows, row, grid);
      grid := ImportDotRow(grid, row, rows[row]);
    }
    assert rows[..|rows|] == rows;
  }

  // ---------------------------------------------------------------------------------------
  // The example puzzles
  // ---------------------------------------------------------------------------------------

  /** The example "n = 2 gets 16", one line of the text per line here. */
  const N2_16: string :=
    "\n" + " 9  5 10 11  .  ." +
    "\n" + " .  4  1  .  .  ." +
    "\n" + "12  8  3  2  . 16" +
    "\n" + " .  .  .  6  1 15" +
    "\n" + " .  .  13 7 14  ."

  const N2_GRID: Grid := DotGrid(N2_16)

  /** The example "n = 4 with max 38". */
  const N4_38: string :=
    ""
    + "\n" + ".  .  .  .  .  .  .  .  .  .  .  .  .  .  ."
    + "\n" + ""
    + "\n" + ". 35 18 36  . 23  . 21  . 32  .  .  .  .  ."
    + "\n" + ""
    + "\n" + ".  . 17  1  . 14  9  . 12 20  .  .  .  .  ."
    + "\n" + ""
    + "\n" + ".  . 34 16 15  .  5  4  8  .  . 26 27  .  ."
    + "\n" + ""
    + "\n" + ".  .  .  . 31  . 10  1  3 19 25  .  1 28  ."
    + "\n" + ""
    + "\n" + ".  .  .  .  .  . 11  .  2  6  . 33  . 29  ."
    + "\n" + ""
    + "\n" + ".  .  .  .  .  . 24 13 22  1  7  .  .  .  ."
    + "\n" + ""
    + "\n" + ".  .  .  .  .  . 37  .  . 30 38  .  .  .  ."
    + "\n" + ""
    + "\n" + ".  .  .  .  .  .  .  .  .  .  .  .  .  .  . "

  const N4_GRID: Grid := DotGrid(N4_38)

  /** The example "n = 6 with max of 60". */
  const N6_60: string :=
    ""
    + "\n" + ".  .  .  .  .  .  .  .  .  .  .  .  . 47 24 48  ."
    + "\n" + ""
    + "\n" + ".  .  .  .  .  .  .  .  .  .  .  .  .  . 23  1 49"
    + "\n" + ""
    + "\n" + ".  .  .  .  .  .  .  .  .  .  .  . 41  . 22  . 50"
    + "\n" + ""
    + "\n" + ".  .  .  .  .  .  .  . 51  . 36  . 20 21 43  .  ."
    + "\n" + ""
    + "\n" + ".  .  .  .  .  .  .  . 34 17  . 19  1  .  .  .  ."
    + "\n" + ""
    + "\n" + ".  .  .  .  .  .  .  . 16  1 18 38 58 59  .  .  ."
    + "\n" + ""
    + "\n" + ".  .  .  .  . 37 30 15 40  . 57  .  .  .  .  .  ."
    + "\n" + ""
    + "\n" + ".  .  .  .  .  .  7  8  .  .  .  .  .  .  .  .  ."
    + "\n" + ""
    + "\n" + ".  .  . 35 46  6  1 25 33  .  .  .  .  .  .  .  ."
    + "\n" + ""
    + "\n" + ". 60 32  .  3  2  9  .  .  .  .  .  .  .  .  .  ."
    + "\n" + ""
    + "\n" + ".  . 28  4  1 31 11 45  . 52  .  .  .  .  .  .  ."
    + "\n" + ""
    + "\n" + ". 42 14 10  5  .  . 12 13 39  .  .  .  .  .  .  ."
    + "\n" + ""
    + "\n" + ". 56  . 29 44  .  .  1 26  .  .  .  .  .  .  .  ."
    + "\n" + ""
    + "\n" + ".  .  .  .  .  . 55 54 27 53  .  .  .  .  .  .  . "

  const N6_GRID: Grid := DotGrid(N6_60)

  /** The non-empty pieces of a + [d] + rest, for a without d: a's (if any), then rest's. */
  lemma PiecesCons(a: string, d: char, rest: string, s: string)
    requires s == a + [d] + rest && d !in a
    ensures NonEmpty(Split(s, d)) == NonEmpty([a]) + NonEmpty(Split(rest, d))
  {
    SplitAt(a, d, rest);
    SplitNone(a, d);
    NonEmptyAppend([a], Split(rest, d));
  }

  /** Tokens of a line with two spaces after its first token a. */
  lemma TokensGap(a: string, rest: string, s: string)
    requires s == a + ("  " + rest) && ' ' !in a
    ensures Tokens(s) == NonEmpty([a]) + Tokens(rest)
  {
    PiecesCons(a, ' ', " " + rest, s);
    PiecesCons("", ' ', rest, " " + rest);
    assert NonEmpty([""]) == [];
  }

  lemma TokensOne(a: string, rest: string, s: string)
    requires s == a + (" " + rest) && ' ' !in a
    ensures Tokens(s) == NonEmpty([a]) + Tokens(rest)
  {
    PiecesCons(a, ' ', rest, s);
  }

  lemma LinesOne(a: string, rest: string, s: string)
    requires s == a + "\n" + rest && '\n' !in a
    ensures Lines(s) == NonEmpty([a]) + Lines(rest)
  {
    PiecesCons(a, '\n', rest, s);
  }

  lemma LastPiece(a: string, d: char)
    requires d !in a && a != []
    ensures NonEmpty(Split(a, d)) == [a]
  {
    SplitNone(a, d);
    assert [a][1..] == [];
  }

  /** The lines of a + "\n" + rest, for a non-blank line a: a, then those of rest. */
  lemma LineCons(s: string, a: string, rest: string, tail: seq<string>)
    requires s == a + "\n" + rest && '\n' !in a && a != [] && Lines(rest) == tail
    ensures Lines(s) == [a] + tail
  {
    LinesOne(a, rest, s);
    LastPiece(a, '\n');
  }

  /** The lines of "\n" + l0 + "\n" + ... + "\n" + l4. */
  lemma FiveLines(l0: string, l1: string, l2: string, l3: string, l4: string, s: string)
    requires s == "\n" + l0 + "\n" + l1 + "\n" + l2 + "\n" + l3 + "\n" + l4
    requires '\n' !in l0 && '\n' !in l1 && '\n' !in l2 && '\n' !in l3 && '\n' !in l4 && l4 != []
    requires l0 != [] && l1 != [] && l2 != [] && l3 != []
    ensures Lines(s) == [l0, l1, l2, l3, l4]
  {
    var r3 := l3 + "\n" + l4;
    var r2 := l2 + "\n" + r3;
    var r1 := l1 + "\n" + r2;
    var r0 := l0 + "\n" + r1;
    LastPiece(l4, '\n');
    LineCons(r3, l3, l4, [l4]);
    LineCons(r2, l2, r3, [l3, l4]);
    LineCons(r1, l1, r2, [l2, l3, l4]);
    LineCons(r0, l0, r1, [l1, l2, l3, l4]);
    assert s == [] + "\n" + r0;
    LinesOne([], r0, s);
    assert NonEmpty([[]]) == [];
  }

  lemma N2Lines()
    ensures Lines(N2_16) == [" 9  5 10 11  .  .", " .  4  1  .  .  .", "12  8  3  2  . 16", " .  .  .  6  1 15", " .  .  13 7 14  ."]
  {
    FiveLines(" 9  5 10 11  .  .", " .  4  1  .  .  .", "12  8  3  2  . 16", " .  .  .  6  1 15", " .  .  13 7 14  .", N2_16);
  }

  predicate Word(w: string)
  {
    w != [] && ' ' !in w
  }

  lemma WordTokens(w: string)
    requires Word(w)
    ensures NonEmpty([w]) == [w] && Tokens(w) == [w]
  {
    LastPiece(w, ' ');
  }

  /** Tokens of " a  b  c  rest": a, b and c, then the tokens of rest. */
  lemma SpacedThree(s: string, lead: string, a: string, b: string, c: string, rest: string)
    requires lead == "" || lead == " "
    requires s == lead + (a + ("  " + (b + ("  " + (c + ("  " + rest))))))
    requires Word(a) && Word(b) && Word(c)
    ensures Tokens(s) == [a, b, c] + Tokens(rest)
  {
    var r2 := c + ("  " + rest);
    var r1 := b + ("  " + r2);
    var r0 := a + ("  " + r1);
    if lead == " " {
      TokensOne("", r0, s);
    } else {
      assert s == r0;
    }
    TokensGap(a, r1, r0);
    TokensGap(b, r2, r1);
    TokensGap(c, rest, r2);
    WordTokens(a);
    WordTokens(b);
    WordTokens(c);
    assert NonEmpty([""]) == [];
  }

  /** Tokens of "a  b c". */
  lemma GapThenSpace(s: string, a: string, b: string, c: string)
    requires s == a + ("  " + (b + (" " + c)))
    requires Word(a) && Word(b) && Word(c)
    ensures Tokens(s) == [a, b, c]
  {
    var r := b + (" " + c);
    TokensGap(a, r, s);
    TokensOne(b, c, r);
    WordTokens(a);
    WordTokens(b);
    WordTokens(c);
  }

  /** Tokens of "a  b  c  d  e f", after an optional leading space. */
  lemma SpacedSix(s: string, lead: string, a: string, b: string, c: string, d: string, e: string, f: string)
    requires lead == "" || lead == " "
    requires s == lead + (a + ("  " + (b + ("  " + (c + ("  " + (d + ("  " + (e + (" " + f))))))))))
    requires Word(a) && Word(b) && Word(c) && Word(d) && Word(e) && Word(f)
    ensures Tokens(s) == [a, b, c, d, e, f]
  {
    var rest := d + ("  " + (e + (" " + f)));
    SpacedThree(s, lead, a, b, c, rest);
    GapThenSpace(rest, d, e, f);
  }

  lemma N2Line1()
    ensures var t := Tokens(" .  4  1  .  .  ."); |t| > 2 && t[2] == "1"
  {
    SpacedThree(" .  4  1  .  .  .", " ", ".", "4", "1", ".  .  .");
  }

  lemma N2Line2()
    ensures var t := Tokens("12  8  3  2  . 16"); |t| > 5 && t[5] == "16"
  {
    SpacedSix("12  8  3  2  . 16", "", "12", "8", "3", "2", ".", "16");
  }

  lemma N2Line3()
    ensures var t := Tokens(" .  .  .  6  1 15"); |t| > 4 && t[4] == "1"
  {
    SpacedSix(" .  .  .  6  1 15", " ", ".", ".", ".", "6", "1", "15");
  }

  /** A cell of an imported text, read off its line and token. */
  lemma DotGridAt(str: string, k: int, line: string, j: int, token: string, v: int)
    requires 0 <= k < |Lines(str)| && Lines(str)[k] == line
    requires 0 <= j < |Tokens(line)| && Tokens(line)[j] == token
    requires ParseNumber(token) == Some(v) && v != 0
    ensures GridGet(DotGrid(str), k, j) == v
  {
    DotGridCells(str);
    assert DotCell(Lines(str), (k, j));
  }

  lemma ParseOne()
    ensures ParseNumber("1") == Some(1)
  {
    assert Trim("1") == "1";
  }

  lemma ParseSixteen()
    ensures ParseNumber("16") == Some(16)
  {
    assert Trim("16") == "16";
    assert DigitsValue("16") == 16;
  }

  lemma N2Token12()
    ensures 1 < |Lines(N2_16)| && 2 < |Tokens(Lines(N2_16)[1])| && Tokens(Lines(N2_16)[1])[2] == "1"
  {
    N2Lines();
    N2Line1();
  }

  lemma N2Cell12()
    ensures GridGet(N2_GRID, 1, 2) == 1
  {
    N2Token12();
    ParseOne();
    DotGridAt(N2_16, 1, Lines(N2_16)[1], 2, "1", 1);
  }

  lemma N2Token25()
    ensures 2 < |Lines(N2_16)| && 5 < |Tokens(Lines(N2_16)[2])| && Tokens(Lines(N2_16)[2])[5] == "16"
  {
    N2Lines();
    N2Line2();
  }

  lemma N2Cell25()
    ensures GridGet(N2_GRID, 2, 5) == 16
  {
    N2Token25();
    ParseSixteen();
    DotGridAt(N2_16, 2, Lines(N2_16)[2], 5, "16", 16);
  }

  lemma N2Token34()
    ensures 3 < |Lines(N2_16)| && 4 < |Tokens(Lines(N2_16)[3])| && Tokens(Lines(N2_16)[3])[4] == "1"
  {
    N2Lines();
    N2Line3();
  }

  lemma N2Cell34()
    ensures GridGet(N2_GRID, 3, 4) == 1
  {
    N2Token34();
    ParseOne();
    DotGridAt(N2_16, 3, Lines(N2_16)[3], 4, "1", 1);
  }

  /** The "n = 2 gets 16" example: 1s at (1, 2) and (3, 4), and 16 at (2, 5). */
  lemma N2Example()
    ensures GridGet(N2_GRID, 1, 2) == 1 && GridGet(N2_GRID, 3, 4) == 1 && GridGet(N2_GRID, 2, 5) == 16
  {
    N2Cell12();
    N2Cell25();
    N2Cell34();
  }
}
