/**
 * src/logic/colors.ts: the colour of a label (one colour per ten labels) and the lookup list
 * built from it.
 */
module Colors {
  import opened Wrappers

  /** The fifteen colours, one for each run of ten labels. */
  const COLORS: seq<string> := [
    "#e6194B", "#3cb44b", "#4363d8", "#f58231", "#911eb4",
    "#42d4f4", "#f032e6", "#fabed4", "#469990", "#9A6324",
    "#800000", "#808000", "#000075", "#111", "grey"
  ]

  /** How many consecutive labels share a colour. */
  const COLOR_RANGE: nat := 10

  /**
   * GetColor: no colour (undefined) for a label of at most 1 and for a label past the last
   * colour's run; otherwise the colour of the label's run of ten.
   */
  function GetColor(value: int): (color: Option<string>)
    ensures value <= 1 ==> color == None
    ensures color.Some? <==> 2 <= value < |COLORS| * COLOR_RANGE
    ensures color.Some? ==> color.value == COLORS[value / COLOR_RANGE]
  {
    if value <= 1 then None
    else
      var index := value / COLOR_RANGE;
      if index < |COLORS| then Some(COLORS[index]) else None
  }

  /** The flatMap of the colours: each colour repeated COLOR_RANGE times, in order. */
  function Repeated(colors: seq<string>): (list: seq<string>)
    ensures |list| == |colors| * COLOR_RANGE
  {
    if colors == [] then []
    else seq(COLOR_RANGE, _ => colors[0]) + Repeated(colors[1..])
  }

  /** Entry i of the repeated list is the colour of run i / COLOR_RANGE. */
  lemma {:induction false} RepeatedAt(colors: seq<string>, i: int)
    requires 0 <= i < |colors| * COLOR_RANGE
    ensures Repeated(colors)[i] == colors[i / COLOR_RANGE]
  {
    if COLOR_RANGE <= i {
      var j := i - COLOR_RANGE;
      RepeatedAt(colors[1..], j);
      assert j / COLOR_RANGE + 1 == i / COLOR_RANGE;
    }
  }

  /**
   * COLOR_LIST as it ends up: "black" for the labels 0 and 1, then the colour of each label's
   * run of ten, up to the end of the last run.
   */
  function ColorList(): seq<string>
  {
    seq(|COLORS| * COLOR_RANGE, i requires 0 <= i < |COLORS| * COLOR_RANGE =>
      if i < 2 then "black" else COLORS[i / COLOR_RANGE])
  }

  /** COLOR_LIST has 15 x 10 entries and starts with two "black" entries. */
  lemma ColorListShape()
    ensures |ColorList()| == 150
    ensures ColorList()[0] == "black" && ColorList()[1] == "black"
  {
  }

  /** From 2 on, COLOR_LIST agrees with GetColor. */
  lemma ColorListAgrees(i: int)
    requires 2 <= i < |ColorList()|
    ensures GetColor(i) == Some(ColorList()[i])
  {
  }

  /** The module-level code building COLOR_LIST. */
  method BuildColorList() returns (list: array<string>)
    ensures list[..] == ColorList()
  {
    list := RepeatThenBlacken(COLORS);
    assert forall i :: 0 <= i < list.Length ==> list[..][i] == ColorList()[i];
  }

  /**
   * Spreads the flatMap of `colors` into a new array, then overwrites entries 0 and 1: the
   * array has ten entries per colour, "black" at 0 and 1 and colour i / 10 at every i from 2.
   */
  method RepeatThenBlacken(colors: seq<string>) returns (list: array<string>)
    requires colors != []
    ensures list.Length == |colors| * COLOR_RANGE
    ensures list[0] == "black" && list[1] == "black"
    ensures forall i :: 2 <= i < list.Length ==> list[i] == colors[i / COLOR_RANGE]
  {
    var repeated := Repeated(colors);
    list := new string[|repeated|](i requires 0 <= i < |repeated| => repeated[i]);
    list[0] := "black";
    list[1] := "black";
    forall i | 2 <= i < list.Length
      ensures list[i] == colors[i / COLOR_RANGE]
    {
      RepeatedAt(colors, i);
    }
  }
}
