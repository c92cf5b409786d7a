/**
 * The pieces of JavaScript's string handling that the text formats of src/logic/io.ts rely
 * on: String(n) for an integer, Number(s) on a decimal integer, String.prototype.trim,
 * split on one character and join.
 */
module TextUtil {
  import opened Wrappers

  predicate IsDigit(ch: char)
  {
    '0' <= ch <= '9'
  }

  predicate AllDigits(s: string)
  {
    forall i :: 0 <= i < |s| ==> IsDigit(s[i])
  }

  function DigitChar(d: nat): (ch: char)
    requires d < 10
    ensures IsDigit(ch)
  {
    (('0' as int) + d) as char
  }

  function DigitValue(ch: char): (d: nat)
    requires IsDigit(ch)
    ensures d < 10
  {
    (ch as int) - ('0' as int)
  }

  /** The characters String.prototype.trim removes: white space and line terminators. */
  predicate IsSpace(ch: char)
  {
    var c := ch as int;
    c == 0x09 || c == 0x0A || c == 0x0B || c == 0x0C || c == 0x0D || c == 0x20 || c == 0xA0 ||
    c == 0x1680 || (0x2000 <= c <= 0x200A) || c == 0x2028 || c == 0x2029 || c == 0x202F ||
    c == 0x205F || c == 0x3000 || c == 0xFEFF
  }

  // ---------------------------------------------------------------------------------------
  // String(n) and Number(s) on integers
  // ---------------------------------------------------------------------------------------

  /** The decimal digits of n, most significant first, without leading zeros. */
  function NatToString(n: nat): (s: string)
    ensures |s| >= 1 && AllDigits(s)
    ensures |s| > 1 ==> s[0] != '0'
  {
    if n < 10 then [DigitChar(n)] else NatToString(n / 10) + [DigitChar(n % 10)]
  }

  /** The number a run of decimal digits denotes. */
  function DigitsValue(s: string): nat
    requires AllDigits(s)
  {
    if s == [] then 0 else DigitsValue(s[..|s| - 1]) * 10 + DigitValue(s[|s| - 1])
  }

  /** Reading back the digits of n gives n. */
  lemma {:induction false} DigitsRoundTrip(n: nat)
    ensures DigitsValue(NatToString(n)) == n
  {
    if n >= 10 {
      DigitsRoundTrip(n / 10);
      var s := NatToString(n);
      assert s[..|s| - 1] == NatToString(n / 10);
    }
  }

  /** String(v) for an integer v: a minus sign for a negative one, then its digits. */
  function IntToString(v: int): (s: string)
    ensures |s| >= 1 && (s[0] == '-' || IsDigit(s[0])) && IsDigit(s[|s| - 1])
    ensures forall i :: 0 <= i < |s| ==> s[i] == '-' || IsDigit(s[i])
  {
    if v < 0 then "-" + NatToString(-v) else NatToString(v)
  }

  /** String.prototype.trim: white space removed from both ends. */
  function Trim(s: string): (t: string)
    ensures |t| <= |s|
    ensures t != [] ==> !IsSpace(t[0]) && !IsSpace(t[|t| - 1])
    decreases |s|
  {
    if s == [] then s
    else if IsSpace(s[0]) then Trim(s[1..])
    else if IsSpace(s[|s| - 1]) then Trim(s[..|s| - 1])
    else s
  }

  /** Trim removes nothing from a string that neither starts nor ends with white space. */
  lemma TrimNoSpace(s: string)
    requires s != [] && !IsSpace(s[0]) && !IsSpace(s[|s| - 1])
    ensures Trim(s) == s
  {
  }

  /**
   * Number(s) where it yields an integer: the empty or all-blank string reads as 0, otherwise
   * an optional sign and one or more decimal digits, blanks around them ignored. Every other
   * string is None: NaN, but also the fractions and Infinity that Number accepts, and the
   * integer spellings "0x10", "0b11", "0o7" and "1e3" that Number reads as 16, 3, 7 and 1000.
   */
  function ParseNumber(s: string): (r: Option<int>)
    ensures Trim(s) == [] ==> r == Some(0)
    ensures AllDigits(Trim(s)) ==> r == Some(DigitsValue(Trim(s)))
  {
    var t := Trim(s);
    if t == [] then Some(0)
    else if AllDigits(t) then Some(DigitsValue(t))
    else if |t| > 1 && t[0] == '-' && AllDigits(t[1..]) then Some(0 - DigitsValue(t[1..]))
    else if |t| > 1 && t[0] == '+' && AllDigits(t[1..]) then Some(DigitsValue(t[1..]))
    else None
  }

  /** Number on a run of digits. */
  lemma ParseDigits(t: string)
    requires t != [] && AllDigits(t)
    ensures ParseNumber(t) == Some(DigitsValue(t))
  {
    TrimNoSpace(t);
  }

  /** Number on a minus sign followed by a run of digits. */
  lemma ParseNegative(t: string)
    requires |t| > 1 && t[0] == '-' && AllDigits(t[1..])
    ensures ParseNumber(t) == Some(0 - DigitsValue(t[1..]))
  {
    TrimNoSpace(t);
    assert !IsDigit(t[0]);
  }

  /** Number(String(v)) == v for every integer v. */
  lemma ParseIntToString(v: int)
    ensures ParseNumber(IntToString(v)) == Some(v)
  {
    var t := IntToString(v);
    if v < 0 {
      var m: nat := -v;
      var n := NatToString(m);
      assert t == "-" + n;
      DropCons('-', n);
      ParseNegative(t);
      DigitsRoundTrip(m);
    } else {
      ParseDigits(t);
      DigitsRoundTrip(v);
    }
  }

  // ---------------------------------------------------------------------------------------
  // Sequence algebra, stated once for any element type
  //
  // Dafny proves each of these identities on its own. They are named so that the inductive
  // proofs of the codec, importer and round trip can call the one equation a step needs,
  // instead of asserting it (or a pointwise version of it) again at every use; they state
  // nothing about the program and are not part of the model.
  // ---------------------------------------------------------------------------------------

  lemma ConsAppend<T>(h: T, x: seq<T>, y: seq<T>)
    ensures [h] + (x + y) == ([h] + x) + y
  {
  }

  lemma HeadAppend<T>(x: seq<T>, y: seq<T>)
    requires |x| >= 1
    ensures (x + y)[0] == x[0] && (x + y)[1..] == x[1..] + y
  {
  }

  lemma ConsParts<T>(x: seq<T>)
    requires |x| >= 1
    ensures x == [x[0]] + x[1..]
  {
  }

  lemma DropCons<T>(h: T, x: seq<T>)
    ensures ([h] + x)[0] == h && ([h] + x)[1..] == x
  {
  }

  lemma AppendAssoc<T>(x: seq<T>, y: seq<T>, z: seq<T>)
    ensures (x + y) + z == x + (y + z)
  {
  }

  lemma SnocParts<T>(x: seq<T>)
    requires |x| >= 1
    ensures x == x[..|x| - 1] + [x[|x| - 1]]
  {
  }

  lemma TakeNext<T>(x: seq<T>, k: nat)
    requires k < |x|
    ensures x[..k + 1] == x[..k] + [x[k]]
  {
  }

  lemma TakeAll<T>(x: seq<T>)
    ensures x[..|x|] == x
  {
  }

  lemma TakeSnoc<T>(x: seq<T>, h: T)
    ensures (x + [h])[..|x|] == x && (x + [h])[|x|] == h
  {
  }

  // ---------------------------------------------------------------------------------------
  // split and join
  // ---------------------------------------------------------------------------------------

  /**
   * s.split(d) for a one-character separator d: the pieces between the separators, empty
   * pieces kept; at least one piece, none containing d.
   */
  function Split(s: string, d: char): (parts: seq<string>)
    ensures |parts| >= 1
  {
    if s == [] then [[]]
    else
      var rest := Split(s[1..], d);
      if s[0] == d then [[]] + rest else [[s[0]] + rest[0]] + rest[1..]
  }

  /** parts.join(sep). */
  function Join(parts: seq<string>, sep: string): string
  {
    if parts == [] then []
    else if |parts| == 1 then parts[0]
    else Join(parts[..|parts| - 1], sep) + sep + parts[|parts| - 1]
  }

  lemma JoinAppend(parts: seq<string>, sep: string, p: string)
    requires parts != []
    ensures Join(parts + [p], sep) == Join(parts, sep) + sep + p
  {
    assert (parts + [p])[..|parts|] == parts;
  }

  lemma JoinFront(p: string, parts: seq<string>, sep: string)
    requires parts != []
    ensures Join([p] + parts, sep) == p + sep + Join(parts, sep)
    decreases |parts|
  {
    if |parts| > 1 {
      var last := parts[|parts| - 1];
      assert [p] + parts == ([p] + parts[..|parts| - 1]) + [last];
      JoinAppend([p] + parts[..|parts| - 1], sep, last);
      JoinFront(p, parts[..|parts| - 1], sep);
      JoinAppend(parts[..|parts| - 1], sep, last);
      assert parts[..|parts| - 1] + [last] == parts;
    } else {
      assert [p] + parts == [p, parts[0]];
    }
  }

  /** Prepending a character to the first piece prepends it to the joined string. */
  lemma JoinPrepend(c: char, parts: seq<string>, sep: string)
    requires parts != []
    ensures Join([[c] + parts[0]] + parts[1..], sep) == [c] + Join(parts, sep)
  {
    var p, rest := parts[0], parts[1..];
    if rest == [] {
      assert [[c] + p] + rest == [[c] + p];
      assert parts == [p];
    } else {
      JoinFront([c] + p, rest, sep);
      JoinFront(p, rest, sep);
      ConsParts(parts);
      AppendAssoc([c], p, sep);
      AppendAssoc([c] + p, sep, Join(rest, sep));
      AppendAssoc([c], p + sep, Join(rest, sep));
      AppendAssoc(p, sep, Join(rest, sep));
    }
  }

  /** Joining the pieces of a split with the separator gives back the string. */
  lemma {:induction false} SplitJoin(s: string, d: char)
    ensures Join(Split(s, d), [d]) == s
  {
    if s != [] {
      SplitJoin(s[1..], d);
      var rest := Split(s[1..], d);
      ConsParts(s);
      if s[0] == d {
        JoinFront([], rest, [d]);
      } else {
        JoinPrepend(s[0], rest, [d]);
      }
    }
  }

  /** A string without the separator splits into itself alone. */
  lemma {:induction false} SplitNone(s: string, d: char)
    requires d !in s
    ensures Split(s, d) == [s]
  {
    if s != [] {
      SplitNone(s[1..], d);
      assert [s[0]] + s[1..] == s;
    }
  }

  /** Split of a string with a known first character. */
  lemma SplitCons(c: char, s: string, d: char)
    ensures Split([c] + s, d) ==
      if c == d then [[]] + Split(s, d) else [[c] + Split(s, d)[0]] + Split(s, d)[1..]
  {
    DropCons(c, s);
  }

  /** Splitting at a separator splits the two sides separately. */
  lemma {:induction false} SplitAt(a: string, d: char, b: string)
    ensures Split(a + [d] + b, d) == Split(a, d) + Split(b, d)
  {
    if a == [] {
      assert a + [d] + b == [d] + b;
      SplitCons(d, b, d);
    } else {
      var rest := a[1..];
      ConsParts(a);
      AppendAssoc([a[0]] + rest, [d], b);
      AppendAssoc([a[0]], rest, [d] + b);
      AppendAssoc(rest, [d], b);
      SplitAt(rest, d, b);
      SplitAtStep(a[0], rest, d, b);
    }
  }

  lemma SplitAtStep(c: char, rest: string, d: char, b: string)
    requires Split(rest + [d] + b, d) == Split(rest, d) + Split(b, d)
    ensures Split([c] + (rest + [d] + b), d) == Split([c] + rest, d) + Split(b, d)
  {
    SplitCons(c, rest + [d] + b, d);
    SplitCons(c, rest, d);
    var x, y := Split(rest, d), Split(b, d);
    if c == d {
      ConsAppend([], x, y);
    } else {
      HeadAppend(x, y);
      ConsAppend([c] + x[0], x[1..], y);
    }
  }

  /** The pieces that are not empty, in order: .filter((s) => s). */
  function NonEmpty(parts: seq<string>): (r: seq<string>)
    ensures |r| <= |parts|
    ensures forall i :: 0 <= i < |r| ==> r[i] != []
  {
    if parts == [] then []
    else if parts[0] == [] then NonEmpty(parts[1..])
    else [parts[0]] + NonEmpty(parts[1..])
  }

  lemma {:induction false} NonEmptyAppend(a: seq<string>, b: seq<string>)
    ensures NonEmpty(a + b) == NonEmpty(a) + NonEmpty(b)
  {
    if a != [] {
      NonEmptyAppend(a[1..], b);
      assert (a + b)[1..] == a[1..] + b;
    } else {
      assert a + b == b;
    }
  }
}
