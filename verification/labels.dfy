/**
 The names the letter-table extractor (IS-N3/main.py) writes: cell file
 names, row labels, CSV headers and CSV lines. Strings follow Python's
 `str.split` and `str.join` with a one-character separator; the feature
 values themselves are opaque strings supplied by the caller.
 */
module Labels {
  import opened Geometry

  /** Python's `s.split(c)`: the pieces between occurrences of `c`, always
      at least one. */
  function Split(s: string, c: char): (r: seq<string>)
    ensures |r| >= 1
  {
    if |s| == 0 then [""]
    else if s[0] == c then [""] + Split(s[1..], c)
    else
      var t := Split(s[1..], c);
      [[s[0]] + t[0]] + t[1..]
  }

  /** Python's `c.join(parts)`. */
  function Join(parts: seq<string>, c: char): string {
    if |parts| == 0 then ""
    else if |parts| == 1 then parts[0]
    else parts[0] + [c] + Join(parts[1..], c)
  }

  /** Joining the pieces of a split gives the string back. */
  lemma {:induction false} JoinSplit(s: string, c: char)
    ensures Join(Split(s, c), c) == s
  {
    if |s| > 0 {
      JoinSplit(s[1..], c);
      var t := Split(s[1..], c);
      if s[0] == c {
        assert s == [c] + s[1..];
      } else if |t| == 1 {
        assert s == [s[0]] + s[1..];
      } else {
        var r := Split(s, c);
        assert r[1..] == t[1..];
        assert Join(t, c) == t[0] + [c] + Join(t[1..], c);
        assert s == [s[0]] + s[1..];
      }
    }
  }

  /** A string without the separator is a single piece. */
  lemma {:induction false} SplitNoSep(s: string, c: char)
    requires c !in s
    ensures Split(s, c) == [s]
  {
    if |s| > 0 {
      SplitNoSep(s[1..], c);
      assert s == [s[0]] + s[1..];
    }
  }

  /** Splitting a string that starts with x: a separator opens an empty
      first piece, any other character joins the first piece. */
  lemma SplitCons(x: char, s: string, c: char)
    ensures Split([x] + s, c) == if x == c then [""] + Split(s, c)
                                 else [[x] + Split(s, c)[0]] + Split(s, c)[1..]
  {
    assert ([x] + s)[1..] == s;
  }

  /** Splitting at an occurrence of the separator splits the pieces. */
  lemma {:induction false} SplitAppend(a: string, b: string, c: char)
    ensures Split(a + [c] + b, c) == Split(a, c) + Split(b, c)
  {
    if |a| == 0 {
      assert a + [c] + b == [c] + b;
      SplitCons(c, b, c);
    } else {
      var rest := a[1..];
      SplitAppend(rest, b, c);
      assert a + [c] + b == [a[0]] + (rest + [c] + b);
      assert a == [a[0]] + rest;
      SplitAppendStep(a[0], Split(rest, c), Split(b, c), rest + [c] + b, rest, c);
    }
  }

  /** One character in front of both sides of `SplitAppend`. */
  lemma SplitAppendStep(x: char, t: seq<string>, u: seq<string>, s: string, rest: string, c: char)
    requires Split(rest, c) == t && Split(s, c) == t + u
    ensures Split([x] + s, c) == Split([x] + rest, c) + u
  {
    if x == c {
      SplitCons(x, s, c);
      SplitCons(x, rest, c);
      assert [""] + (t + u) == ([""] + t) + u;
    } else {
      JoinFirstPiece(x, t, u, s, rest, c);
    }
  }

  /** The non-separator case of `SplitAppendStep`. */
  lemma JoinFirstPiece(x: char, t: seq<string>, u: seq<string>, s: string, rest: string, c: char)
    requires x != c && Split(rest, c) == t && Split(s, c) == t + u
    ensures Split([x] + s, c) == Split([x] + rest, c) + u
  {
    SplitCons(x, s, c);
    SplitCons(x, rest, c);
    var head := [x] + t[0];
    assert Split([x] + s, c) == [head] + (t + u)[1..];
    assert (t + u)[1..] == t[1..] + u;
    assert [head] + (t[1..] + u) == ([head] + t[1..]) + u;
  }

  /** Splitting joined pieces that do not contain the separator gives the
      pieces back. */
  lemma {:induction false} SplitJoin(parts: seq<string>, c: char)
    requires |parts| >= 1
    requires forall k :: 0 <= k < |parts| ==> c !in parts[k]
    ensures Split(Join(parts, c), c) == parts
    decreases |parts|
  {
    SplitNoSep(parts[0], c);
    if |parts| > 1 {
      SplitJoin(parts[1..], c);
      SplitAppend(parts[0], Join(parts[1..], c), c);
      assert parts == [parts[0]] + parts[1..];
    }
  }

  /** Decimal digit d. */
  function Digit(d: int): (ch: char)
    requires 0 <= d < 10
    ensures '0' <= ch <= '9'
  {
    (48 + d) as char
  }

  /** `str(n)` for a natural number. */
  function NatToString(n: nat): (s: string)
    ensures |s| >= 1
    ensures forall k :: 0 <= k < |s| ==> '0' <= s[k] <= '9'
  {
    if n < 10 then [Digit(n)] else NatToString(n / 10) + [Digit(n % 10)]
  }

  /** The value of a string of decimal digits. */
  function ParseNat(s: string): int {
    if |s| == 0 then 0 else ParseNat(s[..|s| - 1]) * 10 + (s[|s| - 1] as int - 48)
  }

  /** Reading a number back from its decimal text gives the number. */
  lemma {:induction false} ParseNatToString(n: nat)
    ensures ParseNat(NatToString(n)) == n
  {
    if n >= 10 {
      ParseNatToString(n / 10);
      var s := NatToString(n);
      assert s[..|s| - 1] == NatToString(n / 10);
    }
  }

  /** Different numbers have different decimal texts. */
  lemma NatToStringInjective(a: nat, b: nat)
    requires NatToString(a) == NatToString(b)
    ensures a == b
  {
    ParseNatToString(a);
    ParseNatToString(b);
  }

  /** The letters of the table, one per column (lines 301-302); `^` marks
      the caron letters. */
  const Abeceda: seq<string> := ["A", "B", "C", "C^", "D", "E", "F", "G", "H", "I", "J", "K", "L",
                                 "M", "N", "O", "P", "R", "S", "S^", "T", "U", "V", "Z", "Z^"]

  /** No letter contains a dot or an underscore, and there is one letter
      per column of the table. */
  lemma AbecedaLettersPlain()
    ensures |Abeceda| == LetterColumns
    ensures forall k :: 0 <= k < |Abeceda| ==> '.' !in Abeceda[k] && '_' !in Abeceda[k]
  {
  }

  /** The outcome of a Python list index. */
  datatype Indexed<T> = Found(value: T) | IndexError

  /** `abeceda[i]`, with Python's negative indices counting from the end. */
  function LetterAt(i: int): (r: Indexed<string>)
    ensures r.Found? <==> -|Abeceda| <= i < |Abeceda|
    ensures 0 <= i < |Abeceda| ==> r == Found(Abeceda[i])
  {
    if 0 <= i < |Abeceda| then Found(Abeceda[i])
    else if -|Abeceda| <= i < 0 then Found(Abeceda[|Abeceda| + i])
    else IndexError
  }

  /** The row label `f"{font_label}_{abeceda[i]}"` (line 312). */
  function RowLabel(font: string, letter: string): string {
    font + "_" + letter
  }

  /** The cell file name `f"{font_label}_{abeceda[i]}_{j}.png"`
      (line 306). */
  function CellFileName(font: string, letter: string, j: nat): string {
    RowLabel(font, letter) + "_" + NatToString(j) + ".png"
  }

  function DropLast<T>(s: seq<T>): seq<T>
    requires |s| >= 1
  {
    s[..|s| - 1]
  }

  /** The label recovered from a saved cell file (line 363):
      `"_".join(name.split(".")[0].split("_")[:-1])`. */
  function LabelFromFileName(name: string): string {
    Join(DropLast(Split(Split(name, '.')[0], '_')), '_')
  }

  /** The label recovered from a saved cell's file name is the row label
      written for that cell, whatever underscores the font or letter
      hold, as long as neither holds a dot. */
  lemma LabelRoundTrip(font: string, letter: string, j: nat)
    requires '.' !in font && '.' !in letter
    ensures LabelFromFileName(CellFileName(font, letter, j)) == RowLabel(font, letter)
  {
    var rowLabel, digits := RowLabel(font, letter), NatToString(j);
    var stem := rowLabel + "_" + digits;
    assert CellFileName(font, letter, j) == stem + ['.'] + "png";
    SplitAppend(stem, "png", '.');
    assert '.' !in stem by {
      forall k | 0 <= k < |stem|
        ensures stem[k] != '.'
      {
        if k >= |rowLabel| + 1 {
          assert stem[k] == digits[k - |rowLabel| - 1];
        }
      }
    }
    SplitNoSep(stem, '.');
    assert stem == rowLabel + ['_'] + digits;
    SplitAppend(rowLabel, digits, '_');
    assert '_' !in digits by {
      forall k | 0 <= k < |digits|
        ensures digits[k] != '_'
      {
      }
    }
    SplitNoSep(digits, '_');
    assert DropLast(Split(stem, '_')) == Split(rowLabel, '_');
    JoinSplit(rowLabel, '_');
  }

  /** The row labels `extract_features_from_cells` writes for its cells,
      or the IndexError a column tag outside the letters raises. */
  function CellLabels(font: string, cells: seq<LineCell>): (r: Indexed<seq<string>>)
    ensures r.Found? <==> forall k :: 0 <= k < |cells| ==> LetterAt(cells[k].i).Found?
    ensures r.Found? ==> |r.value| == |cells|
  {
    if |cells| == 0 then Found([])
    else
      match LetterAt(cells[0].i)
      case IndexError => IndexError
      case Found(letter) =>
        match CellLabels(font, cells[1..])
        case IndexError => IndexError
        case Found(rest) => Found([RowLabel(font, letter)] + rest)
  }

  /** Entry k of the labels names cell k's letter. */
  lemma {:induction false} CellLabelsAt(font: string, cells: seq<LineCell>, k: int)
    requires CellLabels(font, cells).Found? && 0 <= k < |cells|
    ensures CellLabels(font, cells).value[k] == RowLabel(font, LetterAt(cells[k].i).value)
  {
    if k > 0 {
      CellLabelsAt(font, cells[1..], k - 1);
    }
  }

  /** Cells cut from a table that passed the size checks all get a label:
      their column tags index the letters directly. */
  lemma CheckedCellsLabelled(font: string, xs: seq<int>, ys: seq<int>, padding: int)
    requires ChecksPass(CellsFromLines(xs, ys, padding))
    ensures var cells := CellsFromLines(xs, ys, padding);
            && CellLabels(font, cells).Found?
            && forall k :: 0 <= k < |cells| ==>
                 0 <= cells[k].i < |Abeceda| && CellLabels(font, cells).value[k] == RowLabel(font, Abeceda[cells[k].i])
  {
    var cells := CellsFromLines(xs, ys, padding);
    ChecksPassExactly(xs, ys, padding);
    AbecedaLettersPlain();
    forall k | 0 <= k < |cells|
      ensures 0 <= cells[k].i < |Abeceda| && CellLabels(font, cells).value[k] == RowLabel(font, Abeceda[cells[k].i])
    {
      CellLabelsAt(font, cells, k);
    }
  }

  /** The header field `f"quadrant_{i}_{j}"`. */
  function QuadrantName(i: nat, j: nat): string {
    "quadrant_" + NatToString(i) + "_" + NatToString(j)
  }

  /** `QuadrantName` over the integers, as the comprehension uses it. */
  function QuadrantField(i: int, j: int): string
    requires 0 <= i && 0 <= j
  {
    QuadrantName(i, j)
  }

  /** The header of a features file: `letter_type` and then one quadrant
      name per quadrant, i outer and j inner (lines 240-247 and 329). */
  function Header(widthDiv: int, heightDiv: int): (r: seq<string>)
    ensures |r| == 1 + if heightDiv > 0 && widthDiv > 0 then heightDiv * widthDiv else 0
    ensures r[0] == "letter_type"
  {
    ["letter_type"] + Nested(heightDiv, widthDiv, QuadrantField)
  }

  /** Header field k + 1 names quadrant (k / widthDiv, k % widthDiv). */
  lemma HeaderAt(widthDiv: int, heightDiv: int, k: int)
    requires 0 <= k < |Header(widthDiv, heightDiv)| - 1
    ensures 0 <= k / widthDiv < heightDiv && 0 <= k % widthDiv < widthDiv
    ensures Header(widthDiv, heightDiv)[k + 1] == QuadrantName(k / widthDiv, k % widthDiv)
  {
    NestedIndex(heightDiv, widthDiv, QuadrantField, k);
  }

  /** The quadrant names can be read back. */
  lemma QuadrantNameParts(i: nat, j: nat)
    ensures Split(QuadrantName(i, j), '_') == ["quadrant", NatToString(i), NatToString(j)]
  {
    var a, b := NatToString(i), NatToString(j);
    DigitsHaveNoUnderscore(a);
    DigitsHaveNoUnderscore(b);
    var parts := ["quadrant", a, b];
    assert Join(parts, '_') == QuadrantName(i, j) by {
      assert parts[1..] == [a, b];
      assert [a, b][1..] == [b];
      assert Join([a, b], '_') == a + ['_'] + b;
      assert Join(parts, '_') == "quadrant" + ['_'] + (a + ['_'] + b);
    }
    SplitJoin(parts, '_');
  }

  /** A decimal numeral contains no underscore. */
  lemma DigitsHaveNoUnderscore(s: string)
    requires forall k :: 0 <= k < |s| ==> '0' <= s[k] <= '9'
    ensures '_' !in s
  {
    forall k | 0 <= k < |s|
      ensures s[k] != '_'
    {
    }
  }

  /** A quadrant name determines its quadrant: the two numbers read back
      from it are the row and the column. */
  lemma QuadrantNameDecodes(i: nat, j: nat)
    ensures |Split(QuadrantName(i, j), '_')| == 3
    ensures ParseNat(Split(QuadrantName(i, j), '_')[1]) == i
    ensures ParseNat(Split(QuadrantName(i, j), '_')[2]) == j
  {
    QuadrantNameParts(i, j);
    ParseNatToString(i);
    ParseNatToString(j);
  }

  /** No two header fields are equal: every column of the CSV is named
      once. */
  lemma HeaderDistinct(widthDiv: int, heightDiv: int, k: int, l: int)
    requires 0 <= k < l < |Header(widthDiv, heightDiv)|
    ensures Header(widthDiv, heightDiv)[k] != Header(widthDiv, heightDiv)[l]
  {
    var hd := Header(widthDiv, heightDiv);
    HeaderAt(widthDiv, heightDiv, l - 1);
    var i2, j2 := (l - 1) / widthDiv, (l - 1) % widthDiv;
    if k == 0 {
      assert hd[l][0] == 'q' && hd[k][0] == 'l';
    } else {
      HeaderAt(widthDiv, heightDiv, k - 1);
      var i1, j1 := (k - 1) / widthDiv, (k - 1) % widthDiv;
      DivModApart(k - 1, l - 1, widthDiv);
      QuadrantNameDecodes(i1, j1);
      QuadrantNameDecodes(i2, j2);
    }
  }

  /** The header as `process_all_fonts` builds it, appending in two nested
      loops; it equals the comprehension of
      `extract_features_from_saved_cells`. */
  method BuildHeader(widthDiv: int, heightDiv: int) returns (header: seq<string>)
    ensures header == Header(widthDiv, heightDiv)
  {
    header := ["letter_type"];
    var i := 0;
    while i < heightDiv
      invariant 0 <= i <= if heightDiv > 0 then heightDiv else 0
      invariant header == ["letter_type"] + Nested(i, widthDiv, QuadrantField)
    {
      var row := BuildRow(i, widthDiv);
      if widthDiv > 0 {
        assert row == seq(widthDiv, j requires 0 <= j < widthDiv => QuadrantField(i, j));
      }
      header := header + row;
      i := i + 1;
    }
  }

  /** The inner loop of the header: the names of row i's quadrants. */
  method BuildRow(i: nat, widthDiv: int) returns (row: seq<string>)
    ensures |row| == if widthDiv > 0 then widthDiv else 0
    ensures forall j :: 0 <= j < |row| ==> row[j] == QuadrantName(i, j)
  {
    row := [];
    var j := 0;
    while j < widthDiv
      invariant 0 <= j <= if widthDiv > 0 then widthDiv else 0
      invariant |row| == j && forall jj :: 0 <= jj < j ==> row[jj] == QuadrantName(i, jj)
    {
      row := row + [QuadrantName(i, j)];
      j := j + 1;
    }
  }

  /** A feature row: the label, then one feature per quadrant in the
      order `divide_into_quadrants` returns them (lines 312-316 and
      363-367). */
  function FeatureRow(rowLabel: string, quadrants: seq<Tile>, feature: Tile -> string): (r: seq<string>)
    ensures |r| == 1 + |quadrants| && r[0] == rowLabel
  {
    [rowLabel] + seq(|quadrants|, k requires 0 <= k < |quadrants| => feature(quadrants[k]))
  }

  /** Every feature row lines up with the header: the same number of
      fields, and field k + 1 holds the feature of the quadrant the
      header's field k + 1 names. */
  lemma RowMatchesHeader(h: nat, w: nat, widthDiv: int, heightDiv: int, rowLabel: string, feature: Tile -> string)
    requires Quadrants(h, w, widthDiv, heightDiv).Ok?
    ensures var qs := Quadrants(h, w, widthDiv, heightDiv).value;
            && |FeatureRow(rowLabel, qs, feature)| == |Header(widthDiv, heightDiv)|
            && forall k :: 0 <= k < |qs| ==>
                 && 0 <= qs[k].row && 0 <= qs[k].col
                 && Header(widthDiv, heightDiv)[k + 1] == QuadrantName(qs[k].row, qs[k].col)
                 && FeatureRow(rowLabel, qs, feature)[k + 1] == feature(qs[k])
  {
    var qs := Quadrants(h, w, widthDiv, heightDiv).value;
    QuadrantsAreTableCells(h, w, widthDiv, heightDiv);
    forall k | 0 <= k < |qs|
      ensures 0 <= qs[k].row && 0 <= qs[k].col
      ensures Header(widthDiv, heightDiv)[k + 1] == QuadrantName(qs[k].row, qs[k].col)
    {
      SplitTableAt(h, w, heightDiv, widthDiv, k);
      HeaderAt(widthDiv, heightDiv, k);
    }
  }

  /** The (width, height) divisor pairs `process_single_image` hands to
      `extract_features_from_cells`, in order (lines 294-297): ten by seven,
      then 2, 3, 5, 10, 25 and 50 each way. */
  const ImagePasses: seq<(nat, nat)> := [(10, 7), (2, 2), (3, 3), (5, 5), (10, 10), (25, 25), (50, 50)]

  /** The row `extract_features_from_cells` writes for one cell image of
      h x w pixels split widthDiv by heightDiv (lines 310-316). */
  function PassRow(h: nat, w: nat, widthDiv: nat, heightDiv: nat, rowLabel: string, feature: Tile -> string): (r: seq<string>)
    requires widthDiv > 0 && heightDiv > 0
    ensures |r| == 1 + widthDiv * heightDiv && r[0] == rowLabel
  {
    FeatureRow(rowLabel, Quadrants(h, w, widthDiv, heightDiv).value, feature)
  }

  /** The rows `process_single_image` appends to the features file for one
      cell, as written: one per pass of `ImagePasses`. The divisors the
      file's header was built from are accepted and never used. */
  function ImageRowsAsWritten(h: nat, w: nat, widthDiv: int, heightDiv: int, rowLabel: string, feature: Tile -> string): (rows: seq<seq<string>>)
    ensures |rows| == |ImagePasses|
    ensures forall n :: 0 <= n < |rows| ==> |rows[n]| == 1 + ImagePasses[n].0 * ImagePasses[n].1 && rows[n][0] == rowLabel
  {
    seq(|ImagePasses|, n requires 0 <= n < |ImagePasses| => PassRow(h, w, ImagePasses[n].0, ImagePasses[n].1, rowLabel, feature))
  }

  /** With the default divisors (4 by 4) the header has 17 fields, but no
      row written under it has: the first has 71, the others 5, 10, 26,
      101, 626 and 2501. */
  lemma NoImageRowFitsDefaultHeader(h: nat, w: nat, rowLabel: string, feature: Tile -> string)
    ensures |Header(4, 4)| == 17
    ensures |ImageRowsAsWritten(h, w, 4, 4, rowLabel, feature)[0]| == 71
    ensures forall n :: 0 <= n < |ImagePasses| ==> |ImageRowsAsWritten(h, w, 4, 4, rowLabel, feature)[n]| != |Header(4, 4)|
  {
  }

  /** The row for one cell with the divisors passed through, so that it is
      cut the way the header was built; zero divisors raise, as
      `divide_into_quadrants` does. */
  function ImageRow(h: nat, w: nat, widthDiv: int, heightDiv: int, rowLabel: string, feature: Tile -> string): (r: Divided<seq<string>>)
    ensures r.ZeroDivisionError? <==> widthDiv == 0 || heightDiv == 0
    ensures r.Ok? ==> |r.value| == |Header(widthDiv, heightDiv)| && r.value[0] == rowLabel
  {
    match Quadrants(h, w, widthDiv, heightDiv)
    case Ok(qs) =>
      RowMatchesHeader(h, w, widthDiv, heightDiv, rowLabel, feature);
      Ok(FeatureRow(rowLabel, qs, feature))
    case ZeroDivisionError => ZeroDivisionError
  }

  /** Every row the corrected image pass writes lines up with the header:
      field k + 1 holds the feature of the quadrant header field k + 1
      names. */
  lemma ImageRowMatchesHeader(h: nat, w: nat, widthDiv: int, heightDiv: int, rowLabel: string, feature: Tile -> string)
    requires ImageRow(h, w, widthDiv, heightDiv, rowLabel, feature).Ok?
    ensures var row := ImageRow(h, w, widthDiv, heightDiv, rowLabel, feature).value;
            var qs := Quadrants(h, w, widthDiv, heightDiv).value;
            && |row| == |Header(widthDiv, heightDiv)| == 1 + |qs|
            && forall k :: 0 <= k < |qs| ==>
                 && 0 <= qs[k].row && 0 <= qs[k].col
                 && Header(widthDiv, heightDiv)[k + 1] == QuadrantName(qs[k].row, qs[k].col)
                 && row[k + 1] == feature(qs[k])
  {
    RowMatchesHeader(h, w, widthDiv, heightDiv, rowLabel, feature);
  }

  /** A CSV line without its newline: the fields joined by commas. */
  function CsvLine(fields: seq<string>): string {
    Join(fields, ',')
  }

  /** A line read back by splitting at commas gives the fields, as long
      as no field holds a comma. */
  lemma CsvRoundTrip(fields: seq<string>)
    requires |fields| >= 1
    requires forall k :: 0 <= k < |fields| ==> ',' !in fields[k]
    ensures Split(CsvLine(fields), ',') == fields
  {
    SplitJoin(fields, ',');
  }
}
