/**
 * The equation amendment modules of src/shared/amendment-modules.ts: Plus
 * Minus, Align (with its notation fix-up loop) and Transpose Matrix for
 * matrices in the linear format of the Word equation editor.
 */
module AmendmentEquations {
  import opened Wrappers
  import opened JsStrings

  // ---------------------------------------------------------------------
  // Plus Minus
  // ---------------------------------------------------------------------

  /** The branch where '±' is '+' and '∓' is '-'. */
  function PlusBranch(text: string): string {
    ReplaceAll(ReplaceAll(text, "±", "+"), "∓", "-")
  }

  /** The branch where '±' is '-' and '∓' is '+'. */
  function MinusBranch(text: string): string {
    ReplaceAll(ReplaceAll(text, "±", "-"), "∓", "+")
  }

  /** "Plus Minus": the minus branch as the real part and the plus branch as the imaginary part. */
  function PlusMinus(text: string): string {
    "(" + MinusBranch(text) + ") + i*(" + PlusBranch(text) + ")"
  }

  /**
   * The plus branch turns each '±' into '+' and each '∓' into '-', the
   * minus branch the other way round; both keep every other character and
   * the length, and neither has a sign left.
   */
  lemma PlusMinusBranches(text: string)
    ensures |PlusBranch(text)| == |text| && |MinusBranch(text)| == |text|
    ensures forall i :: 0 <= i < |text| ==>
              PlusBranch(text)[i] == if text[i] == '±' then '+' else if text[i] == '∓' then '-' else text[i]
    ensures forall i :: 0 <= i < |text| ==>
              MinusBranch(text)[i] == if text[i] == '±' then '-' else if text[i] == '∓' then '+' else text[i]
    ensures '±' !in PlusBranch(text) && '∓' !in PlusBranch(text)
    ensures '±' !in MinusBranch(text) && '∓' !in MinusBranch(text)
  {
    ReplaceCharByChar(text, '±', '+');
    ReplaceCharByChar(ReplaceAll(text, "±", "+"), '∓', '-');
    ReplaceCharByChar(text, '±', '-');
    ReplaceCharByChar(ReplaceAll(text, "±", "-"), '∓', '+');
  }

  /** Without a sign both parts are the input itself. */
  lemma PlusMinusWithoutSigns(text: string)
    requires '±' !in text && '∓' !in text
    ensures PlusMinus(text) == "(" + text + ") + i*(" + text + ")"
  {
    PlusMinusBranches(text);
    assert PlusBranch(text) == text;
    assert MinusBranch(text) == text;
  }

  // ---------------------------------------------------------------------
  // Align
  // ---------------------------------------------------------------------

  /** The replacements of `fixUpBadNotation`, applied in this order. */
  const NotationFixes: seq<(string, string)> := [("\\{", "\\lbrace"), ("\\}", "\\rbrace"), ("\\emsp", "\\quad")]

  /** The text after replacing every occurrence of each pattern in `fixes`, one pattern after the other. */
  function ApplyFixes(fixes: seq<(string, string)>, s: string): string
    requires forall k :: 0 <= k < |fixes| ==> |fixes[k].0| > 0
    decreases |fixes|
  {
    if |fixes| == 0 then s
    else
      var last := fixes[|fixes| - 1];
      ReplaceAll(ApplyFixes(fixes[..|fixes| - 1], s), last.0, last.1)
  }

  /** What `fixUpBadNotation` computes. */
  function FixedNotation(s: string): string {
    ApplyFixes(NotationFixes, s)
  }

  /** `fixUpBadNotation`: the loop over the replacement pairs, reassigning the string. */
  method FixUpBadNotation(s: string) returns (r: string)
    ensures r == FixedNotation(s)
  {
    r := s;
    var i := 0;
    while i < |NotationFixes|
      invariant 0 <= i <= |NotationFixes|
      invariant r == ApplyFixes(NotationFixes[..i], s)
    {
      assert NotationFixes[..i + 1][..i] == NotationFixes[..i];
      r := ReplaceAll(r, NotationFixes[i].0, NotationFixes[i].1);
      i := i + 1;
    }
    assert NotationFixes[..i] == NotationFixes;
  }

  /** A text without a backslash cannot hold a pattern that starts with one. */
  lemma NoBackslashNoPattern(s: string, pat: string)
    requires |pat| > 0 && pat[0] == '\\' && '\\' !in s
    ensures !Contains(s, pat)
  {
  }

  /** Fixes whose patterns all start with a backslash leave a text without a backslash unchanged. */
  lemma {:induction false} ApplyFixesWithoutBackslash(fixes: seq<(string, string)>, s: string)
    requires forall k :: 0 <= k < |fixes| ==> |fixes[k].0| > 0 && fixes[k].0[0] == '\\'
    requires '\\' !in s
    ensures ApplyFixes(fixes, s) == s
    decreases |fixes|
  {
    if |fixes| > 0 {
      var last := fixes[|fixes| - 1];
      ApplyFixesWithoutBackslash(fixes[..|fixes| - 1], s);
      NoBackslashNoPattern(s, last.0);
      ReplaceAllAbsent(s, last.0, last.1);
    }
  }

  /** The notation fix-up changes nothing in a line without a backslash. */
  lemma FixedNotationWithoutBackslash(s: string)
    requires '\\' !in s
    ensures FixedNotation(s) == s
  {
    ApplyFixesWithoutBackslash(NotationFixes, s);
  }

  /** The notation fix-up never introduces a newline. */
  lemma {:induction false} ApplyFixesNoNewline(fixes: seq<(string, string)>, s: string)
    requires forall k :: 0 <= k < |fixes| ==> |fixes[k].0| > 0 && '\n' !in fixes[k].1
    requires '\n' !in s
    ensures '\n' !in ApplyFixes(fixes, s)
    decreases |fixes|
  {
    if |fixes| > 0 {
      var last := fixes[|fixes| - 1];
      ApplyFixesNoNewline(fixes[..|fixes| - 1], s);
      if '\n' in ApplyFixes(fixes, s) {
        ReplaceAllChars(ApplyFixes(fixes[..|fixes| - 1], s), last.0, last.1, '\n');
      }
    }
  }

  /** The marker newlines are parked in before splitting. */
  const BigM: string := "\\bigm"

  /** The lines `align` splits its input into: newlines become the marker, then the text is split at the marker. */
  function AlignLines(text: string): seq<string> {
    Split(ReplaceAll(text, "\n", BigM), BigM)
  }

  /** One line of the aligned environment. */
  function AlignRow(s: string): string {
    "& " + FixedNotation(s) + " \\\\"
  }

  /** The rows of the aligned environment, one per line. */
  function AlignRows(lines: seq<string>): (r: seq<string>)
    ensures |r| == |lines|
  {
    seq(|lines|, i requires 0 <= i < |lines| => AlignRow(lines[i]))
  }

  /** "Align": each line becomes a row of an `aligned` environment in display math. */
  function Align(text: string): string {
    "$$\\begin{aligned}\n" + Join(AlignRows(AlignLines(text)), "\n") + "\n\\end{aligned}$$\n"
  }

  /** Parking newlines in the marker, one character at a time. */
  lemma ParkNewlineHead(t: string)
    requires |t| > 0
    ensures t[0] == '\n' ==> ReplaceAll(t, "\n", BigM) == BigM + ReplaceAll(t[1..], "\n", BigM)
    ensures t[0] != '\n' ==> ReplaceAll(t, "\n", BigM) == [t[0]] + ReplaceAll(t[1..], "\n", BigM)
  {
    assert t == [t[0]] + t[1..];
    if t[0] == '\n' {
      ReplaceAllAtPattern("\n", t[1..], BigM);
    } else {
      ReplaceAllKeepsHead(t[0], t[1..], "\n", BigM);
    }
  }

  /** A prefix without a backslash of the parked text was already a prefix of the text. */
  lemma {:induction false} ParkedPrefix(t: string, w: string)
    requires '\\' !in w
    requires StartsWith(ReplaceAll(t, "\n", BigM), w)
    ensures StartsWith(t, w)
    decreases |t|
  {
    var u := ReplaceAll(t, "\n", BigM);
    if |w| > 0 && |t| > 0 {
      assert u[..|w|][0] == w[0];
      ParkNewlineHead(t);
      if t[0] != '\n' {
        assert u[1..] == ReplaceAll(t[1..], "\n", BigM);
        assert u[1..][..|w| - 1] == w[1..];
        ParkedPrefix(t[1..], w[1..]);
        assert t[..|w|] == [t[0]] + t[1..][..|w| - 1];
      }
    }
  }

  /** A text that starts with a backslash and starts with the marker once parked already contained the marker. */
  lemma MarkerAtHead(t: string)
    requires |t| > 0 && t[0] == '\\'
    requires StartsWith(ReplaceAll(t, "\n", BigM), BigM)
    ensures Contains(t, BigM)
  {
    ParkNewlineHead(t);
    var y := ReplaceAll(t[1..], "\n", BigM);
    assert ([t[0]] + y)[..5] == BigM;
    assert y[..4] == BigM[1..];
    ParkedPrefix(t[1..], BigM[1..]);
    assert t[..5] == [t[0]] + t[1..][..4];
    assert OccursAt(t, BigM, 0);
  }

  /** A text that starts with a backslash but does not contain the marker does not start with it once parked. */
  lemma MarkerNotAtHead(t: string)
    requires |t| > 0 && t[0] == '\\' && !Contains(t, BigM)
    ensures !StartsWith(ReplaceAll(t, "\n", BigM), BigM)
  {
    if StartsWith(ReplaceAll(t, "\n", BigM), BigM) {
      MarkerAtHead(t);
    }
  }

  /** On a text that does not itself contain the marker, the lines of `align` are the lines of the text. */
  lemma {:induction false} AlignLinesAreLines(text: string)
    requires !Contains(text, BigM)
    ensures AlignLines(text) == Split(text, "\n")
    decreases |text|
  {
    if |text| > 0 {
      var rest := text[1..];
      if Contains(rest, BigM) { ContainsInTail(text, BigM, 1); }
      AlignLinesAreLines(rest);
      ParkNewlineHead(text);
      var y := ReplaceAll(rest, "\n", BigM);
      if text[0] == '\n' {
        SplitAtSep(BigM, y);
        assert text == "\n" + rest;
        SplitAtSep("\n", rest);
      } else {
        if text[0] == '\\' {
          MarkerNotAtHead(text);
          SplitSkipsHead([text[0]] + y, BigM);
          assert ([text[0]] + y)[1..] == y;
        } else {
          SplitKeepsHead(text[0], y, BigM);
        }
        assert text == [text[0]] + rest;
        SplitKeepsHead(text[0], rest, "\n");
      }
    }
  }

  /**
   * Align writes one row "& <fixed line> \\" per input line, in order,
   * between the opening and the closing of the environment, when the input
   * does not itself contain the marker.
   */
  lemma AlignOneRowPerLine(text: string)
    requires !Contains(text, BigM)
    ensures Align(text) == "$$\\begin{aligned}\n" + Join(AlignRows(Split(text, "\n")), "\n") + "\n\\end{aligned}$$\n"
    ensures Split(Join(AlignRows(Split(text, "\n")), "\n"), "\n") == AlignRows(Split(text, "\n"))
  {
    AlignLinesAreLines(text);
    var lines := Split(text, "\n");
    var rows := AlignRows(lines);
    SplitCharPieces(text, '\n');
    forall k | 0 <= k < |rows| ensures '\n' !in rows[k] {
      ApplyFixesNoNewline(NotationFixes, lines[k]);
    }
    SplitJoin(rows, '\n');
  }

  // ---------------------------------------------------------------------
  // Transpose Matrix
  // ---------------------------------------------------------------------

  /**
   * `transpose`: row i of the result holds element i of every row of `m`;
   * an element missing from a shorter row is `undefined` (None). There are
   * as many result rows as `m[0]` has elements.
   */
  function Transpose<T>(m: seq<seq<T>>): seq<seq<Option<T>>>
    requires |m| > 0
  {
    seq(|m[0]|, i requires 0 <= i < |m[0]| =>
      seq(|m|, j requires 0 <= j < |m| => if i < |m[j]| then Some(m[j][i]) else None))
  }

  /** The cells as `join` renders them: `undefined` as the empty string. */
  function Rendered(row: seq<Option<string>>): (r: seq<string>)
    ensures |r| == |row|
  {
    seq(|row|, j requires 0 <= j < |row| => row[j].GetOr(""))
  }

  /** The transpose of a grid of cells, as it is joined. */
  function TransposeCells(m: seq<seq<string>>): (r: seq<seq<string>>)
    requires |m| > 0
    ensures |r| == |m[0]|
  {
    var t := Transpose(m);
    seq(|t|, i requires 0 <= i < |t| => Rendered(t[i]))
  }

  /** Every row has the length of the first, and there is a first. */
  predicate Rectangular(m: seq<seq<string>>) {
    |m| > 0 && forall j :: 0 <= j < |m| ==> |m[j]| == |m[0]|
  }

  /** Cell (i, j) of the transpose is cell (j, i) of the grid, or "" where row j is too short. */
  lemma TransposeCellsEntries(m: seq<seq<string>>, i: nat, j: nat)
    requires |m| > 0 && i < |m[0]| && j < |m|
    ensures |TransposeCells(m)[i]| == |m|
    ensures TransposeCells(m)[i][j] == if i < |m[j]| then m[j][i] else ""
  {
  }

  /** Transposing a rectangular grid with at least one column twice gives it back. */
  lemma TransposeTwice(m: seq<seq<string>>)
    requires Rectangular(m) && |m[0]| > 0
    ensures Rectangular(TransposeCells(m))
    ensures TransposeCells(TransposeCells(m)) == m
  {
    var t := TransposeCells(m);
    forall i | 0 <= i < |t| ensures |t[i]| == |m| {
      TransposeCellsEntries(m, i, 0);
    }
    var tt := TransposeCells(t);
    assert |tt| == |m|;
    forall j | 0 <= j < |m| ensures tt[j] == m[j] {
      forall i | 0 <= i < |m[j]| ensures tt[j][i] == m[j][i] {
        TransposeCellsEntries(t, j, i);
        TransposeCellsEntries(m, i, j);
      }
    }
  }

  /** The text between the first '(' and the last ')'. */
  function MatrixText(text: string): string
    requires IndexOf(text, "(") >= 0 && LastIndexOf(text, ")") >= 0
  {
    Slice(text, IndexOf(text, "(") + 1, LastIndexOf(text, ")"))
  }

  /** The grid: rows split at '@', cells split at '&'. */
  function Grid(inner: string): (g: seq<seq<string>>)
    ensures |g| > 0
  {
    var rows := Split(inner, "@");
    seq(|rows|, i requires 0 <= i < |rows| => Split(rows[i], "&"))
  }

  /** The grid written back: cells joined with '&', rows with '@'. */
  function JoinGrid(g: seq<seq<string>>): string {
    Join(seq(|g|, i requires 0 <= i < |g| => Join(g[i], "&")), "@")
  }

  /** "Transpose Matrix" */
  function TransposeMatrix(text: string): string {
    var first := IndexOf(text, "(");
    var last := LastIndexOf(text, ")");
    if first == -1 || last == -1 then
      "Invalid input: " + IntToString(first) + ", " + IntToString(last) + " | " + text
    else
      "[■(" + JoinGrid(TransposeCells(Grid(MatrixText(text)))) + ")]"
  }

  /**
   * Without an opening or without a closing round bracket the result is the
   * message `Invalid input: first, last | text`, where `first` is the position
   * of the first '(' and `last` that of the last ')', each -1 when missing.
   */
  lemma TransposeMatrixInvalid(text: string)
    requires !Contains(text, "(") || !Contains(text, ")")
    ensures var first := IndexOf(text, "(");
            var last := LastIndexOf(text, ")");
            TransposeMatrix(text) == "Invalid input: " + IntToString(first) + ", " + IntToString(last) + " | " + text
    ensures var first := IndexOf(text, "(");
            (first == -1 <==> '(' !in text)
            && (first >= 0 ==> first < |text| && text[first] == '(' && '(' !in text[..first])
    ensures var last := LastIndexOf(text, ")");
            (last == -1 <==> ')' !in text)
            && (last >= 0 ==> last < |text| && text[last] == ')' && ')' !in text[last + 1..])
    ensures !Contains(text, "(") ==>
              TransposeMatrix(text) == "Invalid input: -1, " + IntToString(LastIndexOf(text, ")")) + " | " + text
    ensures !Contains(text, ")") ==>
              TransposeMatrix(text) == "Invalid input: " + IntToString(IndexOf(text, "(")) + ", -1 | " + text
  {
    var first := IndexOf(text, "(");
    var last := LastIndexOf(text, ")");
    ContainsChar(text, '(');
    ContainsChar(text, ')');
    if first >= 0 {
      assert text[first..first + 1] == "(";
      assert text[first] == '(';
      if '(' in text[..first] {
        var j :| 0 <= j < first && text[..first][j] == '(';
        assert text[j..j + 1] == "(";
        assert OccursAt(text, "(", j);
      }
    }
    if last >= 0 {
      assert text[last..last + 1] == ")";
      assert text[last] == ')';
      if ')' in text[last + 1..] {
        var j :| 0 <= j < |text[last + 1..]| && text[last + 1..][j] == ')';
        assert text[last + 1 + j..last + 2 + j] == ")";
        assert OccursAt(text, ")", last + 1 + j);
      }
    }
  }

  /** No cell of a grid holds '&' or '@', and every row has a cell. */
  lemma GridCells(inner: string)
    ensures forall i :: 0 <= i < |Grid(inner)| ==> |Grid(inner)[i]| > 0
    ensures forall i, k :: 0 <= i < |Grid(inner)| && 0 <= k < |Grid(inner)[i]| ==>
              '&' !in Grid(inner)[i][k] && '@' !in Grid(inner)[i][k]
  {
    var rows := Split(inner, "@");
    SplitCharPieces(inner, '@');
    forall i | 0 <= i < |rows| ensures forall k :: 0 <= k < |Grid(inner)[i]| ==> '&' !in Grid(inner)[i][k] && '@' !in Grid(inner)[i][k] {
      SplitCharPieces(rows[i], '&');
    }
  }

  /** The grid of a written-back grid is the grid itself, when no cell holds '&' or '@' and every row has a cell. */
  lemma GridOfJoinGrid(g: seq<seq<string>>)
    requires |g| > 0
    requires forall i :: 0 <= i < |g| ==> |g[i]| > 0
    requires forall i, k :: 0 <= i < |g| && 0 <= k < |g[i]| ==> '&' !in g[i][k] && '@' !in g[i][k]
    ensures Grid(JoinGrid(g)) == g
  {
    var rows := seq(|g|, i requires 0 <= i < |g| => Join(g[i], "&"));
    forall i | 0 <= i < |g| ensures '@' !in rows[i] {
      if '@' in rows[i] {
        JoinChars(g[i], "&", '@');
      }
    }
    SplitJoin(rows, '@');
    forall i | 0 <= i < |g| ensures Split(rows[i], "&") == g[i] {
      SplitJoin(g[i], '&');
    }
  }

  /** Writing back the grid of a text gives the text. */
  lemma JoinGridOfGrid(inner: string)
    ensures JoinGrid(Grid(inner)) == inner
  {
    var rows := Split(inner, "@");
    var g := Grid(inner);
    var back := seq(|g|, i requires 0 <= i < |g| => Join(g[i], "&"));
    forall i | 0 <= i < |rows| ensures back[i] == rows[i] {
      JoinSplit(rows[i], "&");
    }
    assert back == rows;
    JoinSplit(inner, "@");
  }

  /** The first '(' and the last ')' of a Transpose Matrix result enclose the written-back grid. */
  lemma ResultBrackets(body: string)
    ensures var r := "[■(" + body + ")]";
            IndexOf(r, "(") == 2 && LastIndexOf(r, ")") == |r| - 2 && MatrixText(r) == body
  {
    var r := "[■(" + body + ")]";
    assert r[0] == '[' && r[1] == '■' && r[2] == '(' && r[|r| - 2] == ')' && r[|r| - 1] == ']';
    assert r[2..3] == "(";
    assert OccursAt(r, "(", 2);
    assert r[0..1][0] == r[0] && r[1..2][0] == r[1];
    assert !OccursAt(r, "(", 0) && !OccursAt(r, "(", 1);
    assert r[|r| - 2..|r| - 1] == ")";
    assert OccursAt(r, ")", |r| - 2);
    assert r[|r| - 1..|r|][0] == r[|r| - 1];
    assert !OccursAt(r, ")", |r| - 1);
    assert r[3..|r| - 2] == body;
  }

  /**
   * For a matrix whose rows all have the same number of cells, transposing
   * twice gives back the matrix text, inside "[■(" and ")]".
   */
  lemma TransposeMatrixTwice(text: string)
    requires Contains(text, "(") && Contains(text, ")")
    requires Rectangular(Grid(MatrixText(text)))
    ensures TransposeMatrix(TransposeMatrix(text)) == "[■(" + MatrixText(text) + ")]"
  {
    var g := Grid(MatrixText(text));
    GridCells(MatrixText(text));
    var t := TransposeCells(g);
    TransposeTwice(g);
    forall i, k | 0 <= i < |t| && 0 <= k < |t[i]| ensures '&' !in t[i][k] && '@' !in t[i][k] {
      TransposeCellsEntries(g, i, k);
    }
    forall i | 0 <= i < |t| ensures |t[i]| > 0 {
      TransposeCellsEntries(g, i, 0);
    }
    GridOfJoinGrid(t);
    var once := "[■(" + JoinGrid(t) + ")]";
    assert TransposeMatrix(text) == once;
    ResultBrackets(JoinGrid(t));
    JoinGridOfGrid(MatrixText(text));
  }
}
