/**
 * The table amendment modules of src/shared/amendment-modules.ts: "To
 * Markdown Table" and "To LaTeX Table", which pad every CSV row to the
 * widest one and write one table line per row.
 */
module AmendmentTables {
  import opened JsStrings
  import opened AmendmentCsv

  /** `Math.max(...rows.map(r => r.length))`: the largest row width. */
  function MaxWidth(rows: seq<seq<string>>): (w: nat)
    ensures forall i :: 0 <= i < |rows| ==> |rows[i]| <= w
    ensures |rows| > 0 ==> exists i :: 0 <= i < |rows| && |rows[i]| == w
    decreases |rows|
  {
    if |rows| == 0 then 0
    else
      var init := rows[..|rows| - 1];
      var m := MaxWidth(init);
      assert forall i :: 0 <= i < |init| ==> init[i] == rows[i];
      if |rows[|rows| - 1]| > m then |rows[|rows| - 1]| else m
  }

  /** `row.push('')` until the row has `w` cells. */
  function Pad(row: seq<string>, w: nat): seq<string> {
    if |row| >= w then row else row + seq(w - |row|, _ => "")
  }

  /** Every line followed by a newline, in order. */
  function ConcatLines(ls: seq<string>): string
    decreases |ls|
  {
    if |ls| == 0 then "" else ConcatLines(ls[..|ls| - 1]) + ls[|ls| - 1] + "\n"
  }

  /**
   * The lines written for the first `n` rows: each row padded to `w` cells
   * and rendered, with the `rule` line right after the first row.
   */
  function TableLines(rows: seq<seq<string>>, w: nat, n: nat, render: seq<string> -> string, rule: string): seq<string>
    requires n <= |rows|
    decreases n
  {
    if n == 0 then []
    else TableLines(rows, w, n - 1, render, rule) + [render(Pad(rows[n - 1], w))] + (if n == 1 then [rule] else [])
  }

  /** A Markdown table line. */
  function MarkdownRow(cells: seq<string>): string {
    "| " + Join(cells, " | ") + " |"
  }

  /** The Markdown line under the header. */
  function MarkdownRule(w: nat): string {
    "| " + Repeat("--- |", w)
  }

  /** The Markdown table of a list of rows. */
  function MarkdownOf(arr: seq<seq<string>>): string {
    var w := MaxWidth(arr);
    ConcatLines(TableLines(arr, w, |arr|, MarkdownRow, MarkdownRule(w)))
  }

  /** "To Markdown Table" */
  function MarkdownTable(text: string): string {
    MarkdownOf(CsvToList(text))
  }

  /** A LaTeX tabular line. */
  function LaTeXRow(cells: seq<string>): string {
    Join(cells, " & ") + " \\\\"
  }

  /** The opening of the tabular environment, one centred column per cell. */
  function LaTeXBegin(w: nat): string {
    "\\begin{tabular}{" + Repeat("c ", w) + "}"
  }

  /** The LaTeX table of a list of rows. */
  function LaTeXOf(arr: seq<seq<string>>): string {
    var w := MaxWidth(arr);
    LaTeXBegin(w) + "\n" + ConcatLines(TableLines(arr, w, |arr|, LaTeXRow, "\\hline")) + "\\end{tabular}"
  }

  /** "To LaTeX Table" */
  function LaTeXTable(text: string): string {
    LaTeXOf(CsvToList(text))
  }

  /** The padding loop of both table modules. */
  method PadRow(row: seq<string>, w: nat) returns (padded: seq<string>)
    ensures padded == Pad(row, w)
  {
    padded := row;
    var j := |row|;
    assert row + seq(0, _ => "") == row;
    while j < w
      invariant |row| <= j && (|row| <= w ==> j <= w) && (|row| > w ==> j == |row|)
      invariant padded == row + seq(j - |row|, _ => "")
    {
      assert seq(j + 1 - |row|, _ => "") == seq(j - |row|, _ => "") + [""];
      padded := padded + [""];
      j := j + 1;
    }
  }

  /** The loop of `toMarkdownTable`: one line per row, and the rule after the first. */
  method MarkdownRows(arr: seq<seq<string>>) returns (table: string)
    ensures table == MarkdownOf(arr)
  {
    var maxLength := MaxWidth(arr);
    table := "";
    var i := 0;
    while i < |arr|
      invariant 0 <= i <= |arr|
      invariant table == ConcatLines(TableLines(arr, maxLength, i, MarkdownRow, MarkdownRule(maxLength)))
    {
      var row := PadRow(arr[i], maxLength);
      TableLinesStep(arr, maxLength, i, MarkdownRow, MarkdownRule(maxLength));
      assert table + "| " + Join(row, " | ") + " |" + "\n" == table + ("| " + Join(row, " | ") + " |") + "\n";
      table := table + "| " + Join(row, " | ") + " |\n";
      if i == 0 {
        assert table + "| " + Repeat("--- |", maxLength) + "\n" == table + ("| " + Repeat("--- |", maxLength)) + "\n";
        table := table + "| " + Repeat("--- |", maxLength) + "\n";
      }
      i := i + 1;
    }
  }

  /** `toMarkdownTable`: the CSV rows written as a Markdown table. */
  method ToMarkdownTable(text: string) returns (table: string)
    ensures table == MarkdownTable(text)
  {
    var arr := CsvToList(text);
    table := MarkdownRows(arr);
  }

  /** The loop of `toLaTeXTable`: the opening, one line per row and the rule after the first, the closing. */
  method LaTeXRows(arr: seq<seq<string>>) returns (table: string)
    ensures table == LaTeXOf(arr)
  {
    var maxLength := MaxWidth(arr);
    table := "\\begin{tabular}{" + Repeat("c ", maxLength) + "}\n";
    var i := 0;
    while i < |arr|
      invariant 0 <= i <= |arr|
      invariant table == LaTeXBegin(maxLength) + "\n" + ConcatLines(TableLines(arr, maxLength, i, LaTeXRow, "\\hline"))
    {
      var row := PadRow(arr[i], maxLength);
      TableLinesStep(arr, maxLength, i, LaTeXRow, "\\hline");
      assert table + Join(row, " & ") + " \\\\" + "\n" == table + (Join(row, " & ") + " \\\\") + "\n";
      table := table + Join(row, " & ") + " \\\\\n";
      if i == 0 {
        table := table + "\\hline\n";
      }
      i := i + 1;
    }
    table := table + "\\end{tabular}";
  }

  /** `toLaTeXTable`: the CSV rows written as a LaTeX tabular. */
  method ToLaTeXTable(text: string) returns (table: string)
    ensures table == LaTeXTable(text)
  {
    var arr := CsvToList(text);
    table := LaTeXRows(arr);
  }

  // ---------------------------------------------------------------------
  // Properties
  // ---------------------------------------------------------------------

  /** A padded row has exactly `w` cells when no row is wider: the row itself, then empty cells. */
  lemma PadWidth(row: seq<string>, w: nat)
    requires |row| <= w
    ensures |Pad(row, w)| == w
    ensures Pad(row, w)[..|row|] == row
    ensures forall k :: |row| <= k < w ==> Pad(row, w)[k] == ""
  {
  }

  /**
   * The table lines are: the first row, the rule, then every other row, in
   * order, each padded to `w` cells.
   */
  lemma {:induction false} TableLinesLayout(rows: seq<seq<string>>, w: nat, n: nat, render: seq<string> -> string, rule: string)
    requires 1 <= n <= |rows|
    ensures |TableLines(rows, w, n, render, rule)| == n + 1
    ensures TableLines(rows, w, n, render, rule)[0] == render(Pad(rows[0], w))
    ensures TableLines(rows, w, n, render, rule)[1] == rule
    ensures forall i :: 1 <= i < n ==> TableLines(rows, w, n, render, rule)[i + 1] == render(Pad(rows[i], w))
    decreases n
  {
    if n > 1 {
      TableLinesLayout(rows, w, n - 1, render, rule);
    } else {
      assert TableLines(rows, w, 0, render, rule) == [];
    }
  }

  /** Writing the lines of one more row appends that row's line, and the rule after the first row. */
  lemma TableLinesStep(rows: seq<seq<string>>, w: nat, n: nat, render: seq<string> -> string, rule: string)
    requires n < |rows|
    ensures ConcatLines(TableLines(rows, w, n + 1, render, rule)) ==
            ConcatLines(TableLines(rows, w, n, render, rule)) + render(Pad(rows[n], w)) + "\n" + (if n == 0 then rule + "\n" else "")
  {
    var before := TableLines(rows, w, n, render, rule);
    var line := render(Pad(rows[n], w));
    var ls := before + [line];
    assert ls[..|before|] == before;
    assert ConcatLines(ls) == ConcatLines(before) + line + "\n";
    if n == 0 {
      assert (ls + [rule])[..|ls|] == ls;
      assert ConcatLines(ls + [rule]) == ConcatLines(ls) + rule + "\n";
    } else {
      assert TableLines(rows, w, n + 1, render, rule) == ls;
    }
  }

  /** Lines written one after the other, read from the front. */
  lemma {:induction false} ConcatLinesFront(ls: seq<string>)
    requires |ls| > 0
    ensures ConcatLines(ls) == ls[0] + "\n" + ConcatLines(ls[1..])
    decreases |ls|
  {
    if |ls| > 1 {
      var n := |ls|;
      ConcatLinesFront(ls[..n - 1]);
      assert ls[..n - 1][1..] == ls[1..][..n - 2];
      assert ls[..n - 1][0] == ls[0];
    } else {
      assert ls[..0] == [];
      assert ls[1..] == [];
    }
  }

  /** Splitting written lines at newlines gives the lines back, then the pieces of what follows. */
  lemma {:induction false} SplitConcatLines(ls: seq<string>, t: string)
    requires forall k :: 0 <= k < |ls| ==> '\n' !in ls[k]
    ensures Split(ConcatLines(ls) + t, "\n") == ls + Split(t, "\n")
    decreases |ls|
  {
    if |ls| > 0 {
      ConcatLinesFront(ls);
      SplitConcatLines(ls[1..], t);
      assert ConcatLines(ls) + t == ls[0] + ['\n'] + (ConcatLines(ls[1..]) + t);
      SplitAfterPiece(ls[0], '\n', ConcatLines(ls[1..]) + t);
      assert ls == [ls[0]] + ls[1..];
    } else {
      assert ConcatLines(ls) + t == t;
    }
  }

  /** No cell read from a CSV holds a newline. */
  lemma CsvCellsSingleLine(text: string)
    ensures forall i, k :: 0 <= i < |CsvToList(text)| && 0 <= k < |CsvToList(text)[i]| ==> '\n' !in CsvToList(text)[i][k]
  {
    var lines := Split(text, "\n");
    SplitCharPieces(text, '\n');
    forall i, k | 0 <= i < |lines| && 0 <= k < |CsvToList(text)[i]| ensures '\n' !in CsvToList(text)[i][k] {
      var cells := Split(lines[i], ",");
      var c := CsvToList(text)[i][k];
      assert c == Trim(cells[k]);
      var j := LeadingCount(cells[k], IsJsWhitespace);
      assert c == cells[k][j..j + |c|];
    }
  }

  /** A rendered line holds no newline when its cells hold none. */
  lemma RenderedSingleLine(cells: seq<string>, sep: string)
    requires '\n' !in sep
    requires forall k :: 0 <= k < |cells| ==> '\n' !in cells[k]
    ensures '\n' !in Join(cells, sep)
  {
    if '\n' in Join(cells, sep) {
      JoinChars(cells, sep, '\n');
    }
  }

  /** No cell holds a newline. */
  predicate SingleLineCells(arr: seq<seq<string>>) {
    forall i, k :: 0 <= i < |arr| && 0 <= k < |arr[i]| ==> '\n' !in arr[i][k]
  }

  /** A padded row of single-line cells holds no newline. */
  lemma PaddedSingleLine(arr: seq<seq<string>>, i: nat, w: nat)
    requires SingleLineCells(arr) && i < |arr|
    ensures forall k :: 0 <= k < |Pad(arr[i], w)| ==> '\n' !in Pad(arr[i], w)[k]
  {
  }

  /** Every Markdown line of single-line rows is a single line. */
  lemma MarkdownLinesSingleLine(arr: seq<seq<string>>, w: nat)
    requires |arr| >= 1 && SingleLineCells(arr)
    ensures forall k :: 0 <= k < |TableLines(arr, w, |arr|, MarkdownRow, MarkdownRule(w))| ==>
              '\n' !in TableLines(arr, w, |arr|, MarkdownRow, MarkdownRule(w))[k]
  {
    var ls := TableLines(arr, w, |arr|, MarkdownRow, MarkdownRule(w));
    TableLinesLayout(arr, w, |arr|, MarkdownRow, MarkdownRule(w));
    forall k | 0 <= k < |ls| ensures '\n' !in ls[k] {
      if k == 1 {
        if '\n' in Repeat("--- |", w) { RepeatChars("--- |", w, '\n'); }
      } else {
        var i := if k == 0 then 0 else k - 1;
        PaddedSingleLine(arr, i, w);
        RenderedSingleLine(Pad(arr[i], w), " | ");
      }
    }
  }

  /** Every LaTeX line of single-line rows is a single line. */
  lemma LaTeXLinesSingleLine(arr: seq<seq<string>>, w: nat)
    requires |arr| >= 1 && SingleLineCells(arr)
    ensures forall k :: 0 <= k < |TableLines(arr, w, |arr|, LaTeXRow, "\\hline")| ==>
              '\n' !in TableLines(arr, w, |arr|, LaTeXRow, "\\hline")[k]
  {
    var ls := TableLines(arr, w, |arr|, LaTeXRow, "\\hline");
    TableLinesLayout(arr, w, |arr|, LaTeXRow, "\\hline");
    forall k | 0 <= k < |ls| && k != 1 ensures '\n' !in ls[k] {
      var i := if k == 0 then 0 else k - 1;
      PaddedSingleLine(arr, i, w);
      RenderedSingleLine(Pad(arr[i], w), " & ");
    }
  }

  /** The lines of a Markdown table are its table lines, then the empty piece after the last newline. */
  lemma MarkdownOfLines(arr: seq<seq<string>>)
    requires |arr| >= 1 && SingleLineCells(arr)
    ensures Split(MarkdownOf(arr), "\n") == TableLines(arr, MaxWidth(arr), |arr|, MarkdownRow, MarkdownRule(MaxWidth(arr))) + [""]
  {
    var w := MaxWidth(arr);
    var ls := TableLines(arr, w, |arr|, MarkdownRow, MarkdownRule(w));
    MarkdownLinesSingleLine(arr, w);
    SplitConcatLines(ls, "");
    assert MarkdownOf(arr) == ConcatLines(ls) + "";
    SplitWithoutSep("", '\n');
  }

  /** The opening of the tabular environment is a single line. */
  lemma LaTeXBeginSingleLine(w: nat)
    ensures '\n' !in LaTeXBegin(w)
  {
    if '\n' in Repeat("c ", w) { RepeatChars("c ", w, '\n'); }
  }

  /** Lines written after a first line. */
  lemma ConcatLinesAfter(first: string, ls: seq<string>)
    ensures ConcatLines([first] + ls) == first + "\n" + ConcatLines(ls)
  {
    ConcatLinesFront([first] + ls);
    assert ([first] + ls)[1..] == ls;
  }

  /** Splitting an opening line, written lines and a closing at newlines gives them back. */
  lemma SplitFramedLines(begin: string, ls: seq<string>, end: string)
    requires '\n' !in begin && '\n' !in end
    requires forall k :: 0 <= k < |ls| ==> '\n' !in ls[k]
    ensures Split(begin + "\n" + ConcatLines(ls) + end, "\n") == [begin] + ls + [end]
  {
    var all := [begin] + ls;
    assert forall k :: 1 <= k < |all| ==> all[k] == ls[k - 1];
    ConcatLinesAfter(begin, ls);
    SplitConcatLines(all, end);
    SplitWithoutSep(end, '\n');
  }

  /** The lines of a LaTeX table are the opening, its table lines, then the closing. */
  lemma LaTeXOfLines(arr: seq<seq<string>>)
    requires |arr| >= 1 && SingleLineCells(arr)
    ensures Split(LaTeXOf(arr), "\n") == [LaTeXBegin(MaxWidth(arr))] + TableLines(arr, MaxWidth(arr), |arr|, LaTeXRow, "\\hline") + ["\\end{tabular}"]
  {
    var w := MaxWidth(arr);
    LaTeXLinesSingleLine(arr, w);
    LaTeXBeginSingleLine(w);
    SplitFramedLines(LaTeXBegin(w), TableLines(arr, w, |arr|, LaTeXRow, "\\hline"), "\\end{tabular}");
  }

  /** The Markdown table of rows: the padded first row, the rule, every other padded row, each ending in a newline. */
  lemma MarkdownOfLayout(arr: seq<seq<string>>)
    requires |arr| >= 1 && SingleLineCells(arr)
    ensures var w := MaxWidth(arr);
            var lines := Split(MarkdownOf(arr), "\n");
            && |lines| == |arr| + 2 && lines[|arr| + 1] == ""
            && lines[0] == MarkdownRow(Pad(arr[0], w))
            && lines[1] == "| " + Repeat("--- |", w)
            && (forall i :: 1 <= i < |arr| ==> lines[i + 1] == MarkdownRow(Pad(arr[i], w)))
            && (forall i :: 0 <= i < |arr| ==> |Pad(arr[i], w)| == w)
  {
    var w := MaxWidth(arr);
    MarkdownOfLines(arr);
    TableLinesLayout(arr, w, |arr|, MarkdownRow, MarkdownRule(w));
    forall i | 0 <= i < |arr| ensures |Pad(arr[i], w)| == w {
      PadWidth(arr[i], w);
    }
  }

  /** The LaTeX table of rows: the opening, the padded first row, "\hline", every other padded row, the closing. */
  lemma LaTeXOfLayout(arr: seq<seq<string>>)
    requires |arr| >= 1 && SingleLineCells(arr)
    ensures var w := MaxWidth(arr);
            var lines := Split(LaTeXOf(arr), "\n");
            && |lines| == |arr| + 3
            && lines[0] == "\\begin{tabular}{" + Repeat("c ", w) + "}"
            && lines[1] == LaTeXRow(Pad(arr[0], w))
            && lines[2] == "\\hline"
            && (forall i :: 1 <= i < |arr| ==> lines[i + 2] == LaTeXRow(Pad(arr[i], w)))
            && lines[|arr| + 2] == "\\end{tabular}"
  {
    var w := MaxWidth(arr);
    LaTeXOfLines(arr);
    TableLinesLayout(arr, w, |arr|, LaTeXRow, "\\hline");
  }

  /**
   * To Markdown Table writes, each ending in a newline, the padded first
   * row, a rule with one "--- |" per column, then every other padded row in
   * order; every padded row has one cell per column of the widest row.
   */
  lemma MarkdownTableLayout(text: string)
    ensures var arr := CsvToList(text);
            var w := MaxWidth(arr);
            var lines := Split(MarkdownTable(text), "\n");
            && |lines| == |arr| + 2 && lines[|arr| + 1] == ""
            && lines[0] == MarkdownRow(Pad(arr[0], w))
            && lines[1] == "| " + Repeat("--- |", w)
            && (forall i :: 1 <= i < |arr| ==> lines[i + 1] == MarkdownRow(Pad(arr[i], w)))
            && (forall i :: 0 <= i < |arr| ==> |Pad(arr[i], w)| == w)
  {
    CsvCellsSingleLine(text);
    MarkdownOfLayout(CsvToList(text));
  }

  /**
   * To LaTeX Table writes the opening with one "c " per column, then, each
   * ending in a newline, the padded first row, "\hline" and every other
   * padded row, and last the closing, which is not followed by a newline.
   */
  lemma LaTeXTableLayout(text: string)
    ensures var arr := CsvToList(text);
            var w := MaxWidth(arr);
            var lines := Split(LaTeXTable(text), "\n");
            && |lines| == |arr| + 3
            && lines[0] == "\\begin{tabular}{" + Repeat("c ", w) + "}"
            && lines[1] == LaTeXRow(Pad(arr[0], w))
            && lines[2] == "\\hline"
            && (forall i :: 1 <= i < |arr| ==> lines[i + 2] == LaTeXRow(Pad(arr[i], w)))
            && lines[|arr| + 2] == "\\end{tabular}"
  {
    CsvCellsSingleLine(text);
    LaTeXOfLayout(CsvToList(text));
  }
}
