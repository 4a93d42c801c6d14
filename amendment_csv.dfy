/**
 * The CSV amendment modules of src/shared/amendment-modules.ts: the
 * TSV/CSV separators, the `csvToList` and `listToCSV` helpers,
 * `findIndices`, the removal of TEMP and blank columns and the extraction
 * of the first number of every cell.
 */
module AmendmentCsv {
  import opened Wrappers
  import opened JsStrings

  // ---------------------------------------------------------------------
  // TSV to CSV, CSV to TSV
  // ---------------------------------------------------------------------

  /** "TSV to CSV": every tab becomes a comma. */
  function TsvToCsv(text: string): string {
    ReplaceAll(text, "\t", ",")
  }

  /** "CSV to TSV": every comma becomes a tab. */
  function CsvToTsv(text: string): string {
    ReplaceAll(text, ",", "\t")
  }

  /** TSV to CSV keeps the length, turns each tab into a comma, changes nothing else and leaves no tab. */
  lemma TsvToCsvRewritesTabs(text: string)
    ensures |TsvToCsv(text)| == |text|
    ensures forall i :: 0 <= i < |text| ==> TsvToCsv(text)[i] == if text[i] == '\t' then ',' else text[i]
    ensures '\t' !in TsvToCsv(text)
  {
    ReplaceCharByChar(text, '\t', ',');
  }

  /** CSV to TSV keeps the length, turns each comma into a tab, changes nothing else and leaves no comma. */
  lemma CsvToTsvRewritesCommas(text: string)
    ensures |CsvToTsv(text)| == |text|
    ensures forall i :: 0 <= i < |text| ==> CsvToTsv(text)[i] == if text[i] == ',' then '\t' else text[i]
    ensures ',' !in CsvToTsv(text)
  {
    ReplaceCharByChar(text, ',', '\t');
  }

  /** The conversions undo each other when no cell holds the other separator. */
  lemma SeparatorRoundTrips(text: string)
    ensures ',' !in text ==> CsvToTsv(TsvToCsv(text)) == text
    ensures '\t' !in text ==> TsvToCsv(CsvToTsv(text)) == text
  {
    TsvToCsvRewritesTabs(text);
    CsvToTsvRewritesCommas(text);
    TsvToCsvRewritesTabs(CsvToTsv(text));
    CsvToTsvRewritesCommas(TsvToCsv(text));
  }

  /** A text holding both separators is not restored: "a\tb,c" comes back as "a\tb\tc". */
  lemma SeparatorsMixed()
    ensures CsvToTsv(TsvToCsv("a\tb,c")) == "a\tb\tc"
  {
    var s := "a\tb,c";
    TsvToCsvRewritesTabs(s);
    var u := TsvToCsv(s);
    assert u == "a,b,c";
    CsvToTsvRewritesCommas(u);
    var v := CsvToTsv(u);
    assert |v| == 5;
    assert v == "a\tb\tc";
  }

  // ---------------------------------------------------------------------
  // csvToList, listToCSV
  // ---------------------------------------------------------------------

  /** `csvToList`: lines split at "\n", cells split at "," and trimmed. */
  function CsvToList(text: string): (rows: seq<seq<string>>)
    ensures |rows| == |Split(text, "\n")| && |rows| >= 1
    ensures forall i :: 0 <= i < |rows| ==> |rows[i]| >= 1
  {
    var lines := Split(text, "\n");
    seq(|lines|, i requires 0 <= i < |lines| => TrimEach(Split(lines[i], ",")))
  }

  /** `listToCSV`: cells joined with ",", rows with "\n". */
  function ListToCsv(rows: seq<seq<string>>): string {
    Join(seq(|rows|, i requires 0 <= i < |rows| => Join(rows[i], ",")), "\n")
  }

  /** A cell that can be written into a CSV line and read back. */
  predicate PlainCell(c: string) {
    Trim(c) == c && ',' !in c && '\n' !in c
  }

  /** One written row has no newline, and reading it back gives the row. */
  lemma CsvRowRoundTrip(row: seq<string>)
    requires |row| >= 1
    requires forall k :: 0 <= k < |row| ==> PlainCell(row[k])
    ensures '\n' !in Join(row, ",")
    ensures TrimEach(Split(Join(row, ","), ",")) == row
  {
    if '\n' in Join(row, ",") {
      JoinChars(row, ",", '\n');
    }
    SplitJoin(row, ',');
  }

  /** Reading back a written list gives the list, when every row has a cell and every cell is plain. */
  lemma CsvListRoundTrip(rows: seq<seq<string>>)
    requires |rows| >= 1
    requires forall i :: 0 <= i < |rows| ==> |rows[i]| >= 1
    requires forall i, k :: 0 <= i < |rows| && 0 <= k < |rows[i]| ==> PlainCell(rows[i][k])
    ensures CsvToList(ListToCsv(rows)) == rows
  {
    var lines := seq(|rows|, i requires 0 <= i < |rows| => Join(rows[i], ","));
    forall i | 0 <= i < |rows| ensures '\n' !in lines[i] && TrimEach(Split(lines[i], ",")) == rows[i] {
      CsvRowRoundTrip(rows[i]);
    }
    SplitJoin(lines, '\n');
  }

  /** Writing a read list gives the text back, when no cell has white space at either end. */
  lemma CsvTextRoundTrip(text: string)
    requires forall i, k :: 0 <= i < |Split(text, "\n")| && 0 <= k < |Split(Split(text, "\n")[i], ",")| ==>
               Trim(Split(Split(text, "\n")[i], ",")[k]) == Split(Split(text, "\n")[i], ",")[k]
    ensures ListToCsv(CsvToList(text)) == text
  {
    var lines := Split(text, "\n");
    var rows := CsvToList(text);
    var back := seq(|rows|, i requires 0 <= i < |rows| => Join(rows[i], ","));
    forall i | 0 <= i < |lines| ensures back[i] == lines[i] {
      var cells := Split(lines[i], ",");
      assert TrimEach(cells) == cells;
      JoinSplit(lines[i], ",");
    }
    assert back == lines;
    JoinSplit(text, "\n");
  }

  // ---------------------------------------------------------------------
  // findIndices
  // ---------------------------------------------------------------------

  /** The indices below `n` of the elements satisfying `p`, in increasing order. */
  function MatchingIndices<T>(list: seq<T>, p: T -> bool, n: nat): seq<nat>
    requires n <= |list|
    decreases n
  {
    if n == 0 then []
    else MatchingIndices(list, p, n - 1) + (if p(list[n - 1]) then [n - 1] else [])
  }

  /** `findIndices`: the loop that pushes every index whose element satisfies the predicate. */
  method FindIndices<T>(list: seq<T>, p: T -> bool) returns (indices: seq<nat>)
    ensures indices == MatchingIndices(list, p, |list|)
  {
    indices := [];
    var i := 0;
    while i < |list|
      invariant 0 <= i <= |list|
      invariant indices == MatchingIndices(list, p, i)
    {
      if p(list[i]) {
        indices := indices + [i];
      }
      i := i + 1;
    }
  }

  /** An index is found exactly when it is in range and its element satisfies the predicate; indices increase. */
  lemma {:induction false} MatchingIndicesSpec<T>(list: seq<T>, p: T -> bool, n: nat)
    requires n <= |list|
    ensures forall k: nat :: k in MatchingIndices(list, p, n) <==> k < n && p(list[k])
    ensures forall a, b :: 0 <= a < b < |MatchingIndices(list, p, n)| ==>
              MatchingIndices(list, p, n)[a] < MatchingIndices(list, p, n)[b]
    ensures forall a :: 0 <= a < |MatchingIndices(list, p, n)| ==> MatchingIndices(list, p, n)[a] < n
    decreases n
  {
    if n > 0 {
      MatchingIndicesSpec(list, p, n - 1);
    }
  }

  // ---------------------------------------------------------------------
  // Remove TEMP and blank columns from CSV
  // ---------------------------------------------------------------------

  /** A header that marks its column for removal: blank, or starting with "TEMP". */
  predicate IsDroppedHeader(t: string) {
    Trim(t) == "" || StartsWith(t, "TEMP")
  }

  /** `sl.filter((_, index) => !indices.includes(index))` over the first `n` cells. */
  function KeepColumns(row: seq<string>, indices: seq<nat>, n: nat): seq<string>
    requires n <= |row|
    decreases n
  {
    if n == 0 then []
    else KeepColumns(row, indices, n - 1) + (if (n - 1) in indices then [] else [row[n - 1]])
  }

  /** The rows with the marked columns removed. */
  function KeptRows(rows: seq<seq<string>>, indices: seq<nat>): (r: seq<seq<string>>)
    ensures |r| == |rows|
  {
    seq(|rows|, i requires 0 <= i < |rows| => KeepColumns(rows[i], indices, |rows[i]|))
  }

  /** "Remove TEMP and blank columns from CSV" */
  function SelectFromCsv(text: string): string {
    var csvData := CsvToList(text);
    if |csvData| == 0 then "Invalid input"
    else
      var header := csvData[0];
      var indices := MatchingIndices(header, IsDroppedHeader, |header|);
      ListToCsv(KeptRows(csvData, indices))
  }

  /** Whether a header is kept. */
  predicate IsKeptHeader(t: string) {
    !IsDroppedHeader(t)
  }

  /** Removing the columns listed in `indices` keeps, in order, the cells `keep` accepts, when it accepts exactly the unlisted ones. */
  lemma {:induction false} KeepColumnsFilter(row: seq<string>, indices: seq<nat>, keep: string -> bool, n: nat)
    requires n <= |row|
    requires forall k: nat :: k < |row| ==> (k in indices <==> !keep(row[k]))
    ensures KeepColumns(row, indices, n) == Filter(row[..n], keep)
    decreases n
  {
    if n > 0 {
      KeepColumnsFilter(row, indices, keep, n - 1);
      assert row[..n] == row[..n - 1] + [row[n - 1]];
      FilterConcat(row[..n - 1], [row[n - 1]], keep);
      FilterSingleton(row[n - 1], keep);
    }
  }

  /** Removing the marked columns from the header keeps exactly its kept headers, in order. */
  lemma KeepHeaderColumns(header: seq<string>)
    ensures KeepColumns(header, MatchingIndices(header, IsDroppedHeader, |header|), |header|) == Filter(header, IsKeptHeader)
  {
    var idx := MatchingIndices(header, IsDroppedHeader, |header|);
    MatchingIndicesSpec(header, IsDroppedHeader, |header|);
    KeepColumnsFilter(header, idx, IsKeptHeader, |header|);
    assert header[..|header|] == header;
  }

  /**
   * The first line of the result lists exactly the headers that are neither
   * blank nor start with "TEMP", in order; a cell of any line is removed
   * exactly when the header above it is removed; the "Invalid input" branch
   * is never taken.
   */
  lemma SelectFromCsvColumns(text: string)
    ensures var rows := CsvToList(text);
            var idx := MatchingIndices(rows[0], IsDroppedHeader, |rows[0]|);
            && SelectFromCsv(text) == ListToCsv(KeptRows(rows, idx))
            && KeptRows(rows, idx)[0] == Filter(rows[0], IsKeptHeader)
            && (forall k: nat :: k in idx <==> k < |rows[0]| && IsDroppedHeader(rows[0][k]))
  {
    var rows := CsvToList(text);
    KeepHeaderColumns(rows[0]);
    MatchingIndicesSpec(rows[0], IsDroppedHeader, |rows[0]|);
  }

  /** No kept header is blank or starts with "TEMP". */
  lemma SelectFromCsvHeader(text: string)
    ensures var rows := CsvToList(text);
            var kept := KeptRows(rows, MatchingIndices(rows[0], IsDroppedHeader, |rows[0]|))[0];
            forall k :: 0 <= k < |kept| ==> Trim(kept[k]) != "" && !StartsWith(kept[k], "TEMP")
  {
    SelectFromCsvColumns(text);
  }

  // ---------------------------------------------------------------------
  // Extract Number From CSV
  // ---------------------------------------------------------------------

  /** The `\d` class: an ASCII digit. */
  predicate IsDigit(c: char) {
    '0' <= c <= '9'
  }

  /** The length of the run of digits `s` starts with. */
  function DigitRun(s: string): (n: nat)
    ensures n <= |s|
    ensures forall k :: 0 <= k < n ==> IsDigit(s[k])
    ensures n < |s| ==> !IsDigit(s[n])
    decreases |s|
  {
    if |s| > 0 && IsDigit(s[0]) then 1 + DigitRun(s[1..]) else 0
  }

  /** Where the optional '-' of a match at the start of `t` ends: after a '-' that a digit follows, else at 0. */
  function SignEnd(t: string): nat {
    if 1 < |t| && t[0] == '-' && IsDigit(t[1]) then 1 else 0
  }

  /**
   * The length of the match of `-?\d+(\.\d+)?` at the start of `t`, if there
   * is one: an optional '-' that needs a digit after it, the longest run of
   * digits, and a '.' with the longest run of digits after it when a digit
   * follows the '.'.
   */
  function NumberLength(t: string): (r: Option<nat>)
    ensures r.Some? ==> 0 < r.value <= |t|
  {
    var start := SignEnd(t);
    if start < |t| && IsDigit(t[start]) then
      var e := start + DigitRun(t[start..]);
      if e + 1 < |t| && t[e] == '.' && IsDigit(t[e + 1]) then Some(e + 1 + DigitRun(t[e + 1..])) else Some(e)
    else None
  }

  /** The leftmost match at or after `p`, or "". */
  function FirstNumberFrom(s: string, p: nat): string
    requires p <= |s|
    decreases |s| - p
  {
    if p == |s| then ""
    else
      match NumberLength(s[p..])
      case Some(n) => s[p..p + n]
      case None => FirstNumberFrom(s, p + 1)
  }

  /** `findFirstNumber`: the first match of `-?\d+(\.\d+)?`, or "" when there is none. */
  function FirstNumber(s: string): string {
    FirstNumberFrom(s, 0)
  }

  /** There is no number exactly when there is no digit after `p`. */
  lemma {:induction false} FirstNumberFromEmpty(s: string, p: nat)
    requires p <= |s|
    ensures FirstNumberFrom(s, p) == "" <==> forall k :: p <= k < |s| ==> !IsDigit(s[k])
    decreases |s| - p
  {
    if p < |s| {
      var t := s[p..];
      assert t[0] == s[p];
      match NumberLength(t)
      case Some(n) =>
        var start := SignEnd(t);
        assert t[start] == s[p + start];
      case None =>
        assert !IsDigit(t[0]);
        FirstNumberFromEmpty(s, p + 1);
    }
  }

  /** The number is "" exactly when the cell has no digit. */
  lemma FirstNumberEmpty(s: string)
    ensures FirstNumber(s) == "" <==> forall k :: 0 <= k < |s| ==> !IsDigit(s[k])
  {
    FirstNumberFromEmpty(s, 0);
  }

  /** A character a number is written with. */
  predicate IsNumberChar(c: char) {
    IsDigit(c) || c == '-' || c == '.'
  }

  /** A match is made of digits, '-' and '.'. */
  lemma NumberChars(t: string)
    requires NumberLength(t).Some?
    ensures forall k :: 0 <= k < NumberLength(t).value ==> IsNumberChar(t[k])
  {
    var start := SignEnd(t);
    var e := start + DigitRun(t[start..]);
    forall k | start <= k < e ensures IsDigit(t[k]) {
      assert t[start..][k - start] == t[k];
    }
    if e + 1 < |t| && t[e] == '.' && IsDigit(t[e + 1]) {
      var q := e + 1 + DigitRun(t[e + 1..]);
      forall k | e + 1 <= k < q ensures IsDigit(t[k]) {
        assert t[e + 1..][k - e - 1] == t[k];
      }
    }
  }

  /** The first number is made of digits, '-' and '.' only. */
  lemma {:induction false} FirstNumberFromChars(s: string, p: nat)
    requires p <= |s|
    ensures forall k :: 0 <= k < |FirstNumberFrom(s, p)| ==> IsNumberChar(FirstNumberFrom(s, p)[k])
    decreases |s| - p
  {
    if p < |s| {
      match NumberLength(s[p..])
      case Some(n) =>
        NumberChars(s[p..]);
        forall k | 0 <= k < n ensures s[p..p + n][k] == s[p..][k] { }
      case None =>
        FirstNumberFromChars(s, p + 1);
    }
  }

  /** The digit run of a prefix that reaches at least to the run's end is the same run. */
  lemma {:induction false} DigitRunPrefix(s: string, n: nat)
    requires DigitRun(s) <= n <= |s|
    ensures DigitRun(s[..n]) == DigitRun(s)
    decreases n
  {
    if n > 0 && IsDigit(s[0]) {
      assert s[..n][1..] == s[1..][..n - 1];
      DigitRunPrefix(s[1..], n - 1);
    }
  }

  /** A digit run inside a prefix, from position `a`. */
  lemma DigitRunInPrefix(t: string, n: nat, a: nat)
    requires a <= n <= |t| && a + DigitRun(t[a..]) <= n
    ensures DigitRun(t[..n][a..]) == DigitRun(t[a..])
  {
    assert t[..n][a..] == t[a..][..n - a];
    DigitRunPrefix(t[a..], n - a);
  }

  /** The match read again, on its own, is the whole of it. */
  lemma NumberOfNumber(t: string)
    requires NumberLength(t).Some?
    ensures NumberLength(t[..NumberLength(t).value]) == Some(NumberLength(t).value)
  {
    var n := NumberLength(t).value;
    var m := t[..n];
    var start := SignEnd(t);
    var e := start + DigitRun(t[start..]);
    assert start < e <= n;
    assert m[0] == t[0];
    if start == 1 {
      assert m[1] == t[1];
    } else if 1 < |m| {
      assert m[1] == t[1];
    }
    assert SignEnd(m) == start;
    assert m[start] == t[start];
    DigitRunInPrefix(t, n, start);
    if e + 1 < |t| && t[e] == '.' && IsDigit(t[e + 1]) {
      assert m[e] == t[e] && m[e + 1] == t[e + 1];
      DigitRunInPrefix(t, n, e + 1);
    }
  }

  /** The leftmost position at or after `p` where a match starts, or |s|. */
  function FirstNumberStart(s: string, p: nat): (j: nat)
    requires p <= |s|
    ensures p <= j <= |s|
    decreases |s| - p
  {
    if p == |s| then p
    else if NumberLength(s[p..]).Some? then p
    else FirstNumberStart(s, p + 1)
  }

  /** No match starts before `FirstNumberStart`. */
  lemma {:induction false} FirstNumberStartNoEarlier(s: string, p: nat)
    requires p <= |s|
    ensures forall q :: p <= q < FirstNumberStart(s, p) ==> NumberLength(s[q..]).None?
    decreases |s| - p
  {
    if p < |s| && NumberLength(s[p..]).None? {
      FirstNumberStartNoEarlier(s, p + 1);
    }
  }

  /** The number is the match at the leftmost position where one starts, or "" when none does. */
  lemma {:induction false} FirstNumberStartSpec(s: string, p: nat)
    requires p <= |s|
    ensures var j := FirstNumberStart(s, p);
            && p <= j <= |s|
            && (forall q :: p <= q < j ==> NumberLength(s[q..]).None?)
            && (j < |s| ==> NumberLength(s[j..]).Some? && FirstNumberFrom(s, p) == s[j..][..NumberLength(s[j..]).value])
            && (j == |s| ==> FirstNumberFrom(s, p) == "")
    decreases |s| - p
  {
    FirstNumberStartNoEarlier(s, p);
    if p < |s| {
      if NumberLength(s[p..]).None? {
        assert FirstNumberStart(s, p) == FirstNumberStart(s, p + 1);
        assert FirstNumberFrom(s, p) == FirstNumberFrom(s, p + 1);
        FirstNumberStartSpec(s, p + 1);
      } else {
        var n := NumberLength(s[p..]).value;
        assert FirstNumberStart(s, p) == p;
        assert FirstNumberFrom(s, p) == s[p..p + n];
        assert s[p..p + n] == s[p..][..n];
      }
    }
  }

  /** Finding the first number of a first number gives it back. */
  lemma FirstNumberIdempotent(s: string)
    ensures FirstNumber(FirstNumber(s)) == FirstNumber(s)
  {
    FirstNumberStartSpec(s, 0);
    var j := FirstNumberStart(s, 0);
    if j < |s| {
      var t := s[j..];
      var m := t[..NumberLength(t).value];
      NumberOfNumber(t);
      assert m[0..] == m;
      assert m[0..0 + |m|] == m;
    }
  }

  /** The numbers of the cells of one line, joined with commas. */
  function NumberLine(line: string): string {
    var cells := Split(line, ",");
    Join(seq(|cells|, i requires 0 <= i < |cells| => FirstNumber(cells[i])), ",")
  }

  /** "Extract Number From CSV": every cell of every line is replaced by its first number. */
  function ExtractNumberFromCsv(text: string): string {
    var lines := Split(text, "\n");
    Join(seq(|lines|, i requires 0 <= i < |lines| => NumberLine(lines[i])), "\n")
  }

  /** No number holds a comma or a newline. */
  lemma FirstNumberNoSeparator(s: string)
    ensures ',' !in FirstNumber(s) && '\n' !in FirstNumber(s)
  {
    FirstNumberFromChars(s, 0);
  }

  /** Every cell of the result is the first number of the cell at the same place, and the shape is kept. */
  lemma ExtractNumberCells(text: string)
    ensures var lines := Split(text, "\n");
            var out := Split(ExtractNumberFromCsv(text), "\n");
            && |out| == |lines|
            && forall i :: 0 <= i < |lines| ==>
                 var cells := Split(lines[i], ",");
                 && |Split(out[i], ",")| == |cells|
                 && forall k :: 0 <= k < |cells| ==> Split(out[i], ",")[k] == FirstNumber(cells[k])
  {
    var lines := Split(text, "\n");
    var numbered := seq(|lines|, i requires 0 <= i < |lines| => NumberLine(lines[i]));
    forall i | 0 <= i < |lines|
      ensures '\n' !in numbered[i]
      ensures Split(numbered[i], ",") == (var cells := Split(lines[i], ",");
                 seq(|cells|, k requires 0 <= k < |cells| => FirstNumber(cells[k])))
    {
      var cells := Split(lines[i], ",");
      var nums := seq(|cells|, k requires 0 <= k < |cells| => FirstNumber(cells[k]));
      forall k | 0 <= k < |nums| ensures ',' !in nums[k] && '\n' !in nums[k] {
        FirstNumberNoSeparator(cells[k]);
      }
      if '\n' in numbered[i] {
        JoinChars(nums, ",", '\n');
      }
      SplitJoin(nums, ',');
    }
    SplitJoin(numbered, '\n');
  }

  /** Extracting numbers again changes nothing. */
  lemma ExtractNumberIdempotent(text: string)
    ensures ExtractNumberFromCsv(ExtractNumberFromCsv(text)) == ExtractNumberFromCsv(text)
  {
    var lines := Split(text, "\n");
    var once := ExtractNumberFromCsv(text);
    ExtractNumberCells(text);
    var out := Split(once, "\n");
    var twice := seq(|out|, i requires 0 <= i < |out| => NumberLine(out[i]));
    forall i | 0 <= i < |out| ensures twice[i] == out[i] {
      var cells := Split(out[i], ",");
      var nums := seq(|cells|, k requires 0 <= k < |cells| => FirstNumber(cells[k]));
      forall k | 0 <= k < |cells| ensures nums[k] == cells[k] {
        FirstNumberIdempotent(Split(lines[i], ",")[k]);
      }
      assert nums == cells;
      JoinSplit(out[i], ",");
    }
    assert twice == out;
    JoinSplit(once, "\n");
  }
}
