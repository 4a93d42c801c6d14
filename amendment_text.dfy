/**
 * The text amendment modules of src/shared/amendment-modules.ts: stripping,
 * line-wise trimming, removal of duplicate lines, the PDF newline remover,
 * the fake list splitter and the space-to-tab conversion.
 */
module AmendmentText {
  import opened JsStrings

  // ---------------------------------------------------------------------
  // Strip, Strip Leading and Trailing Spaces, Strip surrounding quotes
  // ---------------------------------------------------------------------

  /** "Strip": `text.trim()`. */
  function Strip(text: string): string {
    Trim(text)
  }

  /** "Strip Leading and Trailing Spaces": every line, split at "\n", is trimmed. */
  function StripLeadingSpaces(text: string): string {
    Join(TrimEach(Split(text, "\n")), "\n")
  }

  /** A single or a double quotation mark. */
  predicate IsQuote(c: char) {
    c == '\'' || c == '"'
  }

  /**
   * "Strip surrounding quotes": the global replacement of the pattern
   * `^['"]+|['"]+$` by nothing removes the longest run of quotes at the start
   * of the input and the longest run at its end.
   */
  function StripSurroundingQuotes(text: string): string {
    StripBoth(text, IsQuote)
  }

  /**
   * Strip returns the piece of the text between its longest white-space
   * prefix and its longest white-space suffix, and stripping again changes
   * nothing.
   */
  lemma StripRemovesOuterWhitespace(text: string)
    ensures var i := LeadingCount(text, IsJsWhitespace);
            i + |Strip(text)| <= |text| && Strip(text) == text[i..i + |Strip(text)|]
    ensures forall k :: 0 <= k < LeadingCount(text, IsJsWhitespace) ==> IsJsWhitespace(text[k])
    ensures forall k :: LeadingCount(text, IsJsWhitespace) + |Strip(text)| <= k < |text| ==> IsJsWhitespace(text[k])
    ensures Strip(text) != [] ==> !IsJsWhitespace(Strip(text)[0]) && !IsJsWhitespace(Strip(text)[|Strip(text)| - 1])
  {
    var r := StripBoth(text, IsJsWhitespace);
    assert Strip(text) == r;
  }

  /** Stripping again changes nothing. */
  lemma StripIdempotent(text: string)
    ensures Strip(Strip(text)) == Strip(text)
  {
    StripBothIdempotent(text, IsJsWhitespace);
  }

  /**
   * Strip surrounding quotes returns the piece of the text between its
   * longest run of leading quotes and its longest run of trailing quotes;
   * the result neither starts nor ends with a quote, and stripping again
   * changes nothing.
   */
  lemma StripQuotesRemovesOuterQuotes(text: string)
    ensures var r := StripSurroundingQuotes(text);
            var i := LeadingCount(text, IsQuote);
            && i + |r| <= |text| && r == text[i..i + |r|]
            && (forall k :: 0 <= k < i ==> IsQuote(text[k]))
            && (forall k :: i + |r| <= k < |text| ==> IsQuote(text[k]))
            && (r != [] ==> !IsQuote(r[0]) && !IsQuote(r[|r| - 1]))
  {
  }

  /** Stripping quotes again changes nothing. */
  lemma StripQuotesIdempotent(text: string)
    ensures StripSurroundingQuotes(StripSurroundingQuotes(text)) == StripSurroundingQuotes(text)
  {
    StripBothIdempotent(text, IsQuote);
  }

  /** A text made only of quotes becomes empty. */
  lemma StripQuotesOnlyQuotes(text: string)
    requires forall k :: 0 <= k < |text| ==> IsQuote(text[k])
    ensures StripSurroundingQuotes(text) == ""
  {
  }

  /** The trim of a piece without a newline has no newline. */
  lemma TrimKeepsNoNewline(s: string)
    requires '\n' !in s
    ensures '\n' !in Trim(s)
  {
    var r := Trim(s);
    var i := LeadingCount(s, IsJsWhitespace);
    assert r == s[i..i + |r|];
    forall k | 0 <= k < |r| ensures r[k] != '\n' {
      assert r[k] == s[i + k];
    }
  }

  /**
   * Strip Leading and Trailing Spaces keeps the number of lines and turns
   * each line into its trim; applying it twice is applying it once.
   */
  lemma StripLeadingSpacesTrimsEachLine(text: string)
    ensures Split(StripLeadingSpaces(text), "\n") == TrimEach(Split(text, "\n"))
    ensures StripLeadingSpaces(StripLeadingSpaces(text)) == StripLeadingSpaces(text)
  {
    var lines := Split(text, "\n");
    var t := TrimEach(lines);
    SplitCharPieces(text, '\n');
    forall k | 0 <= k < |t| ensures '\n' !in t[k] {
      TrimKeepsNoNewline(lines[k]);
    }
    SplitJoin(t, '\n');
    forall k | 0 <= k < |t| ensures TrimEach(t)[k] == t[k] {
      StripBothIdempotent(lines[k], IsJsWhitespace);
    }
    assert TrimEach(t) == t;
  }

  // ---------------------------------------------------------------------
  // Remove Duplicates
  // ---------------------------------------------------------------------

  /** The elements among the first `n` of `xs` that are the first occurrence of their value, in order. */
  function KeepFirsts(xs: seq<string>, n: nat): seq<string>
    requires n <= |xs|
    decreases n
  {
    if n == 0 then []
    else KeepFirsts(xs, n - 1) + (if SeqIndexOf(xs, xs[n - 1]) == n - 1 then [xs[n - 1]] else [])
  }

  /** `xs.filter((value, index, self) => self.indexOf(value) === index)` */
  function Dedup(xs: seq<string>): seq<string> {
    KeepFirsts(xs, |xs|)
  }

  /** "Remove Duplicates": the lines without repeats, first occurrences kept in order. */
  function RemoveDuplicatesFromList(text: string): string {
    Join(Dedup(Split(text, "\n")), "\n")
  }

  /** No value occurs twice. */
  predicate Distinct(xs: seq<string>) {
    forall i, j :: 0 <= i < j < |xs| ==> xs[i] != xs[j]
  }

  /** An element is kept exactly when no earlier element has its value. */
  lemma FirstOccurrence(xs: seq<string>, j: nat)
    requires j < |xs|
    ensures SeqIndexOf(xs, xs[j]) == j <==> xs[j] !in xs[..j]
  {
  }

  /** The kept elements are distinct and have the same values as the first `n`. */
  lemma {:induction false} KeepFirstsValues(xs: seq<string>, n: nat)
    requires n <= |xs|
    ensures forall x :: x in KeepFirsts(xs, n) <==> x in xs[..n]
    ensures Distinct(KeepFirsts(xs, n))
    decreases n
  {
    if n > 0 {
      KeepFirstsValues(xs, n - 1);
      FirstOccurrence(xs, n - 1);
      assert xs[..n] == xs[..n - 1] + [xs[n - 1]];
    }
  }

  /** A list without repeats is kept whole. */
  lemma {:induction false} KeepFirstsOfDistinct(xs: seq<string>, n: nat)
    requires n <= |xs| && Distinct(xs)
    ensures KeepFirsts(xs, n) == xs[..n]
    decreases n
  {
    if n > 0 {
      KeepFirstsOfDistinct(xs, n - 1);
      FirstOccurrence(xs, n - 1);
      assert xs[..n] == xs[..n - 1] + [xs[n - 1]];
    }
  }

  /** The kept elements are first occurrences among the first `n`, in increasing order of position. */
  lemma {:induction false} KeepFirstsOrdered(xs: seq<string>, n: nat)
    requires n <= |xs|
    ensures forall k :: 0 <= k < |KeepFirsts(xs, n)| ==> 0 <= SeqIndexOf(xs, KeepFirsts(xs, n)[k]) < n
    ensures forall i, j :: 0 <= i < j < |KeepFirsts(xs, n)| ==>
              SeqIndexOf(xs, KeepFirsts(xs, n)[i]) < SeqIndexOf(xs, KeepFirsts(xs, n)[j])
    decreases n
  {
    if n > 0 {
      KeepFirstsOrdered(xs, n - 1);
      var p := KeepFirsts(xs, n - 1);
      var r := KeepFirsts(xs, n);
      if SeqIndexOf(xs, xs[n - 1]) == n - 1 {
        assert r == p + [xs[n - 1]];
        assert forall k :: 0 <= k < |p| ==> r[k] == p[k];
        assert r[|p|] == xs[n - 1];
      } else {
        assert r == p;
      }
    }
  }

  /**
   * Dedup keeps every value and drops every repeat: the result is distinct,
   * has exactly the values of the input, lists them in the order of their
   * first occurrences, and is the input itself when the input has no repeat.
   */
  lemma DedupSpec(xs: seq<string>)
    ensures forall x :: x in Dedup(xs) <==> x in xs
    ensures Distinct(Dedup(xs))
    ensures forall i, j :: 0 <= i < j < |Dedup(xs)| ==> SeqIndexOf(xs, Dedup(xs)[i]) < SeqIndexOf(xs, Dedup(xs)[j])
    ensures Distinct(xs) ==> Dedup(xs) == xs
  {
    KeepFirstsValues(xs, |xs|);
    KeepFirstsOrdered(xs, |xs|);
    assert xs[..|xs|] == xs;
    if Distinct(xs) {
      KeepFirstsOfDistinct(xs, |xs|);
    }
  }

  /**
   * Remove Duplicates: the lines of the result are the distinct lines of the
   * input, each once, in the order of their first occurrences, and removing
   * duplicates again changes nothing.
   */
  lemma RemoveDuplicatesKeepsDistinctLines(text: string)
    ensures var d := Split(RemoveDuplicatesFromList(text), "\n");
            && d == Dedup(Split(text, "\n"))
            && Distinct(d)
            && (forall x :: x in d <==> x in Split(text, "\n"))
            && (forall i, j :: 0 <= i < j < |d| ==>
                  SeqIndexOf(Split(text, "\n"), d[i]) < SeqIndexOf(Split(text, "\n"), d[j]))
    ensures RemoveDuplicatesFromList(RemoveDuplicatesFromList(text)) == RemoveDuplicatesFromList(text)
  {
    var xs := Split(text, "\n");
    var d := Dedup(xs);
    DedupSpec(xs);
    SplitCharPieces(text, '\n');
    assert xs[0] in d;
    forall k | 0 <= k < |d| ensures '\n' !in d[k] {
      assert d[k] in xs;
    }
    SplitJoin(d, '\n');
    DedupSpec(d);
  }

  // ---------------------------------------------------------------------
  // PDF Newline Remover
  // ---------------------------------------------------------------------

  /** The placeholder that a period followed by a newline is parked in. */
  const Placeholder: string := "DOTNEWNt34#$@%#"

  /** The first two of the three replacements. */
  function ParkAndBlank(text: string): string {
    ReplaceAll(ReplaceAll(text, ".\n", Placeholder), "\n", " ")
  }

  /**
   * "PDF Newline Remover": ".\n" is parked in the placeholder, every other
   * newline becomes a space, and the placeholder becomes ".\n" again.
   */
  function PdfNewlineRemover(text: string): string {
    ReplaceAll(ParkAndBlank(text), Placeholder, ".\n")
  }

  /** The intended behaviour, defined directly: each newline not preceded by a period becomes a space. */
  function JoinLines(t: string): string
    decreases |t|
  {
    if |t| == 0 then ""
    else if StartsWith(t, ".\n") then ".\n" + JoinLines(t[2..])
    else (if t[0] == '\n' then " " else [t[0]]) + JoinLines(t[1..])
  }

  /** JoinLines changes exactly the newlines that do not follow a period, to spaces. */
  lemma {:induction false} JoinLinesChars(t: string)
    ensures |JoinLines(t)| == |t|
    ensures forall i :: 0 <= i < |t| ==>
              JoinLines(t)[i] == if t[i] == '\n' && (i == 0 || t[i - 1] != '.') then ' ' else t[i]
    decreases |t|
  {
    if |t| > 0 {
      var r := JoinLines(t);
      if StartsWith(t, ".\n") {
        var rest := JoinLines(t[2..]);
        JoinLinesChars(t[2..]);
        assert r == ".\n" + rest;
        assert t[..2] == ".\n";
        assert t[0] == '.' && t[1] == '\n';
        assert r[0] == '.' && r[1] == '\n';
        forall i | 0 <= i < |t|
          ensures r[i] == if t[i] == '\n' && (i == 0 || t[i - 1] != '.') then ' ' else t[i]
        {
          if i >= 2 {
            assert r[i] == rest[i - 2];
            assert t[2..][i - 2] == t[i];
            if i > 2 { assert t[2..][i - 3] == t[i - 1]; }
          }
        }
      } else {
        var rest := JoinLines(t[1..]);
        var head := if t[0] == '\n' then " " else [t[0]];
        JoinLinesChars(t[1..]);
        assert r == head + rest;
        assert r[0] == head[0];
        forall i | 0 <= i < |t|
          ensures r[i] == if t[i] == '\n' && (i == 0 || t[i - 1] != '.') then ' ' else t[i]
        {
          if i >= 1 {
            assert r[i] == rest[i - 1];
            assert t[1..][i - 1] == t[i];
            if i > 1 { assert t[1..][i - 2] == t[i - 1]; }
          }
        }
      }
    }
  }

  /** Parking and blanking on a text that starts with ".\n". */
  lemma ParkAndBlankDot(t: string)
    requires StartsWith(t, ".\n")
    ensures ParkAndBlank(t) == Placeholder + ParkAndBlank(t[2..])
  {
    assert t == ".\n" + t[2..];
    ReplaceAllAtPattern(".\n", t[2..], Placeholder);
    ReplaceCharConcat(Placeholder, ReplaceAll(t[2..], ".\n", Placeholder), '\n', ' ');
    ReplaceCharAbsent(Placeholder, '\n', ' ');
  }

  /** Parking and blanking on a text that does not start with ".\n". */
  lemma ParkAndBlankOther(t: string)
    requires |t| > 0 && !StartsWith(t, ".\n")
    ensures ParkAndBlank(t) == (if t[0] == '\n' then " " else [t[0]]) + ParkAndBlank(t[1..])
  {
    ReplaceAllSkipsHead(t, ".\n", Placeholder);
    var x := ReplaceAll(t[1..], ".\n", Placeholder);
    ReplaceCharConcat([t[0]], x, '\n', ' ');
    ReplaceCharByChar([t[0]], '\n', ' ');
  }

  /** A prefix without 'D' and without ' ' of the parked-and-blanked text was already a prefix of the text. */
  lemma {:induction false} ParkAndBlankPrefix(t: string, w: string)
    requires 'D' !in w && ' ' !in w
    requires StartsWith(ParkAndBlank(t), w)
    ensures StartsWith(t, w)
    decreases |t|
  {
    var u := ParkAndBlank(t);
    if |w| > 0 && |t| > 0 {
      assert u[..|w|][0] == w[0];
      if StartsWith(t, ".\n") {
        ParkAndBlankDot(t);
      } else {
        ParkAndBlankOther(t);
        assert w[0] == u[0] == t[0];
        assert u[1..] == ParkAndBlank(t[1..]);
        assert u[1..][..|w| - 1] == w[1..];
        ParkAndBlankPrefix(t[1..], w[1..]);
        assert t[..|w|] == [t[0]] + t[1..][..|w| - 1];
      }
    }
  }

  /** A text that starts with 'D' and starts with the placeholder once parked and blanked already contained it. */
  lemma PlaceholderAtHead(t: string)
    requires |t| > 0 && t[0] == 'D'
    requires StartsWith(ParkAndBlank(t), Placeholder)
    ensures Contains(t, Placeholder)
  {
    var w := Placeholder[1..];
    assert !StartsWith(t, ".\n") by { if |t| >= 2 { assert t[..2][0] == 'D'; } }
    ParkAndBlankOther(t);
    var y := ParkAndBlank(t[1..]);
    assert ([t[0]] + y)[..15] == Placeholder;
    assert y[..14] == w;
    ParkAndBlankPrefix(t[1..], w);
    assert t[..15] == [t[0]] + t[1..][..14];
    assert OccursAt(t, Placeholder, 0);
  }

  /** A text without the placeholder that starts with 'D' does not start with the placeholder once parked and blanked. */
  lemma PlaceholderNotAtHead(t: string)
    requires |t| > 0 && t[0] == 'D' && !Contains(t, Placeholder)
    ensures !StartsWith(ParkAndBlank(t), Placeholder)
  {
    if StartsWith(ParkAndBlank(t), Placeholder) {
      PlaceholderAtHead(t);
    }
  }

  /**
   * On a text that does not itself contain the placeholder, the PDF newline
   * remover is JoinLines: every newline not preceded by a period becomes a
   * space and nothing else changes.
   */
  lemma {:induction false} PdfNewlineRemoverJoinsLines(t: string)
    requires !Contains(t, Placeholder)
    ensures PdfNewlineRemover(t) == JoinLines(t)
    decreases |t|
  {
    if |t| == 0 {
      assert ParkAndBlank(t) == "";
    } else if StartsWith(t, ".\n") {
      ParkAndBlankDot(t);
      ReplaceAllAtPattern(Placeholder, ParkAndBlank(t[2..]), ".\n");
      if Contains(t[2..], Placeholder) { ContainsInTail(t, Placeholder, 2); }
      PdfNewlineRemoverJoinsLines(t[2..]);
    } else {
      ParkAndBlankOther(t);
      var c := if t[0] == '\n' then ' ' else t[0];
      var y := ParkAndBlank(t[1..]);
      assert ParkAndBlank(t) == [c] + y;
      if c == 'D' {
        PlaceholderNotAtHead(t);
        ReplaceAllSkipsHead([c] + y, Placeholder, ".\n");
        assert ([c] + y)[1..] == y;
      } else {
        ReplaceAllKeepsHead(c, y, Placeholder, ".\n");
      }
      if Contains(t[1..], Placeholder) { ContainsInTail(t, Placeholder, 1); }
      PdfNewlineRemoverJoinsLines(t[1..]);
    }
  }

  // ---------------------------------------------------------------------
  // Fake List to List
  // ---------------------------------------------------------------------

  /** What every dash becomes. */
  const ListItem: string := "\n\n - "

  /** "Fake List to List": every '-' becomes a blank line followed by " - ". */
  function FakeListToList(text: string): string {
    ReplaceAll(text, "-", ListItem)
  }

  /** A text without dashes is unchanged. */
  lemma FakeListWithoutDashes(text: string)
    requires '-' !in text
    ensures FakeListToList(text) == text
  {
    ContainsChar(text, '-');
    ReplaceAllAbsent(text, "-", ListItem);
  }

  /**
   * Fake List to List works character by character: the result for `a + b` is
   * the result for `a` followed by that for `b`, a dash becomes the list item
   * and any other character is kept.
   */
  lemma FakeListChars(a: string, b: string, c: char)
    ensures FakeListToList(a + b) == FakeListToList(a) + FakeListToList(b)
    ensures FakeListToList([c]) == if c == '-' then ListItem else [c]
  {
    ReplaceAllCharConcat(a, b, '-', ListItem);
    if c == '-' {
      ReplaceAllAtPattern("-", "", ListItem);
      assert "-" + "" == [c];
    } else {
      ReplaceAllKeepsHead(c, "", "-", ListItem);
      assert [c] + "" == [c];
    }
  }

  /** No dash is among the first three characters of a result: each dash it holds is the fourth character of a list item. */
  lemma {:induction false} FakeListHeadHasNoDash(text: string)
    ensures forall k :: 0 <= k < 3 && k < |FakeListToList(text)| ==> FakeListToList(text)[k] != '-'
    decreases |text|
  {
    if |text| > 0 {
      var rest := text[1..];
      FakeListHeadHasNoDash(rest);
      if text[0] == '-' {
        assert text == "-" + rest;
        ReplaceAllAtPattern("-", rest, ListItem);
      } else {
        assert text == [text[0]] + rest;
        ReplaceAllKeepsHead(text[0], rest, "-", ListItem);
      }
    }
  }

  /** Replacing every list item back by '-' restores the text. */
  lemma {:induction false} FakeListRoundTrip(text: string)
    ensures ReplaceAll(FakeListToList(text), ListItem, "-") == text
    decreases |text|
  {
    if |text| > 0 {
      var rest := text[1..];
      var u := FakeListToList(rest);
      FakeListRoundTrip(rest);
      if text[0] == '-' {
        assert text == "-" + rest;
        ReplaceAllAtPattern("-", rest, ListItem);
        ReplaceAllAtPattern(ListItem, u, "-");
      } else {
        var c := text[0];
        assert text == [c] + rest;
        ReplaceAllKeepsHead(c, rest, "-", ListItem);
        var v := [c] + u;
        assert v[1..] == u;
        if c == '\n' {
          FakeListHeadHasNoDash(rest);
          if |v| >= 4 {
            assert v[3] == u[2];
            assert v[..4] != ListItem by { assert ListItem[3] == '-'; }
          }
          ReplaceAllSkipsHead(v, ListItem, "-");
        } else {
          ReplaceAllKeepsHead(c, u, ListItem, "-");
        }
      }
    }
  }

  // ---------------------------------------------------------------------
  // Space to Tabs
  // ---------------------------------------------------------------------

  /** The number of spaces `s` starts with. */
  function LeadingSpaces(s: string): (n: nat)
    ensures n <= |s|
    ensures n < |s| ==> s[n] != ' '
    decreases |s|
  {
    if |s| > 0 && s[0] == ' ' then 1 + LeadingSpaces(s[1..]) else 0
  }

  /** Every character before the count is a space. */
  lemma {:induction false} LeadingSpacesAreSpaces(s: string)
    ensures forall k :: 0 <= k < LeadingSpaces(s) ==> s[k] == ' '
    decreases |s|
  {
    if |s| > 0 && s[0] == ' ' {
      LeadingSpacesAreSpaces(s[1..]);
      assert forall k :: 1 <= k < LeadingSpaces(s) ==> s[k] == s[1..][k - 1];
    }
  }

  /** Appending text after the first non-space character does not change the count. */
  lemma {:induction false} LeadingSpacesConcat(x: string, y: string)
    requires LeadingSpaces(x) < |x|
    ensures LeadingSpaces(x + y) == LeadingSpaces(x)
    decreases |x|
  {
    assert (x + y)[0] == x[0];
    if x[0] == ' ' {
      assert (x + y)[1..] == x[1..] + y;
      LeadingSpacesConcat(x[1..], y);
    }
  }

  /**
   * "Space to Tabs": the global replacement of the pattern ` {4,}` by a tab.
   * Scanning left to right, a position starting at least four spaces loses
   * the whole run of spaces to one tab; any other character is kept.
   */
  function SpaceToTabs(s: string): string
    decreases |s|
  {
    var n := LeadingSpaces(s);
    if n >= 4 then "\t" + SpaceToTabs(s[n..])
    else if |s| == 0 then ""
    else [s[0]] + SpaceToTabs(s[1..])
  }

  /** Four spaces. */
  const FourSpaces: string := "    "

  /** Four spaces start at position 0 exactly when at least four leading spaces do. */
  lemma FourSpacesAtStart(s: string)
    ensures OccursAt(s, FourSpaces, 0) <==> LeadingSpaces(s) >= 4
  {
    if LeadingSpaces(s) >= 4 {
      LeadingSpacesAreSpaces(s);
      assert s[..4] == FourSpaces;
    }
    if OccursAt(s, FourSpaces, 0) {
      assert s[..4][0] == s[0] && s[..4][1] == s[1] && s[..4][2] == s[2] && s[..4][3] == s[3];
      assert s[0] == ' ' && s[1] == ' ' && s[2] == ' ' && s[3] == ' ';
      assert s[1..][0] == s[1] && s[2..][0] == s[2] && s[3..][0] == s[3];
    }
  }

  /** Occurrences past the first character are occurrences in the tail. */
  lemma OccursInTail(s: string, pat: string, i: nat)
    requires 0 < i && |s| > 0
    ensures OccursAt(s, pat, i) <==> OccursAt(s[1..], pat, i - 1)
  {
    if i + |pat| <= |s| {
      assert s[i..i + |pat|] == s[1..][i - 1..i - 1 + |pat|];
    }
  }

  /** The result starts with as many spaces as the input when those are fewer than four, and with none otherwise. */
  lemma SpaceToTabsLeading(s: string)
    ensures LeadingSpaces(SpaceToTabs(s)) == if LeadingSpaces(s) >= 4 then 0 else LeadingSpaces(s)
    decreases |s|
  {
    var n := LeadingSpaces(s);
    if n < 4 && |s| > 0 {
      SpaceToTabsLeading(s[1..]);
      if s[0] == ' ' {
        assert LeadingSpaces(s[1..]) == n - 1;
      }
    }
  }

  /** Space to Tabs leaves no run of four spaces anywhere. */
  lemma {:induction false} SpaceToTabsNoFourSpaces(s: string)
    ensures !Contains(SpaceToTabs(s), FourSpaces)
    decreases |s|
  {
    var r := SpaceToTabs(s);
    var n := LeadingSpaces(s);
    if n >= 4 {
      SpaceToTabsNoFourSpaces(s[n..]);
      var t := SpaceToTabs(s[n..]);
      assert r == "\t" + t && r[1..] == t;
      forall i: nat | i <= |r| ensures !OccursAt(r, FourSpaces, i) {
        if i == 0 {
          if |r| >= 4 { assert r[..4][0] == '\t'; }
        } else {
          OccursInTail(r, FourSpaces, i);
        }
      }
    } else if |s| > 0 {
      SpaceToTabsNoFourSpaces(s[1..]);
      var t := SpaceToTabs(s[1..]);
      assert r == [s[0]] + t && r[1..] == t;
      forall i: nat | i <= |r| ensures !OccursAt(r, FourSpaces, i) {
        if i == 0 {
          SpaceToTabsLeading(s);
          FourSpacesAtStart(r);
        } else {
          OccursInTail(r, FourSpaces, i);
        }
      }
    }
  }

  /** A text without a run of four spaces is unchanged. */
  lemma {:induction false} SpaceToTabsKeepsShortRuns(s: string)
    requires !Contains(s, FourSpaces)
    ensures SpaceToTabs(s) == s
    decreases |s|
  {
    if |s| > 0 {
      FourSpacesAtStart(s);
      assert OccursAt(s, FourSpaces, 0) == false;
      if Contains(s[1..], FourSpaces) { ContainsInTail(s, FourSpaces, 1); }
      SpaceToTabsKeepsShortRuns(s[1..]);
      assert s == [s[0]] + s[1..];
    }
  }

  /** `k` is the number of leading spaces when the first `k` characters are spaces and the next one is not. */
  lemma {:induction false} LeadingSpacesIs(s: string, k: nat)
    requires k <= |s| && (forall i :: 0 <= i < k ==> s[i] == ' ') && (k < |s| ==> s[k] != ' ')
    ensures LeadingSpaces(s) == k
    decreases k
  {
    if k > 0 {
      assert s[0] == ' ';
      assert forall i :: 0 <= i < k - 1 ==> s[1..][i] == s[i + 1];
      LeadingSpacesIs(s[1..], k - 1);
    }
  }

  /** A text that starts with fewer than four spaces keeps its first character. */
  lemma SpaceToTabsKeepsHead(s: string)
    requires 0 < |s| && LeadingSpaces(s) < 4
    ensures SpaceToTabs(s) == [s[0]] + SpaceToTabs(s[1..])
  {
  }

  /** A text that starts with four or more spaces starts with a tab for all of them. */
  lemma SpaceToTabsTabHead(s: string)
    requires LeadingSpaces(s) >= 4
    ensures SpaceToTabs(s) == "\t" + SpaceToTabs(s[LeadingSpaces(s)..])
  {
  }

  /** The step of `SpaceToTabsConcat` when `x` starts with a run of four or more spaces. */
  lemma SpaceToTabsConcatRunStep(x: string, y: string, n: nat)
    requires n == LeadingSpaces(x) && 4 <= n < |x|
    requires SpaceToTabs(x[n..] + y) == SpaceToTabs(x[n..]) + SpaceToTabs(y)
    ensures SpaceToTabs(x + y) == SpaceToTabs(x) + SpaceToTabs(y)
  {
    var xy := x + y;
    var t := x[n..];
    LeadingSpacesConcat(x, y);
    assert xy[n..] == t + y;
    SpaceToTabsTabHead(xy);
    SpaceToTabsTabHead(x);
    assert "\t" + (SpaceToTabs(t) + SpaceToTabs(y)) == ("\t" + SpaceToTabs(t)) + SpaceToTabs(y);
  }

  /** The step of `SpaceToTabsConcat` when `x` starts with fewer than four spaces. */
  lemma SpaceToTabsConcatCharStep(x: string, y: string)
    requires 0 < |x| && LeadingSpaces(x) < 4 && LeadingSpaces(x) < |x|
    requires SpaceToTabs(x[1..] + y) == SpaceToTabs(x[1..]) + SpaceToTabs(y)
    ensures SpaceToTabs(x + y) == SpaceToTabs(x) + SpaceToTabs(y)
  {
    var xy := x + y;
    var t := x[1..];
    LeadingSpacesConcat(x, y);
    assert xy[1..] == t + y;
    SpaceToTabsKeepsHead(xy);
    SpaceToTabsKeepsHead(x);
    assert [x[0]] + (SpaceToTabs(t) + SpaceToTabs(y)) == ([x[0]] + SpaceToTabs(t)) + SpaceToTabs(y);
  }

  /** When no run of spaces crosses the seam, Space to Tabs works on each side separately. */
  lemma {:induction false} SpaceToTabsConcat(x: string, y: string)
    requires x == [] || x[|x| - 1] != ' '
    ensures SpaceToTabs(x + y) == SpaceToTabs(x) + SpaceToTabs(y)
    decreases |x|
  {
    if |x| == 0 {
      assert x + y == y;
      assert SpaceToTabs(x) == "";
    } else {
      var n := LeadingSpaces(x);
      LeadingSpacesAreSpaces(x);
      assert n < |x|;
      if n >= 4 {
        assert x[n..][|x[n..]| - 1] == x[|x| - 1];
        SpaceToTabsConcat(x[n..], y);
        SpaceToTabsConcatRunStep(x, y, n);
      } else {
        assert x[1..] != [] ==> x[1..][|x[1..]| - 1] == x[|x| - 1];
        SpaceToTabsConcat(x[1..], y);
        SpaceToTabsConcatCharStep(x, y);
      }
    }
  }

  /** A run of four or more spaces that starts the text becomes exactly one tab. */
  lemma SpaceToTabsLeadingRun(n: nat, b: string)
    requires n >= 4 && (b == [] || b[0] != ' ')
    ensures SpaceToTabs(Repeat(" ", n) + b) == "\t" + SpaceToTabs(b)
  {
    var r := Repeat(" ", n);
    forall i | 0 <= i < n ensures (r + b)[i] == ' ' {
      if r[i] != ' ' {
        assert r[i] in r;
        RepeatChars(" ", n, r[i]);
      }
    }
    LeadingSpacesIs(r + b, n);
    assert (r + b)[n..] == b;
  }

  /**
   * "Any run of spaces ... gets changed to one tab": a maximal run of four or
   * more spaces between `a` and `b` becomes one tab, and the two sides are
   * converted on their own.
   */
  lemma SpaceToTabsRun(a: string, n: nat, b: string)
    requires n >= 4
    requires a == [] || a[|a| - 1] != ' '
    requires b == [] || b[0] != ' '
    ensures SpaceToTabs(a + Repeat(" ", n) + b) == SpaceToTabs(a) + "\t" + SpaceToTabs(b)
  {
    var rb := Repeat(" ", n) + b;
    assert a + Repeat(" ", n) + b == a + rb;
    SpaceToTabsConcat(a, rb);
    SpaceToTabsLeadingRun(n, b);
    assert SpaceToTabs(a) + ("\t" + SpaceToTabs(b)) == SpaceToTabs(a) + "\t" + SpaceToTabs(b);
  }

  /** Space to Tabs is idempotent. */
  lemma SpaceToTabsIdempotent(s: string)
    ensures SpaceToTabs(SpaceToTabs(s)) == SpaceToTabs(s)
  {
    SpaceToTabsNoFourSpaces(s);
    SpaceToTabsKeepsShortRuns(SpaceToTabs(s));
  }
}
