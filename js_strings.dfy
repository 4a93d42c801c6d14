/**
 * The JavaScript built-ins the amendment modules are written with, on
 * strings as sequences of characters: `split`, `join`, `replaceAll` and
 * `replace` with a literal pattern, `indexOf`, `lastIndexOf`, `startsWith`,
 * `slice`, `trim`, `repeat`, `Array.prototype.filter` and `indexOf`, and the
 * decimal rendering of an integer in a template literal.
 */
module JsStrings {

  // ---------------------------------------------------------------------
  // Searching
  // ---------------------------------------------------------------------

  /** `pat` occurs in `s` starting at position `i`. */
  predicate OccursAt(s: string, pat: string, i: nat) {
    i + |pat| <= |s| && s[i..i + |pat|] == pat
  }

  /** `pat` occurs somewhere in `s`. */
  predicate Contains(s: string, pat: string) {
    exists i: nat | i <= |s| :: OccursAt(s, pat, i)
  }

  /** `s.startsWith(prefix)` */
  predicate StartsWith(s: string, prefix: string) {
    OccursAt(s, prefix, 0)
  }

  /** `s.indexOf(pat)`: the first position of `pat` in `s`, or -1. */
  function IndexOf(s: string, pat: string): (r: int)
    ensures -1 <= r
    ensures r >= 0 ==> OccursAt(s, pat, r) && forall j: nat :: j < r ==> !OccursAt(s, pat, j)
    ensures r == -1 <==> !Contains(s, pat)
  {
    IndexOfFrom(s, pat, 0)
  }

  function IndexOfFrom(s: string, pat: string, from: nat): (r: int)
    requires forall j: nat :: j < from ==> !OccursAt(s, pat, j)
    ensures -1 <= r
    ensures r >= 0 ==> OccursAt(s, pat, r) && forall j: nat :: j < r ==> !OccursAt(s, pat, j)
    ensures r == -1 <==> !Contains(s, pat)
    decreases |s| - from
  {
    if from + |pat| > |s| then -1
    else if OccursAt(s, pat, from) then from
    else IndexOfFrom(s, pat, from + 1)
  }

  /** `s.lastIndexOf(pat)`: the last position of `pat` in `s`, or -1. */
  function LastIndexOf(s: string, pat: string): (r: int)
    ensures -1 <= r
    ensures r >= 0 ==> OccursAt(s, pat, r) && forall j: nat :: r < j ==> !OccursAt(s, pat, j)
    ensures r == -1 <==> !Contains(s, pat)
  {
    if |pat| > |s| then -1 else LastIndexOfUpTo(s, pat, |s| - |pat|)
  }

  function LastIndexOfUpTo(s: string, pat: string, upTo: nat): (r: int)
    requires upTo + |pat| <= |s|
    requires forall j: nat :: upTo < j ==> !OccursAt(s, pat, j)
    ensures -1 <= r
    ensures r >= 0 ==> OccursAt(s, pat, r) && forall j: nat :: r < j ==> !OccursAt(s, pat, j)
    ensures r == -1 <==> !Contains(s, pat)
    decreases upTo
  {
    if OccursAt(s, pat, upTo) then upTo
    else if upTo == 0 then -1
    else LastIndexOfUpTo(s, pat, upTo - 1)
  }

  /** `xs.indexOf(x)` on an array: the first index holding `x`, or -1. */
  function SeqIndexOf<T(==)>(xs: seq<T>, x: T): (r: int)
    ensures -1 <= r < |xs|
    ensures r >= 0 ==> xs[r] == x && x !in xs[..r]
    ensures r == -1 <==> x !in xs
  {
    if |xs| == 0 then -1
    else if xs[0] == x then 0
    else
      var k := SeqIndexOf(xs[1..], x);
      assert xs == [xs[0]] + xs[1..];
      if k < 0 then -1
      else
        assert xs[..k + 1] == [xs[0]] + xs[1..][..k];
        k + 1
  }

  // ---------------------------------------------------------------------
  // Rewriting
  // ---------------------------------------------------------------------

  /**
   * `s.replaceAll(pat, rep)` with a literal, non-empty pattern and a
   * replacement without `$` patterns: a left-to-right scan that replaces
   * each non-overlapping occurrence of `pat`.
   */
  function ReplaceAll(s: string, pat: string, rep: string): string
    requires |pat| > 0
    decreases |s|
  {
    if |s| < |pat| then s
    else if s[..|pat|] == pat then rep + ReplaceAll(s[|pat|..], pat, rep)
    else [s[0]] + ReplaceAll(s[1..], pat, rep)
  }

  /** `s.replace(pat, rep)` with a literal pattern: only the first occurrence is replaced. */
  function Replace(s: string, pat: string, rep: string): (r: string)
    ensures !Contains(s, pat) ==> r == s
    ensures Contains(s, pat) ==>
              exists i: nat :: OccursAt(s, pat, i) && (forall j: nat :: j < i ==> !OccursAt(s, pat, j))
                               && r == s[..i] + rep + s[i + |pat|..]
  {
    var i := IndexOf(s, pat);
    if i < 0 then s else s[..i] + rep + s[i + |pat|..]
  }

  /** Whichever position is the first occurrence of `pat`, `Replace` rewrites exactly that one. */
  lemma ReplaceAtFirst(s: string, pat: string, rep: string, i: nat)
    requires OccursAt(s, pat, i) && forall j: nat :: j < i ==> !OccursAt(s, pat, j)
    ensures Replace(s, pat, rep) == s[..i] + rep + s[i + |pat|..]
  {
    var k := IndexOf(s, pat);
    assert k >= 0;
    assert !(k < i) && !(i < k);
  }

  /** `s.slice(start, end)` for indices that are not negative. */
  function Slice(s: string, start: nat, end: nat): (r: string)
    ensures start <= end <= |s| ==> r == s[start..end]
    ensures end <= start ==> r == ""
  {
    var lo := if start < |s| then start else |s|;
    var hi := if end < |s| then end else |s|;
    if lo >= hi then "" else s[lo..hi]
  }

  /** `s.repeat(n)` */
  function Repeat(s: string, n: nat): (r: string)
    ensures |r| == n * |s|
  {
    if n == 0 then "" else s + Repeat(s, n - 1)
  }

  // ---------------------------------------------------------------------
  // Splitting and joining
  // ---------------------------------------------------------------------

  /**
   * `s.split(sep)` with a literal, non-empty separator: the pieces between
   * the non-overlapping occurrences of `sep`, found left to right. There is
   * always at least one piece.
   */
  function Split(s: string, sep: string): (r: seq<string>)
    requires |sep| > 0
    ensures |r| >= 1
    ensures forall k, ch :: 0 <= k < |r| && ch in r[k] ==> ch in s
    decreases |s|
  {
    if |s| < |sep| then [s]
    else if s[..|sep|] == sep then
      assert forall ch :: ch in s[|sep|..] ==> ch in s;
      [""] + Split(s[|sep|..], sep)
    else
      var rest := Split(s[1..], sep);
      assert forall ch :: ch in s[1..] ==> ch in s;
      [[s[0]] + rest[0]] + rest[1..]
  }

  /** `parts.join(sep)` */
  function Join(parts: seq<string>, sep: string): string
  {
    if |parts| == 0 then ""
    else if |parts| == 1 then parts[0]
    else parts[0] + sep + Join(parts[1..], sep)
  }

  /** Joining the pieces of a split with the same separator gives the string back. */
  lemma {:induction false} JoinSplit(s: string, sep: string)
    requires |sep| > 0
    ensures Join(Split(s, sep), sep) == s
    decreases |s|
  {
    if |s| < |sep| {
    } else if s[..|sep|] == sep {
      var rest := Split(s[|sep|..], sep);
      JoinSplit(s[|sep|..], sep);
      assert Split(s, sep) == [""] + rest;
      assert ([""] + rest)[1..] == rest;
      assert Join([""] + rest, sep) == "" + sep + Join(rest, sep);
      assert s == sep + s[|sep|..];
    } else {
      var rest := Split(s[1..], sep);
      var h := [s[0]] + rest[0];
      JoinSplit(s[1..], sep);
      assert Split(s, sep) == [h] + rest[1..];
      assert s == [s[0]] + s[1..];
      if |rest| > 1 {
        assert ([h] + rest[1..])[1..] == rest[1..];
        assert Join([h] + rest[1..], sep) == h + sep + Join(rest[1..], sep);
        assert Join(rest, sep) == rest[0] + sep + Join(rest[1..], sep);
      } else {
        assert [h] + rest[1..] == [h];
        assert Join(rest, sep) == rest[0];
      }
    }
  }

  /** No piece of a split on one character contains that character. */
  lemma {:induction false} SplitCharPieces(s: string, c: char)
    ensures forall k :: 0 <= k < |Split(s, [c])| ==> c !in Split(s, [c])[k]
    decreases |s|
  {
    if |s| >= 1 {
      SplitCharPieces(s[1..], c);
    }
  }

  /** A string without the separator character splits into itself alone. */
  lemma {:induction false} SplitWithoutSep(s: string, c: char)
    requires c !in s
    ensures Split(s, [c]) == [s]
    decreases |s|
  {
    if |s| >= 1 {
      SplitWithoutSep(s[1..], c);
      assert s == [s[0]] + s[1..];
    }
  }

  /** Splitting `p + c + t` on `c`, where `p` has no `c`, cuts exactly after `p`. */
  lemma {:induction false} SplitAfterPiece(p: string, c: char, t: string)
    requires c !in p
    ensures Split(p + [c] + t, [c]) == [p] + Split(t, [c])
    decreases |p|
  {
    var s := p + [c] + t;
    if |p| == 0 {
      assert s[..1] == [c] && s[1..] == t;
    } else {
      assert s[0] == p[0] && p[0] != c;
      assert s[..1] != [c];
      assert s[1..] == p[1..] + [c] + t;
      SplitAfterPiece(p[1..], c, t);
      assert [s[0]] + p[1..] == p;
    }
  }

  /** Splitting a join on one character gives the parts back when no part holds it. */
  lemma {:induction false} SplitJoin(parts: seq<string>, c: char)
    requires |parts| >= 1
    requires forall k :: 0 <= k < |parts| ==> c !in parts[k]
    ensures Split(Join(parts, [c]), [c]) == parts
    decreases |parts|
  {
    if |parts| == 1 {
      SplitWithoutSep(parts[0], c);
    } else {
      SplitJoin(parts[1..], c);
      SplitAfterPiece(parts[0], c, Join(parts[1..], [c]));
    }
  }

  /** Every character of a join comes from a part or from the separator. */
  lemma {:induction false} JoinChars(parts: seq<string>, sep: string, ch: char)
    requires ch in Join(parts, sep)
    ensures ch in sep || exists k :: 0 <= k < |parts| && ch in parts[k]
    decreases |parts|
  {
    if |parts| > 1 {
      if ch !in parts[0] && ch !in sep {
        JoinChars(parts[1..], sep, ch);
        var k :| 0 <= k < |parts[1..]| && ch in parts[1..][k];
        assert ch in parts[k + 1];
      }
    }
  }

  // ---------------------------------------------------------------------
  // Facts about replaceAll
  // ---------------------------------------------------------------------

  /** replaceAll of one character by one character rewrites character by character. */
  lemma {:induction false} ReplaceCharByChar(s: string, a: char, b: char)
    ensures |ReplaceAll(s, [a], [b])| == |s|
    ensures forall i :: 0 <= i < |s| ==> ReplaceAll(s, [a], [b])[i] == if s[i] == a then b else s[i]
    decreases |s|
  {
    if |s| >= 1 {
      ReplaceCharByChar(s[1..], a, b);
    }
  }

  /** replaceAll of one character by one character distributes over concatenation. */
  lemma ReplaceCharConcat(x: string, y: string, a: char, b: char)
    ensures ReplaceAll(x + y, [a], [b]) == ReplaceAll(x, [a], [b]) + ReplaceAll(y, [a], [b])
  {
    ReplaceCharByChar(x + y, a, b);
    ReplaceCharByChar(x, a, b);
    ReplaceCharByChar(y, a, b);
    var l, r := ReplaceAll(x + y, [a], [b]), ReplaceAll(x, [a], [b]) + ReplaceAll(y, [a], [b]);
    forall i | 0 <= i < |l| ensures l[i] == r[i] {
      if i < |x| { assert (x + y)[i] == x[i]; } else { assert (x + y)[i] == y[i - |x|]; }
    }
  }

  /** replaceAll leaves a string without the pattern unchanged. */
  lemma {:induction false} ReplaceAllAbsent(s: string, pat: string, rep: string)
    requires |pat| > 0
    requires !Contains(s, pat)
    ensures ReplaceAll(s, pat, rep) == s
    decreases |s|
  {
    if |s| >= |pat| {
      assert !OccursAt(s, pat, 0);
      forall j: nat | j <= |s[1..]| ensures !OccursAt(s[1..], pat, j) {
        assert !OccursAt(s, pat, j + 1);
        if j + |pat| <= |s[1..]| {
          assert s[1..][j..j + |pat|] == s[j + 1..j + 1 + |pat|];
        }
      }
      ReplaceAllAbsent(s[1..], pat, rep);
      assert s == [s[0]] + s[1..];
    }
  }

  /** A string that starts with the pattern has that occurrence replaced first. */
  lemma ReplaceAllAtPattern(pat: string, t: string, rep: string)
    requires |pat| > 0
    ensures ReplaceAll(pat + t, pat, rep) == rep + ReplaceAll(t, pat, rep)
  {
    assert (pat + t)[..|pat|] == pat;
    assert (pat + t)[|pat|..] == t;
  }

  /** Replacing every occurrence of a one-character pattern distributes over concatenation. */
  lemma {:induction false} ReplaceAllCharConcat(x: string, y: string, a: char, rep: string)
    ensures ReplaceAll(x + y, [a], rep) == ReplaceAll(x, [a], rep) + ReplaceAll(y, [a], rep)
    decreases |x|
  {
    if |x| == 0 {
      assert x + y == y;
    } else {
      var t := x[1..];
      assert x + y == [x[0]] + (t + y);
      assert x == [x[0]] + t;
      ReplaceAllCharConcat(t, y, a, rep);
      if x[0] == a {
        ReplaceAllAtPattern([a], t + y, rep);
        ReplaceAllAtPattern([a], t, rep);
      } else {
        ReplaceAllKeepsHead(x[0], t + y, [a], rep);
        ReplaceAllKeepsHead(x[0], t, [a], rep);
      }
    }
  }

  /** A string whose first character cannot start the pattern keeps that character. */
  lemma ReplaceAllKeepsHead(c: char, t: string, pat: string, rep: string)
    requires |pat| > 0 && c != pat[0]
    ensures ReplaceAll([c] + t, pat, rep) == [c] + ReplaceAll(t, pat, rep)
  {
    var s := [c] + t;
    assert s[1..] == t;
    if |s| >= |pat| {
      assert s[..|pat|][0] == c;
    }
  }

  /** Splitting a string that starts with the separator yields an empty first piece. */
  lemma SplitAtSep(sep: string, t: string)
    requires |sep| > 0
    ensures Split(sep + t, sep) == [""] + Split(t, sep)
  {
    assert (sep + t)[..|sep|] == sep;
    assert (sep + t)[|sep|..] == t;
  }

  /** Splitting a string whose first character cannot start the separator. */
  lemma SplitKeepsHead(c: char, t: string, sep: string)
    requires |sep| > 0 && c != sep[0]
    ensures Split([c] + t, sep) == [[c] + Split(t, sep)[0]] + Split(t, sep)[1..]
  {
    var s := [c] + t;
    assert s[1..] == t;
    if |s| >= |sep| {
      assert s[..|sep|][0] == c;
    }
  }

  // ---------------------------------------------------------------------
  // Trimming
  // ---------------------------------------------------------------------

  /** The characters `String.prototype.trim` removes: white space and line terminators. */
  predicate IsJsWhitespace(c: char) {
    || c == '\t' || c == '\n' || c == '\U{000B}' || c == '\U{000C}' || c == '\r' || c == ' '
    || c == '\U{00A0}' || c == '\U{1680}' || ('\U{2000}' <= c <= '\U{200A}')
    || c == '\U{2028}' || c == '\U{2029}' || c == '\U{202F}' || c == '\U{205F}'
    || c == '\U{3000}' || c == '\U{FEFF}'
  }

  /** The length of the longest prefix of `s` whose characters satisfy `p`. */
  function LeadingCount(s: string, p: char -> bool): (n: nat)
    ensures n <= |s|
    ensures forall k :: 0 <= k < n ==> p(s[k])
    ensures n < |s| ==> !p(s[n])
    decreases |s|
  {
    if |s| > 0 && p(s[0]) then 1 + LeadingCount(s[1..], p) else 0
  }

  /** The length of the longest suffix of `s` whose characters satisfy `p`. */
  function TrailingCount(s: string, p: char -> bool): (n: nat)
    ensures n <= |s|
    ensures forall k :: |s| - n <= k < |s| ==> p(s[k])
    ensures n < |s| ==> !p(s[|s| - n - 1])
    decreases |s|
  {
    if |s| > 0 && p(s[|s| - 1]) then 1 + TrailingCount(s[..|s| - 1], p) else 0
  }

  /**
   * `s` without its longest prefix and its longest suffix of characters
   * satisfying `p`: a contiguous piece of `s` whose ends do not satisfy `p`.
   */
  function StripBoth(s: string, p: char -> bool): (r: string)
    ensures var i := LeadingCount(s, p);
            i + |r| <= |s| && r == s[i..i + |r|]
    ensures forall k :: 0 <= k < LeadingCount(s, p) ==> p(s[k])
    ensures forall k :: LeadingCount(s, p) + |r| <= k < |s| ==> p(s[k])
    ensures r != [] ==> !p(r[0]) && !p(r[|r| - 1])
  {
    var i := LeadingCount(s, p);
    var j := TrailingCount(s[i..], p);
    assert forall k :: |s| - j <= k < |s| ==> s[k] == s[i..][k - i];
    s[i..|s| - j]
  }

  /** Stripping twice is stripping once. */
  lemma StripBothIdempotent(s: string, p: char -> bool)
    ensures StripBoth(StripBoth(s, p), p) == StripBoth(s, p)
  {
    var r := StripBoth(s, p);
    assert LeadingCount(r, p) == 0;
    assert TrailingCount(r, p) == 0;
    assert r[0..|r| - 0] == r;
  }

  /** `s.trim()` */
  function Trim(s: string): (r: string)
    ensures r != [] ==> !IsJsWhitespace(r[0]) && !IsJsWhitespace(r[|r| - 1])
  {
    StripBoth(s, IsJsWhitespace)
  }

  /** `xs.map(x => x.trim())` */
  function TrimEach(xs: seq<string>): (r: seq<string>)
    ensures |r| == |xs|
  {
    seq(|xs|, i requires 0 <= i < |xs| => Trim(xs[i]))
  }

  // ---------------------------------------------------------------------
  // Numbers in template literals, array filtering
  // ---------------------------------------------------------------------

  /** The decimal digits of `n`. */
  function NatToString(n: nat): (r: string)
    ensures |r| >= 1
    ensures forall k :: 0 <= k < |r| ==> '0' <= r[k] <= '9'
  {
    var d := ['0' + (n % 10) as char];
    if n < 10 then d else NatToString(n / 10) + d
  }

  /** `${i}` for an integer index result, which is at least -1 here. */
  function IntToString(i: int): (r: string)
    requires i >= -1
    ensures i == -1 ==> r == "-1"
  {
    if i < 0 then "-1" else NatToString(i)
  }

  /** `xs.filter(p)`: the elements satisfying `p`, in their original order. */
  function Filter<T>(xs: seq<T>, p: T -> bool): (r: seq<T>)
    ensures |r| <= |xs|
    ensures forall k :: 0 <= k < |r| ==> p(r[k])
  {
    if |xs| == 0 then [] else (if p(xs[0]) then [xs[0]] else []) + Filter(xs[1..], p)
  }

  /** Filtering distributes over concatenation: relative order is kept. */
  lemma {:induction false} FilterConcat<T>(a: seq<T>, b: seq<T>, p: T -> bool)
    ensures Filter(a + b, p) == Filter(a, p) + Filter(b, p)
    decreases |a|
  {
    if |a| == 0 {
      assert a + b == b;
    } else {
      assert (a + b)[1..] == a[1..] + b;
      FilterConcat(a[1..], b, p);
    }
  }

  /** An element that satisfies `p` is kept, one that does not is dropped. */
  lemma FilterSingleton<T>(x: T, p: T -> bool)
    ensures Filter([x], p) == if p(x) then [x] else []
  {
    assert [x][1..] == [];
  }

  /** Filtering with a predicate every element satisfies keeps the whole sequence. */
  lemma {:induction false} FilterKeepsAll<T>(xs: seq<T>, p: T -> bool)
    requires forall k :: 0 <= k < |xs| ==> p(xs[k])
    ensures Filter(xs, p) == xs
    decreases |xs|
  {
    if |xs| > 0 {
      FilterKeepsAll(xs[1..], p);
      assert xs == [xs[0]] + xs[1..];
    }
  }

  /** Two predicates that agree on every element filter alike. */
  lemma {:induction false} FilterSameOn<T>(xs: seq<T>, p: T -> bool, q: T -> bool)
    requires forall k :: 0 <= k < |xs| ==> p(xs[k]) == q(xs[k])
    ensures Filter(xs, p) == Filter(xs, q)
    decreases |xs|
  {
    if |xs| > 0 {
      assert p(xs[0]) == q(xs[0]);
      forall k | 0 <= k < |xs[1..]| ensures p(xs[1..][k]) == q(xs[1..][k]) {
        assert xs[1..][k] == xs[k + 1];
      }
      FilterSameOn(xs[1..], p, q);
    }
  }

  /** An element is in the filtered sequence exactly when it is in the sequence and satisfies `p`. */
  lemma {:induction false} FilterMembers<T>(xs: seq<T>, p: T -> bool, x: T)
    ensures x in Filter(xs, p) <==> x in xs && p(x)
    decreases |xs|
  {
    if |xs| > 0 {
      FilterMembers(xs[1..], p, x);
      assert xs == [xs[0]] + xs[1..];
    }
  }

  /** replace on a string that starts with the pattern rewrites that leading occurrence. */
  lemma ReplaceAtStart(s: string, pat: string, rep: string)
    requires StartsWith(s, pat)
    ensures Replace(s, pat, rep) == rep + s[|pat|..]
  {
    assert OccursAt(s, pat, 0);
    assert IndexOfFrom(s, pat, 0) == 0;
    assert s[..0] + rep + s[|pat|..] == rep + s[|pat|..];
  }

  /** replaceAll of one character by another leaves a string without that character unchanged. */
  lemma ReplaceCharAbsent(s: string, a: char, b: char)
    requires a !in s
    ensures ReplaceAll(s, [a], [b]) == s
  {
    ReplaceCharByChar(s, a, b);
  }

  /** Every character of a replace comes from the string or from the replacement. */
  lemma ReplaceChars(s: string, pat: string, rep: string, ch: char)
    requires ch in Replace(s, pat, rep)
    ensures ch in s || ch in rep
  {
    var i := IndexOf(s, pat);
    if i >= 0 {
      var r := s[..i] + rep + s[i + |pat|..];
      assert ch in s[..i] || ch in rep || ch in s[i + |pat|..];
    }
  }

  /** A string that does not start with the pattern keeps its first character. */
  lemma ReplaceAllSkipsHead(s: string, pat: string, rep: string)
    requires |pat| > 0 && |s| > 0 && !StartsWith(s, pat)
    ensures ReplaceAll(s, pat, rep) == [s[0]] + ReplaceAll(s[1..], pat, rep)
  {
    if |s| < |pat| {
      assert s == [s[0]] + s[1..];
    }
  }

  /** An occurrence in a suffix is an occurrence in the whole string. */
  lemma ContainsInTail(s: string, pat: string, k: nat)
    requires k <= |s| && Contains(s[k..], pat)
    ensures Contains(s, pat)
  {
    var j: nat :| j <= |s[k..]| && OccursAt(s[k..], pat, j);
    assert s[k..][j..j + |pat|] == s[k + j..k + j + |pat|];
    assert OccursAt(s, pat, k + j);
  }

  /** A one-character pattern occurs exactly where that character does. */
  lemma ContainsChar(s: string, c: char)
    ensures Contains(s, [c]) <==> c in s
  {
    if c in s {
      var i :| 0 <= i < |s| && s[i] == c;
      assert s[i..i + 1] == [c];
      assert OccursAt(s, [c], i);
    }
    if Contains(s, [c]) {
      var i: nat :| i <= |s| && OccursAt(s, [c], i);
      assert s[i..i + 1][0] == s[i];
    }
  }

  /** Splitting a string that does not start with the separator keeps its first character in the first piece. */
  lemma SplitSkipsHead(s: string, sep: string)
    requires |sep| > 0 && |s| > 0 && !StartsWith(s, sep)
    ensures Split(s, sep) == [[s[0]] + Split(s[1..], sep)[0]] + Split(s[1..], sep)[1..]
  {
    if |s| < |sep| {
      assert s == [s[0]] + s[1..];
    }
  }

  /** Every character of a replaceAll comes from the string or from the replacement. */
  lemma {:induction false} ReplaceAllChars(s: string, pat: string, rep: string, ch: char)
    requires |pat| > 0 && ch in ReplaceAll(s, pat, rep)
    ensures ch in s || ch in rep
    decreases |s|
  {
    if |s| >= |pat| {
      if s[..|pat|] == pat {
        if ch !in rep {
          ReplaceAllChars(s[|pat|..], pat, rep, ch);
          assert forall c :: c in s[|pat|..] ==> c in s;
        }
      } else if ch != s[0] {
        ReplaceAllChars(s[1..], pat, rep, ch);
        assert forall c :: c in s[1..] ==> c in s;
      }
    }
  }

  /** Every character of a repeat comes from the repeated string. */
  lemma {:induction false} RepeatChars(s: string, n: nat, ch: char)
    requires ch in Repeat(s, n)
    ensures ch in s
    decreases n
  {
    if n > 0 && ch !in s {
      RepeatChars(s, n - 1, ch);
    }
  }
}
