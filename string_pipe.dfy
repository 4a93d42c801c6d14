/**
 * src/shared/string-pipe.ts: the pipe, an ordered list of amendment modules
 * that is run over a text as a left fold and that resolves the extension of
 * the downloaded result.
 */
module StringPipes {
  import opened JsStrings
  import opened Interfaces

  /**
   * The text after running `ms` over `text`: every module's operation is
   * applied to the previous result, the first module first.
   */
  function Run(ms: seq<AmendmentModule>, text: string): string
    decreases |ms|
  {
    if |ms| == 0 then text else ms[|ms| - 1].operation(Run(ms[..|ms| - 1], text))
  }

  /** The extension token of a ForceExtension module: its repr up to the first '-'. */
  function ExtensionToken(repr: string): string {
    var parts := Split(repr, "-");
    if |parts| > 0 then parts[0] else ".txt"
  }

  /** The extension a pipe of modules `ms` forces; the last ForceExtension module wins. */
  function ExtensionOf(ms: seq<AmendmentModule>): string
    decreases |ms|
  {
    if |ms| == 0 then "txt"
    else if ms[|ms| - 1].category == ForceExtension then ExtensionToken(ms[|ms| - 1].repr)
    else ExtensionOf(ms[..|ms| - 1])
  }

  class StringPipe {
    var modules: seq<AmendmentModule>

    /** The pipe holds exactly the list it is given. */
    constructor (modules: seq<AmendmentModule>)
      ensures this.modules == modules
    {
      this.modules := modules;
    }

    /** `processModule`: runs the modules over `text`; the pipe itself is not changed. */
    method ProcessModule(text: string) returns (r: string)
      ensures r == Run(modules, text)
    {
      r := text;
      var i := 0;
      while i < |modules|
        invariant 0 <= i <= |modules|
        invariant r == Run(modules[..i], text)
      {
        assert modules[..i + 1][..i] == modules[..i];
        r := modules[i].operation(r);
        i := i + 1;
      }
      assert modules[..|modules|] == modules;
    }

    /**
     * `getExtension`: the extension, without a dot, that the last
     * ForceExtension module in the pipe forces, or "txt". No operation is
     * called and the pipe is not changed.
     */
    method GetExtension() returns (ext: string)
      ensures ext == ExtensionOf(modules)
    {
      ext := "txt";
      var i := 0;
      while i < |modules|
        invariant 0 <= i <= |modules|
        invariant ext == ExtensionOf(modules[..i])
      {
        assert modules[..i + 1][..i] == modules[..i];
        if modules[i].category == ForceExtension {
          var parts := Split(modules[i].repr, "-");
          ext := if |parts| > 0 then parts[0] else ".txt";
        }
        i := i + 1;
      }
      assert modules[..|modules|] == modules;
    }
  }

  // ---------------------------------------------------------------------
  // The fold laws
  // ---------------------------------------------------------------------

  /** An empty pipe returns its input unchanged. */
  lemma RunEmpty(text: string)
    ensures Run([], text) == text
  {
  }

  /** The first module is applied first, to the input itself. */
  lemma {:induction false} RunFirstModuleFirst(m: AmendmentModule, ms: seq<AmendmentModule>, text: string)
    ensures Run([m] + ms, text) == Run(ms, m.operation(text))
    decreases |ms|
  {
    if |ms| > 0 {
      var n := |ms|;
      assert ([m] + ms)[..n] == [m] + ms[..n - 1];
      RunFirstModuleFirst(m, ms[..n - 1], text);
    } else {
      assert [m] + ms == [m];
      assert [m][..0] == [];
    }
  }

  /** Running two pipes one after the other is running their concatenation. */
  lemma {:induction false} RunConcat(a: seq<AmendmentModule>, b: seq<AmendmentModule>, text: string)
    ensures Run(a + b, text) == Run(b, Run(a, text))
    decreases |b|
  {
    if |b| == 0 {
      assert a + b == a;
    } else {
      var n := |b|;
      assert (a + b)[..|a + b| - 1] == a + b[..n - 1];
      RunConcat(a, b[..n - 1], text);
    }
  }

  /** For a pipe [A, B], the result is B's operation applied to A's result. */
  lemma RunTwo(a: AmendmentModule, b: AmendmentModule, text: string)
    ensures Run([a, b], text) == b.operation(a.operation(text))
  {
    assert [a, b][..1] == [a];
    assert [a][..0] == [];
    assert Run([a], text) == a.operation(Run([], text)) == a.operation(text);
  }

  /** A module whose operation is the identity can be removed from a pipe without changing the result. */
  lemma RunSkipsIdentity(a: seq<AmendmentModule>, m: AmendmentModule, b: seq<AmendmentModule>, text: string)
    requires forall s :: m.operation(s) == s
    ensures Run(a + [m] + b, text) == Run(a + b, text)
  {
    RunConcat(a + [m], b, text);
    RunConcat(a, b, text);
    assert (a + [m])[..|a|] == a;
    assert Run(a + [m], text) == m.operation(Run(a, text)) == Run(a, text);
  }

  // ---------------------------------------------------------------------
  // Extension resolution
  // ---------------------------------------------------------------------

  /**
   * The token is the part of the repr before its first '-', or the whole
   * repr when it has none; the ".txt" fallback is never taken.
   */
  lemma {:induction false} ExtensionTokenIsPrefix(repr: string)
    ensures var i := IndexOf(repr, "-");
            ExtensionToken(repr) == if i < 0 then repr else repr[..i]
    decreases |repr|
  {
    var i := IndexOf(repr, "-");
    if |repr| == 0 {
    } else if repr[0] == '-' {
      assert repr[..1] == "-";
      assert OccursAt(repr, "-", 0);
    } else {
      ExtensionTokenIsPrefix(repr[1..]);
      var j := IndexOf(repr[1..], "-");
      assert repr[..1] != "-";
      assert !OccursAt(repr, "-", 0);
      forall k: nat | 1 <= k <= |repr| ensures OccursAt(repr, "-", k) == OccursAt(repr[1..], "-", k - 1) {
        if k + 1 <= |repr| {
          assert repr[k..k + 1] == repr[1..][k - 1..k];
        }
      }
      if j < 0 {
        assert !Contains(repr, "-") by {
          forall k: nat | k <= |repr| ensures !OccursAt(repr, "-", k) {
            if k >= 1 { assert !OccursAt(repr[1..], "-", k - 1); }
          }
        }
      } else {
        assert OccursAt(repr, "-", j + 1);
        forall k: nat | k < j + 1 ensures !OccursAt(repr, "-", k) {
          if k >= 1 { assert !OccursAt(repr[1..], "-", k - 1); }
        }
        assert i == j + 1;
        assert repr[..i] == [repr[0]] + repr[1..][..j];
      }
      assert repr == [repr[0]] + repr[1..];
    }
  }

  /** Without a ForceExtension module the extension is "txt". */
  lemma {:induction false} ExtensionDefault(ms: seq<AmendmentModule>)
    requires forall k :: 0 <= k < |ms| ==> ms[k].category != ForceExtension
    ensures ExtensionOf(ms) == "txt"
    decreases |ms|
  {
    if |ms| > 0 {
      ExtensionDefault(ms[..|ms| - 1]);
    }
  }

  /** The last ForceExtension module of the pipe decides the extension. */
  lemma {:induction false} ExtensionLastWins(ms: seq<AmendmentModule>, k: nat)
    requires k < |ms| && ms[k].category == ForceExtension
    requires forall j :: k < j < |ms| ==> ms[j].category != ForceExtension
    ensures ExtensionOf(ms) == ExtensionToken(ms[k].repr)
    decreases |ms|
  {
    if k < |ms| - 1 {
      var prefix := ms[..|ms| - 1];
      assert prefix[k] == ms[k];
      ExtensionLastWins(prefix, k);
    }
  }

  /** The extension depends only on categories and reprs, never on an operation. */
  lemma {:induction false} ExtensionIgnoresOperations(ms: seq<AmendmentModule>, ns: seq<AmendmentModule>)
    requires |ms| == |ns|
    requires forall k :: 0 <= k < |ms| ==> ms[k].category == ns[k].category && ms[k].repr == ns[k].repr
    ensures ExtensionOf(ms) == ExtensionOf(ns)
    decreases |ms|
  {
    if |ms| > 0 {
      ExtensionIgnoresOperations(ms[..|ms| - 1], ns[..|ns| - 1]);
    }
  }
}
