/**
 * The module records of src/shared/amendment-modules.ts and the
 * `amendmentModules` registry the application offers, together with the
 * first-match lookup by `repr` through which a selection picks a module.
 */
module AmendmentRegistry {
  import opened Wrappers
  import opened JsStrings
  import opened Interfaces
  import opened StringPipes
  import AmendmentPaths
  import AmendmentText
  import AmendmentEquations
  import AmendmentCsv
  import AmendmentTables

  // ---------------------------------------------------------------------
  // The module records
  // ---------------------------------------------------------------------

  const AlignModule: AmendmentModule := AmendmentModule(
    "Align", "align",
    "Converts MS Word stacked equations into LaTeX-compatible code. Open a new equation box, set equation mode to LaTeX, select the series of stacked equations you want to copy, hit copy, and paste it in the text box. Then, click on process me. If you're using the Align option, equations should be stacked with SHIFT+ENTER. To minimize errors, I strongly recommend starting each new line with an operator. MS Word's copy-paste results are not consistent so expect errors.",
    Some("MS Word Stacked Math"), None, None, AmendmentEquations.Align, WordEquations)

  const FakeListModule: AmendmentModule := AmendmentModule(
    "Fake List to List", "fake-list-to-list",
    "Did someone try to write a list by using dashes, but forgot to add newlines before? Does some text look like this: \"-Point 1 -Point 2- Point 3-Point 4?\" This solves it.",
    Some("Text"), None, None, AmendmentText.FakeListToList, Paper)

  const PdfNewlineModule: AmendmentModule := AmendmentModule(
    "PDF Newline Remover", "pdf-newline-remover",
    "Removes all newlines that aren't preceded with a period",
    Some("Text from PDF"), None, None, AmendmentText.PdfNewlineRemover, Paper)

  const PlusMinusModule: AmendmentModule := AmendmentModule(
    "Plus Minus", "plus-minus",
    "Splits up equations with the plus minus sign into a complex number. - is the real component, and + is the imaginary component (it's like this for readability from left to right).",
    Some("Equation with ±"), None, None, AmendmentEquations.PlusMinus, WordEquations)

  const UnixPathModule: AmendmentModule := AmendmentModule(
    "Unix Path", "unix-path",
    "text.replace(R\"\\\", \"/\")",
    Some("Text"), None, None, AmendmentPaths.ToUnixPath, Paths)

  const WindowsPathModule: AmendmentModule := AmendmentModule(
    "Windows Path", "windows-path",
    "text.replace(\"/\", R\"\\\"); also renames /c and /mnt/c for bash / wsl users",
    Some("Text"), None, None, AmendmentPaths.ToWindowsPath, Paths)

  const TransposeMatrixModule: AmendmentModule := AmendmentModule(
    "Transpose Matrix", "transpose-matrix",
    "Transposes a Microsoft Word Equation Editor Matrix. You may paste the entire Matrix, but the brackets for the matrix may not be (circular parenthesis), and the matrix may not contain nested matrices. The Matrix will always be output inside [square brackets].",
    Some("Equation"), None, None, AmendmentEquations.TransposeMatrix, WordEquations)

  const TsvToCsvModule: AmendmentModule := AmendmentModule(
    "TSV to CSV", "tsv-to-csv",
    "Converts Tab-Seperated-Value files into CSV files. This assumes that no cell contains commas.",
    None, None, None, AmendmentCsv.TsvToCsv, CSV)

  const CsvToTsvModule: AmendmentModule := AmendmentModule(
    "CSV to TSV", "csv-to-tsv",
    "Converts Comma-Seperated-Value files into Tab-separate-value strings. This assumes that no cell contains commas.",
    None, None, None, AmendmentCsv.CsvToTsv, CSV)

  const SpaceToTabsModule: AmendmentModule := AmendmentModule(
    "Space to Tabs", "space-to-tabs",
    "Any run of spaces more than 4 long gets changed to one tab",
    None, None, None, AmendmentText.SpaceToTabs, CSV)

  const StripLeadingSpacesModule: AmendmentModule := AmendmentModule(
    "Strip Leading and Trailing Spaces", "strip-leading-spaces",
    "Run str.strip (trim) on each line",
    None, None, None, AmendmentText.StripLeadingSpaces, Strings)

  const StripModule: AmendmentModule := AmendmentModule(
    "Strip", "strip",
    "str.strip() (or trim in Java/JS)",
    None, None, None, AmendmentText.Strip, Strings)

  const SelectFromCsvModule: AmendmentModule := AmendmentModule(
    "Remove TEMP and blank columns from CSV", "select-from-csv",
    "Removes all columns with a header starting with TEMP (case sensitive)",
    None, None, None, AmendmentCsv.SelectFromCsv, CSV)

  const ExtractNumberModule: AmendmentModule := AmendmentModule(
    "Extract Number From CSV", "extract-number-from-csv",
    "Given a CSV, replace all cells with the first \"number\" present in that cell, if any of them contain text. For example, if a cell contained \"val = 333\", this should change the cell to just 333.",
    None, None, None, AmendmentCsv.ExtractNumberFromCsv, CSV)

  const GitBashModule: AmendmentModule := AmendmentModule(
    "To Git Bash Path", "git-bash-2",
    "Converts a Windows file path to a Git bash file path",
    None, None, None, AmendmentPaths.ToGitBash, Paths)

  const WslPathModule: AmendmentModule := AmendmentModule(
    "To WSL Path", "wsl-path-2",
    "Converts a Windows file path to a Git bash file path",
    None, None, None, AmendmentPaths.ToWslPath, Paths)

  const StripQuotesModule: AmendmentModule := AmendmentModule(
    "Strip surrounding quotes", "Strip surrounding quotes",
    "Strip surrounding quotation marks, single or double quotes",
    None, None, None, AmendmentText.StripSurroundingQuotes, Strings)

  const ThisPCDescription :=
    "Appends the full Windows path to folders in THIS PC: 3D Objects, Desktop, Documents, Downloads, Music, Pictures, Videos"

  /** "This PC Folders to Full Path" as written: its repr repeats that of "Strip surrounding quotes". */
  const ThisPCModule: AmendmentModule := AmendmentModule(
    "This PC Folders to Full Path", "Strip surrounding quotes",
    ThisPCDescription,
    None, None, None, AmendmentPaths.ThisPCFullPath, Paths)

  /** "This PC Folders to Full Path" with an identifier of its own. */
  const ThisPCModuleCorrected: AmendmentModule := AmendmentModule(
    "This PC Folders to Full Path", "this-pc-full-path",
    ThisPCDescription,
    None, None, None, AmendmentPaths.ThisPCFullPath, Paths)

  const DedupModule: AmendmentModule := AmendmentModule(
    "Remove Duplicates", "dupe-remover",
    "Given a list of strings delimited by a newline, remove duplicates and preserve order otherwise",
    None, None, None, AmendmentText.RemoveDuplicatesFromList, Strings)

  const MarkdownTableModule: AmendmentModule := AmendmentModule(
    "To Markdown Table", "md-tbl",
    "Converts a CSV to a Markdown table",
    None, None, None, AmendmentTables.MarkdownTable, CSV)

  const LaTeXTableModule: AmendmentModule := AmendmentModule(
    "To LaTeX Table", "tex-tbl",
    "Converts a CSV to a LaTeX table",
    None, None, None, AmendmentTables.LaTeXTable, CSV)

  // ---------------------------------------------------------------------
  // The extension modules
  // ---------------------------------------------------------------------

  /** The download formats offered, in order. */
  const ExtensionNames: seq<string> := ["csv", "json", "md", "html", "tex"]

  /** The module that forces the download format `.ext` and leaves the text alone. */
  function ExtModule(ext: string): (m: AmendmentModule)
    ensures m.category == ForceExtension && m.repr == ext + "-ext" && m.name == "." + ext
    ensures forall s :: m.operation(s) == s
  {
    AmendmentModule("." + ext, ext + "-ext", "Changes the download format to ." + ext,
      None, None, None, (text: string) => text, ForceExtension)
  }

  /** `extAmendmentModules`: one extension module per download format, in order. */
  const ExtModules: seq<AmendmentModule> :=
    [ExtModule(ExtensionNames[0]), ExtModule(ExtensionNames[1]), ExtModule(ExtensionNames[2]),
     ExtModule(ExtensionNames[3]), ExtModule(ExtensionNames[4])]

  // ---------------------------------------------------------------------
  // The registry and the lookup by repr
  // ---------------------------------------------------------------------

  /** The modules of `amendmentModules` that this model covers, in the registry's order, then the extension modules. */
  function Registry(thisPC: AmendmentModule): seq<AmendmentModule> {
    [ UnixPathModule, WindowsPathModule, GitBashModule, WslPathModule, thisPC, StripQuotesModule,
      DedupModule, TransposeMatrixModule, TsvToCsvModule, CsvToTsvModule, SpaceToTabsModule,
      StripLeadingSpacesModule, ExtractNumberModule, StripModule, SelectFromCsvModule,
      MarkdownTableModule, LaTeXTableModule, AlignModule, PlusMinusModule, FakeListModule,
      PdfNewlineModule ] + ExtModules
  }

  /** `amendmentModules` as written. */
  const AmendmentModules: seq<AmendmentModule> := Registry(ThisPCModule)

  /** The registry with the repr of "This PC Folders to Full Path" made unique. */
  const AmendmentModulesCorrected: seq<AmendmentModule> := Registry(ThisPCModuleCorrected)

  /** Where "This PC Folders to Full Path" and "Strip surrounding quotes" sit in the registry. */
  const ThisPCIndex: nat := 4
  const StripQuotesIndex: nat := 5

  /**
   * `amendmentModules.find(item => item.repr === me)`, as the selection
   * handler uses it: the index of the first module whose repr is `repr`.
   */
  function FindByRepr(ms: seq<AmendmentModule>, repr: string): (r: Option<nat>)
    ensures r.Some? ==> r.value < |ms| && ms[r.value].repr == repr
    ensures r.Some? ==> forall j :: 0 <= j < r.value ==> ms[j].repr != repr
    ensures r.None? <==> forall j :: 0 <= j < |ms| ==> ms[j].repr != repr
    decreases |ms|
  {
    if |ms| == 0 then None
    else if ms[0].repr == repr then Some(0)
    else match FindByRepr(ms[1..], repr)
      case None => None
      case Some(i) => Some(i + 1)
  }

  /** Whether no two modules share a repr. */
  predicate DistinctReprs(ms: seq<AmendmentModule>) {
    forall i, j :: 0 <= i < j < |ms| ==> ms[i].repr != ms[j].repr
  }

  // ---------------------------------------------------------------------
  // Properties
  // ---------------------------------------------------------------------

  /** With distinct reprs, selecting a module by its repr finds that very module. */
  lemma SelectionFindsModule(ms: seq<AmendmentModule>, i: nat)
    requires DistinctReprs(ms) && i < |ms|
    ensures FindByRepr(ms, ms[i].repr) == Some(i)
  {
    assert FindByRepr(ms, ms[i].repr).Some?;
  }

  /** As written, selecting by repr never yields "Strip surrounding quotes": its repr leads to the module before it. */
  lemma StripQuotesNeverSelected(repr: string)
    ensures AmendmentModules[StripQuotesIndex].name == "Strip surrounding quotes"
    ensures AmendmentModules[ThisPCIndex].name == "This PC Folders to Full Path"
    ensures FindByRepr(AmendmentModules, AmendmentModules[StripQuotesIndex].repr) == Some(ThisPCIndex)
    ensures FindByRepr(AmendmentModules, repr) != Some(StripQuotesIndex)
  {
    var ms := AmendmentModules;
    assert ms[ThisPCIndex].repr == ms[StripQuotesIndex].repr == "Strip surrounding quotes";
    assert ms[0].repr == "unix-path" && ms[1].repr == "windows-path";
    assert ms[2].repr == "git-bash-2" && ms[3].repr == "wsl-path-2";
  }

  /** The reprs of the corrected registry, in order. */
  const CorrectedReprs: seq<string> := [
    "unix-path", "windows-path", "git-bash-2", "wsl-path-2", "this-pc-full-path", "Strip surrounding quotes",
    "dupe-remover", "transpose-matrix", "tsv-to-csv", "csv-to-tsv", "space-to-tabs", "strip-leading-spaces",
    "extract-number-from-csv", "strip", "select-from-csv", "md-tbl", "tex-tbl", "align", "plus-minus",
    "fake-list-to-list", "pdf-newline-remover", "csv-ext", "json-ext", "md-ext", "html-ext", "tex-ext"]

  lemma CorrectedReprsListed()
    ensures |AmendmentModulesCorrected| == |CorrectedReprs|
    ensures forall i :: 0 <= i < |CorrectedReprs| ==> AmendmentModulesCorrected[i].repr == CorrectedReprs[i]
  {
  }

  /** No two listed reprs are equal: same-length ones differ in their first or fifth letter. */
  lemma CorrectedReprsDiffer(i: nat, j: nat)
    requires i < j < |CorrectedReprs|
    ensures CorrectedReprs[i] != CorrectedReprs[j]
  {
    var a, b := CorrectedReprs[i], CorrectedReprs[j];
    if |a| == |b| {
      assert a[0] != b[0] || a[4] != b[4];
    }
  }

  /** The corrected registry has distinct reprs. */
  lemma CorrectedReprsDistinct()
    ensures DistinctReprs(AmendmentModulesCorrected)
  {
    CorrectedReprsListed();
    forall i, j | 0 <= i < j < |AmendmentModulesCorrected|
      ensures AmendmentModulesCorrected[i].repr != AmendmentModulesCorrected[j].repr
    {
      CorrectedReprsDiffer(i, j);
    }
  }

  /** In the corrected registry every module can be selected by its repr. */
  lemma CorrectedSelectionFindsEach(i: nat)
    requires i < |AmendmentModulesCorrected|
    ensures FindByRepr(AmendmentModulesCorrected, AmendmentModulesCorrected[i].repr) == Some(i)
  {
    CorrectedReprsDistinct();
    SelectionFindsModule(AmendmentModulesCorrected, i);
  }

  /** Each extension module forces its own format: a pipe ending in it downloads as that format. */
  lemma ExtModuleForcesFormat(ms: seq<AmendmentModule>, i: nat)
    requires i < |ExtModules|
    ensures ExtModules[i].repr == ExtensionNames[i] + "-ext"
    ensures ExtensionOf(ms + [ExtModules[i]]) == ExtensionNames[i]
  {
    var ext := ExtensionNames[i];
    assert '-' !in ext;
    assert ext + "-ext" == ext + ['-'] + "ext";
    SplitAfterPiece(ext, '-', "ext");
    assert (ms + [ExtModules[i]])[..|ms|] == ms;
  }

  /** An extension module does not change the text a pipe produces. */
  lemma ExtModuleKeepsText(a: seq<AmendmentModule>, i: nat, b: seq<AmendmentModule>, text: string)
    requires i < |ExtModules|
    ensures Run(a + [ExtModules[i]] + b, text) == Run(a + b, text)
  {
    RunSkipsIdentity(a, ExtModules[i], b, text);
  }

  /** A pipe [.csv, Strip, .json] strips the text and downloads as json: the later extension wins. */
  lemma PipeExample(text: string)
    ensures ExtensionOf([ExtModules[0], StripModule, ExtModules[1]]) == "json"
    ensures Run([ExtModules[0], StripModule, ExtModules[1]], text) == AmendmentText.Strip(text)
  {
    var p := [ExtModules[0], StripModule, ExtModules[1]];
    ExtModuleForcesFormat([ExtModules[0], StripModule], 1);
    assert [ExtModules[0], StripModule] + [ExtModules[1]] == p;
    ExtModuleKeepsText([], 0, [StripModule, ExtModules[1]], text);
    assert [] + [ExtModules[0]] + [StripModule, ExtModules[1]] == p;
    ExtModuleKeepsText([StripModule], 1, [], text);
    assert [StripModule] + [ExtModules[1]] + [] == [StripModule, ExtModules[1]];
    assert [StripModule][..0] == [];
  }
}
