# text-amender-v2 in Dafny

text-amender-v2 is a small web tool that rewrites a pasted text through a
*pipe*: an ordered list of *amendment modules*, each of which has a display
name, a `repr` (its identifier), a category and an operation from string to
string. This project models the shared core of the tool:

- `interfaces.dfy` (module `Interfaces`) holds the category enumeration, the
  module record and the holder that groups modules under one category.
- `string_pipe.dfy` (module `StringPipes`) holds the class `StringPipe` and
  the two functions that specify it:
  - `Run` is the left fold that `processModule` performs;
  - `ExtensionOf` is the extension that `getExtension` resolves.
- `group_categories.dfy` (module `GroupCategories`) models
  `groupIntoCategories` as written. Next to it is the grouping that was
  evidently intended, `GroupIntoCategoriesByValue`.
- The amendment modules of `src/shared/amendment-modules.ts`:
  - `amendment_paths.dfy` holds the path rewrites;
  - `amendment_text.dfy` holds trimming, duplicate removal, PDF newlines,
    fake lists and spaces to tabs;
  - `amendment_equations.dfy` holds plus-minus, align and matrix
    transposition;
  - `amendment_csv.dfy` holds the separator swaps, the CSV reader and writer,
    `findIndices`, `selectFromCSV` and `extractNumberFromCsv`;
  - `amendment_tables.dfy` holds the Markdown and LaTeX tables.
- `amendment_registry.dfy` (module `AmendmentRegistry`) holds:
  - the module records with their names, reprs, descriptions and categories;
  - `extAmendmentModules`;
  - the `amendmentModules` registry;
  - the first-match lookup by `repr` that the application's selection
    handler uses.
- `js_strings.dfy` (module `JsStrings`) states the JavaScript built-ins the
  source relies on, on `seq<char>`. These are `split`, `join`, `replaceAll`,
  `replace` with a literal pattern, `indexOf`, `lastIndexOf`, `slice`,
  `repeat`, `trim` with the JavaScript set of white-space characters, and
  `filter`.
- `wrappers.dfy` (module `Wrappers`) holds an `Option` type.

How the source's forms are kept:

- `StringPipe` is a class with a `modules` field.
- The loops of the source are methods with loop invariants. Each method is
  proved equal to a function, and the properties are proved about that
  function. These are `processModule`, `getExtension`, `fixUpBadNotation`,
  the folder loop of "This PC Folders to Full Path", `findIndices`, and the
  row and padding loops of the two table modules.
- The modules' operations are functions, because a record holds its
  operation as a function value.

Regular expressions with simple meaning are written out:

- `/-/g`;
- `/ {4,}/g`, meaning maximal runs of four or more spaces;
- `/^['"]+|['"]+$/g`;
- `/-?\d+(\.\d+)?/`: the leftmost match, greedy, with the fraction taken
  only when a digit follows the dot.

## Model

| member | source | states |
|---|---|---|
| `Interfaces.Category` | src/shared/interfaces.ts:1-10 | The enumeration `AmendmentCategories`: the five declared members in declaration order, then Paths, CSV and ForceExtension, which the modules and the pipe use. |
| `Interfaces.AllCategories` | src/shared/group-categories.ts:4 | The members in declaration order, as `Object.keys` lists them. |
| `Interfaces.KeyName` | src/shared/interfaces.ts:1-10 | A member's key, the name `Object.keys` returns. |
| `Interfaces.Value` | src/shared/interfaces.ts:1-10 | A member's string value. It is the key except for WordEquations, whose value is "Word Equations". |
| `Interfaces.AmendmentModule` | src/shared/interfaces.ts:12-23 | The module record: name, repr (the ID), description, the optional inputType, inputExample and warning, the operation on strings, and the category. |
| `Interfaces.CategoryHolder` | src/shared/group-categories.ts:4-7 | The holder `groupIntoCategories` builds: the category name it was made for and the modules under it. |
| `Interfaces.AllCategoriesListsEachOnce` | src/shared/interfaces.ts:1-10 | Every category value is in the list of members. No member is listed twice. The first five are Pandoc, WordEquations, Paper, Boilerplate and Strings, in declaration order. |
| `Interfaces.ValueIsKeyExceptWordEquations` | src/shared/interfaces.ts:1-10 | A member's string value equals its key name exactly when the member is not WordEquations, whose value is "Word Equations". |
| `Interfaces.KeyNamesDistinct` | src/shared/interfaces.ts:1-10 | Two members have the same key name if and only if they are the same member. |
| `Interfaces.ValuesDistinct` | src/shared/interfaces.ts:1-10 | Two members have the same value if and only if they are the same member. |
| `Interfaces.NoKeyIsWordEquationsValue` | src/shared/interfaces.ts:1-10 | No key name is "Word Equations". |
| `StringPipes.StringPipe.constructor` | src/shared/string-pipe.ts:13-15 | The new pipe holds exactly the given list of modules. |
| `StringPipes.StringPipe.ProcessModule` | src/shared/string-pipe.ts:6-11 | The result is the left fold of the modules' operations over the text, first module first. |
| `StringPipes.StringPipe.GetExtension` | src/shared/string-pipe.ts:20-28 | The result is the extension forced by the last ForceExtension module, or "txt" if there is none. |
| `StringPipes.Run` | src/shared/string-pipe.ts:6-11 | The fold that `processModule` computes. Its behaviour is stated by `RunEmpty`, `RunFirstModuleFirst`, `RunConcat`, `RunTwo` and `RunSkipsIdentity`. |
| `StringPipes.RunEmpty` | src/shared/string-pipe.ts:6-11 | An empty pipe returns its input. |
| `StringPipes.RunFirstModuleFirst` | src/shared/string-pipe.ts:6-11 | The first module is applied to the input itself, and the rest of the pipe to its result. |
| `StringPipes.RunConcat` | src/shared/string-pipe.ts:6-11 | Running `a + b` equals running `b` on the result of `a`. |
| `StringPipes.RunTwo` | src/shared/string-pipe.ts:6-11 | For the pipe [A, B] the result is B(A(text)). |
| `StringPipes.RunSkipsIdentity` | src/shared/string-pipe.ts:6-11 | A module whose operation is the identity can be removed from any position without changing the result. |
| `StringPipes.ExtensionToken` | src/shared/string-pipe.ts:24 | The token `repr.split("-")[0] ?? ".txt"`. What it is is stated by `ExtensionTokenIsPrefix`. |
| `StringPipes.ExtensionTokenIsPrefix` | src/shared/string-pipe.ts:24 | The extension token is the part of the repr before its first '-', or the whole repr if it has no '-'. The ".txt" fallback is never taken. |
| `StringPipes.ExtensionOf` | src/shared/string-pipe.ts:20-28 | The extension that `getExtension` resolves. Its behaviour is stated by `ExtensionDefault`, `ExtensionLastWins` and `ExtensionIgnoresOperations`. |
| `StringPipes.ExtensionDefault` | src/shared/string-pipe.ts:20-28 | A pipe without a ForceExtension module gives "txt". |
| `StringPipes.ExtensionLastWins` | src/shared/string-pipe.ts:20-28 | The last ForceExtension module's token is the extension, whatever comes before it. |
| `StringPipes.ExtensionIgnoresOperations` | src/shared/string-pipe.ts:20-28 | The extension depends only on the categories and reprs, never on an operation. |
| `GroupCategories.GroupIntoCategories` | src/shared/group-categories.ts:3-10 | Models `groupIntoCategories` as written, comparing with the key. What it holds is stated by `GroupHoldsAsWritten`. |
| `GroupCategories.GroupIntoCategoriesByValue` | src/shared/group-categories.ts:3-10 | The intended grouping, comparing with the value. What it holds is stated by `GroupByValueHolds`. |
| `GroupCategories.GroupOneHolderPerMember` | src/shared/group-categories.ts:3-10 | There is one holder per enum member, in declaration order, named by the member's key, and empty holders are kept. |
| `GroupCategories.GroupKeepsOrder` | src/shared/group-categories.ts:3-10 | The holders of `a + b` hold those of `a` followed by those of `b`, so relative order is kept. |
| `GroupCategories.GroupSingleModule` | src/shared/group-categories.ts:3-10 | As written, a single module is held by its own category's holder, unless its category is WordEquations. In that case no holder holds it. |
| `GroupCategories.GroupHoldersMatch` | src/shared/group-categories.ts:3-10 | Every module in a holder has that holder's category, and that category is never WordEquations. |
| `GroupCategories.GroupHoldsAsWritten` | src/shared/group-categories.ts:3-10 | As written, the holder of a member is the input filtered, in order, to the modules of that member's category, and is empty for WordEquations. A module is in it if and only if it is in the input, has that category, and that category is not WordEquations. |
| `GroupCategories.WordEquationsHolderEmpty` | src/shared/group-categories.ts:3-10 | As written, the WordEquations holder is empty for every input. |
| `GroupCategories.GroupTotalAsWritten` | src/shared/group-categories.ts:3-10 | As written, the holder sizes sum to the number of modules whose category is not WordEquations. |
| `GroupCategories.GroupDropsWordEquations` | src/shared/group-categories.ts:3-10 | Grouping a single WordEquations module yields holders that hold nothing. |
| `GroupCategories.GroupPartitionsWithoutWordEquations` | src/shared/group-categories.ts:3-10 | Without WordEquations modules, the holder sizes sum to the input length. |
| `GroupCategories.GroupByValueSingleModule` | src/shared/group-categories.ts:3-10 | When grouping by value, a single module is held by its own category's holder, whatever the category. |
| `GroupCategories.GroupByValueHolds` | src/shared/group-categories.ts:3-10 | When grouping by value, the holder of a member is the input filtered, in order, to the modules of that member's category. A module is in it if and only if it is in the input and has that category. |
| `GroupCategories.GroupByValuePartitions` | src/shared/group-categories.ts:3-10 | When grouping by value, the holder sizes sum to the input length. Together with `GroupByValueHolds`, no module is held twice and none is dropped. |
| `AmendmentPaths.ToUnixPath` | src/shared/amendment-modules.ts:162-171 | Models "Unix Path". Its behaviour is stated by `UnixPathRewritesBackslashes`. |
| `AmendmentPaths.ToWindowsPath` | src/shared/amendment-modules.ts:173-187 | Models "Windows Path". Its behaviour is stated by `WindowsPathCases`. |
| `AmendmentPaths.ToGitBash` | src/shared/amendment-modules.ts:479-488 | Models "To Git Bash Path". Its behaviour is stated by `ToGitBashFirstDrive`, `DriveCToBashAndWsl`, `BashAndWslHaveNoBackslash` and `WindowsPathUndoesGitBash`. |
| `AmendmentPaths.ToWslPath` | src/shared/amendment-modules.ts:490-499 | Models "To WSL Path". Its behaviour is stated by `ToWslPathFirstDrive`, `DriveCToBashAndWsl`, `BashAndWslHaveNoBackslash` and `WindowsPathUndoesWsl`. |
| `AmendmentPaths.ThisPCFolders` | src/shared/amendment-modules.ts:519 | The seven target folders in the order the loop tries them. |
| `AmendmentPaths.UserFolderPrefix` | src/shared/amendment-modules.ts:522 | The text `C:\Users\%USERNAME%\` that goes in front of a matched folder name. |
| `AmendmentPaths.ThisPCFullPath` | src/shared/amendment-modules.ts:513-527 | Models "This PC Folders to Full Path". Its behaviour is stated by `ThisPCPrefixesOnce`. |
| `AmendmentPaths.UnixPathRewritesBackslashes` | src/shared/amendment-modules.ts:162-171 | "Unix Path" keeps the length, turns each backslash into '/' and leaves every other character. No backslash is left. |
| `AmendmentPaths.SlashesRewritten` | src/shared/amendment-modules.ts:185 | The final `replaceAll` turns each '/' into a backslash and leaves every other character. No '/' is left. |
| `AmendmentPaths.WindowsPathCases` | src/shared/amendment-modules.ts:173-187 | "Windows Path" turns a leading "/c", or else a leading "/mnt/c", into "C:", then rewrites slashes. Otherwise it only rewrites slashes, and no '/' is left. |
| `AmendmentPaths.BashAndWslHaveNoBackslash` | src/shared/amendment-modules.ts:479-499 | The Git Bash and WSL paths hold no backslash. |
| `AmendmentPaths.DriveCToBashAndWsl` | src/shared/amendment-modules.ts:479-499 | For a path starting with "C:", the drive becomes "/c" in Git Bash and "/mnt/c" in WSL, and the rest is the Unix path. |
| `AmendmentPaths.SlashesUndoUnixPath` | src/shared/amendment-modules.ts:162-187 | Without '/' in the input, rewriting slashes undoes "Unix Path". |
| `AmendmentPaths.WindowsPathUndoesGitBash` | src/shared/amendment-modules.ts:479-488 | "Windows Path" restores a "C:" path that had no '/' after "To Git Bash Path". |
| `AmendmentPaths.WindowsPathUndoesWsl` | src/shared/amendment-modules.ts:490-499 | "Windows Path" restores a "C:" path that had no '/' after "To WSL Path". |
| `AmendmentPaths.UnixPathExample` | src/shared/amendment-modules.ts:162-171 | The input `C:\Users\a` becomes `C:/Users/a`. |
| `AmendmentPaths.ToGitBashFirstDrive` | src/shared/amendment-modules.ts:484-487 | With every backslash turned into a slash, a text with no "C:" is returned as it is. Otherwise exactly the first "C:" becomes "/c" and everything else is kept. |
| `AmendmentPaths.ToWslPathFirstDrive` | src/shared/amendment-modules.ts:495-498 | With every backslash turned into a slash, a text with no "C:" is returned as it is. Otherwise exactly the first "C:" becomes "/mnt/c" and everything else is kept. |
| `AmendmentPaths.GitBashExample` | src/shared/amendment-modules.ts:479-488 | The input `C:\Users\a` becomes `/c/Users/a`. |
| `AmendmentPaths.ThisPCFoldersAccessToFullPath` | src/shared/amendment-modules.ts:518-526 | The folder loop computes the prefix function of the seven folders. |
| `AmendmentPaths.PrefixFolderAtStart` | src/shared/amendment-modules.ts:519-525 | Rewriting a folder name that starts the text puts the user-folder prefix in front of the whole text. |
| `AmendmentPaths.PrefixFoldersOnce` | src/shared/amendment-modules.ts:519-525 | For folder names not starting with 'C', the loop adds the user-folder prefix exactly once if the text starts with one of them, and otherwise leaves the text unchanged. |
| `AmendmentPaths.ThisPCPrefixesOnce` | src/shared/amendment-modules.ts:513-527 | "This PC Folders to Full Path" prepends `C:\Users\%USERNAME%\` exactly when the text starts with one of the seven folders, and never twice. |
| `AmendmentPaths.ThisPCExample` | src/shared/amendment-modules.ts:513-527 | The input `Desktop\a.txt` becomes `C:\Users\%USERNAME%\Desktop\a.txt`. |
| `AmendmentText.Strip` | src/shared/amendment-modules.ts:424-432 | Models "Strip". Its behaviour is stated by `StripRemovesOuterWhitespace`. |
| `AmendmentText.StripLeadingSpaces` | src/shared/amendment-modules.ts:414-422 | Models "Strip Leading and Trailing Spaces". Its behaviour is stated by `StripLeadingSpacesTrimsEachLine`. |
| `AmendmentText.StripSurroundingQuotes` | src/shared/amendment-modules.ts:502-510 | Models "Strip surrounding quotes". Its behaviour is stated by `StripQuotesRemovesOuterQuotes`. |
| `AmendmentText.RemoveDuplicatesFromList` | src/shared/amendment-modules.ts:541-553 | Models "Remove Duplicates". Its behaviour is stated by `RemoveDuplicatesKeepsDistinctLines`. |
| `AmendmentText.Placeholder` | src/shared/amendment-modules.ts:80-82 | The placeholder text that stands for ".\n" while newlines are replaced. |
| `AmendmentText.PdfNewlineRemover` | src/shared/amendment-modules.ts:73-85 | Models "PDF Newline Remover". Its behaviour is stated by `PdfNewlineRemoverJoinsLines`. |
| `AmendmentText.ListItem` | src/shared/amendment-modules.ts:69 | The marker that replaces each '-': two newlines, a space, a dash and a space. |
| `AmendmentText.FakeListToList` | src/shared/amendment-modules.ts:61-71 | Models "Fake List to List". Its behaviour is stated by `FakeListChars`, `FakeListHeadHasNoDash`, `FakeListWithoutDashes` and `FakeListRoundTrip`. |
| `AmendmentText.SpaceToTabs` | src/shared/amendment-modules.ts:404-412 | Models "Space to Tabs". Its behaviour is stated by `SpaceToTabsRun`, `SpaceToTabsLeadingRun`, `SpaceToTabsConcat`, `SpaceToTabsLeading` and the lemmas after it. |
| `AmendmentText.StripRemovesOuterWhitespace` | src/shared/amendment-modules.ts:424-432 | "Strip" returns a contiguous slice of the input. Everything cut off is JavaScript white space, and the result neither starts nor ends with white space. |
| `AmendmentText.StripIdempotent` | src/shared/amendment-modules.ts:424-432 | Stripping twice is stripping once. |
| `AmendmentText.TrimKeepsNoNewline` | src/shared/amendment-modules.ts:420 | Trimming a line without newlines yields a line without newlines. |
| `AmendmentText.StripLeadingSpacesTrimsEachLine` | src/shared/amendment-modules.ts:414-422 | The lines of the result are the input's lines, each trimmed. Applying the module twice is applying it once. |
| `AmendmentText.StripQuotesRemovesOuterQuotes` | src/shared/amendment-modules.ts:502-510 | The result is a slice of the input. Everything cut off is a quote character, and the result neither starts nor ends with one. |
| `AmendmentText.StripQuotesIdempotent` | src/shared/amendment-modules.ts:502-510 | Stripping quotes twice is stripping them once. |
| `AmendmentText.StripQuotesOnlyQuotes` | src/shared/amendment-modules.ts:502-510 | A text made only of quote characters becomes empty. |
| `AmendmentText.FirstOccurrence` | src/shared/amendment-modules.ts:548-550 | `self.indexOf(value) === index` holds exactly when the value does not occur earlier. |
| `AmendmentText.KeepFirstsValues` | src/shared/amendment-modules.ts:547-551 | The kept lines of a prefix are exactly the values of that prefix, and none is repeated. |
| `AmendmentText.KeepFirstsOfDistinct` | src/shared/amendment-modules.ts:547-551 | A list without repeats is kept whole. |
| `AmendmentText.KeepFirstsOrdered` | src/shared/amendment-modules.ts:547-551 | The kept lines are first occurrences among the prefix, in increasing order of their first position. |
| `AmendmentText.DedupSpec` | src/shared/amendment-modules.ts:541-553 | Removing duplicates keeps the same set of lines with no repeats, lists them in the order of their first occurrences, and keeps a list without repeats unchanged. These determine the result. |
| `AmendmentText.RemoveDuplicatesKeepsDistinctLines` | src/shared/amendment-modules.ts:541-553 | The output's lines are the input's lines deduplicated: distinct, with the same set of values, in the order of their first occurrences in the input. The module is idempotent. |
| `AmendmentText.JoinLinesChars` | src/shared/amendment-modules.ts:76 | The reference definition keeps the length and turns exactly those newlines not preceded by '.' into spaces. |
| `AmendmentText.ParkAndBlankDot` | src/shared/amendment-modules.ts:80-81 | A leading ".\n" is parked as the placeholder. |
| `AmendmentText.ParkAndBlankOther` | src/shared/amendment-modules.ts:80-81 | Otherwise a leading newline becomes a space and any other character is kept. |
| `AmendmentText.ParkAndBlankPrefix` | src/shared/amendment-modules.ts:80-81 | A prefix of the parked text that has neither 'D' nor ' ' was already a prefix of the input. |
| `AmendmentText.PlaceholderNotAtHead` | src/shared/amendment-modules.ts:80-82 | If the input has no placeholder, parking never creates one at a position starting with 'D'. |
| `AmendmentText.PdfNewlineRemoverJoinsLines` | src/shared/amendment-modules.ts:73-85 | For an input without the placeholder string, "PDF Newline Remover" equals the reference definition: it removes exactly the newlines not preceded by a period. |
| `AmendmentText.FakeListWithoutDashes` | src/shared/amendment-modules.ts:61-71 | A text without '-' is unchanged. |
| `AmendmentText.FakeListChars` | src/shared/amendment-modules.ts:61-71 | The module works character by character: on a concatenation it is the concatenation of its results. Every '-' becomes the list-item marker and every other character is kept. |
| `AmendmentText.FakeListHeadHasNoDash` | src/shared/amendment-modules.ts:61-71 | The first three characters of any result are never '-' (the marker starts with two newlines and a space; its dash is its fourth character). |
| `AmendmentText.FakeListRoundTrip` | src/shared/amendment-modules.ts:61-71 | For every text, turning every list-item marker back into '-' restores the input. |
| `AmendmentText.LeadingSpaces` | src/shared/amendment-modules.ts:410 | The count is at most the length, and the character after the counted run is not a space. |
| `AmendmentText.LeadingSpacesAreSpaces` | src/shared/amendment-modules.ts:410 | Every character before the count is a space. With `LeadingSpaces`, the count is the length of the maximal run of spaces at the start. |
| `AmendmentText.LeadingSpacesIs` | src/shared/amendment-modules.ts:410 | Whenever the first `k` characters are spaces and the next one is not, the count is `k`. |
| `AmendmentText.LeadingSpacesConcat` | src/shared/amendment-modules.ts:410 | Text appended after the first non-space character does not change the count. |
| `AmendmentText.FourSpacesAtStart` | src/shared/amendment-modules.ts:410 | The pattern matches at the start exactly when the text starts with four or more spaces. |
| `AmendmentText.SpaceToTabsLeading` | src/shared/amendment-modules.ts:404-412 | A leading run of four or more spaces is fully replaced, and a shorter run is kept. |
| `AmendmentText.SpaceToTabsNoFourSpaces` | src/shared/amendment-modules.ts:404-412 | The result contains no run of four spaces. |
| `AmendmentText.SpaceToTabsKeepsShortRuns` | src/shared/amendment-modules.ts:404-412 | A text without four consecutive spaces is unchanged. |
| `AmendmentText.SpaceToTabsKeepsHead` | src/shared/amendment-modules.ts:404-412 | A text that starts with fewer than four spaces keeps its first character, and the rest is converted. |
| `AmendmentText.SpaceToTabsTabHead` | src/shared/amendment-modules.ts:404-412 | A text that starts with four or more spaces starts with one tab, and the text after the whole run is converted. |
| `AmendmentText.SpaceToTabsConcat` | src/shared/amendment-modules.ts:404-412 | When the left part is empty or does not end in a space, converting a concatenation is converting each part. |
| `AmendmentText.SpaceToTabsLeadingRun` | src/shared/amendment-modules.ts:404-412 | A text that starts with a maximal run of n >= 4 spaces becomes one tab followed by the converted rest. |
| `AmendmentText.SpaceToTabsRun` | src/shared/amendment-modules.ts:404-412 | As the module's description says, any maximal run of four or more spaces becomes exactly one tab. The text on either side is converted on its own. |
| `AmendmentText.SpaceToTabsIdempotent` | src/shared/amendment-modules.ts:404-412 | Applying "Space to Tabs" twice is applying it once. |
| `AmendmentEquations.PlusMinus` | src/shared/amendment-modules.ts:108-119 | Models "Plus Minus". Its behaviour is stated by `PlusMinusBranches` and `PlusMinusWithoutSigns`. |
| `AmendmentEquations.Align` | src/shared/amendment-modules.ts:3-26 | Models "Align". Its behaviour is stated by `AlignOneRowPerLine`. |
| `AmendmentEquations.TransposeMatrix` | src/shared/amendment-modules.ts:253-273 | Models "Transpose Matrix". Its behaviour is stated by `TransposeMatrixInvalid`, `ResultBrackets` and `TransposeMatrixTwice`. |
| `AmendmentEquations.PlusMinusBranches` | src/shared/amendment-modules.ts:115-116 | Both branches keep the length. The imaginary branch maps ± to + and ∓ to -; the real branch maps ± to - and ∓ to +. Neither branch keeps a ± or ∓ sign. |
| `AmendmentEquations.PlusMinusWithoutSigns` | src/shared/amendment-modules.ts:108-119 | Without signs, "Plus Minus" returns `(t) + i*(t)`. |
| `AmendmentEquations.NotationFixes` | src/shared/amendment-modules.ts:11-15 | The three pairs of `fixUpBadNotation`, in the order they are applied. |
| `AmendmentEquations.FixedNotation` | src/shared/amendment-modules.ts:10-20 | What `fixUpBadNotation` returns: `\{`, `\}` and `\emsp` replaced everywhere by `\lbrace`, `\rbrace` and `\quad`, in that order. Its behaviour is stated by `FixUpBadNotation`, `FixedNotationWithoutBackslash` and `ApplyFixesNoNewline`. |
| `AmendmentEquations.FixUpBadNotation` | src/shared/amendment-modules.ts:10-20 | The loop applies the three notation fixes in order, as the fold over the fix table does. |
| `AmendmentEquations.ApplyFixesWithoutBackslash` | src/shared/amendment-modules.ts:16-18 | Fixes whose patterns start with a backslash leave a text without backslashes unchanged. |
| `AmendmentEquations.FixedNotationWithoutBackslash` | src/shared/amendment-modules.ts:10-20 | `fixUpBadNotation` leaves a text without backslashes unchanged. |
| `AmendmentEquations.ApplyFixesNoNewline` | src/shared/amendment-modules.ts:16-18 | Fixes whose replacements have no newline never introduce one. |
| `AmendmentEquations.AlignLinesAreLines` | src/shared/amendment-modules.ts:21 | For a text without "\bigm", parking and splitting yields exactly the text's lines. |
| `AmendmentEquations.AlignOneRowPerLine` | src/shared/amendment-modules.ts:3-26 | "Align" writes one aligned row per input line, between the fixed opening and closing. Its rows come back one per line. |
| `AmendmentEquations.Transpose` | src/shared/amendment-modules.ts:249-251 | Models `transpose`. Its behaviour is stated by `TransposeCells`, `TransposeCellsEntries` and `TransposeTwice`. |
| `AmendmentEquations.TransposeCells` | src/shared/amendment-modules.ts:249-251 | The transpose has one row per cell of the first row. |
| `AmendmentEquations.TransposeCellsEntries` | src/shared/amendment-modules.ts:249-251 | Entry (i, j) of the transpose is entry (j, i) of the input, or "" where that row is too short (JavaScript's undefined joined as ""). |
| `AmendmentEquations.TransposeTwice` | src/shared/amendment-modules.ts:249-251 | A non-empty rectangular grid transposed twice is itself. |
| `AmendmentEquations.TransposeMatrixInvalid` | src/shared/amendment-modules.ts:261-265 | Without '(' or without ')', the result is "Invalid input: ", then `first`, ", " and `last` in decimal, then a space, a vertical bar, a space and the input itself. `first` is the position of the first '(' and `last` that of the last ')'. Each is -1 exactly when that bracket is missing. |
| `AmendmentEquations.GridCells` | src/shared/amendment-modules.ts:268 | The grid has at least one cell per row, and no cell holds '&' or '@'. |
| `AmendmentEquations.GridOfJoinGrid` | src/shared/amendment-modules.ts:268-270 | Splitting a joined grid gives the grid back. |
| `AmendmentEquations.JoinGridOfGrid` | src/shared/amendment-modules.ts:268-270 | Joining a split text gives the text back. |
| `AmendmentEquations.ResultBrackets` | src/shared/amendment-modules.ts:271 | In the output, the first '(' and the last ')' enclose exactly the transposed body. |
| `AmendmentEquations.TransposeMatrixTwice` | src/shared/amendment-modules.ts:253-273 | For a rectangular matrix, transposing twice returns `[■(body)]` around the original body. |
| `AmendmentCsv.TsvToCsv` | src/shared/amendment-modules.ts:302-310 | Models "TSV to CSV". Its behaviour is stated by `TsvToCsvRewritesTabs`. |
| `AmendmentCsv.CsvToTsv` | src/shared/amendment-modules.ts:312-320 | Models "CSV to TSV". Its behaviour is stated by `CsvToTsvRewritesCommas`. |
| `AmendmentCsv.TsvToCsvRewritesTabs` | src/shared/amendment-modules.ts:302-310 | Every tab becomes ',', every other character is kept, and no tab is left. |
| `AmendmentCsv.CsvToTsvRewritesCommas` | src/shared/amendment-modules.ts:312-320 | Every ',' becomes a tab, every other character is kept, and no comma is left. |
| `AmendmentCsv.SeparatorRoundTrips` | src/shared/amendment-modules.ts:302-320 | The two conversions undo each other when the input holds no separator of the target format. |
| `AmendmentCsv.SeparatorsMixed` | src/shared/amendment-modules.ts:302-320 | A text holding both separators does not come back: `a\tb,c` becomes `a\tb\tc`. |
| `AmendmentCsv.CsvToList` | src/shared/amendment-modules.ts:341-345 | There is one row per line and at least one row, and every row has at least one cell. |
| `AmendmentCsv.ListToCsv` | src/shared/amendment-modules.ts:347-350 | Models `listToCSV`. Its inverse relation to `CsvToList` is stated by `CsvListRoundTrip`. |
| `AmendmentCsv.CsvRowRoundTrip` | src/shared/amendment-modules.ts:341-350 | Reading back a written row of trimmed cells without ',' or newlines gives the row. |
| `AmendmentCsv.CsvListRoundTrip` | src/shared/amendment-modules.ts:341-350 | Reading back a written table of such cells gives the table. |
| `AmendmentCsv.CsvTextRoundTrip` | src/shared/amendment-modules.ts:341-350 | Writing back a read text whose cells need no trimming gives the text. |
| `AmendmentCsv.FindIndices` | src/shared/amendment-modules.ts:435-443 | The loop returns the matching indices in increasing order. |
| `AmendmentCsv.MatchingIndicesSpec` | src/shared/amendment-modules.ts:435-443 | An index is returned exactly when it is in range and its element satisfies the predicate. The indices strictly increase and are all in range. |
| `AmendmentCsv.KeepColumnsFilter` | src/shared/amendment-modules.ts:458 | Dropping the listed indices keeps exactly the cells the predicate keeps, in order. |
| `AmendmentCsv.KeepHeaderColumns` | src/shared/amendment-modules.ts:456-458 | The header keeps exactly its cells that are neither blank nor start with "TEMP". |
| `AmendmentCsv.SelectFromCsv` | src/shared/amendment-modules.ts:446-461 | Models "Remove TEMP and blank columns". Its behaviour is stated by `SelectFromCsvColumns` and `SelectFromCsvHeader`. |
| `AmendmentCsv.SelectFromCsvColumns` | src/shared/amendment-modules.ts:446-461 | "Remove TEMP and blank columns" removes, from every row, the columns whose header is blank or starts with "TEMP", and writes the rest back. |
| `AmendmentCsv.SelectFromCsvHeader` | src/shared/amendment-modules.ts:446-461 | No header cell that is kept is blank or starts with "TEMP". |
| `AmendmentCsv.DigitRun` | src/shared/amendment-modules.ts:471 | The count is the length of the maximal run of digits at the start. |
| `AmendmentCsv.NumberLength` | src/shared/amendment-modules.ts:471 | A match at the start is non-empty and lies inside the text. |
| `AmendmentCsv.FirstNumber` | src/shared/amendment-modules.ts:470-473 | Models `findFirstNumber`. Its behaviour is stated by `FirstNumberEmpty`, `FirstNumberStartSpec`, `FirstNumberIdempotent` and `FirstNumberNoSeparator`. |
| `AmendmentCsv.FirstNumberFromEmpty` | src/shared/amendment-modules.ts:470-473 | There is no match from position p exactly when no digit follows p. |
| `AmendmentCsv.FirstNumberEmpty` | src/shared/amendment-modules.ts:470-473 | `findFirstNumber` returns "" exactly when the cell has no digit. |
| `AmendmentCsv.NumberChars` | src/shared/amendment-modules.ts:471 | A match consists only of '-', digits and '.'. |
| `AmendmentCsv.FirstNumberFromChars` | src/shared/amendment-modules.ts:470-473 | The first match from any position consists only of '-', digits and '.'. |
| `AmendmentCsv.NumberOfNumber` | src/shared/amendment-modules.ts:471 | A match, matched again on its own, is matched whole. |
| `AmendmentCsv.FirstNumberStart` | src/shared/amendment-modules.ts:470-473 | The position where the leftmost match starts, between `p` and the end of the cell. |
| `AmendmentCsv.FirstNumberStartNoEarlier` | src/shared/amendment-modules.ts:470-473 | No match starts at any position before `FirstNumberStart`. |
| `AmendmentCsv.FirstNumberStartSpec` | src/shared/amendment-modules.ts:470-473 | The result is the match at `FirstNumberStart`, no match starts at any earlier position, and the result is empty if no match starts at all. |
| `AmendmentCsv.FirstNumberIdempotent` | src/shared/amendment-modules.ts:470-473 | The first number of the first number is itself. |
| `AmendmentCsv.FirstNumberNoSeparator` | src/shared/amendment-modules.ts:470-475 | A first number never holds ',' or a newline. |
| `AmendmentCsv.ExtractNumberFromCsv` | src/shared/amendment-modules.ts:464-477 | Models "Extract Number From CSV". Its behaviour is stated by `ExtractNumberCells`. |
| `AmendmentCsv.ExtractNumberCells` | src/shared/amendment-modules.ts:464-477 | The output has as many lines as the input, and each line as many cells. Every cell is the first number of the input cell. |
| `AmendmentCsv.ExtractNumberIdempotent` | src/shared/amendment-modules.ts:464-477 | Applying "Extract Number From CSV" twice is applying it once. |
| `AmendmentTables.MaxWidth` | src/shared/amendment-modules.ts:562 | The width is at least every row's length and equals some row's length. |
| `AmendmentTables.PadRow` | src/shared/amendment-modules.ts:566-568 | The loop appends empty cells until the row has `maxLength` cells. |
| `AmendmentTables.PadWidth` | src/shared/amendment-modules.ts:566-568 | A padded row has exactly `maxLength` cells: the row, then empty cells. |
| `AmendmentTables.MarkdownRows` | src/shared/amendment-modules.ts:563-574 | The row loop writes the lines of the Markdown table. |
| `AmendmentTables.MarkdownTable` | src/shared/amendment-modules.ts:555-576 | The function that specifies "To Markdown Table". Its layout is stated by `MarkdownTableLayout`. |
| `AmendmentTables.ToMarkdownTable` | src/shared/amendment-modules.ts:555-576 | "To Markdown Table" writes the Markdown table of the CSV rows. |
| `AmendmentTables.LaTeXRows` | src/shared/amendment-modules.ts:585-597 | The opening, the row loop and the closing write the LaTeX table. |
| `AmendmentTables.LaTeXTable` | src/shared/amendment-modules.ts:577-599 | The function that specifies "To LaTeX Table". Its layout is stated by `LaTeXTableLayout`. |
| `AmendmentTables.ToLaTeXTable` | src/shared/amendment-modules.ts:577-599 | "To LaTeX Table" writes the LaTeX table of the CSV rows. |
| `AmendmentTables.TableLinesLayout` | src/shared/amendment-modules.ts:564-573 | The lines are the first row, the rule, then every other row in order, each padded. |
| `AmendmentTables.TableLinesStep` | src/shared/amendment-modules.ts:569-572 | One more row appends that row's line, and the rule right after the first row. |
| `AmendmentTables.CsvCellsSingleLine` | src/shared/amendment-modules.ts:341-345 | No cell read from CSV holds a newline. |
| `AmendmentTables.MarkdownOfLines` | src/shared/amendment-modules.ts:563-574 | Split at newlines, the Markdown table is its lines followed by an empty piece. |
| `AmendmentTables.LaTeXOfLines` | src/shared/amendment-modules.ts:585-597 | Split at newlines, the LaTeX table is the opening, its lines and the closing. |
| `AmendmentTables.MarkdownOfLayout` | src/shared/amendment-modules.ts:563-574 | The Markdown lines of single-line rows are the padded header, the rule with one dashed cell per column, and every other padded row. Every padded row has one cell per column. |
| `AmendmentTables.LaTeXOfLayout` | src/shared/amendment-modules.ts:585-597 | The LaTeX lines are the opening with one "c " per column, the padded header, "\hline", every other padded row and the closing. |
| `AmendmentTables.MarkdownTableLayout` | src/shared/amendment-modules.ts:555-576 | The Markdown layout holds for every CSV text. |
| `AmendmentTables.LaTeXTableLayout` | src/shared/amendment-modules.ts:577-599 | The LaTeX layout holds for every CSV text, and the closing is not followed by a newline. |
| `AmendmentRegistry.AlignModule` | src/shared/amendment-modules.ts:3-26 | The record "Align", repr "align", the description, inputType "MS Word Stacked Math", category WordEquations, operation `Align`. |
| `AmendmentRegistry.FakeListModule` | src/shared/amendment-modules.ts:61-71 | The record "Fake List to List", repr "fake-list-to-list", the description, inputType "Text", category Paper, operation `FakeListToList`. |
| `AmendmentRegistry.PdfNewlineModule` | src/shared/amendment-modules.ts:73-85 | The record "PDF Newline Remover", repr "pdf-newline-remover", the description, inputType "Text from PDF", category Paper, operation `PdfNewlineRemover`. |
| `AmendmentRegistry.PlusMinusModule` | src/shared/amendment-modules.ts:108-119 | The record "Plus Minus", repr "plus-minus", the description, inputType "Equation with ±", category WordEquations, operation `PlusMinus`. |
| `AmendmentRegistry.UnixPathModule` | src/shared/amendment-modules.ts:162-171 | The record "Unix Path", repr "unix-path", the description, inputType "Text", category Paths, operation `ToUnixPath`. |
| `AmendmentRegistry.WindowsPathModule` | src/shared/amendment-modules.ts:173-187 | The record "Windows Path", repr "windows-path", the description, inputType "Text", category Paths, operation `ToWindowsPath`. |
| `AmendmentRegistry.TransposeMatrixModule` | src/shared/amendment-modules.ts:253-273 | The record "Transpose Matrix", repr "transpose-matrix", the description, inputType "Equation", category WordEquations, operation `TransposeMatrix`. |
| `AmendmentRegistry.TsvToCsvModule` | src/shared/amendment-modules.ts:302-310 | The record "TSV to CSV", repr "tsv-to-csv", the description, no optional field, category CSV, operation `TsvToCsv`. |
| `AmendmentRegistry.CsvToTsvModule` | src/shared/amendment-modules.ts:312-320 | The record "CSV to TSV", repr "csv-to-tsv", the description, no optional field, category CSV, operation `CsvToTsv`. |
| `AmendmentRegistry.SpaceToTabsModule` | src/shared/amendment-modules.ts:404-412 | The record "Space to Tabs", repr "space-to-tabs", the description, no optional field, category CSV, operation `SpaceToTabs`. |
| `AmendmentRegistry.StripLeadingSpacesModule` | src/shared/amendment-modules.ts:414-422 | The record "Strip Leading and Trailing Spaces", repr "strip-leading-spaces", the description, no optional field, category Strings, operation `StripLeadingSpaces`. |
| `AmendmentRegistry.StripModule` | src/shared/amendment-modules.ts:424-432 | The record "Strip", repr "strip", the description, no optional field, category Strings, operation `Strip`. |
| `AmendmentRegistry.SelectFromCsvModule` | src/shared/amendment-modules.ts:446-461 | The record "Remove TEMP and blank columns from CSV", repr "select-from-csv", the description, no optional field, category CSV, operation `SelectFromCsv`. |
| `AmendmentRegistry.ExtractNumberModule` | src/shared/amendment-modules.ts:464-477 | The record "Extract Number From CSV", repr "extract-number-from-csv", the description, no optional field, category CSV, operation `ExtractNumberFromCsv`. |
| `AmendmentRegistry.GitBashModule` | src/shared/amendment-modules.ts:479-488 | The record "To Git Bash Path", repr "git-bash-2", the description, no optional field, category Paths, operation `ToGitBash`. |
| `AmendmentRegistry.WslPathModule` | src/shared/amendment-modules.ts:490-499 | The record "To WSL Path", repr "wsl-path-2", the description (the source reuses the Git Bash wording), no optional field, category Paths, operation `ToWslPath`. |
| `AmendmentRegistry.StripQuotesModule` | src/shared/amendment-modules.ts:502-510 | The record "Strip surrounding quotes", repr "Strip surrounding quotes", the description, no optional field, category Strings, operation `StripSurroundingQuotes`. |
| `AmendmentRegistry.ThisPCDescription` | src/shared/amendment-modules.ts:516 | The description of "This PC Folders to Full Path". |
| `AmendmentRegistry.ThisPCModule` | src/shared/amendment-modules.ts:513-527 | "This PC Folders to Full Path" as written: repr "Strip surrounding quotes", the same repr as `StripQuotesModule`. This is the subject of the second row under "## Findings". Also the description, no optional field, category Paths, operation `ThisPCFullPath`. |
| `AmendmentRegistry.ThisPCModuleCorrected` | src/shared/amendment-modules.ts:513-527 | The same record with the repr "this-pc-full-path" of its own. The corrected registry uses it. |
| `AmendmentRegistry.DedupModule` | src/shared/amendment-modules.ts:541-553 | The record "Remove Duplicates", repr "dupe-remover", the description, no optional field, category Strings, operation `RemoveDuplicatesFromList`. |
| `AmendmentRegistry.MarkdownTableModule` | src/shared/amendment-modules.ts:555-576 | The record "To Markdown Table", repr "md-tbl", the description, no optional field, category CSV, operation `MarkdownTable`. |
| `AmendmentRegistry.LaTeXTableModule` | src/shared/amendment-modules.ts:577-599 | The record "To LaTeX Table", repr "tex-tbl", the description, no optional field, category CSV, operation `LaTeXTable`. |
| `AmendmentRegistry.ExtensionNames` | src/shared/amendment-modules.ts:529 | The download formats csv, json, md, html and tex, in order. |
| `AmendmentRegistry.ExtModules` | src/shared/amendment-modules.ts:529-539 | `extAmendmentModules`: one `ExtModule` per download format, in order. |
| `AmendmentRegistry.AmendmentModules` | src/shared/amendment-modules.ts:669-676 | `amendmentModules` as written: `Registry` over `ThisPCModule`, so the repr "Strip surrounding quotes" appears twice. |
| `AmendmentRegistry.AmendmentModulesCorrected` | src/shared/amendment-modules.ts:669-676 | The registry over `ThisPCModuleCorrected`. Its reprs are pairwise distinct (`CorrectedReprsDistinct`). |
| `AmendmentRegistry.ExtModule` | src/shared/amendment-modules.ts:529-539 | An extension module has category ForceExtension, repr `ext-ext` and name `.ext`, and its operation is the identity. |
| `AmendmentRegistry.ExtModuleForcesFormat` | src/shared/amendment-modules.ts:529-539 | A pipe ending in an extension module downloads in that module's format. |
| `AmendmentRegistry.ExtModuleKeepsText` | src/shared/amendment-modules.ts:535-537 | An extension module anywhere in a pipe leaves the text it produces unchanged. |
| `AmendmentRegistry.PipeExample` | src/shared/string-pipe.ts:6-28 | The pipe [.csv, Strip, .json] strips the text and downloads as "json". |
| `AmendmentRegistry.Registry` | src/shared/amendment-modules.ts:669-676 | Models `amendmentModules`, in its order, for the modelled modules. The positions of "This PC Folders to Full Path" and "Strip surrounding quotes" are stated by `StripQuotesNeverSelected`. |
| `AmendmentRegistry.FindByRepr` | src/App.tsx:47-49 | The lookup returns the first index whose repr matches, or None exactly when no module has that repr. |
| `AmendmentRegistry.SelectionFindsModule` | src/App.tsx:47-52 | With distinct reprs, looking up a module's repr returns that module. |
| `AmendmentRegistry.StripQuotesNeverSelected` | src/shared/amendment-modules.ts:669-676 | As written, the repr of "Strip surrounding quotes" finds "This PC Folders to Full Path", and no lookup ever returns "Strip surrounding quotes". |
| `AmendmentRegistry.CorrectedReprsListed` | src/shared/amendment-modules.ts:669-676 | The corrected registry's reprs are the listed 26, in order. |
| `AmendmentRegistry.CorrectedReprsDistinct` | src/shared/amendment-modules.ts:669-676 | In the corrected registry, no two modules share a repr. |
| `AmendmentRegistry.CorrectedSelectionFindsEach` | src/shared/amendment-modules.ts:669-676 | In the corrected registry, every module is found by its own repr. |

## Left out

- The user interface is not modelled: `App.tsx` and the components under `src/components`. The one exception is the lookup by `repr` in `App.tsx`, which is `FindByRepr`.
- These modules are not modelled, because they rest on `JSON.stringify`/`JSON.parse`, on number parsing or on regular-expression features (look-around, lazy quantifiers) that this model does not state:
  - Text to List, Numbers to List, Literal to String, String to Literal and String Counter;
  - Math to Code and Matrix to code;
  - the three CSV/TSV to JSON modules, CSV to JSON Rows and JSON 2D list to CSV;
  - Pandoc Markdown to HTML and Soft Wrapper.
- Unicode Copy is not modelled. Its last step is a global `\)\d+` replacement whose callback inserts '*' after the ')', and this model does not state regular-expression replacement with a callback.
- To Upper Case is not modelled, because Unicode case mapping is not stated. The `console.log` in Transpose Matrix is output only and is left out.
- `AmendmentRegistry.Registry` lists the modelled modules in the registry's order. The modules above are left out of the list, so indices differ from the source's array.
- The enumeration as shown declares only Pandoc, WordEquations, Paper, Boilerplate and Strings. The modules and the pipe also use Paths, CSV and ForceExtension, and `AmendmentCategoryHolder` is imported but not shown. The model appends those three members, each with its key name as its value, and gives the holder a category name and a list of modules.
- Strings are sequences of Unicode scalar values. JavaScript strings are UTF-16, so lengths and indices differ for characters outside the Basic Multilingual Plane.
- `StringPipes.StringPipe.modules` is a value. The pipe does not share the array given to its constructor with the caller. A caller's in-place change of that array (`push`, `splice`) becomes a reassignment of the field, and a change made through another reference to the array is not seen by the pipe.
- The table modules pad each row by `push` on the array that `csvToList` returned. The model pads a copy (`PadRow` returns the padded row), because nothing else sees that array.
- The `csvData.length === 0` branch of `selectFromCSV` is modelled but can never be taken. `CsvToList` always yields at least one row.
- `Math.max` of an empty list is never evaluated, for the same reason.
- `AmendmentText.PdfNewlineRemoverJoinsLines` requires that the text not contain the placeholder `DOTNEWNt34#$@%#`. Otherwise the source turns that placeholder into ".\n" too.
- `AmendmentEquations.AlignLinesAreLines` and `AmendmentEquations.AlignOneRowPerLine` require that the text not contain `\bigm`. Otherwise the source also splits the line at that marker.
- The description of "Space to Tabs" says "more than 4" spaces. The code replaces runs of four or more, and the model follows the code.
- `AmendmentRegistry.ThisPCModuleCorrected` uses the repr `this-pc-full-path`. This name is chosen here; the source has no other repr for that module.

## Findings

| source | as written | input that shows it | evidently intended | confidence | as-written member | corrected member |
|---|---|---|---|---|---|---|
| src/shared/group-categories.ts:4-8 | The filter compares a module's category value with the enum's key name. | Any module of category WordEquations: its value "Word Equations" never equals the key "WordEquations". | Compare with each member's value, so that every module is in its own holder. | high, not executed | `GroupCategories.GroupDropsWordEquations` | `GroupCategories.GroupByValueHolds` |
| src/shared/amendment-modules.ts:515 | "This PC Folders to Full Path" has the repr "Strip surrounding quotes", the same as the module after it in the registry. | Selecting "Strip surrounding quotes" in the menu: the lookup in `App.tsx` returns "This PC Folders to Full Path". | A repr of its own for each module. | high, not executed | `AmendmentRegistry.StripQuotesNeverSelected` | `AmendmentRegistry.CorrectedSelectionFindsEach` |
