/**
 * The path amendment modules of src/shared/amendment-modules.ts: Unix,
 * Windows, Git Bash and WSL path conventions, and the expansion of the
 * "This PC" folder names.
 */
module AmendmentPaths {
  import opened JsStrings

  /** "Unix Path": every backslash becomes a slash. */
  function ToUnixPath(text: string): string {
    ReplaceAll(text, "\\", "/")
  }

  /** Every slash becomes a backslash. */
  function SlashesToBackslashes(text: string): string {
    ReplaceAll(text, "/", "\\")
  }

  /** "Windows Path": a leading "/c" or "/mnt/c" becomes "C:", then every slash becomes a backslash. */
  function ToWindowsPath(text: string): string {
    var t :=
      if StartsWith(text, "/c") then Replace(text, "/c", "C:")
      else if StartsWith(text, "/mnt/c") then Replace(text, "/mnt/c", "C:")
      else text;
    SlashesToBackslashes(t)
  }

  /** "To Git Bash Path": backslashes become slashes, then the first "C:" becomes "/c". */
  function ToGitBash(text: string): string {
    Replace(ToUnixPath(text), "C:", "/c")
  }

  /** "To WSL Path": backslashes become slashes, then the first "C:" becomes "/mnt/c". */
  function ToWslPath(text: string): string {
    Replace(ToUnixPath(text), "C:", "/mnt/c")
  }

  /**
   * Git Bash: after the backslashes become slashes, the text is kept when it
   * has no "C:", and otherwise exactly its first "C:" becomes "/c".
   */
  lemma ToGitBashFirstDrive(text: string)
    ensures !Contains(ToUnixPath(text), "C:") ==> ToGitBash(text) == ToUnixPath(text)
    ensures forall i: nat {:trigger OccursAt(ToUnixPath(text), "C:", i)} ::
              OccursAt(ToUnixPath(text), "C:", i) && (forall j: nat :: j < i ==> !OccursAt(ToUnixPath(text), "C:", j)) ==>
                ToGitBash(text) == ToUnixPath(text)[..i] + "/c" + ToUnixPath(text)[i + 2..]
  {
    var u := ToUnixPath(text);
    forall i: nat | OccursAt(u, "C:", i) && (forall j: nat :: j < i ==> !OccursAt(u, "C:", j))
      ensures ToGitBash(text) == u[..i] + "/c" + u[i + 2..]
    {
      ReplaceAtFirst(u, "C:", "/c", i);
    }
  }

  /**
   * WSL: after the backslashes become slashes, the text is kept when it has
   * no "C:", and otherwise exactly its first "C:" becomes "/mnt/c".
   */
  lemma ToWslPathFirstDrive(text: string)
    ensures !Contains(ToUnixPath(text), "C:") ==> ToWslPath(text) == ToUnixPath(text)
    ensures forall i: nat {:trigger OccursAt(ToUnixPath(text), "C:", i)} ::
              OccursAt(ToUnixPath(text), "C:", i) && (forall j: nat :: j < i ==> !OccursAt(ToUnixPath(text), "C:", j)) ==>
                ToWslPath(text) == ToUnixPath(text)[..i] + "/mnt/c" + ToUnixPath(text)[i + 2..]
  {
    var u := ToUnixPath(text);
    forall i: nat | OccursAt(u, "C:", i) && (forall j: nat :: j < i ==> !OccursAt(u, "C:", j))
      ensures ToWslPath(text) == u[..i] + "/mnt/c" + u[i + 2..]
    {
      ReplaceAtFirst(u, "C:", "/mnt/c", i);
    }
  }

  /** The folders of "This PC", in the order they are tried. */
  const ThisPCFolders: seq<string> := ["3D Objects", "Desktop", "Documents", "Downloads", "Music", "Pictures", "Videos"]

  /** What a folder name is prefixed with. */
  const UserFolderPrefix: string := "C:\\Users\\%USERNAME%\\"

  /** The text after trying the folders `fs` in order, each rewriting a leading folder name to its full path. */
  function PrefixFolders(fs: seq<string>, text: string): string
    decreases |fs|
  {
    if |fs| == 0 then text
    else
      var t := PrefixFolders(fs[..|fs| - 1], text);
      var tf := fs[|fs| - 1];
      if StartsWith(t, tf) then Replace(t, tf, UserFolderPrefix + tf) else t
  }

  /** "This PC Folders to Full Path" */
  function ThisPCFullPath(text: string): string {
    PrefixFolders(ThisPCFolders, text)
  }

  /** The loop of "This PC Folders to Full Path", which reassigns the text once per folder. */
  method ThisPCFoldersAccessToFullPath(text: string) returns (r: string)
    ensures r == ThisPCFullPath(text)
  {
    r := text;
    var i := 0;
    while i < |ThisPCFolders|
      invariant 0 <= i <= |ThisPCFolders|
      invariant r == PrefixFolders(ThisPCFolders[..i], text)
    {
      assert ThisPCFolders[..i + 1][..i] == ThisPCFolders[..i];
      var tf := ThisPCFolders[i];
      if StartsWith(r, tf) {
        r := Replace(r, tf, UserFolderPrefix + tf);
      }
      i := i + 1;
    }
    assert ThisPCFolders[..i] == ThisPCFolders;
  }

  // ---------------------------------------------------------------------
  // Properties
  // ---------------------------------------------------------------------

  /** Unix Path keeps the length, turns each backslash into a slash, changes nothing else and leaves no backslash. */
  lemma UnixPathRewritesBackslashes(text: string)
    ensures |ToUnixPath(text)| == |text|
    ensures forall i :: 0 <= i < |text| ==> ToUnixPath(text)[i] == if text[i] == '\\' then '/' else text[i]
    ensures '\\' !in ToUnixPath(text)
  {
    ReplaceCharByChar(text, '\\', '/');
  }

  /** Slashes to backslashes keeps the length, changes nothing else and leaves no slash. */
  lemma SlashesRewritten(text: string)
    ensures |SlashesToBackslashes(text)| == |text|
    ensures forall i :: 0 <= i < |text| ==> SlashesToBackslashes(text)[i] == if text[i] == '/' then '\\' else text[i]
    ensures '/' !in SlashesToBackslashes(text)
  {
    ReplaceCharByChar(text, '/', '\\');
  }

  /**
   * Windows Path: "/c" + rest and "/mnt/c" + rest become "C:" + rest, any
   * other input is kept, and then every slash is a backslash.
   */
  lemma WindowsPathCases(text: string)
    ensures StartsWith(text, "/c") ==> ToWindowsPath(text) == "C:" + SlashesToBackslashes(text[2..])
    ensures !StartsWith(text, "/c") && StartsWith(text, "/mnt/c") ==>
              ToWindowsPath(text) == "C:" + SlashesToBackslashes(text[6..])
    ensures !StartsWith(text, "/c") && !StartsWith(text, "/mnt/c") ==> ToWindowsPath(text) == SlashesToBackslashes(text)
    ensures '/' !in ToWindowsPath(text)
  {
    if StartsWith(text, "/c") {
      ReplaceAtStart(text, "/c", "C:");
      ReplaceCharConcat("C:", text[2..], '/', '\\');
      ReplaceCharAbsent("C:", '/', '\\');
    } else if StartsWith(text, "/mnt/c") {
      ReplaceAtStart(text, "/mnt/c", "C:");
      ReplaceCharConcat("C:", text[6..], '/', '\\');
      ReplaceCharAbsent("C:", '/', '\\');
    }
    var t :=
      if StartsWith(text, "/c") then Replace(text, "/c", "C:")
      else if StartsWith(text, "/mnt/c") then Replace(text, "/mnt/c", "C:")
      else text;
    SlashesRewritten(t);
  }

  /** Git Bash and WSL leave no backslash. */
  lemma BashAndWslHaveNoBackslash(text: string)
    ensures '\\' !in ToGitBash(text) && '\\' !in ToWslPath(text)
  {
    UnixPathRewritesBackslashes(text);
    if '\\' in ToGitBash(text) {
      ReplaceChars(ToUnixPath(text), "C:", "/c", '\\');
    }
    if '\\' in ToWslPath(text) {
      ReplaceChars(ToUnixPath(text), "C:", "/mnt/c", '\\');
    }
  }

  /** A path on drive C: becomes "/c" (Git Bash) or "/mnt/c" (WSL) followed by the rest with slashes. */
  lemma DriveCToBashAndWsl(rest: string)
    ensures ToGitBash("C:" + rest) == "/c" + ToUnixPath(rest)
    ensures ToWslPath("C:" + rest) == "/mnt/c" + ToUnixPath(rest)
  {
    ReplaceCharConcat("C:", rest, '\\', '/');
    ReplaceCharAbsent("C:", '\\', '/');
    var u := ToUnixPath("C:" + rest);
    assert u == "C:" + ToUnixPath(rest);
    ReplaceAtStart(u, "C:", "/c");
    ReplaceAtStart(u, "C:", "/mnt/c");
    assert u[2..] == ToUnixPath(rest);
  }

  /** Slashes to backslashes undoes Unix Path on a text without slashes. */
  lemma SlashesUndoUnixPath(rest: string)
    requires '/' !in rest
    ensures SlashesToBackslashes(ToUnixPath(rest)) == rest
  {
    var u := ToUnixPath(rest);
    UnixPathRewritesBackslashes(rest);
    SlashesRewritten(u);
    var back := SlashesToBackslashes(u);
    forall i | 0 <= i < |rest| ensures back[i] == rest[i] {
      assert rest[i] != '/';
    }
  }

  /** Windows Path undoes Git Bash on a drive C: path that uses only backslashes. */
  lemma WindowsPathUndoesGitBash(rest: string)
    requires '/' !in rest
    ensures ToWindowsPath(ToGitBash("C:" + rest)) == "C:" + rest
  {
    DriveCToBashAndWsl(rest);
    SlashesUndoUnixPath(rest);
    var u := ToUnixPath(rest);
    var g := "/c" + u;
    assert StartsWith(g, "/c");
    assert g[2..] == u;
    WindowsPathCases(g);
  }

  /** Windows Path undoes WSL on a drive C: path that uses only backslashes. */
  lemma WindowsPathUndoesWsl(rest: string)
    requires '/' !in rest
    ensures ToWindowsPath(ToWslPath("C:" + rest)) == "C:" + rest
  {
    DriveCToBashAndWsl(rest);
    SlashesUndoUnixPath(rest);
    var u := ToUnixPath(rest);
    var w := "/mnt/c" + u;
    assert !StartsWith(w, "/c") by { assert w[..2][1] == 'm'; }
    assert StartsWith(w, "/mnt/c");
    assert w[6..] == u;
    WindowsPathCases(w);
  }

  /** Unix Path on the example "C:\Users\a" gives "C:/Users/a". */
  lemma UnixPathExample()
    ensures ToUnixPath("C:\\Users\\a") == "C:/Users/a"
  {
    var s := "C:\\Users\\a";
    UnixPathRewritesBackslashes(s);
    var u := ToUnixPath(s);
    assert |u| == 10;
    forall i | 0 <= i < 10 ensures u[i] == "C:/Users/a"[i] {
    }
  }

  /** Git Bash on the example "C:\\Users\\a" gives "/c/Users/a". */
  lemma GitBashExample()
    ensures ToGitBash("C:\\Users\\a") == "/c/Users/a"
  {
    var s := "C:\\Users\\a";
    UnixPathExample();
    var u := ToUnixPath(s);
    assert u[..2] == "C:";
    ReplaceAtStart(u, "C:", "/c");
    assert ToGitBash(s) == "/c" + u[2..];
    assert u[2..] == "/Users/a";
  }

  /** Rewriting a leading folder name puts the user prefix before the whole text. */
  lemma PrefixFolderAtStart(t: string, tf: string)
    requires StartsWith(t, tf)
    ensures Replace(t, tf, UserFolderPrefix + tf) == UserFolderPrefix + t
  {
    ReplaceAtStart(t, tf, UserFolderPrefix + tf);
    assert t == tf + t[|tf|..];
  }

  /**
   * Trying folders none of which starts with 'C' rewrites a text that starts
   * with one of them to the user prefix followed by the text, once, and
   * leaves any other text alone.
   */
  lemma {:induction false} PrefixFoldersOnce(fs: seq<string>, text: string)
    requires forall k :: 0 <= k < |fs| ==> |fs[k]| > 0 && fs[k][0] != 'C'
    ensures PrefixFolders(fs, text) ==
            if exists k :: 0 <= k < |fs| && StartsWith(text, fs[k]) then UserFolderPrefix + text else text
    decreases |fs|
  {
    if |fs| > 0 {
      var n := |fs|;
      var init := fs[..n - 1];
      PrefixFoldersOnce(init, text);
      var t := PrefixFolders(init, text);
      var tf := fs[n - 1];
      var earlier := exists k :: 0 <= k < |init| && StartsWith(text, init[k]);
      if earlier {
        var k :| 0 <= k < |init| && StartsWith(text, init[k]);
        assert fs[k] == init[k];
        assert t[0] == 'C';
        assert !StartsWith(t, tf) by { if |tf| <= |t| { assert t[..|tf|][0] == t[0]; } }
      } else {
        assert t == text;
        if StartsWith(t, tf) {
          PrefixFolderAtStart(t, tf);
        } else {
          forall k | 0 <= k < |fs| ensures !StartsWith(text, fs[k]) {
            if k < n - 1 { assert fs[k] == init[k]; }
          }
        }
      }
    }
  }

  /** This PC: a text that starts with one of the folder names gets the user prefix, once; any other text is kept. */
  lemma ThisPCPrefixesOnce(text: string)
    ensures ThisPCFullPath(text) ==
            if exists k :: 0 <= k < |ThisPCFolders| && StartsWith(text, ThisPCFolders[k]) then UserFolderPrefix + text else text
  {
    PrefixFoldersOnce(ThisPCFolders, text);
  }

  /** This PC: the example "Desktop\a.txt" becomes "C:\Users\%USERNAME%\Desktop\a.txt". */
  lemma ThisPCExample()
    ensures ThisPCFullPath("Desktop\\a.txt") == "C:\\Users\\%USERNAME%\\Desktop\\a.txt"
  {
    ThisPCPrefixesOnce("Desktop\\a.txt");
    assert StartsWith("Desktop\\a.txt", ThisPCFolders[1]);
  }
}
