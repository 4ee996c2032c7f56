/** Reading the project's .gitignore (`check_gitignore`) and deriving the
    root-relative directory names from it (the `ignored_directories`
    comprehension in `main`). The file's lines come in already split; a
    missing file is `None`. */
module IgnoreList {
  import opened Wrappers
  import opened Text

  /** One line of the ignore file as `check_gitignore` normalises it. The
      `"./"` test sits behind the `"."` test, so it is never reached: a line
      starting with `"./"` also starts with `"."` and loses one character. */
  function NormaliseEntry(line: string): (entry: string)
    ensures StartsWith(line, ".") ==> |entry| == |line| - 1 && line == "." + entry
    ensures !StartsWith(line, ".") ==> entry == line
  {
    if StartsWith(line, ".") then Drop(line, 1)
    else if StartsWith(line, "./") then Drop(line, 2)
    else line
  }

  /** The normalised list, in the order of the file's lines. */
  function NormaliseAll(lines: seq<string>): seq<string> {
    seq(|lines|, k requires 0 <= k < |lines| => NormaliseEntry(lines[k]))
  }

  /** What `check_gitignore` returns for the given file contents. */
  function IgnoredNames(gitignore: Option<seq<string>>): seq<string> {
    match gitignore
    case None => []
    case Some(lines) => NormaliseAll(lines)
  }

  /** `check_gitignore`: appends one normalised entry per line, blank lines
      included; no .gitignore gives the empty list. */
  method CheckGitignore(gitignore: Option<seq<string>>) returns (checkedIgnoredFiles: seq<string>)
    ensures gitignore.None? ==> checkedIgnoredFiles == []
    ensures gitignore.Some? ==> |checkedIgnoredFiles| == |gitignore.value|
    ensures gitignore.Some? ==> forall k | 0 <= k < |gitignore.value| ::
      checkedIgnoredFiles[k] == NormaliseEntry(gitignore.value[k])
    ensures checkedIgnoredFiles == IgnoredNames(gitignore)
  {
    checkedIgnoredFiles := [];
    if gitignore.Some? {
      var ignoredFiles := gitignore.value;
      for i := 0 to |ignoredFiles|
        invariant |checkedIgnoredFiles| == i
        invariant forall k | 0 <= k < i :: checkedIgnoredFiles[k] == NormaliseEntry(ignoredFiles[k])
      {
        var file := ignoredFiles[i];
        if StartsWith(file, ".") {
          checkedIgnoredFiles := checkedIgnoredFiles + [Drop(file, 1)];
        } else if StartsWith(file, "./") {
          checkedIgnoredFiles := checkedIgnoredFiles + [Drop(file, 2)];
        } else {
          checkedIgnoredFiles := checkedIgnoredFiles + [file];
        }
      }
    }
  }

  /** A line written `./name` in the ignore file comes out as `/name`: the
      branch meant to strip `./` never runs. */
  lemma DotSlashEntryKeepsSlash(line: string)
    requires StartsWith(line, "./")
    ensures NormaliseEntry(line) == "/" + line[2..]
  {
    assert line[1..] == "/" + line[2..];
  }

  /** An entry is root-relative when it starts with `/` or `./`. */
  predicate IsRootRelative(entry: string) {
    StartsWith(entry, "/") || StartsWith(entry, "./")
  }

  /** `d.replace("/", "").replace("./", "")` */
  function DirectoryName(entry: string): string {
    Replace(Replace(entry, "/", ""), "./", "")
  }

  /** Once every `/` is gone there is no `./` left, so the second `replace`
      is a no-op. */
  lemma DirectoryNameRemovesSlashes(entry: string)
    ensures DirectoryName(entry) == Replace(entry, "/", "")
    ensures '/' !in DirectoryName(entry)
  {
    var once := Replace(entry, "/", "");
    ReplaceRemovesChar(entry, '/', "");
    forall i | 0 <= i <= |once| - 2
      ensures !OccursAt(once, "./", i)
    {
      assert once[i..i + 2][1] == once[i + 1];
    }
    ReplaceWithoutOccurrence(once, "./", "");
  }

  /** The `ignored_directories` comprehension over the normalised list. It
      holds exactly the root-relative entries with every `/` removed, none of
      its names holds a `/`, and it is never longer than the list. */
  function IgnoredDirectories(entries: seq<string>): (dirs: seq<string>)
    ensures |dirs| <= |entries|
    ensures forall k | 0 <= k < |dirs| :: '/' !in dirs[k]
    ensures forall d :: d in dirs <==>
      exists e :: e in entries && IsRootRelative(e) && Replace(e, "/", "") == d
    decreases |entries|
  {
    if entries == [] then []
    else
      var e := entries[0];
      var rest := IgnoredDirectories(entries[1..]);
      DirectoryNameRemovesSlashes(e);
      assert forall x :: x in entries <==> x == e || x in entries[1..];
      if IsRootRelative(e) then [DirectoryName(e)] + rest else rest
  }

  /** Without a root-relative entry there is no ignored directory. */
  lemma {:induction false} NoRootRelativeEntryNoDirectories(entries: seq<string>)
    requires forall k | 0 <= k < |entries| :: !IsRootRelative(entries[k])
    ensures IgnoredDirectories(entries) == []
    decreases |entries|
  {
    if entries != [] {
      NoRootRelativeEntryNoDirectories(entries[1..]);
    }
  }

  lemma ExampleNormalised()
    ensures NormaliseAll(["./build", "/dist/", ".env", "src/"]) == ["/build", "/dist/", "env", "src/"]
  {
    DotSlashEntryKeepsSlash("./build");
    assert "/dist/"[..1][0] == '/' && "src/"[..1][0] == 's';
    assert NormaliseEntry(".env") == "env";
  }

  lemma ExampleDirectoryNames()
    ensures DirectoryName("/dist/") == "dist"
    ensures DirectoryName("/build") == "build"
  {
    DirectoryNameRemovesSlashes("/dist/");
    assert "/dist/"[1..] == "dist/" && "dist/"[4..] == "/";
    assert Replace("/", "/", "") == "";
    assert Replace("dist/", "/", "") == "dist";
    DirectoryNameRemovesSlashes("/build");
    ContainsOneChar("build", '/');
    ReplaceWithoutOccurrence("build", "/", "");
    assert "/build"[1..] == "build";
  }

  lemma ExampleNotRootRelative()
    ensures IgnoredDirectories(["env", "src/"]) == []
  {
    assert "env"[..1][0] == 'e' && "env"[..2][0] == 'e';
    assert "src/"[..1][0] == 's' && "src/"[..2][0] == 's';
    assert ["env", "src/"][1..] == ["src/"];
  }

  /** From the ignore file to the directory list: `./build` and `/dist/`
      name the directories `build` and `dist`, while `.env` and `src/` name
      none. */
  lemma {:induction false} ExampleIgnoredDirectories()
    ensures IgnoredDirectories(NormaliseAll(["./build", "/dist/", ".env", "src/"])) == ["build", "dist"]
  {
    var first, second := "/build", "/dist/";
    var tail: seq<string> := ["env", "src/"];
    assert NormaliseAll(["./build", "/dist/", ".env", "src/"]) == [first] + ([second] + tail) by {
      ExampleNormalised();
    }
    assert IgnoredDirectories([second] + tail) == ["dist"] by {
      assert IsRootRelative(second) by { assert second[..1] == "/"; }
      IgnoredDirectoriesCons(second, tail);
      ExampleNotRootRelative();
      ExampleDirectoryNames();
    }
    assert IgnoredDirectories([first] + ([second] + tail)) == ["build", "dist"] by {
      assert IsRootRelative(first) by { assert first[..1] == "/"; }
      IgnoredDirectoriesCons(first, [second] + tail);
      ExampleDirectoryNames();
    }
  }

  /** One more entry in front of the list. */
  lemma IgnoredDirectoriesCons(e: string, rest: seq<string>)
    ensures IgnoredDirectories([e] + rest)
         == (if IsRootRelative(e) then [DirectoryName(e)] else []) + IgnoredDirectories(rest)
  {
    assert ([e] + rest)[1..] == rest;
  }

  /** The comprehension keeps the order and the multiplicity of the
      entries: the directories of a concatenation are those of its first part
      followed by those of its second. With `IgnoredDirectoriesCons` this
      fixes the list as the in-order sequence of the names of the
      root-relative entries, one per entry. */
  lemma {:induction false} IgnoredDirectoriesAppend(a: seq<string>, b: seq<string>)
    ensures IgnoredDirectories(a + b) == IgnoredDirectories(a) + IgnoredDirectories(b)
    decreases |a|
  {
    if a == [] {
      assert a + b == b;
    } else {
      assert (a + b)[1..] == a[1..] + b;
      IgnoredDirectoriesAppend(a[1..], b);
    }
  }

  /** `is_file_in_ignored_directory`: after turning backslashes into `/`,
      some ignored name occurs anywhere in the path -- a substring test, not
      a test on path components. The script defines it but never calls it. */
  predicate IsFileInIgnoredDirectory(filePath: string, ignoredDirectories: seq<string>) {
    var path := Replace(filePath, "\\", "/");
    exists k | 0 <= k < |ignoredDirectories| :: Contains(path, ignoredDirectories[k])
  }

  /** No ignored directories: no path is in one. An empty name, which the
      ignore-file line `/` produces, puts every path in one. */
  lemma IgnoredDirectoryEdgeCases(filePath: string, ignoredDirectories: seq<string>)
    ensures !IsFileInIgnoredDirectory(filePath, [])
    ensures "" in ignoredDirectories ==> IsFileInIgnoredDirectory(filePath, ignoredDirectories)
  {
    if "" in ignoredDirectories {
      var k :| 0 <= k < |ignoredDirectories| && ignoredDirectories[k] == "";
      assert OccursAt(Replace(filePath, "\\", "/"), ignoredDirectories[k], 0);
    }
  }

  /** A name matches wherever it occurs in the path: `build` puts
      `rebuild.txt` in an ignored directory although no directory of that
      name is on its path. */
  lemma IgnoredNameMatchesInsideWord(sep: char)
    requires sep != '\\'
    ensures IsFileInIgnoredDirectory("." + [sep] + "rebuild.txt", ["build"])
  {
    var p := "." + [sep] + "rebuild.txt";
    var word := "rebuild.txt";
    assert p[2..] == word;
    forall i | 0 <= i < |p|
      ensures p[i] != '\\'
    {
      if i >= 2 {
        assert p[i] == word[i - 2];
      }
    }
    ContainsOneChar(p, '\\');
    ReplaceWithoutOccurrence(p, "\\", "/");
    assert p[4..9] == word[2..7] == "build";
    assert OccursAt(p, "build", 4);
    assert Contains(p, ["build"][0]);
  }
}
