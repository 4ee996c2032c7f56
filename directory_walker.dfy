/** The violation scan in `main`: walk the tree, drop ignored file names and
    the validator's own file, decide per file whether to run the pattern
    matcher, and collect what it reports. File contents come from `disk`; a
    path missing from it cannot be read, and the run stops there. */
module DirectoryWalker {
  import opened Wrappers
  import opened Text
  import opened FileTree
  import opened PatternMatcher

  /** `[file for file in files if file not in ignored_files]` */
  function Unignored(files: seq<string>, ignoredFiles: seq<string>): (kept: seq<string>)
    ensures |kept| <= |files|
  {
    if files == [] then []
    else
      var rest := Unignored(files[1..], ignoredFiles);
      if files[0] in ignoredFiles then rest else [files[0]] + rest
  }

  /** The filter keeps every copy of a name that is not ignored, in any
      number, and no copy of one that is. */
  lemma {:induction false} UnignoredCounts(files: seq<string>, ignoredFiles: seq<string>)
    ensures forall f :: multiset(Unignored(files, ignoredFiles))[f] == if f in ignoredFiles then 0 else multiset(files)[f]
    decreases |files|
  {
    if files != [] {
      UnignoredCounts(files[1..], ignoredFiles);
      assert files == [files[0]] + files[1..];
    }
  }

  /** The names left in one directory after the filter and
      `files.remove(tail)`. */
  function FilesToScan(files: seq<string>, ignoredFiles: seq<string>, tail: string): seq<string> {
    var unignored := Unignored(files, ignoredFiles);
    if tail in unignored then RemoveFirst(unignored, tail) else unignored
  }

  /** A name is kept exactly when it is listed, is not in the ignored list,
      and is not the validator's own name -- unless that name is listed
      twice, since `remove` takes out one copy only. */
  lemma FilesToScanMembership(files: seq<string>, ignoredFiles: seq<string>, tail: string)
    ensures forall f :: f in FilesToScan(files, ignoredFiles, tail) <==>
      f in files && f !in ignoredFiles && (f != tail || multiset(files)[tail] > 1)
  {
    var unignored := Unignored(files, ignoredFiles);
    UnignoredCounts(files, ignoredFiles);
    forall f
      ensures f in FilesToScan(files, ignoredFiles, tail) <==>
        f in files && f !in ignoredFiles && (f != tail || multiset(files)[tail] > 1)
    {
      assert f in files <==> multiset(files)[f] > 0;
      assert f in unignored <==> multiset(unignored)[f] > 0;
      if tail in unignored {
        var kept := RemoveFirst(unignored, tail);
        assert f in kept <==> multiset(kept)[f] > 0;
      }
    }
  }

  /** The decision at the top of the per-file `try`: split the path on
      backslashes; with fewer than two parts the lookup fails and the file is
      scanned anyway, otherwise it is scanned unless its second part is an
      ignored directory. */
  function ShouldScan(filePath: string, ignoredDirectories: seq<string>): bool {
    var compareDir := Split(filePath, '\\');
    |compareDir| < 2 || compareDir[1] !in ignoredDirectories
  }

  /** A path without a backslash (every path on a system whose separator is
      `/`) is always scanned, whatever the ignored directories are. */
  lemma NoBackslashAlwaysScanned(filePath: string, ignoredDirectories: seq<string>)
    requires '\\' !in filePath
    ensures ShouldScan(filePath, ignoredDirectories)
  {
    var parts := Split(filePath, '\\');
    if |parts| >= 2 {
      JoinHoldsSeparator(parts, '\\');
    }
  }

  /** For `first\second` or `first\second\...`, the file is skipped exactly
      when `second` is an ignored directory. */
  lemma SecondComponentDecides(first: string, second: string, rest: string, ignoredDirectories: seq<string>)
    requires '\\' !in first && '\\' !in second
    requires rest == [] || rest[0] == '\\'
    ensures ShouldScan(first + "\\" + second + rest, ignoredDirectories) <==> second !in ignoredDirectories
  {
    var t := second + rest;
    assert first + "\\" + second + rest == first + ['\\'] + t;
    SplitAfterFirst(first, t, '\\');
    SplitFirstPart(second, rest, '\\');
  }

  /** With `build` ignored, `.\build\secrets.txt` (a Windows path) is
      skipped but `./build/secrets.txt` (a POSIX path) is still scanned. */
  lemma BuildDirectoryOnlySkippedWithBackslashes()
    ensures !ShouldScan(".\\build\\secrets.txt", ["build"])
    ensures ShouldScan("./build/secrets.txt", ["build"])
  {
    SecondComponentDecides(".", "build", "\\secrets.txt", ["build"]);
    assert ".\\build\\secrets.txt" == "." + "\\" + "build" + "\\secrets.txt";
    NoBackslashAlwaysScanned("./build/secrets.txt", ["build"]);
  }

  /** The paths of one directory's files that are handed to the matcher, in
      order. */
  function DirectoryTargets(root: string, files: seq<string>, ignoredDirectories: seq<string>, sep: char): seq<string>
  {
    if files == [] then []
    else
      var filePath := JoinPath(root, files[|files| - 1], sep);
      DirectoryTargets(root, files[..|files| - 1], ignoredDirectories, sep)
      + (if ShouldScan(filePath, ignoredDirectories) then [filePath] else [])
  }

  /** The paths handed to the matcher over the whole walk, in order. */
  function WalkTargets(walk: seq<WalkEntry>, ignoredFiles: seq<string>, ignoredDirectories: seq<string>,
                       tail: string, sep: char): seq<string>
  {
    if walk == [] then []
    else
      WalkTargets(walk[..|walk| - 1], ignoredFiles, ignoredDirectories, tail, sep)
      + EntryTargets(walk[|walk| - 1], ignoredFiles, ignoredDirectories, tail, sep)
  }

  /** The paths handed to the matcher for one walked directory. */
  function EntryTargets(entry: WalkEntry, ignoredFiles: seq<string>, ignoredDirectories: seq<string>,
                        tail: string, sep: char): seq<string>
  {
    DirectoryTargets(entry.root, FilesToScan(entry.files, ignoredFiles, tail), ignoredDirectories, sep)
  }

  /** Running the matcher on each target in turn and concatenating what it
      returns; the first target that cannot be read stops the run. */
  function ScanAll(targets: seq<string>, disk: map<string, seq<string>>): Result<seq<string>, string>
  {
    if targets == [] then Ok([])
    else
      match ScanAll(targets[..|targets| - 1], disk)
      case Err(p) => Err(p)
      case Ok(found) =>
        var filePath := targets[|targets| - 1];
        if filePath !in disk then Err(filePath)
        else Ok(found + if FileFlagged(disk[filePath]) then [filePath] else [])
  }

  /** One more file: its path is added when `ShouldScan` accepts it. */
  lemma DirectoryTargetsStep(root: string, files: seq<string>, i: nat, ignoredDirectories: seq<string>, sep: char)
    requires i < |files|
    ensures DirectoryTargets(root, files[..i + 1], ignoredDirectories, sep)
         == DirectoryTargets(root, files[..i], ignoredDirectories, sep)
          + (if ShouldScan(JoinPath(root, files[i], sep), ignoredDirectories) then [JoinPath(root, files[i], sep)] else [])
  {
    assert files[..i + 1][..i] == files[..i];
    assert files[..i + 1][i] == files[i];
  }

  /** One more walked directory: its targets are added. */
  lemma WalkTargetsStep(walk: seq<WalkEntry>, w: nat, ignoredFiles: seq<string>, ignoredDirectories: seq<string>,
                        tail: string, sep: char)
    requires w < |walk|
    ensures WalkTargets(walk[..w + 1], ignoredFiles, ignoredDirectories, tail, sep)
         == WalkTargets(walk[..w], ignoredFiles, ignoredDirectories, tail, sep)
          + EntryTargets(walk[w], ignoredFiles, ignoredDirectories, tail, sep)
  {
    assert walk[..w + 1][..w] == walk[..w];
    assert walk[..w + 1][w] == walk[w];
  }

  /** One more target: the scan stops there if it cannot be read, and
      otherwise adds the matcher's answer for it. */
  lemma ScanAllStep(before: seq<string>, filePath: string, disk: map<string, seq<string>>)
    requires ScanAll(before, disk).Ok?
    ensures ScanAll(before + [filePath], disk)
         == if filePath !in disk then Err(filePath)
            else Ok(ScanAll(before, disk).value + if FileFlagged(disk[filePath]) then [filePath] else [])
  {
    assert (before + [filePath])[..|before|] == before;
  }

  lemma {:induction false} DirectoryTargetsAppend(root: string, a: seq<string>, b: seq<string>,
                                                  ignoredDirectories: seq<string>, sep: char)
    ensures DirectoryTargets(root, a + b, ignoredDirectories, sep)
         == DirectoryTargets(root, a, ignoredDirectories, sep) + DirectoryTargets(root, b, ignoredDirectories, sep)
    decreases |b|
  {
    if b == [] {
      assert a + b == a;
    } else {
      var init := b[..|b| - 1];
      var ab := a + b;
      var filePath := JoinPath(root, b[|b| - 1], sep);
      var e := if ShouldScan(filePath, ignoredDirectories) then [filePath] else [];
      assert DirectoryTargets(root, ab, ignoredDirectories, sep)
          == DirectoryTargets(root, a + init, ignoredDirectories, sep) + e by {
        assert ab[..|ab| - 1] == a + init;
        assert ab[|ab| - 1] == b[|b| - 1];
      }
      DirectoryTargetsAppend(root, a, init, ignoredDirectories, sep);
    }
  }

  lemma {:induction false} WalkTargetsAppend(a: seq<WalkEntry>, b: seq<WalkEntry>, ignoredFiles: seq<string>,
                                             ignoredDirectories: seq<string>, tail: string, sep: char)
    ensures WalkTargets(a + b, ignoredFiles, ignoredDirectories, tail, sep)
         == WalkTargets(a, ignoredFiles, ignoredDirectories, tail, sep)
          + WalkTargets(b, ignoredFiles, ignoredDirectories, tail, sep)
    decreases |b|
  {
    if b == [] {
      assert a + b == a;
    } else {
      var init := b[..|b| - 1];
      var ab := a + b;
      var e := EntryTargets(b[|b| - 1], ignoredFiles, ignoredDirectories, tail, sep);
      assert WalkTargets(ab, ignoredFiles, ignoredDirectories, tail, sep)
          == WalkTargets(a + init, ignoredFiles, ignoredDirectories, tail, sep) + e by {
        assert ab[..|ab| - 1] == a + init;
        assert ab[|ab| - 1] == b[|b| - 1];
      }
      WalkTargetsAppend(a, init, ignoredFiles, ignoredDirectories, tail, sep);
    }
  }

  /** Once the scan of a prefix has stopped, nothing after it matters. */
  lemma {:induction false} ScanAllStops(a: seq<string>, b: seq<string>, disk: map<string, seq<string>>)
    requires ScanAll(a, disk).Err?
    ensures ScanAll(a + b, disk) == ScanAll(a, disk)
    decreases |b|
  {
    if b == [] {
      assert a + b == a;
    } else {
      var ab := a + b;
      assert ab[..|ab| - 1] == a + b[..|b| - 1];
      ScanAllStops(a, b[..|b| - 1], disk);
    }
  }

  /** The scan succeeds exactly when every target can be read; then it
      reports exactly the flagged targets, and a failed scan names a target
      that cannot be read. */
  lemma {:induction false} ScanAllMeaning(targets: seq<string>, disk: map<string, seq<string>>)
    ensures ScanAll(targets, disk).Ok? <==> forall k | 0 <= k < |targets| :: targets[k] in disk
    ensures ScanAll(targets, disk).Ok? ==> forall p ::
      p in ScanAll(targets, disk).value <==> p in targets && p in disk && FileFlagged(disk[p])
    ensures ScanAll(targets, disk).Err? ==>
      ScanAll(targets, disk).error in targets && ScanAll(targets, disk).error !in disk
    decreases |targets|
  {
    if targets != [] {
      var init := targets[..|targets| - 1];
      ScanAllMeaning(init, disk);
      assert targets == init + [targets[|targets| - 1]];
      assert forall p :: p in targets <==> p in init || p == targets[|targets| - 1];
    }
  }

  /** Which paths one directory hands to the matcher: those of its listed
      files that pass `ShouldScan`. */
  lemma {:induction false} DirectoryTargetsMeaning(root: string, files: seq<string>,
                                                   ignoredDirectories: seq<string>, sep: char)
    ensures forall p :: p in DirectoryTargets(root, files, ignoredDirectories, sep) <==>
      exists f :: f in files && p == JoinPath(root, f, sep) && ShouldScan(p, ignoredDirectories)
    decreases |files|
  {
    if files != [] {
      var init := files[..|files| - 1];
      DirectoryTargetsMeaning(root, init, ignoredDirectories, sep);
      assert files == init + [files[|files| - 1]];
      assert forall f :: f in files <==> f in init || f == files[|files| - 1];
    }
  }

  /** `filePath` is the path of `file` in the walked directory `entry`, that
      file survives the filter and the self-removal, and `ShouldScan`
      accepts the path. */
  predicate IsTarget(entry: WalkEntry, file: string, filePath: string, ignoredFiles: seq<string>,
                     ignoredDirectories: seq<string>, tail: string, sep: char)
  {
    file in FilesToScan(entry.files, ignoredFiles, tail)
    && filePath == JoinPath(entry.root, file, sep)
    && ShouldScan(filePath, ignoredDirectories)
  }

  /** The targets of one walked directory, stated through `IsTarget`. */
  lemma EntryTargetsMeaning(entry: WalkEntry, p: string, ignoredFiles: seq<string>,
                            ignoredDirectories: seq<string>, tail: string, sep: char)
    ensures p in EntryTargets(entry, ignoredFiles, ignoredDirectories, tail, sep) <==>
      (exists f :: IsTarget(entry, f, p, ignoredFiles, ignoredDirectories, tail, sep))
  {
    var files := FilesToScan(entry.files, ignoredFiles, tail);
    DirectoryTargetsMeaning(entry.root, files, ignoredDirectories, sep);
    if p in EntryTargets(entry, ignoredFiles, ignoredDirectories, tail, sep) {
      var f :| f in files && p == JoinPath(entry.root, f, sep) && ShouldScan(p, ignoredDirectories);
      assert IsTarget(entry, f, p, ignoredFiles, ignoredDirectories, tail, sep);
    }
    if exists f :: IsTarget(entry, f, p, ignoredFiles, ignoredDirectories, tail, sep) {
      var f :| IsTarget(entry, f, p, ignoredFiles, ignoredDirectories, tail, sep);
      assert f in files && p == JoinPath(entry.root, f, sep) && ShouldScan(p, ignoredDirectories);
    }
  }

  /** A target of `init + [entry]` is a target of `init` or of `entry`. */
  lemma TargetOfSnoc(init: seq<WalkEntry>, entry: WalkEntry, p: string, ignoredFiles: seq<string>,
                     ignoredDirectories: seq<string>, tail: string, sep: char)
    ensures (exists k, f | 0 <= k < |init + [entry]| :: IsTarget((init + [entry])[k], f, p, ignoredFiles, ignoredDirectories, tail, sep))
       <==> ((exists k, f | 0 <= k < |init| :: IsTarget(init[k], f, p, ignoredFiles, ignoredDirectories, tail, sep))
             || (exists f :: IsTarget(entry, f, p, ignoredFiles, ignoredDirectories, tail, sep)))
  {
    var walk := init + [entry];
    if exists k, f | 0 <= k < |walk| :: IsTarget(walk[k], f, p, ignoredFiles, ignoredDirectories, tail, sep) {
      var k, f :| 0 <= k < |walk| && IsTarget(walk[k], f, p, ignoredFiles, ignoredDirectories, tail, sep);
      if k < |init| {
        assert IsTarget(init[k], f, p, ignoredFiles, ignoredDirectories, tail, sep);
      }
    }
    if exists k, f | 0 <= k < |init| :: IsTarget(init[k], f, p, ignoredFiles, ignoredDirectories, tail, sep) {
      var k, f :| 0 <= k < |init| && IsTarget(init[k], f, p, ignoredFiles, ignoredDirectories, tail, sep);
      assert walk[k] == init[k];
    }
    if exists f :: IsTarget(entry, f, p, ignoredFiles, ignoredDirectories, tail, sep) {
      var f :| IsTarget(entry, f, p, ignoredFiles, ignoredDirectories, tail, sep);
      assert walk[|init|] == entry;
    }
  }

  /** Which paths the whole walk hands to the matcher: exactly the targets
      of its walked directories. */
  lemma {:induction false} WalkTargetsMeaning(walk: seq<WalkEntry>, ignoredFiles: seq<string>,
                                              ignoredDirectories: seq<string>, tail: string, sep: char)
    ensures forall p :: p in WalkTargets(walk, ignoredFiles, ignoredDirectories, tail, sep) <==>
      (exists k, f | 0 <= k < |walk| :: IsTarget(walk[k], f, p, ignoredFiles, ignoredDirectories, tail, sep))
    decreases |walk|
  {
    if walk != [] {
      var n := |walk| - 1;
      var init := walk[..n];
      var entry := walk[n];
      WalkTargetsMeaning(init, ignoredFiles, ignoredDirectories, tail, sep);
      assert init + [entry] == walk;
      forall p
        ensures p in WalkTargets(walk, ignoredFiles, ignoredDirectories, tail, sep) <==>
          (exists k, f | 0 <= k < |walk| :: IsTarget(walk[k], f, p, ignoredFiles, ignoredDirectories, tail, sep))
      {
        EntryTargetsMeaning(entry, p, ignoredFiles, ignoredDirectories, tail, sep);
        TargetOfSnoc(init, entry, p, ignoredFiles, ignoredDirectories, tail, sep);
      }
    }
  }

  /** The inner loop of the violation scan over one directory's remaining
      files, appending to `preventToPush` the matcher's output for every
      file `ShouldScan` accepts; `done` stands for the paths scanned before. */
  method ScanDirectory(root: string, files: seq<string>, ignoredDirectories: seq<string>, sep: char,
                       disk: map<string, seq<string>>, ghost done: seq<string>, preventToPush: seq<string>)
    returns (r: Result<seq<string>, string>)
    requires ScanAll(done, disk) == Ok(preventToPush)
    ensures r == ScanAll(done + DirectoryTargets(root, files, ignoredDirectories, sep), disk)
  {
    var found := preventToPush;
    assert done + DirectoryTargets(root, files[..0], ignoredDirectories, sep) == done by {
      assert files[..0] == [];
    }
    for i := 0 to |files|
      invariant ScanAll(done + DirectoryTargets(root, files[..i], ignoredDirectories, sep), disk) == Ok(found)
    {
      var filePath := JoinPath(root, files[i], sep);
      ghost var before := done + DirectoryTargets(root, files[..i], ignoredDirectories, sep);
      DirectoryTargetsStep(root, files, i, ignoredDirectories, sep);
      if ShouldScan(filePath, ignoredDirectories) {
        ScanAllStep(before, filePath, disk);
        assert before + [filePath] == done + DirectoryTargets(root, files[..i + 1], ignoredDirectories, sep);
        if filePath !in disk {
          ScanDirectoryStops(root, files, i, ignoredDirectories, sep, disk, done);
          return Err(filePath);
        }
        var matched := CheckForForbiddenEntries(filePath, disk[filePath]);
        found := found + matched;
      } else {
        assert before == done + DirectoryTargets(root, files[..i + 1], ignoredDirectories, sep);
      }
    }
    assert files[..|files|] == files;
    return Ok(found);
  }

  /** Where the loop of `ScanDirectory` stops: the paths so far plus the
      unreadable one are a prefix of all its paths. */
  lemma ScanDirectoryStops(root: string, files: seq<string>, i: nat, ignoredDirectories: seq<string>, sep: char,
                           disk: map<string, seq<string>>, done: seq<string>)
    requires i < |files|
    requires ScanAll(done + DirectoryTargets(root, files[..i + 1], ignoredDirectories, sep), disk).Err?
    ensures ScanAll(done + DirectoryTargets(root, files, ignoredDirectories, sep), disk)
         == ScanAll(done + DirectoryTargets(root, files[..i + 1], ignoredDirectories, sep), disk)
  {
    assert files == files[..i + 1] + files[i + 1..];
    DirectoryTargetsAppend(root, files[..i + 1], files[i + 1..], ignoredDirectories, sep);
    var head := DirectoryTargets(root, files[..i + 1], ignoredDirectories, sep);
    var after := DirectoryTargets(root, files[i + 1..], ignoredDirectories, sep);
    assert done + (head + after) == (done + head) + after;
    ScanAllStops(done + head, after, disk);
  }

  /** The violation scan of `main`: the result is the matcher's output over
      every scanned file, in walk order, or the first scanned path that
      cannot be read. */
  method ScanForViolations(walk: seq<WalkEntry>, ignoredFiles: seq<string>, ignoredDirectories: seq<string>,
                           tail: string, sep: char, disk: map<string, seq<string>>)
    returns (r: Result<seq<string>, string>)
    ensures r == ScanAll(WalkTargets(walk, ignoredFiles, ignoredDirectories, tail, sep), disk)
  {
    var preventToPush: seq<string> := [];
    for w := 0 to |walk|
      invariant ScanAll(WalkTargets(walk[..w], ignoredFiles, ignoredDirectories, tail, sep), disk) == Ok(preventToPush)
    {
      var files := Unignored(walk[w].files, ignoredFiles);
      if tail in files {
        files := RemoveFirst(files, tail);
      }
      assert files == FilesToScan(walk[w].files, ignoredFiles, tail);
      ghost var done := WalkTargets(walk[..w], ignoredFiles, ignoredDirectories, tail, sep);
      WalkTargetsStep(walk, w, ignoredFiles, ignoredDirectories, tail, sep);
      var scanned := ScanDirectory(walk[w].root, files, ignoredDirectories, sep, disk, done, preventToPush);
      if scanned.Err? {
        ScanForViolationsStops(walk, w, ignoredFiles, ignoredDirectories, tail, sep, disk);
        return scanned;
      }
      preventToPush := scanned.value;
    }
    assert walk[..|walk|] == walk;
    return Ok(preventToPush);
  }

  /** A walk whose scan stopped in some directory stops there as a whole. */
  lemma ScanForViolationsStops(walk: seq<WalkEntry>, w: nat, ignoredFiles: seq<string>,
                               ignoredDirectories: seq<string>, tail: string, sep: char, disk: map<string, seq<string>>)
    requires w < |walk|
    requires ScanAll(WalkTargets(walk[..w + 1], ignoredFiles, ignoredDirectories, tail, sep), disk).Err?
    ensures ScanAll(WalkTargets(walk, ignoredFiles, ignoredDirectories, tail, sep), disk)
         == ScanAll(WalkTargets(walk[..w + 1], ignoredFiles, ignoredDirectories, tail, sep), disk)
  {
    assert walk == walk[..w + 1] + walk[w + 1..];
    WalkTargetsAppend(walk[..w + 1], walk[w + 1..], ignoredFiles, ignoredDirectories, tail, sep);
    ScanAllStops(WalkTargets(walk[..w + 1], ignoredFiles, ignoredDirectories, tail, sep),
                 WalkTargets(walk[w + 1..], ignoredFiles, ignoredDirectories, tail, sep), disk);
  }
  /** Every scanned path is the path of a walked file that is not named in
      the ignore list, and that is not the validator itself unless its
      directory lists that name twice. */
  lemma ScannedFilesNotIgnored(walk: seq<WalkEntry>, ignoredFiles: seq<string>, ignoredDirectories: seq<string>,
                               tail: string, sep: char, p: string)
    requires p in WalkTargets(walk, ignoredFiles, ignoredDirectories, tail, sep)
    ensures exists k, f | 0 <= k < |walk| ::
      f in walk[k].files && f !in ignoredFiles && (f != tail || multiset(walk[k].files)[tail] > 1)
      && p == JoinPath(walk[k].root, f, sep)
  {
    WalkTargetsMeaning(walk, ignoredFiles, ignoredDirectories, tail, sep);
    var k, f :| 0 <= k < |walk| && IsTarget(walk[k], f, p, ignoredFiles, ignoredDirectories, tail, sep);
    FilesToScanMembership(walk[k].files, ignoredFiles, tail);
  }
}
