/** `check_possible_config_files`: for every ignored directory that can be
    listed, walk the tree again with that directory's own listing pruning the
    walk, and report the files whose names look like configuration files and
    that are neither in that listing nor in the ignore file.
    `listings` holds `os.listdir(absolute_path(d))` for each directory name
    that can be listed (the empty name stands for the script's own
    directory); a missing name is the swallowed exception. `regularFiles` is
    the set of names `os.path.isfile` accepts in the working directory. */
module ConfigFileDetector {
  import opened Text
  import opened FileTree

  /** `common_credential_file_extensions`, in the order the tuple lists them. */
  const CredentialExtensions: seq<string> := [".conf", ".txt", ".cf"]

  /** `file.lower().endswith(common_credential_file_extensions)` */
  predicate HasCredentialExtension(file: string) {
    exists k | 0 <= k < |CredentialExtensions| :: EndsWith(Lower(file), CredentialExtensions[k])
  }

  /** The test applied to one walked file name. `or` binds looser than `and`,
      so a credential extension alone suffices, while a name without a dot
      must also be a regular file in the working directory -- checked on the
      bare name, not on the walked path. */
  predicate IsConfigCandidate(file: string, listing: seq<string>, ignoredFiles: seq<string>, regularFiles: set<string>) {
    (HasCredentialExtension(file) || ('.' !in file && file in regularFiles))
    && file !in listing && file !in ignoredFiles
  }

  /** The paths reported for one walked directory's files, in order. */
  function CandidatePaths(root: string, files: seq<string>, listing: seq<string>, ignoredFiles: seq<string>,
                          regularFiles: set<string>, sep: char): seq<string>
  {
    if files == [] then []
    else
      var file := files[|files| - 1];
      CandidatePaths(root, files[..|files| - 1], listing, ignoredFiles, regularFiles, sep)
      + (if IsConfigCandidate(file, listing, ignoredFiles, regularFiles) then [JoinPath(root, file, sep)] else [])
  }

  /** The paths reported over one pruned walk, in walk order. */
  function WalkCandidates(walk: seq<WalkEntry>, listing: seq<string>, ignoredFiles: seq<string>,
                          regularFiles: set<string>, sep: char): seq<string>
  {
    if walk == [] then []
    else
      var entry := walk[|walk| - 1];
      WalkCandidates(walk[..|walk| - 1], listing, ignoredFiles, regularFiles, sep)
      + CandidatePaths(entry.root, entry.files, listing, ignoredFiles, regularFiles, sep)
  }

  /** What one ignored directory contributes: nothing when it cannot be
      listed, otherwise the candidates of the walk pruned by its listing. */
  function DirectoryCandidates(d: string, tree: Directory, listings: map<string, seq<string>>,
                               ignoredFiles: seq<string>, regularFiles: set<string>, sep: char): seq<string>
  {
    if d !in listings then []
    else WalkCandidates(Walk(".", tree, listings[d], sep), listings[d], ignoredFiles, regularFiles, sep)
  }

  /** The whole result: the contributions of the ignored directories in order. */
  function ConfigCandidates(ignoredDirectories: seq<string>, tree: Directory, listings: map<string, seq<string>>,
                            ignoredFiles: seq<string>, regularFiles: set<string>, sep: char): seq<string>
  {
    if ignoredDirectories == [] then []
    else
      var n := |ignoredDirectories| - 1;
      ConfigCandidates(ignoredDirectories[..n], tree, listings, ignoredFiles, regularFiles, sep)
      + DirectoryCandidates(ignoredDirectories[n], tree, listings, ignoredFiles, regularFiles, sep)
  }

  lemma CandidatePathsStep(root: string, files: seq<string>, i: nat, listing: seq<string>, ignoredFiles: seq<string>,
                           regularFiles: set<string>, sep: char)
    requires i < |files|
    ensures CandidatePaths(root, files[..i + 1], listing, ignoredFiles, regularFiles, sep)
         == CandidatePaths(root, files[..i], listing, ignoredFiles, regularFiles, sep)
          + (if IsConfigCandidate(files[i], listing, ignoredFiles, regularFiles) then [JoinPath(root, files[i], sep)] else [])
  {
    assert files[..i + 1][..i] == files[..i];
    assert files[..i + 1][i] == files[i];
  }

  lemma WalkCandidatesStep(walk: seq<WalkEntry>, w: nat, listing: seq<string>, ignoredFiles: seq<string>,
                           regularFiles: set<string>, sep: char)
    requires w < |walk|
    ensures WalkCandidates(walk[..w + 1], listing, ignoredFiles, regularFiles, sep)
         == WalkCandidates(walk[..w], listing, ignoredFiles, regularFiles, sep)
          + CandidatePaths(walk[w].root, walk[w].files, listing, ignoredFiles, regularFiles, sep)
  {
    assert walk[..w + 1][..w] == walk[..w];
    assert walk[..w + 1][w] == walk[w];
  }

  lemma ConfigCandidatesStep(ignoredDirectories: seq<string>, i: nat, tree: Directory, listings: map<string, seq<string>>,
                             ignoredFiles: seq<string>, regularFiles: set<string>, sep: char)
    requires i < |ignoredDirectories|
    ensures ConfigCandidates(ignoredDirectories[..i + 1], tree, listings, ignoredFiles, regularFiles, sep)
         == ConfigCandidates(ignoredDirectories[..i], tree, listings, ignoredFiles, regularFiles, sep)
          + DirectoryCandidates(ignoredDirectories[i], tree, listings, ignoredFiles, regularFiles, sep)
  {
    assert ignoredDirectories[..i + 1][..i] == ignoredDirectories[..i];
    assert ignoredDirectories[..i + 1][i] == ignoredDirectories[i];
  }

  /** The walk for one listable ignored directory, appending to `found`. */
  method ScanWalk(walk: seq<WalkEntry>, listing: seq<string>, ignoredFiles: seq<string>,
                  regularFiles: set<string>, sep: char, found: seq<string>)
    returns (possibleConfigFiles: seq<string>)
    ensures possibleConfigFiles == found + WalkCandidates(walk, listing, ignoredFiles, regularFiles, sep)
  {
    possibleConfigFiles := found;
    assert walk[..0] == [];
    for w := 0 to |walk|
      invariant possibleConfigFiles == found + WalkCandidates(walk[..w], listing, ignoredFiles, regularFiles, sep)
    {
      var root := walk[w].root;
      var files := walk[w].files;
      ghost var before := possibleConfigFiles;
      assert files[..0] == [];
      for i := 0 to |files|
        invariant possibleConfigFiles == before + CandidatePaths(root, files[..i], listing, ignoredFiles, regularFiles, sep)
      {
        var file := files[i];
        var filePath := JoinPath(root, file, sep);
        CandidatePathsStep(root, files, i, listing, ignoredFiles, regularFiles, sep);
        if HasCredentialExtension(file) || ('.' !in file && file in regularFiles) {
          if file !in listing && file !in ignoredFiles {
            possibleConfigFiles := possibleConfigFiles + [filePath];
          }
        }
      }
      assert files[..|files|] == files;
      WalkCandidatesStep(walk, w, listing, ignoredFiles, regularFiles, sep);
    }
    assert walk[..|walk|] == walk;
  }

  /** `check_possible_config_files`: the reported paths are exactly
      `ConfigCandidates`, in order, with a path repeated once per ignored
      directory that reports it. */
  method CheckPossibleConfigFiles(ignoredDirectories: seq<string>, ignoredFiles: seq<string>, tree: Directory,
                                  listings: map<string, seq<string>>, regularFiles: set<string>, sep: char)
    returns (possibleConfigFiles: seq<string>)
    ensures possibleConfigFiles == ConfigCandidates(ignoredDirectories, tree, listings, ignoredFiles, regularFiles, sep)
  {
    possibleConfigFiles := [];
    assert ignoredDirectories[..0] == [];
    for i := 0 to |ignoredDirectories|
      invariant possibleConfigFiles == ConfigCandidates(ignoredDirectories[..i], tree, listings, ignoredFiles, regularFiles, sep)
    {
      var directory := ignoredDirectories[i];
      ConfigCandidatesStep(ignoredDirectories, i, tree, listings, ignoredFiles, regularFiles, sep);
      if directory in listings {
        var listing := listings[directory];
        var walk := Walk(".", tree, listing, sep);
        possibleConfigFiles := ScanWalk(walk, listing, ignoredFiles, regularFiles, sep, possibleConfigFiles);
      }
    }
    assert ignoredDirectories[..|ignoredDirectories|] == ignoredDirectories;
  }

  /** The paths reported for one directory's files: those of its files that
      pass the test. */
  lemma {:induction false} CandidatePathsMeaning(root: string, files: seq<string>, listing: seq<string>,
                                                 ignoredFiles: seq<string>, regularFiles: set<string>, sep: char)
    ensures forall p :: p in CandidatePaths(root, files, listing, ignoredFiles, regularFiles, sep) <==>
      exists f :: f in files && p == JoinPath(root, f, sep) && IsConfigCandidate(f, listing, ignoredFiles, regularFiles)
    decreases |files|
  {
    if files != [] {
      var init := files[..|files| - 1];
      CandidatePathsMeaning(root, init, listing, ignoredFiles, regularFiles, sep);
      assert files == init + [files[|files| - 1]];
      assert forall f :: f in files <==> f in init || f == files[|files| - 1];
    }
  }

  /** `file` lies in the walked directory `entry` and passes the test, and
      `p` is its path. */
  predicate IsCandidate(entry: WalkEntry, file: string, p: string, listing: seq<string>,
                        ignoredFiles: seq<string>, regularFiles: set<string>, sep: char)
  {
    file in entry.files && p == JoinPath(entry.root, file, sep) && IsConfigCandidate(file, listing, ignoredFiles, regularFiles)
  }

  lemma EntryCandidatesMeaning(entry: WalkEntry, p: string, listing: seq<string>, ignoredFiles: seq<string>,
                               regularFiles: set<string>, sep: char)
    ensures p in CandidatePaths(entry.root, entry.files, listing, ignoredFiles, regularFiles, sep) <==>
      (exists f :: IsCandidate(entry, f, p, listing, ignoredFiles, regularFiles, sep))
  {
    CandidatePathsMeaning(entry.root, entry.files, listing, ignoredFiles, regularFiles, sep);
    if p in CandidatePaths(entry.root, entry.files, listing, ignoredFiles, regularFiles, sep) {
      var f :| f in entry.files && p == JoinPath(entry.root, f, sep) && IsConfigCandidate(f, listing, ignoredFiles, regularFiles);
      assert IsCandidate(entry, f, p, listing, ignoredFiles, regularFiles, sep);
    }
  }

  lemma CandidateOfSnoc(init: seq<WalkEntry>, entry: WalkEntry, p: string, listing: seq<string>,
                        ignoredFiles: seq<string>, regularFiles: set<string>, sep: char)
    ensures (exists k, f | 0 <= k < |init + [entry]| :: IsCandidate((init + [entry])[k], f, p, listing, ignoredFiles, regularFiles, sep))
       <==> ((exists k, f | 0 <= k < |init| :: IsCandidate(init[k], f, p, listing, ignoredFiles, regularFiles, sep))
             || (exists f :: IsCandidate(entry, f, p, listing, ignoredFiles, regularFiles, sep)))
  {
    var walk := init + [entry];
    if exists k, f | 0 <= k < |walk| :: IsCandidate(walk[k], f, p, listing, ignoredFiles, regularFiles, sep) {
      var k, f :| 0 <= k < |walk| && IsCandidate(walk[k], f, p, listing, ignoredFiles, regularFiles, sep);
      if k < |init| {
        assert IsCandidate(init[k], f, p, listing, ignoredFiles, regularFiles, sep);
      }
    }
    if exists k, f | 0 <= k < |init| :: IsCandidate(init[k], f, p, listing, ignoredFiles, regularFiles, sep) {
      var k, f :| 0 <= k < |init| && IsCandidate(init[k], f, p, listing, ignoredFiles, regularFiles, sep);
      assert walk[k] == init[k];
    }
    if exists f :: IsCandidate(entry, f, p, listing, ignoredFiles, regularFiles, sep) {
      var f :| IsCandidate(entry, f, p, listing, ignoredFiles, regularFiles, sep);
      assert walk[|init|] == entry;
    }
  }

  /** A path is reported for a walk exactly when it is the path of a walked
      file that passes the test. */
  lemma {:induction false} WalkCandidatesMeaning(walk: seq<WalkEntry>, listing: seq<string>, ignoredFiles: seq<string>,
                                                 regularFiles: set<string>, sep: char)
    ensures forall p :: p in WalkCandidates(walk, listing, ignoredFiles, regularFiles, sep) <==>
      (exists k, f | 0 <= k < |walk| :: IsCandidate(walk[k], f, p, listing, ignoredFiles, regularFiles, sep))
    decreases |walk|
  {
    if walk != [] {
      var n := |walk| - 1;
      var init := walk[..n];
      var entry := walk[n];
      WalkCandidatesMeaning(init, listing, ignoredFiles, regularFiles, sep);
      assert init + [entry] == walk;
      forall p
        ensures p in WalkCandidates(walk, listing, ignoredFiles, regularFiles, sep) <==>
          (exists k, f | 0 <= k < |walk| :: IsCandidate(walk[k], f, p, listing, ignoredFiles, regularFiles, sep))
      {
        EntryCandidatesMeaning(entry, p, listing, ignoredFiles, regularFiles, sep);
        CandidateOfSnoc(init, entry, p, listing, ignoredFiles, regularFiles, sep);
      }
    }
  }

  /** A reported path comes from the walk of one of the ignored directories. */
  lemma {:induction false} ConfigCandidatesSource(ignoredDirectories: seq<string>, tree: Directory,
                                                  listings: map<string, seq<string>>, ignoredFiles: seq<string>,
                                                  regularFiles: set<string>, sep: char, p: string) returns (k: nat)
    requires p in ConfigCandidates(ignoredDirectories, tree, listings, ignoredFiles, regularFiles, sep)
    ensures k < |ignoredDirectories| && ignoredDirectories[k] in listings
    ensures p in WalkCandidates(Walk(".", tree, listings[ignoredDirectories[k]], sep),
                                listings[ignoredDirectories[k]], ignoredFiles, regularFiles, sep)
    decreases |ignoredDirectories|
  {
    var n := |ignoredDirectories| - 1;
    if p in DirectoryCandidates(ignoredDirectories[n], tree, listings, ignoredFiles, regularFiles, sep) {
      k := n;
    } else {
      k := ConfigCandidatesSource(ignoredDirectories[..n], tree, listings, ignoredFiles, regularFiles, sep, p);
      assert ignoredDirectories[..n][k] == ignoredDirectories[k];
    }
  }

  /** Every path reported for the walk of one of the ignored directories is
      reported. */
  lemma {:induction false} ConfigCandidatesHolds(ignoredDirectories: seq<string>, k: nat, tree: Directory,
                                                 listings: map<string, seq<string>>, ignoredFiles: seq<string>,
                                                 regularFiles: set<string>, sep: char, p: string)
    requires k < |ignoredDirectories|
    requires p in DirectoryCandidates(ignoredDirectories[k], tree, listings, ignoredFiles, regularFiles, sep)
    ensures p in ConfigCandidates(ignoredDirectories, tree, listings, ignoredFiles, regularFiles, sep)
    decreases |ignoredDirectories|
  {
    var n := |ignoredDirectories| - 1;
    if k < n {
      assert ignoredDirectories[..n][k] == ignoredDirectories[k];
      ConfigCandidatesHolds(ignoredDirectories[..n], k, tree, listings, ignoredFiles, regularFiles, sep, p);
    }
  }

  /** A path is reported exactly when some listable ignored directory
      reports it. */
  lemma ConfigCandidatesMeaning(ignoredDirectories: seq<string>, tree: Directory,
                                listings: map<string, seq<string>>, ignoredFiles: seq<string>,
                                regularFiles: set<string>, sep: char)
    ensures forall p :: p in ConfigCandidates(ignoredDirectories, tree, listings, ignoredFiles, regularFiles, sep) <==>
      (exists k | 0 <= k < |ignoredDirectories| ::
         ignoredDirectories[k] in listings
         && p in WalkCandidates(Walk(".", tree, listings[ignoredDirectories[k]], sep),
                                listings[ignoredDirectories[k]], ignoredFiles, regularFiles, sep))
  {
    forall p
      ensures p in ConfigCandidates(ignoredDirectories, tree, listings, ignoredFiles, regularFiles, sep) <==>
        (exists k | 0 <= k < |ignoredDirectories| ::
           ignoredDirectories[k] in listings
           && p in WalkCandidates(Walk(".", tree, listings[ignoredDirectories[k]], sep),
                                  listings[ignoredDirectories[k]], ignoredFiles, regularFiles, sep))
    {
      if p in ConfigCandidates(ignoredDirectories, tree, listings, ignoredFiles, regularFiles, sep) {
        var k := ConfigCandidatesSource(ignoredDirectories, tree, listings, ignoredFiles, regularFiles, sep, p);
      }
      if exists k | 0 <= k < |ignoredDirectories| ::
           ignoredDirectories[k] in listings
           && p in WalkCandidates(Walk(".", tree, listings[ignoredDirectories[k]], sep),
                                  listings[ignoredDirectories[k]], ignoredFiles, regularFiles, sep) {
        var k :| 0 <= k < |ignoredDirectories| &&
           ignoredDirectories[k] in listings
           && p in WalkCandidates(Walk(".", tree, listings[ignoredDirectories[k]], sep),
                                  listings[ignoredDirectories[k]], ignoredFiles, regularFiles, sep);
        ConfigCandidatesHolds(ignoredDirectories, k, tree, listings, ignoredFiles, regularFiles, sep, p);
      }
    }
  }

  /** A path reported for one walk is the path of a walked file that passes
      the test. */
  lemma WalkCandidateFile(walk: seq<WalkEntry>, listing: seq<string>, ignoredFiles: seq<string>,
                          regularFiles: set<string>, sep: char, p: string)
    requires p in WalkCandidates(walk, listing, ignoredFiles, regularFiles, sep)
    ensures exists w, f | 0 <= w < |walk| ::
      f in walk[w].files && p == JoinPath(walk[w].root, f, sep)
      && IsConfigCandidate(f, listing, ignoredFiles, regularFiles)
  {
    WalkCandidatesMeaning(walk, listing, ignoredFiles, regularFiles, sep);
    var w, f :| 0 <= w < |walk| && IsCandidate(walk[w], f, p, listing, ignoredFiles, regularFiles, sep);
    assert f in walk[w].files && p == JoinPath(walk[w].root, f, sep);
  }

  /** Every reported path is the path of a file found by the walk of some
      listable ignored directory, and that walked file passes the test: in
      particular no walked file named in the ignore file is ever reported. */
  lemma CandidatesAreNotIgnored(ignoredDirectories: seq<string>, tree: Directory, listings: map<string, seq<string>>,
                                ignoredFiles: seq<string>, regularFiles: set<string>, sep: char, p: string)
    requires p in ConfigCandidates(ignoredDirectories, tree, listings, ignoredFiles, regularFiles, sep)
    ensures exists k | 0 <= k < |ignoredDirectories| && ignoredDirectories[k] in listings ::
      exists w, f | 0 <= w < |Walk(".", tree, listings[ignoredDirectories[k]], sep)| ::
        f in Walk(".", tree, listings[ignoredDirectories[k]], sep)[w].files
        && p == JoinPath(Walk(".", tree, listings[ignoredDirectories[k]], sep)[w].root, f, sep)
        && IsConfigCandidate(f, listings[ignoredDirectories[k]], ignoredFiles, regularFiles)
  {
    var k := ConfigCandidatesSource(ignoredDirectories, tree, listings, ignoredFiles, regularFiles, sep, p);
    WalkCandidateFile(Walk(".", tree, listings[ignoredDirectories[k]], sep), listings[ignoredDirectories[k]],
                      ignoredFiles, regularFiles, sep, p);
  }

  /** In the walk pruned by a listing, a reported path belongs to a file of
      the top directory or to a file found under a subdirectory whose name is
      not in the listing: nothing under a subdirectory named in the listing
      is reported. */
  lemma ReportedFilesAvoidPrunedSubdirectories(tree: Directory, listing: seq<string>, ignoredFiles: seq<string>,
                                               regularFiles: set<string>, sep: char, p: string)
    requires p in WalkCandidates(Walk(".", tree, listing, sep), listing, ignoredFiles, regularFiles, sep)
    ensures (exists f :: f in tree.files && p == JoinPath(".", f, sep)
                         && IsConfigCandidate(f, listing, ignoredFiles, regularFiles))
         || (exists j, e, f | 0 <= j < |tree.subdirs| && tree.subdirs[j].name !in listing
                              && e in Walk(JoinPath(".", tree.subdirs[j].name, sep), tree.subdirs[j], listing, sep) ::
               f in e.files && p == JoinPath(e.root, f, sep) && IsConfigCandidate(f, listing, ignoredFiles, regularFiles))
  {
    var walk := Walk(".", tree, listing, sep);
    WalkCandidatesMeaning(walk, listing, ignoredFiles, regularFiles, sep);
    var w, f :| 0 <= w < |walk| && IsCandidate(walk[w], f, p, listing, ignoredFiles, regularFiles, sep);
    var e := walk[w];
    WalkMembership(".", tree, listing, sep, e);
    if e != WalkEntry(".", tree.files) {
      var j :| 0 <= j < |tree.subdirs| && tree.subdirs[j].name !in listing
               && e in Walk(JoinPath(".", tree.subdirs[j].name, sep), tree.subdirs[j], listing, sep);
      assert f in e.files && p == JoinPath(e.root, f, sep);
    }
  }

  /** An ignored directory `build` that holds an entry named `conf` prunes
      every directory of that name from the walk: `./conf/app.conf` is not
      reported. */
  lemma ListedSubdirectoryNotReported()
    ensures ConfigCandidates(["build"], Directory(".", [Directory("conf", [], ["app.conf"])], []),
                             map["build" := ["conf"]], [], {}, '/') == []
  {
    var conf := Directory("conf", [], ["app.conf"]);
    var tree := Directory(".", [conf], []);
    assert ["build"][..0] == [];
    assert Walk(".", tree, ["conf"], '/') == [WalkEntry(".", [])] by {
      assert WalkSubdirs(".", tree, 1, ["conf"], '/') == [];
      assert "conf" in ["conf"];
    }
    assert WalkCandidates([WalkEntry(".", [])], ["conf"], [], {}, '/') == [] by {
      assert [WalkEntry(".", [])][..0] == [];
    }
  }

  /** The same project when the listing of `build` does not name `conf`:
      the walk enters `conf` and `./conf/app.conf` is reported. */
  lemma UnlistedSubdirectoryReported()
    ensures ConfigCandidates(["build"], Directory(".", [Directory("conf", [], ["app.conf"])], []),
                             map["build" := []], [], {}, '/') == ["./conf/app.conf"]
  {
    var conf := Directory("conf", [], ["app.conf"]);
    var tree := Directory(".", [conf], []);
    var inner := JoinPath(".", "conf", '/');
    assert ["build"][..0] == [];
    assert Walk(inner, conf, [], '/') == [WalkEntry(inner, ["app.conf"])] by {
      assert WalkSubdirs(inner, conf, 0, [], '/') == [];
    }
    assert WalkSubdirs(".", tree, 0, [], '/') == [WalkEntry(inner, ["app.conf"])] by {
      assert "conf" !in [];
      assert WalkSubdirs(".", tree, 1, [], '/') == [];
    }
    var walk := [WalkEntry(".", []), WalkEntry(inner, ["app.conf"])];
    assert Walk(".", tree, [], '/') == walk;
    assert HasCredentialExtension("app.conf") by {
      assert Lower("app.conf") == "app.conf";
      assert EndsWith(Lower("app.conf"), CredentialExtensions[0]);
    }
    assert JoinPath(inner, "app.conf", '/') == "./conf/app.conf";
    assert CandidatePaths(inner, ["app.conf"], [], [], {}, '/') == ["./conf/app.conf"] by {
      assert ["app.conf"][..0] == [];
    }
    assert walk[..1] == [WalkEntry(".", [])] && walk[..1][..0] == [];
    assert WalkCandidates(walk[..1], [], [], {}, '/') == [];
    assert WalkCandidates(walk, [], [], {}, '/') == ["./conf/app.conf"];
    assert DirectoryCandidates("build", tree, map["build" := []], [], {}, '/') == ["./conf/app.conf"];
  }

  /** The extension test ignores case: `NOTES.TXT` has one. */
  lemma UpperCaseExtensionCounts()
    ensures HasCredentialExtension("NOTES.TXT")
  {
    assert Lower("NOTES.TXT") == "notes.txt";
    assert EndsWith(Lower("NOTES.TXT"), CredentialExtensions[1]);
  }

  /** A name without a dot counts only when that bare name is a regular file
      in the working directory, wherever the walk found it. */
  lemma ExtensionlessNameNeedsBareFile(file: string, listing: seq<string>, ignoredFiles: seq<string>, regularFiles: set<string>)
    requires '.' !in file
    ensures IsConfigCandidate(file, listing, ignoredFiles, regularFiles) <==>
      file in regularFiles && file !in listing && file !in ignoredFiles
  {
    forall k | 0 <= k < |CredentialExtensions|
      ensures !EndsWith(Lower(file), CredentialExtensions[k])
    {
      var ext := CredentialExtensions[k];
      var low := Lower(file);
      if |ext| <= |low| {
        var i := |low| - |ext|;
        assert ext[0] == '.';
        assert low[i..][0] == low[i];
        assert file[i] in file;
      }
    }
  }

  /** A project with `secrets.conf` at its top and one listable ignored
      directory `build` that holds nothing: the file is reported as
      `./secrets.conf` until its name is added to the ignore file. */
  lemma SecretsConfReportedUntilIgnored(ignoredFiles: seq<string>, regularFiles: set<string>)
    requires "secrets.conf" !in ignoredFiles
    ensures ConfigCandidates(["build"], Directory(".", [], ["secrets.conf"]), map["build" := []],
                             ignoredFiles, regularFiles, '/') == ["./secrets.conf"]
    ensures ConfigCandidates(["build"], Directory(".", [], ["secrets.conf"]), map["build" := []],
                             ignoredFiles + ["secrets.conf"], regularFiles, '/') == []
  {
    var tree := Directory(".", [], ["secrets.conf"]);
    var walk := Walk(".", tree, [], '/');
    assert walk == [WalkEntry(".", ["secrets.conf"])];
    assert HasCredentialExtension("secrets.conf") by {
      assert Lower("secrets.conf") == "secrets.conf";
      assert EndsWith(Lower("secrets.conf"), CredentialExtensions[0]);
    }
    assert ["build"][..0] == [] && walk[..0] == [] && ["secrets.conf"][..0] == [];
    assert IsConfigCandidate("secrets.conf", [], ignoredFiles, regularFiles);
    assert JoinPath(".", "secrets.conf", '/') == "./secrets.conf";
    assert CandidatePaths(".", ["secrets.conf"], [], ignoredFiles, regularFiles, '/') == ["./secrets.conf"];
    assert WalkCandidates(walk, [], ignoredFiles, regularFiles, '/') == ["./secrets.conf"];
    var more := ignoredFiles + ["secrets.conf"];
    assert "secrets.conf" in more;
    assert CandidatePaths(".", ["secrets.conf"], [], more, regularFiles, '/') == [];
    assert WalkCandidates(walk, [], more, regularFiles, '/') == [];
  }

  /** A dotfile listed in the ignore file is still reported: `.secrets.txt`
      is stored as `secrets.txt`, which does not match the walked name. */
  lemma IgnoredDotfileStillReported(listing: seq<string>, regularFiles: set<string>)
    requires ".secrets.txt" !in listing
    ensures IsConfigCandidate(".secrets.txt", listing, ["secrets.txt"], regularFiles)
  {
    assert EndsWith(Lower(".secrets.txt"), CredentialExtensions[1]) by {
      assert Lower(".secrets.txt") == ".secrets.txt";
    }
    assert ".secrets.txt" != "secrets.txt" by {
      assert |".secrets.txt"| != |"secrets.txt"|;
    }
  }
}
