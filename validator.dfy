/** `main`: read the ignore file, derive the ignored directories, scan every
    walked file that is not skipped, look for unlisted configuration files,
    and print the verdict. The filesystem comes in as values: the ignore
    file's lines, the tree, the readable files' lines (`disk`), the
    directory listings and the names `os.path.isfile` accepts. A scanned file
    that cannot be read ends the run with `Err` holding its path, as the
    uncaught exception would; otherwise the result is the printed lines. */
module Validator {
  import opened Wrappers
  import opened Text
  import opened FileTree
  import opened IgnoreList
  import opened PatternMatcher
  import opened DirectoryWalker
  import opened ConfigFileDetector
  import opened Report

  /** The paths `main` hands to the matcher, in walk order. */
  function ScanTargets(gitignore: Option<seq<string>>, tail: string, tree: Directory, sep: char): seq<string> {
    var ignoredFiles := IgnoredNames(gitignore);
    WalkTargets(Walk(".", tree, [], sep), ignoredFiles, IgnoredDirectories(ignoredFiles), tail, sep)
  }

  /** The paths `check_possible_config_files` reports, before stripping. */
  function PossibleConfigFiles(gitignore: Option<seq<string>>, tree: Directory, sep: char,
                               listings: map<string, seq<string>>, regularFiles: set<string>): seq<string>
  {
    var ignoredFiles := IgnoredNames(gitignore);
    ConfigCandidates(IgnoredDirectories(ignoredFiles), tree, listings, ignoredFiles, regularFiles, sep)
  }

  /** The outcome of one run. */
  function Validation(gitignore: Option<seq<string>>, tail: string, tree: Directory, sep: char,
                      disk: map<string, seq<string>>, listings: map<string, seq<string>>,
                      regularFiles: set<string>): Result<seq<string>, string>
  {
    match ScanAll(ScanTargets(gitignore, tail, tree, sep), disk)
    case Err(p) => Err(p)
    case Ok(preventToPush) =>
      var possibleConfigFiles := PossibleConfigFiles(gitignore, tree, sep, listings, regularFiles);
      Ok(DecisionLines(BuildReport(StripCurrentDir(preventToPush), StripCurrentDir(possibleConfigFiles))))
  }

  /** `main`, step by step. */
  method Run(gitignore: Option<seq<string>>, tail: string, tree: Directory, sep: char,
             disk: map<string, seq<string>>, listings: map<string, seq<string>>, regularFiles: set<string>)
    returns (r: Result<seq<string>, string>)
    ensures r == Validation(gitignore, tail, tree, sep, disk, listings, regularFiles)
  {
    var ignoredFiles := CheckGitignore(gitignore);
    var ignoredDirectories := IgnoredDirectories(ignoredFiles);
    var walk := Walk(".", tree, [], sep);
    var scanned := ScanForViolations(walk, ignoredFiles, ignoredDirectories, tail, sep, disk);
    if scanned.Err? {
      return Err(scanned.error);
    }
    var preventToPush := StripCurrentDir(scanned.value);
    var found := CheckPossibleConfigFiles(ignoredDirectories, ignoredFiles, tree, listings, regularFiles, sep);
    var possibleConfigFiles := StripCurrentDir(found);
    var checkData := BuildReport(preventToPush, possibleConfigFiles);
    var output := FinalDecision(checkData);
    return Ok(output);
  }

  /** The run fails exactly when some scanned path cannot be read, and then
      names such a path. When it succeeds, the OK banner is printed exactly
      when no scanned file is flagged and no configuration file is
      reported. */
  lemma ValidationOutcome(gitignore: Option<seq<string>>, tail: string, tree: Directory, sep: char,
                          disk: map<string, seq<string>>, listings: map<string, seq<string>>, regularFiles: set<string>)
    ensures var targets := ScanTargets(gitignore, tail, tree, sep);
      var r := Validation(gitignore, tail, tree, sep, disk, listings, regularFiles);
      (r.Err? <==> exists k | 0 <= k < |targets| :: targets[k] !in disk)
      && (r.Err? ==> r.error in targets && r.error !in disk)
      && (r.Ok? ==> (r.value[1] == OkBanner <==>
            (forall k | 0 <= k < |targets| :: !FileFlagged(disk[targets[k]]))
            && PossibleConfigFiles(gitignore, tree, sep, listings, regularFiles) == []))
  {
    var targets := ScanTargets(gitignore, tail, tree, sep);
    ScanAllMeaning(targets, disk);
    var scan := ScanAll(targets, disk);
    if scan.Ok? {
      var configs := PossibleConfigFiles(gitignore, tree, sep, listings, regularFiles);
      var report := BuildReport(StripCurrentDir(scan.value), StripCurrentDir(configs));
      DecisionLinesShape(report);
      ReportMentionsEveryPath(StripCurrentDir(scan.value), StripCurrentDir(configs));
      if scan.value != [] {
        assert scan.value[0] in scan.value;
      }
      if exists k | 0 <= k < |targets| :: FileFlagged(disk[targets[k]]) {
        var k :| 0 <= k < |targets| && FileFlagged(disk[targets[k]]);
        assert targets[k] in scan.value;
      }
    }
  }

  /** A scanned file that is flagged is named, stripped of `.\`, on the
      line after the forbidden banner. */
  lemma FlaggedFileIsReported(gitignore: Option<seq<string>>, tail: string, tree: Directory, sep: char,
                              disk: map<string, seq<string>>, listings: map<string, seq<string>>,
                              regularFiles: set<string>, p: string)
    requires Validation(gitignore, tail, tree, sep, disk, listings, regularFiles).Ok?
    requires p in ScanTargets(gitignore, tail, tree, sep) && p in disk && FileFlagged(disk[p])
    ensures var lines := Validation(gitignore, tail, tree, sep, disk, listings, regularFiles).value;
      |lines| == 5 && lines[1] == ForbiddenBanner && StartsWith(lines[2], StoredLabel)
      && Contains(lines[2], Replace(p, ".\\", ""))
  {
    var targets := ScanTargets(gitignore, tail, tree, sep);
    ScanAllMeaning(targets, disk);
    var found := ScanAll(targets, disk).value;
    var configs := PossibleConfigFiles(gitignore, tree, sep, listings, regularFiles);
    var k :| 0 <= k < |found| && found[k] == p;
    ReportLineMentions(StripCurrentDir(found), StripCurrentDir(configs), k);
  }

  /** A project holding nothing but the validator, with no ignore file,
      passes whatever the rest of the filesystem says. */
  lemma EmptyProjectPasses(tail: string, sep: char, disk: map<string, seq<string>>,
                           listings: map<string, seq<string>>, regularFiles: set<string>)
    ensures Validation(None, tail, Directory(".", [], [tail]), sep, disk, listings, regularFiles)
         == Ok(["", OkBanner, ""])
  {
    var walk := Walk(".", Directory(".", [], [tail]), [], sep);
    assert WalkSubdirs(".", Directory(".", [], [tail]), 0, [], sep) == [];
    assert walk == [WalkEntry(".", [tail])];
    assert walk[..0] == [];
    assert FilesToScan([tail], [], tail) == [] by {
      assert [tail][1..] == [];
      assert Unignored([tail], []) == [tail];
    }
    assert DirectoryTargets(".", [], [], sep) == [];
    assert WalkTargets(walk, [], [], tail, sep) == [];
    assert ScanTargets(None, tail, Directory(".", [], [tail]), sep) == [];
  }
  /** The configuration-file check runs once per ignored directory, so an
      ignore file without a line starting with `/` or `./` (after the leading
      dot is dropped) means nothing is reported, whatever the tree holds. */
  lemma NoRootRelativeEntryNoConfigCheck(gitignore: Option<seq<string>>, tree: Directory, sep: char,
                                         listings: map<string, seq<string>>, regularFiles: set<string>)
    requires forall k | 0 <= k < |IgnoredNames(gitignore)| :: !IsRootRelative(IgnoredNames(gitignore)[k])
    ensures PossibleConfigFiles(gitignore, tree, sep, listings, regularFiles) == []
  {
    NoRootRelativeEntryNoDirectories(IgnoredNames(gitignore));
  }
}
