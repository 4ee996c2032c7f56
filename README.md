# Hidden credentials validator, modelled in Dafny

`hidden_credentials_validator.py` is a pre-push check that is meant to sit next to
a project's `.gitignore`. It does three things:

- It reads the ignore file and derives a list of ignored names and a list of
  ignored root directories.
- It walks the project and runs eight fixed regular expressions over every file
  that is not ignored. The patterns are a bracketed section header and the whole
  words `pass`, `password`, `server`, `proxy`, `mail`, `user` and `email`.
- It looks for files that look like configuration files and are not in the
  ignore file.

It then prints either an OK banner or a "push is forbidden" banner followed by
the offending paths.

This project models that script in Dafny. It uses one module per part of the
script:

- `Text`: the Python string and list operations the script relies on, each with
  its Python meaning. These are `startswith`, `endswith`, `in`, slicing,
  `replace`, `split`, `join`, `lower` and `list.remove`.
- `IgnoreList`:
  - `check_gitignore`;
  - the `ignored_directories` comprehension of `main`;
  - `is_file_in_ignored_directory`.
- `PatternMatcher`: the eight patterns as predicates on a line, and
  `check_for_forbidden_entries` as a loop over lines and patterns.
- `FileTree`: a directory tree, and `os.walk(".", topdown=True)` over it with
  the `dirs[:]` pruning.
- `DirectoryWalker`: the violation scan in `main`. It drops ignored names and
  the validator's own name, decides per file whether to scan it, and stops at
  an unreadable file.
- `ConfigFileDetector`: `check_possible_config_files`.
- `Report`: the `.\` stripping, the report dictionary and `final_decision`.
- `Validator`: `main` as one method, proved equal to the function `Validation`.

The filesystem is an input, not an effect:

- the ignore file is `Option<seq<string>>`: its lines, or `None` when there is
  no file;
- the project is a `Directory` tree;
- readable files are a map from path to lines (`disk`);
- `os.listdir` results are a map from directory name to listing (`listings`);
- `os.path.isfile` on a bare name is a set of names (`regularFiles`);
- the path separator is a parameter `sep`.

A file that is scanned but cannot be read ends the run with `Err(path)`, as
the uncaught exception does. Otherwise the result is the list of printed lines.

Where the script's behaviour is surprising, the model follows the code and a
lemma states the behaviour:

- `check_gitignore` tests `"."` before `"./"`. As a result the `"./"` branch is
  never taken, and `./build` is stored as `/build` (`DotSlashEntryKeepsSlash`).
- Blank lines of the ignore file are kept as empty entries.
- The per-file skip splits the path on backslashes. Directories are therefore
  only skipped on Windows-style paths (`BuildDirectoryOnlySkippedWithBackslashes`).
- The configuration check walks once per ignored directory. It prunes that walk
  by the directory's *listing*, not by the ignored names, and a path can be
  reported once per directory. With no root-relative entry in the ignore file
  it reports nothing (`NoRootRelativeEntryNoConfigCheck`).
- A dotfile listed in the ignore file is stored without its dot, so it is still
  reported (`IgnoredDotfileStillReported`).
- `is_file_in_ignored_directory` is a substring test (`IgnoredNameMatchesInsideWord`).
  `main` never calls it.

## Model

| member | source | states |
|---|---|---|
| Text.Split | hidden_credentials_validator.py:147 | `split` on one character yields at least one part, no part holds the separator, and joining the parts with it gives the input back |
| Text.FirstIndex | hidden_credentials_validator.py:143 | the position `remove` deletes: it holds the name, and no earlier position does |
| Text.Replace | hidden_credentials_validator.py:155 | no `ensures`: `replace` on every non-overlapping occurrence, left to right (also used at lines 96 and 135); characterised by `Text.ReplaceWithoutOccurrence`, `Text.ReplaceRemovesChar` and `Report.LeadingCurrentDirStripped` |
| Text.ReplaceWithoutOccurrence | hidden_credentials_validator.py:155 | `replace` of a pattern that does not occur changes nothing |
| Text.ReplaceRemovesChar | hidden_credentials_validator.py:135 | replacing a one-character pattern by text without that character leaves none of it |
| Text.JoinMentionsEach | hidden_credentials_validator.py:163-168 | every part of a `join` occurs in the joined text |
| Text.RemoveFirst | hidden_credentials_validator.py:142-143 | `files.remove(tail)` drops exactly the first copy: the result is the list around its first occurrence, and its multiset loses one copy |
| IgnoreList.NormaliseEntry | hidden_credentials_validator.py:59-65 | a line starting with `.` loses exactly its first character; any other line is kept as is (the `./` branch is unreachable) |
| IgnoreList.CheckGitignore | hidden_credentials_validator.py:52-68 | no ignore file gives the empty list; otherwise one entry per line, blank lines included, each the normalised line, in order |
| IgnoreList.DotSlashEntryKeepsSlash | hidden_credentials_validator.py:60-63 | a line `./name` is stored as `/name` |
| IgnoreList.DirectoryNameRemovesSlashes | hidden_credentials_validator.py:135 | after removing every `/` the second `replace("./", "")` changes nothing, and no `/` is left |
| IgnoreList.IgnoredDirectories | hidden_credentials_validator.py:134-138 | a name is an ignored directory exactly when some root-relative entry (starting with `/` or `./`) gives it once its slashes are removed; no name holds `/`; the list is no longer than the entries |
| IgnoreList.IgnoredDirectoriesCons | hidden_credentials_validator.py:134-138 | one more entry in front adds its directory name in front when it is root-relative, and nothing otherwise |
| IgnoreList.IgnoredDirectoriesAppend | hidden_credentials_validator.py:134-138 | the directories of a concatenation are those of the first part followed by those of the second: order and multiplicity of the entries are kept |
| IgnoreList.NoRootRelativeEntryNoDirectories | hidden_credentials_validator.py:134-138 | without a root-relative entry there are no ignored directories |
| IgnoreList.ExampleIgnoredDirectories | hidden_credentials_validator.py:134-138 | the ignore lines `./build`, `/dist/`, `.env`, `src/` give exactly the directories `build` and `dist` |
| IgnoreList.IsFileInIgnoredDirectory | hidden_credentials_validator.py:95-97 | no `ensures`: after backslashes become `/`, some ignored name occurs in the path as a substring; characterised by `IgnoredDirectoryEdgeCases` and `IgnoredNameMatchesInsideWord` |
| IgnoreList.IgnoredDirectoryEdgeCases | hidden_credentials_validator.py:95-97 | with no ignored directories no path is in one; an empty name puts every path in one |
| IgnoreList.IgnoredNameMatchesInsideWord | hidden_credentials_validator.py:95-97 | with `build` ignored, `./rebuild.txt` counts as inside an ignored directory (substring test) |
| PatternMatcher.Search | hidden_credentials_validator.py:89 | no `ensures`: `re.search` of `\[.*\]` finds a `[` before a `]` with no newline between; of `\bword\b`, the word with no word character on either side; characterised by the lemmas below |
| PatternMatcher.LineFlagged | hidden_credentials_validator.py:87-89 | no `ensures`: some of the eight patterns matches the line; characterised by `SingleWordLineFlagged`, `PluralNotFlagged` and `CapitalisedNotFlagged` |
| PatternMatcher.CheckForForbiddenEntries | hidden_credentials_validator.py:71-92 | the result is `[filePath]` exactly when some line matches some pattern, and empty otherwise; never more than one entry |
| PatternMatcher.PasswordLineFlagged | hidden_credentials_validator.py:75 | `password = hunter2` is flagged |
| PatternMatcher.BracketedLineFlagged | hidden_credentials_validator.py:73 | a section header `[database]` is flagged |
| PatternMatcher.KeywordLineFlagged | hidden_credentials_validator.py:74-80 | a line holding just one of the seven keywords is flagged |
| PatternMatcher.FlaggedWordLineIsKeyword | hidden_credentials_validator.py:73-80 | a flagged line made only of word characters is one of the seven keywords |
| PatternMatcher.SingleWordLineFlagged | hidden_credentials_validator.py:73-80 | a line of word characters is flagged if and only if it is one of the seven keywords |
| PatternMatcher.PluralNotFlagged | hidden_credentials_validator.py:75 | `passwords` alone is not flagged (whole-word match) |
| PatternMatcher.CapitalisedNotFlagged | hidden_credentials_validator.py:75 | `Password` alone is not flagged (case-sensitive match) |
| FileTree.Walk | hidden_credentials_validator.py:140 | the walk starts with the top directory's own files |
| FileTree.WalkSubdirsStep | hidden_credentials_validator.py:108-109 | an entry of the walks from the `i`-th subdirectory on is in that subdirectory's walk, when its name is not pruned, or in the walks of the later ones |
| FileTree.WalkSubdirsSource | hidden_credentials_validator.py:108-109 | an entry of the walks from the `i`-th subdirectory on comes from the walk of a returned subdirectory at or after `i` whose name is not pruned |
| FileTree.WalkSubdirsHolds | hidden_credentials_validator.py:108-109 | every entry of the walk of an unpruned subdirectory at or after `i` is among the walks from the `i`-th on |
| FileTree.WalkSubdirsMembership | hidden_credentials_validator.py:108-109 | an entry of the walks of the subdirectories from the `i`-th on is exactly an entry of the walk of one of them whose name is not pruned |
| FileTree.WalkMembership | hidden_credentials_validator.py:108-109 | the top directory's entry comes first, and an entry is in the walk if and only if it is the top entry or an entry of the walk of a subdirectory whose name is not pruned: a pruned subdirectory is never entered |
| FileTree.UnprunedWalkEntersEverySubdirectory | hidden_credentials_validator.py:140 | without pruning, every entry of every subdirectory's walk is in the walk, so every directory is visited |
| DirectoryWalker.Unignored | hidden_credentials_validator.py:141 | the filtered list is no longer than the listing; `UnignoredCounts` gives its exact contents |
| DirectoryWalker.FilesToScan | hidden_credentials_validator.py:141-143 | no `ensures`: the names scanned in one directory; characterised by `FilesToScanMembership` |
| DirectoryWalker.ShouldScan | hidden_credentials_validator.py:146-153 | no `ensures`: whether a path is handed to the matcher; characterised by `NoBackslashAlwaysScanned` and `SecondComponentDecides` |
| DirectoryWalker.UnignoredCounts | hidden_credentials_validator.py:141 | the filter keeps every copy of a name that is not ignored and no copy of one that is |
| DirectoryWalker.FilesToScanMembership | hidden_credentials_validator.py:141-143 | a name is scanned in a directory if and only if it is listed there, is not ignored, and is not the validator's name unless that name is listed twice |
| DirectoryWalker.NoBackslashAlwaysScanned | hidden_credentials_validator.py:146-153 | a path without a backslash is always scanned: the lookup of the second part fails and the handler scans it |
| DirectoryWalker.SecondComponentDecides | hidden_credentials_validator.py:147-151 | for `first\second...` the file is skipped if and only if `second` is an ignored directory |
| DirectoryWalker.BuildDirectoryOnlySkippedWithBackslashes | hidden_credentials_validator.py:146-153 | with `build` ignored, `.\build\secrets.txt` is skipped but `./build/secrets.txt` is scanned |
| DirectoryWalker.ScanAllMeaning | hidden_credentials_validator.py:144-153 | the scan succeeds if and only if every target can be read; then it reports exactly the flagged targets; a failed scan names an unreadable target |
| DirectoryWalker.DirectoryTargetsMeaning | hidden_credentials_validator.py:144-148 | a path is scanned in a directory if and only if it joins the root with a kept name and passes the skip test |
| DirectoryWalker.EntryTargetsMeaning | hidden_credentials_validator.py:140-148 | the same for one walked directory, after the filter and self-removal |
| DirectoryWalker.WalkTargetsMeaning | hidden_credentials_validator.py:140-148 | a path is scanned if and only if some walked directory has a kept file with that path that passes the skip test |
| DirectoryWalker.ScanDirectory | hidden_credentials_validator.py:144-153 | the inner loop appends the matcher's output for each accepted file, and stops at the first unreadable one |
| DirectoryWalker.ScanForViolations | hidden_credentials_validator.py:140-153 | the loop's result is the scan of all targets in walk order, or the first unreadable target |
| DirectoryWalker.ScannedFilesNotIgnored | hidden_credentials_validator.py:140-145 | every scanned path belongs to a walked file that is not ignored and is not the validator (unless its name is listed twice) |
| ConfigFileDetector.ScanWalk | hidden_credentials_validator.py:108-119 | one pruned walk appends exactly its candidates, in walk order |
| ConfigFileDetector.CheckPossibleConfigFiles | hidden_credentials_validator.py:100-126 | the reported paths are the candidates of each listable ignored directory in turn; an unlistable directory contributes nothing |
| ConfigFileDetector.CandidatePathsMeaning | hidden_credentials_validator.py:111-119 | a path is reported for a directory if and only if it is the path of one of its files that passes the test |
| ConfigFileDetector.EntryCandidatesMeaning | hidden_credentials_validator.py:111-119 | the same, stated for one walked directory |
| ConfigFileDetector.WalkCandidatesMeaning | hidden_credentials_validator.py:108-119 | a path is reported for a walk if and only if some walked directory holds a file with that path that passes the test |
| ConfigFileDetector.ConfigCandidatesSource | hidden_credentials_validator.py:105-121 | a reported path comes from a returned ignored directory that can be listed and whose pruned walk reports it |
| ConfigFileDetector.ConfigCandidatesHolds | hidden_credentials_validator.py:105-121 | a path reported by the walk of any one ignored directory is in the result |
| ConfigFileDetector.ConfigCandidatesMeaning | hidden_credentials_validator.py:105-121 | a path is reported if and only if the walk of some listable ignored directory reports it |
| ConfigFileDetector.IsConfigCandidate | hidden_credentials_validator.py:113-118 | no `ensures`: the test on one walked name, with `or` binding looser than `and`; characterised by `ExtensionlessNameNeedsBareFile`, `UpperCaseExtensionCounts` and `IgnoredDotfileStillReported` |
| ConfigFileDetector.WalkCandidateFile | hidden_credentials_validator.py:108-119 | a path reported for a walk is `os.path.join(root, file)` for a file of some walked directory, and that file passes the test (`IsConfigCandidate`) |
| ConfigFileDetector.CandidatesAreNotIgnored | hidden_credentials_validator.py:105-119 | every reported path is `os.path.join(root, file)` for a file found by the walk of some listable ignored directory, pruned by that directory's listing, and that walked file passes the test: it is not in the ignore list nor in the listing, and has a credential extension or is an extensionless regular file |
| ConfigFileDetector.ReportedFilesAvoidPrunedSubdirectories | hidden_credentials_validator.py:108-119 | in the walk pruned by a listing, a reported path is a top-level file's path or the path of a file found under a subdirectory not named in the listing |
| ConfigFileDetector.ListedSubdirectoryNotReported | hidden_credentials_validator.py:107-119 | when the ignored directory `build` holds an entry `conf`, the directory `./conf` is not entered and `./conf/app.conf` is not reported |
| ConfigFileDetector.UnlistedSubdirectoryReported | hidden_credentials_validator.py:107-119 | when the listing of `build` does not name `conf`, `./conf/app.conf` is reported |
| ConfigFileDetector.UpperCaseExtensionCounts | hidden_credentials_validator.py:114 | the extension test ignores case: `NOTES.TXT` has a credential extension |
| ConfigFileDetector.ExtensionlessNameNeedsBareFile | hidden_credentials_validator.py:113-118 | a name without a dot is a candidate if and only if that bare name is a regular file and is neither in the listing nor ignored |
| ConfigFileDetector.SecretsConfReportedUntilIgnored | hidden_credentials_validator.py:100-126 | `secrets.conf` at the top is reported as `./secrets.conf` until its name is in the ignore list |
| ConfigFileDetector.IgnoredDotfileStillReported | hidden_credentials_validator.py:118 | `.secrets.txt` is still a candidate when the ignore file lists it, because it is stored as `secrets.txt` |
| Report.StripCurrentDir | hidden_credentials_validator.py:155-159 | one stripped path per path; `PosixPathsUnchanged` and `WindowsPathStripped` give the contents |
| Report.PosixPathsUnchanged | hidden_credentials_validator.py:155 | paths without a backslash are not changed by the stripping |
| Report.LeadingCurrentDirStripped | hidden_credentials_validator.py:155-159 | a path made of `.\` and text with no further `.\` loses exactly the prefix |
| Report.WindowsPathStripped | hidden_credentials_validator.py:155-159 | `.\dir\name` is reported as `dir\name` when `dir` holds no backslash and does not end in a dot |
| Report.BuildReport | hidden_credentials_validator.py:161-169 | no `ensures`: the `check_data` dictionary; characterised by `ReportMentionsEveryPath` |
| Report.ReportMentionsEveryPath | hidden_credentials_validator.py:161-169 | the report is empty if and only if both lists are; otherwise it has the two labels in order, and each label's value names every path of its list |
| Report.ReportLineMentions | hidden_credentials_validator.py:161-169 | with a non-empty first list, five lines are printed: the forbidden banner, then a line starting with the first label that names each of its paths |
| Report.ItemLines | hidden_credentials_validator.py:43-44 | one printed line per entry, in order, each `key value` |
| Report.FinalDecision | hidden_credentials_validator.py:39-49 | the loop prints exactly the lines `DecisionLines` gives for the report |
| Report.DecisionLinesShape | hidden_credentials_validator.py:39-49 | the output is framed by blank lines; the banner is the OK one if and only if the report is empty; each entry is printed as `key value` after the banner |
| Validator.Run | hidden_credentials_validator.py:129-171 | `main` step by step gives exactly `Validation` |
| Validator.ValidationOutcome | hidden_credentials_validator.py:129-171 | the run fails if and only if a scanned path cannot be read, and names one; otherwise the OK banner is printed if and only if no scanned file is flagged and no configuration file is reported |
| Validator.FlaggedFileIsReported | hidden_credentials_validator.py:151-169 | a flagged scanned file forbids the push, and its `.\`-stripped path appears on the line after the banner |
| Validator.NoRootRelativeEntryNoConfigCheck | hidden_credentials_validator.py:100-105 | without a root-relative entry in the ignore file, no configuration file is reported |
| Validator.EmptyProjectPasses | hidden_credentials_validator.py:129-171 | a project holding only the validator, with no ignore file, prints the OK banner |

## Left out

- Filesystem calls are not modelled as effects. The results of `open`, `readlines`, `os.listdir` and `os.path.isfile` are inputs, listed above. `os.walk` is computed by `FileTree.Walk` from the input tree.
- Read errors other than a missing file are not distinguished. A scanned path missing from `disk` stands for any read error, such as a missing file, no permission or an undecodable file.
- `absolute_path` and the script's location are not modelled. The `listings` map is keyed by the name passed to it. The empty name stands for the script's own directory.
- `os.path.split(__file__)` is not modelled. The validator's file name `tail` is a parameter.
- The walk's order is not computed. The order in which the operating system lists names is the order of the tree's sequences.
- The walk's handling of unreadable directories and symbolic links is not modelled.
- Printing is not modelled as output. `print` calls become a list of lines, and `print()` becomes an empty line.
- `del` and `gc.collect()` are not modelled. They have no observable effect.
- A read failure of the ignore file itself is not modelled.
- `check_possible_config_files`'s bare `except` is only modelled for `os.listdir`, the one call in that block that can raise on the modelled inputs. A failure there is a name missing from `listings`, and that directory is skipped.
- `PatternMatcher.IsWordChar`: `\b` treats only ASCII letters, digits and `_` as word characters. Python's `re` also counts Unicode letters and digits.
- `Text.Lower`: `lower()` is modelled on ASCII letters only.
- The configuration check rereads the ignore file for each walked file that passes the name test and is not in the listing, since `and` short-circuits. The model reads it once and uses the same list, which gives the same result when the file does not change during the run.
