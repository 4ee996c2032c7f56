/** The end of `main` and `final_decision`: strip `.\` from the reported
    paths, build the two-entry report when anything was found, and the lines
    printed for it. The report dictionary is a sequence of key/value pairs in
    insertion order; each `print` call is one line of output. */
module Report {
  import opened Text

  const StoredLabel: string := "-> Some credentials might still be stored in:"
  const AddLabel: string := "-> Please add to .gitignore:"
  const ForbiddenBanner: string := "---------- \U{274C}  Push is forbidden! \U{274C} ----------"
  const OkBanner: string := "---------- \U{2705} OK! No hidden credentials \U{2705} ----------"

  /** `[file.replace(".\\", "") for file in paths]` */
  function StripCurrentDir(paths: seq<string>): (stripped: seq<string>)
    ensures |stripped| == |paths|
  {
    seq(|paths|, k requires 0 <= k < |paths| => Replace(paths[k], ".\\", ""))
  }

  /** Paths without a backslash (those built with `/`) come through
      unchanged. */
  lemma PosixPathsUnchanged(paths: seq<string>)
    requires forall k | 0 <= k < |paths| :: '\\' !in paths[k]
    ensures StripCurrentDir(paths) == paths
  {
    forall k | 0 <= k < |paths|
      ensures Replace(paths[k], ".\\", "") == paths[k]
    {
      var p := paths[k];
      forall i | 0 <= i <= |p| - 2
        ensures !OccursAt(p, ".\\", i)
      {
        assert p[i..i + 2][1] == p[i + 1];
      }
      ReplaceWithoutOccurrence(p, ".\\", "");
    }
  }

  /** A path that starts with `.\` and holds no other `.\` loses exactly
      that prefix; this is how Windows paths built from `.` are shortened. */
  lemma LeadingCurrentDirStripped(rest: string)
    requires !Contains(rest, ".\\")
    ensures Replace(".\\" + rest, ".\\", "") == rest
  {
    var p := ".\\" + rest;
    assert p[..2] == ".\\" && p[2..] == rest;
    ReplaceWithoutOccurrence(rest, ".\\", "");
  }

  /** The backslashes further in stay: `.\dir\name` is reported as
      `dir\name`, provided `dir` does not end in a dot. */
  lemma WindowsPathStripped(dir: string, name: string)
    requires '\\' !in dir && (dir == [] || dir[|dir| - 1] != '.') && '\\' !in name
    ensures StripCurrentDir([".\\" + dir + "\\" + name]) == [dir + "\\" + name]
  {
    var rest := dir + "\\" + name;
    forall i | 0 <= i <= |rest| - 2
      ensures !OccursAt(rest, ".\\", i)
    {
      if i + 1 == |dir| {
        assert rest[i] == dir[i];
      }
      assert rest[i..i + 2][0] == rest[i] && rest[i..i + 2][1] == rest[i + 1];
    }
    LeadingCurrentDirStripped(rest);
    assert ".\\" + dir + "\\" + name == ".\\" + rest;
  }

  /** The `check_data` dictionary: empty when nothing was found, otherwise
      both entries in this order, each list joined with `", "` -- an empty
      list gives an empty value. */
  function BuildReport(preventToPush: seq<string>, possibleConfigFiles: seq<string>): (checkData: seq<(string, string)>)
  {
    if preventToPush != [] || possibleConfigFiles != [] then
      [(StoredLabel, Join(preventToPush, ", ")), (AddLabel, Join(possibleConfigFiles, ", "))]
    else []
  }

  /** The report is empty exactly when both lists are, and otherwise names
      every path of each list under its own label. */
  lemma ReportMentionsEveryPath(preventToPush: seq<string>, possibleConfigFiles: seq<string>)
    ensures BuildReport(preventToPush, possibleConfigFiles) == [] <==> preventToPush == [] && possibleConfigFiles == []
    ensures BuildReport(preventToPush, possibleConfigFiles) != [] ==>
      var checkData := BuildReport(preventToPush, possibleConfigFiles);
      |checkData| == 2 && checkData[0].0 == StoredLabel && checkData[1].0 == AddLabel
      && (forall k | 0 <= k < |preventToPush| :: Contains(checkData[0].1, preventToPush[k]))
      && (forall k | 0 <= k < |possibleConfigFiles| :: Contains(checkData[1].1, possibleConfigFiles[k]))
  {
    forall k | 0 <= k < |preventToPush|
      ensures Contains(Join(preventToPush, ", "), preventToPush[k])
    {
      JoinMentionsEach(preventToPush, ", ", k);
    }
    forall k | 0 <= k < |possibleConfigFiles|
      ensures Contains(Join(possibleConfigFiles, ", "), possibleConfigFiles[k])
    {
      JoinMentionsEach(possibleConfigFiles, ", ", k);
    }
  }

  /** The lines `final_decision` prints for `checkData`. */
  function DecisionLines(checkData: seq<(string, string)>): seq<string> {
    if checkData == [] then ["", OkBanner, ""]
    else ["", ForbiddenBanner] + ItemLines(checkData) + [""]
  }

  /** `f"{key} {value}"` for each entry, in order. */
  function ItemLines(checkData: seq<(string, string)>): (lines: seq<string>)
    ensures |lines| == |checkData|
    ensures forall k | 0 <= k < |checkData| :: lines[k] == checkData[k].0 + " " + checkData[k].1
  {
    seq(|checkData|, k requires 0 <= k < |checkData| => checkData[k].0 + " " + checkData[k].1)
  }

  /** `final_decision`: the printed lines, blank lines included. */
  method FinalDecision(checkData: seq<(string, string)>) returns (output: seq<string>)
    ensures output == DecisionLines(checkData)
  {
    if checkData != [] {
      output := ["", ForbiddenBanner];
      for i := 0 to |checkData|
        invariant output == ["", ForbiddenBanner] + ItemLines(checkData[..i])
      {
        var (key, value) := checkData[i];
        assert ItemLines(checkData[..i + 1]) == ItemLines(checkData[..i]) + [key + " " + value];
        output := output + [key + " " + value];
      }
      assert checkData[..|checkData|] == checkData;
      output := output + [""];
    } else {
      output := ["", OkBanner, ""];
    }
  }

  /** The output is framed by blank lines, and its banner is the OK one
      exactly when the report is empty; otherwise each entry follows the
      banner on its own line. */
  lemma DecisionLinesShape(checkData: seq<(string, string)>)
    ensures var lines := DecisionLines(checkData);
      |lines| == |checkData| + 3 && lines[0] == "" && lines[|lines| - 1] == ""
      && (lines[1] == OkBanner <==> checkData == [])
      && (lines[1] == ForbiddenBanner <==> checkData != [])
      && forall k | 0 <= k < |checkData| :: lines[k + 2] == checkData[k].0 + " " + checkData[k].1
  {
    assert OkBanner != ForbiddenBanner by {
      assert OkBanner[11] != ForbiddenBanner[11];
    }
  }
  /** A path of the first list shows up after the forbidden banner, on the
      line that starts with the first label. */
  lemma ReportLineMentions(preventToPush: seq<string>, possibleConfigFiles: seq<string>, k: nat)
    requires k < |preventToPush|
    ensures var lines := DecisionLines(BuildReport(preventToPush, possibleConfigFiles));
      |lines| == 5 && lines[1] == ForbiddenBanner && StartsWith(lines[2], StoredLabel)
      && Contains(lines[2], preventToPush[k])
  {
    var joined := Join(preventToPush, ", ");
    var path := preventToPush[k];
    JoinMentionsEach(preventToPush, ", ", k);
    var i :| 0 <= i <= |joined| - |path| && OccursAt(joined, path, i);
    var line := StoredLabel + " " + joined;
    var offset := |StoredLabel| + 1;
    assert line[offset + i..offset + i + |path|] == joined[i..i + |path|];
    assert OccursAt(line, path, offset + i);
    assert line[..|StoredLabel|] == StoredLabel;
    assert ItemLines(BuildReport(preventToPush, possibleConfigFiles))[0] == line;
  }
}
