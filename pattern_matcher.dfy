/** `check_for_forbidden_entries`: the eight fixed regular expressions, each
    written as a predicate on one line, and the per-file scan that records the
    file's path at most once. */
module PatternMatcher {
  import opened Text

  /** A character that `\b` treats as part of a word (ASCII only). */
  predicate IsWordChar(c: char) {
    ('a' <= c <= 'z') || ('A' <= c <= 'Z') || ('0' <= c <= '9') || c == '_'
  }

  /** The two shapes of forbidden pattern: `\[.*\]` and `\bword\b`. */
  datatype Pattern = Bracketed | WholeWord(word: string)

  /** The patterns in the order the script tries them. */
  const ForbiddenPatterns: seq<Pattern> := [
    Bracketed,
    WholeWord("pass"),
    WholeWord("password"),
    WholeWord("server"),
    WholeWord("proxy"),
    WholeWord("mail"),
    WholeWord("user"),
    WholeWord("email")
  ]

  /** `\[.*\]` matches from `i` to `j`: a `[` at `i`, a later `]` at `j`, and
      no newline in between (`.` does not match a newline). */
  predicate BracketsAt(line: string, i: int, j: int) {
    0 <= i < j < |line| && line[i] == '[' && line[j] == ']' && '\n' !in line[i + 1..j]
  }

  /** `\bword\b` matches at `i`: the word occurs there, and neither the
      character before nor the one after is a word character. */
  predicate WordAt(line: string, word: string, i: int) {
    OccursAt(line, word, i)
    && (i == 0 || !IsWordChar(line[i - 1]))
    && (i + |word| == |line| || !IsWordChar(line[i + |word|]))
  }

  /** `re.search(pattern, line)` finds a match. */
  predicate Search(p: Pattern, line: string) {
    match p
    case Bracketed =>
      exists i, j | 0 <= i < j < |line| :: BracketsAt(line, i, j)
    case WholeWord(w) =>
      exists i | 0 <= i <= |line| - |w| :: WordAt(line, w, i)
  }

  /** Some forbidden pattern matches the line. */
  predicate LineFlagged(line: string) {
    exists k | 0 <= k < |ForbiddenPatterns| :: Search(ForbiddenPatterns[k], line)
  }

  /** Some line of the file is flagged. */
  predicate FileFlagged(lines: seq<string>) {
    exists k | 0 <= k < |lines| :: LineFlagged(lines[k])
  }

  /** `check_for_forbidden_entries` over the file's lines: the result is
      `[filePath]` exactly when some line matches some pattern, and empty
      otherwise (in particular for a file with no lines), however many
      lines and patterns match. */
  method CheckForForbiddenEntries(filePath: string, lines: seq<string>) returns (preventToPush: seq<string>)
    ensures preventToPush == if FileFlagged(lines) then [filePath] else []
    ensures |preventToPush| <= 1
  {
    preventToPush := [];
    for i := 0 to |lines|
      invariant preventToPush == if exists k | 0 <= k < i :: LineFlagged(lines[k]) then [filePath] else []
    {
      var line := lines[i];
      for j := 0 to |ForbiddenPatterns|
        invariant preventToPush ==
          if (exists k | 0 <= k < i :: LineFlagged(lines[k])) || (exists q | 0 <= q < j :: Search(ForbiddenPatterns[q], line))
          then [filePath] else []
      {
        var pattern := ForbiddenPatterns[j];
        if Search(pattern, line) {
          if filePath !in preventToPush {
            preventToPush := preventToPush + [filePath];
          }
        }
      }
    }
  }

  /** A line holding the word `password` is flagged. */
  lemma PasswordLineFlagged()
    ensures LineFlagged("password = hunter2\n")
  {
    var line := "password = hunter2\n";
    assert line[8] == ' ';
    assert line[0..8] == "password";
    assert WordAt(line, "password", 0);
    assert Search(ForbiddenPatterns[2], line);
  }

  /** A bracketed section header is flagged. */
  lemma BracketedLineFlagged()
    ensures LineFlagged("[database]\n")
  {
    var line := "[database]\n";
    assert line[1..9] == "database";
    assert BracketsAt(line, 0, 9);
    assert Search(ForbiddenPatterns[0], line);
  }

  /** The seven keywords of the `\bword\b` patterns. */
  const Keywords: seq<string> := ["pass", "password", "server", "proxy", "mail", "user", "email"]

  /** A line made only of word characters (before its newline). */
  predicate IsWordLine(t: string) {
    forall i | 0 <= i < |t| :: IsWordChar(t[i])
  }

  /** In such a line a whole-word match can only be the whole line. */
  lemma WholeWordInWordLine(t: string, w: string, i: int)
    requires IsWordLine(t) && w != [] && '\n' !in w
    requires WordAt(t + "\n", w, i)
    ensures i == 0 && t == w
  {
    var line := t + "\n";
    forall m | 0 <= m < |t|
      ensures IsWordChar(line[m])
    {
      assert line[m] == t[m];
    }
    assert line[|t|] == '\n';
    forall m | 0 <= m < |w|
      ensures w[m] == line[i + m]
    {
      assert line[i..i + |w|][m] == line[i + m];
    }
    assert i == 0;
    forall m | 0 <= m < |w|
      ensures line[m] != '\n'
    {
      assert w[m] in w;
    }
    assert |w| == |t|;
    assert t == line[0..|w|];
  }

  /** No `[` in a line of word characters, so `\[.*\]` never matches it. */
  lemma NoBracketsInWordLine(t: string)
    requires IsWordLine(t)
    ensures !Search(Bracketed, t + "\n")
  {
    var line := t + "\n";
    forall m | 0 <= m < |line|
      ensures line[m] != '['
    {
      if m < |t| {
        assert line[m] == t[m];
      }
    }
  }

  /** A line holding one of the keywords is flagged. */
  lemma KeywordLineFlagged(t: string)
    requires t in Keywords
    ensures LineFlagged(t + "\n")
  {
    var line := t + "\n";
    var k :| 0 <= k < |Keywords| && Keywords[k] == t;
    assert line[0..|t|] == t;
    assert WordAt(line, t, 0);
    assert ForbiddenPatterns[k + 1] == WholeWord(t);
    assert Search(ForbiddenPatterns[k + 1], line);
  }

  /** A line of word characters that is flagged holds one of the keywords. */
  lemma FlaggedWordLineIsKeyword(t: string)
    requires IsWordLine(t) && LineFlagged(t + "\n")
    ensures t in Keywords
  {
    var line := t + "\n";
    var k :| 0 <= k < |ForbiddenPatterns| && Search(ForbiddenPatterns[k], line);
    NoBracketsInWordLine(t);
    assert k != 0;
    var w := ForbiddenPatterns[k].word;
    assert w == Keywords[k - 1];
    assert w != [] && '\n' !in w;
    var i :| 0 <= i <= |line| - |w| && WordAt(line, w, i);
    WholeWordInWordLine(t, w, i);
  }

  /** A line holding a single word is flagged exactly when that word is one of
      the seven keywords: matching is case-sensitive and whole-word, so
      `passwords` or `Password` on its own is not flagged. */
  lemma SingleWordLineFlagged(t: string)
    requires IsWordLine(t)
    ensures LineFlagged(t + "\n") <==> t in Keywords
  {
    if t in Keywords {
      KeywordLineFlagged(t);
    }
    if LineFlagged(t + "\n") {
      FlaggedWordLineIsKeyword(t);
    }
  }

  /** A plural is a different word: `passwords` alone is not flagged. */
  lemma PluralNotFlagged()
    ensures !LineFlagged("passwords\n")
  {
    var t := "passwords";
    assert IsWordLine(t);
    forall k | 0 <= k < |Keywords|
      ensures Keywords[k] != t
    {
      assert |Keywords[k]| != |t|;
    }
    assert t !in Keywords;
    SingleWordLineFlagged(t);
  }

  /** Matching is case-sensitive: `Password` alone is not flagged. */
  lemma CapitalisedNotFlagged()
    ensures !LineFlagged("Password\n")
  {
    var t := "Password";
    assert IsWordLine(t);
    forall k | 0 <= k < |Keywords|
      ensures Keywords[k] != t
    {
      assert Keywords[k][0] != t[0];
    }
    assert t !in Keywords;
    SingleWordLineFlagged(t);
    assert t + "\n" == "Password\n";
  }
}
