/** The directory tree the script walks, and `os.walk(".", topdown=True)`
    over it. The tree stands in for the filesystem: names are listed in the
    order the operating system returns them. */
module FileTree {

  /** A directory: its own name, its subdirectories and the names of its files. */
  datatype Directory = Directory(name: string, subdirs: seq<Directory>, files: seq<string>)

  /** One `(root, dirs, files)` triple of the walk; `dirs` is not used by the
      callers except for pruning, which `Walk` takes as a parameter. */
  datatype WalkEntry = WalkEntry(root: string, files: seq<string>)

  /** `os.path.join(root, name)` for a root that does not end in the separator. */
  function JoinPath(root: string, name: string, sep: char): string {
    root + [sep] + name
  }

  /** `os.walk(top, topdown=True)` when the caller rewrites `dirs[:]` to drop
      every name in `prune`: the directory's own triple first, then each kept
      subdirectory's walk in listing order. */
  function Walk(top: string, d: Directory, prune: seq<string>, sep: char): (entries: seq<WalkEntry>)
    ensures |entries| >= 1 && entries[0] == WalkEntry(top, d.files)
    decreases d, |d.subdirs| + 1
  {
    [WalkEntry(top, d.files)] + WalkSubdirs(top, d, 0, prune, sep)
  }

  /** The walks of the subdirectories of `d` from the `i`-th on. */
  function WalkSubdirs(top: string, d: Directory, i: nat, prune: seq<string>, sep: char): seq<WalkEntry>
    requires i <= |d.subdirs|
    decreases d, |d.subdirs| - i
  {
    if i == |d.subdirs| then []
    else
      var sub := d.subdirs[i];
      (if sub.name in prune then [] else Walk(JoinPath(top, sub.name, sep), sub, prune, sep))
      + WalkSubdirs(top, d, i + 1, prune, sep)
  }

  /** One step of `WalkSubdirs`: an entry comes from the `i`-th subdirectory's
      walk, unless that one is pruned, or from the later ones. */
  lemma WalkSubdirsStep(top: string, d: Directory, i: nat, prune: seq<string>, sep: char, e: WalkEntry)
    requires i < |d.subdirs|
    ensures e in WalkSubdirs(top, d, i, prune, sep) <==>
      (d.subdirs[i].name !in prune && e in Walk(JoinPath(top, d.subdirs[i].name, sep), d.subdirs[i], prune, sep))
      || e in WalkSubdirs(top, d, i + 1, prune, sep)
  {
  }

  /** An entry of the walks from the `i`-th subdirectory on comes from the
      walk of one of those subdirectories, which is not pruned. */
  lemma {:induction false} WalkSubdirsSource(top: string, d: Directory, i: nat, prune: seq<string>, sep: char,
                                             e: WalkEntry) returns (j: nat)
    requires i <= |d.subdirs|
    requires e in WalkSubdirs(top, d, i, prune, sep)
    ensures i <= j < |d.subdirs| && d.subdirs[j].name !in prune
    ensures e in Walk(JoinPath(top, d.subdirs[j].name, sep), d.subdirs[j], prune, sep)
    decreases |d.subdirs| - i
  {
    WalkSubdirsStep(top, d, i, prune, sep, e);
    if d.subdirs[i].name !in prune && e in Walk(JoinPath(top, d.subdirs[i].name, sep), d.subdirs[i], prune, sep) {
      j := i;
    } else {
      j := WalkSubdirsSource(top, d, i + 1, prune, sep, e);
    }
  }

  /** Every entry of the walk of an unpruned subdirectory from the `i`-th on
      is among the walks of those subdirectories. */
  lemma {:induction false} WalkSubdirsHolds(top: string, d: Directory, i: nat, j: nat, prune: seq<string>, sep: char,
                                            e: WalkEntry)
    requires i <= j < |d.subdirs| && d.subdirs[j].name !in prune
    requires e in Walk(JoinPath(top, d.subdirs[j].name, sep), d.subdirs[j], prune, sep)
    ensures e in WalkSubdirs(top, d, i, prune, sep)
    decreases j - i
  {
    if i < j {
      WalkSubdirsHolds(top, d, i + 1, j, prune, sep, e);
    }
    WalkSubdirsStep(top, d, i, prune, sep, e);
  }

  /** An entry of the walks from the `i`-th subdirectory on belongs to the
      walk of one of those subdirectories whose name is not pruned, and every
      entry of such a walk is there. */
  lemma WalkSubdirsMembership(top: string, d: Directory, i: nat, prune: seq<string>, sep: char, e: WalkEntry)
    requires i <= |d.subdirs|
    ensures e in WalkSubdirs(top, d, i, prune, sep) <==>
      exists j | i <= j < |d.subdirs| ::
        d.subdirs[j].name !in prune && e in Walk(JoinPath(top, d.subdirs[j].name, sep), d.subdirs[j], prune, sep)
  {
    if e in WalkSubdirs(top, d, i, prune, sep) {
      var j := WalkSubdirsSource(top, d, i, prune, sep, e);
    }
    if exists j | i <= j < |d.subdirs| ::
         d.subdirs[j].name !in prune && e in Walk(JoinPath(top, d.subdirs[j].name, sep), d.subdirs[j], prune, sep) {
      var j :| i <= j < |d.subdirs| &&
        d.subdirs[j].name !in prune && e in Walk(JoinPath(top, d.subdirs[j].name, sep), d.subdirs[j], prune, sep);
      WalkSubdirsHolds(top, d, i, j, prune, sep, e);
    }
  }

  /** `os.walk` with `dirs[:]` rewritten: the walk holds the top directory's
      own entry, which comes first, and exactly the entries of the walks of
      the subdirectories whose names are not pruned; a pruned subdirectory is
      never entered. */
  lemma WalkMembership(top: string, d: Directory, prune: seq<string>, sep: char, e: WalkEntry)
    ensures Walk(top, d, prune, sep)[0] == WalkEntry(top, d.files)
    ensures e in Walk(top, d, prune, sep) <==>
      e == WalkEntry(top, d.files)
      || exists j | 0 <= j < |d.subdirs| ::
           d.subdirs[j].name !in prune && e in Walk(JoinPath(top, d.subdirs[j].name, sep), d.subdirs[j], prune, sep)
  {
    WalkSubdirsMembership(top, d, 0, prune, sep, e);
  }

  /** Without pruning, as in the scan of `main`, the walk enters every
      subdirectory and holds every entry of its walk. */
  lemma UnprunedWalkEntersEverySubdirectory(top: string, d: Directory, sep: char, j: nat, e: WalkEntry)
    requires j < |d.subdirs|
    requires e in Walk(JoinPath(top, d.subdirs[j].name, sep), d.subdirs[j], [], sep)
    ensures e in Walk(top, d, [], sep)
  {
    WalkMembership(top, d, [], sep, e);
  }
}
