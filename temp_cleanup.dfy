/** Temporary-file cleanup: the file-name classifier, the size analysis of
    each temporary directory, the per-file removal loop, and the dry-run and
    confirmation gating around them. Both loops look at the directory and two
    levels below it, and only at regular files whose name looks temporary. */
module TempCleanup {
  import opened Results
  import opened Paths
  import opened FsTree
  import opened Storage

  // ------------------------------------------------------------ classifier

  predicate EndsWith(s: string, suffix: string)
  {
    |suffix| <= |s| && s[|s| - |suffix|..] == suffix
  }

  /** The name patterns taken to be temporary, compared case-sensitively:
      prefixes `tmp`, `temp`, `.#` and suffixes `.tmp`, `.temp`, `.cache`, `~`. */
  predicate IsSafeTempName(name: string)
  {
    "tmp" <= name || "temp" <= name || EndsWith(name, ".tmp") || EndsWith(name, ".temp")
    || EndsWith(name, ".cache") || ".#" <= name || EndsWith(name, "~")
  }

  /** `is_safe_temp_file`: the path's file name is UTF-8 text matching one of
      the patterns; a path without a file name or with a non-UTF-8 name is
      never temporary. */
  predicate IsSafeTempFile(p: Path)
  {
    match FileName(p)
    case Some(Utf8(name)) => IsSafeTempName(name)
    case _ => false
  }

  /** A prefix test holds exactly when the name is the prefix glued to some text. */
  lemma PrefixPattern(name: string, prefix: string)
    ensures prefix <= name <==> exists rest: string :: name == prefix + rest
  {
    if prefix <= name {
      assert name == prefix + name[|prefix|..];
    }
    if exists rest: string :: name == prefix + rest {
      var rest: string :| name == prefix + rest;
      assert name[..|prefix|] == prefix;
    }
  }

  /** A suffix test holds exactly when the name is some text glued to the suffix. */
  lemma SuffixPattern(name: string, suffix: string)
    ensures EndsWith(name, suffix) <==> exists rest: string :: name == rest + suffix
  {
    if EndsWith(name, suffix) {
      assert name == name[..|name| - |suffix|] + suffix;
    }
    if exists rest: string :: name == rest + suffix {
      var rest: string :| name == rest + suffix;
      assert name[|name| - |suffix|..] == suffix;
    }
  }

  /** The patterns, stated as the names they build: a name is temporary
      exactly when it is one of the prefixes or suffixes glued to some text. */
  lemma SafeTempNameByPattern(name: string)
    ensures IsSafeTempName(name) <==>
      (exists rest: string :: name == "tmp" + rest) || (exists rest: string :: name == "temp" + rest)
      || (exists rest: string :: name == ".#" + rest) || (exists rest: string :: name == rest + ".tmp")
      || (exists rest: string :: name == rest + ".temp") || (exists rest: string :: name == rest + ".cache")
      || (exists rest: string :: name == rest + "~")
  {
    PrefixPattern(name, "tmp");
    PrefixPattern(name, "temp");
    PrefixPattern(name, ".#");
    SuffixPattern(name, ".tmp");
    SuffixPattern(name, ".temp");
    SuffixPattern(name, ".cache");
    SuffixPattern(name, "~");
  }

  /** The path-level test: a file name that is UTF-8 text built by one of
      the patterns, and nothing else. */
  lemma SafeTempFileByPattern(p: Path)
    ensures IsSafeTempFile(p) <==>
      FileName(p).Some? && FileName(p).value.Utf8? &&
      var name := FileName(p).value.text;
      (exists rest: string :: name == "tmp" + rest) || (exists rest: string :: name == "temp" + rest)
      || (exists rest: string :: name == ".#" + rest) || (exists rest: string :: name == rest + ".tmp")
      || (exists rest: string :: name == rest + ".temp") || (exists rest: string :: name == rest + ".cache")
      || (exists rest: string :: name == rest + "~")
  {
    if FileName(p).Some? && FileName(p).value.Utf8? {
      SafeTempNameByPattern(FileName(p).value.text);
    }
  }

  /** The classifier is loose: anything starting with `temp` counts, so a
      `template.html` is taken for a temporary file. */
  lemma ClassifierAcceptsLoosely()
    ensures IsSafeTempName("tmp1234") && IsSafeTempName("cache.tmp") && IsSafeTempName(".#lock")
    ensures IsSafeTempName("notes.txt~") && IsSafeTempName("template.html")
  {
    PrefixPattern("tmp1234", "tmp");
    assert "tmp1234" == "tmp" + "1234";
    PrefixPattern("template.html", "temp");
    assert "template.html" == "temp" + "late.html";
    PrefixPattern(".#lock", ".#");
    assert ".#lock" == ".#" + "lock";
    SuffixPattern("cache.tmp", ".tmp");
    assert "cache.tmp" == "cache" + ".tmp";
    SuffixPattern("notes.txt~", "~");
    assert "notes.txt~" == "notes.txt" + "~";
  }

  /** Case matters: `TMP1234` and `report.TMP` are not temporary names. */
  lemma ClassifierIsCaseSensitive()
    ensures !IsSafeTempName("TMP1234") && !IsSafeTempName("report.TMP")
  {
    var a := "TMP1234";
    assert a[0] == 'T' && a[6] == '4';
    var b := "report.TMP";
    assert b[0] == 'r' && b[9] == 'P';
  }

  // -------------------------------------------------------------- matches

  /** What both temp loops walk: the directory and two levels below it. */
  function TempScan(root: Path, tree: Node): seq<Entry>
  {
    MaxDepth(Walk(root, 0, tree), 2)
  }

  /** A walk item both loops act on: a regular file with a temporary name. */
  predicate IsTempMatch(e: Entry)
  {
    e.node.File? && IsSafeTempFile(e.path)
  }

  /** The matching items of `es`, in walk order. */
  function Matches(es: seq<Entry>): seq<Entry>
  {
    if es == [] then []
    else Matches(es[..|es| - 1]) + if IsTempMatch(es[|es| - 1]) then [es[|es| - 1]] else []
  }

  lemma {:induction false} MatchesExact(es: seq<Entry>)
    ensures forall e :: e in Matches(es) <==> e in es && IsTempMatch(e)
    decreases |es|
  {
    if es != [] {
      var init := es[..|es| - 1];
      MatchesExact(init);
      assert es == init + [es[|es| - 1]];
      forall e | e in es
        ensures e in init || e == es[|es| - 1]
      {}
    }
  }

  /** The files the temp loops act on are exactly the regular files with a
      temporary name at most two levels below the directory. */
  lemma TempMatchesExact(root: Path, tree: Node)
    ensures forall e :: e in Matches(TempScan(root, tree)) <==>
      e in Walk(root, 0, tree) && e.depth <= 2 && IsTempMatch(e)
    ensures forall e :: e in Matches(TempScan(root, tree)) ==>
      root <= e.path && |e.path| <= |root| + 2
  {
    MatchesExact(TempScan(root, tree));
    MaxDepthMembers(Walk(root, 0, tree), 2);
    WalkPaths(root, 0, tree);
  }

  // ------------------------------------------------------------- analysis

  /** `analyze_temp_dir`: nothing for a path that is not a directory, and
      nothing when no file matches; otherwise the matching files' total length
      and their number. */
  method AnalyzeTempDir(root: Path, tree: Node) returns (r: Option<(nat, nat)>)
    ensures r.Some? <==> tree.Dir? && Matches(TempScan(root, tree)) != []
    ensures r.Some? ==> r.value == (FileBytes(Matches(TempScan(root, tree))), |Matches(TempScan(root, tree))|)
  {
    if !tree.Dir? {
      return None;
    }
    var es := TempScan(root, tree);
    var totalSize: nat := 0;
    var fileCount: nat := 0;
    for i := 0 to |es|
      invariant totalSize == FileBytes(Matches(es[..i])) && fileCount == |Matches(es[..i])|
    {
      assert es[..i + 1][..i] == es[..i];
      var e := es[i];
      if !IsTempMatch(e) {
        assert Matches(es[..i + 1]) == Matches(es[..i]);
      } else {
        assert Matches(es[..i + 1]) == Matches(es[..i]) + [e];
      }
      if e.node.File? {
        if IsSafeTempFile(e.path) {
          FileBytesConcat(Matches(es[..i]), [e]);
          assert [e][..0] == [];
          assert FileBytes([e]) == e.node.len;
          totalSize := totalSize + e.node.len;
          fileCount := fileCount + 1;
        }
      }
    }
    assert es[..|es|] == es;
    if fileCount > 0 {
      r := Some((totalSize, fileCount));
    } else {
      r := None;
    }
  }

  // -------------------------------------------------------------- removal

  /** A regular file the operating system lets `remove_file` delete. */
  predicate Removable(entries: map<Path, Kind>, failing: set<Path>, p: Path)
  {
    p in entries && !entries[p].DirKind? && p !in failing
  }

  function PathsOf(es: seq<Entry>): (ps: set<Path>)
    ensures forall p :: p in ps <==> exists e :: e in es && e.path == p
  {
    set e | e in es :: e.path
  }

  /** Paths in `ps` are pairwise distinct. */
  predicate DistinctPaths(ps: seq<Entry>)
  {
    forall a, b :: 0 <= a < b < |ps| ==> ps[a].path != ps[b].path
  }

  /** The state of the removal loop after the first `i` walk items: `removed`
      lists distinct matching files that were removable, exactly their paths
      are gone, and every removable match among the first `i` items went. */
  ghost predicate RemovalAccount(before: map<Path, Kind>, now: map<Path, Kind>, failing: set<Path>,
                                 es: seq<Entry>, i: nat, removed: seq<Entry>)
    requires i <= |es|
  {
    (forall e :: e in removed ==> e in Matches(es) && Removable(before, failing, e.path))
    && DistinctPaths(removed)
    && now == before - PathsOf(removed)
    && forall j :: 0 <= j < i && IsTempMatch(es[j]) && Removable(before, failing, es[j].path) ==>
         es[j].path !in now
  }

  /** `cleanup_temp_dir`: every matching file of the walk is removed one by
      one; a failed removal is reported and skipped. `removed` lists the
      files that went, `cleanedFiles` counts them and `cleanedSize` adds up
      their lengths as the walk saw them. The directory itself is not
      checked: a root that is a matching file is removed too. */
  method CleanupTempDir(fs: FileSystem, root: Path, tree: Node)
    returns (cleanedFiles: nat, cleanedSize: nat, ghost removed: seq<Entry>)
    modifies fs
    ensures forall e :: e in removed ==> e in Matches(TempScan(root, tree)) && Removable(old(fs.entries), fs.failing, e.path)
    ensures DistinctPaths(removed)
    ensures cleanedFiles == |removed| && cleanedSize == FileBytes(removed)
    ensures fs.entries == old(fs.entries) - PathsOf(removed)
    ensures forall e :: e in Matches(TempScan(root, tree)) && Removable(old(fs.entries), fs.failing, e.path) ==>
      e.path !in fs.entries
  {
    ghost var before := fs.entries;
    var es := TempScan(root, tree);
    cleanedFiles, cleanedSize, removed := 0, 0, [];
    for i := 0 to |es|
      invariant RemovalAccount(before, fs.entries, fs.failing, es, i, removed)
      invariant cleanedFiles == |removed| && cleanedSize == FileBytes(removed)
    {
      var e := es[i];
      if e.node.File? && IsSafeTempFile(e.path) {
        ghost var mid := fs.entries;
        var ok := fs.RemoveFile(e.path);
        if ok {
          KeptWhenRemoved(before, mid, fs.failing, es, i, removed);
          removed := removed + [e];
          cleanedFiles := cleanedFiles + 1;
          cleanedSize := cleanedSize + e.node.len;
        } else {
          KeptWhenSkipped(before, mid, fs.failing, es, i, removed);
        }
      } else {
        KeptWhenSkipped(before, fs.entries, fs.failing, es, i, removed);
      }
    }
    AccountComplete(before, fs.entries, fs.failing, es, removed);
  }

  /** A walk item the loop does not remove keeps the account. */
  lemma KeptWhenSkipped(before: map<Path, Kind>, now: map<Path, Kind>, failing: set<Path>,
                        es: seq<Entry>, i: nat, removed: seq<Entry>)
    requires i < |es| && RemovalAccount(before, now, failing, es, i, removed)
    requires IsTempMatch(es[i]) ==> !Removable(now, failing, es[i].path)
    ensures RemovalAccount(before, now, failing, es, i + 1, removed)
  {
  }

  /** A matching file the loop removes joins the record. */
  lemma KeptWhenRemoved(before: map<Path, Kind>, now: map<Path, Kind>, failing: set<Path>,
                        es: seq<Entry>, i: nat, removed: seq<Entry>)
    requires i < |es| && RemovalAccount(before, now, failing, es, i, removed)
    requires IsTempMatch(es[i]) && Removable(now, failing, es[i].path)
    ensures RemovalAccount(before, now - {es[i].path}, failing, es, i + 1, removed + [es[i]])
    ensures FileBytes(removed + [es[i]]) == FileBytes(removed) + es[i].node.len
  {
    var e := es[i];
    RecordRemoval(before, failing, removed, e);
    MatchesExact(es);
    FileBytesConcat(removed, [e]);
    FileBytesSingle(e);
  }

  lemma FileBytesSingle(e: Entry)
    ensures FileBytes([e]) == if e.node.File? then e.node.len else 0
  {
    assert [e][..0] == [];
  }

  /** At the end of the walk every removable match is gone. */
  lemma AccountComplete(before: map<Path, Kind>, now: map<Path, Kind>, failing: set<Path>,
                        es: seq<Entry>, removed: seq<Entry>)
    requires RemovalAccount(before, now, failing, es, |es|, removed)
    ensures forall e :: e in Matches(es) && Removable(before, failing, e.path) ==> e.path !in now
  {
    MatchesExact(es);
    forall e | e in Matches(es) && Removable(before, failing, e.path)
      ensures e.path !in now
    {
      var j :| 0 <= j < |es| && es[j] == e;
    }
  }

  /** Adding a file that was just removed to the record keeps the record's
      paths distinct and equal to what is gone. */
  lemma RecordRemoval(before: map<Path, Kind>, failing: set<Path>, removed: seq<Entry>, e: Entry)
    requires DistinctPaths(removed)
    requires e.path in before - PathsOf(removed)
    ensures DistinctPaths(removed + [e])
    ensures PathsOf(removed + [e]) == PathsOf(removed) + {e.path}
    ensures (before - PathsOf(removed)) - {e.path} == before - PathsOf(removed + [e])
  {
    var r := removed + [e];
    forall a, b | 0 <= a < b < |r|
      ensures r[a].path != r[b].path
    {
      if b == |removed| {
        assert r[a] in removed;
      }
    }
  }

  // ------------------------------------------------------------- cleanup

  /** One directory of the temp list, with what a walk of it sees. */
  datatype TempDir = TempDir(path: Path, tree: Node)

  /** The bytes and the files the analysis counts in one directory; a
      directory with no match, or a path that is not a directory, adds 0. */
  function DirBytes(d: TempDir): nat
  {
    if d.tree.Dir? then FileBytes(Matches(TempScan(d.path, d.tree))) else 0
  }

  function DirFiles(d: TempDir): nat
  {
    if d.tree.Dir? then |Matches(TempScan(d.path, d.tree))| else 0
  }

  function TotalBytes(ds: seq<TempDir>): nat
  {
    if ds == [] then 0 else TotalBytes(ds[..|ds| - 1]) + DirBytes(ds[|ds| - 1])
  }

  function TotalFiles(ds: seq<TempDir>): nat
  {
    if ds == [] then 0 else TotalFiles(ds[..|ds| - 1]) + DirFiles(ds[|ds| - 1])
  }

  /** `k` is the path of a matching file in one of the directories `ds`. */
  ghost predicate IsCandidate(ds: seq<TempDir>, k: Path)
  {
    exists d, e :: d in ds && e in Matches(TempScan(d.path, d.tree)) && e.path == k
  }

  /** Every path that went from `before` to `now` was a removable matching
      file of one of the directories `ds`. */
  ghost predicate OnlyCandidatesGone(before: map<Path, Kind>, now: map<Path, Kind>, failing: set<Path>, ds: seq<TempDir>)
  {
    forall k :: k in before && k !in now ==> Removable(before, failing, k) && IsCandidate(ds, k)
  }

  /** Every matching file of the directories `ds` that was removable in
      `before` is gone in `now`. */
  ghost predicate EligibleGone(before: map<Path, Kind>, now: map<Path, Kind>, failing: set<Path>, ds: seq<TempDir>)
  {
    forall d, e :: (d in ds && e in Matches(TempScan(d.path, d.tree)) && Removable(before, failing, e.path)) ==>
      e.path !in now
  }

  /** The confirmation prompt failed (no terminal); the error propagates. */
  datatype PromptError = PromptFailed

  /** What one run of the temp cleanup did: the totals of the analysis, and
      whether the removal loops ran. */
  datatype TempReport =
    | NothingToClean
    | WouldClean(totalSize: nat, totalFiles: nat)
    | Declined(totalSize: nat, totalFiles: nat)
    | Cleaned(totalSize: nat, totalFiles: nat)

  /** `temp::cleanup(dry_run)` over the existing temp directories `dirs`.
      The decision to stop is taken on the total size alone: matching files
      that are all empty count as nothing to clean. */
  method Cleanup(fs: FileSystem, dirs: seq<TempDir>, dryRun: bool, answer: Option<bool>)
    returns (r: Result<TempReport, PromptError>)
    modifies fs
    ensures TotalBytes(dirs) == 0 ==> r == Ok(NothingToClean)
    ensures TotalBytes(dirs) > 0 && dryRun ==> r == Ok(WouldClean(TotalBytes(dirs), TotalFiles(dirs)))
    ensures TotalBytes(dirs) > 0 && !dryRun && answer.None? ==> r == Err(PromptFailed)
    ensures TotalBytes(dirs) > 0 && !dryRun && answer == Some(false) ==> r == Ok(Declined(TotalBytes(dirs), TotalFiles(dirs)))
    ensures TotalBytes(dirs) > 0 && !dryRun && answer == Some(true) ==>
      r == Ok(Cleaned(TotalBytes(dirs), TotalFiles(dirs)))
    ensures !(r.Ok? && r.value.Cleaned?) ==> fs.entries == old(fs.entries)
    ensures Shrunk(old(fs.entries), fs.entries)
    ensures OnlyCandidatesGone(old(fs.entries), fs.entries, fs.failing, dirs)
    ensures r.Ok? && r.value.Cleaned? ==> EligibleGone(old(fs.entries), fs.entries, fs.failing, dirs)
  {
    var totalSize: nat, totalFiles: nat := 0, 0;
    for i := 0 to |dirs|
      invariant totalSize == TotalBytes(dirs[..i]) && totalFiles == TotalFiles(dirs[..i])
      invariant fs.entries == old(fs.entries)
    {
      assert dirs[..i + 1][..i] == dirs[..i];
      var a := AnalyzeTempDir(dirs[i].path, dirs[i].tree);
      if a.Some? {
        totalSize := totalSize + a.value.0;
        totalFiles := totalFiles + a.value.1;
      }
    }
    assert dirs[..|dirs|] == dirs;
    if totalSize == 0 {
      return Ok(NothingToClean);
    }
    if dryRun {
      return Ok(WouldClean(totalSize, totalFiles));
    }
    match answer {
      case None =>
        return Err(PromptFailed);
      case Some(false) =>
        return Ok(Declined(totalSize, totalFiles));
      case Some(true) =>
        ghost var before := fs.entries;
        for i := 0 to |dirs|
          invariant Shrunk(before, fs.entries)
          invariant OnlyCandidatesGone(before, fs.entries, fs.failing, dirs[..i])
          invariant EligibleGone(before, fs.entries, fs.failing, dirs[..i])
        {
          ghost var mid := fs.entries;
          var files, bytes, removed := CleanupTempDir(fs, dirs[i].path, dirs[i].tree);
          TempStep(before, mid, fs.entries, fs.failing, dirs, i, removed);
        }
        assert dirs[..|dirs|] == dirs;
        return Ok(Cleaned(totalSize, totalFiles));
    }
  }

  /** One directory's removal loop keeps the account of the whole run. */
  lemma TempStep(before: map<Path, Kind>, mid: map<Path, Kind>, after: map<Path, Kind>, failing: set<Path>,
                 dirs: seq<TempDir>, i: nat, removed: seq<Entry>)
    requires i < |dirs|
    requires Shrunk(before, mid)
    requires OnlyCandidatesGone(before, mid, failing, dirs[..i])
    requires EligibleGone(before, mid, failing, dirs[..i])
    requires forall e :: e in removed ==> e in Matches(TempScan(dirs[i].path, dirs[i].tree)) && Removable(mid, failing, e.path)
    requires after == mid - PathsOf(removed)
    requires forall e :: e in Matches(TempScan(dirs[i].path, dirs[i].tree)) && Removable(mid, failing, e.path) ==>
      e.path !in after
    ensures Shrunk(before, after)
    ensures OnlyCandidatesGone(before, after, failing, dirs[..i + 1])
    ensures EligibleGone(before, after, failing, dirs[..i + 1])
  {
    CandidatesStep(before, mid, after, failing, dirs, i, removed);
    EligibleStep(before, mid, after, failing, dirs, i);
  }

  lemma CandidatesStep(before: map<Path, Kind>, mid: map<Path, Kind>, after: map<Path, Kind>, failing: set<Path>,
                       dirs: seq<TempDir>, i: nat, removed: seq<Entry>)
    requires i < |dirs|
    requires Shrunk(before, mid)
    requires OnlyCandidatesGone(before, mid, failing, dirs[..i])
    requires forall e :: e in removed ==> e in Matches(TempScan(dirs[i].path, dirs[i].tree)) && Removable(mid, failing, e.path)
    requires after == mid - PathsOf(removed)
    ensures OnlyCandidatesGone(before, after, failing, dirs[..i + 1])
  {
    var ds := dirs[..i + 1];
    assert ds == dirs[..i] + [dirs[i]];
    forall k | k in before && k !in after
      ensures Removable(before, failing, k) && IsCandidate(ds, k)
    {
      if k in mid {
        var e :| e in removed && e.path == k;
        assert dirs[i] in ds;
      } else {
        var d, e :| d in dirs[..i] && e in Matches(TempScan(d.path, d.tree)) && e.path == k;
        assert d in ds;
      }
    }
  }

  lemma EligibleStep(before: map<Path, Kind>, mid: map<Path, Kind>, after: map<Path, Kind>, failing: set<Path>,
                     dirs: seq<TempDir>, i: nat)
    requires i < |dirs|
    requires Shrunk(before, mid) && Shrunk(mid, after)
    requires EligibleGone(before, mid, failing, dirs[..i])
    requires forall e :: e in Matches(TempScan(dirs[i].path, dirs[i].tree)) && Removable(mid, failing, e.path) ==>
      e.path !in after
    ensures EligibleGone(before, after, failing, dirs[..i + 1])
  {
    var ds := dirs[..i + 1];
    assert ds == dirs[..i] + [dirs[i]];
    forall d, e | d in ds && e in Matches(TempScan(d.path, d.tree)) && Removable(before, failing, e.path)
      ensures e.path !in after
    {
      if d in dirs[..i] {
      } else if e.path in mid {
        assert Removable(mid, failing, e.path);
      }
    }
  }

  /** Matching files that are all empty stop the run before any prompt: a
      temp directory holding only a 0-byte `tmp` file counts as nothing to
      clean although the analysis found one file. */
  lemma EmptyMatchesAreNothingToClean(root: Path, name: OsName)
    requires FileName(root).None?
    ensures var d := TempDir(root, Dir(name, [File(Utf8("tmp1"), 0)]));
      TotalBytes([d]) == 0 && TotalFiles([d]) == 1
  {
    var f := File(Utf8("tmp1"), 0);
    var tree := Dir(name, [f]);
    var e0 := Entry(root, 0, tree);
    var e1 := Entry(Join(root, Utf8("tmp1")), 1, f);
    OneFileScan(root, name, f);
    EmptyTmpMatches(root, name);
    PairMatches(e0, e1);
    FileBytesSingle(e1);
    TotalsOfOne(TempDir(root, tree));
  }

  /** A directory holding one file is walked as the directory and the file. */
  lemma OneFileScan(root: Path, name: OsName, f: Node)
    requires f.File?
    ensures TempScan(root, Dir(name, [f])) == [Entry(root, 0, Dir(name, [f])), Entry(Join(root, f.name), 1, f)]
  {
    var e0 := Entry(root, 0, Dir(name, [f]));
    var e1 := Entry(Join(root, f.name), 1, f);
    assert [f][1..] == [];
    assert WalkAll(root, 1, [f]) == Walk(Join(root, f.name), 1, f) + WalkAll(root, 1, []);
    assert Walk(root, 0, Dir(name, [f])) == [e0, e1];
    assert [e0, e1][..1] == [e0];
    MaxDepthSingle(e0, 2);
  }

  lemma EmptyTmpMatches(root: Path, name: OsName)
    requires FileName(root).None?
    ensures !IsTempMatch(Entry(root, 0, Dir(name, [File(Utf8("tmp1"), 0)])))
    ensures IsTempMatch(Entry(Join(root, Utf8("tmp1")), 1, File(Utf8("tmp1"), 0)))
  {
    JoinRoundTrip(root, Utf8("tmp1"));
    assert "tmp" <= "tmp1";
  }

  lemma PairMatches(e0: Entry, e1: Entry)
    requires !IsTempMatch(e0) && IsTempMatch(e1)
    ensures Matches([e0, e1]) == [e1]
  {
    assert [e0, e1][..1] == [e0] && [e0][..0] == [];
    assert Matches([e0]) == [];
  }

  lemma TotalsOfOne(d: TempDir)
    ensures TotalBytes([d]) == DirBytes(d) && TotalFiles([d]) == DirFiles(d)
  {
    assert [d][..0] == [];
  }

  /** A directory listed twice (say `TMPDIR` pointing at `/tmp`) is analysed
      twice and its files are counted twice in the totals. */
  lemma RepeatedDirCountedTwice(d: TempDir)
    ensures TotalBytes([d, d]) == 2 * TotalBytes([d]) && TotalFiles([d, d]) == 2 * TotalFiles([d])
  {
    assert [d, d][..1] == [d] && [d][..0] == [];
  }
}
