/** The discovery engine: recursive size and entry counts, the top-level
    listing, the large-file search and the development-artifact search. Each
    search collects items while walking the tree and ends with the stable
    sort by size, largest first. */
module Discovery {
  import opened Results
  import opened Paths
  import opened FsTree
  import opened FileItems

  /** The directory names treated as regenerable development artifacts. The
      removal gate consults the same list. */
  const ArtifactNames: seq<string> :=
    ["node_modules", ".venv", "venv", "__pycache__", ".tox", "target", "build", "dist"]

  /** `calculate_dir_size`: the walk below `p` summed over its regular files;
      unreadable entries and non-files add nothing and never fail the sum. */
  method CalculateDirSize(p: Path, n: Node) returns (total: nat)
    ensures total == TreeSize(n)
  {
    var es := Walk(p, 0, n);
    total := 0;
    var i := 0;
    while i < |es|
      invariant 0 <= i <= |es|
      invariant total == FileBytes(es[..i])
    {
      assert es[..i + 1][..i] == es[..i];
      if es[i].node.File? {
        total := total + es[i].node.len;
      }
      i := i + 1;
    }
    assert es[..i] == es;
    WalkBytes(p, 0, n);
  }

  /** `count_items`: the number of walk items, errors included, minus one for
      the root, saturating at 0. */
  function CountItems(p: Path, n: Node): (c: nat)
    ensures c + 1 == TreeCount(n)
  {
    WalkLength(p, 0, n);
    SaturatingSub(|Walk(p, 0, n)|, 1)
  }

  /** `usize::saturating_sub`. */
  function SaturatingSub(a: nat, b: nat): (r: nat)
    ensures r == if a >= b then a - b else 0
  {
    if a >= b then a - b else 0
  }

  // ---------------------------------------------------------------- listing

  /** The item the top-level listing builds for a readable entry: a directory
      carries its recursive size and entry count, anything else its metadata
      length and no count. */
  function ItemFor(p: Path, n: Node): (it: FileItem)
    requires !n.Unreadable?
    ensures it.path == p && it.isDir == n.Dir?
    ensures it.itemCount.Some? <==> it.isDir
    ensures n.Dir? ==> it.size == TreeSize(n) && it.itemCount == Some(TreeCount(n) - 1)
    ensures !n.Dir? ==> it.size == n.len
  {
    if n.Dir? then FileItem(p, TreeSize(n), Some(CountItems(p, n)), true)
    else FileItem(p, n.len, None, false)
  }

  /** What the listing loop collects from the walk items `es` below `root`:
      every readable item other than the root itself. */
  function Listed(es: seq<Entry>, root: Path): seq<FileItem>
  {
    if es == [] then []
    else
      var e := es[|es| - 1];
      Listed(es[..|es| - 1], root)
        + if e.path == root || e.node.Unreadable? then [] else [ItemFor(e.path, e.node)]
  }

  /** One item per readable child of the directory at `root`, in listing order. */
  function ChildItems(root: Path, cs: seq<Node>): seq<FileItem>
  {
    if cs == [] then []
    else
      (if cs[0].Unreadable? then [] else [ItemFor(Join(root, cs[0].name), cs[0])])
      + ChildItems(root, cs[1..])
  }

  /** What `analyze_directory(root, includeSubdirs)` reports, before sorting:
      the children of the root when subdirectories are included and the root
      is a directory, and nothing otherwise (`max_depth(0)` yields the root
      alone, which is skipped). */
  function Listing(root: Path, tree: Node, includeSubdirs: bool): seq<FileItem>
  {
    if includeSubdirs && tree.Dir? then ChildItems(root, tree.children) else []
  }

  /** `DirAnalyzer::analyze_directory`. A root that does not exist gives the
      empty inventory. */
  method AnalyzeDirectory(root: Path, tree: Node, includeSubdirs: bool) returns (items: seq<FileItem>)
    ensures items == SortBySize(Listing(root, tree, includeSubdirs))
    ensures SortedBySize(items)
    ensures multiset(items) == multiset(Listing(root, tree, includeSubdirs))
  {
    items := [];
    if tree.Unreadable? {
      return;
    }
    var es := MaxDepth(Walk(root, 0, tree), if includeSubdirs then 1 else 0);
    var i := 0;
    while i < |es|
      invariant 0 <= i <= |es|
      invariant items == Listed(es[..i], root)
    {
      assert es[..i + 1][..i] == es[..i];
      var e := es[i];
      if e.path != root && !e.node.Unreadable? {
        var size: nat;
        var count: Option<nat>;
        if e.node.Dir? {
          size := CalculateDirSize(e.path, e.node);
          count := Some(CountItems(e.path, e.node));
        } else {
          size := e.node.len;
          count := None;
        }
        items := items + [FileItem(e.path, size, count, e.node.Dir?)];
      }
      i := i + 1;
    }
    assert es[..i] == es;
    ListingFromWalk(root, tree, includeSubdirs);
    items := SortBySize(items);
  }

  lemma {:induction false} ListedConcat(a: seq<Entry>, b: seq<Entry>, root: Path)
    ensures Listed(a + b, root) == Listed(a, root) + Listed(b, root)
    decreases |b|
  {
    if b == [] {
      assert a + b == a;
    } else {
      assert (a + b)[..|a + b| - 1] == a + b[..|b| - 1];
      ListedConcat(a, b[..|b| - 1], root);
    }
  }

  lemma {:induction false} ListedChildren(root: Path, cs: seq<Node>)
    ensures Listed(ChildEntries(root, 1, cs), root) == ChildItems(root, cs)
    decreases cs
  {
    if cs != [] {
      var e := Entry(Join(root, cs[0].name), 1, cs[0]);
      ListedConcat([e], ChildEntries(root, 1, cs[1..]), root);
      assert [e][..0] == [];
      ListedChildren(root, cs[1..]);
    }
  }

  /** The listing loop over the depth-limited walk collects exactly `Listing`. */
  lemma ListingFromWalk(root: Path, tree: Node, includeSubdirs: bool)
    requires !tree.Unreadable?
    ensures Listed(MaxDepth(Walk(root, 0, tree), if includeSubdirs then 1 else 0), root)
      == Listing(root, tree, includeSubdirs)
  {
    if includeSubdirs {
      ListingOneLevel(root, tree);
    } else {
      ListingRootOnly(root, tree);
    }
  }

  lemma ListingRootOnly(root: Path, tree: Node)
    ensures Listed(MaxDepth(Walk(root, 0, tree), 0), root) == []
  {
    ShallowWalk(root, 0, tree);
    ListedAfterRoot(root, tree, []);
    assert [Entry(root, 0, tree)] + [] == [Entry(root, 0, tree)];
  }

  lemma ListingOneLevel(root: Path, tree: Node)
    ensures Listed(MaxDepth(Walk(root, 0, tree), 1), root)
      == if tree.Dir? then ChildItems(root, tree.children) else []
  {
    if tree.Dir? {
      ListingOfChildren(root, tree);
    } else {
      ListingOfLeaf(root, tree);
    }
  }

  lemma ListingOfLeaf(root: Path, tree: Node)
    requires !tree.Dir?
    ensures Listed(MaxDepth(Walk(root, 0, tree), 1), root) == []
  {
    var top := Entry(root, 0, tree);
    assert Walk(root, 0, tree) == [top];
    MaxDepthSingle(top, 1);
    ListedAfterRoot(root, tree, []);
    assert [top] + [] == [top];
  }

  lemma ListingOfChildren(root: Path, tree: Node)
    requires tree.Dir?
    ensures Listed(MaxDepth(Walk(root, 0, tree), 1), root) == ChildItems(root, tree.children)
  {
    var kids := ChildEntries(root, 1, tree.children);
    assert MaxDepth(Walk(root, 0, tree), 1) == [Entry(root, 0, tree)] + kids by {
      ShallowWalk(root, 0, tree);
    }
    ListedAfterRoot(root, tree, kids);
    ListedChildren(root, tree.children);
  }

  /** The root's own entry adds nothing to the listing. */
  lemma ListedAfterRoot(root: Path, tree: Node, rest: seq<Entry>)
    ensures Listed([Entry(root, 0, tree)] + rest, root) == Listed(rest, root)
  {
    var top := Entry(root, 0, tree);
    ListedConcat([top], rest, root);
    assert [top][..0] == [];
  }

  /** The listing reports exactly the readable children of the root, each
      once per occurrence, never the root itself, each a direct child of it. */
  lemma {:induction false} ChildItemsExact(root: Path, cs: seq<Node>)
    ensures forall it :: it in ChildItems(root, cs) <==>
      exists c :: c in cs && !c.Unreadable? && it == ItemFor(Join(root, c.name), c)
    ensures forall it :: it in ChildItems(root, cs) ==> it.path != root && Parent(it.path) == Some(root)
    decreases cs
  {
    if cs != [] {
      ChildItemsExact(root, cs[1..]);
      assert cs == [cs[0]] + cs[1..];
      forall c | c in cs
        ensures c == cs[0] || c in cs[1..]
      {}
      forall c | c in cs
        ensures Parent(Join(root, c.name)) == Some(root)
      {
        JoinRoundTrip(root, c.name);
      }
    }
  }

  // ------------------------------------------------------------ large files

  predicate IsLarge(e: Entry, minSize: nat)
  {
    e.node.File? && e.node.len >= minSize
  }

  /** The item reported for a large regular file. */
  function LargeItem(e: Entry): (it: FileItem)
    requires e.node.File?
    ensures it.path == e.path && it.size == e.node.len && it.itemCount == None && !it.isDir
  {
    FileItem(e.path, e.node.len, None, false)
  }

  /** What the large-file loop collects from the walk items `es`. */
  function LargeFilesIn(es: seq<Entry>, minSize: nat): seq<FileItem>
  {
    if es == [] then []
    else
      var e := es[|es| - 1];
      LargeFilesIn(es[..|es| - 1], minSize) + if IsLarge(e, minSize) then [LargeItem(e)] else []
  }

  /** `it` is the item of a regular file among `es` of at least `minSize`. */
  ghost predicate LargeItemOf(es: seq<Entry>, minSize: nat, it: FileItem)
  {
    exists e :: e in es && IsLarge(e, minSize) && it == LargeItem(e)
  }

  lemma {:induction false} LargeFilesInExact(es: seq<Entry>, minSize: nat)
    ensures forall it :: it in LargeFilesIn(es, minSize) <==> LargeItemOf(es, minSize, it)
    decreases |es|
  {
    if es != [] {
      var init := es[..|es| - 1];
      LargeFilesInExact(init, minSize);
      assert es == init + [es[|es| - 1]];
      forall e | e in es
        ensures e in init || e == es[|es| - 1]
      {}
    }
  }

  lemma LargeStep(es: seq<Entry>, i: nat, minSize: nat)
    requires i < |es|
    ensures LargeFilesIn(es[..i + 1], minSize)
      == LargeFilesIn(es[..i], minSize) + if IsLarge(es[i], minSize) then [LargeItem(es[i])] else []
  {
    assert es[..i + 1][..i] == es[..i];
  }

  /** `LargeFileFinder::find_large_files`: every regular file of the walk
      whose length is at least `minSize` (inclusive), and nothing else. */
  method FindLargeFiles(root: Path, tree: Node, minSize: nat) returns (r: seq<FileItem>)
    ensures r == SortBySize(LargeFilesIn(Walk(root, 0, tree), minSize))
    ensures forall it :: it in r <==> LargeItemOf(Walk(root, 0, tree), minSize, it)
  {
    var es := Walk(root, 0, tree);
    var large: seq<FileItem> := [];
    var i := 0;
    while i < |es|
      invariant 0 <= i <= |es|
      invariant large == LargeFilesIn(es[..i], minSize)
    {
      LargeStep(es, i, minSize);
      if es[i].node.File? && es[i].node.len >= minSize {
        large := large + [FileItem(es[i].path, es[i].node.len, None, false)];
      }
      i := i + 1;
    }
    assert es[..i] == es;
    LargeFilesInExact(es, minSize);
    r := SortBySize(large);
    SortKeepsMembers(large);
  }

  // ------------------------------------------------------------- artifacts

  /** The artifact test of `find_artifacts`: a directory whose file name is
      UTF-8 text equal to one of the allowlisted names. */
  predicate IsArtifact(e: Entry)
  {
    e.node.Dir? &&
    match FileName(e.path)
    case Some(Utf8(s)) => s in ArtifactNames
    case _ => false
  }

  /** The item reported for an artifact directory. */
  function ArtifactItem(e: Entry): (it: FileItem)
    requires e.node.Dir?
    ensures it.path == e.path && it.isDir && it.itemCount.Some?
    ensures it.size == TreeSize(e.node) && it.itemCount.value + 1 == TreeCount(e.node)
  {
    FileItem(e.path, TreeSize(e.node), Some(CountItems(e.path, e.node)), true)
  }

  /** What the artifact loop collects from the walk items `es`. */
  function ArtifactsIn(es: seq<Entry>): seq<FileItem>
  {
    if es == [] then []
    else
      var e := es[|es| - 1];
      ArtifactsIn(es[..|es| - 1]) + if IsArtifact(e) then [ArtifactItem(e)] else []
  }

  /** `it` is the item of an artifact directory among `es`. */
  ghost predicate ArtifactItemOf(es: seq<Entry>, it: FileItem)
  {
    exists e :: e in es && IsArtifact(e) && it == ArtifactItem(e)
  }

  lemma {:induction false} ArtifactsInExact(es: seq<Entry>)
    ensures forall it :: it in ArtifactsIn(es) <==> ArtifactItemOf(es, it)
    decreases |es|
  {
    if es != [] {
      var init := es[..|es| - 1];
      ArtifactsInExact(init);
      assert es == init + [es[|es| - 1]];
      forall e | e in es
        ensures e in init || e == es[|es| - 1]
      {}
    }
  }

  /** `DevArtifactFinder::find_artifacts`: every directory of the full walk,
      the root included, whose base name is allowlisted. Descent is not
      pruned, so an artifact nested in another is reported as well. */
  method FindArtifacts(root: Path, tree: Node) returns (r: seq<FileItem>)
    ensures r == SortBySize(ArtifactsIn(Walk(root, 0, tree)))
    ensures forall it :: it in r <==> ArtifactItemOf(Walk(root, 0, tree), it)
  {
    var es := Walk(root, 0, tree);
    var artifacts: seq<FileItem> := [];
    var i := 0;
    while i < |es|
      invariant 0 <= i <= |es|
      invariant artifacts == ArtifactsIn(es[..i])
    {
      assert es[..i + 1][..i] == es[..i];
      var e := es[i];
      if e.node.Dir? {
        var name := FileName(e.path);
        if name.Some? && name.value.Utf8? && name.value.text in ArtifactNames {
          var size := CalculateDirSize(e.path, e.node);
          var count := CountItems(e.path, e.node);
          artifacts := artifacts + [FileItem(e.path, size, Some(count), true)];
        }
      }
      i := i + 1;
    }
    assert es[..i] == es;
    ArtifactsInExact(es);
    r := SortBySize(artifacts);
    SortKeepsMembers(artifacts);
  }

  /** Discovery's artifact test and the removal gate's name check (which
      turns a missing or non-UTF-8 name into "") accept the same directories. */
  lemma ArtifactTestMatchesGate(e: Entry)
    ensures IsArtifact(e) <==> e.node.Dir? && BaseNameOrEmpty(e.path) in ArtifactNames
  {
    assert "" !in ArtifactNames;
  }

  /** Names match exactly: a suffix or a different case is not an artifact. */
  lemma ExactNamesOnly()
    ensures "node_modules" in ArtifactNames
    ensures "node_modules_backup" !in ArtifactNames
    ensures "Target" !in ArtifactNames
  {
  }

  /** An artifact directory inside another of the same name is reported
      twice, each with its own recursive size, so a file below both counts in
      both. */
  lemma NestedArtifactsBothReported(root: Path, project: OsName, name: string, file: OsName, len: nat)
    requires FileName(root).None? && name in ArtifactNames
    ensures
      var nm := Utf8(name);
      var tree := Dir(project, [Dir(nm, [Dir(nm, [File(file, len)])])]);
      ArtifactsIn(Walk(root, 0, tree)) ==
        [FileItem(Join(root, nm), len, Some(2), true),
         FileItem(Join(Join(root, nm), nm), len, Some(1), true)]
  {
    var nm := Utf8(name);
    JoinRoundTrip(root, nm);
    NestedOuter(Join(root, nm), name, file, len);
    ArtifactsBelowPlainRoot(root, project, Dir(nm, [Dir(nm, [File(file, len)])]));
  }

  /** A root without a file name is no artifact; its one child's walk
      holds all there is. */
  lemma ArtifactsBelowPlainRoot(root: Path, project: OsName, c: Node)
    requires FileName(root).None?
    ensures ArtifactsIn(Walk(root, 0, Dir(project, [c]))) == ArtifactsIn(Walk(Join(root, c.name), 1, c))
  {
    WalkOneChild(root, 0, project, c);
    PlainRootIsNoArtifact(root, Dir(project, [c]));
    ArtifactsSkip(Entry(root, 0, Dir(project, [c])), Walk(Join(root, c.name), 1, c));
  }

  lemma PlainRootIsNoArtifact(root: Path, n: Node)
    requires FileName(root).None?
    ensures !IsArtifact(Entry(root, 0, n))
  {
  }

  lemma ArtifactsSkip(e: Entry, rest: seq<Entry>)
    requires !IsArtifact(e)
    ensures ArtifactsIn([e] + rest) == ArtifactsIn(rest)
  {
    ArtifactsAfter(e, rest);
    assert [] + ArtifactsIn(rest) == ArtifactsIn(rest);
  }

  /** The outer artifact of the nested pair and the inner one below it. */
  lemma NestedOuter(p1: Path, name: string, file: OsName, len: nat)
    requires FileName(p1) == Some(Utf8(name)) && name in ArtifactNames
    ensures var nm := Utf8(name);
      ArtifactsIn(Walk(p1, 1, Dir(nm, [Dir(nm, [File(file, len)])]))) ==
        [FileItem(p1, len, Some(2), true), FileItem(Join(p1, nm), len, Some(1), true)]
  {
    var nm := Utf8(name);
    var inner := Dir(nm, [File(file, len)]);
    var outer := Dir(nm, [inner]);
    var p2 := Join(p1, nm);
    JoinRoundTrip(p1, nm);
    NestedInner(p2, name, file, len);
    WalkOneChild(p1, 1, nm, inner);
    OneChildTotals(nm, inner);
    OneChildTotals(nm, File(file, len));
    assert IsArtifact(Entry(p1, 1, outer));
    assert ArtifactItem(Entry(p1, 1, outer)) == FileItem(p1, len, Some(2), true);
    ArtifactsAfter(Entry(p1, 1, outer), Walk(p2, 2, inner));
  }

  /** The inner artifact: a directory holding one file. */
  lemma NestedInner(p2: Path, name: string, file: OsName, len: nat)
    requires FileName(p2) == Some(Utf8(name)) && name in ArtifactNames
    ensures ArtifactsIn(Walk(p2, 2, Dir(Utf8(name), [File(file, len)]))) == [FileItem(p2, len, Some(1), true)]
  {
    var inner := Dir(Utf8(name), [File(file, len)]);
    var e3 := Entry(Join(p2, file), 3, File(file, len));
    WalkOneChild(p2, 2, Utf8(name), File(file, len));
    assert Walk(Join(p2, file), 3, File(file, len)) == [e3];
    OneChildTotals(Utf8(name), File(file, len));
    assert IsArtifact(Entry(p2, 2, inner));
    assert ArtifactItem(Entry(p2, 2, inner)) == FileItem(p2, len, Some(1), true);
    ArtifactsAfter(Entry(p2, 2, inner), [e3]);
    ArtifactsSingle(e3);
  }

  /** The walk of a directory with one child. */
  lemma WalkOneChild(p: Path, d: nat, name: OsName, c: Node)
    ensures Walk(p, d, Dir(name, [c])) == [Entry(p, d, Dir(name, [c]))] + Walk(Join(p, c.name), d + 1, c)
  {
    assert [c][1..] == [];
    assert WalkAll(p, d + 1, [c]) == Walk(Join(p, c.name), d + 1, c) + WalkAll(p, d + 1, []);
  }

  lemma OneChildTotals(name: OsName, c: Node)
    ensures TreeSize(Dir(name, [c])) == TreeSize(c) && TreeCount(Dir(name, [c])) == 1 + TreeCount(c)
  {
    assert [c][1..] == [];
    assert SizeAll([c]) == TreeSize(c) + SizeAll([]);
    assert CountAll([c]) == TreeCount(c) + CountAll([]);
  }

  lemma {:induction false} ArtifactsConcat(a: seq<Entry>, b: seq<Entry>)
    ensures ArtifactsIn(a + b) == ArtifactsIn(a) + ArtifactsIn(b)
    decreases |b|
  {
    if b == [] {
      assert a + b == a;
    } else {
      assert (a + b)[..|a + b| - 1] == a + b[..|b| - 1];
      ArtifactsConcat(a, b[..|b| - 1]);
    }
  }

  lemma ArtifactsSingle(e: Entry)
    ensures ArtifactsIn([e]) == if IsArtifact(e) then [ArtifactItem(e)] else []
  {
    assert [e][..0] == [];
  }

  /** The artifacts of an entry followed by more entries. */
  lemma ArtifactsAfter(e: Entry, rest: seq<Entry>)
    ensures ArtifactsIn([e] + rest) == (if IsArtifact(e) then [ArtifactItem(e)] else []) + ArtifactsIn(rest)
  {
    ArtifactsConcat([e], rest);
    ArtifactsSingle(e);
  }
}
