/** The file system as a discovery run sees it: an abstract tree, and the
    preorder sequence of entries that a `WalkDir` traversal yields for it. */
module FsTree {
  import opened Paths

  /** One directory entry and, for a directory, everything below it.
      `Other` is an entry whose metadata is readable but that is neither a
      regular file nor a directory (a symbolic link, a socket, a device);
      `len` is its metadata length. `Unreadable` is an entry for which the walk
      yields an error (permission denied, vanished, or a root that does not
      exist); a directory whose listing fails holds one `Unreadable` child. */
  datatype Node =
    | Dir(name: OsName, children: seq<Node>)
    | File(name: OsName, len: nat)
    | Other(name: OsName, len: nat)
    | Unreadable(name: OsName)

  /** One item of a walk: the path the walk built, its depth (the root has
      depth 0) and the node found there. */
  datatype Entry = Entry(path: Path, depth: nat, node: Node)

  /** Recursive byte size: the lengths of the regular files in and below `n`. */
  function TreeSize(n: Node): nat
  {
    match n
    case File(_, len) => len
    case Dir(_, cs) => SizeAll(cs)
    case _ => 0
  }

  function SizeAll(cs: seq<Node>): nat
  {
    if cs == [] then 0 else TreeSize(cs[0]) + SizeAll(cs[1..])
  }

  /** Number of nodes in and below `n`, `n` included. */
  function TreeCount(n: Node): nat
  {
    match n
    case Dir(_, cs) => 1 + CountAll(cs)
    case _ => 1
  }

  function CountAll(cs: seq<Node>): nat
  {
    if cs == [] then 0 else TreeCount(cs[0]) + CountAll(cs[1..])
  }

  /** The preorder walk of `n` found at path `p` and depth `d`: the entry
      itself, then the walk of each child in listing order. */
  function Walk(p: Path, d: nat, n: Node): seq<Entry>
    decreases n
  {
    [Entry(p, d, n)] + if n.Dir? then WalkAll(p, d + 1, n.children) else []
  }

  /** The walks of the children `cs` of the directory at path `p`, listed at
      depth `d`, one after the other. */
  function WalkAll(p: Path, d: nat, cs: seq<Node>): seq<Entry>
    decreases cs
  {
    if cs == [] then [] else Walk(Join(p, cs[0].name), d, cs[0]) + WalkAll(p, d, cs[1..])
  }

  /** Bytes contributed by the regular-file entries of `es` (the
      `metadata.is_file()` test); every other entry contributes 0. */
  function FileBytes(es: seq<Entry>): nat
  {
    if es == [] then 0
    else FileBytes(es[..|es| - 1]) + (if es[|es| - 1].node.File? then es[|es| - 1].node.len else 0)
  }

  /** The entries of `es` that a walk limited by `max_depth(k)` yields. */
  function MaxDepth(es: seq<Entry>, k: nat): seq<Entry>
  {
    if es == [] then []
    else MaxDepth(es[..|es| - 1], k) + (if es[|es| - 1].depth <= k then [es[|es| - 1]] else [])
  }

  /** The entries of the children themselves, without what lies below them. */
  function ChildEntries(p: Path, d: nat, cs: seq<Node>): seq<Entry>
  {
    if cs == [] then [] else [Entry(Join(p, cs[0].name), d, cs[0])] + ChildEntries(p, d, cs[1..])
  }

  lemma {:induction false} FileBytesConcat(a: seq<Entry>, b: seq<Entry>)
    ensures FileBytes(a + b) == FileBytes(a) + FileBytes(b)
    decreases |b|
  {
    if b == [] {
      assert a + b == a;
    } else {
      assert (a + b)[..|a + b| - 1] == a + b[..|b| - 1];
      FileBytesConcat(a, b[..|b| - 1]);
    }
  }

  lemma {:induction false} MaxDepthConcat(a: seq<Entry>, b: seq<Entry>, k: nat)
    ensures MaxDepth(a + b, k) == MaxDepth(a, k) + MaxDepth(b, k)
    decreases |b|
  {
    if b == [] {
      assert a + b == a;
    } else {
      assert (a + b)[..|a + b| - 1] == a + b[..|b| - 1];
      MaxDepthConcat(a, b[..|b| - 1], k);
    }
  }

  /** A walk holds one entry per node of the tree: `count_items` counts them. */
  lemma {:induction false} WalkLength(p: Path, d: nat, n: Node)
    ensures |Walk(p, d, n)| == TreeCount(n)
    decreases n
  {
    if n.Dir? {
      WalkAllLength(p, d + 1, n.children);
    }
  }

  lemma {:induction false} WalkAllLength(p: Path, d: nat, cs: seq<Node>)
    ensures |WalkAll(p, d, cs)| == CountAll(cs)
    decreases cs
  {
    if cs != [] {
      WalkLength(Join(p, cs[0].name), d, cs[0]);
      WalkAllLength(p, d, cs[1..]);
    }
  }

  /** Summing the regular-file lengths along the walk gives the recursive
      size of the tree. */
  lemma {:induction false} WalkBytes(p: Path, d: nat, n: Node)
    ensures FileBytes(Walk(p, d, n)) == TreeSize(n)
    decreases n
  {
    var rest := if n.Dir? then WalkAll(p, d + 1, n.children) else [];
    FileBytesConcat([Entry(p, d, n)], rest);
    assert FileBytes([Entry(p, d, n)]) == if n.File? then n.len else 0 by {
      assert [Entry(p, d, n)][..0] == [];
    }
    if n.Dir? {
      WalkAllBytes(p, d + 1, n.children);
    }
  }

  lemma {:induction false} WalkAllBytes(p: Path, d: nat, cs: seq<Node>)
    ensures FileBytes(WalkAll(p, d, cs)) == SizeAll(cs)
    decreases cs
  {
    if cs != [] {
      FileBytesConcat(Walk(Join(p, cs[0].name), d, cs[0]), WalkAll(p, d, cs[1..]));
      WalkBytes(Join(p, cs[0].name), d, cs[0]);
      WalkAllBytes(p, d, cs[1..]);
    }
  }

  /** Every entry of a walk lies below its root: the root path is a prefix of
      the entry's path, and the entry's depth is the number of components it
      has beyond the root. */
  lemma {:induction false} WalkPaths(p: Path, d: nat, n: Node)
    ensures forall e :: e in Walk(p, d, n) ==>
      p <= e.path && d <= e.depth && |e.path| == |p| + (e.depth - d)
    decreases n
  {
    if n.Dir? {
      WalkAllPaths(p, d + 1, n.children);
    }
  }

  lemma {:induction false} WalkAllPaths(p: Path, d: nat, cs: seq<Node>)
    ensures forall e :: e in WalkAll(p, d, cs) ==>
      p < e.path && d <= e.depth && |e.path| == |p| + 1 + (e.depth - d)
    decreases cs
  {
    if cs != [] {
      var q := Join(p, cs[0].name);
      WalkPaths(q, d, cs[0]);
      WalkAllPaths(p, d, cs[1..]);
      forall e | e in Walk(q, d, cs[0])
        ensures p < e.path
      {
        assert p < q <= e.path;
      }
    }
  }

  /** A walk limited to depth `d + 1` from an entry at depth `d` yields the
      entry and then exactly its children, in listing order. */
  lemma {:induction false} ShallowWalk(p: Path, d: nat, n: Node)
    ensures MaxDepth(Walk(p, d, n), d) == [Entry(p, d, n)]
    ensures MaxDepth(Walk(p, d, n), d + 1) ==
      [Entry(p, d, n)] + if n.Dir? then ChildEntries(p, d + 1, n.children) else []
    decreases n
  {
    var e := Entry(p, d, n);
    var rest := if n.Dir? then WalkAll(p, d + 1, n.children) else [];
    MaxDepthConcat([e], rest, d);
    MaxDepthConcat([e], rest, d + 1);
    MaxDepthSingle(e, d);
    MaxDepthSingle(e, d + 1);
    if n.Dir? {
      WalkAllBeyond(p, d + 1, n.children, d);
      WalkAllChildren(p, d + 1, n.children);
    }
  }

  lemma MaxDepthSingle(e: Entry, k: nat)
    ensures MaxDepth([e], k) == if e.depth <= k then [e] else []
  {
    assert [e][..0] == [];
  }

  /** Nothing of the children's walks survives a depth bound below their depth. */
  lemma {:induction false} WalkAllBeyond(p: Path, d: nat, cs: seq<Node>, k: nat)
    requires k < d
    ensures MaxDepth(WalkAll(p, d, cs), k) == []
  {
    WalkAllPaths(p, d, cs);
    MaxDepthNone(WalkAll(p, d, cs), k);
  }

  lemma {:induction false} MaxDepthNone(es: seq<Entry>, k: nat)
    requires forall e :: e in es ==> k < e.depth
    ensures MaxDepth(es, k) == []
    decreases |es|
  {
    if es != [] {
      assert es[|es| - 1] in es;
      forall e | e in es[..|es| - 1] ensures k < e.depth {
        assert e in es;
      }
      MaxDepthNone(es[..|es| - 1], k);
    }
  }

  /** At the children's own depth the children's walks yield the children. */
  lemma {:induction false} WalkAllChildren(p: Path, d: nat, cs: seq<Node>)
    ensures MaxDepth(WalkAll(p, d, cs), d) == ChildEntries(p, d, cs)
    decreases cs
  {
    if cs != [] {
      var q := Join(p, cs[0].name);
      MaxDepthConcat(Walk(q, d, cs[0]), WalkAll(p, d, cs[1..]), d);
      ShallowWalk(q, d, cs[0]);
      WalkAllChildren(p, d, cs[1..]);
    }
  }

  /** `max_depth(k)` keeps exactly the entries at depth `k` or less. */
  lemma {:induction false} MaxDepthMembers(es: seq<Entry>, k: nat)
    ensures forall e :: e in MaxDepth(es, k) <==> e in es && e.depth <= k
    decreases |es|
  {
    if es != [] {
      var init := es[..|es| - 1];
      MaxDepthMembers(init, k);
      assert es == init + [es[|es| - 1]];
      forall e | e in es
        ensures e in init || e == es[|es| - 1]
      {}
    }
  }
}
