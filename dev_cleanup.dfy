/** Development-artifact cleanup: the safety gate that re-checks a candidate
    against the live file system immediately before deleting it, the batch
    executor that runs the gate over every discovered artifact, and the
    dry-run and confirmation gating around them. */
module DevCleanup {
  import opened Results
  import opened Paths
  import opened FsTree
  import opened FileItems
  import opened Storage
  import opened Discovery

  /** Why the gate refused one candidate, or why the removal itself failed. */
  datatype GateError =
    | NotADirectory(path: Path)
    | NotInSafeList(name: string)
    | AtFilesystemRoot
    | RemoveFailed(path: Path)

  /** All four guards hold for `p` in the file system `entries`: it exists,
      it is a directory, its base name is allowlisted and it has a parent. */
  predicate Cleared(entries: map<Path, Kind>, p: Path)
  {
    p in entries && entries[p].DirKind? && BaseNameOrEmpty(p) in ArtifactNames && Parent(p).Some?
  }

  /** The outcome the gate gives `p` in the file system `entries`: the first
      guard that fails decides the error, and a cleared path gets the
      removal's own verdict. */
  function GateVerdict(entries: map<Path, Kind>, failing: set<Path>, p: Path): (r: Outcome<GateError>)
    ensures r == Pass <==> p !in entries || (Cleared(entries, p) && p !in failing)
  {
    if p !in entries then Pass
    else if !entries[p].DirKind? then Fail(NotADirectory(p))
    else if BaseNameOrEmpty(p) !in ArtifactNames then Fail(NotInSafeList(BaseNameOrEmpty(p)))
    else if Parent(p).None? then Fail(AtFilesystemRoot)
    else if p in failing then Fail(RemoveFailed(p))
    else Pass
  }

  /** The file system after the gate's turn on `p`: the subtree at `p` is gone
      when the removal ran and succeeded, and nothing changed otherwise. */
  function GateAfter(entries: map<Path, Kind>, failing: set<Path>, p: Path): (after: map<Path, Kind>)
    ensures Shrunk(entries, after)
  {
    if p in entries && GateVerdict(entries, failing, p) == Pass then entries - Under(entries, p) else entries
  }

  /** `remove_dir_all_safe`: the guards in order, exists (a vanished path is
      already satisfied), is a directory, allowlisted base name, has a parent;
      the first that fails decides the error, and the destructive call is
      reached only when all four hold. The name is derived from the path
      itself, never from what discovery recorded. */
  method RemoveDirAllSafe(fs: FileSystem, p: Path) returns (r: Outcome<GateError>)
    modifies fs
    ensures p !in old(fs.entries) ==> r == Pass && fs.entries == old(fs.entries)
    ensures p in old(fs.entries) && !old(fs.entries)[p].DirKind? ==>
      r == Fail(NotADirectory(p)) && fs.entries == old(fs.entries)
    ensures p in old(fs.entries) && old(fs.entries)[p].DirKind? && BaseNameOrEmpty(p) !in ArtifactNames ==>
      r == Fail(NotInSafeList(BaseNameOrEmpty(p))) && fs.entries == old(fs.entries)
    ensures p in old(fs.entries) && old(fs.entries)[p].DirKind? && BaseNameOrEmpty(p) in ArtifactNames
      && Parent(p).None?
      ==> r == Fail(AtFilesystemRoot) && fs.entries == old(fs.entries)
    ensures Cleared(old(fs.entries), p) ==>
      r == (if p in fs.failing then Fail(RemoveFailed(p)) else Pass) &&
      fs.entries == if r == Pass then old(fs.entries) - Under(old(fs.entries), p) else old(fs.entries)
    ensures r == GateVerdict(old(fs.entries), fs.failing, p) && fs.entries == GateAfter(old(fs.entries), fs.failing, p)
  {
    if p !in fs.entries {
      return Pass;
    }
    if !fs.entries[p].DirKind? {
      return Fail(NotADirectory(p));
    }
    var dirName := match FileName(p) case Some(Utf8(s)) => s case _ => "";
    if dirName !in ArtifactNames {
      return Fail(NotInSafeList(dirName));
    }
    if Parent(p).None? {
      return Fail(AtFilesystemRoot);
    }
    var ok := fs.RemoveDirAll(p);
    r := if ok then Pass else Fail(RemoveFailed(p));
  }

  /** The root guard is subsumed by the name guard: a path whose base name is
      allowlisted ends in a normal component and so always has a parent. */
  lemma RootGuardSubsumed(p: Path)
    requires BaseNameOrEmpty(p) in ArtifactNames
    ensures Parent(p).Some?
  {
    assert BaseNameOrEmpty(p) != "";
    NamedPathHasParent(p);
  }

  /** Number of successful outcomes. */
  function Passed(outcomes: seq<Outcome<GateError>>): nat
  {
    if outcomes == [] then 0
    else Passed(outcomes[..|outcomes| - 1]) + if outcomes[|outcomes| - 1] == Pass then 1 else 0
  }

  /** Snapshot sizes of the artifacts whose outcome is a success. */
  function FreedBytes(artifacts: seq<FileItem>, outcomes: seq<Outcome<GateError>>): nat
    requires |artifacts| == |outcomes|
  {
    if artifacts == [] then 0
    else
      FreedBytes(artifacts[..|artifacts| - 1], outcomes[..|outcomes| - 1])
        + if outcomes[|outcomes| - 1] == Pass then artifacts[|artifacts| - 1].size else 0
  }

  /** Every path removed from `before` to reach `now` lies at or below some
      artifact among the first `n` that passed the gate, was cleared by it,
      and has nothing left below it. */
  ghost predicate RemovedOnlyByGate(before: map<Path, Kind>, now: map<Path, Kind>,
                                    artifacts: seq<FileItem>, outcomes: seq<Outcome<GateError>>, n: nat)
    requires n <= |artifacts| && n <= |outcomes|
  {
    forall k :: k in before && k !in now ==>
      exists j :: 0 <= j < n && Witness(before, now, artifacts, outcomes, j, k)
  }

  /** Artifact `j` passed the gate, was cleared in `before`, lies at or above
      `k`, and nothing is left below it in `now`. */
  ghost predicate Witness(before: map<Path, Kind>, now: map<Path, Kind>,
                          artifacts: seq<FileItem>, outcomes: seq<Outcome<GateError>>, j: int, k: Path)
  {
    0 <= j < |artifacts| && j < |outcomes| && outcomes[j] == Pass && artifacts[j].path <= k
      && Cleared(before, artifacts[j].path) && Gone(now, artifacts[j].path)
  }

  /** What every outcome among the first `n` says about the artifact: a path
      missing from `before` passed; a path the gate clears and the operating
      system lets go passed and has nothing left below it in `now`; a failure
      is an existing path that a guard or the removal refused. */
  ghost predicate Accounted(before: map<Path, Kind>, now: map<Path, Kind>, failing: set<Path>,
                            artifacts: seq<FileItem>, outcomes: seq<Outcome<GateError>>, n: nat)
    requires n <= |artifacts| && n <= |outcomes|
  {
    VanishedPassed(before, artifacts, outcomes, n)
    && ClearedGone(before, now, failing, artifacts, outcomes, n)
    && FailuresJustified(before, failing, artifacts, outcomes, n)
  }

  ghost predicate VanishedPassed(before: map<Path, Kind>, artifacts: seq<FileItem>, outcomes: seq<Outcome<GateError>>, n: nat)
    requires n <= |artifacts| && n <= |outcomes|
  {
    forall j :: 0 <= j < n && artifacts[j].path !in before ==> outcomes[j] == Pass
  }

  ghost predicate ClearedGone(before: map<Path, Kind>, now: map<Path, Kind>, failing: set<Path>,
                              artifacts: seq<FileItem>, outcomes: seq<Outcome<GateError>>, n: nat)
    requires n <= |artifacts| && n <= |outcomes|
  {
    forall j :: 0 <= j < n && (Cleared(before, artifacts[j].path) && artifacts[j].path !in failing) ==>
      outcomes[j] == Pass && Gone(now, artifacts[j].path)
  }

  ghost predicate FailuresJustified(before: map<Path, Kind>, failing: set<Path>,
                                    artifacts: seq<FileItem>, outcomes: seq<Outcome<GateError>>, n: nat)
    requires n <= |artifacts| && n <= |outcomes|
  {
    forall j :: 0 <= j < n && outcomes[j].Fail? ==>
      artifacts[j].path in before && (!Cleared(before, artifacts[j].path) || artifacts[j].path in failing)
  }

  /** `remove_artifacts`: the gate is tried on every artifact in list order; a
      failure is recorded and the loop goes on. `removedCount` counts the
      successes, vanished paths included, and `removedSize` adds up the
      snapshot sizes of exactly those artifacts. */
  method RemoveArtifacts(fs: FileSystem, artifacts: seq<FileItem>)
    returns (removedCount: nat, removedSize: nat, outcomes: seq<Outcome<GateError>>)
    modifies fs
    ensures |outcomes| == |artifacts|
    ensures removedCount == Passed(outcomes)
    ensures removedSize == FreedBytes(artifacts, outcomes)
    ensures Shrunk(old(fs.entries), fs.entries)
    ensures RemovedOnlyByGate(old(fs.entries), fs.entries, artifacts, outcomes, |artifacts|)
    ensures Accounted(old(fs.entries), fs.entries, fs.failing, artifacts, outcomes, |artifacts|)
    ensures (outcomes, fs.entries) == Batch(old(fs.entries), fs.failing, artifacts)
  {
    ghost var before := fs.entries;
    removedCount, removedSize, outcomes := 0, 0, [];
    var i := 0;
    BatchStart(before, fs.failing, artifacts);
    while i < |artifacts|
      invariant 0 <= i <= |artifacts| && |outcomes| == i
      invariant removedCount == Passed(outcomes)
      invariant removedSize == FreedBytes(artifacts[..i], outcomes)
      invariant ExecutorKept(before, fs.entries, fs.failing, artifacts, outcomes, i)
    {
      var p := artifacts[i].path;
      ghost var mid := fs.entries;
      var r := RemoveDirAllSafe(fs, p);
      StepKeepsAll(before, mid, fs.entries, fs.failing, artifacts, outcomes, i, r);
      CountsStep(artifacts, outcomes, i, r);
      if r == Pass {
        removedCount := removedCount + 1;
        removedSize := removedSize + artifacts[i].size;
      }
      outcomes := outcomes + [r];
      i := i + 1;
    }
    assert artifacts[..i] == artifacts;
    BatchDone(before, fs.entries, fs.failing, artifacts, outcomes);
  }

  /** The batch as the source runs it: the gate on each artifact in list
      order, each turn seeing the file system the previous turns left, and a
      failure going on to the next artifact. The outcomes and the final file
      system. */
  function Batch(entries: map<Path, Kind>, failing: set<Path>, artifacts: seq<FileItem>)
    : (b: (seq<Outcome<GateError>>, map<Path, Kind>))
    ensures |b.0| == |artifacts|
    decreases |artifacts|
  {
    if artifacts == [] then ([], entries)
    else
      var p := artifacts[0].path;
      var rest := Batch(GateAfter(entries, failing, p), failing, artifacts[1..]);
      ([GateVerdict(entries, failing, p)] + rest.0, rest.1)
  }

  /** After `i` turns, the outcomes so far followed by the batch of the
      remaining artifacts over the current file system make up the whole
      batch. */
  ghost predicate BatchRemaining(before: map<Path, Kind>, now: map<Path, Kind>, failing: set<Path>,
                                 artifacts: seq<FileItem>, outcomes: seq<Outcome<GateError>>, i: nat)
  {
    i <= |artifacts| &&
    var rest := Batch(now, failing, artifacts[i..]);
    Batch(before, failing, artifacts) == (outcomes + rest.0, rest.1)
  }

  /** Before the first turn the whole batch remains. */
  lemma BatchStart(before: map<Path, Kind>, failing: set<Path>, artifacts: seq<FileItem>)
    ensures BatchRemaining(before, before, failing, artifacts, [], 0)
  {
    assert artifacts[0..] == artifacts;
    assert [] + Batch(before, failing, artifacts).0 == Batch(before, failing, artifacts).0;
  }

  /** One gate turn moves an artifact from the remaining batch to the
      outcomes so far. */
  lemma BatchAdvance(before: map<Path, Kind>, mid: map<Path, Kind>, after: map<Path, Kind>, failing: set<Path>,
                     artifacts: seq<FileItem>, outcomes: seq<Outcome<GateError>>, i: nat, r: Outcome<GateError>)
    requires i < |artifacts|
    requires BatchRemaining(before, mid, failing, artifacts, outcomes, i)
    requires r == GateVerdict(mid, failing, artifacts[i].path) && after == GateAfter(mid, failing, artifacts[i].path)
    ensures BatchRemaining(before, after, failing, artifacts, outcomes + [r], i + 1)
  {
    assert artifacts[i..][0] == artifacts[i];
    assert artifacts[i..][1..] == artifacts[i + 1..];
    var rest := Batch(after, failing, artifacts[i + 1..]);
    assert Batch(mid, failing, artifacts[i..]) == ([r] + rest.0, rest.1);
    assert outcomes + ([r] + rest.0) == (outcomes + [r]) + rest.0;
  }

  /** With no artifact left, the outcomes and the file system are the batch's. */
  lemma BatchDone(before: map<Path, Kind>, now: map<Path, Kind>, failing: set<Path>,
                  artifacts: seq<FileItem>, outcomes: seq<Outcome<GateError>>)
    requires BatchRemaining(before, now, failing, artifacts, outcomes, |artifacts|)
    ensures (outcomes, now) == Batch(before, failing, artifacts)
  {
    assert artifacts[|artifacts|..] == [];
    assert outcomes + [] == outcomes;
  }

  /** The two tallies after one more outcome. */
  lemma CountsStep(artifacts: seq<FileItem>, outcomes: seq<Outcome<GateError>>, i: nat, r: Outcome<GateError>)
    requires i < |artifacts| && |outcomes| == i
    ensures Passed(outcomes + [r]) == Passed(outcomes) + if r == Pass then 1 else 0
    ensures FreedBytes(artifacts[..i + 1], outcomes + [r])
      == FreedBytes(artifacts[..i], outcomes) + if r == Pass then artifacts[i].size else 0
  {
    assert artifacts[..i + 1][..i] == artifacts[..i];
    assert (outcomes + [r])[..i] == outcomes;
  }

  /** What the executor's loop keeps after `i` turns: nothing was added or
      changed, every deletion is traced to a passed artifact, every outcome
      is accounted for, and the rest of the batch is still to run. */
  ghost predicate ExecutorKept(before: map<Path, Kind>, now: map<Path, Kind>, failing: set<Path>,
                               artifacts: seq<FileItem>, outcomes: seq<Outcome<GateError>>, i: nat)
  {
    i <= |artifacts| && |outcomes| == i
    && Shrunk(before, now)
    && RemovedOnlyByGate(before, now, artifacts, outcomes, i)
    && Accounted(before, now, failing, artifacts, outcomes, i)
    && BatchRemaining(before, now, failing, artifacts, outcomes, i)
  }

  /** One gate call keeps every invariant of the executor's loop. */
  lemma StepKeepsAll(before: map<Path, Kind>, mid: map<Path, Kind>, after: map<Path, Kind>, failing: set<Path>,
                     artifacts: seq<FileItem>, outcomes: seq<Outcome<GateError>>, i: nat, r: Outcome<GateError>)
    requires i < |artifacts|
    requires ExecutorKept(before, mid, failing, artifacts, outcomes, i)
    requires r == GateVerdict(mid, failing, artifacts[i].path) && after == GateAfter(mid, failing, artifacts[i].path)
    ensures ExecutorKept(before, after, failing, artifacts, outcomes + [r], i + 1)
  {
    var p := artifacts[i].path;
    BatchAdvance(before, mid, after, failing, artifacts, outcomes, i, r);
    assert after == mid || (r == Pass && Cleared(mid, p) && after == mid - Under(mid, p));
    StepKeepsHistory(before, mid, after, artifacts, outcomes, i, r);
    if Cleared(mid, p) && p !in failing {
      assert Gone(after, p);
    }
    StepKeepsAccount(before, mid, after, failing, artifacts, outcomes, i, r);
  }

  /** One gate call keeps the per-outcome account. */
  lemma StepKeepsAccount(before: map<Path, Kind>, mid: map<Path, Kind>, after: map<Path, Kind>, failing: set<Path>,
                         artifacts: seq<FileItem>, outcomes: seq<Outcome<GateError>>, i: nat, r: Outcome<GateError>)
    requires i < |artifacts| && |outcomes| == i
    requires Shrunk(before, mid)
    requires RemovedOnlyByGate(before, mid, artifacts, outcomes, i)
    requires Accounted(before, mid, failing, artifacts, outcomes, i)
    requires forall q :: Gone(mid, q) ==> Gone(after, q)
    requires artifacts[i].path !in mid ==> r == Pass
    requires r.Fail? ==> artifacts[i].path in mid && (!Cleared(mid, artifacts[i].path) || artifacts[i].path in failing)
    requires (Cleared(mid, artifacts[i].path) && artifacts[i].path !in failing) ==> r == Pass && Gone(after, artifacts[i].path)
    ensures Accounted(before, after, failing, artifacts, outcomes + [r], i + 1)
  {
    VerdictAgainstBefore(before, mid, after, failing, artifacts, outcomes, i, r);
    StepKeepsVanished(before, mid, artifacts, outcomes, i, r);
    StepKeepsCleared(before, mid, after, failing, artifacts, outcomes, i, r);
    StepKeepsFailures(before, failing, artifacts, outcomes, i, r);
  }

  /** The gate's verdict on artifact `i`, judged against the file system as it
      was before the batch: a path that vanished meanwhile was removed under an
      earlier artifact, and a path that is still there has the same kind. */
  lemma VerdictAgainstBefore(before: map<Path, Kind>, mid: map<Path, Kind>, after: map<Path, Kind>, failing: set<Path>,
                             artifacts: seq<FileItem>, outcomes: seq<Outcome<GateError>>, i: nat, r: Outcome<GateError>)
    requires i < |artifacts| && |outcomes| == i
    requires Shrunk(before, mid)
    requires RemovedOnlyByGate(before, mid, artifacts, outcomes, i)
    requires forall q :: Gone(mid, q) ==> Gone(after, q)
    requires artifacts[i].path !in mid ==> r == Pass
    requires r.Fail? ==> artifacts[i].path in mid && (!Cleared(mid, artifacts[i].path) || artifacts[i].path in failing)
    requires (Cleared(mid, artifacts[i].path) && artifacts[i].path !in failing) ==> r == Pass && Gone(after, artifacts[i].path)
    ensures r.Fail? ==> artifacts[i].path in before && (!Cleared(before, artifacts[i].path) || artifacts[i].path in failing)
    ensures (Cleared(before, artifacts[i].path) && artifacts[i].path !in failing) ==> r == Pass && Gone(after, artifacts[i].path)
  {
    var p := artifacts[i].path;
    if p in mid {
      assert Cleared(mid, p) == Cleared(before, p);
    } else if Cleared(before, p) {
      var j :| 0 <= j < i && Witness(before, mid, artifacts, outcomes, j, p);
      assert Gone(mid, p);
    }
  }

  lemma StepKeepsVanished(before: map<Path, Kind>, mid: map<Path, Kind>,
                          artifacts: seq<FileItem>, outcomes: seq<Outcome<GateError>>, i: nat, r: Outcome<GateError>)
    requires i < |artifacts| && |outcomes| == i
    requires Shrunk(before, mid)
    requires VanishedPassed(before, artifacts, outcomes, i)
    requires artifacts[i].path !in mid ==> r == Pass
    ensures VanishedPassed(before, artifacts, outcomes + [r], i + 1)
  {
    var os := outcomes + [r];
    assert os[i] == r;
    assert forall j :: 0 <= j < i ==> os[j] == outcomes[j];
  }

  lemma StepKeepsCleared(before: map<Path, Kind>, mid: map<Path, Kind>, after: map<Path, Kind>, failing: set<Path>,
                         artifacts: seq<FileItem>, outcomes: seq<Outcome<GateError>>, i: nat, r: Outcome<GateError>)
    requires i < |artifacts| && |outcomes| == i
    requires ClearedGone(before, mid, failing, artifacts, outcomes, i)
    requires forall q :: Gone(mid, q) ==> Gone(after, q)
    requires (Cleared(before, artifacts[i].path) && artifacts[i].path !in failing) ==> r == Pass && Gone(after, artifacts[i].path)
    ensures ClearedGone(before, after, failing, artifacts, outcomes + [r], i + 1)
  {
    var os := outcomes + [r];
    assert os[i] == r;
    assert forall j :: 0 <= j < i ==> os[j] == outcomes[j];
  }

  lemma StepKeepsFailures(before: map<Path, Kind>, failing: set<Path>,
                          artifacts: seq<FileItem>, outcomes: seq<Outcome<GateError>>, i: nat, r: Outcome<GateError>)
    requires i < |artifacts| && |outcomes| == i
    requires FailuresJustified(before, failing, artifacts, outcomes, i)
    requires r.Fail? ==> artifacts[i].path in before && (!Cleared(before, artifacts[i].path) || artifacts[i].path in failing)
    ensures FailuresJustified(before, failing, artifacts, outcomes + [r], i + 1)
  {
    var os := outcomes + [r];
    assert os[i] == r;
    assert forall j :: 0 <= j < i ==> os[j] == outcomes[j];
  }

  /** One gate call keeps the executor's account of what was removed. */
  lemma StepKeepsHistory(before: map<Path, Kind>, mid: map<Path, Kind>, after: map<Path, Kind>,
                         artifacts: seq<FileItem>, outcomes: seq<Outcome<GateError>>, i: nat, r: Outcome<GateError>)
    requires i < |artifacts| && |outcomes| == i
    requires Shrunk(before, mid)
    requires RemovedOnlyByGate(before, mid, artifacts, outcomes, i)
    requires after == mid || (r == Pass && Cleared(mid, artifacts[i].path)
      && after == mid - Under(mid, artifacts[i].path))
    ensures Shrunk(before, after)
    ensures RemovedOnlyByGate(before, after, artifacts, outcomes + [r], i + 1)
    ensures forall q :: Gone(mid, q) ==> Gone(after, q)
  {
    var p := artifacts[i].path;
    var os := outcomes + [r];
    assert forall k :: k in after ==> k in mid;
    forall q | Gone(mid, q)
      ensures Gone(after, q)
    {
    }
    forall k | k in before && k !in after
      ensures exists j :: Witness(before, after, artifacts, os, j, k)
    {
      if k in mid {
        assert after != mid && p <= k;
        assert Gone(after, p);
        assert Witness(before, after, artifacts, os, i, k);
      } else {
        var j :| 0 <= j < i && Witness(before, mid, artifacts, outcomes, j, k);
        assert Gone(after, artifacts[j].path);
        assert Witness(before, after, artifacts, os, j, k);
      }
    }
  }

  /** `artifacts.iter().map(|a| a.size).sum()`. */
  function TotalSize(s: seq<FileItem>): nat
  {
    if s == [] then 0 else TotalSize(s[..|s| - 1]) + s[|s| - 1].size
  }

  /** `artifacts.iter().map(|a| a.item_count.unwrap_or(0)).sum()`. */
  function TotalItems(s: seq<FileItem>): nat
  {
    if s == [] then 0 else TotalItems(s[..|s| - 1]) + s[|s| - 1].itemCount.UnwrapOr(0)
  }

  lemma {:induction false} TotalsConcat(a: seq<FileItem>, b: seq<FileItem>)
    ensures TotalSize(a + b) == TotalSize(a) + TotalSize(b)
    ensures TotalItems(a + b) == TotalItems(a) + TotalItems(b)
    decreases |b|
  {
    if b == [] {
      assert a + b == a;
    } else {
      TotalsConcat(a, b[..|b| - 1]);
      assert (a + b)[..|a + b| - 1] == a + b[..|b| - 1];
    }
  }

  /** The totals do not depend on the order of the list, so the totals of the
      size-sorted result are those of the artifacts in walk order. */
  lemma {:induction false} TotalsIgnoreOrder(a: seq<FileItem>, b: seq<FileItem>)
    requires multiset(a) == multiset(b)
    ensures TotalSize(a) == TotalSize(b) && TotalItems(a) == TotalItems(b)
    decreases |a|
  {
    if a == [] {
      assert |b| == |multiset(b)| == 0;
    } else {
      var x := a[|a| - 1];
      var init := a[..|a| - 1];
      assert a == init + [x];
      assert x in multiset(b);
      var i :| 0 <= i < |b| && b[i] == x;
      var rest := b[..i] + b[i + 1..];
      SameAfterRemoval(init, x, b, i);
      TotalsIgnoreOrder(init, rest);
      TotalsConcat(init, [x]);
      TotalsWithout(b, i);
    }
  }

  /** Taking the same item out of two lists with equal contents leaves
      lists with equal contents. */
  lemma SameAfterRemoval(init: seq<FileItem>, x: FileItem, b: seq<FileItem>, i: nat)
    requires i < |b| && b[i] == x
    requires multiset(init + [x]) == multiset(b)
    ensures multiset(init) == multiset(b[..i] + b[i + 1..])
  {
    var rest := b[..i] + b[i + 1..];
    assert b == b[..i] + [x] + b[i + 1..];
    assert multiset(b) == multiset(b[..i]) + multiset{x} + multiset(b[i + 1..]);
    assert multiset(rest) == multiset(b[..i]) + multiset(b[i + 1..]);
    assert multiset(init) + multiset{x} == multiset(rest) + multiset{x};
    assert forall y :: multiset(init)[y] == (multiset(init) + multiset{x})[y] - multiset{x}[y];
  }

  /** The totals of a list are those without item `i` plus item `i`. */
  lemma TotalsWithout(b: seq<FileItem>, i: nat)
    requires i < |b|
    ensures TotalSize(b) == TotalSize(b[..i] + b[i + 1..]) + b[i].size
    ensures TotalItems(b) == TotalItems(b[..i] + b[i + 1..]) + b[i].itemCount.UnwrapOr(0)
  {
    var l, x, r := b[..i], b[i], b[i + 1..];
    SplitAround(b, i);
    TotalsMiddle(l, x, r);
  }

  lemma SplitAround(b: seq<FileItem>, i: nat)
    requires i < |b|
    ensures b == (b[..i] + [b[i]]) + b[i + 1..]
  {
  }

  lemma TotalsMiddle(l: seq<FileItem>, x: FileItem, r: seq<FileItem>)
    ensures TotalSize((l + [x]) + r) == TotalSize(l + r) + x.size
    ensures TotalItems((l + [x]) + r) == TotalItems(l + r) + x.itemCount.UnwrapOr(0)
  {
    TotalsConcat(l, [x]);
    TotalsConcat(l + [x], r);
    TotalsConcat(l, r);
    TotalsSingle(x);
  }

  lemma TotalsSingle(x: FileItem)
    ensures TotalSize([x]) == x.size && TotalItems([x]) == x.itemCount.UnwrapOr(0)
  {
    assert [x][..0] == [];
  }

  /** What the executor reports never exceeds the whole batch, and when every
      candidate passed it is exactly the batch. */
  lemma {:induction false} FreedWithinTotal(artifacts: seq<FileItem>, outcomes: seq<Outcome<GateError>>)
    requires |artifacts| == |outcomes|
    ensures Passed(outcomes) <= |outcomes| && FreedBytes(artifacts, outcomes) <= TotalSize(artifacts)
    ensures (forall i :: 0 <= i < |outcomes| ==> outcomes[i] == Pass) ==>
      Passed(outcomes) == |outcomes| && FreedBytes(artifacts, outcomes) == TotalSize(artifacts)
    decreases |artifacts|
  {
    if artifacts != [] {
      FreedWithinTotal(artifacts[..|artifacts| - 1], outcomes[..|outcomes| - 1]);
    }
  }

  /** The confirmation prompt failed (no terminal); the error propagates. */
  datatype PromptError = PromptFailed

  /** What one run of the development cleanup did. `count`, `totalSize` and
      `totalItems` summarise the artifacts found. */
  datatype DevReport =
    | NoArtifacts
    | WouldRemove(count: nat, totalSize: nat, totalItems: nat)
    | Declined(count: nat, totalSize: nat, totalItems: nat)
    | Removed(count: nat, totalSize: nat, totalItems: nat, removedCount: nat, removedSize: nat)

  /** The artifacts a walk of `tree` at `root` reports, in walk order. */
  function Found(root: Path, tree: Node): seq<FileItem>
  {
    ArtifactsIn(Walk(root, 0, tree))
  }

  /** `cleanup(path, dry_run)`: the target defaults to ".", `tree` is what the
      walk sees there, and `answer` is the reply to the confirmation prompt
      (`None` when the prompt itself fails). Nothing is removed when no
      artifact is found, in a dry run, or unless the user confirms. */
  method Cleanup(fs: FileSystem, path: Option<Path>, tree: Node, dryRun: bool, answer: Option<bool>)
    returns (r: Result<DevReport, PromptError>)
    modifies fs
    ensures Found(path.UnwrapOr([CurDir]), tree) == [] ==> r == Ok(NoArtifacts)
    ensures Found(path.UnwrapOr([CurDir]), tree) != [] && !dryRun && answer.None? ==> r == Err(PromptFailed)
    ensures r.Ok? && !r.value.NoArtifacts? ==>
      var found := Found(path.UnwrapOr([CurDir]), tree);
      r.value.count == |found| && r.value.totalSize == TotalSize(found) && r.value.totalItems == TotalItems(found)
    ensures Found(path.UnwrapOr([CurDir]), tree) != [] && dryRun ==> r.Ok? && r.value.WouldRemove?
    ensures Found(path.UnwrapOr([CurDir]), tree) != [] && !dryRun && answer == Some(false) ==> r.Ok? && r.value.Declined?
    ensures Found(path.UnwrapOr([CurDir]), tree) != [] && !dryRun && answer == Some(true) ==> r.Ok? && r.value.Removed?
    ensures !(r.Ok? && r.value.Removed?) ==> fs.entries == old(fs.entries)
    ensures r.Ok? && r.value.Removed? ==>
      var found := Found(path.UnwrapOr([CurDir]), tree);
      r.value.removedCount <= r.value.count && r.value.removedSize <= r.value.totalSize
      && Shrunk(old(fs.entries), fs.entries)
      && (forall k :: k in old(fs.entries) && k !in fs.entries ==>
            exists it :: it in found && it.path <= k && Cleared(old(fs.entries), it.path))
      && (forall it :: it in found && Cleared(old(fs.entries), it.path) && it.path !in fs.failing ==>
            Gone(fs.entries, it.path))
    ensures r.Ok? && r.value.Removed? ==>
      var sorted := SortBySize(Found(path.UnwrapOr([CurDir]), tree));
      var run := Batch(old(fs.entries), fs.failing, sorted);
      fs.entries == run.1 && r.value.removedCount == Passed(run.0) && r.value.removedSize == FreedBytes(sorted, run.0)
  {
    var root := path.UnwrapOr([CurDir]);
    var artifacts := FindArtifacts(root, tree);
    ghost var found := Found(root, tree);
    if |artifacts| == 0 {
      assert |multiset(found)| == 0;
      return Ok(NoArtifacts);
    }
    TotalsIgnoreOrder(artifacts, found);
    var totalSize := TotalSize(artifacts);
    var totalItems := TotalItems(artifacts);
    var count := |artifacts|;
    assert count == |multiset(found)|;
    if dryRun {
      return Ok(WouldRemove(count, totalSize, totalItems));
    }
    match answer {
      case None =>
        return Err(PromptFailed);
      case Some(false) =>
        return Ok(Declined(count, totalSize, totalItems));
      case Some(true) =>
        ghost var before := fs.entries;
        var removedCount, removedSize, outcomes := RemoveArtifacts(fs, artifacts);
        FreedWithinTotal(artifacts, outcomes);
        RemovalsTraced(before, fs.entries, artifacts, outcomes, found);
        forall it | it in found && Cleared(before, it.path) && it.path !in fs.failing
          ensures Gone(fs.entries, it.path)
        {
          assert it in multiset(artifacts);
          var j :| 0 <= j < |artifacts| && artifacts[j] == it;
        }
        return Ok(Removed(count, totalSize, totalItems, removedCount, removedSize));
    }
  }

  /** Every path the batch deleted lies at or below a found artifact that the
      gate cleared, whatever order the batch was in. */
  lemma RemovalsTraced(before: map<Path, Kind>, now: map<Path, Kind>,
                       artifacts: seq<FileItem>, outcomes: seq<Outcome<GateError>>, found: seq<FileItem>)
    requires |outcomes| == |artifacts| && multiset(artifacts) == multiset(found)
    requires RemovedOnlyByGate(before, now, artifacts, outcomes, |artifacts|)
    ensures forall k :: k in before && k !in now ==>
      exists it :: it in found && it.path <= k && Cleared(before, it.path)
  {
    forall k | k in before && k !in now
      ensures exists it :: it in found && it.path <= k && Cleared(before, it.path)
    {
      var j :| 0 <= j < |artifacts| && Witness(before, now, artifacts, outcomes, j, k);
      assert artifacts[j] in multiset(found);
    }
  }

  /** A nested artifact is counted twice in the totals: a `node_modules`
      inside a `node_modules` holding one file of `len` bytes is reported as
      two artifacts of `len` bytes each. */
  lemma NestedArtifactCountedTwice(root: Path, project: OsName, name: string, file: OsName, len: nat)
    requires FileName(root).None? && name in ArtifactNames
    ensures var tree := Dir(project, [Dir(Utf8(name), [Dir(Utf8(name), [File(file, len)])])]);
      |Found(root, tree)| == 2 && TotalSize(Found(root, tree)) == 2 * len
      && TotalItems(Found(root, tree)) == 3
  {
    NestedArtifactsBothReported(root, project, name, file, len);
    var tree := Dir(project, [Dir(Utf8(name), [Dir(Utf8(name), [File(file, len)])])]);
    var f := Found(root, tree);
    assert f[..1][..0] == [];
    assert TotalSize(f[..1]) == len && TotalItems(f[..1]) == 2;
  }

  const WebModules: Path := [CurDir, Normal(Utf8("web")), Normal(Utf8("node_modules"))]
  const PyVenv: Path := [CurDir, Normal(Utf8("py")), Normal(Utf8(".venv"))]
  const RsTarget: Path := [CurDir, Normal(Utf8("rs")), Normal(Utf8("target"))]
  const WebBuild: Path := [CurDir, Normal(Utf8("web")), Normal(Utf8("build"))]
  const ModulesBuild: Path := [CurDir, Normal(Utf8("web")), Normal(Utf8("node_modules")), Normal(Utf8("build"))]

  /** A regular file with an allowlisted name is refused as no directory:
      it stays, and it counts neither as removed nor as freed. */
  lemma FileNamedLikeArtifactRefused()
    ensures var entries := map[WebBuild := FileKind(5)];
      var batch := [FileItem(WebBuild, 5, None, false)];
      var run := Batch(entries, {}, batch);
      run == ([Fail(NotADirectory(WebBuild))], entries) && Passed(run.0) == 0 && FreedBytes(batch, run.0) == 0
  {
    var entries := map[WebBuild := FileKind(5)];
    var batch := [FileItem(WebBuild, 5, None, false)];
    assert batch[1..] == [];
    assert GateVerdict(entries, {}, WebBuild) == Fail(NotADirectory(WebBuild));
    assert GateAfter(entries, {}, WebBuild) == entries;
    assert Batch(entries, {}, []) == ([], entries);
    assert [Fail(NotADirectory(WebBuild))] + [] == [Fail(NotADirectory(WebBuild))];
    assert [Fail(NotADirectory(WebBuild))][..0] == [];
  }

  /** A refusal does not stop the batch: the file named `build` inside a
      `node_modules` is refused, the directory after it is still removed, and
      only that one counts. */
  lemma RefusedThenRemoved()
    ensures var entries := map[WebModules := DirKind, ModulesBuild := FileKind(5)];
      var batch := [FileItem(ModulesBuild, 5, None, false), FileItem(WebModules, 5, Some(1), true)];
      var run := Batch(entries, {}, batch);
      run == ([Fail(NotADirectory(ModulesBuild)), Pass], map[]) && Passed(run.0) == 1 && FreedBytes(batch, run.0) == 5
  {
    var entries := map[WebModules := DirKind, ModulesBuild := FileKind(5)];
    var batch := [FileItem(ModulesBuild, 5, None, false), FileItem(WebModules, 5, Some(1), true)];
    assert batch[1..] == [batch[1]] && batch[1..][1..] == [];
    assert BaseNameOrEmpty(WebModules) == "node_modules";
    assert Cleared(entries, WebModules);
    assert WebModules <= ModulesBuild;
    assert Under(entries, WebModules) == entries.Keys;
    assert entries - entries.Keys == map[];
    var outcomes := [Fail(NotADirectory(ModulesBuild)), Pass];
    assert GateVerdict(entries, {}, ModulesBuild) == Fail(NotADirectory(ModulesBuild));
    assert GateAfter(entries, {}, ModulesBuild) == entries;
    assert GateVerdict(entries, {}, WebModules) == Pass;
    assert GateAfter(entries, {}, WebModules) == map[];
    assert Batch(map[], {}, []) == ([], map[]);
    assert [batch[1]][1..] == [];
    assert Batch(entries, {}, [batch[1]]) == ([Pass] + [], map[]);
    assert [Fail(NotADirectory(ModulesBuild))] + ([Pass] + []) == outcomes;
    assert outcomes[..1] == [outcomes[0]] && outcomes[..1][..0] == [];
    assert batch[..1] == [batch[0]] && batch[..1][..0] == [];
    assert Passed(outcomes[..1]) == 0;
    assert FreedBytes(batch[..1], outcomes[..1]) == 0;
  }

  lemma ExamplePathsCleared()
    ensures Cleared(map[WebModules := DirKind, RsTarget := DirKind], WebModules)
    ensures Cleared(map[WebModules := DirKind, RsTarget := DirKind], RsTarget)
    ensures PyVenv !in map[WebModules := DirKind, RsTarget := DirKind]
  {
    assert BaseNameOrEmpty(WebModules) == "node_modules" && BaseNameOrEmpty(RsTarget) == "target";
  }

  /** When no path refuses removal and every artifact either is missing or
      is cleared by the gate, every outcome is a success. */
  lemma AllPassed(before: map<Path, Kind>, after: map<Path, Kind>,
                  artifacts: seq<FileItem>, outcomes: seq<Outcome<GateError>>)
    requires |artifacts| == |outcomes|
    requires Accounted(before, after, {}, artifacts, outcomes, |artifacts|)
    requires forall j :: 0 <= j < |artifacts| ==> artifacts[j].path !in before || Cleared(before, artifacts[j].path)
    ensures forall j :: 0 <= j < |outcomes| ==> outcomes[j] == Pass
  {
  }

  lemma TotalSizeOfThree(x: FileItem, y: FileItem, z: FileItem)
    ensures TotalSize([x, y, z]) == x.size + y.size + z.size
  {
    assert [x, y, z][..2] == [x, y];
    assert [x, y][..1] == [x];
    TotalsSingle(x);
  }

  /** Three artifacts of which the second vanished from the disk before its
      turn: all three attempts succeed, and the freed total includes the
      snapshot size of the one that was already gone. */
  method VanishedArtifactCountsAsRemoved() returns (removedCount: nat, removedSize: nat)
    ensures removedCount == 3 && removedSize == 60
  {
    var fs := new FileSystem(map[WebModules := DirKind, RsTarget := DirKind], {});
    var batch := [FileItem(WebModules, 10, Some(1), true), FileItem(PyVenv, 20, Some(2), true),
                  FileItem(RsTarget, 30, Some(3), true)];
    ghost var before := fs.entries;
    ExamplePathsCleared();
    var outcomes;
    removedCount, removedSize, outcomes := RemoveArtifacts(fs, batch);
    AllPassed(before, fs.entries, batch, outcomes);
    FreedWithinTotal(batch, outcomes);
    TotalSizeOfThree(batch[0], batch[1], batch[2]);
  }
}
