/** The live file system that removal acts on: every path that currently
    exists, with what kind of entry it is. Removal is an update of this map.
    It is separate from the tree a discovery run walked, because the disk may
    have changed since that snapshot was taken. */
module Storage {
  import opened Paths

  /** What `metadata()` reports for an existing path. */
  datatype Kind = DirKind | FileKind(len: nat) | OtherKind

  /** The existing paths at or below `p`: what `remove_dir_all(p)` deletes. */
  function Under(entries: map<Path, Kind>, p: Path): (u: set<Path>)
    ensures forall k :: k in u <==> k in entries && p <= k
  {
    set k | k in entries && p <= k
  }

  /** No existing path lies at or below `p`. */
  predicate Gone(entries: map<Path, Kind>, p: Path)
  {
    forall k :: k in entries ==> !(p <= k)
  }

  /** `after` is `before` with some paths removed and nothing added or changed. */
  predicate Shrunk(before: map<Path, Kind>, after: map<Path, Kind>)
  {
    forall k :: k in after ==> k in before && after[k] == before[k]
  }

  class FileSystem {
    /** Every existing path and its kind. */
    var entries: map<Path, Kind>
    /** The paths at which the operating system refuses a removal (permissions,
        a busy mount): the outcome of the destructive calls is an input. */
    const failing: set<Path>

    constructor (entries: map<Path, Kind>, failing: set<Path>)
      ensures this.entries == entries && this.failing == failing
    {
      this.entries := entries;
      this.failing := failing;
    }

    /** `fs::remove_dir_all`: succeeds on an existing directory the operating
        system lets go, and then deletes it with everything below it. */
    method RemoveDirAll(p: Path) returns (ok: bool)
      modifies this
      ensures ok == (p in old(entries) && old(entries)[p].DirKind? && p !in failing)
      ensures entries == if ok then old(entries) - Under(old(entries), p) else old(entries)
    {
      ok := p in entries && entries[p].DirKind? && p !in failing;
      if ok {
        entries := entries - Under(entries, p);
      }
    }

    /** `fs::remove_file`: succeeds on an existing non-directory the operating
        system lets go, and then deletes just that path. */
    method RemoveFile(p: Path) returns (ok: bool)
      modifies this
      ensures ok == (p in old(entries) && !old(entries)[p].DirKind? && p !in failing)
      ensures entries == if ok then old(entries) - {p} else old(entries)
    {
      ok := p in entries && !entries[p].DirKind? && p !in failing;
      if ok {
        entries := entries - {p};
      }
    }
  }
}
