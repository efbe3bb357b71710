/** The unit of discovery output and the ordering every inventory is put in:
    a stable sort by size, largest first (`sort_by(|a, b| b.size.cmp(&a.size))`). */
module FileItems {
  import opened Results
  import opened Paths

  /** One discovered entry. `itemCount` is the number of entries below a
      directory; it is present for directories only. */
  datatype FileItem = FileItem(path: Path, size: nat, itemCount: Option<nat>, isDir: bool)

  /** Non-increasing in size. */
  predicate SortedBySize(s: seq<FileItem>)
  {
    forall i, j :: 0 <= i < j < |s| ==> s[i].size >= s[j].size
  }

  /** The items of `s` whose size is `k`, in their order in `s`. */
  function WithSize(s: seq<FileItem>, k: nat): seq<FileItem>
  {
    if s == [] then []
    else WithSize(s[..|s| - 1], k) + (if s[|s| - 1].size == k then [s[|s| - 1]] else [])
  }

  /** Inserts `x` into the sorted `s` after every item at least as large, so
      that equal sizes keep their arrival order. */
  function Insert(x: FileItem, s: seq<FileItem>): (r: seq<FileItem>)
    requires SortedBySize(s)
    ensures |r| == |s| + 1
    ensures forall y :: y in r ==> y == x || y in s
    ensures SortedBySize(r)
    ensures multiset(r) == multiset(s) + multiset{x}
  {
    if s == [] then [x]
    else if s[0].size >= x.size then
      var t := Insert(x, s[1..]);
      InsertBehindHead(x, s, t);
      [s[0]] + t
    else
      SortedCons(x, s);
      [x] + s
  }

  /** `t`, the insertion into the tail of `s`, may follow the head of `s`. */
  lemma InsertBehindHead(x: FileItem, s: seq<FileItem>, t: seq<FileItem>)
    requires SortedBySize(s) && |s| > 0 && s[0].size >= x.size
    requires SortedBySize(t) && forall y :: y in t ==> y == x || y in s[1..]
    requires multiset(t) == multiset(s[1..]) + multiset{x}
    ensures SortedBySize([s[0]] + t)
    ensures forall y :: y in [s[0]] + t ==> y == x || y in s
    ensures multiset([s[0]] + t) == multiset(s) + multiset{x}
  {
    assert s == [s[0]] + s[1..];
    forall y | y in t ensures s[0].size >= y.size {
      if y != x {
        var j :| 0 <= j < |s[1..]| && s[1..][j] == y;
        assert s[0].size >= s[j + 1].size;
      }
    }
    SortedCons(s[0], t);
  }

  /** An item at least as large as every item of a sorted list may lead it. */
  lemma SortedCons(h: FileItem, t: seq<FileItem>)
    requires SortedBySize(t) && forall y :: y in t ==> h.size >= y.size
    ensures SortedBySize([h] + t)
  {
    var r := [h] + t;
    forall i, j | 0 <= i < j < |r| ensures r[i].size >= r[j].size {
      assert r[j] == t[j - 1] && t[j - 1] in t;
      if i > 0 {
        assert r[i] == t[i - 1];
      }
    }
  }

  /** The stable sort by size, largest first, that ends every discovery
      operation. */
  function SortBySize(s: seq<FileItem>): (r: seq<FileItem>)
    ensures SortedBySize(r)
    ensures multiset(r) == multiset(s)
    ensures |r| == |s|
  {
    if s == [] then []
    else
      assert s == s[..|s| - 1] + [s[|s| - 1]];
      Insert(s[|s| - 1], SortBySize(s[..|s| - 1]))
  }

  lemma {:induction false} WithSizeConcat(a: seq<FileItem>, b: seq<FileItem>, k: nat)
    ensures WithSize(a + b, k) == WithSize(a, k) + WithSize(b, k)
    decreases |b|
  {
    if b == [] {
      assert a + b == a;
    } else {
      assert (a + b)[..|a + b| - 1] == a + b[..|b| - 1];
      WithSizeConcat(a, b[..|b| - 1], k);
    }
  }

  lemma {:induction false} WithSizeNone(s: seq<FileItem>, k: nat)
    requires forall y :: y in s ==> y.size != k
    ensures WithSize(s, k) == []
    decreases |s|
  {
    if s != [] {
      assert s[|s| - 1] in s;
      forall y | y in s[..|s| - 1] ensures y.size != k {
        assert y in s;
      }
      WithSizeNone(s[..|s| - 1], k);
    }
  }

  /** Inserting `x` puts it after every item of equal size already present. */
  lemma {:induction false} InsertWithSize(x: FileItem, t: seq<FileItem>, k: nat)
    requires SortedBySize(t)
    ensures WithSize(Insert(x, t), k) == WithSize(t, k) + if x.size == k then [x] else []
    decreases |t|
  {
    if t == [] {
      assert [x][..0] == [];
    } else if t[0].size >= x.size {
      InsertWithSize(x, t[1..], k);
      WithSizeBehindHead(t[0], t[1..], Insert(x, t[1..]), k, if x.size == k then [x] else []);
      assert t == [t[0]] + t[1..];
    } else {
      WithSizeAhead(x, t, k);
    }
  }

  /** Putting the same head before two lists keeps what the second has in
      excess of the first. */
  lemma WithSizeBehindHead(h: FileItem, a: seq<FileItem>, b: seq<FileItem>, k: nat, extra: seq<FileItem>)
    requires WithSize(b, k) == WithSize(a, k) + extra
    ensures WithSize([h] + b, k) == WithSize([h] + a, k) + extra
  {
    WithSizeConcat([h], a, k);
    WithSizeConcat([h], b, k);
  }

  /** An item larger than every item of `t` goes first, and it is the only
      one of its size. */
  lemma WithSizeAhead(x: FileItem, t: seq<FileItem>, k: nat)
    requires SortedBySize(t) && |t| > 0 && t[0].size < x.size
    ensures WithSize([x] + t, k) == WithSize(t, k) + if x.size == k then [x] else []
  {
    WithSizeConcat([x], t, k);
    assert [x][..0] == [];
    if x.size == k {
      forall y | y in t ensures y.size != k {
        var j :| 0 <= j < |t| && t[j] == y;
        assert t[0].size >= t[j].size;
      }
      WithSizeNone(t, k);
    }
  }

  /** The sort is stable: the items of any one size come out in the order
      they went in. */
  lemma {:induction false} SortIsStable(s: seq<FileItem>, k: nat)
    ensures WithSize(SortBySize(s), k) == WithSize(s, k)
    decreases |s|
  {
    if s != [] {
      var init, last := s[..|s| - 1], s[|s| - 1];
      SortIsStable(init, k);
      InsertWithSize(last, SortBySize(init), k);
    }
  }

  /** Sorting neither adds nor loses an item. */
  lemma SortKeepsMembers(s: seq<FileItem>)
    ensures forall x :: x in SortBySize(s) <==> x in s
  {
    var r := SortBySize(s);
    forall x ensures x in r <==> x in s {
      assert x in r <==> x in multiset(r);
      assert x in s <==> x in multiset(s);
    }
  }
}
