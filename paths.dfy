/** Parsed file-system paths: the part of `std::path` that the cleanup engine
    relies on (`join`, `file_name`, `to_str`, `parent`). */
module Paths {
  import opened Results

  /** A file name as the operating system stores it: valid UTF-8 text, or raw
      bytes that are not UTF-8 (for which `to_str` fails). */
  datatype OsName = Utf8(text: string) | NonUtf8(raw: seq<bv8>)

  /** One component of a parsed path. */
  datatype Component = RootDir | CurDir | ParentDir | Normal(name: OsName)

  /** A path as its sequence of components; two paths are equal exactly when
      their components are, as for `PathBuf`. */
  type Path = seq<Component>

  /** `path.join(name)` for a single file name, as a directory walk builds the
      path of each child. */
  function Join(p: Path, name: OsName): (q: Path)
    ensures |q| == |p| + 1 && p < q
  {
    p + [Normal(name)]
  }

  /** `Path::file_name`: the last component if it is a normal name. */
  function FileName(p: Path): (r: Option<OsName>)
    ensures r.Some? <==> |p| > 0 && p[|p| - 1].Normal?
  {
    if |p| > 0 && p[|p| - 1].Normal? then Some(p[|p| - 1].name) else None
  }

  /** `Path::parent`: none for the empty path and for a path that ends at the
      file-system root; otherwise the path without its last component. */
  function Parent(p: Path): (r: Option<Path>)
    ensures r.Some? ==> |r.value| + 1 == |p| && r.value < p
  {
    if |p| == 0 || p[|p| - 1].RootDir? then None else Some(p[..|p| - 1])
  }

  /** `OsStr::to_str`. */
  function ToStr(n: OsName): (r: Option<string>)
    ensures r.Some? <==> n.Utf8?
  {
    if n.Utf8? then Some(n.text) else None
  }

  /** The base name as text: `file_name().and_then(to_str)`, with "" standing
      for a missing or non-UTF-8 name (`unwrap_or("")`). */
  function BaseNameOrEmpty(p: Path): (s: string)
    ensures s != [] ==> FileName(p) == Some(Utf8(s))
    ensures FileName(p).None? || FileName(p).value.NonUtf8? ==> s == ""
  {
    match FileName(p)
    case Some(Utf8(t)) => t
    case _ => ""
  }

  /** Joining a name and then asking for the file name and the parent gives
      back the name and the original path. */
  lemma JoinRoundTrip(p: Path, name: OsName)
    ensures FileName(Join(p, name)) == Some(name)
    ensures Parent(Join(p, name)) == Some(p)
  {
    assert Join(p, name)[..|p|] == p;
  }

  /** A path that has a file name always has a parent: the file name and the
      root marker cannot both be the last component. */
  lemma NamedPathHasParent(p: Path)
    requires FileName(p).Some?
    ensures Parent(p).Some? && Join(Parent(p).value, FileName(p).value) == p
  {
  }
}
