/** The `filepath.Walk` callback of `createArchive` and the walk itself: which
    tar entries the source directory produces, or which error stops the walk.
    The tar byte format is not modelled; an entry is the header fields the
    callback sets and the bytes written after the header. */
module TarWalk {
  import opened Prelude
  import opened Paths
  import opened FileTree

  /** Base names that are never archived: directories with these names are
      skipped with all their contents, other entries with these names are
      dropped. */
  const Excluded: set<string> := {".git", ".compose", ".plasmactl"}

  /** One tar header as written, with the data that follows it. */
  datatype Entry = Entry(name: string, kind: Kind, linkname: string, data: seq<byte>)

  /** The filesystem call whose error stops the walk. */
  datatype FsOp = Lstat | ReadDir | ReadFile | ReadLink

  /** An error met at `path` (segments relative to the source directory). */
  datatype WalkError = WalkError(path: seq<string>, op: FsOp, cause: string)

  /** What the callback returns to the walk for one visited path. */
  datatype Verdict = Continue(entries: seq<Entry>) | SkipDir | Abort(err: WalkError)

  /** The entries written for a visited node at relative path `path`: the
      header name is the relative path with '/' separators; the header built
      by `tar.FileInfoHeader(info, relPath)` carries `relPath` as link name
      for a symlink, and the second header of a symlink carries the link
      target. Regular files are followed by their content, nothing else
      carries data. */
  function Emitted(path: seq<string>, n: Node, sep: char): (r: seq<Entry>)
    ensures r == [] <==> n.Unreadable? || n.Unstattable?
    ensures IsSeparator(sep) && ValidPath(path, sep) ==>
              forall k :: 0 <= k < |r| ==> r[k].name == RelPath(path, '/')
    ensures forall k :: 0 <= k < |r| && r[k].data != [] ==> n.File? && r[k].data == n.data
  {
    var rel := RelPath(path, sep);
    var name := ToSlash(rel, sep);
    assert IsSeparator(sep) && ValidPath(path, sep) ==> name == RelPath(path, '/') by {
      if IsSeparator(sep) && ValidPath(path, sep) {
        ToSlashRelPath(path, sep);
      }
    }
    match n
    case Dir(_, _) => [Entry(name, Directory, "", [])]
    case File(_, data) => [Entry(name, Regular, "", data)]
    case Link(_, target) => [Entry(name, Symlink, rel, []), Entry(name, Symlink, target, [])]
    case _ => []
  }

  /** The callback for the node at `path`. An error handed in by the walk
      (a failed `Lstat`, or a directory listing that could not be read) is
      returned before the name is looked at, so it stops the walk even for
      an excluded name. */
  function Callback(n: Node, path: seq<string>, sep: char): (r: Verdict)
    ensures r.SkipDir? <==> n.Dir? && n.name in Excluded
    ensures n.name in Excluded && r.Continue? ==> r.entries == []
    ensures r.Abort? <==>
              n.Unstattable? || (n.Unreadable? && (n.kind == Directory || n.name !in Excluded))
    ensures r.Abort? ==> r.err.path == path
    ensures n.name !in Excluded && r.Continue? ==> r.entries == Emitted(path, n, sep)
  {
    match n
    case Unstattable(_, cause) => Abort(WalkError(path, Lstat, cause))
    case Unreadable(_, Directory, cause) => Abort(WalkError(path, ReadDir, cause))
    case _ =>
      if n.name in Excluded then
        if n.Dir? then SkipDir else Continue([])
      else
        match n
        case Unreadable(_, kind, cause) =>
          Abort(WalkError(path, if kind == Regular then ReadFile else ReadLink, cause))
        case _ => Continue(Emitted(path, n, sep))
  }

  /** `filepath.Walk` from the node at `path`: the callback first, then, for a
      directory it did not skip, every child in order. The first error ends
      the walk. The callback never asks to skip anything but a directory. */
  function Walk(n: Node, path: seq<string>, sep: char): (r: Result<seq<Entry>, WalkError>)
    ensures r.Err? ==> path <= r.error.path
    ensures n.Dir? && n.name in Excluded ==> r == Ok([])
    ensures n.name in Excluded && r.Ok? ==> r.value == []
    ensures n.name !in Excluded && r.Ok? ==> Emitted(path, n, sep) <= r.value
    decreases n
  {
    match Callback(n, path, sep)
    case Abort(e) => Err(e)
    case SkipDir => Ok([])
    case Continue(entries) =>
      if n.Dir? then
        match WalkChildren(n.children, path, sep)
        case Err(e) => Err(e)
        case Ok(rest) => Ok(entries + rest)
      else Ok(entries)
  }

  function WalkChildren(cs: seq<Node>, path: seq<string>, sep: char): (r: Result<seq<Entry>, WalkError>)
    ensures r.Err? ==> |path| < |r.error.path| && path <= r.error.path && r.error.path[|path|] in Names(cs)
    decreases cs
  {
    if cs == [] then Ok([])
    else
      assert Names(cs) == [cs[0].name] + Names(cs[1..]);
      match Walk(cs[0], path + [cs[0].name], sep)
      case Err(e) => Err(e)
      case Ok(first) =>
        match WalkChildren(cs[1..], path, sep)
        case Err(e) => Err(e)
        case Ok(rest) => Ok(first + rest)
  }

  /** The walk of the whole source directory; its root is ".". */
  function WalkSource(root: Node, sep: char): (r: Result<seq<Entry>, WalkError>)
    ensures r.Ok? && root.name in Excluded ==> r.value == []
    ensures r.Ok? && root.name !in Excluded && IsSeparator(sep) ==> r.value != [] && r.value[0].name == "."
  {
    Walk(root, [], sep)
  }
}
