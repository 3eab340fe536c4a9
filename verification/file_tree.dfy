/** The source directory as `filepath.Walk` sees it. Each node is what
    `os.Lstat` reports for one path plus what reading it yields; the nodes
    where a read fails stand for the filesystem errors the walk can meet. */
module FileTree {
  import opened Prelude

  /** The file types the archive distinguishes. */
  datatype Kind = Regular | Directory | Symlink

  datatype Node =
    | Dir(name: string, children: seq<Node>)  // children in `filepath.Walk`'s lexical order
    | File(name: string, data: seq<byte>)
    | Link(name: string, target: string)       // target as `os.Readlink` returns it
    | Unreadable(name: string, kind: Kind, cause: string) // reading the directory, file or link fails
    | Unstattable(name: string, cause: string)            // `os.Lstat` fails

  /** A name a directory listing can hold on a host with separator `sep`. */
  predicate ValidName(s: string, sep: char) {
    s != "" && s != "." && s != ".." && '/' !in s && sep !in s
  }

  predicate ValidPath(p: seq<string>, sep: char) {
    forall k :: 0 <= k < |p| ==> ValidName(p[k], sep)
  }

  function Names(cs: seq<Node>): (r: seq<string>)
    ensures |r| == |cs|
    ensures forall k :: 0 <= k < |cs| ==> r[k] == cs[k].name
  {
    if cs == [] then [] else [cs[0].name] + Names(cs[1..])
  }

  /** Every directory's entries have valid, pairwise distinct names. The
      root's own name is the base name of the source directory and is not
      constrained. */
  predicate WellFormed(n: Node, sep: char)
    decreases n
  {
    match n
    case Dir(_, cs) =>
      && (forall k :: 0 <= k < |cs| ==> ValidName(cs[k].name, sep))
      && (forall i, j :: 0 <= i < j < |cs| ==> cs[i].name != cs[j].name)
      && (forall k :: 0 <= k < |cs| ==> WellFormed(cs[k], sep))
    case _ => true
  }

  /** No node of the tree fails to be read. */
  predicate NoFaults(n: Node)
    decreases n
  {
    match n
    case Dir(_, cs) => forall k :: 0 <= k < |cs| ==> NoFaults(cs[k])
    case Unreadable(_, _, _) => false
    case Unstattable(_, _) => false
    case _ => true
  }
}
