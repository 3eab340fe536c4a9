/** Consequences of `WalkSpec.WalkIsFilteredListing` for the archive of the
    whole source directory: names, exclusion, completeness with contents,
    and order. */
module WalkProperties {
  import opened Prelude
  import opened Paths
  import opened FileTree
  import opened TarWalk
  import opened WalkSpec

  /** No '/'-separated segment of the name is an excluded name. */
  ghost predicate AvoidsExcluded(name: string) {
    forall seg :: seg in Split(name) ==> seg !in Excluded
  }

  /** In a well-formed tree every listed path is made of valid names. */
  lemma {:induction false} ListingValidPaths(n: Node, at: seq<string>, sep: char)
    requires WellFormed(n, sep) && ValidPath(at, sep)
    ensures forall i :: 0 <= i < |Listing(n, at)| ==> ValidPath(Listing(n, at)[i].path, sep)
    decreases n
  {
    if n.Dir? {
      ListChildrenValidPaths(n.children, at, sep);
    }
  }

  lemma {:induction false} ListChildrenValidPaths(cs: seq<Node>, at: seq<string>, sep: char)
    requires forall k :: 0 <= k < |cs| ==> ValidName(cs[k].name, sep) && WellFormed(cs[k], sep)
    requires ValidPath(at, sep)
    ensures forall i :: 0 <= i < |ListChildren(cs, at)| ==> ValidPath(ListChildren(cs, at)[i].path, sep)
    decreases cs
  {
    if cs != [] {
      assert ValidPath(at + [cs[0].name], sep);
      ListingValidPaths(cs[0], at + [cs[0].name], sep);
      ListChildrenValidPaths(cs[1..], at, sep);
    }
  }

  /** Under the same conditions the slash-joined path splits back into `p`
      (or into "." for the root), so its segments are those of `p`. */
  lemma SplitRelPath(p: seq<string>, sep: char)
    requires ValidPath(p, sep)
    ensures Split(RelPath(p, '/')) == if p == [] then ["."] else p
  {
    if p != [] {
      SplitJoin(p);
    }
  }

  lemma {:induction false} ArchivedNames(items: seq<Item>, rootName: string, sep: char)
    requires IsSeparator(sep)
    requires forall i :: 0 <= i < |items| ==> ValidPath(items[i].path, sep)
    ensures forall j :: 0 <= j < |Archived(items, rootName, 0, sep)| ==>
              AvoidsExcluded(Archived(items, rootName, 0, sep)[j].name)
    decreases |items|
  {
    if items != [] {
      var it := items[0];
      var head := if Kept(rootName, 0, it) then Emitted(it.path, it.node, sep) else [];
      ArchivedNames(items[1..], rootName, sep);
      if Kept(rootName, 0, it) {
        SplitRelPath(it.path, sep);
        assert AvoidsExcluded(RelPath(it.path, '/'));
      }
      var es := Archived(items, rootName, 0, sep);
      assert es == head + Archived(items[1..], rootName, 0, sep);
      forall j | 0 <= j < |es| ensures AvoidsExcluded(es[j].name) {
        if j >= |head| {
          assert es[j] == Archived(items[1..], rootName, 0, sep)[j - |head|];
        }
      }
    }
  }

  /** No archived entry is, or lies beneath, an entry named ".git",
      ".compose" or ".plasmactl". */
  lemma ExcludedNamesNeverArchived(root: Node, sep: char, es: seq<Entry>)
    requires IsSeparator(sep) && WellFormed(root, sep)
    requires WalkSource(root, sep) == Ok(es)
    ensures forall j :: 0 <= j < |es| ==> AvoidsExcluded(es[j].name)
  {
    WalkIsFilteredListing(root, [], sep);
    ListingValidPaths(root, [], sep);
    ArchivedNames(Listing(root, []), root.name, sep);
  }

  /** A source directory whose own name is excluded yields an empty archive,
      unless reading it fails. */
  lemma ExcludedRootArchivesNothing(root: Node, sep: char)
    requires root.name in Excluded
    requires !root.Unstattable? && !(root.Unreadable? && root.kind == Directory)
    ensures WalkSource(root, sep) == Ok([])
  {
  }

  /** The source directory itself is the first entry, named ".". */
  lemma RootEntryIsDot(root: Node, sep: char, es: seq<Entry>)
    requires IsSeparator(sep)
    requires root.Dir? && root.name !in Excluded
    requires WalkSource(root, sep) == Ok(es)
    ensures |es| >= 1 && es[0] == Entry(".", Directory, "", [])
  {
    var dot := ToSlash(RelPath([], sep), sep);
    assert |dot| == 1 && dot[0] == '.';
    assert dot == ".";
  }

  /** The entries of the item at index `k` sit between those of the items
      before it and those after it. */
  lemma ArchivedAt(items: seq<Item>, k: nat, rootName: string, depth: nat, sep: char)
    requires k < |items|
    ensures Archived(items, rootName, depth, sep)
         == Archived(items[..k], rootName, depth, sep)
          + (if Kept(rootName, depth, items[k]) then Emitted(items[k].path, items[k].node, sep) else [])
          + Archived(items[k + 1..], rootName, depth, sep)
  {
    assert items == items[..k] + items[k..];
    ArchivedAppend(items[..k], items[k..], rootName, depth, sep);
    assert items[k..][1..] == items[k + 1..];
  }

  /** Every kept node contributes its entries, contiguously, to the archive. */
  lemma KeptItemArchived(root: Node, sep: char, es: seq<Entry>, i: nat)
    requires WalkSource(root, sep) == Ok(es)
    requires i < |Listing(root, [])| && Kept(root.name, 0, Listing(root, [])[i])
    ensures exists pre, post :: es == pre + Emitted(Listing(root, [])[i].path, Listing(root, [])[i].node, sep) + post
  {
    var items := Listing(root, []);
    WalkIsFilteredListing(root, [], sep);
    ArchivedAt(items, i, root.name, 0, sep);
    var pre := Archived(items[..i], root.name, 0, sep);
    var post := Archived(items[i + 1..], root.name, 0, sep);
    assert es == pre + Emitted(items[i].path, items[i].node, sep) + post;
  }

  /** Completeness with contents: a regular file outside the excluded
      subtrees is archived as one header named by its relative path,
      followed by exactly its bytes; a directory as one header without data;
      a symlink as two headers without data, the first linking to its own
      relative path (host separators) and the second to its target. */
  lemma NodeArchived(root: Node, sep: char, es: seq<Entry>, i: nat)
    requires IsSeparator(sep) && WellFormed(root, sep)
    requires WalkSource(root, sep) == Ok(es)
    requires i < |Listing(root, [])| && Kept(root.name, 0, Listing(root, [])[i])
    ensures var it := Listing(root, [])[i];
            it.node.File? ==>
              exists pre, post :: es == pre + [Entry(RelPath(it.path, '/'), Regular, "", it.node.data)] + post
    ensures var it := Listing(root, [])[i];
            it.node.Dir? ==>
              exists pre, post :: es == pre + [Entry(RelPath(it.path, '/'), Directory, "", [])] + post
    ensures var it := Listing(root, [])[i];
            it.node.Link? ==>
              exists pre, post :: es == pre + [Entry(RelPath(it.path, '/'), Symlink, RelPath(it.path, sep), []),
                                               Entry(RelPath(it.path, '/'), Symlink, it.node.target, [])] + post
  {
    var it := Listing(root, [])[i];
    ListingValidPaths(root, [], sep);
    ToSlashRelPath(it.path, sep);
    KeptItemArchived(root, sep, es, i);
  }

  /** Every item is listed before the items whose paths extend its own. */
  ghost predicate Preorder(l: seq<Item>) {
    forall i, j :: 0 <= i < |l| && 0 <= j < |l| && l[i].path < l[j].path ==> i < j
  }

  /** In a well-formed tree a node is listed before everything beneath it. */
  lemma {:induction false} ListingIsPreorder(n: Node, at: seq<string>, sep: char)
    requires WellFormed(n, sep)
    ensures Preorder(Listing(n, at))
    decreases n
  {
    var l := Listing(n, at);
    if n.Dir? {
      var lc := ListChildren(n.children, at);
      ListChildrenIsPreorder(n.children, at, sep);
      assert l == [Item(at, n)] + lc;
      forall i, j | 0 <= i < |l| && 0 <= j < |l| && l[i].path < l[j].path ensures i < j {
        if j == 0 {
          assert false;
        } else if i > 0 {
          assert l[i] == lc[i - 1] && l[j] == lc[j - 1];
          assert lc[i - 1].path < lc[j - 1].path;
        }
      }
    }
  }

  lemma {:induction false} ListChildrenIsPreorder(cs: seq<Node>, at: seq<string>, sep: char)
    requires forall i, j :: 0 <= i < j < |cs| ==> cs[i].name != cs[j].name
    requires forall k :: 0 <= k < |cs| ==> WellFormed(cs[k], sep)
    ensures Preorder(ListChildren(cs, at))
    decreases cs
  {
    if cs != [] {
      var c := cs[0];
      var a := Listing(c, at + [c.name]);
      var b := ListChildren(cs[1..], at);
      assert ListChildren(cs, at) == a + b;
      ListingIsPreorder(c, at + [c.name], sep);
      ListChildrenIsPreorder(cs[1..], at, sep);
      assert c.name !in Names(cs[1..]) by {
        forall k | 0 <= k < |cs[1..]| ensures Names(cs[1..])[k] != c.name {
          assert cs[1..][k] == cs[k + 1];
        }
      }
      forall i, j | 0 <= i < |b| && 0 <= j < |a| ensures !(b[i].path < a[j].path) {
        SiblingNotAncestor(b[i].path, a[j].path, at, c.name, Names(cs[1..]));
      }
      PreorderConcat(a, b);
    }
  }

  /** Two preorder listings in sequence form one, when nothing in the second
      lies above anything in the first. */
  lemma PreorderConcat(a: seq<Item>, b: seq<Item>)
    requires Preorder(a) && Preorder(b)
    requires forall i, j :: 0 <= i < |b| && 0 <= j < |a| ==> !(b[i].path < a[j].path)
    ensures Preorder(a + b)
  {
    var l := a + b;
    forall i, j | 0 <= i < |l| && 0 <= j < |l| && l[i].path < l[j].path ensures i < j {
      if i < |a| && j < |a| {
        assert l[i] == a[i] && l[j] == a[j];
      } else if i >= |a| && j >= |a| {
        assert l[i] == b[i - |a|] && l[j] == b[j - |a|];
      } else if j < |a| {
        assert false;
      }
    }
  }

  /** A path below a later sibling is never a prefix of a path below `name`. */
  lemma SiblingNotAncestor(p: seq<string>, q: seq<string>, at: seq<string>, name: string, names: seq<string>)
    requires at + [name] <= q && |at| < |p| && p[|at|] in names && name !in names
    ensures !(p < q)
  {
  }

  /** Two kept nodes are archived in listing order. */
  lemma KeptItemsInOrder(root: Node, sep: char, es: seq<Entry>, i: nat, j: nat)
    requires WalkSource(root, sep) == Ok(es)
    requires i < j < |Listing(root, [])|
    requires Kept(root.name, 0, Listing(root, [])[i]) && Kept(root.name, 0, Listing(root, [])[j])
    ensures var l := Listing(root, []);
            exists pre, mid, post ::
              es == pre + Emitted(l[i].path, l[i].node, sep) + mid + Emitted(l[j].path, l[j].node, sep) + post
  {
    var l := Listing(root, []);
    var n := root.name;
    WalkIsFilteredListing(root, [], sep);
    ArchivedAt(l, j, n, 0, sep);
    var front := l[..j];
    ArchivedAt(front, i, n, 0, sep);
    assert front[i] == l[i] && front[..i] == l[..i];
    var ei, ej := Emitted(l[i].path, l[i].node, sep), Emitted(l[j].path, l[j].node, sep);
    var pre := Archived(l[..i], n, 0, sep);
    var mid := Archived(front[i + 1..], n, 0, sep);
    var post := Archived(l[j + 1..], n, 0, sep);
    assert Archived(front, n, 0, sep) == pre + ei + mid;
    assert es == (pre + ei + mid) + ej + post;
    assert es == pre + ei + mid + ej + post;
  }

  /** A directory's header precedes the entries of everything beneath it. */
  lemma DirectoryPrecedesDescendants(root: Node, sep: char, es: seq<Entry>, i: nat, j: nat)
    requires IsSeparator(sep) && WellFormed(root, sep)
    requires WalkSource(root, sep) == Ok(es)
    requires i < |Listing(root, [])| && j < |Listing(root, [])|
    requires Listing(root, [])[i].node.Dir? && Listing(root, [])[i].path < Listing(root, [])[j].path
    requires Kept(root.name, 0, Listing(root, [])[j])
    ensures var l := Listing(root, []);
            exists pre, mid, post ::
              es == pre + [Entry(RelPath(l[i].path, '/'), Directory, "", [])] + mid
                        + Emitted(l[j].path, l[j].node, sep) + post
  {
    var l := Listing(root, []);
    ListingIsPreorder(root, [], sep);
    assert Kept(root.name, 0, l[i]) by {
      assert l[i].path <= l[j].path;
      forall k | 0 <= k < |l[i].path| ensures l[i].path[k] !in Excluded {
        assert l[i].path[k] == l[j].path[k];
      }
    }
    ListingValidPaths(root, [], sep);
    ToSlashRelPath(l[i].path, sep);
    KeptItemsInOrder(root, sep, es, i, j);
  }
}
