/** An independent description of what the walk archives: list every node of
    the tree in preorder with its relative path, keep the nodes whose path
    avoids the excluded names, and write the entries of the kept nodes one
    after another. The walk prunes excluded directories as it goes; this
    description filters the complete listing instead. */
module WalkSpec {
  import opened Prelude
  import opened FileTree
  import opened TarWalk

  /** A node together with its path relative to the walk's root. */
  datatype Item = Item(path: seq<string>, node: Node)

  /** Every node of the tree below `at`, parents before their children. */
  function Listing(n: Node, at: seq<string>): (r: seq<Item>)
    ensures |r| >= 1 && r[0] == Item(at, n)
    ensures forall i :: 0 <= i < |r| ==> at <= r[i].path
    decreases n
  {
    match n
    case Dir(_, cs) => [Item(at, n)] + ListChildren(cs, at)
    case _ => [Item(at, n)]
  }

  function ListChildren(cs: seq<Node>, at: seq<string>): (r: seq<Item>)
    ensures forall i :: 0 <= i < |r| ==> |at| < |r[i].path| && at <= r[i].path
    ensures forall i :: 0 <= i < |r| ==> r[i].path[|at|] in Names(cs)
    decreases cs
  {
    if cs == [] then []
    else
      var first := Listing(cs[0], at + [cs[0].name]);
      assert forall i :: 0 <= i < |first| ==> first[i].path[|at|] == cs[0].name by {
        forall i | 0 <= i < |first| ensures first[i].path[|at|] == cs[0].name {
          assert (at + [cs[0].name]) <= first[i].path;
          assert (at + [cs[0].name])[|at|] == cs[0].name;
        }
      }
      assert Names(cs) == [cs[0].name] + Names(cs[1..]);
      first + ListChildren(cs[1..], at)
  }

  /** The item is archived by a walk whose root has name `rootName` and sits
      at depth `depth`: neither the root nor any segment of the item's path
      below the root is an excluded name. */
  predicate Kept(rootName: string, depth: nat, it: Item) {
    rootName !in Excluded && forall k :: depth <= k < |it.path| ==> it.path[k] !in Excluded
  }

  /** The entries of the kept items, in listing order. */
  function Archived(items: seq<Item>, rootName: string, depth: nat, sep: char): seq<Entry>
  {
    if items == [] then []
    else
      (if Kept(rootName, depth, items[0]) then Emitted(items[0].path, items[0].node, sep) else [])
      + Archived(items[1..], rootName, depth, sep)
  }

  lemma {:induction false} ArchivedAppend(a: seq<Item>, b: seq<Item>, rootName: string, depth: nat, sep: char)
    ensures Archived(a + b, rootName, depth, sep) == Archived(a, rootName, depth, sep) + Archived(b, rootName, depth, sep)
    decreases |a|
  {
    if a != [] {
      assert (a + b)[1..] == a[1..] + b;
      ArchivedAppend(a[1..], b, rootName, depth, sep);
    } else {
      assert a + b == b;
    }
  }

  lemma {:induction false} ArchivedExcludedRoot(items: seq<Item>, rootName: string, depth: nat, sep: char)
    requires rootName in Excluded
    ensures Archived(items, rootName, depth, sep) == []
    decreases |items|
  {
    if items != [] {
      ArchivedExcludedRoot(items[1..], rootName, depth, sep);
    }
  }

  /** Below a kept directory, keeping an item of the child `child` is the
      same as keeping it in a walk rooted at that child. */
  lemma {:induction false} ArchivedDescend(items: seq<Item>, parent: string, child: string, depth: nat, sep: char)
    requires parent !in Excluded
    requires forall i :: 0 <= i < |items| ==> depth < |items[i].path| && items[i].path[depth] == child
    ensures Archived(items, parent, depth, sep) == Archived(items, child, depth + 1, sep)
    decreases |items|
  {
    if items != [] {
      var it := items[0];
      assert Kept(parent, depth, it) == Kept(child, depth + 1, it) by {
        if Kept(child, depth + 1, it) {
          forall k | depth <= k < |it.path| ensures it.path[k] !in Excluded {
            if k == depth {
              assert it.path[k] == child;
            }
          }
        }
        if Kept(parent, depth, it) {
          assert it.path[depth] !in Excluded;
        }
      }
      ArchivedDescend(items[1..], parent, child, depth, sep);
    }
  }

  /** When the walk succeeds, it writes exactly the entries of the kept
      nodes of the listing, in listing order. */
  lemma {:induction false} WalkIsFilteredListing(n: Node, at: seq<string>, sep: char)
    requires Walk(n, at, sep).Ok?
    ensures Walk(n, at, sep).value == Archived(Listing(n, at), n.name, |at|, sep)
    decreases n
  {
    var listing := Listing(n, at);
    if n.name in Excluded {
      ArchivedExcludedRoot(listing, n.name, |at|, sep);
    } else {
      assert Kept(n.name, |at|, Item(at, n));
      match n
      case Dir(_, cs) =>
        ArchivedAppend([Item(at, n)], ListChildren(cs, at), n.name, |at|, sep);
        WalkChildrenIsFilteredListing(cs, at, n.name, sep);
      case _ =>
    }
  }

  lemma {:induction false} WalkChildrenIsFilteredListing(cs: seq<Node>, at: seq<string>, parent: string, sep: char)
    requires parent !in Excluded
    requires WalkChildren(cs, at, sep).Ok?
    ensures WalkChildren(cs, at, sep).value == Archived(ListChildren(cs, at), parent, |at|, sep)
    decreases cs
  {
    if cs != [] {
      var c := cs[0];
      var first := Listing(c, at + [c.name]);
      ArchivedAppend(first, ListChildren(cs[1..], at), parent, |at|, sep);
      WalkIsFilteredListing(c, at + [c.name], sep);
      ListingBelow(c, at);
      ArchivedDescend(first, parent, c.name, |at|, sep);
      WalkChildrenIsFilteredListing(cs[1..], at, parent, sep);
    }
  }

  /** A tree in which every read succeeds is walked without error. */
  lemma {:induction false} WalkSucceedsWithoutFaults(n: Node, at: seq<string>, sep: char)
    requires NoFaults(n)
    ensures Walk(n, at, sep).Ok?
    decreases n
  {
    if n.Dir? && n.name !in Excluded {
      WalkChildrenSucceedWithoutFaults(n.children, at, sep);
    }
  }

  lemma {:induction false} WalkChildrenSucceedWithoutFaults(cs: seq<Node>, at: seq<string>, sep: char)
    requires forall k :: 0 <= k < |cs| ==> NoFaults(cs[k])
    ensures WalkChildren(cs, at, sep).Ok?
    decreases cs
  {
    if cs != [] {
      WalkSucceedsWithoutFaults(cs[0], at + [cs[0].name], sep);
      WalkChildrenSucceedWithoutFaults(cs[1..], at, sep);
    }
  }

  /** The walk reaches an item when it is the walk's root, or when neither
      the root nor any proper ancestor of the item below the root has an
      excluded name: every directory above the item was entered. */
  predicate Reached(rootName: string, depth: nat, it: Item) {
    |it.path| <= depth
    || (rootName !in Excluded && forall k :: depth <= k < |it.path| - 1 ==> it.path[k] !in Excluded)
  }

  /** The callback stops the walk at this node: `Lstat` failed, the
      directory cannot be listed, or the file or link cannot be read and
      its name is not excluded. */
  predicate Aborts(n: Node) {
    n.Unstattable? || (n.Unreadable? && (n.kind == Directory || n.name !in Excluded))
  }

  predicate Faulty(rootName: string, depth: nat, it: Item) {
    Reached(rootName, depth, it) && Aborts(it.node)
  }

  /** The index of the first faulty item, if there is one. */
  function FirstFault(items: seq<Item>, rootName: string, depth: nat): Option<nat>
    decreases |items|
  {
    if items == [] then None
    else if Faulty(rootName, depth, items[0]) then Some(0)
    else
      match FirstFault(items[1..], rootName, depth)
      case None => None
      case Some(i) => Some(i + 1)
  }

  /** `FirstFault` finds the first faulty item, and finds none only when no
      item is faulty. */
  lemma {:induction false} FirstFaultSpec(items: seq<Item>, rootName: string, depth: nat)
    ensures var r := FirstFault(items, rootName, depth);
            && (r.Some? ==>
                  && r.value < |items| && Faulty(rootName, depth, items[r.value])
                  && forall j :: 0 <= j < r.value ==> !Faulty(rootName, depth, items[j]))
            && (r.None? ==> forall j :: 0 <= j < |items| ==> !Faulty(rootName, depth, items[j]))
    decreases |items|
  {
    if items != [] && !Faulty(rootName, depth, items[0]) {
      var tail := items[1..];
      FirstFaultSpec(tail, rootName, depth);
      assert forall j :: 0 < j < |items| ==> items[j] == tail[j - 1];
    }
  }

  /** A first fault found is the position of an item. */
  lemma FirstFaultInRange(items: seq<Item>, rootName: string, depth: nat)
    ensures var r := FirstFault(items, rootName, depth); r.Some? ==> r.value < |items|
  {
    FirstFaultSpec(items, rootName, depth);
  }

  /** When no item is faulty there is no first fault. */
  lemma FirstFaultNone(items: seq<Item>, rootName: string, depth: nat)
    requires forall j :: 0 <= j < |items| ==> !Faulty(rootName, depth, items[j])
    ensures FirstFault(items, rootName, depth) == None
  {
    FirstFaultSpec(items, rootName, depth);
  }

  lemma {:induction false} FirstFaultAppend(a: seq<Item>, b: seq<Item>, rootName: string, depth: nat)
    ensures FirstFault(a + b, rootName, depth) ==
              FaultThen(FirstFault(a, rootName, depth), FirstFault(b, rootName, depth), |a|)
    decreases |a|
  {
    if a == [] {
      assert a + b == b;
    } else {
      assert (a + b)[0] == a[0];
      assert (a + b)[1..] == a[1..] + b;
      FirstFaultAppend(a[1..], b, rootName, depth);
    }
  }

  /** Below a kept directory, an item of the child `child` is faulty for the
      directory's walk exactly when it is for a walk rooted at that child. */
  lemma {:induction false} FirstFaultDescend(items: seq<Item>, parent: string, child: string, depth: nat)
    requires parent !in Excluded
    requires forall i :: 0 <= i < |items| ==> depth < |items[i].path| && items[i].path[depth] == child
    ensures FirstFault(items, parent, depth) == FirstFault(items, child, depth + 1)
    decreases |items|
  {
    if items != [] {
      var it := items[0];
      var p := it.path;
      assert Faulty(parent, depth, it) == Faulty(child, depth + 1, it) by {
        if |p| > depth + 1 && Reached(child, depth + 1, it) {
          forall k | depth <= k < |p| - 1 ensures p[k] !in Excluded {
            if k == depth { assert p[k] == child; }
          }
        }
        if Reached(parent, depth, it) && |p| > depth + 1 {
          assert p[depth] !in Excluded;
        }
      }
      FirstFaultDescend(items[1..], parent, child, depth);
    }
  }

  /** `w` fails exactly when the first faulty item `f` of `items` exists,
      and then with the error the callback returns for that item. */
  predicate FailsAt(items: seq<Item>, f: Option<nat>, w: Result<seq<Entry>, WalkError>, sep: char) {
    && (w.Err? <==> f.Some?)
    && (w.Err? && f.Some? && f.value < |items| ==>
          Callback(items[f.value].node, items[f.value].path, sep) == Abort(w.error))
  }

  /** The walk fails exactly when it reaches a node whose callback aborts,
      and it reports the error of the first such node in walk order. */
  lemma {:induction false} WalkFailsAtFirstFault(n: Node, at: seq<string>, sep: char)
    ensures FailsAt(Listing(n, at), FirstFault(Listing(n, at), n.name, |at|), Walk(n, at, sep), sep)
    decreases n
  {
    var items := Listing(n, at);
    var head := [Item(at, n)];
    assert Faulty(n.name, |at|, items[0]) <==> Aborts(n);
    if Aborts(n) {
    } else if n.Dir? {
      var cs := n.children;
      var rest := ListChildren(cs, at);
      assert items == head + rest;
      assert FirstFault(head, n.name, |at|) == None;
      FirstFaultAppend(head, rest, n.name, |at|);
      if n.name in Excluded {
        FirstFaultNone(rest, n.name, |at|);
      } else {
        WalkChildrenFailAtFirstFault(cs, at, n.name, sep);
        var f := FirstFault(rest, n.name, |at|);
        FirstFaultSpec(rest, n.name, |at|);
        if f.Some? {
          assert items[1 + f.value] == rest[f.value];
        }
      }
    }
  }

  lemma {:induction false} WalkChildrenFailAtFirstFault(cs: seq<Node>, at: seq<string>, parent: string, sep: char)
    requires parent !in Excluded
    ensures FailsAt(ListChildren(cs, at), FirstFault(ListChildren(cs, at), parent, |at|), WalkChildren(cs, at, sep), sep)
    decreases cs
  {
    if cs != [] {
      WalkFailsAtFirstFault(cs[0], at + [cs[0].name], sep);
      WalkChildrenFailAtFirstFault(cs[1..], at, parent, sep);
      ChildrenFailAt(cs, at, parent, sep);
    }
  }

  /** The step of `WalkChildrenFailAtFirstFault` from the first child and
      the later ones to all children. */
  lemma ChildrenFailAt(cs: seq<Node>, at: seq<string>, parent: string, sep: char)
    requires cs != [] && parent !in Excluded
    requires var first := Listing(cs[0], at + [cs[0].name]);
             FailsAt(first, FirstFault(first, cs[0].name, |at| + 1), Walk(cs[0], at + [cs[0].name], sep), sep)
    requires var rest := ListChildren(cs[1..], at);
             FailsAt(rest, FirstFault(rest, parent, |at|), WalkChildren(cs[1..], at, sep), sep)
    ensures FailsAt(ListChildren(cs, at), FirstFault(ListChildren(cs, at), parent, |at|), WalkChildren(cs, at, sep), sep)
  {
    var c := cs[0];
    var first := Listing(c, at + [c.name]);
    var rest := ListChildren(cs[1..], at);
    ListChildrenCons(cs, at);
    ListingBelow(c, at);
    ChildrenFirstFault(first, rest, parent, c.name, |at|);
    FirstFaultInRange(first, c.name, |at| + 1);
    FirstFaultInRange(rest, parent, |at|);
    assert WalkChildren(cs, at, sep) == Then(Walk(c, at + [c.name], sep), WalkChildren(cs[1..], at, sep));
    FailsAtThen(first, rest, FirstFault(first, c.name, |at| + 1), FirstFault(rest, parent, |at|),
                Walk(c, at + [c.name], sep), WalkChildren(cs[1..], at, sep), sep);
  }

  /** One walk result followed by another: the first error, or both entry lists. */
  function Then(w1: Result<seq<Entry>, WalkError>, w2: Result<seq<Entry>, WalkError>): Result<seq<Entry>, WalkError> {
    match w1
    case Err(e) => Err(e)
    case Ok(a) =>
      match w2
      case Err(e) => Err(e)
      case Ok(b) => Ok(a + b)
  }

  /** The position of the first fault of a concatenation, given the
      positions of the first fault in each part. */
  function FaultThen(f1: Option<nat>, f2: Option<nat>, offset: nat): Option<nat> {
    match f1
    case Some(i) => Some(i)
    case None =>
      match f2
      case None => None
      case Some(i) => Some(offset + i)
  }

  /** Failing at the first fault carries over from two parts to their concatenation. */
  lemma FailsAtThen(first: seq<Item>, rest: seq<Item>, f1: Option<nat>, f2: Option<nat>,
                    w1: Result<seq<Entry>, WalkError>, w2: Result<seq<Entry>, WalkError>, sep: char)
    requires FailsAt(first, f1, w1, sep) && FailsAt(rest, f2, w2, sep)
    requires f1.Some? ==> f1.value < |first|
    requires f2.Some? ==> f2.value < |rest|
    ensures FailsAt(first + rest, FaultThen(f1, f2, |first|), Then(w1, w2), sep)
  {
    if f1.Some? {
      assert (first + rest)[f1.value] == first[f1.value];
    } else if f2.Some? {
      assert (first + rest)[|first| + f2.value] == rest[f2.value];
    }
  }

  /** The first faulty item among the children is the first child's first
      faulty item, found as in a walk rooted at that child, or else the first
      faulty item of the later children. */
  lemma ChildrenFirstFault(first: seq<Item>, rest: seq<Item>, parent: string, child: string, depth: nat)
    requires parent !in Excluded
    requires forall i :: 0 <= i < |first| ==> depth < |first[i].path| && first[i].path[depth] == child
    ensures FirstFault(first + rest, parent, depth) ==
              FaultThen(FirstFault(first, child, depth + 1), FirstFault(rest, parent, depth), |first|)
  {
    FirstFaultDescend(first, parent, child, depth);
    FirstFaultAppend(first, rest, parent, depth);
  }

  /** The listing of a non-empty list of children: the first child's
      listing, then the others'. */
  lemma ListChildrenCons(cs: seq<Node>, at: seq<string>)
    requires cs != []
    ensures ListChildren(cs, at) == Listing(cs[0], at + [cs[0].name]) + ListChildren(cs[1..], at)
  {
  }

  /** Every item listed from the child `c` of the directory at `at` lies
      beneath `at + [c.name]`. */
  lemma ListingBelow(c: Node, at: seq<string>)
    ensures forall i :: 0 <= i < |Listing(c, at + [c.name])| ==>
              && |at| < |Listing(c, at + [c.name])[i].path|
              && Listing(c, at + [c.name])[i].path[|at|] == c.name
  {
    var first := Listing(c, at + [c.name]);
    forall i | 0 <= i < |first| ensures |at| < |first[i].path| && first[i].path[|at|] == c.name {
      assert (at + [c.name]) <= first[i].path;
      assert (at + [c.name])[|at|] == c.name;
    }
  }
}
