/** Concrete archives of small source trees. */
module WalkExamples {
  import opened Prelude
  import opened Paths
  import opened FileTree
  import opened TarWalk

  /** Walking a listing of one entry is walking that entry. */
  lemma WalkSingleChild(c: Node, at: seq<string>, sep: char)
    ensures WalkChildren([c], at, sep) == Walk(c, at + [c.name], sep)
  {
    assert [c][1..] == [];
    match Walk(c, at + [c.name], sep)
    case Ok(first) => assert first + [] == first;
    case Err(_) =>
  }

  /** "a.txt" and "sub/b.txt" are archived with their contents, together with
      the headers of "." and "sub"; nothing of ".git" is. */
  lemma GitDirectorySkipped()
    ensures WalkSource(
              Dir("build", [Dir(".git", [File("HEAD", [1])]),
                            File("a.txt", [104, 105]),
                            Dir("sub", [File("b.txt", [121, 111])])]),
              '/')
         == Ok([Entry(".", Directory, "", []),
                Entry("a.txt", Regular, "", [104, 105]),
                Entry("sub", Directory, "", []),
                Entry("sub/b.txt", Regular, "", [121, 111])])
  {
    var git := Dir(".git", [File("HEAD", [1])]);
    var a := File("a.txt", [104, 105]);
    var sub := Dir("sub", [File("b.txt", [121, 111])]);
    var root := Dir("build", [git, a, sub]);
    var ea := Entry("a.txt", Regular, "", [104, 105]);
    var esub := Entry("sub", Directory, "", []);
    var eb := Entry("sub/b.txt", Regular, "", [121, 111]);
    TopLevelArchived();
    assert "build" !in Excluded;
    assert Emitted([], root, '/') == [Entry(".", Directory, "", [])];
    assert [Entry(".", Directory, "", [])] + [ea, esub, eb] == [Entry(".", Directory, "", []), ea, esub, eb];
  }

  /** The children of the source directory in the tree above. */
  lemma TopLevelArchived()
    ensures WalkChildren([Dir(".git", [File("HEAD", [1])]), File("a.txt", [104, 105]),
                          Dir("sub", [File("b.txt", [121, 111])])], [], '/')
         == Ok([Entry("a.txt", Regular, "", [104, 105]),
                Entry("sub", Directory, "", []),
                Entry("sub/b.txt", Regular, "", [121, 111])])
  {
    var git := Dir(".git", [File("HEAD", [1])]);
    var a := File("a.txt", [104, 105]);
    var sub := Dir("sub", [File("b.txt", [121, 111])]);
    var ea := Entry("a.txt", Regular, "", [104, 105]);
    var esub := Entry("sub", Directory, "", []);
    var eb := Entry("sub/b.txt", Regular, "", [121, 111]);
    assert "a.txt" !in Excluded;
    assert Walk(git, [".git"], '/') == Ok([]);
    assert Emitted(["a.txt"], a, '/') == [ea];
    assert Walk(a, ["a.txt"], '/') == Ok([ea]);
    SubArchived();
    WalkSingleChild(sub, [], '/');
    assert [] + ["sub"] == ["sub"] && [] + ["a.txt"] == ["a.txt"] && [] + [".git"] == [".git"];
    assert WalkChildren([sub], [], '/') == Ok([esub, eb]);
    assert [a, sub][0] == a && [a, sub][1..] == [sub];
    assert [ea] + [esub, eb] == [ea, esub, eb];
    assert WalkChildren([a, sub], [], '/') == Ok([ea, esub, eb]);
    assert [git, a, sub][0] == git && [git, a, sub][1..] == [a, sub];
    assert [] + [ea, esub, eb] == [ea, esub, eb];
  }

  /** The directory "sub" of the tree above. */
  lemma SubArchived()
    ensures Walk(Dir("sub", [File("b.txt", [121, 111])]), ["sub"], '/')
         == Ok([Entry("sub", Directory, "", []), Entry("sub/b.txt", Regular, "", [121, 111])])
  {
    var b := File("b.txt", [121, 111]);
    var sub := Dir("sub", [b]);
    var esub := Entry("sub", Directory, "", []);
    var eb := Entry("sub/b.txt", Regular, "", [121, 111]);
    assert "sub" !in Excluded && "b.txt" !in Excluded;
    assert Join(["sub", "b.txt"], '/') == "sub/b.txt";
    assert Emitted(["sub", "b.txt"], b, '/') == [eb];
    assert Walk(b, ["sub", "b.txt"], '/') == Ok([eb]);
    WalkSingleChild(b, ["sub"], '/');
    assert ["sub"] + ["b.txt"] == ["sub", "b.txt"];
    assert Emitted(["sub"], sub, '/') == [esub];
    assert [esub] + [eb] == [esub, eb];
  }

  /** A symlink gives two data-less headers: the first links to the entry's
      own relative path, the second to the link's target. */
  lemma SymlinkTwoHeaders()
    ensures WalkSource(Dir("build", [Link("link", "target.txt")]), '/')
         == Ok([Entry(".", Directory, "", []),
                Entry("link", Symlink, "link", []),
                Entry("link", Symlink, "target.txt", [])])
  {
    var l := Link("link", "target.txt");
    assert "build" !in Excluded && "link" !in Excluded;
    assert Walk(l, ["link"], '/') == Ok([Entry("link", Symlink, "link", []), Entry("link", Symlink, "target.txt", [])]);
    WalkSingleChild(l, [], '/');
    assert [] + ["link"] == ["link"];
    assert Callback(Dir("build", [l]), [], '/') == Continue([Entry(".", Directory, "", [])]);
    assert [Entry(".", Directory, "", [])] + [Entry("link", Symlink, "link", []), Entry("link", Symlink, "target.txt", [])]
        == [Entry(".", Directory, "", []), Entry("link", Symlink, "link", []), Entry("link", Symlink, "target.txt", [])];
  }

  /** On a host with '\\' as separator the header name uses '/', while the
      first symlink header keeps the host form of the relative path. */
  lemma HostSeparatorInFirstLinkname()
    ensures WalkSource(Dir("build", [Dir("sub", [Link("l", "t")])]), '\\')
         == Ok([Entry(".", Directory, "", []),
                Entry("sub", Directory, "", []),
                Entry("sub/l", Symlink, "sub\\l", []),
                Entry("sub/l", Symlink, "t", [])])
  {
    var l := Link("l", "t");
    var sub := Dir("sub", [l]);
    assert "build" !in Excluded && "sub" !in Excluded && "l" !in Excluded;
    var rel := Join(["sub", "l"], '\\');
    assert rel == "sub\\l";
    var slashed := ToSlash(rel, '\\');
    assert slashed[3] == '/';
    assert slashed == "sub/l";
    var d := ToSlash(".", '\\');
    assert d[0] == '.';
    assert d == ".";
    var s := ToSlash("sub", '\\');
    assert s[0] == 's' && s[1] == 'u' && s[2] == 'b';
    assert s == "sub";
    assert Walk(l, ["sub", "l"], '\\') == Ok([Entry("sub/l", Symlink, "sub\\l", []), Entry("sub/l", Symlink, "t", [])]);
    WalkSingleChild(l, ["sub"], '\\');
    assert ["sub"] + ["l"] == ["sub", "l"];
    var el1, el2 := Entry("sub/l", Symlink, "sub\\l", []), Entry("sub/l", Symlink, "t", []);
    var es := Entry("sub", Directory, "", []);
    var ed := Entry(".", Directory, "", []);
    assert Callback(sub, ["sub"], '\\') == Continue([es]);
    assert [es] + [el1, el2] == [es, el1, el2];
    assert Walk(sub, ["sub"], '\\') == Ok([es, el1, el2]);
    WalkSingleChild(sub, [], '\\');
    assert [] + ["sub"] == ["sub"];
    assert Callback(Dir("build", [sub]), [], '\\') == Continue([ed]);
    assert [ed] + [es, el1, el2] == [ed, es, el1, el2];
  }

  /** An unreadable file aborts the walk, unless it has an excluded name;
      an unreadable directory aborts it even with an excluded name. */
  lemma ReadErrors()
    ensures WalkSource(Dir("build", [Unreadable("f", Regular, "EACCES")]), '/')
         == Err(WalkError(["f"], ReadFile, "EACCES"))
    ensures WalkSource(Dir("build", [Unreadable(".git", Regular, "EACCES")]), '/')
         == Ok([Entry(".", Directory, "", [])])
    ensures WalkSource(Dir("build", [Unreadable(".git", Directory, "EACCES")]), '/')
         == Err(WalkError([".git"], ReadDir, "EACCES"))
  {
    assert "build" !in Excluded && "f" !in Excluded;
    var f := Unreadable("f", Regular, "EACCES");
    var g := Unreadable(".git", Regular, "EACCES");
    var h := Unreadable(".git", Directory, "EACCES");
    assert [] + ["f"] == ["f"] && [] + [".git"] == [".git"];
    WalkSingleChild(f, [], '/');
    WalkSingleChild(g, [], '/');
    WalkSingleChild(h, [], '/');
    assert [Entry(".", Directory, "", [])] + [] == [Entry(".", Directory, "", [])];
    assert Callback(Dir("build", [f]), [], '/') == Continue([Entry(".", Directory, "", [])]);
    assert Callback(Dir("build", [g]), [], '/') == Continue([Entry(".", Directory, "", [])]);
    assert Callback(Dir("build", [h]), [], '/') == Continue([Entry(".", Directory, "", [])]);
  }
}
