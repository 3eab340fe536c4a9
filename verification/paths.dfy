/** Path-string operations of Go's `path/filepath` package as the plugin uses
    them: `Base` of the remote URL (Unix separators), the relative path of a
    walked entry rendered with the host separator, `ToSlash`, and `Join` of a
    directory and a file name. */
module Paths {

  /** True when every character of `s` is a slash. */
  predicate AllSlashes(s: string) {
    forall k :: 0 <= k < |s| ==> s[k] == '/'
  }

  /** Removes every trailing slash (the first loop of `filepath.Base`). */
  function TrimTrailingSlashes(s: string): (r: string)
    ensures r <= s
    ensures AllSlashes(s[|r|..])
    ensures r == "" || r[|r| - 1] != '/'
  {
    if s != "" && s[|s| - 1] == '/' then TrimTrailingSlashes(s[..|s| - 1]) else s
  }

  /** The characters after the last slash (the second loop of `filepath.Base`). */
  function AfterLastSlash(s: string): (r: string)
    ensures |r| <= |s| && r == s[|s| - |r|..]
    ensures '/' !in r
    ensures |r| == |s| || s[|s| - |r| - 1] == '/'
  {
    if s == "" || s[|s| - 1] == '/' then "" else AfterLastSlash(s[..|s| - 1]) + [s[|s| - 1]]
  }

  /** `e` is the last element of `path`: a non-empty run of non-slash
      characters that starts the path or follows a slash, and is followed by
      nothing but slashes. */
  ghost predicate IsLastElement(path: string, e: string) {
    && e != ""
    && '/' !in e
    && exists i :: LastElementAt(path, e, i)
  }

  /** `e` occurs in `path` at index `i`, at the start of an element, with
      only slashes after it. */
  ghost predicate LastElementAt(path: string, e: string, i: int) {
    && 0 <= i <= |path| - |e|
    && path[i..i + |e|] == e
    && (i == 0 || path[i - 1] == '/')
    && AllSlashes(path[i + |e|..])
  }

  /** `filepath.Base` with the Unix separator: "." for the empty path, "/"
      for a path made only of slashes, otherwise the last element. */
  function Base(path: string): (r: string)
    ensures path == "" ==> r == "."
    ensures path != "" && AllSlashes(path) ==> r == "/"
    ensures !AllSlashes(path) ==> IsLastElement(path, r)
  {
    if path == "" then "."
    else
      var t := TrimTrailingSlashes(path);
      var e := AfterLastSlash(t);
      if e == "" then
        "/"
      else
        assert IsLastElement(path, e) by {
          var i := |t| - |e|;
          assert path[i..i + |e|] == t[i..|t|];
          assert path[i + |e|..] == path[|t|..];
          assert LastElementAt(path, e, i);
        }
        e
  }

  /** A path without trailing slash whose last element is `name` has `name`
      as its base. */
  lemma BaseOfElement(prefix: string, name: string)
    requires prefix == "" || prefix[|prefix| - 1] == '/'
    requires name != "" && '/' !in name
    ensures Base(prefix + name) == name
  {
    var s := prefix + name;
    assert s[|s| - 1] == name[|name| - 1];
    assert TrimTrailingSlashes(s) == s;
    AfterLastSlashOfElement(prefix, name);
  }

  lemma AfterLastSlashOfElement(prefix: string, name: string)
    requires prefix == "" || prefix[|prefix| - 1] == '/'
    requires '/' !in name
    ensures AfterLastSlash(prefix + name) == name
  {
    var s := prefix + name;
    assert s[|prefix|..] == name;
    forall j | |prefix| <= j < |s| ensures s[j] != '/' {
      assert s[j] == name[j - |prefix|];
    }
    AfterLastSlashFrom(s, |prefix|);
  }

  /** When no slash follows index `k` and `k` starts an element, the last
      element is everything from `k` on. */
  lemma {:induction false} AfterLastSlashFrom(s: string, k: nat)
    requires k <= |s|
    requires k == 0 || s[k - 1] == '/'
    requires forall j :: k <= j < |s| ==> s[j] != '/'
    ensures AfterLastSlash(s) == s[k..]
    decreases |s|
  {
    if |s| > k {
      var t := s[..|s| - 1];
      AfterLastSlashFrom(t, k);
      assert s[k..] == t[k..] + [s[|s| - 1]];
    }
  }

  /** The segments joined with the separator `sep` in between. */
  function Join(segs: seq<string>, sep: char): string
  {
    if |segs| == 0 then ""
    else if |segs| == 1 then segs[0]
    else segs[0] + [sep] + Join(segs[1..], sep)
  }

  /** The result of `filepath.Rel(root, root/segs...)` on a host whose
      separator is `sep`: "." for the root itself, and for nothing else as
      long as no segment is empty or ".". */
  function RelPath(segs: seq<string>, sep: char): (r: string)
    ensures segs == [] ==> r == "."
    ensures segs != [] && (forall i :: 0 <= i < |segs| ==> segs[i] != "" && segs[i] != ".") ==> r != "."
  {
    if segs == [] then "."
    else
      var r := Join(segs, sep);
      assert |segs| > 1 && segs[0] != "" ==> |r| >= 2;
      r
  }

  /** `filepath.ToSlash`: every host separator becomes '/'. */
  function ToSlash(s: string, sep: char): (r: string)
    ensures |r| == |s|
    ensures forall k :: 0 <= k < |s| ==> r[k] == (if s[k] == sep then '/' else s[k])
  {
    if sep == '/' then s
    else seq(|s|, k requires 0 <= k < |s| => if s[k] == sep then '/' else s[k])
  }

  /** The separators of the hosts Go supports: Unix and Windows. */
  predicate IsSeparator(c: char) {
    c == '/' || c == '\\'
  }

  /** Rewriting the host separators of a relative path gives the same path
      joined with '/', provided no segment contains the host separator. */
  lemma {:induction false} ToSlashJoin(segs: seq<string>, sep: char)
    requires forall i :: 0 <= i < |segs| ==> sep !in segs[i]
    ensures ToSlash(Join(segs, sep), sep) == Join(segs, '/')
    decreases |segs|
  {
    if sep != '/' && |segs| > 1 {
      ToSlashJoin(segs[1..], sep);
      var j := Join(segs[1..], sep);
      var s := segs[0] + [sep] + j;
      var t := ToSlash(s, sep);
      assert t == ToSlash(segs[0], sep) + ['/'] + ToSlash(j, sep) by {
        forall k | 0 <= k < |t|
          ensures t[k] == (ToSlash(segs[0], sep) + ['/'] + ToSlash(j, sep))[k]
        {
          if k < |segs[0]| {
          } else if k == |segs[0]| {
          } else {
            assert s[k] == j[k - |segs[0]| - 1];
          }
        }
      }
      assert ToSlash(segs[0], sep) == segs[0] by {
        assert sep !in segs[0];
      }
    } else if sep != '/' && |segs| == 1 {
      assert sep !in segs[0];
    }
  }

  lemma ToSlashRelPath(segs: seq<string>, sep: char)
    requires IsSeparator(sep)
    requires forall i :: 0 <= i < |segs| ==> sep !in segs[i]
    ensures ToSlash(RelPath(segs, sep), sep) == RelPath(segs, '/')
  {
    if segs != [] {
      ToSlashJoin(segs, sep);
    }
  }

  /** Index of the first slash of `s`. */
  function FirstSlash(s: string): (i: nat)
    requires '/' in s
    ensures i < |s| && s[i] == '/' && '/' !in s[..i]
  {
    if s[0] == '/' then 0
    else
      var i := 1 + FirstSlash(s[1..]);
      assert s[..i] == [s[0]] + s[1..][..i - 1];
      i
  }

  /** Splits `s` at every slash, keeping empty segments (as `strings.Split`
      with separator "/"). */
  function Split(s: string): (r: seq<string>)
    ensures |r| >= 1
    decreases |s|
  {
    if '/' !in s then [s]
    else
      var i := FirstSlash(s);
      [s[..i]] + Split(s[i + 1..])
  }

  /** Splitting a '/'-joined path gives its segments back. */
  lemma {:induction false} SplitJoin(segs: seq<string>)
    requires |segs| >= 1
    requires forall i :: 0 <= i < |segs| ==> '/' !in segs[i]
    ensures Split(Join(segs, '/')) == segs
    decreases |segs|
  {
    if |segs| > 1 {
      var j := Join(segs[1..], '/');
      SplitAtFirstSlash(segs[0], j);
      SplitJoin(segs[1..]);
      assert segs == [segs[0]] + segs[1..];
    }
  }

  /** A string holding no slash, a slash and then anything splits into that
      string and the split of the rest. */
  lemma SplitAtFirstSlash(a: string, b: string)
    requires '/' !in a
    ensures Split(a + ['/'] + b) == [a] + Split(b)
  {
    var s := a + ['/'] + b;
    assert '/' in s by { assert s[|a|] == '/'; }
    FirstSlashAfter(a, b);
    assert s[..|a|] == a;
    assert s[|a| + 1..] == b;
  }

  /** The first slash after a string holding none is at that string's length. */
  lemma {:induction false} FirstSlashAfter(a: string, b: string)
    requires '/' !in a
    ensures '/' in a + ['/'] + b && FirstSlash(a + ['/'] + b) == |a|
    decreases |a|
  {
    var s := a + ['/'] + b;
    assert s[|a|] == '/';
    if a != [] {
      assert s[0] == a[0];
      assert s[1..] == a[1..] + ['/'] + b;
      FirstSlashAfter(a[1..], b);
    }
  }

  /** `filepath.Join(dir, name)`: an empty argument is dropped, and the
      directory's trailing slashes are not doubled; a directory made only of
      slashes is the root. */
  function JoinPath(dir: string, name: string): (r: string)
    ensures dir == "" ==> r == name
    ensures name == "" ==> r == dir
  {
    if dir == "" then name
    else if name == "" then dir
    else TrimTrailingSlashes(dir) + "/" + name
  }

  /** The base of a joined path is the file name joined to it. */
  lemma JoinPathBase(dir: string, name: string)
    requires name != "" && '/' !in name
    ensures Base(JoinPath(dir, name)) == name
  {
    if dir != "" {
      var prefix := TrimTrailingSlashes(dir) + "/";
      assert JoinPath(dir, name) == prefix + name;
      BaseOfElement(prefix, name);
    }
  }

  /** A joined path ends in the file name, and what precedes the name is the
      directory up to trailing slashes. */
  lemma JoinPathParts(dir: string, name: string)
    requires dir != "" && name != ""
    ensures var r := JoinPath(dir, name);
            && |name| < |r| && r[|r| - |name|..] == name
            && TrimTrailingSlashes(r[..|r| - |name|]) == TrimTrailingSlashes(dir)
  {
    var d := TrimTrailingSlashes(dir);
    var prefix := d + "/";
    var r := prefix + name;
    assert JoinPath(dir, name) == r;
    assert TrimTrailingSlashes(prefix) == d by {
      assert prefix[..|prefix| - 1] == d;
    }
    assert r[..|r| - |name|] == prefix && r[|r| - |name|..] == name;
  }
}
