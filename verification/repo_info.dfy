/** `getRepoInfo`: the repository's name, last commit message and short
    commit id, read from the local git repository. The go-git lookups are
    inputs: each either yields its value or fails with an error text. */
module RepoInfo {
  import opened Prelude
  import opened Paths
  import opened Hex

  /** What go-git reports for the repository in the working directory. */
  datatype GitView = GitView(
    open: Outcome,                        // git.PlainOpen(".")
    originUrls: Result<seq<string>, string>, // r.Remote("origin"), then Config().URLs
    head: Result<Hash, string>,           // r.Head(), then ref.Hash()
    commitMessage: Result<string, string>) // r.CommitObject(hash), then commit.Message

  /** The lookup that failed. */
  datatype GitStep = OpenRepo | FindRemote | ResolveHead | LoadCommit

  datatype GitError = GitError(step: GitStep, cause: string)

  /** A Go runtime panic, with the operands Go reports. */
  datatype Panic =
    | IndexOutOfRange(index: int, length: int)
    | SliceBoundsOutOfRange(high: int)

  /** A Go call either returns or panics. */
  datatype Exec<+T> = Returns(value: T) | Panics(panic: Panic)

  /** The four results of `getRepoInfo`. */
  datatype Info = Info(repoName: string, lastCommitMessage: string, shortSha: string, err: Option<GitError>)

  /** The length of the ".git" suffix that the name derivation assumes. */
  const SuffixLength := 4

  /** `filepath.Base(url)[:len-4]`. The last four characters are dropped
      whatever they are; a base shorter than four characters makes the slice
      bound negative, which panics. Each char of `url` stands for one byte
      (see `Prelude`), so "characters" are Go's bytes: the URL of "日本" is
      given as its six UTF-8 bytes. */
  function RepoName(url: string): (r: Exec<string>)
    ensures r.Returns? <==> |Base(url)| >= SuffixLength
    ensures r.Returns? ==> |r.value| == |Base(url)| - SuffixLength && r.value <= Base(url)
    ensures r.Panics? ==> r.panic == SliceBoundsOutOfRange(|Base(url)| - SuffixLength)
  {
    var base := Base(url);
    if |base| < SuffixLength then Panics(SliceBoundsOutOfRange(|base| - SuffixLength))
    else Returns(base[..|base| - SuffixLength])
  }

  /** For the URL shape the code expects, ".../<name>.git", the derived name
      is exactly `name`. */
  lemma RepoNameOfGitUrl(prefix: string, name: string)
    requires prefix == "" || prefix[|prefix| - 1] == '/'
    requires '/' !in name
    ensures RepoName(prefix + name + ".git") == Returns(name)
  {
    assert prefix + name + ".git" == prefix + (name + ".git");
    BaseOfElement(prefix, name + ".git");
    assert (name + ".git")[..|name|] == name;
  }

  /** The last four characters are dropped whether or not they are ".git":
      "https://github.com/skilld-labs/plasmactl" gives "plasm". */
  lemma RepoNameDropsLastFour(prefix: string, name: string)
    requires prefix == "" || prefix[|prefix| - 1] == '/'
    requires '/' !in name && |name| >= SuffixLength
    ensures RepoName(prefix + name) == Returns(name[..|name| - SuffixLength])
  {
    BaseOfElement(prefix, name);
  }

  /** A remote whose last element is shorter than four characters panics,
      the slice bound being that length minus four. */
  lemma RepoNamePanicsOnShortBase(prefix: string, name: string)
    requires prefix == "" || prefix[|prefix| - 1] == '/'
    requires '/' !in name && 0 < |name| < SuffixLength
    ensures RepoName(prefix + name) == Panics(SliceBoundsOutOfRange(|name| - SuffixLength))
  {
    BaseOfElement(prefix, name);
  }

  /** The Go function: each lookup in turn, returning three empty strings and
      the error as soon as one fails. The name is derived right after the
      remote lookup, so its panic happens before HEAD is read. */
  function GetRepoInfo(g: GitView): (r: Exec<Info>)
    ensures r.Returns? && r.value.err.Some? ==>
              r.value.repoName == "" && r.value.lastCommitMessage == "" && r.value.shortSha == ""
    ensures g.open.Fail? ==> r == Returns(Failed(OpenRepo, g.open.cause))
    ensures r.Returns? && r.value.err.None? <==>
              && g.open.Pass?
              && g.originUrls.Ok? && |g.originUrls.value| > 0
              && RepoName(g.originUrls.value[0]).Returns?
              && g.head.Ok? && g.commitMessage.Ok?
    ensures r.Returns? && r.value.err.None? ==>
              && Returns(r.value.repoName) == RepoName(g.originUrls.value[0])
              && r.value.lastCommitMessage == g.commitMessage.value
              && r.value.shortSha == ShortSha(g.head.value)
    ensures r.Panics? <==>
              && g.open.Pass? && g.originUrls.Ok?
              && (|g.originUrls.value| == 0 || RepoName(g.originUrls.value[0]).Panics?)
  {
    if g.open.Fail? then Returns(Failed(OpenRepo, g.open.cause))
    else match g.originUrls
      case Err(c) => Returns(Failed(FindRemote, c))
      case Ok(urls) =>
        if |urls| == 0 then Panics(IndexOutOfRange(0, 0))
        else match RepoName(urls[0])
          case Panics(p) => Panics(p)
          case Returns(name) =>
            match g.head
            case Err(c) => Returns(Failed(ResolveHead, c))
            case Ok(hash) =>
              match g.commitMessage
              case Err(c) => Returns(Failed(LoadCommit, c))
              case Ok(message) => Returns(Info(name, message, ShortSha(hash), None))
  }

  function Failed(step: GitStep, cause: string): Info
  {
    Info("", "", "", Some(GitError(step, cause)))
  }

  /** Each failing lookup is reported as itself: the error names the first
      lookup that failed, in the order open, remote, HEAD, commit. */
  lemma FirstFailingLookupReported(g: GitView)
    ensures g.open.Pass? && g.originUrls.Err? ==>
              GetRepoInfo(g) == Returns(Failed(FindRemote, g.originUrls.error))
    ensures g.open.Pass? && g.originUrls.Ok? && |g.originUrls.value| > 0
            && RepoName(g.originUrls.value[0]).Returns? && g.head.Err? ==>
              GetRepoInfo(g) == Returns(Failed(ResolveHead, g.head.error))
    ensures g.open.Pass? && g.originUrls.Ok? && |g.originUrls.value| > 0
            && RepoName(g.originUrls.value[0]).Returns? && g.head.Ok? && g.commitMessage.Err? ==>
              GetRepoInfo(g) == Returns(Failed(LoadCommit, g.commitMessage.error))
  {
  }

  /** Once a lookup fails the later ones are not consulted: the result is the
      same whatever they would have answered. */
  lemma LaterLookupsNotReached(g: GitView, h: GitView)
    ensures g.open.Fail? && h.open == g.open ==> GetRepoInfo(g) == GetRepoInfo(h)
    ensures g.open.Pass? && g.originUrls.Err? && h.open == g.open && h.originUrls == g.originUrls ==>
              GetRepoInfo(g) == GetRepoInfo(h)
    ensures g.open.Pass? && g.originUrls.Ok? && h.open == g.open && h.originUrls == g.originUrls
            && g.head.Err? && h.head == g.head ==>
              GetRepoInfo(g) == GetRepoInfo(h)
  {
  }
}
