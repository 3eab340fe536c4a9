/** `createArtifact`, the runtime of the `package` action: read the
    repository information, locate the home directory, check that the build
    directory exists, and archive it under a name made of the repository name
    and the short commit id. */
module Artifact {
  import opened Prelude
  import opened Paths
  import opened Hex
  import opened WalkSpec
  import opened RepoInfo
  import opened Archive

  /** The directory that is archived, relative to the working directory. */
  const BuildDir: string := ".compose/build"
  /** Where the finished artifact is copied. */
  const ArtifactDir: string := ".compose/artifacts"
  /** The temporary archive directory, under the home directory. */
  const TempDirName: string := "artifact"
  /** What follows the short commit id in an artifact's file name. */
  const FileSuffix: string := "-plasma-src.tar.gz"
  const ShaLength := 7

  const RepoInfoFailure: string := "error getting repository information"
  const BuildDirMissing: string := "build dir doesn't exist, please check your composition"
  const ArchiveFailure: string := "error creating archive"

  /** What `os.Stat` reports for the build directory. */
  datatype StatResult = Found | NotExist | StatError(cause: string)

  /** How the action ends: it returns nil, returns an error with this
      message, or panics (inside `getRepoInfo`). */
  datatype Completion = Completed | Errored(message: string) | Panicked(panic: Panic)

  /** The action's ending, the `createArchive` call it made, if any, and
      what that call did. */
  datatype ArtifactRun = ArtifactRun(completion: Completion, call: Option<Job>, archive: Option<Run>)

  /** `fmt.Sprintf("%s-%s-plasma-src.tar.gz", repoName, shortSha)`. */
  function ArchiveFileName(repoName: string, sha: string): (r: string)
    ensures |r| == |repoName| + 1 + |sha| + |FileSuffix|
    ensures r[..|repoName|] == repoName && r[|repoName|] == '-'
    ensures r[|repoName| + 1..|repoName| + 1 + |sha|] == sha
    ensures r[|r| - |FileSuffix|..] == FileSuffix
  {
    repoName + "-" + sha + FileSuffix
  }

  /** Recovers the repository name and short id from an artifact file name,
      reading from the end: the suffix, the seven-character id, the dash;
      the rest is the name, which may itself hold dashes. */
  function ParseArchiveFileName(s: string): (r: Option<(string, string)>)
    ensures r.Some? ==> |r.value.1| == ShaLength && |s| == |r.value.0| + 1 + ShaLength + |FileSuffix|
  {
    var n := |s|;
    var idEnd := n - |FileSuffix|;
    var idStart := idEnd - ShaLength;
    if idStart < 1 || s[idEnd..] != FileSuffix || s[idStart - 1] != '-' then None
    else Some((s[..idStart - 1], s[idStart..idEnd]))
  }

  /** A name formatted from a seven-character id parses back to its parts. */
  lemma ParseFormatted(repoName: string, sha: string)
    requires |sha| == ShaLength
    ensures ParseArchiveFileName(ArchiveFileName(repoName, sha)) == Some((repoName, sha))
  {
    var s := ArchiveFileName(repoName, sha);
    var m := |repoName|;
    assert |s| == m + 1 + ShaLength + |FileSuffix|;
    assert s[m + 1 + ShaLength..] == FileSuffix;
    assert s[m] == '-';
    assert s[..m] == repoName;
    assert s[m + 1..m + 1 + ShaLength] == sha;
  }

  /** Whatever parses was formatted from its parts. */
  lemma FormatParsed(s: string)
    requires ParseArchiveFileName(s).Some?
    ensures ArchiveFileName(ParseArchiveFileName(s).value.0, ParseArchiveFileName(s).value.1) == s
  {
    var n := |s|;
    var idEnd := n - |FileSuffix|;
    var idStart := idEnd - ShaLength;
    assert s == s[..idStart - 1] + [s[idStart - 1]] + s[idStart..idEnd] + s[idEnd..];
  }

  /** The Go function. `git` is the repository, `home` the result of
      `os.UserHomeDir`, `stat` that of `os.Stat(".compose/build")`, and `env`
      how the archive's filesystem calls turn out. */
  function CreateArtifact(git: GitView, home: Result<string, string>, stat: StatResult, env: Env): (r: ArtifactRun)
    ensures r.completion.Panicked? <==> GetRepoInfo(git).Panics?
    ensures r.completion.Panicked? ==> r.completion.panic == GetRepoInfo(git).panic
    ensures GetRepoInfo(git).Returns? && GetRepoInfo(git).value.err.Some? ==>
              r == ArtifactRun(Errored(RepoInfoFailure), None, None)
    ensures r.call.Some? <==>
              && GetRepoInfo(git).Returns? && GetRepoInfo(git).value.err.None?
              && home.Ok? && !stat.NotExist?
    ensures r.call.Some? ==>
              var info := GetRepoInfo(git).value;
              r.call.value == Job(BuildDir, JoinPath(home.value, TempDirName), ArtifactDir,
                                  ArchiveFileName(info.repoName, info.shortSha))
    ensures r.archive.Some? <==> r.call.Some?
    ensures r.archive.Some? ==> r.archive.value == CreateArchive(r.call.value, env)
    ensures r.completion == Completed <==> r.archive.Some? && r.archive.value.err.None?
    ensures r.archive.Some? && r.archive.value.err.Some? ==> r.completion == Errored(ArchiveFailure)
  {
    match GetRepoInfo(git)
    case Panics(p) => ArtifactRun(Panicked(p), None, None)
    case Returns(info) =>
      if info.err.Some? then ArtifactRun(Errored(RepoInfoFailure), None, None)
      else match home
        case Err(cause) => ArtifactRun(Errored(cause), None, None)
        case Ok(homeDir) =>
          if stat.NotExist? then ArtifactRun(Errored(BuildDirMissing), None, None)
          else
            var job := Job(BuildDir, JoinPath(homeDir, TempDirName), ArtifactDir,
                           ArchiveFileName(info.repoName, info.shortSha));
            var run := CreateArchive(job, env);
            ArtifactRun(if run.err.Some? then Errored(ArchiveFailure) else Completed, Some(job), Some(run))
  }

  /** A failure to read the repository ends the action before the home
      directory, the build directory or any file is looked at, and it wins
      over a missing build directory. */
  lemma RepoFailureShortCircuits(git: GitView, home: Result<string, string>, home': Result<string, string>,
                                 stat: StatResult, stat': StatResult, env: Env, env': Env)
    requires GetRepoInfo(git).Panics? || GetRepoInfo(git).value.err.Some?
    ensures CreateArtifact(git, home, stat, env) == CreateArtifact(git, home', stat', env')
    ensures CreateArtifact(git, home, stat, env).call.None?
  {
  }

  /** Only a missing build directory stops the action: any other stat error
      is ignored, exactly as if the directory had been found. */
  lemma OnlyNotExistStops(git: GitView, home: Result<string, string>, cause: string, env: Env)
    ensures CreateArtifact(git, home, StatError(cause), env) == CreateArtifact(git, home, Found, env)
    ensures GetRepoInfo(git).Returns? && GetRepoInfo(git).value.err.None? && home.Ok? ==>
              CreateArtifact(git, home, NotExist, env) == ArtifactRun(Errored(BuildDirMissing), None, None)
  {
  }

  /** The home directory's error is returned as it is, not wrapped. */
  lemma HomeErrorReturnedUnwrapped(git: GitView, cause: string, stat: StatResult, env: Env)
    requires GetRepoInfo(git).Returns? && GetRepoInfo(git).value.err.None?
    ensures CreateArtifact(git, Err(cause), stat, env) == ArtifactRun(Errored(cause), None, None)
  {
  }

  /** For a remote ".../<name>.git" the artifact is
      ".compose/artifacts/<name>-<7 hex digits>-plasma-src.tar.gz", and that
      file name gives back the repository name and the short id. */
  lemma ArtifactNamedAfterRepository(git: GitView, prefix: string, name: string,
                                     home: Result<string, string>, stat: StatResult, env: Env)
    requires prefix == "" || prefix[|prefix| - 1] == '/'
    requires '/' !in name
    requires git.open.Pass? && git.originUrls.Ok? && |git.originUrls.value| > 0
    requires git.originUrls.value[0] == prefix + name + ".git"
    requires git.head.Ok? && git.commitMessage.Ok?
    requires home.Ok? && !stat.NotExist?
    ensures var r := CreateArtifact(git, home, stat, env);
            && r.call.Some?
            && ArtifactPath(r.call.value) == ArtifactDir + "/" + ArchiveFileName(name, ShortSha(git.head.value))
            && ParseArchiveFileName(r.call.value.fileName) == Some((name, ShortSha(git.head.value)))
  {
    RepoNameOfGitUrl(prefix, name);
    ShortShaIsHex(git.head.value);
    ParseFormatted(name, ShortSha(git.head.value));
  }

  /** The temporary archive and the artifact the action asks for are two
      different paths: the first lies in a directory named "artifact", the
      second in ".compose/artifacts". */
  lemma ArchivePathsDiffer(git: GitView, home: Result<string, string>, stat: StatResult, env: Env)
    ensures var r := CreateArtifact(git, home, stat, env);
            r.call.Some? ==> TempPath(r.call.value) != ArtifactPath(r.call.value)
  {
    var r := CreateArtifact(git, home, stat, env);
    if r.call.Some? {
      JobPathsDiffer(home.value, r.call.value.fileName);
    }
  }

  /** The job the action builds, for any home directory and file name. */
  lemma JobPathsDiffer(home: string, fileName: string)
    requires fileName != ""
    ensures var job := Job(BuildDir, JoinPath(home, TempDirName), ArtifactDir, fileName);
            TempPath(job) != ArtifactPath(job)
  {
    var x := JoinPath(home, TempDirName);
    assert x != "" && x[|x| - 1] == 't';
    assert TrimTrailingSlashes(x) == x;
    var t := x + "/" + fileName;
    var a := ArtifactDir + "/" + fileName;
    assert TrimTrailingSlashes(ArtifactDir) == ArtifactDir;
    if |x| == |ArtifactDir| {
      assert t[|x| - 1] != a[|x| - 1];
    }
  }

  /** When the action completes, the artifact holds exactly the archive of
      the build tree: its non-excluded nodes in walk order, each as its tar
      headers. */
  lemma CompletedArtifactIsFilteredBuildTree(git: GitView, home: Result<string, string>, stat: StatResult, env: Env)
    requires CreateArtifact(git, home, stat, env).completion == Completed
    ensures var r := CreateArtifact(git, home, stat, env);
            && r.archive.value.artifact == Complete(Image(Archived(Listing(env.source, []), env.source.name, 0, env.separator)))
            && r.archive.value.artifact == r.archive.value.temp
  {
    WalkIsFilteredListing(env.source, [], env.separator);
  }
}
