/** `createArchive`: prepare the directories, write the tar.gz archive of the
    source tree into the temporary directory, finalise it, and copy it into
    the artifact directory. Each filesystem call is an input outcome; the
    result records the error returned, the effects that took place in order,
    and what the temporary and final archive files hold. */
module Archive {
  import opened Prelude
  import opened Paths
  import opened FileTree
  import opened TarWalk

  /** The four arguments of `createArchive`. The temporary path and the
      artifact path built from them are taken to name different files; the
      code does not check this. */
  datatype Job = Job(sourceDir: string, tempDir: string, finalDir: string, fileName: string)

  /** How each filesystem call of one run turns out, and the source tree. */
  datatype Env = Env(
    makeTempDir: Outcome,    // os.MkdirAll(archiveTempDir, 0750)
    makeFinalDir: Outcome,   // os.MkdirAll(archiveFinalDir, 0750)
    createTemp: Outcome,     // os.Create(archivePath)
    source: Node,            // the tree at the source directory; its name is the directory's base name
    separator: char,         // the host's path separator
    closeTar: Outcome,       // tw.Close()
    closeGzip: Outcome,      // gw.Close()
    openTemp: Outcome,       // os.Open(archivePath)
    createArtifact: Outcome, // os.Create(artifactPath)
    copy: Outcome)           // io.Copy(destFile, srcFile)

  /** The open files of a run. */
  datatype Handle = TempWriter | TempReader | ArtifactWriter

  /** An effect that took place: a call that succeeded, or one of the
      deferred `Close` calls, whose results the code ignores. A failed call
      leaves no step; the run returns its error at once. */
  datatype Step =
    | MakeDir(path: string)
    | Create(handle: Handle, path: string)
    | Open(handle: Handle, path: string)
    | WriteEntries(count: nat)
    | CloseTar
    | CloseGzip
    | Copy(from: string, to: string)
    | Close(handle: Handle)

  datatype ArchiveError =
    | MakeDirFailed(path: string, cause: string)
    | CreateTempFailed(cause: string)
    | WalkFailed(walk: WalkError)        // "error walking directory: ..."
    | CloseTarFailed(cause: string)      // "error closing tar writer: ..."
    | CloseGzipFailed(cause: string)     // "error closing gzip writer: ..."
    | OpenTempFailed(cause: string)      // "error opening archive file: ..."
    | CreateArtifactFailed(cause: string) // "error creating artifact file: ..."
    | CopyFailed(cause: string)          // "error copying archive to artifact directory: ..."

  /** The content of a complete .tar.gz file: the entries it encodes. */
  datatype Image = Image(entries: seq<Entry>)

  /** What the run leaves at one of its two archive paths: the file was not
      created by this run (a file left there by an earlier run, possibly a
      complete archive, stays as it was), it was created or truncated but does
      not hold a complete archive of this run, or it holds this run's complete
      archive `image`. */
  datatype FileState = Untouched | Partial | Complete(image: Image)

  /** `temp` is the state of the temporary archive, `artifact` that of the
      copy at the final path. */
  datatype Run = Run(err: Option<ArchiveError>, steps: seq<Step>, temp: FileState, artifact: FileState)

  /** The deferred `Close` calls, run last-opened first when the function
      returns. */
  function Closes(held: seq<Handle>): (r: seq<Step>)
    ensures |r| == |held|
    ensures forall k :: 0 <= k < |r| ==> r[k] == Close(held[|held| - 1 - k])
  {
    if held == [] then [] else [Close(held[|held| - 1])] + Closes(held[..|held| - 1])
  }

  function TempPath(job: Job): string {
    JoinPath(job.tempDir, job.fileName)
  }

  function ArtifactPath(job: Job): string {
    JoinPath(job.finalDir, job.fileName)
  }

  /** A step that creates or opens a file. */
  predicate Acquires(s: Step) {
    s.Create? || s.Open?
  }

  /** No step of `s` copies the archive. */
  predicate NoCopy(s: seq<Step>) {
    forall k :: 0 <= k < |s| ==> !s[k].Copy?
  }

  /** No step of `s` closes a writer or copies the archive. */
  predicate NoWriterStep(s: seq<Step>) {
    CloseTar !in s && CloseGzip !in s && NoCopy(s)
  }

  /** The Go function, step by step. */
  function CreateArchive(job: Job, env: Env): (r: Run)
    ensures r.err.None? <==>
              && env.makeTempDir.Pass? && env.makeFinalDir.Pass? && env.createTemp.Pass?
              && WalkSource(env.source, env.separator).Ok?
              && env.closeTar.Pass? && env.closeGzip.Pass?
              && env.openTemp.Pass? && env.createArtifact.Pass? && env.copy.Pass?
    ensures r.err.None? ==>
              && r.temp == Complete(Image(WalkSource(env.source, env.separator).value))
              && r.artifact == r.temp
    ensures r.err.Some? ==> !r.artifact.Complete?
    ensures r.artifact.Partial? <==> r.err.Some? && r.err.value.CopyFailed?
    ensures r.temp.Untouched? <==> env.makeTempDir.Fail? || env.makeFinalDir.Fail? || env.createTemp.Fail?
    ensures r.temp.Complete? <==>
              && env.makeTempDir.Pass? && env.makeFinalDir.Pass? && env.createTemp.Pass?
              && WalkSource(env.source, env.separator).Ok? && env.closeTar.Pass? && env.closeGzip.Pass?
    ensures env.makeTempDir.Fail? ==> r.err == Some(MakeDirFailed(job.tempDir, env.makeTempDir.cause))
    ensures env.makeTempDir.Pass? && env.makeFinalDir.Fail? ==>
              r.err == Some(MakeDirFailed(job.finalDir, env.makeFinalDir.cause))
    ensures env.makeTempDir.Fail? || env.makeFinalDir.Fail? ==>
              forall k :: 0 <= k < |r.steps| ==> !Acquires(r.steps[k])
    ensures r.err.Some? && r.err.value.WalkFailed? ==> NoWriterStep(r.steps)
    ensures r.err.Some? && r.err.value.CloseTarFailed? ==>
              && env.closeTar.Fail? && r.err.value.cause == env.closeTar.cause
              && CloseTar !in r.steps && CloseGzip !in r.steps
    ensures r.err.Some? && r.err.value.CloseGzipFailed? ==>
              && env.closeTar.Pass? && env.closeGzip.Fail? && r.err.value.cause == env.closeGzip.cause
              && CloseTar in r.steps && CloseGzip !in r.steps
    ensures CloseGzip in r.steps ==> env.closeTar.Pass?
    ensures !NoCopy(r.steps) ==> env.closeTar.Pass? && env.closeGzip.Pass? && r.temp.Complete?
  {
    if env.makeTempDir.Fail? then
      Run(Some(MakeDirFailed(job.tempDir, env.makeTempDir.cause)), [], Untouched, Untouched)
    else if env.makeFinalDir.Fail? then
      Run(Some(MakeDirFailed(job.finalDir, env.makeFinalDir.cause)), [MakeDir(job.tempDir)], Untouched, Untouched)
    else if env.createTemp.Fail? then
      Run(Some(CreateTempFailed(env.createTemp.cause)), [MakeDir(job.tempDir), MakeDir(job.finalDir)], Untouched, Untouched)
    else
      var created := [MakeDir(job.tempDir), MakeDir(job.finalDir), Create(TempWriter, TempPath(job))];
      assert NoWriterStep(created);
      WriteArchive(job, env, WalkSource(env.source, env.separator), created)
  }

  /** The walk into the tar writer, with result `walked`, and the two closes,
      once the temporary file is open; `done` are the effects so far. */
  function WriteArchive(job: Job, env: Env, walked: Result<seq<Entry>, WalkError>, done: seq<Step>): (r: Run)
    ensures done <= r.steps
    ensures r.err.None? <==>
              && walked.Ok? && env.closeTar.Pass? && env.closeGzip.Pass?
              && env.openTemp.Pass? && env.createArtifact.Pass? && env.copy.Pass?
    ensures walked.Err? ==> r.err == Some(WalkFailed(walked.error))
    ensures r.err.Some? && r.err.value.WalkFailed? ==> walked.Err?
    ensures !r.temp.Untouched?
    ensures r.temp.Complete? <==> walked.Ok? && env.closeTar.Pass? && env.closeGzip.Pass?
    ensures r.temp.Complete? ==> r.temp.image == Image(walked.value)
    ensures r.artifact.Complete? <==> r.err.None?
    ensures r.artifact.Complete? ==> r.artifact == r.temp
    ensures r.artifact.Partial? <==> r.err.Some? && r.err.value.CopyFailed?
    ensures walked.Ok? && env.closeTar.Fail? ==> r.err == Some(CloseTarFailed(env.closeTar.cause))
    ensures walked.Ok? && env.closeTar.Pass? && env.closeGzip.Fail? ==>
              r.err == Some(CloseGzipFailed(env.closeGzip.cause))
    ensures NoWriterStep(done) && walked.Err? ==> NoWriterStep(r.steps)
    ensures r.err.Some? && r.err.value.CloseTarFailed? ==> walked.Ok? && env.closeTar.Fail?
    ensures r.err.Some? && r.err.value.CloseGzipFailed? ==> walked.Ok? && env.closeTar.Pass? && env.closeGzip.Fail?
    ensures NoWriterStep(done) && walked.Ok? && env.closeTar.Fail? ==> CloseTar !in r.steps && CloseGzip !in r.steps
    ensures NoWriterStep(done) && walked.Ok? && env.closeTar.Pass? && env.closeGzip.Fail? ==>
              CloseTar in r.steps && CloseGzip !in r.steps
    ensures CloseGzip !in done && CloseGzip in r.steps ==> env.closeTar.Pass?
    ensures NoCopy(done) && !NoCopy(r.steps) ==> env.closeTar.Pass? && env.closeGzip.Pass? && r.temp.Complete?
  {
    match walked
    case Err(e) =>
      Run(Some(WalkFailed(e)), done + Closes([TempWriter]), Partial, Untouched)
    case Ok(entries) =>
      var written := done + [WriteEntries(|entries|)];
      if env.closeTar.Fail? then
        Run(Some(CloseTarFailed(env.closeTar.cause)), written + Closes([TempWriter]), Partial, Untouched)
      else if env.closeGzip.Fail? then
        Run(Some(CloseGzipFailed(env.closeGzip.cause)), written + [CloseTar] + Closes([TempWriter]), Partial, Untouched)
      else
        CopyArchive(job, env, written + [CloseTar, CloseGzip], Image(entries))
  }

  /** The copy of the finished temporary archive `image` to the artifact
      directory. */
  function CopyArchive(job: Job, env: Env, done: seq<Step>, image: Image): (r: Run)
    ensures done <= r.steps
    ensures r.temp == Complete(image)
    ensures r.err.None? <==> env.openTemp.Pass? && env.createArtifact.Pass? && env.copy.Pass?
    ensures r.err.None? ==> r.artifact == Complete(image)
    ensures r.artifact.Untouched? <==> env.openTemp.Fail? || env.createArtifact.Fail?
    ensures r.artifact.Partial? <==> r.err.Some? && r.err.value.CopyFailed?
    ensures env.openTemp.Fail? ==> r.err == Some(OpenTempFailed(env.openTemp.cause))
    ensures env.openTemp.Pass? && env.createArtifact.Fail? ==>
              r.err == Some(CreateArtifactFailed(env.createArtifact.cause))
    ensures env.openTemp.Pass? && env.createArtifact.Pass? && env.copy.Fail? ==>
              r.err == Some(CopyFailed(env.copy.cause))
  {
    var tempPath, artifactPath := TempPath(job), ArtifactPath(job);
    if env.openTemp.Fail? then
      Run(Some(OpenTempFailed(env.openTemp.cause)), done + Closes([TempWriter]), Complete(image), Untouched)
    else
      var reading := done + [Open(TempReader, tempPath)];
      if env.createArtifact.Fail? then
        Run(Some(CreateArtifactFailed(env.createArtifact.cause)),
            reading + Closes([TempWriter, TempReader]), Complete(image), Untouched)
      else
        var copying := reading + [Create(ArtifactWriter, artifactPath)];
        var handles := [TempWriter, TempReader, ArtifactWriter];
        if env.copy.Fail? then
          Run(Some(CopyFailed(env.copy.cause)), copying + Closes(handles), Complete(image), Partial)
        else
          Run(None, copying + [Copy(tempPath, artifactPath)] + Closes(handles), Complete(image), Complete(image))
  }
}
