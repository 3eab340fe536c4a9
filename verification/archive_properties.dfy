/** Ordering and resource properties of `Archive.CreateArchive`. */
module ArchiveProperties {
  import opened Prelude
  import opened TarWalk
  import opened Archive

  /** `a` occurs in `s` before `b` does. */
  ghost predicate Precedes(s: seq<Step>, a: Step, b: Step) {
    exists i, j :: 0 <= i < j < |s| && s[i] == a && s[j] == b
  }

  /** The files a sequence of steps creates or opens, in order. */
  function Acquired(s: seq<Step>): seq<Handle>
  {
    if s == [] then []
    else Acquired(s[..|s| - 1]) + (if Acquires(s[|s| - 1]) then [s[|s| - 1].handle] else [])
  }

  lemma AcquiredSnoc(s: seq<Step>, x: Step)
    ensures Acquired(s + [x]) == Acquired(s) + (if Acquires(x) then [x.handle] else [])
  {
    assert (s + [x])[..|s|] == s;
  }

  /** The tar writer is closed before the gzip writer; the copy starts only
      after both closed successfully. */
  ghost predicate InOrder(steps: seq<Step>, env: Env) {
    && (CloseGzip in steps ==> Precedes(steps, CloseTar, CloseGzip))
    && forall k :: 0 <= k < |steps| && steps[k].Copy? ==>
         Precedes(steps, CloseGzip, steps[k]) && env.closeTar.Pass? && env.closeGzip.Pass?
  }

  /** A step other than the two writer closes and the copy. */
  predicate Plain(x: Step) {
    !x.CloseTar? && !x.CloseGzip? && !x.Copy?
  }

  predicate AllPlain(s: seq<Step>) {
    forall k :: 0 <= k < |s| ==> Plain(s[k])
  }

  lemma ClosesInOrder(job: Job, env: Env)
    ensures InOrder(CreateArchive(job, env).steps, env)
  {
    var r := CreateArchive(job, env);
    if env.makeTempDir.Fail? || env.makeFinalDir.Fail? || env.createTemp.Fail? {
      assert AllPlain(r.steps);
    } else {
      var created := [MakeDir(job.tempDir), MakeDir(job.finalDir), Create(TempWriter, TempPath(job))];
      assert r == WriteArchive(job, env, WalkSource(env.source, env.separator), created);
      WriteInOrder(job, env, WalkSource(env.source, env.separator), created);
    }
  }

  lemma WriteInOrder(job: Job, env: Env, walked: Result<seq<Entry>, WalkError>, done: seq<Step>)
    requires AllPlain(done)
    ensures InOrder(WriteArchive(job, env, walked, done).steps, env)
  {
    var r := WriteArchive(job, env, walked, done);
    assert Closes([TempWriter]) == [Close(TempWriter)];
    match walked
    case Err(e) =>
      assert AllPlain(r.steps);
    case Ok(entries) =>
      var written := done + [WriteEntries(|entries|)];
      assert AllPlain(written);
      if env.closeTar.Fail? {
        assert AllPlain(r.steps);
      } else if env.closeGzip.Fail? {
        assert r.steps == written + [CloseTar] + [Close(TempWriter)];
        assert CloseGzip !in r.steps by {
          forall k | 0 <= k < |r.steps| ensures r.steps[k] != CloseGzip {
            if k < |written| { assert r.steps[k] == written[k]; }
          }
        }
        assert AllPlain(r.steps[..|written|] + r.steps[|written| + 1..]);
        forall k | 0 <= k < |r.steps| ensures !r.steps[k].Copy? {
          if k < |written| { assert r.steps[k] == written[k]; }
        }
      } else {
        CopyInOrder(job, env, written, Image(entries));
      }
  }

  lemma CopyInOrder(job: Job, env: Env, pre: seq<Step>, image: Image)
    requires AllPlain(pre) && env.closeTar.Pass? && env.closeGzip.Pass?
    ensures InOrder(CopyArchive(job, env, pre + [CloseTar, CloseGzip], image).steps, env)
  {
    var done := pre + [CloseTar, CloseGzip];
    var steps := CopyArchive(job, env, done, image).steps;
    var n := |pre|;
    assert steps[..|done|] == done;
    assert steps[n] == CloseTar && steps[n + 1] == CloseGzip;
    assert Precedes(steps, CloseTar, CloseGzip);
    forall k | 0 <= k < |steps| && steps[k].Copy? ensures Precedes(steps, CloseGzip, steps[k]) {
      assert k > n + 1;
    }
  }

  /** No step of `s` closes a file. */
  predicate NoCloses(s: seq<Step>) {
    forall k :: 0 <= k < |s| ==> !s[k].Close?
  }

  /** The steps before the first close. */
  function Body(steps: seq<Step>): (r: seq<Step>)
    ensures r <= steps && NoCloses(r)
    ensures |r| < |steps| ==> steps[|r|].Close?
  {
    if steps == [] || steps[0].Close? then []
    else [steps[0]] + Body(steps[1..])
  }

  /** `steps` is a run of effects followed by the deferred closes of exactly
      the files those effects acquired, in reverse order. */
  predicate EndsWithDeferredCloses(steps: seq<Step>) {
    steps == Body(steps) + Closes(Acquired(Body(steps)))
  }

  /** A close-free run followed by closes has that run as its body. */
  lemma {:induction false} BodyOfClosed(body: seq<Step>, closes: seq<Step>)
    requires NoCloses(body) && (closes == [] || closes[0].Close?)
    ensures Body(body + closes) == body
    decreases |body|
  {
    if body == [] {
      assert body + closes == closes;
    } else {
      assert (body + closes)[0] == body[0];
      assert (body + closes)[1..] == body[1..] + closes;
      BodyOfClosed(body[1..], closes);
      assert body == [body[0]] + body[1..];
    }
  }

  lemma Witness(steps: seq<Step>, body: seq<Step>)
    requires steps == body + Closes(Acquired(body)) && NoCloses(body)
    ensures EndsWithDeferredCloses(steps)
  {
    BodyOfClosed(body, Closes(Acquired(body)));
  }

  /** Appending one non-close step keeps the body free of closes and extends
      the acquired files by the one it acquires. */
  lemma Extend(body: seq<Step>, x: Step)
    requires NoCloses(body) && !x.Close?
    ensures NoCloses(body + [x])
    ensures Acquires(x) ==> Acquired(body + [x]) == Acquired(body) + [x.handle]
    ensures !Acquires(x) ==> Acquired(body + [x]) == Acquired(body)
  {
    AcquiredSnoc(body, x);
    assert Acquired(body) + [] == Acquired(body);
  }


  /** Every file the run creates or opens is closed exactly once, by the
      deferred calls, last-opened first, after every other step. */
  lemma DeferredClosesMirrorAcquisitions(job: Job, env: Env)
    ensures EndsWithDeferredCloses(CreateArchive(job, env).steps)
  {
    if env.makeTempDir.Fail? || env.makeFinalDir.Fail? || env.createTemp.Fail? {
      EarlyClosesMirrorAcquisitions(job, env);
    } else {
      var r := CreateArchive(job, env);
      var d1, d2 := MakeDir(job.tempDir), MakeDir(job.finalDir);
      var created := [d1, d2, Create(TempWriter, TempPath(job))];
      Extend([], d1);
      assert [] + [d1] == [d1];
      Extend([d1], d2);
      assert [d1] + [d2] == [d1, d2];
      assert [d1, d2] + [Create(TempWriter, TempPath(job))] == created;
      Extend([d1, d2], Create(TempWriter, TempPath(job)));
      assert r == WriteArchive(job, env, WalkSource(env.source, env.separator), created);
      WriteClosesMirrorAcquisitions(job, env, WalkSource(env.source, env.separator), created);
    }
  }

  /** A run that stops before the temporary file exists closes nothing. */
  lemma EarlyClosesMirrorAcquisitions(job: Job, env: Env)
    requires env.makeTempDir.Fail? || env.makeFinalDir.Fail? || env.createTemp.Fail?
    ensures EndsWithDeferredCloses(CreateArchive(job, env).steps)
  {
    var r := CreateArchive(job, env);
    var d1, d2 := MakeDir(job.tempDir), MakeDir(job.finalDir);
    if env.makeTempDir.Fail? {
      assert r.steps == [];
      Witness(r.steps, []);
    } else {
      Extend([], d1);
      assert [] + [d1] == [d1];
      if env.makeFinalDir.Fail? {
        assert r.steps == [d1] + Closes(Acquired([d1]));
        Witness(r.steps, [d1]);
      } else {
        Extend([d1], d2);
        assert [d1] + [d2] == [d1, d2];
        assert r.steps == [d1, d2] + Closes(Acquired([d1, d2]));
        Witness(r.steps, [d1, d2]);
      }
    }
  }

  lemma WriteClosesMirrorAcquisitions(job: Job, env: Env, walked: Result<seq<Entry>, WalkError>, done: seq<Step>)
    requires NoCloses(done) && Acquired(done) == [TempWriter]
    ensures EndsWithDeferredCloses(WriteArchive(job, env, walked, done).steps)
  {
    match walked
    case Err(e) =>
      ClosesTempWriter(WriteArchive(job, env, walked, done).steps, done);
    case Ok(entries) =>
      var written := done + [WriteEntries(|entries|)];
      Extend(done, WriteEntries(|entries|));
      if env.closeTar.Fail? {
        ClosesTempWriter(WriteArchive(job, env, walked, done).steps, written);
      } else if env.closeGzip.Fail? {
        Extend(written, CloseTar);
        ClosesTempWriter(WriteArchive(job, env, walked, done).steps, written + [CloseTar]);
      } else {
        Extend(written, CloseTar);
        Extend(written + [CloseTar], CloseGzip);
        assert written + [CloseTar] + [CloseGzip] == written + [CloseTar, CloseGzip];
        CopyClosesMirrorAcquisitions(job, env, written + [CloseTar, CloseGzip], Image(entries));
      }
  }

  /** A body that acquired only the temporary file, then its close. */
  lemma ClosesTempWriter(steps: seq<Step>, body: seq<Step>)
    requires NoCloses(body) && Acquired(body) == [TempWriter]
    requires steps == body + Closes([TempWriter])
    ensures EndsWithDeferredCloses(steps)
  {
    Witness(steps, body);
  }

  lemma CopyClosesMirrorAcquisitions(job: Job, env: Env, done: seq<Step>, image: Image)
    requires NoCloses(done) && Acquired(done) == [TempWriter]
    ensures EndsWithDeferredCloses(CopyArchive(job, env, done, image).steps)
  {
    var steps := CopyArchive(job, env, done, image).steps;
    var t, a := TempPath(job), ArtifactPath(job);
    var reading := done + [Open(TempReader, t)];
    var copying := reading + [Create(ArtifactWriter, a)];
    var body := copying + [Copy(t, a)];
    CopyAcquisitions(done, t, a);
    if env.openTemp.Fail? {
      ClosesTempWriter(steps, done);
    } else if env.createArtifact.Fail? {
      Witness(steps, reading);
    } else if env.copy.Fail? {
      Witness(steps, copying);
    } else {
      assert steps == body + Closes(Acquired(body));
      Witness(steps, body);
    }
  }

  /** The files held at each point of the copy: the temporary file, then its
      reader, then the artifact's writer; the copy itself acquires nothing. */
  lemma CopyAcquisitions(done: seq<Step>, t: string, a: string)
    requires NoCloses(done) && Acquired(done) == [TempWriter]
    ensures var reading := done + [Open(TempReader, t)];
            var copying := reading + [Create(ArtifactWriter, a)];
            var body := copying + [Copy(t, a)];
            && NoCloses(reading) && Acquired(reading) == [TempWriter, TempReader]
            && NoCloses(copying) && Acquired(copying) == [TempWriter, TempReader, ArtifactWriter]
            && NoCloses(body) && Acquired(body) == [TempWriter, TempReader, ArtifactWriter]
  {
    var reading := done + [Open(TempReader, t)];
    var copying := reading + [Create(ArtifactWriter, a)];
    Extend(done, Open(TempReader, t));
    Extend(reading, Create(ArtifactWriter, a));
    Extend(copying, Copy(t, a));
  }
}
