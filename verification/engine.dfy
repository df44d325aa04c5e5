/** Applying an update and rolling back, in terms of the parts. */
module Engine {
  import opened Wrappers
  import opened Numbers
  import opened Text
  import opened Canonical
  import opened Paths
  import opened Disk
  import opened RestoreGuarantees
  import opened Snapshot
  import opened SnapshotIdentity
  import opened Versions
  import Artifacts
  import Degraded
  import M = Manifest
  import Restore
  import Retry
  import Store
  import StoreRuns

  /** Keys, directories and limits of one installation. */
  datatype Setup = Setup(mac: Mac, key: bytes, env: Restore.Env, artifacts: Artifacts.Config, backupDir: string,
                         workDir: string, maxRetries: Retry.U32, base: Retry.U64)

  function VersionDir(backupDir: string, version: string): string {
    Join(backupDir, "v" + version)
  }

  // -------------------------------------------------------- applying an update

  /** From the accepted manifest on: first the snapshot, then the download. */
  function ApplyManifest(s: Setup, files: Files, m: M.Manifest, degraded: bool, createdAt: string, exe: Path,
                         faults: SnapshotFaults, w: Artifacts.World, logged: bool): Restore.Outcome
  {
    var taken := Take(s.mac, s.key, s.env, files, Components(VersionDir(s.backupDir, m.version)), m.version, createdAt,
                      [exe], faults);
    if taken.result.Err? then taken
    else if degraded then Restore.Outcome(taken.trace, Err(Error.Degraded))
    else Deployed(Artifacts.Deploy(s.artifacts, m, Last(files, taken.trace), w), logged).After(taken.trace)
  }

  /** The download, and the record of its success in the audit log. */
  function Deployed(o: Artifacts.Outcome, logged: bool): Restore.Outcome {
    Restore.Outcome(o.trace, if o.result.Err? then Err(o.result.error) else if logged then Ok(()) else Err(Internal))
  }

  /** The genuine content of the manifest's artifact for this platform. */
  ghost predicate IsArtifact(c: Artifacts.Config, m: M.Manifest, content: bytes) {
    var a := Artifacts.FindArtifact(m.artifacts, c.platform);
    a.Some? && Artifacts.Genuine(c.verifier, c.digests, a.value, content)
  }

  /** The deployment file holds the whole response, no longer than the cap, and that is the manifest's artifact. */
  ghost predicate Updated(s: Setup, m: M.Manifest, w: Artifacts.World, end: Files) {
    && Artifacts.FinalFile(s.artifacts) in end && Artifacts.TempFile(s.artifacts) !in end
    && w.response.Ok? && None !in w.response.value
    && end[Artifacts.FinalFile(s.artifacts)].content == Artifacts.Concat(w.response.value)
    && Artifacts.WithinCap(|Artifacts.Concat(w.response.value)|, s.artifacts.cap)
    && IsArtifact(s.artifacts, m, Artifacts.Concat(w.response.value))
  }

  /**
   * Applying a manifest succeeds if and only if the snapshot is taken, the downloader is not degraded, the artifact
   * can be delivered, and the success is logged; and then the artifact is deployed.
   */
  lemma AppliedExactly(s: Setup, files: Files, m: M.Manifest, degraded: bool, createdAt: string, exe: Path,
                       faults: SnapshotFaults, w: Artifacts.World, logged: bool)
    ensures var taken := Take(s.mac, s.key, s.env, files, Components(VersionDir(s.backupDir, m.version)), m.version,
                              createdAt, [exe], faults);
            var o := ApplyManifest(s, files, m, degraded, createdAt, exe, faults, w, logged);
            && (o.result.Ok? <==>
                  taken.result.Ok? && !degraded && logged && Artifacts.Delivers(s.artifacts, m, w))
            && (o.result.Ok? ==> Updated(s, m, w, Last(files, o.trace)))
  {
    var taken := Take(s.mac, s.key, s.env, files, Components(VersionDir(s.backupDir, m.version)), m.version, createdAt,
                      [exe], faults);
    var middle := Last(files, taken.trace);
    Artifacts.DeploysExactly(s.artifacts, m, middle, w);
    LastConcat(files, taken.trace, Artifacts.Deploy(s.artifacts, m, middle, w).trace);
  }

  /** A snapshot of one file that nothing interrupts is taken if and only if the file is there and has a name. */
  lemma TakesOneExactly(mac: Mac, key: bytes, env: Restore.Env, files: Files, dir: Path, version: string,
                        createdAt: string, exe: Path)
    ensures Take(mac, key, env, files, dir, version, createdAt, [exe], NO_FAULTS).result.Ok? <==>
            exe in files && FileNameOf(exe).Some?
  {
    var one := CopyOne(env, files, dir, exe, [], Completes);
    var copied := CopyFrom(env, files, dir, [exe], [], 0, []);
    CopyFromNext(env, files, dir, [exe], [], 0, []);
    assert one.entries.Ok? <==> exe in files && FileNameOf(exe).Some?;
    assert copied.entries.Ok? <==> one.entries.Ok?;
    if copied.entries.Ok? { ManifestConcludes(mac, key, env, files, dir, version, createdAt, copied, Completes); }
  }

  /** So an accepted manifest is applied, if nothing fails, exactly when there is an executable and its artifact. */
  lemma GenuineIsApplied(s: Setup, files: Files, m: M.Manifest, createdAt: string, exe: Path, w: Artifacts.World)
    ensures ApplyManifest(s, files, m, false, createdAt, exe, NO_FAULTS, w, true).result.Ok? <==>
            exe in files && FileNameOf(exe).Some? && Artifacts.Delivers(s.artifacts, m, w)
  {
    TakesOneExactly(s.mac, s.key, s.env, files, Components(VersionDir(s.backupDir, m.version)), m.version, createdAt,
                    exe);
    AppliedExactly(s, files, m, false, createdAt, exe, NO_FAULTS, w, true);
  }

  /** The directory of a version is the one that a listing of the backups shows for it. */
  lemma VersionDirNamed(backupDir: string, version: string)
    requires IsCanonical(backupDir) && IsFileName("v" + version)
    ensures Components(VersionDir(backupDir, version)) == Components(backupDir) + [Normal("v" + version)]
  {
    JoinName(backupDir, "v" + version);
  }

  /**
   * From the release to the disk: if the manifest was accepted from a response, a successful update has deployed bytes
   * with both hashes and the signature of an artifact that is named in a text which verified as a release.
   */
  lemma DeployedIsReleased(s: Setup, files: Files, now: int, body: bytes, degraded: bool, createdAt: string, exe: Path,
                           faults: SnapshotFaults, w: Artifacts.World, logged: bool)
    requires M.Accept(s.artifacts.verifier, now, body).Ok?
    ensures var m := M.Accept(s.artifacts.verifier, now, body).value;
            var o := ApplyManifest(s, files, m, degraded, createdAt, exe, faults, w, logged);
            o.result.Ok? ==>
              && Updated(s, m, w, Last(files, o.trace))
              && M.SignedTextOf(body).Some?
              && M.Signed(s.artifacts.verifier, Encode(M.SignedTextOf(body).value), m.manifestSig)
              && M.ManifestInText(M.SignedTextOf(body).value, m.manifestSig) == Some(m)
  {
    var m := M.Accept(s.artifacts.verifier, now, body).value;
    M.UsedIsSigned(s.artifacts.verifier, now, body);
    AppliedExactly(s, files, m, degraded, createdAt, exe, faults, w, logged);
  }

  /**
   * `synqro_apply_update`, with every state it passes through. The downloader is new in every call, so nothing is
   * remembered from earlier ones; a fetch that succeeds only after five failures has degraded it by the time of the
   * download.
   */
  method ApplyUpdate(drive: Drive, s: Setup, answers: seq<Retry.Fetched<M.Manifest>>, jitters: seq<nat>,
                     createdAt: string, exe: Path, faults: SnapshotFaults, w: Artifacts.World, logged: bool)
    returns (r: Result<()>)
    requires drive.Valid() && drive.defaultMode == s.env.defaultMode == s.artifacts.defaultMode
    requires |answers| == s.maxRetries + 1 && |jitters| == s.maxRetries && Retry.DrawnWithin(jitters, s.base)
    modifies drive
    ensures drive.Valid() && 1 <= Retry.Attempts(answers) <= |answers|
    ensures var last := answers[Retry.Attempts(answers) - 1];
            last.Failed? ==>
              r == Err(last.failing.error) && drive.files == old(drive.files) && drive.history == old(drive.history)
    ensures var n := Retry.Attempts(answers);
            answers[n - 1].Got? ==>
              var m := answers[n - 1].manifest;
              var o := ApplyManifest(s, old(drive.files), m, n >= 6, createdAt, exe, faults, w, logged);
              && r == o.result
              && drive.history == old(drive.history) + o.trace
              && drive.files == Last(old(drive.files), o.trace)
    ensures var n := Retry.Attempts(answers);
            r.Ok? ==> answers[n - 1].Got? && n < 6 && Updated(s, answers[n - 1].manifest, w, drive.files)
  {
    var breaker, fetched := FetchAfresh(s, answers, jitters);
    if fetched.Failed? {
      return Err(fetched.failing.error);
    }
    ghost var degraded := Retry.Attempts(answers) >= 6;
    AppliedExactly(s, drive.files, fetched.manifest, degraded, createdAt, exe, faults, w, logged);
    r := ApplyAccepted(drive, breaker, s, fetched.manifest, degraded, createdAt, exe, faults, w, logged);
  }

  /** A fetch with a new downloader, degraded afterwards exactly if it failed five times before it succeeded. */
  method FetchAfresh(s: Setup, answers: seq<Retry.Fetched<M.Manifest>>, jitters: seq<nat>)
    returns (breaker: Degraded.Breaker, fetched: Retry.Fetched<M.Manifest>)
    requires |answers| == s.maxRetries + 1 && |jitters| == s.maxRetries && Retry.DrawnWithin(jitters, s.base)
    ensures fresh(breaker) && breaker.Valid()
    ensures 1 <= Retry.Attempts(answers) <= |answers| && fetched == answers[Retry.Attempts(answers) - 1]
    ensures fetched.Got? ==> (breaker.degradedMode <==> Retry.Attempts(answers) >= 6)
  {
    breaker := new Degraded.Breaker();
    ghost var ops := Retry.OpsOf(answers);
    var slept;
    fetched, slept := Retry.FetchManifest(breaker, s.maxRetries, s.base, answers, jitters);
    assert breaker.history == ops;
    if fetched.Got? { FailuresBeforeSuccess(answers, Retry.Attempts(answers)); }
  }

  method ApplyAccepted(drive: Drive, breaker: Degraded.Breaker, s: Setup, m: M.Manifest, ghost degraded: bool,
                       createdAt: string, exe: Path, faults: SnapshotFaults, w: Artifacts.World, logged: bool)
    returns (r: Result<()>)
    requires breaker.Valid() && degraded == breaker.degradedMode
    requires drive.Valid() && drive.defaultMode == s.env.defaultMode == s.artifacts.defaultMode
    modifies drive, breaker
    ensures drive.Valid()
    ensures var o := ApplyManifest(s, old(drive.files), m, degraded, createdAt, exe, faults, w, logged);
            && r == o.result
            && drive.history == old(drive.history) + o.trace
            && drive.files == Last(old(drive.files), o.trace)
  {
    ghost var start, base := drive.files, drive.history;
    ghost var taken := Take(s.mac, s.key, s.env, start, Components(VersionDir(s.backupDir, m.version)), m.version,
                            createdAt, [exe], faults);
    r := TakeSnapshot(drive, s.mac, s.key, s.env, Components(VersionDir(s.backupDir, m.version)), m.version, createdAt,
                      [exe], faults);
    if r.Err? {
      return;
    }
    ghost var middle := drive.files;
    var path := Artifacts.DownloadArtifact(drive, breaker, s.artifacts, m, w);
    if !degraded {
      Glue(start, drive.files, base, drive.history, taken.trace, Artifacts.Deploy(s.artifacts, m, middle, w).trace);
    }
    if path.Err? {
      return Err(path.error);
    }
    return if logged then Ok(()) else Err(Internal);
  }

  /** The flag is up after a success exactly when it was preceded by five failures. */
  lemma FailuresBeforeSuccess<T>(answers: seq<Retry.Fetched<T>>, n: nat)
    requires 0 < n <= |answers| && Retry.Answered(answers, answers[n - 1]) && n == Retry.Attempts(answers)
    requires answers[n - 1].Got?
    ensures Retry.OpsOf(answers) == Retry.Failures(n - 1) + [Degraded.Success]
    ensures Degraded.FiveInARow(Retry.OpsOf(answers)) <==> n >= 6
  {
    Retry.OpsExact(answers, n);
    Degraded.AddSuccess(Retry.Failures(n - 1));
    var h := Retry.Failures(n - 1);
    if n >= 6 { assert Degraded.FailuresFrom(h, 0, 5); }
  }

  // ------------------------------------------------------------ rolling back

  /** The end of a rollback: counter and blacklist. */
  function Ending(store: StoreRuns.Config, files: Files, version: string, stamps: Stamps, after: StoreRuns.Faults)
    : Store.Outcome
  {
    StoreRuns.Finish(store, Recorded(files, version, stamps, after))
  }

  datatype Stamps = Stamps(counter: string, blacklist: string)

  function Recorded(files: Files, version: string, stamps: Stamps, after: StoreRuns.Faults): StoreRuns.Attempt {
    StoreRuns.Attempt(files, version, stamps.counter, stamps.blacklist, after, 0)
  }

  /** `rollback`: the files first, then the counter and the blacklist. */
  function Rollback(s: Setup, store: StoreRuns.Config, files: Files, version: string, faults: seq<Restore.Fault>,
                    stamps: Stamps, after: StoreRuns.Faults): Restore.Outcome
  {
    var o := RunRollback(s.mac, s.key, s.env, files, VersionDir(s.backupDir, version), s.workDir, faults);
    if o.result.Err? then o
    else
      var end := Ending(store, Last(files, o.trace), version, stamps, after);
      Restore.Outcome(o.trace + end.trace, end.result)
  }

  method RollbackVersion(drive: Drive, s: Setup, store: StoreRuns.Config, version: string, faults: seq<Restore.Fault>,
                         stamps: Stamps, after: StoreRuns.Faults) returns (r: Result<()>)
    requires drive.Valid() && drive.defaultMode == s.env.defaultMode == store.defaultMode
    modifies drive
    ensures drive.Valid()
    ensures var o := Rollback(s, store, old(drive.files), version, faults, stamps, after);
            && r == o.result
            && drive.history == old(drive.history) + o.trace
            && drive.files == Last(old(drive.files), o.trace)
  {
    ghost var start, base := drive.files, drive.history;
    ghost var o := RunRollback(s.mac, s.key, s.env, start, VersionDir(s.backupDir, version), s.workDir, faults);
    r := RollbackFiles(drive, s.mac, s.key, s.env, VersionDir(s.backupDir, version), s.workDir, faults);
    if r.Err? {
      return;
    }
    ghost var middle := drive.files;
    r := StoreRuns.FinishRollback(drive, store, version, stamps.counter, stamps.blacklist, after);
    Glue(start, drive.files, base, drive.history, o.trace, Ending(store, middle, version, stamps, after).trace);
  }

  /** `synqro_rollback`: to the greatest backup of the listing. */
  method RollbackLatest(drive: Drive, s: Setup, store: StoreRuns.Config, triggerLogged: bool, listing: seq<DirEntry>,
                        faults: seq<Restore.Fault>, stamps: Stamps, after: StoreRuns.Faults) returns (r: Result<()>)
    requires drive.Valid() && drive.defaultMode == s.env.defaultMode == store.defaultMode
    modifies drive
    ensures drive.Valid()
    ensures !triggerLogged || MostRecent(listing).Err? ==>
              && drive.files == old(drive.files) && drive.history == old(drive.history)
              && r == Err(if triggerLogged then Error.Rollback else Internal)
    ensures triggerLogged && MostRecent(listing).Ok? ==>
              var o := Rollback(s, store, old(drive.files), MostRecent(listing).value, faults, stamps, after);
              && r == o.result
              && drive.history == old(drive.history) + o.trace
              && drive.files == Last(old(drive.files), o.trace)
  {
    if !triggerLogged {
      return Err(Internal);
    }
    var version := MostRecent(listing);
    if version.Err? {
      return Err(Error.Rollback);
    }
    r := RollbackVersion(drive, s, store, version.value, faults, stamps, after);
  }

  // ---------------------------------------------------- crashes of an update

  lemma DeployKeeps(c: Artifacts.Config, m: M.Manifest, files: Files, w: Artifacts.World, p: Path)
    requires p != Artifacts.TempFile(c) && p != Artifacts.FinalFile(c)
    ensures Untouched(files, Artifacts.Deploy(c, m, files, w).trace, p)
  {
    forall k | 0 <= k < |Artifacts.Deploy(c, m, files, w).trace|
      ensures SameAt(Artifacts.Deploy(c, m, files, w).trace[k], files, p)
    {
      Artifacts.DeploymentUntouched(c, m, files, w, k, p);
    }
  }

  lemma UntouchedLast(start: Files, t: Trace, p: Path)
    requires Untouched(start, t, p)
    ensures SameAt(Last(start, t), start, p)
  {}

  lemma NotStaged(c: Artifacts.Config, dir: Path, name: string)
    requires dir != c.stagingDir
    ensures InDir(dir, name) != Artifacts.TempFile(c) && InDir(dir, name) != Artifacts.FinalFile(c)
  {
    assert InDir(dir, name)[..|dir|] == dir;
    assert Artifacts.TempFile(c)[..|c.stagingDir|] == c.stagingDir;
    assert Artifacts.FinalFile(c)[..|c.stagingDir|] == c.stagingDir;
  }

  lemma PutPlainKeeps(files: Files, q: Path, content: bytes, mode: Mode, fault: PlainFault, p: Path)
    requires p != q
    ensures Untouched(files, PutPlain(files, q, content, mode, fault).trace, p)
  {}

  lemma CopyOneKeeps(env: Restore.Env, files: Files, v: Path, target: Path, entries: seq<Restore.FileEntry>,
                     fault: PlainFault, p: Path)
    requires forall n :: p != InDir(v, n)
    ensures Untouched(files, CopyOne(env, files, v, target, entries, fault).trace, p)
  {
    if target in files && FileNameOf(target).Some? && !fault.CannotRead? {
      PutPlainKeeps(files, InDir(v, FileNameOf(target).value), files[target].content, env.defaultMode, fault, p);
    }
  }

  lemma {:induction false} CopyKeeps(env: Restore.Env, files: Files, v: Path, targets: seq<Path>,
                                     faults: seq<PlainFault>, i: nat, entries: seq<Restore.FileEntry>, p: Path)
    requires i <= |targets| && forall n :: p != InDir(v, n)
    ensures Untouched(files, CopyFrom(env, files, v, targets, faults, i, entries).trace, p)
    decreases |targets| - i
  {
    if i < |targets| {
      var one := CopyOne(env, files, v, targets[i], entries, PlainFaultAt(faults, i));
      CopyOneKeeps(env, files, v, targets[i], entries, PlainFaultAt(faults, i), p);
      CopyFromNext(env, files, v, targets, faults, i, entries);
      if one.entries.Ok? {
        var next := Last(files, one.trace);
        CopyKeeps(env, next, v, targets, faults, i + 1, one.entries.value, p);
        UntouchedConcat(files, one.trace, CopyFrom(env, next, v, targets, faults, i + 1, one.entries.value).trace, p);
      }
    }
  }

  lemma ConcludeKeeps(mac: Mac, key: bytes, env: Restore.Env, files: Files, v: Path, version: string, createdAt: string,
                      copied: Copied, fault: PlainFault, p: Path)
    requires Untouched(files, copied.trace, p) && forall n :: p != InDir(v, n)
    ensures Untouched(files, Conclude(mac, key, env, files, v, version, createdAt, copied, fault).trace, p)
  {
    if copied.entries.Ok? {
      var content := ManifestBytes(SignedManifest(mac, key, version, createdAt, copied.entries.value));
      var middle := Last(files, copied.trace);
      PutPlainKeeps(middle, InDir(v, SNAPSHOT_NAME), content, env.defaultMode, fault, p);
      UntouchedLast(files, copied.trace, p);
      UntouchedOn(files, middle, PutPlain(middle, InDir(v, SNAPSHOT_NAME), content, env.defaultMode, fault).trace, p);
      UntouchedConcat(files, copied.trace,
                      PutPlain(middle, InDir(v, SNAPSHOT_NAME), content, env.defaultMode, fault).trace, p);
    }
  }

  lemma UntouchedOn(start: Files, middle: Files, t: Trace, p: Path)
    requires SameAt(middle, start, p) && Untouched(middle, t, p)
    ensures Untouched(start, t, p)
  {}

  lemma TakeKeeps(mac: Mac, key: bytes, env: Restore.Env, files: Files, v: Path, version: string, createdAt: string,
                  targets: seq<Path>, faults: SnapshotFaults, dir: Path, name: string)
    requires dir != v
    ensures Untouched(files, Take(mac, key, env, files, v, version, createdAt, targets, faults).trace, InDir(dir, name))
  {
    forall n ensures InDir(dir, name) != InDir(v, n) {
      if InDir(dir, name) == InDir(v, n) { InDirInjective(dir, name, v, n); }
    }
    var copied := CopyFrom(env, files, v, targets, faults.copies, 0, []);
    CopyKeeps(env, files, v, targets, faults.copies, 0, [], InDir(dir, name));
    ConcludeKeeps(mac, key, env, files, v, version, createdAt, copied, faults.manifest, InDir(dir, name));
  }

  /** At every point of an update, successful or not, only files in the version and staging directories have changed. */
  lemma ApplyKeeps(s: Setup, files: Files, m: M.Manifest, degraded: bool, createdAt: string, exe: Path,
                   faults: SnapshotFaults, w: Artifacts.World, logged: bool, dir: Path, name: string)
    requires dir != Components(VersionDir(s.backupDir, m.version)) && dir != s.artifacts.stagingDir
    ensures var o := ApplyManifest(s, files, m, degraded, createdAt, exe, faults, w, logged);
            Untouched(files, o.trace, InDir(dir, name))
  {
    var v := Components(VersionDir(s.backupDir, m.version));
    var taken := Take(s.mac, s.key, s.env, files, v, m.version, createdAt, [exe], faults);
    TakeKeeps(s.mac, s.key, s.env, files, v, m.version, createdAt, [exe], faults, dir, name);
    NotStaged(s.artifacts, dir, name);
    DeployKeeps(s.artifacts, m, Last(files, taken.trace), w, InDir(dir, name));
    UntouchedConcat(files, taken.trace, Artifacts.Deploy(s.artifacts, m, Last(files, taken.trace), w).trace,
                    InDir(dir, name));
  }

  /** What an update may have done to the files in a state: only the last one can have a new deployment. */
  ghost predicate UpdateState(s: Setup, files: Files, m: M.Manifest, h: Files, last: bool) {
    var final, temp := Artifacts.FinalFile(s.artifacts), Artifacts.TempFile(s.artifacts);
    && (!SameAt(h, files, final) ==> last && final in h && IsArtifact(s.artifacts, m, h[final].content))
    && (!SameAt(h, files, final) || !SameAt(h, files, temp) ==>
          LoadManifest(s.mac, s.key, h, Components(VersionDir(s.backupDir, m.version))).Ok?)
  }

  lemma StagedIsInStaging(c: Artifacts.Config) returns (temp: string, final: string)
    ensures Artifacts.TempFile(c) == InDir(c.stagingDir, temp) && Artifacts.FinalFile(c) == InDir(c.stagingDir, final)
  {
    temp, final := "synqro_staging_" + c.platform + ".tmp", "synqro_" + c.platform + ".bin";
  }

  /** While the snapshot is taken, nothing is staged or deployed. */
  lemma NothingStagedYet(s: Setup, files: Files, m: M.Manifest, createdAt: string, exe: Path, faults: SnapshotFaults)
    requires Components(VersionDir(s.backupDir, m.version)) != s.artifacts.stagingDir
    ensures var v := Components(VersionDir(s.backupDir, m.version));
            var t := Take(s.mac, s.key, s.env, files, v, m.version, createdAt, [exe], faults).trace;
            && Untouched(files, t, Artifacts.TempFile(s.artifacts))
            && Untouched(files, t, Artifacts.FinalFile(s.artifacts))
  {
    var v := Components(VersionDir(s.backupDir, m.version));
    var temp, final := StagedIsInStaging(s.artifacts);
    TakeKeeps(s.mac, s.key, s.env, files, v, m.version, createdAt, [exe], faults, s.artifacts.stagingDir, temp);
    TakeKeeps(s.mac, s.key, s.env, files, v, m.version, createdAt, [exe], faults, s.artifacts.stagingDir, final);
  }

  /** While the artifact is downloaded, the snapshot can be rolled back to. */
  lemma DownloadState(s: Setup, files: Files, middle: Files, m: M.Manifest, w: Artifacts.World, k: nat)
    requires Components(VersionDir(s.backupDir, m.version)) != s.artifacts.stagingDir
    requires LoadManifest(s.mac, s.key, middle, Components(VersionDir(s.backupDir, m.version))).Ok?
    requires SameAt(middle, files, Artifacts.FinalFile(s.artifacts))
    requires SameAt(middle, files, Artifacts.TempFile(s.artifacts))
    requires k < |Artifacts.Deploy(s.artifacts, m, middle, w).trace|
    ensures var t := Artifacts.Deploy(s.artifacts, m, middle, w).trace;
            UpdateState(s, files, m, t[k], k == |t| - 1)
  {
    var v, o := Components(VersionDir(s.backupDir, m.version)), Artifacts.Deploy(s.artifacts, m, middle, w);
    NotStaged(s.artifacts, v, SNAPSHOT_NAME);
    DeployKeeps(s.artifacts, m, middle, w, InDir(v, SNAPSHOT_NAME));
    SameManifest(s.mac, s.key, o.trace[k], middle, v);
    Artifacts.StagingIsNotFinal(s.artifacts);
    Artifacts.DeploymentUntouched(s.artifacts, m, middle, w, k, Artifacts.FinalFile(s.artifacts));
    if o.result.Ok? {
      var a := Artifacts.SuccessDeploysGenuine(s.artifacts, m, middle, w);
    }
  }

  lemma TakenLoads(s: Setup, files: Files, m: M.Manifest, createdAt: string, exe: Path, faults: SnapshotFaults)
    requires var v := Components(VersionDir(s.backupDir, m.version));
             Take(s.mac, s.key, s.env, files, v, m.version, createdAt, [exe], faults).result.Ok?
    ensures var v := Components(VersionDir(s.backupDir, m.version));
            var t := Take(s.mac, s.key, s.env, files, v, m.version, createdAt, [exe], faults).trace;
            LoadManifest(s.mac, s.key, Last(files, t), v).Ok?
  {
    var v := Components(VersionDir(s.backupDir, m.version));
    ManifestConcludes(s.mac, s.key, s.env, files, v, m.version, createdAt,
                      CopyFrom(s.env, files, v, [exe], faults.copies, 0, []), faults.manifest);
  }

  /**
   * An update that dies anywhere has deployed nothing but a complete and genuine artifact, and it has not even begun
   * to stage one before the snapshot of the old version can be rolled back to.
   */
  lemma UpdateCrash(s: Setup, files: Files, m: M.Manifest, degraded: bool, createdAt: string, exe: Path,
                    faults: SnapshotFaults, w: Artifacts.World, logged: bool, k: nat)
    requires Components(VersionDir(s.backupDir, m.version)) != s.artifacts.stagingDir
    requires k < |ApplyManifest(s, files, m, degraded, createdAt, exe, faults, w, logged).trace|
    ensures var t := ApplyManifest(s, files, m, degraded, createdAt, exe, faults, w, logged).trace;
            UpdateState(s, files, m, t[k], k == |t| - 1)
  {
    var v := Components(VersionDir(s.backupDir, m.version));
    var taken := Take(s.mac, s.key, s.env, files, v, m.version, createdAt, [exe], faults);
    NothingStagedYet(s, files, m, createdAt, exe, faults);
    if k >= |taken.trace| {
      UntouchedLast(files, taken.trace, Artifacts.FinalFile(s.artifacts));
      UntouchedLast(files, taken.trace, Artifacts.TempFile(s.artifacts));
      TakenLoads(s, files, m, createdAt, exe, faults);
      DownloadState(s, files, Last(files, taken.trace), m, w, k - |taken.trace|);
    }
  }

  // --------------------------------------------------- crashes of a rollback

  /** No step writes into the directory of the counter and the blacklist. */
  predicate SparesStore(plans: seq<Result<Restore.Step>>, dir: Path) {
    forall j | 0 <= j < |plans| && plans[j].Ok? ::
      !StoreRuns.DirectlyIn(plans[j].value.dest, dir) && !StoreRuns.DirectlyIn(plans[j].value.temp, dir)
  }

  lemma StoreSpared(env: Restore.Env, store: StoreRuns.Config, files: Files, h: Files, plans: seq<Result<Restore.Step>>,
                    faults: seq<Restore.Fault>, k: nat)
    requires k <= |plans| && PrefixRestored(env, files, h, plans, faults, 0, k) && SparesStore(plans, store.dir)
    ensures StoreRuns.SameStore(store, h, files)
  {
    var counters, list := StoreRuns.CountersPath(store.dir), StoreRuns.BlacklistPath(store.dir);
    assert counters[..|counters| - 1] == store.dir && list[..|list| - 1] == store.dir;
    assert !IsTemp(plans, counters) && !IsDest(plans, counters, 0, k);
    assert !IsTemp(plans, list) && !IsDest(plans, list, 0, k);
  }

  /** Besides destinations, temporary files and the directory of the store nothing has changed. */
  ghost predicate OthersKept(plans: seq<Result<Restore.Step>>, dir: Path, files: Files, h: Files) {
    forall p | !IsTemp(plans, p) && !IsDest(plans, p, 0, |plans|) && !StoreRuns.DirectlyIn(p, dir) ::
      SameAt(h, files, p)
  }

  /** What has been restored stays restored while the store is written. */
  lemma RestoredStays(env: Restore.Env, store: StoreRuns.Config, files: Files, middle: Files, h: Files,
                      plans: seq<Result<Restore.Step>>, faults: seq<Restore.Fault>)
    requires PrefixRestored(env, files, middle, plans, faults, 0, |plans|)
    requires forall p | !StoreRuns.DirectlyIn(p, store.dir) :: SameAt(h, middle, p)
    requires SparesStore(plans, store.dir)
    ensures forall j | 0 <= j < |plans| :: StepRestored(env, files, h, plans, faults, 0, j)
    ensures OthersKept(plans, store.dir, files, h)
  {
    forall j | 0 <= j < |plans| ensures StepRestored(env, files, h, plans, faults, 0, j) {
      assert StepRestored(env, files, middle, plans, faults, 0, j);
      assert SameAt(h, middle, plans[j].value.dest);
    }
  }

  /** A state of a rollback: a restored prefix and the old store, or everything restored and a store old or new. */
  ghost predicate RollbackState(s: Setup, store: StoreRuns.Config, files: Files, version: string,
                                plans: seq<Result<Restore.Step>>, faults: seq<Restore.Fault>, h: Files, k: nat)
    requires k <= |plans|
  {
    || (PrefixRestored(s.env, files, h, plans, faults, 0, k) && StoreRuns.SameStore(store, h, files))
    || (&& k == |plans| && (forall j | 0 <= j < |plans| :: StepRestored(s.env, files, h, plans, faults, 0, j))
        && OthersKept(plans, store.dir, files, h) && StoreRuns.OldOrNew(store, files, h, version))
  }

  lemma EndingState(s: Setup, store: StoreRuns.Config, files: Files, middle: Files, version: string, stamps: Stamps,
                    after: StoreRuns.Faults, plans: seq<Result<Restore.Step>>, faults: seq<Restore.Fault>,
                    c: nat)
    requires StoreRuns.Good(store, files) && SparesStore(plans, store.dir)
    requires PrefixRestored(s.env, files, middle, plans, faults, 0, |plans|)
    requires c < |Ending(store, middle, version, stamps, after).trace|
    ensures var h := Ending(store, middle, version, stamps, after).trace[c];
            RollbackState(s, store, files, version, plans, faults, h, |plans|)
  {
    var a := Recorded(middle, version, stamps, after);
    var h := Ending(store, middle, version, stamps, after).trace[c];
    StoreSpared(s.env, store, files, middle, plans, faults, |plans|);
    StoreRuns.SameStoreGood(store, middle, files);
    StoreRuns.FinishStates(store, a, c);
    StoreRuns.OldOrNewSince(store, files, middle, h, version);
    forall p | !StoreRuns.DirectlyIn(p, store.dir) ensures SameAt(h, middle, p) { StoreRuns.FinishKeeps(store, a, p); }
    RestoredStays(s.env, store, files, middle, h, plans, faults);
  }

  /** What a rollback does once its manifest is accepted: the restore, and if that succeeds the store. */
  function RestoreAndEnd(s: Setup, store: StoreRuns.Config, files: Files, version: string,
                         plans: seq<Result<Restore.Step>>, faults: seq<Restore.Fault>, stamps: Stamps,
                         after: StoreRuns.Faults): Trace
  {
    var o := Restore.RunFrom(s.env, files, plans, faults, 0);
    o.trace + (if o.result.Err? then [] else Ending(store, Last(files, o.trace), version, stamps, after).trace)
  }

  lemma RollbackTrace(s: Setup, store: StoreRuns.Config, files: Files, version: string, faults: seq<Restore.Fault>,
                      stamps: Stamps, after: StoreRuns.Faults)
    requires LoadManifest(s.mac, s.key, files, Components(VersionDir(s.backupDir, version))).Ok?
    ensures var v := VersionDir(s.backupDir, version);
            var plans := Restore.Plan(v, s.workDir, LoadManifest(s.mac, s.key, files, Components(v)).value.files);
            Rollback(s, store, files, version, faults, stamps, after).trace ==
            RestoreAndEnd(s, store, files, version, plans, faults, stamps, after)
  {}

  ghost predicate AllStates(s: Setup, store: StoreRuns.Config, files: Files, version: string,
                            plans: seq<Result<Restore.Step>>, faults: seq<Restore.Fault>, t: Trace)
  {
    forall c | 0 <= c < |t| :: SomeState(s, store, files, version, plans, faults, t[c])
  }

  ghost predicate SomeState(s: Setup, store: StoreRuns.Config, files: Files, version: string,
                            plans: seq<Result<Restore.Step>>, faults: seq<Restore.Fault>, h: Files)
  {
    exists k: nat :: k <= |plans| && RollbackState(s, store, files, version, plans, faults, h, k)
  }

  lemma AllConcat(s: Setup, store: StoreRuns.Config, files: Files, version: string, plans: seq<Result<Restore.Step>>,
                  faults: seq<Restore.Fault>, x: Trace, y: Trace)
    requires AllStates(s, store, files, version, plans, faults, x)
    requires AllStates(s, store, files, version, plans, faults, y)
    ensures AllStates(s, store, files, version, plans, faults, x + y)
  {}

  lemma RestoreStates(s: Setup, store: StoreRuns.Config, files: Files, version: string,
                      plans: seq<Result<Restore.Step>>, faults: seq<Restore.Fault>)
    requires Separate(plans) && SparesStore(plans, store.dir)
    ensures AllStates(s, store, files, version, plans, faults, Restore.RunFrom(s.env, files, plans, faults, 0).trace)
  {
    var t := Restore.RunFrom(s.env, files, plans, faults, 0).trace;
    forall c | 0 <= c < |t| ensures SomeState(s, store, files, version, plans, faults, t[c]) {
      var k := CrashLeavesPrefix(s.env, files, plans, faults, 0, c);
      StoreSpared(s.env, store, files, t[c], plans, faults, k);
      assert RollbackState(s, store, files, version, plans, faults, t[c], k);
    }
  }

  lemma EndingStates(s: Setup, store: StoreRuns.Config, files: Files, middle: Files, version: string, stamps: Stamps,
                     after: StoreRuns.Faults, plans: seq<Result<Restore.Step>>, faults: seq<Restore.Fault>)
    requires StoreRuns.Good(store, files) && SparesStore(plans, store.dir)
    requires PrefixRestored(s.env, files, middle, plans, faults, 0, |plans|)
    ensures AllStates(s, store, files, version, plans, faults, Ending(store, middle, version, stamps, after).trace)
  {
    var t := Ending(store, middle, version, stamps, after).trace;
    forall c | 0 <= c < |t| ensures SomeState(s, store, files, version, plans, faults, t[c]) {
      EndingState(s, store, files, middle, version, stamps, after, plans, faults, c);
    }
  }

  lemma RestoreAndEndStates(s: Setup, store: StoreRuns.Config, files: Files, version: string,
                            plans: seq<Result<Restore.Step>>, faults: seq<Restore.Fault>, stamps: Stamps,
                            after: StoreRuns.Faults)
    requires Separate(plans) && SparesStore(plans, store.dir) && StoreRuns.Good(store, files)
    ensures AllStates(s, store, files, version, plans, faults,
                      RestoreAndEnd(s, store, files, version, plans, faults, stamps, after))
  {
    var o := Restore.RunFrom(s.env, files, plans, faults, 0);
    RestoreStates(s, store, files, version, plans, faults);
    if o.result.Ok? {
      var middle := Last(files, o.trace);
      ReturnLeavesPrefix(s.env, files, plans, faults, 0);
      EndingStates(s, store, files, middle, version, stamps, after, plans, faults);
      AllConcat(s, store, files, version, plans, faults, o.trace, Ending(store, middle, version, stamps, after).trace);
    }
  }

  /**
   * A rollback that dies anywhere leaves a prefix of the manifest restored and counter and blacklist as they were, or
   * everything restored and each of the two files old or new.
   */
  lemma RollbackCrash(s: Setup, store: StoreRuns.Config, files: Files, version: string, faults: seq<Restore.Fault>,
                      stamps: Stamps, after: StoreRuns.Faults, c: nat) returns (k: nat)
    requires var v := VersionDir(s.backupDir, version);
             && LoadManifest(s.mac, s.key, files, Components(v)).Ok?
             && var plans := Restore.Plan(v, s.workDir, LoadManifest(s.mac, s.key, files, Components(v)).value.files);
             Separate(plans) && SparesStore(plans, store.dir)
    requires StoreRuns.Good(store, files)
    requires c < |Rollback(s, store, files, version, faults, stamps, after).trace|
    ensures var v := VersionDir(s.backupDir, version);
            var plans := Restore.Plan(v, s.workDir, LoadManifest(s.mac, s.key, files, Components(v)).value.files);
            && k <= |plans|
            && RollbackState(s, store, files, version, plans, faults,
                             Rollback(s, store, files, version, faults, stamps, after).trace[c], k)
  {
    var v := VersionDir(s.backupDir, version);
    var plans := Restore.Plan(v, s.workDir, LoadManifest(s.mac, s.key, files, Components(v)).value.files);
    RollbackTrace(s, store, files, version, faults, stamps, after);
    RestoreAndEndStates(s, store, files, version, plans, faults, stamps, after);
    var h := RestoreAndEnd(s, store, files, version, plans, faults, stamps, after)[c];
    assert SomeState(s, store, files, version, plans, faults, h);
    k :| k <= |plans| && RollbackState(s, store, files, version, plans, faults, h, k);
  }

  /** All files are restored, one more rollback of the version is on record, and from the third one on it is listed. */
  ghost predicate RolledBack(s: Setup, store: StoreRuns.Config, files: Files, version: string,
                             plans: seq<Result<Restore.Step>>, faults: seq<Restore.Fault>, end: Files)
  {
    var n := Min(StoreRuns.StoredCount(store, files, version) + 1, U32_MAX);
    && (forall j | 0 <= j < |plans| :: StepRestored(s.env, files, end, plans, faults, 0, j))
    && OthersKept(plans, store.dir, files, end)
    && (forall w :: StoreRuns.StoredCount(store, end, w) ==
          if w == version then n else StoreRuns.StoredCount(store, files, w))
    && StoreRuns.Banned(store, end) ==
       if n >= 3 then Store.WithVersion(StoreRuns.Banned(store, files), version) else StoreRuns.Banned(store, files)
  }

  /** What is left of a rollback after the files are restored. */
  lemma EndingDone(s: Setup, store: StoreRuns.Config, files: Files, middle: Files, version: string, stamps: Stamps,
                   after: StoreRuns.Faults, plans: seq<Result<Restore.Step>>, faults: seq<Restore.Fault>)
    requires StoreRuns.Good(store, files) && SparesStore(plans, store.dir)
    requires PrefixRestored(s.env, files, middle, plans, faults, 0, |plans|)
    ensures var e := Ending(store, middle, version, stamps, after);
            && (e.result.Ok? <==>
                  && after.successLogged && after.counter.NoFault?
                  && (StoreRuns.StoredCount(store, files, version) < 2 ||
                      (after.blacklist.NoFault? && after.blacklistLogged)))
            && (e.result.Ok? ==> RolledBack(s, store, files, version, plans, faults, Last(middle, e.trace)))
  {
    var a := Recorded(middle, version, stamps, after);
    var e := Ending(store, middle, version, stamps, after);
    StoreSpared(s.env, store, files, middle, plans, faults, |plans|);
    StoreRuns.SameStoreGood(store, middle, files);
    StoreRuns.SameStoreReads(store, middle, files);
    StoreRuns.FinishExactly(store, a);
    if e.result.Ok? {
      StoreRuns.FinishDone(store, a);
      forall p | !StoreRuns.DirectlyIn(p, store.dir) ensures SameAt(Last(middle, e.trace), middle, p) {
        StoreRuns.FinishKeeps(store, a, p);
      }
      RestoredStays(s.env, store, files, middle, Last(middle, e.trace), plans, faults);
    }
  }

  /**
   * A rollback to a manifest that loads returns Ok if and only if its restore does, the success is logged, the counter
   * is replaced, and, from the third rollback of the version on, the blacklist too; and then all of that is done.
   */
  lemma RollbackExactly(s: Setup, store: StoreRuns.Config, files: Files, version: string, faults: seq<Restore.Fault>,
                        stamps: Stamps, after: StoreRuns.Faults)
    requires var v := VersionDir(s.backupDir, version);
             && LoadManifest(s.mac, s.key, files, Components(v)).Ok?
             && var plans := Restore.Plan(v, s.workDir, LoadManifest(s.mac, s.key, files, Components(v)).value.files);
             Separate(plans) && SparesStore(plans, store.dir)
    requires StoreRuns.Good(store, files)
    ensures var v := VersionDir(s.backupDir, version);
            var plans := Restore.Plan(v, s.workDir, LoadManifest(s.mac, s.key, files, Components(v)).value.files);
            var o := Rollback(s, store, files, version, faults, stamps, after);
            && (o.result.Ok? <==>
                  && StopsAt(s.env, files, plans, faults, 0) == |plans|
                  && after.successLogged && after.counter.NoFault?
                  && (StoreRuns.StoredCount(store, files, version) < 2 ||
                      (after.blacklist.NoFault? && after.blacklistLogged)))
            && (o.result.Ok? ==> RolledBack(s, store, files, version, plans, faults, Last(files, o.trace)))
  {
    var v := VersionDir(s.backupDir, version);
    var plans := Restore.Plan(v, s.workDir, LoadManifest(s.mac, s.key, files, Components(v)).value.files);
    var restored := Restore.RunFrom(s.env, files, plans, faults, 0);
    ReturnLeavesPrefix(s.env, files, plans, faults, 0);
    if restored.result.Ok? {
      var middle := Last(files, restored.trace);
      EndingDone(s, store, files, middle, version, stamps, after, plans, faults);
      LastConcat(files, restored.trace, Ending(store, middle, version, stamps, after).trace);
    }
  }

  // ------------------------------------------------------ update, then rollback

  /**
   * Applying an update takes a snapshot of the executable before anything is downloaded, and as long as the new
   * version comes last in byte order, a rollback finds that snapshot. It brings the executable back exactly if
   * this was in the working directory, or nothing has happened to it anyway.
   */
  lemma ApplyThenRollback(s: Setup, before: Files, m: M.Manifest, degraded: bool, createdAt: string, dir: Path,
                          name: string, faults: SnapshotFaults, w: Artifacts.World, logged: bool, after: Files,
                          listing: seq<DirEntry>)
    requires var v := VersionDir(s.backupDir, m.version);
             && IsCanonical(v) && IsCanonical(s.workDir) && Components(v) != Components(s.workDir)
             && Components(v) != dir && Components(v) != s.artifacts.stagingDir
             && var exe := InDir(dir, name);
             && Take(s.mac, s.key, s.env, before, Components(v), m.version, createdAt, [exe], faults).result.Ok?
             && var o := ApplyManifest(s, before, m, degraded, createdAt, exe, faults, w, logged);
             forall n :: SameAt(after, Last(before, o.trace), InDir(Components(v), n))
    requires GoodNames([name]) && InDir(dir, name) in before
    requires DirEntry("v" + m.version, true) in listing
    requires forall v | DirEntry("v" + v, true) in listing :: AtMost(v, m.version)
    ensures MostRecent(listing) == Ok(m.version)
    ensures var o := RunRollback(s.mac, s.key, s.env, after, VersionDir(s.backupDir, MostRecent(listing).value),
                                 s.workDir, []);
            && o.result.Ok?
            && (SameAt(Last(after, o.trace), before, InDir(dir, name)) <==>
                dir == Components(s.workDir) || SameAt(after, before, InDir(dir, name)))
  {
    var v := VersionDir(s.backupDir, m.version);
    ChosenIffGreatest(listing, m.version);
    assert TargetPaths(dir, [name]) == [InDir(dir, name)];
    var taken := Take(s.mac, s.key, s.env, before, Components(v), m.version, createdAt, [InDir(dir, name)], faults);
    SnapshotSurvives(s, before, m, degraded, createdAt, InDir(dir, name), faults, w, logged);
    RollbackRestoresSnapshot(s.mac, s.key, s.env, before, after, v, s.workDir, dir, m.version, createdAt, [name],
                             faults, 0);
  }

  /** The download leaves the version directory alone. */
  lemma SnapshotSurvives(s: Setup, before: Files, m: M.Manifest, degraded: bool, createdAt: string, exe: Path,
                         faults: SnapshotFaults, w: Artifacts.World, logged: bool)
    requires Components(VersionDir(s.backupDir, m.version)) != s.artifacts.stagingDir
    ensures var v := Components(VersionDir(s.backupDir, m.version));
            var taken := Take(s.mac, s.key, s.env, before, v, m.version, createdAt, [exe], faults);
            var o := ApplyManifest(s, before, m, degraded, createdAt, exe, faults, w, logged);
            forall n :: SameAt(Last(before, o.trace), Last(before, taken.trace), InDir(v, n))
  {
    var v := Components(VersionDir(s.backupDir, m.version));
    var taken := Take(s.mac, s.key, s.env, before, v, m.version, createdAt, [exe], faults);
    var middle := Last(before, taken.trace);
    var t := Artifacts.Deploy(s.artifacts, m, middle, w).trace;
    LastConcat(before, taken.trace, t);
    forall n ensures SameAt(Last(middle, t), middle, InDir(v, n)) {
      NotStaged(s.artifacts, v, n);
      DeployKeeps(s.artifacts, m, middle, w, InDir(v, n));
    }
  }

  /** Whatever happens to the counter and the blacklist afterwards, a restored file stays restored. */
  lemma StoreKeepsRestored(s: Setup, store: StoreRuns.Config, files: Files, version: string, faults: seq<Restore.Fault>,
                           stamps: Stamps, after: StoreRuns.Faults, dir: Path, name: string)
    requires dir != store.dir
    ensures var o := RunRollback(s.mac, s.key, s.env, files, VersionDir(s.backupDir, version), s.workDir, faults);
            SameAt(Last(files, Rollback(s, store, files, version, faults, stamps, after).trace),
                   Last(files, o.trace), InDir(dir, name))
  {
    var o := RunRollback(s.mac, s.key, s.env, files, VersionDir(s.backupDir, version), s.workDir, faults);
    var middle := Last(files, o.trace);
    assert InDir(dir, name)[..|dir|] == dir;
    StoreRuns.FinishKeeps(store, Recorded(middle, version, stamps, after), InDir(dir, name));
    LastConcat(files, o.trace, Ending(store, middle, version, stamps, after).trace);
  }
}
