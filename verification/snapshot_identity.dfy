/** Snapshot, then anything, then rollback: the targets are back. */
module SnapshotIdentity {
  import opened Wrappers
  import opened Text
  import opened Canonical
  import opened Paths
  import opened Disk
  import opened Restore
  import opened RestoreGuarantees
  import opened Snapshot

  /** A name that a directory can hold. */
  predicate IsFileName(s: string) {
    s != "" && s != "." && s != ".." && '/' !in s
  }

  lemma {:induction false} PiecesOfName(s: string)
    requires '/' !in s
    ensures Pieces(s) == [s]
  {
    if s != [] {
      PiecesOfName(s[1..]);
      assert s == [s[0]] + s[1..];
    }
  }

  lemma NameComponents(name: string)
    requires IsFileName(name)
    ensures Components(name) == [Normal(name)]
  {
    PiecesOfName(name);
    assert Kept([name]) == [Normal(name)];
  }

  lemma TempForName(dir: string, name: string)
    requires IsFileName(name)
    ensures TempFor(dir, name) == InDir(Components(dir), TempName(name))
  {
    NameComponents(name);
    TempOfName(Components(dir), name);
  }

  lemma JoinName(dir: string, name: string)
    requires IsCanonical(dir) && IsFileName(name)
    ensures Components(Join(dir, name)) == InDir(Components(dir), name)
    ensures UnderParent(Join(dir, name), dir)
  {
    PiecesOfName(name);
    assert !IsAbsolute(name);
    ComponentsOfJoin(dir, name);
    assert Kept([name]) == [Normal(name)];
    AcceptedEntries(dir, name);
  }

  /** The step for an entry that is a plain file name. */
  lemma PlanOfName(versionDir: string, workDir: string, e: FileEntry)
    requires IsCanonical(versionDir) && IsCanonical(workDir) && IsFileName(e.path)
    ensures PlanEntry(versionDir, workDir, e) ==
            Ok(Step(InDir(Components(versionDir), e.path), InDir(Components(workDir), e.path),
                    InDir(Components(workDir), TempName(e.path)), e.sha256, e.permissions))
  {
    JoinName(versionDir, e.path);
    JoinName(workDir, e.path);
    ResolveIsJoin(workDir, e.path);
    TempForName(workDir, e.path);
  }

  // ------------------------------------------------------------ the targets

  /** Distinct plain names, none of them the manifest's or the temporary name of another. */
  ghost predicate GoodNames(names: seq<string>) {
    && (forall i | 0 <= i < |names| :: IsFileName(names[i]) && names[i] != SNAPSHOT_NAME)
    && (forall i, k | 0 <= i < k < |names| :: names[i] != names[k])
    && (forall i, k | 0 <= i < |names| && 0 <= k < |names| && i != k :: names[i] != TempName(names[k]))
  }

  function TargetPaths(dir: Path, names: seq<string>): (r: seq<Path>)
    ensures |r| == |names| && forall i | 0 <= i < |r| :: r[i] == InDir(dir, names[i])
  {
    seq(|names|, i requires 0 <= i < |names| => InDir(dir, names[i]))
  }

  lemma InDirInjective(d: Path, n: string, d': Path, n': string)
    requires InDir(d, n) == InDir(d', n')
    ensures d == d' && n == n'
  {
    var p, p' := InDir(d, n), InDir(d', n');
    assert p[..|p| - 1] == d && p'[..|p'| - 1] == d';
    assert p[|p| - 1] == Normal(n) && p'[|p'| - 1] == Normal(n');
  }

  /** The entry has the name, hash, mode and size of the file. */
  predicate Records(env: Env, e: FileEntry, name: string, f: File) {
    && e.path == name && e.sha256 == env.sha256(f.content) && e.permissions == f.mode
    && e.sizeBytes == |f.content| % 0x1_0000_0000_0000_0000
  }

  ghost predicate EntriesMatch(env: Env, files: Files, dir: Path, names: seq<string>, entries: seq<FileEntry>, i: nat) {
    && |entries| == i <= |names|
    && forall k | 0 <= k < i ::
         InDir(dir, names[k]) in files && Records(env, entries[k], names[k], files[InDir(dir, names[k])])
  }

  /** Copying one good target succeeds unless there is a fault, and then its bytes are in the version directory. */
  lemma OneCopied(env: Env, files: Files, vdir: Path, wdir: Path, name: string, entries: seq<FileEntry>,
          fault: PlainFault)
    requires InDir(wdir, name) in files
    ensures var c := CopyOne(env, files, vdir, InDir(wdir, name), entries, fault);
            var f := files[InDir(wdir, name)];
            && (fault.Completes? ==> c.entries.Ok?)
            && (c.entries.Ok? ==>
                  && Last(files, c.trace) == Written(files, InDir(vdir, name), f.content, env.defaultMode)
                  && c.entries.value == entries + [EntryFor(env, name, f)])
  {
    var f := files[InDir(wdir, name)];
    assert FileNameOf(InDir(wdir, name)) == Some(name);
    assert f.content[..|f.content|] == f.content;
  }

  ghost predicate Backed(start: Files, files: Files, vdir: Path, wdir: Path, names: seq<string>, i: nat)
    requires i <= |names| && forall k | 0 <= k < |names| :: InDir(wdir, names[k]) in start
  {
    forall k | 0 <= k < i :: InDir(vdir, names[k]) in files
      && files[InDir(vdir, names[k])].content == start[InDir(wdir, names[k])].content
  }

  lemma BackedOneMore(start: Files, files: Files, vdir: Path, wdir: Path, names: seq<string>, i: nat, mode: Mode)
    requires vdir != wdir && GoodNames(names) && i < |names|
    requires forall k | 0 <= k < |names| :: InDir(wdir, names[k]) in start
    requires (forall n :: SameAt(files, start, InDir(wdir, n))) && Backed(start, files, vdir, wdir, names, i)
    ensures var next := Written(files, InDir(vdir, names[i]), start[InDir(wdir, names[i])].content, mode);
            (forall n :: SameAt(next, start, InDir(wdir, n))) && Backed(start, next, vdir, wdir, names, i + 1)
  {
    var next := Written(files, InDir(vdir, names[i]), start[InDir(wdir, names[i])].content, mode);
    forall n ensures SameAt(next, start, InDir(wdir, n)) {
      assert SameAt(files, start, InDir(wdir, n));
      if InDir(wdir, n) == InDir(vdir, names[i]) { InDirInjective(wdir, n, vdir, names[i]); }
    }
    forall k | 0 <= k < i ensures InDir(vdir, names[k]) != InDir(vdir, names[i]) {
      if InDir(vdir, names[k]) == InDir(vdir, names[i]) { InDirInjective(vdir, names[k], vdir, names[i]); }
    }
  }

  /** Everything was recorded as it was at the start, and its bytes are in the version directory. */
  ghost predicate AllCopied(env: Env, start: Files, end: Files, vdir: Path, wdir: Path, names: seq<string>,
                            entries: Result<seq<FileEntry>>, undisturbed: bool)
    requires forall k | 0 <= k < |names| :: InDir(wdir, names[k]) in start
  {
    && (undisturbed ==> entries.Ok?)
    && (entries.Ok? ==> EntriesMatch(env, start, wdir, names, entries.value, |names|)
                        && Backed(start, end, vdir, wdir, names, |names|))
  }

  /** One more target has been copied and recorded. */
  lemma OneMoreCopied(env: Env, start: Files, files: Files, vdir: Path, wdir: Path, names: seq<string>,
                      fault: PlainFault, i: nat, entries: seq<FileEntry>)
    requires vdir != wdir && GoodNames(names) && i < |names|
    requires EntriesMatch(env, start, wdir, names, entries, i)
    requires forall k | 0 <= k < |names| :: InDir(wdir, names[k]) in start
    requires (forall n :: SameAt(files, start, InDir(wdir, n))) && Backed(start, files, vdir, wdir, names, i)
    ensures var one := CopyOne(env, files, vdir, InDir(wdir, names[i]), entries, fault);
            && (fault.Completes? ==> one.entries.Ok?)
            && (one.entries.Ok? ==>
                  && EntriesMatch(env, start, wdir, names, one.entries.value, i + 1)
                  && (forall n :: SameAt(Last(files, one.trace), start, InDir(wdir, n)))
                  && Backed(start, Last(files, one.trace), vdir, wdir, names, i + 1))
  {
    assert SameAt(files, start, InDir(wdir, names[i]));
    OneCopied(env, files, vdir, wdir, names[i], entries, fault);
    BackedOneMore(start, files, vdir, wdir, names, i, env.defaultMode);
  }

  /** Copying records every target as it was, and puts its bytes into the version directory. */
  lemma {:induction false} CopyRecords(env: Env, start: Files, files: Files, vdir: Path, wdir: Path, names: seq<string>,
                                       faults: seq<PlainFault>, i: nat, entries: seq<FileEntry>)
    requires vdir != wdir && GoodNames(names) && i <= |names|
    requires EntriesMatch(env, start, wdir, names, entries, i)
    requires forall k | 0 <= k < |names| :: InDir(wdir, names[k]) in start
    requires (forall n :: SameAt(files, start, InDir(wdir, n))) && Backed(start, files, vdir, wdir, names, i)
    ensures var c := CopyFrom(env, files, vdir, TargetPaths(wdir, names), faults, i, entries);
            AllCopied(env, start, Last(files, c.trace), vdir, wdir, names, c.entries, faults == [])
    decreases |names| - i
  {
    if i < |names| {
      var one := CopyOne(env, files, vdir, InDir(wdir, names[i]), entries, PlainFaultAt(faults, i));
      OneMoreCopied(env, start, files, vdir, wdir, names, PlainFaultAt(faults, i), i, entries);
      CopyFromNext(env, files, vdir, TargetPaths(wdir, names), faults, i, entries);
      if one.entries.Ok? {
        CopyRecords(env, start, Last(files, one.trace), vdir, wdir, names, faults, i + 1, one.entries.value);
      }
    }
  }

  // ---------------------------------------------------------------- the plan

  /** The plan of a snapshot of good names keeps its steps out of each other's way. */
  lemma PlanOfNames(versionDir: string, workDir: string, names: seq<string>, entries: seq<FileEntry>)
    requires IsCanonical(versionDir) && IsCanonical(workDir) && Components(versionDir) != Components(workDir)
    requires GoodNames(names) && |entries| == |names| && forall i | 0 <= i < |names| :: entries[i].path == names[i]
    ensures var plans := Plan(versionDir, workDir, entries);
            && Separate(plans) && Apart(plans)
            && forall i | 0 <= i < |names| :: plans[i] ==
                 Ok(Step(InDir(Components(versionDir), names[i]), InDir(Components(workDir), names[i]),
                         InDir(Components(workDir), TempName(names[i])), entries[i].sha256, entries[i].permissions))
  {
    var plans := Plan(versionDir, workDir, entries);
    forall i | 0 <= i < |names| { PlanOfName(versionDir, workDir, entries[i]); }
    StepsKeepApart(Components(versionDir), Components(workDir), names, plans);
  }

  lemma StepsKeepApart(v: Path, w: Path, names: seq<string>, plans: seq<Result<Step>>)
    requires v != w && GoodNames(names) && |plans| == |names|
    requires forall i | 0 <= i < |names| ::
               && plans[i].Ok? && plans[i].value.backup == InDir(v, names[i])
               && plans[i].value.dest == InDir(w, names[i]) && plans[i].value.temp == InDir(w, TempName(names[i]))
    ensures Separate(plans) && Apart(plans)
  {
    forall j, l | 0 <= j < |names| && 0 <= l < |names|
      ensures j != l ==> plans[j].value.dest != plans[l].value.dest
      ensures plans[j].value.dest != plans[l].value.temp
      ensures plans[j].value.backup != plans[l].value.dest && plans[j].value.backup != plans[l].value.temp
    {
      StepPathsDiffer(v, w, names, j, l);
    }
  }

  lemma StepPathsDiffer(v: Path, w: Path, names: seq<string>, j: nat, l: nat)
    requires v != w && GoodNames(names) && j < |names| && l < |names|
    ensures j != l ==> InDir(w, names[j]) != InDir(w, names[l])
    ensures InDir(w, names[j]) != InDir(w, TempName(names[l]))
    ensures InDir(v, names[j]) != InDir(w, names[l]) && InDir(v, names[j]) != InDir(w, TempName(names[l]))
  {
    TempNameDiffers(names[l]);
    if InDir(w, names[j]) == InDir(w, names[l]) { InDirInjective(w, names[j], w, names[l]); }
    if InDir(w, names[j]) == InDir(w, TempName(names[l])) { InDirInjective(w, names[j], w, TempName(names[l])); }
    if InDir(v, names[j]) == InDir(w, names[l]) { InDirInjective(v, names[j], w, names[l]); }
    if InDir(v, names[j]) == InDir(w, TempName(names[l])) { InDirInjective(v, names[j], w, TempName(names[l])); }
  }

  // ------------------------------------------------------------ main results

  /** What a snapshot of good names leaves in the version directory. */
  lemma TakenSnapshot(mac: Mac, key: bytes, env: Env, files: Files, vdir: Path, wdir: Path, version: string,
                      createdAt: string, names: seq<string>, faults: SnapshotFaults) returns (entries: seq<FileEntry>)
    requires vdir != wdir && GoodNames(names)
    requires forall k | 0 <= k < |names| :: InDir(wdir, names[k]) in files
    ensures var t := Take(mac, key, env, files, vdir, version, createdAt, TargetPaths(wdir, names), faults);
            && (faults == NO_FAULTS ==> t.result.Ok?)
            && (t.result.Ok? ==>
                  && EntriesMatch(env, files, wdir, names, entries, |names|)
                  && LoadManifest(mac, key, Last(files, t.trace), vdir) == Ok(SignedManifest(mac, key, version,
                          createdAt, entries))
                  && Backed(files, Last(files, t.trace), vdir, wdir, names, |names|))
  {
    CopyRecords(env, files, files, vdir, wdir, names, faults.copies, 0, []);
    var copied := CopyFrom(env, files, vdir, TargetPaths(wdir, names), faults.copies, 0, []);
    entries := [];
    if copied.entries.Ok? {
      entries := copied.entries.value;
      ManifestConcludes(mac, key, env, files, vdir, version, createdAt, copied, faults.manifest);
      forall k | 0 <= k < |names| ensures InDir(vdir, names[k]) != InDir(vdir, SNAPSHOT_NAME) {
        if InDir(vdir, names[k]) == InDir(vdir, SNAPSHOT_NAME) { InDirInjective(vdir, names[k], vdir, SNAPSHOT_NAME); }
      }
    }
  }

  /** The manifest is written last, and it verifies. */
  lemma ManifestConcludes(mac: Mac, key: bytes, env: Env, files: Files, dir: Path, version: string, createdAt: string,
                          copied: Copied, fault: PlainFault)
    requires copied.entries.Ok?
    ensures var o := Conclude(mac, key, env, files, dir, version, createdAt, copied, fault);
            var m := SignedManifest(mac, key, version, createdAt, copied.entries.value);
            var p, middle := InDir(dir, SNAPSHOT_NAME), Last(files, copied.trace);
            && (fault.Completes? ==> o.result.Ok?)
            && (o.result.Ok? ==>
                  && Last(files, o.trace) == Written(middle, p, ManifestBytes(m), env.defaultMode)
                  && LoadManifest(mac, key, Last(files, o.trace), dir) == Ok(m))
  {
    var m := SignedManifest(mac, key, version, createdAt, copied.entries.value);
    var p, middle := InDir(dir, SNAPSHOT_NAME), Last(files, copied.trace);
    var o := PutPlain(middle, p, ManifestBytes(m), env.defaultMode, fault);
    LastConcat(files, copied.trace, o.trace);
    PutPlainEnds(middle, p, ManifestBytes(m), env.defaultMode, fault);
    CompleteManifest(mac, key, Written(middle, p, ManifestBytes(m), env.defaultMode), dir, m);
  }

  lemma PutPlainEnds(files: Files, p: Path, content: bytes, mode: Mode, fault: PlainFault)
    ensures var o := PutPlain(files, p, content, mode, fault);
            && (fault.Completes? ==> o.result.Ok?)
            && (o.result.Ok? ==> Last(files, o.trace) == Written(files, p, content, mode))
  {
    assert content[..|content|] == content;
  }

  /** The step writes to `dest` the contents and the mode that `source` had before. */
  ghost predicate Recovers(env: Env, before: Files, after: Files, plan: Result<Step>, source: Path, dest: Path) {
    && plan.Ok? && plan.value.dest == dest && source in before && plan.value.backup in after
    && env.sha256(after[plan.value.backup].content) == plan.value.sha256
    && before[source] == File(after[plan.value.backup].content, plan.value.mode)
  }

  lemma AllRestored(env: Env, before: Files, after: Files, plans: seq<Result<Step>>, names: seq<string>, t: Path,
          w: Path)
    requires Separate(plans) && Apart(plans) && |plans| == |names|
    requires forall k | 0 <= k < |names| :: InDir(t, names[k]) in before
    requires forall k | 0 <= k < |plans| :: Recovers(env, before, after, plans[k], InDir(t, names[k]), InDir(w,
            names[k]))
    ensures RunFrom(env, after, plans, [], 0).result.Ok?
    ensures var end := Last(after, RunFrom(env, after, plans, [], 0).trace);
            forall k | 0 <= k < |names| ::
              InDir(w, names[k]) in end && end[InDir(w, names[k])] == before[InDir(t, names[k])]
  {
    forall k | 0 <= k < |plans|
      ensures plans[k].Ok? && plans[k].value.backup in after
      ensures env.sha256(after[plans[k].value.backup].content) == plans[k].value.sha256
    {
      assert Recovers(env, before, after, plans[k], InDir(t, names[k]), InDir(w, names[k]));
    }
    GoodBackupsRestore(env, after, plans, 0);
    assert StopsAt(env, after, plans, [], 0) == |plans|;
    var end := Last(after, RunFrom(env, after, plans, [], 0).trace);
    forall k | 0 <= k < |names|
      ensures InDir(w, names[k]) in end && end[InDir(w, names[k])] == before[InDir(t, names[k])]
    {
      assert Recovers(env, before, after, plans[k], InDir(t, names[k]), InDir(w, names[k]));
      RestoresBackupBytes(env, after, plans, [], 0, k);
    }
  }

  /** Files in a directory into which no step writes stay as they are. */
  lemma OtherDirectoryKept(env: Env, files: Files, plans: seq<Result<Step>>, w: Path, p: Path)
    requires Separate(plans)
    requires forall k | 0 <= k < |plans| && plans[k].Ok? :: plans[k].value.dest != p && plans[k].value.temp != p
    ensures SameAt(Last(files, RunFrom(env, files, plans, [], 0).trace), files, p)
  {
    ReturnLeavesPrefix(env, files, plans, [], 0);
    assert !IsTemp(plans, p) && !IsDest(plans, p, 0, StopsAt(env, files, plans, [], 0));
  }

  /** A rollback puts into the working directory what the snapshot took, wherever it was taken from. */
  lemma RollbackPlacesSnapshot(mac: Mac, key: bytes, env: Env, before: Files, after: Files, versionDir: string,
                               workDir: string, targetDir: Path, version: string, createdAt: string, names: seq<string>,
                               faults: SnapshotFaults)
    requires IsCanonical(versionDir) && IsCanonical(workDir)
    requires Components(versionDir) != Components(workDir) && Components(versionDir) != targetDir
    requires GoodNames(names) && forall k | 0 <= k < |names| :: InDir(targetDir, names[k]) in before
    requires var taken := Take(mac, key, env, before, Components(versionDir), version, createdAt,
                               TargetPaths(targetDir, names), faults);
             taken.result.Ok? && forall n :: SameAt(after, Last(before, taken.trace), InDir(Components(versionDir), n))
    ensures var o, w := RunRollback(mac, key, env, after, versionDir, workDir, []), Components(workDir);
            && o.result.Ok?
            && (forall k | 0 <= k < |names| :: InDir(w, names[k]) in Last(after, o.trace)
                  && Last(after, o.trace)[InDir(w, names[k])] == before[InDir(targetDir, names[k])])
            && (targetDir != w ==> forall n :: SameAt(Last(after, o.trace), after, InDir(targetDir, n)))
  {
    var v, w := Components(versionDir), Components(workDir);
    var taken := Take(mac, key, env, before, v, version, createdAt, TargetPaths(targetDir, names), faults);
    var entries := TakenSnapshot(mac, key, env, before, v, targetDir, version, createdAt, names, faults);
    assert SameAt(after, Last(before, taken.trace), InDir(v, SNAPSHOT_NAME));
    var plans := Plan(versionDir, workDir, entries);
    PlanOfNames(versionDir, workDir, names, entries);
    forall k | 0 <= k < |names|
      ensures Recovers(env, before, after, plans[k], InDir(targetDir, names[k]), InDir(w, names[k]))
    {
      assert SameAt(after, Last(before, taken.trace), InDir(v, names[k]));
    }
    AllRestored(env, before, after, plans, names, targetDir, w);
    KeptElsewhere(env, after, plans, names, targetDir, w);
  }

  lemma KeptElsewhere(env: Env, files: Files, plans: seq<Result<Step>>, names: seq<string>, t: Path, w: Path)
    requires Separate(plans) && |plans| == |names|
    requires forall k | 0 <= k < |names| :: plans[k].Ok? && plans[k].value.dest == InDir(w, names[k])
                                           && plans[k].value.temp == InDir(w, TempName(names[k]))
    ensures t != w ==> forall n :: SameAt(Last(files, RunFrom(env, files, plans, [], 0).trace), files, InDir(t, n))
  {
    if t != w {
      forall n ensures SameAt(Last(files, RunFrom(env, files, plans, [], 0).trace), files, InDir(t, n)) {
        forall k | 0 <= k < |plans|
          ensures plans[k].value.dest != InDir(t, n) && plans[k].value.temp != InDir(t, n)
        {
          if InDir(w, names[k]) == InDir(t, n) { InDirInjective(w, names[k], t, n); }
          if InDir(w, TempName(names[k])) == InDir(t, n) { InDirInjective(w, TempName(names[k]), t, n); }
        }
        OtherDirectoryKept(env, files, plans, w, InDir(t, n));
      }
    }
  }

  /**
   * Snapshot then rollback is the identity on the targets: whatever happens to the application files in between,
   * even if they are deleted, every target gets back its bytes and its mode. This holds for the targets in the
   * working directory, and for targets elsewhere only if nothing has happened to them.
   */
  lemma RollbackRestoresSnapshot(mac: Mac, key: bytes, env: Env, before: Files, after: Files, versionDir: string,
                                 workDir: string, targetDir: Path, version: string, createdAt: string,
                                 names: seq<string>, faults: SnapshotFaults, k: nat)
    requires IsCanonical(versionDir) && IsCanonical(workDir)
    requires Components(versionDir) != Components(workDir) && Components(versionDir) != targetDir
    requires GoodNames(names) && forall i | 0 <= i < |names| :: InDir(targetDir, names[i]) in before
    requires var taken := Take(mac, key, env, before, Components(versionDir), version, createdAt,
                               TargetPaths(targetDir, names), faults);
             taken.result.Ok? && forall n :: SameAt(after, Last(before, taken.trace), InDir(Components(versionDir), n))
    requires k < |names|
    ensures var o, target := RunRollback(mac, key, env, after, versionDir, workDir, []), InDir(targetDir, names[k]);
            && o.result.Ok?
            && (SameAt(Last(after, o.trace), before, target) <==>
                targetDir == Components(workDir) || SameAt(after, before, target))
  {
    RollbackPlacesSnapshot(mac, key, env, before, after, versionDir, workDir, targetDir, version, createdAt, names,
                          faults);
  }

  lemma OneNameDir(name: string)
    requires IsFileName(name)
    ensures Components("/" + name) == [Root, Normal(name)]
  {
    assert ("/" + name)[1..] == name;
    KeptAfterSlash("/" + name);
    PiecesOfName(name);
    assert Kept([name]) == [Normal(name)];
  }

  lemma TwoNameDir(a: string, b: string)
    requires IsFileName(a) && IsFileName(b)
    ensures Components("/" + a + "/" + b) == [Root, Normal(a), Normal(b)]
  {
    OneNameDir(a);
    SlashBetween("/" + a, b);
    PiecesOfName(b);
    assert Kept([b]) == [Normal(b)];
  }

  /** A file that is replaced after the snapshot, in another directory than the working one, is not restored. */
  lemma ReplacedElsewhere(mac: Mac, key: bytes, env: Env, versionDir: string, workDir: string, dir: Path, name: string,
                          version: string, createdAt: string, f: File, g: File)
    requires IsCanonical(versionDir) && IsCanonical(workDir)
    requires Components(versionDir) != Components(workDir)
    requires Components(versionDir) != dir && Components(workDir) != dir
    requires GoodNames([name]) && f != g
    ensures var exe := InDir(dir, name);
            var before: Files := map[exe := f];
            var taken := Take(mac, key, env, before, Components(versionDir), version, createdAt, [exe], NO_FAULTS);
            var after := Last(before, taken.trace)[exe := g];
            var o := RunRollback(mac, key, env, after, versionDir, workDir, []);
            taken.result.Ok? && o.result.Ok? && !SameAt(Last(after, o.trace), before, exe)
  {
    var exe, v, names := InDir(dir, name), Components(versionDir), [name];
    var before: Files := map[exe := f];
    assert TargetPaths(dir, names) == [exe];
    var taken := Take(mac, key, env, before, v, version, createdAt, [exe], NO_FAULTS);
    var entries := TakenSnapshot(mac, key, env, before, v, dir, version, createdAt, names, NO_FAULTS);
    var after := Last(before, taken.trace)[exe := g];
    forall n ensures SameAt(after, Last(before, taken.trace), InDir(v, n)) {
      if InDir(v, n) == exe { InDirInjective(v, n, dir, name); }
    }
    RollbackRestoresSnapshot(mac, key, env, before, after, versionDir, workDir, dir, version, createdAt, names,
                             NO_FAULTS, 0);
  }

  /** So with an executable in /bin, backups in /backups and the working directory /srv: the rollback returns Ok. */
  lemma ExecutableElsewhere(mac: Mac, key: bytes, env: Env, version: string, createdAt: string)
    ensures var exe, versionDir := InDir([Root, Normal("bin")], "app"), "/" + "backups" + "/" + "v2";
            var before: Files := map[exe := File([1], 0)];
            var taken := Take(mac, key, env, before, Components(versionDir), version, createdAt, [exe], NO_FAULTS);
            var after := Last(before, taken.trace)[exe := File([2], 0)];
            var o := RunRollback(mac, key, env, after, versionDir, "/" + "srv", []);
            taken.result.Ok? && o.result.Ok? && !SameAt(Last(after, o.trace), before, exe)
  {
    var versionDir, workDir := "/" + "backups" + "/" + "v2", "/" + "srv";
    TwoNameDir("backups", "v2");
    OneNameDir("srv");
    assert Components(versionDir)[1..] == [Normal("backups"), Normal("v2")];
    assert Components(workDir)[1..] == [Normal("srv")];
    assert Components(workDir)[1] == Normal("srv") && "srv"[0] == 's' && "bin"[0] == 'b';
    assert |"app"| == 3 && |SNAPSHOT_NAME| == 13;
    ReplacedElsewhere(mac, key, env, versionDir, workDir, [Root, Normal("bin")], "app", version, createdAt,
                      File([1], 0), File([2], 0));
  }

  // ---------------------------------------------------------- not all or nothing

  /** A restore of two files whose second backup is bad puts the first one in its place and fails. */
  lemma SecondBad(env: Env, files: Files, plans: seq<Result<Step>>)
    requires |plans| == 2 && Separate(plans) && Apart(plans) && plans[0].Ok? && plans[1].Ok?
    requires Intact(env, files, plans[0]) && !Intact(env, files, plans[1])
    ensures var o, x, y := RunFrom(env, files, plans, [], 0), plans[0].value, plans[1].value;
            && o.result.Err?
            && x.dest in Last(files, o.trace)
            && Last(files, o.trace)[x.dest] == File(files[x.backup].content, x.mode)
            && SameAt(Last(files, o.trace), files, y.dest)
  {
    StopsAtFirstBad(env, files, plans, 0);
    assert FirstBad(env, files, plans, 0) == 1;
    ReturnLeavesPrefix(env, files, plans, [], 0);
    var end := Last(files, RunFrom(env, files, plans, [], 0).trace);
    assert StepRestored(env, files, end, plans, [], 0, 0);
    assert !IsTemp(plans, plans[1].value.dest) && !IsDest(plans, plans[1].value.dest, 0, 1);
  }

  /**
   * A snapshot of two files of the working directory is taken, the files are changed, and so is the second backup:
   * the rollback fails, and the first file is the old one again while the second one is still the new one.
   */
  lemma TamperedBackup(mac: Mac, key: bytes, env: Env, before: Files, after: Files, versionDir: string, workDir: string,
                       version: string, createdAt: string, a: string, b: string, faults: SnapshotFaults)
    requires IsCanonical(versionDir) && IsCanonical(workDir) && Components(versionDir) != Components(workDir)
    requires GoodNames([a, b])
    requires InDir(Components(workDir), a) in before && InDir(Components(workDir), b) in before
    requires var v, w := Components(versionDir), Components(workDir);
             var taken := Take(mac, key, env, before, v, version, createdAt, [InDir(w, a), InDir(w, b)], faults);
             && taken.result.Ok?
             && (forall n | n != b :: SameAt(after, Last(before, taken.trace), InDir(v, n)))
             && (InDir(v, b) in after ==>
                   env.sha256(after[InDir(v, b)].content) != env.sha256(before[InDir(w, b)].content))
    ensures var o, w := RunRollback(mac, key, env, after, versionDir, workDir, []), Components(workDir);
            && o.result.Err?
            && SameAt(Last(after, o.trace), before, InDir(w, a))
            && SameAt(Last(after, o.trace), after, InDir(w, b))
  {
    var v, w := Components(versionDir), Components(workDir);
    var taken := Take(mac, key, env, before, v, version, createdAt, [InDir(w, a), InDir(w, b)], faults);
    assert TargetPaths(w, [a, b]) == [InDir(w, a), InDir(w, b)];
    var entries := TakenSnapshot(mac, key, env, before, v, w, version, createdAt, [a, b], faults);
    BothBacked(before, Last(before, taken.trace), v, w, a, b);
    assert SameAt(after, Last(before, taken.trace), InDir(v, SNAPSHOT_NAME));
    SameManifest(mac, key, after, Last(before, taken.trace), v);
    SecondEntryBad(env, before, after, versionDir, workDir, a, b, entries);
  }

  lemma BothBacked(before: Files, end: Files, v: Path, w: Path, a: string, b: string)
    requires GoodNames([a, b]) && InDir(w, a) in before && InDir(w, b) in before
    requires forall k | 0 <= k < 2 :: InDir(w, [a, b][k]) in before
    requires Backed(before, end, v, w, [a, b], 2)
    ensures InDir(v, a) in end && end[InDir(v, a)].content == before[InDir(w, a)].content
    ensures a != b && a != SNAPSHOT_NAME && b != SNAPSHOT_NAME
  {
    assert [a, b][0] == a && [a, b][1] == b;
  }

  /** The restore of such a snapshot, if the first backup is as it was and the second one is not. */
  lemma SecondEntryBad(env: Env, before: Files, after: Files, versionDir: string, workDir: string, a: string,
                       b: string, entries: seq<FileEntry>)
    requires IsCanonical(versionDir) && IsCanonical(workDir) && Components(versionDir) != Components(workDir)
    requires GoodNames([a, b]) && EntriesMatch(env, before, Components(workDir), [a, b], entries, 2)
    requires InDir(Components(workDir), a) in before && InDir(Components(workDir), b) in before
    requires var v, w := Components(versionDir), Components(workDir);
             && InDir(v, a) in after && after[InDir(v, a)].content == before[InDir(w, a)].content
             && (InDir(v, b) in after ==>
                   env.sha256(after[InDir(v, b)].content) != env.sha256(before[InDir(w, b)].content))
    ensures var o, w := RunFrom(env, after, Plan(versionDir, workDir, entries), [], 0), Components(workDir);
            && o.result.Err?
            && SameAt(Last(after, o.trace), before, InDir(w, a))
            && SameAt(Last(after, o.trace), after, InDir(w, b))
  {
    assert [a, b][0] == a && [a, b][1] == b;
    PlanOfNames(versionDir, workDir, [a, b], entries);
    SecondBad(env, after, Plan(versionDir, workDir, entries));
  }

  /** Two short names without a dot are good. */
  lemma ShortNamesGood()
    ensures GoodNames(["app", "lib"])
  {
    assert "app"[0] == 'a' && "lib"[0] == 'l';
    assert |"app"| == 3 && |"lib"| == 3 && |SNAPSHOT_NAME| == 13;
    assert |TempName("app")| > 3 && |TempName("lib")| > 3;
  }

  function ReplaceBoth(files: Files, v: Path, w: Path, a: string, b: string, g: File): Files {
    files[InDir(w, a) := g][InDir(w, b) := g][InDir(v, b) := g]
  }

  /** Two files of the working directory are replaced after the snapshot, and the second backup with them. */
  ghost predicate SecondStaysNew(mac: Mac, key: bytes, env: Env, versionDir: string, workDir: string, version: string,
                                 createdAt: string, a: string, b: string, f: File, g: File)
  {
    var w, v := Components(workDir), Components(versionDir);
    var before: Files := map[InDir(w, a) := f, InDir(w, b) := f];
    var taken := Take(mac, key, env, before, v, version, createdAt, [InDir(w, a), InDir(w, b)], NO_FAULTS);
    var after := ReplaceBoth(Last(before, taken.trace), v, w, a, b, g);
    var o := RunRollback(mac, key, env, after, versionDir, workDir, []);
    && taken.result.Ok? && o.result.Err?
    && InDir(w, a) in Last(after, o.trace) && Last(after, o.trace)[InDir(w, a)] == f
    && InDir(w, b) in Last(after, o.trace) && Last(after, o.trace)[InDir(w, b)] == g
  }

  lemma ReplacedAndTampered(mac: Mac, key: bytes, env: Env, versionDir: string, workDir: string, version: string,
                            createdAt: string, a: string, b: string, f: File, g: File)
    requires IsCanonical(versionDir) && IsCanonical(workDir) && Components(versionDir) != Components(workDir)
    requires GoodNames([a, b]) && env.sha256(f.content) != env.sha256(g.content)
    ensures SecondStaysNew(mac, key, env, versionDir, workDir, version, createdAt, a, b, f, g)
  {
    var w, v := Components(workDir), Components(versionDir);
    var before: Files := map[InDir(w, a) := f, InDir(w, b) := f];
    assert TargetPaths(w, [a, b]) == [InDir(w, a), InDir(w, b)];
    assert [a, b][0] == a && [a, b][1] == b;
    var taken := Take(mac, key, env, before, v, version, createdAt, [InDir(w, a), InDir(w, b)], NO_FAULTS);
    var entries := TakenSnapshot(mac, key, env, before, v, w, version, createdAt, [a, b], NO_FAULTS);
    var after := ReplaceBoth(Last(before, taken.trace), v, w, a, b, g);
    BothReplaced(Last(before, taken.trace), v, w, a, b, g);
    TamperedBackup(mac, key, env, before, after, versionDir, workDir, version, createdAt, a, b, NO_FAULTS);
  }

  lemma BothReplaced(files: Files, v: Path, w: Path, a: string, b: string, g: File)
    requires v != w && a != b
    ensures var after := ReplaceBoth(files, v, w, a, b, g);
            && (forall n | n != b :: SameAt(after, files, InDir(v, n)))
            && InDir(w, b) in after && after[InDir(w, b)] == g
            && InDir(v, b) in after && after[InDir(v, b)] == g
  {
    forall n ensures InDir(v, n) != InDir(w, a) && InDir(v, n) != InDir(w, b)
      ensures n != b ==> InDir(v, n) != InDir(v, b)
    {
      if InDir(v, n) == InDir(v, b) { InDirInjective(v, n, v, b); }
      if InDir(v, n) == InDir(w, a) { InDirInjective(v, n, w, a); }
      if InDir(v, n) == InDir(w, b) { InDirInjective(v, n, w, b); }
    }
  }

  /** So a restore is not all-or-nothing: after such a failed rollback /srv/app is old and /srv/lib is new. */
  lemma HalfRestored(mac: Mac, key: bytes, env: Env, version: string, createdAt: string)
    requires env.sha256([1]) != env.sha256([2])
    ensures SecondStaysNew(mac, key, env, "/" + "backups" + "/" + "v2", "/" + "srv", version, createdAt, "app", "lib",
                           File([1], 0), File([2], 0))
  {
    TwoNameDir("backups", "v2");
    OneNameDir("srv");
    ShortNamesGood();
    assert |Components("/" + "srv")| == 2;
    ReplacedAndTampered(mac, key, env, "/" + "backups" + "/" + "v2", "/" + "srv", version, createdAt, "app", "lib",
                        File([1], 0), File([2], 0));
  }
}
