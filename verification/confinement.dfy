/** Which files a rollback can write at all, temporary files included. */
module Confinement {
  import opened Wrappers
  import opened Text
  import opened Canonical
  import opened Paths
  import opened Disk
  import opened Restore
  import opened Snapshot

  /** A step that gets as far as writing has read its backup. */
  lemma StepReadsBackup(env: Env, files: Files, plan: Result<Step>, fault: Fault)
    requires RunStep(env, files, plan, fault).trace != []
    ensures plan.Ok? && plan.value.backup in files
  {}

  lemma StepTouches(env: Env, files: Files, plan: Result<Step>, fault: Fault, k: nat, p: Path)
    requires k < |RunStep(env, files, plan, fault).trace|
    requires plan.Ok? ==> p != plan.value.temp && p != plan.value.dest
    ensures SameAt(RunStep(env, files, plan, fault).trace[k], files, p)
  {}

  /** If the version directory can be read as a file, its own temporary name had better be inside. */
  ghost predicate Safe(files: Files, v: Path, w: Path) {
    v !in files || SiblingInside(v, w)
  }

  /**
   * What the checks make of a step: it writes inside unless it reads the version directory itself, and it writes the
   * version directory only if it reads it or this lies below the working directory.
   */
  ghost predicate Tame(s: Step, v: Path, w: Path) {
    && Inside(s.dest, v, w)
    && (s.backup != v || SiblingInside(v, w) ==> Inside(s.temp, v, w))
    && (v == s.dest || v == s.temp ==> s.backup == v || SiblingInside(v, w))
  }

  lemma AcceptedIsTame(versionDir: string, workDir: string, e: FileEntry)
    requires IsCanonical(versionDir) && IsCanonical(workDir) && PlanEntry(versionDir, workDir, e).Ok?
    ensures Tame(PlanEntry(versionDir, workDir, e).value, Components(versionDir), Components(workDir))
  {
    ResolveIsJoin(workDir, e.path);
    WritesStayInside(versionDir, workDir, e.path);
    TempStaysInside(versionDir, workDir, e.path);
    AcceptedEntries(versionDir, e.path);
    if IsAbsolute(e.path) {
      AbsoluteTarget(Components(e.path), Components(versionDir));
    } else {
      RelativeTemp(workDir, e.path);
      ComponentsOfJoin(versionDir, e.path);
      ComponentsOfJoin(workDir, e.path);
      RelativeTarget(Components(versionDir), Components(workDir), Kept(Pieces(e.path)));
    }
  }

  lemma AbsoluteTarget(cs: Path, v: Path)
    requires Below(cs, v)
    ensures v == TempPath(cs) ==> v == cs
  {
    if |cs| == |v| { assert cs == v; }
  }

  /** A relative entry that leads to the version directory leads down to it, unless it names the directory itself. */
  lemma RelativeTarget(v: Path, w: Path, kept: Path)
    ensures kept == [] ==> v + kept == v
    ensures kept != [] && (v == w + kept || v == w + TempPath(kept)) ==> w <= v[..|v| - 1]
  {}

  lemma TameStep(env: Env, files: Files, plan: Result<Step>, fault: Fault, v: Path, w: Path, p: Path)
    requires (plan.Ok? ==> Tame(plan.value, v, w)) && Safe(files, v, w) && !Inside(p, v, w)
    ensures var t := RunStep(env, files, plan, fault).trace;
            (forall k | 0 <= k < |t| :: SameAt(t[k], files, p)) && Safe(Last(files, t), v, w)
  {
    var t := RunStep(env, files, plan, fault).trace;
    if t != [] {
      StepReadsBackup(env, files, plan, fault);
      forall k | 0 <= k < |t| ensures SameAt(t[k], files, p) { StepTouches(env, files, plan, fault, k, p); }
      if v != plan.value.temp && v != plan.value.dest { StepTouches(env, files, plan, fault, |t| - 1, v); }
    }
  }

  /** Tame steps stay inside: at every state, every file that has changed is inside. */
  lemma {:induction false} TameRun(env: Env, files: Files, plans: seq<Result<Step>>, faults: seq<Fault>, i: nat,
                                   v: Path, w: Path, k: nat, p: Path)
    requires i <= |plans| && forall j | 0 <= j < |plans| && plans[j].Ok? :: Tame(plans[j].value, v, w)
    requires Safe(files, v, w) && !Inside(p, v, w)
    ensures var t := RunFrom(env, files, plans, faults, i).trace; k < |t| ==> SameAt(t[k], files, p)
    decreases |plans| - i
  {
    if i < |plans| {
      var one := RunStep(env, files, plans[i], FaultAt(faults, i));
      TameStep(env, files, plans[i], FaultAt(faults, i), v, w, p);
      if one.result.Ok? && k >= |one.trace| {
        TameRun(env, Last(files, one.trace), plans, faults, i + 1, v, w, k - |one.trace|, p);
      }
    }
  }

  // ------------------------------------------------------------ main results

  /** At every state of the restore, every file that has changed is inside. */
  ghost predicate Confined(env: Env, files: Files, versionDir: string, workDir: string, entries: seq<FileEntry>,
                           faults: seq<Fault>)
  {
    var t := RunFrom(env, files, Plan(versionDir, workDir, entries), faults, 0).trace;
    forall k, p | 0 <= k < |t| && !SameAt(t[k], files, p) :: Inside(p, Components(versionDir), Components(workDir))
  }

  lemma SafeIsConfined(env: Env, files: Files, versionDir: string, workDir: string, entries: seq<FileEntry>,
                       faults: seq<Fault>)
    requires IsCanonical(versionDir) && IsCanonical(workDir)
    requires Safe(files, Components(versionDir), Components(workDir))
    ensures Confined(env, files, versionDir, workDir, entries, faults)
  {
    var plans, v, w := Plan(versionDir, workDir, entries), Components(versionDir), Components(workDir);
    var t := RunFrom(env, files, plans, faults, 0).trace;
    forall j | 0 <= j < |plans| && plans[j].Ok? ensures Tame(plans[j].value, v, w) {
      AcceptedIsTame(versionDir, workDir, entries[j]);
    }
    forall k, p | 0 <= k < |t| && !SameAt(t[k], files, p) ensures Inside(p, v, w) {
      if !Inside(p, v, w) { TameRun(env, files, plans, faults, 0, v, w, k, p); }
    }
  }

  /** An entry that names the version directory itself, by its absolute path. */
  function DirectoryEntry(env: Env, files: Files, versionDir: string): FileEntry
    requires Components(versionDir) in files
  {
    FileEntry(versionDir, env.sha256(files[Components(versionDir)].content), 0, 0)
  }

  /** The temporary file of a step that nothing disturbs is written, and then it is gone. */
  lemma TempIsTouched(env: Env, files: Files, plan: Result<Step>)
    requires plan.Ok? && plan.value.temp != plan.value.dest && plan.value.backup in files
    requires env.sha256(files[plan.value.backup].content) == plan.value.sha256
    ensures var t := RunStep(env, files, plan, NoFault).trace;
            exists k :: 0 <= k < |t| && !SameAt(t[k], files, plan.value.temp)
  {
    var t := RunStep(env, files, plan, NoFault).trace;
    assert plan.value.temp in t[0] && plan.value.temp !in t[|t| - 1];
  }

  /** If the version directory could be read as a file, that entry would be written next to it. */
  lemma DirectoryEntryLeaks(env: Env, files: Files, versionDir: string, workDir: string)
    requires IsCanonical(versionDir) && IsCanonical(workDir)
    requires Components(versionDir) in files && !SiblingInside(Components(versionDir), Components(workDir))
    ensures !Confined(env, files, versionDir, workDir, [DirectoryEntry(env, files, versionDir)], [])
  {
    var v, w := Components(versionDir), Components(workDir);
    var e := DirectoryEntry(env, files, versionDir);
    AcceptedEntries(versionDir, versionDir);
    SiblingInsideExact(v, w);
    var plan := PlanEntry(versionDir, workDir, e);
    assert v[..|v|] == v && v[|v|..] == [];
    assert plan == Ok(Step(v, v, TempPath(v), e.sha256, 0));
    TempIsTouched(env, files, plan);
    OneEntry(env, files, Plan(versionDir, workDir, [e]));
  }

  lemma OneEntry(env: Env, files: Files, plans: seq<Result<Step>>)
    requires |plans| == 1
    ensures RunFrom(env, files, plans, [], 0).trace == RunStep(env, files, plans[0], NoFault).trace
  {
    assert RunStep(env, files, plans[0], NoFault).trace + [] == RunStep(env, files, plans[0], NoFault).trace;
  }

  /**
   * Every file written while restoring, the temporary files included, lies below the working directory or the
   * version directory, for all manifests and all faults, exactly if the version directory cannot be read as a file
   * or its own temporary name lies inside too.
   */
  lemma ConfinedExactly(env: Env, files: Files, versionDir: string, workDir: string)
    requires IsCanonical(versionDir) && IsCanonical(workDir)
    ensures (forall entries, faults :: Confined(env, files, versionDir, workDir, entries, faults)) <==>
            Components(versionDir) !in files || SiblingInside(Components(versionDir), Components(workDir))
  {
    if Safe(files, Components(versionDir), Components(workDir)) {
      forall entries, faults ensures Confined(env, files, versionDir, workDir, entries, faults) {
        SafeIsConfined(env, files, versionDir, workDir, entries, faults);
      }
    } else {
      DirectoryEntryLeaks(env, files, versionDir, workDir);
    }
  }

  /** So a rollback, whatever the manifest says, changes no file outside at any point. */
  lemma RollbackStaysInside(mac: Mac, key: bytes, env: Env, files: Files, versionDir: string, workDir: string,
                            faults: seq<Fault>, k: nat, p: Path)
    requires IsCanonical(versionDir) && IsCanonical(workDir) && Components(versionDir) !in files
    ensures var o := RunRollback(mac, key, env, files, versionDir, workDir, faults);
            k < |o.trace| && !SameAt(o.trace[k], files, p) ==> Inside(p, Components(versionDir), Components(workDir))
  {
    var m := LoadManifest(mac, key, files, Components(versionDir));
    if m.Ok? { SafeIsConfined(env, files, versionDir, workDir, m.value.files, faults); }
  }
}
