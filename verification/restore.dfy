/** Restoring the files of a verified snapshot, one after the other. */
module Restore {
  import opened Wrappers
  import opened Text
  import opened Paths
  import opened Disk

  type U64 = n: int | 0 <= n < 0x1_0000_0000_0000_0000

  datatype FileEntry = FileEntry(path: string, sha256: string, permissions: Mode, sizeBytes: U64)

  // ----------------------------------------------- from entries to steps

  /** What restoring one entry reads, writes and checks. */
  datatype Step = Step(backup: Path, dest: Path, temp: Path, sha256: string, mode: Mode)

  /** The paths of an entry, or the traversal error. They depend on no file. */
  function PlanEntry(versionDir: string, workDir: string, e: FileEntry): Result<Step> {
    if UnderParent(Join(versionDir, e.path), versionDir) then
      Ok(Step(Components(Join(versionDir, e.path)), Resolve(Components(workDir), Components(e.path)),
              TempFor(workDir, e.path), e.sha256, e.permissions))
    else Err(InvalidInput)
  }

  function Plan(versionDir: string, workDir: string, entries: seq<FileEntry>): (r: seq<Result<Step>>)
    ensures |r| == |entries|
    ensures forall i | 0 <= i < |r| :: r[i] == PlanEntry(versionDir, workDir, entries[i])
  {
    seq(|entries|, i requires 0 <= i < |entries| => PlanEntry(versionDir, workDir, entries[i]))
  }

  // ------------------------------------------------------ one step

  /** What goes wrong, if anything, during one step. */
  datatype Fault =
    | NoFault
    | ReadFails
    | MakeParentFails
    | OpenFails
    | WriteStops(count: nat)
    | ChmodFails
    | RenameFails(cleanedUp: bool)

  function FaultAt(faults: seq<Fault>, i: nat): Fault {
    if i < |faults| then faults[i] else NoFault
  }

  /** SHA-256 in hexadecimal, and the mode of new files. */
  datatype Env = Env(sha256: bytes -> string, defaultMode: Mode)

  datatype Outcome = Outcome(trace: Trace, result: Result<()>) {
    /** This outcome with earlier states in front. */
    function After(earlier: Trace): Outcome {
      Outcome(earlier + trace, result)
    }
  }

  /** Writing verified bytes to their destination through a temporary file. */
  function PutFile(defaultMode: Mode, files: Files, s: Step, content: bytes, fault: Fault): Outcome {
    var count := if fault.WriteStops? && fault.count < |content| then fault.count else |content|;
    var written := WriteTrace(files, s.temp, content, count, defaultMode);
    var afterWrite := Written(files, s.temp, content[..count], defaultMode);
    var afterChmod := SetMode(afterWrite, s.temp, s.mode);
    match fault
    case OpenFails => Outcome([], Err(Error.Rollback))
    case WriteStops(_) => Outcome(written, Err(Error.Rollback))
    case ChmodFails => Outcome(written, Err(Permission))
    case RenameFails(cleanedUp) =>
      Outcome(written + [afterChmod] + (if cleanedUp then [Remove(afterChmod, s.temp)] else []), Err(Error.Rollback))
    case _ => Outcome(written + [afterChmod] + [Rename(afterChmod, s.temp, s.dest)], Ok(()))
  }

  function RunStep(env: Env, files: Files, plan: Result<Step>, fault: Fault): Outcome {
    match plan
    case Err(e) => Outcome([], Err(e))
    case Ok(s) =>
      if fault.ReadFails? || s.backup !in files then Outcome([], Err(Error.Rollback))
      else if env.sha256(files[s.backup].content) != s.sha256 then Outcome([], Err(Error.Rollback))
      else if fault.MakeParentFails? then Outcome([], Err(Permission))
      else PutFile(env.defaultMode, files, s, files[s.backup].content, fault)
  }

  /** Running the steps from `i` on; the first error stops the run. */
  function RunFrom(env: Env, files: Files, plans: seq<Result<Step>>, faults: seq<Fault>, i: nat): Outcome
    requires i <= |plans|
    decreases |plans| - i
  {
    if i == |plans| then Outcome([], Ok(()))
    else
      var first := RunStep(env, files, plans[i], FaultAt(faults, i));
      if first.result.Err? then first
      else RunFrom(env, Last(files, first.trace), plans, faults, i + 1).After(first.trace)
  }

  // ------------------------------------------------------ the loop itself

  /** The restore loop of `rollback`, on a disk: its states are those of `RunFrom`, in order. */
  method RestoreFiles(drive: Drive, env: Env, plans: seq<Result<Step>>, faults: seq<Fault>) returns (r: Result<()>)
    requires drive.Valid() && drive.defaultMode == env.defaultMode
    modifies drive
    ensures drive.Valid()
    ensures var all := RunFrom(env, old(drive.files), plans, faults, 0);
            && r == all.result
            && drive.history == old(drive.history) + all.trace
            && drive.files == Last(old(drive.files), all.trace)
  {
    ghost var all := RunFrom(env, drive.files, plans, faults, 0);
    ghost var done: Trace := [];
    for i := 0 to |plans|
      invariant drive.Valid()
      invariant Passed(all, old(drive.files), old(drive.history), drive, done)
      invariant all == RunFrom(env, drive.files, plans, faults, i).After(done)
    {
      ghost var before, passed := drive.files, drive.history;
      var step, outcome := RestoreFile(drive, env, plans[i], FaultAt(faults, i));
      RunFromStep(env, before, plans, faults, i, outcome);
      StepPassed(all, old(drive.files), old(drive.history), before, passed, done, outcome,
                 RunFrom(env, drive.files, plans, faults, i + 1));
      if step.Err? {
        return step;
      }
      done := done + outcome.trace;
    }
    return Ok(());
  }

  /** The drive has been through the states `done` since the start. */
  ghost predicate Passed(all: Outcome, start: Files, base: Trace, drive: Drive, done: Trace)
    reads drive
  {
    drive.history == base + done && drive.files == Last(start, done)
  }

  lemma StepPassed(all: Outcome, start: Files, base: Trace, before: Files, passed: Trace, done: Trace, step: Outcome,
                   rest: Outcome)
    requires passed == base + done && before == Last(start, done)
    requires all == (if step.result.Err? then step else rest.After(step.trace)).After(done)
    ensures passed + step.trace == base + (done + step.trace)
    ensures Last(before, step.trace) == Last(start, done + step.trace)
    ensures step.result.Err? ==> all == Outcome(done + step.trace, step.result)
    ensures step.result.Ok? ==> all == rest.After(done + step.trace)
  {
    AfterTwice(rest, done, step.trace);
  }

  lemma RunFromStep(env: Env, files: Files, plans: seq<Result<Step>>, faults: seq<Fault>, i: nat, first: Outcome)
    requires i < |plans| && first == RunStep(env, files, plans[i], FaultAt(faults, i))
    ensures RunFrom(env, files, plans, faults, i) ==
            if first.result.Err? then first
            else RunFrom(env, Last(files, first.trace), plans, faults, i + 1).After(first.trace)
  {}

  lemma AfterTwice(o: Outcome, x: Trace, y: Trace)
    ensures o.After(y).After(x) == o.After(x + y)
  {
    assert x + (y + o.trace) == (x + y) + o.trace;
  }

  method RestoreFile(drive: Drive, env: Env, plan: Result<Step>, fault: Fault)
    returns (r: Result<()>, ghost outcome: Outcome)
    requires drive.Valid() && drive.defaultMode == env.defaultMode
    modifies drive
    ensures drive.Valid()
    ensures outcome == RunStep(env, old(drive.files), plan, fault)
    ensures r == outcome.result
    ensures drive.history == old(drive.history) + outcome.trace
    ensures drive.files == Last(old(drive.files), outcome.trace)
  {
    outcome := RunStep(env, drive.files, plan, fault);
    if plan.Err? {
      return Err(plan.error), outcome;
    }
    var s := plan.value;
    if fault.ReadFails? || s.backup !in drive.files {
      return Err(Error.Rollback), outcome;
    }
    var content := drive.files[s.backup].content;
    if env.sha256(content) != s.sha256 {
      return Err(Error.Rollback), outcome;
    }
    if fault.MakeParentFails? {
      return Err(Permission), outcome;
    }
    r := WriteAndRename(drive, s, content, fault);
  }

  method WriteAndRename(drive: Drive, s: Step, content: bytes, fault: Fault) returns (r: Result<()>)
    requires drive.Valid()
    modifies drive
    ensures drive.Valid()
    ensures r == PutFile(drive.defaultMode, old(drive.files), s, content, fault).result
    ensures drive.history == old(drive.history) + PutFile(drive.defaultMode, old(drive.files), s, content, fault).trace
    ensures drive.files == Last(old(drive.files), PutFile(drive.defaultMode, old(drive.files), s, content, fault).trace)
  {
    if fault.OpenFails? {
      return Err(Error.Rollback);
    }
    var count := if fault.WriteStops? && fault.count < |content| then fault.count else |content|;
    drive.Write(s.temp, content, count);
    if fault.WriteStops? {
      return Err(Error.Rollback);
    }
    if fault.ChmodFails? {
      return Err(Permission);
    }
    drive.ChangeMode(s.temp, s.mode);
    if fault.RenameFails? {
      if fault.cleanedUp {
        drive.Delete(s.temp);
      }
      return Err(Error.Rollback);
    }
    drive.Move(s.temp, s.dest);
    return Ok(());
  }
}
