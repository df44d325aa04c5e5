/** What a restore guarantees at every point where it may crash or fail. */
module RestoreGuarantees {
  import opened Wrappers
  import opened Disk
  import opened Restore

  /** In `h` the destination holds all the bytes that the backup has in `g`, verified, with the recorded mode. */
  ghost predicate Restored(env: Env, g: Files, h: Files, s: Step) {
    && s.backup in g && env.sha256(g[s.backup].content) == s.sha256
    && s.dest in h && h[s.dest] == File(g[s.backup].content, s.mode)
  }

  ghost predicate IsTemp(plans: seq<Result<Step>>, p: Path) {
    exists j :: 0 <= j < |plans| && plans[j].Ok? && plans[j].value.temp == p
  }

  ghost predicate IsDest(plans: seq<Result<Step>>, p: Path, from: nat, to: nat) {
    exists j :: from <= j < to && j < |plans| && plans[j].Ok? && plans[j].value.dest == p
  }

  // ------------------------------------------------------------- one step

  /** Before its rename a step touches nothing but its temporary file. */
  lemma UnfinishedStep(env: Env, files: Files, plan: Result<Step>, fault: Fault, k: nat, p: Path)
    requires var o := RunStep(env, files, plan, fault); k < |o.trace| && (o.result.Err? || k < |o.trace| - 1)
    requires plan.Ok? ==> p != plan.value.temp
    ensures SameAt(RunStep(env, files, plan, fault).trace[k], files, p)
  {}

  /** A step that succeeds ends with the verified bytes at the destination, and changes nothing else. */
  lemma FinishedStep(env: Env, files: Files, plan: Result<Step>, fault: Fault)
    requires RunStep(env, files, plan, fault).result.Ok?
    ensures plan.Ok? && RunStep(env, files, plan, fault).trace != []
    ensures var s, end := plan.value, Last(files, RunStep(env, files, plan, fault).trace);
            && Restored(env, files, end, s)
            && forall p | p != s.temp && p != s.dest :: SameAt(end, files, p)
  {
    var s := plan.value;
    var content := files[s.backup].content;
    assert content[..|content|] == content;
  }

  lemma FailedStep(env: Env, files: Files, plan: Result<Step>, fault: Fault, p: Path)
    requires RunStep(env, files, plan, fault).result.Err?
    requires plan.Ok? ==> p != plan.value.temp
    ensures SameAt(Last(files, RunStep(env, files, plan, fault).trace), files, p)
  {
    var o := RunStep(env, files, plan, fault);
    if o.trace != [] { UnfinishedStep(env, files, plan, fault, |o.trace| - 1, p); }
  }

  // ---------------------------------------------------- per-file atomicity

  /** The state before the `m`-th of these states. */
  function StateBefore(start: Files, t: Trace, m: nat): Files
    requires m <= |t|
  {
    if m == 0 then start else t[m - 1]
  }

  /** In the `c`-th state `p` is as at the start, or it holds what some step read and verified in an earlier state. */
  ghost predicate OldOrRestored(env: Env, start: Files, t: Trace, c: nat, plans: seq<Result<Step>>, p: Path)
    requires c < |t|
  {
    || SameAt(t[c], start, p)
    || exists j, m ::
         && 0 <= j < |plans| && 0 <= m <= c && plans[j].Ok? && plans[j].value.dest == p
         && Restored(env, StateBefore(start, t, m), t[c], plans[j].value)
  }

  ghost predicate AllOldOrRestored(env: Env, start: Files, t: Trace, plans: seq<Result<Step>>, p: Path) {
    forall c | 0 <= c < |t| :: OldOrRestored(env, start, t, c, plans, p)
  }

  lemma OldOrRestoredStep(env: Env, files: Files, plans: seq<Result<Step>>, i: nat, fault: Fault, p: Path)
    requires i < |plans| && !IsTemp(plans, p)
    ensures AllOldOrRestored(env, files, RunStep(env, files, plans[i], fault).trace, plans, p)
  {
    var o := RunStep(env, files, plans[i], fault);
    forall c | 0 <= c < |o.trace| ensures OldOrRestored(env, files, o.trace, c, plans, p) {
      if o.result.Err? || c < |o.trace| - 1 {
        UnfinishedStep(env, files, plans[i], fault, c, p);
      } else {
        FinishedStep(env, files, plans[i], fault);
        assert Restored(env, StateBefore(files, o.trace, 0), o.trace[c], plans[i].value);
      }
    }
  }

  lemma OldOrRestoredFirst(env: Env, start: Files, x: Trace, y: Trace, c: nat, plans: seq<Result<Step>>, p: Path)
    requires c < |x| && OldOrRestored(env, start, x, c, plans, p)
    ensures OldOrRestored(env, start, x + y, c, plans, p)
  {
    if !SameAt(x[c], start, p) {
      var j, m :| && 0 <= j < |plans| && 0 <= m <= c && plans[j].Ok? && plans[j].value.dest == p
                  && Restored(env, StateBefore(start, x, m), x[c], plans[j].value);
      assert StateBefore(start, x + y, m) == StateBefore(start, x, m);
    }
  }

  lemma OldOrRestoredSecond(env: Env, start: Files, x: Trace, y: Trace, c: nat, plans: seq<Result<Step>>, p: Path)
    requires AllOldOrRestored(env, start, x, plans, p)
    requires c < |y| && OldOrRestored(env, Last(start, x), y, c, plans, p)
    ensures OldOrRestored(env, start, x + y, |x| + c, plans, p)
  {
    var t := x + y;
    if SameAt(y[c], Last(start, x), p) {
      if x != [] {
        OldOrRestoredFirst(env, start, x, y, |x| - 1, plans, p);
        assert SameAt(t[|x| + c], t[|x| - 1], p);
      }
    } else {
      var j, m :| && 0 <= j < |plans| && 0 <= m <= c && plans[j].Ok? && plans[j].value.dest == p
                  && Restored(env, StateBefore(Last(start, x), y, m), y[c], plans[j].value);
      assert StateBefore(start, t, |x| + m) == StateBefore(Last(start, x), y, m);
    }
  }

  lemma {:induction false} RunOldOrRestored(env: Env, files: Files, plans: seq<Result<Step>>, faults: seq<Fault>,
                                            i: nat, p: Path)
    requires i <= |plans| && !IsTemp(plans, p)
    ensures AllOldOrRestored(env, files, RunFrom(env, files, plans, faults, i).trace, plans, p)
    decreases |plans| - i
  {
    if i < |plans| {
      var first := RunStep(env, files, plans[i], FaultAt(faults, i));
      OldOrRestoredStep(env, files, plans, i, FaultAt(faults, i), p);
      if first.result.Ok? {
        var rest := RunFrom(env, Last(files, first.trace), plans, faults, i + 1);
        RunOldOrRestored(env, Last(files, first.trace), plans, faults, i + 1, p);
        OldOrRestoredConcat(env, files, first.trace, rest.trace, plans, p);
      }
    }
  }

  lemma OldOrRestoredConcat(env: Env, start: Files, x: Trace, y: Trace, plans: seq<Result<Step>>, p: Path)
    requires AllOldOrRestored(env, start, x, plans, p) && AllOldOrRestored(env, Last(start, x), y, plans, p)
    ensures AllOldOrRestored(env, start, x + y, plans, p)
  {
    forall c | 0 <= c < |x + y| ensures OldOrRestored(env, start, x + y, c, plans, p) {
      if c < |x| {
        OldOrRestoredFirst(env, start, x, y, c, plans, p);
      } else {
        OldOrRestoredSecond(env, start, x, y, c - |x|, plans, p);
      }
    }
  }

  /**
   * Per-file atomicity, with no assumption about the entries: at every point where the restore may crash, each
   * file other than the temporary ones is untouched or holds exactly the bytes that some backup had in an earlier
   * state, where they passed the check.
   */
  lemma PerFileAtomic(env: Env, files: Files, plans: seq<Result<Step>>, faults: seq<Fault>, c: nat, p: Path)
    requires c < |RunFrom(env, files, plans, faults, 0).trace|
    requires !IsTemp(plans, p)
    ensures OldOrRestored(env, files, RunFrom(env, files, plans, faults, 0).trace, c, plans, p)
  {
    RunOldOrRestored(env, files, plans, faults, 0, p);
  }

  // ------------------------------------------------------- prefix exactness

  /** The destinations are distinct and none of them is a temporary file. */
  ghost predicate Separate(plans: seq<Result<Step>>) {
    && (forall j, l | 0 <= j < l < |plans| && plans[j].Ok? && plans[l].Ok? ::
            plans[j].value.dest != plans[l].value.dest)
    && (forall j | 0 <= j < |plans| && plans[j].Ok? :: !IsTemp(plans, plans[j].value.dest))
  }

  /** No step reads what another one writes. */
  ghost predicate Apart(plans: seq<Result<Step>>) {
    && (forall j | 0 <= j < |plans| && plans[j].Ok? :: !IsTemp(plans, plans[j].value.backup))
    && (forall j, l | 0 <= j < |plans| && 0 <= l < |plans| && j != l && plans[j].Ok? && plans[l].Ok? ::
          plans[j].value.backup != plans[l].value.dest)
  }

  /** The state in which step `j` begins, when step `i` begins in `files`. */
  function Before(env: Env, files: Files, plans: seq<Result<Step>>, faults: seq<Fault>, i: nat, j: nat): Files
    requires i <= j <= |plans|
    decreases j - i
  {
    if i == j then files
    else Before(env, Last(files, RunStep(env, files, plans[i], FaultAt(faults, i)).trace), plans, faults, i + 1, j)
  }

  /**
   * The destination of step `j` holds what its backup held when the step began, and if no step writes what another one
   * reads, what the backup held in `files`.
   */
  ghost predicate StepRestored(env: Env, files: Files, h: Files, plans: seq<Result<Step>>, faults: seq<Fault>, i: nat,
                               j: nat)
    requires i <= j < |plans|
  {
    && plans[j].Ok? && Restored(env, Before(env, files, plans, faults, i, j), h, plans[j].value)
    && (Apart(plans) ==> Restored(env, files, h, plans[j].value))
  }

  /** Exactly the steps from `i` up to `k` have been restored, and nothing else has changed but temporary files. */
  ghost predicate PrefixRestored(env: Env, before: Files, h: Files, plans: seq<Result<Step>>, faults: seq<Fault>,
                                 i: nat, k: nat)
    requires i <= k <= |plans|
  {
    && (forall j | i <= j < k :: StepRestored(env, before, h, plans, faults, i, j))
    && (forall p | !IsTemp(plans, p) && !IsDest(plans, p, i, k) :: SameAt(h, before, p))
  }

  /** The step that fails, or the number of steps if none does. */
  function StopsAt(env: Env, files: Files, plans: seq<Result<Step>>, faults: seq<Fault>, i: nat): (k: nat)
    requires i <= |plans|
    ensures i <= k <= |plans|
    ensures k == |plans| <==> RunFrom(env, files, plans, faults, i).result.Ok?
    decreases |plans| - i
  {
    if i == |plans| then i
    else
      var first := RunStep(env, files, plans[i], FaultAt(faults, i));
      if first.result.Err? then i else StopsAt(env, Last(files, first.trace), plans, faults, i + 1)
  }

  /** One finished step in front of a restored prefix. */
  lemma PrefixExtends(env: Env, before: Files, next: Files, h: Files, plans: seq<Result<Step>>, faults: seq<Fault>,
                      i: nat, k: nat)
    requires i < k <= |plans| && Separate(plans)
    requires next == Last(before, RunStep(env, before, plans[i], FaultAt(faults, i)).trace)
    requires plans[i].Ok? && Restored(env, before, next, plans[i].value)
    requires forall p | p != plans[i].value.temp && p != plans[i].value.dest :: SameAt(next, before, p)
    requires PrefixRestored(env, next, h, plans, faults, i + 1, k)
    ensures PrefixRestored(env, before, h, plans, faults, i, k)
  {
    var s := plans[i].value;
    assert !IsDest(plans, s.dest, i + 1, k);
    assert SameAt(h, next, s.dest);
    forall j | i <= j < k ensures StepRestored(env, before, h, plans, faults, i, j) {
      if j > i {
        assert StepRestored(env, next, h, plans, faults, i + 1, j);
        BackupStays(before, next, plans, i, j);
      }
    }
    forall p | !IsTemp(plans, p) && !IsDest(plans, p, i, k) ensures SameAt(h, before, p) {
      assert p != s.dest && p != s.temp;
      assert !IsDest(plans, p, i + 1, k);
      assert SameAt(next, before, p) && SameAt(h, next, p);
    }
  }

  /** Nobody writes the backup of a later step. */
  lemma BackupStays(before: Files, next: Files, plans: seq<Result<Step>>, i: nat, j: nat)
    requires i < |plans| && j < |plans| && i != j && plans[i].Ok? && plans[j].Ok?
    requires forall p | p != plans[i].value.temp && p != plans[i].value.dest :: SameAt(next, before, p)
    ensures Apart(plans) ==> SameAt(next, before, plans[j].value.backup)
  {
    if Apart(plans) { assert !IsTemp(plans, plans[j].value.backup); }
  }

  lemma CrashInsideStep(env: Env, files: Files, plans: seq<Result<Step>>, faults: seq<Fault>, i: nat, c: nat)
    requires i < |plans|
    requires var o := RunStep(env, files, plans[i], FaultAt(faults, i));
             c < |o.trace| && (o.result.Err? || c < |o.trace| - 1)
    ensures PrefixRestored(env, files, RunStep(env, files, plans[i], FaultAt(faults, i)).trace[c], plans, faults, i, i)
  {
    var h := RunStep(env, files, plans[i], FaultAt(faults, i)).trace[c];
    forall p | !IsTemp(plans, p) ensures SameAt(h, files, p) {
      UnfinishedStep(env, files, plans[i], FaultAt(faults, i), c, p);
    }
  }

  lemma FinishedPrefix(env: Env, files: Files, plans: seq<Result<Step>>, faults: seq<Fault>, i: nat, h: Files,
                       k: nat)
    requires i < k <= |plans| && Separate(plans)
    requires RunStep(env, files, plans[i], FaultAt(faults, i)).result.Ok?
    requires var next := Last(files, RunStep(env, files, plans[i], FaultAt(faults, i)).trace);
             PrefixRestored(env, next, h, plans, faults, i + 1, k)
    ensures PrefixRestored(env, files, h, plans, faults, i, k)
  {
    FinishedStep(env, files, plans[i], FaultAt(faults, i));
    var next := Last(files, RunStep(env, files, plans[i], FaultAt(faults, i)).trace);
    PrefixExtends(env, files, next, h, plans, faults, i, k);
  }

  lemma NothingSince(env: Env, files: Files, plans: seq<Result<Step>>, faults: seq<Fault>, i: nat)
    requires i <= |plans|
    ensures PrefixRestored(env, files, files, plans, faults, i, i)
  {}

  /** Some prefix of the steps from `i` on, ending by `stop`, is restored in `h`. */
  ghost predicate SomePrefix(env: Env, before: Files, h: Files, plans: seq<Result<Step>>, faults: seq<Fault>, i: nat,
                             stop: nat)
    requires stop <= |plans|
  {
    exists k: nat :: i <= k <= stop && PrefixRestored(env, before, h, plans, faults, i, k)
  }

  ghost predicate AllPrefixes(env: Env, before: Files, t: Trace, plans: seq<Result<Step>>, faults: seq<Fault>, i: nat,
                              stop: nat)
    requires stop <= |plans|
  {
    forall c | 0 <= c < |t| :: SomePrefix(env, before, t[c], plans, faults, i, stop)
  }

  lemma AllConcat(env: Env, before: Files, x: Trace, y: Trace, plans: seq<Result<Step>>, faults: seq<Fault>,
                  i: nat, stop: nat)
    requires stop <= |plans|
    requires AllPrefixes(env, before, x, plans, faults, i, stop) && AllPrefixes(env, before, y, plans, faults, i, stop)
    ensures AllPrefixes(env, before, x + y, plans, faults, i, stop)
  {}

  /** The states of one step. */
  lemma StepStates(env: Env, files: Files, plans: seq<Result<Step>>, faults: seq<Fault>, i: nat, stop: nat)
    requires i < |plans| && Separate(plans) && i <= stop <= |plans|
    requires RunStep(env, files, plans[i], FaultAt(faults, i)).result.Ok? ==> i < stop
    ensures AllPrefixes(env, files, RunStep(env, files, plans[i], FaultAt(faults, i)).trace, plans, faults, i, stop)
  {
    var o := RunStep(env, files, plans[i], FaultAt(faults, i));
    forall c | 0 <= c < |o.trace| ensures SomePrefix(env, files, o.trace[c], plans, faults, i, stop) {
      if o.result.Err? || c < |o.trace| - 1 {
        CrashInsideStep(env, files, plans, faults, i, c);
      } else {
        NothingSince(env, Last(files, o.trace), plans, faults, i + 1);
        FinishedPrefix(env, files, plans, faults, i, Last(files, o.trace), i + 1);
      }
    }
  }

  /** The states after a finished step. */
  lemma LaterStates(env: Env, files: Files, plans: seq<Result<Step>>, faults: seq<Fault>, i: nat, stop: nat, t: Trace)
    requires i < |plans| && Separate(plans) && i < stop <= |plans|
    requires RunStep(env, files, plans[i], FaultAt(faults, i)).result.Ok?
    requires var next := Last(files, RunStep(env, files, plans[i], FaultAt(faults, i)).trace);
             AllPrefixes(env, next, t, plans, faults, i + 1, stop)
    ensures AllPrefixes(env, files, t, plans, faults, i, stop)
  {
    var next := Last(files, RunStep(env, files, plans[i], FaultAt(faults, i)).trace);
    forall c | 0 <= c < |t| ensures SomePrefix(env, files, t[c], plans, faults, i, stop) {
      var k: nat :| i + 1 <= k <= stop && PrefixRestored(env, next, t[c], plans, faults, i + 1, k);
      FinishedPrefix(env, files, plans, faults, i, t[c], k);
    }
  }

  lemma {:induction false} RunStates(env: Env, files: Files, plans: seq<Result<Step>>, faults: seq<Fault>, i: nat)
    requires i <= |plans| && Separate(plans)
    ensures AllPrefixes(env, files, RunFrom(env, files, plans, faults, i).trace, plans, faults, i,
                        StopsAt(env, files, plans, faults, i))
    decreases |plans| - i
  {
    if i < |plans| {
      var first := RunStep(env, files, plans[i], FaultAt(faults, i));
      StepStates(env, files, plans, faults, i, StopsAt(env, files, plans, faults, i));
      if first.result.Ok? {
        var next := Last(files, first.trace);
        var rest, stop := RunFrom(env, next, plans, faults, i + 1), StopsAt(env, next, plans, faults, i + 1);
        RunStates(env, next, plans, faults, i + 1);
        LaterStates(env, files, plans, faults, i, stop, rest.trace);
        AllConcat(env, files, first.trace, rest.trace, plans, faults, i, stop);
      }
    }
  }

  /** At every point where the restore may crash, a prefix of the manifest is restored and the rest is untouched. */
  lemma CrashLeavesPrefix(env: Env, files: Files, plans: seq<Result<Step>>, faults: seq<Fault>, i: nat, c: nat)
    returns (k: nat)
    requires i <= |plans| && Separate(plans)
    requires c < |RunFrom(env, files, plans, faults, i).trace|
    ensures i <= k <= StopsAt(env, files, plans, faults, i)
    ensures PrefixRestored(env, files, RunFrom(env, files, plans, faults, i).trace[c], plans, faults, i, k)
  {
    RunStates(env, files, plans, faults, i);
    var stop, h := StopsAt(env, files, plans, faults, i), RunFrom(env, files, plans, faults, i).trace[c];
    assert SomePrefix(env, files, h, plans, faults, i, stop);
    k :| i <= k <= stop && PrefixRestored(env, files, h, plans, faults, i, k);
  }

  /**
   * When the restore returns, exactly the entries before the failing one are restored: all of them if it
   * returns Ok, none if the first one fails.
   */
  lemma {:induction false} ReturnLeavesPrefix(env: Env, files: Files, plans: seq<Result<Step>>, faults: seq<Fault>,
          i: nat)
    requires i <= |plans| && Separate(plans)
    ensures PrefixRestored(env, files, Last(files, RunFrom(env, files, plans, faults, i).trace), plans, faults, i,
                           StopsAt(env, files, plans, faults, i))
    decreases |plans| - i
  {
    if i < |plans| {
      var first := RunStep(env, files, plans[i], FaultAt(faults, i));
      if first.result.Err? {
        forall p | !IsTemp(plans, p) ensures SameAt(Last(files, first.trace), files, p) {
          FailedStep(env, files, plans[i], FaultAt(faults, i), p);
        }
      } else {
        var next := Last(files, first.trace);
        ReturnLeavesPrefix(env, next, plans, faults, i + 1);
        LastConcat(files, first.trace, RunFrom(env, next, plans, faults, i + 1).trace);
        FinishedPrefix(env, files, plans, faults, i, Last(files, RunFrom(env, files, plans, faults, i).trace),
                       StopsAt(env, files, plans, faults, i));
      }
    }
  }

  // -------------------------------------------------- exact bytes, and success

  /** The restored bytes are those of the backup as it was at the start. */
  lemma RestoresBackupBytes(env: Env, files: Files, plans: seq<Result<Step>>, faults: seq<Fault>, i: nat, j: nat)
    requires i <= |plans| && Separate(plans) && Apart(plans)
    requires i <= j < StopsAt(env, files, plans, faults, i)
    ensures var end := Last(files, RunFrom(env, files, plans, faults, i).trace);
            && plans[j].Ok? && plans[j].value.backup in files && plans[j].value.dest in end
            && end[plans[j].value.dest] == File(files[plans[j].value.backup].content, plans[j].value.mode)
  {
    ReturnLeavesPrefix(env, files, plans, faults, i);
    var end := Last(files, RunFrom(env, files, plans, faults, i).trace);
    assert StepRestored(env, files, end, plans, faults, i, j);
  }

  /** If every backup is there and matches its hash and nothing fails, the restore succeeds. */
  lemma {:induction false} GoodBackupsRestore(env: Env, files: Files, plans: seq<Result<Step>>, i: nat)
    requires i <= |plans| && Apart(plans)
    requires forall j | i <= j < |plans| ::
               && plans[j].Ok? && plans[j].value.backup in files
               && env.sha256(files[plans[j].value.backup].content) == plans[j].value.sha256
    ensures RunFrom(env, files, plans, [], i).result.Ok?
    decreases |plans| - i
  {
    if i < |plans| {
      var first := RunStep(env, files, plans[i], NoFault);
      FinishedStep(env, files, plans[i], NoFault);
      var next := Last(files, first.trace);
      forall j | i + 1 <= j < |plans| ensures SameAt(next, files, plans[j].value.backup) {
        assert !IsTemp(plans, plans[j].value.backup);
      }
      GoodBackupsRestore(env, next, plans, i + 1);
    }
  }

  /** The backup of this step is there and is the one that was recorded. */
  predicate Intact(env: Env, files: Files, plan: Result<Step>) {
    && plan.Ok? && plan.value.backup in files
    && env.sha256(files[plan.value.backup].content) == plan.value.sha256
  }

  /** The first step from `i` on whose backup is not intact, or the number of steps. */
  function FirstBad(env: Env, files: Files, plans: seq<Result<Step>>, i: nat): (k: nat)
    requires i <= |plans|
    ensures i <= k <= |plans|
    ensures forall j | i <= j < k :: Intact(env, files, plans[j])
    ensures k < |plans| ==> !Intact(env, files, plans[k])
    decreases |plans| - i
  {
    if i == |plans| || !Intact(env, files, plans[i]) then i else FirstBad(env, files, plans, i + 1)
  }

  lemma {:induction false} FirstBadSame(env: Env, files: Files, next: Files, plans: seq<Result<Step>>, i: nat)
    requires i <= |plans| && forall j | i <= j < |plans| && plans[j].Ok? :: SameAt(next, files, plans[j].value.backup)
    ensures FirstBad(env, next, plans, i) == FirstBad(env, files, plans, i)
    decreases |plans| - i
  {
    if i < |plans| {
      assert Intact(env, next, plans[i]) <==> Intact(env, files, plans[i]);
      FirstBadSame(env, files, next, plans, i + 1);
    }
  }

  /** If nothing else fails, the restore stops exactly at the first backup that is not intact. */
  lemma {:induction false} StopsAtFirstBad(env: Env, files: Files, plans: seq<Result<Step>>, i: nat)
    requires i <= |plans| && Apart(plans)
    ensures StopsAt(env, files, plans, [], i) == FirstBad(env, files, plans, i)
    decreases |plans| - i
  {
    if i < |plans| && Intact(env, files, plans[i]) {
      var next := Last(files, RunStep(env, files, plans[i], NoFault).trace);
      FinishedStep(env, files, plans[i], NoFault);
      forall j | i + 1 <= j < |plans| && plans[j].Ok? ensures SameAt(next, files, plans[j].value.backup) {
        assert !IsTemp(plans, plans[j].value.backup);
      }
      FirstBadSame(env, files, next, plans, i + 1);
      StopsAtFirstBad(env, next, plans, i + 1);
    }
  }

  /** Which error that is: an entry that leads outside is invalid input, a bad backup fails the rollback. */
  lemma {:induction false} FirstBadError(env: Env, files: Files, plans: seq<Result<Step>>, i: nat)
    requires i <= |plans| && Apart(plans)
    ensures var k, r := FirstBad(env, files, plans, i), RunFrom(env, files, plans, [], i).result;
            r == if k == |plans| then Ok(()) else if plans[k].Err? then Err(plans[k].error) else Err(Error.Rollback)
    decreases |plans| - i
  {
    if i < |plans| && Intact(env, files, plans[i]) {
      var next := Last(files, RunStep(env, files, plans[i], NoFault).trace);
      FinishedStep(env, files, plans[i], NoFault);
      forall j | i + 1 <= j < |plans| && plans[j].Ok? ensures SameAt(next, files, plans[j].value.backup) {
        assert !IsTemp(plans, plans[j].value.backup);
      }
      FirstBadSame(env, files, next, plans, i + 1);
      FirstBadError(env, next, plans, i + 1);
    }
  }

  // --------------------------------------------------------- all or nothing

  /** The destination already holds what the step would put there. */
  predicate AlreadyThere(files: Files, plan: Result<Step>) {
    && plan.Ok? && plan.value.backup in files && plan.value.dest in files
    && files[plan.value.dest] == File(files[plan.value.backup].content, plan.value.mode)
  }

  ghost predicate Unchanged(files: Files, end: Files, plans: seq<Result<Step>>) {
    forall p | !IsTemp(plans, p) :: SameAt(end, files, p)
  }

  lemma PrefixUnchanged(env: Env, files: Files, end: Files, plans: seq<Result<Step>>, faults: seq<Fault>, k: nat)
    requires k <= |plans| && Separate(plans) && Apart(plans) && PrefixRestored(env, files, end, plans, faults, 0, k)
    ensures Unchanged(files, end, plans) <==> forall j | 0 <= j < k :: AlreadyThere(files, plans[j])
  {
    forall j | 0 <= j < k
      ensures plans[j].Ok? && !IsTemp(plans, plans[j].value.dest)
      ensures SameAt(end, files, plans[j].value.dest) <==> AlreadyThere(files, plans[j])
    {
      assert StepRestored(env, files, end, plans, faults, 0, j);
    }
    if forall j | 0 <= j < k :: AlreadyThere(files, plans[j]) {
      forall p | !IsTemp(plans, p) ensures SameAt(end, files, p) {
        if IsDest(plans, p, 0, k) {
          var j :| 0 <= j < k && j < |plans| && plans[j].Ok? && plans[j].value.dest == p;
          assert AlreadyThere(files, plans[j]);
        }
      }
    }
  }

  /**
   * A restore is all-or-nothing, whatever fails, exactly if no step fails or the steps before the failing one had
   * nothing to change.
   */
  lemma AllOrNothingAt(env: Env, files: Files, plans: seq<Result<Step>>, faults: seq<Fault>)
    requires Separate(plans) && Apart(plans)
    ensures var o, k := RunFrom(env, files, plans, faults, 0), StopsAt(env, files, plans, faults, 0);
            o.result.Ok? || Unchanged(files, Last(files, o.trace), plans) <==>
            k == |plans| || forall j | 0 <= j < k :: AlreadyThere(files, plans[j])
  {
    ReturnLeavesPrefix(env, files, plans, faults, 0);
    PrefixUnchanged(env, files, Last(files, RunFrom(env, files, plans, faults, 0).trace), plans, faults,
                    StopsAt(env, files, plans, faults, 0));
  }

  /**
   * With no fault but bad backups: exactly if every backup is intact, or every file in front of the first bad backup
   * already is what its own backup says.
   */
  lemma AllOrNothing(env: Env, files: Files, plans: seq<Result<Step>>)
    requires Separate(plans) && Apart(plans)
    ensures var o, k := RunFrom(env, files, plans, [], 0), FirstBad(env, files, plans, 0);
            o.result.Ok? || Unchanged(files, Last(files, o.trace), plans) <==>
            k == |plans| || forall j | 0 <= j < k :: AlreadyThere(files, plans[j])
  {
    AllOrNothingAt(env, files, plans, []);
    StopsAtFirstBad(env, files, plans, 0);
  }
}
