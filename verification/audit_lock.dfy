/**
 * Concurrent writers of one log file. The threads of a process share a mutex; each process has its own
 * open file description, to which the advisory lock belongs. Every interleaving of the atomic steps is a
 * list of actions, and `write_all` may append a record in any number of pieces.
 */
module AuditLock {
  import opened Wrappers
  import opened Text
  import Audit
  import Canonical

  datatype Thread = Thread(process: nat, index: nat)

  /** Where a thread is inside `log`. */
  datatype Phase = Outside | HasMutex | Writing(written: nat) | Unlocked

  datatype Entry = Entry(thread: Thread, record: bytes)

  datatype State = State(
    file: bytes,
    /** Which thread holds the mutex of each process that has it locked. */
    mutex: map<nat, Thread>,
    /** The process whose description holds the exclusive file lock. */
    flock: Option<nat>,
    phase: map<Thread, Phase>,
    /** The records each thread has still to log, the current one first. */
    todo: map<Thread, seq<bytes>>,
    /** The records in the order in which the file lock was taken for them. */
    order: seq<Entry>)

  datatype Action =
    | LockMutex(t: Thread)
    | LockFile(t: Thread)
    | Append(t: Thread, count: nat)
    | UnlockFile(t: Thread)
    | UnlockMutex(t: Thread)

  predicate WellFormed(s: State) {
    s.phase.Keys == s.todo.Keys
  }

  /** Locking a file whose lock the same description already holds succeeds at once. */
  predicate Enabled(s: State, a: Action)
    requires WellFormed(s)
  {
    && a.t in s.phase && s.todo[a.t] != []
    && match a
       case LockMutex(t) => s.phase[t] == Outside && t.process !in s.mutex
       case LockFile(t) => s.phase[t] == HasMutex && (s.flock.None? || s.flock == Some(t.process))
       case Append(t, count) =>
         s.phase[t].Writing? && 0 < count && s.phase[t].written + count <= |s.todo[t][0]|
       case UnlockFile(t) => s.phase[t] == Writing(|s.todo[t][0]|)
       case UnlockMutex(t) => s.phase[t] == Unlocked
  }

  function Apply(s: State, a: Action): (s': State)
    requires WellFormed(s) && Enabled(s, a)
    ensures WellFormed(s') && s'.phase.Keys == s.phase.Keys
  {
    match a
    case LockMutex(t) => s.(mutex := s.mutex[t.process := t], phase := s.phase[t := HasMutex])
    case LockFile(t) =>
      s.(flock := Some(t.process), phase := s.phase[t := Writing(0)], order := s.order + [Entry(t, s.todo[t][0])])
    case Append(t, count) =>
      var n := s.phase[t].written;
      s.(file := s.file + s.todo[t][0][n..n + count], phase := s.phase[t := Writing(n + count)])
    case UnlockFile(t) => s.(flock := None, phase := s.phase[t := Unlocked])
    case UnlockMutex(t) =>
      s.(mutex := s.mutex - {t.process}, phase := s.phase[t := Outside], todo := s.todo[t := s.todo[t][1..]])
  }

  /** The state after an interleaving, or None if one of its steps is blocked. */
  function Run(s: State, actions: seq<Action>): (r: Option<State>)
    requires WellFormed(s)
    ensures r.Some? ==> WellFormed(r.value)
    decreases |actions|
  {
    if actions == [] then Some(s)
    else if Enabled(s, actions[0]) then Run(Apply(s, actions[0]), actions[1..])
    else None
  }

  /** Nobody has started: every thread has its program to log. */
  function Initial(programs: map<Thread, seq<bytes>>): (s: State)
    ensures WellFormed(s)
  {
    State([], map[], None, map t | t in programs :: Outside, programs, [])
  }

  // ------------------------------------------------------------ invariant

  function Concat(entries: seq<Entry>): bytes {
    if entries == [] then [] else Concat(entries[..|entries| - 1]) + entries[|entries| - 1].record
  }

  /** The records that one thread contributed, in order. */
  function RecordsOf(entries: seq<Entry>, t: Thread): seq<bytes> {
    if entries == [] then []
    else
      var last := entries[|entries| - 1];
      RecordsOf(entries[..|entries| - 1], t) + (if last.thread == t then [last.record] else [])
  }

  /** Inside a process the mutex admits one thread; across processes the file lock admits one writer. */
  ghost predicate Exclusive(s: State)
    requires WellFormed(s)
  {
    && (forall t | t in s.phase :: s.phase[t] != Outside <==> t.process in s.mutex && s.mutex[t.process] == t)
    && (forall t | t in s.phase && s.phase[t].Writing? :: s.flock == Some(t.process))
    && (s.flock.Some? ==> s.flock.value in s.mutex && s.mutex[s.flock.value] in s.phase
                          && s.mutex[s.flock.value].process == s.flock.value
                          && s.phase[s.mutex[s.flock.value]].Writing?)
  }

  /** The whole records so far, then the part already written of the lock holder's record. */
  ghost predicate Whole(s: State)
    requires WellFormed(s) && Exclusive(s)
  {
    if s.flock.None? then s.file == Concat(s.order)
    else
      var t := s.mutex[s.flock.value];
      && s.todo[t] != [] && s.order != [] && s.order[|s.order| - 1] == Entry(t, s.todo[t][0])
      && s.phase[t].written <= |s.todo[t][0]|
      && s.file == Concat(s.order[..|s.order| - 1]) + s.todo[t][0][..s.phase[t].written]
  }

  /** What a thread has had the lock for, and what it has still to log, is its program. */
  ghost predicate ConservedFor(s: State, program: seq<bytes>, t: Thread)
    requires WellFormed(s) && t in s.phase
  {
    && (s.phase[t] != Outside ==> s.todo[t] != [])
    && program == RecordsOf(s.order, t) +
         (if s.phase[t].Writing? || s.phase[t].Unlocked? then s.todo[t][1..] else s.todo[t])
  }

  ghost predicate Conserved(s: State, programs: map<Thread, seq<bytes>>)
    requires WellFormed(s)
  {
    programs.Keys == s.phase.Keys && forall t | t in s.phase :: ConservedFor(s, programs[t], t)
  }

  ghost predicate Invariant(s: State, programs: map<Thread, seq<bytes>>) {
    WellFormed(s) && Exclusive(s) && Whole(s) && Conserved(s, programs)
  }

  lemma AppendEntry(entries: seq<Entry>, e: Entry, t: Thread)
    ensures Concat(entries + [e]) == Concat(entries) + e.record
    ensures RecordsOf(entries + [e], t) == RecordsOf(entries, t) + (if e.thread == t then [e.record] else [])
  {
    assert (entries + [e])[..|entries|] == entries;
  }

  lemma StepExclusive(s: State, a: Action)
    requires WellFormed(s) && Enabled(s, a) && Exclusive(s)
    ensures Exclusive(Apply(s, a))
  {
    var s' := Apply(s, a);
    forall t | t in s'.phase
      ensures s'.phase[t] != Outside <==> t.process in s'.mutex && s'.mutex[t.process] == t
      ensures s'.phase[t].Writing? ==> s'.flock == Some(t.process)
    {
    }
  }

  lemma TakeMore(r: bytes, n: nat, count: nat, front: bytes)
    requires n + count <= |r|
    ensures (front + r[..n]) + r[n..n + count] == front + r[..n + count]
  {
    assert r[..n] + r[n..n + count] == r[..n + count];
  }

  lemma StepWhole(s: State, a: Action)
    requires WellFormed(s) && Enabled(s, a) && Exclusive(s) && Whole(s) && Exclusive(Apply(s, a))
    ensures Whole(Apply(s, a))
  {
    var s' := Apply(s, a);
    match a
    case LockMutex(t) =>
    case LockFile(t) =>
      LockFileWhole(s, t);
    case Append(t, count) =>
      TakeMore(s.todo[t][0], s.phase[t].written, count, Concat(s.order[..|s.order| - 1]));
    case UnlockFile(t) =>
      assert s.todo[t][0][..|s.todo[t][0]|] == s.todo[t][0];
    case UnlockMutex(t) =>
  }

  lemma LockFileWhole(s: State, t: Thread)
    requires WellFormed(s) && Enabled(s, LockFile(t)) && Exclusive(s) && Whole(s) && Exclusive(Apply(s, LockFile(t)))
    ensures Whole(Apply(s, LockFile(t)))
  {
    var s' := Apply(s, LockFile(t));
    assert s.flock.None?;
    assert s'.order[..|s'.order| - 1] == s.order;
    assert s.todo[t][0][..0] == [];
    assert s'.file == s.file + [];
  }

  lemma LockFileConserved(s: State, w: Thread, program: seq<bytes>, t: Thread)
    requires WellFormed(s) && Enabled(s, LockFile(w)) && t in s.phase && ConservedFor(s, program, t)
    ensures ConservedFor(Apply(s, LockFile(w)), program, t)
  {
    var r := s.todo[w];
    AppendEntry(s.order, Entry(w, r[0]), t);
    if t == w {
      MoveRecord(RecordsOf(s.order, t), r);
    } else {
      assert RecordsOf(s.order, t) + [] == RecordsOf(s.order, t);
    }
  }

  lemma StepConservedFor(s: State, a: Action, program: seq<bytes>, t: Thread)
    requires WellFormed(s) && Enabled(s, a) && t in s.phase && ConservedFor(s, program, t)
    ensures ConservedFor(Apply(s, a), program, t)
  {
    if a.LockFile? {
      LockFileConserved(s, a.t, program, t);
    } else {
      assert Apply(s, a).order == s.order;
    }
  }

  lemma MoveRecord(done: seq<bytes>, todo: seq<bytes>)
    requires todo != []
    ensures done + todo == (done + [todo[0]]) + todo[1..]
  {}

  lemma StepConserved(s: State, a: Action, programs: map<Thread, seq<bytes>>)
    requires WellFormed(s) && Enabled(s, a) && Conserved(s, programs)
    ensures Conserved(Apply(s, a), programs)
  {
    forall t | t in s.phase ensures ConservedFor(Apply(s, a), programs[t], t) {
      StepConservedFor(s, a, programs[t], t);
    }
  }

  // --------------------------------------------------------- main results

  lemma {:induction false} RunKeepsInvariant(s: State, actions: seq<Action>, programs: map<Thread, seq<bytes>>)
    requires Invariant(s, programs) && Run(s, actions).Some?
    ensures Invariant(Run(s, actions).value, programs)
    decreases |actions|
  {
    if actions != [] {
      StepExclusive(s, actions[0]);
      StepWhole(s, actions[0]);
      StepConserved(s, actions[0], programs);
      RunKeepsInvariant(Apply(s, actions[0]), actions[1..], programs);
    }
  }

  /**
   * After any interleaving the file is a sequence of whole records followed by a prefix of the one record
   * whose writer holds the file lock, and every record is there at most once and in program order.
   */
  lemma RecordsStayWhole(programs: map<Thread, seq<bytes>>, actions: seq<Action>)
    requires Run(Initial(programs), actions).Some?
    ensures Invariant(Run(Initial(programs), actions).value, programs)
  {
    RunKeepsInvariant(Initial(programs), actions, programs);
  }

  /** Nobody is inside `log`. */
  predicate Quiescent(s: State)
    requires WellFormed(s)
  {
    forall t | t in s.phase :: s.phase[t] == Outside
  }

  /** At quiescence the file is exactly the records in lock order, each thread's in program order. */
  lemma QuiescentFile(programs: map<Thread, seq<bytes>>, actions: seq<Action>)
    requires Run(Initial(programs), actions).Some? && Quiescent(Run(Initial(programs), actions).value)
    ensures var s := Run(Initial(programs), actions).value;
            && s.file == Concat(s.order)
            && s.todo.Keys == programs.Keys
            && forall t | t in programs :: programs[t] == RecordsOf(s.order, t) + s.todo[t]
  {
    RecordsStayWhole(programs, actions);
  }

  // ------------------------------------------------- with the audit records

  lemma {:induction false} EntriesFromPrograms(entries: seq<Entry>, i: nat)
    requires i < |entries|
    ensures entries[i].record in RecordsOf(entries, entries[i].thread)
  {
    var front := entries[..|entries| - 1];
    if i < |front| {
      EntriesFromPrograms(front, i);
    }
  }

  lemma {:induction false} OnlyThreadsWithPrograms(s: State, actions: seq<Action>)
    requires WellFormed(s) && Run(s, actions).Some?
    requires forall i | 0 <= i < |s.order| :: s.order[i].thread in s.phase
    ensures Run(s, actions).value.phase.Keys == s.phase.Keys
    ensures forall i | 0 <= i < |Run(s, actions).value.order| :: Run(s, actions).value.order[i].thread in s.phase
    decreases |actions|
  {
    if actions != [] { OnlyThreadsWithPrograms(Apply(s, actions[0]), actions[1..]); }
  }

  /** Is `record` what the logger writes for some event? */
  ghost predicate IsRecord(mac: Canonical.Mac, key: bytes, installationId: string, record: bytes) {
    exists e: Audit.Event :: Canonical.UniqueKeys(e.data) && record == Audit.Record(mac, key, installationId, e)
  }

  lemma RecordAlone(mac: Canonical.Mac, key: bytes, installationId: string, record: bytes)
    requires IsRecord(mac, key, installationId, record)
    ensures Audit.VerifyFile(mac, key, record) == Ok(1)
    ensures record != [] && record[|record| - 1] == 0x0A
  {
    var e: Audit.Event :| Canonical.UniqueKeys(e.data) && record == Audit.Record(mac, key, installationId, e);
    Audit.LogThenVerify(mac, key, installationId, [e]);
    assert Audit.LogAll(mac, key, installationId, [e]) == record by {
      assert Audit.LogAll(mac, key, installationId, []) == [];
      assert record + [] == record;
    }
  }

  lemma SumOf(all: Result<nat>, x: Result<nat>, y: Result<nat>, n: nat)
    requires x == Ok(n) && y == Ok(1)
    requires (all.Ok? <==> x.Ok? && y.Ok?) && (all.Ok? ==> all.value == x.value + y.value)
    ensures all == Ok(n + 1)
  {}

  lemma StillTerminated(front: bytes, record: bytes)
    requires record != [] && record[|record| - 1] == 0x0A
    ensures Audit.Terminated(front + record)
  {}

  lemma {:induction false} ConcatVerifies(mac: Canonical.Mac, key: bytes, installationId: string, entries: seq<Entry>)
    requires forall i | 0 <= i < |entries| :: IsRecord(mac, key, installationId, entries[i].record)
    ensures Audit.Terminated(Concat(entries))
    ensures Audit.VerifyFile(mac, key, Concat(entries)) == Ok(|entries|)
  {
    if entries != [] {
      var front, last := entries[..|entries| - 1], entries[|entries| - 1].record;
      ConcatVerifies(mac, key, installationId, front);
      assert IsRecord(mac, key, installationId, entries[|entries| - 1].record);
      RecordAlone(mac, key, installationId, last);
      StillTerminated(Concat(front), last);
      Audit.VerifyConcat(mac, key, Concat(front), last);
      SumOf(Audit.VerifyFile(mac, key, Concat(front) + last), Audit.VerifyFile(mac, key, Concat(front)),
            Audit.VerifyFile(mac, key, last), |front|);
    }
  }

  /**
   * However the writers interleave, the finished log verifies, and it holds exactly the records taken up, those of
   * each thread once and in program order.
   */
  lemma ConcurrentLogVerifies(mac: Canonical.Mac, key: bytes, installationId: string,
                              programs: map<Thread, seq<bytes>>, actions: seq<Action>)
    requires forall t, r | t in programs && r in programs[t] :: IsRecord(mac, key, installationId, r)
    requires Run(Initial(programs), actions).Some? && Quiescent(Run(Initial(programs), actions).value)
    ensures var s := Run(Initial(programs), actions).value;
            && s.file == Concat(s.order)
            && Audit.VerifyFile(mac, key, s.file) == Ok(|s.order|)
            && s.todo.Keys == programs.Keys
            && forall t | t in programs :: programs[t] == RecordsOf(s.order, t) + s.todo[t]
  {
    var s := Run(Initial(programs), actions).value;
    QuiescentFile(programs, actions);
    OnlyThreadsWithPrograms(Initial(programs), actions);
    forall i | 0 <= i < |s.order| ensures IsRecord(mac, key, installationId, s.order[i].record) {
      EntriesFromPrograms(s.order, i);
      assert s.order[i].record in programs[s.order[i].thread];
    }
    ConcatVerifies(mac, key, installationId, s.order);
  }
}
