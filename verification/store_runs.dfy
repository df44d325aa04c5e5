/** The end of a rollback, and any number of rollbacks each of which may be cut off at any point. */
module StoreRuns {
  import opened Wrappers
  import opened Numbers
  import opened Text
  import opened Json
  import opened Canonical
  import opened JsonValue
  import opened Paths
  import opened Disk
  import opened Store
  import Ledger

  const THRESHOLD: nat := Ledger.THRESHOLD

  function CountersPath(dir: Path): Path { dir + [Normal("rollback_counters.json")] }

  function BlacklistPath(dir: Path): Path { dir + [Normal("blacklist.json")] }

  function TempFile(dir: Path, stamp: string): Path { dir + [Normal(".synqro_tmp_" + stamp + ".json")] }

  lemma NamesDiffer(dir: Path, stamp: string)
    ensures CountersPath(dir) != BlacklistPath(dir)
    ensures TempFile(dir, stamp) != CountersPath(dir) && TempFile(dir, stamp) != BlacklistPath(dir)
  {
    var n := |dir|;
    assert CountersPath(dir)[n].name[0] == 'r' && BlacklistPath(dir)[n].name[0] == 'b';
    assert TempFile(dir, stamp)[n].name[0] == '.';
  }

  datatype Config = Config(mac: Mac, key: bytes, dir: Path, defaultMode: Mode)

  /** What goes wrong after the files have been restored. */
  datatype Faults = Faults(successLogged: bool, counter: Fault, blacklist: Fault, blacklistLogged: bool)

  /** One rollback from the point where all files are restored, cut off after `cut` states. */
  datatype Attempt = Attempt(start: Files, version: string, counterStamp: string, blacklistStamp: string,
                             faults: Faults, cut: nat)

  function CounterPart(c: Config, a: Attempt): Counted {
    Increment(a.start, CountersPath(c.dir), TempFile(c.dir, a.counterStamp), a.version, c.defaultMode, a.faults.counter)
  }

  function BlacklistPart(c: Config, a: Attempt, files: Files): Outcome {
    AddToBlacklist(c.mac, c.key, files, BlacklistPath(c.dir), TempFile(c.dir, a.blacklistStamp), a.version,
                   c.defaultMode, a.faults.blacklist, a.faults.blacklistLogged)
  }

  /** The blacklist is touched only after a count that reached the threshold was stored. */
  function Sequel(counted: Counted, listed: Outcome): Outcome {
    if counted.outcome.result.Err? || counted.count < THRESHOLD then counted.outcome
    else Outcome(counted.outcome.trace + listed.trace, listed.result)
  }

  /** Steps 4 and 5 of a rollback. */
  function Finish(c: Config, a: Attempt): Outcome {
    if !a.faults.successLogged then Outcome([], Err(Internal))
    else
      var counted := CounterPart(c, a);
      Sequel(counted, BlacklistPart(c, a, Last(a.start, counted.outcome.trace)))
  }

  /** Steps 4 and 5 on a disk, when nothing cuts them off. */
  method FinishRollback(drive: Drive, c: Config, version: string, counterStamp: string, blacklistStamp: string,
                        faults: Faults) returns (r: Result<()>)
    requires drive.Valid() && drive.defaultMode == c.defaultMode
    modifies drive
    ensures drive.Valid()
    ensures var o := Finish(c, Attempt(old(drive.files), version, counterStamp, blacklistStamp, faults, 0));
            && r == o.result
            && drive.history == old(drive.history) + o.trace
            && drive.files == Last(old(drive.files), o.trace)
  {
    if !faults.successLogged {
      return Err(Internal);
    }
    ghost var counted, listed;
    r, counted, listed := CountThenList(drive, c, version, counterStamp, blacklistStamp, faults);
  }

  method CountThenList(drive: Drive, c: Config, version: string, counterStamp: string, blacklistStamp: string,
                       faults: Faults) returns (r: Result<()>, ghost counted: Counted, ghost listed: Outcome)
    requires drive.Valid() && drive.defaultMode == c.defaultMode
    modifies drive
    ensures drive.Valid()
    ensures var a := Attempt(old(drive.files), version, counterStamp, blacklistStamp, faults, 0);
            counted == CounterPart(c, a) && listed == BlacklistPart(c, a, Last(a.start, counted.outcome.trace))
    ensures var o := Sequel(counted, listed);
            && r == o.result
            && drive.history == old(drive.history) + o.trace
            && drive.files == Last(old(drive.files), o.trace)
  {
    ghost var start := drive.files;
    ghost var a := Attempt(start, version, counterStamp, blacklistStamp, faults, 0);
    var next;
    r, next, counted := IncrementCounter(drive, CountersPath(c.dir), TempFile(c.dir, counterStamp), version,
                                         faults.counter);
    if r.Err? || next < THRESHOLD {
      listed := BlacklistPart(c, a, Last(start, counted.outcome.trace));
      return;
    }
    r, listed := BlacklistVersion(drive, c.mac, c.key, BlacklistPath(c.dir), TempFile(c.dir, blacklistStamp),
                                  version, faults.blacklist, faults.blacklistLogged);
    Glue(start, drive.files, old(drive.history), drive.history, counted.outcome.trace, listed.trace);
  }

  // ------------------------------------------------------- what is stored

  /** Both files are complete documents: absent, or exactly what this engine writes. */
  ghost predicate Good(c: Config, files: Files) {
    && LoadCounters(files, CountersPath(c.dir)).Ok?
    && GoodCounters(LoadCounters(files, CountersPath(c.dir)).value)
    && (BlacklistPath(c.dir) in files ==>
          && LoadBlacklist(c.mac, c.key, files, BlacklistPath(c.dir)).Ok?
          && Ascending(LoadBlacklist(c.mac, c.key, files, BlacklistPath(c.dir)).value))
  }

  function StoredCount(c: Config, files: Files, version: string): nat {
    match LoadCounters(files, CountersPath(c.dir)) case Ok(ms) => AsCount(Lookup(ms, version)) case Err(_) => 0
  }

  function Banned(c: Config, files: Files): seq<string> {
    OldVersions(c.mac, c.key, files, BlacklistPath(c.dir))
  }

  /** The files as the attempt leaves them: cut off, or at its end. */
  function End(c: Config, a: Attempt): Files {
    CutAt(a.start, Finish(c, a).trace, a.cut)
  }

  function CutAt(start: Files, t: Trace, cut: nat): Files {
    Last(start, if cut < |t| then t[..cut] else t)
  }

  predicate Completed(c: Config, a: Attempt) {
    a.cut >= |Finish(c, a).trace|
  }

  /** Did this attempt get as far as replacing the counter file? */
  predicate Increments(c: Config, a: Attempt) {
    a.faults.successLogged && CounterPart(c, a).outcome.result.Ok? && a.cut >= |CounterPart(c, a).outcome.trace|
  }

  // ------------------------------------------------------------ one attempt

  /** The store of `h` is that of `files`. */
  ghost predicate SameStore(c: Config, h: Files, files: Files) {
    SameAt(h, files, CountersPath(c.dir)) && SameAt(h, files, BlacklistPath(c.dir))
  }

  lemma SameStoreReads(c: Config, h: Files, files: Files)
    requires SameStore(c, h, files)
    ensures Good(c, h) <==> Good(c, files)
    ensures Banned(c, h) == Banned(c, files)
    ensures forall w :: StoredCount(c, h, w) == StoredCount(c, files, w)
  {}

  /** Cutting off the counter part before its rename leaves the store as it was. */
  lemma CounterNotReplaced(c: Config, a: Attempt, k: nat)
    requires k < |CounterPart(c, a).outcome.trace|
    requires CounterPart(c, a).outcome.result.Err? || k < |CounterPart(c, a).outcome.trace| - 1
    ensures SameStore(c, CounterPart(c, a).outcome.trace[k], a.start)
  {
    var ms := LoadCounters(a.start, CountersPath(c.dir)).value;
    var content := CountersBytes(MapInsert(ms, a.version, Num(NextCount(ms, a.version))));
    NamesDiffer(c.dir, a.counterStamp);
    ReplaceStates(a.start, CountersPath(c.dir), TempFile(c.dir, a.counterStamp), content, c.defaultMode,
            a.faults.counter, k,
                  CountersPath(c.dir));
    ReplaceStates(a.start, CountersPath(c.dir), TempFile(c.dir, a.counterStamp), content, c.defaultMode,
            a.faults.counter, k,
                  BlacklistPath(c.dir));
  }

  ghost predicate OneMore(c: Config, before: Files, files: Files, version: string) {
    forall w :: StoredCount(c, files, w) ==
      if w == version then Min(StoredCount(c, before, w) + 1, U32_MAX) else StoredCount(c, before, w)
  }

  /** Once the counter file is replaced, exactly one more rollback of this version is on record. */
  lemma CounterReplaced(c: Config, a: Attempt)
    requires Good(c, a.start) && CounterPart(c, a).outcome.result.Ok?
    ensures var files := Last(a.start, CounterPart(c, a).outcome.trace);
            && Good(c, files) && OneMore(c, a.start, files, a.version)
            && StoredCount(c, files, a.version) == CounterPart(c, a).count
            && SameAt(files, a.start, BlacklistPath(c.dir))
  {
    var ms := LoadCounters(a.start, CountersPath(c.dir)).value;
    var count := CounterPart(c, a).count;
    NamesDiffer(c.dir, a.counterStamp);
    IncrementDone(a.start, CountersPath(c.dir), TempFile(c.dir, a.counterStamp), a.version, c.defaultMode,
            a.faults.counter);
    CounterLeavesBlacklist(c, a);
    forall w ensures Lookup(MapInsert(ms, a.version, Num(count)), w) ==
                     if w == a.version then Some(Num(count)) else Lookup(ms, w)
    {
      MapInsertLookup(ms, a.version, Num(count), w);
    }
  }

  lemma CounterLeavesBlacklist(c: Config, a: Attempt)
    requires CounterPart(c, a).outcome.result.Ok?
    ensures CounterPart(c, a).outcome.trace != []
    ensures SameAt(Last(a.start, CounterPart(c, a).outcome.trace), a.start, BlacklistPath(c.dir))
  {
    var ms := LoadCounters(a.start, CountersPath(c.dir)).value;
    var content := CountersBytes(MapInsert(ms, a.version, Num(NextCount(ms, a.version))));
    var temp := TempFile(c.dir, a.counterStamp);
    var o := Replace(a.start, CountersPath(c.dir), temp, content, c.defaultMode, a.faults.counter);
    NamesDiffer(c.dir, a.counterStamp);
    ReplaceStates(a.start, CountersPath(c.dir), temp, content, c.defaultMode, a.faults.counter, |o.trace| - 1,
                  BlacklistPath(c.dir));
  }

  /** The counters as they were, and the new list. */
  lemma ListReplaced(c: Config, files: Files, h: Files, version: string)
    requires Good(c, files) && SameAt(h, files, CountersPath(c.dir))
    requires var p := BlacklistPath(c.dir);
             p in h && h[p].content == BlacklistBytes(SignedList(c.mac, c.key, WithVersion(Banned(c, files), version)))
    ensures Good(c, h) && Banned(c, h) == WithVersion(Banned(c, files), version)
  {
    WithVersionAscending(Banned(c, files), version);
    WrittenListLoads(c.mac, c.key, h, BlacklistPath(c.dir), WithVersion(Banned(c, files), version));
  }

  /** Any state of the blacklist part: the counters stay, and the list is the old one or has the version added. */
  lemma BlacklistStates(c: Config, a: Attempt, files: Files, k: nat)
    requires Good(c, files) && k < |BlacklistPart(c, a, files).trace|
    ensures var h := BlacklistPart(c, a, files).trace[k];
            && Good(c, h) && SameAt(h, files, CountersPath(c.dir))
            && (Banned(c, h) == Banned(c, files) || Banned(c, h) == WithVersion(Banned(c, files), a.version))
            && (BlacklistPart(c, a, files).result.Ok? && k == |BlacklistPart(c, a, files).trace| - 1 ==>
                  Banned(c, h) == WithVersion(Banned(c, files), a.version))
  {
    var p := BlacklistPath(c.dir);
    var temp := TempFile(c.dir, a.blacklistStamp);
    var versions := WithVersion(Banned(c, files), a.version);
    var content := BlacklistBytes(SignedList(c.mac, c.key, versions));
    var o := Replace(files, p, temp, content, c.defaultMode, a.faults.blacklist);
    NamesDiffer(c.dir, a.blacklistStamp);
    ReplaceStates(files, p, temp, content, c.defaultMode, a.faults.blacklist, k, p);
    ReplaceStates(files, p, temp, content, c.defaultMode, a.faults.blacklist, k, CountersPath(c.dir));
    if o.result.Ok? && k == |o.trace| - 1 {
      ListReplaced(c, files, o.trace[k], a.version);
    } else {
      SameStoreGood(c, o.trace[k], files);
      SameStoreReads(c, o.trace[k], files);
    }
  }

  /** Cutting off a sequel before its first part is over cuts off the first part. */
  lemma CutBefore(start: Files, counted: Counted, listed: Outcome, cut: nat)
    requires counted.outcome.result.Err? || cut < |counted.outcome.trace|
    ensures CutAt(start, Sequel(counted, listed).trace, cut) == CutAt(start, counted.outcome.trace, cut)
  {
    var t := Sequel(counted, listed).trace;
    if t != counted.outcome.trace {
      assert t[..cut] == counted.outcome.trace[..cut];
    }
  }

  /** After its first part a sequel is in some state of its second part. */
  lemma CutAfter(start: Files, counted: Counted, listed: Outcome, cut: nat) returns (k: int)
    requires counted.outcome.result.Ok? && cut >= |counted.outcome.trace|
    ensures -1 <= k < |listed.trace|
    ensures CutAt(start, Sequel(counted, listed).trace, cut) ==
            if k < 0 then Last(start, counted.outcome.trace) else listed.trace[k]
    ensures k >= 0 ==> counted.count >= THRESHOLD
    ensures cut >= |Sequel(counted, listed).trace| && counted.count >= THRESHOLD ==> k == |listed.trace| - 1
  {
    var t := Sequel(counted, listed).trace;
    var n := if cut < |t| then cut else |t|;
    k := n - |counted.outcome.trace| - 1;
    if n == |counted.outcome.trace| { assert t[..n] == counted.outcome.trace; }
  }

  lemma EndBeforeCounter(c: Config, a: Attempt)
    requires a.faults.successLogged && !Increments(c, a)
    ensures SameStore(c, End(c, a), a.start)
  {
    var counted := CounterPart(c, a);
    CutBefore(a.start, counted, BlacklistPart(c, a, Last(a.start, counted.outcome.trace)), a.cut);
    CounterCut(c, a);
  }

  lemma CounterCut(c: Config, a: Attempt)
    requires CounterPart(c, a).outcome.result.Err? || a.cut < |CounterPart(c, a).outcome.trace|
    ensures SameStore(c, CutAt(a.start, CounterPart(c, a).outcome.trace, a.cut), a.start)
  {
    var t := CounterPart(c, a).outcome.trace;
    var n := if a.cut < |t| then a.cut else |t|;
    if n > 0 { CounterNotReplaced(c, a, n - 1); }
  }

  /** Up to the replacement of the counter file nothing is stored. */
  lemma EarlyEnd(c: Config, a: Attempt)
    requires !Increments(c, a)
    ensures SameStore(c, End(c, a), a.start)
  {
    if a.faults.successLogged { EndBeforeCounter(c, a); }
  }

  /** The list stays as it is, or it gets a version that has been rolled back often enough. */
  ghost predicate ListGrows(c: Config, before: Files, files: Files, version: string) {
    || Banned(c, files) == Banned(c, before)
    || (Banned(c, files) == WithVersion(Banned(c, before), version) && StoredCount(c, files, version) >= THRESHOLD)
  }

  /** From then on one more rollback is on record, and the list may have the version added. */
  lemma LateEnd(c: Config, a: Attempt)
    requires Good(c, a.start) && Increments(c, a)
    ensures Good(c, End(c, a)) && OneMore(c, a.start, End(c, a), a.version)
    ensures ListGrows(c, a.start, End(c, a), a.version)
  {
    var files := Last(a.start, CounterPart(c, a).outcome.trace);
    CounterReplaced(c, a);
    var k := CutAfter(a.start, CounterPart(c, a), BlacklistPart(c, a, files), a.cut);
    if k >= 0 {
      BlacklistStates(c, a, files, k);
      ListedLate(c, a.start, files, BlacklistPart(c, a, files).trace[k], a.version);
    }
  }

  lemma ListedLate(c: Config, start: Files, files: Files, h: Files, version: string)
    requires Good(c, h) && OneMore(c, start, files, version) && SameAt(h, files, CountersPath(c.dir))
    requires SameAt(files, start, BlacklistPath(c.dir)) && StoredCount(c, files, version) >= THRESHOLD
    requires Banned(c, h) == Banned(c, files) || Banned(c, h) == WithVersion(Banned(c, files), version)
    ensures OneMore(c, start, h, version) && ListGrows(c, start, h, version)
  {}

  /** What one attempt, cut off anywhere, does to the store. */
  lemma AttemptEffect(c: Config, a: Attempt)
    requires Good(c, a.start)
    ensures Good(c, End(c, a))
    ensures if Increments(c, a) then OneMore(c, a.start, End(c, a), a.version)
            else forall w :: StoredCount(c, End(c, a), w) == StoredCount(c, a.start, w)
    ensures ListGrows(c, a.start, End(c, a), a.version)
  {
    if Increments(c, a) {
      LateEnd(c, a);
    } else {
      EarlyEnd(c, a);
      SameStoreReads(c, End(c, a), a.start);
    }
  }

  /** A rollback that returns Ok with a count of three or more has its version on the list. */
  lemma OkMeansBanned(c: Config, a: Attempt)
    requires Good(c, a.start)
    ensures Completed(c, a) && Finish(c, a).result.Ok? && StoredCount(c, End(c, a), a.version) >= THRESHOLD ==>
              a.version in Banned(c, End(c, a))
  {
    if Completed(c, a) && Finish(c, a).result.Ok? && StoredCount(c, End(c, a), a.version) >= THRESHOLD {
      CounterReplaced(c, a);
      OkAfterCount(c, a, CounterPart(c, a), Last(a.start, CounterPart(c, a).outcome.trace));
    }
  }

  lemma OkAfterCount(c: Config, a: Attempt, counted: Counted, files: Files)
    requires Good(c, files) && a.faults.successLogged
    requires counted == CounterPart(c, a) && files == Last(a.start, counted.outcome.trace)
    requires StoredCount(c, files, a.version) == counted.count
    requires Completed(c, a) && Finish(c, a).result.Ok? && StoredCount(c, End(c, a), a.version) >= THRESHOLD
    ensures a.version in Banned(c, End(c, a))
  {
    var listed := BlacklistPart(c, a, files);
    var k := CutAfter(a.start, counted, listed, a.cut);
    if counted.count >= THRESHOLD {
      ListedNotEmpty(c, a, files);
      BlacklistStates(c, a, files, k);
      WithVersionAscending(Banned(c, files), a.version);
    }
  }

  lemma ListedNotEmpty(c: Config, a: Attempt, files: Files)
    requires BlacklistPart(c, a, files).result.Ok?
    ensures BlacklistPart(c, a, files).trace != []
  {}

  /**
   * Exactly when the end of a rollback returns Ok: the success is logged and the counter replaced, and if this was the
   * third rollback of the version or a later one, the blacklist is replaced and logged too.
   */
  lemma FinishExactly(c: Config, a: Attempt)
    requires Good(c, a.start)
    ensures Finish(c, a).result.Ok? <==>
            && a.faults.successLogged && a.faults.counter.NoFault?
            && (StoredCount(c, a.start, a.version) < 2 || (a.faults.blacklist.NoFault? && a.faults.blacklistLogged))
  {
    CountIsNext(c, a);
  }

  lemma CountIsNext(c: Config, a: Attempt)
    requires Good(c, a.start)
    ensures CounterPart(c, a).outcome.result.Ok? <==> a.faults.counter.NoFault?
    ensures CounterPart(c, a).count == Min(StoredCount(c, a.start, a.version) + 1, U32_MAX)
  {
    GoodCount(LoadCounters(a.start, CountersPath(c.dir)).value, a.version);
  }

  /** What it has done then: one more rollback is on record, and from the third one on the version is on the list. */
  lemma FinishDone(c: Config, a: Attempt)
    requires Good(c, a.start) && Finish(c, a).result.Ok?
    ensures var end, n := Last(a.start, Finish(c, a).trace), Min(StoredCount(c, a.start, a.version) + 1, U32_MAX);
            && (forall w :: StoredCount(c, end, w) == if w == a.version then n else StoredCount(c, a.start, w))
            && Banned(c, end) == if n >= 3 then WithVersion(Banned(c, a.start), a.version) else Banned(c, a.start)
  {
    var counted := CounterPart(c, a);
    var files := Last(a.start, counted.outcome.trace);
    var listed := BlacklistPart(c, a, files);
    CountIsNext(c, a);
    CounterReplaced(c, a);
    SameList(c, files, a.start);
    if counted.count >= THRESHOLD {
      ListedNotEmpty(c, a, files);
      BlacklistStates(c, a, files, |listed.trace| - 1);
      LastConcat(a.start, counted.outcome.trace, listed.trace);
      SameCounters(c, Last(files, listed.trace), files);
    }
  }

  lemma SameList(c: Config, h: Files, files: Files)
    requires SameAt(h, files, BlacklistPath(c.dir))
    ensures Banned(c, h) == Banned(c, files)
  {}

  lemma SameCounters(c: Config, h: Files, files: Files)
    requires SameAt(h, files, CountersPath(c.dir))
    ensures forall w :: StoredCount(c, h, w) == StoredCount(c, files, w)
  {}

  predicate DirectlyIn(p: Path, dir: Path) {
    p != [] && p[..|p| - 1] == dir
  }

  /** Files elsewhere stay as they are, at every state. */
  lemma FinishKeeps(c: Config, a: Attempt, p: Path)
    requires !DirectlyIn(p, c.dir)
    ensures Untouched(a.start, Finish(c, a).trace, p)
  {
    if a.faults.successLogged {
      var counted := CounterPart(c, a);
      var files := Last(a.start, counted.outcome.trace);
      CounterKeeps(c, a, p);
      ListKeeps(c, a, files, p);
      UntouchedConcat(a.start, counted.outcome.trace, BlacklistPart(c, a, files).trace, p);
    }
  }

  lemma CounterKeeps(c: Config, a: Attempt, p: Path)
    requires !DirectlyIn(p, c.dir)
    ensures Untouched(a.start, CounterPart(c, a).outcome.trace, p)
  {
    var t := CounterPart(c, a).outcome.trace;
    if t != [] {
      var ms := LoadCounters(a.start, CountersPath(c.dir)).value;
      var content := CountersBytes(MapInsert(ms, a.version, Num(NextCount(ms, a.version))));
      NamesDiffer(c.dir, a.counterStamp);
      forall k | 0 <= k < |t| ensures SameAt(t[k], a.start, p) {
        ReplaceStates(a.start, CountersPath(c.dir), TempFile(c.dir, a.counterStamp), content, c.defaultMode,
                      a.faults.counter, k, p);
      }
    }
  }

  lemma ListKeeps(c: Config, a: Attempt, files: Files, p: Path)
    requires !DirectlyIn(p, c.dir)
    ensures Untouched(files, BlacklistPart(c, a, files).trace, p)
  {
    var t := BlacklistPart(c, a, files).trace;
    var content := BlacklistBytes(SignedList(c.mac, c.key, WithVersion(Banned(c, files), a.version)));
    NamesDiffer(c.dir, a.blacklistStamp);
    forall k | 0 <= k < |t| ensures SameAt(t[k], files, p) {
      ReplaceStates(files, BlacklistPath(c.dir), TempFile(c.dir, a.blacklistStamp), content, c.defaultMode,
                    a.faults.blacklist, k, p);
    }
  }

  /** Old or new: the counts are as before or one of them has advanced, and so with the list. */
  ghost predicate OldOrNew(c: Config, before: Files, files: Files, version: string) {
    && Good(c, files)
    && (OneMore(c, before, files, version) || forall w :: StoredCount(c, files, w) == StoredCount(c, before, w))
    && ListGrows(c, before, files, version)
  }

  lemma OldOrNewSince(c: Config, before: Files, middle: Files, files: Files, version: string)
    requires SameStore(c, middle, before) && OldOrNew(c, middle, files, version)
    ensures OldOrNew(c, before, files, version)
  {
    SameStoreReads(c, middle, before);
  }

  /** At every state of the end of a rollback, both files are old or new. */
  lemma FinishStates(c: Config, a: Attempt, k: nat)
    requires Good(c, a.start) && k < |Finish(c, a).trace|
    ensures OldOrNew(c, a.start, Finish(c, a).trace[k], a.version)
  {
    var cut := a.(cut := k + 1);
    CutAfterState(c, a, k);
    AttemptEffect(c, cut);
  }

  lemma CutAfterState(c: Config, a: Attempt, k: nat)
    requires k < |Finish(c, a).trace|
    ensures End(c, a.(cut := k + 1)) == Finish(c, a).trace[k]
  {
    FinishIgnoresCut(c, a, k + 1);
    StateAt(a.start, Finish(c, a).trace, k);
  }

  lemma FinishIgnoresCut(c: Config, a: Attempt, cut: nat)
    ensures Finish(c, a.(cut := cut)) == Finish(c, a)
  {}

  lemma StateAt(start: Files, t: Trace, k: nat)
    requires k < |t|
    ensures CutAt(start, t, k + 1) == t[k]
  {}

  // ---------------------------------------------------- any run of attempts

  /** Nothing but the attempts themselves writes the two files, and at the beginning there are none. */
  ghost predicate Follows(c: Config, run: seq<Attempt>, i: nat)
    requires i < |run|
  {
    if i == 0 then CountersPath(c.dir) !in run[0].start && BlacklistPath(c.dir) !in run[0].start
    else SameStore(c, run[i].start, End(c, run[i - 1]))
  }

  ghost predicate Chained(c: Config, run: seq<Attempt>) {
    forall i | 0 <= i < |run| :: Follows(c, run, i)
  }

  function BookOf(c: Config, files: Files): Ledger.Book {
    Ledger.Book(w => StoredCount(c, files, w), set w | w in Banned(c, files))
  }

  function EntryOf(c: Config, a: Attempt): Ledger.Entry {
    Ledger.Entry(a.version, Increments(c, a), BookOf(c, a.start), BookOf(c, End(c, a)))
  }

  /** The run as a ledger. */
  function Entries(c: Config, run: seq<Attempt>): (r: seq<Ledger.Entry>)
    ensures |r| == |run| && forall i | 0 <= i < |run| :: r[i] == EntryOf(c, run[i])
  {
    seq(|run|, i requires 0 <= i < |run| => EntryOf(c, run[i]))
  }

  lemma AttemptIsFair(c: Config, a: Attempt)
    requires Good(c, a.start)
    ensures Ledger.Fair(EntryOf(c, a))
  {
    AttemptEffect(c, a);
    FairBetween(c, a.start, End(c, a), a.version, Increments(c, a));
  }

  lemma BannedBetween(c: Config, before: Files, files: Files, version: string)
    requires Good(c, before) && ListGrows(c, before, files, version)
    ensures var x, y := BookOf(c, before), BookOf(c, files);
            || y.banned == x.banned
            || (y.banned == x.banned + {version} && y.counts(version) >= THRESHOLD)
  {
    WithVersionAscending(Banned(c, before), version);
  }

  lemma CountBetween(c: Config, before: Files, files: Files, version: string, counted: bool, w: string)
    requires if counted then OneMore(c, before, files, version)
             else StoredCount(c, files, w) == StoredCount(c, before, w)
    ensures BookOf(c, files).counts(w) ==
            if counted && w == version then Min(BookOf(c, before).counts(w) + 1, U32_MAX)
            else BookOf(c, before).counts(w)
  {}

  lemma FairBetween(c: Config, before: Files, files: Files, version: string, counted: bool)
    requires Good(c, before) && ListGrows(c, before, files, version)
    requires if counted then OneMore(c, before, files, version)
             else forall w :: StoredCount(c, files, w) == StoredCount(c, before, w)
    ensures Ledger.Fair(Ledger.Entry(version, counted, BookOf(c, before), BookOf(c, files)))
  {
    BannedBetween(c, before, files, version);
    forall w { CountBetween(c, before, files, version, counted, w); }
  }

  lemma BooksAgree(c: Config, h: Files, files: Files)
    requires SameStore(c, h, files)
    ensures Ledger.SameBook(BookOf(c, h), BookOf(c, files))
  {
    SameStoreReads(c, h, files);
  }

  lemma GoodFollows(c: Config, run: seq<Attempt>, n: nat)
    requires Chained(c, run) && n < |run| && (n > 0 ==> Good(c, End(c, run[n - 1])))
    ensures Good(c, run[n].start)
  {
    assert Follows(c, run, n);
    if n > 0 { SameStoreGood(c, run[n].start, End(c, run[n - 1])); }
  }

  lemma SameStoreGood(c: Config, files: Files, end: Files)
    requires SameStore(c, files, end) && Good(c, end)
    ensures Good(c, files)
  {}

  lemma StaysGood(c: Config, a: Attempt)
    requires Good(c, a.start)
    ensures Good(c, End(c, a))
  {
    AttemptEffect(c, a);
  }

  /** What each attempt keeps and the next one finds, holds throughout. */
  lemma {:induction false} Throughout(good: Files -> bool, starts: seq<Files>, ends: seq<Files>, n: nat)
    requires n < |starts| == |ends| && good(starts[0])
    requires forall i | 0 <= i < |starts| && good(starts[i]) :: good(ends[i])
    requires forall i | 0 < i < |starts| && good(ends[i - 1]) :: good(starts[i])
    ensures good(starts[n]) && good(ends[n])
  {
    if n > 0 { Throughout(good, starts, ends, n - 1); }
  }

  /** However the rollbacks are interrupted, both files are complete documents before and after each of them. */
  lemma AlwaysComplete(c: Config, run: seq<Attempt>, n: nat)
    requires Chained(c, run) && n < |run|
    ensures Good(c, run[n].start) && Good(c, End(c, run[n]))
  {
    var good := (f: Files) => Good(c, f);
    forall i | 0 <= i < |run| && good(Starts(run)[i]) ensures good(Ends(c, run)[i]) { StaysGood(c, run[i]); }
    forall i | 0 < i < |run| && good(Ends(c, run)[i - 1]) ensures good(Starts(run)[i]) { GoodFollows(c, run, i); }
    GoodFollows(c, run, 0);
    Throughout(good, Starts(run), Ends(c, run), n);
  }

  function Starts(run: seq<Attempt>): (r: seq<Files>)
    ensures |r| == |run| && forall i | 0 <= i < |r| :: r[i] == run[i].start
  {
    seq(|run|, i requires 0 <= i < |run| => run[i].start)
  }

  function Ends(c: Config, run: seq<Attempt>): (r: seq<Files>)
    ensures |r| == |run| && forall i | 0 <= i < |r| :: r[i] == End(c, run[i])
  {
    seq(|run|, i requires 0 <= i < |run| => End(c, run[i]))
  }

  lemma RunIsKept(c: Config, run: seq<Attempt>)
    requires Chained(c, run)
    ensures Ledger.Kept(Entries(c, run))
  {
    var es := Entries(c, run);
    forall i | 0 <= i < |es| ensures Ledger.Fair(es[i]) {
      AlwaysComplete(c, run, i);
      AttemptIsFair(c, run[i]);
    }
    if es != [] { StartsEmpty(c, run); }
    forall i | 0 < i < |es| ensures Ledger.SameBook(es[i].before, es[i - 1].after) {
      assert Follows(c, run, i);
      BooksAgree(c, run[i].start, End(c, run[i - 1]));
    }
  }

  lemma StartsEmpty(c: Config, run: seq<Attempt>)
    requires Chained(c, run) && run != []
    ensures Ledger.Empty(BookOf(c, run[0].start))
  {
    assert Follows(c, run, 0);
  }

  // ------------------------------------------------------------ main results

  /** Every stored count is the number of rollbacks recorded for that version, up to the largest 32-bit number. */
  lemma CountsAddUp(c: Config, run: seq<Attempt>, n: nat, version: string)
    requires Chained(c, run) && n < |run|
    ensures StoredCount(c, End(c, run[n]), version) ==
            Min(Ledger.CountOf(Entries(c, run), version, n + 1), U32_MAX)
  {
    RunIsKept(c, run);
    Ledger.CountsAddUp(Entries(c, run), n, version);
  }

  /** No stored count ever falls. */
  lemma CountsNeverFall(c: Config, run: seq<Attempt>, i: nat, n: nat, version: string)
    requires Chained(c, run) && i <= n < |run|
    ensures StoredCount(c, End(c, run[i]), version) <= StoredCount(c, End(c, run[n]), version)
  {
    RunIsKept(c, run);
    Ledger.CountsNeverFall(Entries(c, run), i, n, version);
  }

  /** No version ever leaves the list. */
  lemma BannedForever(c: Config, run: seq<Attempt>, i: nat, n: nat, version: string)
    requires Chained(c, run) && i <= n < |run|
    ensures version in Banned(c, End(c, run[i])) ==> version in Banned(c, End(c, run[n]))
  {
    RunIsKept(c, run);
    Ledger.BannedForever(Entries(c, run), i, n);
    assert version in Banned(c, End(c, run[i])) ==> version in Entries(c, run)[i].after.banned;
  }

  /** Only versions with three recorded rollbacks are ever on the list. */
  lemma BannedMeansThree(c: Config, run: seq<Attempt>, n: nat, version: string)
    requires Chained(c, run) && n < |run|
    ensures version in Banned(c, End(c, run[n])) ==> Ledger.CountOf(Entries(c, run), version, n + 1) >= THRESHOLD
  {
    RunIsKept(c, run);
    if version in Banned(c, End(c, run[n])) {
      assert version in Entries(c, run)[n].after.banned;
      Ledger.BannedMeansThree(Entries(c, run), n, version);
    }
  }

  /**
   * When a rollback returns Ok and three rollbacks of its version are on record, the version is on the list from
   * then on, even if an earlier rollback died between writing the two files.
   */
  lemma ThreeMeansBanned(c: Config, run: seq<Attempt>, i: nat, n: nat)
    requires Chained(c, run) && i <= n < |run|
    ensures Completed(c, run[i]) && Finish(c, run[i]).result.Ok?
            && Ledger.CountOf(Entries(c, run), run[i].version, i + 1) >= THRESHOLD ==>
              run[i].version in Banned(c, End(c, run[n]))
  {
    AlwaysComplete(c, run, i);
    CountsAddUp(c, run, i, run[i].version);
    OkMeansBanned(c, run[i]);
    BannedForever(c, run, i, n, run[i].version);
  }

  /** The check of a version answers exactly whether the version is on the list; it never fails. */
  lemma CheckAnswers(c: Config, run: seq<Attempt>, n: nat, version: string)
    requires Chained(c, run) && n < |run|
    ensures IsBlacklisted(c.mac, c.key, End(c, run[n]), BlacklistPath(c.dir), version) ==
            Ok(version in Banned(c, End(c, run[n])))
  {
    AlwaysComplete(c, run, n);
  }
}
