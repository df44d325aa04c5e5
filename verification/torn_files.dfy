/** What a crash in the middle of a plain write leaves behind: a torn log record and a torn snapshot manifest. */
module TornFiles {
  import opened Wrappers
  import opened Sequences
  import opened Text
  import opened Json
  import opened Canonical
  import opened JsonValue
  import opened Audit
  import opened RestoreGuarantees
  import opened Torn
  import Disk
  import Glued
  import Paths
  import Restore
  import Snapshot

  // ------------------------------------------------------------ the audit log

  lemma TornLineFails(mac: Mac, key: bytes, installationId: string, e: Event, n: nat)
    requires 0 < n < |RecordLine(mac, key, installationId, e)|
    ensures VerifyLine(mac, key, RecordLine(mac, key, installationId, e)[..n]).Err?
  {
    RecordText(mac, key, installationId, e);
    TornObjectFails(mac, key, RecordJson(mac, key, installationId, e), n);
  }

  lemma TornObjectFails(mac: Mac, key: bytes, j: Json, n: nat)
    requires j.Obj? && !IsWhiteSpace(ToText(j)[0]) && 0 < n < |Encode(ToText(j))|
    ensures VerifyLine(mac, key, Encode(ToText(j))[..n]).Err?
  {
    var whole := ToText(j);
    var part := Encode(whole)[..n];
    TornEncoding(whole, n);
    TornBytes(j.members, Compact, n);
    if Decode(part).Some? {
      var text := Decode(part).value;
      assert text != [] && text[0] == whole[0];
    }
  }

  lemma OneLine(b: bytes)
    requires b != [] && 0x0A !in b
    ensures Lines(b) == [b]
  {
    assert forall i | 0 <= i < |b| :: b[i] != 0x0A;
  }

  /** A log that ends in the middle of a record never verifies, whatever is in front of the torn record. */
  lemma TornRecordDetected(mac: Mac, key: bytes, before: bytes, installationId: string, e: Event, n: nat)
    requires Terminated(before) && 0 < n < |RecordLine(mac, key, installationId, e)|
    ensures VerifyFile(mac, key, before + RecordLine(mac, key, installationId, e)[..n]).Err?
  {
    var part := RecordLine(mac, key, installationId, e)[..n];
    RecordOnOneLine(mac, key, installationId, e);
    assert 0x0A !in part;
    VerifyConcat(mac, key, before, part);
    OneLine(part);
    TornLineFails(mac, key, installationId, e, n);
  }

  /** All keys of a record begin with a letter. */
  lemma RecordOpens(mac: Mac, key: bytes, installationId: string, e: Event)
    ensures Glued.Opens(ToText(RecordJson(mac, key, installationId, e)))
  {
    var all := RecordFields(mac, key, installationId, e);
    var members := RecordJson(mac, key, installationId, e).members;
    RecordIsMapOf(mac, key, installationId, e);
    MapOfLookup(all, 0);
    assert members != [];
    MapOfMembers(all, members[0]);
    var i :| 0 <= i < |all| && all[i] == members[0];
    assert all[0].key[0] == 't' && all[1].key[0] == 'e' && all[2].key[0] == 's' && all[3].key[0] == 'i';
    assert all[4].key[0] == 'd' && all[5].key[0] == 'l';
    Glued.FirstKeyOpens(members);
  }

  lemma GluedObjectFails(mac: Mac, key: bytes, j: Json, n: nat, q: string)
    requires j.Obj? && ToText(j) != [] && !IsWhiteSpace(ToText(j)[0]) && 0 < n <= |Encode(ToText(j))| && Glued.Opens(q)
    ensures VerifyLine(mac, key, Encode(ToText(j))[..n] + Encode(q)).Err?
  {
    var whole := ToText(j);
    var k := Glued.GluedEncoding(whole, n, q);
    var line := Encode(whole)[..n] + Encode(q);
    if Decode(line).Some? {
      Glued.GluedText(j.members, k, q);
      assert (whole[..k] + q)[0] == whole[0];
    }
  }

  lemma OneTerminatedLine(g: bytes)
    requires g != [] && 0x0A !in g && StripReturn(g) == g
    ensures Lines(g + [0x0A]) == [g]
  {
    LinesCons(g, []);
    assert g + [0x0A] + [] == g + [0x0A];
    assert [g] + Lines([]) == [g];
  }

  lemma LastByteStays(x: bytes, y: bytes)
    requires y != [] && StripReturn(y) == y
    ensures StripReturn(x + y) == x + y
  {}

  /**
   * What is logged after a torn record is lost with it: the next record lands on the same line, and the log never
   * verifies again, whatever is logged later. It does not matter where the first record was torn, even if only its
   * newline is missing.
   */
  lemma TornRecordSpoilsLog(mac: Mac, key: bytes, before: bytes, installationId: string, e: Event, n: nat, next: Event,
                            later: bytes)
    requires Terminated(before) && 0 < n <= |RecordLine(mac, key, installationId, e)|
    ensures VerifyFile(mac, key, before + (RecordLine(mac, key, installationId, e)[..n] +
                                           Record(mac, key, installationId, next) + later)).Err?
  {
    var torn, line := RecordLine(mac, key, installationId, e)[..n], RecordLine(mac, key, installationId, next);
    var glued := torn + line;
    RecordText(mac, key, installationId, e);
    RecordText(mac, key, installationId, next);
    RecordOpens(mac, key, installationId, next);
    GluedObjectFails(mac, key, RecordJson(mac, key, installationId, e), n,
                     ToText(RecordJson(mac, key, installationId, next)));
    GluedLine(mac, key, installationId, e, n, next);
    assert torn + Record(mac, key, installationId, next) == glued + [0x0A] by { Assoc(torn, line, [0x0A]); }
    LineSpoils(mac, key, before, glued, later);
  }

  /** A part of a record at the end: exactly when the log still verifies. A missing newline alone does no harm. */
  lemma TornRecordExactly(mac: Mac, key: bytes, before: bytes, installationId: string, e: Event, n: nat)
    requires Terminated(before) && UniqueKeys(e.data) && n <= |Record(mac, key, installationId, e)|
    ensures VerifyFile(mac, key, before + Record(mac, key, installationId, e)[..n]).Ok? <==>
            VerifyFile(mac, key, before).Ok? && (n == 0 || n >= |RecordLine(mac, key, installationId, e)|)
  {
    var line, record := RecordLine(mac, key, installationId, e), Record(mac, key, installationId, e);
    if n == 0 {
      assert before + record[..n] == before;
    } else if n < |line| {
      assert record[..n] == line[..n];
      TornRecordDetected(mac, key, before, installationId, e, n);
    } else {
      VerifyConcat(mac, key, before, record[..n]);
      WholeLine(mac, key, installationId, e, n);
    }
  }

  lemma WholeLine(mac: Mac, key: bytes, installationId: string, e: Event, n: nat)
    requires UniqueKeys(e.data)
    requires |RecordLine(mac, key, installationId, e)| <= n <= |Record(mac, key, installationId, e)|
    ensures VerifyFile(mac, key, Record(mac, key, installationId, e)[..n]) == Ok(1)
  {
    var line, record := RecordLine(mac, key, installationId, e), Record(mac, key, installationId, e);
    RecordVerifies(mac, key, installationId, e);
    RecordOnOneLine(mac, key, installationId, e);
    RecordText(mac, key, installationId, e);
    if n == |line| {
      assert record[..n] == line;
      OneLine(line);
    } else {
      assert record[..n] == line + [0x0A];
      OneTerminatedLine(line);
    }
    CountOne(b => VerifyLine(mac, key, b), line);
  }

  lemma CountOne(verify: bytes -> Result<nat>, line: bytes)
    requires verify(line) == Ok(1)
    ensures CountRecords(verify, [line]) == Ok(1)
  {
    assert CountRecords(verify, [line][1..]) == Ok(0);
  }

  /**
   * After any part of a record, another record and whatever is logged later: the log verifies exactly if the part is
   * nothing or the whole record, newline included, and what is before and after verifies.
   */
  lemma LogSurvivesExactly(mac: Mac, key: bytes, before: bytes, installationId: string, e: Event, n: nat, next: Event,
                           later: bytes)
    requires Terminated(before) && UniqueKeys(e.data) && UniqueKeys(next.data)
    requires n <= |Record(mac, key, installationId, e)|
    ensures VerifyFile(mac, key, before + (Record(mac, key, installationId, e)[..n] +
                                           Record(mac, key, installationId, next) + later)).Ok? <==>
            && (n == 0 || n == |Record(mac, key, installationId, e)|)
            && VerifyFile(mac, key, before).Ok? && VerifyFile(mac, key, later).Ok?
  {
    var line, record := RecordLine(mac, key, installationId, e), Record(mac, key, installationId, e);
    var follows := Record(mac, key, installationId, next);
    if 0 < n <= |line| {
      assert record[..n] == line[..n];
      TornRecordSpoilsLog(mac, key, before, installationId, e, n, next, later);
    } else {
      VerifyConcat(mac, key, before, record[..n] + follows + later);
      WholeLine(mac, key, installationId, next, |follows|);
      assert follows[..|follows|] == follows;
      VerifyConcat(mac, key, follows, later);
      if n == 0 {
        assert record[..n] + follows == follows;
      } else {
        WholeLine(mac, key, installationId, e, n);
        assert record[..n] == record;
        Assoc(record, follows, later);
        VerifyConcat(mac, key, record, follows + later);
      }
    }
  }

  lemma GluedLine(mac: Mac, key: bytes, installationId: string, e: Event, n: nat, next: Event)
    requires 0 < n <= |RecordLine(mac, key, installationId, e)|
    ensures var glued := RecordLine(mac, key, installationId, e)[..n] + RecordLine(mac, key, installationId, next);
            glued != [] && 0x0A !in glued && StripReturn(glued) == glued
  {
    RecordOnOneLine(mac, key, installationId, e);
    RecordOnOneLine(mac, key, installationId, next);
    RecordOpens(mac, key, installationId, next);
    Glued.AsciiStart(ToText(RecordJson(mac, key, installationId, next)));
    LastByteStays(RecordLine(mac, key, installationId, e)[..n], RecordLine(mac, key, installationId, next));
  }

  lemma LineSpoils(mac: Mac, key: bytes, before: bytes, line: bytes, later: bytes)
    requires Terminated(before) && line != [] && 0x0A !in line && StripReturn(line) == line
    requires VerifyLine(mac, key, line).Err?
    ensures VerifyFile(mac, key, before + (line + [0x0A] + later)).Err?
  {
    VerifyConcat(mac, key, before, line + [0x0A] + later);
    VerifyConcat(mac, key, line + [0x0A], later);
    OneTerminatedLine(line);
  }

  // ------------------------------------------------------------- the snapshot

  lemma TornManifest(mac: Mac, key: bytes, files: Disk.Files, dir: Disk.Path, m: Snapshot.Manifest, k: nat)
    requires k < |Snapshot.ManifestBytes(m)|
    requires var p := Snapshot.InDir(dir, Snapshot.SNAPSHOT_NAME);
             p in files && files[p].content == Snapshot.ManifestBytes(m)[..k]
    ensures Snapshot.LoadManifest(mac, key, files, dir) == Err(Error.Rollback)
  {
    TornBytes(Snapshot.ManifestJson(m).members, Pretty, k);
    assert Snapshot.ParseManifest(Snapshot.ManifestBytes(m)[..k]) == None;
  }

  /**
   * The snapshot manifest is written in place. If the engine dies while it is being written, a rollback to that
   * snapshot reports an error and touches no file.
   */
  lemma TornSnapshotRefused(mac: Mac, key: bytes, env: Restore.Env, files: Disk.Files, versionDir: string,
                            workDir: string, faults: seq<Restore.Fault>, m: Snapshot.Manifest, k: nat)
    requires k < |Snapshot.ManifestBytes(m)|
    requires var p := Snapshot.InDir(Paths.Components(versionDir), Snapshot.SNAPSHOT_NAME);
             p in files && files[p].content == Snapshot.ManifestBytes(m)[..k]
    ensures Snapshot.RunRollback(mac, key, env, files, versionDir, workDir, faults) ==
            Restore.Outcome([], Err(Error.Rollback))
  {
    TornManifest(mac, key, files, Paths.Components(versionDir), m, k);
  }

  /** Copying the targets leaves the manifest alone. */
  lemma {:induction false} CopyLeavesManifest(env: Restore.Env, files: Disk.Files, dir: Disk.Path,
                                              targets: seq<Disk.Path>, faults: seq<Snapshot.PlainFault>, i: nat,
                                              entries: seq<Restore.FileEntry>, k: nat)
    requires i <= |targets| && NoneIsManifest(targets)
    ensures var c, p := Snapshot.CopyFrom(env, files, dir, targets, faults, i, entries), ManifestPath(dir);
            Disk.SameAt(Disk.Last(files, c.trace), files, p) && (k < |c.trace| ==> Disk.SameAt(c.trace[k], files, p))
    decreases |targets| - i
  {
    if i < |targets| {
      var fault := Snapshot.PlainFaultAt(faults, i);
      var one := Snapshot.CopyOne(env, files, dir, targets[i], entries, fault);
      forall m | 0 <= m < |one.trace| ensures Disk.SameAt(one.trace[m], files, ManifestPath(dir)) {
        OneLeavesManifest(env, files, dir, targets[i], entries, fault, m);
      }
      Snapshot.CopyFromNext(env, files, dir, targets, faults, i, entries);
      if one.entries.Ok? {
        CopyLeavesManifest(env, Disk.Last(files, one.trace), dir, targets, faults, i + 1, one.entries.value,
                           if k < |one.trace| then 0 else k - |one.trace|);
      }
    }
  }

  function ManifestPath(dir: Disk.Path): Disk.Path {
    Snapshot.InDir(dir, Snapshot.SNAPSHOT_NAME)
  }

  predicate NoneIsManifest(targets: seq<Disk.Path>) {
    forall t | t in targets :: Snapshot.FileNameOf(t) != Some(Snapshot.SNAPSHOT_NAME)
  }

  lemma OneLeavesManifest(env: Restore.Env, files: Disk.Files, dir: Disk.Path, target: Disk.Path,
                          entries: seq<Restore.FileEntry>, fault: Snapshot.PlainFault, k: nat)
    requires Snapshot.FileNameOf(target) != Some(Snapshot.SNAPSHOT_NAME)
    requires k < |Snapshot.CopyOne(env, files, dir, target, entries, fault).trace|
    ensures Disk.SameAt(Snapshot.CopyOne(env, files, dir, target, entries, fault).trace[k], files, ManifestPath(dir))
  {
    var name := Snapshot.FileNameOf(target).value;
    assert Snapshot.InDir(dir, name)[|dir|] != ManifestPath(dir)[|dir|];
  }

  /** While the manifest is written it does not load; once it is complete it does. */
  lemma ManifestCommits(mac: Mac, key: bytes, files: Disk.Files, dir: Disk.Path, m: Snapshot.Manifest, mode: Disk.Mode,
                        fault: Snapshot.PlainFault, k: nat)
    requires m == Snapshot.SignedManifest(mac, key, m.version, m.createdAt, m.files)
    requires k < |Snapshot.PutPlain(files, Snapshot.InDir(dir, Snapshot.SNAPSHOT_NAME), Snapshot.ManifestBytes(m), mode,
                                    fault).trace|
    ensures var o := Snapshot.PutPlain(files, Snapshot.InDir(dir, Snapshot.SNAPSHOT_NAME),
            Snapshot.ManifestBytes(m), mode,
                                       fault);
            Snapshot.LoadManifest(mac, key, o.trace[k], dir).Ok? <==> o.result.Ok? && k == |o.trace| - 1
  {
    var content := Snapshot.ManifestBytes(m);
    var h := Disk.Written(files, Snapshot.InDir(dir, Snapshot.SNAPSHOT_NAME), content[..k], mode);
    if k < |content| {
      TornManifest(mac, key, h, dir, m, k);
    } else {
      assert content[..k] == content;
      Snapshot.CompleteManifest(mac, key, h, dir, m);
    }
  }

  /** Which states of taking a snapshot can be rolled back to. */
  lemma LoadableStates(mac: Mac, key: bytes, env: Restore.Env, files: Disk.Files, dir: Disk.Path, version: string,
                       createdAt: string, targets: seq<Disk.Path>, faults: Snapshot.SnapshotFaults, k: nat)
    requires NoneIsManifest(targets)
    requires k < |Snapshot.Take(mac, key, env, files, dir, version, createdAt, targets, faults).trace|
    ensures var o := Snapshot.Take(mac, key, env, files, dir, version, createdAt, targets, faults);
            var copied := Snapshot.CopyFrom(env, files, dir, targets, faults.copies, 0, []);
            if k < |copied.trace| then
              && o.trace[k] == copied.trace[k]
              && Snapshot.LoadManifest(mac, key, o.trace[k], dir) == Snapshot.LoadManifest(mac, key, files, dir)
              && !(o.result.Ok? && k == |o.trace| - 1)
            else Snapshot.LoadManifest(mac, key, o.trace[k], dir).Ok? <==> o.result.Ok? && k == |o.trace| - 1
  {
    var copied := Snapshot.CopyFrom(env, files, dir, targets, faults.copies, 0, []);
    if k < |copied.trace| {
      CopyLeavesManifest(env, files, dir, targets, faults.copies, 0, [], k);
      Snapshot.SameManifest(mac, key, copied.trace[k], files, dir);
    } else {
      Concluding(mac, key, env, files, dir, version, createdAt, copied, faults.manifest, k);
    }
  }

  lemma Concluding(mac: Mac, key: bytes, env: Restore.Env, files: Disk.Files, dir: Disk.Path, version: string,
                   createdAt: string, copied: Snapshot.Copied, fault: Snapshot.PlainFault, k: nat)
    requires |copied.trace| <= k
    ensures var o := Snapshot.Conclude(mac, key, env, files, dir, version, createdAt, copied, fault);
            k < |o.trace| ==>
              (Snapshot.LoadManifest(mac, key, o.trace[k], dir).Ok? <==> o.result.Ok? && k == |o.trace| - 1)
  {
    var o := Snapshot.Conclude(mac, key, env, files, dir, version, createdAt, copied, fault);
    if k < |o.trace| {
      ManifestCommits(mac, key, Disk.Last(files, copied.trace), dir,
                      Snapshot.SignedManifest(mac, key, version, createdAt, copied.entries.value), env.defaultMode,
                      fault, k - |copied.trace|);
    }
  }

  /** Only after the last write can the snapshot be rolled back to, and then exactly if it was reported as taken. */
  ghost predicate Atomic(mac: Mac, key: bytes, dir: Disk.Path, o: Restore.Outcome) {
    forall k | 0 <= k < |o.trace| ::
      Snapshot.LoadManifest(mac, key, o.trace[k], dir).Ok? <==> o.result.Ok? && k == |o.trace| - 1
  }

  /**
   * Taking a snapshot, with or without faults, is atomic exactly if there is no usable snapshot in the directory
   * before, or the first target, if any, cannot be copied at all.
   */
  lemma AtomicExactly(mac: Mac, key: bytes, env: Restore.Env, files: Disk.Files, dir: Disk.Path, version: string,
                      createdAt: string, targets: seq<Disk.Path>, faults: Snapshot.SnapshotFaults)
    requires NoneIsManifest(targets)
    ensures Atomic(mac, key, dir, Snapshot.Take(mac, key, env, files, dir, version, createdAt, targets, faults)) <==>
            || Snapshot.LoadManifest(mac, key, files, dir).Err?
            || NothingCopied(files, targets, faults.copies)
  {
    var o := Snapshot.Take(mac, key, env, files, dir, version, createdAt, targets, faults);
    var copied := Snapshot.CopyFrom(env, files, dir, targets, faults.copies, 0, []);
    TraceStarts(mac, key, env, files, dir, version, createdAt, copied, faults.manifest);
    CopiesNothing(env, files, dir, targets, faults.copies);
    forall k | 0 <= k < |o.trace|
      ensures StateOf(mac, key, dir, o, |copied.trace|, Snapshot.LoadManifest(mac, key, files, dir).Ok?, k)
    {
      LoadableStates(mac, key, env, files, dir, version, createdAt, targets, faults, k);
    }
    AtomicByStates(mac, key, dir, o, |copied.trace|, Snapshot.LoadManifest(mac, key, files, dir).Ok?);
  }

  /** There is no first target, or it is missing, has no file name, or cannot be read or its copy not be opened. */
  predicate NothingCopied(files: Disk.Files, targets: seq<Disk.Path>, faults: seq<Snapshot.PlainFault>) {
    || targets == [] || targets[0] !in files || Snapshot.FileNameOf(targets[0]).None?
    || Snapshot.PlainFaultAt(faults, 0).CannotRead? || Snapshot.PlainFaultAt(faults, 0).CannotOpen?
  }

  lemma CopiesNothing(env: Restore.Env, files: Disk.Files, dir: Disk.Path, targets: seq<Disk.Path>,
                      faults: seq<Snapshot.PlainFault>)
    ensures Snapshot.CopyFrom(env, files, dir, targets, faults, 0, []).trace == [] <==>
            NothingCopied(files, targets, faults)
  {
    if targets != [] { Snapshot.CopyFromNext(env, files, dir, targets, faults, 0, []); }
  }

  /** The first `n` states are as usable as the start and not the end of a success; the others are as they should be. */
  ghost predicate StateOf(mac: Mac, key: bytes, dir: Disk.Path, o: Restore.Outcome, n: nat, usable: bool, k: nat)
    requires k < |o.trace|
  {
    var loads, taken := Snapshot.LoadManifest(mac, key, o.trace[k], dir).Ok?, o.result.Ok? && k == |o.trace| - 1;
    if k < n then loads == usable && !taken else loads <==> taken
  }

  lemma AtomicByStates(mac: Mac, key: bytes, dir: Disk.Path, o: Restore.Outcome, n: nat, usable: bool)
    requires n <= |o.trace| && forall k | 0 <= k < |o.trace| :: StateOf(mac, key, dir, o, n, usable, k)
    ensures Atomic(mac, key, dir, o) <==> !usable || n == 0
  {
    if n > 0 { assert StateOf(mac, key, dir, o, n, usable, 0); }
    forall k | 0 <= k < |o.trace|
      ensures (Snapshot.LoadManifest(mac, key, o.trace[k], dir).Ok? <==> o.result.Ok? && k == |o.trace| - 1) <==>
              !usable || n <= k
    {
      assert StateOf(mac, key, dir, o, n, usable, k);
    }
  }

  lemma TraceStarts(mac: Mac, key: bytes, env: Restore.Env, files: Disk.Files, dir: Disk.Path, version: string,
                    createdAt: string, copied: Snapshot.Copied, fault: Snapshot.PlainFault)
    ensures |copied.trace| <= |Snapshot.Conclude(mac, key, env, files, dir, version, createdAt, copied, fault).trace|
  {}

  /**
   * Taking the snapshot of a version again is therefore not atomic: after the first write the old manifest still
   * verifies, but the backup that it describes is gone.
   */
  lemma RetakingDestroys(mac: Mac, key: bytes, env: Restore.Env, files: Disk.Files, dir: Disk.Path, version: string,
                         createdAt: string, target: Disk.Path, name: string)
    requires target in files && Snapshot.FileNameOf(target) == Some(name) && name != Snapshot.SNAPSHOT_NAME
    ensures var o := Snapshot.Take(mac, key, env, files, dir, version, createdAt, [target], Snapshot.NO_FAULTS);
            && o.trace != []
            && Snapshot.LoadManifest(mac, key, o.trace[0], dir) == Snapshot.LoadManifest(mac, key, files, dir)
            && Snapshot.InDir(dir, name) in o.trace[0] && o.trace[0][Snapshot.InDir(dir, name)].content == []
  {
    var one := Snapshot.CopyOne(env, files, dir, target, [], Snapshot.Completes);
    var copied := Snapshot.CopyFrom(env, files, dir, [target], [], 0, []);
    Snapshot.CopyFromNext(env, files, dir, [target], [], 0, []);
    TraceStarts(mac, key, env, files, dir, version, createdAt, copied, Snapshot.Completes);
    LoadableStates(mac, key, env, files, dir, version, createdAt, [target], Snapshot.NO_FAULTS, 0);
    assert files[target].content[..0] == [];
  }

  /**
   * A rollback at such a point follows the old manifest. If nothing else fails it stops exactly at the first backup
   * whose bytes are no longer those that were recorded, and exactly the files before that one are restored.
   */
  lemma RollbackWhileRetaking(mac: Mac, key: bytes, env: Restore.Env, files: Disk.Files, versionDir: string,
                              workDir: string, version: string, createdAt: string, targets: seq<Disk.Path>,
                              faults: Snapshot.SnapshotFaults, k: nat)
    requires NoneIsManifest(targets) && Snapshot.LoadManifest(mac, key, files, Paths.Components(versionDir)).Ok?
    requires k < |Snapshot.CopyFrom(env, files, Paths.Components(versionDir), targets, faults.copies, 0, []).trace|
    ensures var v := Paths.Components(versionDir);
            var h := Snapshot.CopyFrom(env, files, v, targets, faults.copies, 0, []).trace[k];
            var plans := Restore.Plan(versionDir, workDir, Snapshot.LoadManifest(mac, key, files, v).value.files);
            var o := Snapshot.RunRollback(mac, key, env, h, versionDir, workDir, []);
            Apart(plans) && Separate(plans) ==>
              && (o.result.Ok? <==> FirstBad(env, h, plans, 0) == |plans|)
              && PrefixRestored(env, h, Disk.Last(h, o.trace), plans, [], 0, FirstBad(env, h, plans, 0))
  {
    var v := Paths.Components(versionDir);
    var h := Snapshot.CopyFrom(env, files, v, targets, faults.copies, 0, []).trace[k];
    var plans := Restore.Plan(versionDir, workDir, Snapshot.LoadManifest(mac, key, files, v).value.files);
    CopyLeavesManifest(env, files, v, targets, faults.copies, 0, [], k);
    Snapshot.SameManifest(mac, key, h, files, v);
    if Apart(plans) && Separate(plans) {
      StopsAtFirstBad(env, h, plans, 0);
      ReturnLeavesPrefix(env, h, plans, [], 0);
    }
  }
}
