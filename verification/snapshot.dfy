/** Taking a signed snapshot, and rolling back to it. */
module Snapshot {
  import opened Wrappers
  import opened Text
  import opened Json
  import opened Canonical
  import opened JsonValue
  import opened Paths
  import opened Disk
  import opened Restore
  import JsonRoundTrip

  datatype Manifest = Manifest(version: string, createdAt: string, files: seq<FileEntry>, hmac: string)

  // -------------------------------------------------------- serialisation

  const ENTRY_FIELDS := ["path", "sha256", "permissions", "size_bytes"]
  const MANIFEST_FIELDS := ["version", "created_at", "files", "manifest_hmac"]

  function EntryMembers(e: FileEntry): seq<Member> {
    [Member("path", Str(e.path)), Member("sha256", Str(e.sha256)),
     Member("permissions", Num(e.permissions)), Member("size_bytes", Num(e.sizeBytes))]
  }

  /** Structs are printed with their fields in declaration order. */
  function EntriesJson(entries: seq<FileEntry>): (r: seq<Json>)
    ensures |r| == |entries| && forall i | 0 <= i < |r| :: r[i] == Obj(EntryMembers(entries[i]))
  {
    seq(|entries|, i requires 0 <= i < |entries| => Obj(EntryMembers(entries[i])))
  }

  /** As values they become maps. */
  function EntriesValue(entries: seq<FileEntry>): (r: seq<Json>)
    ensures |r| == |entries| && forall i | 0 <= i < |r| :: r[i] == Obj(MapOf(EntryMembers(entries[i])))
  {
    seq(|entries|, i requires 0 <= i < |entries| => Obj(MapOf(EntryMembers(entries[i]))))
  }

  /** What the manifest's MAC is taken over. */
  function Unsigned(version: string, createdAt: string, files: seq<FileEntry>): Json {
    Obj(MapOf([Member("version", Str(version)), Member("created_at", Str(createdAt)),
               Member("files", Arr(EntriesValue(files)))]))
  }

  function ManifestMac(mac: Mac, key: bytes, version: string, createdAt: string, files: seq<FileEntry>): string {
    mac(key, CanonicalBytes(Unsigned(version, createdAt, files)))
  }

  function ManifestJson(m: Manifest): Json {
    Obj([Member("version", Str(m.version)), Member("created_at", Str(m.createdAt)),
         Member("files", Arr(EntriesJson(m.files))), Member("manifest_hmac", Str(m.hmac))])
  }

  function ManifestBytes(m: Manifest): bytes {
    Encode(ToPrettyText(ManifestJson(m)))
  }

  function AsUnsigned(o: Option<Json>, limit: int): Option<int> {
    match o case Some(Num(n)) => (if 0 <= n < limit then Some(n as int) else None) case _ => None
  }

  function ReadEntry(j: Json): Option<FileEntry> {
    var f :- StructFields(j, ENTRY_FIELDS);
    var path :- AsString(f[0]);
    var sha256 :- AsString(f[1]);
    var permissions :- AsUnsigned(f[2], 0x1_0000_0000);
    var sizeBytes :- AsUnsigned(f[3], 0x1_0000_0000_0000_0000);
    if 0 <= permissions < 0x1_0000_0000 && 0 <= sizeBytes < 0x1_0000_0000_0000_0000 then
      Some(FileEntry(path, sha256, permissions, sizeBytes))
    else None
  }

  function ReadEntries(items: seq<Json>): Option<seq<FileEntry>> {
    if items == [] then Some([])
    else
      var first :- ReadEntry(items[0]);
      var rest :- ReadEntries(items[1..]);
      Some([first] + rest)
  }

  function AsEntries(o: Option<Json>): Option<seq<FileEntry>> {
    match o case Some(Arr(items)) => ReadEntries(items) case _ => None
  }

  function ReadManifest(j: Json): Option<Manifest> {
    var f :- StructFields(j, MANIFEST_FIELDS);
    var version :- AsString(f[0]);
    var createdAt :- AsString(f[1]);
    var files :- AsEntries(f[2]);
    var hmac :- AsString(f[3]);
    Some(Manifest(version, createdAt, files, hmac))
  }

  function ParseManifest(content: bytes): Option<Manifest> {
    var text :- Decode(content);
    var tree :- Parse(text);
    ReadManifest(tree)
  }

  lemma {:induction false} EntryRoundTrip(e: FileEntry)
    ensures ReadEntry(Obj(EntryMembers(e))) == Some(e)
  {
    var ms := EntryMembers(e);
    EntryKeys(e);
    StructFieldsOfMap(ms, ENTRY_FIELDS);
    forall i | 0 <= i < 4 ensures Lookup(ms, ENTRY_FIELDS[i]) == Some(ms[i].value) { LookupAt(ms, i); }
  }

  lemma EntryKeys(e: FileEntry)
    ensures Distinct(EntryMembers(e)) && forall i | 0 <= i < 4 :: EntryMembers(e)[i].key == ENTRY_FIELDS[i]
  {
    var ms := EntryMembers(e);
    assert |ms[0].key| == 4 && |ms[1].key| == 6 && |ms[2].key| == 11 && |ms[3].key| == 10;
  }

  lemma {:induction false} EntriesRoundTrip(entries: seq<FileEntry>)
    ensures ReadEntries(EntriesJson(entries)) == Some(entries)
  {
    if entries != [] {
      EntryRoundTrip(entries[0]);
      EntriesRoundTrip(entries[1..]);
      assert EntriesJson(entries)[1..] == EntriesJson(entries[1..]);
      assert entries == [entries[0]] + entries[1..];
    }
  }

  lemma ManifestKeys(m: Manifest)
    ensures Distinct(ManifestJson(m).members)
    ensures forall i | 0 <= i < 4 :: ManifestJson(m).members[i].key == MANIFEST_FIELDS[i]
  {
    var ms := ManifestJson(m).members;
    assert |ms[0].key| == 7 && |ms[1].key| == 10 && |ms[2].key| == 5 && |ms[3].key| == 13;
  }

  lemma ReadManifestJson(m: Manifest)
    ensures ReadManifest(ManifestJson(m)) == Some(m)
  {
    var ms := ManifestJson(m).members;
    ManifestKeys(m);
    StructFieldsOfMap(ms, MANIFEST_FIELDS);
    forall i | 0 <= i < 4 ensures Lookup(ms, MANIFEST_FIELDS[i]) == Some(ms[i].value) { LookupAt(ms, i); }
    EntriesRoundTrip(m.files);
  }

  /** A written manifest reads back as itself. */
  lemma ManifestRoundTrip(m: Manifest)
    ensures ParseManifest(ManifestBytes(m)) == Some(m)
  {
    DecodeEncode(ToPrettyText(ManifestJson(m)));
    JsonRoundTrip.ParsePrint(ManifestJson(m), Pretty);
    ReadManifestJson(m);
  }

  // ------------------------------------------------------- taking a snapshot

  const SNAPSHOT_NAME := "snapshot.json"

  function InDir(dir: Path, name: string): Path {
    dir + [Normal(name)]
  }

  function FileNameOf(p: Path): Option<string> {
    if p != [] && p[|p| - 1].Normal? then Some(p[|p| - 1].name) else None
  }

  function EntryFor(env: Env, name: string, f: File): FileEntry {
    FileEntry(name, env.sha256(f.content), f.mode, |f.content| % 0x1_0000_0000_0000_0000)
  }

  /** What goes wrong, if anything, while a file is read and written. */
  datatype PlainFault = Completes | CannotRead | CannotOpen | StopsAfter(count: nat)

  function PlainFaultAt(faults: seq<PlainFault>, i: nat): PlainFault {
    if i < |faults| then faults[i] else Completes
  }

  /** `fs::write`: not atomic; a fault that would come after the last byte does not come. */
  function PutPlain(files: Files, p: Path, content: bytes, defaultMode: Mode, fault: PlainFault): Outcome {
    if fault.CannotOpen? then Outcome([], Err(Permission))
    else if fault.StopsAfter? && fault.count < |content| then
      Outcome(WriteTrace(files, p, content, fault.count, defaultMode), Err(Permission))
    else Outcome(WriteTrace(files, p, content, |content|, defaultMode), Ok(()))
  }

  method PutPlainFile(drive: Drive, p: Path, content: bytes, fault: PlainFault) returns (r: Result<()>)
    requires drive.Valid()
    modifies drive
    ensures drive.Valid()
    ensures var o := PutPlain(old(drive.files), p, content, drive.defaultMode, fault);
            && r == o.result
            && drive.history == old(drive.history) + o.trace
            && drive.files == Last(old(drive.files), o.trace)
  {
    if fault.CannotOpen? {
      return Err(Permission);
    }
    if fault.StopsAfter? && fault.count < |content| {
      drive.Write(p, content, fault.count);
      return Err(Permission);
    }
    drive.Write(p, content, |content|);
    return Ok(());
  }

  datatype Copied = Copied(trace: Trace, entries: Result<seq<FileEntry>>) {
    function After(earlier: Trace): Copied {
      Copied(earlier + trace, entries)
    }
  }

  /** Copying one target into the version directory; its record is added. */
  function CopyOne(env: Env, files: Files, dir: Path, target: Path, entries: seq<FileEntry>,
          fault: PlainFault): Copied {
    if target !in files then Copied([], Err(Permission))
    else
      match FileNameOf(target)
      case None => Copied([], Err(InvalidInput))
      case Some(name) =>
        if fault.CannotRead? then Copied([], Err(Permission))
        else
          var f := files[target];
          var o := PutPlain(files, InDir(dir, name), f.content, env.defaultMode, fault);
          Copied(o.trace, if o.result.Err? then Err(o.result.error) else Ok(entries + [EntryFor(env, name, f)]))
  }

  /** Copying the targets from `i` on. */
  function CopyFrom(env: Env, files: Files, dir: Path, targets: seq<Path>, faults: seq<PlainFault>, i: nat,
                    entries: seq<FileEntry>): Copied
    requires i <= |targets|
    decreases |targets| - i
  {
    if i == |targets| then Copied([], Ok(entries))
    else
      var one := CopyOne(env, files, dir, targets[i], entries, PlainFaultAt(faults, i));
      if one.entries.Err? then one
      else CopyFrom(env, Last(files, one.trace), dir, targets, faults, i + 1, one.entries.value).After(one.trace)
  }

  /** Copying goes on where the first target leaves it. */
  lemma CopyFromNext(env: Env, files: Files, dir: Path, targets: seq<Path>, faults: seq<PlainFault>, i: nat,
                     entries: seq<FileEntry>)
    requires i < |targets|
    ensures var one := CopyOne(env, files, dir, targets[i], entries, PlainFaultAt(faults, i));
            var all := CopyFrom(env, files, dir, targets, faults, i, entries);
            if one.entries.Err? then all == one
            else
              var rest := CopyFrom(env, Last(files, one.trace), dir, targets, faults, i + 1, one.entries.value);
              all == rest.After(one.trace) && Last(files, all.trace) == Last(Last(files, one.trace), rest.trace)
  {
    var one := CopyOne(env, files, dir, targets[i], entries, PlainFaultAt(faults, i));
    if one.entries.Ok? {
      LastConcat(files, one.trace,
                 CopyFrom(env, Last(files, one.trace), dir, targets, faults, i + 1, one.entries.value).trace);
    }
  }

  function SignedManifest(mac: Mac, key: bytes, version: string, createdAt: string, files: seq<FileEntry>): Manifest {
    Manifest(version, createdAt, files, ManifestMac(mac, key, version, createdAt, files))
  }

  datatype SnapshotFaults = SnapshotFaults(copies: seq<PlainFault>, manifest: PlainFault)

  const NO_FAULTS := SnapshotFaults([], Completes)

  /** `take_snapshot`: the manifest comes last. */
  function Take(mac: Mac, key: bytes, env: Env, files: Files, dir: Path, version: string, createdAt: string,
                targets: seq<Path>, faults: SnapshotFaults): Outcome
  {
    Conclude(mac, key, env, files, dir, version, createdAt, CopyFrom(env, files, dir, targets, faults.copies, 0, []),
             faults.manifest)
  }

  function Conclude(mac: Mac, key: bytes, env: Env, files: Files, dir: Path, version: string, createdAt: string,
                    copied: Copied, fault: PlainFault): Outcome
  {
    match copied.entries
    case Err(e) => Outcome(copied.trace, Err(e))
    case Ok(entries) =>
      PutPlain(Last(files, copied.trace), InDir(dir, SNAPSHOT_NAME),
               ManifestBytes(SignedManifest(mac, key, version, createdAt, entries)), env.defaultMode, fault)
      .After(copied.trace)
  }

  /** `take_snapshot`, on a disk. */
  method TakeSnapshot(drive: Drive, mac: Mac, key: bytes, env: Env, dir: Path, version: string, createdAt: string,
                      targets: seq<Path>, faults: SnapshotFaults) returns (r: Result<()>)
    requires drive.Valid() && drive.defaultMode == env.defaultMode
    modifies drive
    ensures drive.Valid()
    ensures var o := Take(mac, key, env, old(drive.files), dir, version, createdAt, targets, faults);
            && r == o.result
            && drive.history == old(drive.history) + o.trace
            && drive.files == Last(old(drive.files), o.trace)
  {
    ghost var start, base := drive.files, drive.history;
    var entries, copied := CopyTargets(drive, env, dir, targets, faults.copies);
    if entries.Err? {
      return Err(entries.error);
    }
    ghost var middle := drive.files;
    var content := ManifestBytes(SignedManifest(mac, key, version, createdAt, entries.value));
    r := PutPlainFile(drive, InDir(dir, SNAPSHOT_NAME), content, faults.manifest);
    Glue(start, drive.files, base, drive.history, copied.trace,
              PutPlain(middle, InDir(dir, SNAPSHOT_NAME), content, env.defaultMode, faults.manifest).trace);
  }

  method CopyTargets(drive: Drive, env: Env, dir: Path, targets: seq<Path>, faults: seq<PlainFault>)
    returns (r: Result<seq<FileEntry>>, ghost copied: Copied)
    requires drive.Valid() && drive.defaultMode == env.defaultMode
    modifies drive
    ensures drive.Valid()
    ensures copied == CopyFrom(env, old(drive.files), dir, targets, faults, 0, []) && r == copied.entries
    ensures drive.history == old(drive.history) + copied.trace && drive.files == Last(old(drive.files), copied.trace)
  {
    var entries: seq<FileEntry> := [];
    ghost var start, base := drive.files, drive.history;
    ghost var done: Trace := [];
    copied := CopyFrom(env, drive.files, dir, targets, faults, 0, []);
    for i := 0 to |targets|
      invariant drive.Valid()
      invariant drive.history == base + done && drive.files == Last(start, done)
      invariant copied == CopyFrom(env, drive.files, dir, targets, faults, i, entries).After(done)
    {
      ghost var before, passed := drive.files, drive.history;
      var more, one, rest := CopyNext(drive, env, dir, targets, faults, i, entries);
      CopyStep(copied, start, base, before, passed, done, one, rest);
      if more.Err? {
        return more, copied;
      }
      entries := more.value;
      done := done + one.trace;
    }
    return Ok(entries), copied;
  }

  method CopyNext(drive: Drive, env: Env, dir: Path, targets: seq<Path>, faults: seq<PlainFault>, i: nat,
                  entries: seq<FileEntry>)
    returns (r: Result<seq<FileEntry>>, ghost one: Copied, ghost rest: Copied)
    requires drive.Valid() && drive.defaultMode == env.defaultMode && i < |targets|
    modifies drive
    ensures drive.Valid() && r == one.entries
    ensures CopyFrom(env, old(drive.files), dir, targets, faults, i, entries) ==
            if one.entries.Err? then one else rest.After(one.trace)
    ensures r.Ok? ==> rest == CopyFrom(env, drive.files, dir, targets, faults, i + 1, r.value)
    ensures drive.history == old(drive.history) + one.trace && drive.files == Last(old(drive.files), one.trace)
  {
    CopyFromNext(env, drive.files, dir, targets, faults, i, entries);
    r, one := CopyTarget(drive, env, dir, targets[i], entries, PlainFaultAt(faults, i));
    rest := if r.Ok? then CopyFrom(env, drive.files, dir, targets, faults, i + 1, r.value) else one;
  }

  lemma CopyStep(all: Copied, start: Files, base: Trace, before: Files, passed: Trace, done: Trace, one: Copied,
                 rest: Copied)
    requires passed == base + done && before == Last(start, done)
    requires all == (if one.entries.Err? then one else rest.After(one.trace)).After(done)
    ensures passed + one.trace == base + (done + one.trace)
    ensures Last(before, one.trace) == Last(start, done + one.trace)
    ensures one.entries.Err? ==> all == Copied(done + one.trace, one.entries)
    ensures one.entries.Ok? ==> all == rest.After(done + one.trace)
  {
    assert done + (one.trace + rest.trace) == (done + one.trace) + rest.trace;
  }

  method CopyTarget(drive: Drive, env: Env, dir: Path, target: Path, entries: seq<FileEntry>, fault: PlainFault)
    returns (r: Result<seq<FileEntry>>, ghost one: Copied)
    requires drive.Valid() && drive.defaultMode == env.defaultMode
    modifies drive
    ensures drive.Valid()
    ensures one == CopyOne(env, old(drive.files), dir, target, entries, fault) && r == one.entries
    ensures drive.history == old(drive.history) + one.trace && drive.files == Last(old(drive.files), one.trace)
  {
    one := CopyOne(env, drive.files, dir, target, entries, fault);
    if target !in drive.files {
      return Err(Permission), one;
    }
    var name := FileNameOf(target);
    if name.None? {
      return Err(InvalidInput), one;
    }
    if fault.CannotRead? {
      return Err(Permission), one;
    }
    var f := drive.files[target];
    var written := PutPlainFile(drive, InDir(dir, name.value), f.content, fault);
    return if written.Err? then Err(written.error) else Ok(entries + [EntryFor(env, name.value, f)]), one;
  }

  // --------------------------------------------------------------- rollback

  /** Step 1 of a rollback: the manifest, once its MAC has been verified. */
  function LoadManifest(mac: Mac, key: bytes, files: Files, dir: Path): Result<Manifest> {
    var p := InDir(dir, SNAPSHOT_NAME);
    if p !in files then Err(Error.Rollback)
    else
      match ParseManifest(files[p].content)
      case None => Err(Error.Rollback)
      case Some(m) =>
        if ManifestMac(mac, key, m.version, m.createdAt, m.files) == m.hmac then Ok(m) else Err(Error.Rollback)
  }

  lemma SameManifest(mac: Mac, key: bytes, h: Files, files: Files, dir: Path)
    requires SameAt(h, files, InDir(dir, SNAPSHOT_NAME))
    ensures LoadManifest(mac, key, h, dir) == LoadManifest(mac, key, files, dir)
  {}

  /** A complete manifest that was signed with this key loads. */
  lemma CompleteManifest(mac: Mac, key: bytes, files: Files, dir: Path, m: Manifest)
    requires m == SignedManifest(mac, key, m.version, m.createdAt, m.files)
    requires var p := InDir(dir, SNAPSHOT_NAME);
             p in files && files[p].content == ManifestBytes(m)
    ensures LoadManifest(mac, key, files, dir) == Ok(m)
  {
    ManifestRoundTrip(m);
  }

  /** Steps 1 to 3 of a rollback. */
  function RunRollback(mac: Mac, key: bytes, env: Env, files: Files, versionDir: string, workDir: string,
                    faults: seq<Fault>): Outcome
  {
    match LoadManifest(mac, key, files, Components(versionDir))
    case Err(e) => Outcome([], Err(e))
    case Ok(m) => RunFrom(env, files, Plan(versionDir, workDir, m.files), faults, 0)
  }

  /** `rollback` up to the restored files, on a disk; a bad manifest touches nothing. */
  method RollbackFiles(drive: Drive, mac: Mac, key: bytes, env: Env, versionDir: string, workDir: string,
                       faults: seq<Fault>) returns (r: Result<()>)
    requires drive.Valid() && drive.defaultMode == env.defaultMode
    modifies drive
    ensures drive.Valid()
    ensures var o := RunRollback(mac, key, env, old(drive.files), versionDir, workDir, faults);
            && r == o.result
            && drive.history == old(drive.history) + o.trace
            && drive.files == Last(old(drive.files), o.trace)
    ensures var p := InDir(Components(versionDir), SNAPSHOT_NAME);
            var read := if p in old(drive.files) then ParseManifest(old(drive.files)[p].content) else None;
            (read.None? ||
             mac(key, CanonicalBytes(Unsigned(read.value.version, read.value.createdAt, read.value.files))) !=
             read.value.hmac) ==>
              r == Err(Error.Rollback) && drive.files == old(drive.files) && drive.history == old(drive.history)
  {
    var m := LoadManifest(mac, key, drive.files, Components(versionDir));
    if m.Err? {
      return Err(m.error);
    }
    r := RestoreFiles(drive, env, Plan(versionDir, workDir, m.value.files), faults);
  }
}
