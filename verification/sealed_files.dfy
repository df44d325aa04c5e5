/** The two files under a MAC, snapshot manifest and blacklist: exactly which contents are accepted. */
module SealedFiles {
  import opened Wrappers
  import opened Text
  import opened Json
  import opened Canonical
  import opened JsonValue
  import Disk
  import Paths
  import Restore
  import Snapshot
  import Store

  /** A list of members and the map built from an equal list are the same but for the order. */
  lemma MapOfSame(xs: seq<Member>, ys: seq<Member>)
    requires Distinct(xs) && |xs| == |ys|
    requires forall i | 0 <= i < |xs| :: xs[i].key == ys[i].key && SameTree(xs[i].value, ys[i].value)
    ensures SameTree(Obj(xs), Obj(MapOf(ys)))
  {
    var r := MapOf(ys);
    forall key ensures HasKey(xs, key) <==> HasKey(r, key) {
      if HasKey(xs, key) {
        var i :| 0 <= i < |xs| && xs[i].key == key;
        MapOfLookup(ys, i);
        LookupFinds(r, key);
      }
      if HasKey(r, key) {
        var k :| 0 <= k < |r| && r[k].key == key;
        MapOfMembers(ys, r[k]);
      }
    }
    forall i, k | 0 <= i < |xs| && 0 <= k < |r| && xs[i].key == r[k].key ensures SameTree(xs[i].value, r[k].value) {
      MapOfMembers(ys, r[k]);
      var j :| 0 <= j < |ys| && ys[j] == r[k];
      assert i == j;
    }
  }

  // ------------------------------------------------------ the snapshot manifest

  /** What the MAC of a snapshot manifest is for: everything in it but the MAC. */
  function Contents(version: string, createdAt: string, files: seq<Restore.FileEntry>): Json {
    Obj([Member("version", Str(version)), Member("created_at", Str(createdAt)),
         Member("files", Arr(Snapshot.EntriesJson(files)))])
  }

  lemma EntryUnique(e: Restore.FileEntry)
    ensures UniqueKeys(Obj(Snapshot.EntryMembers(e)))
    ensures SameTree(Obj(Snapshot.EntryMembers(e)), Obj(MapOf(Snapshot.EntryMembers(e))))
  {
    var ms := Snapshot.EntryMembers(e);
    Snapshot.EntryKeys(e);
    MapOfSame(ms, ms);
  }

  lemma ContentsUnique(version: string, createdAt: string, files: seq<Restore.FileEntry>)
    ensures UniqueKeys(Contents(version, createdAt, files))
  {
    var ms := Contents(version, createdAt, files).members;
    assert |ms[0].key| == 7 && |ms[1].key| == 10 && |ms[2].key| == 5;
    forall i | 0 <= i < |files| ensures UniqueKeys(Snapshot.EntriesJson(files)[i]) { EntryUnique(files[i]); }
  }

  lemma UnsignedUnique(version: string, createdAt: string, files: seq<Restore.FileEntry>)
    ensures UniqueKeys(Snapshot.Unsigned(version, createdAt, files))
  {
    forall i | 0 <= i < |files| ensures UniqueKeys(Snapshot.EntriesValue(files)[i]) {
      MapOfUnique(Snapshot.EntryMembers(files[i]));
    }
    MapOfUnique([Member("version", Str(version)), Member("created_at", Str(createdAt)),
                 Member("files", Arr(Snapshot.EntriesValue(files)))]);
  }

  /** The MAC is taken over a map; the order of the fields makes no difference to its canonical bytes. */
  lemma ContentsBytes(version: string, createdAt: string, files: seq<Restore.FileEntry>)
    ensures CanonicalBytes(Snapshot.Unsigned(version, createdAt, files)) ==
            CanonicalBytes(Contents(version, createdAt, files))
  {
    ContentsUnique(version, createdAt, files);
    UnsignedUnique(version, createdAt, files);
    forall i | 0 <= i < |files| ensures SameTree(Snapshot.EntriesJson(files)[i], Snapshot.EntriesValue(files)[i]) {
      EntryUnique(files[i]);
    }
    MapOfSame(Contents(version, createdAt, files).members,
              [Member("version", Str(version)), Member("created_at", Str(createdAt)),
               Member("files", Arr(Snapshot.EntriesValue(files)))]);
    CanonicalIsNormalForm(Contents(version, createdAt, files), Snapshot.Unsigned(version, createdAt, files));
  }

  /** An object reads as an entry exactly if its four fields are in it, the numbers in their ranges. */
  lemma EntryReadsExactly(ms: seq<Member>, e: Restore.FileEntry)
    requires Distinct(ms)
    ensures Snapshot.ReadEntry(Obj(ms)) == Some(e) <==>
            && Lookup(ms, "path") == Some(Str(e.path)) && Lookup(ms, "sha256") == Some(Str(e.sha256))
            && Lookup(ms, "permissions") == Some(Num(e.permissions))
            && Lookup(ms, "size_bytes") == Some(Num(e.sizeBytes))
  {
    StructFieldsOfMap(ms, Snapshot.ENTRY_FIELDS);
    var f := StructFields(Obj(ms), Snapshot.ENTRY_FIELDS).value;
    assert f[0] == Lookup(ms, "path") && f[1] == Lookup(ms, "sha256");
    assert f[2] == Lookup(ms, "permissions") && f[3] == Lookup(ms, "size_bytes");
  }

  lemma {:induction false} EntriesReadExactly(items: seq<Json>, entries: seq<Restore.FileEntry>)
    ensures Snapshot.ReadEntries(items) == Some(entries) <==>
            |items| == |entries| && forall i | 0 <= i < |items| :: Snapshot.ReadEntry(items[i]) == Some(entries[i])
  {
    if items != [] && entries != [] {
      EntriesReadExactly(items[1..], entries[1..]);
      assert entries == [entries[0]] + entries[1..];
      assert forall i | 1 <= i < |items| :: items[i] == items[1..][i - 1];
      assert forall i | 1 <= i < |entries| :: entries[i] == entries[1..][i - 1];
    }
  }

  /** The files of a manifest are a list that reads entry by entry. */
  predicate FilesField(o: Option<Json>, entries: seq<Restore.FileEntry>) {
    && o.Some? && o.value.Arr? && |o.value.items| == |entries|
    && forall i | 0 <= i < |entries| :: Snapshot.ReadEntry(o.value.items[i]) == Some(entries[i])
  }

  /** An object reads as a manifest exactly if its four fields are in it. */
  lemma ManifestReadsExactly(ms: seq<Member>, m: Snapshot.Manifest)
    requires Distinct(ms)
    ensures Snapshot.ReadManifest(Obj(ms)) == Some(m) <==>
            && Lookup(ms, "version") == Some(Str(m.version)) && Lookup(ms, "created_at") == Some(Str(m.createdAt))
            && FilesField(Lookup(ms, "files"), m.files) && Lookup(ms, "manifest_hmac") == Some(Str(m.hmac))
  {
    StructFieldsOfMap(ms, Snapshot.MANIFEST_FIELDS);
    var f := StructFields(Obj(ms), Snapshot.MANIFEST_FIELDS).value;
    assert f[0] == Lookup(ms, "version") && f[1] == Lookup(ms, "created_at");
    assert f[2] == Lookup(ms, "files") && f[3] == Lookup(ms, "manifest_hmac");
    FilesFieldExactly(f[2], m.files);
  }

  lemma FilesFieldExactly(o: Option<Json>, entries: seq<Restore.FileEntry>)
    ensures Snapshot.AsEntries(o) == Some(entries) <==> FilesField(o, entries)
  {
    if o.Some? && o.value.Arr? { EntriesReadExactly(o.value.items, entries); }
  }

  /** A manifest loads if and only if the file is there, reads as it, and carries the MAC of its other contents. */
  lemma LoadsExactly(mac: Mac, key: bytes, files: Disk.Files, dir: Disk.Path, m: Snapshot.Manifest)
    ensures var p := dir + [Paths.Normal("snapshot.json")];
            Snapshot.LoadManifest(mac, key, files, dir) == Ok(m) <==>
            && p in files && Snapshot.ParseManifest(files[p].content) == Some(m)
            && mac(key, CanonicalBytes(Contents(m.version, m.createdAt, m.files))) == m.hmac
  {
    ContentsBytes(m.version, m.createdAt, m.files);
  }

  /** A rollback to any other manifest, missing, unreadable or with another MAC, fails and touches nothing. */
  lemma BadManifestTouchesNothing(mac: Mac, key: bytes, env: Restore.Env, files: Disk.Files, versionDir: string,
                                  workDir: string, faults: seq<Restore.Fault>)
    ensures var p := Paths.Components(versionDir) + [Paths.Normal("snapshot.json")];
            var read := if p in files then Snapshot.ParseManifest(files[p].content) else None;
            (read.None? ||
             mac(key, CanonicalBytes(Contents(read.value.version, read.value.createdAt, read.value.files))) !=
             read.value.hmac) ==>
              Snapshot.RunRollback(mac, key, env, files, versionDir, workDir, faults) ==
              Restore.Outcome([], Err(Error.Rollback))
  {
    var p := Paths.Components(versionDir) + [Paths.Normal("snapshot.json")];
    if p in files && Snapshot.ParseManifest(files[p].content).Some? {
      var m := Snapshot.ParseManifest(files[p].content).value;
      ContentsBytes(m.version, m.createdAt, m.files);
    }
  }

  lemma EntryTold(e: Restore.FileEntry, e': Restore.FileEntry)
    requires SameTree(Obj(Snapshot.EntryMembers(e)), Obj(Snapshot.EntryMembers(e')))
    ensures e == e'
  {
    var x, y := Snapshot.EntryMembers(e), Snapshot.EntryMembers(e');
    assert x[0].key == y[0].key && x[1].key == y[1].key && x[2].key == y[2].key && x[3].key == y[3].key;
    assert SameTree(x[0].value, y[0].value) && SameTree(x[1].value, y[1].value);
    assert SameTree(x[2].value, y[2].value) && SameTree(x[3].value, y[3].value);
  }

  lemma ContentsTold(version: string, createdAt: string, files: seq<Restore.FileEntry>,
                     version': string, createdAt': string, files': seq<Restore.FileEntry>)
    requires SameTree(Contents(version, createdAt, files), Contents(version', createdAt', files'))
    ensures version == version' && createdAt == createdAt' && files == files'
  {
    var x, y := Contents(version, createdAt, files).members, Contents(version', createdAt', files').members;
    assert x[0].key == y[0].key && x[1].key == y[1].key && x[2].key == y[2].key;
    assert SameTree(x[0].value, y[0].value) && SameTree(x[1].value, y[1].value) && SameTree(x[2].value, y[2].value);
    forall i | 0 <= i < |files| ensures files[i] == files'[i] {
      assert SameTree(Snapshot.EntriesJson(files)[i], Snapshot.EntriesJson(files')[i]);
      EntryTold(files[i], files'[i]);
    }
  }

  /**
   * A manifest that loads and carries the MAC of a snapshot that was taken says what that snapshot said, in its
   * version, its time and every field of every entry, or the two contents are a collision.
   */
  lemma LoadedIsSealed(mac: Mac, key: bytes, files: Disk.Files, dir: Disk.Path, m: Snapshot.Manifest, version: string,
                       createdAt: string, entries: seq<Restore.FileEntry>)
    requires Snapshot.LoadManifest(mac, key, files, dir) == Ok(m)
    requires m.hmac == mac(key, CanonicalBytes(Contents(version, createdAt, entries)))
    ensures || (m.version == version && m.createdAt == createdAt && m.files == entries)
            || Collision(mac, key, CanonicalBytes(Contents(m.version, m.createdAt, m.files)),
                         CanonicalBytes(Contents(version, createdAt, entries)))
  {
    LoadsExactly(mac, key, files, dir, m);
    ContentsUnique(m.version, m.createdAt, m.files);
    ContentsUnique(version, createdAt, entries);
    var loaded, issued := Contents(m.version, m.createdAt, m.files), Contents(version, createdAt, entries);
    CanonicalIsNormalForm(loaded, issued);
    if CanonicalBytes(loaded) == CanonicalBytes(issued) {
      ContentsTold(m.version, m.createdAt, m.files, version, createdAt, entries);
    }
  }

  // ---------------------------------------------------------------- the blacklist

  /** What the MAC of a list is for. */
  function ListContents(versions: seq<string>): Json {
    Obj([Member("blacklisted", Arr(Store.StringsJson(versions)))])
  }

  /** The list as the file says it, with the MAC of the sorted list. */
  ghost predicate SealedList(mac: Mac, key: bytes, b: Store.Blacklist) {
    mac(key, CanonicalBytes(ListContents(Store.SortStrings(b.versions)))) == b.hmac
  }

  /**
   * The check of a version: no without a file, an error for a file that does not read as a list or whose MAC is not
   * that of the sorted list, whatever the version, and otherwise membership.
   */
  lemma CheckExactly(mac: Mac, key: bytes, files: Disk.Files, path: Disk.Path, version: string)
    ensures path !in files ==> Store.IsBlacklisted(mac, key, files, path, version) == Ok(false)
    ensures path in files ==>
              var read := Store.ParseBlacklist(files[path].content);
              Store.IsBlacklisted(mac, key, files, path, version) ==
              if read.None? then Err(InvalidInput)
              else if !SealedList(mac, key, read.value) then Err(Error.Crypto)
              else Ok(version in read.value.versions)
  {}

  /** A list with the MAC of another one has the same versions as that one, as often, or there is a collision. */
  lemma ListIsSealed(mac: Mac, key: bytes, b: Store.Blacklist, versions: seq<string>)
    requires SealedList(mac, key, b)
    requires b.hmac == mac(key, CanonicalBytes(ListContents(Store.SortStrings(versions))))
    ensures || multiset(b.versions) == multiset(versions)
            || Collision(mac, key, CanonicalBytes(ListContents(Store.SortStrings(b.versions))),
                         CanonicalBytes(ListContents(Store.SortStrings(versions))))
  {
    var x, y := Store.SortStrings(b.versions), Store.SortStrings(versions);
    CanonicalIsNormalForm(ListContents(x), ListContents(y));
    if CanonicalBytes(ListContents(x)) == CanonicalBytes(ListContents(y)) {
      ListTold(x, y);
      Store.SortKeepsAll(b.versions);
      Store.SortKeepsAll(versions);
    }
  }

  lemma ListTold(x: seq<string>, y: seq<string>)
    requires SameTree(ListContents(x), ListContents(y))
    ensures x == y
  {
    assert ListContents(x).members[0].key == ListContents(y).members[0].key;
    assert SameTree(Arr(Store.StringsJson(x)), Arr(Store.StringsJson(y)));
    forall i | 0 <= i < |x| ensures x[i] == y[i] {
      assert SameTree(Store.StringsJson(x)[i], Store.StringsJson(y)[i]);
    }
  }
}
