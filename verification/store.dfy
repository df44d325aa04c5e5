/** The two small files of the self-heal engine: rollback counters and the signed blacklist. */
module Store {
  import opened Wrappers
  import opened Numbers
  import opened Text
  import opened Json
  import opened Canonical
  import opened JsonValue
  import opened Sorting
  import opened Disk
  import JsonRoundTrip

  // ---------------------------------------------------------- atomic writes

  /** What goes wrong, if anything, while a file is replaced. */
  datatype Fault = NoFault | CreateFails | WriteStops(count: nat) | SyncFails | RenameFails(cleanedUp: bool)

  datatype Outcome = Outcome(trace: Trace, result: Result<()>)

  /** `write_json_atomic`: a temporary file, fsync, rename. */
  function Replace(files: Files, path: Path, temp: Path, content: bytes, defaultMode: Mode, fault: Fault): Outcome {
    var count := if fault.WriteStops? && fault.count < |content| then fault.count else |content|;
    var written := WriteTrace(files, temp, content, count, defaultMode);
    var complete := Written(files, temp, content[..count], defaultMode);
    match fault
    case CreateFails => Outcome([], Err(Permission))
    case WriteStops(_) => Outcome(written, Err(Internal))
    case SyncFails => Outcome(written, Err(Internal))
    case RenameFails(cleanedUp) => Outcome(written + (if cleanedUp then [Remove(complete, temp)] else []),
            Err(Permission))
    case NoFault => Outcome(written + [Rename(complete, temp, path)], Ok(()))
  }

  method ReplaceFile(drive: Drive, path: Path, temp: Path, content: bytes, fault: Fault) returns (r: Result<()>)
    requires drive.Valid()
    modifies drive
    ensures drive.Valid()
    ensures var o := Replace(old(drive.files), path, temp, content, drive.defaultMode, fault);
            && r == o.result
            && drive.history == old(drive.history) + o.trace
            && drive.files == Last(old(drive.files), o.trace)
  {
    if fault.CreateFails? {
      return Err(Permission);
    }
    var count := if fault.WriteStops? && fault.count < |content| then fault.count else |content|;
    drive.Write(temp, content, count);
    if fault.WriteStops? || fault.SyncFails? {
      return Err(Internal);
    }
    if fault.RenameFails? {
      if fault.cleanedUp {
        drive.Delete(temp);
      }
      return Err(Permission);
    }
    drive.Move(temp, path);
    return Ok(());
  }

  /** Until its last state a replacement changes the temporary file only; then the new file is complete. */
  lemma ReplaceStates(files: Files, path: Path, temp: Path, content: bytes, defaultMode: Mode, fault: Fault, k: nat,
          p: Path)
    requires temp != path && p != temp
    requires k < |Replace(files, path, temp, content, defaultMode, fault).trace|
    ensures var o := Replace(files, path, temp, content, defaultMode, fault);
            if p == path && o.result.Ok? && k == |o.trace| - 1
            then p in o.trace[k] && o.trace[k][p].content == content
            else SameAt(o.trace[k], files, p)
  {
    assert content[..|content|] == content;
  }

  // ---------------------------------------------------------------- counters

  function ReadCounters(content: bytes): Option<seq<Member>> {
    var text :- Decode(content);
    var tree :- Parse(text);
    match tree case Obj(ms) => Some(Collapse(ms)) case _ => None
  }

  function CountersBytes(ms: seq<Member>): bytes {
    Encode(ToPrettyText(Obj(ms)))
  }

  function AsCount(o: Option<Json>): nat {
    match o case Some(Num(n)) => (if n >= 0 then n as nat else 0) case _ => 0
  }

  /** A missing file counts as an empty map. */
  function LoadCounters(files: Files, path: Path): Result<seq<Member>> {
    if path !in files then Ok([])
    else
      match ReadCounters(files[path].content)
      case None => Err(Internal)
      case Some(ms) => Ok(ms)
  }

  /** The next count: the stored one cut to 32 bits, plus one, saturating. */
  function NextCount(ms: seq<Member>, version: string): (n: nat)
    ensures n <= U32_MAX
  {
    var current := AsCount(Lookup(ms, version)) % (U32_MAX + 1);
    if current < U32_MAX then current + 1 else U32_MAX
  }

  datatype Counted = Counted(outcome: Outcome, count: nat)

  function Increment(files: Files, path: Path, temp: Path, version: string, defaultMode: Mode, fault: Fault): Counted {
    match LoadCounters(files, path)
    case Err(e) => Counted(Outcome([], Err(e)), 0)
    case Ok(ms) =>
      var next := NextCount(ms, version);
      Counted(Replace(files, path, temp, CountersBytes(MapInsert(ms, version, Num(next))), defaultMode, fault), next)
  }

  /** `increment_rollback_counter`, on a disk. */
  method IncrementCounter(drive: Drive, path: Path, temp: Path, version: string, fault: Fault)
    returns (r: Result<()>, next: nat, ghost counted: Counted)
    requires drive.Valid()
    modifies drive
    ensures drive.Valid()
    ensures counted == Increment(old(drive.files), path, temp, version, drive.defaultMode, fault)
    ensures r == counted.outcome.result && (r.Ok? ==> next == counted.count)
    ensures drive.history == old(drive.history) + counted.outcome.trace
    ensures drive.files == Last(old(drive.files), counted.outcome.trace)
  {
    counted := Increment(drive.files, path, temp, version, drive.defaultMode, fault);
    var counters := LoadCounters(drive.files, path);
    if counters.Err? {
      return Err(counters.error), 0, counted;
    }
    next := NextCount(counters.value, version);
    r := ReplaceFile(drive, path, temp, CountersBytes(MapInsert(counters.value, version, Num(next))), fault);
  }

  // --------------------------------------------------------------- blacklist

  datatype Blacklist = Blacklist(versions: seq<string>, hmac: string)

  const BLACKLIST_FIELDS := ["blacklisted", "list_hmac"]

  function SortStrings(xs: seq<string>): seq<string> {
    Sort(Less, xs)
  }

  function StringsJson(xs: seq<string>): (r: seq<Json>)
    ensures |r| == |xs| && forall i | 0 <= i < |r| :: r[i] == Str(xs[i])
  {
    seq(|xs|, i requires 0 <= i < |xs| => Str(xs[i]))
  }

  function ReadStrings(items: seq<Json>): Option<seq<string>> {
    if items == [] then Some([])
    else
      match items[0]
      case Str(s) =>
        var rest :- ReadStrings(items[1..]);
        Some([s] + rest)
      case _ => None
  }

  function ListMac(mac: Mac, key: bytes, versions: seq<string>): string {
    mac(key, CanonicalBytes(Obj([Member("blacklisted", Arr(StringsJson(versions)))])))
  }

  function BlacklistJson(b: Blacklist): Json {
    Obj([Member("blacklisted", Arr(StringsJson(b.versions))), Member("list_hmac", Str(b.hmac))])
  }

  function BlacklistBytes(b: Blacklist): bytes {
    Encode(ToPrettyText(BlacklistJson(b)))
  }

  function ReadBlacklist(j: Json): Option<Blacklist> {
    var f :- StructFields(j, BLACKLIST_FIELDS);
    match f[0]
    case Some(Arr(items)) =>
      var versions :- ReadStrings(items);
      var hmac :- AsString(f[1]);
      Some(Blacklist(versions, hmac))
    case _ => None
  }

  function ParseBlacklist(content: bytes): Option<Blacklist> {
    var text :- Decode(content);
    var tree :- Parse(text);
    ReadBlacklist(tree)
  }

  /** `load_blacklist_raw`: the MAC is checked over the sorted list. */
  function LoadBlacklist(mac: Mac, key: bytes, files: Files, path: Path): Result<seq<string>> {
    if path !in files then Err(Permission)
    else
      match ParseBlacklist(files[path].content)
      case None => Err(InvalidInput)
      case Some(b) => if ListMac(mac, key, SortStrings(b.versions)) == b.hmac then Ok(b.versions) else Err(Error.Crypto)
  }

  function IsBlacklisted(mac: Mac, key: bytes, files: Files, path: Path, version: string): Result<bool> {
    match LoadBlacklist(mac, key, files, path)
    case Ok(versions) => Ok(version in versions)
    case Err(Permission) => Ok(false)
    case Err(e) => Err(e)
  }

  /** The list with one more version, in the order in which it is stored. */
  function WithVersion(versions: seq<string>, version: string): seq<string> {
    if version in versions then versions else SortStrings(versions + [version])
  }

  /** Any failure to load the old list starts a new one. */
  function OldVersions(mac: Mac, key: bytes, files: Files, path: Path): seq<string> {
    match LoadBlacklist(mac, key, files, path) case Ok(versions) => versions case Err(_) => []
  }

  function SignedList(mac: Mac, key: bytes, versions: seq<string>): Blacklist {
    Blacklist(versions, ListMac(mac, key, versions))
  }

  /** `blacklist_version`; the audit record at its end may fail. */
  function AddToBlacklist(mac: Mac, key: bytes, files: Files, path: Path, temp: Path, version: string,
                          defaultMode: Mode, fault: Fault, logged: bool): Outcome
  {
    var versions := WithVersion(OldVersions(mac, key, files, path), version);
    var o := Replace(files, path, temp, BlacklistBytes(SignedList(mac, key, versions)), defaultMode, fault);
    if o.result.Ok? && !logged then Outcome(o.trace, Err(Internal)) else o
  }

  /** `blacklist_version`, on a disk. */
  method BlacklistVersion(drive: Drive, mac: Mac, key: bytes, path: Path, temp: Path, version: string, fault: Fault,
                          logged: bool) returns (r: Result<()>, ghost listed: Outcome)
    requires drive.Valid()
    modifies drive
    ensures drive.Valid()
    ensures listed == AddToBlacklist(mac, key, old(drive.files), path, temp, version, drive.defaultMode, fault, logged)
    ensures r == listed.result
    ensures drive.history == old(drive.history) + listed.trace
    ensures drive.files == Last(old(drive.files), listed.trace)
  {
    listed := AddToBlacklist(mac, key, drive.files, path, temp, version, drive.defaultMode, fault, logged);
    var versions := OldVersions(mac, key, drive.files, path);
    if version !in versions {
      versions := SortStrings(versions + [version]);
    }
    r := ReplaceFile(drive, path, temp, BlacklistBytes(SignedList(mac, key, versions)), fault);
    if r.Ok? && !logged {
      r := Err(Internal);
    }
  }

  // ------------------------------------------- what the files can be read as

  /** Counters as this engine writes them. */
  ghost predicate GoodCounters(ms: seq<Member>) {
    Ordered(ms) && forall i | 0 <= i < |ms| :: ms[i].value.Num? && 0 <= ms[i].value.n <= U32_MAX
  }

  lemma CountersRoundTrip(ms: seq<Member>)
    requires GoodCounters(ms)
    ensures ReadCounters(CountersBytes(ms)) == Some(ms)
  {
    DecodeEncode(ToPrettyText(Obj(ms)));
    JsonRoundTrip.ParsePrint(Obj(ms), Pretty);
    CollapseOfOrdered(ms);
  }

  lemma InsertKeepsCounters(ms: seq<Member>, version: string, n: nat)
    requires GoodCounters(ms) && n <= U32_MAX
    ensures GoodCounters(MapInsert(ms, version, Num(n)))
  {
    var r := MapInsert(ms, version, Num(n));
    MapInsertOrdered(ms, version, Num(n));
    forall i | 0 <= i < |r| ensures r[i].value.Num? && 0 <= r[i].value.n <= U32_MAX {
      MapInsertMembers(ms, version, Num(n), r[i]);
      assert r[i] in r;
    }
  }

  lemma GoodCount(ms: seq<Member>, version: string)
    requires GoodCounters(ms)
    ensures AsCount(Lookup(ms, version)) <= U32_MAX
  {
    LookupFinds(ms, version);
  }

  /** With stored counts that fit, the cast to 32 bits loses nothing. */
  lemma NextCountExact(ms: seq<Member>, version: string)
    requires GoodCounters(ms)
    ensures NextCount(ms, version) ==
            if AsCount(Lookup(ms, version)) < U32_MAX then AsCount(Lookup(ms, version)) + 1 else U32_MAX
  {
    GoodCount(ms, version);
  }

  lemma WrittenCountersLoad(files: Files, path: Path, ms: seq<Member>)
    requires GoodCounters(ms) && path in files && files[path].content == CountersBytes(ms)
    ensures LoadCounters(files, path) == Ok(ms)
  {
    CountersRoundTrip(ms);
  }

  /** A counter file that was replaced reads as the old counters with one entry advanced. */
  lemma IncrementDone(files: Files, path: Path, temp: Path, version: string, defaultMode: Mode, fault: Fault)
    requires temp != path && LoadCounters(files, path).Ok? && GoodCounters(LoadCounters(files, path).value)
    requires Increment(files, path, temp, version, defaultMode, fault).outcome.result.Ok?
    ensures var ms, c := LoadCounters(files, path).value, Increment(files, path, temp, version, defaultMode, fault);
            && c.outcome.trace != []
            && LoadCounters(Last(files, c.outcome.trace), path) == Ok(MapInsert(ms, version, Num(c.count)))
            && GoodCounters(MapInsert(ms, version, Num(c.count)))
            && c.count == if AsCount(Lookup(ms, version)) < U32_MAX then AsCount(Lookup(ms, version)) + 1 else U32_MAX
  {
    var ms := LoadCounters(files, path).value;
    var next := NextCount(ms, version);
    var counters := MapInsert(ms, version, Num(next));
    var o := Replace(files, path, temp, CountersBytes(counters), defaultMode, fault);
    ReplaceStates(files, path, temp, CountersBytes(counters), defaultMode, fault, |o.trace| - 1, path);
    InsertKeepsCounters(ms, version, next);
    WrittenCountersLoad(Last(files, o.trace), path, counters);
    NextCountExact(ms, version);
  }

  ghost predicate Ascending(xs: seq<string>) {
    forall i, k | 0 <= i < k < |xs| :: Less(xs[i], xs[k])
  }

  lemma SortStringsAscending(xs: seq<string>)
    requires forall i, k | 0 <= i < k < |xs| :: xs[i] != xs[k]
    ensures Ascending(SortStrings(xs))
  {
    forall a, b, c | Less(a, b) && Less(b, c) ensures Less(a, c) { LessTransitive(a, b, c); }
    forall i, k | 0 <= i < k < |xs| ensures Less(xs[i], xs[k]) || Less(xs[k], xs[i]) { LessTotal(xs[i], xs[k]); }
    SortSorted(Less, xs);
  }

  lemma SortKeepsAll(xs: seq<string>)
    ensures multiset(SortStrings(xs)) == multiset(xs)
  {
    Sorting.SortKeepsAll(Less, xs);
  }

  /** Sorting an ascending list changes nothing, so a MAC over the stored order is one over the sorted order. */
  lemma {:induction false} SortAscending(xs: seq<string>)
    requires Ascending(xs)
    ensures SortStrings(xs) == xs
  {
    if xs != [] {
      var rest := xs[1..];
      assert forall k | 0 <= k < |rest| :: rest[k] == xs[k + 1];
      SortAscending(rest);
      if rest != [] { LessAsymmetric(xs[0], rest[0]); }
      assert xs == [xs[0]] + rest;
    }
  }

  lemma AscendingDistinct(xs: seq<string>, i: nat, k: nat)
    requires Ascending(xs) && i < k < |xs|
    ensures xs[i] != xs[k]
  {
    LessIrreflexive(xs[i]);
  }

  lemma WithVersionAscending(xs: seq<string>, version: string)
    requires Ascending(xs)
    ensures Ascending(WithVersion(xs, version))
    ensures forall x :: x in WithVersion(xs, version) <==> x == version || x in xs
  {
    if version !in xs {
      var ys := xs + [version];
      forall i, k | 0 <= i < k < |ys| ensures ys[i] != ys[k] {
        if k < |xs| { AscendingDistinct(xs, i, k); }
      }
      SortStringsAscending(ys);
      forall x ensures x in SortStrings(ys) <==> x == version || x in xs { SortMembers(Less, ys, x); }
    }
  }

  lemma {:induction false} StringsRoundTrip(xs: seq<string>)
    ensures ReadStrings(StringsJson(xs)) == Some(xs)
  {
    if xs != [] {
      StringsRoundTrip(xs[1..]);
      assert StringsJson(xs)[1..] == StringsJson(xs[1..]);
      assert xs == [xs[0]] + xs[1..];
    }
  }

  lemma ReadBlacklistJson(b: Blacklist)
    ensures ReadBlacklist(BlacklistJson(b)) == Some(b)
  {
    var ms := BlacklistJson(b).members;
    assert |ms[0].key| == 11 && |ms[1].key| == 9;
    StructFieldsOfMap(ms, BLACKLIST_FIELDS);
    LookupAt(ms, 0);
    LookupAt(ms, 1);
    StringsRoundTrip(b.versions);
  }

  lemma BlacklistRoundTrip(b: Blacklist)
    ensures ParseBlacklist(BlacklistBytes(b)) == Some(b)
  {
    DecodeEncode(ToPrettyText(BlacklistJson(b)));
    JsonRoundTrip.ParsePrint(BlacklistJson(b), Pretty);
    ReadBlacklistJson(b);
  }

  /** Every list that the engine signs in ascending order passes its own check. */
  lemma WrittenListLoads(mac: Mac, key: bytes, files: Files, path: Path, versions: seq<string>)
    requires Ascending(versions)
    requires path in files && files[path].content == BlacklistBytes(SignedList(mac, key, versions))
    ensures LoadBlacklist(mac, key, files, path) == Ok(versions)
  {
    BlacklistRoundTrip(SignedList(mac, key, versions));
    SortAscending(versions);
  }

  /**
   * After a version was added, the check answers yes exactly for it and for the versions that were on the list
   * before; a list that could not be read counts as empty.
   */
  lemma AddThenCheck(mac: Mac, key: bytes, files: Files, path: Path, temp: Path, version: string, defaultMode: Mode,
                     fault: Fault, logged: bool, w: string)
    requires temp != path && Ascending(OldVersions(mac, key, files, path)) && fault.NoFault?
    ensures var o := AddToBlacklist(mac, key, files, path, temp, version, defaultMode, fault, logged);
            IsBlacklisted(mac, key, Last(files, o.trace), path, w) ==
            Ok(w == version || w in OldVersions(mac, key, files, path))
  {
    var before := OldVersions(mac, key, files, path);
    var versions := WithVersion(before, version);
    var content := BlacklistBytes(SignedList(mac, key, versions));
    var o := Replace(files, path, temp, content, defaultMode, fault);
    WithVersionAscending(before, version);
    ReplaceStates(files, path, temp, content, defaultMode, fault, |o.trace| - 1, path);
    WrittenListLoads(mac, key, Last(files, o.trace), path, versions);
  }

  /**
   * A signed list passes its own check only as far as the MAC cannot tell its order from the sorted one: the MAC is
   * taken over the stored order, and checked over the sorted order.
   */
  lemma OwnCheckExact(mac: Mac, key: bytes, files: Files, path: Path, versions: seq<string>)
    requires path in files && files[path].content == BlacklistBytes(SignedList(mac, key, versions))
    ensures LoadBlacklist(mac, key, files, path) ==
            if ListMac(mac, key, SortStrings(versions)) == ListMac(mac, key, versions) then Ok(versions)
            else Err(Error.Crypto)
  {
    BlacklistRoundTrip(SignedList(mac, key, versions));
  }
}
