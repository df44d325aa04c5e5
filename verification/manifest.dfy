/**
 * Verification of a fetched update manifest: the document is read twice, untyped for the signature and typed for
 * use.
 */
module Manifest {
  import opened Wrappers
  import opened Text
  import opened Json
  import opened Canonical
  import opened JsonValue
  import JsonRoundTrip

  datatype Artifact = Artifact(platform: string, url: string, sha256: string, sha512: string, sizeBytes: nat,
                               sigEd25519: string)

  datatype Manifest = Manifest(schemaVersion: string, issuedAt: string, installationId: Option<string>,
                               version: string, channel: string, artifacts: seq<Artifact>, manifestSig: string)

  /** The library functions the check relies on, and the engine's configuration. */
  datatype Verifier = Verifier(
    base64: string -> Option<bytes>,
    validKey: bytes -> bool,
    /** Ed25519 `verify_strict`: key, message, signature. */
    verifyStrict: (bytes, bytes, bytes) -> bool,
    /** An RFC 3339 time in nanoseconds since the epoch. */
    parseTime: string -> Option<int>,
    publicKey: string,
    installationId: string)

  const SIGNATURE := "manifest_sig_ed25519"

  // --------------------------------------------------------- typed reading

  const ARTIFACT_FIELDS := ["platform", "url", "sha256", "sha512", "size_bytes", "sig_ed25519"]
  const MANIFEST_FIELDS :=
    ["schema_version", "issued_at", "installation_id", "version", "channel", "artifacts", SIGNATURE]

  function AsU64(o: Option<Json>): Option<nat> {
    match o case Some(Num(n)) => (if n >= 0 then Some(n as nat) else None) case _ => None
  }

  /** An optional field: absent and null both mean None. */
  function AsOptionalString(o: Option<Json>): Option<Option<string>> {
    match o
    case None => Some(None)
    case Some(Null) => Some(None)
    case Some(Str(s)) => Some(Some(s))
    case _ => None
  }

  function ReadArtifact(j: Json): Option<Artifact> {
    var f :- StructFields(j, ARTIFACT_FIELDS);
    var platform :- AsString(f[0]);
    var url :- AsString(f[1]);
    var sha256 :- AsString(f[2]);
    var sha512 :- AsString(f[3]);
    var sizeBytes :- AsU64(f[4]);
    var sigEd25519 :- AsString(f[5]);
    Some(Artifact(platform, url, sha256, sha512, sizeBytes, sigEd25519))
  }

  function ReadArtifacts(items: seq<Json>): Option<seq<Artifact>> {
    if items == [] then Some([])
    else
      var first :- ReadArtifact(items[0]);
      var rest :- ReadArtifacts(items[1..]);
      Some([first] + rest)
  }

  function AsArtifacts(o: Option<Json>): Option<seq<Artifact>> {
    match o case Some(Arr(items)) => ReadArtifacts(items) case _ => None
  }

  function ManifestOfFields(f: seq<Option<Json>>): Option<Manifest>
    requires |f| == 7
  {
    var schemaVersion :- AsString(f[0]);
    var issuedAt :- AsString(f[1]);
    var installationId :- AsOptionalString(f[2]);
    var version :- AsString(f[3]);
    var channel :- AsString(f[4]);
    var artifacts :- AsArtifacts(f[5]);
    var manifestSig :- AsString(f[6]);
    Some(Manifest(schemaVersion, issuedAt, installationId, version, channel, artifacts, manifestSig))
  }

  function ReadManifest(j: Json): Option<Manifest> {
    var f :- StructFields(j, MANIFEST_FIELDS);
    ManifestOfFields(f)
  }

  // ------------------------------------------------------------- the check

  function Get(j: Json, key: string): Option<Json> {
    match j case Obj(ms) => Lookup(ms, key) case _ => None
  }

  function MapRemove(ms: seq<Member>, key: string): seq<Member> {
    if ms == [] then [] else if ms[0].key == key then ms[1..] else [ms[0]] + MapRemove(ms[1..], key)
  }

  const NANOS := 1_000_000_000

  /** Division that rounds towards zero, as chrono's whole seconds and hours do. */
  function Truncate(a: int, unit: int): int
    requires unit > 0
  {
    if a >= 0 then a / unit else -(-a / unit)
  }

  predicate Fresh(age: int) {
    var seconds := Truncate(age, NANOS);
    seconds >= 0 && Truncate(seconds, 3600) <= 24
  }

  /** The text whose signature is checked: the untyped document without its signature field. */
  function SignedText(ms: seq<Member>): string {
    CanonicalText(Obj(MapRemove(ms, SIGNATURE)))
  }

  /** The decoded signature and the decoded public key, in the order in which they are looked at. */
  function SignatureAndKey(v: Verifier, sigBase64: string): Result<(bytes, bytes)> {
    match v.base64(sigBase64)
    case None => Err(Error.Signature)
    case Some(sig) =>
      if |sig| != 64 then Err(Error.Signature)
      else
        match v.base64(v.publicKey)
        case None => Err(Error.Crypto)
        case Some(key) => if |key| != 32 || !v.validKey(key) then Err(Error.Crypto) else Ok((sig, key))
  }

  function CheckSignature(v: Verifier, message: string, sigBase64: string): Result<()> {
    match SignatureAndKey(v, sigBase64)
    case Err(e) => Err(e)
    case Ok((sig, key)) => if v.verifyStrict(key, Encode(message), sig) then Ok(()) else Err(Error.Signature)
  }

  /**
   * The text is the Base64 of 64 bytes that verify, by the strict rules, as a signature of this content under the
   * configured key, which is the Base64 of a valid key of 32 bytes.
   */
  predicate Signed(v: Verifier, content: bytes, sigBase64: string) {
    && v.base64(sigBase64).Some? && |v.base64(sigBase64).value| == 64
    && v.base64(v.publicKey).Some? && |v.base64(v.publicKey).value| == 32 && v.validKey(v.base64(v.publicKey).value)
    && v.verifyStrict(v.base64(v.publicKey).value, content, v.base64(sigBase64).value)
  }

  lemma CheckIsSigned(v: Verifier, message: string, sigBase64: string)
    ensures CheckSignature(v, message, sigBase64).Ok? <==> Signed(v, Encode(message), sigBase64)
  {}

  /** Steps 2 to 5 of a fetch, from the body of the response. */
  function Accept(v: Verifier, now: int, body: bytes): Result<Manifest> {
    match Decode(body)
    case None => Err(InvalidInput)
    case Some(text) =>
      match Parse(text)
      case None => Err(InvalidInput)
      case Some(tree) => AcceptTree(v, now, tree)
  }

  function AcceptTree(v: Verifier, now: int, tree: Json): Result<Manifest> {
    var value := ToValue(tree);
    match AsString(Get(value, "issued_at"))
    case None => Err(InvalidInput)
    case Some(issuedAt) =>
      match v.parseTime(issuedAt)
      case None => Err(InvalidInput)
      case Some(t) =>
        if !Fresh(now - t) then Err(Error.Signature)
        else
          match AsString(Get(value, SIGNATURE))
          case None => Err(Error.Signature)
          case Some(sigBase64) =>
            if !value.Obj? then Err(InvalidInput)
            else
              var _ :- CheckSignature(v, SignedText(value.members), sigBase64);
              Use(v, tree)
  }

  /** Only after the signature passed: the typed reading and the tenant check. */
  function Use(v: Verifier, tree: Json): Result<Manifest> {
    match ReadManifest(tree)
    case None => Err(InvalidInput)
    case Some(m) =>
      if m.installationId.Some? && m.installationId.value != v.installationId then Err(Error.Signature) else Ok(m)
  }

  // ------------------------------------------------- the two readings agree

  lemma {:induction false} ReadArtifactOfValue(j: Json)
    requires ReadArtifact(j).Some?
    ensures ReadArtifact(ToValue(j)) == ReadArtifact(j)
  {
    StructFieldsOfValue(j, ARTIFACT_FIELDS);
    var f, g := StructFields(j, ARTIFACT_FIELDS).value, StructFields(ToValue(j), ARTIFACT_FIELDS).value;
    assert forall i | 0 <= i < 6 :: g[i] == ToOptionValue(f[i]);
    assert g[4] == f[4];
  }

  lemma {:induction false} ReadArtifactsOfValues(items: seq<Json>)
    requires ReadArtifacts(items).Some?
    ensures ReadArtifacts(ItemsToValues(items)) == ReadArtifacts(items)
  {
    if items != [] {
      ReadArtifactOfValue(items[0]);
      ReadArtifactsOfValues(items[1..]);
    }
  }

  lemma FieldsOfValues(f: seq<Option<Json>>, g: seq<Option<Json>>)
    requires |f| == 7 && |g| == 7 && forall i | 0 <= i < 7 :: g[i] == ToOptionValue(f[i])
    requires ManifestOfFields(f).Some?
    ensures ManifestOfFields(g) == ManifestOfFields(f)
  {
    ReadArtifactsOfValues(f[5].value.items);
    assert AsArtifacts(g[5]) == AsArtifacts(f[5]);
  }

  /** Whenever the typed reading of a document succeeds, its untyped value reads as the same manifest. */
  lemma ReadManifestOfValue(j: Json)
    requires ReadManifest(j).Some?
    ensures ReadManifest(ToValue(j)) == ReadManifest(j)
  {
    StructFieldsOfValue(j, MANIFEST_FIELDS);
    FieldsOfValues(StructFields(j, MANIFEST_FIELDS).value, StructFields(ToValue(j), MANIFEST_FIELDS).value);
  }

  lemma {:induction false} MapRemoveMembers(ms: seq<Member>, key: string, m: Member)
    requires m in MapRemove(ms, key)
    ensures m in ms
  {
    if ms != [] && ms[0].key != key && m != ms[0] { MapRemoveMembers(ms[1..], key, m); }
  }

  lemma {:induction false} MapRemoveOrdered(ms: seq<Member>, key: string)
    requires Ordered(ms)
    ensures Ordered(MapRemove(ms, key))
  {
    if ms != [] && ms[0].key != key {
      var rest := ms[1..];
      assert forall i | 0 <= i < |rest| :: rest[i] == ms[i + 1];
      MapRemoveOrdered(rest, key);
      var r := MapRemove(rest, key);
      forall i | 0 <= i < |r| ensures Less(ms[0].key, r[i].key) {
        MapRemoveMembers(rest, key, r[i]);
      }
    }
  }

  lemma KeyIsLater(ms: seq<Member>, key: string)
    requires Ordered(ms) && Lookup(ms, key).Some? && ms[0].key != key
    ensures Ordered(ms[1..]) && Lookup(ms[1..], key) == Lookup(ms, key) && !Less(key, ms[0].key)
  {
    var rest := ms[1..];
    assert forall i | 0 <= i < |rest| :: rest[i] == ms[i + 1];
    LookupFinds(rest, key);
    var i :| 0 <= i < |rest| && rest[i].key == key;
    LessAsymmetric(ms[0].key, key);
  }

  /** Putting a removed member back restores the map. */
  lemma {:induction false} InsertRemoved(ms: seq<Member>, key: string)
    requires Ordered(ms) && Lookup(ms, key).Some?
    ensures MapInsert(MapRemove(ms, key), key, Lookup(ms, key).value) == ms
  {
    var rest := ms[1..];
    assert ms == [ms[0]] + rest;
    if ms[0].key == key {
      InsertFirst(rest, key, ms[0].value) by {
        forall i | 0 <= i < |rest| ensures Less(key, rest[i].key) { assert rest[i] == ms[i + 1]; }
      }
    } else {
      KeyIsLater(ms, key);
      InsertRemoved(rest, key);
      InsertLater(ms[0], MapRemove(rest, key), key, Lookup(rest, key).value);
    }
  }

  lemma InsertLater(first: Member, ms: seq<Member>, key: string, v: Json)
    requires first.key != key && !Less(key, first.key)
    ensures MapInsert([first] + ms, key, v) == [first] + MapInsert(ms, key, v)
  {
    assert ([first] + ms)[1..] == ms;
  }

  lemma InsertFirst(ms: seq<Member>, key: string, v: Json)
    requires forall i | 0 <= i < |ms| :: Less(key, ms[i].key)
    ensures MapInsert(ms, key, v) == [Member(key, v)] + ms
  {}

  /** Parsing the signed text gives back the very members that were signed. */
  lemma ParseSignedText(ms: seq<Member>)
    requires IsValue(Obj(ms))
    ensures Parse(SignedText(ms)) == Some(Obj(MapRemove(ms, SIGNATURE)))
  {
    var rest := MapRemove(ms, SIGNATURE);
    MapRemoveOrdered(ms, SIGNATURE);
    forall i | 0 <= i < |rest| ensures IsValue(rest[i].value) { MapRemoveMembers(ms, SIGNATURE, rest[i]); }
    SortKeysOfValue(Obj(rest));
    JsonRoundTrip.ParsePrint(Obj(rest), Compact);
  }

  // ----------------------------------------------------------- main results

  /** The manifest written in a signed text, with a signature field added. */
  function ManifestInText(signed: string, sig: string): Option<Manifest> {
    match Parse(signed)
    case Some(Obj(ms)) => ReadManifest(Obj(MapInsert(ms, SIGNATURE, Str(sig))))
    case _ => None
  }

  /** The text whose signature `Accept` checks. */
  function SignedTextOf(body: bytes): Option<string> {
    var text :- Decode(body);
    var tree :- Parse(text);
    match ToValue(tree) case Obj(ms) => Some(SignedText(ms)) case _ => None
  }

  lemma AcceptedTree(v: Verifier, now: int, tree: Json)
    requires AcceptTree(v, now, tree).Ok?
    ensures var m := AcceptTree(v, now, tree).value;
            && ToValue(tree).Obj?
            && v.parseTime(m.issuedAt).Some? && Fresh(now - v.parseTime(m.issuedAt).value)
            && Signed(v, Encode(SignedText(ToValue(tree).members)), m.manifestSig)
            && ManifestInText(SignedText(ToValue(tree).members), m.manifestSig) == Some(m)
  {
    var m := AcceptTree(v, now, tree).value;
    var ms := ToValue(tree).members;
    assert ReadManifest(tree) == Some(m);
    ReadManifestOfValue(tree);
    SignatureAndTime(Obj(ms), m);
    CheckIsSigned(v, SignedText(ms), m.manifestSig);
    ToValueIsValue(tree);
    ParseSignedText(ms);
    InsertRemoved(ms, SIGNATURE);
  }

  /** The two fields the check looks up by name are the ones the typed manifest carries. */
  lemma SignatureAndTime(j: Json, m: Manifest)
    requires j.Obj? && ReadManifest(j) == Some(m)
    ensures Get(j, SIGNATURE) == Some(Str(m.manifestSig))
    ensures Get(j, "issued_at") == Some(Str(m.issuedAt))
  {
    var f := StructFields(j, MANIFEST_FIELDS).value;
    assert f[1] == Lookup(j.members, MANIFEST_FIELDS[1]);
    assert f[6] == Lookup(j.members, MANIFEST_FIELDS[6]);
  }

  /**
   * What is used is what was signed: an accepted manifest is exactly the one written in the text whose
   * signature verified, whatever the document looked like (key order, white space, repeated or unknown keys).
   */
  lemma UsedIsSigned(v: Verifier, now: int, body: bytes)
    requires Accept(v, now, body).Ok?
    ensures var m := Accept(v, now, body).value;
            && SignedTextOf(body).Some?
            && Signed(v, Encode(SignedTextOf(body).value), m.manifestSig)
            && ManifestInText(SignedTextOf(body).value, m.manifestSig) == Some(m)
            && (m.installationId.Some? ==> m.installationId.value == v.installationId)
  {
    AcceptedTree(v, now, Parse(Decode(body).value).value);
  }

  lemma FieldsAfterInsert(ms: seq<Member>, sig: string)
    requires Ordered(ms)
    ensures StructFields(Obj(MapInsert(ms, SIGNATURE, Str(sig))), MANIFEST_FIELDS).Some?
    ensures var f := StructFields(Obj(MapInsert(ms, SIGNATURE, Str(sig))), MANIFEST_FIELDS).value;
            && f[6] == Some(Str(sig))
            && forall i | 0 <= i < 6 :: f[i] == Lookup(ms, MANIFEST_FIELDS[i])
  {
    var x := MapInsert(ms, SIGNATURE, Str(sig));
    MapInsertOrdered(ms, SIGNATURE, Str(sig));
    OrderedDistinct(x);
    StructFieldsOfMap(x, MANIFEST_FIELDS);
    forall i | 0 <= i < 7
      ensures Lookup(x, MANIFEST_FIELDS[i]) == if i == 6 then Some(Str(sig)) else Lookup(ms, MANIFEST_FIELDS[i])
    {
      MapInsertLookup(ms, SIGNATURE, Str(sig), MANIFEST_FIELDS[i]);
      SignatureIsLast(i);
    }
  }

  lemma SignatureIsLast(i: nat)
    requires i < 7
    ensures MANIFEST_FIELDS[i] == SIGNATURE <==> i == 6
  {
    assert i != 6 ==> |MANIFEST_FIELDS[i]| < |SIGNATURE|;
  }

  /** The signature field carries nothing but itself. */
  lemma SignatureFieldIsIndependent(ms: seq<Member>, a: string, b: string)
    requires Ordered(ms)
    requires ReadManifest(Obj(MapInsert(ms, SIGNATURE, Str(a)))).Some?
    ensures ReadManifest(Obj(MapInsert(ms, SIGNATURE, Str(b)))) ==
            Some(ReadManifest(Obj(MapInsert(ms, SIGNATURE, Str(a)))).value.(manifestSig := b))
  {
    FieldsAfterInsert(ms, a);
    FieldsAfterInsert(ms, b);
    SixFieldsDecide(StructFields(Obj(MapInsert(ms, SIGNATURE, Str(a))), MANIFEST_FIELDS).value,
                    StructFields(Obj(MapInsert(ms, SIGNATURE, Str(b))), MANIFEST_FIELDS).value, a, b);
  }

  lemma SixFieldsDecide(f: seq<Option<Json>>, g: seq<Option<Json>>, a: string, b: string)
    requires |f| == 7 && |g| == 7 && forall i | 0 <= i < 6 :: g[i] == f[i]
    requires f[6] == Some(Str(a)) && g[6] == Some(Str(b)) && ManifestOfFields(f).Some?
    ensures ManifestOfFields(g) == Some(ManifestOfFields(f).value.(manifestSig := b))
  {}

  /** Two accepted documents with the same signed text yield the same manifest but for the signature field. */
  lemma SamePayloadSameManifest(v: Verifier, now: int, body: bytes, v': Verifier, now': int, body': bytes)
    ensures Accept(v, now, body).Ok? && Accept(v', now', body').Ok? && SignedTextOf(body) == SignedTextOf(body') ==>
              Accept(v, now, body).value.(manifestSig := "") == Accept(v', now', body').value.(manifestSig := "")
  {
    if Accept(v, now, body).Ok? && Accept(v', now', body').Ok? && SignedTextOf(body) == SignedTextOf(body') {
      var m, m' := Accept(v, now, body).value, Accept(v', now', body').value;
      UsedIsSigned(v, now, body);
      UsedIsSigned(v', now', body');
      var tree := Parse(Decode(body).value).value;
      ToValueIsValue(tree);
      SameTextSameFields(ToValue(tree).members, m, m');
    }
  }

  /** The signed text decides everything but the signature. */
  lemma SameTextSameFields(ms: seq<Member>, m: Manifest, m': Manifest)
    requires IsValue(Obj(ms))
    requires ManifestInText(SignedText(ms), m.manifestSig) == Some(m)
    requires ManifestInText(SignedText(ms), m'.manifestSig) == Some(m')
    ensures m.(manifestSig := "") == m'.(manifestSig := "")
  {
    ParseSignedText(ms);
    MapRemoveOrdered(ms, SIGNATURE);
    SignatureFieldIsIndependent(MapRemove(ms, SIGNATURE), m.manifestSig, m'.manifestSig);
  }

  /**
   * The window that the code enforces, in nanoseconds. It is wider than the documented 24 hours: almost one
   * second of clock skew is let through, and so is any age below 25 hours.
   */
  lemma FreshWindow(age: int)
    ensures Fresh(age) <==> -NANOS < age < 25 * 3600 * NANOS
  {
  }
}
