/** Which documents are accepted, and that everything that was properly released is. */
module ManifestComplete {
  import opened Wrappers
  import opened Text
  import opened Json
  import opened Canonical
  import opened JsonValue
  import opened Manifest
  import JsonRoundTrip

  // ----------------------------------------------------- exactly what is accepted

  /** A manifest that is fresh, signed over this text, and for this tenant or for all. */
  predicate Good(v: Verifier, now: int, signed: string, m: Manifest) {
    && v.parseTime(m.issuedAt).Some? && -NANOS < now - v.parseTime(m.issuedAt).value < 25 * 3600 * NANOS
    && Signed(v, Encode(signed), m.manifestSig)
    && (m.installationId.Some? ==> m.installationId.value == v.installationId)
  }

  lemma ObjectStays(tree: Json)
    ensures ToValue(tree).Obj? <==> tree.Obj?
  {}

  /** A document is accepted exactly if it is an object that reads as the manifest, and the manifest is good. */
  lemma AcceptedExactly(v: Verifier, now: int, tree: Json, m: Manifest)
    ensures AcceptTree(v, now, tree) == Ok(m) <==>
            tree.Obj? && ReadManifest(tree) == Some(m) && Good(v, now, SignedText(ToValue(tree).members), m)
  {
    ObjectStays(tree);
    if AcceptTree(v, now, tree) == Ok(m) { AcceptedIsGood(v, now, tree, m); }
    if tree.Obj? && ReadManifest(tree) == Some(m) && Good(v, now, SignedText(ToValue(tree).members), m) {
      ReadManifestOfValue(tree);
      SignatureAndTime(ToValue(tree), m);
      GoodIsAccepted(v, now, tree, m);
    }
  }

  lemma AcceptedIsGood(v: Verifier, now: int, tree: Json, m: Manifest)
    requires AcceptTree(v, now, tree) == Ok(m)
    ensures ToValue(tree).Obj? && ReadManifest(tree) == Some(m) && Good(v, now, SignedText(ToValue(tree).members), m)
  {
    AcceptedTree(v, now, tree);
    FreshWindow(now - v.parseTime(m.issuedAt).value);
    AcceptedIsUsed(v, now, tree);
    UsedIsRead(v, tree, m);
  }

  lemma AcceptedIsUsed(v: Verifier, now: int, tree: Json)
    requires AcceptTree(v, now, tree).Ok?
    ensures Use(v, tree) == AcceptTree(v, now, tree)
  {}

  lemma UsedIsRead(v: Verifier, tree: Json, m: Manifest)
    requires Use(v, tree) == Ok(m)
    ensures ReadManifest(tree) == Some(m) && (m.installationId.Some? ==> m.installationId.value == v.installationId)
  {}

  lemma GoodIsAccepted(v: Verifier, now: int, tree: Json, m: Manifest)
    requires ReadManifest(tree) == Some(m) && ToValue(tree).Obj? && Good(v, now, SignedText(ToValue(tree).members), m)
    requires Get(ToValue(tree), SIGNATURE) == Some(Str(m.manifestSig))
    requires Get(ToValue(tree), "issued_at") == Some(Str(m.issuedAt))
    ensures AcceptTree(v, now, tree) == Ok(m)
  {
    FreshWindow(now - v.parseTime(m.issuedAt).value);
    CheckIsSigned(v, SignedText(ToValue(tree).members), m.manifestSig);
    assert Use(v, tree) == Ok(m);
  }

  /**
   * Which error a document gets that reads as a manifest: it is refused as not authentic if it is stale or from the
   * future, its signature is malformed or does not verify, or it is for another tenant. Only an unusable key is
   * reported as such.
   */
  lemma RefusedManifest(v: Verifier, now: int, tree: Json, m: Manifest)
    requires tree.Obj? && ReadManifest(tree) == Some(m) && v.parseTime(m.issuedAt).Some?
    requires !Good(v, now, SignedText(ToValue(tree).members), m)
    ensures var key := v.base64(v.publicKey);
            var recent := -NANOS < now - v.parseTime(m.issuedAt).value < 25 * 3600 * NANOS;
            var wellFormed := v.base64(m.manifestSig).Some? && |v.base64(m.manifestSig).value| == 64;
            var usable := key.Some? && |key.value| == 32 && v.validKey(key.value);
            AcceptTree(v, now, tree) == Err(if recent && wellFormed && !usable then Error.Crypto else Error.Signature)
  {
    var signed := SignedText(ToValue(tree).members);
    AcceptStages(v, now, tree, m);
    FreshWindow(now - v.parseTime(m.issuedAt).value);
    if Signed(v, Encode(signed), m.manifestSig) {
      CheckIsSigned(v, signed, m.manifestSig);
      ReadButRefused(v, tree, m);
    } else {
      RefusedCheck(v, signed, m.manifestSig);
    }
  }

  /** For a document that reads as a manifest: the time, the signature, then the tenant. */
  lemma AcceptStages(v: Verifier, now: int, tree: Json, m: Manifest)
    requires tree.Obj? && ReadManifest(tree) == Some(m) && v.parseTime(m.issuedAt).Some?
    ensures ToValue(tree).Obj?
    ensures var checked := CheckSignature(v, SignedText(ToValue(tree).members), m.manifestSig);
            AcceptTree(v, now, tree) ==
            if !Fresh(now - v.parseTime(m.issuedAt).value) then Err(Error.Signature)
            else if checked.Err? then Err(checked.error)
            else Use(v, tree)
  {
    ObjectStays(tree);
    ReadManifestOfValue(tree);
    SignatureAndTime(ToValue(tree), m);
  }

  lemma ReadButRefused(v: Verifier, tree: Json, m: Manifest)
    requires ReadManifest(tree) == Some(m)
    ensures Use(v, tree) ==
            if m.installationId.Some? && m.installationId.value != v.installationId then Err(Error.Signature) else Ok(m)
  {}

  lemma RefusedCheck(v: Verifier, message: string, sig: string)
    requires !Signed(v, Encode(message), sig)
    ensures var key := v.base64(v.publicKey);
            var wellFormed := v.base64(sig).Some? && |v.base64(sig).value| == 64;
            var usable := key.Some? && |key.value| == 32 && v.validKey(key.value);
            CheckSignature(v, message, sig) == Err(if wellFormed && !usable then Error.Crypto else Error.Signature)
  {}

  // ------------------------------------------------------------ what reads as what

  lemma {:induction false} ArtifactsReadExactly(items: seq<Json>, artifacts: seq<Artifact>)
    ensures ReadArtifacts(items) == Some(artifacts) <==>
            |items| == |artifacts| && forall i | 0 <= i < |items| :: ReadArtifact(items[i]) == Some(artifacts[i])
  {
    if items != [] && artifacts != [] {
      ArtifactsReadExactly(items[1..], artifacts[1..]);
      assert artifacts == [artifacts[0]] + artifacts[1..];
      assert forall i | 1 <= i < |items| :: items[i] == items[1..][i - 1];
      assert forall i | 1 <= i < |artifacts| :: artifacts[i] == artifacts[1..][i - 1];
    }
  }

  /** An object reads as an artifact exactly if each of the artifact's fields is in it, with its type. */
  lemma ArtifactReadsExactly(ms: seq<Member>, a: Artifact)
    requires Distinct(ms)
    ensures ReadArtifact(Obj(ms)) == Some(a) <==>
            && Lookup(ms, "platform") == Some(Str(a.platform)) && Lookup(ms, "url") == Some(Str(a.url))
            && Lookup(ms, "sha256") == Some(Str(a.sha256)) && Lookup(ms, "sha512") == Some(Str(a.sha512))
            && a.sizeBytes <= 0xFFFF_FFFF_FFFF_FFFF && Lookup(ms, "size_bytes") == Some(Num(a.sizeBytes))
            && Lookup(ms, "sig_ed25519") == Some(Str(a.sigEd25519))
  {
    StructFieldsOfMap(ms, ARTIFACT_FIELDS);
    var f := StructFields(Obj(ms), ARTIFACT_FIELDS).value;
    assert f[0] == Lookup(ms, "platform") && f[1] == Lookup(ms, "url") && f[2] == Lookup(ms, "sha256");
    assert f[3] == Lookup(ms, "sha512") && f[4] == Lookup(ms, "size_bytes") && f[5] == Lookup(ms, "sig_ed25519");
  }

  /** The text of a field that may be absent or null. */
  predicate OptionalText(o: Option<Json>, text: Option<string>) {
    match text case Some(s) => o == Some(Str(s)) case None => o == None || o == Some(Null)
  }

  /** An object reads as a manifest exactly if each of the manifest's fields is in it, with its type. */
  lemma ReadsExactly(ms: seq<Member>, m: Manifest)
    requires Distinct(ms)
    ensures ReadManifest(Obj(ms)) == Some(m) <==>
            && Lookup(ms, "schema_version") == Some(Str(m.schemaVersion))
            && Lookup(ms, "issued_at") == Some(Str(m.issuedAt))
            && OptionalText(Lookup(ms, "installation_id"), m.installationId)
            && Lookup(ms, "version") == Some(Str(m.version)) && Lookup(ms, "channel") == Some(Str(m.channel))
            && ArtifactsField(Lookup(ms, "artifacts"), m.artifacts)
            && Lookup(ms, "manifest_sig_ed25519") == Some(Str(m.manifestSig))
  {
    StructFieldsOfMap(ms, MANIFEST_FIELDS);
    var f := StructFields(Obj(ms), MANIFEST_FIELDS).value;
    assert f[0] == Lookup(ms, "schema_version") && f[1] == Lookup(ms, "issued_at");
    assert f[2] == Lookup(ms, "installation_id") && f[3] == Lookup(ms, "version") && f[4] == Lookup(ms, "channel");
    assert f[5] == Lookup(ms, "artifacts") && f[6] == Lookup(ms, "manifest_sig_ed25519");
    ArtifactsFieldExactly(f[5], m.artifacts);
    SevenFields(f, m);
  }

  /** The artifacts are a list that reads item by item. */
  predicate ArtifactsField(o: Option<Json>, artifacts: seq<Artifact>) {
    && o.Some? && o.value.Arr? && |o.value.items| == |artifacts|
    && forall i | 0 <= i < |artifacts| :: ReadArtifact(o.value.items[i]) == Some(artifacts[i])
  }

  lemma ArtifactsFieldExactly(o: Option<Json>, artifacts: seq<Artifact>)
    ensures AsArtifacts(o) == Some(artifacts) <==> ArtifactsField(o, artifacts)
  {
    if o.Some? && o.value.Arr? { ArtifactsReadExactly(o.value.items, artifacts); }
  }

  lemma SevenFields(f: seq<Option<Json>>, m: Manifest)
    requires |f| == 7
    ensures ManifestOfFields(f) == Some(m) <==>
            && f[0] == Some(Str(m.schemaVersion)) && f[1] == Some(Str(m.issuedAt))
            && OptionalText(f[2], m.installationId)
            && f[3] == Some(Str(m.version)) && f[4] == Some(Str(m.channel))
            && AsArtifacts(f[5]) == Some(m.artifacts) && f[6] == Some(Str(m.manifestSig))
  {}

  // ------------------------------------------------------- key order is no matter

  function ToOptionSorted(o: Option<Json>): Option<Json> {
    match o case None => None case Some(j) => Some(SortKeys(j))
  }

  lemma SortedFields(j: Json, names: seq<string>)
    requires UniqueKeys(j) && j.Obj?
    ensures StructFields(j, names).Some? && StructFields(SortKeys(j), names).Some?
    ensures forall i | 0 <= i < |names| ::
              StructFields(SortKeys(j), names).value[i] == ToOptionSorted(StructFields(j, names).value[i])
  {
    SortKeysUnique(j);
    StructFieldsOfMap(j.members, names);
    StructFieldsOfMap(SortKeys(j).members, names);
    forall i | 0 <= i < |names|
      ensures Lookup(SortKeys(j).members, names[i]) == ToOptionSorted(Lookup(j.members, names[i]))
    {
      SortKeysKeepsLookups(j.members, names[i]);
    }
  }

  lemma SortedPositions(j: Json, names: seq<string>)
    requires j.Arr?
    ensures StructFields(j, names).Some? <==> StructFields(SortKeys(j), names).Some?
    ensures StructFields(j, names).Some? ==> forall i | 0 <= i < |names| ::
              StructFields(SortKeys(j), names).value[i] == ToOptionSorted(StructFields(j, names).value[i])
  {
    forall i | 0 <= i < |j.items| ensures SortItems(j.items)[i] == SortKeys(j.items[i]) { SortItemsAt(j.items, i); }
  }

  lemma FieldsOfSorted(j: Json, names: seq<string>)
    requires UniqueKeys(j)
    ensures StructFields(j, names).Some? <==> StructFields(SortKeys(j), names).Some?
    ensures StructFields(j, names).Some? ==> forall i | 0 <= i < |names| ::
              StructFields(SortKeys(j), names).value[i] == ToOptionSorted(StructFields(j, names).value[i])
  {
    match j
    case Obj(_) => SortedFields(j, names);
    case Arr(_) => SortedPositions(j, names);
    case _ =>
  }

  lemma {:induction false} ReadArtifactOfSorted(j: Json)
    requires UniqueKeys(j)
    ensures ReadArtifact(SortKeys(j)) == ReadArtifact(j)
  {
    FieldsOfSorted(j, ARTIFACT_FIELDS);
    if StructFields(j, ARTIFACT_FIELDS).Some? {
      var f, g := StructFields(j, ARTIFACT_FIELDS).value, StructFields(SortKeys(j), ARTIFACT_FIELDS).value;
      forall i | 0 <= i < 6 ensures AsString(g[i]) == AsString(f[i]) && AsU64(g[i]) == AsU64(f[i]) {
        assert g[i] == ToOptionSorted(f[i]);
      }
    }
  }

  lemma {:induction false} ReadArtifactsOfSorted(items: seq<Json>)
    requires forall i | 0 <= i < |items| :: UniqueKeys(items[i])
    ensures ReadArtifacts(SortItems(items)) == ReadArtifacts(items)
  {
    if items != [] {
      ReadArtifactOfSorted(items[0]);
      ReadArtifactsOfSorted(items[1..]);
    }
  }

  lemma ArtifactsOfSorted(o: Option<Json>)
    requires o.Some? ==> UniqueKeys(o.value)
    ensures AsArtifacts(ToOptionSorted(o)) == AsArtifacts(o)
  {
    if o.Some? && o.value.Arr? { ReadArtifactsOfSorted(o.value.items); }
  }

  lemma SimpleOfSorted(o: Option<Json>)
    ensures AsString(ToOptionSorted(o)) == AsString(o)
    ensures AsOptionalString(ToOptionSorted(o)) == AsOptionalString(o)
  {}

  lemma FieldsUnique(j: Json, names: seq<string>, i: nat)
    requires UniqueKeys(j) && StructFields(j, names).Some? && i < |names|
    requires StructFields(j, names).value[i].Some?
    ensures UniqueKeys(StructFields(j, names).value[i].value)
  {
    if j.Obj? {
      LookupFinds(j.members, names[i]);
      var k :| 0 <= k < |j.members| && j.members[k] == Member(names[i], Lookup(j.members, names[i]).value);
    }
  }

  /** The typed reading does not depend on the order of keys. */
  lemma ReadManifestOfSorted(j: Json)
    requires UniqueKeys(j)
    ensures ReadManifest(SortKeys(j)) == ReadManifest(j)
  {
    FieldsOfSorted(j, MANIFEST_FIELDS);
    if StructFields(j, MANIFEST_FIELDS).Some? {
      var f, g := StructFields(j, MANIFEST_FIELDS).value, StructFields(SortKeys(j), MANIFEST_FIELDS).value;
      if f[5].Some? { FieldsUnique(j, MANIFEST_FIELDS, 5); }
      SortedFieldsRead(f, g);
    }
  }

  lemma SortedFieldsRead(f: seq<Option<Json>>, g: seq<Option<Json>>)
    requires |f| == 7 && |g| == 7 && forall i | 0 <= i < 7 :: g[i] == ToOptionSorted(f[i])
    requires f[5].Some? ==> UniqueKeys(f[5].value)
    ensures ManifestOfFields(g) == ManifestOfFields(f)
  {
    ArtifactsOfSorted(f[5]);
    forall i | 0 <= i < 7 ensures AsString(g[i]) == AsString(f[i]) && AsOptionalString(g[i]) == AsOptionalString(f[i]) {
      SimpleOfSorted(f[i]);
    }
  }

  lemma SameTreeReadsSame(a: Json, b: Json)
    requires UniqueKeys(a) && UniqueKeys(b) && SameTree(a, b)
    ensures ReadManifest(a) == ReadManifest(b)
  {
    SameImpliesSortedEqual(a, b);
    ReadManifestOfSorted(a);
    ReadManifestOfSorted(b);
  }

  // ------------------------------------------------------------ the signed text

  lemma {:induction false} RemovedKeys(ms: seq<Member>, key: string, k: string)
    requires Distinct(ms)
    ensures HasKey(MapRemove(ms, key), k) <==> HasKey(ms, k) && k != key
    ensures Distinct(MapRemove(ms, key))
  {
    if ms != [] {
      var rest := ms[1..];
      assert forall i | 0 <= i < |rest| :: rest[i] == ms[i + 1];
      HasKeyFirst(ms, k);
      if ms[0].key == key {
        FirstNotAgain(ms);
      } else {
        RemovedKeys(rest, key, k);
        RemovedKeys(rest, key, ms[0].key);
        FirstDistinct(ms[0], MapRemove(rest, key), rest);
        HasKeyFirst([ms[0]] + MapRemove(rest, key), k);
      }
    }
  }

  lemma HasKeyFirst(ms: seq<Member>, k: string)
    requires ms != []
    ensures HasKey(ms, k) <==> ms[0].key == k || HasKey(ms[1..], k)
  {
    if HasKey(ms, k) && ms[0].key != k {
      var i :| 0 <= i < |ms| && ms[i].key == k;
      assert ms[1..][i - 1].key == k;
    }
    if HasKey(ms[1..], k) {
      var i :| 0 <= i < |ms[1..]| && ms[1..][i].key == k;
      assert ms[i + 1].key == k;
    }
  }

  lemma FirstNotAgain(ms: seq<Member>)
    requires Distinct(ms) && ms != []
    ensures !HasKey(ms[1..], ms[0].key)
  {
    forall i | 0 <= i < |ms| - 1 ensures ms[1..][i].key != ms[0].key { assert ms[1..][i] == ms[i + 1]; }
  }

  lemma FirstDistinct(m: Member, kept: seq<Member>, rest: seq<Member>)
    requires Distinct(kept) && (HasKey(kept, m.key) ==> HasKey(rest, m.key)) && Distinct([m] + rest)
    ensures Distinct([m] + kept)
  {
    FirstNotAgain([m] + rest);
    assert ([m] + rest)[1..] == rest;
    assert forall i | 0 <= i < |kept| :: kept[i].key != m.key;
    forall i, k | 0 <= i < k < |[m] + kept| ensures ([m] + kept)[i].key != ([m] + kept)[k].key {
      assert ([m] + kept)[k] == kept[k - 1];
    }
  }

  lemma RemoveSame(x: seq<Member>, y: seq<Member>, key: string)
    requires Distinct(x) && Distinct(y) && SameTree(Obj(x), Obj(y))
    ensures SameTree(Obj(MapRemove(x, key)), Obj(MapRemove(y, key)))
  {
    var a, b := MapRemove(x, key), MapRemove(y, key);
    forall k ensures HasKey(a, k) <==> HasKey(b, k) {
      RemovedKeys(x, key, k);
      RemovedKeys(y, key, k);
    }
    forall i, k | 0 <= i < |a| && 0 <= k < |b| && a[i].key == b[k].key ensures SameTree(a[i].value, b[k].value) {
      MapRemoveMembers(x, key, a[i]);
      MapRemoveMembers(y, key, b[k]);
      assert a[i] in x && b[k] in y;
    }
  }

  lemma RemoveUnique(ms: seq<Member>, key: string)
    requires UniqueKeys(Obj(ms))
    ensures UniqueKeys(Obj(MapRemove(ms, key)))
  {
    var r := MapRemove(ms, key);
    RemovedKeys(ms, key, key);
    forall i | 0 <= i < |r| ensures UniqueKeys(r[i].value) {
      MapRemoveMembers(ms, key, r[i]);
      assert r[i] in ms;
    }
  }

  lemma SameCanonicalText(a: Json, b: Json)
    requires UniqueKeys(a) && UniqueKeys(b) && SameTree(a, b)
    ensures CanonicalText(a) == CanonicalText(b)
  {
    SameImpliesSortedEqual(a, b);
  }

  /** Whatever the order of the keys, the text that is checked is the one over the fields but the signature. */
  lemma SignedTextSame(tree: Json, ms: seq<Member>)
    requires UniqueKeys(tree) && UniqueKeys(Obj(ms)) && SameTree(tree, Obj(ms))
    ensures ToValue(tree).Obj? && SignedText(ToValue(tree).members) == SignedText(ms)
  {
    ToValueSame(tree);
    ToValueIsValue(tree);
    ValueUnique(ToValue(tree));
    CanonicalIsNormalForm(tree, ToValue(tree));
    CanonicalIsNormalForm(tree, Obj(ms));
    CanonicalIsNormalForm(ToValue(tree), Obj(ms));
    RemoveSame(ToValue(tree).members, ms, SIGNATURE);
    RemoveUnique(ToValue(tree).members, SIGNATURE);
    RemoveUnique(ms, SIGNATURE);
    SameCanonicalText(Obj(MapRemove(ToValue(tree).members, SIGNATURE)), Obj(MapRemove(ms, SIGNATURE)));
  }

  // --------------------------------------------------------- released documents

  /** Artifacts with sizes that fit into 64 bits. */
  predicate Fits(m: Manifest) {
    forall i | 0 <= i < |m.artifacts| :: m.artifacts[i].sizeBytes <= 0xFFFF_FFFF_FFFF_FFFF
  }

  function ArtifactMembers(a: Artifact): seq<Member>
    requires a.sizeBytes <= 0xFFFF_FFFF_FFFF_FFFF
  {
    [Member("platform", Str(a.platform)), Member("url", Str(a.url)), Member("sha256", Str(a.sha256)),
     Member("sha512", Str(a.sha512)), Member("size_bytes", Num(a.sizeBytes)), Member("sig_ed25519", Str(a.sigEd25519))]
  }

  function ArtifactsJson(artifacts: seq<Artifact>): (r: seq<Json>)
    requires forall i | 0 <= i < |artifacts| :: artifacts[i].sizeBytes <= 0xFFFF_FFFF_FFFF_FFFF
    ensures |r| == |artifacts| && forall i | 0 <= i < |r| :: r[i] == Obj(ArtifactMembers(artifacts[i]))
  {
    seq(|artifacts|, i requires 0 <= i < |artifacts| => Obj(ArtifactMembers(artifacts[i])))
  }

  function IdJson(id: Option<string>): Json {
    match id case None => Null case Some(s) => Str(s)
  }

  function ManifestMembers(m: Manifest): seq<Member>
    requires Fits(m)
  {
    [Member("schema_version", Str(m.schemaVersion)), Member("issued_at", Str(m.issuedAt)),
     Member("installation_id", IdJson(m.installationId)), Member("version", Str(m.version)),
     Member("channel", Str(m.channel)), Member("artifacts", Arr(ArtifactsJson(m.artifacts))),
     Member(SIGNATURE, Str(m.manifestSig))]
  }

  lemma ArtifactKeys(a: Artifact)
    requires a.sizeBytes <= 0xFFFF_FFFF_FFFF_FFFF
    ensures Distinct(ArtifactMembers(a)) && forall i | 0 <= i < 6 :: ArtifactMembers(a)[i].key == ARTIFACT_FIELDS[i]
  {
    var ms := ArtifactMembers(a);
    assert ms[0].key[0] == 'p' && ms[1].key[0] == 'u' && ms[2].key[3] == '2' && ms[3].key[3] == '5';
    assert |ms[2].key| == 6 && |ms[3].key| == 6 && |ms[0].key| == 8 && |ms[1].key| == 3;
    assert |ms[4].key| == 10 && |ms[5].key| == 11;
  }

  lemma ReadArtifactJson(a: Artifact)
    requires a.sizeBytes <= 0xFFFF_FFFF_FFFF_FFFF
    ensures ReadArtifact(Obj(ArtifactMembers(a))) == Some(a) && UniqueKeys(Obj(ArtifactMembers(a)))
  {
    var ms := ArtifactMembers(a);
    ArtifactKeys(a);
    StructFieldsOfMap(ms, ARTIFACT_FIELDS);
    forall i | 0 <= i < 6 ensures Lookup(ms, ARTIFACT_FIELDS[i]) == Some(ms[i].value) { LookupAt(ms, i); }
  }

  lemma {:induction false} ReadArtifactsJson(artifacts: seq<Artifact>)
    requires forall i | 0 <= i < |artifacts| :: artifacts[i].sizeBytes <= 0xFFFF_FFFF_FFFF_FFFF
    ensures ReadArtifacts(ArtifactsJson(artifacts)) == Some(artifacts) && UniqueKeys(Arr(ArtifactsJson(artifacts)))
  {
    forall i | 0 <= i < |artifacts| ensures UniqueKeys(ArtifactsJson(artifacts)[i]) { ReadArtifactJson(artifacts[i]); }
    if artifacts != [] {
      ReadArtifactJson(artifacts[0]);
      ReadArtifactsJson(artifacts[1..]);
      assert ArtifactsJson(artifacts)[1..] == ArtifactsJson(artifacts[1..]);
      assert artifacts == [artifacts[0]] + artifacts[1..];
    }
  }

  lemma ManifestKeys(m: Manifest)
    requires Fits(m)
    ensures Distinct(ManifestMembers(m)) && forall i | 0 <= i < 7 :: ManifestMembers(m)[i].key == MANIFEST_FIELDS[i]
  {
    var ms := ManifestMembers(m);
    assert |ms[0].key| == 14 && |ms[1].key| == 9 && |ms[2].key| == 15 && |ms[3].key| == 7 && |ms[4].key| == 7;
    assert |ms[5].key| == 9 && |ms[6].key| == 20;
    assert ms[1].key[0] == 'i' && ms[5].key[0] == 'a' && ms[3].key[0] == 'v' && ms[4].key[0] == 'c';
  }

  lemma ManifestJsonUnique(m: Manifest)
    requires Fits(m)
    ensures UniqueKeys(Obj(ManifestMembers(m)))
  {
    ManifestKeys(m);
    ReadArtifactsJson(m.artifacts);
  }

  lemma ReadManifestJson(m: Manifest)
    requires Fits(m)
    ensures ReadManifest(Obj(ManifestMembers(m))) == Some(m)
  {
    var ms := ManifestMembers(m);
    ManifestKeys(m);
    ReadArtifactsJson(m.artifacts);
    StructFieldsOfMap(ms, MANIFEST_FIELDS);
    FieldsInPlace(ms, MANIFEST_FIELDS);
    FieldsOfManifest(StructFields(Obj(ms), MANIFEST_FIELDS).value, m);
  }

  lemma FieldsInPlace(ms: seq<Member>, names: seq<string>)
    requires Distinct(ms) && |ms| == |names| && forall i | 0 <= i < |ms| :: ms[i].key == names[i]
    ensures forall i | 0 <= i < |ms| :: Lookup(ms, names[i]) == Some(ms[i].value)
  {
    forall i | 0 <= i < |ms| ensures Lookup(ms, names[i]) == Some(ms[i].value) { LookupAt(ms, i); }
  }

  lemma FieldsOfManifest(f: seq<Option<Json>>, m: Manifest)
    requires Fits(m) && |f| == 7 && forall i | 0 <= i < 7 :: f[i] == Some(ManifestMembers(m)[i].value)
    requires ReadArtifacts(ArtifactsJson(m.artifacts)) == Some(m.artifacts)
    ensures ManifestOfFields(f) == Some(m)
  {
    ManifestValues(m);
    EachField(f, m);
  }

  lemma ManifestValues(m: Manifest)
    requires Fits(m)
    ensures var ms := ManifestMembers(m);
            && |ms| == 7 && ms[0].value == Str(m.schemaVersion) && ms[1].value == Str(m.issuedAt)
            && ms[2].value == IdJson(m.installationId) && ms[3].value == Str(m.version)
            && ms[4].value == Str(m.channel) && ms[5].value == Arr(ArtifactsJson(m.artifacts))
            && ms[6].value == Str(m.manifestSig)
  {}

  lemma EachField(f: seq<Option<Json>>, m: Manifest)
    requires Fits(m) && |f| == 7
    requires f[0] == Some(Str(m.schemaVersion)) && f[1] == Some(Str(m.issuedAt))
    requires f[2] == Some(IdJson(m.installationId))
    requires f[3] == Some(Str(m.version)) && f[4] == Some(Str(m.channel))
    requires f[5] == Some(Arr(ArtifactsJson(m.artifacts))) && f[6] == Some(Str(m.manifestSig))
    requires ReadArtifacts(ArtifactsJson(m.artifacts)) == Some(m.artifacts)
    ensures ManifestOfFields(f) == Some(m)
  {}

  /** What is signed when a manifest is released. */
  function ReleaseText(m: Manifest): string
    requires Fits(m)
  {
    SignedText(ManifestMembers(m))
  }

  /**
   * Every text of a manifest's fields, in any order of the keys and with any white space, is accepted as exactly that
   * manifest if and only if the manifest is fresh, signed over its canonical text, and for this tenant.
   */
  lemma ReleasedIsAccepted(v: Verifier, now: int, m: Manifest, tree: Json, text: string)
    requires Fits(m) && Parse(text) == Some(tree) && UniqueKeys(tree) && SameTree(tree, Obj(ManifestMembers(m)))
    ensures Accept(v, now, Encode(text)) == Ok(m) <==> Good(v, now, ReleaseText(m), m)
  {
    ReadManifestJson(m);
    ManifestJsonUnique(m);
    SameTreeReadsSame(tree, Obj(ManifestMembers(m)));
    SignedTextSame(tree, ManifestMembers(m));
    AcceptedExactly(v, now, tree, m);
    DecodeEncode(text);
  }

  /** In particular every document that serde_json prints for it, in either style. */
  lemma PrintedIsAccepted(v: Verifier, now: int, m: Manifest, style: Style)
    requires Fits(m)
    ensures var release := Encode(Print(Obj(ManifestMembers(m)), style, 0));
            Accept(v, now, release) == Ok(m) <==> Good(v, now, ReleaseText(m), m)
  {
    var tree := Obj(ManifestMembers(m));
    JsonRoundTrip.ParsePrint(tree, style);
    ManifestJsonUnique(m);
    SameTreeReflexive(tree);
    ReleasedIsAccepted(v, now, m, tree, Print(tree, style, 0));
  }
}
