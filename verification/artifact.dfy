/** Downloading an artifact: a capped stream, a staging file, the checks, and one rename. */
module Artifacts {
  import opened Wrappers
  import opened Numbers
  import opened Text
  import opened Paths
  import opened Disk
  import opened Manifest
  import opened Degraded

  // ------------------------------------------------------ the capped stream

  /** A piece of the response body, or a read error. */
  type Chunk = Option<bytes>

  function Concat(chunks: seq<Chunk>): bytes
    requires None !in chunks
  {
    if chunks == [] then [] else Concat(chunks[..|chunks| - 1]) + chunks[|chunks| - 1].value
  }

  /** How many chunks arrive before the first read error. */
  function Arriving(chunks: seq<Chunk>): (n: nat)
    ensures n <= |chunks| && None !in chunks[..n] && (n < |chunks| ==> chunks[n].None?)
  {
    if chunks == [] || chunks[0].None? then 0
    else
      var n := Arriving(chunks[1..]);
      assert chunks[..1 + n] == [chunks[0]] + chunks[1..][..n];
      1 + n
  }

  /** Lengths are added with saturation, so a cap of the largest `usize` never rejects. */
  predicate Exceeds(length: nat, more: nat, cap: nat) {
    (if length + more <= USIZE_MAX then length + more else USIZE_MAX) > cap
  }

  predicate WithinCap(length: nat, cap: nat) {
    length <= cap || cap >= USIZE_MAX
  }

  lemma {:induction false} ConcatGrows(chunks: seq<Chunk>, i: nat, n: nat)
    requires i <= n <= |chunks| && None !in chunks[..n]
    ensures None !in chunks[..i] && |Concat(chunks[..i])| <= |Concat(chunks[..n])|
  {
    if i < n {
      assert chunks[..n][..n - 1] == chunks[..n - 1];
      ConcatGrows(chunks, i, n - 1);
    } else {
      assert chunks[..i] == chunks[..n];
    }
  }

  /**
   * The download loop. `sizes` holds the length of the buffer after each chunk that was taken. The result is the
   * whole body unless a read fails or the chunks before the first failing read exceed the cap.
   */
  method ReadCapped(chunks: seq<Chunk>, cap: nat) returns (r: Result<bytes>, ghost sizes: seq<nat>)
    ensures forall i | 0 <= i < |sizes| :: WithinCap(sizes[i], cap)
    ensures |sizes| <= Arriving(chunks)
    ensures forall i | 0 <= i < |sizes| :: None !in chunks[..i + 1] && sizes[i] == |Concat(chunks[..i + 1])|
    ensures var n := Arriving(chunks);
            r == if !WithinCap(|Concat(chunks[..n])|, cap) then Err(InvalidInput)
                 else if n < |chunks| then Err(Network)
                 else Ok(Concat(chunks[..n]))
  {
    var buf: bytes := [];
    sizes := [];
    ghost var n := Arriving(chunks);
    for i := 0 to |chunks|
      invariant i <= n && None !in chunks[..i]
      invariant buf == Concat(chunks[..i]) && WithinCap(|buf|, cap)
      invariant |sizes| == i && forall k | 0 <= k < i :: WithinCap(sizes[k], cap)
      invariant forall k | 0 <= k < i :: None !in chunks[..k + 1] && sizes[k] == |Concat(chunks[..k + 1])|
    {
      if chunks[i].None? {
        return Err(Network), sizes;
      }
      var piece := chunks[i].value;
      assert chunks[..i + 1][..i] == chunks[..i];
      if Exceeds(|buf|, |piece|, cap) {
        ConcatGrows(chunks, i + 1, n);
        return Err(InvalidInput), sizes;
      }
      buf := buf + piece;
      sizes := sizes + [|buf|];
    }
    assert chunks[..|chunks|] == chunks;
    return Ok(buf), sizes;
  }

  // --------------------------------------------------------------- the checks

  datatype Digests = Digests(sha256: bytes -> string, sha512: bytes -> string)

  /** What the checks say: a rejection cleans up and counts as a failure, an unusable key or signature does not. */
  datatype Verdict = Passed | Rejected(error: Error) | Unusable(error: Error)

  function Check(v: Verifier, d: Digests, a: Artifact, content: bytes): Verdict {
    if d.sha256(content) != a.sha256 then Rejected(Error.Crypto)
    else if d.sha512(content) != a.sha512 then Rejected(Error.Crypto)
    else
      match SignatureAndKey(v, a.sigEd25519)
      case Err(e) => Unusable(e)
      case Ok((sig, key)) => if v.verifyStrict(key, content, sig) then Passed else Rejected(Error.Signature)
  }

  /** The content is the one that the manifest's artifact describes, and the artifact's signature is for it. */
  ghost predicate Genuine(v: Verifier, d: Digests, a: Artifact, content: bytes) {
    && d.sha256(content) == a.sha256 && d.sha512(content) == a.sha512
    && Signed(v, content, a.sigEd25519)
  }

  lemma PassedIffGenuine(v: Verifier, d: Digests, a: Artifact, content: bytes)
    ensures Check(v, d, a, content).Passed? <==> Genuine(v, d, a, content)
  {}

  // ------------------------------------------------- staging and swapping in

  /** What goes wrong on the disk; `removed` says whether the best-effort removal of the staging file works. */
  datatype Fault = NoFault | CreateFails | WriteStops(count: nat) | FlushFails | RenameFails

  datatype Outcome = Outcome(trace: Trace, result: Result<Path>, recorded: History)

  function Cleanup(files: Files, temp: Path, removed: bool): Trace {
    if removed then [Remove(files, temp)] else []
  }

  /** From the written staging file on. */
  function Conclude(staged: Files, temp: Path, final: Path, verdict: Verdict, renames: bool, removed: bool): Outcome {
    match verdict
    case Rejected(e) => Outcome(Cleanup(staged, temp, removed), Err(e), [Failure])
    case Unusable(e) => Outcome([], Err(e), [])
    case Passed =>
      if renames then Outcome([Rename(staged, temp, final)], Ok(final), [Success])
      else Outcome(Cleanup(staged, temp, removed), Err(Permission), [])
  }

  /** From the downloaded bytes on: the staging file is written before the bytes are checked. */
  function SwapIn(files: Files, temp: Path, final: Path, content: bytes, verdict: Verdict, defaultMode: Mode,
                  fault: Fault, removed: bool): Outcome
  {
    var count := if fault.WriteStops? && fault.count < |content| then fault.count else |content|;
    var written := WriteTrace(files, temp, content, count, defaultMode);
    if fault.CreateFails? then Outcome([], Err(Permission), [])
    else if fault.WriteStops? || fault.FlushFails? then Outcome(written, Err(Internal), [])
    else
      var o := Conclude(Written(files, temp, content[..count], defaultMode), temp, final, verdict, !fault.RenameFails?,
                        removed);
      o.(trace := written + o.trace)
  }

  method StageAndSwap(drive: Drive, breaker: Breaker, temp: Path, final: Path, content: bytes, verdict: Verdict,
                      fault: Fault, removed: bool) returns (r: Result<Path>)
    requires drive.Valid() && breaker.Valid()
    modifies drive, breaker
    ensures drive.Valid() && breaker.Valid()
    ensures var o := SwapIn(old(drive.files), temp, final, content, verdict, drive.defaultMode, fault, removed);
            && r == o.result
            && drive.history == old(drive.history) + o.trace
            && drive.files == Last(old(drive.files), o.trace)
            && breaker.history == old(breaker.history) + o.recorded
  {
    if fault.CreateFails? {
      return Err(Permission);
    }
    var count := if fault.WriteStops? && fault.count < |content| then fault.count else |content|;
    drive.Write(temp, content, count);
    if fault.WriteStops? || fault.FlushFails? {
      return Err(Internal);
    }
    ghost var start, staged, base := old(drive.files), drive.files, old(drive.history);
    SwapInStaged(start, temp, final, content, verdict, drive.defaultMode, fault, removed);
    r := FinishStaged(drive, breaker, temp, final, verdict, !fault.RenameFails?, removed);
    Glue(start, drive.files, base, drive.history, WriteTrace(start, temp, content, count, drive.defaultMode),
         Conclude(staged, temp, final, verdict, !fault.RenameFails?, removed).trace);
  }

  /** Once the staging file is written, the checks decide. */
  lemma SwapInStaged(files: Files, temp: Path, final: Path, content: bytes, verdict: Verdict, defaultMode: Mode,
                     fault: Fault, removed: bool)
    requires !fault.CreateFails? && !fault.WriteStops? && !fault.FlushFails?
    ensures var o := Conclude(Written(files, temp, content[..|content|], defaultMode), temp, final, verdict,
                              !fault.RenameFails?, removed);
            SwapIn(files, temp, final, content, verdict, defaultMode, fault, removed) ==
            Outcome(WriteTrace(files, temp, content, |content|, defaultMode) + o.trace, o.result, o.recorded)
  {}

  method FinishStaged(drive: Drive, breaker: Breaker, temp: Path, final: Path, verdict: Verdict, renames: bool,
                      removed: bool) returns (r: Result<Path>)
    requires drive.Valid() && breaker.Valid()
    modifies drive, breaker
    ensures drive.Valid() && breaker.Valid()
    ensures var o := Conclude(old(drive.files), temp, final, verdict, renames, removed);
            && r == o.result
            && drive.history == old(drive.history) + o.trace
            && drive.files == Last(old(drive.files), o.trace)
            && breaker.history == old(breaker.history) + o.recorded
  {
    match verdict {
      case Rejected(e) =>
        RemoveStaged(drive, temp, removed);
        breaker.RecordFailure();
        return Err(e);
      case Unusable(e) =>
        return Err(e);
      case Passed =>
        if !renames {
          RemoveStaged(drive, temp, removed);
          return Err(Permission);
        }
        drive.Move(temp, final);
        breaker.RecordSuccess();
        return Ok(final);
    }
  }

  method RemoveStaged(drive: Drive, temp: Path, removed: bool)
    requires drive.Valid()
    modifies drive
    ensures drive.Valid()
    ensures drive.history == old(drive.history) + Cleanup(old(drive.files), temp, removed)
    ensures drive.files == Last(old(drive.files), Cleanup(old(drive.files), temp, removed))
  {
    if removed {
      drive.Delete(temp);
    }
  }

  /** In every state but the last one of a success, nothing but the staging file differs from the start. */
  lemma OnlyStaging(files: Files, temp: Path, final: Path, content: bytes, verdict: Verdict, defaultMode: Mode,
                    fault: Fault, removed: bool, k: nat, p: Path)
    requires p != temp
    requires k < |SwapIn(files, temp, final, content, verdict, defaultMode, fault, removed).trace|
    ensures var o := SwapIn(files, temp, final, content, verdict, defaultMode, fault, removed);
            (o.result.Ok? && k == |o.trace| - 1 && p == final) || SameAt(o.trace[k], files, p)
  {}

  /** A success puts exactly the bytes that passed the checks into the deployment file. */
  lemma SwappedBytes(files: Files, temp: Path, final: Path, content: bytes, verdict: Verdict, defaultMode: Mode,
                     fault: Fault, removed: bool)
    requires temp != final
    requires SwapIn(files, temp, final, content, verdict, defaultMode, fault, removed).result.Ok?
    ensures var o := SwapIn(files, temp, final, content, verdict, defaultMode, fault, removed);
            && verdict.Passed? && o.trace != []
            && final in Last(files, o.trace) && Last(files, o.trace)[final].content == content
            && temp !in Last(files, o.trace)
  {
    assert content[..|content|] == content;
  }

  // ------------------------------------------------------------ the whole call

  /** What the environment contributes: the token and the runtime, the response, and what fails. */
  datatype World = World(token: Result<()>, response: Result<seq<Chunk>>, fault: Fault, removed: bool)

  datatype Config = Config(verifier: Verifier, digests: Digests, platform: string, stagingDir: Path, cap: nat,
                           defaultMode: Mode)

  function TempFile(c: Config): Path {
    c.stagingDir + [Normal("synqro_staging_" + c.platform + ".tmp")]
  }

  function FinalFile(c: Config): Path {
    c.stagingDir + [Normal("synqro_" + c.platform + ".bin")]
  }

  lemma StagingIsNotFinal(c: Config)
    ensures TempFile(c) != FinalFile(c)
  {
    var t, f := TempFile(c)[|c.stagingDir|].name, FinalFile(c)[|c.stagingDir|].name;
    assert t[|t| - 1] == 'p' && f[|f| - 1] == 'n';
  }

  /** The first artifact for this platform. */
  function FindArtifact(artifacts: seq<Artifact>, platform: string): (r: Option<Artifact>)
    ensures r.None? <==> forall a | a in artifacts :: a.platform != platform
    ensures r.Some? ==> exists i :: 0 <= i < |artifacts| && artifacts[i] == r.value && r.value.platform == platform
                                    && forall k | 0 <= k < i :: artifacts[k].platform != platform
  {
    if artifacts == [] then None
    else if artifacts[0].platform == platform then Some(artifacts[0])
    else FindArtifact(artifacts[1..], platform)
  }

  /** The body of the response as the loop takes it. */
  function Body(response: Result<seq<Chunk>>, cap: nat): Result<bytes> {
    match response
    case Err(e) => Err(e)
    case Ok(chunks) =>
      var n := Arriving(chunks);
      if !WithinCap(|Concat(chunks[..n])|, cap) then Err(InvalidInput)
      else if n < |chunks| then Err(Network)
      else Ok(Concat(chunks[..n]))
  }

  /** `download_and_verify_artifact`, when the mode is not degraded. */
  function Deploy(c: Config, m: Manifest, files: Files, w: World): Outcome {
    match FindArtifact(m.artifacts, c.platform)
    case None => Outcome([], Err(InvalidInput), [])
    case Some(a) =>
      if w.token.Err? then Outcome([], Err(w.token.error), [])
      else
        match Body(w.response, c.cap)
        case Err(e) => Outcome(Cleanup(files, TempFile(c), w.removed), Err(e), [Failure])
        case Ok(content) =>
          SwapIn(files, TempFile(c), FinalFile(c), content, Check(c.verifier, c.digests, a, content), c.defaultMode,
                 w.fault, w.removed)
  }

  method DownloadArtifact(drive: Drive, breaker: Breaker, c: Config, m: Manifest, w: World)
    returns (r: Result<Path>)
    requires drive.Valid() && breaker.Valid() && drive.defaultMode == c.defaultMode
    modifies drive, breaker
    ensures drive.Valid() && breaker.Valid()
    ensures old(breaker.degradedMode) ==>
              && r == Err(Error.Degraded) && drive.files == old(drive.files)
              && drive.history == old(drive.history) && breaker.history == old(breaker.history)
    ensures !old(breaker.degradedMode) ==>
              var o := Deploy(c, m, old(drive.files), w);
              && r == o.result
              && drive.history == old(drive.history) + o.trace
              && drive.files == Last(old(drive.files), o.trace)
              && breaker.history == old(breaker.history) + o.recorded
  {
    var checked := breaker.CheckDegraded();
    if checked.Err? {
      return Err(checked.error);
    }
    var artifact := FindArtifact(m.artifacts, c.platform);
    if artifact.None? {
      return Err(InvalidInput);
    }
    if w.token.Err? {
      return Err(w.token.error);
    }
    var body := Download(w.response, c.cap);
    if body.Err? {
      RemoveStaged(drive, TempFile(c), w.removed);
      breaker.RecordFailure();
      return Err(body.error);
    }
    var verdict := Check(c.verifier, c.digests, artifact.value, body.value);
    r := StageAndSwap(drive, breaker, TempFile(c), FinalFile(c), body.value, verdict, w.fault, w.removed);
  }

  method Download(response: Result<seq<Chunk>>, cap: nat) returns (r: Result<bytes>)
    ensures r == Body(response, cap)
  {
    if response.Err? {
      return Err(response.error);
    }
    ghost var sizes;
    r, sizes := ReadCapped(response.value, cap);
  }

  // ------------------------------------------------------------ main results

  /** Until the rename of a success, at every point where the engine may die, only the staging file has changed. */
  lemma DeploymentUntouched(c: Config, m: Manifest, files: Files, w: World, k: nat, p: Path)
    requires k < |Deploy(c, m, files, w).trace| && p != TempFile(c)
    ensures var o := Deploy(c, m, files, w);
            (o.result.Ok? && k == |o.trace| - 1 && p == FinalFile(c)) || SameAt(o.trace[k], files, p)
  {
    var a := FindArtifact(m.artifacts, c.platform).value;
    var body := Body(w.response, c.cap);
    if body.Ok? {
      OnlyStaging(files, TempFile(c), FinalFile(c), body.value, Check(c.verifier, c.digests, a, body.value),
                  c.defaultMode, w.fault, w.removed, k, p);
    }
  }

  /** Every error leaves the deployment file as it was. */
  lemma ErrorLeavesDeployment(c: Config, m: Manifest, files: Files, w: World)
    requires Deploy(c, m, files, w).result.Err?
    ensures SameAt(Last(files, Deploy(c, m, files, w).trace), files, FinalFile(c))
  {
    var t := Deploy(c, m, files, w).trace;
    StagingIsNotFinal(c);
    if t != [] { DeploymentUntouched(c, m, files, w, |t| - 1, FinalFile(c)); }
  }

  /**
   * On success the deployment file holds the whole body of the response, no longer than the cap, with both hashes
   * and the signature of the first artifact for this platform in the manifest.
   */
  lemma SuccessDeploysGenuine(c: Config, m: Manifest, files: Files, w: World) returns (a: Artifact)
    requires Deploy(c, m, files, w).result.Ok?
    ensures FindArtifact(m.artifacts, c.platform) == Some(a)
    ensures var end := Last(files, Deploy(c, m, files, w).trace);
            && Deploy(c, m, files, w).result == Ok(FinalFile(c))
            && FinalFile(c) in end && TempFile(c) !in end
            && Genuine(c.verifier, c.digests, a, end[FinalFile(c)].content)
            && WithinCap(|end[FinalFile(c)].content|, c.cap)
            && Body(w.response, c.cap) == Ok(end[FinalFile(c)].content)
  {
    a := FindArtifact(m.artifacts, c.platform).value;
    var content := Body(w.response, c.cap).value;
    StagingIsNotFinal(c);
    PassedIffGenuine(c.verifier, c.digests, a, content);
    SwappedBytes(files, TempFile(c), FinalFile(c), content, Check(c.verifier, c.digests, a, content), c.defaultMode,
                 w.fault, w.removed);
  }

  /** Unless the disk fails, genuine bytes within the cap are deployed. */
  lemma GenuineIsDeployed(c: Config, m: Manifest, files: Files, w: World, a: Artifact)
    requires FindArtifact(m.artifacts, c.platform) == Some(a) && w.token.Ok? && w.fault.NoFault?
    requires Body(w.response, c.cap).Ok?
    ensures Deploy(c, m, files, w).result.Ok? <==> Genuine(c.verifier, c.digests, a, Body(w.response, c.cap).value)
  {
    PassedIffGenuine(c.verifier, c.digests, a, Body(w.response, c.cap).value);
  }

  /**
   * What a deployment takes: an artifact for this platform, a token, a whole response within the cap that is genuine,
   * and a disk that works.
   */
  ghost predicate Delivers(c: Config, m: Manifest, w: World) {
    var a := FindArtifact(m.artifacts, c.platform);
    && a.Some? && w.token.Ok? && w.response.Ok? && None !in w.response.value && w.fault.NoFault?
    && WithinCap(|Concat(w.response.value)|, c.cap)
    && Genuine(c.verifier, c.digests, a.value, Concat(w.response.value))
  }

  lemma WholeBody(response: Result<seq<Chunk>>, cap: nat)
    ensures Body(response, cap).Ok? <==>
            response.Ok? && None !in response.value && WithinCap(|Concat(response.value)|, cap)
    ensures Body(response, cap).Ok? ==> Body(response, cap).value == Concat(response.value)
  {
    if response.Ok? {
      var chunks := response.value;
      var n := Arriving(chunks);
      if n == |chunks| { assert chunks[..n] == chunks; }
    }
  }

  /**
   * A deployment succeeds if and only if all of that is there, and then the deployment file holds the response, all of
   * it, the staging file is gone, and one success is recorded.
   */
  lemma DeploysExactly(c: Config, m: Manifest, files: Files, w: World)
    ensures var o := Deploy(c, m, files, w);
            && (o.result.Ok? <==> Delivers(c, m, w))
            && (o.result.Ok? ==>
                  && o.recorded == [Success] && o.result.value == FinalFile(c)
                  && FinalFile(c) in Last(files, o.trace) && TempFile(c) !in Last(files, o.trace)
                  && Last(files, o.trace)[FinalFile(c)].content == Concat(w.response.value))
  {
    WholeBody(w.response, c.cap);
    if Deploy(c, m, files, w).result.Ok? {
      var a := SuccessDeploysGenuine(c, m, files, w);
    }
    var a := FindArtifact(m.artifacts, c.platform);
    if a.Some? && Body(w.response, c.cap).Ok? {
      PassedIffGenuine(c.verifier, c.digests, a.value, Body(w.response, c.cap).value);
    }
  }

  /** The bytes are not those of the manifest: another hash, or a well-formed signature that is not for them. */
  predicate Forged(c: Config, a: Artifact, content: bytes) {
    var sig, key := c.verifier.base64(a.sigEd25519), c.verifier.base64(c.verifier.publicKey);
    || c.digests.sha256(content) != a.sha256 || c.digests.sha512(content) != a.sha512
    || (&& sig.Some? && |sig.value| == 64 && key.Some? && |key.value| == 32 && c.verifier.validKey(key.value)
        && !c.verifier.verifyStrict(key.value, content, sig.value))
  }

  /**
   * What counts as a failure of the download: that the body does not arrive whole and within the cap, or that it was
   * staged and is forged. Both also remove the staging file, if that can be done.
   */
  lemma FailuresRecorded(c: Config, m: Manifest, files: Files, w: World)
    ensures var o, a := Deploy(c, m, files, w), FindArtifact(m.artifacts, c.platform);
            var tried := a.Some? && w.token.Ok?;
            var arrived := w.response.Ok? && None !in w.response.value
                           && WithinCap(|Concat(w.response.value)|, c.cap);
            var staged := w.fault.NoFault? || w.fault.RenameFails?;
            && (o.recorded == [Failure] <==>
                  tried && (!arrived || (staged && Forged(c, a.value, Concat(w.response.value)))))
            && (o.recorded == [Success] <==> o.result.Ok?)
            && (o.recorded == [] || |o.recorded| == 1)
            && (o.recorded == [Failure] && w.removed ==> TempFile(c) !in Last(files, o.trace))
  {
    WholeBody(w.response, c.cap);
    var a := FindArtifact(m.artifacts, c.platform);
    if a.Some? && w.token.Ok? && Body(w.response, c.cap).Ok? {
      var content := Body(w.response, c.cap).value;
      var verdict := Check(c.verifier, c.digests, a.value, content);
      RejectedIffForged(c, a.value, content);
      SwapRecords(files, TempFile(c), FinalFile(c), content, verdict, c.defaultMode, w.fault, w.removed);
    }
  }

  lemma RejectedIffForged(c: Config, a: Artifact, content: bytes)
    ensures Check(c.verifier, c.digests, a, content).Rejected? <==> Forged(c, a, content)
  {}

  lemma SwapRecords(files: Files, temp: Path, final: Path, content: bytes, verdict: Verdict, defaultMode: Mode,
                    fault: Fault, removed: bool)
    ensures var o := SwapIn(files, temp, final, content, verdict, defaultMode, fault, removed);
            && (o.recorded == [Failure] <==> (fault.NoFault? || fault.RenameFails?) && verdict.Rejected?)
            && (o.recorded == [Success] <==> o.result.Ok?)
            && (o.recorded == [] || |o.recorded| == 1)
            && (o.recorded == [Failure] && removed ==> o.trace != [] && temp !in Last(files, o.trace))
  {
    assert [Success][0] != [Failure][0];
  }

  /** The two contents are equal, or they collide in both hash functions. */
  predicate EqualOrColliding(d: Digests, x: bytes, y: bytes) {
    x == y || (d.sha256(x) == d.sha256(y) && d.sha512(x) == d.sha512(y))
  }

  /**
   * From signature to disk: two deployments from accepted manifests with the same signed text put the same bytes
   * into place, whoever served the manifests and the bytes, unless both hash functions are broken at once.
   */
  lemma SamePayloadSameBytes(c: Config, now: int, body: bytes, files: Files, w: World,
                             now': int, body': bytes, files': Files, w': World)
    ensures Accept(c.verifier, now, body).Ok? && Accept(c.verifier, now', body').Ok?
            && SignedTextOf(body) == SignedTextOf(body')
            && Deploy(c, Accept(c.verifier, now, body).value, files, w).result.Ok?
            && Deploy(c, Accept(c.verifier, now', body').value, files', w').result.Ok? ==>
              && Body(w.response, c.cap).Ok? && Body(w'.response, c.cap).Ok?
              && EqualOrColliding(c.digests, Body(w.response, c.cap).value, Body(w'.response, c.cap).value)
  {
    SamePayloadSameManifest(c.verifier, now, body, c.verifier, now', body');
    var r, r' := Accept(c.verifier, now, body), Accept(c.verifier, now', body');
    if r.Ok? && r'.Ok? && SignedTextOf(body) == SignedTextOf(body') {
      if Deploy(c, r.value, files, w).result.Ok? && Deploy(c, r'.value, files', w').result.Ok? {
        SameArtifactsSameBytes(c, r.value, files, w, r'.value, files', w');
      }
    }
  }

  lemma SameArtifactsSameBytes(c: Config, m: Manifest, files: Files, w: World,
                               m': Manifest, files': Files, w': World)
    requires m.artifacts == m'.artifacts
    requires Deploy(c, m, files, w).result.Ok? && Deploy(c, m', files', w').result.Ok?
    ensures Body(w.response, c.cap).Ok? && Body(w'.response, c.cap).Ok?
    ensures EqualOrColliding(c.digests, Body(w.response, c.cap).value, Body(w'.response, c.cap).value)
  {
    var a := SuccessDeploysGenuine(c, m, files, w);
    var a' := SuccessDeploysGenuine(c, m', files', w');
  }
}
