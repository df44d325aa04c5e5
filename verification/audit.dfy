/** The tamper-evident log: one JSON record a line, each with its own MAC. */
module Audit {
  import opened Wrappers
  import opened Numbers
  import opened Sequences
  import opened Text
  import opened Json
  import opened Canonical
  import opened JsonValue
  import JsonRoundTrip

  /** What one call records; the severity follows from the event in the engine's table. */
  datatype Event = Event(ts: string, event: string, severity: string, data: Json)

  datatype LogLine = LogLine(ts: string, event: string, severity: string, installationId: string,
                             data: Json, lineHmac: string)

  // --------------------------------------------------------------- writing

  function PayloadFields(ts: string, event: string, severity: string, installationId: string, data: Json): seq<Member> {
    [Member("ts", Str(ts)), Member("event", Str(event)), Member("severity", Str(severity)),
     Member("installation_id", Str(installationId)), Member("data", data)]
  }

  /** Everything that is authenticated. */
  function Payload(ts: string, event: string, severity: string, installationId: string, data: Json): Json {
    Obj(MapOf(PayloadFields(ts, event, severity, installationId, data)))
  }

  function EventPayload(installationId: string, e: Event): Json {
    Payload(e.ts, e.event, e.severity, installationId, e.data)
  }

  function RecordJson(mac: Mac, key: bytes, installationId: string, e: Event): Json {
    var payload := EventPayload(installationId, e);
    Obj(MapInsert(payload.members, "line_hmac", Str(mac(key, CanonicalBytes(payload)))))
  }

  function RecordLine(mac: Mac, key: bytes, installationId: string, e: Event): bytes {
    Encode(ToText(RecordJson(mac, key, installationId, e)))
  }

  /** The bytes that one call appends. */
  function Record(mac: Mac, key: bytes, installationId: string, e: Event): bytes {
    RecordLine(mac, key, installationId, e) + [0x0A]
  }

  // ------------------------------------------------------------- verifying

  const FIELDS := ["ts", "event", "severity", "installation_id", "data", "line_hmac"]

  function ReadLogLine(j: Json): Option<LogLine> {
    var f :- StructFields(j, FIELDS);
    var ts :- AsString(f[0]);
    var event :- AsString(f[1]);
    var severity :- AsString(f[2]);
    var installationId :- AsString(f[3]);
    var data :- f[4];
    var lineHmac :- AsString(f[5]);
    Some(LogLine(ts, event, severity, installationId, ToValue(data), lineHmac))
  }

  /** The characters that Rust's `trim` removes. */
  predicate IsWhiteSpace(c: char) {
    || '\t' <= c <= '\r' || c == ' ' || c == '\U{0085}' || c == '\U{00A0}' || c == '\U{1680}'
    || '\U{2000}' <= c <= '\U{200A}' || c == '\U{2028}' || c == '\U{2029}' || c == '\U{202F}'
    || c == '\U{205F}' || c == '\U{3000}'
  }

  predicate IsBlank(s: string) {
    forall i | 0 <= i < |s| :: IsWhiteSpace(s[i])
  }

  /** Does the stored MAC match the payload rebuilt from the other fields? */
  predicate Authentic(mac: Mac, key: bytes, l: LogLine) {
    mac(key, CanonicalBytes(Payload(l.ts, l.event, l.severity, l.installationId, l.data))) == l.lineHmac
  }

  function VerifyText(mac: Mac, key: bytes, text: string): (r: Result<nat>)
    ensures r.Ok? ==> r.value <= 1
  {
    if IsBlank(text) then Ok(0)
    else
      match Parse(text)
      case None => Err(InvalidInput)
      case Some(j) =>
        match ReadLogLine(j)
        case None => Err(InvalidInput)
        case Some(l) => if Authentic(mac, key, l) then Ok(1) else Err(Error.Crypto)
  }

  /** How many valid records a line holds: none if it is blank, else one or an error. */
  function VerifyLine(mac: Mac, key: bytes, line: bytes): (r: Result<nat>)
    ensures r.Ok? ==> r.value <= 1
  {
    match Decode(line)
    case None => Err(Internal)
    case Some(text) => VerifyText(mac, key, text)
  }

  /** The position of the first newline. */
  function FindNewline(b: bytes): (n: nat)
    ensures n <= |b| && (n < |b| ==> b[n] == 0x0A)
    ensures forall i | 0 <= i < n :: b[i] != 0x0A
  {
    if b == [] || b[0] == 0x0A then 0 else 1 + FindNewline(b[1..])
  }

  /** A line as it is handed out: a carriage return before the newline goes with it. */
  function StripReturn(line: bytes): bytes {
    if line != [] && line[|line| - 1] == 0x0D then line[..|line| - 1] else line
  }

  /** The lines of a file; a last line without a newline counts unless it is empty. */
  function Lines(b: bytes): seq<bytes> {
    if b == [] then []
    else
      var n := FindNewline(b);
      if n == |b| then [b] else [StripReturn(b[..n])] + Lines(b[n + 1..])
  }

  /** The records counted so far together with those still to come. */
  function Plus(n: nat, r: Result<nat>): Result<nat> {
    match r case Ok(m) => Ok(n + m) case Err(e) => Err(e)
  }

  /** The number of records in these lines, or the error of the first invalid line. */
  function CountRecords(verify: bytes -> Result<nat>, lines: seq<bytes>): Result<nat> {
    if lines == [] then Ok(0)
    else
      var n :- verify(lines[0]);
      Plus(n, CountRecords(verify, lines[1..]))
  }

  function VerifyFile(mac: Mac, key: bytes, b: bytes): Result<nat> {
    CountRecords(line => VerifyLine(mac, key, line), Lines(b))
  }

  // ------------------------------------------------------------ the logger

  /** Comparison in time that depends only on the lengths. */
  method ConstantTimeEq(a: seq<bv8>, b: seq<bv8>) returns (same: bool)
    ensures same <==> a == b
  {
    if |a| != |b| {
      return false;
    }
    var diff: bv8 := 0;
    for i := 0 to |a|
      invariant diff == 0 <==> a[..i] == b[..i]
    {
      OrXor(diff, a[i], b[i]);
      diff := diff | (a[i] ^ b[i]);
      assert a[..i + 1] == a[..i] + [a[i]] && b[..i + 1] == b[..i] + [b[i]];
    }
    assert a[..|a|] == a && b[..|b|] == b;
    return diff == 0;
  }

  lemma OrXor(d: bv8, x: bv8, y: bv8)
    ensures d | (x ^ y) == 0 <==> d == 0 && x == y
  {
    if x == y {
      assert x ^ y == 0;
    } else {
      assert x ^ y != 0;
    }
  }

  lemma CountStep(verify: bytes -> Result<nat>, lines: seq<bytes>, i: nat)
    requires i < |lines|
    ensures CountRecords(verify, lines[i..]) ==
            match verify(lines[i])
            case Ok(n) => Plus(n, CountRecords(verify, lines[i + 1..]))
            case Err(e) => Err(e)
  {
    assert lines[i..][0] == lines[i] && lines[i..][1..] == lines[i + 1..];
  }

  function Saturate(r: Result<nat>): Result<nat> {
    match r case Ok(n) => Ok(Min(n, USIZE_MAX)) case Err(e) => Err(e)
  }

  /** The verification loop: stop at the first invalid line, else count. */
  method CountLines(verify: bytes -> Result<nat>, lines: seq<bytes>) returns (r: Result<nat>)
    requires forall line :: verify(line).Ok? ==> verify(line).value <= 1
    ensures r == Saturate(CountRecords(verify, lines))
  {
    var validCount: nat := 0;
    ghost var exact: nat := 0;
    for i := 0 to |lines|
      invariant validCount == Min(exact, USIZE_MAX)
      invariant CountRecords(verify, lines) == Plus(exact, CountRecords(verify, lines[i..]))
    {
      CountStep(verify, lines, i);
      var outcome := verify(lines[i]);
      if outcome.Err? {
        return outcome;
      }
      if outcome.value > 0 {
        validCount := Min(validCount + 1, USIZE_MAX);
      }
      exact := exact + outcome.value;
    }
    return Ok(validCount);
  }

  /** What goes wrong, if anything, while a record is appended. */
  datatype LogFault = NoFault | Poisoned | FlockFails | WriteStops(count: nat) | FlushFails

  class AuditLogger {
    const mac: Mac
    const key: bytes
    const installationId: string
    /** The log file, opened for appending. */
    var file: bytes

    constructor (mac: Mac, key: bytes, installationId: string, file: bytes)
      ensures this.mac == mac && this.key == key && this.installationId == installationId && this.file == file
    {
      this.mac, this.key, this.installationId, this.file := mac, key, installationId, file;
    }

    /**
     * Append one signed record; nothing already written changes. A failed write may leave any part of the record,
     * and a failed flush comes after all of it.
     */
    method Log(e: Event, fault: LogFault) returns (r: Result<()>)
      modifies this
      ensures r.Ok? <==> fault.NoFault?
      ensures r.Err? ==> r.error == if fault.FlockFails? then Permission else Internal
      ensures file == old(file) +
              match fault
              case Poisoned => []
              case FlockFails => []
              case WriteStops(n) => Record(mac, key, installationId, e)[..Min(n, |Record(mac, key, installationId, e)|)]
              case _ => Record(mac, key, installationId, e)
    {
      var payload := EventPayload(installationId, e);
      var lineHmac := mac(key, CanonicalBytes(payload));
      var line := MapInsert(payload.members, "line_hmac", Str(lineHmac));
      var lineBytes := Encode(ToText(Obj(line))) + [0x0A];
      if fault.Poisoned? {
        return Err(Internal);
      }
      if fault.FlockFails? {
        return Err(Permission);
      }
      if fault.WriteStops? {
        file := file + lineBytes[..Min(fault.count, |lineBytes|)];
        return Err(Internal);
      }
      file := file + lineBytes;
      if fault.FlushFails? {
        return Err(Internal);
      }
      return Ok(());
    }

    /** Count the valid records of a file, stopping at the first invalid line. */
    method VerifyLog(content: bytes) returns (r: Result<nat>)
      ensures r == Saturate(VerifyFile(mac, key, content))
    {
      r := CountLines(line => VerifyLine(mac, key, line), Lines(content));
    }
  }

  // -------------------------------------------------- records and newlines

  lemma EncodeAscii(c: char)
    ensures 0x0A in EncodeChar(c) <==> c == '\n'
    ensures c as int < 0x80 ==> EncodeChar(c) == [c as int]
  {}

  predicate NoNewline(s: string) {
    forall i | 0 <= i < |s| :: s[i] != '\n'
  }

  lemma {:induction false} EncodeNoNewline(s: string)
    requires NoNewline(s)
    ensures 0x0A !in Encode(s)
  {
    if s != [] {
      EncodeAscii(s[0]);
      EncodeNoNewline(s[1..]);
    }
  }

  lemma {:induction false} EncodeConcat(a: string, b: string)
    ensures Encode(a + b) == Encode(a) + Encode(b)
  {
    if a == [] {
      assert a + b == b;
    } else {
      EncodeConcat(a[1..], b);
      assert (a + b)[0] == a[0] && (a + b)[1..] == a[1..] + b;
      Assoc(EncodeChar(a[0]), Encode(a[1..]), Encode(b));
    }
  }

  lemma {:induction false} EscapeNoNewline(s: string)
    ensures NoNewline(Escape(s))
  {
    if s != [] { EscapeNoNewline(s[1..]); }
  }

  lemma {:induction false} DigitsNoNewline(s: string)
    requires AllDigits(s)
    ensures NoNewline(s)
  {}

  lemma {:induction false} ItemsNoNewline(items: seq<Json>, d: nat)
    requires items != []
    ensures NoNewline(PrintItems(items, Compact, d))
    decreases items, 0
  {
    TextNoNewline(items[0], d);
    if |items| > 1 { ItemsNoNewline(items[1..], d); }
  }

  lemma {:induction false} MembersNoNewline(members: seq<Member>, d: nat)
    requires members != []
    ensures NoNewline(PrintMembers(members, Compact, d))
    decreases members, 0
  {
    EscapeNoNewline(members[0].key);
    TextNoNewline(members[0].value, d);
    if |members| > 1 { MembersNoNewline(members[1..], d); }
  }

  /** Compact JSON never holds a raw newline: strings escape it. */
  lemma {:induction false} TextNoNewline(j: Json, d: nat)
    ensures NoNewline(Print(j, Compact, d))
    decreases j, 1
  {
    match j
    case Num(n) => DigitsNoNewline(Decimal(if n < 0 then -n else n));
    case Str(s) => EscapeNoNewline(s);
    case Arr(items) => if items != [] { ItemsNoNewline(items, d + 1); }
    case Obj(members) => if members != [] { MembersNoNewline(members, d + 1); }
    case _ =>
  }

  // ------------------------------------------------------------ line splits

  lemma FindNewlineAt(line: bytes, rest: bytes)
    requires 0x0A !in line
    ensures FindNewline(line + [0x0A] + rest) == |line|
  {
    var b := line + [0x0A] + rest;
    assert b[|line|] == 0x0A;
    assert forall i | 0 <= i < |line| :: b[i] == line[i];
  }

  /** Splitting undoes appending: a newline-terminated line comes off the front whole. */
  lemma LinesCons(line: bytes, rest: bytes)
    requires 0x0A !in line
    ensures Lines(line + [0x0A] + rest) == [StripReturn(line)] + Lines(rest)
  {
    var b := line + [0x0A] + rest;
    FindNewlineAt(line, rest);
    assert b[..|line|] == line && b[|line| + 1..] == rest;
  }

  predicate Terminated(b: bytes) {
    b == [] || b[|b| - 1] == 0x0A
  }

  lemma FirstLineConcat(a: bytes, b: bytes)
    requires FindNewline(a) < |a|
    ensures var n := FindNewline(a);
            FindNewline(a + b) == n && (a + b)[..n] == a[..n] && (a + b)[n + 1..] == a[n + 1..] + b
  {
    var n := FindNewline(a);
    assert forall i | 0 <= i <= n :: (a + b)[i] == a[i];
    assert (a + b)[n] == 0x0A;
  }

  /** The first line of `a` is also the first line of `a + b`. */
  lemma LinesStep(a: bytes, b: bytes) returns (line: bytes, rest: bytes)
    requires Terminated(a) && a != []
    ensures |rest| < |a| && Terminated(rest)
    ensures Lines(a) == [line] + Lines(rest)
    ensures Lines(a + b) == [line] + Lines(rest + b)
  {
    var n := FindNewline(a);
    assert a[|a| - 1] == 0x0A;
    FirstLineConcat(a, b);
    line, rest := StripReturn(a[..n]), a[n + 1..];
    assert rest != [] ==> rest[|rest| - 1] == a[|a| - 1];
  }

  lemma {:induction false} LinesConcat(a: bytes, b: bytes)
    requires Terminated(a)
    ensures Lines(a + b) == Lines(a) + Lines(b)
    decreases |a|
  {
    if a == [] {
      assert a + b == b;
      assert Lines(a) + Lines(b) == Lines(b);
    } else {
      var line, rest := LinesStep(a, b);
      LinesConcat(rest, b);
      Assoc([line], Lines(rest), Lines(b));
    }
  }

  /** Newline-terminated lines, one after the other. */
  function Join(lines: seq<bytes>): bytes {
    if lines == [] then [] else lines[0] + [0x0A] + Join(lines[1..])
  }

  /** Splitting recovers the lines that were appended. */
  lemma {:induction false} SplitJoin(lines: seq<bytes>)
    requires forall i | 0 <= i < |lines| :: 0x0A !in lines[i] && StripReturn(lines[i]) == lines[i]
    ensures Lines(Join(lines)) == lines
  {
    if lines != [] {
      SplitJoin(lines[1..]);
      LinesCons(lines[0], Join(lines[1..]));
    }
  }

  lemma {:induction false} CountConcat(verify: bytes -> Result<nat>, x: seq<bytes>, y: seq<bytes>)
    ensures CountRecords(verify, x + y).Ok? <==> CountRecords(verify, x).Ok? && CountRecords(verify, y).Ok?
    ensures CountRecords(verify, x + y).Ok? ==>
            CountRecords(verify, x + y).value == CountRecords(verify, x).value + CountRecords(verify, y).value
  {
    if x == [] {
      assert x + y == y;
    } else {
      assert (x + y)[1..] == x[1..] + y;
      CountConcat(verify, x[1..], y);
    }
  }

  /**
   * A log made of two parts verifies exactly when both parts do, and then the counts add up: tampering
   * in one part is never hidden by the other.
   */
  lemma VerifyConcat(mac: Mac, key: bytes, a: bytes, b: bytes)
    requires Terminated(a)
    ensures VerifyFile(mac, key, a + b).Ok? <==> VerifyFile(mac, key, a).Ok? && VerifyFile(mac, key, b).Ok?
    ensures VerifyFile(mac, key, a + b).Ok? ==>
            VerifyFile(mac, key, a + b).value == VerifyFile(mac, key, a).value + VerifyFile(mac, key, b).value
  {
    LinesConcat(a, b);
    CountConcat(line => VerifyLine(mac, key, line), Lines(a), Lines(b));
  }

  // -------------------------------------------------------------- round trip

  lemma PayloadUnique(ts: string, event: string, severity: string, installationId: string, data: Json)
    requires UniqueKeys(data)
    ensures UniqueKeys(Payload(ts, event, severity, installationId, data))
  {
    MapOfUnique(PayloadFields(ts, event, severity, installationId, data));
  }

  lemma PayloadSame(ts: string, event: string, severity: string, installationId: string, x: Json, y: Json)
    requires SameTree(x, y)
    ensures SameTree(Payload(ts, event, severity, installationId, x), Payload(ts, event, severity, installationId, y))
  {
    var front := PayloadFields(ts, event, severity, installationId, x)[..4];
    assert PayloadFields(ts, event, severity, installationId, x) == front + [Member("data", x)];
    assert PayloadFields(ts, event, severity, installationId, y) == front + [Member("data", y)];
    LastMemberSame(front, "data", x, y);
  }

  lemma LastMemberSame(front: seq<Member>, key: string, x: Json, y: Json)
    requires (forall i | 0 <= i < |front| :: UniqueKeys(front[i].value)) && SameTree(x, y)
    ensures SameTree(Obj(MapOf(front + [Member(key, x)])), Obj(MapOf(front + [Member(key, y)])))
  {
    MapOfOrdered(front);
    MapOfUnique(front);
    SameTreeReflexive(Obj(MapOf(front)));
    MapInsertSame(MapOf(front), MapOf(front), key, x, y);
    assert (front + [Member(key, x)])[..|front|] == front && (front + [Member(key, y)])[..|front|] == front;
  }

  function RecordFields(mac: Mac, key: bytes, installationId: string, e: Event): seq<Member> {
    PayloadFields(e.ts, e.event, e.severity, installationId, e.data) +
    [Member("line_hmac", Str(mac(key, CanonicalBytes(EventPayload(installationId, e)))))]
  }

  lemma RecordIsMapOf(mac: Mac, key: bytes, installationId: string, e: Event)
    ensures RecordJson(mac, key, installationId, e) == Obj(MapOf(RecordFields(mac, key, installationId, e)))
    ensures Distinct(RecordFields(mac, key, installationId, e))
  {
    var all := RecordFields(mac, key, installationId, e);
    assert all[..5] == PayloadFields(e.ts, e.event, e.severity, installationId, e.data);
    assert |all[0].key| == 2 && |all[1].key| == 5 && |all[2].key| == 8 && |all[3].key| == 15;
    assert |all[4].key| == 4 && |all[5].key| == 9;
    forall i, k | 0 <= i < k < 6 ensures all[i].key != all[k].key {
      assert |all[i].key| != |all[k].key|;
    }
  }

  /** Reading a record finds the event that was logged, its data reordered at most. */
  lemma ReadRecord(mac: Mac, key: bytes, installationId: string, e: Event)
    ensures ReadLogLine(RecordJson(mac, key, installationId, e)) ==
            Some(LogLine(e.ts, e.event, e.severity, installationId, ToValue(e.data),
                         mac(key, CanonicalBytes(EventPayload(installationId, e)))))
  {
    var all := RecordFields(mac, key, installationId, e);
    RecordIsMapOf(mac, key, installationId, e);
    StructFieldsOfMapOf(all, FIELDS);
    assert all[0].value == Str(e.ts) && all[1].value == Str(e.event) && all[2].value == Str(e.severity);
    assert all[3].value == Str(installationId) && all[4].value == e.data && all[5].value.Str?;
  }

  /** The text of a record begins and ends with a brace, so nothing is stripped from it. */
  lemma RecordText(mac: Mac, key: bytes, installationId: string, e: Event)
    ensures var text := ToText(RecordJson(mac, key, installationId, e));
            text != [] && !IsWhiteSpace(text[0]) && StripReturn(Encode(text)) == Encode(text)
  {
    var j := RecordJson(mac, key, installationId, e);
    var text := ToText(j);
    RecordIsMapOf(mac, key, installationId, e);
    MapOfLookup(RecordFields(mac, key, installationId, e), 0);
    assert j.members != [];
    assert text == text[..|text| - 1] + "}";
    EncodeConcat(text[..|text| - 1], "}");
    assert Encode("}") == [0x7D] by { EncodeAscii('}'); assert Encode("") == []; }
  }

  /** The payload rebuilt from the log has the canonical bytes of the payload that was logged. */
  lemma RebuiltPayload(installationId: string, e: Event)
    requires UniqueKeys(e.data)
    ensures CanonicalBytes(Payload(e.ts, e.event, e.severity, installationId, ToValue(e.data))) ==
            CanonicalBytes(EventPayload(installationId, e))
  {
    ToValueIsValue(e.data);
    ValueUnique(ToValue(e.data));
    ToValueSame(e.data);
    PayloadSame(e.ts, e.event, e.severity, installationId, e.data, ToValue(e.data));
    PayloadUnique(e.ts, e.event, e.severity, installationId, e.data);
    PayloadUnique(e.ts, e.event, e.severity, installationId, ToValue(e.data));
    CanonicalIsNormalForm(EventPayload(installationId, e),
      Payload(e.ts, e.event, e.severity, installationId, ToValue(e.data)));
  }

  /** A printed object whose fields are authentic is accepted. */
  lemma AuthenticAccepted(mac: Mac, key: bytes, j: Json, l: LogLine)
    requires ToText(j) != [] && !IsWhiteSpace(ToText(j)[0])
    requires ReadLogLine(j) == Some(l) && Authentic(mac, key, l)
    ensures VerifyText(mac, key, ToText(j)) == Ok(1)
  {
    JsonRoundTrip.ParsePrint(j, Compact);
  }

  lemma VerifyEncoded(mac: Mac, key: bytes, text: string)
    ensures VerifyLine(mac, key, Encode(text)) == VerifyText(mac, key, text)
  {
    DecodeEncode(text);
  }

  /** Every record passes verification. */
  lemma RecordVerifies(mac: Mac, key: bytes, installationId: string, e: Event)
    requires UniqueKeys(e.data)
    ensures VerifyLine(mac, key, RecordLine(mac, key, installationId, e)) == Ok(1)
  {
    var j := RecordJson(mac, key, installationId, e);
    var l := LogLine(e.ts, e.event, e.severity, installationId, ToValue(e.data),
                     mac(key, CanonicalBytes(EventPayload(installationId, e))));
    ReadRecord(mac, key, installationId, e);
    RebuiltPayload(installationId, e);
    RecordText(mac, key, installationId, e);
    AuthenticAccepted(mac, key, j, l);
    VerifyEncoded(mac, key, ToText(j));
  }

  /** The file after logging these events to an empty one. */
  function LogAll(mac: Mac, key: bytes, installationId: string, events: seq<Event>): bytes {
    if events == [] then []
    else Record(mac, key, installationId, events[0]) + LogAll(mac, key, installationId, events[1..])
  }

  function RecordLines(mac: Mac, key: bytes, installationId: string, events: seq<Event>): (r: seq<bytes>)
    ensures |r| == |events| && forall i | 0 <= i < |r| :: r[i] == RecordLine(mac, key, installationId, events[i])
  {
    if events == [] then []
    else [RecordLine(mac, key, installationId, events[0])] + RecordLines(mac, key, installationId, events[1..])
  }

  lemma {:induction false} LogAllIsJoin(mac: Mac, key: bytes, installationId: string, events: seq<Event>)
    ensures LogAll(mac, key, installationId, events) == Join(RecordLines(mac, key, installationId, events))
  {
    if events != [] {
      var line := RecordLine(mac, key, installationId, events[0]);
      var rest := RecordLines(mac, key, installationId, events[1..]);
      LogAllIsJoin(mac, key, installationId, events[1..]);
      assert ([line] + rest)[1..] == rest;
    }
  }

  lemma RecordOnOneLine(mac: Mac, key: bytes, installationId: string, e: Event)
    ensures var line := RecordLine(mac, key, installationId, e); 0x0A !in line && StripReturn(line) == line
  {
    RecordText(mac, key, installationId, e);
    TextNoNewline(RecordJson(mac, key, installationId, e), 0);
    EncodeNoNewline(ToText(RecordJson(mac, key, installationId, e)));
  }

  lemma {:induction false} CountAllValid(verify: bytes -> Result<nat>, lines: seq<bytes>)
    requires forall i | 0 <= i < |lines| :: verify(lines[i]) == Ok(1)
    ensures CountRecords(verify, lines) == Ok(|lines|)
  {
    if lines != [] { CountAllValid(verify, lines[1..]); }
  }

  lemma LinesOfLog(mac: Mac, key: bytes, installationId: string, events: seq<Event>)
    ensures Lines(LogAll(mac, key, installationId, events)) == RecordLines(mac, key, installationId, events)
  {
    var lines := RecordLines(mac, key, installationId, events);
    LogAllIsJoin(mac, key, installationId, events);
    forall i | 0 <= i < |lines| ensures 0x0A !in lines[i] && StripReturn(lines[i]) == lines[i] {
      RecordOnOneLine(mac, key, installationId, events[i]);
    }
    SplitJoin(lines);
  }

  /** Log and verify undo each other: n logged events verify as exactly n records. */
  lemma LogThenVerify(mac: Mac, key: bytes, installationId: string, events: seq<Event>)
    requires forall i | 0 <= i < |events| :: UniqueKeys(events[i].data)
    ensures VerifyFile(mac, key, LogAll(mac, key, installationId, events)) == Ok(|events|)
  {
    var lines := RecordLines(mac, key, installationId, events);
    LinesOfLog(mac, key, installationId, events);
    forall i | 0 <= i < |lines| ensures VerifyLine(mac, key, lines[i]) == Ok(1) {
      RecordVerifies(mac, key, installationId, events[i]);
    }
    CountAllValid(line => VerifyLine(mac, key, line), lines);
  }

  // -------------------------------------------------------- tamper evidence

  lemma {:induction false} CountOkExactly(verify: bytes -> Result<nat>, lines: seq<bytes>)
    ensures CountRecords(verify, lines).Ok? <==> forall i | 0 <= i < |lines| :: verify(lines[i]).Ok?
  {
    if lines != [] {
      CountOkExactly(verify, lines[1..]);
      assert forall i | 1 <= i < |lines| :: lines[i] == lines[1..][i - 1];
    }
  }

  /** Verification looks at each line by itself. */
  lemma EachLineAlone(mac: Mac, key: bytes, b: bytes)
    ensures VerifyFile(mac, key, b).Ok? <==> forall line | line in Lines(b) :: VerifyLine(mac, key, line).Ok?
  {
    var lines := Lines(b);
    var verify := line => VerifyLine(mac, key, line);
    CountOkExactly(verify, lines);
    assert VerifyFile(mac, key, b) == CountRecords(verify, lines);
    if VerifyFile(mac, key, b).Ok? {
      forall line | line in lines ensures VerifyLine(mac, key, line).Ok? {
        var i :| 0 <= i < |lines| && lines[i] == line;
        assert verify(lines[i]).Ok?;
      }
    } else {
      var i :| 0 <= i < |lines| && !verify(lines[i]).Ok?;
      assert lines[i] in lines;
    }
  }

  /** The events that are left: some of them, in any order, any number of times. */
  function Selected(events: seq<Event>, kept: seq<nat>): (r: seq<Event>)
    requires forall i | 0 <= i < |kept| :: kept[i] < |events|
    ensures |r| == |kept| && forall i | 0 <= i < |r| :: r[i] == events[kept[i]]
  {
    seq(|kept|, i requires 0 <= i < |kept| => events[kept[i]])
  }

  /** Whole lines that are deleted, repeated or put in another order go unseen: what is left of the log verifies. */
  lemma RearrangingUnseen(mac: Mac, key: bytes, installationId: string, events: seq<Event>, kept: seq<nat>)
    requires forall i | 0 <= i < |events| :: UniqueKeys(events[i].data)
    requires forall i | 0 <= i < |kept| :: kept[i] < |events|
    ensures var all := LogAll(mac, key, installationId, events);
            var left := LogAll(mac, key, installationId, Selected(events, kept));
            && |Lines(all)| == |events| && |Lines(left)| == |kept|
            && (forall i | 0 <= i < |kept| :: Lines(left)[i] == Lines(all)[kept[i]])
            && VerifyFile(mac, key, left) == Ok(|kept|)
  {
    LinesOfLog(mac, key, installationId, events);
    LinesOfLog(mac, key, installationId, Selected(events, kept));
    LogThenVerify(mac, key, installationId, Selected(events, kept));
  }

  lemma SamePayloadFields(ts: string, event: string, severity: string, iid: string, data: Json,
                          ts': string, event': string, severity': string, iid': string, data': Json)
    requires SameTree(Payload(ts, event, severity, iid, data), Payload(ts', event', severity', iid', data'))
    ensures ts == ts' && event == event' && severity == severity' && iid == iid' && SameTree(data, data')
  {
    var x := PayloadFields(ts, event, severity, iid, data);
    var y := PayloadFields(ts', event', severity', iid', data');
    assert |x[0].key| == 2 && |x[1].key| == 5 && |x[2].key| == 8 && |x[3].key| == 15 && |x[4].key| == 4;
    forall i | 0 <= i < 5 ensures SameTree(x[i].value, y[i].value) {
      MapOfLookup(x, i);
      MapOfLookup(y, i);
      LookupFinds(MapOf(x), x[i].key);
      LookupFinds(MapOf(y), y[i].key);
      assert x[i].key == y[i].key;
      var a :| 0 <= a < |MapOf(x)| && MapOf(x)[a] == x[i];
      var b :| 0 <= b < |MapOf(y)| && MapOf(y)[b] == y[i];
    }
    assert SameTree(x[0].value, y[0].value) && SameTree(x[1].value, y[1].value);
    assert SameTree(x[2].value, y[2].value) && SameTree(x[3].value, y[3].value) && SameTree(x[4].value, y[4].value);
  }

  /** The line tells exactly the event: every field is unaltered and the data differ in key order at most. */
  ghost predicate Tells(l: LogLine, installationId: string, e: Event) {
    && l.ts == e.ts && l.event == e.event && l.severity == e.severity && l.installationId == installationId
    && SameTree(l.data, e.data)
  }

  /**
   * A line that is accepted with the MAC issued for an event tells that event, or else it exhibits a collision:
   * two different texts with the same MAC.
   */
  lemma AcceptedLineTellsEvent(mac: Mac, key: bytes, installationId: string, e: Event, l: LogLine)
    requires UniqueKeys(e.data) && UniqueKeys(l.data)
    requires l.lineHmac == mac(key, CanonicalBytes(EventPayload(installationId, e))) && Authentic(mac, key, l)
    ensures var told := CanonicalBytes(Payload(l.ts, l.event, l.severity, l.installationId, l.data));
            var issued := CanonicalBytes(EventPayload(installationId, e));
            mac(key, told) == mac(key, issued) && (told == issued <==> Tells(l, installationId, e))
  {
    var p := Payload(l.ts, l.event, l.severity, l.installationId, l.data);
    var q := EventPayload(installationId, e);
    PayloadUnique(l.ts, l.event, l.severity, l.installationId, l.data);
    PayloadUnique(e.ts, e.event, e.severity, installationId, e.data);
    CanonicalIsNormalForm(p, q);
    if CanonicalBytes(p) == CanonicalBytes(q) {
      SamePayloadFields(l.ts, l.event, l.severity, l.installationId, l.data,
                        e.ts, e.event, e.severity, installationId, e.data);
    } else if Tells(l, installationId, e) {
      PayloadSame(e.ts, e.event, e.severity, installationId, l.data, e.data);
    }
  }
}
