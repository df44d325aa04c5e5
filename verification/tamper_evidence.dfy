/** What the verification of the audit log accepts, line by line, in terms of the MAC. */
module TamperEvidence {
  import opened Wrappers
  import opened Text
  import opened Json
  import opened Canonical
  import opened JsonValue
  import opened Audit

  /** A line of white space only. */
  predicate Blank(line: bytes) {
    Decode(line).Some? && IsBlank(Decode(line).value)
  }

  predicate IsSpaceByte(b: byte) {
    b == 0x20 || 0x09 <= b <= 0x0D
  }

  lemma {:induction false} AsciiDecodes(line: bytes)
    requires forall i | 0 <= i < |line| :: line[i] < 0x80
    ensures Decode(line).Some? && |Decode(line).value| == |line|
    ensures forall i | 0 <= i < |line| :: Decode(line).value[i] == line[i] as char
  {
    if line != [] { AsciiDecodes(line[1..]); }
  }

  /** A line of ASCII is blank exactly if it is empty or has only spaces, tabs, returns and the like. */
  lemma SpacesAreBlank(line: bytes)
    requires forall i | 0 <= i < |line| :: line[i] < 0x80
    ensures Blank(line) <==> forall i | 0 <= i < |line| :: IsSpaceByte(line[i])
  {
    AsciiDecodes(line);
  }

  /** The record that a line is, if it is one. */
  function Reading(line: bytes): Option<LogLine> {
    var text :- Decode(line);
    var tree :- Parse(text);
    ReadLogLine(tree)
  }

  /** An object is a record exactly if all six fields are in it, five of them text; other fields are skipped. */
  lemma ReadsExactly(ms: seq<Member>, l: LogLine)
    requires Distinct(ms)
    ensures ReadLogLine(Obj(ms)) == Some(l) <==>
            && Lookup(ms, "ts") == Some(Str(l.ts)) && Lookup(ms, "event") == Some(Str(l.event))
            && Lookup(ms, "severity") == Some(Str(l.severity))
            && Lookup(ms, "installation_id") == Some(Str(l.installationId))
            && Lookup(ms, "data").Some? && ToValue(Lookup(ms, "data").value) == l.data
            && Lookup(ms, "line_hmac") == Some(Str(l.lineHmac))
  {
    StructFieldsOfMap(ms, FIELDS);
    var f := StructFields(Obj(ms), FIELDS).value;
    assert f[0] == Lookup(ms, "ts") && f[1] == Lookup(ms, "event") && f[2] == Lookup(ms, "severity");
    assert f[3] == Lookup(ms, "installation_id") && f[4] == Lookup(ms, "data") && f[5] == Lookup(ms, "line_hmac");
  }

  /** The MAC that the fields of a record ask for. */
  function MacOf(mac: Mac, key: bytes, l: LogLine): string {
    mac(key, CanonicalBytes(Payload(l.ts, l.event, l.severity, l.installationId, l.data)))
  }

  /** The line is blank, or a record that carries the MAC of its other fields. */
  predicate Sound(mac: Mac, key: bytes, line: bytes) {
    Blank(line) || (Reading(line).Some? && MacOf(mac, key, Reading(line).value) == Reading(line).value.lineHmac)
  }

  /** What is wrong with a line that is not sound. */
  function Fault(line: bytes): Error {
    if Decode(line).None? then Internal else if Reading(line).None? then InvalidInput else Error.Crypto
  }

  lemma LineExactly(mac: Mac, key: bytes, line: bytes)
    ensures VerifyLine(mac, key, line) ==
            if !Sound(mac, key, line) then Err(Fault(line)) else Ok(if Blank(line) then 0 else 1)
  {}

  /** How many of the lines are not blank. */
  function Written(lines: seq<bytes>): nat {
    if lines == [] then 0 else (if Blank(lines[0]) then 0 else 1) + Written(lines[1..])
  }

  lemma {:induction false} CountsWritten(verify: bytes -> Result<nat>, lines: seq<bytes>)
    requires forall i | 0 <= i < |lines| :: verify(lines[i]) == Ok(if Blank(lines[i]) then 0 else 1)
    ensures CountRecords(verify, lines) == Ok(Written(lines))
  {
    if lines != [] {
      assert forall i | 0 <= i < |lines| - 1 :: lines[1..][i] == lines[i + 1];
      CountsWritten(verify, lines[1..]);
    }
  }

  lemma {:induction false} CountStops(verify: bytes -> Result<nat>, lines: seq<bytes>, i: nat, e: Error)
    requires i < |lines| && verify(lines[i]) == Err(e) && forall k | 0 <= k < i :: verify(lines[k]).Ok?
    ensures CountRecords(verify, lines) == Err(e)
  {
    if i > 0 {
      assert lines[1..][i - 1] == lines[i];
      assert forall k | 0 <= k < i - 1 :: lines[1..][k] == lines[k + 1];
      CountStops(verify, lines[1..], i - 1, e);
    }
  }

  /** The first line that is not sound decides the error, whatever comes after it. */
  lemma FirstUnsound(mac: Mac, key: bytes, b: bytes, i: nat)
    requires i < |Lines(b)| && !Sound(mac, key, Lines(b)[i])
    requires forall k | 0 <= k < i :: Sound(mac, key, Lines(b)[k])
    ensures VerifyFile(mac, key, b) == Err(Fault(Lines(b)[i]))
  {
    var lines, verify := Lines(b), line => VerifyLine(mac, key, line);
    forall k | 0 <= k <= i ensures verify(lines[k]) == VerifyLine(mac, key, lines[k]) {}
    forall k | 0 <= k <= i { LineExactly(mac, key, lines[k]); }
    CountStops(verify, lines, i, Fault(lines[i]));
    assert VerifyFile(mac, key, b) == CountRecords(verify, lines);
  }

  lemma EverySound(mac: Mac, key: bytes, b: bytes)
    requires forall line | line in Lines(b) :: Sound(mac, key, line)
    ensures VerifyFile(mac, key, b) == Ok(Written(Lines(b)))
  {
    var lines, verify := Lines(b), line => VerifyLine(mac, key, line);
    forall i | 0 <= i < |lines| ensures verify(lines[i]) == Ok(if Blank(lines[i]) then 0 else 1) {
      assert lines[i] in lines;
      LineExactly(mac, key, lines[i]);
    }
    CountsWritten(verify, lines);
    assert VerifyFile(mac, key, b) == CountRecords(verify, lines);
  }

  lemma {:induction false} SomeFirst(mac: Mac, key: bytes, lines: seq<bytes>) returns (i: nat)
    requires exists line :: line in lines && !Sound(mac, key, line)
    ensures i < |lines| && !Sound(mac, key, lines[i]) && forall k | 0 <= k < i :: Sound(mac, key, lines[k])
  {
    if !Sound(mac, key, lines[0]) {
      i := 0;
    } else {
      var line :| line in lines && !Sound(mac, key, line);
      assert lines == [lines[0]] + lines[1..];
      assert line in lines[1..];
      i := SomeFirst(mac, key, lines[1..]);
      i := i + 1;
    }
  }

  /**
   * A log verifies if and only if each of its lines is blank or a record that carries the MAC of its other fields, and
   * then the number of records is the number of lines that are not blank.
   */
  lemma LogExactly(mac: Mac, key: bytes, b: bytes)
    ensures VerifyFile(mac, key, b).Ok? <==> forall line | line in Lines(b) :: Sound(mac, key, line)
    ensures VerifyFile(mac, key, b).Ok? ==> VerifyFile(mac, key, b).value == Written(Lines(b))
  {
    if forall line | line in Lines(b) :: Sound(mac, key, line) {
      EverySound(mac, key, b);
    } else {
      var i := SomeFirst(mac, key, Lines(b));
      FirstUnsound(mac, key, b, i);
    }
  }

  /**
   * An edited record is detected: if a line of the log carries the MAC that was issued for an event but does not tell
   * this event, in any field, the log does not verify, or the two payloads are a collision.
   */
  lemma EditIsDetected(mac: Mac, key: bytes, b: bytes, i: nat, installationId: string, e: Event)
    requires i < |Lines(b)| && !Blank(Lines(b)[i]) && Reading(Lines(b)[i]).Some? && UniqueKeys(e.data)
    requires var l := Reading(Lines(b)[i]).value;
             && l.lineHmac == mac(key, CanonicalBytes(EventPayload(installationId, e)))
             && !Tells(l, installationId, e)
    ensures var l := Reading(Lines(b)[i]).value;
            || VerifyFile(mac, key, b).Err?
            || Collision(mac, key, CanonicalBytes(Payload(l.ts, l.event, l.severity, l.installationId, l.data)),
                         CanonicalBytes(EventPayload(installationId, e)))
  {
    var line := Lines(b)[i];
    var l := Reading(line).value;
    LogExactly(mac, key, b);
    assert line in Lines(b);
    if Sound(mac, key, line) {
      ReadingUnique(line);
      AcceptedLineTellsEvent(mac, key, installationId, e, l);
    }
  }

  lemma ReadingUnique(line: bytes)
    requires Reading(line).Some?
    ensures UniqueKeys(Reading(line).value.data)
  {
    var f := StructFields(Parse(Decode(line).value).value, FIELDS).value;
    ToValueIsValue(f[4].value);
    ValueUnique(ToValue(f[4].value));
  }
}
