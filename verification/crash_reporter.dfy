/** Sending crash reports: the rate limit, and the MAC field that is taken out of the report and put back. */
module CrashReporters {
  import opened Wrappers
  import opened Text

  const RATE_LIMIT_SECONDS: real := 300.0

  // --------------------------------------------------------- Python's values

  /** Python strings are sequences of code points; lone surrogates are allowed in them. */
  type CodePoint = c: int | 0 <= c < 0x11_0000

  type PyString = seq<CodePoint>

  datatype Value = Null | Text(s: PyString) | Number(n: int) | List(items: seq<Value>) | Dict(fields: Fields)

  type Fields = map<PyString, Value>

  function FromText(s: string): PyString {
    seq(|s|, i requires 0 <= i < |s| => s[i] as int)
  }

  const MAC_FIELD: PyString := FromText("hmac_sha256")
  const ID_FIELD: PyString := FromText("installation_id")

  predicate IsSurrogate(c: CodePoint) {
    0xD800 <= c < 0xE000
  }

  /** `s.encode("utf-8")` raises exactly for lone surrogates. */
  function ToUtf8(s: PyString): Option<bytes> {
    if s == [] then Some([])
    else if IsSurrogate(s[0]) then None
    else
      var rest :- ToUtf8(s[1..]);
      Some(EncodeChar(s[0] as char) + rest)
  }

  lemma {:induction false} SurrogatesDoNotEncode(s: PyString)
    ensures ToUtf8(s).None? <==> exists c :: c in s && IsSurrogate(c)
  {
    if s != [] {
      SurrogatesDoNotEncode(s[1..]);
      assert s == [s[0]] + s[1..];
      if ToUtf8(s[1..]).None? {
        var c :| c in s[1..] && IsSurrogate(c);
        assert c in s;
      }
    }
  }

  predicate IsAscii(s: PyString) {
    forall i | 0 <= i < |s| :: s[i] < 0x80
  }

  // ------------------------------------------------------------ the operation

  /** Python's `str` for values that are no strings, `json.dumps`, and the MAC; the first two may raise. */
  datatype Tools = Tools(
    str: Value -> Option<PyString>, dumps: Fields -> Option<PyString>, mac: (bytes, bytes) -> PyString)

  datatype Sent = Delivered | Suppressed | MissingMac | WrongMac | SendFailed | Raised

  function Str(t: Tools, v: Value): Option<PyString> {
    match v case Text(s) => Some(s) case _ => t.str(v)
  }

  function InstallationId(t: Tools, report: Fields): Option<PyString> {
    if ID_FIELD in report then Str(t, report[ID_FIELD]) else Some([])
  }

  /** The MAC of a report without its MAC field, if that can be written as UTF-8. */
  function ExpectedMac(t: Tools, key: bytes, rest: Fields): Option<PyString> {
    var text :- t.dumps(rest);
    var encoded :- ToUtf8(text);
    Some(t.mac(key, encoded))
  }

  /** What became of the call, and the report as the caller finds it afterwards. */
  datatype After = After(sent: Sent, report: Fields)

  /** From the popped field on; the comparison raises unless both strings are ASCII. */
  function Compare(t: Tools, key: bytes, rest: Fields, provided: Value, works: bool): After {
    match ExpectedMac(t, key, rest)
    case None => After(Raised, rest)
    case Some(expected) =>
      match Str(t, provided)
      case None => After(Raised, rest)
      case Some(given) =>
        if !IsAscii(expected) || !IsAscii(given) then After(Raised, rest)
        else
          var restored := rest[MAC_FIELD := provided];
          if expected != given then After(WrongMac, restored)
          else After(if works then Delivered else SendFailed, restored)
  }

  /** `send_report`, given whether this installation is rate limited and whether the chat service takes the message. */
  function Send(t: Tools, key: bytes, report: Fields, limited: bool, works: bool): After {
    if InstallationId(t, report).None? then After(Raised, report)
    else if limited then After(Suppressed, report)
    else if MAC_FIELD !in report || report[MAC_FIELD] == Null then After(MissingMac, report - {MAC_FIELD})
    else Compare(t, key, report - {MAC_FIELD}, report[MAC_FIELD], works)
  }

  // ------------------------------------------------- what becomes of the report

  /** MACs are hexadecimal. */
  ghost predicate HexMacs(t: Tools) {
    forall key, message :: IsAscii(t.mac(key, message))
  }

  /** The report carries the MAC of the text of its other fields. */
  predicate Authentic(t: Tools, key: bytes, report: Fields) {
    && MAC_FIELD in report && report[MAC_FIELD] != Null
    && var text := t.dumps(report - {MAC_FIELD});
    && text.Some? && ToUtf8(text.value).Some?
    && (if report[MAC_FIELD].Text? then Some(report[MAC_FIELD].s) else t.str(report[MAC_FIELD])) ==
       Some(t.mac(key, ToUtf8(text.value).value))
  }

  /** Text without surrogates is encoded as everywhere else. */
  lemma {:induction false} Utf8OfText(s: string)
    ensures ToUtf8(FromText(s)) == Some(Encode(s))
  {
    if s != [] {
      Utf8OfText(s[1..]);
      assert FromText(s)[1..] == FromText(s[1..]);
    }
  }

  /** The MAC field can be compared: it is an ASCII string, and the other fields can be written as UTF-8. */
  predicate Comparable(t: Tools, report: Fields)
    requires MAC_FIELD in report
  {
    && report[MAC_FIELD] != Null
    && (var text := t.dumps(report - {MAC_FIELD}); text.Some? && ToUtf8(text.value).Some?)
    && Str(t, report[MAC_FIELD]).Some? && IsAscii(Str(t, report[MAC_FIELD]).value)
  }

  /**
   * The report comes back as it was exactly if the call ends before the field is taken out, or there is no such
   * field, or the field can be compared.
   */
  lemma ReportComesBack(t: Tools, key: bytes, report: Fields, limited: bool, works: bool)
    requires HexMacs(t)
    ensures Send(t, key, report, limited, works).report == report <==>
            || InstallationId(t, report).None? || limited || MAC_FIELD !in report || Comparable(t, report)
    ensures var after := Send(t, key, report, limited, works).report;
            after == report || after == report - {MAC_FIELD}
  {
    if MAC_FIELD in report {
      assert (report - {MAC_FIELD})[MAC_FIELD := report[MAC_FIELD]] == report;
      assert MAC_FIELD !in report - {MAC_FIELD};
    } else {
      assert report - {MAC_FIELD} == report;
    }
  }

  /** Only authentic reports outside the rate limit get as far as the chat service. */
  lemma OnlyAuthenticIsSent(t: Tools, key: bytes, report: Fields, limited: bool, works: bool)
    requires HexMacs(t)
    ensures var sent := Send(t, key, report, limited, works).sent;
            sent == Delivered || sent == SendFailed <==>
            InstallationId(t, report).Some? && !limited && Authentic(t, key, report)
  {
    if Authentic(t, key, report) {
      assert IsAscii(ExpectedMac(t, key, report - {MAC_FIELD}).value);
    }
  }

  /** A MAC field with a letter outside ASCII is lost, whatever else is in the report. */
  lemma AccentLosesField(t: Tools, key: bytes, rest: Fields, works: bool)
    requires MAC_FIELD !in rest && InstallationId(t, rest).Some?
    ensures var report := rest[MAC_FIELD := Text([0xE9])];
            Send(t, key, report, false, works) == After(Raised, rest)
  {
    IdIsNotMac();
    assert rest[MAC_FIELD := Text([0xE9])] - {MAC_FIELD} == rest;
    assert !IsAscii([0xE9]) by { assert [0xE9][0] == 0xE9; }
  }

  lemma IdIsNotMac()
    ensures ID_FIELD != MAC_FIELD
  {
    assert |FromText("hmac_sha256")| == 11 && |FromText("installation_id")| == 15;
  }

  /** `json.dumps` with `ensure_ascii=False` copies surrogates into its text. */
  ghost predicate CopiesSurrogates(t: Tools) {
    forall d: Fields, k, c | k in d && d[k].Text? && c in d[k].s && IsSurrogate(c) && t.dumps(d).Some? ::
      c in t.dumps(d).value
  }

  /** So is the MAC field of a report with a lone surrogate in another field, be it the right MAC or not. */
  lemma SurrogateLosesField(t: Tools, key: bytes, mac: PyString, works: bool)
    requires CopiesSurrogates(t)
    ensures var rest := map[FromText("os") := Text([0xD800])];
            Send(t, key, rest[MAC_FIELD := Text(mac)], false, works) == After(Raised, rest)
  {
    var os := FromText("os");
    var rest := map[os := Text([0xD800])];
    var report := rest[MAC_FIELD := Text(mac)];
    IdIsNotMac();
    assert |os| == 2 && |FromText("hmac_sha256")| == 11 && |FromText("installation_id")| == 15;
    assert report - {MAC_FIELD} == rest;
    assert ExpectedMac(t, key, rest).None? by {
      if t.dumps(rest).Some? {
        var c: CodePoint := 0xD800;
        assert rest[os].s[0] == c && c in rest[os].s && IsSurrogate(c);
        assert c in t.dumps(rest).value;
        SurrogatesDoNotEncode(t.dumps(rest).value);
      }
    }
  }

  // ------------------------------------------------------------ the rate limit

  /** One delivery: when the call looked at the clock, and when the delivery was noted. */
  datatype Delivery = Delivery(id: PyString, asked: real, noted: real)

  /** Deliveries for one installation are at least five minutes apart. */
  ghost predicate Spaced(deliveries: seq<Delivery>) {
    forall i, k | 0 <= i < k < |deliveries| && deliveries[i].id == deliveries[k].id ::
      deliveries[k].asked >= deliveries[i].noted + RATE_LIMIT_SECONDS
  }

  ghost predicate InOrder(deliveries: seq<Delivery>) {
    forall d | d in deliveries :: d.asked <= d.noted
  }

  /** `last` holds for each installation when its latest delivery was noted. */
  ghost predicate Latest(last: map<PyString, real>, deliveries: seq<Delivery>) {
    && (forall d | d in deliveries :: d.id in last && d.noted <= last[d.id])
    && (forall id | id in last :: exists d :: d in deliveries && d.id == id && d.noted == last[id])
  }

  lemma DeliverOne(last: map<PyString, real>, deliveries: seq<Delivery>, d: Delivery)
    requires Spaced(deliveries) && InOrder(deliveries) && Latest(last, deliveries) && d.asked <= d.noted
    requires d.id in last ==> d.asked - last[d.id] >= RATE_LIMIT_SECONDS
    ensures Spaced(deliveries + [d]) && InOrder(deliveries + [d]) && Latest(last[d.id := d.noted], deliveries + [d])
  {
    var next, all := last[d.id := d.noted], deliveries + [d];
    forall id | id in next ensures exists e :: e in all && e.id == id && e.noted == next[id] {
      if id == d.id {
        assert d in all;
      } else {
        var e :| e in deliveries && e.id == id && e.noted == last[id];
        assert e in all;
      }
    }
  }

  /** The latest delivery for an installation decides whether there was one in the last five minutes. */
  lemma LatestDecides(last: map<PyString, real>, deliveries: seq<Delivery>, id: PyString, now: real)
    requires Latest(last, deliveries)
    ensures id in last && now - last[id] < RATE_LIMIT_SECONDS <==>
            exists d :: d in deliveries && d.id == id && now < d.noted + RATE_LIMIT_SECONDS
  {
    if id in last && now - last[id] < RATE_LIMIT_SECONDS {
      var d :| d in deliveries && d.id == id && d.noted == last[id];
      assert now < d.noted + RATE_LIMIT_SECONDS;
    }
  }

  class CrashReport {
    var fields: Fields

    constructor (fields: Fields)
      ensures this.fields == fields
    {
      this.fields := fields;
    }
  }

  class CrashReporter {
    var lastSent: map<PyString, real>
    ghost var deliveries: seq<Delivery>

    ghost predicate Valid()
      reads this
    {
      Spaced(deliveries) && InOrder(deliveries) && Latest(lastSent, deliveries)
    }

    constructor ()
      ensures Valid() && deliveries == []
    {
      lastSent, deliveries := map[], [];
    }

    predicate IsRateLimited(id: PyString, now: real)
      reads this
    {
      id in lastSent && now - lastSent[id] < RATE_LIMIT_SECONDS
    }

    /** `send_report`, asked at `now`; `later` is when the answer of the chat service is known. */
    method SendReport(t: Tools, key: bytes, report: CrashReport, now: real, works: bool, later: real)
      returns (r: Sent)
      requires Valid() && now <= later
      modifies this, report
      ensures Valid()
      ensures var id := InstallationId(t, old(report.fields));
              var limited := id.Some? && old(IsRateLimited(id.value, now));
              && After(r, report.fields) == Send(t, key, old(report.fields), limited, works)
              && deliveries == old(deliveries) + (if r.Delivered? then [Delivery(id.value, now, later)] else [])
      ensures !r.Delivered? ==> lastSent == old(lastSent)
      ensures var fields := old(report.fields);
              var id := if ID_FIELD !in fields then Some([])
                        else if fields[ID_FIELD].Text? then Some(fields[ID_FIELD].s)
                        else t.str(fields[ID_FIELD]);
              r.Suppressed? <==>
              id.Some? && exists d :: d in old(deliveries) && d.id == id.value && now < d.noted + 300.0
    {
      var id := InstallationId(t, report.fields);
      if id.None? {
        return Raised;
      }
      LatestDecides(lastSent, deliveries, id.value, now);
      if IsRateLimited(id.value, now) {
        return Suppressed;
      }
      var provided := if MAC_FIELD in report.fields then report.fields[MAC_FIELD] else Null;
      report.fields := report.fields - {MAC_FIELD};
      if provided == Null {
        return MissingMac;
      }
      var expected := ExpectedMac(t, key, report.fields);
      if expected.None? {
        return Raised;
      }
      var given := Str(t, provided);
      if given.None? || !IsAscii(expected.value) || !IsAscii(given.value) {
        return Raised;
      }
      report.fields := report.fields[MAC_FIELD := provided];
      if expected.value != given.value {
        return WrongMac;
      }
      if !works {
        return SendFailed;
      }
      DeliverOne(lastSent, deliveries, Delivery(id.value, now, later));
      lastSent := lastSent[id.value := later];
      deliveries := deliveries + [Delivery(id.value, now, later)];
      return Delivered;
    }
  }
}
