/** The crash report as a chat message: escaping, shortening, and the length of the whole. */
module Report {
  import opened Wrappers

  // --------------------------------------------------------------- escaping

  const SPECIAL := "_*[]()~`>#+-=|{}.!\\"

  predicate IsSpecial(c: char) {
    c in SPECIAL
  }

  /** `_escape_mdv2`. */
  function Escape(text: string): string {
    if text == [] then []
    else (if IsSpecial(text[0]) then ['\\', text[0]] else [text[0]]) + Escape(text[1..])
  }

  function Unescape(s: string): string {
    if s == [] then []
    else if s[0] == '\\' && |s| > 1 then [s[1]] + Unescape(s[2..])
    else [s[0]] + Unescape(s[1..])
  }

  /** Every special character has a backslash of its own, and every backslash a special character. */
  predicate WellEscaped(s: string) {
    s == [] ||
    (if s[0] == '\\' then |s| > 1 && IsSpecial(s[1]) && WellEscaped(s[2..])
     else !IsSpecial(s[0]) && WellEscaped(s[1..]))
  }

  lemma BackslashIsSpecial()
    ensures IsSpecial('\\') && IsSpecial('`')
  {
    assert SPECIAL[18] == '\\' && SPECIAL[7] == '`';
  }

  /** Unescaping undoes escaping, so different texts look different. */
  lemma {:induction false} UnescapeEscape(text: string)
    ensures Unescape(Escape(text)) == text && WellEscaped(Escape(text))
  {
    if text != [] {
      BackslashIsSpecial();
      UnescapeEscape(text[1..]);
      if IsSpecial(text[0]) {
        assert Escape(text)[2..] == Escape(text[1..]);
      } else {
        assert Escape(text)[1..] == Escape(text[1..]);
      }
    }
  }

  /** Escaping produces every well-escaped text. */
  lemma {:induction false} EscapeUnescape(s: string)
    requires WellEscaped(s)
    ensures Escape(Unescape(s)) == s
  {
    if s != [] {
      BackslashIsSpecial();
      if s[0] == '\\' {
        EscapeUnescape(s[2..]);
        assert Unescape(s)[1..] == Unescape(s[2..]);
        assert s == s[..2] + s[2..];
      } else {
        EscapeUnescape(s[1..]);
        assert Unescape(s)[1..] == Unescape(s[1..]);
        assert s == [s[0]] + s[1..];
      }
    }
  }

  lemma {:induction false} EscapeLength(text: string)
    ensures |text| <= |Escape(text)| <= 2 * |text|
  {
    if text != [] { EscapeLength(text[1..]); }
  }

  // ------------------------------------------------------------- shortening

  const MARKER := "...[truncated]\n"

  function Max(a: int, b: int): int {
    if a < b then b else a
  }

  /** Python's `s[i:]` for an index that is not negative. */
  function From(s: string, i: nat): string {
    if i <= |s| then s[i..] else []
  }

  /** Python's `s[:n]`. */
  function Take(s: string, n: nat): (r: string)
    ensures |r| == if n <= |s| then n else |s|
    ensures r <= s
  {
    if n <= |s| then s[..n] else s
  }

  /** `_truncate_log_tail`. */
  function Truncate(tail: string, budget: int): string {
    if |tail| <= budget then tail else MARKER + From(tail, |tail| - budget + |MARKER|)
  }

  /** A shortened log is the marker and the end of the log, and never shorter than the marker. */
  lemma TruncatedLog(tail: string, budget: int)
    ensures |tail| <= budget ==> Truncate(tail, budget) == tail
    ensures |tail| > budget ==>
              && |Truncate(tail, budget)| == Max(budget, |MARKER|)
              && MARKER <= Truncate(tail, budget)
              && Truncate(tail, budget)[|MARKER|..] == tail[|tail| - Max(budget - |MARKER|, 0)..]
  {
    assert |MARKER| == 15;
    if |tail| > budget {
      assert Truncate(tail, budget)[|MARKER|..] == From(tail, |tail| - budget + |MARKER|);
    }
  }

  // ------------------------------------------------------------- the message

  const MAX_PAYLOAD_CHARS: nat := 3500
  const MAX_TELEGRAM_CHARS: nat := 4096

  /** The fields of a report as strings, with their defaults filled in. */
  datatype Fields = Fields(installationId: string, trigger: string, timestamp: string, version: string, os: string,
                           exitCode: string, logTail: string, errorMessage: string, hmac: string)

  const LABELS := ["\U{1F534} *Synqro Crash Report*\ninstall: `", "trigger: `", "\ntime: `", "\nversion: `",
                   "\nos: `", "\nexit: `", "\nhmac: `"]

  /** What the header shows; the line break after the installation is inside the quotes. */
  function Shown(f: Fields): seq<string> {
    [Take(f.installationId, 8) + "...\n", f.trigger, f.timestamp, f.version, f.os, f.exitCode,
     Take(f.hmac, 16) + "..."]
  }

  function Quoted(labels: seq<string>, values: seq<string>): string
    requires |labels| == |values|
  {
    if labels == [] then [] else labels[0] + Escape(values[0]) + "`" + Quoted(labels[1..], values[1..])
  }

  function Header(f: Fields): string {
    Quoted(LABELS, Shown(f)) + "\n"
  }

  function ErrorSection(message: string): string {
    if message == [] then [] else "\n*Error:*\n```\n" + Take(message, 400) + "\n```\n"
  }

  const LOG_PREFIX := "\n*Log tail:*\n```\n"
  const LOG_SUFFIX := "\n```"
  const FOOTER := "\n_Report generated by Synqro crash reporter_"

  function FixedLength(f: Fields): nat {
    |Header(f)| + |ErrorSection(f.errorMessage)| + |LOG_PREFIX| + |LOG_SUFFIX| + |FOOTER|
  }

  function Budget(f: Fields): nat {
    if FixedLength(f) > MAX_PAYLOAD_CHARS then 0 else MAX_PAYLOAD_CHARS - FixedLength(f)
  }

  /** `_format_report`. */
  function Format(f: Fields): string {
    Header(f) + ErrorSection(f.errorMessage) + LOG_PREFIX + Truncate(f.logTail, Budget(f)) + LOG_SUFFIX + FOOTER
  }

  // ------------------------------------------------------------ main results

  lemma MessageLength(f: Fields)
    ensures |Format(f)| == FixedLength(f) + |Truncate(f.logTail, Budget(f))|
  {}

  /** The message has the intended length, or overshoots it by what cannot be cut: the fixed parts and the marker. */
  lemma LengthBounded(f: Fields)
    ensures |Format(f)| <= Max(MAX_PAYLOAD_CHARS, FixedLength(f) + |MARKER|)
    ensures |f.logTail| <= Budget(f) ==> |Format(f)| == FixedLength(f) + |f.logTail|
    ensures |f.logTail| > Budget(f) ==> |Format(f)| == Max(MAX_PAYLOAD_CHARS, FixedLength(f) + |MARKER|)
  {
    MessageLength(f);
    TruncatedLog(f.logTail, Budget(f));
  }

  /** Exactly when a message fits what the chat service accepts: it is not shortened beyond its fixed parts. */
  lemma FitsExactly(f: Fields)
    ensures |Format(f)| <= MAX_TELEGRAM_CHARS <==>
            FixedLength(f) + (if f.logTail == [] then 0 else |MARKER|) <= MAX_TELEGRAM_CHARS
  {
    assert |MARKER| == 15;
    LengthBounded(f);
  }

  /** It does not always fit, although that is what the function is for: no report with a long trigger does. */
  lemma LongFieldOverflows(f: Fields)
    requires |f.trigger| >= MAX_TELEGRAM_CHARS
    ensures |Format(f)| > MAX_TELEGRAM_CHARS
  {
    assert |LABELS| == 7;
    HeaderCovers(LABELS, Shown(f), 1);
    assert Shown(f)[1] == f.trigger;
    EscapeLength(f.trigger);
    MessageLength(f);
  }

  lemma {:induction false} HeaderCovers(labels: seq<string>, values: seq<string>, i: nat)
    requires |labels| == |values| && i < |labels|
    ensures |Quoted(labels, values)| >= |Escape(values[i])|
  {
    if i > 0 { HeaderCovers(labels[1..], values[1..], i - 1); }
  }

  function Lengths(xs: seq<string>): nat {
    if xs == [] then 0 else |xs[0]| + Lengths(xs[1..])
  }

  lemma {:induction false} HeaderLength(labels: seq<string>, values: seq<string>)
    requires |labels| == |values|
    ensures |Quoted(labels, values)| <= Lengths(labels) + 2 * Lengths(values) + |labels|
  {
    if labels != [] {
      HeaderLength(labels[1..], values[1..]);
      EscapeLength(values[0]);
    }
  }

  /** With fields of ordinary size the message has at most the intended length. */
  lemma OrdinaryFieldsFit(f: Fields)
    requires |f.trigger| + |f.timestamp| + |f.version| + |f.os| + |f.exitCode| <= 1400
    ensures |Format(f)| <= MAX_PAYLOAD_CHARS
  {
    HeaderLength(LABELS, Shown(f));
    LabelLengths();
    ShownLengths(f);
    assert |MARKER| == 15 && |LOG_PREFIX| == 17 && |LOG_SUFFIX| == 4 && |FOOTER| == 44;
    assert |ErrorSection(f.errorMessage)| <= 419;
    LengthBounded(f);
  }

  lemma LabelLengths()
    ensures Lengths(LABELS) <= 100
  {
    assert |LABELS[0]| == 34 && |LABELS[1]| == 10 && |LABELS[2]| == 8 && |LABELS[3]| == 11 && |LABELS[4]| == 6
        && |LABELS[5]| == 8 && |LABELS[6]| == 8;
    SevenLengths(LABELS);
  }

  lemma SevenLengths(s: seq<string>)
    requires |s| == 7
    ensures Lengths(s) == |s[0]| + |s[1]| + |s[2]| + |s[3]| + |s[4]| + |s[5]| + |s[6]|
  {
    forall i | 0 <= i < 7 ensures Lengths(s[i..]) == |s[i]| + Lengths(s[i + 1..]) {
      assert s[i..][1..] == s[i + 1..];
    }
    assert s[0..] == s;
  }

  lemma ShownLengths(f: Fields)
    ensures Lengths(Shown(f)) <= |f.trigger| + |f.timestamp| + |f.version| + |f.os| + |f.exitCode| + 31
  {
    SevenLengths(Shown(f));
  }

  // ---------------------------------------------------- reading the header back

  /** An escaped text up to its closing quote, and what follows the quote. */
  function ReadQuoted(s: string): Option<(string, string)> {
    if s == [] then None
    else if s[0] == '`' then Some(([], s[1..]))
    else if s[0] == '\\' then
      if |s| == 1 then None
      else
        var (field, rest) :- ReadQuoted(s[2..]);
        Some(([s[1]] + field, rest))
    else
      var (field, rest) :- ReadQuoted(s[1..]);
      Some(([s[0]] + field, rest))
  }

  lemma Regroup(x: string, y: string, z: string, rest: string)
    ensures (x + y) + z + rest == x + (y + z + rest)
  {}

  lemma {:induction false} ReadEscaped(text: string, rest: string)
    ensures ReadQuoted(Escape(text) + "`" + rest) == Some((text, rest))
  {
    if text == [] {
      assert (Escape(text) + "`" + rest)[1..] == rest;
    } else {
      ReadEscaped(text[1..], rest);
      var first := if IsSpecial(text[0]) then ['\\', text[0]] else [text[0]];
      Regroup(first, Escape(text[1..]), "`", rest);
      ReadFirst(text[0], Escape(text[1..]) + "`" + rest);
      assert text == [text[0]] + text[1..];
    }
  }

  lemma ReadFirst(c: char, tail: string)
    requires ReadQuoted(tail).Some?
    ensures ReadQuoted((if IsSpecial(c) then ['\\', c] else [c]) + tail) ==
            Some(([c] + ReadQuoted(tail).value.0, ReadQuoted(tail).value.1))
  {
    BackslashIsSpecial();
    var s := (if IsSpecial(c) then ['\\', c] else [c]) + tail;
    if IsSpecial(c) { assert s[2..] == tail; } else { assert s[1..] == tail; }
  }

  function ReadFields(labels: seq<string>, s: string): Option<seq<string>> {
    if labels == [] then Some([])
    else if !(labels[0] <= s) then None
    else
      var (field, rest) :- ReadQuoted(s[|labels[0]|..]);
      var fields :- ReadFields(labels[1..], rest);
      Some([field] + fields)
  }

  lemma {:induction false} ReadQuotedFields(labels: seq<string>, values: seq<string>, rest: string)
    requires |labels| == |values|
    ensures ReadFields(labels, Quoted(labels, values) + rest) == Some(values)
  {
    if labels != [] {
      var s := Quoted(labels, values) + rest;
      var tail := Quoted(labels[1..], values[1..]) + rest;
      assert s[|labels[0]|..] == Escape(values[0]) + "`" + tail;
      ReadEscaped(values[0], tail);
      ReadQuotedFields(labels[1..], values[1..], rest);
      assert values == [values[0]] + values[1..];
    }
  }

  /** Whatever the fields contain, the header of a message shows each of them in its own place and nothing else. */
  lemma HeaderReadsBack(f: Fields)
    ensures ReadFields(["\U{1F534} *Synqro Crash Report*\ninstall: `", "trigger: `", "\ntime: `", "\nversion: `",
                        "\nos: `", "\nexit: `", "\nhmac: `"], Format(f)) ==
            Some([Take(f.installationId, 8) + "...\n", f.trigger, f.timestamp, f.version, f.os, f.exitCode,
                  Take(f.hmac, 16) + "..."])
  {
    var log := Truncate(f.logTail, Budget(f));
    Reassociate(Quoted(LABELS, Shown(f)), "\n", ErrorSection(f.errorMessage), LOG_PREFIX, log, LOG_SUFFIX, FOOTER);
    ReadQuotedFields(LABELS, Shown(f),
                     "\n" + (ErrorSection(f.errorMessage) + (LOG_PREFIX + (log + (LOG_SUFFIX + FOOTER)))));
  }

  lemma Reassociate(q: string, a: string, b: string, c: string, d: string, e: string, f: string)
    ensures (q + a) + b + c + d + e + f == q + (a + (b + (c + (d + (e + f)))))
  {}

  /** `part` stands in `s` at this position. */
  predicate StandsAt(s: string, part: string, at: nat) {
    at + |part| <= |s| && s[at..at + |part|] == part
  }

  const FRAME_END := "\n```" + "\n_Report generated by Synqro crash reporter_"

  /** What the error section shows of a message. */
  function ErrorShown(message: string): string {
    var shown := if |message| <= 400 then message else message[..400];
    if message == "" then "" else "\n*Error:*\n```\n" + shown + "\n```\n"
  }

  /**
   * After the header come the first 400 characters of the error message, if there is one, then the log, whole if it
   * fits and otherwise its end, then the footer; and nothing else.
   */
  lemma BodyReadsBack(f: Fields)
    ensures var h, error, log := Header(f), ErrorShown(f.errorMessage), Truncate(f.logTail, Budget(f));
            && h <= Format(f)
            && StandsAt(Format(f), error, |h|)
            && StandsAt(Format(f), "\n*Log tail:*\n```\n" + log + FRAME_END, |h| + |error|)
            && |Format(f)| == |h| + |error| + |"\n*Log tail:*\n```\n" + log + FRAME_END|
  {
    var h, error, log := Header(f), ErrorShown(f.errorMessage), Truncate(f.logTail, Budget(f));
    TailParts(h + error, LOG_PREFIX, log, LOG_SUFFIX, FOOTER);
    assert ErrorSection(f.errorMessage) == error;
    ThreeParts(h, error, LOG_PREFIX + log + FRAME_END);
  }

  lemma ThreeParts(x: string, y: string, z: string)
    ensures StandsAt(x + y + z, y, |x|) && StandsAt(x + y + z, z, |x| + |y|) && x <= x + y + z
  {}

  lemma TailParts(h: string, a: string, b: string, c: string, d: string)
    ensures h + a + b + c + d == h + (a + b + (c + d))
  {}
}
