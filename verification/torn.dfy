/** A document of which only a part was written is never mistaken for a whole one. */
module Torn {
  import opened Wrappers
  import opened Text
  import opened Json
  import JsonRoundTrip

  // ------------------------------- what was read does not depend on what follows

  lemma {:induction false} SkipSpaceLocal(s: string, t: string)
    requires SkipSpace(s) != []
    ensures SkipSpace(s + t) == SkipSpace(s) + t
  {
    if s != [] && IsSpace(s[0]) {
      assert (s + t)[1..] == s[1..] + t;
      SkipSpaceLocal(s[1..], t);
    }
  }

  lemma DropLocal(s: string, n: nat, t: string)
    requires n <= |s|
    ensures (s + t)[n..] == s[n..] + t
  {}

  lemma EscapeLocal(s: string, t: string)
    requires EscapeSequence(s).Some?
    ensures EscapeSequence(s + t) == Some((EscapeSequence(s).value.0, EscapeSequence(s).value.1 + t))
  {
    DropLocal(s, 1, t);
    if s[0] == 'u' { UnicodeLocal(s[1..], t); }
  }

  lemma Hex4Local(s: string, t: string)
    requires |s| >= 4
    ensures Hex4(s + t) == Hex4(s)
  {}

  lemma UnicodeLocal(s: string, t: string)
    requires UnicodeEscape(s).Some?
    ensures UnicodeEscape(s + t) == Some((UnicodeEscape(s).value.0, UnicodeEscape(s).value.1 + t))
  {
    Hex4Local(s, t);
    DropLocal(s, 4, t);
    if 0xD800 <= Hex4(s).value < 0xDC00 {
      DropLocal(s, 6, t);
      Hex4Local(s[6..], t);
      DropLocal(s, 10, t);
    }
  }

  lemma {:induction false} CharsLocal(s: string, t: string)
    requires ParseChars(s).Some?
    ensures ParseChars(s + t) == Some((ParseChars(s).value.0, ParseChars(s).value.1 + t))
  {
    DropLocal(s, 1, t);
    if s[0] == '"' {
    } else if s[0] == '\\' {
      EscapeLocal(s[1..], t);
      CharsLocal(EscapeSequence(s[1..]).value.1, t);
    } else {
      CharsLocal(s[1..], t);
    }
  }

  lemma {:induction false} DigitRunLocal(s: string, t: string)
    requires DigitRun(s) < |s|
    ensures DigitRun(s + t) == DigitRun(s)
  {
    DropLocal(s, 1, t);
    if IsDigit(s[0]) { DigitRunLocal(s[1..], t); }
  }

  /** Only a number at the very end of the text could go on. */
  lemma NumberLocal(s: string, t: string)
    requires ParseNumber(s).Some? && ParseNumber(s).value.1 != []
    ensures ParseNumber(s + t) == Some((ParseNumber(s).value.0, ParseNumber(s).value.1 + t))
  {
    var digits := if s[0] == '-' then s[1..] else s;
    DropLocal(s, 1, t);
    var n := DigitRun(digits);
    DigitRunLocal(digits, t);
    DropLocal(digits, n, t);
    assert (digits + t)[..n] == digits[..n];
  }

  lemma LiteralLocal(s: string, word: string, j: Json, t: string)
    requires word != [] && word <= s
    ensures Literal(s + t, word, j) == Some((j, s[|word|..] + t))
  {
    DropLocal(s, |word|, t);
    assert (s + t)[..|word|] == s[..|word|];
  }

  predicate SelfDelimiting(r: (Json, string)) {
    r.1 != [] || !r.0.Num?
  }

  lemma {:induction false} ValueLocal(s: string, t: string)
    requires ParseValue(s).Some? && SelfDelimiting(ParseValue(s).value)
    ensures ParseValue(s + t) == Some((ParseValue(s).value.0, ParseValue(s).value.1 + t))
    decreases |s|, 0
  {
    var u := SkipSpace(s);
    SkipSpaceLocal(s, t);
    DropLocal(u, 1, t);
    match u[0]
    case '"' => CharsLocal(u[1..], t);
    case '[' => ArrayLocal(u, t);
    case '{' => ObjectLocal(u, t);
    case 'n' => LiteralLocal(u, "null", Null, t);
    case 't' => LiteralLocal(u, "true", Bool(true), t);
    case 'f' => LiteralLocal(u, "false", Bool(false), t);
    case _ => NumberLocal(u, t);
  }

  lemma {:induction false} ArrayLocal(u: string, t: string)
    requires u != [] && u[0] == '[' && ParseValue(u).Some?
    ensures ParseValue(u + t) == Some((ParseValue(u).value.0, ParseValue(u).value.1 + t))
    decreases |u|, -1
  {
    DropLocal(u, 1, t);
    var v := SkipSpace(u[1..]);
    if v == [] {
      assert ParseItems(u[1..]).Some?;
      ItemsLocal(u[1..], t);
      ItemsNotBlank(u[1..]);
    } else {
      SkipSpaceLocal(u[1..], t);
      DropLocal(v, 1, t);
      if v[0] != ']' { ItemsLocal(u[1..], t); }
    }
  }

  lemma ItemsNotBlank(s: string)
    requires ParseItems(s).Some?
    ensures SkipSpace(s) != []
  {}

  lemma {:induction false} ItemsLocal(s: string, t: string)
    requires ParseItems(s).Some?
    ensures ParseItems(s + t) == Some((ParseItems(s).value.0, ParseItems(s).value.1 + t))
    decreases |s|, 1
  {
    var (v, rest) := ParseValue(s).value;
    var u := SkipSpace(rest);
    ValueLocal(s, t);
    SkipSpaceLocal(rest, t);
    DropLocal(u, 1, t);
    if u[0] == ',' { ItemsLocal(u[1..], t); }
  }

  lemma {:induction false} ObjectLocal(u: string, t: string)
    requires u != [] && u[0] == '{' && ParseValue(u).Some?
    ensures ParseValue(u + t) == Some((ParseValue(u).value.0, ParseValue(u).value.1 + t))
    decreases |u|, -1
  {
    DropLocal(u, 1, t);
    var v := SkipSpace(u[1..]);
    if v != [] {
      SkipSpaceLocal(u[1..], t);
      DropLocal(v, 1, t);
      if v[0] != '}' { MembersLocal(u[1..], t); }
    }
  }

  lemma {:induction false} MembersLocal(s: string, t: string)
    requires ParseMembers(s).Some?
    ensures ParseMembers(s + t) == Some((ParseMembers(s).value.0, ParseMembers(s).value.1 + t))
    decreases |s|, 1
  {
    var u := SkipSpace(s);
    SkipSpaceLocal(s, t);
    DropLocal(u, 1, t);
    CharsLocal(u[1..], t);
    var (key, afterKey) := ParseChars(u[1..]).value;
    var w := SkipSpace(afterKey);
    SkipSpaceLocal(afterKey, t);
    DropLocal(w, 1, t);
    ValueLocal(w[1..], t);
    var (v, rest) := ParseValue(w[1..]).value;
    var x := SkipSpace(rest);
    SkipSpaceLocal(rest, t);
    DropLocal(x, 1, t);
    if x[0] == ',' { MembersLocal(x[1..], t); }
  }

  // -------------------------------------------------------------- main results

  /** No proper prefix of a printed object is a document. */
  lemma TornText(members: seq<Member>, style: Style, n: nat)
    requires n < |Print(Obj(members), style, 0)|
    ensures Parse(Print(Obj(members), style, 0)[..n]) == None
  {
    var whole := Print(Obj(members), style, 0);
    var part := whole[..n];
    JsonRoundTrip.ParsePrinted(Obj(members), style, 0, "");
    assert whole + "" == whole == part + whole[n..];
    if part != [] && Parse(part).Some? {
      assert whole[0] == '{' && SkipSpace(part) == part;
      ObjectLocal(part, whole[n..]);
    }
  }

  lemma TornChar(c: char, n: nat)
    requires 0 < n < |EncodeChar(c)|
    ensures DecodeChar(EncodeChar(c)[..n]) == None
  {}

  /** A part of an encoded text is not valid, or it encodes a proper prefix of the text. */
  lemma {:induction false} TornEncoding(s: string, n: nat)
    requires n < |Encode(s)|
    ensures var t := Decode(Encode(s)[..n]); t.Some? ==> |t.value| < |s| && t.value <= s
  {
    var e, rest := EncodeChar(s[0]), Encode(s[1..]);
    var part := Encode(s)[..n];
    if n == 0 {
    } else if n < |e| {
      TornChar(s[0], n);
      assert part == e[..n];
    } else {
      var m := n - |e|;
      assert part == e + rest[..m] && part[|e|..] == rest[..m];
      DecodeEncodeChar(s[0], rest[..m]);
      TornEncoding(s[1..], m);
      if Decode(rest[..m]).Some? {
        assert s == [s[0]] + s[1..];
      }
    }
  }

  /** No proper part of an encoded object decodes to a document. */
  lemma TornBytes(members: seq<Member>, style: Style, n: nat)
    requires n < |Encode(Print(Obj(members), style, 0))|
    ensures var text := Decode(Encode(Print(Obj(members), style, 0))[..n]);
            text.Some? ==> Parse(text.value) == None
  {
    var whole := Print(Obj(members), style, 0);
    TornEncoding(whole, n);
    var text := Decode(Encode(whole)[..n]);
    if text.Some? {
      assert text.value == whole[..|text.value|];
      TornText(members, style, |text.value|);
    }
  }
}
