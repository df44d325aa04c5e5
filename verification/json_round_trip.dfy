/** Parsing undoes both printers. */
module JsonRoundTrip {
  import opened Wrappers
  import opened Sequences
  import opened Text
  import opened Json

  /** Text at which a number ends. */
  predicate Delimited(rest: string) {
    rest == [] || IsSpace(rest[0]) || rest[0] == ',' || rest[0] == ']' || rest[0] == '}' || rest[0] == '{'
  }

  // -------------------------------------------------------------- strings

  lemma ParseEscapedChar(c: char, tail: string)
    ensures ParseChars(EscapeChar(c) + tail) ==
            match ParseChars(tail) case Some(r) => Some(([c] + r.0, r.1)) case None => None
  {
    var e := EscapeChar(c);
    var s := e + tail;
    if |e| == 1 {
      assert s[0] == c && s[1..] == tail;
    } else if |e| == 2 {
      assert s[0] == '\\' && s[1..][0] == e[1] && s[1..][1..] == tail;
      assert EscapeSequence(s[1..]) == Some((c, tail));
    } else {
      ParseControlEscape(c, tail);
      assert s[0] == '\\' && s[1..] == e[1..] + tail;
    }
  }

  lemma ParseControlEscape(c: char, tail: string)
    requires c < ' ' && |EscapeChar(c)| > 2
    ensures EscapeSequence(EscapeChar(c)[1..] + tail) == Some((c, tail))
  {
    var e := EscapeChar(c);
    var u := e[1..] + tail;
    assert e == ['\\', 'u', '0', '0', HexDigit(c as int / 16), HexDigit(c as int % 16)];
    assert u[0] == 'u' && u[1..] == e[2..] + tail;
    var h := u[1..];
    assert h[0] == '0' && h[1] == '0' && h[2] == e[4] && h[3] == e[5] && h[4..] == tail;
    assert HexValue('0') == Some(0);
    assert HexValue(e[4]) == Some(c as int / 16) && HexValue(e[5]) == Some(c as int % 16);
    assert Hex4(h) == Some(c as int);
    assert UnicodeEscape(h) == Some((c, tail));
  }

  lemma {:induction false} ParseEscaped(s: string, rest: string)
    ensures ParseChars(Escape(s) + ("\"" + rest)) == Some((s, rest))
  {
    if s == [] {
      assert Escape(s) + ("\"" + rest) == "\"" + rest;
    } else {
      ParseEscaped(s[1..], rest);
      ParseEscapedChar(s[0], Escape(s[1..]) + ("\"" + rest));
      Assoc(EscapeChar(s[0]), Escape(s[1..]), "\"" + rest);
      assert s == [s[0]] + s[1..];
    }
  }

  lemma ParseQuoted(s: string, rest: string)
    ensures (Quote(s) + rest)[0] == '"' && ParseChars((Quote(s) + rest)[1..]) == Some((s, rest))
  {
    ParseEscaped(s, rest);
    assert (Quote(s) + rest)[1..] == Escape(s) + ("\"" + rest);
  }

  // -------------------------------------------------------------- numbers

  lemma {:induction false} DigitRunExact(s: string, rest: string)
    requires AllDigits(s) && (rest == [] || !IsDigit(rest[0]))
    ensures DigitRun(s + rest) == |s|
  {
    if s == [] {
      assert s + rest == rest;
    } else {
      DigitRunExact(s[1..], rest);
      assert (s + rest)[1..] == s[1..] + rest;
    }
  }

  /** What the number parser sees at a printed magnitude. */
  lemma DigitsThenRest(magnitude: nat, rest: string)
    requires Delimited(rest)
    ensures var t, n := Decimal(magnitude) + rest, |Decimal(magnitude)|;
            && DigitRun(t) == n && t[..n] == Decimal(magnitude) && t[n..] == rest
            && IsDigit(t[0]) && (t[0] == '0' ==> n == 1)
            && (n < |t| ==> t[n] != '.' && t[n] != 'e' && t[n] != 'E')
  {
    DigitRunExact(Decimal(magnitude), rest);
    var t, n := Decimal(magnitude) + rest, |Decimal(magnitude)|;
    assert t[0] == Decimal(magnitude)[0];
    assert n < |t| ==> t[n] == rest[0];
  }

  lemma ParsePrintedInt(n: JsonInt, rest: string)
    requires Delimited(rest)
    ensures ParseNumber(PrintInt(n) + rest) == Some((Num(n), rest))
  {
    var magnitude: nat := if n < 0 then -n else n;
    var t := Decimal(magnitude) + rest;
    DigitsThenRest(magnitude, rest);
    if n < 0 {
      Assoc("-", Decimal(magnitude), rest);
      assert ("-" + t)[1..] == t;
    }
  }

  // ---------------------------------------------------------- white space

  lemma {:induction false} SkipBlanks(n: nat, s: string)
    ensures SkipSpace(Spaces(n) + s) == SkipSpace(s)
  {
    if n == 0 {
      assert Spaces(n) + s == s;
    } else {
      SkipBlanks(n - 1, s);
      assert (Spaces(n) + s)[1..] == Spaces(n - 1) + s;
    }
  }

  lemma SkipNewLine(style: Style, d: nat, s: string)
    ensures SkipSpace(NewLine(style, d) + s) == SkipSpace(s)
    ensures ParseValue(NewLine(style, d) + s) == ParseValue(s)
  {
    if style.Compact? {
      assert NewLine(style, d) + s == s;
    } else {
      SkipBlanks(2 * d, s);
      assert (NewLine(style, d) + s)[1..] == Spaces(2 * d) + s;
    }
  }

  // --------------------------------------------------------------- values

  lemma PrintStart(j: Json, style: Style, d: nat)
    ensures Print(j, style, d) != []
    ensures var c := Print(j, style, d)[0]; !IsSpace(c) && c != ']' && c != '}'
  {}

  /** What follows the first item: nothing, or a comma and the other items. */
  function ItemsTail(items: seq<Json>, style: Style, d: nat): string
    requires items != []
  {
    if |items| == 1 then "" else "," + PrintItems(items[1..], style, d)
  }

  lemma PrintItemsSplit(items: seq<Json>, style: Style, d: nat, close: string)
    requires items != []
    ensures PrintItems(items, style, d) + close
         == NewLine(style, d) + (Print(items[0], style, d) + (ItemsTail(items, style, d) + close))
  {
    var a, b, c := NewLine(style, d), Print(items[0], style, d), ItemsTail(items, style, d);
    Assoc(a + b, c, close);
    Assoc(a, b, c + close);
  }

  function MembersTail(members: seq<Member>, style: Style, d: nat): string
    requires members != []
  {
    if |members| == 1 then "" else "," + PrintMembers(members[1..], style, d)
  }

  lemma PrintMembersSplit(members: seq<Member>, style: Style, d: nat, close: string)
    requires members != []
    ensures PrintMembers(members, style, d) + close
         == NewLine(style, d) + (Quote(members[0].key) +
              (Colon(style) + (Print(members[0].value, style, d) + (MembersTail(members, style, d) + close))))
  {
    var a, b, c := NewLine(style, d), Quote(members[0].key), Colon(style);
    var v, t := Print(members[0].value, style, d), MembersTail(members, style, d);
    Assoc(a + b + c + v, t, close);
    Assoc(a + b + c, v, t + close);
    Assoc(a + b, c, v + (t + close));
    Assoc(a, b, c + (v + (t + close)));
  }

  lemma SkipClose(style: Style, d: nat, close: string, c: char, rest: string)
    requires c == ']' || c == '}'
    requires close == NewLine(style, d) + ([c] + rest)
    ensures Delimited(close) && SkipSpace(close) == [c] + rest && ([c] + rest)[1..] == rest
  {
    SkipNewLine(style, d, [c] + rest);
  }

  lemma ParseColon(style: Style, s: string)
    ensures SkipSpace(Colon(style) + s)[0] == ':'
    ensures ParseValue(SkipSpace(Colon(style) + s)[1..]) == ParseValue(s)
  {
    var t := Colon(style) + s;
    if style.Pretty? {
      SkipBlanks(1, s);
      assert t[1..] == Spaces(1) + s;
    } else {
      assert t[1..] == s;
    }
  }

  // One step of each parser, over any texts.

  lemma ItemsEnd(s: string, v: Json, next: string, rest: string)
    requires ParseValue(s) == Some((v, next)) && SkipSpace(next) == "]" + rest
    ensures ParseItems(s) == Some(([v], rest))
  {
    assert ("]" + rest)[1..] == rest;
  }

  lemma ItemsMore(s: string, v: Json, tail: string, vs: seq<Json>, end: string)
    requires ParseValue(s) == Some((v, "," + tail)) && ParseItems(tail) == Some((vs, end))
    ensures ParseItems(s) == Some(([v] + vs, end))
  {
    assert ("," + tail)[1..] == tail;
  }

  /** `s` starts with the member `m`, and `next` follows it. */
  predicate ReadsMember(s: string, m: Member, next: string) {
    var t := SkipSpace(s);
    && t != [] && t[0] == '"'
    && match ParseChars(t[1..])
       case None => false
       case Some((key, afterKey)) =>
         var u := SkipSpace(afterKey);
         key == m.key && u != [] && u[0] == ':' && ParseValue(u[1..]) == Some((m.value, next))
  }

  lemma MembersEnd(s: string, m: Member, next: string, rest: string)
    requires ReadsMember(s, m, next) && SkipSpace(next) == "}" + rest
    ensures ParseMembers(s) == Some(([m], rest))
  {
    assert ("}" + rest)[1..] == rest;
  }

  lemma MembersMore(s: string, m: Member, tail: string, ms: seq<Member>, end: string)
    requires ReadsMember(s, m, "," + tail) && ParseMembers(tail) == Some((ms, end))
    ensures ParseMembers(s) == Some(([m] + ms, end))
  {
    assert ("," + tail)[1..] == tail;
  }

  lemma ArrayStep(s: string, body: string, items: seq<Json>, rest: string)
    requires s == "[" + body && SkipSpace(body) != [] && SkipSpace(body)[0] != ']'
    requires ParseItems(body) == Some((items, rest))
    ensures ParseValue(s) == Some((Arr(items), rest))
  {
    assert s[1..] == body;
  }

  lemma ObjectStep(s: string, body: string, members: seq<Member>, rest: string)
    requires s == "{" + body && SkipSpace(body) != [] && SkipSpace(body)[0] != '}'
    requires ParseMembers(body) == Some((members, rest))
    ensures ParseValue(s) == Some((Obj(members), rest))
  {
    assert s[1..] == body;
  }

  // The printers, by mutual induction.

  lemma PrintedItemsHead(items: seq<Json>, style: Style, d: nat, close: string)
    requires items != []
    requires var next := ItemsTail(items, style, d) + close;
             ParseValue(Print(items[0], style, d) + next) == Some((items[0], next))
    ensures ParseValue(PrintItems(items, style, d) + close) == Some((items[0], ItemsTail(items, style, d) + close))
  {
    PrintItemsSplit(items, style, d, close);
    SkipNewLine(style, d, Print(items[0], style, d) + (ItemsTail(items, style, d) + close));
  }

  lemma NextItems(items: seq<Json>, style: Style, d: nat, close: string)
    requires items != []
    ensures ItemsTail(items, style, d) + close ==
            if |items| == 1 then close else "," + (PrintItems(items[1..], style, d) + close)
  {
    if |items| > 1 { Assoc(",", PrintItems(items[1..], style, d), close); }
  }

  lemma LastPrintedItem(items: seq<Json>, style: Style, d: nat, close: string, rest: string)
    requires |items| == 1 && SkipSpace(close) == "]" + rest
    requires var s := PrintItems(items, style, d) + close;
             ParseValue(s) == Some((items[0], ItemsTail(items, style, d) + close))
    ensures ParseItems(PrintItems(items, style, d) + close) == Some((items, rest))
  {
    NextItems(items, style, d, close);
    ItemsEnd(PrintItems(items, style, d) + close, items[0], close, rest);
    assert items == [items[0]];
  }

  lemma FirstItemMore(s: string, items: seq<Json>, tail: string, rest: string)
    requires items != [] && ParseValue(s) == Some((items[0], "," + tail))
    requires ParseItems(tail) == Some((items[1..], rest))
    ensures ParseItems(s) == Some((items, rest))
  {
    ItemsMore(s, items[0], tail, items[1..], rest);
    HeadAndTail(items);
  }

  lemma MorePrintedItems(items: seq<Json>, style: Style, d: nat, close: string, rest: string)
    requires |items| > 1
    requires var s := PrintItems(items, style, d) + close;
             ParseValue(s) == Some((items[0], ItemsTail(items, style, d) + close))
    requires ParseItems(PrintItems(items[1..], style, d) + close) == Some((items[1..], rest))
    ensures ParseItems(PrintItems(items, style, d) + close) == Some((items, rest))
  {
    NextItems(items, style, d, close);
    FirstItemMore(PrintItems(items, style, d) + close, items, PrintItems(items[1..], style, d) + close, rest);
  }

  lemma {:induction false} ParsePrintedItems(items: seq<Json>, style: Style, d: nat, close: string, rest: string)
    requires items != []
    requires Delimited(close) && SkipSpace(close) == "]" + rest
    ensures ParseItems(PrintItems(items, style, d) + close) == Some((items, rest))
    decreases items, 0
  {
    ParsePrinted(items[0], style, d, ItemsTail(items, style, d) + close);
    PrintedItemsHead(items, style, d, close);
    if |items| == 1 {
      LastPrintedItem(items, style, d, close, rest);
    } else {
      ParsePrintedItems(items[1..], style, d, close, rest);
      MorePrintedItems(items, style, d, close, rest);
    }
  }

  lemma QuotedKey(style: Style, d: nat, key: string, afterKey: string)
    ensures var t := SkipSpace(NewLine(style, d) + (Quote(key) + afterKey));
            t != [] && t[0] == '"' && ParseChars(t[1..]) == Some((key, afterKey))
  {
    SkipNewLine(style, d, Quote(key) + afterKey);
    ParseQuoted(key, afterKey);
  }

  lemma PrintedMembersHead(members: seq<Member>, style: Style, d: nat, close: string)
    requires members != []
    requires var next := MembersTail(members, style, d) + close;
             ParseValue(Print(members[0].value, style, d) + next) == Some((members[0].value, next))
    ensures ReadsMember(PrintMembers(members, style, d) + close, members[0], MembersTail(members, style, d) + close)
  {
    var value := Print(members[0].value, style, d) + (MembersTail(members, style, d) + close);
    PrintMembersSplit(members, style, d, close);
    QuotedKey(style, d, members[0].key, Colon(style) + value);
    ParseColon(style, value);
  }

  lemma NextMembers(members: seq<Member>, style: Style, d: nat, close: string)
    requires members != []
    ensures MembersTail(members, style, d) + close ==
            if |members| == 1 then close else "," + (PrintMembers(members[1..], style, d) + close)
  {
    if |members| > 1 { Assoc(",", PrintMembers(members[1..], style, d), close); }
  }

  lemma LastPrintedMember(members: seq<Member>, style: Style, d: nat, close: string, rest: string)
    requires |members| == 1 && SkipSpace(close) == "}" + rest
    requires ReadsMember(PrintMembers(members, style, d) + close, members[0], MembersTail(members, style, d) + close)
    ensures ParseMembers(PrintMembers(members, style, d) + close) == Some((members, rest))
  {
    NextMembers(members, style, d, close);
    MembersEnd(PrintMembers(members, style, d) + close, members[0], close, rest);
    assert members == [members[0]];
  }

  lemma FirstMemberMore(s: string, members: seq<Member>, tail: string, rest: string)
    requires members != [] && ReadsMember(s, members[0], "," + tail)
    requires ParseMembers(tail) == Some((members[1..], rest))
    ensures ParseMembers(s) == Some((members, rest))
  {
    MembersMore(s, members[0], tail, members[1..], rest);
    HeadAndTail(members);
  }

  lemma MorePrintedMembers(members: seq<Member>, style: Style, d: nat, close: string, rest: string)
    requires |members| > 1
    requires ReadsMember(PrintMembers(members, style, d) + close, members[0], MembersTail(members, style, d) + close)
    requires ParseMembers(PrintMembers(members[1..], style, d) + close) == Some((members[1..], rest))
    ensures ParseMembers(PrintMembers(members, style, d) + close) == Some((members, rest))
  {
    NextMembers(members, style, d, close);
    FirstMemberMore(PrintMembers(members, style, d) + close, members, PrintMembers(members[1..], style, d) + close,
                    rest);
  }

  lemma {:induction false} ParsePrintedMembers(members: seq<Member>, style: Style, d: nat, close: string, rest: string)
    requires members != []
    requires Delimited(close) && SkipSpace(close) == "}" + rest
    ensures ParseMembers(PrintMembers(members, style, d) + close) == Some((members, rest))
    decreases members, 0
  {
    ParsePrinted(members[0].value, style, d, MembersTail(members, style, d) + close);
    PrintedMembersHead(members, style, d, close);
    if |members| == 1 {
      LastPrintedMember(members, style, d, close, rest);
    } else {
      ParsePrintedMembers(members[1..], style, d, close, rest);
      MorePrintedMembers(members, style, d, close, rest);
    }
  }

  lemma BracketSplit(open: string, body: string, newLine: string, close: string, rest: string)
    ensures open + body + newLine + close + rest == open + (body + (newLine + (close + rest)))
  {}

  lemma PrintedArrayText(items: seq<Json>, style: Style, d: nat, rest: string)
    requires items != []
    ensures Print(Arr(items), style, d) + rest ==
            "[" + (PrintItems(items, style, d + 1) + (NewLine(style, d) + ("]" + rest)))
  {
    BracketSplit("[", PrintItems(items, style, d + 1), NewLine(style, d), "]", rest);
  }

  lemma PrintedObjectText(members: seq<Member>, style: Style, d: nat, rest: string)
    requires members != []
    ensures Print(Obj(members), style, d) + rest ==
            "{" + (PrintMembers(members, style, d + 1) + (NewLine(style, d) + ("}" + rest)))
  {
    BracketSplit("{", PrintMembers(members, style, d + 1), NewLine(style, d), "}", rest);
  }

  lemma BodyStart(items: seq<Json>, style: Style, d: nat, close: string)
    requires items != []
    ensures var t := SkipSpace(PrintItems(items, style, d) + close); t != [] && t[0] != ']'
  {
    var tail := ItemsTail(items, style, d) + close;
    PrintStart(items[0], style, d);
    PrintItemsSplit(items, style, d, close);
    SkipNewLine(style, d, Print(items[0], style, d) + tail);
    assert (Print(items[0], style, d) + tail)[0] == Print(items[0], style, d)[0];
  }

  lemma MembersBodyStart(members: seq<Member>, style: Style, d: nat, close: string)
    requires members != []
    ensures var t := SkipSpace(PrintMembers(members, style, d) + close); t != [] && t[0] != '}'
  {
    PrintMembersSplit(members, style, d, close);
    QuotedKey(style, d, members[0].key, Colon(style) +
      (Print(members[0].value, style, d) + (MembersTail(members, style, d) + close)));
  }

  lemma {:induction false} ParsePrintedArray(items: seq<Json>, style: Style, d: nat, rest: string)
    requires items != []
    ensures ParseValue(Print(Arr(items), style, d) + rest) == Some((Arr(items), rest))
    decreases items, 1
  {
    var close := NewLine(style, d) + ("]" + rest);
    var body := PrintItems(items, style, d + 1) + close;
    SkipClose(style, d, close, ']', rest);
    ParsePrintedItems(items, style, d + 1, close, rest);
    BodyStart(items, style, d + 1, close);
    PrintedArrayText(items, style, d, rest);
    ArrayStep("[" + body, body, items, rest);
  }

  lemma {:induction false} ParsePrintedObject(members: seq<Member>, style: Style, d: nat, rest: string)
    requires members != []
    ensures ParseValue(Print(Obj(members), style, d) + rest) == Some((Obj(members), rest))
    decreases members, 1
  {
    var close := NewLine(style, d) + ("}" + rest);
    var body := PrintMembers(members, style, d + 1) + close;
    SkipClose(style, d, close, '}', rest);
    ParsePrintedMembers(members, style, d + 1, close, rest);
    MembersBodyStart(members, style, d + 1, close);
    PrintedObjectText(members, style, d, rest);
    ObjectStep("{" + body, body, members, rest);
  }

  lemma ParseEmpty(rest: string)
    ensures ParseValue("[]" + rest) == Some((Arr([]), rest))
    ensures ParseValue("{}" + rest) == Some((Obj([]), rest))
  {
    assert ("[]" + rest)[1..] == "]" + rest && ("]" + rest)[1..] == rest;
    assert ("{}" + rest)[1..] == "}" + rest && ("}" + rest)[1..] == rest;
  }

  lemma ParseLiteral(word: string, rest: string)
    ensures word <= word + rest && (word + rest)[|word|..] == rest
  {}

  /** A printed value followed by anything that ends a value parses to that value and the rest. */
  lemma {:induction false} ParsePrinted(j: Json, style: Style, d: nat, rest: string)
    requires Delimited(rest)
    ensures ParseValue(Print(j, style, d) + rest) == Some((j, rest))
    decreases j, 1
  {
    match j
    case Null => ParseLiteral("null", rest);
    case Bool(b) => ParseLiteral(if b then "true" else "false", rest);
    case Num(n) => ParsePrintedNum(n, rest);
    case Str(str) => ParseQuoted(str, rest);
    case Arr(items) => if items == [] { ParseEmpty(rest); } else { ParsePrintedArray(items, style, d, rest); }
    case Obj(members) => if members == [] { ParseEmpty(rest); } else { ParsePrintedObject(members, style, d, rest); }
  }

  lemma ParsePrintedNum(n: JsonInt, rest: string)
    requires Delimited(rest)
    ensures ParseValue(PrintInt(n) + rest) == Some((Num(n), rest))
  {
    ParsePrintedInt(n, rest);
    IntStart(n);
    NumberStep(PrintInt(n) + rest, PrintInt(n)[0]);
  }

  lemma IntStart(n: JsonInt)
    ensures PrintInt(n) != [] && (PrintInt(n)[0] == '-' || IsDigit(PrintInt(n)[0]))
  {}

  lemma NumberStep(s: string, c: char)
    requires s != [] && s[0] == c && (c == '-' || IsDigit(c))
    ensures ParseValue(s) == ParseNumber(s)
  {
    assert SkipSpace(s) == s;
  }

  /** Whatever serde_json prints, in either style, serde_json parses back to the same tree. */
  lemma ParsePrint(j: Json, style: Style)
    ensures Parse(Print(j, style, 0)) == Some(j)
  {
    ParsePrinted(j, style, 0, []);
    assert Print(j, style, 0) + [] == Print(j, style, 0);
  }

  /** Printing loses nothing: equal texts come from equal trees. */
  lemma PrintInjective(a: Json, b: Json, style: Style)
    requires Print(a, style, 0) == Print(b, style, 0)
    ensures a == b
  {
    ParsePrint(a, style);
    ParsePrint(b, style);
  }
}
