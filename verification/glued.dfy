/** A document that was cut off, with a whole object after it on the same line, is no document. */
module Glued {
  import opened Wrappers
  import opened Sequences
  import opened Text
  import opened Json
  import opened JsonRoundTrip

  /** A whole object whose first key begins with a letter. */
  predicate Opens(q: string) {
    && |q| >= 3 && q[0] == '{' && q[1] == '"' && 'a' <= q[2] <= 'z'
    && ParseValue(q).Some? && ParseValue(q).value.1 == []
  }

  /** The parser gets no further than to the object, or into the first key of it. */
  predicate Stuck(rest: string, q: string)
    requires |q| >= 2
  {
    rest == q || rest == q[2..]
  }

  predicate Fails<T>(r: Option<(T, string)>, q: string)
    requires |q| >= 2
  {
    r.None? || Stuck(r.value.1, q)
  }

  /** From there nothing goes on. */
  lemma StuckStops(rest: string, q: string)
    requires Opens(q) && Stuck(rest, q)
    ensures rest != [] && SkipSpace(rest) == rest
    ensures rest[0] != ',' && rest[0] != ']' && rest[0] != '}' && rest[0] != ':'
  {}

  lemma Shift(x: string, y: string, n: nat)
    requires |x| <= n <= |x| + |y|
    ensures (x + y)[..n] == x + y[..n - |x|]
  {}

  lemma Within(x: string, y: string, n: nat)
    requires n <= |x|
    ensures (x + y)[..n] == x[..n]
  {}

  // --------------------------------------------------------------- strings

  lemma EscapeCut(c: char, n: nat, q: string)
    requires 0 < n < |EscapeChar(c)| && Opens(q)
    ensures ParseChars(EscapeChar(c)[..n] + q).None?
  {
    var e := EscapeChar(c);
    var s := e[..n] + q;
    assert s[0] == '\\' && s[1..] == e[1..n] + q;
    if n == 1 {
      assert s[1..] == q;
    } else {
      UnicodeCut(e, n, q, s[1..]);
    }
  }

  lemma UnicodeCut(e: string, n: nat, q: string, t: string)
    requires |e| == 6 && 1 < n < 6 && Opens(q) && t == e[1..n] + q && e[1] == 'u'
    ensures EscapeSequence(t).None?
  {
    var h := t[1..];
    assert h == e[2..n] + q;
    assert h[n - 2] == '{' && HexValue('{') == None;
    assert Hex4(h).None?;
  }

  lemma {:induction false} CharsCut(s: string, n: nat, q: string)
    requires n <= |Escape(s)| && Opens(q)
    ensures Fails(ParseChars(Escape(s)[..n] + q), q)
  {
    if n == 0 {
      IntoFirstKey(q);
      assert Escape(s)[..0] + q == q;
    } else {
      var e, rest := EscapeChar(s[0]), Escape(s[1..]);
      if n < |e| {
        EscapeCut(s[0], n, q);
        Within(e, rest, n);
      } else {
        CharsCut(s[1..], n - |e|, q);
        Shift(e, rest, n);
        Assoc(e, rest[..n - |e|], q);
        ParseEscapedChar(s[0], rest[..n - |e|] + q);
      }
    }
  }

  lemma IntoFirstKey(q: string)
    requires Opens(q)
    ensures ParseChars(q) == Some(("{", q[2..]))
  {
    assert q[1..][0] == '"' && q[1..][1..] == q[2..];
    assert ParseChars(q[1..]) == Some(([], q[2..]));
    assert [q[0]] + [] == "{";
  }

  lemma QuoteCut(s: string, n: nat, q: string)
    requires 0 < n < |Quote(s)| && Opens(q)
    ensures var t := Quote(s)[..n] + q; t[0] == '"' && Fails(ParseChars(t[1..]), q)
  {
    var t := Quote(s)[..n] + q;
    CharsCut(s, n - 1, q);
    assert t[1..] == Escape(s)[..n - 1] + q;
  }

  // --------------------------------------------------------------- numbers

  lemma DigitsCut(digits: string, q: string)
    requires AllDigits(digits) && Opens(q)
    ensures DigitRun(digits + q) == |digits| && (digits + q)[|digits|..] == q
  {
    DigitRunExact(digits, q);
  }

  lemma DigitsThenObject(digits: string, q: string)
    requires AllDigits(digits) && digits != [] && Opens(q)
    ensures Fails(ParseNumber(digits + q), q)
  {
    DigitsCut(digits, q);
    assert (digits + q)[0] == digits[0];
  }

  lemma MinusThenObject(digits: string, q: string)
    requires AllDigits(digits) && Opens(q)
    ensures Fails(ParseNumber("-" + (digits + q)), q)
  {
    DigitsCut(digits, q);
    assert ("-" + (digits + q))[1..] == digits + q;
  }

  lemma MinusCut(digits: string, k: nat, q: string)
    requires AllDigits(digits) && 0 < k <= |digits| && Opens(q)
    ensures Fails(ParseNumber(("-" + digits)[..k] + q), q)
  {
    Shift("-", digits, k);
    Assoc("-", digits[..k - 1], q);
    MinusThenObject(digits[..k - 1], q);
  }

  lemma NumberCut(n: JsonInt, k: nat, q: string)
    requires 0 < k < |PrintInt(n)| && Opens(q)
    ensures Fails(ParseNumber(PrintInt(n)[..k] + q), q)
  {
    if n < 0 {
      MinusCut(Decimal(-n), k, q);
    } else {
      DigitsThenObject(Decimal(n)[..k], q);
    }
  }

  lemma NumberValueCut(n: JsonInt, k: nat, q: string)
    requires 0 < k < |PrintInt(n)| && Opens(q)
    ensures Fails(ParseValue(PrintInt(n)[..k] + q), q)
  {
    NumberCut(n, k, q);
    IntStart(n);
    NumberStep(PrintInt(n)[..k] + q, PrintInt(n)[0]);
  }

  // -------------------------------------------------------------- literals

  lemma WordCut(word: string, n: nat, q: string)
    requires 0 < n < |word| && '{' !in word && Opens(q)
    ensures !(word <= word[..n] + q)
  {
    assert (word[..n] + q)[n] == '{';
    assert word[n] in word;
  }

  lemma LiteralCut(j: Json, n: nat, q: string)
    requires j.Null? || j.Bool?
    requires 0 < n < |Print(j, Compact, 0)| && Opens(q)
    ensures ParseValue(Print(j, Compact, 0)[..n] + q).None?
  {
    var word := Print(j, Compact, 0);
    WordCut(word, n, q);
    var s := word[..n] + q;
    assert s[0] == word[0] && SkipSpace(s) == s;
  }

  // ---------------------------------------------------------------- arrays

  lemma ItemsText(items: seq<Json>, d: nat)
    requires items != []
    ensures PrintItems(items, Compact, d) == Print(items[0], Compact, d) + ItemsTail(items, Compact, d)
  {
    assert "" + Print(items[0], Compact, d) == Print(items[0], Compact, d);
  }

  lemma ItemsFail(s: string, q: string)
    requires Opens(q) && (Fails(ParseValue(s), q) || (ParseValue(s).Some? && ParseValue(s).value.1 == []))
    ensures ParseItems(s).None?
  {
    if ParseValue(s).Some? && ParseValue(s).value.1 != [] { StuckStops(ParseValue(s).value.1, q); }
  }

  /** The rest of an item, cut off inside or right after it. */
  lemma FirstItemCut(j: Json, d: nat, n: nat, q: string)
    requires n <= |Print(j, Compact, d)| && Opens(q)
    requires 0 < n < |Print(j, Compact, d)| ==> Fails(ParseValue(Print(j, Compact, d)[..n] + q), q)
    ensures var r := ParseValue(Print(j, Compact, d)[..n] + q); Fails(r, q) || (r.Some? && r.value.1 == [])
  {
    var text := Print(j, Compact, d);
    if n == 0 {
      assert text[..0] + q == q;
    } else if n == |text| {
      ParsePrinted(j, Compact, d, q);
      assert text[..n] == text;
    }
  }

  lemma {:induction false} ItemsCut(items: seq<Json>, d: nat, n: nat, q: string)
    requires items != [] && n <= |PrintItems(items, Compact, d)| && Opens(q)
    ensures ParseItems(PrintItems(items, Compact, d)[..n] + q).None?
    decreases items, 0
  {
    var first, tail := Print(items[0], Compact, d), ItemsTail(items, Compact, d);
    ItemsText(items, d);
    if n <= |first| {
      if 0 < n < |first| { ValueCut(items[0], d, n, q); }
      FirstItemCut(items[0], d, n, q);
      Within(first, tail, n);
      ItemsFail(first[..n] + q, q);
    } else {
      var more := PrintItems(items[1..], Compact, d);
      ItemsCut(items[1..], d, n - |first| - 1, q);
      LaterItem(items[0], d, more[..n - |first| - 1] + q);
      CutInTail(first, more, n, q);
    }
  }

  /** Where the cut is in the items after the first comma. */
  lemma CutInTail(first: string, more: string, n: nat, q: string)
    requires |first| < n <= |first| + 1 + |more|
    ensures (first + ("," + more))[..n] + q == first + ("," + (more[..n - |first| - 1] + q))
  {
    Shift(first, "," + more, n);
    Shift(",", more, n - |first|);
    Assoc(first, "," + more[..n - |first| - 1], q);
    Assoc(",", more[..n - |first| - 1], q);
  }

  lemma LaterItem(j: Json, d: nat, rest: string)
    requires ParseItems(rest).None?
    ensures ParseItems(Print(j, Compact, d) + ("," + rest)).None?
  {
    ParsePrinted(j, Compact, d, "," + rest);
    assert SkipSpace("," + rest) == "," + rest && ("," + rest)[1..] == rest;
  }

  lemma ArrayFails(body: string)
    requires SkipSpace(body) != [] && SkipSpace(body)[0] != ']' && ParseItems(body).None?
    ensures ParseValue("[" + body).None?
  {
    assert ("[" + body)[1..] == body;
  }

  lemma {:induction false} ArrayCut(items: seq<Json>, d: nat, n: nat, q: string)
    requires 0 < n < |Print(Arr(items), Compact, d)| && Opens(q)
    ensures ParseValue(Print(Arr(items), Compact, d)[..n] + q).None?
    decreases items, 1
  {
    if items == [] {
      EmptyCut(q);
      assert "[]"[..1] == "[";
    } else {
      var body := PrintItems(items, Compact, d + 1);
      ItemsCut(items, d + 1, n - 1, q);
      StartOfItems(items, d + 1, n - 1, q);
      ArrayFails(body[..n - 1] + q);
      PrintedArrayText(items, Compact, d, "");
      CutBody("[", body, "]", n, q);
      assert Print(Arr(items), Compact, d) + "" == Print(Arr(items), Compact, d);
      assert body + ("" + ("]" + "")) == body + "]";
    }
  }

  lemma CutBody(open: string, body: string, close: string, n: nat, q: string)
    requires |open| == 1 && |close| == 1 && 0 < n < 2 + |body|
    ensures (open + (body + close))[..n] + q == open + (body[..n - 1] + q)
  {
    Shift(open, body + close, n);
    Within(body, close, n - 1);
    Assoc(open, body[..n - 1], q);
  }

  lemma StartOfItems(items: seq<Json>, d: nat, n: nat, q: string)
    requires items != [] && n <= |PrintItems(items, Compact, d)| && Opens(q)
    ensures var t := SkipSpace(PrintItems(items, Compact, d)[..n] + q); t != [] && t[0] != ']'
  {
    var text := PrintItems(items, Compact, d);
    PrintStart(items[0], Compact, d);
    ItemsText(items, d);
    if n == 0 { assert text[..n] + q == q; } else { assert (text[..n] + q)[0] == Print(items[0], Compact, d)[0]; }
  }

  lemma EmptyCut(q: string)
    requires Opens(q)
    ensures ParseValue("[" + q).None? && ParseValue("{" + q).None?
  {
    assert ("[" + q)[1..] == q && ("{" + q)[1..] == q;
    ItemsFail(q, q);
  }

  // --------------------------------------------------------------- objects

  lemma MembersText(members: seq<Member>, d: nat)
    requires members != []
    ensures PrintMembers(members, Compact, d) ==
            Quote(members[0].key) + (":" + (Print(members[0].value, Compact, d) + MembersTail(members, Compact, d)))
  {
    var k, v, t := Quote(members[0].key), Print(members[0].value, Compact, d), MembersTail(members, Compact, d);
    assert "" + k == k;
    Assoc(k + ":", v, t);
    Assoc(k, ":", v + t);
  }

  /** The key is cut off, or nothing but the key is there. */
  lemma KeyCut(key: string, n: nat, q: string)
    requires n <= |Quote(key)| && Opens(q)
    ensures ParseMembers(Quote(key)[..n] + q).None?
  {
    var s := Quote(key)[..n] + q;
    if n == 0 {
      assert s == q;
    } else {
      assert s[0] == '"' && SkipSpace(s) == s;
      if n < |Quote(key)| {
        QuoteCut(key, n, q);
      } else {
        assert Quote(key)[..n] == Quote(key);
        ParseQuoted(key, q);
      }
      if ParseChars(s[1..]).Some? { StuckStops(ParseChars(s[1..]).value.1, q); }
    }
  }

  /** What follows the colon fails or ends. */
  lemma MemberFails(key: string, value: string, q: string)
    requires Opens(q) && (Fails(ParseValue(value), q) || (ParseValue(value).Some? && ParseValue(value).value.1 == []))
    ensures ParseMembers(Quote(key) + (":" + value)).None?
  {
    KeyThenColon(key, value);
    if ParseValue(value).Some? && ParseValue(value).value.1 != [] { StuckStops(ParseValue(value).value.1, q); }
  }

  lemma KeyThenColon(key: string, value: string)
    ensures var s := Quote(key) + (":" + value);
            && s != [] && s[0] == '"' && SkipSpace(s) == s
            && ParseChars(s[1..]) == Some((key, ":" + value))
            && SkipSpace(":" + value) == ":" + value && (":" + value)[1..] == value
  {
    ParseQuoted(key, ":" + value);
  }

  lemma LaterMember(key: string, j: Json, d: nat, rest: string)
    requires ParseMembers(rest).None?
    ensures ParseMembers(Quote(key) + (":" + (Print(j, Compact, d) + ("," + rest)))).None?
  {
    KeyThenColon(key, Print(j, Compact, d) + ("," + rest));
    ParsePrinted(j, Compact, d, "," + rest);
    assert SkipSpace("," + rest) == "," + rest && ("," + rest)[1..] == rest;
  }

  /** The value is cut off, or it is all there and nothing else. */
  lemma MemberValueCut(m: Member, d: nat, n: nat, tail: string, q: string)
    requires n <= |Print(m.value, Compact, d)| && Opens(q)
    requires 0 < n < |Print(m.value, Compact, d)| ==> Fails(ParseValue(Print(m.value, Compact, d)[..n] + q), q)
    ensures ParseMembers(Quote(m.key) + (":" + ((Print(m.value, Compact, d) + tail)[..n] + q))).None?
  {
    FirstItemCut(m.value, d, n, q);
    Within(Print(m.value, Compact, d), tail, n);
    MemberFails(m.key, Print(m.value, Compact, d)[..n] + q, q);
  }

  /** The cut is in a later member. */
  lemma LaterMemberCut(m: Member, d: nat, more: string, n: nat, q: string)
    requires |Print(m.value, Compact, d)| < n <= |Print(m.value, Compact, d) + ("," + more)|
    requires ParseMembers(more[..n - |Print(m.value, Compact, d)| - 1] + q).None?
    ensures ParseMembers(Quote(m.key) + (":" + ((Print(m.value, Compact, d) + ("," + more))[..n] + q))).None?
  {
    var v := Print(m.value, Compact, d);
    LaterMember(m.key, m.value, d, more[..n - |v| - 1] + q);
    CutInTail(v, more, n, q);
  }

  lemma {:induction false} MembersCut(members: seq<Member>, d: nat, n: nat, q: string)
    requires members != [] && n <= |PrintMembers(members, Compact, d)| && Opens(q)
    ensures ParseMembers(PrintMembers(members, Compact, d)[..n] + q).None?
    decreases members, 0
  {
    var m, k := members[0], Quote(members[0].key);
    var rest := Print(m.value, Compact, d) + MembersTail(members, Compact, d);
    MembersText(members, d);
    if n <= |k| {
      KeyCut(m.key, n, q);
      Within(k, ":" + rest, n);
    } else {
      AfterColonCut(members, d, n - |k| - 1, q);
      CutInTailOf(k, ":", rest, n, q);
    }
  }

  lemma {:induction false} AfterColonCut(members: seq<Member>, d: nat, n: nat, q: string)
    requires members != [] && Opens(q)
    requires n <= |Print(members[0].value, Compact, d) + MembersTail(members, Compact, d)|
    ensures var rest := Print(members[0].value, Compact, d) + MembersTail(members, Compact, d);
            ParseMembers(Quote(members[0].key) + (":" + (rest[..n] + q))).None?
    decreases members, -1
  {
    var m, v := members[0], Print(members[0].value, Compact, d);
    if n <= |v| {
      if 0 < n < |v| { ValueCut(m.value, d, n, q); }
      MemberValueCut(m, d, n, MembersTail(members, Compact, d), q);
    } else {
      MembersCut(members[1..], d, n - |v| - 1, q);
      LaterMemberCut(m, d, PrintMembers(members[1..], Compact, d), n, q);
    }
  }

  lemma CutInTailOf(first: string, sep: string, more: string, n: nat, q: string)
    requires |sep| == 1 && |first| < n <= |first| + 1 + |more|
    ensures (first + (sep + more))[..n] + q == first + (sep + (more[..n - |first| - 1] + q))
  {
    Shift(first, sep + more, n);
    Shift(sep, more, n - |first|);
    Assoc(first, sep + more[..n - |first| - 1], q);
    Assoc(sep, more[..n - |first| - 1], q);
  }

  lemma ObjectFails(body: string)
    requires SkipSpace(body) != [] && SkipSpace(body)[0] != '}' && ParseMembers(body).None?
    ensures ParseValue("{" + body).None?
  {
    assert ("{" + body)[1..] == body;
  }

  lemma StartOfMembers(members: seq<Member>, d: nat, n: nat, q: string)
    requires members != [] && n <= |PrintMembers(members, Compact, d)| && Opens(q)
    ensures var t := SkipSpace(PrintMembers(members, Compact, d)[..n] + q); t != [] && t[0] != '}'
  {
    var text := PrintMembers(members, Compact, d);
    MembersText(members, d);
    if n == 0 { assert text[..n] + q == q; } else { assert (text[..n] + q)[0] == '"'; }
  }

  lemma {:induction false} ObjectCut(members: seq<Member>, d: nat, n: nat, q: string)
    requires 0 < n < |Print(Obj(members), Compact, d)| && Opens(q)
    ensures ParseValue(Print(Obj(members), Compact, d)[..n] + q).None?
    decreases members, 1
  {
    if members == [] {
      EmptyCut(q);
      assert "{}"[..1] == "{";
    } else {
      var body := PrintMembers(members, Compact, d + 1);
      MembersCut(members, d + 1, n - 1, q);
      StartOfMembers(members, d + 1, n - 1, q);
      ObjectFails(body[..n - 1] + q);
      PrintedObjectText(members, Compact, d, "");
      CutBody("{", body, "}", n, q);
      assert Print(Obj(members), Compact, d) + "" == Print(Obj(members), Compact, d);
      assert body + ("" + ("}" + "")) == body + "}";
    }
  }

  /** A value that is cut off anywhere: the parser fails, or it stops at what follows. */
  lemma {:induction false} ValueCut(j: Json, d: nat, n: nat, q: string)
    requires 0 < n < |Print(j, Compact, d)| && Opens(q)
    ensures Fails(ParseValue(Print(j, Compact, d)[..n] + q), q)
    decreases j, 1
  {
    match j
    case Null => LiteralCut(j, n, q);
    case Bool(_) => LiteralCut(j, n, q);
    case Num(k) => NumberValueCut(k, n, q);
    case Str(s) => StringValueCut(s, n, q);
    case Arr(items) => ArrayCut(items, d, n, q);
    case Obj(members) => ObjectCut(members, d, n, q);
  }

  lemma StringValueCut(s: string, n: nat, q: string)
    requires 0 < n < |Quote(s)| && Opens(q)
    ensures Fails(ParseValue(Quote(s)[..n] + q), q)
  {
    QuoteCut(s, n, q);
    var t := Quote(s)[..n] + q;
    assert SkipSpace(t) == t;
  }

  // ------------------------------------------------------------- main results

  /** A printed object, cut off anywhere or not at all, with a whole object after it, is no document. */
  lemma GluedText(members: seq<Member>, n: nat, q: string)
    requires 0 < n <= |Print(Obj(members), Compact, 0)| && Opens(q)
    ensures Parse(Print(Obj(members), Compact, 0)[..n] + q) == None
  {
    var whole := Print(Obj(members), Compact, 0);
    if n < |whole| {
      ObjectCut(members, 0, n, q);
    } else {
      assert whole[..n] == whole;
      ParsePrinted(Obj(members), Compact, 0, q);
      assert SkipSpace(q) == q;
    }
  }

  lemma KeyStarts(key: string, rest: string)
    requires key != "" && 'a' <= key[0] <= 'z'
    ensures var q := "{" + (Quote(key) + rest); |q| >= 3 && q[0] == '{' && q[1] == '"' && q[2] == key[0]
  {
    assert Escape(key)[0] == EscapeChar(key[0])[0] == key[0];
    assert Quote(key)[1] == Escape(key)[0];
  }

  lemma ParsesWhole(j: Json)
    ensures ParseValue(Print(j, Compact, 0)) == Some((j, ""))
  {
    ParsePrinted(j, Compact, 0, "");
    assert Print(j, Compact, 0) + "" == Print(j, Compact, 0);
  }

  lemma ObjectStarts(members: seq<Member>) returns (rest: string)
    requires members != []
    ensures Print(Obj(members), Compact, 0) == "{" + (Quote(members[0].key) + rest)
  {
    var k, v, t := Quote(members[0].key), Print(members[0].value, Compact, 1), MembersTail(members, Compact, 1);
    MembersText(members, 1);
    PrintedObjectText(members, Compact, 0, "");
    rest := ":" + (v + t) + ("" + ("}" + ""));
    Assoc(k, ":" + (v + t), "" + ("}" + ""));
    assert Print(Obj(members), Compact, 0) + "" == Print(Obj(members), Compact, 0);
  }

  /** A printed object whose first key begins with a letter. */
  lemma FirstKeyOpens(members: seq<Member>)
    requires members != [] && members[0].key != "" && 'a' <= members[0].key[0] <= 'z'
    ensures Opens(ToText(Obj(members)))
  {
    var rest := ObjectStarts(members);
    KeyStarts(members[0].key, rest);
    ParsesWhole(Obj(members));
  }

  lemma CharCut(c: char, n: nat, b: bytes)
    requires 0 < n < |EncodeChar(c)| && b != [] && b[0] < 0x80
    ensures DecodeChar(EncodeChar(c)[..n] + b) == None
  {}

  /** The bytes either are not valid or encode a part of the first text and the whole second one. */
  lemma {:induction false} GluedEncoding(s: string, n: nat, q: string) returns (k: nat)
    requires n <= |Encode(s)| && Opens(q)
    ensures k <= |s| && (n > 0 ==> k > 0 || Decode(Encode(s)[..n] + Encode(q)).None?)
    ensures var t := Decode(Encode(s)[..n] + Encode(q)); t == None || t == Some(s[..k] + q)
  {
    var b := Encode(q);
    if n == 0 {
      k := 0;
      assert Encode(s)[..0] + b == b && s[..0] + q == q;
      DecodeEncode(q);
    } else {
      var e, rest := EncodeChar(s[0]), Encode(s[1..]);
      if n < |e| {
        k := 0;
        AsciiStart(q);
        CharCut(s[0], n, b);
        assert (e + rest)[..n] == e[..n];
      } else {
        var i := GluedEncoding(s[1..], n - |e|, q);
        k := i + 1;
        assert (e + rest)[..n] == e + rest[..n - |e|];
        Assoc(e, rest[..n - |e|], b);
        DecodeFirst(s[0], rest[..n - |e|] + b);
        assert [s[0]] + (s[1..][..i] + q) == s[..k] + q;
      }
    }
  }

  lemma AsciiStart(q: string)
    requires Opens(q)
    ensures Encode(q) != [] && Encode(q)[0] < 0x80
  {
    assert EncodeChar('{') == [0x7B];
  }

  lemma DecodeFirst(c: char, b: bytes)
    ensures Decode(EncodeChar(c) + b) == match Decode(b) case Some(t) => Some([c] + t) case None => None
  {
    DecodeEncodeChar(c, b);
    assert (EncodeChar(c) + b)[|EncodeChar(c)|..] == b;
  }
}
