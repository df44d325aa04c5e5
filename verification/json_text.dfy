/** What compact text looks like: no character more than the tree needs, and only the escapes that are required. */
module JsonText {
  import opened Wrappers
  import opened Text
  import opened Json
  import JsonRoundTrip

  /** The characters that cannot stand for themselves in a string. */
  predicate MustEscape(c: char) {
    c == '"' || c == '\\' || c < ' '
  }

  /** Those that have an escape of two characters. */
  predicate HasShort(c: char) {
    c in {'"', '\\', '\U{0008}', '\t', '\n', '\U{000C}', '\r'}
  }

  predicate IsLowerHex(c: char) {
    '0' <= c <= '9' || 'a' <= c <= 'f'
  }

  /**
   * A character stands for itself unless it must not. An escape is as short as there is one, is written in lower case,
   * and reads back as the character.
   */
  lemma EscapedExactly(c: char, rest: string)
    requires ParseChars(rest).Some?
    ensures EscapeChar(c) == [c] <==> !MustEscape(c)
    ensures |EscapeChar(c)| == if !MustEscape(c) then 1 else if HasShort(c) then 2 else 6
    ensures |EscapeChar(c)| == 6 ==> forall i | 2 <= i < 6 :: IsLowerHex(EscapeChar(c)[i])
    ensures ParseChars(EscapeChar(c) + rest) == Some(([c] + ParseChars(rest).value.0, ParseChars(rest).value.1))
  {
    EscapeSizes(c);
    if |EscapeChar(c)| == 6 { EscapeDigits(c); }
    JsonRoundTrip.ParseEscapedChar(c, rest);
  }

  lemma EscapeSizes(c: char)
    ensures EscapeChar(c) == [c] <==> !MustEscape(c)
    ensures |EscapeChar(c)| == if !MustEscape(c) then 1 else if HasShort(c) then 2 else 6
  {}

  lemma EscapeDigits(c: char)
    requires |EscapeChar(c)| == 6
    ensures forall i | 2 <= i < 6 :: IsLowerHex(EscapeChar(c)[i])
  {
    HexIsLower(c as int / 16);
    HexIsLower(c as int % 16);
  }

  lemma HexIsLower(d: int)
    requires 0 <= d < 16
    ensures IsLowerHex(HexDigit(d))
  {}

  // ----------------------------------------------------------------- lengths

  function CharSize(c: char): nat {
    if !MustEscape(c) then 1 else if HasShort(c) then 2 else 6
  }

  function TextSize(s: string): nat {
    if s == [] then 0 else CharSize(s[0]) + TextSize(s[1..])
  }

  function Digits(n: nat): nat {
    if n < 10 then 1 else 1 + Digits(n / 10)
  }

  /** The characters of a tree: its words, digits, quotes, brackets, colons and commas. */
  function Size(j: Json): nat
    decreases j, 1
  {
    match j
    case Null => 4
    case Bool(b) => if b then 4 else 5
    case Num(n) => if n < 0 then 1 + Digits(-n) else Digits(n)
    case Str(s) => 2 + TextSize(s)
    case Arr(items) => 2 + ItemsSize(items)
    case Obj(members) => 2 + MembersSize(members)
  }

  function ItemsSize(items: seq<Json>): nat
    decreases items, 0
  {
    if items == [] then 0 else Size(items[0]) + (if |items| == 1 then 0 else 1) + ItemsSize(items[1..])
  }

  function MembersSize(members: seq<Member>): nat
    decreases members, 0
  {
    if members == [] then 0
    else
      2 + TextSize(members[0].key) + 1 + Size(members[0].value) + (if |members| == 1 then 0 else 1) +
      MembersSize(members[1..])
  }

  lemma {:induction false} EscapeSize(s: string)
    ensures |Escape(s)| == TextSize(s)
  {
    if s != [] { EscapeSize(s[1..]); }
  }

  lemma {:induction false} DecimalSize(n: nat)
    ensures |Decimal(n)| == Digits(n)
  {
    if n >= 10 { DecimalSize(n / 10); }
  }

  /** Compact text has exactly the characters that the tree needs, so there is no white space outside its strings. */
  lemma {:induction false} CompactSize(j: Json, d: nat)
    ensures |Print(j, Compact, d)| == Size(j)
    decreases j, 1
  {
    match j
    case Num(n) => DecimalSize(if n < 0 then -n else n);
    case Str(s) => EscapeSize(s);
    case Arr(items) => if items != [] { CompactItems(items, d + 1); }
    case Obj(members) => if members != [] { CompactMembers(members, d + 1); }
    case _ =>
  }

  lemma {:induction false} CompactItems(items: seq<Json>, d: nat)
    requires items != []
    ensures |PrintItems(items, Compact, d)| == ItemsSize(items)
    decreases items, 0
  {
    CompactSize(items[0], d);
    if |items| > 1 { CompactItems(items[1..], d); }
  }

  lemma {:induction false} CompactMembers(members: seq<Member>, d: nat)
    requires members != []
    ensures |PrintMembers(members, Compact, d)| == MembersSize(members)
    decreases members, 0
  {
    EscapeSize(members[0].key);
    CompactSize(members[0].value, d);
    if |members| > 1 { CompactMembers(members[1..], d); }
  }
}
