/** JSON values, the two serde_json printers (compact and pretty) and the parser. */
module Json {
  import opened Wrappers
  import opened Text

  /** The integers that serde_json keeps as integers: i64 and u64 together. */
  type JsonInt = n: int | -0x8000_0000_0000_0000 <= n <= 0xFFFF_FFFF_FFFF_FFFF

  /** Members are listed in the order in which the map iterates over them. */
  datatype Json =
    | Null
    | Bool(b: bool)
    | Num(n: JsonInt)
    | Str(s: string)
    | Arr(items: seq<Json>)
    | Obj(members: seq<Member>)

  datatype Member = Member(key: string, value: Json)

  // ------------------------------------------------------------- printing

  function EscapeChar(c: char): string {
    if c == '"' then "\\\""
    else if c == '\\' then "\\\\"
    else if c == '\U{0008}' then "\\b"
    else if c == '\U{000C}' then "\\f"
    else if c == '\n' then "\\n"
    else if c == '\r' then "\\r"
    else if c == '\t' then "\\t"
    else if c < ' ' then "\\u00" + [HexDigit(c as int / 16), HexDigit(c as int % 16)]
    else [c]
  }

  function Escape(s: string): string {
    if s == [] then [] else EscapeChar(s[0]) + Escape(s[1..])
  }

  function Quote(s: string): string {
    "\"" + Escape(s) + "\""
  }

  function PrintInt(n: JsonInt): string {
    if n < 0 then "-" + Decimal(-n) else Decimal(n)
  }

  datatype Style = Compact | Pretty

  function Spaces(n: nat): string {
    seq(n, _ => ' ')
  }

  /** What separates tokens at nesting depth `d`: nothing, or a new line with two blanks a level. */
  function NewLine(style: Style, d: nat): string {
    if style.Compact? then "" else "\n" + Spaces(2 * d)
  }

  function Colon(style: Style): string {
    if style.Compact? then ":" else ": "
  }

  function Print(j: Json, style: Style, d: nat): string
    decreases j, 1
  {
    match j
    case Null => "null"
    case Bool(b) => if b then "true" else "false"
    case Num(n) => PrintInt(n)
    case Str(s) => Quote(s)
    case Arr(items) =>
      if items == [] then "[]" else "[" + PrintItems(items, style, d + 1) + NewLine(style, d) + "]"
    case Obj(members) =>
      if members == [] then "{}" else "{" + PrintMembers(members, style, d + 1) + NewLine(style, d) + "}"
  }

  function PrintItems(items: seq<Json>, style: Style, d: nat): string
    requires items != []
    decreases items, 0
  {
    NewLine(style, d) + Print(items[0], style, d) +
    (if |items| == 1 then "" else "," + PrintItems(items[1..], style, d))
  }

  function PrintMembers(members: seq<Member>, style: Style, d: nat): string
    requires members != []
    decreases members, 0
  {
    NewLine(style, d) + Quote(members[0].key) + Colon(style) + Print(members[0].value, style, d) +
    (if |members| == 1 then "" else "," + PrintMembers(members[1..], style, d))
  }

  function ToText(j: Json): string {
    Print(j, Compact, 0)
  }

  function ToPrettyText(j: Json): string {
    Print(j, Pretty, 0)
  }

  // -------------------------------------------------------------- parsing

  predicate IsSpace(c: char) {
    c == ' ' || c == '\n' || c == '\r' || c == '\t'
  }

  function SkipSpace(s: string): (r: string)
    ensures |r| <= |s| && (r == [] || !IsSpace(r[0]))
  {
    if s != [] && IsSpace(s[0]) then SkipSpace(s[1..]) else s
  }

  /** The four hexadecimal digits at the head of `s`. */
  function Hex4(s: string): (r: Option<int>)
    ensures r.Some? ==> |s| >= 4 && 0 <= r.value < 0x1_0000
  {
    if |s| < 4 then None
    else
      var a :- HexValue(s[0]);
      var b :- HexValue(s[1]);
      var c :- HexValue(s[2]);
      var d :- HexValue(s[3]);
      Some(((a * 16 + b) * 16 + c) * 16 + d)
  }

  /** The scalar written by a `\u` escape whose digits start at `s`; lone surrogates are errors. */
  function UnicodeEscape(s: string): (r: Option<(char, string)>)
    ensures r.Some? ==> |r.value.1| < |s|
  {
    var h :- Hex4(s);
    if 0xDC00 <= h < 0xE000 then None
    else if 0xD800 <= h < 0xDC00 then
      if |s| < 6 || s[4] != '\\' || s[5] != 'u' then None
      else
        var l :- Hex4(s[6..]);
        if !(0xDC00 <= l < 0xE000) then None
        else Some(((0x1_0000 + (h - 0xD800) * 0x400 + (l - 0xDC00)) as char, s[10..]))
    else Some((h as char, s[4..]))
  }

  /** The scalar written by the escape whose backslash was just read. */
  function EscapeSequence(s: string): (r: Option<(char, string)>)
    ensures r.Some? ==> |r.value.1| < |s|
  {
    if s == [] then None
    else if s[0] == 'u' then UnicodeEscape(s[1..])
    else
      var c :- SimpleEscape(s[0]);
      Some((c, s[1..]))
  }

  function SimpleEscape(c: char): Option<char> {
    match c
    case '"' => Some('"')
    case '\\' => Some('\\')
    case '/' => Some('/')
    case 'b' => Some('\U{0008}')
    case 'f' => Some('\U{000C}')
    case 'n' => Some('\n')
    case 'r' => Some('\r')
    case 't' => Some('\t')
    case _ => None
  }

  /** A string body up to and including its closing quote. */
  function ParseChars(s: string): (r: Option<(string, string)>)
    ensures r.Some? ==> |r.value.1| < |s|
  {
    if s == [] || s[0] < ' ' then None
    else if s[0] == '"' then Some(([], s[1..]))
    else if s[0] == '\\' then
      var (c, rest) :- EscapeSequence(s[1..]);
      var (tail, end) :- ParseChars(rest);
      Some(([c] + tail, end))
    else
      var (tail, end) :- ParseChars(s[1..]);
      Some(([s[0]] + tail, end))
  }

  /** How many digits `s` starts with. */
  function DigitRun(s: string): (n: nat)
    ensures n <= |s| && AllDigits(s[..n]) && (n < |s| ==> !IsDigit(s[n]))
  {
    if s == [] || !IsDigit(s[0]) then 0
    else
      var n := 1 + DigitRun(s[1..]);
      assert s[..n] == [s[0]] + s[1..][..n - 1];
      n
  }

  /** An integer; numbers that serde_json would keep as floats are outside this model. */
  function ParseNumber(s: string): (r: Option<(Json, string)>)
    ensures r.Some? ==> |r.value.1| < |s|
  {
    var negative := s != [] && s[0] == '-';
    var t := if negative then s[1..] else s;
    var n := DigitRun(t);
    if n == 0 || (t[0] == '0' && n > 1) then None
    else if n < |t| && (t[n] == '.' || t[n] == 'e' || t[n] == 'E') then None
    else
      var magnitude: int := DigitsValue(t[..n]);
      var v := if negative then -magnitude else magnitude;
      if (negative && v == 0) || v < -0x8000_0000_0000_0000 || v > 0xFFFF_FFFF_FFFF_FFFF then None
      else Some((Num(v), t[n..]))
  }

  function Literal(s: string, word: string, j: Json): (r: Option<(Json, string)>)
    requires word != []
    ensures r.Some? ==> |r.value.1| < |s|
  {
    if word <= s then Some((j, s[|word|..])) else None
  }

  function ParseValue(s: string): (r: Option<(Json, string)>)
    ensures r.Some? ==> |r.value.1| < |s|
    decreases |s|, 0
  {
    var t := SkipSpace(s);
    if t == [] then None
    else match t[0]
      case '"' =>
        var (str, rest) :- ParseChars(t[1..]);
        Some((Str(str), rest))
      case '[' =>
        var u := SkipSpace(t[1..]);
        if u != [] && u[0] == ']' then Some((Arr([]), u[1..]))
        else
          var (items, rest) :- ParseItems(t[1..]);
          Some((Arr(items), rest))
      case '{' =>
        var u := SkipSpace(t[1..]);
        if u != [] && u[0] == '}' then Some((Obj([]), u[1..]))
        else
          var (members, rest) :- ParseMembers(t[1..]);
          Some((Obj(members), rest))
      case 'n' => Literal(t, "null", Null)
      case 't' => Literal(t, "true", Bool(true))
      case 'f' => Literal(t, "false", Bool(false))
      case _ => ParseNumber(t)
  }

  /** One or more items, with the bracket that closes them. */
  function ParseItems(s: string): (r: Option<(seq<Json>, string)>)
    ensures r.Some? ==> |r.value.1| < |s|
    decreases |s|, 1
  {
    var (v, rest) :- ParseValue(s);
    var t := SkipSpace(rest);
    if t == [] then None
    else if t[0] == ']' then Some(([v], t[1..]))
    else if t[0] == ',' then
      var (vs, end) :- ParseItems(t[1..]);
      Some(([v] + vs, end))
    else None
  }

  /** One or more members, with the brace that closes them. */
  function ParseMembers(s: string): (r: Option<(seq<Member>, string)>)
    ensures r.Some? ==> |r.value.1| < |s|
    decreases |s|, 1
  {
    var t := SkipSpace(s);
    if t == [] || t[0] != '"' then None
    else
      var (key, afterKey) :- ParseChars(t[1..]);
      var u := SkipSpace(afterKey);
      if u == [] || u[0] != ':' then None
      else
        var (v, rest) :- ParseValue(u[1..]);
        var w := SkipSpace(rest);
        if w == [] then None
        else if w[0] == '}' then Some(([Member(key, v)], w[1..]))
        else if w[0] == ',' then
          var (ms, end) :- ParseMembers(w[1..]);
          Some(([Member(key, v)] + ms, end))
        else None
  }

  /**
   * The syntax tree of a whole document: nothing but white space may follow the value.
   * Repeated keys are still in it; what they mean depends on the reader.
   */
  function Parse(s: string): Option<Json> {
    var (j, rest) :- ParseValue(s);
    if SkipSpace(rest) == [] then Some(j) else None
  }
}
