/** Strings, their order, their UTF-8 encoding and decimal numerals. */
module Text {
  import opened Wrappers

  type byte = b: int | 0 <= b < 256
  type bytes = seq<byte>

  // ---------------------------------------------------------------- order

  /** Lexicographic order by Unicode scalar value. */
  predicate Less(a: string, b: string) {
    b != [] && (a == [] || a[0] < b[0] || (a[0] == b[0] && Less(a[1..], b[1..])))
  }

  lemma LessIrreflexive(a: string)
    ensures !Less(a, a)
  {
    if a != [] { LessIrreflexive(a[1..]); }
  }

  lemma {:induction false} LessTransitive(a: string, b: string, c: string)
    requires Less(a, b) && Less(b, c)
    ensures Less(a, c)
  {
    if a != [] && a[0] == b[0] && b[0] == c[0] {
      LessTransitive(a[1..], b[1..], c[1..]);
    }
  }

  lemma {:induction false} LessTotal(a: string, b: string)
    ensures Less(a, b) || a == b || Less(b, a)
  {
    if a != [] && b != [] && a[0] == b[0] {
      LessTotal(a[1..], b[1..]);
      assert a == [a[0]] + a[1..] && b == [b[0]] + b[1..];
    }
  }

  lemma LessAsymmetric(a: string, b: string)
    requires Less(a, b)
    ensures !Less(b, a)
  {
    if Less(b, a) {
      LessTransitive(a, b, a);
      LessIrreflexive(a);
    }
  }

  // ---------------------------------------------------------------- UTF-8

  function EncodeChar(c: char): (r: bytes)
    ensures 1 <= |r| <= 4
  {
    var n := c as int;
    var n1 := n / 0x40;
    var n2 := n1 / 0x40;
    if n < 0x80 then [n]
    else if n < 0x800 then [0xC0 + n1, 0x80 + n % 0x40]
    else if n < 0x1_0000 then [0xE0 + n2, 0x80 + n1 % 0x40, 0x80 + n % 0x40]
    else [0xF0 + n2 / 0x40, 0x80 + n2 % 0x40, 0x80 + n1 % 0x40, 0x80 + n % 0x40]
  }

  function Encode(s: string): bytes {
    if s == [] then [] else EncodeChar(s[0]) + Encode(s[1..])
  }

  predicate ByteLess(a: bytes, b: bytes) {
    b != [] && (a == [] || a[0] < b[0] || (a[0] == b[0] && ByteLess(a[1..], b[1..])))
  }

  function Bits(b: byte, tag: int): int {
    b as int - tag
  }

  /** `high` followed by the six payload bits of a continuation byte. */
  function Extend(high: int, b: byte): int {
    0x40 * high + Bits(b, 0x80)
  }

  predicate Continuation(b: byte) {
    0x80 <= b < 0xC0
  }

  /** The first scalar of `b` with the number of bytes it takes; strict, as Rust strings require. */
  function DecodeChar(b: bytes): Option<(char, nat)>
    requires b != []
  {
    if b[0] < 0x80 then Some((b[0] as char, 1))
    else if 0xC2 <= b[0] < 0xE0 && |b| >= 2 && Continuation(b[1]) then
      Some((Extend(Bits(b[0], 0xC0), b[1]) as char, 2))
    else if 0xE0 <= b[0] < 0xF0 && |b| >= 3 && Continuation(b[1]) && Continuation(b[2]) then
      var n := Extend(Extend(Bits(b[0], 0xE0), b[1]), b[2]);
      if n < 0x800 || 0xD800 <= n < 0xE000 then None else Some((n as char, 3))
    else if 0xF0 <= b[0] < 0xF5 && |b| >= 4 && Continuation(b[1]) && Continuation(b[2]) && Continuation(b[3]) then
      var n := Extend(Extend(Extend(Bits(b[0], 0xF0), b[1]), b[2]), b[3]);
      if n < 0x1_0000 || 0x11_0000 <= n then None else Some((n as char, 4))
    else None
  }

  /** The text encoded by `b`, or None when `b` is not well-formed UTF-8. */
  function Decode(b: bytes): Option<string> {
    if b == [] then Some([])
    else
      var (c, n) :- DecodeChar(b);
      if n == 0 || n > |b| then None
      else
        var rest :- Decode(b[n..]);
        Some([c] + rest)
  }

  lemma DecodeEncodeChar(c: char, rest: bytes)
    ensures DecodeChar(EncodeChar(c) + rest) == Some((c, |EncodeChar(c)|))
  {
    var e := EncodeChar(c);
    var b := e + rest;
    assert b[..|e|] == e;
    assert forall i | 0 <= i < |e| :: b[i] == e[i];
  }

  /** Decoding undoes encoding, so encoding loses nothing. */
  lemma {:induction false} DecodeEncode(s: string)
    ensures Decode(Encode(s)) == Some(s)
  {
    if s != [] {
      var e := EncodeChar(s[0]);
      DecodeEncodeChar(s[0], Encode(s[1..]));
      assert (e + Encode(s[1..]))[|e|..] == Encode(s[1..]);
      DecodeEncode(s[1..]);
      assert s == [s[0]] + s[1..];
    }
  }

  lemma EncodeInjective(a: string, b: string)
    requires Encode(a) == Encode(b)
    ensures a == b
  {
    DecodeEncode(a);
    DecodeEncode(b);
  }

  lemma EncodeCharOrder(c: char, d: char, x: bytes, y: bytes)
    requires c < d
    ensures ByteLess(EncodeChar(c) + x, EncodeChar(d) + y)
  {
    var a, b := EncodeChar(c) + x, EncodeChar(d) + y;
    var i := FirstDifference(c, d);
    assert forall k | 0 <= k < |EncodeChar(c)| :: a[k] == EncodeChar(c)[k];
    assert forall k | 0 <= k < |EncodeChar(d)| :: b[k] == EncodeChar(d)[k];
    ByteLessAt(a, b, i);
  }

  lemma Split(n: nat, m: nat)
    requires n < m
    ensures n / 0x40 < m / 0x40 || (n / 0x40 == m / 0x40 && n % 0x40 < m % 0x40)
  {}

  lemma FirstDifference(c: char, d: char) returns (i: nat)
    requires c < d
    ensures i < |EncodeChar(c)| && i < |EncodeChar(d)|
    ensures EncodeChar(c)[i] < EncodeChar(d)[i]
    ensures forall k | 0 <= k < i :: EncodeChar(c)[k] == EncodeChar(d)[k]
  {
    var n, m := c as int, d as int;
    if m < 0x80 || |EncodeChar(c)| != |EncodeChar(d)| {
      i := 0;
    } else {
      var len := |EncodeChar(c)|;
      Split(n, m);
      if n / 0x40 == m / 0x40 {
        i := len - 1;
      } else if len == 2 {
        i := 0;
      } else {
        Split(n / 0x40, m / 0x40);
        if n / 0x40 / 0x40 == m / 0x40 / 0x40 {
          i := len - 2;
        } else if len == 3 {
          i := 0;
        } else {
          Split(n / 0x40 / 0x40, m / 0x40 / 0x40);
          i := if n / 0x40 / 0x40 / 0x40 == m / 0x40 / 0x40 / 0x40 then 1 else 0;
        }
      }
    }
  }

  lemma {:induction false} ByteLessAt(a: bytes, b: bytes, i: nat)
    requires i < |a| && i < |b| && a[i] < b[i]
    requires forall k | 0 <= k < i :: a[k] == b[k]
    ensures ByteLess(a, b)
  {
    if i > 0 { ByteLessAt(a[1..], b[1..], i - 1); }
  }

  lemma {:induction false} ByteLessPrefix(p: bytes, a: bytes, b: bytes)
    ensures ByteLess(p + a, p + b) == ByteLess(a, b)
  {
    if p == [] {
      assert p + a == a && p + b == b;
    } else {
      ByteLessPrefix(p[1..], a, b);
      assert (p + a)[1..] == p[1..] + a && (p + b)[1..] == p[1..] + b;
    }
  }

  /** The byte order in which Rust compares strings is the order of their scalar values. */
  lemma {:induction false} ByteOrderIsScalarOrder(a: string, b: string)
    ensures Less(a, b) <==> ByteLess(Encode(a), Encode(b))
  {
    if a == [] || b == [] {
    } else if a[0] == b[0] {
      ByteOrderIsScalarOrder(a[1..], b[1..]);
      ByteLessPrefix(EncodeChar(a[0]), Encode(a[1..]), Encode(b[1..]));
    } else if a[0] < b[0] {
      EncodeCharOrder(a[0], b[0], Encode(a[1..]), Encode(b[1..]));
    } else {
      EncodeCharOrder(b[0], a[0], Encode(b[1..]), Encode(a[1..]));
      ByteLessAsymmetric(Encode(b), Encode(a));
    }
  }

  lemma {:induction false} ByteLessAsymmetric(a: bytes, b: bytes)
    requires ByteLess(a, b)
    ensures !ByteLess(b, a)
  {
    if a != [] && a[0] == b[0] { ByteLessAsymmetric(a[1..], b[1..]); }
  }

  // ------------------------------------------------------------- decimals

  predicate IsDigit(c: char) {
    '0' <= c <= '9'
  }

  function DigitChar(d: int): (c: char)
    requires 0 <= d < 10
    ensures IsDigit(c) && c as int - '0' as int == d
  {
    ('0' as int + d) as char
  }

  function Decimal(n: nat): (s: string)
    ensures s != [] && forall i | 0 <= i < |s| :: IsDigit(s[i])
    ensures s[0] == '0' ==> n == 0 && s == "0"
    ensures DigitsValue(s) == n
  {
    if n < 10 then [DigitChar(n)]
    else
      var front := Decimal(n / 10);
      DigitsValueSnoc(front, DigitChar(n % 10));
      front + [DigitChar(n % 10)]
  }

  predicate AllDigits(s: string) {
    forall i | 0 <= i < |s| :: IsDigit(s[i])
  }

  /** The number a string of digits denotes. */
  function DigitsValue(s: string): nat
    requires AllDigits(s)
  {
    if s == [] then 0 else 10 * DigitsValue(s[..|s| - 1]) + (s[|s| - 1] as int - '0' as int)
  }

  lemma DigitsValueSnoc(s: string, c: char)
    requires AllDigits(s) && IsDigit(c)
    ensures AllDigits(s + [c]) && DigitsValue(s + [c]) == 10 * DigitsValue(s) + (c as int - '0' as int)
  {
    assert (s + [c])[..|s|] == s;
  }

  // --------------------------------------------------------- hexadecimals

  function HexDigit(d: int): char
    requires 0 <= d < 16
  {
    if d < 10 then ('0' as int + d) as char else ('a' as int + d - 10) as char
  }

  function HexValue(c: char): (r: Option<int>)
    ensures r.Some? ==> 0 <= r.value < 16
  {
    if '0' <= c <= '9' then Some(c as int - '0' as int)
    else if 'a' <= c <= 'f' then Some(c as int - 'a' as int + 10)
    else if 'A' <= c <= 'F' then Some(c as int - 'A' as int + 10)
    else None
  }
}
