/** HKDF as the crash reporter computes it, against sections 2.2 and 2.3 of RFC 5869. */
module Hkdf {
  import opened Text

  /** A hash function with its block and output lengths; nothing else is known about it. */
  datatype Hash = Hash(digest: bytes -> bytes, blockSize: nat, digestSize: nat)

  ghost predicate WellSized(h: Hash) {
    h.digestSize <= h.blockSize && forall x :: |h.digest(x)| == h.digestSize
  }

  // ------------------------------------------------------------------- HMAC

  function Zeros(n: nat): (r: bytes)
    ensures |r| == n && forall i | 0 <= i < n :: r[i] == 0
  {
    seq(n, _ => 0)
  }

  function Pad(key: bytes, blockSize: nat): bytes {
    if |key| < blockSize then key + Zeros(blockSize - |key|) else key
  }

  function Masked(block: bytes, mask: bv8): bytes {
    seq(|block|, i requires 0 <= i < |block| => ((block[i] as bv8) ^ mask) as byte)
  }

  /** HMAC, RFC 2104: long keys are hashed, short keys are padded with zeros. */
  function Hmac(h: Hash, key: bytes, message: bytes): bytes {
    var block := Pad(if |key| > h.blockSize then h.digest(key) else key, h.blockSize);
    h.digest(Masked(block, 0x5c) + h.digest(Masked(block, 0x36) + message))
  }

  // ---------------------------------------------------------------- extract

  /** `_hkdf_extract`. */
  function Extract(h: Hash, salt: bytes, ikm: bytes): bytes {
    Hmac(h, if salt == [] then Zeros(h.digestSize) else salt, ikm)
  }

  /** The default salt changes nothing: HMAC cannot tell it from an empty key. */
  lemma ExtractIsHmac(h: Hash, salt: bytes, ikm: bytes)
    requires WellSized(h)
    ensures Extract(h, salt, ikm) == Hmac(h, salt, ikm) && |Extract(h, salt, ikm)| == h.digestSize
  {
    assert Pad(Zeros(h.digestSize), h.blockSize) == Zeros(h.blockSize) == Pad([], h.blockSize);
  }

  // ----------------------------------------------------------------- expand

  type Prf = (bytes, bytes) -> bytes

  /** T(i) of section 2.3. */
  function T(prf: Prf, prk: bytes, info: bytes, i: nat): bytes
    requires i <= 255
  {
    if i == 0 then [] else prf(prk, T(prf, prk, info, i - 1) + info + [i])
  }

  /** T(1) | T(2) | ... | T(n). */
  function Blocks(prf: Prf, prk: bytes, info: bytes, n: nat): bytes
    requires n <= 255
  {
    if n == 0 then [] else Blocks(prf, prk, info, n - 1) + T(prf, prk, info, n)
  }

  function Ceiling(length: int, unit: nat): int
    requires unit > 0
  {
    (length + unit - 1) / unit
  }

  /** The octets that a PRK of this length can be expanded to. */
  function Limit(prk: bytes): nat {
    255 * |prk|
  }

  /** Python's `s[:n]`. */
  function TakeUpTo(s: bytes, n: int): bytes {
    if n >= |s| then s else if n >= 0 then s[..n] else if -n <= |s| then s[..|s| + n] else []
  }

  datatype Expanded = Okm(okm: bytes) | ZeroDivisionError | ValueError

  /** Section 2.3: the first `length` octets of the blocks. */
  function RfcOkm(prf: Prf, prk: bytes, info: bytes, length: nat): bytes
    requires 0 < |prk| && length <= Limit(prk)
  {
    CeilingBound(length, |prk|);
    TakeUpTo(Blocks(prf, prk, info, Ceiling(length, |prk|)), length)
  }

  lemma CeilingBound(length: int, unit: nat)
    requires unit > 0
    ensures Ceiling(length, unit) * unit >= length > (Ceiling(length, unit) - 1) * unit
    ensures Ceiling(length, unit) <= 255 <==> length <= 255 * unit
    ensures length >= 0 ==> Ceiling(length, unit) >= 0
    ensures length <= 0 ==> Ceiling(length, unit) <= 0
  {
    var n := Ceiling(length, unit);
    assert n * unit <= length + unit - 1 < (n + 1) * unit;
    if n <= 255 { Product(n, 255, unit); } else { Product(255, n - 1, unit); }
    if n < 0 { Product(n + 1, 0, unit); }
    if n > 0 { Product(0, n - 1, unit); }
  }

  lemma Product(a: int, b: int, unit: nat)
    requires a <= b
    ensures a * unit <= b * unit
  {}

  /** `_hkdf_expand`: one-octet block numbers end at 255, and an empty PRK divides by zero. */
  method Expand(prf: Prf, prk: bytes, info: bytes, length: int) returns (r: Expanded)
    ensures r.ZeroDivisionError? <==> prk == []
    ensures prk != [] ==> (r.ValueError? <==> length > Limit(prk))
    ensures prk != [] && length <= 0 ==> r == Okm([])
    ensures prk != [] && 0 <= length <= Limit(prk) ==> r == Okm(RfcOkm(prf, prk, info, length))
  {
    var hashLen := |prk|;
    if hashLen == 0 {
      return ZeroDivisionError;
    }
    var n := Ceiling(length, hashLen);
    CeilingBound(length, hashLen);
    var okm, t: bytes := [], [];
    var i := 1;
    while i < n + 1
      invariant 1 <= i <= 256 && (i == 1 || i <= n + 1)
      invariant okm == Blocks(prf, prk, info, i - 1) && t == T(prf, prk, info, i - 1)
      decreases n + 1 - i
    {
      if i > 255 {
        return ValueError;
      }
      t := prf(prk, t + info + [i]);
      okm := okm + t;
      i := i + 1;
    }
    return Okm(TakeUpTo(okm, length));
  }

  // ------------------------------------------------------------ main results

  ghost predicate Sized(prf: Prf, size: nat) {
    forall key, message :: |prf(key, message)| == size
  }

  lemma {:induction false} BlocksLength(prf: Prf, size: nat, prk: bytes, info: bytes, n: nat)
    requires n <= 255 && Sized(prf, size)
    ensures |Blocks(prf, prk, info, n)| == n * size
  {
    if n > 0 { BlocksLength(prf, size, prk, info, n - 1); }
  }

  lemma {:induction false} BlocksPrefix(prf: Prf, prk: bytes, info: bytes, n: nat, m: nat)
    requires n <= m <= 255
    ensures Blocks(prf, prk, info, n) <= Blocks(prf, prk, info, m)
  {
    if n < m { BlocksPrefix(prf, prk, info, n, m - 1); }
  }

  /**
   * The block count is computed from the length of the PRK, so for a PRK of another length than the hash the output
   * has the requested length exactly when that many blocks of hash length suffice.
   */
  lemma OutputLength(prf: Prf, size: nat, prk: bytes, info: bytes, length: nat)
    requires prk != [] && Sized(prf, size) && length <= Limit(prk)
    ensures |RfcOkm(prf, prk, info, length)| == length <==> Ceiling(length, |prk|) * size >= length
  {
    CeilingBound(length, |prk|);
    BlocksLength(prf, size, prk, info, Ceiling(length, |prk|));
  }

  /** A PRK of hash length gives output keying material of exactly the requested length. */
  lemma ExactLength(prf: Prf, prk: bytes, info: bytes, length: nat)
    requires prk != [] && Sized(prf, |prk|) && length <= Limit(prk)
    ensures |RfcOkm(prf, prk, info, length)| == length
  {
    CeilingBound(length, |prk|);
    OutputLength(prf, |prk|, prk, info, length);
  }

  function HmacPrf(h: Hash): Prf {
    (key, message) => Hmac(h, key, message)
  }

  /** `derive_hmac_key`: extract and expand fit together, for every salt, input and permitted length. */
  lemma DerivedKeyLength(h: Hash, salt: bytes, ikm: bytes, info: bytes, length: nat)
    requires WellSized(h) && h.digestSize > 0 && length <= 255 * h.digestSize
    ensures var prk := Extract(h, salt, ikm);
            && prk != [] && length <= Limit(prk)
            && |RfcOkm(HmacPrf(h), prk, info, length)| == length
  {
    ExtractIsHmac(h, salt, ikm);
    ExactLength(HmacPrf(h), Extract(h, salt, ikm), info, length);
  }

  lemma CeilingGrows(a: int, b: int, unit: nat)
    requires unit > 0 && a <= b
    ensures Ceiling(a, unit) <= Ceiling(b, unit)
  {
    CeilingBound(a, unit);
    CeilingBound(b, unit);
    var m, n := Ceiling(a, unit), Ceiling(b, unit);
    if m > n { Product(n, m - 1, unit); }
  }

  /** Shorter outputs are prefixes of longer ones. */
  lemma ShorterIsPrefix(prf: Prf, prk: bytes, info: bytes, short: nat, long: nat)
    requires prk != [] && Sized(prf, |prk|) && short <= long <= Limit(prk)
    ensures RfcOkm(prf, prk, info, short) <= RfcOkm(prf, prk, info, long)
  {
    ExactLength(prf, prk, info, short);
    ExactLength(prf, prk, info, long);
    CeilingBound(short, |prk|);
    CeilingBound(long, |prk|);
    CeilingGrows(short, long, |prk|);
    BlocksPrefix(prf, prk, info, Ceiling(short, |prk|), Ceiling(long, |prk|));
    PrefixOfPrefix(Blocks(prf, prk, info, Ceiling(short, |prk|)), Blocks(prf, prk, info, Ceiling(long, |prk|)),
                   short, long);
  }

  lemma PrefixOfPrefix(x: bytes, y: bytes, i: nat, k: nat)
    requires x <= y && i <= |x| && i <= k <= |y|
    ensures TakeUpTo(x, i) <= TakeUpTo(y, k)
  {}
}
