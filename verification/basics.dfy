/** Shared vocabulary: optional values, partial updates, bytes, lowercase hex,
    UTF-8, JavaScript truthiness of request fields, and the cryptographic
    primitives the handlers consume as oracles. */
module Basics {

  /** An absent (`null`/`undefined`) or present value. */
  datatype Option<+T> = None | Some(value: T)

  /** One field of a partial object literal: either the key is absent from the
      object (`Keep`) or it is present with a value (`Put`). */
  datatype Update<+T> = Keep | Put(value: T) {
    function Over(previous: T): T {
      match this
      case Put(v) => v
      case Keep => previous
    }
  }

  /** A JavaScript string field is truthy when it is present and not "". */
  predicate Truthy(s: Option<string>) {
    s.Some? && s.value != ""
  }

  type byte = x: int | 0 <= x < 256

  /** A SHA-256 digest is 32 bytes. */
  type Digest = d: seq<byte> | |d| == 32 witness seq(32, i => 0)

  /** The `{r, s}` object a device sends as its ECDSA signature, each half as hex text. */
  datatype Signature = Signature(r: string, s: string)

  /** The cryptography the handlers call but whose internals are out of scope:
      SHA-256 (FIPS 180-4) over bytes, and secp256k1 ECDSA verification
      (SEC 2) of a signature over a hex message digest under a hex public key. */
  datatype Crypto = Crypto(
    sha256: seq<byte> -> Digest,
    verify: (string, string, Signature) -> bool)

  const HexDigits: string := "0123456789abcdef"

  /** Lowercase hex encoding, two characters per byte, as Node's
      `toString("hex")` and Python's `hexdigest()` produce. */
  function Hex(bs: seq<byte>): (r: string)
    ensures |r| == 2 * |bs|
  {
    if bs == [] then ""
    else [HexDigits[bs[0] / 16], HexDigits[bs[0] % 16]] + Hex(bs[1..])
  }

  predicate IsLowerHex(s: string) {
    forall i :: 0 <= i < |s| ==> s[i] in HexDigits
  }

  lemma {:induction false} HexIsLowerHex(bs: seq<byte>)
    ensures IsLowerHex(Hex(bs))
  {
    if bs != [] {
      HexIsLowerHex(bs[1..]);
      var h := Hex(bs);
      forall i | 0 <= i < |h| ensures h[i] in HexDigits {
        if i >= 2 {
          assert h[i] == Hex(bs[1..])[i - 2];
        }
      }
    }
  }

  /** Value of one lowercase hex digit, or -1. */
  function DigitValue(c: char): (v: int)
    ensures -1 <= v < 16
    ensures 0 <= v ==> HexDigits[v] == c
  {
    if '0' <= c <= '9' then c as int - '0' as int
    else if 'a' <= c <= 'f' then c as int - 'a' as int + 10
    else -1
  }

  lemma DigitValueOfHexDigit(v: int)
    requires 0 <= v < 16
    ensures DigitValue(HexDigits[v]) == v
  {
  }

  /** Decoding of lowercase hex text, failing on odd length or a foreign character. */
  function Unhex(s: string): (r: Option<seq<byte>>)
    ensures r.Some? ==> 2 * |r.value| == |s|
    decreases |s|
  {
    if s == [] then Some([])
    else if |s| == 1 then None
    else
      var hi := DigitValue(s[0]);
      var lo := DigitValue(s[1]);
      if hi < 0 || lo < 0 then None
      else match Unhex(s[2..])
        case None => None
        case Some(rest) => Some([(hi * 16 + lo) as byte] + rest)
  }

  lemma UnhexPair(x: char, y: char, rest: string)
    requires 0 <= DigitValue(x) && 0 <= DigitValue(y)
    ensures Unhex([x, y] + rest) ==
      match Unhex(rest)
      case None => None
      case Some(tail) => Some([(DigitValue(x) * 16 + DigitValue(y)) as byte] + tail)
  {
    var s := [x, y] + rest;
    assert s[0] == x && s[1] == y && s[2..] == rest;
  }

  /** Hex text decodes back to the bytes it encodes, so a hex digest
      determines the digest bytes. */
  lemma {:induction false} UnhexHex(bs: seq<byte>)
    ensures Unhex(Hex(bs)) == Some(bs)
  {
    if bs != [] {
      var b := bs[0];
      var x, y := HexDigits[b / 16], HexDigits[b % 16];
      assert Hex(bs) == [x, y] + Hex(bs[1..]);
      DigitValueOfHexDigit(b / 16);
      DigitValueOfHexDigit(b % 16);
      assert (DigitValue(x) * 16 + DigitValue(y)) as byte == b;
      UnhexHex(bs[1..]);
      UnhexPair(x, y, Hex(bs[1..]));
      assert bs == [b] + bs[1..];
    }
  }

  lemma HexInjective(a: seq<byte>, b: seq<byte>)
    requires Hex(a) == Hex(b)
    ensures a == b
  {
    UnhexHex(a);
    UnhexHex(b);
  }

  /** UTF-8 encoding of one Unicode scalar value (RFC 3629). */
  function Utf8Char(c: char): (r: seq<byte>)
    ensures 1 <= |r| <= 4
    ensures (|r| == 1) <==> (c as int < 0x80)
    ensures |r| == 1 ==> r[0] == c as int
  {
    var n := c as int;
    if n < 0x80 then [n]
    else if n < 0x800 then [0xC0 + n / 64, 0x80 + n % 64]
    else if n < 0x10000 then [0xE0 + n / 4096, 0x80 + (n / 64) % 64, 0x80 + n % 64]
    else [0xF0 + n / 262144, 0x80 + (n / 4096) % 64, 0x80 + (n / 64) % 64, 0x80 + n % 64]
  }

  /** UTF-8 encoding of a string, as `str.encode('utf-8')` and js-sha256's
      string input do. */
  function Utf8(s: string): (r: seq<byte>)
    ensures |s| <= |r| <= 4 * |s|
  {
    if s == [] then [] else Utf8Char(s[0]) + Utf8(s[1..])
  }

  predicate IsAscii(s: string) {
    forall i :: 0 <= i < |s| ==> s[i] as int < 0x80
  }

  /** On ASCII text UTF-8 is one byte per character, the character's code. */
  lemma {:induction false} Utf8OfAscii(s: string)
    requires IsAscii(s)
    ensures |Utf8(s)| == |s|
    ensures forall i :: 0 <= i < |s| ==> Utf8(s)[i] == s[i] as int
  {
    if s != [] {
      assert IsAscii(s[1..]) by {
        forall i | 0 <= i < |s[1..]| ensures s[1..][i] as int < 0x80 {
          assert s[1..][i] == s[i + 1];
        }
      }
      Utf8OfAscii(s[1..]);
      assert Utf8(s) == [s[0] as int as byte] + Utf8(s[1..]);
    }
  }

  /** Lowercase hex of the SHA-256 digest of a string's UTF-8 bytes: what
      `sha256(text)` of js-sha256 and `hashlib.sha256(text.encode('utf-8')).hexdigest()`
      return. */
  function Sha256Hex(c: Crypto, text: string): (r: string)
    ensures |r| == 64
    ensures IsLowerHex(r)
    ensures Unhex(r) == Some(c.sha256(Utf8(text)))
  {
    UnhexHex(c.sha256(Utf8(text)));
    HexIsLowerHex(c.sha256(Utf8(text)));
    Hex(c.sha256(Utf8(text)))
  }
}
