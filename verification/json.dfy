/** The JSON value model (RFC 8259, restricted to null, booleans, integers,
    strings, arrays and objects) and the sorted-key serializers the system
    uses: Python's `json.dumps(..., sort_keys=True)` with compact or default
    separators, and `json-stable-stringify` on the TypeScript side. */
module Json {
  import opened Basics

  /** A parsed JSON value. Object members keep their textual order; a parsed
      object never repeats a key (the last occurrence wins while parsing). */
  datatype Json =
    | Null
    | Bool(b: bool)
    | Int(i: int)
    | Str(s: string)
    | Array(items: seq<Json>)
    | Object(members: seq<Member>)

  datatype Member = Member(key: string, value: Json)

  /** What distinguishes the serializers: the item separator, the separator
      between a key and its value, and whether non-ASCII is escaped. */
  datatype Format = Format(itemSep: string, keySep: string, asciiOnly: bool)

  /** `json.dumps(x, sort_keys=True, separators=(',', ':'))`. */
  const PythonCompact: Format := Format(",", ":", true)
  /** `json.dumps(x, sort_keys=True)`. */
  const PythonDefault: Format := Format(", ", ": ", true)
  /** `stringify(x)` of json-stable-stringify. */
  const StableStringify: Format := Format(",", ":", false)

  // ---------------------------------------------------------------- members

  predicate UniqueKeys(ms: seq<Member>) {
    forall i, j :: 0 <= i < j < |ms| ==> ms[i].key != ms[j].key
  }

  /** Index of the last member with key `key`, or -1. */
  function KeyIndex(ms: seq<Member>, key: string): (r: int)
    ensures -1 <= r < |ms|
    ensures 0 <= r ==> ms[r].key == key
    ensures r < 0 <==> forall i :: 0 <= i < |ms| ==> ms[i].key != key
  {
    if ms == [] then -1
    else if ms[|ms| - 1].key == key then |ms| - 1
    else KeyIndex(ms[..|ms| - 1], key)
  }

  lemma KeyIndexUnique(ms: seq<Member>, k: int)
    requires UniqueKeys(ms) && 0 <= k < |ms|
    ensures KeyIndex(ms, ms[k].key) == k
  {
  }

  /** Property access on an object: the value of the last member with that key. */
  function Lookup(ms: seq<Member>, key: string): (r: Option<Json>)
    ensures r.None? <==> forall i :: 0 <= i < |ms| ==> ms[i].key != key
    ensures r.Some? ==>
      exists i :: 0 <= i < |ms| && ms[i] == Member(key, r.value) && (forall j :: i < j < |ms| ==> ms[j].key != key)
  {
    if ms == [] then None
    else if ms[|ms| - 1].key == key then Some(ms[|ms| - 1].value)
    else Lookup(ms[..|ms| - 1], key)
  }

  /** Lookup by value and lookup by position agree. */
  lemma {:induction false} LookupAtKeyIndex(ms: seq<Member>, key: string)
    ensures Lookup(ms, key) == if KeyIndex(ms, key) < 0 then None else Some(ms[KeyIndex(ms, key)].value)
  {
    if ms != [] && ms[|ms| - 1].key != key {
      LookupAtKeyIndex(ms[..|ms| - 1], key);
    }
  }

  /** On the unique keys a parser produces, property access finds each
      member's own value. */
  lemma LookupUnique(ms: seq<Member>, i: int)
    requires UniqueKeys(ms) && 0 <= i < |ms|
    ensures Lookup(ms, ms[i].key) == Some(ms[i].value)
  {
    LookupAtKeyIndex(ms, ms[i].key);
    KeyIndexUnique(ms, i);
  }

  /** `value.key` in JavaScript: only objects have own data properties here. */
  function Field(j: Json, key: string): Option<Json> {
    if j.Object? then Lookup(j.members, key) else None
  }

  /** JavaScript truthiness: `null`, `false`, `0` and `""` are falsy; every
      array and object is truthy. */
  predicate JsTruthy(j: Json) {
    match j
    case Null => false
    case Bool(b) => b
    case Int(i) => i != 0
    case Str(s) => s != ""
    case Array(_) => true
    case Object(_) => true
  }

  /** Python truthiness: as JavaScript, except that empty lists and dicts are falsy. */
  predicate PyTruthy(j: Json) {
    match j
    case Array(items) => items != []
    case Object(ms) => ms != []
    case _ => JsTruthy(j)
  }

  // ---------------------------------------------------------------- numbers

  function DigitChar(d: int): char
    requires 0 <= d < 10
  {
    "0123456789"[d]
  }

  /** Decimal text of a natural number, most significant digit first. */
  function NatText(n: nat): (r: string)
    ensures r != []
    ensures forall k :: 0 <= k < |r| ==> '0' <= r[k] <= '9'
    ensures |r| > 1 ==> r[0] != '0'
  {
    if n < 10 then [DigitChar(n)] else NatText(n / 10) + [DigitChar(n % 10)]
  }

  /** Value of a string of decimal digits. */
  function DigitsValue(s: string): int {
    if s == [] then 0 else 10 * DigitsValue(s[..|s| - 1]) + (s[|s| - 1] as int - '0' as int)
  }

  /** The decimal text of `n` reads back as `n`. */
  lemma {:induction false} NatTextValue(n: nat)
    ensures DigitsValue(NatText(n)) == n
  {
    if n >= 10 {
      var t, h := NatText(n), NatText(n / 10);
      assert t == h + [DigitChar(n % 10)];
      assert t[..|t| - 1] == h;
      NatTextValue(n / 10);
    }
  }

  /** `str(i)` in Python, `String(i)` in JavaScript for integers. */
  function IntText(i: int): string {
    if i < 0 then "-" + NatText(-i) else NatText(i)
  }

  predicate IsDigits(s: string) {
    s != [] && forall k :: 0 <= k < |s| ==> '0' <= s[k] <= '9'
  }

  /** The shape of a JSON integer: an optional minus sign, then digits. */
  predicate IsIntLiteral(s: string) {
    if s != [] && s[0] == '-' then IsDigits(s[1..]) else IsDigits(s)
  }

  /** Value of an integer literal. */
  function IntValue(s: string): int
    requires IsIntLiteral(s)
  {
    if s[0] == '-' then -DigitsValue(s[1..]) else DigitsValue(s)
  }

  /** The decimal text of any integer, negative ones included, is an integer
      literal that reads back as that integer. */
  lemma NatTextDigits(n: nat)
    ensures IsDigits(NatText(n)) && NatText(n)[0] != '-'
  {
  }

  lemma NegativeTextValue(n: nat)
    requires n > 0
    ensures IsIntLiteral("-" + NatText(n)) && IntValue("-" + NatText(n)) == -(n as int)
  {
    var t := NatText(n);
    NatTextValue(n);
    NatTextDigits(n);
    assert ("-" + t)[0] == '-' && ("-" + t)[1..] == t;
  }

  lemma NonNegativeTextValue(n: nat)
    ensures IsIntLiteral(NatText(n)) && IntValue(NatText(n)) == n
  {
    NatTextValue(n);
    NatTextDigits(n);
  }

  lemma {:induction false} IntTextValue(i: int)
    ensures IsIntLiteral(IntText(i)) && IntValue(IntText(i)) == i
  {
    if i < 0 {
      var n: nat := -i;
      NegativeTextValue(n);
      assert IntText(i) == "-" + NatText(n);
    } else {
      var n: nat := i;
      NonNegativeTextValue(n);
      assert IntText(i) == NatText(n);
    }
  }

  /** Distinct integers print differently. */
  lemma IntTextInjective(i: int, j: int)
    requires IntText(i) == IntText(j)
    ensures i == j
  {
    IntTextValue(i);
    IntTextValue(j);
  }

  // ---------------------------------------------------------------- strings

  function HexQuad(n: int): (r: string)
    requires 0 <= n < 0x10000
    ensures |r| == 4
  {
    [HexDigits[n / 4096], HexDigits[(n / 256) % 16], HexDigits[(n / 16) % 16], HexDigits[n % 16]]
  }

  /** `\uXXXX` with lowercase hex digits. */
  function UnicodeEscape(n: int): (r: string)
    requires 0 <= n < 0x10000
    ensures |r| == 6
  {
    "\\u" + HexQuad(n)
  }

  /** A code point beyond the Basic Multilingual Plane as two `\uXXXX`
      escapes of its UTF-16 surrogates. */
  function SurrogatePair(n: int): (r: string)
    requires 0x10000 <= n < 0x110000
    ensures |r| == 12
  {
    UnicodeEscape(HighSurrogate(n)) + UnicodeEscape(LowSurrogate(n))
  }

  function HighSurrogate(n: int): (r: int)
    requires 0x10000 <= n < 0x110000
    ensures 0xD800 <= r < 0xDC00
  {
    0xD800 + (n - 0x10000) / 1024
  }

  function LowSurrogate(n: int): (r: int)
    requires 0x10000 <= n < 0x110000
    ensures 0xDC00 <= r < 0xE000
  {
    0xDC00 + (n - 0x10000) % 1024
  }

  lemma SurrogatesCombine(n: int)
    requires 0x10000 <= n < 0x110000
    ensures 0x10000 + (HighSurrogate(n) - 0xD800) * 1024 + (LowSurrogate(n) - 0xDC00) == n
  {
  }

  /** The escaped form of one character inside a JSON string literal. Both
      serializers use the two-character escapes for quote, backslash,
      backspace, form feed, newline, carriage return and tab, and `\u00XX`
      for the other control characters. With `asciiOnly` (Python's
      `ensure_ascii`), DEL and every non-ASCII character become `\uXXXX`,
      characters beyond the Basic Multilingual Plane a UTF-16 surrogate pair. */
  function EscapeChar(c: char, asciiOnly: bool): (r: string)
    ensures r != []
    // a character stands for itself exactly when it needs no escape
    ensures r == [c] <==> c != '"' && c != '\\' && c as int >= 0x20 && !(asciiOnly && c as int >= 0x7F)
    ensures r != [c] ==> r[0] == '\\' && |r| in {2, 6, 12}
    // which escape: two characters for the short ones, `\u` and the code
    // point's four hex digits for the other control characters and (with
    // `asciiOnly`) the rest of the Basic Multilingual Plane, two such
    // escapes beyond it
    ensures |r| == 2 <==> HasShortEscape(c)
    ensures |r| == 6 <==> !HasShortEscape(c) && (c as int < 0x20 || (asciiOnly && 0x7F <= c as int < 0x10000))
    ensures |r| == 6 ==> r[1] == 'u' && QuadValue(r[2..]) == c as int
    ensures |r| == 12 <==> asciiOnly && c as int >= 0x10000
  {
    var n := c as int;
    if c == '"' then "\\\""
    else if c == '\\' then "\\\\"
    else if n == 0x08 then "\\b"
    else if n == 0x0C then "\\f"
    else if c == '\n' then "\\n"
    else if c == '\r' then "\\r"
    else if c == '\t' then "\\t"
    else if n < 0x20 then
      HexQuadValue(n);
      UnicodeEscape(n)
    else if asciiOnly && n >= 0x7F then
      if n < 0x10000 then
        HexQuadValue(n);
        UnicodeEscape(n)
      else SurrogatePair(n)
    else [c]
  }

  function EscapeText(s: string, asciiOnly: bool): string {
    if s == [] then "" else EscapeChar(s[0], asciiOnly) + EscapeText(s[1..], asciiOnly)
  }

  /** A JSON string literal. */
  function Quote(s: string, asciiOnly: bool): string {
    "\"" + EscapeText(s, asciiOnly) + "\""
  }

  // ---------------------------------------------------------------- reading strings back

  /** Value of four lowercase hex digits, or -1. */
  function QuadValue(q: string): (v: int)
    requires |q| == 4
    ensures -1 <= v < 0x10000
  {
    var a, b, c, d := DigitValue(q[0]), DigitValue(q[1]), DigitValue(q[2]), DigitValue(q[3]);
    if a < 0 || b < 0 || c < 0 || d < 0 then -1 else 4096 * a + 256 * b + 16 * c + d
  }

  lemma HexQuadValue(n: int)
    requires 0 <= n < 0x10000
    ensures QuadValue(HexQuad(n)) == n
  {
    var q := HexQuad(n);
    var n1, n2 := n / 256, n / 16;
    var a, b, c, d := n / 4096, n1 % 16, n2 % 16, n % 16;
    DigitValueOfHexDigit(a);
    DigitValueOfHexDigit(b);
    DigitValueOfHexDigit(c);
    DigitValueOfHexDigit(d);
    assert q == [HexDigits[a], HexDigits[b], HexDigits[c], HexDigits[d]];
    assert n1 / 16 == a;
    assert n2 / 16 == n1;
    assert n1 == 16 * a + b;
    assert n2 == 16 * n1 + c;
    assert n == 16 * n2 + d;
  }

  function Prepend(c: char, rest: Option<string>): (r: Option<string>)
    ensures r.Some? <==> rest.Some?
    ensures r.Some? ==> r.value == [c] + rest.value
  {
    if rest.None? then None else Some([c] + rest.value)
  }

  /** The character a two-character escape `\e` stands for. */
  function ShortEscape(e: char): Option<char> {
    if e == '"' || e == '\\' || e == '/' then Some(e)
    else if e == 'b' then Some(0x08 as char)
    else if e == 'f' then Some(0x0C as char)
    else if e == 'n' then Some('\n')
    else if e == 'r' then Some('\r')
    else if e == 't' then Some('\t')
    else None
  }

  /** The character a `\uXXXX` escape, or a surrogate pair of them, at the
      start of `t` stands for, with the length of text it occupies. */
  function UnicodeChar(t: string): (r: Option<(char, int)>)
    requires |t| >= 6
    ensures r.Some? ==> r.value.1 in {6, 12} && r.value.1 <= |t|
  {
    var u := QuadValue(t[2..6]);
    if u < 0 || 0xDC00 <= u < 0xE000 then None
    else if u < 0xD800 || 0xE000 <= u then Some((u as char, 6))
    else if |t| < 12 || t[6] != '\\' || t[7] != 'u' then None
    else
      var w := QuadValue(t[8..12]);
      if w < 0xDC00 || 0xE000 <= w then None
      else Some(((0x10000 + (u - 0xD800) * 1024 + (w - 0xDC00)) as char, 12))
  }

  /** Reads the inside of a JSON string literal (section 7 of RFC 8259) written
      with lowercase hex escapes: the short escapes, `\uXXXX` and surrogate
      pairs. A raw quote or control character, a lone surrogate or an unknown
      escape is an error. */
  function Unescape(t: string): (r: Option<string>)
    decreases |t|
  {
    if t == [] then Some([])
    else if t[0] == '"' || t[0] as int < 0x20 then None
    else if t[0] != '\\' then Prepend(t[0], Unescape(t[1..]))
    else if |t| < 2 then None
    else if ShortEscape(t[1]).Some? then Prepend(ShortEscape(t[1]).value, Unescape(t[2..]))
    else if t[1] != 'u' || |t| < 6 then None
    else
      match UnicodeChar(t)
      case None => None
      case Some((c, len)) => Prepend(c, Unescape(t[len..]))
  }

  lemma UnicodeCharOfEscape(n: int, rest: string)
    requires 0 <= n < 0xD800 || 0xE000 <= n < 0x10000
    ensures UnicodeChar(UnicodeEscape(n) + rest) == Some((n as char, 6))
  {
    HexQuadValue(n);
    assert (UnicodeEscape(n) + rest)[2..6] == HexQuad(n);
  }

  /** A surrogate pair at the start of `t` reads as the code point it encodes. */
  lemma UnicodeCharOfPair(t: string, n: int)
    requires 0x10000 <= n < 0x110000
    requires |t| >= 12 && t[6] == '\\' && t[7] == 'u'
    requires QuadValue(t[2..6]) == HighSurrogate(n) && QuadValue(t[8..12]) == LowSurrogate(n)
    ensures UnicodeChar(t) == Some((n as char, 12))
  {
    var u, w := QuadValue(t[2..6]), QuadValue(t[8..12]);
    SurrogatesCombine(n);
    assert 0x10000 + (u - 0xD800) * 1024 + (w - 0xDC00) == n;
  }

  /** A text opening with a `\u` escape reads as the escape's character
      followed by the rest. */
  lemma UnescapeUnicodeStep(t: string, c: char, len: int)
    requires |t| >= 6 && t[0] == '\\' && t[1] == 'u'
    requires UnicodeChar(t) == Some((c, len))
    ensures Unescape(t) == Prepend(c, Unescape(t[len..]))
  {
  }

  lemma UnescapeUnicode(n: int, rest: string)
    requires 0 <= n < 0xD800 || 0xE000 <= n < 0x10000
    ensures Unescape(UnicodeEscape(n) + rest) == Prepend(n as char, Unescape(rest))
  {
    var t := UnicodeEscape(n) + rest;
    UnicodeCharOfEscape(n, rest);
    UnescapeUnicodeStep(t, n as char, 6);
    assert t[6..] == rest;
  }

  lemma SurrogatePairText(n: int, rest: string)
    requires 0x10000 <= n < 0x110000
    ensures var t := SurrogatePair(n) + rest;
      && |t| >= 12 && t[0] == '\\' && t[1] == 'u' && t[6] == '\\' && t[7] == 'u' && t[12..] == rest
      && QuadValue(t[2..6]) == HighSurrogate(n) && QuadValue(t[8..12]) == LowSurrogate(n)
  {
    var e1, e2 := UnicodeEscape(HighSurrogate(n)), UnicodeEscape(LowSurrogate(n));
    var t := e1 + (e2 + rest);
    assert SurrogatePair(n) + rest == t;
    HexQuadValue(HighSurrogate(n));
    HexQuadValue(LowSurrogate(n));
    assert t[2..6] == e1[2..6] == HexQuad(HighSurrogate(n));
    assert t[8..12] == (e2 + rest)[2..6] == HexQuad(LowSurrogate(n));
  }


  lemma UnescapePair(n: int, rest: string)
    requires 0x10000 <= n < 0x110000
    ensures Unescape(SurrogatePair(n) + rest) == Prepend(n as char, Unescape(rest))
  {
    var t := SurrogatePair(n) + rest;
    SurrogatePairText(n, rest);
    UnicodeCharOfPair(t, n);
    UnescapeUnicodeStep(t, n as char, 12);
  }

  lemma UnescapeShort(e: char, c: char, rest: string)
    requires ShortEscape(e) == Some(c)
    ensures Unescape(['\\', e] + rest) == Prepend(c, Unescape(rest))
  {
    assert (['\\', e] + rest)[2..] == rest;
  }

  /** The characters written as a two-character escape. */
  predicate HasShortEscape(c: char) {
    c == '"' || c == '\\' || c as int == 0x08 || c as int == 0x0C || c == '\n' || c == '\r' || c == '\t'
  }

  lemma UnescapeShortEscaped(c: char, asciiOnly: bool, rest: string)
    requires HasShortEscape(c)
    ensures Unescape(EscapeChar(c, asciiOnly) + rest) == Prepend(c, Unescape(rest))
  {
    var e := EscapeChar(c, asciiOnly);
    assert |e| == 2 && e[0] == '\\' && ShortEscape(e[1]) == Some(c);
    assert e == ['\\', e[1]];
    UnescapeShort(e[1], c, rest);
  }

  lemma UnescapeBmpEscaped(c: char, asciiOnly: bool, rest: string)
    requires !HasShortEscape(c) && c as int < 0x10000
    requires c as int < 0x20 || (asciiOnly && c as int >= 0x7F)
    ensures Unescape(EscapeChar(c, asciiOnly) + rest) == Prepend(c, Unescape(rest))
  {
    assert EscapeChar(c, asciiOnly) == UnicodeEscape(c as int);
    UnescapeUnicode(c as int, rest);
  }

  lemma UnescapeAstralEscaped(c: char, asciiOnly: bool, rest: string)
    requires asciiOnly && c as int >= 0x10000
    ensures Unescape(EscapeChar(c, asciiOnly) + rest) == Prepend(c, Unescape(rest))
  {
    assert EscapeChar(c, asciiOnly) == SurrogatePair(c as int);
    UnescapePair(c as int, rest);
  }

  lemma UnescapeEscapeChar(c: char, asciiOnly: bool, rest: string)
    ensures Unescape(EscapeChar(c, asciiOnly) + rest) == Prepend(c, Unescape(rest))
  {
    var n := c as int;
    if HasShortEscape(c) {
      UnescapeShortEscaped(c, asciiOnly, rest);
    } else if n < 0x20 || (asciiOnly && 0x7F <= n < 0x10000) {
      UnescapeBmpEscaped(c, asciiOnly, rest);
    } else if asciiOnly && n >= 0x10000 {
      UnescapeAstralEscaped(c, asciiOnly, rest);
    } else {
      assert EscapeChar(c, asciiOnly) == [c];
      assert ([c] + rest)[1..] == rest;
    }
  }

  /** Every escaped text reads back as the text it escapes. */
  lemma {:induction false} UnescapeEscapeText(s: string, asciiOnly: bool)
    ensures Unescape(EscapeText(s, asciiOnly)) == Some(s)
  {
    if s != [] {
      UnescapeEscapeText(s[1..], asciiOnly);
      UnescapeEscapeChar(s[0], asciiOnly, EscapeText(s[1..], asciiOnly));
      assert [s[0]] + s[1..] == s;
    }
  }

  // ---------------------------------------------------------------- ordering

  /** Code-point lexicographic order on keys, the order of Python's `sorted`. */
  predicate Below(a: string, b: string) {
    if a == [] then b != []
    else if b == [] then false
    else if a[0] != b[0] then a[0] < b[0]
    else Below(a[1..], b[1..])
  }

  /** A member rendered to text, still carrying its key for sorting. */
  datatype Entry = Entry(key: string, text: string)

  function Insert(x: Entry, s: seq<Entry>): seq<Entry> {
    if s == [] then [x]
    else if Below(s[0].key, x.key) then [s[0]] + Insert(x, s[1..])
    else [x] + s
  }

  /** Insertion sort of entries by key. */
  function Sort(s: seq<Entry>): seq<Entry> {
    if s == [] then [] else Insert(s[0], Sort(s[1..]))
  }

  function Join(parts: seq<string>, sep: string): string {
    if parts == [] then ""
    else if |parts| == 1 then parts[0]
    else parts[0] + sep + Join(parts[1..], sep)
  }

  function EntryTexts(s: seq<Entry>, f: Format): (r: seq<string>)
    ensures |r| == |s|
    ensures forall k :: 0 <= k < |s| ==> r[k] == Quote(s[k].key, f.asciiOnly) + f.keySep + s[k].text
  {
    if s == [] then [] else [Quote(s[0].key, f.asciiOnly) + f.keySep + s[0].text] + EntryTexts(s[1..], f)
  }

  // ---------------------------------------------------------------- serializer

  /** Serialization with keys sorted at every level (Canonical proves the
      order ascending and the text independent of member order). */
  function Serialize(j: Json, f: Format): (r: string)
    ensures r != []
    // the first character tells the kind of value, and a container is
    // closed by its matching bracket
    ensures r[0] == '{' <==> j.Object?
    ensures r[0] == '[' <==> j.Array?
    ensures r[0] == '"' <==> j.Str?
    ensures j.Object? ==> r[|r| - 1] == '}'
    ensures j.Array? ==> r[|r| - 1] == ']'
    decreases j, 1
  {
    match j
    case Null => "null"
    case Bool(b) => if b then "true" else "false"
    case Int(i) => IntText(i)
    case Str(s) => Quote(s, f.asciiOnly)
    case Array(items) => "[" + Join(SerializeItems(items, f), f.itemSep) + "]"
    case Object(ms) => "{" + Join(EntryTexts(Sort(Render(ms, f)), f), f.itemSep) + "}"
  }

  function SerializeItems(items: seq<Json>, f: Format): (r: seq<string>)
    ensures |r| == |items|
    ensures forall k :: 0 <= k < |items| ==> r[k] == Serialize(items[k], f)
    decreases items, 0
  {
    if items == [] then [] else [Serialize(items[0], f)] + SerializeItems(items[1..], f)
  }

  function Render(ms: seq<Member>, f: Format): (r: seq<Entry>)
    ensures |r| == |ms|
    ensures forall k :: 0 <= k < |ms| ==> r[k] == Entry(ms[k].key, Serialize(ms[k].value, f))
    decreases ms, 0
  {
    if ms == [] then [] else [Entry(ms[0].key, Serialize(ms[0].value, f))] + Render(ms[1..], f)
  }

  /** What a reader recovers from a serialized scalar: a number reads back
      as itself and a string literal as its text, in every format. */
  lemma SerializeReadsBack(j: Json, f: Format)
    ensures var r := Serialize(j, f);
      && (j.Int? ==> IsIntLiteral(r) && IntValue(r) == j.i)
      && (j.Str? ==> |r| >= 2 && r[|r| - 1] == '"' && Unescape(r[1..|r| - 1]) == Some(j.s))
  {
    match j
    case Int(i) => IntTextValue(i);
    case Str(s) =>
      UnescapeEscapeText(s, f.asciiOnly);
      var q := Quote(s, f.asciiOnly);
      assert q[1..|q| - 1] == EscapeText(s, f.asciiOnly);
    case _ =>
  }
}
