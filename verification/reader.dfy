/** A reader for the texts the serializers print (RFC 8259: literals, numbers
    as in section 6, strings as in section 7, arrays and objects with the
    format's separators), and the proof that it reads every serialization
    back to a value equal as a map to the one serialized. Hence the canonical
    text is injective: two well-formed payloads with the same text are equal
    as maps, so any semantic difference changes the text. */
module Reader {
  import opened Basics
  import opened Json
  import opened Canonical

  predicate StartsWith(t: string, p: string) {
    |p| <= |t| && t[..|p|] == p
  }

  predicate IsDigit(c: char) {
    '0' <= c <= '9'
  }

  /** Nothing after a value can extend it: the next character, if any, is not a digit. */
  predicate Delimited(rest: string) {
    rest == [] || !IsDigit(rest[0])
  }

  /** The formats whose separators the reader can tell from the end of an
      array or object: the item separator opens with a comma. */
  predicate Readable(f: Format) {
    f.itemSep != [] && f.itemSep[0] == ','
  }

  lemma FormatsReadable()
    ensures Readable(PythonCompact) && Readable(PythonDefault) && Readable(StableStringify)
  {
  }

  // ---------------------------------------------------------------- numbers

  /** Length of the run of decimal digits that opens `t`. */
  function DigitRun(t: string): (n: nat)
    ensures n <= |t|
    ensures forall k :: 0 <= k < n ==> IsDigit(t[k])
    ensures n < |t| ==> !IsDigit(t[n])
  {
    if t != [] && IsDigit(t[0]) then 1 + DigitRun(t[1..]) else 0
  }

  /** An optional minus sign and the longest run of digits after it. */
  function ReadInt(t: string): (r: Option<(Json, string)>)
    ensures r.Some? ==> r.value.0.Int? && |r.value.1| < |t|
  {
    var sign := if t != [] && t[0] == '-' then 1 else 0;
    var n := DigitRun(t[sign..]);
    if n == 0 then None
    else
      var lit := t[..sign + n];
      assert lit[sign..] == t[sign..][..n];
      Some((Int(IntValue(lit)), t[sign + n..]))
  }

  lemma {:induction false} DigitRunOfDigits(d: string, rest: string)
    requires forall k :: 0 <= k < |d| ==> IsDigit(d[k])
    requires Delimited(rest)
    ensures DigitRun(d + rest) == |d|
  {
    if d != [] {
      assert (d + rest)[1..] == d[1..] + rest;
      DigitRunOfDigits(d[1..], rest);
    }
  }

  lemma ReadIntLiteral(sign: string, d: string, rest: string)
    requires sign == "" || sign == "-"
    requires d != [] && forall k :: 0 <= k < |d| ==> IsDigit(d[k])
    requires Delimited(rest)
    ensures IsIntLiteral(sign + d)
    ensures ReadInt(sign + d + rest) == Some((Int(IntValue(sign + d)), rest))
  {
    var t := sign + d + rest;
    assert t[|sign|..] == d + rest;
    DigitRunOfDigits(d, rest);
    assert t[..|sign| + |d|] == sign + d;
    assert t[|sign| + |d|..] == rest;
    assert (sign + d)[|sign|..] == d;
  }

  lemma ReadIntText(i: int, rest: string)
    requires Delimited(rest)
    ensures ReadInt(IntText(i) + rest) == Some((Int(i), rest))
  {
    var n: nat := if i < 0 then -i else i;
    NatTextDigits(n);
    IntTextValue(i);
    var sign := if i < 0 then "-" else "";
    assert IntText(i) == sign + NatText(n);
    ReadIntLiteral(sign, NatText(n), rest);
  }

  // ---------------------------------------------------------------- strings

  /** Position of the quote that closes a string literal whose inside starts
      `t` (an escape's second character never closes it), or -1. */
  function StringEnd(t: string): (r: int)
    ensures -1 <= r < |t|
    ensures 0 <= r ==> t[r] == '"'
    decreases |t|
  {
    if t == [] then -1
    else if t[0] == '"' then 0
    else if t[0] == '\\' && |t| >= 2 then (var e := StringEnd(t[2..]); if e < 0 then -1 else e + 2)
    else (var e := StringEnd(t[1..]); if e < 0 then -1 else e + 1)
  }

  /** A string literal at the start of `t`: its text and what follows it. */
  function ReadString(t: string): (r: Option<(string, string)>)
    requires t != [] && t[0] == '"'
    ensures r.Some? ==> |r.value.1| < |t|
  {
    var e := StringEnd(t[1..]);
    if e < 0 then None
    else
      match Unescape(t[1..e + 1])
      case None => None
      case Some(s) => Some((s, t[e + 2..]))
  }

  /** Characters that are neither a quote nor a backslash pass the scan one by one. */
  lemma {:induction false} StringEndPlain(h: string, u: string)
    requires forall k :: 0 <= k < |h| ==> h[k] != '"' && h[k] != '\\'
    requires 0 <= StringEnd(u)
    ensures StringEnd(h + u) == |h| + StringEnd(u)
  {
    if h != [] {
      var t := h + u;
      assert t[0] == h[0] && t[0] != '"' && t[0] != '\\';
      assert t[1..] == h[1..] + u;
      StringEndPlain(h[1..], u);
      assert StringEnd(t) == StringEnd(t[1..]) + 1;
    } else {
      assert h + u == u;
    }
  }

  lemma StringEndUnicode(n: int, u: string)
    requires 0 <= n < 0x10000
    requires 0 <= StringEnd(u)
    ensures StringEnd(UnicodeEscape(n) + u) == 6 + StringEnd(u)
  {
    var q := HexQuad(n);
    forall k | 0 <= k < 4 ensures q[k] != '"' && q[k] != '\\' {
      var v := DigitValue(q[k]);
      DigitValueOfHexDigit(n / 4096);
      DigitValueOfHexDigit((n / 256) % 16);
      DigitValueOfHexDigit((n / 16) % 16);
      DigitValueOfHexDigit(n % 16);
      assert 0 <= v;
    }
    StringEndPlain(q, u);
    assert (UnicodeEscape(n) + u)[2..] == q + u;
  }

  lemma StringEndShort(e: string, u: string)
    requires |e| == 2 && e[0] == '\\'
    requires 0 <= StringEnd(u)
    ensures StringEnd(e + u) == 2 + StringEnd(u)
  {
    assert (e + u)[2..] == u;
  }

  lemma StringEndSelf(c: char, u: string)
    requires c != '"' && c != '\\'
    requires 0 <= StringEnd(u)
    ensures StringEnd([c] + u) == 1 + StringEnd(u)
  {
    assert ([c] + u)[1..] == u;
  }

  lemma StringEndPair(n: int, u: string)
    requires 0x10000 <= n < 0x110000
    requires 0 <= StringEnd(u)
    ensures StringEnd(SurrogatePair(n) + u) == 12 + StringEnd(u)
  {
    var h, l := UnicodeEscape(HighSurrogate(n)), UnicodeEscape(LowSurrogate(n));
    StringEndUnicode(LowSurrogate(n), u);
    StringEndUnicode(HighSurrogate(n), l + u);
    assert SurrogatePair(n) + u == h + (l + u);
  }

  lemma StringEndEscapeChar(c: char, asciiOnly: bool, u: string)
    requires 0 <= StringEnd(u)
    ensures StringEnd(EscapeChar(c, asciiOnly) + u) == |EscapeChar(c, asciiOnly)| + StringEnd(u)
  {
    var e := EscapeChar(c, asciiOnly);
    var n := c as int;
    if |e| == 2 {
      StringEndShort(e, u);
    } else if |e| == 6 {
      assert e == UnicodeEscape(n);
      StringEndUnicode(n, u);
    } else if |e| == 12 {
      assert e == SurrogatePair(n);
      StringEndPair(n, u);
    } else {
      StringEndSelf(c, u);
    }
  }

  lemma StringEndConcat(e: string, x: string, rest: string)
    requires 0 <= StringEnd(x + "\"" + rest) == |x|
    requires StringEnd(e + (x + "\"" + rest)) == |e| + StringEnd(x + "\"" + rest)
    ensures StringEnd(e + x + "\"" + rest) == |e + x|
  {
    assert e + x + "\"" + rest == e + (x + "\"" + rest);
  }

  lemma {:induction false} StringEndEscapeText(s: string, asciiOnly: bool, rest: string)
    ensures StringEnd(EscapeText(s, asciiOnly) + "\"" + rest) == |EscapeText(s, asciiOnly)|
  {
    if s == [] {
      assert EscapeText(s, asciiOnly) + "\"" + rest == "\"" + rest;
    } else {
      var e, x := EscapeChar(s[0], asciiOnly), EscapeText(s[1..], asciiOnly);
      assert EscapeText(s, asciiOnly) == e + x;
      StringEndEscapeText(s[1..], asciiOnly, rest);
      StringEndEscapeChar(s[0], asciiOnly, x + "\"" + rest);
      StringEndConcat(e, x, rest);
    }
  }

  lemma ReadStringOf(x: string, s: string, rest: string)
    requires StringEnd(x + "\"" + rest) == |x| && Unescape(x) == Some(s)
    ensures ReadString("\"" + x + "\"" + rest) == Some((s, rest))
  {
    var t := "\"" + x + "\"" + rest;
    assert t[1..] == x + "\"" + rest;
    assert t[1..|x| + 1] == x;
    assert t[|x| + 2..] == rest;
  }

  /** A string literal reads back as its text, leaving what follows it. */
  lemma ReadQuoted(s: string, asciiOnly: bool, rest: string)
    ensures ReadString(Quote(s, asciiOnly) + rest) == Some((s, rest))
  {
    var x := EscapeText(s, asciiOnly);
    StringEndEscapeText(s, asciiOnly, rest);
    UnescapeEscapeText(s, asciiOnly);
    ReadStringOf(x, s, rest);
    assert Quote(s, asciiOnly) + rest == "\"" + x + "\"" + rest;
  }

  // ---------------------------------------------------------------- values

  /** A JSON value at the start of `t`, and what follows it. */
  function ReadValue(t: string, f: Format): (r: Option<(Json, string)>)
    ensures r.Some? ==> |r.value.1| < |t|
    decreases |t|, 0
  {
    if t == [] then None
    else if StartsWith(t, "null") then Some((Null, t[4..]))
    else if StartsWith(t, "true") then Some((Bool(true), t[4..]))
    else if StartsWith(t, "false") then Some((Bool(false), t[5..]))
    else if t[0] == '-' || IsDigit(t[0]) then ReadInt(t)
    else if t[0] == '"' then
      match ReadString(t)
      case None => None
      case Some((s, rest)) => Some((Str(s), rest))
    else if t[0] == '[' then ReadArray(t[1..], f)
    else if t[0] == '{' then ReadObject(t[1..], f)
    else None
  }

  /** The rest of an array after its `[`. */
  function ReadArray(t: string, f: Format): (r: Option<(Json, string)>)
    ensures r.Some? ==> |r.value.1| < |t|
    decreases |t|, 2
  {
    if t != [] && t[0] == ']' then Some((Array([]), t[1..]))
    else
      match ReadItems(t, f)
      case None => None
      case Some((items, rest)) => Some((Array(items), rest))
  }

  /** One or more items separated by the item separator, then `]`. */
  function ReadItems(t: string, f: Format): (r: Option<(seq<Json>, string)>)
    ensures r.Some? ==> |r.value.1| < |t|
    decreases |t|, 1
  {
    match ReadValue(t, f)
    case None => None
    case Some((v, rest)) =>
      if StartsWith(rest, f.itemSep) then
        match ReadItems(rest[|f.itemSep|..], f)
        case None => None
        case Some((more, after)) => Some(([v] + more, after))
      else if rest != [] && rest[0] == ']' then Some(([v], rest[1..]))
      else None
  }

  /** The rest of an object after its `{`. */
  function ReadObject(t: string, f: Format): (r: Option<(Json, string)>)
    ensures r.Some? ==> |r.value.1| < |t|
    decreases |t|, 2
  {
    if t != [] && t[0] == '}' then Some((Object([]), t[1..]))
    else
      match ReadMembers(t, f)
      case None => None
      case Some((ms, rest)) => Some((Object(ms), rest))
  }

  /** One or more `key` keySep `value` members separated by the item
      separator, then `}`. */
  function ReadMembers(t: string, f: Format): (r: Option<(seq<Member>, string)>)
    ensures r.Some? ==> |r.value.1| < |t|
    decreases |t|, 1
  {
    if t == [] || t[0] != '"' then None
    else
      match ReadString(t)
      case None => None
      case Some((key, rest)) =>
        if !StartsWith(rest, f.keySep) then None
        else
          match ReadValue(rest[|f.keySep|..], f)
          case None => None
          case Some((v, after)) =>
            if StartsWith(after, f.itemSep) then
              match ReadMembers(after[|f.itemSep|..], f)
              case None => None
              case Some((more, last)) => Some(([Member(key, v)] + more, last))
            else if after != [] && after[0] == '}' then Some(([Member(key, v)], after[1..]))
            else None
  }

  /** The whole text is one value. */
  function Read(t: string, f: Format): (r: Option<Json>)
  {
    match ReadValue(t, f)
    case Some((v, rest)) => if rest == [] then Some(v) else None
    case None => None
  }

  // ---------------------------------------------------------------- reading serializations back

  lemma ReadValueNumber(t: string, f: Format)
    requires t != [] && (t[0] == '-' || IsDigit(t[0]))
    ensures ReadValue(t, f) == ReadInt(t)
  {
    assert !StartsWith(t, "null") && !StartsWith(t, "true") && !StartsWith(t, "false");
  }

  lemma ReadValueString(t: string, f: Format)
    requires t != [] && t[0] == '"'
    ensures ReadValue(t, f) == match ReadString(t) case None => None case Some((s, rest)) => Some((Str(s), rest))
  {
    assert !StartsWith(t, "null") && !StartsWith(t, "true") && !StartsWith(t, "false");
  }

  lemma ReadValueArray(t: string, f: Format)
    requires t != [] && t[0] == '['
    ensures ReadValue(t, f) == ReadArray(t[1..], f)
  {
    assert !StartsWith(t, "null") && !StartsWith(t, "true") && !StartsWith(t, "false");
  }

  lemma ReadValueObject(t: string, f: Format)
    requires t != [] && t[0] == '{'
    ensures ReadValue(t, f) == ReadObject(t[1..], f)
  {
    assert !StartsWith(t, "null") && !StartsWith(t, "true") && !StartsWith(t, "false");
  }

  lemma ReadLiteral(j: Json, f: Format, rest: string)
    requires j.Null? || j.Bool?
    ensures ReadValue(Serialize(j, f) + rest, f) == Some((j, rest))
  {
    var w := Serialize(j, f);
    var t := w + rest;
    assert t[..|w|] == w && t[|w|..] == rest;
    if j == Bool(false) {
      assert t[0] == 'f';
      assert !StartsWith(t, "null") && !StartsWith(t, "true");
    } else if j == Bool(true) {
      assert t[0] == 't';
      assert !StartsWith(t, "null");
    }
  }

  /** A serialized value opens with none of the characters that close a container. */
  lemma SerializeOpening(j: Json, f: Format)
    ensures Serialize(j, f)[0] != ']' && Serialize(j, f)[0] != '}'
  {
    if j.Int? {
      var n: nat := if j.i < 0 then -j.i else j.i;
      NatTextDigits(n);
    }
  }

  /** The text of a non-empty list of parts, followed by `close`, is the
      first part followed by either `close` or the separator and the rest. */
  lemma JoinHead(parts: seq<string>, sep: string, close: string)
    requires parts != []
    ensures Join(parts, sep) + close
      == parts[0] + (if |parts| == 1 then close else sep + (Join(parts[1..], sep) + close))
  {
  }

  /** Every well-formed value reads back from its text, in any readable
      format, up to member order: the reader yields a value equal to it as
      a map and leaves exactly the text that followed. */
  lemma {:induction false} ReadSerialized(j: Json, f: Format, rest: string)
    requires Readable(f) && WellFormed(j) && Delimited(rest)
    ensures var r := ReadValue(Serialize(j, f) + rest, f);
      r.Some? && r.value.1 == rest && SameValue(r.value.0, j)
    decreases j, 3, 0
  {
    var t := Serialize(j, f) + rest;
    match j
    case Null => ReadLiteral(j, f, rest);
    case Bool(_) => ReadLiteral(j, f, rest);
    case Int(i) =>
      var n: nat := if i < 0 then -i else i;
      NatTextDigits(n);
      ReadValueNumber(t, f);
      ReadIntText(i, rest);
    case Str(s) =>
      ReadValueString(t, f);
      ReadQuoted(s, f.asciiOnly, rest);
    case Array(_) =>
      ReadSerializedArray(j, f, rest);
    case Object(_) =>
      ReadSerializedObject(j, f, rest);
  }

  lemma ReadSerializedArray(j: Json, f: Format, rest: string)
    requires j.Array? && Readable(f) && WellFormed(j) && Delimited(rest)
    ensures var r := ReadValue(Serialize(j, f) + rest, f);
      r.Some? && r.value.1 == rest && SameValue(r.value.0, j)
    decreases j, 2, 0
  {
    var items := j.items;
    var parts := SerializeItems(items, f);
    var inner := Join(parts, f.itemSep) + "]" + rest;
    var t := Serialize(j, f) + rest;
    assert t == "[" + inner;
    ReadValueArray(t, f);
    assert t[1..] == inner;
    if items == [] {
      assert inner == "]" + rest;
    } else {
      ReadSerializedItems(items, f, rest);
      JoinHead(parts, f.itemSep, "]" + rest);
      SerializeOpening(items[0], f);
      assert inner[0] == parts[0][0];
    }
  }

  lemma ReadItemsLast(t: string, f: Format, v: Json, rest: string)
    requires Readable(f) && ReadValue(t, f) == Some((v, "]" + rest))
    ensures ReadItems(t, f) == Some(([v], rest))
  {
    assert !StartsWith("]" + rest, f.itemSep);
  }

  lemma ReadItemsNext(t: string, f: Format, v: Json, u: string, more: seq<Json>, rest: string)
    requires ReadValue(t, f) == Some((v, f.itemSep + u)) && ReadItems(u, f) == Some((more, rest))
    ensures ReadItems(t, f) == Some(([v] + more, rest))
  {
    assert (f.itemSep + u)[|f.itemSep|..] == u;
  }

  lemma ItemsAgreeCons(v: Json, more: seq<Json>, items: seq<Json>)
    requires items != [] && SameValue(v, items[0]) && ItemsAgree(more, items[1..])
    ensures ItemsAgree([v] + more, items)
  {
    forall k | 0 <= k < |items| ensures SameValue(([v] + more)[k], items[k]) {
      if k > 0 {
        assert items[k] == items[1..][k - 1];
      }
    }
  }

  lemma {:induction false} ReadSerializedItems(items: seq<Json>, f: Format, rest: string)
    requires Readable(f) && items != []
    requires forall k :: 0 <= k < |items| ==> WellFormed(items[k])
    ensures var r := ReadItems(Join(SerializeItems(items, f), f.itemSep) + "]" + rest, f);
      r.Some? && r.value.1 == rest && ItemsAgree(r.value.0, items)
    decreases items, 0, 0
  {
    var parts := SerializeItems(items, f);
    var close := "]" + rest;
    var t := Join(parts, f.itemSep) + close;
    assert t == Join(parts, f.itemSep) + "]" + rest;
    JoinHead(parts, f.itemSep, close);
    var p0 := Serialize(items[0], f);
    if |items| == 1 {
      assert t == p0 + close;
      ReadSerialized(items[0], f, close);
      var v := ReadValue(t, f).value.0;
      ReadItemsLast(t, f, v, rest);
      assert ItemsAgree([v], items);
    } else {
      var u := Join(parts[1..], f.itemSep) + close;
      assert t == p0 + (f.itemSep + u);
      ReadSerialized(items[0], f, f.itemSep + u);
      var v := ReadValue(t, f).value.0;
      assert SerializeItems(items[1..], f) == parts[1..];
      assert u == Join(SerializeItems(items[1..], f), f.itemSep) + "]" + rest;
      ReadSerializedItems(items[1..], f, rest);
      var more := ReadItems(u, f).value.0;
      ReadItemsNext(t, f, v, u, more, rest);
      ItemsAgreeCons(v, more, items);
    }
  }

  lemma ReadObjectEmpty(t: string, f: Format, rest: string)
    requires t == "}" + rest
    ensures ReadObject(t, f) == Some((Object([]), rest))
  {
  }

  lemma ReadObjectFull(t: string, f: Format, pm: seq<Member>, rest: string)
    requires t != [] && t[0] == '"' && ReadMembers(t, f) == Some((pm, rest))
    ensures ReadObject(t, f) == Some((Object(pm), rest))
  {
  }

  /** The facts about an object's sorted entries the reader needs. */
  lemma SortedEntries(ms: seq<Member>, f: Format)
    requires UniqueKeys(ms)
    ensures var sorted := Sort(Render(ms, f));
      && Ascending(sorted)
      && (forall x :: x in sorted <==> x in Render(ms, f))
      && (sorted == [] <==> ms == [])
  {
    var rendered := Render(ms, f);
    RenderDistinct(ms, f);
    SortAscending(rendered);
    var sorted := Sort(rendered);
    if ms != [] {
      assert rendered[0] in sorted;
    }
    if sorted != [] {
      assert sorted[0] in rendered;
    }
  }

  /** The text of an object: its sorted entries between braces. */
  lemma ObjectText(j: Json, f: Format, rest: string)
    requires j.Object?
    ensures Serialize(j, f) + rest == "{" + (Join(EntryTexts(Sort(Render(j.members, f)), f), f.itemSep) + "}" + rest)
  {
  }

  lemma ReadSerializedObject(j: Json, f: Format, rest: string)
    requires j.Object? && Readable(f) && WellFormed(j) && Delimited(rest)
    ensures var r := ReadValue(Serialize(j, f) + rest, f);
      r.Some? && r.value.1 == rest && SameValue(r.value.0, j)
    decreases j, 2, 0
  {
    var ms := j.members;
    var inner := Join(EntryTexts(Sort(Render(ms, f)), f), f.itemSep) + "}" + rest;
    var t := Serialize(j, f) + rest;
    ObjectText(j, f, rest);
    ReadValueObject(t, f);
    assert t[1..] == inner;
    if ms == [] {
      assert inner == "}" + rest by {
        assert Render(ms, f) == [];
      }
      ReadObjectEmpty(inner, f, rest);
      assert SameValue(Object([]), j);
    } else {
      ReadNonEmptyObject(ms, f, rest);
    }
  }

  lemma ReadNonEmptyObject(ms: seq<Member>, f: Format, rest: string)
    requires Readable(f) && WellFormed(Object(ms)) && ms != []
    ensures var r := ReadObject(Join(EntryTexts(Sort(Render(ms, f)), f), f.itemSep) + "}" + rest, f);
      r.Some? && r.value.1 == rest && SameValue(r.value.0, Object(ms))
    decreases Object(ms), 1, 0
  {
    var sorted := Sort(Render(ms, f));
    var parts := EntryTexts(sorted, f);
    var inner := Join(parts, f.itemSep) + "}" + rest;
    SortedEntries(ms, f);
    forall k | 0 <= k < |sorted| ensures sorted[k] in Render(ms, f) {
    }
    ReadSerializedMembers(sorted, ms, f, rest);
    var pm := ReadMembers(inner, f).value.0;
    assert ReadObject(inner, f) == Some((Object(pm), rest)) by {
      JoinHead(parts, f.itemSep, "}" + rest);
      assert inner[0] == '"';
      ReadObjectFull(inner, f, pm, rest);
    }
    ReadMembersAgree(pm, sorted, ms, f);
  }

  /** The members read from the sorted entries of an object agree with the
      object's own members, key by key. */
  lemma ReadMembersAgree(pm: seq<Member>, sorted: seq<Entry>, ms: seq<Member>, f: Format)
    requires UniqueKeys(ms) && Ascending(sorted)
    requires forall x :: x in sorted <==> x in Render(ms, f)
    requires |pm| == |sorted|
    requires forall k :: 0 <= k < |sorted| ==> ReadAs(pm[k], sorted[k], ms)
    ensures SameValue(Object(pm), Object(ms))
  {
    forall i, j | 0 <= i < j < |pm| ensures pm[i].key != pm[j].key {
      BelowAsymmetric(sorted[i].key, sorted[j].key);
    }
    forall k | 0 <= k < |ms| ensures 0 <= KeyIndex(pm, ms[k].key) {
      assert Render(ms, f)[k] in sorted;
      var i :| 0 <= i < |sorted| && sorted[i] == Render(ms, f)[k];
      assert pm[i].key == ms[k].key;
    }
    assert MembersAgree(pm, ms);
  }

  lemma ReadMembersLast(t: string, f: Format, key: string, u: string, v: Json, rest: string)
    requires Readable(f) && t != [] && t[0] == '"'
    requires ReadString(t) == Some((key, f.keySep + u)) && ReadValue(u, f) == Some((v, "}" + rest))
    ensures ReadMembers(t, f) == Some(([Member(key, v)], rest))
  {
    assert (f.keySep + u)[|f.keySep|..] == u;
    assert !StartsWith("}" + rest, f.itemSep);
  }

  lemma ReadMembersNext(t: string, f: Format, key: string, u: string, v: Json, w: string, more: seq<Member>, rest: string)
    requires t != [] && t[0] == '"'
    requires ReadString(t) == Some((key, f.keySep + u)) && ReadValue(u, f) == Some((v, f.itemSep + w))
    requires ReadMembers(w, f) == Some((more, rest))
    ensures ReadMembers(t, f) == Some(([Member(key, v)] + more, rest))
  {
    assert (f.keySep + u)[|f.keySep|..] == u;
    assert (f.itemSep + w)[|f.itemSep|..] == w;
  }

  lemma Regroup(a: string, b: string, c: string, d: string)
    ensures (a + b + c) + d == a + (b + (c + d))
  {
  }

  /** One member of an object as its serialization prints it. */
  lemma EntryText(ms: seq<Member>, f: Format, e: Entry) returns (m: int)
    requires UniqueKeys(ms) && e in Render(ms, f)
    ensures 0 <= m < |ms| && KeyIndex(ms, e.key) == m && ms[m].key == e.key
    ensures Quote(e.key, f.asciiOnly) + f.keySep + e.text == Quote(ms[m].key, f.asciiOnly) + f.keySep + Serialize(ms[m].value, f)
  {
    m :| 0 <= m < |ms| && Render(ms, f)[m] == e;
    KeyIndexUnique(ms, m);
  }

  /** A member read back from an object's entry: the entry's key, and a
      value equal as a map to the object's value for that key. */
  predicate ReadAs(p: Member, e: Entry, ms: seq<Member>) {
    p.key == e.key && 0 <= KeyIndex(ms, e.key) && SameValue(p.value, ms[KeyIndex(ms, e.key)].value)
  }

  lemma ReadAsCons(p: Member, more: seq<Member>, es: seq<Entry>, ms: seq<Member>)
    requires es != [] && |more| == |es| - 1 && ReadAs(p, es[0], ms)
    requires forall k :: 0 <= k < |more| ==> ReadAs(more[k], es[1..][k], ms)
    ensures forall k :: 0 <= k < |es| ==> ReadAs(([p] + more)[k], es[k], ms)
  {
    forall k | 1 <= k < |es| ensures ReadAs(([p] + more)[k], es[k], ms) {
      assert es[k] == es[1..][k - 1];
    }
  }

  /** The members of an object read back from its sorted entries' text. */
  lemma ReadSerializedMembers(es: seq<Entry>, ms: seq<Member>, f: Format, rest: string)
    requires Readable(f) && WellFormed(Object(ms)) && es != []
    requires forall k :: 0 <= k < |es| ==> es[k] in Render(ms, f)
    ensures var r := ReadMembers(Join(EntryTexts(es, f), f.itemSep) + "}" + rest, f);
      && r.Some? && r.value.1 == rest && |r.value.0| == |es|
      && forall k :: 0 <= k < |es| ==> ReadAs(r.value.0[k], es[k], ms)
    decreases Object(ms), 0, |es|, 1
  {
    if |es| == 1 {
      ReadLastMember(es, ms, f, rest);
    } else {
      ReadNextMember(es, ms, f, rest);
    }
  }

  lemma ReadLastMember(es: seq<Entry>, ms: seq<Member>, f: Format, rest: string)
    requires Readable(f) && WellFormed(Object(ms)) && |es| == 1 && es[0] in Render(ms, f)
    ensures var r := ReadMembers(Join(EntryTexts(es, f), f.itemSep) + "}" + rest, f);
      && r.Some? && r.value.1 == rest && |r.value.0| == 1 && ReadAs(r.value.0[0], es[0], ms)
    decreases Object(ms), 0, |es|, 0
  {
    var parts := EntryTexts(es, f);
    var close := "}" + rest;
    var t := Join(parts, f.itemSep) + close;
    assert t == Join(parts, f.itemSep) + "}" + rest;
    var m := EntryText(ms, f, es[0]);
    var key, value := ms[m].key, ms[m].value;
    assert parts[0] == Quote(key, f.asciiOnly) + f.keySep + Serialize(value, f);
    var u := Serialize(value, f) + close;
    Regroup(Quote(key, f.asciiOnly), f.keySep, Serialize(value, f), close);
    assert t == Quote(key, f.asciiOnly) + (f.keySep + u);
    ReadQuoted(key, f.asciiOnly, f.keySep + u);
    ReadSerialized(value, f, close);
    var v := ReadValue(u, f).value.0;
    ReadMembersLast(t, f, key, u, v, rest);
    assert ReadAs(Member(key, v), es[0], ms);
  }

  lemma ReadNextMember(es: seq<Entry>, ms: seq<Member>, f: Format, rest: string)
    requires Readable(f) && WellFormed(Object(ms)) && |es| >= 2
    requires forall k :: 0 <= k < |es| ==> es[k] in Render(ms, f)
    ensures var r := ReadMembers(Join(EntryTexts(es, f), f.itemSep) + "}" + rest, f);
      && r.Some? && r.value.1 == rest && |r.value.0| == |es|
      && forall k :: 0 <= k < |es| ==> ReadAs(r.value.0[k], es[k], ms)
    decreases Object(ms), 0, |es|, 0
  {
    var parts := EntryTexts(es, f);
    var close := "}" + rest;
    var w := Join(parts[1..], f.itemSep) + close;
    var t := parts[0] + (f.itemSep + w);
    assert Join(parts, f.itemSep) + "}" + rest == t by {
      JoinHead(parts, f.itemSep, close);
    }
    var m := EntryText(ms, f, es[0]);
    var key, value := ms[m].key, ms[m].value;
    var u := Serialize(value, f) + (f.itemSep + w);
    Regroup(Quote(key, f.asciiOnly), f.keySep, Serialize(value, f), f.itemSep + w);
    assert t == Quote(key, f.asciiOnly) + (f.keySep + u);
    ReadQuoted(key, f.asciiOnly, f.keySep + u);
    ReadSerialized(value, f, f.itemSep + w);
    var v := ReadValue(u, f).value.0;
    var tail := es[1..];
    assert w == Join(EntryTexts(tail, f), f.itemSep) + "}" + rest by {
      assert EntryTexts(tail, f) == parts[1..];
    }
    forall k | 0 <= k < |tail| ensures tail[k] in Render(ms, f) {
      assert tail[k] == es[k + 1];
    }
    ReadSerializedMembers(tail, ms, f, rest);
    var more := ReadMembers(w, f).value.0;
    ReadMembersNext(t, f, key, u, v, w, more, rest);
    assert ReadAs(Member(key, v), es[0], ms);
    ReadAsCons(Member(key, v), more, es, ms);
  }

  /** The whole text of a well-formed value reads back as a value equal to it as a map. */
  lemma ReadBack(j: Json, f: Format)
    requires Readable(f) && WellFormed(j)
    ensures Read(Serialize(j, f), f).Some? && SameValue(Read(Serialize(j, f), f).value, j)
  {
    ReadSerialized(j, f, "");
    assert Serialize(j, f) + "" == Serialize(j, f);
  }

  /** The canonical text tells payloads apart exactly as maps do: two
      well-formed values have the same text in a readable format if and only
      if they are equal as maps at every level. */
  lemma SerializeInjective(a: Json, b: Json, f: Format)
    requires Readable(f) && WellFormed(a) && WellFormed(b)
    ensures Serialize(a, f) == Serialize(b, f) <==> SameValue(a, b)
  {
    if Serialize(a, f) == Serialize(b, f) {
      ReadBack(a, f);
      ReadBack(b, f);
      var v := Read(Serialize(a, f), f).value;
      SameValueSymmetric(v, a);
      SameValueTransitive(a, v, b);
    }
    if SameValue(a, b) {
      SerializeRespectsSameValue(a, b, f);
    }
  }

  /** For each of the three serializations the system uses (the hashed
      compact text, the stored default text and the signed stable-stringify
      text), equal text means equal as maps and any semantic difference
      changes the text. */
  lemma CanonicalTextsSeparate(a: Json, b: Json)
    requires WellFormed(a) && WellFormed(b)
    ensures Serialize(a, PythonCompact) == Serialize(b, PythonCompact) <==> SameValue(a, b)
    ensures Serialize(a, PythonDefault) == Serialize(b, PythonDefault) <==> SameValue(a, b)
    ensures Serialize(a, StableStringify) == Serialize(b, StableStringify) <==> SameValue(a, b)
  {
    FormatsReadable();
    SerializeInjective(a, b, PythonCompact);
    SerializeInjective(a, b, PythonDefault);
    SerializeInjective(a, b, StableStringify);
  }
}
