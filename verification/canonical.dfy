/** Why the sorted-key serializers are canonical: the key order is a strict
    total order, insertion sort yields the unique ascending arrangement of a
    set of entries, and therefore two payloads that are equal as maps (at
    every nesting level) serialize to the same text whatever the order in
    which their members were inserted. Also: Python's `ensure_ascii` output is
    pure ASCII, and the default separators give a strictly longer text than
    the compact ones on every non-empty object. */
module Canonical {
  import opened Basics
  import opened Json

  // ---------------------------------------------------------------- key order

  lemma {:induction false} BelowIrreflexive(a: string)
    ensures !Below(a, a)
  {
    if a != [] {
      BelowIrreflexive(a[1..]);
    }
  }

  lemma {:induction false} BelowTransitive(a: string, b: string, c: string)
    requires Below(a, b) && Below(b, c)
    ensures Below(a, c)
  {
    if a != [] && b != [] && c != [] && a[0] == b[0] && b[0] == c[0] {
      BelowTransitive(a[1..], b[1..], c[1..]);
    }
  }

  lemma {:induction false} BelowTotal(a: string, b: string)
    requires a != b
    ensures Below(a, b) || Below(b, a)
  {
    if a != [] && b != [] && a[0] == b[0] {
      assert a == [a[0]] + a[1..] && b == [b[0]] + b[1..];
      BelowTotal(a[1..], b[1..]);
    }
  }

  lemma BelowAsymmetric(a: string, b: string)
    requires Below(a, b)
    ensures !Below(b, a) && a != b
  {
    if Below(b, a) {
      BelowTransitive(a, b, a);
      BelowIrreflexive(a);
    }
    BelowIrreflexive(a);
  }

  // ---------------------------------------------------------------- sorting

  predicate DistinctKeys(s: seq<Entry>) {
    forall i, j :: 0 <= i < j < |s| ==> s[i].key != s[j].key
  }

  /** Strictly ascending keys. */
  predicate Ascending(s: seq<Entry>) {
    forall i, j :: 0 <= i < j < |s| ==> Below(s[i].key, s[j].key)
  }

  lemma {:induction false} InsertAscending(x: Entry, s: seq<Entry>)
    requires Ascending(s)
    requires forall k :: 0 <= k < |s| ==> s[k].key != x.key
    ensures Ascending(Insert(x, s))
    ensures multiset(Insert(x, s)) == multiset(s) + multiset{x}
  {
    if s != [] {
      if Below(s[0].key, x.key) {
        var rest := Insert(x, s[1..]);
        InsertAscending(x, s[1..]);
        assert s == [s[0]] + s[1..];
        var r := [s[0]] + rest;
        forall i, j | 0 <= i < j < |r| ensures Below(r[i].key, r[j].key) {
          if i == 0 {
            assert r[j] in multiset(rest);
            if r[j] != x {
              var k :| 0 <= k < |s[1..]| && s[1..][k] == r[j];
              assert s[k + 1] == r[j];
            }
          }
        }
      } else {
        BelowTotal(s[0].key, x.key);
        var r := [x] + s;
        forall i, j | 0 <= i < j < |r| ensures Below(r[i].key, r[j].key) {
          if i == 0 && j > 1 {
            BelowTransitive(x.key, s[0].key, s[j - 1].key);
          }
        }
      }
    }
  }

  lemma SameMultisetSameMembers(a: seq<Entry>, b: seq<Entry>)
    requires multiset(a) == multiset(b)
    ensures forall x :: x in a <==> x in b
  {
    forall x ensures x in a <==> x in b {
      assert x in a <==> x in multiset(a);
      assert x in b <==> x in multiset(b);
    }
  }

  /** Sorting entries with distinct keys yields them in strictly ascending order. */
  lemma {:induction false} SortAscending(s: seq<Entry>)
    requires DistinctKeys(s)
    ensures Ascending(Sort(s))
    ensures multiset(Sort(s)) == multiset(s)
    ensures forall x :: x in Sort(s) <==> x in s
  {
    if s != [] {
      var tail := s[1..];
      assert DistinctKeys(tail) by {
        forall i, j | 0 <= i < j < |tail| ensures tail[i].key != tail[j].key {
          assert tail[i] == s[i + 1] && tail[j] == s[j + 1];
        }
      }
      SortAscending(tail);
      var st := Sort(tail);
      forall k | 0 <= k < |st| ensures st[k].key != s[0].key {
        assert st[k] in tail;
        var m :| 0 <= m < |tail| && tail[m] == st[k];
        assert s[m + 1] == st[k];
      }
      InsertAscending(s[0], st);
      assert Sort(s) == Insert(s[0], st);
      assert s == [s[0]] + tail;
      assert multiset(s) == multiset{s[0]} + multiset(tail);
    }
    SameMultisetSameMembers(Sort(s), s);
  }

  /** An ascending arrangement is unique: two ascending sequences with the
      same elements are equal. */
  lemma {:induction false} AscendingUnique(a: seq<Entry>, b: seq<Entry>)
    requires Ascending(a) && Ascending(b)
    requires forall x :: x in a <==> x in b
    ensures a == b
  {
    assert b != [] ==> b[0] in b;
    if a != [] {
      assert a[0] in b;
      assert b != [];
      assert b[0] in a;
      if a[0] != b[0] {
        var k :| 0 <= k < |b| && b[k] == a[0];
        var m :| 0 <= m < |a| && a[m] == b[0];
        assert Below(b[0].key, a[0].key);
        assert Below(a[0].key, b[0].key);
        BelowAsymmetric(a[0].key, b[0].key);
      }
      var ta, tb := a[1..], b[1..];
      forall x ensures x in ta <==> x in tb {
        if x in ta {
          var i :| 0 <= i < |ta| && ta[i] == x;
          assert a[i + 1] == x;
          BelowAsymmetric(a[0].key, x.key);
          assert x in b && x != b[0];
        }
        if x in tb {
          var i :| 0 <= i < |tb| && tb[i] == x;
          assert b[i + 1] == x;
          BelowAsymmetric(b[0].key, x.key);
          assert x in a && x != a[0];
        }
      }
      AscendingUnique(ta, tb);
      assert a == [a[0]] + ta && b == [b[0]] + tb;
    }
  }

  // ---------------------------------------------------------------- equal as maps

  /** Both parsed values are equal as Python dicts / JavaScript objects:
      arrays pointwise, objects with the same key set and, key by key,
      values equal as maps, in any member order. */
  predicate SameValue(a: Json, b: Json)
    decreases a, 1
  {
    match a
    case Array(ia) => b.Array? && ItemsAgree(ia, b.items)
    case Object(ma) => b.Object? && UniqueKeys(ma) && UniqueKeys(b.members) && MembersAgree(ma, b.members)
    case _ => a == b
  }

  predicate ItemsAgree(ia: seq<Json>, ib: seq<Json>)
    decreases Array(ia), 0
  {
    |ia| == |ib| && forall k :: 0 <= k < |ia| ==> SameValue(ia[k], ib[k])
  }

  predicate MembersAgree(ma: seq<Member>, mb: seq<Member>)
    decreases Object(ma), 0
  {
    && (forall i :: 0 <= i < |ma| ==>
          0 <= KeyIndex(mb, ma[i].key) && SameValue(ma[i].value, mb[KeyIndex(mb, ma[i].key)].value))
    && (forall k :: 0 <= k < |mb| ==> 0 <= KeyIndex(ma, mb[k].key))
  }

  /** A value as a parser produces it: no object repeats a key. */
  predicate WellFormed(j: Json)
    decreases j
  {
    match j
    case Array(items) => forall k :: 0 <= k < |items| ==> WellFormed(items[k])
    case Object(ms) => UniqueKeys(ms) && forall k :: 0 <= k < |ms| ==> WellFormed(ms[k].value)
    case _ => true
  }

  lemma {:induction false} SameValueReflexive(j: Json)
    requires WellFormed(j)
    ensures SameValue(j, j)
    decreases j
  {
    match j
    case Array(items) =>
      forall k | 0 <= k < |items| ensures SameValue(items[k], items[k]) {
        SameValueReflexive(items[k]);
      }
      assert ItemsAgree(items, items);
    case Object(ms) =>
      forall i | 0 <= i < |ms|
        ensures 0 <= KeyIndex(ms, ms[i].key) && SameValue(ms[i].value, ms[KeyIndex(ms, ms[i].key)].value)
      {
        KeyIndexUnique(ms, i);
        SameValueReflexive(ms[i].value);
      }
      forall k | 0 <= k < |ms| ensures 0 <= KeyIndex(ms, ms[k].key) {
        KeyIndexUnique(ms, k);
      }
      assert MembersAgree(ms, ms);
    case _ =>
  }

  lemma {:induction false} SameValueSymmetric(a: Json, b: Json)
    requires SameValue(a, b)
    ensures SameValue(b, a)
    decreases a
  {
    match a
    case Array(ia) =>
      forall k | 0 <= k < |ia| ensures SameValue(b.items[k], ia[k]) {
        SameValueSymmetric(ia[k], b.items[k]);
      }
      assert ItemsAgree(b.items, ia);
    case Object(ma) =>
      var mb := b.members;
      forall k | 0 <= k < |mb|
        ensures 0 <= KeyIndex(ma, mb[k].key) && SameValue(mb[k].value, ma[KeyIndex(ma, mb[k].key)].value)
      {
        var i := KeyIndex(ma, mb[k].key);
        KeyIndexUnique(mb, k);
        assert KeyIndex(mb, ma[i].key) == k;
        SameValueSymmetric(ma[i].value, mb[k].value);
      }
      assert MembersAgree(mb, ma);
    case _ =>
  }

  lemma {:induction false} SameValueTransitive(a: Json, b: Json, c: Json)
    requires SameValue(a, b) && SameValue(b, c)
    ensures SameValue(a, c)
    decreases a
  {
    match a
    case Array(ia) =>
      forall k | 0 <= k < |ia| ensures SameValue(ia[k], c.items[k]) {
        SameValueTransitive(ia[k], b.items[k], c.items[k]);
      }
      assert ItemsAgree(ia, c.items);
    case Object(ma) =>
      var mb, mc := b.members, c.members;
      forall i | 0 <= i < |ma|
        ensures 0 <= KeyIndex(mc, ma[i].key) && SameValue(ma[i].value, mc[KeyIndex(mc, ma[i].key)].value)
      {
        var k := KeyIndex(mb, ma[i].key);
        SameValueTransitive(ma[i].value, mb[k].value, mc[KeyIndex(mc, mb[k].key)].value);
      }
      forall l | 0 <= l < |mc| ensures 0 <= KeyIndex(ma, mc[l].key) {
        var k := KeyIndex(mb, mc[l].key);
        assert mb[k].key == mc[l].key;
      }
      assert MembersAgree(ma, mc);
    case _ =>
  }

  lemma RenderDistinct(ms: seq<Member>, f: Format)
    requires UniqueKeys(ms)
    ensures DistinctKeys(Render(ms, f))
  {
  }

  /** Key-order independence: values equal as maps serialize identically,
      in every format. */
  lemma {:induction false} SerializeRespectsSameValue(a: Json, b: Json, f: Format)
    requires SameValue(a, b)
    ensures Serialize(a, f) == Serialize(b, f)
    decreases a, 2
  {
    match a
    case Array(ia) =>
      var ib := b.items;
      assert ItemsAgree(ia, ib);
      forall k | 0 <= k < |ia| ensures Serialize(ia[k], f) == Serialize(ib[k], f) {
        SerializeRespectsSameValue(ia[k], ib[k], f);
      }
      assert SerializeItems(ia, f) == SerializeItems(ib, f);
    case Object(ma) =>
      var mb := b.members;
      assert MembersAgree(ma, mb);
      RenderSameElements(ma, mb, f);
      RenderDistinct(ma, f);
      RenderDistinct(mb, f);
      SortSameElements(Render(ma, f), Render(mb, f));
    case _ =>
  }

  /** The members of objects equal as maps render to the same set of entries. */
  lemma RenderSameElements(ma: seq<Member>, mb: seq<Member>, f: Format)
    requires UniqueKeys(ma) && UniqueKeys(mb) && MembersAgree(ma, mb)
    ensures forall x :: x in Render(ma, f) <==> x in Render(mb, f)
    decreases Object(ma), 1
  {
    var ra, rb := Render(ma, f), Render(mb, f);
    forall i | 0 <= i < |ra| ensures ra[i] in rb {
      RenderedMemberFound(ma, mb, f, i);
    }
    forall k | 0 <= k < |rb| ensures rb[k] in ra {
      RenderedMemberFoundBack(ma, mb, f, k);
    }
  }

  lemma RenderedMemberFound(ma: seq<Member>, mb: seq<Member>, f: Format, i: int)
    requires MembersAgree(ma, mb) && 0 <= i < |ma|
    ensures Render(ma, f)[i] in Render(mb, f)
    decreases Object(ma), 0
  {
    var k := KeyIndex(mb, ma[i].key);
    SerializeRespectsSameValue(ma[i].value, mb[k].value, f);
    assert Render(mb, f)[k] == Render(ma, f)[i];
  }

  lemma RenderedMemberFoundBack(ma: seq<Member>, mb: seq<Member>, f: Format, k: int)
    requires UniqueKeys(mb) && MembersAgree(ma, mb) && 0 <= k < |mb|
    ensures Render(mb, f)[k] in Render(ma, f)
    decreases Object(ma), 0
  {
    var i := KeyIndex(ma, mb[k].key);
    KeyIndexUnique(mb, k);
    assert KeyIndex(mb, ma[i].key) == k;
    SerializeRespectsSameValue(ma[i].value, mb[k].value, f);
    assert Render(ma, f)[i] == Render(mb, f)[k];
  }

  /** Entries with distinct keys and the same elements sort to the same sequence. */
  lemma SortSameElements(ra: seq<Entry>, rb: seq<Entry>)
    requires DistinctKeys(ra) && DistinctKeys(rb)
    requires forall x :: x in ra <==> x in rb
    ensures Sort(ra) == Sort(rb)
  {
    SortAscending(ra);
    SortAscending(rb);
    AscendingUnique(Sort(ra), Sort(rb));
  }

  /** An object and any reordering of its members are equal as maps. */
  lemma ReorderedSameValue(ma: seq<Member>, mb: seq<Member>)
    requires WellFormed(Object(ma)) && WellFormed(Object(mb))
    requires multiset(ma) == multiset(mb)
    ensures SameValue(Object(ma), Object(mb))
  {
    forall i | 0 <= i < |ma|
      ensures 0 <= KeyIndex(mb, ma[i].key) && SameValue(ma[i].value, mb[KeyIndex(mb, ma[i].key)].value)
    {
      assert ma[i] in multiset(mb);
      var k :| 0 <= k < |mb| && mb[k] == ma[i];
      KeyIndexUnique(mb, k);
      SameValueReflexive(ma[i].value);
    }
    forall k | 0 <= k < |mb| ensures 0 <= KeyIndex(ma, mb[k].key) {
      assert mb[k] in multiset(ma);
      var i :| 0 <= i < |ma| && ma[i] == mb[k];
      KeyIndexUnique(ma, i);
    }
    assert MembersAgree(ma, mb);
  }

  /** Reordering the members of an object never changes its serialization:
      the hashed text does not depend on insertion order. */
  lemma ReorderedObjectSerializesAlike(ma: seq<Member>, mb: seq<Member>, f: Format)
    requires WellFormed(Object(ma)) && WellFormed(Object(mb))
    requires multiset(ma) == multiset(mb)
    ensures Serialize(Object(ma), f) == Serialize(Object(mb), f)
  {
    ReorderedSameValue(ma, mb);
    SerializeRespectsSameValue(Object(ma), Object(mb), f);
  }

  // ---------------------------------------------------------------- ASCII output

  lemma AsciiConcat(a: string, b: string)
    requires IsAscii(a) && IsAscii(b)
    ensures IsAscii(a + b)
  {
    forall i | 0 <= i < |a + b| ensures (a + b)[i] as int < 0x80 {
      if i >= |a| {
        assert (a + b)[i] == b[i - |a|];
      }
    }
  }

  lemma HexQuadAscii(n: int)
    requires 0 <= n < 0x10000
    ensures IsAscii(HexQuad(n))
  {
    var q := HexQuad(n);
    forall i | 0 <= i < 4 ensures q[i] as int < 0x80 {
      assert q[i] in HexDigits;
    }
  }

  lemma UnicodeEscapeAscii(n: int)
    requires 0 <= n < 0x10000
    ensures IsAscii(UnicodeEscape(n))
  {
    HexQuadAscii(n);
    AsciiConcat("\\u", HexQuad(n));
  }

  lemma ShortEscapesAscii()
    ensures IsAscii("\\\"") && IsAscii("\\\\") && IsAscii("\\b") && IsAscii("\\f")
    ensures IsAscii("\\n") && IsAscii("\\r") && IsAscii("\\t")
  {
  }

  lemma EscapeCharAscii(c: char)
    ensures IsAscii(EscapeChar(c, true))
  {
    var n := c as int;
    var e := EscapeChar(c, true);
    ShortEscapesAscii();
    if c == '"' || c == '\\' || n == 0x08 || n == 0x0C || c == '\n' || c == '\r' || c == '\t' {
    } else if n < 0x20 {
      assert e == UnicodeEscape(n);
      UnicodeEscapeAscii(n);
    } else if n >= 0x7F {
      if n < 0x10000 {
        assert e == UnicodeEscape(n);
        UnicodeEscapeAscii(n);
      } else {
        assert e == SurrogatePair(n);
        UnicodeEscapeAscii(HighSurrogate(n));
        UnicodeEscapeAscii(LowSurrogate(n));
        AsciiConcat(UnicodeEscape(HighSurrogate(n)), UnicodeEscape(LowSurrogate(n)));
      }
    } else {
      assert e == [c];
    }
  }

  lemma {:induction false} QuoteAscii(s: string)
    ensures IsAscii(EscapeText(s, true))
    ensures IsAscii(Quote(s, true))
  {
    if s != [] {
      QuoteAscii(s[1..]);
      EscapeCharAscii(s[0]);
      AsciiConcat(EscapeChar(s[0], true), EscapeText(s[1..], true));
    }
    AsciiConcat("\"", EscapeText(s, true));
    AsciiConcat("\"" + EscapeText(s, true), "\"");
  }

  lemma NatTextAscii(n: nat)
    ensures IsAscii(NatText(n))
  {
  }

  lemma {:induction false} JoinAscii(parts: seq<string>, sep: string)
    requires IsAscii(sep)
    requires forall k :: 0 <= k < |parts| ==> IsAscii(parts[k])
    ensures IsAscii(Join(parts, sep))
  {
    if |parts| > 1 {
      JoinAscii(parts[1..], sep);
      AsciiConcat(parts[0], sep);
      AsciiConcat(parts[0] + sep, Join(parts[1..], sep));
    }
  }

  /** With `ensure_ascii`, the serialized text is pure ASCII, so its UTF-8
      encoding is one byte per character. */
  lemma {:induction false} SerializeAscii(j: Json, f: Format)
    requires f.asciiOnly && IsAscii(f.itemSep) && IsAscii(f.keySep)
    ensures IsAscii(Serialize(j, f))
    decreases j
  {
    match j
    case Null =>
    case Bool(b) =>
    case Int(i) =>
      NatTextAscii(if i < 0 then -i else i);
      if i < 0 {
        AsciiConcat("-", NatText(-i));
      }
    case Str(s) =>
      QuoteAscii(s);
    case Array(items) =>
      var parts := SerializeItems(items, f);
      forall k | 0 <= k < |parts| ensures IsAscii(parts[k]) {
        SerializeAscii(items[k], f);
      }
      JoinAscii(parts, f.itemSep);
      AsciiConcat("[", Join(parts, f.itemSep));
      AsciiConcat("[" + Join(parts, f.itemSep), "]");
    case Object(ms) =>
      var r := Render(ms, f);
      var sorted := Sort(r);
      SortPermutes(r);
      var parts := EntryTexts(sorted, f);
      forall k | 0 <= k < |parts| ensures IsAscii(parts[k]) {
        assert sorted[k] in multiset(r);
        var m :| 0 <= m < |r| && r[m] == sorted[k];
        SerializeAscii(ms[m].value, f);
        QuoteAscii(sorted[k].key);
        AsciiConcat(Quote(sorted[k].key, true), f.keySep);
        AsciiConcat(Quote(sorted[k].key, true) + f.keySep, sorted[k].text);
      }
      JoinAscii(parts, f.itemSep);
      AsciiConcat("{", Join(parts, f.itemSep));
      AsciiConcat("{" + Join(parts, f.itemSep), "}");
  }

  /** Sorting only rearranges (no distinctness needed). */
  lemma {:induction false} SortPermutes(s: seq<Entry>)
    ensures multiset(Sort(s)) == multiset(s)
  {
    if s != [] {
      SortPermutes(s[1..]);
      InsertPermutes(s[0], Sort(s[1..]));
      assert s == [s[0]] + s[1..];
    }
  }

  lemma {:induction false} InsertPermutes(x: Entry, s: seq<Entry>)
    ensures multiset(Insert(x, s)) == multiset(s) + multiset{x}
  {
    if s != [] && Below(s[0].key, x.key) {
      InsertPermutes(x, s[1..]);
      assert s == [s[0]] + s[1..];
    }
  }

  // ---------------------------------------------------------------- separators

  /** Entry-wise comparison of two renderings of the same members: same keys in
      the same positions, texts of `long` at least as long as those of `short`. */
  predicate Dominates(long: seq<Entry>, short: seq<Entry>) {
    && |long| == |short|
    && (forall k :: 0 <= k < |long| ==> long[k].key == short[k].key)
    && (forall k :: 0 <= k < |long| ==> |long[k].text| >= |short[k].text|)
  }

  lemma {:induction false} InsertDominates(x: Entry, y: Entry, s: seq<Entry>, t: seq<Entry>)
    requires x.key == y.key && |x.text| >= |y.text| && Dominates(s, t)
    ensures Dominates(Insert(x, s), Insert(y, t))
  {
    if s != [] {
      assert t != [];
      if Below(s[0].key, x.key) {
        InsertDominates(x, y, s[1..], t[1..]);
      }
    }
  }

  /** Sorting depends on keys only, so it keeps renderings aligned. */
  lemma {:induction false} SortDominates(s: seq<Entry>, t: seq<Entry>)
    requires Dominates(s, t)
    ensures Dominates(Sort(s), Sort(t))
  {
    if s != [] {
      SortDominates(s[1..], t[1..]);
      InsertDominates(s[0], t[0], Sort(s[1..]), Sort(t[1..]));
    }
  }

  lemma {:induction false} JoinLonger(p: seq<string>, q: seq<string>, sp: string, sq: string, d: nat)
    requires |p| == |q| && |sp| >= |sq|
    requires forall k :: 0 <= k < |p| ==> |p[k]| >= |q[k]| + d
    ensures |Join(p, sp)| >= |Join(q, sq)| + (if p == [] then 0 else d)
  {
    if |p| > 1 {
      JoinLonger(p[1..], q[1..], sp, sq, d);
    }
  }

  /** With separators at least as long, the serialization is at least as
      long; with a strictly longer key separator, every non-empty object
      serializes strictly longer. */
  lemma {:induction false} LongerSeparatorsLongerText(j: Json, long: Format, short: Format)
    requires long.asciiOnly == short.asciiOnly
    requires |long.itemSep| >= |short.itemSep| && |long.keySep| >= |short.keySep|
    ensures |Serialize(j, long)| >= |Serialize(j, short)|
    ensures j.Object? && j.members != [] && |long.keySep| > |short.keySep| ==>
      |Serialize(j, long)| > |Serialize(j, short)|
    decreases j
  {
    match j
    case Array(items) =>
      var p, q := SerializeItems(items, long), SerializeItems(items, short);
      forall k | 0 <= k < |p| ensures |p[k]| >= |q[k]| + 0 {
        LongerSeparatorsLongerText(items[k], long, short);
      }
      JoinLonger(p, q, long.itemSep, short.itemSep, 0);
    case Object(ms) =>
      var rl, rs := Render(ms, long), Render(ms, short);
      forall k | 0 <= k < |rl| ensures |rl[k].text| >= |rs[k].text| {
        LongerSeparatorsLongerText(ms[k].value, long, short);
      }
      SortDominates(rl, rs);
      var sl, ss := Sort(rl), Sort(rs);
      var p, q := EntryTexts(sl, long), EntryTexts(ss, short);
      var d: nat := |long.keySep| - |short.keySep|;
      forall k | 0 <= k < |p| ensures |p[k]| >= |q[k]| + d {
        assert sl[k].key == ss[k].key;
      }
      JoinLonger(p, q, long.itemSep, short.itemSep, d);
    case _ =>
  }

  /** The text Python stores (`sort_keys`, default separators) differs from
      the text it hashes (compact separators) on every non-empty object. */
  lemma StoredTextDiffersFromHashedText(ms: seq<Member>)
    requires ms != []
    ensures Serialize(Object(ms), PythonDefault) != Serialize(Object(ms), PythonCompact)
  {
    LongerSeparatorsLongerText(Object(ms), PythonDefault, PythonCompact);
  }
}
