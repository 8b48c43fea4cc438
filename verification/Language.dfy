/** The language that the parser accepts: exactly which texts, JSON or not, and with which trees. */
module Language {
  import opened Bytes
  import opened CLibrary
  import opened Items
  import opened Utf8
  import opened StringParser
  import opened Grammar
  import opened Parser

  // ----- the language, as a relation between trees and texts

  /** The parser takes every byte up to 32 for white space. */
  predicate Gap(s: bytes) {
    forall i :: 0 <= i < |s| ==> s[i] <= 32
  }

  ghost predicate Framed(t: bytes, before: bytes, text: bytes, after: bytes) {
    t == before + text + after && Gap(before) && Gap(after)
  }

  /** A run of number bytes all of which strtod takes. */
  predicate SpellsNumber(lib: CLib, t: bytes) {
    t != [] && (t[0] == MINUS || IsDigit(t[0])) && AllNumberBytes(t) && lib.strtod(t).consumed == |t|
  }

  /** Any bytes, where a backslash takes one more byte with it and a quote must be taken. */
  predicate Scanned(s: bytes) {
    s == [] ||
    if s[0] == QUOTE then false
    else if s[0] == BACKSLASH then |s| > 1 && Scanned(s[2..])
    else Scanned(s[1..])
  }

  /** The last character is an escaped quote. */
  predicate Overruns(cs: seq<Chr>) {
    cs != [] && cs[|cs| - 1] == Escape(QUOTE)
  }

  /**
   * The second look at the same bytes: they are readable characters. When an
   * escape ended in the middle of another, the closing quote may be read too.
   */
  predicate ReadAs(cs: seq<Chr>, s: bytes) {
    ReadableChrs(cs) && (FlatChrs(cs) == s || (Overruns(cs) && FlatChrs(cs) == s + [QUOTE]))
  }

  predicate Enclosed(t: bytes, open: byte, body: bytes, close: byte) {
    t == [open] + body + [close]
  }

  ghost predicate SpellsString(t: bytes, text: Option<cstring>) {
    exists body: bytes, cs: seq<Chr> ::
      Enclosed(t, QUOTE, body, QUOTE) && Scanned(body) && ReadAs(cs, body) && text == Some(Bytes.CString(Meanings(cs)))
  }

  ghost predicate SpellsName(t: bytes, name: Option<cstring>) {
    exists before, text, after :: Framed(t, before, text, after) && SpellsString(text, name)
  }

  /** `t` is a text of the tree `v`, whatever its name, at nesting depth `d`. */
  ghost predicate Spells(lib: CLib, v: Item, t: bytes, d: nat)
    decreases v, 2
  {
    match v
    case Null(_) => t == NULL_TEXT
    case False(_) => t == FALSE_TEXT
    case True(_) => t == TRUE_TEXT
    case Number(_, x) => SpellsNumber(lib, t) && x == lib.strtod(t).value
    case String(_, text) => SpellsString(t, text)
    case Array(_, kids) =>
      d < NESTING_LIMIT && exists body :: Enclosed(t, OPEN_BRACKET, body, CLOSE_BRACKET)
                                          && SpellsList(lib, kids, body, d + 1, false)
    case Object(_, kids) =>
      d < NESTING_LIMIT && exists body :: Enclosed(t, OPEN_BRACE, body, CLOSE_BRACE)
                                          && SpellsList(lib, kids, body, d + 1, true)
    case _ => false
  }

  predicate Separated(t: bytes, first: bytes, separator: byte, rest: bytes) {
    t == first + [separator] + rest
  }

  /** What stands between brackets or braces. */
  ghost predicate SpellsList(lib: CLib, kids: seq<Item>, t: bytes, d: nat, members: bool)
    decreases kids, 1
  {
    if kids == [] then Gap(t)
    else if |kids| == 1 then SpellsOne(lib, kids[0], t, d, members)
    else
      exists first, rest :: Separated(t, first, COMMA, rest)
                            && SpellsOne(lib, kids[0], first, d, members)
                            && SpellsList(lib, kids[1..], rest, d, members)
  }

  /** An element, or a member with its name. */
  ghost predicate SpellsOne(lib: CLib, v: Item, t: bytes, d: nat, members: bool)
    decreases v, 4
  {
    if members then
      exists name, value :: Separated(t, name, COLON, value)
                            && SpellsName(name, v.key) && SpellsValue(lib, v, value, d)
    else v.key == None && SpellsValue(lib, v, t, d)
  }

  ghost predicate SpellsValue(lib: CLib, v: Item, t: bytes, d: nat)
    decreases v, 3
  {
    exists before, text, after :: Framed(t, before, text, after) && Spells(lib, v, text, d)
  }

  // ----- texts of the language are parsed: strings

  lemma HexAt(s: bytes, i: nat, hex: bytes)
    requires |hex| == 4 && At(s, i, hex)
    ensures FourHex(s, i) == FourHex(hex, 0) && Hex4(s, i) == Hex4(hex, 0)
  {
    AtByte(s, i, hex, 0);
    AtByte(s, i, hex, 1);
    AtByte(s, i, hex, 2);
    AtByte(s, i, hex, 3);
  }

  /** The parts of an escape, at the places where the parser looks for them. */
  lemma UnitAt(s: bytes, i: nat, hex: bytes)
    requires |hex| == 4 && At(s, i, FlatChr(Unit(hex)))
    ensures s[i] == BACKSLASH && s[i + 1] == LETTER_U
    ensures FourHex(hex, 0) ==> FourHex(s, i + 2)
    ensures Hex4(s, i + 2) == Hex4(hex, 0)
  {
    AtConcat(s, i, [BACKSLASH, LETTER_U], hex);
    AtByte(s, i, [BACKSLASH, LETTER_U], 0);
    AtByte(s, i, [BACKSLASH, LETTER_U], 1);
    HexAt(s, i + 2, hex);
  }

  lemma PairAt(s: bytes, i: nat, lead: bytes, trail: bytes)
    requires ReadableChr(Pair(lead, trail)) && At(s, i, FlatChr(Pair(lead, trail)))
    ensures s[i] == BACKSLASH && s[i + 1] == LETTER_U && s[i + 6] == BACKSLASH && s[i + 7] == LETTER_U
    ensures FourHex(s, i + 2) && FourHex(s, i + 8)
    ensures Hex4(s, i + 2) == Hex4(lead, 0) && Hex4(s, i + 8) == Hex4(trail, 0)
  {
    var u := [BACKSLASH, LETTER_U];
    AtConcat(s, i, u + lead + u, trail);
    AtConcat(s, i, u + lead, u);
    AtConcat(s, i, u, lead);
    AtByte(s, i, u, 0);
    AtByte(s, i, u, 1);
    AtByte(s, i + 6, u, 0);
    AtByte(s, i + 6, u, 1);
    HexAt(s, i + 2, lead);
    HexAt(s, i + 8, trail);
  }

  lemma DecodesChr(s: bytes, p: nat, end: nat, c: Chr, acc: bytes)
    requires ReadableChr(c) && At(s, p, FlatChr(c)) && p < end < |s| && (c.Escape? || p + |FlatChr(c)| <= end)
    ensures DecodeFrom(s, p, end, acc) == DecodeFrom(s, p + |FlatChr(c)|, end, acc + Meaning(c))
  {
    hide At, DecodeFrom, Encode, Hex4;
    DecodeOne(s, p, end, acc);
    match c
    case Plain(b) => AtByte(s, p, FlatChr(c), 0);
    case Escape(_) =>
      AtByte(s, p, FlatChr(c), 0);
      AtByte(s, p, FlatChr(c), 1);
    case Unit(hex) => UnitAt(s, p, hex);
    case Pair(lead, trail) => PairAt(s, p, lead, trail);
  }

  /** The second pass may take the closing quote for an escaped one, and then ends behind it. */
  lemma {:induction false} DecodesTo(s: bytes, p: nat, end: nat, cs: seq<Chr>, acc: bytes)
    requires ReadableChrs(cs) && At(s, p, FlatChrs(cs)) && end < |s|
    requires p + |FlatChrs(cs)| == end || (Overruns(cs) && p + |FlatChrs(cs)| == end + 1)
    ensures DecodeFrom(s, p, end, acc) == Unescaped(acc + Meanings(cs))
    decreases cs
  {
    hide At, FlatChr, ReadableChr, Meaning;
    if cs == [] {
      assert acc + [] == acc;
    } else {
      FlatChrSize(cs[0]);
      FlatChrsSize(cs[1..]);
      AtConcat(s, p, FlatChr(cs[0]), FlatChrs(cs[1..]));
      DecodesChr(s, p, end, cs[0], acc);
      if |cs| > 1 || p + |FlatChrs(cs)| == end {
        DecodesTo(s, p + |FlatChr(cs[0])|, end, cs[1..], acc + Meaning(cs[0]));
      }
      assert acc + Meaning(cs[0]) + Meanings(cs[1..]) == acc + Meanings(cs);
    }
  }

  lemma FlatChrSize(c: Chr)
    ensures |FlatChr(c)| > 0 && (c.Escape? ==> |FlatChr(c)| == 2)
  {
  }

  lemma {:induction false} FlatChrsSize(cs: seq<Chr>)
    ensures Overruns(cs) ==> |FlatChrs(cs)| >= 2
    ensures |FlatChrs(cs)| == 0 ==> cs == []
  {
    hide FlatChr;
    if cs != [] {
      FlatChrSize(cs[0]);
      FlatChrsSize(cs[1..]);
    }
  }

  lemma {:induction false} ScannedCloses(s: bytes, i: nat, t: bytes)
    requires Scanned(t) && At(s, i, t) && i + |t| < |s| && s[i + |t|] == QUOTE
    ensures CloseQuote(s, i) == Some(i + |t|)
    decreases |t|
  {
    hide At;
    if t != [] {
      AtByte(s, i, t, 0);
      var n := if t[0] == BACKSLASH then 2 else 1;
      assert t == t[..n] + t[n..];
      AtConcat(s, i, t[..n], t[n..]);
      ScannedCloses(s, i + n, t[n..]);
    }
  }

  lemma EnclosedIn(s: bytes, i: nat, t: bytes, open: byte, body: bytes, close: byte)
    requires At(s, i, t) && Enclosed(t, open, body, close)
    ensures i + |t| <= |s| && |t| == |body| + 2
    ensures s[i] == open && At(s, i + 1, body) && s[i + 1 + |body|] == close
  {
    hide At;
    AtConcat(s, i, [open] + body, [close]);
    AtConcat(s, i, [open], body);
    AtByte(s, i, [open], 0);
    AtByte(s, i + 1 + |body|, [close], 0);
  }

  lemma ParsesSpelledString(s: bytes, i: nat, t: bytes, text: Option<cstring>)
    requires At(s, i, t) && SpellsString(t, text)
    ensures i < |s| && s[i] == QUOTE && t != [] && t[0] == QUOTE
    ensures
      var r := ParseString(s, i);
      r.StringRead? && r.next == i + |t| && text == Some(Bytes.CString(r.text))
  {
    hide At, CloseQuote, DecodeFrom, FlatChrs, Meanings, Scanned, ReadableChrs, Overruns;
    var body: bytes, cs: seq<Chr> :|
      Enclosed(t, QUOTE, body, QUOTE) && Scanned(body) && ReadAs(cs, body) && text == Some(Bytes.CString(Meanings(cs)));
    EnclosedIn(s, i, t, QUOTE, body, QUOTE);
    ScannedCloses(s, i + 1, body);
    if FlatChrs(cs) != body {
      QuoteBehind(s, i + 1, body);
    }
    DecodesTo(s, i + 1, i + 1 + |body|, cs, []);
    assert [] + Meanings(cs) == Meanings(cs);
  }

  lemma QuoteBehind(s: bytes, i: nat, t: bytes)
    requires At(s, i, t) && i + |t| < |s| && s[i + |t|] == QUOTE
    ensures At(s, i, t + [QUOTE])
  {
    assert At(s, i + |t|, [QUOTE]);
    AtConcat(s, i, t, [QUOTE]);
  }

  // ----- white space and first bytes

  lemma {:induction false} GapEnds(s: bytes, i: nat, w: bytes)
    requires At(s, i, w) && Gap(w) && i + |w| < |s| && s[i + |w|] > 32
    ensures SpaceEnd(s, i) == i + |w|
    decreases |w|
  {
    if w != [] {
      AtByte(s, i, w, 0);
      AtConcat(s, i, [w[0]], w[1..]);
      assert [w[0]] + w[1..] == w;
      GapEnds(s, i + 1, w[1..]);
    }
  }

  lemma GapSkipped(s: bytes, i: nat, w: bytes)
    requires At(s, i, w) && Gap(w) && i + |w| < |s| && s[i + |w|] > 32
    ensures SkipSpace(s, i) == i + |w|
  {
    hide At, SpaceEnd;
    GapEnds(s, i, w);
  }

  /** Where the parts of a framed text lie. */
  lemma FramedAt(s: bytes, i: nat, t: bytes, before: bytes, text: bytes, after: bytes)
    requires At(s, i, t) && Framed(t, before, text, after)
    ensures At(s, i, before) && At(s, i + |before|, text) && At(s, i + |before| + |text|, after)
    ensures |t| == |before| + |text| + |after| && Gap(before) && Gap(after)
  {
    hide At;
    AtConcat(s, i, before + text, after);
    AtConcat(s, i, before, text);
  }

  lemma SeparatedAt(s: bytes, i: nat, t: bytes, first: bytes, separator: byte, rest: bytes)
    requires At(s, i, t) && Separated(t, first, separator, rest)
    ensures At(s, i, first) && i + |first| < |s| && s[i + |first|] == separator && At(s, i + |first| + 1, rest)
    ensures |t| == |first| + 1 + |rest|
  {
    hide At;
    AtConcat(s, i, first + [separator], rest);
    AtConcat(s, i, first, [separator]);
    AtByte(s, i + |first|, [separator], 0);
  }

  /** How a value starts tells which kind of value it is. */
  lemma FirstOf(lib: CLib, v: Item, t: bytes, d: nat)
    requires Spells(lib, v, t, d)
    ensures t != [] && 32 < t[0]
    ensures v.Number? ==> IsDigit(t[0]) || t[0] == MINUS
    ensures v.String? ==> t[0] == QUOTE
    ensures v.Array? ==> t[0] == OPEN_BRACKET
    ensures v.Object? ==> t[0] == OPEN_BRACE
    ensures t[0] != CLOSE_BRACKET && t[0] != CLOSE_BRACE
  {
    hide Scanned, ReadAs, SpellsList, Meanings;
  }

  predicate ListEnd(b: byte) {
    b == COMMA || b == CLOSE_BRACKET || b == CLOSE_BRACE
  }

  /** A number must not run into more bytes of a number. */
  predicate Delimited(s: bytes, i: nat) {
    i < |s| ==> !NumberByte(s[i])
  }

  lemma NotALiteral(s: bytes, i: nat)
    requires i < |s| && (s[i] < 102 || s[i] == OPEN_BRACE)
    ensures !At(s, i, NULL_TEXT) && !At(s, i, FALSE_TEXT) && !At(s, i, TRUE_TEXT)
  {
    if At(s, i, NULL_TEXT) {
      AtByte(s, i, NULL_TEXT, 0);
    }
    if At(s, i, FALSE_TEXT) {
      AtByte(s, i, FALSE_TEXT, 0);
    }
    if At(s, i, TRUE_TEXT) {
      AtByte(s, i, TRUE_TEXT, 0);
    }
  }

  // ----- texts of the language are parsed: values

  lemma {:induction false} ParsesSpelled(lib: CLib, s: bytes, i: nat, d: nat, v: Item, t: bytes)
    requires At(s, i, t) && Spells(lib, v, t, d) && (v.Number? ==> Delimited(s, i + |t|))
    ensures ParseValue(lib, s, i, d) == Ok(WithKey(v, None), i + |t|)
    decreases v, 5
  {
    hide At, Delimited, SpellsNumber, SpellsString, SpellsList, ParseNumber, ParseString, ParseArray, ParseObject;
    FirstOf(lib, v, t, d);
    AtByte(s, i, t, 0);
    match v
    case Number(_, x) =>
      NotALiteral(s, i);
      ParsesSpelledNumber(lib, s, i, t);
    case String(_, text) =>
      NotALiteral(s, i);
      ParsesSpelledString(s, i, t, text);
    case Array(_, _) =>
      NotALiteral(s, i);
      ParsesSpelledArray(lib, s, i, d, v, t);
    case Object(_, _) =>
      NotALiteral(s, i);
      ParsesSpelledObject(lib, s, i, d, v, t);
    case _ => OneLiteral(s, i, t);
  }

  lemma OneLiteral(s: bytes, i: nat, t: bytes)
    requires At(s, i, t) && (t == NULL_TEXT || t == FALSE_TEXT || t == TRUE_TEXT)
    ensures At(s, i, NULL_TEXT) <==> t == NULL_TEXT
    ensures At(s, i, FALSE_TEXT) <==> t == FALSE_TEXT
    ensures At(s, i, TRUE_TEXT) <==> t == TRUE_TEXT
    ensures |NULL_TEXT| == 4 && |FALSE_TEXT| == 5 && |TRUE_TEXT| == 4
  {
    AtByte(s, i, t, 0);
    if At(s, i, NULL_TEXT) {
      AtByte(s, i, NULL_TEXT, 0);
    }
    if At(s, i, FALSE_TEXT) {
      AtByte(s, i, FALSE_TEXT, 0);
    }
    if At(s, i, TRUE_TEXT) {
      AtByte(s, i, TRUE_TEXT, 0);
    }
  }

  lemma ParsesSpelledNumber(lib: CLib, s: bytes, i: nat, t: bytes)
    requires SpellsNumber(lib, t) && At(s, i, t) && Delimited(s, i + |t|)
    ensures ParseNumber(lib, s, i) == Ok(Number(None, lib.strtod(t).value), i + |t|)
  {
    hide At;
    SliceIs(s, i, t);
    forall k | i <= k < i + |t| ensures NumberByte(s[k]) {
      AtByte(s, i, t, k - i);
    }
    assert NumberEnd(s, i) == i + |t|;
  }

  lemma SliceIs(s: bytes, i: nat, t: bytes)
    requires At(s, i, t)
    ensures i + |t| <= |s| && s[i..i + |t|] == t
  {
  }

  /** A value in a list is found behind the white space, and so is what ends it. */
  lemma {:induction false} ParsesSpelledValue(lib: CLib, s: bytes, i: nat, d: nat, v: Item, t: bytes)
    requires At(s, i, t) && SpellsValue(lib, v, t, d) && i + |t| < |s| && ListEnd(s[i + |t|])
    ensures i < |s| && t != [] && s[SkipSpace(s, i)] > 32
    ensures s[SkipSpace(s, i)] != CLOSE_BRACKET && s[SkipSpace(s, i)] != CLOSE_BRACE
    ensures
      var r := ParseValue(lib, s, SkipSpace(s, i), d);
      r.Ok? && r.item == WithKey(v, None) && SkipSpace(s, r.next) == i + |t|
    decreases v, 6
  {
    hide At, Spells, ParseValue, SkipSpace, Gap, Framed, Delimited;
    var before, text, after :| Framed(t, before, text, after) && Spells(lib, v, text, d);
    FramedAt(s, i, t, before, text, after);
    FirstOf(lib, v, text, d);
    var j := i + |before|;
    AtByte(s, j, text, 0);
    GapSkipped(s, i, before);
    GapDelimits(s, j + |text|, after);
    ParsesSpelled(lib, s, j, d, v, text);
    GapSkipped(s, j + |text|, after);
  }

  lemma GapDelimits(s: bytes, n: nat, w: bytes)
    requires At(s, n, w) && Gap(w) && n + |w| < |s| && ListEnd(s[n + |w|])
    ensures Delimited(s, n)
  {
    if w != [] {
      AtByte(s, n, w, 0);
    }
  }

  lemma {:induction false} LastOfList(lib: CLib, kids: seq<Item>, t: bytes, d: nat, members: bool)
    requires |kids| == 1
    ensures SpellsList(lib, kids, t, d, members) <==> SpellsOne(lib, kids[0], t, d, members)
  {
    hide SpellsOne;
  }

  lemma {:induction false} FirstSpelled(lib: CLib, kids: seq<Item>, t: bytes, d: nat, members: bool)
    returns (first: bytes, rest: bytes)
    requires |kids| > 1 && SpellsList(lib, kids, t, d, members)
    ensures Separated(t, first, COMMA, rest)
    ensures SpellsOne(lib, kids[0], first, d, members) && SpellsList(lib, kids[1..], rest, d, members)
  {
    hide SpellsOne;
    first, rest :|
      Separated(t, first, COMMA, rest) && SpellsOne(lib, kids[0], first, d, members)
      && SpellsList(lib, kids[1..], rest, d, members);
  }

  lemma OneElement(lib: CLib, v: Item, t: bytes, d: nat)
    ensures SpellsOne(lib, v, t, d, false) <==> v.key == None && SpellsValue(lib, v, t, d)
  {
    hide SpellsValue;
  }

  lemma {:induction false} ParsesSpelledElements(lib: CLib, s: bytes, i: nat, d: nat, kids: seq<Item>, t: bytes,
                                                 acc: seq<Item>)
    requires i < |s| && kids != [] && SpellsList(lib, kids, t, d, false)
    requires At(s, i + 1, t) && i + 1 + |t| < |s| && s[i + 1 + |t|] == CLOSE_BRACKET
    ensures ParseElements(lib, s, i, d, acc) == Ok(Array(None, acc + kids), i + 2 + |t|)
    decreases kids, 7
  {
    hide At, ParseElements, ParseValue, SkipSpace, SpellsList, SpellsOne, SpellsValue;
    ElementsStep(lib, s, i, d, acc);
    if |kids| == 1 {
      LastOfList(lib, kids, t, d, false);
      OneElement(lib, kids[0], t, d);
      ParsesSpelledValue(lib, s, i + 1, d, kids[0], t);
      assert acc + [kids[0]] == acc + kids;
    } else {
      var first, rest := FirstSpelled(lib, kids, t, d, false);
      SeparatedAt(s, i + 1, t, first, COMMA, rest);
      OneElement(lib, kids[0], first, d);
      ParsesSpelledValue(lib, s, i + 1, d, kids[0], first);
      ParsesSpelledElements(lib, s, i + 1 + |first|, d, kids[1..], rest, acc + [kids[0]]);
      assert acc + [kids[0]] + kids[1..] == acc + kids;
    }
  }

  // ----- one step of the loops

  lemma ElementsStep(lib: CLib, s: bytes, i: nat, d: nat, acc: seq<Item>)
    requires i < |s|
    ensures
      var r := ParseValue(lib, s, SkipSpace(s, i + 1), d);
      ParseElements(lib, s, i, d, acc) ==
        if r.Fail? then r
        else
          var j := SkipSpace(s, r.next);
          if j < |s| && s[j] == COMMA then ParseElements(lib, s, j, d, acc + [r.item])
          else if j < |s| && s[j] == CLOSE_BRACKET then Ok(Array(None, acc + [r.item]), j + 1)
          else Fail(j)
  {
    hide ParseValue, SkipSpace;
  }

  lemma MembersStep(lib: CLib, s: bytes, i: nat, d: nat, acc: seq<Item>)
    requires i < |s|
    ensures ParseName(s, i).NoString? ==> ParseMembers(lib, s, i, d, acc) == Fail(ParseName(s, i).at)
    ensures ParseName(s, i).StringRead? ==>
      var r := ParseValue(lib, s, SkipSpace(s, ParseName(s, i).next + 1), d);
      ParseMembers(lib, s, i, d, acc) ==
        if r.Fail? then r
        else
          var item, j := WithKey(r.item, Some(Bytes.CString(ParseName(s, i).text))), SkipSpace(s, r.next);
          if j < |s| && s[j] == COMMA then ParseMembers(lib, s, j, d, acc + [item])
          else if j < |s| && s[j] == CLOSE_BRACE then Ok(Object(None, acc + [item]), j + 1)
          else Fail(j)
  {
    hide ParseName, ParseValue, SkipSpace;
  }

  lemma SkippedAlready(s: bytes, j: nat)
    requires 0 < j < |s| && s[j] > 32
    ensures SkipSpace(s, j) == j
  {
  }

  /** The loops start behind the white space that was skipped already. */
  lemma ElementsFrom(lib: CLib, s: bytes, i: nat, j: nat, d: nat)
    requires i < j < |s| && SkipSpace(s, i + 1) == j && s[j] > 32
    ensures ParseElements(lib, s, j - 1, d, []) == ParseElements(lib, s, i, d, [])
  {
    hide ParseElements, ParseValue, SkipSpace;
    SkippedAlready(s, j);
    ElementsStep(lib, s, i, d, []);
    ElementsStep(lib, s, j - 1, d, []);
  }

  lemma NamesFrom(s: bytes, i: nat, j: nat)
    requires i < j < |s| && SkipSpace(s, i + 1) == j && s[j] > 32
    ensures ParseName(s, j - 1) == ParseName(s, i)
  {
    hide ParseString, SkipSpace;
    SkippedAlready(s, j);
  }

  lemma MembersFrom(lib: CLib, s: bytes, i: nat, j: nat, d: nat)
    requires i < j < |s| && SkipSpace(s, i + 1) == j && s[j] > 32
    ensures ParseMembers(lib, s, j - 1, d, []) == ParseMembers(lib, s, i, d, [])
  {
    hide ParseMembers, ParseName, ParseValue, SkipSpace;
    NamesFrom(s, i, j);
    MembersStep(lib, s, i, d, []);
    MembersStep(lib, s, j - 1, d, []);
  }

  lemma {:induction false} ParsesSpelledArray(lib: CLib, s: bytes, i: nat, d: nat, v: Item, t: bytes)
    requires v.Array? && At(s, i, t) && Spells(lib, v, t, d)
    ensures i < |s| && ParseArray(lib, s, i, d) == Ok(WithKey(v, None), i + |t|)
    decreases v, 4
  {
    hide At, Spells, SpellsList, ParseElements, SkipSpace, Gap;
    var body := ArrayBody(lib, v, t, d);
    EnclosedIn(s, i, t, OPEN_BRACKET, body, CLOSE_BRACKET);
    if v.kids == [] {
      EmptyIsGap(lib, body, d + 1, false);
      GapSkipped(s, i + 1, body);
    } else {
      ElementStarts(lib, s, i + 1, d + 1, v.kids, body);
      ElementsFrom(lib, s, i, SkipSpace(s, i + 1), d + 1);
      ParsesSpelledElements(lib, s, i, d + 1, v.kids, body, []);
      assert [] + v.kids == v.kids;
    }
  }

  lemma {:induction false} ArrayBody(lib: CLib, v: Item, t: bytes, d: nat) returns (body: bytes)
    requires v.Array? && Spells(lib, v, t, d)
    ensures d < NESTING_LIMIT && Enclosed(t, OPEN_BRACKET, body, CLOSE_BRACKET)
    ensures SpellsList(lib, v.kids, body, d + 1, false)
  {
    hide SpellsList, Enclosed;
    body :| Enclosed(t, OPEN_BRACKET, body, CLOSE_BRACKET) && SpellsList(lib, v.kids, body, d + 1, false);
  }

  lemma {:induction false} ObjectBody(lib: CLib, v: Item, t: bytes, d: nat) returns (body: bytes)
    requires v.Object? && Spells(lib, v, t, d)
    ensures d < NESTING_LIMIT && Enclosed(t, OPEN_BRACE, body, CLOSE_BRACE)
    ensures SpellsList(lib, v.kids, body, d + 1, true)
  {
    hide SpellsList, Enclosed;
    body :| Enclosed(t, OPEN_BRACE, body, CLOSE_BRACE) && SpellsList(lib, v.kids, body, d + 1, true);
  }

  lemma EmptyIsGap(lib: CLib, t: bytes, d: nat, members: bool)
    ensures SpellsList(lib, [], t, d, members) <==> Gap(t)
  {
  }

  lemma {:induction false} ElementStarts(lib: CLib, s: bytes, i: nat, d: nat, kids: seq<Item>, t: bytes)
    requires kids != [] && At(s, i, t) && SpellsList(lib, kids, t, d, false)
    requires i + |t| < |s| && s[i + |t|] == CLOSE_BRACKET
    ensures i < |s| && s[SkipSpace(s, i)] > 32 && s[SkipSpace(s, i)] != CLOSE_BRACKET
    decreases kids, 8
  {
    hide At, ParseValue, SkipSpace, SpellsList, SpellsOne, SpellsValue;
    if |kids| == 1 {
      LastOfList(lib, kids, t, d, false);
      OneElement(lib, kids[0], t, d);
      ParsesSpelledValue(lib, s, i, d, kids[0], t);
    } else {
      var first, rest := FirstSpelled(lib, kids, t, d, false);
      SeparatedAt(s, i, t, first, COMMA, rest);
      OneElement(lib, kids[0], first, d);
      ParsesSpelledValue(lib, s, i, d, kids[0], first);
    }
  }

  // ----- texts of the language are parsed: members

  lemma ParsesSpelledName(s: bytes, i: nat, t: bytes, name: Option<cstring>)
    requires i < |s| && At(s, i + 1, t) && SpellsName(t, name) && i + 1 + |t| < |s| && s[i + 1 + |t|] == COLON
    ensures
      var r := ParseName(s, i);
      r.StringRead? && r.next == i + 1 + |t| && name == Some(Bytes.CString(r.text))
    ensures QuoteAhead(s, i + 1)
  {
    hide At, SpellsString, ParseString, SkipSpace, Gap;
    var before, text, after :| Framed(t, before, text, after) && SpellsString(text, name);
    FramedAt(s, i + 1, t, before, text, after);
    var j := i + 1 + |before|;
    ParsesSpelledString(s, j, text, name);
    GapSkipped(s, i + 1, before);
    GapSkipped(s, j + |text|, after);
  }

  lemma {:induction false} MemberShape(lib: CLib, v: Item, t: bytes, d: nat) returns (name: bytes, value: bytes)
    requires SpellsOne(lib, v, t, d, true)
    ensures Separated(t, name, COLON, value) && SpellsName(name, v.key) && SpellsValue(lib, v, value, d)
  {
    hide SpellsValue, SpellsName;
    name, value :| Separated(t, name, COLON, value) && SpellsName(name, v.key) && SpellsValue(lib, v, value, d);
  }

  /** The next thing behind the white space is a string. */
  predicate QuoteAhead(s: bytes, i: nat) {
    i < |s| && s[SkipSpace(s, i)] == QUOTE
  }

  /** A member with the name and value of `v` is parsed behind `i`, up to `n`. */
  predicate MemberParsed(lib: CLib, s: bytes, i: nat, d: nat, v: Item, n: nat) {
    i < |s| && ParseName(s, i).StringRead? &&
    var r := ParseValue(lib, s, SkipSpace(s, ParseName(s, i).next + 1), d);
    && r.Ok? && WithKey(r.item, Some(Bytes.CString(ParseName(s, i).text))) == v && SkipSpace(s, r.next) == n
  }

  /** A member is found, with its name. */
  lemma {:induction false} ParsesSpelledMember(lib: CLib, s: bytes, i: nat, d: nat, v: Item, t: bytes)
    requires i < |s| && At(s, i + 1, t) && SpellsOne(lib, v, t, d, true) && i + 1 + |t| < |s| && ListEnd(s[i + 1 + |t|])
    ensures QuoteAhead(s, i + 1) && MemberParsed(lib, s, i, d, v, i + 1 + |t|)
    decreases v, 7
  {
    hide At, SpellsOne, SpellsName, SpellsValue, ParseName, ParseValue, SkipSpace, Separated;
    var name, value := MemberShape(lib, v, t, d);
    SeparatedAt(s, i + 1, t, name, COLON, value);
    ParsesSpelledName(s, i, name, v.key);
    ParsesSpelledValue(lib, s, i + 2 + |name|, d, v, value);
  }

  lemma MemberRead(lib: CLib, s: bytes, i: nat, d: nat, v: Item, m: nat, acc: seq<Item>)
    requires i < |s| && m < |s| && MemberParsed(lib, s, i, d, v, m)
    ensures s[m] == COMMA ==> ParseMembers(lib, s, i, d, acc) == ParseMembers(lib, s, m, d, acc + [v])
    ensures s[m] == CLOSE_BRACE ==> ParseMembers(lib, s, i, d, acc) == Ok(Object(None, acc + [v]), m + 1)
  {
    hide ParseMembers, ParseName, ParseValue, SkipSpace;
    MembersStep(lib, s, i, d, acc);
  }

  lemma {:induction false} ParsesSpelledMembers(lib: CLib, s: bytes, i: nat, d: nat, kids: seq<Item>, t: bytes,
                                                acc: seq<Item>)
    requires i < |s| && kids != [] && SpellsList(lib, kids, t, d, true)
    requires At(s, i + 1, t) && i + 1 + |t| < |s| && s[i + 1 + |t|] == CLOSE_BRACE
    ensures ParseMembers(lib, s, i, d, acc) == Ok(Object(None, acc + kids), i + 2 + |t|)
    ensures QuoteAhead(s, i + 1)
    decreases kids, 7
  {
    hide At, ParseMembers, ParseName, ParseValue, SkipSpace, SpellsList, SpellsOne, MemberParsed;
    if |kids| == 1 {
      LastOfList(lib, kids, t, d, true);
      ParsesSpelledMember(lib, s, i, d, kids[0], t);
      MemberRead(lib, s, i, d, kids[0], i + 1 + |t|, acc);
      assert acc + [kids[0]] == acc + kids;
    } else {
      var first, rest := FirstSpelled(lib, kids, t, d, true);
      SeparatedAt(s, i + 1, t, first, COMMA, rest);
      ParsesSpelledMember(lib, s, i, d, kids[0], first);
      MemberRead(lib, s, i, d, kids[0], i + 1 + |first|, acc);
      ParsesSpelledMembers(lib, s, i + 1 + |first|, d, kids[1..], rest, acc + [kids[0]]);
      assert acc + [kids[0]] + kids[1..] == acc + kids;
    }
  }

  lemma {:induction false} ParsesSpelledObject(lib: CLib, s: bytes, i: nat, d: nat, v: Item, t: bytes)
    requires v.Object? && At(s, i, t) && Spells(lib, v, t, d)
    ensures i < |s| && ParseObject(lib, s, i, d) == Ok(WithKey(v, None), i + |t|)
    decreases v, 4
  {
    hide At, Spells, SpellsList, ParseMembers, SkipSpace, Gap;
    var body := ObjectBody(lib, v, t, d);
    EnclosedIn(s, i, t, OPEN_BRACE, body, CLOSE_BRACE);
    if v.kids == [] {
      EmptyIsGap(lib, body, d + 1, true);
      GapSkipped(s, i + 1, body);
    } else {
      ParsesSpelledMembers(lib, s, i, d + 1, v.kids, body, []);
      MembersFrom(lib, s, i, SkipSpace(s, i + 1), d + 1);
      assert [] + v.kids == v.kids;
    }
  }

  // ----- what is parsed is a text of the language: strings

  lemma {:induction false} ScannedTo(s: bytes, i: nat)
    requires i <= |s| && CloseQuote(s, i).Some?
    ensures Scanned(s[i..CloseQuote(s, i).value])
    decreases |s| - i
  {
    var t := s[i..CloseQuote(s, i).value];
    if t != [] {
      var n := if s[i] == BACKSLASH then 2 else 1;
      ScannedTo(s, i + n);
      assert t[n..] == s[i + n..CloseQuote(s, i).value];
    }
  }

  lemma ReadCons(c: Chr, rest: seq<Chr>, s: bytes, p: nat, n: nat, end: nat)
    requires p + n <= end <= |s| && ReadableChr(c) && FlatChr(c) == s[p..p + n] && ReadAs(rest, s[p + n..end])
    ensures ReadAs([c] + rest, s[p..end]) && Meanings([c] + rest) == Meaning(c) + Meanings(rest)
  {
    hide FlatChr, ReadableChr, Meaning;
    assert ([c] + rest)[1..] == rest;
    assert s[p..end] == s[p..p + n] + s[p + n..end];
    assert s[p..p + n] + (s[p + n..end] + [QUOTE]) == s[p..end] + [QUOTE];
  }

  /** The character that the second pass reads at `p`. */
  function ChrAt(s: bytes, p: nat, end: nat): (c: Chr)
    requires p < end < |s|
  {
    if s[p] != BACKSLASH then Plain(s[p])
    else if Unescape(s[p + 1]).Some? then Escape(s[p + 1])
    else if p + 6 > |s| then Plain(s[p])
    else if LiteralAt(s, p, end).Good? && LiteralAt(s, p, end).length == 12 then
      Pair(s[p + 2..p + 6], s[p + 8..p + 12])
    else Unit(s[p + 2..p + 6])
  }

  lemma HexSlice(s: bytes, i: nat)
    requires i + 4 <= |s|
    ensures Hex4(s[i..i + 4], 0) == Hex4(s, i)
  {
    hide Hex4;
    HexAt(s, i, s[i..i + 4]);
  }

  lemma DecodeOne(s: bytes, p: nat, end: nat, acc: bytes)
    requires p < end < |s|
    ensures DecodeFrom(s, p, end, acc) ==
      if s[p] != BACKSLASH then DecodeFrom(s, p + 1, end, acc + [s[p]])
      else if Unescape(s[p + 1]).Some? then DecodeFrom(s, p + 2, end, acc + [Unescape(s[p + 1]).value])
      else if s[p + 1] == LETTER_U && LiteralAt(s, p, end).Good? then
        var l := LiteralAt(s, p, end);
        DecodeFrom(s, p + l.length, end, acc + Encode(l.codepoint))
      else BadAt(p)
  {
    hide LiteralAt, Encode, Unescape;
  }

  lemma PlainRead(s: bytes, p: nat)
    requires p < |s| && s[p] != BACKSLASH
    ensures var c := Plain(s[p]); ReadableChr(c) && FlatChr(c) == s[p..p + 1] && Meaning(c) == [s[p]]
  {
  }

  lemma EscapeRead(s: bytes, p: nat)
    requires p + 1 < |s| && s[p] == BACKSLASH && Unescape(s[p + 1]).Some?
    ensures
      var c := Escape(s[p + 1]);
      ReadableChr(c) && FlatChr(c) == s[p..p + 2] && Meaning(c) == [Unescape(s[p + 1]).value]
  {
    hide Unescape;
    TwoBytes(s, p);
  }

  lemma ChrRead(s: bytes, p: nat, end: nat, acc: bytes)
    requires p < end < |s| && DecodeFrom(s, p, end, acc) != BadAt(p)
    ensures
      var c := ChrAt(s, p, end);
      var n := |FlatChr(c)|;
      && ReadableChr(c) && n > 0 && p + n <= |s| && FlatChr(c) == s[p..p + n] && (c.Escape? || p + n <= end)
      && (c.Escape? ==> n == 2 && s[p + 1] == c.c)
      && DecodeFrom(s, p, end, acc) == DecodeFrom(s, p + n, end, acc + Meaning(c))
  {
    hide DecodeFrom, LiteralAt, Encode, Unescape, ReadableChr, FlatChr, Meaning;
    DecodeOne(s, p, end, acc);
    if s[p] != BACKSLASH {
      PlainRead(s, p);
    } else if Unescape(s[p + 1]).Some? {
      EscapeRead(s, p);
    } else {
      LiteralRead(s, p, end);
    }
  }

  lemma UnitRead(s: bytes, p: nat)
    requires p + 6 <= |s| && s[p] == BACKSLASH && s[p + 1] == LETTER_U && Scalar(Hex4(s, p + 2))
    ensures
      var c := Unit(s[p + 2..p + 6]);
      ReadableChr(c) && FlatChr(c) == s[p..p + 6] && Meaning(c) == Encode(Hex4(s, p + 2))
  {
    hide Encode, Hex4;
    HexSlice(s, p + 2);
  }

  lemma JoinedSlices(s: bytes, i: nat, j: nat, k: nat)
    requires i <= j <= k <= |s|
    ensures s[i..j] + s[j..k] == s[i..k]
  {
  }

  lemma TwoBytes(s: bytes, i: nat)
    requires i + 2 <= |s|
    ensures s[i..i + 2] == [s[i], s[i + 1]]
  {
  }

  lemma PairSlices(s: bytes, p: nat)
    requires p + 12 <= |s|
    ensures [s[p], s[p + 1]] + s[p + 2..p + 6] + [s[p + 6], s[p + 7]] + s[p + 8..p + 12] == s[p..p + 12]
  {
    TwoBytes(s, p);
    TwoBytes(s, p + 6);
    JoinedSlices(s, p, p + 2, p + 6);
    JoinedSlices(s, p, p + 6, p + 8);
    JoinedSlices(s, p, p + 8, p + 12);
  }

  lemma PairRead(s: bytes, p: nat)
    requires p + 12 <= |s| && s[p] == BACKSLASH && s[p + 1] == LETTER_U && s[p + 6] == BACKSLASH && s[p + 7] == LETTER_U
    requires LeadSurrogate(Hex4(s, p + 2)) && TrailSurrogate(Hex4(s, p + 8))
    ensures
      var c := Pair(s[p + 2..p + 6], s[p + 8..p + 12]);
      && ReadableChr(c) && FlatChr(c) == s[p..p + 12]
      && Meaning(c) == Encode(FromSurrogates(Hex4(s, p + 2), Hex4(s, p + 8)))
  {
    hide Encode, Hex4, FromSurrogates, ReadableChr, FlatChr, Meaning;
    HexSlice(s, p + 2);
    HexSlice(s, p + 8);
    var lead, trail := s[p + 2..p + 6], s[p + 8..p + 12];
    PairSlices(s, p);
    PairIs(lead, trail);
  }

  lemma PairIs(lead: bytes, trail: bytes)
    requires |lead| == 4 && |trail| == 4 && LeadSurrogate(Hex4(lead, 0)) && TrailSurrogate(Hex4(trail, 0))
    ensures
      var c := Pair(lead, trail);
      && ReadableChr(c) && FlatChr(c) == [BACKSLASH, LETTER_U] + lead + [BACKSLASH, LETTER_U] + trail
      && Meaning(c) == Encode(FromSurrogates(Hex4(lead, 0), Hex4(trail, 0)))
  {
    hide Encode, Hex4, FromSurrogates;
  }

  lemma LiteralRead(s: bytes, p: nat, end: nat)
    requires p < end < |s| && s[p] == BACKSLASH && s[p + 1] == LETTER_U && LiteralAt(s, p, end).Good?
    ensures
      var l, c := LiteralAt(s, p, end), ChrAt(s, p, end);
      ReadableChr(c) && FlatChr(c) == s[p..p + l.length] && Meaning(c) == Encode(l.codepoint)
  {
    hide Encode, Hex4, FromSurrogates, ReadableChr, FlatChr, Meaning;
    if LiteralAt(s, p, end).length == 12 {
      PairRead(s, p);
    } else {
      UnitRead(s, p);
    }
  }

  lemma {:induction false} DecodedAs(s: bytes, p: nat, end: nat, acc: bytes) returns (cs: seq<Chr>)
    requires p <= end < |s| && s[end] == QUOTE && DecodeFrom(s, p, end, acc).Unescaped?
    ensures ReadAs(cs, s[p..end]) && DecodeFrom(s, p, end, acc).text == acc + Meanings(cs)
    decreases |s| - p
  {
    hide ReadableChr, FlatChr, Meaning, ChrAt, ReadAs;
    if p == end {
      cs := [];
      NothingRead(s, p);
      assert acc + [] == acc;
    } else {
      ChrRead(s, p, end, acc);
      var c := ChrAt(s, p, end);
      var n := |FlatChr(c)|;
      if p + n <= end {
        var rest := DecodedAs(s, p + n, end, acc + Meaning(c));
        cs := [c] + rest;
        ReadCons(c, rest, s, p, n, end);
        assert acc + Meaning(c) + Meanings(rest) == acc + (Meaning(c) + Meanings(rest));
      } else {
        cs := [c];
        QuoteRead(s, p, c);
      }
    }
  }

  lemma NothingRead(s: bytes, p: nat)
    requires p <= |s|
    ensures ReadAs([], s[p..p]) && Meanings([]) == []
  {
  }

  /** The closing quote has been taken for an escaped one. */
  lemma QuoteRead(s: bytes, p: nat, c: Chr)
    requires p + 2 <= |s| && c == Escape(QUOTE) && FlatChr(c) == s[p..p + 2]
    ensures ReadAs([c], s[p..p + 1]) && Meanings([c]) == Meaning(c)
  {
    assert [c][1..] == [];
    assert FlatChrs([c]) == FlatChr(c) + [] == s[p..p + 1] + [QUOTE];
  }

  lemma EnclosedSlices(s: bytes, i: nat, n: nat)
    requires i + 2 <= n <= |s|
    ensures Enclosed(s[i..n], s[i], s[i + 1..n - 1], s[n - 1])
  {
  }

  lemma ParsedStringSpells(s: bytes, i: nat)
    requires i < |s| && ParseString(s, i).StringRead?
    ensures var r := ParseString(s, i); SpellsString(s[i..r.next], Some(Bytes.CString(r.text)))
  {
    hide CloseQuote, DecodeFrom, Scanned, ReadAs, Meanings, Enclosed;
    var end := CloseQuote(s, i + 1).value;
    ScannedTo(s, i + 1);
    var cs := DecodedAs(s, i + 1, end, []);
    assert [] + Meanings(cs) == Meanings(cs);
    EnclosedSlices(s, i, end + 1);
  }

  // ----- what is parsed is a text of the language: pieces

  lemma SkippedGap(s: bytes, i: nat)
    requires i <= |s| && SkipSpace(s, i) < |s| && s[SkipSpace(s, i)] > 32
    ensures Gap(s[i..SkipSpace(s, i)])
  {
  }

  lemma FramedSlices(s: bytes, i: nat, j: nat, k: nat, n: nat)
    requires i <= j <= k <= n <= |s| && Gap(s[i..j]) && Gap(s[k..n])
    ensures Framed(s[i..n], s[i..j], s[j..k], s[k..n])
  {
    hide Gap;
  }

  lemma SeparatedSlices(s: bytes, i: nat, k: nat, n: nat)
    requires i <= k < n <= |s|
    ensures Separated(s[i..n], s[i..k], s[k], s[k + 1..n])
  {
  }

  lemma ParsedNumberSpells(lib: CLib, s: bytes, i: nat)
    requires i < |s| && (s[i] == MINUS || IsDigit(s[i])) && ParseNumber(lib, s, i).Ok?
    requires Delimited(s, ParseNumber(lib, s, i).next)
    ensures
      var r := ParseNumber(lib, s, i);
      var t := s[i..r.next];
      SpellsNumber(lib, t) && r.item == Number(None, lib.strtod(t).value)
  {
    assert NumberEnd(s, i) == ParseNumber(lib, s, i).next;
  }

  lemma NumberIsNumber(lib: CLib, s: bytes, i: nat)
    requires i <= |s| && ParseNumber(lib, s, i).Ok?
    ensures ParseNumber(lib, s, i).item.Number?
  {
  }

  /** No value starts with white space or at the end. */
  lemma ParsedStarts(lib: CLib, s: bytes, i: nat, d: nat)
    requires i <= |s| && ParseValue(lib, s, i, d).Ok?
    ensures i < |s| && s[i] > 32
  {
    hide ParseString, ParseNumber, ParseArray, ParseObject, At;
    if At(s, i, NULL_TEXT) {
      AtByte(s, i, NULL_TEXT, 0);
    }
    if At(s, i, FALSE_TEXT) {
      AtByte(s, i, FALSE_TEXT, 0);
    }
    if At(s, i, TRUE_TEXT) {
      AtByte(s, i, TRUE_TEXT, 0);
    }
  }

  lemma NextDelimits(s: bytes, n: nat)
    requires n <= |s| && SkipSpace(s, n) < |s| && s[SkipSpace(s, n)] > 32
    requires ListEnd(s[SkipSpace(s, n)]) || s[SkipSpace(s, n)] == COLON
    ensures Delimited(s, n)
  {
  }

  lemma {:induction false} SpellsAnyName(lib: CLib, v: Item, name: Option<cstring>, t: bytes, d: nat)
    ensures Spells(lib, WithKey(v, name), t, d) <==> Spells(lib, v, t, d)
  {
    hide SpellsNumber, SpellsString, SpellsList;
  }

  // ----- what is parsed is a text of the language: values

  lemma {:induction false} ParsedSpells(lib: CLib, s: bytes, i: nat, d: nat)
    requires i <= |s| && ParseValue(lib, s, i, d).Ok?
    requires ParseValue(lib, s, i, d).item.Number? ==> Delimited(s, ParseValue(lib, s, i, d).next)
    ensures var r := ParseValue(lib, s, i, d); Spells(lib, r.item, s[i..r.next], d)
    decreases |s| - i, 3
  {
    hide Delimited, SpellsNumber, SpellsString, SpellsList, ParseNumber, ParseString, ParseArray, ParseObject;
    ParsedStarts(lib, s, i, d);
    if At(s, i, NULL_TEXT) || At(s, i, FALSE_TEXT) || At(s, i, TRUE_TEXT) {
    } else if s[i] == QUOTE {
      ParsedStringSpells(s, i);
    } else if s[i] == MINUS || IsDigit(s[i]) {
      NumberIsNumber(lib, s, i);
      ParsedNumberSpells(lib, s, i);
    } else if s[i] == OPEN_BRACKET {
      ParsedArraySpells(lib, s, i, d);
    } else {
      ParsedObjectSpells(lib, s, i, d);
    }
  }

  /** Where a value stands in a list: behind white space, and in front of what ends it. */
  predicate ValueFound(lib: CLib, s: bytes, j: nat, d: nat, v: Item, m: nat) {
    j <= |s| &&
    var r := ParseValue(lib, s, SkipSpace(s, j), d);
    r.Ok? && r.item == v && m == SkipSpace(s, r.next) && m < |s| && ListEnd(s[m])
  }

  lemma {:induction false} ParsedValueSpells(lib: CLib, s: bytes, j: nat, d: nat, v: Item, m: nat)
    requires ValueFound(lib, s, j, d, v, m)
    ensures j <= m < |s| && SpellsValue(lib, v, s[j..m], d)
    decreases |s| - j, 4
  {
    hide Spells, ParseValue, SkipSpace, Gap, Framed, Delimited;
    var k := SkipSpace(s, j);
    var n := ParseValue(lib, s, k, d).next;
    ParsedStarts(lib, s, k, d);
    SkippedGap(s, j);
    SkippedGap(s, n);
    NextDelimits(s, n);
    ParsedSpells(lib, s, k, d);
    FramedSlices(s, j, k, n, m);
  }

  lemma {:induction false} ListCons(lib: CLib, v: Item, kids: seq<Item>, t: bytes, first: bytes, rest: bytes, d: nat,
                                    members: bool)
    requires Separated(t, first, COMMA, rest) && kids != []
    requires SpellsOne(lib, v, first, d, members) && SpellsList(lib, kids, rest, d, members)
    ensures SpellsList(lib, [v] + kids, t, d, members)
  {
    hide SpellsOne, Separated;
    assert ([v] + kids)[1..] == kids;
  }

  lemma {:induction false} JoinedList(lib: CLib, v: Item, kids: seq<Item>, s: bytes, i: nat, m: nat, n: nat, d: nat,
                                      members: bool)
    requires i <= m < n <= |s| && s[m] == COMMA && kids != []
    requires SpellsOne(lib, v, s[i..m], d, members) && SpellsList(lib, kids, s[m + 1..n], d, members)
    ensures SpellsList(lib, [v] + kids, s[i..n], d, members)
  {
    hide SpellsOne, SpellsList, Separated;
    SeparatedSlices(s, i, m, n);
    ListCons(lib, v, kids, s[i..n], s[i..m], s[m + 1..n], d, members);
  }

  lemma {:induction false} ParsedElementsSpell(lib: CLib, s: bytes, i: nat, d: nat, acc: seq<Item>)
    returns (kids: seq<Item>)
    requires i < |s| && ParseElements(lib, s, i, d, acc).Ok?
    ensures
      var r := ParseElements(lib, s, i, d, acc);
      && kids != [] && r.item == Array(None, acc + kids) && i + 2 <= r.next <= |s| && s[r.next - 1] == CLOSE_BRACKET
      && SpellsList(lib, kids, s[i + 1..r.next - 1], d, false)
    decreases |s| - i, 1
  {
    hide ParseElements, ParseValue, SkipSpace, SpellsList, SpellsOne, SpellsValue;
    ElementsStep(lib, s, i, d, acc);
    var r := ParseValue(lib, s, SkipSpace(s, i + 1), d);
    var v, m := r.item, SkipSpace(s, r.next);
    ParsedValueSpells(lib, s, i + 1, d, v, m);
    OneElement(lib, v, s[i + 1..m], d);
    if s[m] == COMMA {
      var rest := ParsedElementsSpell(lib, s, m, d, acc + [v]);
      JoinedList(lib, v, rest, s, i + 1, m, ParseElements(lib, s, i, d, acc).next - 1, d, false);
      kids := [v] + rest;
      assert acc + [v] + rest == acc + kids;
    } else {
      kids := [v];
      LastOfList(lib, kids, s[i + 1..m], d, false);
    }
  }

  lemma ArrayStep(lib: CLib, s: bytes, i: nat, d: nat)
    requires i < |s| && ParseArray(lib, s, i, d).Ok?
    ensures d < NESTING_LIMIT && i + 1 < |s|
    ensures
      var r, j := ParseArray(lib, s, i, d), SkipSpace(s, i + 1);
      if s[j] == CLOSE_BRACKET then r == Ok(Array(None, []), j + 1) else r == ParseElements(lib, s, i, d + 1, [])
  {
    hide ParseElements, SkipSpace;
    if s[SkipSpace(s, i + 1)] != CLOSE_BRACKET {
      StartsElements(lib, s, i, d + 1);
    }
  }

  lemma {:induction false} ParsedArraySpells(lib: CLib, s: bytes, i: nat, d: nat)
    requires i < |s| && s[i] == OPEN_BRACKET && ParseArray(lib, s, i, d).Ok?
    ensures var r := ParseArray(lib, s, i, d); r.item.Array? && Spells(lib, r.item, s[i..r.next], d)
    decreases |s| - i, 2
  {
    hide ParseArray, ParseElements, SkipSpace, SpellsList, Gap, Enclosed, Spells;
    ArrayStep(lib, s, i, d);
    var j := SkipSpace(s, i + 1);
    if s[j] == CLOSE_BRACKET {
      SkippedGap(s, i + 1);
      EmptyIsGap(lib, s[i + 1..j], d + 1, false);
      EnclosedSlices(s, i, j + 1);
      ArraySpelled(lib, [], s[i..j + 1], s[i + 1..j], d);
    } else {
      var kids := ParsedElementsSpell(lib, s, i, d + 1, []);
      var n := ParseElements(lib, s, i, d + 1, []).next;
      assert [] + kids == kids;
      EnclosedSlices(s, i, n);
      ArraySpelled(lib, kids, s[i..n], s[i + 1..n - 1], d);
    }
  }

  lemma {:induction false} ArraySpelled(lib: CLib, kids: seq<Item>, t: bytes, body: bytes, d: nat)
    requires d < NESTING_LIMIT && Enclosed(t, OPEN_BRACKET, body, CLOSE_BRACKET)
    requires SpellsList(lib, kids, body, d + 1, false)
    ensures Spells(lib, Array(None, kids), t, d)
  {
    hide SpellsList, Enclosed;
  }

  lemma {:induction false} ObjectSpelled(lib: CLib, kids: seq<Item>, t: bytes, body: bytes, d: nat)
    requires d < NESTING_LIMIT && Enclosed(t, OPEN_BRACE, body, CLOSE_BRACE)
    requires SpellsList(lib, kids, body, d + 1, true)
    ensures Spells(lib, Object(None, kids), t, d)
  {
    hide SpellsList, Enclosed;
  }

  lemma StartsElements(lib: CLib, s: bytes, i: nat, d: nat)
    requires i + 1 < |s|
    requires var j := SkipSpace(s, i + 1); ParseElements(lib, s, j - 1, d, []).Ok?
    ensures var j := SkipSpace(s, i + 1); ParseElements(lib, s, j - 1, d, []) == ParseElements(lib, s, i, d, [])
  {
    hide ParseElements, ParseValue, SkipSpace;
    var j := SkipSpace(s, i + 1);
    ElementsStep(lib, s, j - 1, d, []);
    ParsedStarts(lib, s, SkipSpace(s, j), d);
    SkipsTwice(s, i + 1);
    ElementsFrom(lib, s, i, j, d);
  }

  lemma SkipsTwice(s: bytes, i: nat)
    requires i < |s| && s[SkipSpace(s, SkipSpace(s, i))] > 32
    ensures s[SkipSpace(s, i)] > 32
  {
  }

  // ----- what is parsed is a text of the language: members

  lemma ParsedNameSpells(s: bytes, i: nat)
    requires i < |s| && ParseName(s, i).StringRead?
    ensures var r := ParseName(s, i); SpellsName(s[i + 1..r.next], Some(Bytes.CString(r.text)))
  {
    hide ParseString, SkipSpace, SpellsString, Gap, Framed;
    var k := SkipSpace(s, i + 1);
    NameAhead(s, i);
    var n := ParseString(s, k).next;
    SkippedGap(s, i + 1);
    SkippedGap(s, n);
    ParsedStringSpells(s, k);
    FramedSlices(s, i + 1, k, n, ParseName(s, i).next);
  }

  lemma NameAhead(s: bytes, i: nat)
    requires i < |s| && ParseName(s, i).StringRead?
    ensures i + 1 < |s| && s[SkipSpace(s, i + 1)] == QUOTE
  {
    hide ParseString, SkipSpace;
    StringStarts(s, SkipSpace(s, i + 1));
  }

  lemma StringStarts(s: bytes, i: nat)
    requires i < |s| && ParseString(s, i).StringRead?
    ensures s[i] == QUOTE
  {
    hide DecodeFrom, CloseQuote;
  }

  lemma {:induction false} ParsedMemberSpells(lib: CLib, s: bytes, i: nat, d: nat, value: Item, m: nat)
    returns (v: Item)
    requires i < |s| && ParseName(s, i).StringRead? && ValueFound(lib, s, ParseName(s, i).next + 1, d, value, m)
    ensures v == WithKey(value, Some(Bytes.CString(ParseName(s, i).text)))
    ensures i < m && SpellsOne(lib, v, s[i + 1..m], d, true)
    decreases |s| - i, 0, 0
  {
    hide ParseName, ParseValue, SkipSpace, SpellsName, SpellsValue, Separated, ValueFound;
    var name := ParseName(s, i);
    ParsedNameSpells(s, i);
    ParsedValueSpells(lib, s, name.next + 1, d, value, m);
    v := WithKey(value, Some(Bytes.CString(name.text)));
    ValueAnyName(lib, value, v.key, s[name.next + 1..m], d);
    SeparatedSlices(s, i + 1, name.next, m);
  }

  lemma {:induction false} ValueAnyName(lib: CLib, v: Item, name: Option<cstring>, t: bytes, d: nat)
    requires SpellsValue(lib, v, t, d)
    ensures SpellsValue(lib, WithKey(v, name), t, d)
  {
    hide Spells, Framed;
    var before, text, after :| Framed(t, before, text, after) && Spells(lib, v, text, d);
    SpellsAnyName(lib, v, name, text, d);
  }

  /** One round of the loop: a member, and a comma or the closing brace. */
  lemma {:induction false} ParsedMember(lib: CLib, s: bytes, i: nat, d: nat, acc: seq<Item>) returns (v: Item, m: nat)
    requires i < |s| && ParseMembers(lib, s, i, d, acc).Ok?
    ensures i < m < |s| && SpellsOne(lib, v, s[i + 1..m], d, true)
    ensures
      ParseMembers(lib, s, i, d, acc) ==
        if s[m] == COMMA then ParseMembers(lib, s, m, d, acc + [v]) else Ok(Object(None, acc + [v]), m + 1)
    ensures s[m] == COMMA || s[m] == CLOSE_BRACE
    decreases |s| - i, 0, 1
  {
    hide ParseMembers, ParseName, ParseValue, SkipSpace, SpellsOne, WithKey;
    MembersStep(lib, s, i, d, acc);
    var r := ParseValue(lib, s, SkipSpace(s, ParseName(s, i).next + 1), d);
    m := SkipSpace(s, r.next);
    v := ParsedMemberSpells(lib, s, i, d, r.item, m);
  }

  lemma {:induction false} ParsedMembersSpell(lib: CLib, s: bytes, i: nat, d: nat, acc: seq<Item>)
    returns (kids: seq<Item>)
    requires i < |s| && ParseMembers(lib, s, i, d, acc).Ok?
    ensures
      var r := ParseMembers(lib, s, i, d, acc);
      && kids != [] && r.item == Object(None, acc + kids) && i + 2 <= r.next <= |s| && s[r.next - 1] == CLOSE_BRACE
      && SpellsList(lib, kids, s[i + 1..r.next - 1], d, true)
    decreases |s| - i, 1
  {
    hide ParseMembers, SpellsList, SpellsOne;
    var v, m := ParsedMember(lib, s, i, d, acc);
    if s[m] == COMMA {
      var rest := ParsedMembersSpell(lib, s, m, d, acc + [v]);
      JoinedList(lib, v, rest, s, i + 1, m, ParseMembers(lib, s, i, d, acc).next - 1, d, true);
      kids := [v] + rest;
      assert acc + [v] + rest == acc + kids;
    } else {
      kids := [v];
      LastOfList(lib, kids, s[i + 1..m], d, true);
    }
  }

  lemma ObjectStep(lib: CLib, s: bytes, i: nat, d: nat)
    requires i < |s| && ParseObject(lib, s, i, d).Ok?
    ensures d < NESTING_LIMIT && i + 1 < |s|
    ensures
      var r, j := ParseObject(lib, s, i, d), SkipSpace(s, i + 1);
      if s[j] == CLOSE_BRACE then r == Ok(Object(None, []), j + 1) else r == ParseMembers(lib, s, i, d + 1, [])
  {
    hide ParseMembers, SkipSpace;
    if s[SkipSpace(s, i + 1)] != CLOSE_BRACE {
      StartsMembers(lib, s, i, d + 1);
    }
  }

  lemma {:induction false} ParsedObjectSpells(lib: CLib, s: bytes, i: nat, d: nat)
    requires i < |s| && s[i] == OPEN_BRACE && ParseObject(lib, s, i, d).Ok?
    ensures var r := ParseObject(lib, s, i, d); r.item.Object? && Spells(lib, r.item, s[i..r.next], d)
    decreases |s| - i, 2
  {
    hide ParseObject, ParseMembers, SkipSpace, SpellsList, Gap, Enclosed, Spells;
    ObjectStep(lib, s, i, d);
    var j := SkipSpace(s, i + 1);
    if s[j] == CLOSE_BRACE {
      SkippedGap(s, i + 1);
      EmptyIsGap(lib, s[i + 1..j], d + 1, true);
      EnclosedSlices(s, i, j + 1);
      ObjectSpelled(lib, [], s[i..j + 1], s[i + 1..j], d);
    } else {
      var kids := ParsedMembersSpell(lib, s, i, d + 1, []);
      var n := ParseMembers(lib, s, i, d + 1, []).next;
      assert [] + kids == kids;
      EnclosedSlices(s, i, n);
      ObjectSpelled(lib, kids, s[i..n], s[i + 1..n - 1], d);
    }
  }

  lemma StartsMembers(lib: CLib, s: bytes, i: nat, d: nat)
    requires i + 1 < |s|
    requires var j := SkipSpace(s, i + 1); ParseMembers(lib, s, j - 1, d, []).Ok?
    ensures var j := SkipSpace(s, i + 1); ParseMembers(lib, s, j - 1, d, []) == ParseMembers(lib, s, i, d, [])
  {
    hide ParseMembers, ParseName, ParseValue, SkipSpace;
    var j := SkipSpace(s, i + 1);
    MembersStep(lib, s, j - 1, d, []);
    NameAhead(s, j - 1);
    SkipsTwice(s, i + 1);
    MembersFrom(lib, s, i, j, d);
  }

  // ----- main results

  /** A number that strtod leaves before the end of its run of number bytes. */
  predicate CutNumber(lib: CLib, v: Item, s: bytes, i: nat, j: nat)
    requires i <= |s|
  {
    && !Delimited(s, j)
    && i < |s| && (s[i] == MINUS || IsDigit(s[i]))
    && var number := lib.strtod(s[i..NumberEnd(s, i)]);
       number.consumed > 0 && j == i + number.consumed && v == Number(None, number.value)
  }

  /** The bytes from `i` to `j` are a text of `v`, or `v` is a number that is cut off at `j`. */
  ghost predicate ReadsAs(lib: CLib, v: Item, s: bytes, i: nat, j: nat, d: nat)
    requires i <= |s|
  {
    || (i <= j <= |s| && v.key == None && (v.Number? ==> Delimited(s, j)) && Spells(lib, v, s[i..j], d))
    || CutNumber(lib, v, s, i, j)
  }

  /** What is parsed from `i` on, and up to where, for any bytes. */
  lemma ParsesExactly(lib: CLib, s: bytes, i: nat, d: nat, v: Item, j: nat)
    requires i <= |s|
    ensures ParseValue(lib, s, i, d) == Ok(v, j) <==> ReadsAs(lib, v, s, i, j, d)
  {
    hide ParseValue, Spells, Delimited;
    if ParseValue(lib, s, i, d) == Ok(v, j) {
      if v.Number? && !Delimited(s, j) {
        CutNumberParsed(lib, s, i, d);
      } else {
        ParsedSpells(lib, s, i, d);
      }
    }
    if i <= j <= |s| && v.key == None && (v.Number? ==> Delimited(s, j)) && Spells(lib, v, s[i..j], d) {
      assert At(s, i, s[i..j]);
      ParsesSpelled(lib, s, i, d, v, s[i..j]);
    }
    if CutNumber(lib, v, s, i, j) {
      CutNumberParsed(lib, s, i, d);
    }
  }

  lemma CutNumberParsed(lib: CLib, s: bytes, i: nat, d: nat)
    requires i <= |s|
    ensures i < |s| && (s[i] == MINUS || IsDigit(s[i])) ==> ParseValue(lib, s, i, d) == ParseNumber(lib, s, i)
    ensures var r := ParseValue(lib, s, i, d);
      r.Ok? && r.item.Number? ==> i < |s| && (s[i] == MINUS || IsDigit(s[i]))
  {
    hide ParseNumber, ParseString, ParseArray, ParseObject, Spells;
    if i < |s| && (s[i] == MINUS || IsDigit(s[i])) {
      NotALiteral(s, i);
    }
    if ParseValue(lib, s, i, d).Ok? && ParseValue(lib, s, i, d).item.Number? {
      ParsedStarts(lib, s, i, d);
      if s[i] == OPEN_BRACKET && ParseArray(lib, s, i, d).Ok? {
        ParsedArraySpells(lib, s, i, d);
      }
      if s[i] == OPEN_BRACE && ParseObject(lib, s, i, d).Ok? {
        ParsedObjectSpells(lib, s, i, d);
      }
    }
  }

  /**
   * What cJSON_ParseWithOpts with a required terminator accepts, exactly: one
   * value of the language between white space, behind the byte order mark if
   * one is looked for and there, and in front of a last byte NUL.
   */
  lemma AcceptsExactly(lib: CLib, s: bytes, v: Item, end: nat)
    ensures ParseText(lib, s, true) == Ok(v, end) <==>
      && s != [] && s[|s| - 1] == NUL && end == |s| - 1 && v.key == None
      && SkipBom(s) <= end && SpellsValue(lib, v, s[SkipBom(s)..end], 0)
  {
    hide SkipBom, ParseValue, SkipSpace, SpellsValue;
    if ParseText(lib, s, true) == Ok(v, end) {
      AcceptedSpells(lib, s);
    }
    if s != [] && s[|s| - 1] == NUL && end == |s| - 1 && v.key == None && SkipBom(s) <= end {
      if SpellsValue(lib, v, s[SkipBom(s)..end], 0) {
        AcceptsSpelled(lib, s, v);
      }
    }
  }

  lemma AcceptedSpells(lib: CLib, s: bytes)
    requires ParseText(lib, s, true).Ok?
    ensures
      var r := ParseText(lib, s, true);
      && s != [] && s[|s| - 1] == NUL && r.next == |s| - 1
      && SkipBom(s) <= r.next && SpellsValue(lib, r.item, s[SkipBom(s)..r.next], 0)
  {
    hide SkipBom, ParseValue, SkipSpace, Spells, Gap, Delimited, Framed;
    var b := SkipBom(s);
    var k := SkipSpace(s, b);
    var n := ParseValue(lib, s, k, 0).next;
    ParsedStarts(lib, s, k, 0);
    SkippedGap(s, b);
    StepsBack(s, n);
    ParsedSpells(lib, s, k, 0);
    FramedSlices(s, b, k, n, |s| - 1);
  }

  lemma StepsBack(s: bytes, n: nat)
    requires n <= |s| && SkipSpace(s, n) < |s| && s[SkipSpace(s, n)] == NUL
    ensures n < |s| && SkipSpace(s, n) == |s| - 1 && Gap(s[n..|s| - 1]) && Delimited(s, n)
  {
  }

  lemma AcceptsSpelled(lib: CLib, s: bytes, v: Item)
    requires s != [] && s[|s| - 1] == NUL && SkipBom(s) < |s| && v.key == None
    requires SpellsValue(lib, v, s[SkipBom(s)..|s| - 1], 0)
    ensures ParseText(lib, s, true) == Ok(v, |s| - 1)
  {
    hide SkipBom, ParseValue, SkipSpace, SpellsValue, At;
    SliceAt(s, SkipBom(s), |s| - 1);
    ParsesLast(lib, s, SkipBom(s), v, s[SkipBom(s)..|s| - 1]);
  }

  lemma ParsesLast(lib: CLib, s: bytes, b: nat, v: Item, t: bytes)
    requires At(s, b, t) && b + |t| == |s| - 1 && s[|s| - 1] == NUL && v.key == None && SpellsValue(lib, v, t, 0)
    ensures
      var r := ParseValue(lib, s, SkipSpace(s, b), 0);
      r.Ok? && r.item == v && SkipSpace(s, r.next) == |s| - 1
  {
    hide ParseValue, SkipSpace, Spells, Gap, Delimited, At, Framed;
    var before, text, after :| Framed(t, before, text, after) && Spells(lib, v, text, 0);
    FramedAt(s, b, t, before, text, after);
    FirstOf(lib, v, text, 0);
    var k := b + |before|;
    AtByte(s, k, text, 0);
    GapSkipped(s, b, before);
    OnlyGapLeft(s, k + |text|, after);
    ParsesSpelled(lib, s, k, 0, v, text);
  }

  lemma SliceAt(s: bytes, i: nat, j: nat)
    requires i <= j <= |s|
    ensures At(s, i, s[i..j]) && i + |s[i..j]| == j
  {
  }

  lemma OnlyGapLeft(s: bytes, n: nat, w: bytes)
    requires At(s, n, w) && Gap(w) && n + |w| == |s| - 1 && s[|s| - 1] == NUL
    ensures SkipSpace(s, n) == |s| - 1 && Delimited(s, n)
  {
    forall k | n <= k < |s| - 1 ensures s[k] <= 32 {
      AtByte(s, n, w, k - n);
    }
    assert SpaceEnd(s, n) == |s|;
  }

  /** The same without a required terminator: a value behind white space, whatever follows. */
  lemma AcceptsPrefixExactly(lib: CLib, s: bytes, v: Item, end: nat)
    ensures ParseText(lib, s, false) == Ok(v, end) <==>
      exists i :: SkipBom(s) <= i < |s| && Gap(s[SkipBom(s)..i]) && s[i] > 32 && ReadsAs(lib, v, s, i, end, 0)
  {
    hide SkipBom, ParseValue, SkipSpace, ReadsAs, Gap;
    var b := SkipBom(s);
    var k := SkipSpace(s, b);
    if ParseText(lib, s, false) == Ok(v, end) {
      ParsedStarts(lib, s, k, 0);
      SkippedGap(s, b);
      ParsesExactly(lib, s, k, 0, v, end);
    }
    if i :| b <= i < |s| && Gap(s[b..i]) && s[i] > 32 && ReadsAs(lib, v, s, i, end, 0) {
      SliceAt(s, b, i);
      GapSkipped(s, b, s[b..i]);
      ParsesExactly(lib, s, i, 0, v, end);
    }
  }
}
