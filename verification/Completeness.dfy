/** Every JSON text within the nesting limit is a text of the language, with the tree it denotes. */
module Completeness {
  import opened Bytes
  import opened CLibrary
  import opened Items
  import opened Utf8
  import opened StringParser
  import opened Grammar
  import opened Parser
  import opened Language

  // ----- strings, numbers and white space

  lemma SpaceIsGap(s: bytes)
    requires AllSpace(s)
    ensures Gap(s)
  {
  }

  /** Bytes that no pass takes for something else. */
  lemma {:induction false} PlainScanned(t: bytes, rest: bytes)
    requires (forall i :: 0 <= i < |t| ==> t[i] != QUOTE && t[i] != BACKSLASH) && Scanned(rest)
    ensures Scanned(t + rest)
  {
    if t == [] {
      assert t + rest == rest;
    } else {
      PlainScanned(t[1..], rest);
      assert (t + rest)[1..] == t[1..] + rest;
    }
  }

  lemma EscapedScanned(b: byte, rest: bytes)
    requires Scanned(rest)
    ensures Scanned([BACKSLASH, b] + rest)
  {
    assert ([BACKSLASH, b] + rest)[2..] == rest;
  }

  lemma UnitScanned(hex: bytes, rest: bytes)
    requires |hex| == 4 && FourHex(hex, 0) && Scanned(rest)
    ensures Scanned([BACKSLASH, LETTER_U] + hex + rest)
  {
    hide Scanned;
    PlainScanned(hex, rest);
    EscapedScanned(LETTER_U, hex + rest);
    assert [BACKSLASH, LETTER_U] + hex + rest == [BACKSLASH, LETTER_U] + (hex + rest);
  }

  lemma PairScanned(lead: bytes, trail: bytes, rest: bytes)
    requires |lead| == 4 && FourHex(lead, 0) && |trail| == 4 && FourHex(trail, 0) && Scanned(rest)
    ensures Scanned([BACKSLASH, LETTER_U] + lead + [BACKSLASH, LETTER_U] + trail + rest)
  {
    hide Scanned;
    var u := [BACKSLASH, LETTER_U];
    UnitScanned(trail, rest);
    UnitScanned(lead, u + trail + rest);
    assert u + lead + u + trail + rest == u + lead + (u + trail + rest);
  }

  lemma ChrScanned(c: Chr, rest: bytes)
    requires ValidChr(c) && Scanned(rest)
    ensures Scanned(FlatChr(c) + rest)
  {
    hide Scanned;
    match c
    case Plain(b) => PlainScanned([b], rest);
    case Escape(e) => EscapedScanned(e, rest);
    case Unit(hex) => UnitScanned(hex, rest);
    case Pair(lead, trail) => PairScanned(lead, trail, rest);
  }

  lemma {:induction false} ChrsScanned(cs: seq<Chr>)
    requires ValidChrs(cs)
    ensures Scanned(FlatChrs(cs))
  {
    hide FlatChr, ValidChr;
    if cs != [] {
      ChrsScanned(cs[1..]);
      ChrScanned(cs[0], FlatChrs(cs[1..]));
    }
  }

  lemma ValidIsReadable(cs: seq<Chr>)
    requires ValidChrs(cs)
    ensures ReadableChrs(cs)
  {
  }

  lemma QuotedSpells(cs: seq<Chr>)
    requires ValidChrs(cs)
    ensures SpellsString(QuotedChrs(cs), Some(Bytes.CString(Meanings(cs))))
  {
    hide Scanned, Meanings, FlatChrs, ValidChrs, ReadableChrs;
    ChrsScanned(cs);
    ValidIsReadable(cs);
    assert Enclosed(QuotedChrs(cs), QUOTE, FlatChrs(cs), QUOTE) && ReadAs(cs, FlatChrs(cs));
  }

  lemma NumberSpells(lib: CLib, lexeme: bytes)
    requires JsonNumber(lexeme)
    ensures SpellsNumber(lib, lexeme)
  {
    hide JsonNumber;
    JsonNumberBytes(lexeme);
  }

  lemma ParsesString(s: bytes, i: nat, cs: seq<Chr>)
    requires ValidChrs(cs) && At(s, i, QuotedChrs(cs))
    ensures ParseString(s, i) == StringRead(Meanings(cs), i + |QuotedChrs(cs)|)
  {
    hide At, CloseQuote, DecodeFrom, FlatChrs, Meanings, ValidChrs, ReadableChrs, Scanned;
    ChrsScanned(cs);
    ValidIsReadable(cs);
    var body := FlatChrs(cs);
    EnclosedIn(s, i, QuotedChrs(cs), QUOTE, body, QUOTE);
    ScannedCloses(s, i + 1, body);
    DecodesTo(s, i + 1, i + 1 + |body|, cs, []);
    assert [] + Meanings(cs) == Meanings(cs);
  }

  lemma ParsesNumber(lib: CLib, s: bytes, i: nat, lexeme: bytes)
    requires JsonNumber(lexeme) && At(s, i, lexeme) && Delimited(s, i + |lexeme|)
    ensures ParseNumber(lib, s, i) == Ok(Number(None, lib.strtod(lexeme).value), i + |lexeme|)
  {
    NumberSpells(lib, lexeme);
    ParsesSpelledNumber(lib, s, i, lexeme);
  }

  // ----- values

  /** The text of every value of the grammar is a text of its tree. */
  lemma {:induction false} ValidSpells(lib: CLib, c: Cst, d: nat)
    requires Valid(c) && NestingFits(c, d)
    ensures Spells(lib, Denote(lib, c), Flat(c), d) && Denote(lib, c).key == None
    decreases c, 1
  {
    hide SpellsNumber, SpellsString, SpellsList, JsonNumber, ValidChrs, QuotedChrs, FlatElements, FlatMembers,
         DenoteElements, DenoteMembers, Gap;
    match c
    case CNumber(_, lexeme) => NumberSpells(lib, lexeme);
    case CString(_, chars) => QuotedSpells(chars);
    case CArray(_, _, _) => ValidListSpells(lib, c, d);
    case CObject(_, _, _) => ValidListSpells(lib, c, d);
    case _ =>
  }

  lemma {:induction false} ValidListSpells(lib: CLib, c: Cst, d: nat)
    requires (c.CArray? || c.CObject?) && Valid(c) && NestingFits(c, d)
    ensures Spells(lib, Denote(lib, c), Flat(c), d)
    decreases c, 0
  {
    hide Spells, SpellsList, FlatElements, FlatMembers, DenoteElements, DenoteMembers;
    hide Gap, AllSpace, ValidSlot, Enclosed;
    SpaceIsGap(c.pad);
    if c.CArray? {
      ElementsSpell(lib, c.kids, c.pad, d + 1);
      EnclosedPadded(OPEN_BRACKET, c.pad, FlatElements(c.kids), CLOSE_BRACKET);
      ArraySpelled(lib, DenoteElements(lib, c.kids), Flat(c), c.pad + FlatElements(c.kids), d);
    } else {
      MembersSpell(lib, c.kids, c.pad, d + 1);
      EnclosedPadded(OPEN_BRACE, c.pad, FlatMembers(c.kids), CLOSE_BRACE);
      ObjectSpelled(lib, DenoteMembers(lib, c.kids), Flat(c), c.pad + FlatMembers(c.kids), d);
    }
  }

  lemma EnclosedPadded(open: byte, pad: bytes, body: bytes, close: byte)
    ensures Enclosed([open] + pad + body + [close], open, pad + body, close)
  {
  }

  /** What comes behind a value in a list, up to the next one. */
  lemma {:induction false} ValueSpells(lib: CLib, c: Cst, pre: bytes, d: nat, name: Option<cstring>)
    requires Valid(c) && ValidSlot(c.slot) && NestingFits(c, d) && Gap(pre)
    ensures SpellsValue(lib, WithKey(Denote(lib, c), name), pre + Flat(c) + c.slot.after, d)
    ensures Denote(lib, c).key == None
    decreases c, 2
  {
    hide Spells, Flat, Denote, Valid, NestingFits, Gap;
    ValidSpells(lib, c, d);
    SpellsAnyName(lib, Denote(lib, c), name, Flat(c), d);
    SpaceIsGap(c.slot.after);
    assert Framed(pre + Flat(c) + c.slot.after, pre, Flat(c), c.slot.after);
  }

  lemma {:induction false} ElementsSpell(lib: CLib, kids: seq<Cst>, pre: bytes, d: nat)
    requires ValidKids(kids) && (forall k :: k in kids ==> NestingFits(k, d)) && Gap(pre)
    ensures SpellsList(lib, DenoteElements(lib, kids), pre + FlatElements(kids), d, false)
    decreases kids, 0
  {
    hide SpellsList, SpellsOne, SpellsValue, Flat, FlatElements, Denote, DenoteElements, Valid, NestingFits, ValidSlot,
         Gap, SlotEnd, Separated;
    if kids == [] {
      NoKids(lib);
      EmptyIsGap(lib, pre, d, false);
      assert pre + [] == pre;
    } else {
      ElementsUnrolled(lib, kids);
      var k, v := kids[0], Denote(lib, kids[0]);
      assert k in kids;
      var first := pre + Flat(k) + k.slot.after;
      ValueSpells(lib, k, pre, d, None);
      OneElement(lib, v, first, d);
      if |kids| == 1 {
        LastOfList(lib, [v], first, d, false);
        LastText(pre, Flat(k), k.slot);
      } else {
        SlotGaps(k.slot);
        ElementsSpell(lib, kids[1..], k.slot.afterComma, d);
        NextText(pre, Flat(k), k.slot, FlatElements(kids[1..]));
        ListCons(lib, v, DenoteElements(lib, kids[1..]), pre + FlatElements(kids), first,
                 k.slot.afterComma + FlatElements(kids[1..]), d, false);
      }
    }
  }

  lemma ElementsUnrolled(lib: CLib, kids: seq<Cst>)
    requires kids != []
    ensures FlatElements(kids) == Flat(kids[0]) + SlotEnd(kids[0].slot, |kids| == 1) + FlatElements(kids[1..])
    ensures DenoteElements(lib, kids) == [Denote(lib, kids[0])] + DenoteElements(lib, kids[1..])
    ensures |kids| == 1 ==> FlatElements(kids[1..]) == [] && DenoteElements(lib, kids) == [Denote(lib, kids[0])]
    ensures |kids| > 1 ==> DenoteElements(lib, kids[1..]) != []
  {
    hide Flat, SlotEnd, Denote;
  }

  lemma MembersUnrolled(lib: CLib, kids: seq<Cst>, v: Item)
    requires kids != [] && v == WithKey(Denote(lib, kids[0]), Some(Bytes.CString(Meanings(kids[0].slot.name))))
    ensures
      FlatMembers(kids)
      == SlotStart(kids[0].slot) + Flat(kids[0]) + SlotEnd(kids[0].slot, |kids| == 1) + FlatMembers(kids[1..])
    ensures DenoteMembers(lib, kids) == [v] + DenoteMembers(lib, kids[1..])
    ensures |DenoteMembers(lib, kids[1..])| == |kids| - 1
    ensures |kids| == 1 ==> FlatMembers(kids[1..]) == []
  {
    hide Flat, SlotEnd, SlotStart, Denote, DenoteMembers, Meanings;
    MembersDenoted(lib, kids, v);
    DenotedSize(lib, kids[1..]);
  }

  lemma MembersDenoted(lib: CLib, kids: seq<Cst>, v: Item)
    requires kids != [] && v == WithKey(Denote(lib, kids[0]), Some(Bytes.CString(Meanings(kids[0].slot.name))))
    ensures DenoteMembers(lib, kids) == [v] + DenoteMembers(lib, kids[1..])
  {
    hide Denote, Meanings, WithKey;
  }

  lemma {:induction false} DenotedSize(lib: CLib, kids: seq<Cst>)
    ensures |DenoteMembers(lib, kids)| == |kids|
  {
    hide Denote, Meanings, WithKey;
    if kids != [] {
      DenotedSize(lib, kids[1..]);
    }
  }

  lemma NoKids(lib: CLib)
    ensures FlatElements([]) == [] && DenoteElements(lib, []) == []
    ensures FlatMembers([]) == [] && DenoteMembers(lib, []) == []
  {
  }

  lemma SlotGaps(slot: Slot)
    requires ValidSlot(slot)
    ensures Gap(slot.beforeColon) && Gap(slot.afterColon) && Gap(slot.after) && Gap(slot.afterComma)
  {
  }

  lemma LastText(pre: bytes, text: bytes, slot: Slot)
    ensures pre + (text + SlotEnd(slot, true) + []) == pre + text + slot.after
  {
  }

  lemma NextText(pre: bytes, text: bytes, slot: Slot, more: bytes)
    ensures
      Separated(pre + (text + SlotEnd(slot, false) + more), pre + text + slot.after, COMMA, slot.afterComma + more)
  {
  }

  lemma {:induction false} MemberSpells(lib: CLib, c: Cst, pre: bytes, d: nat)
    requires Valid(c) && ValidSlot(c.slot) && NestingFits(c, d) && Gap(pre)
    ensures
      var v := WithKey(Denote(lib, c), Some(Bytes.CString(Meanings(c.slot.name))));
      SpellsOne(lib, v, pre + (SlotStart(c.slot) + Flat(c) + c.slot.after), d, true)
    decreases c, 3
  {
    hide SpellsString, SpellsValue, Flat, Denote, Valid, NestingFits, ValidChrs, Gap, QuotedChrs, Meanings;
    var slot := c.slot;
    var key := Some(Bytes.CString(Meanings(slot.name)));
    SlotGaps(slot);
    QuotedSpells(slot.name);
    var name := pre + QuotedChrs(slot.name) + slot.beforeColon;
    assert Framed(name, pre, QuotedChrs(slot.name), slot.beforeColon);
    assert SpellsName(name, key);
    ValueSpells(lib, c, slot.afterColon, d, key);
    NameText(pre, slot, Flat(c));
  }

  lemma NameText(pre: bytes, slot: Slot, text: bytes)
    ensures Separated(
      pre + (SlotStart(slot) + text + slot.after),
      pre + QuotedChrs(slot.name) + slot.beforeColon, COLON, slot.afterColon + text + slot.after)
  {
    hide QuotedChrs;
  }

  lemma {:induction false} MembersSpell(lib: CLib, kids: seq<Cst>, pre: bytes, d: nat)
    requires ValidKids(kids) && (forall k :: k in kids ==> NestingFits(k, d)) && Gap(pre)
    ensures SpellsList(lib, DenoteMembers(lib, kids), pre + FlatMembers(kids), d, true)
    decreases kids, 0
  {
    hide SpellsList, SpellsOne, Flat, FlatMembers, Denote, DenoteMembers, Valid, NestingFits, ValidSlot, Gap, SlotStart,
         SlotEnd, Meanings, Separated;
    if kids == [] {
      NoKids(lib);
      EmptyIsGap(lib, pre, d, true);
      assert pre + [] == pre;
    } else {
      var k := kids[0];
      var v := WithKey(Denote(lib, k), Some(Bytes.CString(Meanings(k.slot.name))));
      assert k in kids;
      MembersUnrolled(lib, kids, v);
      var text := SlotStart(k.slot) + Flat(k);
      MemberSpells(lib, k, pre, d);
      Regrouped(pre, text, k.slot.after);
      if |kids| == 1 {
        LastOfList(lib, [v], pre + text + k.slot.after, d, true);
        LastText(pre, text, k.slot);
        assert DenoteMembers(lib, kids) == [v];
      } else {
        SlotGaps(k.slot);
        MembersSpell(lib, kids[1..], k.slot.afterComma, d);
        NextText(pre, text, k.slot, FlatMembers(kids[1..]));
        ListCons(lib, v, DenoteMembers(lib, kids[1..]), pre + FlatMembers(kids), pre + text + k.slot.after,
                 k.slot.afterComma + FlatMembers(kids[1..]), d, true);
      }
    }
  }

  lemma ParsesValue(lib: CLib, s: bytes, i: nat, d: nat, c: Cst)
    requires Valid(c) && NestingFits(c, d) && At(s, i, Flat(c)) && Delimited(s, i + |Flat(c)|)
    ensures ParseValue(lib, s, i, d) == Ok(Denote(lib, c), i + |Flat(c)|)
  {
    hide At, Delimited, Valid, NestingFits, ParseValue, Denote, Flat, Spells;
    ValidSpells(lib, c, d);
    ParsesSpelled(lib, s, i, d, Denote(lib, c), Flat(c));
  }

  /** A value starts with a byte that tells which kind of value it is. */
  lemma FirstByte(c: Cst)
    requires Valid(c)
    ensures Flat(c) != [] && 32 < Flat(c)[0] < 128
    ensures Flat(c)[0] != CLOSE_BRACKET && Flat(c)[0] != CLOSE_BRACE
    ensures c.CNumber? <==> IsDigit(Flat(c)[0]) || Flat(c)[0] == MINUS
    ensures c.CString? <==> Flat(c)[0] == QUOTE
    ensures c.CArray? <==> Flat(c)[0] == OPEN_BRACKET
    ensures c.CObject? <==> Flat(c)[0] == OPEN_BRACE
  {
    if c.CNumber? {
      JsonNumberBytes(c.lexeme);
    }
  }

  // ----- whole texts

  /** A JSON text: a value between white space. */
  datatype Document = Document(before: bytes, value: Cst, after: bytes)

  predicate ValidDocument(doc: Document) {
    AllSpace(doc.before) && Valid(doc.value) && AllSpace(doc.after) && NestingFits(doc.value, 0)
  }

  function FlatDocument(doc: Document): bytes {
    doc.before + Flat(doc.value) + doc.after
  }

  lemma NoBom(s: bytes, w: bytes, b: byte)
    requires At(s, 0, w + [b]) && AllSpace(w) && b < 128
    ensures SkipBom(s) == 0
  {
    AtByte(s, 0, w + [b], 0);
    if At(s, 0, [0xEF, 0xBB, 0xBF]) {
      AtByte(s, 0, [0xEF, 0xBB, 0xBF], 0);
    }
  }

  /**
   * The central law of the parser. Every JSON text whose nesting is within the
   * limit is accepted and gives the tree it denotes, whether its length is
   * given (`tail` is empty) or it is a C string with its terminator.
   */
  lemma AcceptsEveryText(lib: CLib, doc: Document, tail: bytes)
    requires ValidDocument(doc) && (tail == [] || tail == [NUL])
    ensures ParseText(lib, FlatDocument(doc) + tail, false)
         == Ok(Denote(lib, doc.value), |doc.before| + |Flat(doc.value)|)
    ensures tail == [NUL] ==>
      ParseText(lib, FlatDocument(doc) + tail, true) == Ok(Denote(lib, doc.value), |FlatDocument(doc)|)
  {
    hide At, Flat, Valid, NestingFits, ParseValue, Denote, Delimited, SkipSpace, SkipBom, AllSpace;
    var s := FlatDocument(doc) + tail;
    var i := |doc.before|;
    var n := i + |Flat(doc.value)|;
    TextAt(doc, tail);
    DocumentFound(s, doc);
    TailDelimits(s, n, doc.after, tail);
    ParsesValue(lib, s, i, 0, doc.value);
    if tail == [NUL] {
      SkipsToNul(s, n, doc.after);
    }
  }

  lemma DocumentFound(s: bytes, doc: Document)
    requires ValidDocument(doc) && At(s, 0, doc.before + Flat(doc.value))
    ensures SkipBom(s) == 0 && SkipSpace(s, 0) == |doc.before| && At(s, |doc.before|, Flat(doc.value))
    ensures |doc.before| < |s|
  {
    hide At, Flat, Valid, SkipSpace, SkipBom, AllSpace, Gap;
    var text, i := Flat(doc.value), |doc.before|;
    FirstByte(doc.value);
    AtConcat(s, 0, doc.before, text);
    AtByte(s, i, text, 0);
    SpaceIsGap(doc.before);
    GapSkipped(s, 0, doc.before);
    AtConcat(s, 0, doc.before + [text[0]], text[1..]);
    assert doc.before + text == doc.before + [text[0]] + text[1..];
    NoBom(s, doc.before, text[0]);
  }

  lemma TextAt(doc: Document, tail: bytes)
    ensures At(FlatDocument(doc) + tail, 0, doc.before + Flat(doc.value))
    ensures At(FlatDocument(doc) + tail, |doc.before| + |Flat(doc.value)|, doc.after + tail)
    ensures |FlatDocument(doc) + tail| == |doc.before| + |Flat(doc.value)| + |doc.after| + |tail|
  {
    hide Flat;
    var a := doc.before + Flat(doc.value);
    assert FlatDocument(doc) + tail == a + (doc.after + tail);
  }

  lemma TailDelimits(s: bytes, n: nat, w: bytes, tail: bytes)
    requires At(s, n, w + tail) && n + |w| + |tail| == |s| && AllSpace(w) && (tail == [] || tail == [NUL])
    ensures Delimited(s, n)
  {
    if n < |s| {
      AtByte(s, n, w + tail, 0);
    }
  }

  /** A terminator counts as white space, so the skipping steps back onto it. */
  lemma SkipsToNul(s: bytes, n: nat, w: bytes)
    requires At(s, n, w + [NUL]) && n + |w| + 1 == |s| && AllSpace(w)
    ensures SkipSpace(s, n) == |s| - 1 && s[|s| - 1] == NUL
  {
    AtByte(s, n, w + [NUL], |w|);
    if SpaceEnd(s, n) < |s| {
      AtByte(s, n, w + [NUL], SpaceEnd(s, n) - n);
    }
  }

  // ----- byte order marks

  const BOM: bytes := [0xEF, 0xBB, 0xBF]

  /** It is the code point U+FEFF. */
  lemma BomIsEncoded()
    ensures BOM == Encode(0xFEFF)
  {
  }

  /**
   * Behind a byte order mark a text is accepted as it is without one, but for
   * an input of four bytes: there the mark is not looked for.
   */
  lemma AcceptsBehindBom(lib: CLib, doc: Document, tail: bytes)
    requires ValidDocument(doc) && (tail == [] || tail == [NUL])
    ensures
      var s := BOM + (FlatDocument(doc) + tail);
      ParseText(lib, s, false) ==
        if |s| > 4 then Ok(Denote(lib, doc.value), 3 + |doc.before| + |Flat(doc.value)|) else Fail(0)
    ensures tail == [NUL] ==>
      var s := BOM + (FlatDocument(doc) + tail);
      ParseText(lib, s, true) == if |s| > 4 then Ok(Denote(lib, doc.value), |s| - 1) else Fail(0)
  {
    hide At, Flat, Valid, NestingFits, ParseValue, Denote, Delimited, SkipSpace, SkipBom, AllSpace, FlatDocument;
    var s := BOM + (FlatDocument(doc) + tail);
    if |s| > 4 {
      FoundBehindBom(doc, tail);
      ParsesValue(lib, s, 3 + |doc.before|, 0, doc.value);
      if tail == [NUL] {
        SkipsToNul(s, 3 + |doc.before| + |Flat(doc.value)|, doc.after);
      }
    } else {
      MarkIsNoValue(lib, s, false);
      MarkIsNoValue(lib, s, true);
    }
  }

  lemma FoundBehindBom(doc: Document, tail: bytes)
    requires ValidDocument(doc) && (tail == [] || tail == [NUL]) && |FlatDocument(doc) + tail| > 1
    ensures
      var s := BOM + (FlatDocument(doc) + tail);
      var i := 3 + |doc.before|;
      && SkipBom(s) == 3 && SkipSpace(s, 3) == i && At(s, i, Flat(doc.value)) && Delimited(s, i + |Flat(doc.value)|)
      && At(s, i + |Flat(doc.value)|, doc.after + tail)
      && |s| == i + |Flat(doc.value)| + |doc.after| + |tail|
  {
    hide At, Flat, Valid, NestingFits, Delimited, SkipSpace, SkipBom, AllSpace, Gap, FlatDocument;
    var text := FlatDocument(doc) + tail;
    var s, i := BOM + text, 3 + |doc.before|;
    TextAt(doc, tail);
    FirstByte(doc.value);
    SkipsBom(text);
    AtConcat(text, 0, doc.before, Flat(doc.value));
    AtBehind(BOM, text, 0, doc.before);
    AtBehind(BOM, text, |doc.before|, Flat(doc.value));
    AtBehind(BOM, text, |doc.before| + |Flat(doc.value)|, doc.after + tail);
    AtByte(s, i, Flat(doc.value), 0);
    SpaceIsGap(doc.before);
    GapSkipped(s, 3, doc.before);
    TailDelimits(s, i + |Flat(doc.value)|, doc.after, tail);
  }

  lemma AtBehind(a: bytes, s: bytes, i: nat, t: bytes)
    requires At(s, i, t)
    ensures At(a + s, |a| + i, t)
  {
    assert (a + s)[|a| + i..|a| + i + |t|] == s[i..i + |t|];
  }

  lemma SkipsBom(text: bytes)
    requires |text| > 1
    ensures SkipBom(BOM + text) == 3
  {
    assert (BOM + text)[0..3] == BOM;
  }

  lemma NotAt(s: bytes, i: nat, t: bytes)
    requires i < |s| && t != [] && s[i] != t[0]
    ensures !At(s, i, t)
  {
    if At(s, i, t) {
      AtByte(s, i, t, 0);
    }
  }

  lemma MarkIsNoValue(lib: CLib, s: bytes, requireNul: bool)
    requires 0 < |s| <= 4 && s[0] == 0xEF
    ensures ParseText(lib, s, requireNul) == Fail(0)
  {
    hide At, ParseArray, ParseObject, ParseString;
    NotAt(s, 0, NULL_TEXT);
    NotAt(s, 0, FALSE_TEXT);
    NotAt(s, 0, TRUE_TEXT);
  }

  // ----- texts that are accepted and are not JSON

  /** No control bytes but white space. */
  predicate Clean(s: bytes) {
    forall i :: 0 <= i < |s| ==> s[i] >= 32 || IsSpace(s[i])
  }

  lemma CleanConcat(a: bytes, b: bytes)
    requires Clean(a) && Clean(b)
    ensures Clean(a + b)
  {
  }

  lemma CleanSpace(s: bytes)
    requires AllSpace(s)
    ensures Clean(s)
  {
  }

  lemma CleanChr(c: Chr)
    requires ValidChr(c)
    ensures Clean(FlatChr(c))
  {
  }

  lemma {:induction false} CleanQuoted(cs: seq<Chr>)
    requires ValidChrs(cs)
    ensures Clean(FlatChrs(cs)) && Clean(QuotedChrs(cs))
  {
    hide FlatChr, ValidChr;
    if cs != [] {
      CleanChr(cs[0]);
      CleanQuoted(cs[1..]);
    }
  }

  lemma CleanSlot(slot: Slot, last: bool)
    requires ValidSlot(slot)
    ensures Clean(SlotStart(slot)) && Clean(SlotEnd(slot, last))
  {
    hide QuotedChrs, ValidChrs;
    CleanQuoted(slot.name);
  }

  lemma {:induction false} CleanValue(c: Cst)
    requires Valid(c)
    ensures Clean(Flat(c))
    decreases c, 1
  {
    hide JsonNumber, ValidChrs, QuotedChrs, FlatElements, FlatMembers, Clean, AllSpace, ValidSlot;
    match c
    case CNumber(_, lexeme) => CleanNumber(lexeme);
    case CString(_, chars) => CleanQuoted(chars);
    case CArray(_, pad, kids) =>
      CleanKids(kids);
      CleanEnclosed(OPEN_BRACKET, pad, FlatElements(kids), CLOSE_BRACKET);
    case CObject(_, pad, kids) =>
      CleanKids(kids);
      CleanEnclosed(OPEN_BRACE, pad, FlatMembers(kids), CLOSE_BRACE);
    case _ => CleanLiterals();
  }

  lemma CleanLiterals()
    ensures Clean(NULL_TEXT) && Clean(FALSE_TEXT) && Clean(TRUE_TEXT)
  {
  }

  lemma CleanNumber(lexeme: bytes)
    requires JsonNumber(lexeme)
    ensures Clean(lexeme)
  {
    hide JsonNumber;
    JsonNumberBytes(lexeme);
  }

  lemma CleanEnclosed(open: byte, pad: bytes, body: bytes, close: byte)
    requires open >= 32 && AllSpace(pad) && Clean(body) && close >= 32
    ensures Clean([open] + pad + body + [close])
  {
  }

  lemma {:induction false} CleanKids(kids: seq<Cst>)
    requires ValidKids(kids)
    ensures Clean(FlatElements(kids)) && Clean(FlatMembers(kids))
    decreases kids, 0
  {
    hide Valid, ValidSlot, Flat, SlotStart, SlotEnd, Clean;
    if kids == [] {
      CleanSpace([]);
    } else {
      var k, last := kids[0], |kids| == 1;
      assert k in kids;
      CleanValue(k);
      CleanSlot(k.slot, last);
      CleanKids(kids[1..]);
      CleanConcat(Flat(k), SlotEnd(k.slot, last));
      CleanConcat(Flat(k) + SlotEnd(k.slot, last), FlatElements(kids[1..]));
      CleanConcat(SlotStart(k.slot), Flat(k));
      CleanConcat(SlotStart(k.slot) + Flat(k), SlotEnd(k.slot, last));
      CleanConcat(SlotStart(k.slot) + Flat(k) + SlotEnd(k.slot, last), FlatMembers(kids[1..]));
    }
  }

  /** The language is larger than JSON: a control byte in an empty array is accepted, and in no JSON text. */
  lemma MoreThanJson(lib: CLib) returns (s: bytes)
    ensures ParseText(lib, s + [NUL], true) == Ok(Array(None, []), |s|)
    ensures forall doc :: ValidDocument(doc) ==> FlatDocument(doc) != s
  {
    hide ParseText, ValidDocument, FlatDocument;
    s := [OPEN_BRACKET, 1, CLOSE_BRACKET];
    ControlByteAccepted(lib, s);
    assert !Clean(s) by { assert s[1] == 1; }
    forall doc | ValidDocument(doc) ensures FlatDocument(doc) != s {
      CleanDocument(doc);
    }
  }

  lemma CleanDocument(doc: Document)
    requires ValidDocument(doc)
    ensures Clean(FlatDocument(doc))
  {
    hide Valid, Flat, NestingFits, AllSpace, Clean;
    CleanValue(doc.value);
    CleanSpace(doc.before);
    CleanSpace(doc.after);
    CleanConcat(doc.before, Flat(doc.value));
    CleanConcat(doc.before + Flat(doc.value), doc.after);
  }

  lemma ControlByteAccepted(lib: CLib, s: bytes)
    requires s == [OPEN_BRACKET, 1, CLOSE_BRACKET]
    ensures ParseText(lib, s + [NUL], true) == Ok(Array(None, []), 3)
  {
    hide Spells, SpellsList, ParseText, SpellsValue;
    EmptyIsGap(lib, [1], 1, false);
    assert Enclosed(s, OPEN_BRACKET, [1], CLOSE_BRACKET);
    ArraySpelled(lib, [], s, [1], 0);
    FramedAlone(lib, Array(None, []), s);
    var t := s + [NUL];
    assert t[0..3] == s && SkipBom(t) == 0;
    AcceptsExactly(lib, t, Array(None, []), 3);
  }

  lemma FramedAlone(lib: CLib, v: Item, t: bytes)
    requires Spells(lib, v, t, 0)
    ensures SpellsValue(lib, v, t, 0)
  {
    hide Spells;
    assert Framed(t, [], t, []);
  }
}
