/** Printed text is a JSON text, and parsing it gives the printed tree back. */
module RoundTrip {
  import opened Bytes
  import opened CLibrary
  import opened Strings
  import opened Items
  import opened TextFacts
  import opened StringParser
  import opened Grammar
  import opened Parser
  import opened Completeness

  /** How print_string_ptr writes a byte. */
  function ChrOf(b: byte): (c: Chr)
    requires b != NUL
    ensures ValidChr(c) && FlatChr(c) == EscapedByte(b) && Meaning(c) == [b]
  {
    if ShortEscape(b).Some? then Escape(ShortEscape(b).value)
    else if b < 32 then Unit([48, 48, HexDigit(b / 16), HexDigit(b % 16)])
    else Plain(b)
  }

  function ChrsOf(s: cstring): (cs: seq<Chr>)
    ensures |cs| == |s| && forall i :: 0 <= i < |s| ==> cs[i] == ChrOf(s[i])
    ensures ValidChrs(cs)
  {
    seq(|s|, i requires 0 <= i < |s| => ChrOf(s[i]))
  }

  /** Escaping a string and reading it back gives the string, byte for byte. */
  lemma {:induction false} EscapingRoundTrip(s: cstring)
    ensures FlatChrs(ChrsOf(s)) == Escaped(s)
    ensures Meanings(ChrsOf(s)) == s
  {
    hide ChrOf, ChrsOf, EscapedByte, FlatChr, Meaning, ValidChr;
    if s != [] {
      EscapingRoundTrip(s[1..]);
      assert ChrsOf(s)[1..] == ChrsOf(s[1..]);
      assert [s[0]] + s[1..] == s;
    }
  }

  /** parse_string behind print_string_ptr, in any surroundings. */
  lemma StringRoundTrip(s: cstring, before: bytes, behind: bytes)
    ensures ParseString(before + Quoted(s) + behind, |before|) == StringRead(s, |before| + |Quoted(s)|)
  {
    EscapingRoundTrip(s);
    AtMiddle(before, Quoted(s), behind);
    ParsesString(before + Quoted(s) + behind, |before|, ChrsOf(s));
  }

  lemma AtMiddle(a: bytes, t: bytes, b: bytes)
    ensures At(a + t + b, |a|, t)
  {
  }

  /** The slot of an array element, and of a member at depth `depth`, in printed text. */
  function ElementSlot(layout: Layout): Slot {
    Slot([], [], [], [], AfterComma(layout))
  }

  function MemberSlot(layout: Layout, key: Option<cstring>, depth: nat, last: bool): Slot
    requires depth > 0
  {
    Slot(ChrsOf(OrEmpty(key)), [], AfterColon(layout),
         if last then LineBreak(layout) + Indent(layout, depth - 1) else [],
         LineBreak(layout) + Indent(layout, depth))
  }

  const ROOT_SLOT: Slot := Slot([], [], [], [], [])

  /** The syntax tree of printed text. */
  function Syntax(lib: CLib, layout: Layout, item: Item, depth: nat, slot: Slot): (c: Cst)
    requires RawFree(item)
    ensures c.slot == slot
    decreases item, 1
  {
    match item
    case Null(_) => CNull(slot)
    case False(_) => CFalse(slot)
    case True(_) => CTrue(slot)
    case Number(_, d) => CNumber(slot, NumberText(lib, d))
    case String(_, text) => Cst.CString(slot, ChrsOf(OrEmpty(text)))
    case Array(_, kids) => CArray(slot, [], SyntaxElements(lib, layout, kids, depth + 1))
    case Object(_, kids) =>
      CObject(slot, LineBreak(layout) + Indent(layout, if kids == [] then depth else depth + 1),
              SyntaxMembers(lib, layout, kids, depth + 1))
  }

  function SyntaxElements(lib: CLib, layout: Layout, kids: seq<Item>, depth: nat): (cs: seq<Cst>)
    requires forall k :: k in kids ==> RawFree(k)
    ensures |cs| == |kids|
    decreases kids, 0
  {
    if kids == [] then []
    else
      [Syntax(lib, layout, kids[0], depth, ElementSlot(layout))]
      + SyntaxElements(lib, layout, kids[1..], depth)
  }

  function SyntaxMembers(lib: CLib, layout: Layout, kids: seq<Item>, depth: nat): (cs: seq<Cst>)
    requires depth > 0 && forall k :: k in kids ==> RawFree(k)
    ensures |cs| == |kids|
    decreases kids, 0
  {
    if kids == [] then []
    else
      [Syntax(lib, layout, kids[0], depth, MemberSlot(layout, kids[0].key, depth, |kids| == 1))]
      + SyntaxMembers(lib, layout, kids[1..], depth)
  }

  // ----- printed text is the text of its syntax tree

  lemma {:induction false} TextIsFlat(lib: CLib, layout: Layout, item: Item, depth: nat, slot: Slot)
    requires RawFree(item)
    ensures Flat(Syntax(lib, layout, item, depth, slot)) == Text(lib, layout, item, depth)
    decreases item, 1
  {
    hide Text, Flat, Syntax, RawFree;
    if item.Array? {
      ArrayIsFlat(lib, layout, item, depth, slot);
    } else if item.Object? {
      ObjectIsFlat(lib, layout, item, depth, slot);
    } else {
      ScalarIsFlat(lib, layout, item, depth, slot);
    }
  }

  lemma ScalarIsFlat(lib: CLib, layout: Layout, item: Item, depth: nat, slot: Slot)
    requires RawFree(item) && !item.Array? && !item.Object?
    ensures Flat(Syntax(lib, layout, item, depth, slot)) == Text(lib, layout, item, depth)
  {
    hide NumberText, QuotedChrs, Quoted, ChrsOf;
    if item.String? {
      StringIsFlat(OrEmpty(item.text));
    }
  }

  lemma {:induction false} ArrayIsFlat(lib: CLib, layout: Layout, item: Item, depth: nat, slot: Slot)
    requires item.Array? && RawFree(item)
    ensures Flat(Syntax(lib, layout, item, depth, slot)) == Text(lib, layout, item, depth)
    decreases item, 0
  {
    hide Elements, SyntaxElements, FlatElements, RawFree;
    KidsAreRawFree(item);
    ElementsAreFlat(lib, layout, item.kids, depth + 1);
    assert [OPEN_BRACKET] + [] == [OPEN_BRACKET];
  }

  lemma StringIsFlat(s: cstring)
    ensures QuotedChrs(ChrsOf(s)) == Quoted(s)
  {
    hide Escaped, FlatChrs, ChrsOf;
    EscapingRoundTrip(s);
  }

  lemma {:induction false} ObjectIsFlat(lib: CLib, layout: Layout, item: Item, depth: nat, slot: Slot)
    requires item.Object? && RawFree(item)
    ensures Flat(Syntax(lib, layout, item, depth, slot)) == Text(lib, layout, item, depth)
    decreases item, 0
  {
    hide Text, Flat, Syntax, ObjectStart, Indent, LineBreak, Members, SyntaxMembers, FlatMembers, RawFree;
    KidsAreRawFree(item);
    ObjectPieces(lib, layout, item, depth, slot);
    if item.kids == [] {
      NoMembers(lib, layout, depth + 1);
      EmptyObject(layout, depth);
    } else {
      MembersAreFlat(lib, layout, item.kids, depth + 1);
      ObjectRegrouped(layout, Members(lib, layout, item.kids, depth + 1),
                      FlatMembers(SyntaxMembers(lib, layout, item.kids, depth + 1)), depth);
    }
  }

  lemma ObjectPieces(lib: CLib, layout: Layout, item: Item, depth: nat, slot: Slot)
    requires item.Object? && RawFree(item)
    ensures Text(lib, layout, item, depth) ==
      ObjectStart(layout) + Members(lib, layout, item.kids, depth + 1) + Indent(layout, depth) + [CLOSE_BRACE]
    ensures Flat(Syntax(lib, layout, item, depth, slot)) ==
      [OPEN_BRACE] + (LineBreak(layout) + Indent(layout, if item.kids == [] then depth else depth + 1))
      + FlatMembers(SyntaxMembers(lib, layout, item.kids, depth + 1)) + [CLOSE_BRACE]
  {
    hide Members, SyntaxMembers, FlatMembers, Repeat, ObjectStart, LineBreak;
  }

  lemma KidsAreRawFree(item: Item)
    requires (item.Array? || item.Object?) && RawFree(item)
    ensures forall k :: k in item.kids ==> RawFree(k)
  {
  }

  lemma NoMembers(lib: CLib, layout: Layout, depth: nat)
    requires depth > 0
    ensures Members(lib, layout, [], depth) == [] && FlatMembers(SyntaxMembers(lib, layout, [], depth)) == []
  {
  }

  lemma EmptyObject(layout: Layout, depth: nat)
    ensures ObjectStart(layout) + [] + Indent(layout, depth) + [CLOSE_BRACE]
         == [OPEN_BRACE] + (LineBreak(layout) + Indent(layout, depth)) + [] + [CLOSE_BRACE]
  {
    hide Indent, LineBreak;
    var a, b := LineBreak(layout), Indent(layout, depth);
    assert [OPEN_BRACE] + a + [] + b == [OPEN_BRACE] + (a + b) + [];
  }

  lemma ObjectRegrouped(layout: Layout, members: bytes, flat: bytes, depth: nat)
    requires members + Indent(layout, depth) == Indent(layout, depth + 1) + flat
    ensures ObjectStart(layout) + members + Indent(layout, depth) + [CLOSE_BRACE]
         == [OPEN_BRACE] + (LineBreak(layout) + Indent(layout, depth + 1)) + flat + [CLOSE_BRACE]
  {
    hide Indent, LineBreak;
    var start := ObjectStart(layout);
    calc {
      start + members + Indent(layout, depth);
      start + (members + Indent(layout, depth));
      start + (Indent(layout, depth + 1) + flat);
      [OPEN_BRACE] + (LineBreak(layout) + Indent(layout, depth + 1)) + flat;
    }
  }

  lemma {:induction false} ElementsAreFlat(lib: CLib, layout: Layout, kids: seq<Item>, depth: nat)
    requires forall k :: k in kids ==> RawFree(k)
    ensures FlatElements(SyntaxElements(lib, layout, kids, depth)) == Elements(lib, layout, kids, depth)
    decreases kids, 0
  {
    hide Flat, Text, Syntax, RawFree, AfterComma;
    if kids != [] {
      assert kids[0] in kids;
      TextIsFlat(lib, layout, kids[0], depth, ElementSlot(layout));
      ElementsAreFlat(lib, layout, kids[1..], depth);
      var cs := SyntaxElements(lib, layout, kids, depth);
      assert cs[1..] == SyntaxElements(lib, layout, kids[1..], depth);
      assert SlotEnd(cs[0].slot, |cs| == 1) == ElementEnd(layout, |kids| == 1);
    }
  }

  lemma MemberRegrouped(layout: Layout, key: Option<cstring>, depth: nat, text: bytes, last: bool,
                        members: bytes, flat: bytes)
    requires depth > 0
    requires last ==> members == [] && flat == []
    requires !last ==> members + Indent(layout, depth - 1) == Indent(layout, depth) + flat
    ensures
      var slot := MemberSlot(layout, key, depth, last);
      MemberStart(layout, key, depth) + text + MemberEnd(layout, last) + members + Indent(layout, depth - 1)
      == Indent(layout, depth) + (SlotStart(slot) + text + SlotEnd(slot, last) + flat)
  {
    hide Indent, LineBreak, AfterColon, Quoted, FlatChrs, MemberStart, SlotStart;
    var slot := MemberSlot(layout, key, depth, last);
    var i, outer, br := Indent(layout, depth), Indent(layout, depth - 1), LineBreak(layout);
    SlotStartIs(layout, key, depth, last);
    if last {
      assert MemberEnd(layout, last) == br by { assert [] + br == br; }
      assert SlotEnd(slot, last) == br + outer;
      LastRegrouped(i, SlotStart(slot), text, br, outer);
    } else {
      assert SlotEnd(slot, last) == [COMMA] + (br + i);
      NextRegrouped(i, SlotStart(slot), text, br, outer, members, flat);
    }
  }

  lemma SlotStartIs(layout: Layout, key: Option<cstring>, depth: nat, last: bool)
    requires depth > 0
    ensures MemberStart(layout, key, depth)
         == Indent(layout, depth) + SlotStart(MemberSlot(layout, key, depth, last))
  {
    hide Indent, LineBreak, AfterColon, Quoted, QuotedChrs;
    var name, gap, i := Quoted(OrEmpty(key)), AfterColon(layout), Indent(layout, depth);
    EscapingRoundTrip(OrEmpty(key));
    QuotedIs(OrEmpty(key));
    NameRegrouped(i, name, gap);
  }

  lemma NameRegrouped(i: bytes, name: bytes, gap: bytes)
    ensures i + (name + [] + [COLON] + gap) == i + name + [COLON] + gap
  {
    assert name + [] == name;
  }

  lemma QuotedIs(s: cstring)
    requires FlatChrs(ChrsOf(s)) == Escaped(s)
    ensures QuotedChrs(ChrsOf(s)) == Quoted(s)
  {
  }

  lemma LastRegrouped(i: bytes, start: bytes, text: bytes, br: bytes, outer: bytes)
    ensures (i + start) + text + br + [] + outer == i + (start + text + (br + outer) + [])
  {
  }

  lemma NextRegrouped(i: bytes, start: bytes, text: bytes, br: bytes, outer: bytes, members: bytes, flat: bytes)
    requires members + outer == i + flat
    ensures (i + start) + text + ([COMMA] + br) + members + outer
         == i + (start + text + ([COMMA] + (br + i)) + flat)
  {
    var a := (i + start) + text + ([COMMA] + br);
    assert a + members + outer == a + (members + outer);
    assert a + (i + flat) == i + (start + text + ([COMMA] + (br + i)) + flat);
  }

  lemma {:induction false} MembersAreFlat(lib: CLib, layout: Layout, kids: seq<Item>, depth: nat)
    requires depth > 0 && kids != [] && forall k :: k in kids ==> RawFree(k)
    ensures Members(lib, layout, kids, depth) + Indent(layout, depth - 1)
         == Indent(layout, depth) + FlatMembers(SyntaxMembers(lib, layout, kids, depth))
    decreases kids, 0
  {
    hide Flat, Text, Syntax, RawFree, MemberStart, MemberEnd, SlotStart, SlotEnd, Indent, MemberSlot;
    assert kids[0] in kids;
    var last := |kids| == 1;
    TextIsFlat(lib, layout, kids[0], depth, MemberSlot(layout, kids[0].key, depth, last));
    var cs := SyntaxMembers(lib, layout, kids, depth);
    assert cs[1..] == SyntaxMembers(lib, layout, kids[1..], depth);
    if !last {
      MembersAreFlat(lib, layout, kids[1..], depth);
    }
    MemberRegrouped(layout, kids[0].key, depth, Text(lib, layout, kids[0], depth), last,
                    Members(lib, layout, kids[1..], depth), FlatMembers(cs[1..]));
  }

  // ----- and the syntax tree is valid, and denotes the tree

  /**
   * What parsing can restore of a tree: numbers go through their text, NULL
   * strings become empty, and elements have no key.
   */
  function AsParsed(lib: CLib, item: Item): (r: Item)
    ensures r.key == None
    decreases item, 1
  {
    match item
    case Invalid(_) => Invalid(None)
    case Null(_) => Null(None)
    case False(_) => False(None)
    case True(_) => True(None)
    case Number(_, d) => Number(None, lib.strtod(NumberText(lib, d)).value)
    case Raw(_, text) => Raw(None, text)
    case String(_, text) => String(None, Some(OrEmpty(text)))
    case Array(_, kids) => Array(None, ElementsAsParsed(lib, kids))
    case Object(_, kids) => Object(None, MembersAsParsed(lib, kids))
  }

  function ElementsAsParsed(lib: CLib, kids: seq<Item>): seq<Item>
    decreases kids, 0
  {
    if kids == [] then [] else [AsParsed(lib, kids[0])] + ElementsAsParsed(lib, kids[1..])
  }

  function MembersAsParsed(lib: CLib, kids: seq<Item>): seq<Item>
    decreases kids, 0
  {
    if kids == [] then []
    else [WithKey(AsParsed(lib, kids[0]), Some(OrEmpty(kids[0].key)))] + MembersAsParsed(lib, kids[1..])
  }

  /** Trees as the parser builds them, with numbers that their text gives back. */
  predicate Settled(lib: CLib, item: Item)
    decreases item
  {
    match item
    case Number(_, d) => Recovered(lib, d)
    case String(_, text) => text.Some?
    case Array(_, kids) => forall k :: k in kids ==> k.key.None? && Settled(lib, k)
    case Object(_, kids) => forall k :: k in kids ==> k.key.Some? && Settled(lib, k)
    case _ => true
  }

  /** On such trees nothing is lost. */
  lemma {:induction false} SettledAsParsed(lib: CLib, item: Item)
    ensures Settled(lib, item) <==> AsParsed(lib, item) == item.(key := None)
    decreases item, 1
  {
    match item
    case Array(_, kids) => SettledElements(lib, kids);
    case Object(_, kids) => SettledMembers(lib, kids);
    case _ =>
  }

  lemma {:induction false} SettledElements(lib: CLib, kids: seq<Item>)
    ensures (forall k :: k in kids ==> k.key.None? && Settled(lib, k)) <==> ElementsAsParsed(lib, kids) == kids
    decreases kids, 0
  {
    if kids != [] {
      SettledAsParsed(lib, kids[0]);
      SettledElements(lib, kids[1..]);
      assert kids == [kids[0]] + kids[1..];
      var r := ElementsAsParsed(lib, kids);
      assert r[0] == AsParsed(lib, kids[0]) && r[1..] == ElementsAsParsed(lib, kids[1..]);
    }
  }

  lemma {:induction false} SettledMembers(lib: CLib, kids: seq<Item>)
    ensures (forall k :: k in kids ==> k.key.Some? && Settled(lib, k)) <==> MembersAsParsed(lib, kids) == kids
    decreases kids, 0
  {
    hide Settled, AsParsed;
    if kids != [] {
      SettledAsParsed(lib, kids[0]);
      SettledMembers(lib, kids[1..]);
      assert kids == [kids[0]] + kids[1..];
      assert forall k :: k in kids <==> k == kids[0] || k in kids[1..];
      var r := MembersAsParsed(lib, kids);
      assert r[0] == AsParsed(lib, kids[0]).(key := Some(OrEmpty(kids[0].key)));
      assert r[1..] == MembersAsParsed(lib, kids[1..]);
    }
  }

  lemma PadIsSpace(layout: Layout, depth: nat)
    requires ValidLayout(layout)
    ensures AllSpace(LineBreak(layout) + Indent(layout, depth))
  {
    LayoutIsSpace(layout, depth);
  }

  lemma NothingIsSpace()
    ensures AllSpace([])
  {
  }

  lemma SlotsAreValid(layout: Layout, key: Option<cstring>, depth: nat, last: bool)
    requires ValidLayout(layout) && depth > 0
    ensures ValidSlot(ElementSlot(layout)) && ValidSlot(MemberSlot(layout, key, depth, last))
  {
    hide AllSpace, LineBreak, Indent, ValidLayout, AfterColon, AfterComma, ValidChrs;
    assert ValidChrs([]) by { NoChrs(); }
    NothingIsSpace();
    LayoutIsSpace(layout, depth);
    PadIsSpace(layout, depth);
    PadIsSpace(layout, depth - 1);
  }

  lemma NoChrs()
    ensures ValidChrs([])
  {
  }

  lemma TextDenoted(s: cstring)
    ensures Bytes.CString(Meanings(ChrsOf(s))) == s
  {
    EscapingRoundTrip(s);
    CStringIdentity(s);
  }

  lemma {:induction false} SyntaxIsValid(lib: CLib, layout: Layout, item: Item, depth: nat, slot: Slot)
    requires RawFree(item) && ValidLayout(layout)
    ensures Valid(Syntax(lib, layout, item, depth, slot))
    ensures Denote(lib, Syntax(lib, layout, item, depth, slot)) == AsParsed(lib, item)
    decreases item, 1
  {
    hide Syntax, Denote, AsParsed, Valid, RawFree, ValidLayout;
    if item.Array? {
      ArrayIsValid(lib, layout, item, depth, slot);
    } else if item.Object? {
      ObjectIsValid(lib, layout, item, depth, slot);
    } else {
      ScalarIsValid(lib, layout, item, depth, slot);
    }
  }

  lemma {:induction false} ScalarIsValid(lib: CLib, layout: Layout, item: Item, depth: nat, slot: Slot)
    requires RawFree(item) && !item.Array? && !item.Object?
    ensures Valid(Syntax(lib, layout, item, depth, slot))
    ensures Denote(lib, Syntax(lib, layout, item, depth, slot)) == AsParsed(lib, item)
  {
    if item.Number? {
      NumberIsValid(lib, layout, item, depth, slot);
    } else if item.String? {
      StringIsValid(lib, layout, item, depth, slot);
    }
  }

  lemma {:induction false} NumberIsValid(lib: CLib, layout: Layout, item: Item, depth: nat, slot: Slot)
    requires item.Number?
    ensures Valid(Syntax(lib, layout, item, depth, slot))
    ensures Denote(lib, Syntax(lib, layout, item, depth, slot)) == AsParsed(lib, item)
  {
    hide NumberText, JsonNumber;
    assert JsonNumber(NumberText(lib, item.d));
  }

  lemma {:induction false} StringIsValid(lib: CLib, layout: Layout, item: Item, depth: nat, slot: Slot)
    requires item.String?
    ensures Valid(Syntax(lib, layout, item, depth, slot))
    ensures Denote(lib, Syntax(lib, layout, item, depth, slot)) == AsParsed(lib, item)
  {
    hide Meanings, ValidChrs, ChrsOf, OrEmpty;
    var s := OrEmpty(item.text);
    TextDenoted(s);
    EscapingRoundTrip(s);
  }

  lemma {:induction false} ArrayIsValid(lib: CLib, layout: Layout, item: Item, depth: nat, slot: Slot)
    requires item.Array? && RawFree(item) && ValidLayout(layout)
    ensures Valid(Syntax(lib, layout, item, depth, slot))
    ensures Denote(lib, Syntax(lib, layout, item, depth, slot)) == AsParsed(lib, item)
    decreases item, 0
  {
    hide SyntaxElements, SyntaxMembers, DenoteElements, DenoteMembers, ElementsAsParsed, MembersAsParsed,
         Indent, LineBreak, AllSpace, RawFree, ValidSlot;
    KidsAreRawFree(item);
    ElementsAreValid(lib, layout, item.kids, depth + 1);
    NothingIsSpace();
  }

  lemma {:induction false} ObjectIsValid(lib: CLib, layout: Layout, item: Item, depth: nat, slot: Slot)
    requires item.Object? && RawFree(item) && ValidLayout(layout)
    ensures Valid(Syntax(lib, layout, item, depth, slot))
    ensures Denote(lib, Syntax(lib, layout, item, depth, slot)) == AsParsed(lib, item)
    decreases item, 0
  {
    hide SyntaxElements, SyntaxMembers, DenoteElements, DenoteMembers, ElementsAsParsed, MembersAsParsed,
         Indent, LineBreak, AllSpace, RawFree, ValidSlot;
    KidsAreRawFree(item);
    MembersAreValid(lib, layout, item.kids, depth + 1);
    PadIsSpace(layout, if item.kids == [] then depth else depth + 1);
  }

  lemma {:induction false} ElementsAreValid(lib: CLib, layout: Layout, kids: seq<Item>, depth: nat)
    requires depth > 0 && ValidLayout(layout) && forall k :: k in kids ==> RawFree(k)
    ensures ValidKids(SyntaxElements(lib, layout, kids, depth))
    ensures DenoteElements(lib, SyntaxElements(lib, layout, kids, depth)) == ElementsAsParsed(lib, kids)
    decreases kids, 0
  {
    hide Valid, ValidSlot, ElementSlot, Syntax, RawFree, Denote, AsParsed;
    if kids != [] {
      assert kids[0] in kids;
      SlotsAreValid(layout, None, depth, true);
      SyntaxIsValid(lib, layout, kids[0], depth, ElementSlot(layout));
      ElementsAreValid(lib, layout, kids[1..], depth);
      var cs := SyntaxElements(lib, layout, kids, depth);
      assert cs[1..] == SyntaxElements(lib, layout, kids[1..], depth);
    }
  }

  lemma ValidKidsCons(k: Cst, kids: seq<Cst>)
    requires ValidSlot(k.slot) && Valid(k) && ValidKids(kids)
    ensures ValidKids([k] + kids)
  {
    hide ValidSlot, Valid;
  }

  lemma DenoteCons(lib: CLib, kids: seq<Cst>)
    requires ValidKids(kids) && kids != []
    ensures ValidKids(kids[1..]) && Valid(kids[0])
    ensures DenoteElements(lib, kids) == [Denote(lib, kids[0])] + DenoteElements(lib, kids[1..])
    ensures DenoteMembers(lib, kids) ==
      [WithKey(Denote(lib, kids[0]), Some(Bytes.CString(Meanings(kids[0].slot.name))))] + DenoteMembers(lib, kids[1..])
  {
    hide Valid, ValidSlot, Denote, Meanings;
    assert kids[0] in kids;
  }

  lemma {:induction false} MembersAreValid(lib: CLib, layout: Layout, kids: seq<Item>, depth: nat)
    requires depth > 0 && ValidLayout(layout) && forall k :: k in kids ==> RawFree(k)
    ensures ValidKids(SyntaxMembers(lib, layout, kids, depth))
    ensures DenoteMembers(lib, SyntaxMembers(lib, layout, kids, depth)) == MembersAsParsed(lib, kids)
    decreases kids, 0
  {
    hide Valid, ValidSlot, ValidKids, Syntax, RawFree, Denote, DenoteMembers, AsParsed, MemberSlot, Meanings,
         ValidLayout, OrEmpty;
    if kids == [] {
      NoneAreValid(lib);
    } else {
      assert kids[0] in kids;
      var slot := MemberSlot(layout, kids[0].key, depth, |kids| == 1);
      SlotsAreValid(layout, kids[0].key, depth, |kids| == 1);
      SyntaxIsValid(lib, layout, kids[0], depth, slot);
      MembersAreValid(lib, layout, kids[1..], depth);
      var cs := SyntaxMembers(lib, layout, kids, depth);
      assert cs[1..] == SyntaxMembers(lib, layout, kids[1..], depth) && cs == [cs[0]] + cs[1..];
      MemberName(layout, kids[0].key, depth, |kids| == 1);
      ValidKidsCons(cs[0], cs[1..]);
      DenoteCons(lib, cs);
    }
  }

  lemma NoneAreValid(lib: CLib)
    ensures ValidKids([]) && DenoteMembers(lib, []) == []
  {
  }

  lemma MemberName(layout: Layout, key: Option<cstring>, depth: nat, last: bool)
    requires depth > 0
    ensures Bytes.CString(Meanings(MemberSlot(layout, key, depth, last).name)) == OrEmpty(key)
  {
    EscapingRoundTrip(OrEmpty(key));
    CStringIdentity(OrEmpty(key));
  }

  lemma {:induction false} SyntaxFits(lib: CLib, layout: Layout, item: Item, depth: nat, slot: Slot)
    requires RawFree(item) && Printable(lib, item, depth)
    ensures NestingFits(Syntax(lib, layout, item, depth, slot), depth)
    decreases item, 1
  {
    hide SyntaxElements, SyntaxMembers, Indent, LineBreak, NumberText, ElementSlot, MemberSlot;
    match item
    case Array(_, kids) => ElementsFit(lib, layout, kids, depth + 1);
    case Object(_, kids) => MembersFit(lib, layout, kids, depth + 1);
    case _ =>
  }

  lemma {:induction false} ElementsFit(lib: CLib, layout: Layout, kids: seq<Item>, depth: nat)
    requires forall k :: k in kids ==> RawFree(k) && Printable(lib, k, depth)
    ensures forall c :: c in SyntaxElements(lib, layout, kids, depth) ==> NestingFits(c, depth)
    decreases kids, 0
  {
    if kids != [] {
      SyntaxFits(lib, layout, kids[0], depth, ElementSlot(layout));
      ElementsFit(lib, layout, kids[1..], depth);
    }
  }

  lemma {:induction false} MembersFit(lib: CLib, layout: Layout, kids: seq<Item>, depth: nat)
    requires depth > 0 && forall k :: k in kids ==> RawFree(k) && Printable(lib, k, depth)
    ensures forall c :: c in SyntaxMembers(lib, layout, kids, depth) ==> NestingFits(c, depth)
    decreases kids, 0
  {
    if kids != [] {
      SyntaxFits(lib, layout, kids[0], depth, MemberSlot(layout, kids[0].key, depth, |kids| == 1));
      MembersFit(lib, layout, kids[1..], depth);
    }
  }

  // ----- the round trip

  /** The printed text of a tree, as a JSON text. */
  function PrintedDocument(lib: CLib, layout: Layout, item: Item): Document
    requires RawFree(item)
  {
    Document([], Syntax(lib, layout, item, 0, ROOT_SLOT), [])
  }

  lemma PrintedIsJson(lib: CLib, layout: Layout, item: Item)
    requires RawFree(item) && Printable(lib, item, 0) && ValidLayout(layout)
    ensures ValidDocument(PrintedDocument(lib, layout, item))
    ensures FlatDocument(PrintedDocument(lib, layout, item)) == Text(lib, layout, item, 0)
    ensures Denote(lib, PrintedDocument(lib, layout, item).value) == AsParsed(lib, item)
  {
    hide Text, Flat, Syntax, Valid, Denote, NestingFits;
    TextIsFlat(lib, layout, item, 0, ROOT_SLOT);
    SyntaxIsValid(lib, layout, item, 0, ROOT_SLOT);
    SyntaxFits(lib, layout, item, 0, ROOT_SLOT);
    assert [] + Text(lib, layout, item, 0) + [] == Text(lib, layout, item, 0);
  }

  /**
   * Whatever the layout, parsing the printed text of a tree succeeds, reads all
   * of it and gives the tree back, up to what the text does not say.
   */
  lemma PrintThenParse(lib: CLib, layout: Layout, item: Item, requireNul: bool)
    requires RawFree(item) && Printable(lib, item, 0) && ValidLayout(layout)
    ensures ParseText(lib, Text(lib, layout, item, 0) + [NUL], requireNul)
         == Ok(AsParsed(lib, item), |Text(lib, layout, item, 0)|)
  {
    hide Text, Flat, Syntax, Valid, Denote, NestingFits, AsParsed, ParseText;
    var doc := PrintedDocument(lib, layout, item);
    PrintedIsJson(lib, layout, item);
    AcceptsEveryText(lib, doc, [NUL]);
  }

  /** The same without loss: trees as the parser builds them, and integers up to 32 bits. */
  lemma PrintThenParseExactly(lib: CLib, item: Item, format: bool)
    requires RawFree(item) && Printable(lib, item, 0) && Settled(lib, item) && item.key.None?
    ensures ParseText(lib, Text(lib, CJsonLayout(format), item, 0) + [NUL], true)
         == Ok(item, |Text(lib, CJsonLayout(format), item, 0)|)
  {
    hide Text, ParseText;
    SettledAsParsed(lib, item);
    PrintThenParse(lib, CJsonLayout(format), item, true);
  }
}
