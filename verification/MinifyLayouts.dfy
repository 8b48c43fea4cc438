/** For which JSON values minifying is right however they are laid out. */
module MinifyLayouts {
  import opened Bytes
  import opened CLibrary
  import opened Items
  import opened Grammar
  import opened Completeness
  import opened Minify
  import opened Minified
  import opened MinifyPrinted

  // ----- a layout with white space everywhere

  function SpacedSlot(slot: Slot): Slot {
    Slot(slot.name, [SPACE], [SPACE], [SPACE], [SPACE])
  }

  /** The same value with a space wherever white space may stand. */
  function Spaced(c: Cst): (r: Cst)
    ensures r.slot == SpacedSlot(c.slot)
    decreases c, 1
  {
    var slot := SpacedSlot(c.slot);
    match c
    case CNull(_) => CNull(slot)
    case CFalse(_) => CFalse(slot)
    case CTrue(_) => CTrue(slot)
    case CNumber(_, lexeme) => CNumber(slot, lexeme)
    case CString(_, chars) => Cst.CString(slot, chars)
    case CArray(_, _, kids) => CArray(slot, [SPACE], SpacedAll(kids))
    case CObject(_, _, kids) => CObject(slot, [SPACE], SpacedAll(kids))
  }

  function SpacedAll(kids: seq<Cst>): (r: seq<Cst>)
    ensures |r| == |kids|
    decreases kids, 0
  {
    if kids == [] then [] else [Spaced(kids[0])] + SpacedAll(kids[1..])
  }

  /** Every element and member is followed by a space, and so is every name. */
  predicate Airy(c: Cst)
    decreases c
  {
    c.CArray? || c.CObject? ==>
      forall k :: k in c.kids ==> k.slot.after == [SPACE] && k.slot.beforeColon == [SPACE] && Airy(k)
  }

  lemma {:induction false} SpacedIn(kids: seq<Cst>)
    ensures forall k :: k in kids ==> Spaced(k) in SpacedAll(kids)
    ensures forall c :: c in SpacedAll(kids) ==> exists k :: k in kids && c == Spaced(k)
  {
    hide Spaced;
    if kids != [] {
      SpacedIn(kids[1..]);
      assert forall k :: k in kids <==> k == kids[0] || k in kids[1..];
    }
  }

  lemma {:induction false} SqueezedIn(kids: seq<Cst>)
    ensures forall k :: k in kids ==> Squeezed(k) in SqueezedAll(kids)
    ensures forall c :: c in SqueezedAll(kids) ==> exists k :: k in kids && c == Squeezed(k)
  {
    hide Squeezed;
    if kids != [] {
      SqueezedIn(kids[1..]);
      assert forall k :: k in kids <==> k == kids[0] || k in kids[1..];
    }
  }

  lemma {:induction false} SpacedIsAiry(c: Cst)
    ensures Airy(Spaced(c))
    decreases c
  {
    if c.CArray? || c.CObject? {
      SpacedIn(c.kids);
      hide SpacedAll;
      forall k | k in c.kids ensures Airy(Spaced(k)) && Spaced(k).slot == SpacedSlot(k.slot) {
        SpacedIsAiry(k);
      }
      assert Spaced(c).kids == SpacedAll(c.kids);
    }
  }

  lemma {:induction false} SpacedFits(c: Cst, d: nat)
    requires NestingFits(c, d)
    ensures NestingFits(Spaced(c), d)
    decreases c
  {
    if c.CArray? || c.CObject? {
      SpacedIn(c.kids);
      hide SpacedAll;
      forall k | k in c.kids ensures NestingFits(Spaced(k), d + 1) {
        SpacedFits(k, d + 1);
      }
      assert Spaced(c).kids == SpacedAll(c.kids);
    }
  }

  lemma {:induction false} SpacedIsValid(c: Cst)
    requires Valid(c)
    ensures Valid(Spaced(c))
    decreases c
  {
    hide ValidChrs, JsonNumber, AllSpace;
    if c.CArray? || c.CObject? {
      SpacedIn(c.kids);
      hide SpacedAll;
      BlankIsSpace();
      forall k | k in c.kids ensures Valid(Spaced(k)) && ValidSlot(Spaced(k).slot) {
        SpacedIsValid(k);
      }
      assert Spaced(c).kids == SpacedAll(c.kids);
    }
  }

  lemma {:induction false} SpacedIsAsSafe(c: Cst)
    ensures Safe(Spaced(c)) <==> Safe(c)
    decreases c
  {
    hide Fooled;
    if c.CArray? || c.CObject? {
      SpacedIn(c.kids);
      hide SpacedAll;
      forall k | k in c.kids ensures (Safe(Spaced(k)) <==> Safe(k)) && Spaced(k).slot == SpacedSlot(k.slot) {
        SpacedIsAsSafe(k);
      }
      assert Spaced(c).kids == SpacedAll(c.kids);
    }
  }

  lemma {:induction false} SqueezedIsAsSafe(c: Cst)
    ensures Safe(Squeezed(c)) <==> Safe(c)
    decreases c
  {
    hide Fooled;
    if c.CArray? || c.CObject? {
      SqueezedIn(c.kids);
      hide SqueezedAll;
      forall k | k in c.kids ensures (Safe(Squeezed(k)) <==> Safe(k)) && Squeezed(k).slot == SqueezedSlot(k.slot) {
        SqueezedIsAsSafe(k);
      }
      assert Squeezed(c).kids == SqueezedAll(c.kids);
    }
  }

  lemma {:induction false} SpacedSqueezes(c: Cst)
    ensures Squeezed(Spaced(c)) == Squeezed(c)
    decreases c, 1
  {
    if c.CArray? || c.CObject? {
      SpacedKidsSqueeze(c.kids);
      hide SpacedAll, SqueezedAll;
      assert Spaced(c).kids == SpacedAll(c.kids);
    }
  }

  lemma {:induction false} SpacedKidsSqueeze(kids: seq<Cst>)
    ensures SqueezedAll(SpacedAll(kids)) == SqueezedAll(kids)
    decreases kids, 0
  {
    hide Spaced, Squeezed;
    if kids != [] {
      SpacedSqueezes(kids[0]);
      SpacedKidsSqueeze(kids[1..]);
      assert SpacedAll(kids)[1..] == SpacedAll(kids[1..]);
    }
  }

  /** What the layout does not change. */
  lemma SpacedKeeps(c: Cst)
    requires Valid(c) && NestingFits(c, 0)
    ensures Valid(Spaced(c)) && NestingFits(Spaced(c), 0) && Airy(Spaced(c))
    ensures Safe(Spaced(c)) <==> Safe(c)
    ensures Squeezed(Spaced(c)) == Squeezed(c)
  {
    hide Valid, NestingFits, Airy, Spaced, Safe, Squeezed;
    SpacedIsValid(c);
    SpacedFits(c, 0);
    SpacedIsAiry(c);
    SpacedIsAsSafe(c);
    SpacedSqueezes(c);
  }

  // ----- white space that minifying leaves in

  /** `x` has a space where `y`, so far the same, has ended or goes on with something else. */
  ghost predicate Strays(x: bytes, y: bytes) {
    exists k :: 0 <= k < |x| && SamePrefix(x, y, k) && x[k] == SPACE && (k < |y| ==> !IsSpace(y[k]))
  }

  predicate NoSpaceFirst(s: bytes) {
    s != [] ==> !IsSpace(s[0])
  }

  lemma StraysHere(a: bytes, x: bytes, y: bytes)
    requires x != [] && x[0] == SPACE && NoSpaceFirst(y)
    ensures Strays(a + x, a + y)
  {
    assert SamePrefix(a + x, a + y, |a|) && (a + x)[|a|] == x[0];
    assert y != [] ==> (a + y)[|a|] == y[0];
  }

  lemma StraysBehind(a: bytes, x: bytes, y: bytes)
    requires Strays(x, y)
    ensures Strays(a + x, a + y)
  {
    var k :| 0 <= k < |x| && SamePrefix(x, y, k) && x[k] == SPACE && (k < |y| ==> !IsSpace(y[k]));
    assert (a + x)[..|a| + k] == a + x[..k] && (a + y)[..|a| + k] == a + y[..k];
    assert SamePrefix(a + x, a + y, |a| + k) && (a + x)[|a| + k] == x[k];
    assert k < |y| ==> (a + y)[|a| + k] == y[k];
  }

  lemma StraysDiffers(x: bytes, y: bytes)
    requires Strays(x, y)
    ensures x != y
  {
  }

  /** A space stays when the scan takes itself to be in a string. */
  lemma InsideSpace(rest: bytes)
    requires rest != [] && rest[0] == SPACE
    ensures Inside(rest) != [] && Inside(rest)[0] == SPACE
  {
    hide Inside;
    assert rest == [SPACE] + rest[1..];
    InsideByte(SPACE, rest[1..]);
  }

  lemma FooledStrays(cs: seq<Chr>, rest: bytes, tail: bytes)
    requires ValidChrs(cs) && Fooled(cs) && rest != [] && rest[0] == SPACE && NoSpaceFirst(tail)
    ensures Strays(Outside(QuotedChrs(cs) + rest), QuotedChrs(cs) + tail)
  {
    hide Outside, Inside, QuotedChrs, Strays;
    OutsideString(cs, rest);
    InsideSpace(rest);
    StraysHere(QuotedChrs(cs), Inside(rest), tail);
  }

  lemma {:induction false} UnsafeStrays(c: Cst, rest: bytes, tail: bytes)
    requires Valid(c) && Airy(c) && !Safe(c) && rest != [] && rest[0] == SPACE && NoSpaceFirst(tail)
    ensures Strays(Outside(Flat(c) + rest), Flat(Squeezed(c)) + tail)
    decreases c, 1
  {
    hide Outside, Inside, QuotedChrs, Strays, Fooled, FlatElements, FlatMembers, JsonNumber, ValidChrs;
    match c
    case CString(_, chars) => FooledStrays(chars, rest, tail);
    case CArray(_, pad, kids) =>
      UnsafeElements(kids, [CLOSE_BRACKET] + rest, [CLOSE_BRACKET] + tail);
      StraysEnclosed(OPEN_BRACKET, pad, FlatElements(kids), FlatElements(SqueezedAll(kids)), CLOSE_BRACKET, rest, tail);
    case CObject(_, pad, kids) =>
      UnsafeMembers(kids, [CLOSE_BRACE] + rest, [CLOSE_BRACE] + tail);
      StraysEnclosed(OPEN_BRACE, pad, FlatMembers(kids), FlatMembers(SqueezedAll(kids)), CLOSE_BRACE, rest, tail);
  }

  lemma StraysEnclosed(open: byte, pad: bytes, body: bytes, squeezed: bytes, close: byte, rest: bytes, tail: bytes)
    requires AllSpace(pad) && Structural(open)
    requires Strays(Outside(body + ([close] + rest)), squeezed + ([close] + tail))
    ensures Strays(Outside([open] + pad + body + [close] + rest), [open] + [] + squeezed + [close] + tail)
  {
    hide Outside, Strays;
    var t := body + ([close] + rest);
    assert [open] + pad + body + [close] + rest == [open] + (pad + t);
    OutsideCopies([open], pad + t);
    OutsideSpaces(pad, t);
    assert [open] + [] + squeezed + [close] + tail == [open] + (squeezed + ([close] + tail));
    StraysBehind([open], Outside(t), squeezed + ([close] + tail));
  }

  /** A value that goes wrong, or what comes behind a value that does not. */
  lemma {:induction false} ValueStrays(k: Cst, last: bool, more: bytes, moreSqueezed: bytes)
    requires Valid(k) && Airy(k) && ValidSlot(k.slot) && k.slot.after == [SPACE]
    requires last ==> NoSpaceFirst(moreSqueezed)
    requires Safe(k) ==> Strays(Outside(more), moreSqueezed)
    ensures
      Strays(Outside(Flat(k) + (SlotEnd(k.slot, last) + more)),
             Flat(Squeezed(k)) + (SlotEnd(SqueezedSlot(k.slot), last) + moreSqueezed))
    decreases k, 2
  {
    hide Outside, Strays, Flat, Squeezed, Safe, Valid, Airy, ValidSlot, Commented, CommentedSlot;
    var end, endSqueezed := SlotEnd(k.slot, last), SlotEnd(SqueezedSlot(k.slot), last);
    if Safe(k) {
      ValidIsCommented(k);
      SlotIsCommented(k.slot);
      MinifiedValue(k, end + more);
      MinifiedSlotEnd(k.slot, last, more);
      StraysBehind(endSqueezed, Outside(more), moreSqueezed);
      StraysBehind(Flat(Squeezed(k)), endSqueezed + Outside(more), endSqueezed + moreSqueezed);
    } else {
      assert (end + more)[0] == SPACE;
      assert last ==> endSqueezed + moreSqueezed == moreSqueezed;
      assert !last ==> (endSqueezed + moreSqueezed)[0] == COMMA;
      UnsafeStrays(k, end + more, endSqueezed + moreSqueezed);
    }
  }

  lemma {:induction false} UnsafeElements(kids: seq<Cst>, rest: bytes, tail: bytes)
    requires ValidKids(kids) && (exists k :: k in kids && !Safe(k)) && tail != [] && NoSpaceFirst(tail)
    requires forall k :: k in kids ==> k.slot.after == [SPACE] && Airy(k)
    ensures Strays(Outside(FlatElements(kids) + rest), FlatElements(SqueezedAll(kids)) + tail)
    decreases kids, 0
  {
    hide Outside, Strays, Flat, Squeezed, Safe, SlotEnd, ValidSlot, Airy, Valid;
    var k, last := kids[0], |kids| == 1;
    var squeezed := SqueezedAll(kids);
    assert squeezed[1..] == SqueezedAll(kids[1..]) && k in kids;
    assert forall x :: x in kids ==> x == k || x in kids[1..];
    var more, moreSqueezed := FlatElements(kids[1..]) + rest, FlatElements(squeezed[1..]) + tail;
    if Safe(k) {
      UnsafeElements(kids[1..], rest, tail);
    }
    assert last ==> moreSqueezed == tail;
    ValueStrays(k, last, more, moreSqueezed);
    Three(Flat(k), SlotEnd(k.slot, last), FlatElements(kids[1..]), rest);
    Three(Flat(squeezed[0]), SlotEnd(squeezed[0].slot, last), FlatElements(squeezed[1..]), tail);
  }

  lemma {:induction false} UnsafeMembers(kids: seq<Cst>, rest: bytes, tail: bytes)
    requires ValidKids(kids) && (exists k :: k in kids && (Fooled(k.slot.name) || !Safe(k)))
    requires tail != [] && NoSpaceFirst(tail)
    requires forall k :: k in kids ==> k.slot.after == [SPACE] && k.slot.beforeColon == [SPACE] && Airy(k)
    ensures Strays(Outside(FlatMembers(kids) + rest), FlatMembers(SqueezedAll(kids)) + tail)
    decreases kids, 0
  {
    hide Outside, Strays, Flat, Squeezed, Safe, SlotEnd, SlotStart, ValidSlot, Airy, Valid, Fooled;
    var k, last := kids[0], |kids| == 1;
    var squeezed := SqueezedAll(kids);
    assert squeezed[1..] == SqueezedAll(kids[1..]) && k in kids;
    assert forall x :: x in kids ==> x == k || x in kids[1..];
    var more, moreSqueezed := FlatMembers(kids[1..]) + rest, FlatMembers(squeezed[1..]) + tail;
    var t := Flat(k) + (SlotEnd(k.slot, last) + more);
    var tSqueezed := Flat(squeezed[0]) + (SlotEnd(squeezed[0].slot, last) + moreSqueezed);
    Four(SlotStart(k.slot), Flat(k), SlotEnd(k.slot, last), FlatMembers(kids[1..]), rest);
    Four(SlotStart(squeezed[0].slot), Flat(squeezed[0]), SlotEnd(squeezed[0].slot, last), FlatMembers(squeezed[1..]),
         tail);
    if Fooled(k.slot.name) {
      NameStrays(k.slot, t, tSqueezed);
    } else {
      if Safe(k) {
        UnsafeMembers(kids[1..], rest, tail);
      }
      assert last ==> moreSqueezed == tail;
      ValueStrays(k, last, more, moreSqueezed);
      SlotIsCommented(k.slot);
      MinifiedSlotStart(k.slot, t);
      StraysBehind(SlotStart(squeezed[0].slot), Outside(t), tSqueezed);
    }
  }

  lemma NameStrays(slot: Slot, t: bytes, tSqueezed: bytes)
    requires ValidSlot(slot) && Fooled(slot.name) && slot.beforeColon == [SPACE]
    ensures Strays(Outside(SlotStart(slot) + t), SlotStart(SqueezedSlot(slot)) + tSqueezed)
  {
    hide Outside, Strays, QuotedChrs, Fooled, AllSpace;
    var name := QuotedChrs(slot.name);
    var behind := [SPACE] + ([COLON] + (slot.afterColon + t));
    assert SlotStart(slot) + t == name + behind;
    assert SlotStart(SqueezedSlot(slot)) + tSqueezed == name + ([COLON] + tSqueezed);
    FooledStrays(slot.name, behind, [COLON] + tSqueezed);
  }

  /**
   * Minifying drops exactly the white space from a JSON text of a value, and
   * the comments if there are any, however the text is laid out, if and only if
   * no string or name in the value ends in a backslash.
   */
  lemma RightInEveryLayout(value: Cst)
    requires Valid(value) && NestingFits(value, 0)
    ensures Safe(value) <==>
      forall doc :: ValidDocument(doc) && Squeezed(doc.value) == Squeezed(value) ==>
        Outside(FlatDocument(doc)) == Flat(Squeezed(value))
    ensures Safe(value) <==>
      forall doc :: CommentedDocument(doc) && Squeezed(doc.value) == Squeezed(value) ==>
        Outside(FlatDocument(doc)) == Flat(Squeezed(value))
  {
    hide Outside, Safe, Squeezed, Flat, Valid, NestingFits, FlatDocument, CommentedDocument, ValidDocument;
    if Safe(value) {
      forall doc | CommentedDocument(doc) && Squeezed(doc.value) == Squeezed(value)
        ensures Outside(FlatDocument(doc)) == Flat(Squeezed(value))
      {
        SqueezedIsAsSafe(value);
        SqueezedIsAsSafe(doc.value);
        MinifiedDocument(doc);
      }
      forall doc | ValidDocument(doc) ensures CommentedDocument(doc) {
        DocumentIsCommented(doc);
      }
    } else {
      var doc := WrongLayout(value);
      DocumentIsCommented(doc);
    }
  }

  /** A layout in which minifying goes wrong. */
  lemma WrongLayout(value: Cst) returns (doc: Document)
    requires Valid(value) && NestingFits(value, 0) && !Safe(value)
    ensures ValidDocument(doc) && Squeezed(doc.value) == Squeezed(value)
    ensures Outside(FlatDocument(doc)) != Flat(Squeezed(value))
  {
    hide Outside, Safe, Squeezed, Flat, Spaced, Valid, NestingFits, Airy, AllSpace;
    doc := Document([], Spaced(value), [SPACE]);
    SpacedKeeps(value);
    BlankIsSpace();
    UnsafeStrays(doc.value, [SPACE], []);
    assert FlatDocument(doc) == Flat(doc.value) + [SPACE];
    assert Flat(Squeezed(value)) + [] == Flat(Squeezed(value));
    StraysDiffers(Outside(FlatDocument(doc)), Flat(Squeezed(value)));
  }

  lemma BlankIsSpace()
    ensures AllSpace([]) && AllSpace([SPACE])
  {
  }

  // ----- one text that is changed for good

  /** An array of two strings, the first of which ends in a backslash. */
  function TwoStrings(second: seq<Chr>): Document {
    var slot := Slot([], [], [], [], []);
    Document([], CArray(slot, [], [Cst.CString(slot, [Escape(BACKSLASH)]), Cst.CString(slot, second)]), [])
  }

  const START: bytes := [OPEN_BRACKET, QUOTE, BACKSLASH, BACKSLASH, QUOTE, COMMA, QUOTE]

  lemma FlatPair(a: Cst, b: Cst)
    ensures FlatElements([a, b]) == Flat(a) + SlotEnd(a.slot, false) + (Flat(b) + SlotEnd(b.slot, true))
  {
    hide Flat, SlotEnd;
    assert [a, b][1..] == [b] && [b][1..] == [];
    assert FlatElements([b]) == Flat(b) + SlotEnd(b.slot, true);
  }

  lemma TwoStringsText(second: seq<Chr>)
    ensures FlatDocument(TwoStrings(second)) == START + (FlatChrs(second) + [QUOTE, CLOSE_BRACKET])
  {
    hide FlatElements, FlatChrs;
    var kids := TwoStrings(second).value.kids;
    FlatPair(kids[0], kids[1]);
    PlainText(Escape(BACKSLASH), []);
    assert SlotEnd(kids[0].slot, false) == [COMMA] && SlotEnd(kids[1].slot, true) == [];
    assert Flat(kids[0]) == [QUOTE, BACKSLASH, BACKSLASH, QUOTE];
    assert FlatElements(kids) == [QUOTE, BACKSLASH, BACKSLASH, QUOTE] + [COMMA] + (QuotedChrs(second) + []);
    assert Flat(TwoStrings(second).value) == [OPEN_BRACKET] + [] + FlatElements(kids) + [CLOSE_BRACKET];
  }

  lemma PlainText(c: Chr, cs: seq<Chr>)
    ensures FlatChrs([c] + cs) == FlatChr(c) + FlatChrs(cs)
    ensures FlatChrs([]) == []
    ensures [c] + [] == [c]
  {
    assert ([c] + cs)[1..] == cs;
  }

  lemma PlainMeans(b: byte, cs: seq<Chr>)
    requires ValidChr(Plain(b)) && ValidChrs(cs)
    ensures ValidChrs([Plain(b)] + cs) && Meanings([Plain(b)] + cs) == [b] + Meanings(cs)
  {
    assert ([Plain(b)] + cs)[1..] == cs;
  }

  /** Behind the first string the scan is still inside, so it leaves the text of the second. */
  lemma TwoStringsScan(t: bytes)
    ensures Outside(START + t) == START + Outside(t)
  {
    hide Outside, Inside;
    var e := [BACKSLASH, QUOTE] + ([COMMA, QUOTE] + t);
    assert START + t == [OPEN_BRACKET] + ([QUOTE] + ([BACKSLASH] + e));
    OutsideByte(OPEN_BRACKET, [QUOTE] + ([BACKSLASH] + e));
    OpensAndCloses([BACKSLASH] + e);
    InsideBackslash(e);
    InsideEscapedQuote([COMMA, QUOTE] + t);
    assert [COMMA, QUOTE] + t == [COMMA] + ([QUOTE] + t);
    InsideByte(COMMA, [QUOTE] + t);
    OpensAndCloses(t);
    assert [OPEN_BRACKET] + ([QUOTE] + ([BACKSLASH] + ([BACKSLASH, QUOTE] + ([COMMA] + ([QUOTE] + Outside(t))))))
        == START + Outside(t);
  }

  lemma OpensAndCloses(t: bytes)
    ensures Outside([QUOTE] + t) == [QUOTE] + Inside(t) && Inside([QUOTE] + t) == [QUOTE] + Outside(t)
  {
    assert ([QUOTE] + t)[1..] == t;
  }

  const SPACED_OUT: seq<Chr> := [Plain(98), Plain(SPACE), Plain(99)]
  const CLOSED_UP: seq<Chr> := [Plain(98), Plain(99)]

  lemma SecondStringScan()
    ensures Outside([98, SPACE, 99, QUOTE, CLOSE_BRACKET]) == [98, 99, QUOTE, CLOSE_BRACKET]
  {
    hide Outside, Inside;
    var end := [QUOTE, CLOSE_BRACKET];
    assert [98, SPACE, 99, QUOTE, CLOSE_BRACKET] == [98] + ([SPACE] + ([99] + end)) && end == [QUOTE] + [CLOSE_BRACKET];
    OutsideByte(98, [SPACE] + ([99] + end));
    BlankIsSpace();
    OutsideSpaces([SPACE], [99] + end);
    OutsideByte(99, end);
    OpensAndCloses([CLOSE_BRACKET]);
    assert [CLOSE_BRACKET] == [CLOSE_BRACKET] + [];
    InsideByte(CLOSE_BRACKET, []);
    NothingInside();
  }

  lemma SecondString()
    ensures FlatChrs(SPACED_OUT) == [98, SPACE, 99] && FlatChrs(CLOSED_UP) == [98, 99]
    ensures ValidChrs(SPACED_OUT) && Meanings(SPACED_OUT) == [98, SPACE, 99]
    ensures ValidChrs(CLOSED_UP) && Meanings(CLOSED_UP) == [98, 99]
  {
    hide FlatChrs, Meanings;
    var c := [Plain(99)];
    assert SPACED_OUT == [Plain(98)] + ([Plain(SPACE)] + c) && CLOSED_UP == [Plain(98)] + c;
    PlainText(Plain(99), []);
    PlainText(Plain(SPACE), c);
    PlainText(Plain(98), [Plain(SPACE)] + c);
    PlainText(Plain(98), c);
    MeansNothing();
    PlainMeans(99, []);
    PlainMeans(SPACE, c);
    PlainMeans(98, [Plain(SPACE)] + c);
    PlainMeans(98, c);
  }

  lemma MeansNothing()
    ensures Meanings([]) == []
  {
  }

  /** The space in the second of two strings is lost, and what is left is the JSON text of another value. */
  lemma LosesText(lib: CLib)
    ensures
      var before, after := TwoStrings(SPACED_OUT), TwoStrings(CLOSED_UP);
      && ValidDocument(before) && ValidDocument(after)
      && Outside(FlatDocument(before)) == FlatDocument(after)
      && Denote(lib, before.value) != Denote(lib, after.value)
  {
    hide Outside, FlatDocument, FlatChrs, Meanings, TwoStrings, Denote, Valid, ValidDocument;
    SecondString();
    TwoStringsText(SPACED_OUT);
    TwoStringsText(CLOSED_UP);
    assert [98, SPACE, 99] + [QUOTE, CLOSE_BRACKET] == [98, SPACE, 99, QUOTE, CLOSE_BRACKET];
    assert [98, 99] + [QUOTE, CLOSE_BRACKET] == [98, 99, QUOTE, CLOSE_BRACKET];
    SecondStringScan();
    TwoStringsScan([98, SPACE, 99, QUOTE, CLOSE_BRACKET]);
    TwoStringsDenote(lib, SPACED_OUT);
    TwoStringsDenote(lib, CLOSED_UP);
  }

  lemma DenotePair(lib: CLib, a: Cst, b: Cst)
    requires ValidSlot(a.slot) && Valid(a) && ValidSlot(b.slot) && Valid(b)
    ensures ValidKids([a, b]) && DenoteElements(lib, [a, b]) == [Denote(lib, a), Denote(lib, b)]
  {
    hide Valid, ValidSlot, Denote;
    assert [a, b][1..] == [b] && [b][1..] == [];
    assert DenoteElements(lib, [b]) == [Denote(lib, b)];
  }

  lemma TwoStringsDenote(lib: CLib, second: seq<Chr>)
    requires ValidChrs(second) && NulFree(Meanings(second))
    ensures ValidDocument(TwoStrings(second))
    ensures Denote(lib, TwoStrings(second).value).Array? && |Denote(lib, TwoStrings(second).value).kids| == 2
    ensures Denote(lib, TwoStrings(second).value).kids[1] == String(None, Some(Meanings(second)))
  {
    hide Meanings, DenoteElements;
    CStringIdentity(Meanings(second));
    var kids := TwoStrings(second).value.kids;
    assert ValidChr(Escape(BACKSLASH)) && Valid(kids[0]) && Valid(kids[1]) && ValidSlot(kids[0].slot);
    assert NestingFits(kids[0], 1) && NestingFits(kids[1], 1) && kids == [kids[0], kids[1]];
    DenotePair(lib, kids[0], kids[1]);
  }
}
