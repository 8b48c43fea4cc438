/** What minifying does to JSON texts, and when it turns formatted output into unformatted output. */
module Minified {
  import opened Bytes
  import opened CLibrary
  import opened Items
  import opened Utf8
  import opened StringParser
  import opened Grammar
  import opened Completeness
  import opened RoundTrip
  import opened Minify

  // ----- once is enough

  lemma {:induction false} OutsideTwice(s: bytes)
    ensures Outside(Outside(s)) == Outside(s)
    ensures Outside(s) != [] ==> !IsSpace(Outside(s)[0]) && Outside(s)[0] != SLASH
    decreases |s|
  {
    if s != [] {
      if IsSpace(s[0]) {
        OutsideTwice(s[1..]);
      } else if s[0] == SLASH {
        if |s| > 1 && s[1] == SLASH {
          OutsideTwice(AfterLine(s[2..]));
        } else if |s| > 1 && s[1] == STAR {
          OutsideTwice(AfterBlock(s[2..]));
        } else {
          OutsideTwice(s[1..]);
        }
      } else {
        assert Outside(s)[1..] == if s[0] == QUOTE then Inside(s[1..]) else Outside(s[1..]);
        if s[0] == QUOTE {
          InsideTwice(s[1..]);
        } else {
          OutsideTwice(s[1..]);
        }
      }
    }
  }

  lemma {:induction false} InsideTwice(s: bytes)
    ensures Inside(Inside(s)) == Inside(s)
    ensures Inside(s) != [] ==> s != [] && Inside(s)[0] == s[0]
    decreases |s|
  {
    if s != [] {
      var r := Inside(s);
      if s[0] == QUOTE {
        OutsideTwice(s[1..]);
        assert r[1..] == Outside(s[1..]);
      } else if s[0] == BACKSLASH && |s| > 1 && s[1] == QUOTE {
        InsideTwice(s[2..]);
        assert r[2..] == Inside(s[2..]);
      } else {
        InsideTwice(s[1..]);
        assert r[1..] == Inside(s[1..]);
      }
    }
  }

  /** Minifying is idempotent on every text, JSON or not. */
  lemma MinifyingIsIdempotent(s: bytes)
    ensures Outside(Outside(s)) == Outside(s)
  {
    OutsideTwice(s);
  }

  // ----- comments

  /** A line comment vanishes with its line end. */
  lemma LineCommentVanishes(text: bytes, rest: bytes)
    requires forall i :: 0 <= i < |text| ==> text[i] != NEWLINE
    ensures Outside([SLASH, SLASH] + text + [NEWLINE] + rest) == Outside(rest)
    ensures Outside([SLASH, SLASH] + text) == []
  {
    assert ([SLASH, SLASH] + text + [NEWLINE] + rest)[2..] == text + ([NEWLINE] + rest);
    assert ([SLASH, SLASH] + text)[2..] == text + [];
    LineSkipped(text, [NEWLINE] + rest);
    LineSkipped(text, []);
    assert ([NEWLINE] + rest)[1..] == rest;
  }

  lemma {:induction false} LineSkipped(text: bytes, rest: bytes)
    requires forall i :: 0 <= i < |text| ==> text[i] != NEWLINE
    ensures AfterLine(text + rest) == AfterLine(rest)
  {
    if text == [] {
      assert text + rest == rest;
    } else {
      LineSkipped(text[1..], rest);
      assert (text + rest)[1..] == text[1..] + rest;
    }
  }

  /** A block comment vanishes. */
  lemma BlockCommentVanishes(text: bytes, rest: bytes)
    requires forall i :: 0 <= i < |text| - 1 ==> !(text[i] == STAR && text[i + 1] == SLASH)
    ensures Outside([SLASH, STAR] + text + [STAR, SLASH] + rest) == Outside(rest)
  {
    assert ([SLASH, STAR] + text + [STAR, SLASH] + rest)[2..] == text + ([STAR, SLASH] + rest);
    BlockSkipped(text, rest);
  }

  lemma {:induction false} BlockSkipped(text: bytes, rest: bytes)
    requires forall i :: 0 <= i < |text| - 1 ==> !(text[i] == STAR && text[i + 1] == SLASH)
    ensures AfterBlock(text + ([STAR, SLASH] + rest)) == rest
  {
    var end := [STAR, SLASH] + rest;
    if text == [] {
      assert text + end == end && end[2..] == rest;
    } else {
      BlockSkipped(text[1..], rest);
      assert (text + end)[1..] == text[1..] + end;
    }
  }

  // ----- pieces of JSON text

  lemma {:induction false} OutsideSpaces(ws: bytes, rest: bytes)
    requires AllSpace(ws)
    ensures Outside(ws + rest) == Outside(rest)
  {
    if ws == [] {
      assert ws + rest == rest;
    } else {
      OutsideSpaces(ws[1..], rest);
      assert (ws + rest)[1..] == ws[1..] + rest;
    }
  }

  /** What may stand between the tokens of a JSON text with comments. */
  datatype Piece = Blank(b: byte) | LineComment(text: bytes) | BlockComment(text: bytes)

  predicate ValidPiece(p: Piece) {
    match p
    case Blank(b) => IsSpace(b)
    case LineComment(text) => forall i :: 0 <= i < |text| ==> text[i] != NEWLINE
    case BlockComment(text) => forall i :: 0 <= i < |text| - 1 ==> !(text[i] == STAR && text[i + 1] == SLASH)
  }

  predicate ValidPieces(ps: seq<Piece>) {
    forall i :: 0 <= i < |ps| ==> ValidPiece(ps[i])
  }

  function FlatPiece(p: Piece): bytes {
    match p
    case Blank(b) => [b]
    case LineComment(text) => [SLASH, SLASH] + text + [NEWLINE]
    case BlockComment(text) => [SLASH, STAR] + text + [STAR, SLASH]
  }

  function FlatPieces(ps: seq<Piece>): bytes {
    if ps == [] then [] else FlatPiece(ps[0]) + FlatPieces(ps[1..])
  }

  /** White space and comments. */
  ghost predicate Filler(s: bytes) {
    exists ps :: ValidPieces(ps) && s == FlatPieces(ps)
  }

  lemma PieceVanishes(p: Piece, rest: bytes)
    requires ValidPiece(p)
    ensures Outside(FlatPiece(p) + rest) == Outside(rest)
  {
    match p
    case Blank(b) => assert ([b] + rest)[1..] == rest;
    case LineComment(text) => LineCommentVanishes(text, rest);
    case BlockComment(text) => BlockCommentVanishes(text, rest);
  }

  lemma {:induction false} PiecesVanish(ps: seq<Piece>, rest: bytes)
    requires ValidPieces(ps)
    ensures Outside(FlatPieces(ps) + rest) == Outside(rest)
  {
    hide Outside, FlatPiece, ValidPiece;
    if ps == [] {
      assert FlatPieces(ps) + rest == rest;
    } else {
      PiecesVanish(ps[1..], rest);
      PieceVanishes(ps[0], FlatPieces(ps[1..]) + rest);
      assert FlatPieces(ps) + rest == FlatPiece(ps[0]) + (FlatPieces(ps[1..]) + rest);
    }
  }

  lemma FillerVanishes(s: bytes, rest: bytes)
    requires Filler(s)
    ensures Outside(s + rest) == Outside(rest)
  {
    hide Outside, FlatPieces, ValidPieces;
    var ps :| ValidPieces(ps) && s == FlatPieces(ps);
    PiecesVanish(ps, rest);
  }

  lemma {:induction false} BlankPieces(s: bytes) returns (ps: seq<Piece>)
    requires AllSpace(s)
    ensures ValidPieces(ps) && s == FlatPieces(ps)
  {
    if s == [] {
      ps := [];
    } else {
      var rest := BlankPieces(s[1..]);
      ps := [Blank(s[0])] + rest;
      assert ps[1..] == rest && s == [s[0]] + s[1..];
    }
  }

  lemma SpaceIsFiller(s: bytes)
    requires AllSpace(s)
    ensures Filler(s)
  {
    hide FlatPieces, ValidPieces, AllSpace;
    var ps := BlankPieces(s);
  }

  predicate Structural(b: byte) {
    !IsSpace(b) && b != SLASH && b != QUOTE
  }

  lemma OutsideByte(b: byte, t: bytes)
    requires Structural(b)
    ensures Outside([b] + t) == [b] + Outside(t)
  {
    assert ([b] + t)[1..] == t;
  }

  lemma {:induction false} OutsideCopies(t: bytes, rest: bytes)
    requires forall i :: 0 <= i < |t| ==> Structural(t[i])
    ensures Outside(t + rest) == t + Outside(rest)
  {
    hide Outside;
    if t == [] {
      assert t + rest == rest;
    } else {
      OutsideCopies(t[1..], rest);
      OutsideByte(t[0], t[1..] + rest);
      assert t + rest == [t[0]] + (t[1..] + rest);
      assert t + Outside(rest) == [t[0]] + (t[1..] + Outside(rest));
    }
  }

  lemma InsideByte(b: byte, t: bytes)
    requires b != QUOTE && b != BACKSLASH
    ensures Inside([b] + t) == [b] + Inside(t)
  {
    assert ([b] + t)[1..] == t;
  }

  lemma {:induction false} InsideCopies(t: bytes, rest: bytes)
    requires forall i :: 0 <= i < |t| ==> t[i] != QUOTE && t[i] != BACKSLASH
    ensures Inside(t + rest) == t + Inside(rest)
  {
    hide Inside;
    if t == [] {
      assert t + rest == rest;
    } else {
      InsideCopies(t[1..], rest);
      InsideByte(t[0], t[1..] + rest);
      assert t + rest == [t[0]] + (t[1..] + rest);
      assert t + Inside(rest) == [t[0]] + (t[1..] + Inside(rest));
    }
  }

  /** The last character is an escaped backslash, which minify_string takes for the escape of the closing quote. */
  predicate Fooled(cs: seq<Chr>) {
    cs != [] && cs[|cs| - 1] == Escape(BACKSLASH)
  }

  function Behind(fooled: bool, rest: bytes): bytes {
    if fooled then Inside(rest) else Outside(rest)
  }

  /** A backslash that is not followed by a quote. */
  lemma InsideBackslash(t: bytes)
    requires t == [] || t[0] != QUOTE
    ensures Inside([BACKSLASH] + t) == [BACKSLASH] + Inside(t)
  {
    assert ([BACKSLASH] + t)[1..] == t;
  }

  lemma InsideUnit(hex: bytes, t: bytes)
    requires |hex| == 4 && FourHex(hex, 0)
    ensures Inside([BACKSLASH, LETTER_U] + hex + t) == [BACKSLASH, LETTER_U] + hex + Inside(t)
  {
    hide Inside;
    var u := [LETTER_U] + hex;
    assert [BACKSLASH, LETTER_U] + hex + t == [BACKSLASH] + (u + t);
    InsideBackslash(u + t);
    InsideCopies(u, t);
    assert [BACKSLASH] + (u + Inside(t)) == [BACKSLASH, LETTER_U] + hex + Inside(t);
  }

  lemma InsideEscapedQuote(t: bytes)
    ensures Inside([BACKSLASH, QUOTE] + t) == [BACKSLASH, QUOTE] + Inside(t)
  {
    assert ([BACKSLASH, QUOTE] + t)[2..] == t;
  }

  lemma InsideEscape(e: byte, t: bytes)
    requires Unescape(e).Some? && t != [] && (e == BACKSLASH ==> t[0] != QUOTE)
    ensures Inside([BACKSLASH, e] + t) == [BACKSLASH, e] + Inside(t)
  {
    hide Inside;
    if e == QUOTE {
      InsideEscapedQuote(t);
    } else {
      assert [BACKSLASH, e] + t == [BACKSLASH] + ([e] + t);
      InsideBackslash([e] + t);
      if e == BACKSLASH {
        InsideBackslash(t);
      } else {
        InsideCopies([e], t);
      }
      assert [BACKSLASH] + ([e] + Inside(t)) == [BACKSLASH, e] + Inside(t);
    }
  }

  lemma InsidePair(lead: bytes, trail: bytes, t: bytes)
    requires |lead| == 4 && FourHex(lead, 0) && |trail| == 4 && FourHex(trail, 0)
    ensures Inside([BACKSLASH, LETTER_U] + lead + [BACKSLASH, LETTER_U] + trail + t)
         == [BACKSLASH, LETTER_U] + lead + [BACKSLASH, LETTER_U] + trail + Inside(t)
  {
    hide Inside;
    var u := [BACKSLASH, LETTER_U];
    var s := u + trail + t;
    assert u + lead + u + trail + t == u + lead + s;
    InsideUnit(lead, s);
    InsideUnit(trail, t);
    assert u + lead + (u + trail + Inside(t)) == u + lead + u + trail + Inside(t);
  }

  lemma InsideChr(c: Chr, t: bytes)
    requires ValidChr(c) && t != []
    requires c == Escape(BACKSLASH) ==> t[0] != QUOTE
    ensures Inside(FlatChr(c) + t) == FlatChr(c) + Inside(t)
  {
    hide Inside;
    match c
    case Plain(b) => InsideCopies([b], t);
    case Escape(e) => InsideEscape(e, t);
    case Unit(hex) => InsideUnit(hex, t);
    case Pair(lead, trail) => InsidePair(lead, trail, t);
  }

  lemma FlatChrStarts(cs: seq<Chr>, t: bytes)
    requires ValidChrs(cs) && cs != []
    ensures var s := FlatChrs(cs) + t; s != [] && s[0] != QUOTE
  {
    assert ValidChr(cs[0]);
    assert FlatChr(cs[0]) != [] && FlatChr(cs[0])[0] != QUOTE;
  }

  /** Behind a closing quote the scan is outside the string, or still inside it when it was fooled. */
  lemma {:induction false} InsideString(cs: seq<Chr>, rest: bytes)
    requires ValidChrs(cs)
    ensures Inside(FlatChrs(cs) + ([QUOTE] + rest)) == FlatChrs(cs) + ([QUOTE] + Behind(Fooled(cs), rest))
  {
    hide Outside, FlatChr, ValidChr, Inside;
    if cs == [] {
      InsideCloses(rest);
    } else if |cs| == 1 && Fooled(cs) {
      InsideMissesQuote(cs, rest);
    } else {
      InsideString(cs[1..], rest);
      var t := FlatChrs(cs[1..]) + ([QUOTE] + rest);
      if |cs| > 1 {
        FlatChrStarts(cs[1..], [QUOTE] + rest);
      }
      InsideChr(cs[0], t);
      assert FlatChrs(cs) + ([QUOTE] + rest) == FlatChr(cs[0]) + t;
      var b := Behind(Fooled(cs), rest);
      assert Fooled(cs[1..]) == Fooled(cs);
      assert FlatChr(cs[0]) + (FlatChrs(cs[1..]) + ([QUOTE] + b)) == FlatChrs(cs) + ([QUOTE] + b);
    }
  }

  lemma InsideCloses(rest: bytes)
    ensures Inside(FlatChrs([]) + ([QUOTE] + rest)) == FlatChrs([]) + ([QUOTE] + Outside(rest))
  {
    assert FlatChrs([]) + ([QUOTE] + rest) == [QUOTE] + rest;
    assert ([QUOTE] + rest)[1..] == rest;
  }

  lemma InsideMissesQuote(cs: seq<Chr>, rest: bytes)
    requires cs == [Escape(BACKSLASH)]
    ensures Inside(FlatChrs(cs) + ([QUOTE] + rest)) == FlatChrs(cs) + ([QUOTE] + Inside(rest))
  {
    assert FlatChrs(cs) == [BACKSLASH, BACKSLASH] + FlatChrs([]);
    var s := [BACKSLASH, QUOTE] + rest;
    assert FlatChrs(cs) + ([QUOTE] + rest) == [BACKSLASH] + s;
    InsideBackslash(s);
    assert s[2..] == rest;
    assert [BACKSLASH] + ([BACKSLASH, QUOTE] + Inside(rest)) == FlatChrs(cs) + ([QUOTE] + Inside(rest));
  }

  lemma OutsideString(cs: seq<Chr>, rest: bytes)
    requires ValidChrs(cs)
    ensures Outside(QuotedChrs(cs) + rest) == QuotedChrs(cs) + Behind(Fooled(cs), rest)
  {
    hide FlatChrs, ValidChrs, Inside;
    var s := QuotedChrs(cs) + rest;
    assert s[1..] == FlatChrs(cs) + ([QUOTE] + rest);
    InsideString(cs, rest);
    var b := Behind(Fooled(cs), rest);
    assert [QUOTE] + (FlatChrs(cs) + ([QUOTE] + b)) == QuotedChrs(cs) + b;
  }

  // ----- JSON texts with comments

  ghost predicate CommentedSlot(slot: Slot) {
    && ValidChrs(slot.name)
    && Filler(slot.beforeColon) && Filler(slot.afterColon) && Filler(slot.after) && Filler(slot.afterComma)
  }

  /** A valid value, but for comments where white space may stand. */
  ghost predicate Commented(c: Cst)
    decreases c
  {
    match c
    case CNumber(_, lexeme) => JsonNumber(lexeme)
    case CString(_, chars) => ValidChrs(chars)
    case CArray(_, pad, kids) => Filler(pad) && forall k :: k in kids ==> CommentedSlot(k.slot) && Commented(k)
    case CObject(_, pad, kids) => Filler(pad) && forall k :: k in kids ==> CommentedSlot(k.slot) && Commented(k)
    case _ => true
  }

  ghost predicate CommentedKids(kids: seq<Cst>) {
    forall k :: k in kids ==> CommentedSlot(k.slot) && Commented(k)
  }

  /** The last line comment may lack its line end. */
  ghost predicate Trailer(s: bytes) {
    Filler(s) || exists f: bytes, text: bytes :: s == f + LastLine(text) && Filler(f) && NEWLINE !in text
  }

  function LastLine(text: bytes): bytes {
    [SLASH, SLASH] + text
  }

  ghost predicate CommentedDocument(doc: Document) {
    Filler(doc.before) && Commented(doc.value) && Trailer(doc.after)
  }

  lemma SlotIsCommented(slot: Slot)
    requires ValidSlot(slot)
    ensures CommentedSlot(slot)
  {
    hide AllSpace, Filler, ValidChrs;
    SpaceIsFiller(slot.beforeColon);
    SpaceIsFiller(slot.afterColon);
    SpaceIsFiller(slot.after);
    SpaceIsFiller(slot.afterComma);
  }

  lemma {:induction false} ValidIsCommented(c: Cst)
    requires Valid(c)
    ensures Commented(c)
    decreases c
  {
    hide JsonNumber, ValidChrs, ValidSlot, CommentedSlot, AllSpace, Filler;
    if c.CArray? || c.CObject? {
      SpaceIsFiller(c.pad);
      forall k | k in c.kids ensures CommentedSlot(k.slot) && Commented(k) {
        SlotIsCommented(k.slot);
        ValidIsCommented(k);
      }
    }
  }

  lemma DocumentIsCommented(doc: Document)
    requires ValidDocument(doc)
    ensures CommentedDocument(doc)
  {
    hide AllSpace, Filler, Valid, Commented, NestingFits;
    SpaceIsFiller(doc.before);
    SpaceIsFiller(doc.after);
    ValidIsCommented(doc.value);
  }

  lemma TrailerVanishes(s: bytes)
    requires Trailer(s)
    ensures Outside(s) == []
  {
    hide Outside, Filler;
    NothingOutside();
    if Filler(s) {
      FillerVanishes(s, []);
      assert s + [] == s;
    } else {
      var f: bytes, text: bytes :| s == f + LastLine(text) && Filler(f) && NEWLINE !in text;
      FillerVanishes(f, LastLine(text));
      LineCommentVanishes(text, []);
    }
  }

  /** No string or name ends in a backslash. */
  predicate Safe(c: Cst)
    decreases c
  {
    match c
    case CString(_, chars) => !Fooled(chars)
    case CArray(_, _, kids) => forall k :: k in kids ==> Safe(k)
    case CObject(_, _, kids) => forall k :: k in kids ==> !Fooled(k.slot.name) && Safe(k)
    case _ => true
  }

  function SqueezedSlot(slot: Slot): Slot {
    Slot(slot.name, [], [], [], [])
  }

  /** The same value written without white space. */
  function Squeezed(c: Cst): (r: Cst)
    ensures r.slot == SqueezedSlot(c.slot)
    decreases c, 1
  {
    var slot := SqueezedSlot(c.slot);
    match c
    case CNull(_) => CNull(slot)
    case CFalse(_) => CFalse(slot)
    case CTrue(_) => CTrue(slot)
    case CNumber(_, lexeme) => CNumber(slot, lexeme)
    case CString(_, chars) => Cst.CString(slot, chars)
    case CArray(_, _, kids) => CArray(slot, [], SqueezedAll(kids))
    case CObject(_, _, kids) => CObject(slot, [], SqueezedAll(kids))
  }

  function SqueezedAll(kids: seq<Cst>): (r: seq<Cst>)
    ensures |r| == |kids|
    decreases kids, 0
  {
    if kids == [] then [] else [Squeezed(kids[0])] + SqueezedAll(kids[1..])
  }

  lemma NumberIsStructural(lexeme: bytes)
    requires JsonNumber(lexeme)
    ensures forall i :: 0 <= i < |lexeme| ==> Structural(lexeme[i])
  {
    hide JsonNumber;
    JsonNumberBytes(lexeme);
  }

  /** Minifying a value squeezes it, whatever follows. */
  lemma {:induction false} MinifiedValue(c: Cst, rest: bytes)
    requires Commented(c) && Safe(c)
    ensures Outside(Flat(c) + rest) == Flat(Squeezed(c)) + Outside(rest)
    decreases c, 1
  {
    hide Outside, JsonNumber, QuotedChrs, Fooled, FlatElements, FlatMembers, Filler, CommentedSlot;
    match c
    case CNull(_) => OutsideCopies(NULL_TEXT, rest);
    case CFalse(_) => OutsideCopies(FALSE_TEXT, rest);
    case CTrue(_) => OutsideCopies(TRUE_TEXT, rest);
    case CNumber(_, lexeme) =>
      NumberIsStructural(lexeme);
      OutsideCopies(lexeme, rest);
    case CString(_, chars) => OutsideString(chars, rest);
    case CArray(_, pad, kids) =>
      MinifiedElements(kids, [CLOSE_BRACKET] + rest);
      MinifiedEnclosed(OPEN_BRACKET, pad, FlatElements(kids), FlatElements(SqueezedAll(kids)), CLOSE_BRACKET, rest);
    case CObject(_, pad, kids) =>
      MinifiedMembers(kids, [CLOSE_BRACE] + rest);
      MinifiedEnclosed(OPEN_BRACE, pad, FlatMembers(kids), FlatMembers(SqueezedAll(kids)), CLOSE_BRACE, rest);
  }

  lemma MinifiedEnclosed(open: byte, pad: bytes, body: bytes, squeezed: bytes, close: byte, rest: bytes)
    requires Filler(pad) && Structural(open) && Structural(close)
    requires Outside(body + ([close] + rest)) == squeezed + Outside([close] + rest)
    ensures Outside([open] + pad + body + [close] + rest) == [open] + [] + squeezed + [close] + Outside(rest)
  {
    hide Outside, Filler;
    var t := body + ([close] + rest);
    assert [open] + pad + body + [close] + rest == [open] + (pad + t);
    OutsideCopies([open], pad + t);
    FillerVanishes(pad, t);
    OutsideCopies([close], rest);
    assert [open] + (squeezed + ([close] + Outside(rest))) == [open] + [] + squeezed + [close] + Outside(rest);
  }

  lemma MinifiedSlotEnd(slot: Slot, last: bool, rest: bytes)
    requires CommentedSlot(slot)
    ensures Outside(SlotEnd(slot, last) + rest) == SlotEnd(SqueezedSlot(slot), last) + Outside(rest)
  {
    hide Outside, Filler;
    if last {
      assert SlotEnd(slot, last) + rest == slot.after + rest;
      FillerVanishes(slot.after, rest);
      assert SlotEnd(SqueezedSlot(slot), last) + Outside(rest) == Outside(rest);
    } else {
      var t := slot.afterComma + rest;
      assert SlotEnd(slot, last) + rest == slot.after + ([COMMA] + t);
      FillerVanishes(slot.after, [COMMA] + t);
      OutsideCopies([COMMA], t);
      FillerVanishes(slot.afterComma, rest);
      assert SlotEnd(SqueezedSlot(slot), last) == [COMMA];
    }
  }

  lemma MinifiedSlotStart(slot: Slot, rest: bytes)
    requires CommentedSlot(slot) && !Fooled(slot.name)
    ensures Outside(SlotStart(slot) + rest) == SlotStart(SqueezedSlot(slot)) + Outside(rest)
  {
    hide Outside, Filler, QuotedChrs, Fooled;
    var t := slot.afterColon + rest;
    var u := slot.beforeColon + ([COLON] + t);
    var name := QuotedChrs(slot.name);
    assert SlotStart(slot) + rest == name + u;
    OutsideString(slot.name, u);
    FillerVanishes(slot.beforeColon, [COLON] + t);
    OutsideCopies([COLON], t);
    FillerVanishes(slot.afterColon, rest);
    assert name + ([COLON] + Outside(rest)) == SlotStart(SqueezedSlot(slot)) + Outside(rest);
  }

  lemma {:induction false} MinifiedElements(kids: seq<Cst>, rest: bytes)
    requires CommentedKids(kids) && forall k :: k in kids ==> Safe(k)
    ensures Outside(FlatElements(kids) + rest) == FlatElements(SqueezedAll(kids)) + Outside(rest)
    decreases kids, 0
  {
    hide Outside, Flat, Squeezed, SlotEnd, CommentedSlot, Commented, Safe;
    if kids == [] {
      assert FlatElements(kids) + rest == rest;
      assert FlatElements(SqueezedAll(kids)) + Outside(rest) == Outside(rest);
    } else {
      var k, last, more := kids[0], |kids| == 1, FlatElements(kids[1..]) + rest;
      var squeezed := SqueezedAll(kids);
      assert squeezed[1..] == SqueezedAll(kids[1..]) && k in kids;
      MinifiedElements(kids[1..], rest);
      MinifiedSlotEnd(k.slot, last, more);
      MinifiedValue(k, SlotEnd(k.slot, last) + more);
      Three(Flat(k), SlotEnd(k.slot, last), FlatElements(kids[1..]), rest);
      Three(Flat(squeezed[0]), SlotEnd(squeezed[0].slot, last), FlatElements(squeezed[1..]), Outside(rest));
    }
  }

  lemma {:induction false} MinifiedMembers(kids: seq<Cst>, rest: bytes)
    requires CommentedKids(kids) && forall k :: k in kids ==> !Fooled(k.slot.name) && Safe(k)
    ensures Outside(FlatMembers(kids) + rest) == FlatMembers(SqueezedAll(kids)) + Outside(rest)
    decreases kids, 0
  {
    hide Outside, Flat, Squeezed, SlotEnd, SlotStart, CommentedSlot, Commented, Safe, Fooled;
    if kids == [] {
      assert FlatMembers(kids) + rest == rest;
      assert FlatMembers(SqueezedAll(kids)) + Outside(rest) == Outside(rest);
    } else {
      var k, last, more := kids[0], |kids| == 1, FlatMembers(kids[1..]) + rest;
      var squeezed := SqueezedAll(kids);
      assert squeezed[1..] == SqueezedAll(kids[1..]) && k in kids;
      MinifiedMembers(kids[1..], rest);
      MinifiedSlotEnd(k.slot, last, more);
      MinifiedValue(k, SlotEnd(k.slot, last) + more);
      MinifiedSlotStart(k.slot, Flat(k) + (SlotEnd(k.slot, last) + more));
      Four(SlotStart(k.slot), Flat(k), SlotEnd(k.slot, last), FlatMembers(kids[1..]), rest);
      Four(SlotStart(squeezed[0].slot), Flat(squeezed[0]), SlotEnd(squeezed[0].slot, last),
           FlatMembers(squeezed[1..]), Outside(rest));
    }
  }

  /** Squeezing keeps the value. */
  lemma {:induction false} SqueezedDenotes(lib: CLib, c: Cst)
    ensures Denote(lib, Squeezed(c)) == Denote(lib, c)
    decreases c, 1
  {
    hide Meanings, SqueezedAll, DenoteElements, DenoteMembers;
    if c.CArray? || c.CObject? {
      SqueezedKidsDenote(lib, c.kids);
    }
  }

  lemma {:induction false} SqueezedKidsDenote(lib: CLib, kids: seq<Cst>)
    ensures DenoteElements(lib, SqueezedAll(kids)) == DenoteElements(lib, kids)
    ensures DenoteMembers(lib, SqueezedAll(kids)) == DenoteMembers(lib, kids)
    decreases kids, 0
  {
    hide Denote, Squeezed, Meanings, WithKey;
    if kids != [] {
      var squeezed := SqueezedAll(kids);
      assert squeezed[1..] == SqueezedAll(kids[1..]);
      SqueezedDenotes(lib, kids[0]);
      SqueezedKidsDenote(lib, kids[1..]);
    }
  }

  lemma {:induction false} SqueezedIsValid(c: Cst)
    requires Commented(c)
    ensures Valid(Squeezed(c))
    decreases c, 1
  {
    hide JsonNumber, ValidChrs, CommentedSlot, SqueezedAll, Filler;
    NothingIsSpace();
    if c.CArray? || c.CObject? {
      SqueezedKidsAreValid(c.kids);
    }
  }

  lemma {:induction false} SqueezedKidsAreValid(kids: seq<Cst>)
    requires CommentedKids(kids)
    ensures ValidKids(SqueezedAll(kids))
    decreases kids, 0
  {
    hide Valid, Commented, Squeezed, ValidSlot, CommentedSlot;
    if kids != [] {
      assert kids[0] in kids;
      SqueezedIsValid(kids[0]);
      NamesAreValid(kids[0].slot);
      SqueezedKidsAreValid(kids[1..]);
      ValidKidsCons(Squeezed(kids[0]), SqueezedAll(kids[1..]));
    }
  }

  lemma NamesAreValid(slot: Slot)
    requires CommentedSlot(slot)
    ensures ValidSlot(SqueezedSlot(slot))
  {
    hide Filler, ValidChrs;
  }

  /** A JSON text with comments is reduced to its value, without white space. */
  lemma MinifiedDocument(doc: Document)
    requires CommentedDocument(doc) && Safe(doc.value)
    ensures Outside(FlatDocument(doc)) == Flat(Squeezed(doc.value))
  {
    hide Outside, Flat, Safe, Commented, Filler, Trailer, Squeezed;
    var text := Flat(doc.value);
    assert FlatDocument(doc) == doc.before + (text + doc.after);
    FillerVanishes(doc.before, text + doc.after);
    MinifiedValue(doc.value, doc.after);
    TrailerVanishes(doc.after);
    assert Flat(Squeezed(doc.value)) + [] == Flat(Squeezed(doc.value));
  }

  /**
   * Minifying a JSON text, with or without comments, in which no string or name
   * ends in a backslash leaves the JSON text of the same value without white
   * space and comments.
   */
  lemma MinifyingKeepsMeaning(lib: CLib, doc: Document)
    requires CommentedDocument(doc) && Safe(doc.value)
    ensures Outside(FlatDocument(doc)) == Flat(Squeezed(doc.value))
    ensures Valid(Squeezed(doc.value)) && Denote(lib, Squeezed(doc.value)) == Denote(lib, doc.value)
  {
    hide Outside, Flat, Safe, Squeezed, Denote, FlatDocument, Commented;
    MinifiedDocument(doc);
    SqueezedIsValid(doc.value);
    SqueezedDenotes(lib, doc.value);
  }

  lemma NothingOutside()
    ensures Outside([]) == []
  {
  }

  lemma NothingInside()
    ensures Inside([]) == []
  {
  }

  // ----- printed text

  predicate EndsInBackslash(s: bytes) {
    s != [] && s[|s| - 1] == BACKSLASH
  }

  /** No string or name of the tree ends in a backslash. */
  predicate Harmless(item: Item)
    decreases item
  {
    match item
    case String(_, text) => !EndsInBackslash(OrEmpty(text))
    case Array(_, kids) => forall k :: k in kids ==> Harmless(k)
    case Object(_, kids) => forall k :: k in kids ==> !EndsInBackslash(OrEmpty(k.key)) && Harmless(k)
    case _ => true
  }

  lemma FooledByBackslash(s: cstring)
    ensures Fooled(ChrsOf(s)) <==> EndsInBackslash(s)
  {
  }

  lemma {:induction false} HarmlessIsSafe(lib: CLib, layout: Layout, item: Item, depth: nat, slot: Slot)
    requires RawFree(item)
    ensures Safe(Syntax(lib, layout, item, depth, slot)) <==> Harmless(item)
    decreases item, 1
  {
    hide Fooled, EndsInBackslash, Indent, LineBreak, SyntaxElements, SyntaxMembers, NumberText;
    if item.String? {
      FooledByBackslash(OrEmpty(item.text));
    } else if item.Array? {
      HarmlessArray(lib, layout, item, depth, slot);
    } else if item.Object? {
      HarmlessObject(lib, layout, item, depth, slot);
    }
  }

  lemma {:induction false} HarmlessArray(lib: CLib, layout: Layout, item: Item, depth: nat, slot: Slot)
    requires RawFree(item) && item.Array?
    ensures Safe(Syntax(lib, layout, item, depth, slot)) <==> Harmless(item)
    decreases item, 0
  {
    hide SyntaxElements, RawFree;
    KidsAreRawFree(item);
    HarmlessElements(lib, layout, item.kids, depth + 1);
  }

  lemma {:induction false} HarmlessObject(lib: CLib, layout: Layout, item: Item, depth: nat, slot: Slot)
    requires RawFree(item) && item.Object?
    ensures Safe(Syntax(lib, layout, item, depth, slot)) <==> Harmless(item)
    decreases item, 0
  {
    hide SyntaxMembers, RawFree, Fooled, EndsInBackslash, Indent, LineBreak;
    KidsAreRawFree(item);
    HarmlessMembers(lib, layout, item.kids, depth + 1);
  }

  lemma {:induction false} HarmlessElements(lib: CLib, layout: Layout, kids: seq<Item>, depth: nat)
    requires forall k :: k in kids ==> RawFree(k)
    ensures (forall c :: c in SyntaxElements(lib, layout, kids, depth) ==> Safe(c)) <==>
            (forall k :: k in kids ==> Harmless(k))
    decreases kids, 0
  {
    hide Syntax, Safe, Harmless, RawFree;
    if kids != [] {
      assert kids[0] in kids;
      var cs := SyntaxElements(lib, layout, kids, depth);
      HarmlessIsSafe(lib, layout, kids[0], depth, ElementSlot(layout));
      HarmlessElements(lib, layout, kids[1..], depth);
      assert cs[1..] == SyntaxElements(lib, layout, kids[1..], depth);
      assert forall c :: c in cs <==> c == cs[0] || c in cs[1..];
      assert forall k :: k in kids <==> k == kids[0] || k in kids[1..];
    }
  }

  lemma {:induction false} HarmlessMembers(lib: CLib, layout: Layout, kids: seq<Item>, depth: nat)
    requires depth > 0 && forall k :: k in kids ==> RawFree(k)
    ensures (forall c :: c in SyntaxMembers(lib, layout, kids, depth) ==> !Fooled(c.slot.name) && Safe(c)) <==>
            (forall k :: k in kids ==> !EndsInBackslash(OrEmpty(k.key)) && Harmless(k))
    decreases kids, 0
  {
    hide Syntax, Safe, Harmless, RawFree, Fooled, EndsInBackslash, Indent, LineBreak;
    if kids != [] {
      assert kids[0] in kids;
      var cs := SyntaxMembers(lib, layout, kids, depth);
      HarmlessIsSafe(lib, layout, kids[0], depth, MemberSlot(layout, kids[0].key, depth, |kids| == 1));
      FooledByBackslash(OrEmpty(kids[0].key));
      HarmlessMembers(lib, layout, kids[1..], depth);
      assert cs[1..] == SyntaxMembers(lib, layout, kids[1..], depth);
      assert forall c :: c in cs <==> c == cs[0] || c in cs[1..];
      assert forall k :: k in kids <==> k == kids[0] || k in kids[1..];
    }
  }

  /** Squeezing the syntax of formatted text gives the syntax of unformatted text. */
  lemma {:induction false} SqueezedSyntax(lib: CLib, layout: Layout, item: Item, depth: nat, slot: Slot)
    requires RawFree(item)
    ensures Squeezed(Syntax(lib, layout, item, depth, slot)) == Syntax(lib, Compact, item, depth, SqueezedSlot(slot))
    decreases item, 1
  {
    hide Syntax, Squeezed, RawFree;
    if item.Array? || item.Object? {
      SqueezedContainer(lib, layout, item, depth, slot);
    } else {
      SqueezedScalar(lib, layout, item, depth, slot);
    }
  }

  lemma SqueezedScalar(lib: CLib, layout: Layout, item: Item, depth: nat, slot: Slot)
    requires RawFree(item) && !item.Array? && !item.Object?
    ensures Squeezed(Syntax(lib, layout, item, depth, slot)) == Syntax(lib, Compact, item, depth, SqueezedSlot(slot))
  {
    hide NumberText;
  }

  lemma {:induction false} SqueezedContainer(lib: CLib, layout: Layout, item: Item, depth: nat, slot: Slot)
    requires RawFree(item) && (item.Array? || item.Object?)
    ensures Squeezed(Syntax(lib, layout, item, depth, slot)) == Syntax(lib, Compact, item, depth, SqueezedSlot(slot))
    decreases item, 0
  {
    hide Repeat, SyntaxElements, SyntaxMembers, SqueezedAll, RawFree;
    KidsAreRawFree(item);
    if item.Array? {
      SqueezedElements(lib, layout, item.kids, depth + 1);
    } else {
      SqueezedMembers(lib, layout, item.kids, depth + 1);
    }
  }

  lemma {:induction false} SqueezedElements(lib: CLib, layout: Layout, kids: seq<Item>, depth: nat)
    requires forall k :: k in kids ==> RawFree(k)
    ensures SqueezedAll(SyntaxElements(lib, layout, kids, depth)) == SyntaxElements(lib, Compact, kids, depth)
    decreases kids, 0
  {
    hide Syntax, RawFree, Squeezed;
    if kids != [] {
      assert kids[0] in kids;
      SqueezedSyntax(lib, layout, kids[0], depth, ElementSlot(layout));
      SqueezedElements(lib, layout, kids[1..], depth);
      var cs := SyntaxElements(lib, layout, kids, depth);
      assert cs[1..] == SyntaxElements(lib, layout, kids[1..], depth);
    }
  }

  lemma SqueezedMemberSlot(layout: Layout, key: Option<cstring>, depth: nat, last: bool)
    requires depth > 0
    ensures SqueezedSlot(MemberSlot(layout, key, depth, last)) == MemberSlot(Compact, key, depth, last)
  {
  }

  lemma {:induction false} SqueezedMembers(lib: CLib, layout: Layout, kids: seq<Item>, depth: nat)
    requires depth > 0 && forall k :: k in kids ==> RawFree(k)
    ensures SqueezedAll(SyntaxMembers(lib, layout, kids, depth)) == SyntaxMembers(lib, Compact, kids, depth)
    decreases kids, 0
  {
    hide Syntax, RawFree, Squeezed, MemberSlot;
    if kids != [] {
      assert kids[0] in kids;
      SqueezedMemberSlot(layout, kids[0].key, depth, |kids| == 1);
      SqueezedSyntax(lib, layout, kids[0], depth, MemberSlot(layout, kids[0].key, depth, |kids| == 1));
      SqueezedMembers(lib, layout, kids[1..], depth);
      var cs := SyntaxMembers(lib, layout, kids, depth);
      assert cs[1..] == SyntaxMembers(lib, layout, kids[1..], depth);
    }
  }

  lemma HarmlessText(lib: CLib, layout: Layout, item: Item, depth: nat, rest: bytes)
    requires RawFree(item) && ValidLayout(layout) && Harmless(item)
    ensures Outside(Text(lib, layout, item, depth) + rest) == Text(lib, Compact, item, depth) + Outside(rest)
  {
    hide Outside, Text, Syntax, Flat, Harmless, Safe, Valid, Commented;
    var c := Syntax(lib, layout, item, depth, ROOT_SLOT);
    SyntaxIsValid(lib, layout, item, depth, ROOT_SLOT);
    HarmlessIsSafe(lib, layout, item, depth, ROOT_SLOT);
    TextIsFlat(lib, layout, item, depth, ROOT_SLOT);
    ValidIsCommented(c);
    MinifiedValue(c, rest);
    SqueezedSyntax(lib, layout, item, depth, ROOT_SLOT);
    TextIsFlat(lib, Compact, item, depth, ROOT_SLOT);
  }
}
