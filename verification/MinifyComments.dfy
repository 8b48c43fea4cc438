/**
 * What cJSON_Minify is for: JSON texts with comments, which the parser does
 * not take, made into texts that it takes.
 */
module MinifyComments {
  import opened Bytes
  import opened CLibrary
  import opened Items
  import opened StringParser
  import opened Parser
  import opened Grammar
  import opened Completeness
  import opened RoundTrip
  import opened Minify
  import opened Minified

  lemma {:induction false} SqueezedFits(c: Cst, d: nat)
    requires NestingFits(c, d)
    ensures NestingFits(Squeezed(c), d)
    decreases c, 1
  {
    hide SqueezedAll;
    if c.CArray? || c.CObject? {
      SqueezedKidsFit(c.kids, d + 1);
    }
  }

  lemma {:induction false} SqueezedKidsFit(kids: seq<Cst>, d: nat)
    requires forall k :: k in kids ==> NestingFits(k, d)
    ensures forall k :: k in SqueezedAll(kids) ==> NestingFits(k, d)
    decreases kids, 0
  {
    hide NestingFits, Squeezed;
    if kids != [] {
      assert kids[0] in kids;
      SqueezedFits(kids[0], d);
      SqueezedKidsFit(kids[1..], d);
    }
  }

  /**
   * A JSON text with comments in which no string or name ends in a backslash
   * is a JSON text once it is minified, and parses to its value.
   */
  lemma MinifyThenParse(lib: CLib, doc: Document)
    requires CommentedDocument(doc) && Safe(doc.value) && NestingFits(doc.value, 0)
    ensures
      var minified := Outside(FlatDocument(doc));
      && ValidDocument(Document([], Squeezed(doc.value), [])) && minified == Flat(Squeezed(doc.value))
      && ParseText(lib, minified + [NUL], true) == Ok(Denote(lib, doc.value), |minified|)
  {
    hide Outside, Flat, FlatDocument, ValidDocument, CommentedDocument;
    hide Safe, Squeezed, Denote, Valid, NestingFits, ParseText;
    MinifyingKeepsMeaning(lib, doc);
    SqueezedFits(doc.value, 0);
    var squeezed := Document([], Squeezed(doc.value), []);
    BareDocument(Squeezed(doc.value));
    AcceptsEveryText(lib, squeezed, [NUL]);
  }

  lemma BareDocument(c: Cst)
    requires Valid(c) && NestingFits(c, 0)
    ensures ValidDocument(Document([], c, [])) && FlatDocument(Document([], c, [])) == Flat(c)
  {
    hide Valid, NestingFits, Flat;
    NothingIsSpace();
  }

  /** A line comment makes a JSON text unreadable, and minifying it away makes it readable again. */
  lemma CommentIsRemoved(lib: CLib, doc: Document, text: bytes)
    requires ValidDocument(doc) && Safe(doc.value) && NEWLINE !in text
    ensures
      var commented := Document(FlatPiece(LineComment(text)), doc.value, doc.after);
      && ParseText(lib, FlatDocument(commented) + [NUL], true).Fail?
      && ParseText(lib, Outside(FlatDocument(commented)) + [NUL], true).Ok?
  {
    hide Outside, Flat, Safe, Squeezed, Denote, Commented, Valid, NestingFits, ParseText, Filler, AllSpace;
    var commented := Document(FlatPiece(LineComment(text)), doc.value, doc.after);
    DocumentIsCommented(doc);
    OneComment(text);
    MinifyThenParse(lib, commented);
    SlashIsNoValue(lib, FlatDocument(commented) + [NUL]);
  }

  lemma OneComment(text: bytes)
    requires NEWLINE !in text
    ensures Filler(FlatPiece(LineComment(text)))
  {
    hide FlatPiece;
    var p := LineComment(text);
    assert [p][1..] == [];
    assert FlatPieces([p]) == FlatPiece(p) + [] == FlatPiece(p);
    assert ValidPieces([p]);
  }

  lemma SlashIsNoValue(lib: CLib, s: bytes)
    requires s != [] && s[0] == SLASH
    ensures ParseText(lib, s, true).Fail?
  {
    hide At, ParseArray, ParseObject, ParseString;
    NoBom(s, [], SLASH);
    assert SkipSpace(s, 0) == 0;
    NotAt(s, 0, NULL_TEXT);
    NotAt(s, 0, FALSE_TEXT);
    NotAt(s, 0, TRUE_TEXT);
  }

  // ----- what is dropped, in characters

  lemma MarksAre()
    ensures Ascii("//") == [SLASH, SLASH] && Ascii("/*") == [SLASH, STAR] && Ascii("*/") == [STAR, SLASH]
    ensures Ascii("\n") == [NEWLINE] && Ascii("/") == [SLASH] && Ascii(" \t\r\n") == [32, 9, 13, 10]
  {
  }

  /** Outside strings: white space, comments, and a slash that starts none. */
  lemma SpaceDropped(b: byte, rest: bytes)
    requires b in Ascii(" \t\r\n")
    ensures Outside([b] + rest) == Outside(rest)
  {
    MarksAre();
    assert ([b] + rest)[1..] == rest;
  }

  lemma LineDropped(text: bytes, rest: bytes)
    requires forall i :: 0 <= i < |text| ==> [text[i]] != Ascii("\n")
    ensures Outside(Ascii("//") + text + Ascii("\n") + rest) == Outside(rest)
    ensures Outside(Ascii("//") + text) == []
  {
    MarksAre();
    LineCommentVanishes(text, rest);
  }

  lemma BlockDropped(text: bytes, rest: bytes)
    requires forall i :: 0 <= i < |text| - 1 ==> [text[i], text[i + 1]] != Ascii("*/")
    ensures Outside(Ascii("/*") + text + Ascii("*/") + rest) == Outside(rest)
    ensures Outside(Ascii("/*") + text) == []
  {
    hide Outside;
    MarksAre();
    BlockCommentVanishes(text, rest);
    OpenBlock(text);
  }

  lemma OpenBlock(text: bytes)
    requires forall i :: 0 <= i < |text| - 1 ==> !(text[i] == STAR && text[i + 1] == SLASH)
    ensures Outside([SLASH, STAR] + text) == []
  {
    assert ([SLASH, STAR] + text)[2..] == text;
    NeverEnds(text);
  }

  lemma {:induction false} NeverEnds(text: bytes)
    requires forall i :: 0 <= i < |text| - 1 ==> !(text[i] == STAR && text[i + 1] == SLASH)
    ensures AfterBlock(text) == []
  {
    if text != [] {
      NeverEnds(text[1..]);
    }
  }

  lemma SlashDropped(rest: bytes)
    requires rest != [] ==> [rest[0]] != Ascii("/") && [rest[0]] != Ascii("*")
    ensures Outside(Ascii("/") + rest) == Outside(rest)
  {
    MarksAre();
    assert Ascii("*") == [STAR];
    assert (Ascii("/") + rest)[1..] == rest;
  }
}
