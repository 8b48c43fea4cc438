/** reindent_cjson_output: formatted output with four spaces for each indentation tab. */
module Reindent {
  import opened Bytes
  import opened CLibrary
  import opened Strings
  import opened Items
  import opened Parser
  import opened RoundTrip

  const FOUR_SPACES: bytes := [SPACE, SPACE, SPACE, SPACE]

  /** What a tab becomes: indentation at the start of a line, and otherwise the gap behind a colon. */
  function TabAs(atLineStart: bool): bytes {
    if atLineStart then FOUR_SPACES else [SPACE]
  }

  function Reindented(s: bytes, atLineStart: bool): (r: bytes)
    ensures |r| <= 4 * |s|
  {
    if s == [] then []
    else if s[0] == TAB then TabAs(atLineStart) + Reindented(s[1..], atLineStart)
    else [s[0]] + Reindented(s[1..], s[0] == NEWLINE)
  }

  /** The function of the test harness: the output always fits the block that is allocated for it. */
  method ReindentCJsonOutput(input: array<byte>) returns (output: array<byte>)
    requires NUL in input[..]
    ensures fresh(output)
    ensures
      var r := Reindented(CString(input[..]), true);
      |r| < output.Length && output[..|r|] == r && output[|r|] == NUL
  {
    var length := 0;
    while input[length] != NUL
      invariant 0 <= length <= |CString(input[..])| < input.Length
      decreases input.Length - length
    {
      length := length + 1;
      CStringEnds(input[..]);
    }
    CStringEnds(input[..]);
    ghost var text := CString(input[..]);
    output := new byte[length * 4 + 1];
    var out, atLineStart := 0, true;
    ghost var done: bytes := [];
    assert output[..0] == [] && text[0..] == text;
    for i := 0 to length
      invariant length == |text| && input[..] == old(input[..])
      invariant out == |done| <= 4 * i && output[..out] == done
      invariant done + Reindented(text[i..], atLineStart) == Reindented(text, true)
    {
      var c := input[i];
      assert c == text[i] && text[i..][1..] == text[i + 1..];
      var piece := if c == TAB then TabAs(atLineStart) else [c];
      Put(output, out, piece, done);
      Moved(done, piece, done + piece, Reindented(text[i..], atLineStart),
            Reindented(text[i + 1..], if c == TAB then atLineStart else c == NEWLINE));
      out, done := out + |piece|, done + piece;
      if c != TAB {
        atLineStart := c == NEWLINE;
      }
    }
    assert text[length..] == [];
    output[out] := NUL;
  }

  method Put(output: array<byte>, out: nat, piece: bytes, ghost done: bytes)
    requires out == |done| && out + |piece| <= output.Length && output[..out] == done
    modifies output
    ensures output[..out + |piece|] == done + piece
  {
    for k := 0 to |piece|
      invariant output[..out + k] == done + piece[..k]
    {
      output[out + k] := piece[k];
      assert piece[..k + 1] == piece[..k] + [piece[k]];
    }
    assert piece[..|piece|] == piece;
  }

  // ----- on printed text

  /** The layout of results.json. */
  const SPACED: Layout := Pretty(FOUR_SPACES, [SPACE])

  predicate Plain(t: bytes) {
    forall i :: 0 <= i < |t| ==> t[i] != TAB && t[i] != NEWLINE
  }

  /** Bytes other than tabs and newlines stay, and what follows is not at the start of a line. */
  lemma {:induction false} PlainStays(t: bytes, rest: bytes, atLineStart: bool)
    requires Plain(t)
    ensures Reindented(t + rest, atLineStart) == t + Reindented(rest, atLineStart && t == [])
  {
    if t == [] {
      assert t + rest == rest;
    } else {
      PlainStays(t[1..], rest, false);
      assert (t + rest)[1..] == t[1..] + rest;
      var r := Reindented(rest, false);
      assert t + r == [t[0]] + (t[1..] + r);
    }
  }

  lemma NewlineStays(rest: bytes, atLineStart: bool)
    ensures Reindented([NEWLINE] + rest, atLineStart) == [NEWLINE] + Reindented(rest, true)
  {
    assert ([NEWLINE] + rest)[1..] == rest;
  }

  lemma TabChanges(rest: bytes, atLineStart: bool)
    ensures Reindented([TAB] + rest, atLineStart) == TabAs(atLineStart) + Reindented(rest, atLineStart)
  {
    assert ([TAB] + rest)[1..] == rest;
  }

  lemma {:induction false} IndentChanges(depth: nat, rest: bytes)
    ensures Reindented(Indent(FORMATTED, depth) + rest, true) == Indent(SPACED, depth) + Reindented(rest, true)
  {
    hide Reindented;
    if depth == 0 {
      assert Indent(FORMATTED, 0) + rest == rest;
    } else {
      var t, u := Indent(FORMATTED, depth - 1), Indent(SPACED, depth - 1);
      IndentChanges(depth - 1, rest);
      TabChanges(t + rest, true);
      assert Indent(FORMATTED, depth) + rest == [TAB] + (t + rest);
      assert FOUR_SPACES + (u + Reindented(rest, true)) == Indent(SPACED, depth) + Reindented(rest, true);
    }
  }

  lemma {:induction false} EscapedIsPlain(s: bytes)
    ensures Plain(Escaped(s))
  {
    if s != [] {
      EscapedIsPlain(s[1..]);
    }
  }

  lemma QuotedIsPlain(s: bytes)
    ensures Plain(Quoted(s)) && Quoted(s) != []
  {
    EscapedIsPlain(s);
  }

  lemma WordsArePlain()
    ensures Plain(NULL_TEXT) && Plain(FALSE_TEXT) && Plain(TRUE_TEXT)
  {
  }

  lemma NumberIsPlain(t: bytes)
    requires JsonNumber(t)
    ensures Plain(t) && t != []
  {
    hide JsonNumber;
    JsonNumberBytes(t);
  }

  /** Values without children are printed on one line, the same in both layouts. */
  lemma ScalarIsPlain(lib: CLib, item: Item, depth: nat)
    requires RawFree(item) && !item.Array? && !item.Object?
    ensures var t := Text(lib, FORMATTED, item, depth); t == Text(lib, SPACED, item, depth) && Plain(t) && t != []
  {
    hide JsonNumber, Quoted, NumberText, Plain;
    WordsArePlain();
    if item.Number? {
      NumberIsPlain(NumberText(lib, item.d));
    } else if item.String? {
      QuotedIsPlain(OrEmpty(item.text));
    }
  }

  /** Printed text is rewritten to the other layout, and no string in it is touched. */
  lemma {:induction false} TextChanges(lib: CLib, item: Item, depth: nat, rest: bytes, atLineStart: bool)
    requires RawFree(item)
    ensures Reindented(Text(lib, FORMATTED, item, depth) + rest, atLineStart)
         == Text(lib, SPACED, item, depth) + Reindented(rest, false)
    decreases item, 1
  {
    hide Reindented, Text, RawFree, Plain;
    if item.Array? {
      ArrayChanges(lib, item, depth, rest, atLineStart);
    } else if item.Object? {
      ObjectChanges(lib, item, depth, rest, atLineStart);
    } else {
      ScalarIsPlain(lib, item, depth);
      PlainStays(Text(lib, FORMATTED, item, depth), rest, atLineStart);
    }
  }

  lemma {:induction false} ArrayChanges(lib: CLib, item: Item, depth: nat, rest: bytes, atLineStart: bool)
    requires RawFree(item) && item.Array?
    ensures Reindented(Text(lib, FORMATTED, item, depth) + rest, atLineStart)
         == Text(lib, SPACED, item, depth) + Reindented(rest, false)
    decreases item, 0
  {
    hide Reindented, Elements, RawFree;
    KidsAreRawFree(item);
    var f, g := Elements(lib, FORMATTED, item.kids, depth + 1), Elements(lib, SPACED, item.kids, depth + 1);
    var end := [CLOSE_BRACKET] + rest;
    assert [OPEN_BRACKET] + f + [CLOSE_BRACKET] + rest == [OPEN_BRACKET] + (f + end);
    PlainStays([OPEN_BRACKET], f + end, atLineStart);
    ElementsChange(lib, item.kids, depth + 1, end);
    PlainStays([CLOSE_BRACKET], rest, false);
    var r := Reindented(rest, false);
    assert [OPEN_BRACKET] + (g + ([CLOSE_BRACKET] + r)) == [OPEN_BRACKET] + g + [CLOSE_BRACKET] + r;
  }

  lemma {:induction false} ElementsChange(lib: CLib, kids: seq<Item>, depth: nat, rest: bytes)
    requires forall k :: k in kids ==> RawFree(k)
    ensures Reindented(Elements(lib, FORMATTED, kids, depth) + rest, false)
         == Elements(lib, SPACED, kids, depth) + Reindented(rest, false)
    decreases kids, 0
  {
    hide Reindented, Text, RawFree;
    var r := Reindented(rest, false);
    if kids == [] {
      assert Elements(lib, FORMATTED, kids, depth) + rest == rest;
      assert Elements(lib, SPACED, kids, depth) + r == r;
    } else {
      assert kids[0] in kids;
      var end := ElementEnd(FORMATTED, |kids| == 1);
      var more, more' := Elements(lib, FORMATTED, kids[1..], depth), Elements(lib, SPACED, kids[1..], depth);
      assert end == ElementEnd(SPACED, |kids| == 1) && Plain(end);
      Three(Text(lib, FORMATTED, kids[0], depth), end, more, rest);
      TextChanges(lib, kids[0], depth, end + (more + rest), false);
      PlainStays(end, more + rest, false);
      ElementsChange(lib, kids[1..], depth, rest);
      Three(Text(lib, SPACED, kids[0], depth), end, more', r);
    }
  }

  lemma {:induction false} ObjectChanges(lib: CLib, item: Item, depth: nat, rest: bytes, atLineStart: bool)
    requires RawFree(item) && item.Object?
    ensures Reindented(Text(lib, FORMATTED, item, depth) + rest, atLineStart)
         == Text(lib, SPACED, item, depth) + Reindented(rest, false)
    decreases item, 0
  {
    hide Reindented, Members, RawFree, Indent;
    KidsAreRawFree(item);
    var f, g := Members(lib, FORMATTED, item.kids, depth + 1), Members(lib, SPACED, item.kids, depth + 1);
    var i, j, r := Indent(FORMATTED, depth), Indent(SPACED, depth), Reindented(rest, false);
    var end := i + ([CLOSE_BRACE] + rest);
    ObjectInPieces(f, i, rest);
    PlainStays([OPEN_BRACE], [NEWLINE] + (f + end), atLineStart);
    NewlineStays(f + end, false);
    MembersChange(lib, item.kids, depth + 1, end);
    IndentChanges(depth, [CLOSE_BRACE] + rest);
    PlainStays([CLOSE_BRACE], rest, true);
    ObjectInPieces(g, j, r);
  }

  lemma ObjectInPieces(f: bytes, i: bytes, rest: bytes)
    ensures [OPEN_BRACE] + [NEWLINE] + f + i + [CLOSE_BRACE] + rest
         == [OPEN_BRACE] + ([NEWLINE] + (f + (i + ([CLOSE_BRACE] + rest))))
  {
  }

  lemma {:induction false} MembersChange(lib: CLib, kids: seq<Item>, depth: nat, rest: bytes)
    requires forall k :: k in kids ==> RawFree(k)
    ensures Reindented(Members(lib, FORMATTED, kids, depth) + rest, true)
         == Members(lib, SPACED, kids, depth) + Reindented(rest, true)
    decreases kids, 0
  {
    hide Reindented, Text, RawFree, Indent, Quoted, Members;
    var r := Reindented(rest, true);
    if kids == [] {
      NoMembersFirst(lib, depth, rest);
      NoMembersFirst(lib, depth, r);
    } else {
      assert kids[0] in kids;
      var sep: bytes := if |kids| == 1 then [] else [COMMA];
      var name, i, j := Quoted(OrEmpty(kids[0].key)), Indent(FORMATTED, depth), Indent(SPACED, depth);
      var more, more' := Members(lib, FORMATTED, kids[1..], depth), Members(lib, SPACED, kids[1..], depth);
      var t, u := Text(lib, FORMATTED, kids[0], depth), Text(lib, SPACED, kids[0], depth);
      var end := sep + ([NEWLINE] + (more + rest));
      FirstMember(lib, FORMATTED, kids, depth, sep, rest);
      IndentChanges(depth, name + ([COLON] + ([TAB] + (t + end))));
      QuotedIsPlain(OrEmpty(kids[0].key));
      PlainStays(name, [COLON] + ([TAB] + (t + end)), true);
      PlainStays([COLON], [TAB] + (t + end), false);
      TabChanges(t + end, false);
      TextChanges(lib, kids[0], depth, end, false);
      PlainStays(sep, [NEWLINE] + (more + rest), false);
      NewlineStays(more + rest, false);
      MembersChange(lib, kids[1..], depth, rest);
      FirstMember(lib, SPACED, kids, depth, sep, r);
    }
  }

  lemma NoMembersFirst(lib: CLib, depth: nat, rest: bytes)
    ensures Members(lib, FORMATTED, [], depth) + rest == rest && Members(lib, SPACED, [], depth) + rest == rest
  {
  }

  lemma FirstMember(lib: CLib, layout: Layout, kids: seq<Item>, depth: nat, sep: bytes, rest: bytes)
    requires layout.Pretty? && kids != [] && sep == if |kids| == 1 then [] else [COMMA]
    ensures Members(lib, layout, kids, depth) + rest
         == Indent(layout, depth) + (Quoted(OrEmpty(kids[0].key)) + ([COLON] + (layout.gap
            + (Text(lib, layout, kids[0], depth)
               + (sep + ([NEWLINE] + (Members(lib, layout, kids[1..], depth) + rest)))))))
  {
    hide Text, Indent, Quoted;
    MemberInPieces(Indent(layout, depth), Quoted(OrEmpty(kids[0].key)), layout.gap,
                    Text(lib, layout, kids[0], depth), sep, Members(lib, layout, kids[1..], depth), rest);
  }

  lemma MemberInPieces(i: bytes, name: bytes, gap: bytes, t: bytes, sep: bytes, more: bytes, rest: bytes)
    ensures (i + name + [COLON] + gap) + t + (sep + [NEWLINE]) + more + rest
         == i + (name + ([COLON] + (gap + (t + (sep + ([NEWLINE] + (more + rest)))))))
  {
    var a := sep + ([NEWLINE] + (more + rest));
    Three(i, name, [COLON], gap + (t + a));
    var start := i + name + [COLON] + gap;
    assert start + (t + a) == i + name + [COLON] + (gap + (t + a));
    Three(start, t, sep + [NEWLINE] + more, rest);
    Three(sep, [NEWLINE], more, rest);
    assert start + t + (sep + [NEWLINE]) + more + rest == start + t + (sep + [NEWLINE] + more) + rest;
  }

  /**
   * The formatted output of cJSON becomes the same tree printed with four
   * spaces a level and one space behind each colon, in at most four times the
   * length, and parses back.
   */
  lemma ReindentedPrint(lib: CLib, item: Item)
    requires RawFree(item)
    ensures Reindented(Text(lib, CJsonLayout(true), item, 0), true) == Text(lib, SPACED, item, 0)
    ensures |Text(lib, SPACED, item, 0)| <= 4 * |Text(lib, CJsonLayout(true), item, 0)|
    ensures Printable(lib, item, 0) ==>
      ParseText(lib, Reindented(Text(lib, CJsonLayout(true), item, 0), true) + [NUL], true)
      == Ok(AsParsed(lib, item), |Text(lib, SPACED, item, 0)|)
  {
    hide Text, RawFree, Printable, ParseText, AsParsed;
    var f := Text(lib, FORMATTED, item, 0);
    TextChanges(lib, item, 0, [], true);
    assert f + [] == f && Text(lib, SPACED, item, 0) + [] == Text(lib, SPACED, item, 0);
    if Printable(lib, item, 0) {
      PrintThenParse(lib, SPACED, item, true);
    }
  }
}
