/** Exactly when minifying formatted output gives unformatted output. */
module MinifyPrinted {
  import opened Bytes
  import opened CLibrary
  import opened Strings
  import opened Items
  import opened TextFacts
  import opened Grammar
  import opened RoundTrip
  import opened Minify
  import opened Minified

  /**
   * A string that ends in a backslash does no harm as the very last thing
   * printed but for closing brackets: no white space follows it.
   */
  predicate Fine(item: Item)
    decreases item, 1
  {
    match item
    case String(_, _) => true
    case Array(_, kids) => FineElements(kids)
    case _ => Harmless(item)
  }

  predicate FineElements(kids: seq<Item>)
    decreases kids, 0
  {
    kids != [] ==>
      if |kids| == 1 then Fine(kids[0]) else Harmless(kids[0]) && FineElements(kids[1..])
  }

  lemma {:induction false} HarmlessIsFine(item: Item)
    requires Harmless(item)
    ensures Fine(item)
    decreases item, 1
  {
    if item.Array? {
      HarmlessElementsAreFine(item.kids);
    }
  }

  lemma {:induction false} HarmlessElementsAreFine(kids: seq<Item>)
    requires forall k :: k in kids ==> Harmless(k)
    ensures FineElements(kids)
    decreases kids, 0
  {
    hide Harmless, Fine;
    if kids != [] {
      assert kids[0] in kids;
      HarmlessIsFine(kids[0]);
      HarmlessElementsAreFine(kids[1..]);
    }
  }

  /** The texts have a first byte in which they are not the same. */
  ghost predicate Differ(x: bytes, y: bytes) {
    exists k :: 0 <= k < |x| && k < |y| && SamePrefix(x, y, k) && x[k] != y[k]
  }

  predicate SamePrefix(x: bytes, y: bytes, k: nat) {
    k <= |x| && k <= |y| && x[..k] == y[..k]
  }

  lemma DifferHere(a: bytes, x: bytes, y: bytes)
    requires x != [] && y != [] && x[0] != y[0]
    ensures Differ(a + x, a + y)
  {
    assert SamePrefix(a + x, a + y, |a|);
    assert (a + x)[|a|] == x[0] && (a + y)[|a|] == y[0];
  }

  lemma DifferBehind(a: bytes, x: bytes, y: bytes)
    requires Differ(x, y)
    ensures Differ(a + x, a + y)
  {
    var k :| 0 <= k < |x| && k < |y| && SamePrefix(x, y, k) && x[k] != y[k];
    assert (a + x)[..|a| + k] == a + x[..k] && (a + y)[..|a| + k] == a + y[..k];
    assert SamePrefix(a + x, a + y, |a| + k);
    assert (a + x)[|a| + k] == x[k] && (a + y)[|a| + k] == y[k];
  }

  lemma DifferentTexts(x: bytes, y: bytes)
    requires Differ(x, y)
    ensures x != y
  {
  }

  lemma TextStarts(lib: CLib, item: Item, depth: nat)
    requires RawFree(item)
    ensures var t := Text(lib, Compact, item, depth); t != [] && !IsSpace(t[0])
  {
    hide Elements, Members, Escaped, JsonNumber;
    if item.Number? {
      JsonNumberBytes(NumberText(lib, item.d));
    }
  }

  lemma SeparatorInside(rest: bytes)
    ensures Inside([COMMA, SPACE] + rest) == [COMMA] + ([SPACE] + Inside(rest))
  {
    hide Inside;
    InsideCopies([COMMA, SPACE], rest);
    assert [COMMA, SPACE] + Inside(rest) == [COMMA] + ([SPACE] + Inside(rest));
  }

  lemma SeparatorOutside(rest: bytes)
    ensures Outside([COMMA, SPACE] + rest) == [COMMA] + Outside(rest)
  {
    hide Outside;
    assert [COMMA, SPACE] + rest == [COMMA] + ([SPACE] + rest);
    OutsideCopies([COMMA], [SPACE] + rest);
    OutsideSpaces([SPACE], rest);
  }

  lemma QuotedMinified(s: cstring, rest: bytes)
    ensures Outside(Quoted(s) + rest) == Quoted(s) + Behind(EndsInBackslash(s), rest)
  {
    hide Outside, Inside, Behind, FlatChrs, Escaped, Fooled, EndsInBackslash;
    EscapingRoundTrip(s);
    FooledByBackslash(s);
    OutsideString(ChrsOf(s), rest);
  }

  // ----- the scan is left inside a string by the last thing printed

  lemma {:induction false} OpenText(lib: CLib, item: Item, depth: nat, rest: bytes)
    requires RawFree(item) && Fine(item) && !Harmless(item)
    ensures Outside(Text(lib, FORMATTED, item, depth) + rest) == Text(lib, Compact, item, depth) + Inside(rest)
    decreases item, 1
  {
    hide Outside, Inside, Elements, Quoted, EndsInBackslash, RawFree, FineElements;
    if item.String? {
      QuotedMinified(OrEmpty(item.text), rest);
    } else {
      KidsAreRawFree(item);
      OpenElements(lib, item.kids, depth + 1, [CLOSE_BRACKET] + rest);
      InsideCopies([CLOSE_BRACKET], rest);
      var f, c := Elements(lib, FORMATTED, item.kids, depth + 1), Elements(lib, Compact, item.kids, depth + 1);
      OpenEnclosed(f, c, rest);
    }
  }

  lemma OpenEnclosed(f: bytes, c: bytes, rest: bytes)
    requires Outside(f + ([CLOSE_BRACKET] + rest)) == c + ([CLOSE_BRACKET] + Inside(rest))
    ensures Outside([OPEN_BRACKET] + f + [CLOSE_BRACKET] + rest) == [OPEN_BRACKET] + c + [CLOSE_BRACKET] + Inside(rest)
  {
    hide Outside, Inside;
    var t := f + ([CLOSE_BRACKET] + rest);
    assert [OPEN_BRACKET] + f + [CLOSE_BRACKET] + rest == [OPEN_BRACKET] + t;
    OutsideCopies([OPEN_BRACKET], t);
    Three([OPEN_BRACKET], c, [CLOSE_BRACKET], Inside(rest));
  }

  lemma {:induction false} OpenElements(lib: CLib, kids: seq<Item>, depth: nat, rest: bytes)
    requires (forall k :: k in kids ==> RawFree(k)) && FineElements(kids)
    requires exists k :: k in kids && !Harmless(k)
    ensures Outside(Elements(lib, FORMATTED, kids, depth) + rest) == Elements(lib, Compact, kids, depth) + Inside(rest)
    decreases kids, 0
  {
    hide Outside, Inside, Text, Elements, Fine, Harmless, RawFree;
    assert kids[0] in kids;
    var f, c := Text(lib, FORMATTED, kids[0], depth), Text(lib, Compact, kids[0], depth);
    if |kids| == 1 {
      assert forall k :: k in kids ==> k == kids[0];
      OpenText(lib, kids[0], depth, rest);
      LastElement(lib, FORMATTED, kids, depth);
      LastElement(lib, Compact, kids, depth);
    } else {
      assert forall k :: k in kids ==> k == kids[0] || k in kids[1..];
      OpenElements(lib, kids[1..], depth, rest);
      var more := Elements(lib, FORMATTED, kids[1..], depth) + rest;
      HarmlessText(lib, FORMATTED, kids[0], depth, [COMMA, SPACE] + more);
      SeparatorOutside(more);
      NextElement(lib, kids, depth, rest);
      Three(c, [COMMA], Elements(lib, Compact, kids[1..], depth), Inside(rest));
    }
  }

  lemma LastElement(lib: CLib, layout: Layout, kids: seq<Item>, depth: nat)
    requires |kids| == 1
    ensures Elements(lib, layout, kids, depth) == Text(lib, layout, kids[0], depth)
  {
    hide Text;
    assert kids[1..] == [];
  }

  lemma NextElement(lib: CLib, kids: seq<Item>, depth: nat, rest: bytes)
    requires |kids| > 1
    ensures Elements(lib, FORMATTED, kids, depth) + rest
         == Text(lib, FORMATTED, kids[0], depth)
            + ([COMMA, SPACE] + (Elements(lib, FORMATTED, kids[1..], depth) + rest))
    ensures Elements(lib, Compact, kids, depth)
         == Text(lib, Compact, kids[0], depth) + [COMMA] + Elements(lib, Compact, kids[1..], depth)
  {
    hide Text;
    assert ElementEnd(FORMATTED, false) == [COMMA, SPACE] && ElementEnd(Compact, false) == [COMMA];
    Three(Text(lib, FORMATTED, kids[0], depth), [COMMA, SPACE], Elements(lib, FORMATTED, kids[1..], depth), rest);
  }

  // ----- or by something before, and then white space gives it away

  lemma {:induction false} DifferentText(lib: CLib, item: Item, depth: nat, rest: bytes, tail: bytes)
    requires RawFree(item) && !Fine(item)
    ensures Differ(Outside(Text(lib, FORMATTED, item, depth) + rest), Text(lib, Compact, item, depth) + tail)
    decreases item, 1
  {
    hide Outside, Inside, Elements, Members, RawFree, FineElements, Differ;
    KidsAreRawFree(item);
    if item.Array? {
      DifferentElements(lib, item.kids, depth + 1, [CLOSE_BRACKET] + rest, [CLOSE_BRACKET] + tail);
      BracketDiffers(
        Elements(lib, FORMATTED, item.kids, depth + 1), rest, Elements(lib, Compact, item.kids, depth + 1), tail);
    } else {
      DifferentObject(lib, item, depth, rest, tail);
    }
  }

  lemma BracketDiffers(f: bytes, rest: bytes, c: bytes, tail: bytes)
    requires Differ(Outside(f + ([CLOSE_BRACKET] + rest)), c + ([CLOSE_BRACKET] + tail))
    ensures Differ(Outside([OPEN_BRACKET] + f + [CLOSE_BRACKET] + rest), [OPEN_BRACKET] + c + [CLOSE_BRACKET] + tail)
  {
    hide Outside, Differ;
    OutsideCopies([OPEN_BRACKET], f + ([CLOSE_BRACKET] + rest));
    assert [OPEN_BRACKET] + f + [CLOSE_BRACKET] + rest == [OPEN_BRACKET] + (f + ([CLOSE_BRACKET] + rest));
    assert [OPEN_BRACKET] + c + [CLOSE_BRACKET] + tail == [OPEN_BRACKET] + (c + ([CLOSE_BRACKET] + tail));
    DifferBehind([OPEN_BRACKET], Outside(f + ([CLOSE_BRACKET] + rest)), c + ([CLOSE_BRACKET] + tail));
  }

  lemma {:induction false} DifferentElements(lib: CLib, kids: seq<Item>, depth: nat, rest: bytes, tail: bytes)
    requires (forall k :: k in kids ==> RawFree(k)) && !FineElements(kids)
    ensures Differ(Outside(Elements(lib, FORMATTED, kids, depth) + rest), Elements(lib, Compact, kids, depth) + tail)
    decreases kids, 0
  {
    hide Outside, Inside, Text, Elements, Fine, Harmless, RawFree, Differ;
    assert kids[0] in kids;
    var c := Text(lib, Compact, kids[0], depth);
    if |kids| == 1 {
      LastElement(lib, FORMATTED, kids, depth);
      LastElement(lib, Compact, kids, depth);
      DifferentText(lib, kids[0], depth, rest, tail);
    } else {
      var more := Elements(lib, FORMATTED, kids[1..], depth) + rest;
      var moreC := Elements(lib, Compact, kids[1..], depth) + tail;
      NextElement(lib, kids, depth, rest);
      Three(c, [COMMA], Elements(lib, Compact, kids[1..], depth), tail);
      if Harmless(kids[0]) {
        HarmlessText(lib, FORMATTED, kids[0], depth, [COMMA, SPACE] + more);
        DifferentElements(lib, kids[1..], depth, rest, tail);
        SeparatorDiffers(c, more, moreC);
      } else if Fine(kids[0]) {
        OpenText(lib, kids[0], depth, [COMMA, SPACE] + more);
        ElementsStart(lib, kids[1..], depth, tail);
        SeparatorStrays(c, more, moreC);
      } else {
        DifferentText(lib, kids[0], depth, [COMMA, SPACE] + more, [COMMA] + moreC);
      }
    }
  }

  lemma SeparatorDiffers(c: bytes, more: bytes, moreC: bytes)
    requires Differ(Outside(more), moreC)
    ensures Differ(c + Outside([COMMA, SPACE] + more), c + ([COMMA] + moreC))
  {
    hide Outside, Differ;
    SeparatorOutside(more);
    DifferBehind([COMMA], Outside(more), moreC);
    DifferBehind(c, [COMMA] + Outside(more), [COMMA] + moreC);
  }

  /** Inside a string the space behind the comma stays. */
  lemma SeparatorStrays(c: bytes, more: bytes, moreC: bytes)
    requires moreC != [] && !IsSpace(moreC[0])
    ensures Differ(c + Inside([COMMA, SPACE] + more), c + ([COMMA] + moreC))
  {
    hide Inside, Differ;
    SeparatorInside(more);
    DifferHere([COMMA], [SPACE] + Inside(more), moreC);
    DifferBehind(c, [COMMA] + ([SPACE] + Inside(more)), [COMMA] + moreC);
  }

  lemma ElementsStart(lib: CLib, kids: seq<Item>, depth: nat, tail: bytes)
    requires kids != [] && forall k :: k in kids ==> RawFree(k)
    ensures var t := Elements(lib, Compact, kids, depth) + tail; t != [] && !IsSpace(t[0])
  {
    hide Text;
    assert kids[0] in kids;
    TextStarts(lib, kids[0], depth);
  }

  lemma {:induction false} DifferentObject(lib: CLib, item: Item, depth: nat, rest: bytes, tail: bytes)
    requires RawFree(item) && item.Object? && !Harmless(item)
    ensures Differ(Outside(Text(lib, FORMATTED, item, depth) + rest), Text(lib, Compact, item, depth) + tail)
    decreases item, 0
  {
    hide Outside, Inside, Members, RawFree, Differ, Indent, EndsInBackslash, Text, Harmless;
    KidsAreRawFree(item);
    HarmInside(item);
    var end := Indent(FORMATTED, depth) + [CLOSE_BRACE] + rest;
    DifferentMembers(lib, item.kids, depth + 1, end, [CLOSE_BRACE] + tail);
    ObjectTexts(lib, item, depth, rest, tail);
    BraceDiffers(
      Members(lib, FORMATTED, item.kids, depth + 1) + end,
      Members(lib, Compact, item.kids, depth + 1) + ([CLOSE_BRACE] + tail));
  }

  lemma BraceDiffers(x: bytes, y: bytes)
    requires Differ(Outside(x), y)
    ensures Differ(Outside([OPEN_BRACE] + ([NEWLINE] + x)), [OPEN_BRACE] + y)
  {
    hide Outside, Differ;
    OutsideCopies([OPEN_BRACE], [NEWLINE] + x);
    OutsideSpaces([NEWLINE], x);
    DifferBehind([OPEN_BRACE], Outside(x), y);
  }

  lemma HarmInside(item: Item)
    requires item.Object? && !Harmless(item)
    ensures exists k :: k in item.kids && (EndsInBackslash(OrEmpty(k.key)) || !Harmless(k))
  {
    hide EndsInBackslash;
  }

  lemma ObjectTexts(lib: CLib, item: Item, depth: nat, rest: bytes, tail: bytes)
    requires item.Object?
    ensures Text(lib, FORMATTED, item, depth) + rest
         == [OPEN_BRACE] + ([NEWLINE]
            + (Members(lib, FORMATTED, item.kids, depth + 1) + (Indent(FORMATTED, depth) + [CLOSE_BRACE] + rest)))
    ensures Text(lib, Compact, item, depth) + tail
         == [OPEN_BRACE] + (Members(lib, Compact, item.kids, depth + 1) + ([CLOSE_BRACE] + tail))
  {
    hide Members, Repeat;
    ObjectText(Members(lib, FORMATTED, item.kids, depth + 1), Indent(FORMATTED, depth), rest);
    FlatObject(Members(lib, Compact, item.kids, depth + 1), tail);
  }

  lemma FlatObject(c: bytes, tail: bytes)
    ensures [OPEN_BRACE] + [] + c + [] + [CLOSE_BRACE] + tail == [OPEN_BRACE] + (c + ([CLOSE_BRACE] + tail))
  {
  }

  lemma ObjectText(f: bytes, indent: bytes, rest: bytes)
    ensures [OPEN_BRACE] + [NEWLINE] + f + indent + [CLOSE_BRACE] + rest
         == [OPEN_BRACE] + ([NEWLINE] + (f + (indent + [CLOSE_BRACE] + rest)))
  {
  }

  /** A member in formatted and in unformatted text. */
  lemma MemberText(lib: CLib, kids: seq<Item>, depth: nat, rest: bytes, tail: bytes)
    requires kids != []
    ensures
      var sep := if |kids| == 1 then [] else [COMMA];
      && Members(lib, FORMATTED, kids, depth) + rest
         == Indent(FORMATTED, depth) + (Quoted(OrEmpty(kids[0].key)) + ([COLON, TAB]
            + (Text(lib, FORMATTED, kids[0], depth) + (sep + ([NEWLINE]
            + (Members(lib, FORMATTED, kids[1..], depth) + rest))))))
      && Members(lib, Compact, kids, depth) + tail
         == Quoted(OrEmpty(kids[0].key)) + ([COLON] + (Text(lib, Compact, kids[0], depth)
            + (sep + (Members(lib, Compact, kids[1..], depth) + tail))))
  {
    hide Text, Quoted, Repeat;
    var sep := if |kids| == 1 then [] else [COMMA];
    var name := Quoted(OrEmpty(kids[0].key));
    var f, c := Text(lib, FORMATTED, kids[0], depth), Text(lib, Compact, kids[0], depth);
    FormattedMember(Indent(FORMATTED, depth), name, f, sep, Members(lib, FORMATTED, kids[1..], depth), rest);
    CompactMember(name, c, sep, Members(lib, Compact, kids[1..], depth), tail);
  }

  lemma FormattedMember(indent: bytes, name: bytes, f: bytes, sep: bytes, more: bytes, rest: bytes)
    ensures (indent + name + [COLON] + [TAB]) + f + (sep + [NEWLINE]) + more + rest
         == indent + (name + ([COLON, TAB] + (f + (sep + ([NEWLINE] + (more + rest))))))
  {
    assert indent + name + [COLON] + [TAB] == indent + (name + [COLON, TAB]);
    Four(indent, name + [COLON, TAB], f, sep + [NEWLINE] + more, rest);
    Three(sep, [NEWLINE], more, rest);
    Regrouped(name, [COLON, TAB], f + (sep + ([NEWLINE] + (more + rest))));
    var start := indent + (name + [COLON, TAB]);
    assert start + f + (sep + [NEWLINE]) + more + rest == start + f + (sep + [NEWLINE] + more) + rest;
  }

  lemma CompactMember(name: bytes, c: bytes, sep: bytes, more: bytes, tail: bytes)
    ensures ([] + name + [COLON] + []) + c + (sep + []) + more + tail
         == name + ([COLON] + (c + (sep + (more + tail))))
  {
    assert [] + name + [COLON] + [] == name + [COLON];
    assert sep + [] == sep;
    Four(name + [COLON], c, sep, more, tail);
    Regrouped(name, [COLON], c + (sep + (more + tail)));
  }

  lemma {:induction false} DifferentMembers(lib: CLib, kids: seq<Item>, depth: nat, rest: bytes, tail: bytes)
    requires forall k :: k in kids ==> RawFree(k)
    requires exists k :: k in kids && (EndsInBackslash(OrEmpty(k.key)) || !Harmless(k))
    requires tail != [] && !IsSpace(tail[0])
    ensures Differ(Outside(Members(lib, FORMATTED, kids, depth) + rest), Members(lib, Compact, kids, depth) + tail)
    decreases kids, 1
  {
    hide Outside, Inside, Text, Harmless, RawFree, Differ, EndsInBackslash, Quoted, Members, Fine, Indent;
    var item, sep := kids[0], if |kids| == 1 then [] else [COMMA];
    assert item in kids && forall k :: k in kids ==> k == item || k in kids[1..];
    var name, c := Quoted(OrEmpty(item.key)), Text(lib, Compact, item, depth);
    var more, moreC := Members(lib, FORMATTED, kids[1..], depth) + rest, Members(lib, Compact, kids[1..], depth) + tail;
    var end := sep + ([NEWLINE] + more);
    var t := Text(lib, FORMATTED, item, depth) + end;
    MemberText(lib, kids, depth, rest, tail);
    LayoutIsSpace(FORMATTED, depth);
    OutsideSpaces(Indent(FORMATTED, depth), name + ([COLON, TAB] + t));
    QuotedMinified(OrEmpty(item.key), [COLON, TAB] + t);
    if EndsInBackslash(OrEmpty(item.key)) {
      NameGivesAway(t, c + (sep + moreC), lib, item, depth, sep + moreC);
    } else {
      ColonOutside(t);
      ValueDiffers(lib, kids, depth, rest, tail);
      DifferBehind([COLON], Outside(t), c + (sep + moreC));
    }
    DifferBehind(name, Behind(EndsInBackslash(OrEmpty(item.key)), [COLON, TAB] + t), [COLON] + (c + (sep + moreC)));
  }

  lemma ColonOutside(t: bytes)
    ensures Outside([COLON, TAB] + t) == [COLON] + Outside(t)
  {
    hide Outside;
    assert [COLON, TAB] + t == [COLON] + ([TAB] + t);
    OutsideCopies([COLON], [TAB] + t);
    OutsideSpaces([TAB], t);
  }

  lemma NameGivesAway(t: bytes, u: bytes, lib: CLib, item: Item, depth: nat, v: bytes)
    requires RawFree(item) && u == Text(lib, Compact, item, depth) + v
    ensures Differ(Inside([COLON, TAB] + t), [COLON] + u)
  {
    hide Inside, Text;
    InsideCopies([COLON, TAB], t);
    TextStarts(lib, item, depth);
    assert [COLON, TAB] + Inside(t) == [COLON] + ([TAB] + Inside(t));
    DifferHere([COLON], [TAB] + Inside(t), u);
  }

  /** The trouble is in the member's value or in a later member. */
  lemma {:induction false} ValueDiffers(lib: CLib, kids: seq<Item>, depth: nat, rest: bytes, tail: bytes)
    requires kids != [] && forall k :: k in kids ==> RawFree(k)
    requires !Harmless(kids[0]) || exists k :: k in kids[1..] && (EndsInBackslash(OrEmpty(k.key)) || !Harmless(k))
    requires tail != [] && !IsSpace(tail[0])
    ensures
      var sep := if |kids| == 1 then [] else [COMMA];
      Differ(Outside(Text(lib, FORMATTED, kids[0], depth)
                     + (sep + ([NEWLINE] + (Members(lib, FORMATTED, kids[1..], depth) + rest)))),
             Text(lib, Compact, kids[0], depth) + (sep + (Members(lib, Compact, kids[1..], depth) + tail)))
    decreases kids, 0
  {
    hide Outside, Inside, Text, Harmless, RawFree, Differ, EndsInBackslash, Quoted, Members, Fine, Indent;
    var item, sep := kids[0], if |kids| == 1 then [] else [COMMA];
    assert item in kids;
    var c := Text(lib, Compact, item, depth);
    var more, moreC := Members(lib, FORMATTED, kids[1..], depth) + rest, Members(lib, Compact, kids[1..], depth) + tail;
    var end := sep + ([NEWLINE] + more);
    if Harmless(item) {
      DifferentMembers(lib, kids[1..], depth, rest, tail);
      HarmlessText(lib, FORMATTED, item, depth, end);
      OutsideCopies(sep, [NEWLINE] + more);
      OutsideSpaces([NEWLINE], more);
      DifferBehind(sep, Outside(more), moreC);
      DifferBehind(c, sep + Outside(more), sep + moreC);
    } else if Fine(item) {
      OpenText(lib, item, depth, end);
      InsideCopies(sep, [NEWLINE] + more);
      InsideCopies([NEWLINE], more);
      MembersStart(lib, kids[1..], depth, tail);
      DifferHere(sep, [NEWLINE] + Inside(more), moreC);
      DifferBehind(c, sep + ([NEWLINE] + Inside(more)), sep + moreC);
    } else {
      DifferentText(lib, item, depth, end, sep + moreC);
    }
  }

  lemma MembersStart(lib: CLib, kids: seq<Item>, depth: nat, tail: bytes)
    requires tail != [] && !IsSpace(tail[0])
    ensures var t := Members(lib, Compact, kids, depth) + tail; t != [] && !IsSpace(t[0])
  {
    hide Text;
    if kids != [] {
      MemberText(lib, kids, depth, [], tail);
    }
  }

  /**
   * Minifying what cJSON_Print wrote gives what cJSON_PrintUnformatted writes
   * if and only if no white space is printed behind a string or name that ends
   * in a backslash.
   */
  lemma MinifyingPrintedText(lib: CLib, item: Item)
    requires RawFree(item)
    ensures Outside(Text(lib, CJsonLayout(true), item, 0)) == Text(lib, CJsonLayout(false), item, 0) <==> Fine(item)
    ensures Harmless(item) ==> Fine(item)
  {
    hide Outside, Inside, Text, Fine, Harmless, RawFree, Differ;
    var f, c := Text(lib, FORMATTED, item, 0), Text(lib, Compact, item, 0);
    assert f + [] == f && c + [] == c;
    NothingOutside();
    NothingInside();
    if Harmless(item) {
      HarmlessIsFine(item);
      HarmlessText(lib, FORMATTED, item, 0, []);
    } else if Fine(item) {
      OpenText(lib, item, 0, []);
    } else {
      DifferentText(lib, item, 0, [], []);
      DifferentTexts(Outside(f), c);
    }
  }

  const BACKSLASHED: Item := String(None, Some([BACKSLASH]))

  /** A string that ends in a backslash does no harm alone in an array, and does harm in front of another element. */
  lemma HarmDependsOnPlace(lib: CLib)
    ensures
      var alone := Array(None, [BACKSLASHED]);
      Outside(Text(lib, CJsonLayout(true), alone, 0)) == Text(lib, CJsonLayout(false), alone, 0) && !Harmless(alone)
    ensures
      var inFront := Array(None, [BACKSLASHED, True(None)]);
      Outside(Text(lib, CJsonLayout(true), inFront, 0)) != Text(lib, CJsonLayout(false), inFront, 0)
  {
    hide Outside, Text;
    assert !Harmless(BACKSLASHED) && RawFree(BACKSLASHED) && RawFree(True(None));
    var alone, inFront := [BACKSLASHED], [BACKSLASHED, True(None)];
    assert BACKSLASHED in alone && FineElements(alone) && !FineElements(inFront);
    MinifyingPrintedText(lib, Array(None, alone));
    MinifyingPrintedText(lib, Array(None, inFront));
  }
}
