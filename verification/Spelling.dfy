/** What JSON looks like: the bytes of the model, written as characters. */
module Spelling {
  import opened Bytes
  import opened CLibrary
  import opened Strings
  import opened Items
  import opened Parser
  import opened Minify
  import opened Minified
  import opened RoundTrip
  import opened MinifyPrinted
  import opened Reindent

  // ----- words

  /** Whatever the layout and the depth, the three words are printed as themselves. */
  lemma WordsPrinted(lib: CLib, layout: Layout, depth: nat, key: Option<cstring>)
    ensures Text(lib, layout, Null(key), depth) == Ascii("null")
    ensures Text(lib, layout, False(key), depth) == Ascii("false")
    ensures Text(lib, layout, True(key), depth) == Ascii("true")
  {
    hide Ascii;
    WordsAre();
  }

  /** And wherever they stand where a value is due, they are read as themselves. */
  lemma WordsParsed(lib: CLib, before: bytes, rest: bytes, d: nat)
    ensures ParseValue(lib, before + Ascii("null") + rest, |before|, d) == Ok(Null(None), |before| + 4)
    ensures ParseValue(lib, before + Ascii("false") + rest, |before|, d) == Ok(False(None), |before| + 5)
    ensures ParseValue(lib, before + Ascii("true") + rest, |before|, d) == Ok(True(None), |before| + 4)
  {
    hide Ascii;
    WordAt(before, Ascii("null"), rest);
    WordAt(before, Ascii("false"), rest);
    WordAt(before, Ascii("true"), rest);
    WordsAre();
  }

  /** As whole texts. */
  lemma WordTexts(lib: CLib, requireNul: bool)
    ensures ParseText(lib, Ascii("null") + [NUL], requireNul) == Ok(Null(None), 4)
    ensures ParseText(lib, Ascii("false") + [NUL], requireNul) == Ok(False(None), 5)
    ensures ParseText(lib, Ascii("true") + [NUL], requireNul) == Ok(True(None), 4)
  {
    hide ParseText, Text, Ascii;
    WordsPrinted(lib, Compact, 0, None);
    PrintThenParse(lib, Compact, Null(None), requireNul);
    PrintThenParse(lib, Compact, False(None), requireNul);
    PrintThenParse(lib, Compact, True(None), requireNul);
  }

  /** A string without text is printed like the empty string, and raw text as it is. */
  lemma TextsPrinted(lib: CLib, layout: Layout, key: Option<cstring>, text: cstring, depth: nat)
    ensures Text(lib, layout, String(key, None), depth) == Ascii("\"\"")
    ensures Text(lib, layout, String(key, Some([])), depth) == Ascii("\"\"")
    ensures Text(lib, layout, Raw(key, Some(text)), depth) == text
  {
    assert Quoted([]) == Ascii("\"\"");
  }

  lemma WordAt(before: bytes, word: bytes, rest: bytes)
    requires word != []
    ensures At(before + word + rest, |before|, word)
    ensures forall other :: At(before + word + rest, |before|, other) && other != [] ==> other[0] == word[0]
  {
  }

  lemma WordsAre()
    ensures Ascii("null") == NULL_TEXT && Ascii("false") == FALSE_TEXT && Ascii("true") == TRUE_TEXT
  {
  }

  // ----- a whole document

  /** {"a": [1, true, {"b": null}], "c": {}} */
  function Sample(): Item {
    Object(None, [SampleArray()] + [SampleEmpty()])
  }

  function SampleEmpty(): Item {
    Object(Some(Ascii("c")), [])
  }

  function SampleArray(): Item {
    Array(Some(Ascii("a")), [Number(None, 1.0), True(None), SampleObject()])
  }

  function SampleObject(): Item {
    Object(None, [Null(Some(Ascii("b")))])
  }

  lemma NameSpelled(s: string)
    requires |s| == 1 && 'a' <= s[0] <= 'z'
    ensures Quoted(Ascii(s)) == Ascii("\"" + s + "\"")
  {
    var b := Ascii(s);
    assert b == [s[0] as int] && b[1..] == [];
    assert EscapedByte(b[0]) == [b[0]];
    assert Escaped(b) == [b[0]] + Escaped([]) == [b[0]];
  }

  lemma NumberOne(lib: CLib)
    ensures NumberText(lib, 1.0) == Ascii("1")
  {
    assert Saturate(1.0) == 1;
    assert Decimal(1) == [49];
  }

  // how a member, an array and an object are put together, in both layouts

  /** A member, with the text of its value in both layouts. */
  predicate Spelled(lib: CLib, kid: Item, depth: nat, name: bytes, compact: bytes, formatted: bytes) {
    && Quoted(OrEmpty(kid.key)) == name
    && Text(lib, Compact, kid, depth) == compact && Text(lib, FORMATTED, kid, depth) == formatted
  }

  lemma LastMember(lib: CLib, kid: Item, depth: nat, name: bytes, compact: bytes, formatted: bytes)
    requires Spelled(lib, kid, depth, name, compact, formatted)
    ensures Members(lib, Compact, [kid], depth) == name + [COLON] + compact
    ensures Members(lib, FORMATTED, [kid], depth)
         == Repeat([TAB], depth) + name + [COLON] + [TAB] + formatted + [NEWLINE]
  {
    hide Text, Quoted, OrEmpty, Repeat;
    assert [kid][1..] == [];
    assert MemberStart(Compact, kid.key, depth) == name + [COLON] && MemberEnd(Compact, true) == [];
    assert MemberStart(FORMATTED, kid.key, depth) == Repeat([TAB], depth) + name + [COLON] + [TAB];
    assert MemberEnd(FORMATTED, true) == [NEWLINE];
  }

  lemma MembersJoin(lib: CLib, layout: Layout, kid: Item, rest: seq<Item>, depth: nat)
    requires rest != []
    ensures Members(lib, layout, [kid] + rest, depth) ==
      MemberStart(layout, kid.key, depth) + Text(lib, layout, kid, depth) + MemberEnd(layout, false)
      + Members(lib, layout, rest, depth)
  {
    hide Text, MemberStart, MemberEnd;
    assert ([kid] + rest)[1..] == rest;
  }

  lemma NextMember(lib: CLib, kid: Item, rest: seq<Item>, depth: nat, name: bytes, compact: bytes, formatted: bytes)
    requires Spelled(lib, kid, depth, name, compact, formatted) && rest != []
    ensures Members(lib, Compact, [kid] + rest, depth)
         == name + [COLON] + compact + [COMMA] + Members(lib, Compact, rest, depth)
    ensures Members(lib, FORMATTED, [kid] + rest, depth)
         == Repeat([TAB], depth) + name + [COLON] + [TAB] + formatted + [COMMA] + [NEWLINE]
            + Members(lib, FORMATTED, rest, depth)
  {
    hide Text, Quoted, OrEmpty, Repeat, Members, MemberStart, MemberEnd;
    MembersJoin(lib, Compact, kid, rest, depth);
    MembersJoin(lib, FORMATTED, kid, rest, depth);
    AroundMember(kid, depth, name);
    RegroupedEnd(Repeat([TAB], depth) + name + [COLON] + [TAB] + formatted, Members(lib, FORMATTED, rest, depth));
  }

  lemma AroundMember(kid: Item, depth: nat, name: bytes)
    requires Quoted(OrEmpty(kid.key)) == name
    ensures MemberStart(Compact, kid.key, depth) == name + [COLON] && MemberEnd(Compact, false) == [COMMA]
    ensures MemberStart(FORMATTED, kid.key, depth) == Repeat([TAB], depth) + name + [COLON] + [TAB]
    ensures MemberEnd(FORMATTED, false) == [COMMA] + [NEWLINE]
  {
    hide Quoted, OrEmpty, Repeat;
  }

  lemma RegroupedEnd(a: bytes, b: bytes)
    ensures a + ([COMMA] + [NEWLINE]) + b == a + [COMMA] + [NEWLINE] + b
  {
  }

  lemma CompactObject(lib: CLib, key: Option<cstring>, kids: seq<Item>, depth: nat)
    ensures Text(lib, Compact, Object(key, kids), depth) ==
      [OPEN_BRACE] + Members(lib, Compact, kids, depth + 1) + [CLOSE_BRACE]
  {
    hide Members, Indent;
    assert ObjectStart(Compact) == [OPEN_BRACE];
    CompactIndent(depth);
  }

  lemma CompactIndent(depth: nat)
    ensures Indent(Compact, depth) == []
  {
  }

  lemma FormattedObject(lib: CLib, key: Option<cstring>, kids: seq<Item>, depth: nat)
    ensures Text(lib, FORMATTED, Object(key, kids), depth) ==
      [OPEN_BRACE] + [NEWLINE] + Members(lib, FORMATTED, kids, depth + 1) + Repeat([TAB], depth) + [CLOSE_BRACE]
  {
    hide Members, Repeat;
  }

  lemma ThreeTabs()
    ensures Repeat([TAB], 0) == [] && Repeat([TAB], 1) == [9]
    ensures Repeat([TAB], 2) == [9, 9] && Repeat([TAB], 3) == [9, 9, 9]
  {
  }

  // lines of the sample

  lemma ObjectMember()
    ensures Ascii("\"b\"") + [COLON] + Ascii("null") == Ascii("\"b\":null")
    ensures [9, 9, 9] + Ascii("\"b\"") + [COLON] + [TAB] + Ascii("null") + [NEWLINE] == Ascii("\t\t\t\"b\":\tnull\n")
  {
  }

  lemma ObjectLines()
    ensures [OPEN_BRACE] + Ascii("\"b\":null") + [CLOSE_BRACE] == Ascii("{\"b\":null}")
    ensures [OPEN_BRACE] + [NEWLINE] + Ascii("\t\t\t\"b\":\tnull\n") + [9, 9] + [CLOSE_BRACE]
         == Ascii("{\n") + Ascii("\t\t\t\"b\":\tnull\n") + Ascii("\t\t}")
  {
  }

  lemma InnerText(lib: CLib)
    ensures Text(lib, Compact, SampleObject(), 2) == Ascii("{\"b\":null}")
    ensures Text(lib, FORMATTED, SampleObject(), 2)
         == Ascii("{\n") + Ascii("\t\t\t\"b\":\tnull\n") + Ascii("\t\t}")
  {
    hide Ascii, Text, Quoted, Members, Repeat;
    var kid := Null(Some(Ascii("b")));
    NameSpelled("b");
    assert "\"" + "b" + "\"" == "\"b\"";
    WordsPrinted(lib, Compact, 3, kid.key);
    WordsPrinted(lib, FORMATTED, 3, kid.key);
    LastMember(lib, kid, 3, Ascii("\"b\""), Ascii("null"), Ascii("null"));
    CompactObject(lib, None, [kid], 2);
    FormattedObject(lib, None, [kid], 2);
    ThreeTabs();
    ObjectMember();
    ObjectLines();
  }

  lemma ElementsJoin(lib: CLib, kid: Item, rest: seq<Item>, depth: nat)
    requires rest != []
    ensures Elements(lib, Compact, [kid] + rest, depth)
         == Text(lib, Compact, kid, depth) + [COMMA] + Elements(lib, Compact, rest, depth)
    ensures Elements(lib, FORMATTED, [kid] + rest, depth)
         == Text(lib, FORMATTED, kid, depth) + [COMMA, SPACE] + Elements(lib, FORMATTED, rest, depth)
  {
    hide Text;
    assert ([kid] + rest)[1..] == rest;
    assert ElementEnd(Compact, false) == [COMMA] && ElementEnd(FORMATTED, false) == [COMMA, SPACE];
  }

  lemma OnlyElement(lib: CLib, layout: Layout, kid: Item, depth: nat)
    ensures Elements(lib, layout, [kid], depth) == Text(lib, layout, kid, depth)
  {
    hide Text;
    assert [kid][1..] == [];
  }

  lemma ArrayLine()
    ensures [OPEN_BRACKET] + (Ascii("1") + [COMMA] + (Ascii("true") + [COMMA] + Ascii("{\"b\":null}")))
            + [CLOSE_BRACKET]
         == Ascii("[1,true,{\"b\":null}]")
  {
  }

  lemma ArrayEnds()
    ensures [OPEN_BRACKET] + Ascii("1") + [COMMA, SPACE] + Ascii("true") + [COMMA, SPACE] + Ascii("{\n")
         == Ascii("[1, true, {\n")
    ensures Ascii("\t\t}") + [CLOSE_BRACKET] == Ascii("\t\t}]")
  {
  }

  lemma ArrayGrouped(open: bytes, one: bytes, gap: bytes, two: bytes, x: bytes, y: bytes, z: bytes, close: bytes)
    ensures open + (one + gap + (two + gap + (x + y + z))) + close
         == (open + one + gap + two + gap + x) + y + (z + close)
  {
    assert two + gap + (x + y + z) == (two + gap + x) + y + z;
    assert one + gap + ((two + gap + x) + y + z) == (one + gap + two + gap + x) + y + z;
  }

  lemma ArrayText(lib: CLib)
    ensures Text(lib, Compact, SampleArray(), 1) == Ascii("[1,true,{\"b\":null}]")
    ensures Text(lib, FORMATTED, SampleArray(), 1)
         == Ascii("[1, true, {\n") + Ascii("\t\t\t\"b\":\tnull\n") + Ascii("\t\t}]")
  {
    hide Ascii, Text, Elements;
    var one, yes, inner := Number(None, 1.0), True(None), SampleObject();
    ArrayIs(lib, SampleArray(), 1);
    assert SampleArray().kids == [one] + ([yes] + [inner]);
    ElementsJoin(lib, one, [yes] + [inner], 2);
    ElementsJoin(lib, yes, [inner], 2);
    OnlyElement(lib, Compact, inner, 2);
    OnlyElement(lib, FORMATTED, inner, 2);
    NumberOne(lib);
    NumberIs(lib, one, 2);
    WordsPrinted(lib, Compact, 2, None);
    WordsPrinted(lib, FORMATTED, 2, None);
    InnerText(lib);
    ArrayLine();
    ArrayEnds();
    ArrayGrouped([OPEN_BRACKET], Ascii("1"), [COMMA, SPACE], Ascii("true"),
                 Ascii("{\n"), Ascii("\t\t\t\"b\":\tnull\n"), Ascii("\t\t}"), [CLOSE_BRACKET]);
  }

  lemma ArrayIs(lib: CLib, item: Item, depth: nat)
    requires item.Array?
    ensures Text(lib, Compact, item, depth)
         == [OPEN_BRACKET] + Elements(lib, Compact, item.kids, depth + 1) + [CLOSE_BRACKET]
    ensures Text(lib, FORMATTED, item, depth)
         == [OPEN_BRACKET] + Elements(lib, FORMATTED, item.kids, depth + 1) + [CLOSE_BRACKET]
  {
    hide Elements;
  }

  lemma NumberIs(lib: CLib, item: Item, depth: nat)
    requires item.Number?
    ensures Text(lib, Compact, item, depth) == Text(lib, FORMATTED, item, depth) == NumberText(lib, item.d)
  {
    hide NumberText;
  }

  // the members of the sample

  lemma EmptyText(lib: CLib)
    ensures Text(lib, Compact, SampleEmpty(), 1) == Ascii("{}")
    ensures Text(lib, FORMATTED, SampleEmpty(), 1) == Ascii("{\n") + Ascii("\t}")
  {
    hide Members, Text, Ascii, Repeat;
    CompactObject(lib, Some(Ascii("c")), [], 1);
    FormattedObject(lib, Some(Ascii("c")), [], 1);
    EmptyMembers(lib);
    ThreeTabs();
    EmptyLines();
  }

  lemma EmptyMembers(lib: CLib)
    ensures Members(lib, Compact, [], 2) == [] && Members(lib, FORMATTED, [], 2) == []
  {
  }

  lemma EmptyLines()
    ensures [OPEN_BRACE] + [] + [CLOSE_BRACE] == Ascii("{}")
    ensures [OPEN_BRACE] + [NEWLINE] + [] + [9] + [CLOSE_BRACE] == Ascii("{\n") + Ascii("\t}")
  {
  }

  // an object of two members, by the texts of the members

  lemma TwoMembers(lib: CLib, a: Item, b: Item, na: bytes, ca: bytes, fa: bytes, nb: bytes, cb: bytes, fb: bytes)
    requires Spelled(lib, a, 1, na, ca, fa) && Spelled(lib, b, 1, nb, cb, fb)
    ensures Members(lib, Compact, [a] + [b], 1) == na + [COLON] + ca + [COMMA] + (nb + [COLON] + cb)
    ensures Members(lib, FORMATTED, [a] + [b], 1)
         == ([9] + na + [COLON] + [TAB] + fa + [COMMA] + [NEWLINE]) + ([9] + nb + [COLON] + [TAB] + fb + [NEWLINE])
  {
    hide Text, Members, Repeat, Spelled;
    NextMember(lib, a, [b], 1, na, ca, fa);
    LastMember(lib, b, 1, nb, cb, fb);
    ThreeTabs();
  }

  lemma WholeCompact(lib: CLib, kids: seq<Item>, n: bytes, c: bytes, rest: bytes)
    requires Members(lib, Compact, kids, 1) == n + [COLON] + c + [COMMA] + rest
    ensures Text(lib, Compact, Object(None, kids), 0)
         == ([OPEN_BRACE] + n + [COLON] + c + [COMMA]) + (rest + [CLOSE_BRACE])
  {
    hide Text, Members;
    CompactObject(lib, None, kids, 0);
    assert [OPEN_BRACE] + (n + [COLON] + c + [COMMA] + rest) + [CLOSE_BRACE]
        == ([OPEN_BRACE] + n + [COLON] + c + [COMMA]) + (rest + [CLOSE_BRACE]);
  }

  lemma WholeFormatted(lib: CLib, kids: seq<Item>, a: bytes, b: bytes)
    requires Members(lib, FORMATTED, kids, 1) == a + b
    ensures Text(lib, FORMATTED, Object(None, kids), 0) == ([OPEN_BRACE] + [NEWLINE]) + a + b + [CLOSE_BRACE]
  {
    hide Text, Members, Repeat;
    FormattedObject(lib, None, kids, 0);
    ThreeTabs();
    assert [OPEN_BRACE] + [NEWLINE] + (a + b) + [] + [CLOSE_BRACE]
        == ([OPEN_BRACE] + [NEWLINE]) + a + b + [CLOSE_BRACE];
  }

  lemma LinesOf(start: bytes, x: bytes, y: bytes, z: bytes, comma: bytes, end: bytes)
    ensures start + (x + y + z) + comma + end == (start + x) + y + (z + (comma + end))
    ensures start + (x + z) + end == (start + x) + (z + end)
  {
    assert start + (x + y + z) == start + x + y + z && start + (x + z) == start + x + z;
  }

  lemma CompactFirst()
    ensures [OPEN_BRACE] + Ascii("\"a\"") + [COLON] + Ascii("[1,true,{\"b\":null}]") + [COMMA]
         == Ascii("{\"a\":[1,true,{\"b\":null}],")
  {
    hide Ascii;
    CompactStart();
    CompactRest();
  }

  lemma CompactStart()
    ensures [OPEN_BRACE] + Ascii("\"a\"") + [COLON] == Ascii("{\"a\":")
  {
  }

  lemma CompactRest()
    ensures Ascii("{\"a\":") + Ascii("[1,true,{\"b\":null}]") + [COMMA] == Ascii("{\"a\":[1,true,{\"b\":null}],")
  {
  }

  lemma CompactLast()
    ensures Ascii("\"c\"") + [COLON] + Ascii("{}") + [CLOSE_BRACE] == Ascii("\"c\":{}}")
  {
  }

  lemma CompactLine()
    ensures Ascii("{\"a\":[1,true,{\"b\":null}],") + Ascii("\"c\":{}}")
         == Ascii("{\"a\":[1,true,{\"b\":null}],\"c\":{}}")
  {
  }

  lemma FirstLines()
    ensures [OPEN_BRACE] + [NEWLINE] == Ascii("{\n")
    ensures Ascii("\t\t}]") + ([COMMA] + [NEWLINE]) == Ascii("\t\t}],\n")
  {
  }

  lemma ArrayLineStart()
    ensures [9] + Ascii("\"a\"") + [COLON] + [TAB] + Ascii("[1, true, {\n") == Ascii("\t\"a\":\t[1, true, {\n")
  {
  }

  lemma LastLines()
    ensures [9] + Ascii("\"c\"") + [COLON] + [TAB] + Ascii("{\n") == Ascii("\t\"c\":\t{\n")
    ensures Ascii("\t}") + [NEWLINE] == Ascii("\t}\n") && [CLOSE_BRACE] == Ascii("}")
  {
  }

  /** The names and texts of the two members. */
  lemma SampleMembers(lib: CLib)
    ensures Spelled(lib, SampleArray(), 1, Ascii("\"a\""), Ascii("[1,true,{\"b\":null}]"),
                    Ascii("[1, true, {\n") + Ascii("\t\t\t\"b\":\tnull\n") + Ascii("\t\t}]"))
    ensures Spelled(lib, SampleEmpty(), 1, Ascii("\"c\""), Ascii("{}"), Ascii("{\n") + Ascii("\t}"))
  {
    hide Text, Quoted, Ascii;
    NameSpelled("a");
    NameSpelled("c");
    assert "\"" + "a" + "\"" == "\"a\"" && "\"" + "c" + "\"" == "\"c\"";
    ArrayText(lib);
    EmptyText(lib);
  }

  lemma MembersOfSample(lib: CLib)
    ensures Members(lib, Compact, Sample().kids, 1)
         == Ascii("\"a\"") + [COLON] + Ascii("[1,true,{\"b\":null}]") + [COMMA]
            + (Ascii("\"c\"") + [COLON] + Ascii("{}"))
    ensures Members(lib, FORMATTED, Sample().kids, 1)
         == ([9] + Ascii("\"a\"") + [COLON] + [TAB]
             + (Ascii("[1, true, {\n") + Ascii("\t\t\t\"b\":\tnull\n") + Ascii("\t\t}]")) + [COMMA] + [NEWLINE])
            + ([9] + Ascii("\"c\"") + [COLON] + [TAB] + (Ascii("{\n") + Ascii("\t}")) + [NEWLINE])
  {
    hide Ascii, Members, Spelled;
    SampleMembers(lib);
    TwoMembers(lib, SampleArray(), SampleEmpty(),
               Ascii("\"a\""), Ascii("[1,true,{\"b\":null}]"),
               Ascii("[1, true, {\n") + Ascii("\t\t\t\"b\":\tnull\n") + Ascii("\t\t}]"),
               Ascii("\"c\""), Ascii("{}"), Ascii("{\n") + Ascii("\t}"));
  }

  lemma CompactPieces(lib: CLib)
    ensures Text(lib, Compact, Sample(), 0) == Ascii("{\"a\":[1,true,{\"b\":null}],") + Ascii("\"c\":{}}")
  {
    hide Text, Ascii, Members;
    MembersOfSample(lib);
    WholeCompact(lib, Sample().kids, Ascii("\"a\""), Ascii("[1,true,{\"b\":null}]"),
                 Ascii("\"c\"") + [COLON] + Ascii("{}"));
    CompactFirst();
    CompactLast();
  }

  /** The document without white space. */
  lemma SampleCompact(lib: CLib)
    ensures Text(lib, CJsonLayout(false), Sample(), 0) == Ascii("{\"a\":[1,true,{\"b\":null}],\"c\":{}}")
  {
    hide Text, Ascii;
    CompactPieces(lib);
    CompactLine();
  }

  /** The document as cJSON_Print formats it, line by line. */
  lemma SampleFormatted(lib: CLib)
    ensures Text(lib, CJsonLayout(true), Sample(), 0)
         == Ascii("{\n") + (Ascii("\t\"a\":\t[1, true, {\n") + Ascii("\t\t\t\"b\":\tnull\n") + Ascii("\t\t}],\n"))
            + (Ascii("\t\"c\":\t{\n") + Ascii("\t}\n")) + Ascii("}")
  {
    hide Text, Ascii, Members;
    MembersOfSample(lib);
    var x, y, z := Ascii("[1, true, {\n"), Ascii("\t\t\t\"b\":\tnull\n"), Ascii("\t\t}]");
    var a, c := [9] + Ascii("\"a\"") + [COLON] + [TAB], [9] + Ascii("\"c\"") + [COLON] + [TAB];
    WholeFormatted(lib, Sample().kids, a + (x + y + z) + [COMMA] + [NEWLINE],
                   c + (Ascii("{\n") + Ascii("\t}")) + [NEWLINE]);
    LinesOf(a, x, y, z, [COMMA], [NEWLINE]);
    LinesOf(c, Ascii("{\n"), [], Ascii("\t}"), [], [NEWLINE]);
    FirstLines();
    ArrayLineStart();
    LastLines();
  }

  /** It is read back, formatted or not, and minifying turns the one text into the other. */
  lemma SampleParsed(lib: CLib)
    ensures
      var compact := Ascii("{\"a\":[1,true,{\"b\":null}],\"c\":{}}");
      var formatted := Text(lib, CJsonLayout(true), Sample(), 0);
      && ParseText(lib, compact + [NUL], true) == Ok(Sample(), |compact|)
      && ParseText(lib, formatted + [NUL], true) == Ok(Sample(), |formatted|)
      && Outside(formatted) == compact
  {
    hide Text, ParseText, Outside, Fine, Ascii, RawFree, Printable, Settled, Harmless;
    SampleIsSettled(lib);
    SampleCompact(lib);
    PrintThenParseExactly(lib, Sample(), false);
    PrintThenParseExactly(lib, Sample(), true);
    MinifyingPrintedText(lib, Sample());
  }

  lemma SampleIsSettled(lib: CLib)
    ensures RawFree(Sample()) && Printable(lib, Sample(), 0) && Settled(lib, Sample()) && Harmless(Sample())
  {
    hide NumberText, Recovered, EndsInBackslash, Ascii, RawFree, Printable, Settled, Harmless;
    InnerIsSettled(lib);
    ArrayIsSettled(lib);
    var a, c := SampleArray(), SampleEmpty();
    assert Sample().kids == [a, c];
    NameIsHarmless("a");
    NameIsHarmless("c");
    SettledObject(lib, a, c);
  }

  lemma NameIsHarmless(s: string)
    requires |s| == 1 && 'a' <= s[0] <= 'z'
    ensures !EndsInBackslash(OrEmpty(Some(Ascii(s))))
  {
  }

  lemma SettledObject(lib: CLib, a: Item, c: Item)
    requires RawFree(a) && Printable(lib, a, 1) && Settled(lib, a) && Harmless(a)
    requires c.Object? && c.kids == [] && a.key.Some? && c.key.Some?
    requires !EndsInBackslash(OrEmpty(a.key)) && !EndsInBackslash(OrEmpty(c.key))
    ensures
      var item := Object(None, [a] + [c]);
      RawFree(item) && Printable(lib, item, 0) && Settled(lib, item) && Harmless(item)
  {
    hide EndsInBackslash, RawFree, Printable, Settled, Harmless;
    EmptyIsSettled(lib, c);
    TwoPrintable(lib, a, c);
    TwoSettled(lib, a, c);
    TwoHarmless(a, c);
  }

  lemma EmptyIsSettled(lib: CLib, c: Item)
    requires c.Object? && c.kids == []
    ensures RawFree(c) && Printable(lib, c, 1) && Settled(lib, c) && Harmless(c)
  {
  }

  lemma TwoPrintable(lib: CLib, a: Item, c: Item)
    requires RawFree(a) && Printable(lib, a, 1) && RawFree(c) && Printable(lib, c, 1)
    ensures RawFree(Object(None, [a] + [c])) && Printable(lib, Object(None, [a] + [c]), 0)
  {
    assert forall k :: k in [a] + [c] ==> k == a || k == c;
  }

  lemma TwoSettled(lib: CLib, a: Item, c: Item)
    requires Settled(lib, a) && Settled(lib, c) && a.key.Some? && c.key.Some?
    ensures Settled(lib, Object(None, [a] + [c]))
  {
    hide Recovered;
    assert forall k :: k in [a] + [c] ==> k == a || k == c;
  }

  lemma TwoHarmless(a: Item, c: Item)
    requires Harmless(a) && Harmless(c)
    requires !EndsInBackslash(OrEmpty(a.key)) && !EndsInBackslash(OrEmpty(c.key))
    ensures Harmless(Object(None, [a] + [c]))
  {
    hide EndsInBackslash, OrEmpty;
    assert forall k :: k in [a] + [c] ==> k == a || k == c;
  }

  lemma InnerIsSettled(lib: CLib)
    ensures var inner := SampleObject();
      RawFree(inner) && Printable(lib, inner, 2) && Settled(lib, inner) && Harmless(inner)
  {
    NameIsHarmless("b");
  }

  lemma ArrayIsSettled(lib: CLib)
    ensures var list := SampleArray();
      RawFree(list) && Printable(lib, list, 1) && Settled(lib, list) && Harmless(list)
  {
    hide RawFree, Printable, Settled, Harmless;
    InnerIsSettled(lib);
    OneIsSettled(lib);
    ThreeElements(lib, Number(None, 1.0), True(None), SampleObject(), Some(Ascii("a")));
  }

  lemma OneIsSettled(lib: CLib)
    ensures
      forall x :: x == Number(None, 1.0) || x == True(None) ==>
        RawFree(x) && Printable(lib, x, 2) && Settled(lib, x) && Harmless(x)
  {
    hide NumberText, Recovered;
    IntegersAreRecovered(lib, 1);
    NumberOne(lib);
  }

  lemma ThreeElements(lib: CLib, x: Item, y: Item, z: Item, key: Option<cstring>)
    requires forall k :: k == x || k == y || k == z ==>
      k.key.None? && RawFree(k) && Printable(lib, k, 2) && Settled(lib, k) && Harmless(k)
    ensures var list := Array(key, [x, y, z]);
      RawFree(list) && Printable(lib, list, 1) && Settled(lib, list) && Harmless(list)
  {
    assert forall k :: k in [x, y, z] ==> k == x || k == y || k == z;
  }

  // ----- the results file

  /** A line of formatted output: every tab in front becomes four spaces, and the one behind the colon one. */
  lemma {:induction false} LineReindented(n: nat, name: bytes, value: bytes, rest: bytes)
    requires Plain(name) && name != [] && Plain(value)
    ensures Reindented(Repeat(Ascii("\t"), n) + (name + (Ascii("\t") + (value + (Ascii("\n") + rest)))), true)
         == Repeat(Ascii("    "), n) + (name + (Ascii(" ") + (value + (Ascii("\n") + Reindented(rest, true)))))
  {
    hide Plain, Reindented, Ascii;
    var line := name + (Ascii("\t") + (value + (Ascii("\n") + rest)));
    TabsReindented(n, line);
    PlainStays(name, Ascii("\t") + (value + (Ascii("\n") + rest)), true);
    BehindColon(value, rest);
  }

  lemma {:induction false} TabsReindented(n: nat, line: bytes)
    ensures Reindented(Repeat(Ascii("\t"), n) + line, true) == Repeat(Ascii("    "), n) + Reindented(line, true)
  {
    hide Reindented;
    if n == 0 {
      assert [] + line == line && [] + Reindented(line, true) == Reindented(line, true);
    } else {
      TabsReindented(n - 1, line);
      TabReindented(Repeat(Ascii("\t"), n - 1), line);
      assert Repeat(Ascii("    "), n) + Reindented(line, true)
          == Ascii("    ") + (Repeat(Ascii("    "), n - 1) + Reindented(line, true));
    }
  }

  lemma TabReindented(tabs: bytes, line: bytes)
    ensures Reindented(Ascii("\t") + tabs + line, true) == Ascii("    ") + Reindented(tabs + line, true)
  {
    assert (Ascii("\t") + tabs + line)[1..] == tabs + line;
    assert Ascii("    ") == FOUR_SPACES;
  }

  lemma BehindColon(value: bytes, rest: bytes)
    requires Plain(value)
    ensures Reindented(Ascii("\t") + (value + (Ascii("\n") + rest)), false)
         == Ascii(" ") + (value + (Ascii("\n") + Reindented(rest, true)))
  {
    hide Plain;
    PlainStays(value, Ascii("\n") + rest, false);
    assert (Ascii("\n") + rest)[1..] == rest;
    assert (Ascii("\t") + (value + (Ascii("\n") + rest)))[1..] == value + (Ascii("\n") + rest);
  }
}
