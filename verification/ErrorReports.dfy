/** The position that cJSON_ParseWithOpts reports for a text that it does not accept. */
module ErrorReports {
  import opened Bytes
  import opened CLibrary
  import opened Items
  import opened StringParser
  import opened Grammar
  import opened Parser
  import opened Language
  import opened ErrorPositions

  // ----- exactly

  /** A position in the text; behind its end it is the last byte. */
  predicate ReportedAs(s: bytes, e: nat, at: nat) {
    s != [] && at == if e < |s| then e else |s| - 1
  }

  /** The value behind the byte order mark and white space stops. */
  ghost predicate ValueStops(lib: CLib, s: bytes, at: nat) {
    exists k: nat, e: nat :: k <= |s| && Skips(s, SkipBom(s), k) && Stuck(lib, s, k, 0, e) && ReportedAs(s, e, at)
  }

  /** The value is there, and something else than the terminator behind it. */
  ghost predicate TerminatorStops(lib: CLib, s: bytes, at: nat) {
    exists e: nat ::
      ValueEnds(lib, s, SkipBom(s), 0, e) && (e == |s| || (e < |s| && s[e] != NUL)) && ReportedAs(s, e, at)
  }

  /** Which position is reported, for any bytes. */
  lemma ReportsExactly(lib: CLib, s: bytes, requireNul: bool, at: nat)
    ensures ParseText(lib, s, requireNul) == Fail(at) <==>
      || (s == [] && at == 0)
      || (s != [] && ValueStops(lib, s, at))
      || (s != [] && requireNul && TerminatorStops(lib, s, at))
  {
    hide ParseValue, SkipSpace, Stuck, ValueEnds, Skips;
    if s != [] {
      var b := SkipBom(s);
      var k := SkipSpace(s, b);
      StopsAtExactly(lib, s, at);
      TailExactly(lib, s, at);
    }
  }

  lemma StopsAtExactly(lib: CLib, s: bytes, at: nat)
    requires s != []
    ensures
      var r := ParseValue(lib, s, SkipSpace(s, SkipBom(s)), 0);
      ValueStops(lib, s, at) <==> r.Fail? && at == ErrorPosition(s, r.at)
  {
    hide ParseValue, SkipSpace, SkipBom, Stuck, Skips;
    var k := SkipSpace(s, SkipBom(s));
    var r := ParseValue(lib, s, k, 0);
    if ValueStops(lib, s, at) {
      var k': nat, e: nat :| k' <= |s| && Skips(s, SkipBom(s), k') && Stuck(lib, s, k', 0, e) && ReportedAs(s, e, at);
      SkipsExactly(s, SkipBom(s), k');
      StopsExactly(lib, s, k', 0, e);
    }
    if r.Fail? {
      SkipsExactly(s, SkipBom(s), k);
      StopsExactly(lib, s, k, 0, r.at);
    }
  }

  lemma TailExactly(lib: CLib, s: bytes, at: nat)
    requires s != []
    ensures
      var r := ParseValue(lib, s, SkipSpace(s, SkipBom(s)), 0);
      TerminatorStops(lib, s, at) <==>
        r.Ok? && var e := SkipSpace(s, r.next); (e == |s| || s[e] != NUL) && at == ErrorPosition(s, e)
  {
    hide ParseValue, SkipSpace, SkipBom, ValueEnds;
    var r := ParseValue(lib, s, SkipSpace(s, SkipBom(s)), 0);
    if TerminatorStops(lib, s, at) {
      var e: nat :|
        ValueEnds(lib, s, SkipBom(s), 0, e) && (e == |s| || (e < |s| && s[e] != NUL)) && ReportedAs(s, e, at);
      ValueEndsIs(lib, s, SkipBom(s), 0, e);
    }
    if r.Ok? {
      ValueEndsIs(lib, s, SkipBom(s), 0, SkipSpace(s, r.next));
    }
  }

  // ----- in front of an element or a value

  /** No value starts here: not white space, none of the words, and no first byte of another kind. */
  predicate Unfit(u: bytes) {
    u != [] && u[0] > 32 && NoStart(u, 0)
  }

  lemma {:induction false} ElementsPass(lib: CLib, s: bytes, i: nat, d: nat, kids: seq<Item>, t: bytes, acc: seq<Item>)
    requires i < |s| && kids != [] && SpellsList(lib, kids, t, d, false)
    requires At(s, i + 1, t) && i + 1 + |t| < |s| && s[i + 1 + |t|] == COMMA
    ensures ParseElements(lib, s, i, d, acc) == ParseElements(lib, s, i + 1 + |t|, d, acc + kids)
    ensures i + 1 < |s| && s[SkipSpace(s, i + 1)] != CLOSE_BRACKET
    decreases |kids|
  {
    hide At, ParseElements, ParseValue, SkipSpace, SpellsList, SpellsOne, SpellsValue;
    ElementsStep(lib, s, i, d, acc);
    if |kids| == 1 {
      LastOfList(lib, kids, t, d, false);
      OneElement(lib, kids[0], t, d);
      ParsesSpelledValue(lib, s, i + 1, d, kids[0], t);
      assert acc + [kids[0]] == acc + kids;
    } else {
      var first, rest := FirstSpelled(lib, kids, t, d, false);
      SeparatedAt(s, i + 1, t, first, COMMA, rest);
      OneElement(lib, kids[0], first, d);
      ParsesSpelledValue(lib, s, i + 1, d, kids[0], first);
      ElementsPass(lib, s, i + 1 + |first|, d, kids[1..], rest, acc + [kids[0]]);
      assert acc + [kids[0]] + kids[1..] == acc + kids;
    }
  }

  lemma {:induction false} MembersPass(lib: CLib, s: bytes, i: nat, d: nat, kids: seq<Item>, t: bytes, acc: seq<Item>)
    requires i < |s| && kids != [] && SpellsList(lib, kids, t, d, true)
    requires At(s, i + 1, t) && i + 1 + |t| < |s| && s[i + 1 + |t|] == COMMA
    ensures ParseMembers(lib, s, i, d, acc) == ParseMembers(lib, s, i + 1 + |t|, d, acc + kids)
    ensures QuoteAhead(s, i + 1)
    decreases |kids|
  {
    hide At, ParseMembers, ParseName, ParseValue, SkipSpace, SpellsList, SpellsOne, MemberParsed;
    if |kids| == 1 {
      LastOfList(lib, kids, t, d, true);
      ParsesSpelledMember(lib, s, i, d, kids[0], t);
      MemberRead(lib, s, i, d, kids[0], i + 1 + |t|, acc);
      assert acc + [kids[0]] == acc + kids;
    } else {
      var first, rest := FirstSpelled(lib, kids, t, d, true);
      SeparatedAt(s, i + 1, t, first, COMMA, rest);
      ParsesSpelledMember(lib, s, i, d, kids[0], first);
      MemberRead(lib, s, i, d, kids[0], i + 1 + |first|, acc);
      MembersPass(lib, s, i + 1 + |first|, d, kids[1..], rest, acc + [kids[0]]);
      assert acc + [kids[0]] + kids[1..] == acc + kids;
    }
  }

  lemma UnfitFails(lib: CLib, front: bytes, u: bytes, d: nat)
    requires Unfit(u)
    ensures ParseValue(lib, front + u, |front|, d) == Fail(|front|)
  {
    hide ParseValue;
    var s := front + u;
    UnfitAt(front, u, NULL_TEXT);
    UnfitAt(front, u, FALSE_TEXT);
    UnfitAt(front, u, TRUE_TEXT);
    NoValueFails(lib, s, |front|, d);
  }

  lemma UnfitAt(front: bytes, u: bytes, word: bytes)
    ensures At(front + u, |front|, word) <==> At(u, 0, word)
  {
    if |word| <= |u| {
      assert (front + u)[|front|..|front| + |word|] == u[0..|word|];
    }
  }

  lemma GapBefore(front: bytes, w: bytes, u: bytes)
    requires Gap(w) && u != [] && u[0] > 32
    ensures SkipSpace(front + w + u, |front|) == |front + w|
  {
    var s := front + w + u;
    assert At(s, |front|, w);
    GapSkipped(s, |front|, w);
  }

  /** A text that starts with a bracket or a brace. */
  lemma Opening(lib: CLib, s: bytes, requireNul: bool)
    requires s != [] && (s[0] == OPEN_BRACKET || s[0] == OPEN_BRACE)
    ensures
      var r := if s[0] == OPEN_BRACKET then ParseArray(lib, s, 0, 0) else ParseObject(lib, s, 0, 0);
      r.Fail? ==> ParseText(lib, s, requireNul) == Fail(ErrorPosition(s, r.at))
  {
    hide ParseArray, ParseObject, ParseNumber, ParseString, At;
    NotALiteral(s, 0);
    assert SkipSpace(s, 0) == 0;
    NoMark(s);
  }

  lemma NoMark(s: bytes)
    requires s != [] && s[0] < 128
    ensures SkipBom(s) == 0
  {
    if At(s, 0, [0xEF, 0xBB, 0xBF]) {
      AtByte(s, 0, [0xEF, 0xBB, 0xBF], 0);
    }
  }

  function Listed(t: bytes, some: bool): bytes {
    if some then t + [COMMA] else []
  }

  lemma ArrayStops(lib: CLib, s: bytes, p: nat, at: nat, acc: seq<Item>, requireNul: bool)
    requires 1 < |s| && s[0] == OPEN_BRACKET && s[SkipSpace(s, 1)] != CLOSE_BRACKET && 0 < p <= |s|
    requires ParseElements(lib, s, 0, 1, []) == ParseElements(lib, s, p - 1, 1, acc)
    requires ParseElements(lib, s, p - 1, 1, acc) == Fail(at)
    ensures ParseText(lib, s, requireNul) == Fail(if at < |s| then at else |s| - 1)
  {
    hide ParseText, ParseArray, ParseElements, SkipSpace;
    Opening(lib, s, requireNul);
    ArrayOpens(lib, s, 0, 0);
  }

  lemma ElementUnfit(lib: CLib, s: bytes, bare: bytes, w: bytes, u: bytes, acc: seq<Item>)
    requires s == bare + w + u && bare != [] && Gap(w) && Unfit(u)
    ensures SkipSpace(s, |bare|) == |bare + w| && s[|bare + w|] == u[0]
    ensures ParseElements(lib, s, |bare| - 1, 1, acc) == Fail(|bare + w|)
  {
    hide ParseElements, ParseValue, SkipSpace, Gap, NoStart;
    GapBefore(bare, w, u);
    UnfitFails(lib, bare + w, u, 1);
    ElementsStep(lib, s, |bare| - 1, 1, acc);
  }

  lemma FirstMissing(lib: CLib, w: bytes, u: bytes, requireNul: bool)
    requires Gap(w) && Unfit(u) && u[0] != CLOSE_BRACKET
    ensures ParseText(lib, [OPEN_BRACKET] + w + u, requireNul) == Fail(1 + |w|)
  {
    hide ParseText, ParseElements, SkipSpace, Gap, NoStart;
    var s := [OPEN_BRACKET] + w + u;
    ElementUnfit(lib, s, [OPEN_BRACKET], w, u, []);
    ArrayStops(lib, s, 1, 1 + |w|, [], requireNul);
  }

  lemma NextMissing(lib: CLib, kids: seq<Item>, t: bytes, w: bytes, u: bytes, requireNul: bool)
    requires kids != [] && SpellsList(lib, kids, t, 1, false) && Gap(w) && Unfit(u)
    ensures ParseText(lib, [OPEN_BRACKET] + Listed(t, true) + w + u, requireNul) == Fail(2 + |t| + |w|)
  {
    hide ParseText, ParseElements, SkipSpace, SpellsList, Gap, NoStart, At;
    var bare := [OPEN_BRACKET] + Listed(t, true);
    var s := bare + w + u;
    ElementUnfit(lib, s, bare, w, u, kids);
    ListInFront([OPEN_BRACKET], t, w, u);
    ElementsPass(lib, s, 0, 1, kids, t, []);
    assert [] + kids == kids;
    ArrayStops(lib, s, |bare|, |bare + w|, kids, requireNul);
  }

  /**
   * In an array, behind any number of complete elements and commas, the position
   * of something that is no value is reported.
   */
  lemma ElementMissing(lib: CLib, kids: seq<Item>, t: bytes, w: bytes, u: bytes, requireNul: bool)
    requires kids != [] ==> SpellsList(lib, kids, t, 1, false)
    requires Gap(w) && Unfit(u) && (kids == [] ==> u[0] != CLOSE_BRACKET)
    ensures
      var front := [OPEN_BRACKET] + Listed(t, kids != []) + w;
      ParseText(lib, front + u, requireNul) == Fail(|front|)
  {
    hide ParseText, SpellsList, Gap, Unfit;
    if kids == [] {
      FirstMissing(lib, w, u, requireNul);
      assert [OPEN_BRACKET] + [] == [OPEN_BRACKET];
    } else {
      NextMissing(lib, kids, t, w, u, requireNul);
    }
  }

  lemma ListInFront(open: bytes, t: bytes, w: bytes, u: bytes)
    ensures
      var s := open + Listed(t, true) + w + u;
      At(s, |open|, t) && |open| + |t| < |s| && s[|open| + |t|] == COMMA
  {
    ListAt(open, t, w + u);
    assert open + (t + [COMMA]) + w + u == open + t + [COMMA] + (w + u);
  }

  lemma ListAt(open: bytes, t: bytes, rest: bytes)
    ensures
      var s := open + t + [COMMA] + rest;
      At(s, |open|, t) && |open| + |t| < |s| && s[|open| + |t|] == COMMA
  {
  }

  lemma ObjectStops(lib: CLib, s: bytes, p: nat, at: nat, acc: seq<Item>, requireNul: bool)
    requires 1 < |s| && s[0] == OPEN_BRACE && s[SkipSpace(s, 1)] != CLOSE_BRACE && 0 < p <= |s|
    requires ParseMembers(lib, s, 0, 1, []) == ParseMembers(lib, s, p - 1, 1, acc)
    requires ParseMembers(lib, s, p - 1, 1, acc) == Fail(at)
    ensures ParseText(lib, s, requireNul) == Fail(if at < |s| then at else |s| - 1)
  {
    hide ParseText, ParseObject, ParseMembers, SkipSpace;
    Opening(lib, s, requireNul);
    ObjectOpens(lib, s, 0, 0);
  }

  lemma ValueUnfit(lib: CLib, s: bytes, bare: bytes, name: bytes, key: Option<cstring>, w: bytes, u: bytes,
                   acc: seq<Item>)
    requires s == bare + name + [COLON] + w + u && bare != [] && SpellsName(name, key) && Gap(w) && Unfit(u)
    ensures |bare| < |s| && s[SkipSpace(s, |bare|)] == QUOTE
    ensures ParseMembers(lib, s, |bare| - 1, 1, acc) == Fail(|s| - |u|)
  {
    hide ParseMembers, ParseName, ParseValue, SkipSpace, Gap, NoStart, SpellsName, At;
    NameIsAt(bare, name, w, u);
    ParsesSpelledName(s, |bare| - 1, name, key);
    var front := bare + name + [COLON];
    UnfitBehind(lib, s, front, w, u);
    MembersStep(lib, s, |bare| - 1, 1, acc);
  }

  lemma UnfitBehind(lib: CLib, s: bytes, front: bytes, w: bytes, u: bytes)
    requires s == front + w + u && Gap(w) && Unfit(u)
    ensures SkipSpace(s, |front|) == |s| - |u| && ParseValue(lib, s, |s| - |u|, 1) == Fail(|s| - |u|)
  {
    hide ParseValue, SkipSpace, Gap, NoStart;
    GapBefore(front, w, u);
    UnfitFails(lib, front + w, u, 1);
  }

  lemma NameIsAt(bare: bytes, name: bytes, w: bytes, u: bytes)
    ensures
      var s := bare + name + [COLON] + w + u;
      At(s, |bare|, name) && |bare| + |name| < |s| && s[|bare| + |name|] == COLON
  {
    assert (bare + name + [COLON] + w + u)[|bare|..|bare| + |name|] == name;
  }

  lemma ListFirst(open: bytes, t: bytes, name: bytes, w: bytes, u: bytes)
    ensures
      var s := open + Listed(t, true) + name + [COLON] + w + u;
      At(s, |open|, t) && |open| + |t| < |s| && s[|open| + |t|] == COMMA
  {
    ListAt(open, t, name + [COLON] + w + u);
    assert open + (t + [COMMA]) + name + [COLON] + w + u == open + t + [COMMA] + (name + [COLON] + w + u);
  }

  /**
   * In an object, behind any number of complete members and commas and a name
   * with its colon, likewise.
   */
  lemma ValueMissing(lib: CLib, kids: seq<Item>, t: bytes, name: bytes, key: Option<cstring>, w: bytes, u: bytes,
                     requireNul: bool)
    requires kids != [] ==> SpellsList(lib, kids, t, 1, true)
    requires SpellsName(name, key) && Gap(w) && Unfit(u)
    ensures
      var front := [OPEN_BRACE] + Listed(t, kids != []) + name + [COLON] + w;
      ParseText(lib, front + u, requireNul) == Fail(|front|)
  {
    hide ParseText, ParseMembers, SkipSpace, SpellsList, SpellsName, Gap, NoStart, At;
    var bare := [OPEN_BRACE] + Listed(t, kids != []);
    var s := bare + name + [COLON] + w + u;
    ValueUnfit(lib, s, bare, name, key, w, u, kids);
    if kids != [] {
      ListFirst([OPEN_BRACE], t, name, w, u);
      MembersPass(lib, s, 0, 1, kids, t, []);
      assert [] + kids == kids;
    }
    ObjectStops(lib, s, |bare|, |s| - |u|, kids, requireNul);
  }

  // ----- a text that ends too early

  /** The rest of the text is white space, if anything. */
  lemma OnlySpaceLeft(s: bytes, n: nat, w: bytes)
    requires At(s, n, w) && Gap(w) && n + |w| == |s|
    ensures SkipSpace(s, n) == |s| || (SkipSpace(s, n) == |s| - 1 && s[|s| - 1] <= 32)
    ensures Delimited(s, n)
  {
    forall k | n <= k < |s| ensures s[k] <= 32 {
      AtByte(s, n, w, k - n);
    }
    if n < |s| {
      assert SpaceEnd(s, n) == |s|;
    }
  }

  lemma ValueAtEnd(lib: CLib, s: bytes, p: nat, d: nat, v: Item, t: bytes)
    requires At(s, p, t) && SpellsValue(lib, v, t, d) && p + |t| == |s|
    ensures p < |s| && s[SkipSpace(s, p)] > 32 && s[SkipSpace(s, p)] != CLOSE_BRACKET
    ensures
      var r := ParseValue(lib, s, SkipSpace(s, p), d);
      r.Ok? && var j := SkipSpace(s, r.next); j == |s| || (j == |s| - 1 && s[j] <= 32)
  {
    hide At, Spells, ParseValue, SkipSpace, Gap, Framed, Delimited;
    var before, text, after :| Framed(t, before, text, after) && Spells(lib, v, text, d);
    FramedAt(s, p, t, before, text, after);
    FirstOf(lib, v, text, d);
    var k := p + |before|;
    AtByte(s, k, text, 0);
    GapSkipped(s, p, before);
    OnlySpaceLeft(s, k + |text|, after);
    ParsesSpelled(lib, s, k, d, v, text);
  }

  lemma {:induction false} ElementsEnd(lib: CLib, s: bytes, i: nat, d: nat, kids: seq<Item>, t: bytes, acc: seq<Item>)
    requires i < |s| && kids != [] && SpellsList(lib, kids, t, d, false) && At(s, i + 1, t) && i + 1 + |t| == |s|
    ensures ParseElements(lib, s, i, d, acc).Fail? && ParseElements(lib, s, i, d, acc).at >= |s| - 1
    ensures i + 1 < |s| && s[SkipSpace(s, i + 1)] != CLOSE_BRACKET
    decreases |kids|
  {
    hide At, ParseElements, ParseValue, SkipSpace, SpellsList, SpellsOne, SpellsValue;
    ElementsStep(lib, s, i, d, acc);
    if |kids| == 1 {
      LastOfList(lib, kids, t, d, false);
      OneElement(lib, kids[0], t, d);
      ValueAtEnd(lib, s, i + 1, d, kids[0], t);
    } else {
      var first, rest := FirstSpelled(lib, kids, t, d, false);
      SeparatedAt(s, i + 1, t, first, COMMA, rest);
      OneElement(lib, kids[0], first, d);
      ParsesSpelledValue(lib, s, i + 1, d, kids[0], first);
      ElementsEnd(lib, s, i + 1 + |first|, d, kids[1..], rest, acc + [kids[0]]);
    }
  }

  lemma MemberAtEnd(lib: CLib, s: bytes, i: nat, d: nat, v: Item, t: bytes, acc: seq<Item>)
    requires i < |s| && SpellsOne(lib, v, t, d, true) && At(s, i + 1, t) && i + 1 + |t| == |s|
    ensures ParseMembers(lib, s, i, d, acc).Fail? && ParseMembers(lib, s, i, d, acc).at >= |s| - 1
    ensures QuoteAhead(s, i + 1)
  {
    hide At, ParseMembers, ParseName, ParseValue, SkipSpace, SpellsOne, SpellsName, SpellsValue;
    MembersStep(lib, s, i, d, acc);
    var name, value := MemberShape(lib, v, t, d);
    SeparatedAt(s, i + 1, t, name, COLON, value);
    ParsesSpelledName(s, i, name, v.key);
    ValueAtEnd(lib, s, i + 2 + |name|, d, v, value);
  }

  lemma {:induction false} MembersEnd(lib: CLib, s: bytes, i: nat, d: nat, kids: seq<Item>, t: bytes, acc: seq<Item>)
    requires i < |s| && kids != [] && SpellsList(lib, kids, t, d, true) && At(s, i + 1, t) && i + 1 + |t| == |s|
    ensures ParseMembers(lib, s, i, d, acc).Fail? && ParseMembers(lib, s, i, d, acc).at >= |s| - 1
    ensures QuoteAhead(s, i + 1)
    decreases |kids|
  {
    hide At, ParseMembers, ParseName, ParseValue, SkipSpace, SpellsList, SpellsOne, MemberParsed, QuoteAhead;
    if |kids| == 1 {
      LastOfList(lib, kids, t, d, true);
      MemberAtEnd(lib, s, i, d, kids[0], t, acc);
    } else {
      var first, rest := FirstSpelled(lib, kids, t, d, true);
      SeparatedAt(s, i + 1, t, first, COMMA, rest);
      ParsesSpelledMember(lib, s, i, d, kids[0], first);
      MemberRead(lib, s, i, d, kids[0], i + 1 + |first|, acc);
      MembersEnd(lib, s, i + 1 + |first|, d, kids[1..], rest, acc + [kids[0]]);
    }
  }

  /** A text that ends behind complete elements or members is reported at its last byte. */
  lemma EndsEarly(lib: CLib, kids: seq<Item>, t: bytes, members: bool, requireNul: bool)
    requires kids != [] && SpellsList(lib, kids, t, 1, members)
    ensures ParseText(lib, [if members then OPEN_BRACE else OPEN_BRACKET] + t, requireNul) == Fail(|t|)
  {
    hide ParseText, ParseElements, ParseMembers, SpellsList, At, SkipSpace;
    var s := [if members then OPEN_BRACE else OPEN_BRACKET] + t;
    SliceAt(s, 1, |s|);
    assert s[1..|s|] == t;
    if members {
      MembersEnd(lib, s, 0, 1, kids, t, []);
      ObjectStops(lib, s, 1, ParseMembers(lib, s, 0, 1, []).at, [], requireNul);
    } else {
      ElementsEnd(lib, s, 0, 1, kids, t, []);
      ArrayStops(lib, s, 1, ParseElements(lib, s, 0, 1, []).at, [], requireNul);
    }
  }

  // ----- the harness's message

  lemma NameOfOne(b: byte)
    requires b != QUOTE && b != BACKSLASH && b != NUL
    ensures SpellsName([QUOTE, b, QUOTE], Some([b]))
  {
    hide Scanned, FlatChrs, Meanings;
    var t: bytes := [QUOTE, b, QUOTE];
    var c := Plain(b);
    assert [c][1..] == [];
    assert FlatChrs([c]) == [b] && Meanings([c]) == [b] by {
      OneRead(c);
    }
    assert Scanned([b]) by { OneScanned(b); }
    assert ReadAs([c], [b]);
    assert Enclosed(t, QUOTE, [b], QUOTE);
    assert Bytes.CString([b]) == [b] by { CStringIdentity([b]); }
    assert SpellsString(t, Some([b]));
    assert Framed(t, [], t, []);
  }

  lemma OneRead(c: Chr)
    ensures FlatChrs([c]) == FlatChr(c) && Meanings([c]) == Meaning(c)
  {
    hide FlatChr, Meaning;
    assert [c][1..] == [];
  }

  lemma OneScanned(b: byte)
    requires b != QUOTE && b != BACKSLASH
    ensures Scanned([b])
  {
    assert [b][1..] == [];
  }

  /** In {"a": tru} it is the t, the seventh byte. */
  lemma MisspelledWord(lib: CLib)
    ensures ParseText(lib, Ascii("{\"a\": tru}") + [NUL], true) == Fail(6)
  {
    hide ParseText, SpellsName, Unfit, Ascii;
    var name: bytes := [34, 97, 34];
    NameOfOne(97);
    TruIsUnfit();
    ValueMissing(lib, [], [], name, Some([97]), [32], [116, 114, 117, 125, 0], true);
    TextOfTru();
  }

  lemma TextOfTru()
    ensures
      var front := [OPEN_BRACE] + Listed([], false) + [34, 97, 34] + [COLON] + [32];
      |front| == 6 && front + [116, 114, 117, 125, 0] == Ascii("{\"a\": tru}") + [NUL]
  {
  }

  lemma TruIsUnfit()
    ensures Unfit([116, 114, 117, 125, 0]) && Gap([32])
  {
    var u: bytes := [116, 114, 117, 125, 0];
    assert u[3] == 125;
  }
}
