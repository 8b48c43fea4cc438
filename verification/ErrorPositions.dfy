/** Where a parse stops: the position of the error, for every text that is not accepted. */
module ErrorPositions {
  import opened Bytes
  import opened CLibrary
  import opened Items
  import opened StringParser
  import opened Grammar
  import opened Parser
  import opened Language

  // ----- white space

  /** White space is passed from `i` on: `j` is what stands behind it, or the last byte when nothing does. */
  predicate Skips(s: bytes, i: nat, j: nat) {
    && i <= j <= |s| && (forall k :: i <= k < j ==> s[k] <= 32)
    && if i == |s| then j == i else j < |s| && (s[j] > 32 || j == |s| - 1)
  }

  lemma SkipsExactly(s: bytes, i: nat, j: nat)
    requires i <= |s|
    ensures Skips(s, i, j) <==> j == SkipSpace(s, i)
  {
    if i < |s| && SpaceEnd(s, i) == |s| {
      assert forall k :: i <= k < |s| ==> s[k] <= 32;
    }
  }

  // ----- strings

  /** The first quote that is not escaped. */
  predicate Closes(s: bytes, p: nat, e: nat) {
    p <= e < |s| && s[e] == QUOTE && Scanned(s[p..e])
  }

  predicate Unclosed(s: bytes, p: nat) {
    forall e: nat | e < |s| :: !Closes(s, p, e)
  }

  /** A backslash that starts no escape, or one that does not end before the closing quote. */
  ghost predicate NoEscape(s: bytes, at: nat, e: nat) {
    at < e < |s| && s[at] == BACKSLASH
    && forall c :: ReadableChr(c) && At(s, at, FlatChr(c)) ==> !c.Escape? && at + |FlatChr(c)| > e
  }

  ghost predicate Readable(t: bytes) {
    exists cs :: ReadableChrs(cs) && FlatChrs(cs) == t
  }

  /** All up to `at` can be read, and the escape there cannot. */
  ghost predicate EscapeStuck(s: bytes, p: nat, at: nat, e: nat) {
    p <= at < e < |s| && Readable(s[p..at]) && NoEscape(s, at, e)
  }

  /** Behind an opening quote: the string is not closed, or has an escape that cannot be read. */
  ghost predicate StuckInString(s: bytes, p: nat, at: nat) {
    (at == p && Unclosed(s, p)) || exists e :: Closes(s, p, e) && EscapeStuck(s, p, at, e)
  }

  ghost predicate StringStuck(s: bytes, i: nat, at: nat) {
    i < |s| && s[i] == QUOTE && StuckInString(s, i + 1, at)
  }

  lemma {:induction false} ClosesIs(s: bytes, p: nat, e: nat)
    requires p <= |s|
    ensures Closes(s, p, e) <==> CloseQuote(s, p) == Some(e)
  {
    hide CloseQuote, Scanned;
    if Closes(s, p, e) {
      SliceAt(s, p, e);
      ScannedCloses(s, p, s[p..e]);
    }
    if CloseQuote(s, p) == Some(e) {
      ScannedTo(s, p);
    }
  }

  lemma NoEscapeIs(s: bytes, p: nat, end: nat, acc: bytes)
    requires p < end < |s| && s[p] == BACKSLASH
    ensures NoEscape(s, p, end) <==> DecodeFrom(s, p, end, acc) == BadAt(p)
  {
    hide DecodeFrom, ReadableChr, FlatChr, At, Meaning, ChrAt;
    if DecodeFrom(s, p, end, acc) == BadAt(p) {
      forall c | ReadableChr(c) && At(s, p, FlatChr(c)) ensures !c.Escape? && p + |FlatChr(c)| > end {
        FlatChrSize(c);
        if c.Escape? || p + |FlatChr(c)| <= end {
          DecodesChr(s, p, end, c, acc);
          DecodeBound(s, p + |FlatChr(c)|, end, acc + Meaning(c));
        }
      }
    } else {
      ChrRead(s, p, end, acc);
      var c := ChrAt(s, p, end);
      SliceAt(s, p, p + |FlatChr(c)|);
      assert At(s, p, FlatChr(c));
    }
  }

  /** What can be read is read, up to where it ends. */
  lemma {:induction false} ReadTo(s: bytes, p: nat, end: nat, cs: seq<Chr>, acc: bytes)
    requires ReadableChrs(cs) && At(s, p, FlatChrs(cs)) && p + |FlatChrs(cs)| < end < |s|
    ensures DecodeFrom(s, p, end, acc) == DecodeFrom(s, p + |FlatChrs(cs)|, end, acc + Meanings(cs))
    decreases cs
  {
    hide At, FlatChr, ReadableChr, Meaning, DecodeFrom;
    if cs == [] {
      assert acc + [] == acc;
    } else {
      FlatChrSize(cs[0]);
      AtConcat(s, p, FlatChr(cs[0]), FlatChrs(cs[1..]));
      DecodesChr(s, p, end, cs[0], acc);
      ReadTo(s, p + |FlatChr(cs[0])|, end, cs[1..], acc + Meaning(cs[0]));
      assert acc + Meaning(cs[0]) + Meanings(cs[1..]) == acc + Meanings(cs);
    }
  }

  lemma {:induction false} BadIsStuck(s: bytes, p: nat, end: nat, acc: bytes) returns (cs: seq<Chr>)
    requires p <= end < |s| && DecodeFrom(s, p, end, acc).BadAt?
    ensures
      var at := DecodeFrom(s, p, end, acc).at;
      p <= at < end && ReadableChrs(cs) && FlatChrs(cs) == s[p..at] && NoEscape(s, at, end)
    decreases |s| - p
  {
    hide ReadableChr, FlatChr, Meaning, ChrAt, DecodeFrom, NoEscape;
    DecodeBound(s, p, end, acc);
    var at := DecodeFrom(s, p, end, acc).at;
    if at == p {
      cs := [];
      DecodeOne(s, p, end, acc);
      StopsAtEscape(s, p, end, acc);
      NoEscapeIs(s, p, end, acc);
    } else {
      ChrRead(s, p, end, acc);
      var c := ChrAt(s, p, end);
      var n := |FlatChr(c)|;
      var rest := BadIsStuck(s, p + n, end, acc + Meaning(c));
      cs := [c] + rest;
      assert cs[1..] == rest;
      assert s[p..at] == s[p..p + n] + s[p + n..at];
    }
  }

  lemma StopsAtEscape(s: bytes, p: nat, end: nat, acc: bytes)
    requires p < end < |s| && DecodeFrom(s, p, end, acc) == BadAt(p)
    ensures s[p] == BACKSLASH
  {
    if s[p] != BACKSLASH {
      DecodeBound(s, p + 1, end, acc + [s[p]]);
    }
  }

  lemma StringStuckIs(s: bytes, i: nat, at: nat)
    requires i < |s| && s[i] == QUOTE
    ensures StringStuck(s, i, at) <==> ParseString(s, i) == NoString(at)
  {
    hide Closes, CloseQuote, Unclosed, EscapeStuck, DecodeFrom;
    if StringStuck(s, i, at) {
      if at == i + 1 && Unclosed(s, at) {
        NeverClosed(s, at);
      } else {
        var e :| Closes(s, i + 1, e) && EscapeStuck(s, i + 1, at, e);
        ClosesIs(s, i + 1, e);
        EscapeIsStuck(s, i + 1, at, e);
      }
    }
    if ParseString(s, i) == NoString(at) {
      if CloseQuote(s, i + 1).None? {
        NeverClosed(s, i + 1);
      } else {
        var e := CloseQuote(s, i + 1).value;
        ClosesIs(s, i + 1, e);
        EscapeIsBad(s, i + 1, e);
      }
    }
  }

  lemma NeverClosed(s: bytes, p: nat)
    requires p <= |s|
    ensures Unclosed(s, p) <==> CloseQuote(s, p).None?
  {
    hide Closes, CloseQuote;
    forall e: nat | e < |s| ensures Closes(s, p, e) <==> CloseQuote(s, p) == Some(e) {
      ClosesIs(s, p, e);
    }
  }

  lemma EscapeIsStuck(s: bytes, p: nat, at: nat, e: nat)
    requires EscapeStuck(s, p, at, e)
    ensures DecodeFrom(s, p, e, []) == BadAt(at)
  {
    hide DecodeFrom, ReadableChrs, FlatChrs, At, NoEscape;
    var cs :| ReadableChrs(cs) && FlatChrs(cs) == s[p..at];
    SliceAt(s, p, at);
    ReadTo(s, p, e, cs, []);
    BackslashAt(s, at, e);
    NoEscapeIs(s, at, e, [] + Meanings(cs));
  }

  lemma BackslashAt(s: bytes, at: nat, e: nat)
    requires NoEscape(s, at, e)
    ensures at < e < |s| && s[at] == BACKSLASH
  {
  }

  lemma EscapeIsBad(s: bytes, p: nat, e: nat)
    requires p <= e < |s| && DecodeFrom(s, p, e, []).BadAt?
    ensures EscapeStuck(s, p, DecodeFrom(s, p, e, []).at, e)
  {
    hide DecodeFrom, ReadableChrs, FlatChrs, NoEscape;
    var cs := BadIsStuck(s, p, e, []);
  }

  /** A string that can be read stands between `i` and `e`. */
  ghost predicate StringEnds(s: bytes, i: nat, e: nat) {
    i < e <= |s| && exists text :: SpellsString(s[i..e], text)
  }

  lemma StringEndsIs(s: bytes, i: nat, e: nat)
    requires i < |s|
    ensures StringEnds(s, i, e) <==> ParseString(s, i).StringRead? && ParseString(s, i).next == e
  {
    hide SpellsString, ParseString;
    if StringEnds(s, i, e) {
      var text :| SpellsString(s[i..e], text);
      SliceAt(s, i, e);
      ParsesSpelledString(s, i, s[i..e], text);
    }
    if ParseString(s, i).StringRead? && ParseString(s, i).next == e {
      ParsedStringSpells(s, i);
      StringNext(s, i);
    }
  }

  lemma StringNext(s: bytes, i: nat)
    requires i < |s| && ParseString(s, i).StringRead?
    ensures i < ParseString(s, i).next <= |s|
  {
    hide CloseQuote, DecodeFrom;
  }

  // ----- values, members and what stands between them

  /** The value that is due behind `p` is there, and `c` is where the next thing stands. */
  ghost predicate ValueEnds(lib: CLib, s: bytes, p: nat, d: nat, c: nat) {
    exists v, k: nat, n: nat ::
      k <= |s| && n <= |s| && Skips(s, p, k) && ReadsAs(lib, v, s, k, n, d) && Skips(s, n, c)
  }

  /** The name that is due behind `p` is there, and `c` is where its colon should stand. */
  ghost predicate NameEnds(s: bytes, p: nat, c: nat) {
    exists q: nat, e: nat :: Skips(s, p, q) && StringEnds(s, q, e) && Skips(s, e, c)
  }

  ghost predicate ColonAt(s: bytes, p: nat, c: nat) {
    NameEnds(s, p, c) && p <= c < |s| && s[c] == COLON
  }

  ghost predicate ItemEnds(lib: CLib, s: bytes, p: nat, d: nat, members: bool, c: nat) {
    if members then exists colon: nat :: ColonAt(s, p, colon) && ValueEnds(lib, s, colon + 1, d, c)
    else ValueEnds(lib, s, p, d, c)
  }

  lemma ValueEndsIs(lib: CLib, s: bytes, p: nat, d: nat, c: nat)
    requires p <= |s|
    ensures
      var r := ParseValue(lib, s, SkipSpace(s, p), d);
      ValueEnds(lib, s, p, d, c) <==> r.Ok? && c == SkipSpace(s, r.next)
  {
    hide Skips, ReadsAs, ParseValue, SkipSpace;
    var r := ParseValue(lib, s, SkipSpace(s, p), d);
    if ValueEnds(lib, s, p, d, c) {
      var v, k: nat, n: nat :|
        k <= |s| && n <= |s| && Skips(s, p, k) && ReadsAs(lib, v, s, k, n, d) && Skips(s, n, c);
      SkipsExactly(s, p, k);
      ParsesExactly(lib, s, k, d, v, n);
      SkipsExactly(s, n, c);
    }
    if r.Ok? && c == SkipSpace(s, r.next) {
      SkipsExactly(s, p, SkipSpace(s, p));
      ParsesExactly(lib, s, SkipSpace(s, p), d, r.item, r.next);
      SkipsExactly(s, r.next, c);
    }
  }

  lemma NameEndsIs(s: bytes, p: nat, c: nat)
    requires p < |s|
    ensures
      var r := ParseString(s, SkipSpace(s, p));
      NameEnds(s, p, c) <==> r.StringRead? && c == SkipSpace(s, r.next)
  {
    hide Skips, StringEnds, ParseString, SkipSpace;
    var r := ParseString(s, SkipSpace(s, p));
    if NameEnds(s, p, c) {
      var q: nat, e: nat :| Skips(s, p, q) && StringEnds(s, q, e) && Skips(s, e, c);
      SkipsExactly(s, p, q);
      StringEndsIs(s, q, e);
      StringNext(s, q);
      SkipsExactly(s, e, c);
    }
    if r.StringRead? && c == SkipSpace(s, r.next) {
      SkipsExactly(s, p, SkipSpace(s, p));
      StringEndsIs(s, SkipSpace(s, p), r.next);
      StringNext(s, SkipSpace(s, p));
      SkipsExactly(s, r.next, c);
    }
  }

  lemma ColonAtIs(s: bytes, p: nat, c: nat)
    requires 0 < p <= |s|
    ensures ColonAt(s, p, c) <==> ParseName(s, p - 1).StringRead? && ParseName(s, p - 1).next == c
  {
    hide NameEnds, ParseString, SkipSpace;
    if p < |s| {
      NameEndsIs(s, p, c);
    }
  }

  // ----- the relation: where the parse of a value stops

  /** Nothing that starts at `i` can be a value, or it may not be one at this depth. */
  ghost predicate NoValue(lib: CLib, s: bytes, i: nat, d: nat) {
    || i == |s|
    || (i < |s| && NoStart(s, i))
    || (i < |s| && (s[i] == MINUS || IsDigit(s[i])) && NumberRefused(lib, s, i))
    || (i < |s| && (s[i] == OPEN_BRACKET || s[i] == OPEN_BRACE) && (d >= NESTING_LIMIT || i + 1 == |s|))
  }

  predicate NoStart(s: bytes, i: nat)
    requires i < |s|
  {
    && !At(s, i, NULL_TEXT) && !At(s, i, FALSE_TEXT) && !At(s, i, TRUE_TEXT)
    && s[i] != QUOTE && s[i] != MINUS && !IsDigit(s[i]) && s[i] != OPEN_BRACKET && s[i] != OPEN_BRACE
  }

  /** strtod takes nothing of the run of number bytes. */
  ghost predicate NumberRefused(lib: CLib, s: bytes, i: nat) {
    exists n :: i <= n <= |s| && AllNumberBytes(s[i..n]) && Delimited(s, n) && lib.strtod(s[i..n]).consumed == 0
  }

  function Closer(members: bool): byte {
    if members then CLOSE_BRACE else CLOSE_BRACKET
  }

  /**
   * In the container that opens at `i`, an element or member is due behind `p`:
   * at its start, or after complete ones with their commas.
   */
  ghost predicate Due(lib: CLib, s: bytes, i: nat, p: nat, d: nat, members: bool)
    decreases p
  {
    || p == i + 1
    || (i + 1 < p <= |s| && s[p - 1] == COMMA &&
        exists p' :: i < p' < p && Due(lib, s, i, p', d, members) && ItemEnds(lib, s, p', d, members, p - 1))
  }

  /** The container is empty, which is all right. */
  predicate Empty(s: bytes, i: nat, p: nat, k: nat, members: bool) {
    p == i + 1 && k < |s| && s[k] == Closer(members)
  }

  /** The parse of a value stops at `at`. */
  ghost predicate Stuck(lib: CLib, s: bytes, i: nat, d: nat, at: nat)
    requires i <= |s|
    decreases |s| - i, 2
  {
    || (at == i && NoValue(lib, s, i, d))
    || StringStuck(s, i, at)
    || (i + 1 < |s| && d < NESTING_LIMIT && s[i] == OPEN_BRACKET && StuckInside(lib, s, i, d + 1, false, at))
    || (i + 1 < |s| && d < NESTING_LIMIT && s[i] == OPEN_BRACE && StuckInside(lib, s, i, d + 1, true, at))
  }

  /** In an element or member that is due, or behind one. */
  ghost predicate StuckInside(lib: CLib, s: bytes, i: nat, d: nat, members: bool, at: nat)
    requires i < |s|
    decreases |s| - i, 1
  {
    exists p :: i < p <= |s| && Due(lib, s, i, p, d, members) &&
      (StuckItem(lib, s, i, p, d, members, at) || StuckBehind(lib, s, p, d, members, at))
  }

  ghost predicate StuckItem(lib: CLib, s: bytes, i: nat, p: nat, d: nat, members: bool, at: nat)
    requires i < p <= |s|
    decreases |s| - i, 0
  {
    if !members then
      exists k: nat :: p <= k <= |s| && Skips(s, p, k) && !Empty(s, i, p, k, members) && Stuck(lib, s, k, d, at)
    else
      || StuckName(s, i, p, at)
      || exists c: nat, k: nat :: p <= c < k <= |s| && ColonAt(s, p, c) && Skips(s, c + 1, k) && Stuck(lib, s, k, d, at)
  }

  /** The name of a member, or the colon behind it. */
  ghost predicate StuckName(s: bytes, i: nat, p: nat, at: nat) {
    || (p == |s| && at == p - 1)
    || (exists q: nat :: p <= q < |s| && Skips(s, p, q) && !Empty(s, i, p, q, true)
                         && ((s[q] != QUOTE && at == q + 1) || StringStuck(s, q, at)))
    || (NameEnds(s, p, at) && (at == |s| || (at < |s| && s[at] != COLON)))
  }

  /** Behind an element or member stands neither a comma nor the end of the container. */
  ghost predicate StuckBehind(lib: CLib, s: bytes, p: nat, d: nat, members: bool, at: nat) {
    ItemEnds(lib, s, p, d, members, at) && (at == |s| || (at < |s| && s[at] != COMMA && s[at] != Closer(members)))
  }

  // ----- every failure is described

  lemma {:induction false} ValueStuck(lib: CLib, s: bytes, i: nat, d: nat)
    requires i <= |s| && ParseValue(lib, s, i, d).Fail?
    ensures Stuck(lib, s, i, d, ParseValue(lib, s, i, d).at)
    decreases |s| - i, 3
  {
    hide ParseNumber, ParseString, ParseArray, ParseObject, StringStuck, NumberRefused, StuckInside, At;
    var at := ParseValue(lib, s, i, d).at;
    if i < |s| && !NoStart(s, i) {
      if s[i] == QUOTE {
        StringStuckIs(s, i, at);
      } else if s[i] == MINUS || IsDigit(s[i]) {
        RefusedIs(lib, s, i);
      } else if s[i] == OPEN_BRACKET {
        ArrayStuck(lib, s, i, d);
      } else {
        ObjectStuck(lib, s, i, d);
      }
    }
  }

  lemma RefusedIs(lib: CLib, s: bytes, i: nat)
    requires i <= |s|
    ensures NumberRefused(lib, s, i) <==> ParseNumber(lib, s, i) == Fail(i)
  {
    var n := NumberEnd(s, i);
    assert AllNumberBytes(s[i..n]) && Delimited(s, n);
    forall m | i <= m <= |s| && AllNumberBytes(s[i..m]) && Delimited(s, m) ensures m == n {
      forall k | i <= k < m ensures NumberByte(s[k]) {
        assert s[i..m][k - i] == s[k];
      }
    }
  }

  lemma {:induction false} ArrayStuck(lib: CLib, s: bytes, i: nat, d: nat)
    requires i < |s| && s[i] == OPEN_BRACKET && ParseArray(lib, s, i, d).Fail?
    ensures Stuck(lib, s, i, d, ParseArray(lib, s, i, d).at)
    decreases |s| - i, 2
  {
    hide ParseArray, ParseElements, StuckInside, StringStuck, SkipSpace;
    ArrayOpens(lib, s, i, d);
    if i + 1 < |s| && d < NESTING_LIMIT {
      ElementsStuck(lib, s, i, i + 1, d + 1, []);
    }
  }

  /** An array that is not empty is its elements, from the bracket on. */
  lemma ArrayOpens(lib: CLib, s: bytes, i: nat, d: nat)
    requires i < |s|
    ensures i + 1 == |s| || d >= NESTING_LIMIT ==> ParseArray(lib, s, i, d) == Fail(i)
    ensures i + 1 < |s| && d < NESTING_LIMIT ==>
      ParseArray(lib, s, i, d) ==
        if s[SkipSpace(s, i + 1)] == CLOSE_BRACKET then Ok(Array(None, []), SkipSpace(s, i + 1) + 1)
        else ParseElements(lib, s, i, d + 1, [])
  {
    hide ParseElements, ParseValue;
    if i + 1 < |s| {
      var j := SkipSpace(s, i + 1);
      SkipsOnce(s, i + 1);
      ElementsStep(lib, s, i, d + 1, []);
      ElementsStep(lib, s, j - 1, d + 1, []);
    }
  }

  lemma SkipsOnce(s: bytes, i: nat)
    requires i <= |s|
    ensures SkipSpace(s, SkipSpace(s, i)) == SkipSpace(s, i)
  {
  }

  lemma {:induction false} ElementsStuck(lib: CLib, s: bytes, i: nat, p: nat, d: nat, acc: seq<Item>)
    requires i < p <= |s| && Due(lib, s, i, p, d, false) && ParseElements(lib, s, p - 1, d, acc).Fail?
    requires p == i + 1 ==> p < |s| && s[SkipSpace(s, p)] != CLOSE_BRACKET
    ensures StuckInside(lib, s, i, d, false, ParseElements(lib, s, p - 1, d, acc).at)
    decreases |s| - p, 4
  {
    hide ParseElements, ParseValue, SkipSpace, Skips, ReadsAs, Due, ItemEnds, Stuck, StuckItem, StuckBehind;
    ElementsStep(lib, s, p - 1, d, acc);
    var k := SkipSpace(s, p);
    var r := ParseValue(lib, s, k, d);
    if r.Fail? {
      ValueStuck(lib, s, k, d);
      StuckElement(lib, s, i, p, k, d, r.at);
    } else {
      var c := SkipSpace(s, r.next);
      ElementEnds(lib, s, p, d, c);
      if c < |s| && s[c] == COMMA {
        DueNext(lib, s, i, p, c, d, false);
        ElementsStuck(lib, s, i, c + 1, d, acc + [r.item]);
      } else {
        StuckBehindIs(lib, s, p, d, false, c);
      }
    }
  }

  lemma StuckElement(lib: CLib, s: bytes, i: nat, p: nat, k: nat, d: nat, at: nat)
    requires i < p <= |s| && k == SkipSpace(s, p) && Stuck(lib, s, k, d, at)
    requires p == i + 1 ==> p < |s| && s[k] != CLOSE_BRACKET
    ensures StuckItem(lib, s, i, p, d, false, at)
  {
    hide Stuck, SkipSpace, Skips;
    SkipsExactly(s, p, k);
  }

  lemma ElementEnds(lib: CLib, s: bytes, p: nat, d: nat, c: nat)
    requires p <= |s|
    ensures
      var r := ParseValue(lib, s, SkipSpace(s, p), d);
      ItemEnds(lib, s, p, d, false, c) <==> r.Ok? && c == SkipSpace(s, r.next)
  {
    hide ValueEnds, ParseValue, SkipSpace;
    ValueEndsIs(lib, s, p, d, c);
  }

  lemma DueNext(lib: CLib, s: bytes, i: nat, p: nat, c: nat, d: nat, members: bool)
    requires i < p <= c < |s| && Due(lib, s, i, p, d, members) && ItemEnds(lib, s, p, d, members, c) && s[c] == COMMA
    ensures Due(lib, s, i, c + 1, d, members)
  {
    hide ItemEnds;
  }

  lemma StuckBehindIs(lib: CLib, s: bytes, p: nat, d: nat, members: bool, c: nat)
    requires ItemEnds(lib, s, p, d, members, c) && (c == |s| || (c < |s| && s[c] != COMMA && s[c] != Closer(members)))
    ensures StuckBehind(lib, s, p, d, members, c)
  {
    hide ItemEnds;
  }

  // members

  lemma {:induction false} ObjectStuck(lib: CLib, s: bytes, i: nat, d: nat)
    requires i < |s| && s[i] == OPEN_BRACE && ParseObject(lib, s, i, d).Fail?
    ensures Stuck(lib, s, i, d, ParseObject(lib, s, i, d).at)
    decreases |s| - i, 2
  {
    hide ParseObject, ParseMembers, StuckInside, StringStuck, SkipSpace;
    ObjectOpens(lib, s, i, d);
    if i + 1 < |s| && d < NESTING_LIMIT {
      MembersStuck(lib, s, i, i + 1, d + 1, []);
    }
  }

  lemma ObjectOpens(lib: CLib, s: bytes, i: nat, d: nat)
    requires i < |s|
    ensures i + 1 == |s| || d >= NESTING_LIMIT ==> ParseObject(lib, s, i, d) == Fail(i)
    ensures i + 1 < |s| && d < NESTING_LIMIT ==>
      ParseObject(lib, s, i, d) ==
        if s[SkipSpace(s, i + 1)] == CLOSE_BRACE then Ok(Object(None, []), SkipSpace(s, i + 1) + 1)
        else ParseMembers(lib, s, i, d + 1, [])
  {
    hide ParseMembers, SkipSpace;
    if i + 1 < |s| {
      SameMembers(lib, s, i, SkipSpace(s, i + 1), d + 1);
    }
  }

  lemma SameMembers(lib: CLib, s: bytes, i: nat, j: nat, d: nat)
    requires i + 1 < |s| && j == SkipSpace(s, i + 1)
    ensures ParseMembers(lib, s, j - 1, d, []) == ParseMembers(lib, s, i, d, [])
  {
    hide ParseMembers, ParseValue, ParseName, SkipSpace;
    NameOnce(s, i, j);
    MembersStep(lib, s, i, d, []);
    MembersStep(lib, s, j - 1, d, []);
  }

  lemma NameOnce(s: bytes, i: nat, j: nat)
    requires i + 1 < |s| && j == SkipSpace(s, i + 1)
    ensures ParseName(s, j - 1) == ParseName(s, i)
  {
    hide ParseString, SkipSpace;
    SkipsOnce(s, i + 1);
  }

  lemma {:induction false} MembersStuck(lib: CLib, s: bytes, i: nat, p: nat, d: nat, acc: seq<Item>)
    requires i < p <= |s| && Due(lib, s, i, p, d, true) && ParseMembers(lib, s, p - 1, d, acc).Fail?
    requires p == i + 1 ==> p < |s| && s[SkipSpace(s, p)] != CLOSE_BRACE
    ensures StuckInside(lib, s, i, d, true, ParseMembers(lib, s, p - 1, d, acc).at)
    decreases |s| - p, 4
  {
    hide ParseMembers, ParseName, ParseValue, SkipSpace, Due, ItemEnds, Stuck, StuckItem, StuckBehind, StuckName;
    hide WithKey, Bytes.CString;
    MembersStep(lib, s, p - 1, d, acc);
    if ParseName(s, p - 1).NoString? {
      NameStuck(s, i, p);
      StuckAtName(lib, s, i, p, d, ParseName(s, p - 1).at);
    } else {
      var colon := ParseName(s, p - 1).next;
      var k := SkipSpace(s, colon + 1);
      var r := ParseValue(lib, s, k, d);
      if r.Fail? {
        ValueStuck(lib, s, k, d);
        StuckMember(lib, s, i, p, colon, k, d, r.at);
      } else {
        var c := SkipSpace(s, r.next);
        MemberEnds(lib, s, p, d, c);
        if c < |s| && s[c] == COMMA {
          DueNext(lib, s, i, p, c, d, true);
          var member := WithKey(r.item, Some(Bytes.CString(ParseName(s, p - 1).text)));
          MembersStuck(lib, s, i, c + 1, d, acc + [member]);
        } else {
          StuckBehindIs(lib, s, p, d, true, c);
        }
      }
    }
  }

  lemma NameStuck(s: bytes, i: nat, p: nat)
    requires i < p <= |s| && ParseName(s, p - 1).NoString?
    requires p == i + 1 ==> p < |s| && s[SkipSpace(s, p)] != CLOSE_BRACE
    ensures StuckName(s, i, p, ParseName(s, p - 1).at)
  {
    hide ParseString, SkipSpace, Skips, StringStuck, NameEnds;
    if p < |s| {
      var q := SkipSpace(s, p);
      SkipsExactly(s, p, q);
      NotAQuote(s, q);
      if s[q] == QUOTE {
        StringStuckIs(s, q, ParseName(s, p - 1).at);
      }
      NameEndsIs(s, p, ParseName(s, p - 1).at);
    }
  }

  lemma NotAQuote(s: bytes, q: nat)
    requires q < |s|
    ensures s[q] != QUOTE ==> ParseString(s, q) == NoString(q + 1)
  {
    hide CloseQuote, DecodeFrom;
  }

  lemma StuckAtName(lib: CLib, s: bytes, i: nat, p: nat, d: nat, at: nat)
    requires i < p <= |s| && StuckName(s, i, p, at)
    ensures StuckItem(lib, s, i, p, d, true, at)
  {
    hide StuckName;
  }

  lemma StuckMember(lib: CLib, s: bytes, i: nat, p: nat, colon: nat, k: nat, d: nat, at: nat)
    requires i < p <= |s| && ParseName(s, p - 1).StringRead? && colon == ParseName(s, p - 1).next
    requires k == SkipSpace(s, colon + 1) && Stuck(lib, s, k, d, at)
    ensures StuckItem(lib, s, i, p, d, true, at)
  {
    hide Stuck, SkipSpace, Skips, ParseName, ColonAt, StuckName;
    ColonAtIs(s, p, colon);
    SkipsExactly(s, colon + 1, k);
  }

  lemma MemberEnds(lib: CLib, s: bytes, p: nat, d: nat, c: nat)
    requires 0 < p <= |s|
    ensures
      ItemEnds(lib, s, p, d, true, c) <==>
        ParseName(s, p - 1).StringRead? &&
        var r := ParseValue(lib, s, SkipSpace(s, ParseName(s, p - 1).next + 1), d);
        r.Ok? && c == SkipSpace(s, r.next)
  {
    hide ValueEnds, ParseValue, ParseName, SkipSpace, ColonAt;
    if ItemEnds(lib, s, p, d, true, c) {
      var colon: nat :| ColonAt(s, p, colon) && ValueEnds(lib, s, colon + 1, d, c);
      ColonAtIs(s, p, colon);
      ValueEndsIs(lib, s, colon + 1, d, c);
    }
    if ParseName(s, p - 1).StringRead? {
      var colon := ParseName(s, p - 1).next;
      ColonAtIs(s, p, colon);
      ValueEndsIs(lib, s, colon + 1, d, c);
    }
  }

  // ----- and what is described is a failure

  /** The loops get to every place where an element or a member is due. */
  lemma {:induction false} ElementsReach(lib: CLib, s: bytes, i: nat, p: nat, d: nat)
    returns (acc: seq<Item>, first: nat)
    requires i < p <= |s| && Due(lib, s, i, p, d, false)
    ensures ParseElements(lib, s, i, d, []) == ParseElements(lib, s, p - 1, d, acc)
    ensures p > i + 1 ==> ItemEnds(lib, s, i + 1, d, false, first)
    decreases p
  {
    hide ParseElements, ParseValue, SkipSpace, ItemEnds;
    if p == i + 1 {
      acc, first := [], 0;
    } else {
      var p' :| i < p' < p && Due(lib, s, i, p', d, false) && ItemEnds(lib, s, p', d, false, p - 1);
      var before;
      before, first := ElementsReach(lib, s, i, p', d);
      if p' == i + 1 {
        first := p - 1;
      }
      ElementEnds(lib, s, p', d, p - 1);
      ElementsStep(lib, s, p' - 1, d, before);
      acc := before + [ParseValue(lib, s, SkipSpace(s, p'), d).item];
    }
  }

  lemma {:induction false} MembersReach(lib: CLib, s: bytes, i: nat, p: nat, d: nat)
    returns (acc: seq<Item>, first: nat)
    requires i < p <= |s| && Due(lib, s, i, p, d, true)
    ensures ParseMembers(lib, s, i, d, []) == ParseMembers(lib, s, p - 1, d, acc)
    ensures p > i + 1 ==> ItemEnds(lib, s, i + 1, d, true, first)
    decreases p
  {
    hide ParseMembers, ParseName, ParseValue, SkipSpace, ItemEnds, WithKey, Bytes.CString;
    if p == i + 1 {
      acc, first := [], 0;
    } else {
      var p' :| i < p' < p && Due(lib, s, i, p', d, true) && ItemEnds(lib, s, p', d, true, p - 1);
      var before;
      before, first := MembersReach(lib, s, i, p', d);
      if p' == i + 1 {
        first := p - 1;
      }
      MemberEnds(lib, s, p', d, p - 1);
      MembersStep(lib, s, p' - 1, d, before);
      var r := ParseValue(lib, s, SkipSpace(s, ParseName(s, p' - 1).next + 1), d);
      acc := before + [WithKey(r.item, Some(Bytes.CString(ParseName(s, p' - 1).text)))];
    }
  }

  lemma {:induction false} StuckFails(lib: CLib, s: bytes, i: nat, d: nat, at: nat)
    requires i <= |s| && Stuck(lib, s, i, d, at)
    ensures ParseValue(lib, s, i, d) == Fail(at)
    decreases |s| - i, 3
  {
    hide ParseNumber, ParseString, ParseArray, ParseObject, StringStuck, NumberRefused, StuckInside, At;
    if at == i && NoValue(lib, s, i, d) {
      NoValueFails(lib, s, i, d);
    } else if StringStuck(s, i, at) {
      StringFails(lib, s, i, d, at);
    } else {
      NotALiteral(s, i);
      if s[i] == OPEN_BRACKET {
        ArrayFails(lib, s, i, d, at);
      } else {
        ObjectFails(lib, s, i, d, at);
      }
    }
  }

  lemma NoValueFails(lib: CLib, s: bytes, i: nat, d: nat)
    requires i <= |s| && NoValue(lib, s, i, d)
    ensures ParseValue(lib, s, i, d) == Fail(i)
  {
    hide ParseNumber, ParseString, ParseArray, ParseObject, NumberRefused, At;
    if i < |s| && !NoStart(s, i) {
      NotALiteral(s, i);
      if s[i] == MINUS || IsDigit(s[i]) {
        RefusedIs(lib, s, i);
      } else {
        ArrayOpens(lib, s, i, d);
        ObjectOpens(lib, s, i, d);
      }
    } else if i == |s| {
      NothingAtEnd(s);
    }
  }

  lemma NothingAtEnd(s: bytes)
    ensures !At(s, |s|, NULL_TEXT) && !At(s, |s|, FALSE_TEXT) && !At(s, |s|, TRUE_TEXT)
  {
  }

  lemma StringFails(lib: CLib, s: bytes, i: nat, d: nat, at: nat)
    requires StringStuck(s, i, at)
    ensures i < |s| && ParseValue(lib, s, i, d) == Fail(at)
  {
    hide ParseString, At, StuckInString;
    NotALiteral(s, i);
    StringStuckIs(s, i, at);
  }

  lemma {:induction false} ArrayFails(lib: CLib, s: bytes, i: nat, d: nat, at: nat)
    requires i + 1 < |s| && d < NESTING_LIMIT && s[i] == OPEN_BRACKET && StuckInside(lib, s, i, d + 1, false, at)
    ensures ParseArray(lib, s, i, d) == Fail(at)
    decreases |s| - i, 2
  {
    hide ParseArray, ParseElements, ParseValue, SkipSpace, Due, ItemEnds, StuckItem, StuckBehind;
    ArrayOpens(lib, s, i, d);
    var p :| i < p <= |s| && Due(lib, s, i, p, d + 1, false) &&
      (StuckItem(lib, s, i, p, d + 1, false, at) || StuckBehind(lib, s, p, d + 1, false, at));
    var acc, first := ElementsReach(lib, s, i, p, d + 1);
    ElementFails(lib, s, i, p, d + 1, at, acc);
    if p > i + 1 {
      ElementEnds(lib, s, i + 1, d + 1, first);
      if s[SkipSpace(s, i + 1)] == CLOSE_BRACKET {
        NothingCloses(lib, s, SkipSpace(s, i + 1), d + 1);
      }
    }
  }

  lemma NothingCloses(lib: CLib, s: bytes, k: nat, d: nat)
    requires k < |s| && (s[k] == CLOSE_BRACKET || s[k] == CLOSE_BRACE)
    ensures ParseValue(lib, s, k, d).Fail? && ParseString(s, k).NoString?
  {
    hide At, CloseQuote, DecodeFrom;
    NoWordCloses(s, k);
  }

  lemma NoWordCloses(s: bytes, k: nat)
    requires k < |s| && (s[k] == CLOSE_BRACKET || s[k] == CLOSE_BRACE)
    ensures !At(s, k, NULL_TEXT) && !At(s, k, FALSE_TEXT) && !At(s, k, TRUE_TEXT)
  {
    forall t: bytes | t != [] && At(s, k, t) ensures t[0] == s[k] {
      AtByte(s, k, t, 0);
    }
  }

  lemma {:induction false} ElementFails(lib: CLib, s: bytes, i: nat, p: nat, d: nat, at: nat, acc: seq<Item>)
    requires i < p <= |s|
    requires StuckItem(lib, s, i, p, d, false, at) || StuckBehind(lib, s, p, d, false, at)
    ensures ParseElements(lib, s, p - 1, d, acc) == Fail(at)
    ensures p == i + 1 && p < |s| ==> s[SkipSpace(s, p)] != CLOSE_BRACKET
    decreases |s| - i, 1
  {
    hide ParseElements, ParseValue, SkipSpace, Skips, ItemEnds, Stuck;
    ElementsStep(lib, s, p - 1, d, acc);
    if StuckItem(lib, s, i, p, d, false, at) {
      var k: nat :| p <= k <= |s| && Skips(s, p, k) && !Empty(s, i, p, k, false) && Stuck(lib, s, k, d, at);
      SkipsExactly(s, p, k);
      StuckFails(lib, s, k, d, at);
    } else {
      ElementEnds(lib, s, p, d, at);
      if SkipSpace(s, p) < |s| && s[SkipSpace(s, p)] == CLOSE_BRACKET {
        NothingCloses(lib, s, SkipSpace(s, p), d);
      }
    }
  }

  lemma {:induction false} ObjectFails(lib: CLib, s: bytes, i: nat, d: nat, at: nat)
    requires i + 1 < |s| && d < NESTING_LIMIT && s[i] == OPEN_BRACE && StuckInside(lib, s, i, d + 1, true, at)
    ensures ParseObject(lib, s, i, d) == Fail(at)
    decreases |s| - i, 2
  {
    hide ParseObject, ParseMembers, ParseValue, ParseName, SkipSpace, Due, ItemEnds, StuckItem, StuckBehind;
    ObjectOpens(lib, s, i, d);
    var p :| i < p <= |s| && Due(lib, s, i, p, d + 1, true) &&
      (StuckItem(lib, s, i, p, d + 1, true, at) || StuckBehind(lib, s, p, d + 1, true, at));
    var acc, first := MembersReach(lib, s, i, p, d + 1);
    MemberFails(lib, s, i, p, d + 1, at, acc);
    if p > i + 1 {
      MemberEnds(lib, s, i + 1, d + 1, first);
      NameStarts(s, i + 1);
    }
  }

  lemma NameStarts(s: bytes, p: nat)
    requires 0 < p <= |s|
    requires ParseName(s, p - 1).StringRead? || (p < |s| && ParseString(s, SkipSpace(s, p)).StringRead?)
    ensures p < |s| && s[SkipSpace(s, p)] == QUOTE
  {
    hide CloseQuote, DecodeFrom, SkipSpace;
  }

  lemma {:induction false} MemberFails(lib: CLib, s: bytes, i: nat, p: nat, d: nat, at: nat, acc: seq<Item>)
    requires i < p <= |s|
    requires StuckItem(lib, s, i, p, d, true, at) || StuckBehind(lib, s, p, d, true, at)
    ensures ParseMembers(lib, s, p - 1, d, acc) == Fail(at)
    ensures p == i + 1 && p < |s| ==> s[SkipSpace(s, p)] != CLOSE_BRACE
    decreases |s| - i, 1
  {
    hide ParseMembers, ParseValue, ParseName, SkipSpace, Skips, ItemEnds, Stuck, StuckName, ColonAt, NameEnds;
    MembersStep(lib, s, p - 1, d, acc);
    if StuckBehind(lib, s, p, d, true, at) {
      MemberEnds(lib, s, p, d, at);
      NameStarts(s, p);
    } else if StuckName(s, i, p, at) {
      NameFails(s, i, p, at);
    } else {
      var c: nat, k: nat :|
        p <= c < k <= |s| && ColonAt(s, p, c) && Skips(s, c + 1, k) && Stuck(lib, s, k, d, at);
      ColonAtIs(s, p, c);
      NameStarts(s, p);
      SkipsExactly(s, c + 1, k);
      StuckFails(lib, s, k, d, at);
    }
  }

  lemma NameFails(s: bytes, i: nat, p: nat, at: nat)
    requires i < p <= |s| && StuckName(s, i, p, at)
    ensures ParseName(s, p - 1) == NoString(at)
    ensures p == i + 1 && p < |s| ==> s[SkipSpace(s, p)] != CLOSE_BRACE
  {
    hide ParseString, SkipSpace, Skips, StuckInString, NameEnds;
    if p < |s| {
      if NameEnds(s, p, at) && (at == |s| || (at < |s| && s[at] != COLON)) {
        NameEndsIs(s, p, at);
        NameStarts(s, p);
      } else {
        var q: nat :| p <= q < |s| && Skips(s, p, q) && !Empty(s, i, p, q, true)
                      && ((s[q] != QUOTE && at == q + 1) || StringStuck(s, q, at));
        SkipsExactly(s, p, q);
        NotAQuote(s, q);
        if StringStuck(s, q, at) {
          StringStuckIs(s, q, at);
        }
      }
    } else {
      NoNameAtEnd(s, at);
    }
  }

  lemma NoNameAtEnd(s: bytes, c: nat)
    ensures !NameEnds(s, |s|, c)
  {
  }

  // ----- main results

  /** Where the parse of a value stops, for any bytes: the relation says it exactly. */
  lemma StopsExactly(lib: CLib, s: bytes, i: nat, d: nat, at: nat)
    requires i <= |s|
    ensures ParseValue(lib, s, i, d) == Fail(at) <==> Stuck(lib, s, i, d, at)
  {
    hide ParseValue, Stuck;
    if ParseValue(lib, s, i, d) == Fail(at) {
      ValueStuck(lib, s, i, d);
    }
    if Stuck(lib, s, i, d, at) {
      StuckFails(lib, s, i, d, at);
    }
  }
}
