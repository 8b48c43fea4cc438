/** The parser behind other bytes: it finds the same things, at offsets that have moved. */
module MovedTexts {
  import opened Bytes
  import opened CLibrary
  import opened Items
  import opened Utf8
  import opened StringParser
  import opened Parser
  import opened Language
  import opened ErrorReports

  function Shifted(r: Parsed, n: nat): Parsed {
    match r
    case Ok(item, next) => Ok(item, n + next)
    case Fail(at) => Fail(n + at)
  }

  function MovedString(r: StringResult, n: nat): StringResult {
    match r
    case StringRead(text, next) => StringRead(text, n + next)
    case NoString(at) => NoString(n + at)
  }

  // ----- bytes, white space and numbers

  lemma MovedAt(w: bytes, s: bytes, i: nat, t: bytes)
    requires i <= |s|
    ensures At(w + s, |w| + i, t) <==> At(s, i, t)
  {
    if i + |t| <= |s| {
      assert (w + s)[|w| + i..|w| + i + |t|] == s[i..i + |t|];
    }
  }

  lemma {:induction false} MovedSpaceEnd(w: bytes, s: bytes, i: nat)
    requires i <= |s|
    ensures SpaceEnd(w + s, |w| + i) == |w| + SpaceEnd(s, i)
    decreases |s| - i
  {
    if i < |s| {
      assert (w + s)[|w| + i] == s[i];
      MovedSpaceEnd(w, s, i + 1);
    }
  }

  lemma MovedSpace(w: bytes, s: bytes, i: nat)
    requires i <= |s|
    ensures SkipSpace(w + s, |w| + i) == |w| + SkipSpace(s, i)
  {
    hide SpaceEnd;
    MovedSpaceEnd(w, s, i);
  }

  lemma {:induction false} MovedNumberEnd(w: bytes, s: bytes, i: nat)
    requires i <= |s|
    ensures NumberEnd(w + s, |w| + i) == |w| + NumberEnd(s, i)
    decreases |s| - i
  {
    if i < |s| {
      assert (w + s)[|w| + i] == s[i];
      MovedNumberEnd(w, s, i + 1);
    }
  }

  lemma MovedNumber(lib: CLib, w: bytes, s: bytes, i: nat)
    requires i <= |s|
    ensures ParseNumber(lib, w + s, |w| + i) == Shifted(ParseNumber(lib, s, i), |w|)
  {
    hide NumberEnd;
    MovedNumberEnd(w, s, i);
    assert (w + s)[|w| + i..|w| + NumberEnd(s, i)] == s[i..NumberEnd(s, i)];
  }

  // ----- strings

  lemma {:induction false} MovedQuote(w: bytes, s: bytes, i: nat)
    ensures CloseQuote(w + s, |w| + i) ==
      match CloseQuote(s, i) case None => None case Some(e) => Some(|w| + e)
    decreases |s| - i
  {
    if i < |s| {
      assert (w + s)[|w| + i] == s[i];
      if s[i] == BACKSLASH {
        if i + 1 < |s| {
          MovedQuote(w, s, i + 2);
        }
      } else if s[i] != QUOTE {
        MovedQuote(w, s, i + 1);
      }
    }
  }

  lemma MovedHex(w: bytes, s: bytes, i: nat)
    requires i + 4 <= |s|
    ensures Hex4(w + s, |w| + i) == Hex4(s, i)
  {
    hide HexValue;
    assert forall k :: 0 <= k < |s| ==> (w + s)[|w| + k] == s[k];
  }

  lemma MovedLiteral(w: bytes, s: bytes, p: nat, end: nat)
    requires end <= |s|
    ensures LiteralAt(w + s, |w| + p, |w| + end) == LiteralAt(s, p, end)
  {
    hide Hex4, FromSurrogates;
    if p + 6 <= end {
      MovedHex(w, s, p + 2);
      if p + 12 <= end {
        MovedHex(w, s, p + 8);
        assert (w + s)[|w| + p + 6] == s[p + 6] && (w + s)[|w| + p + 7] == s[p + 7];
      }
    }
  }

  lemma {:induction false} MovedDecoding(w: bytes, s: bytes, p: nat, end: nat, acc: bytes)
    requires end < |s|
    ensures DecodeFrom(w + s, |w| + p, |w| + end, acc) ==
      match DecodeFrom(s, p, end, acc) case Unescaped(text) => Unescaped(text) case BadAt(at) => BadAt(|w| + at)
    decreases |s| - p
  {
    hide LiteralAt, Encode, Unescape, DecodeFrom;
    if p >= end {
      NothingToDecode(s, p, end, acc);
      NothingToDecode(w + s, |w| + p, |w| + end, acc);
    } else {
      assert (w + s)[|w| + p] == s[p] && (w + s)[|w| + p + 1] == s[p + 1];
      DecodeOne(s, p, end, acc);
      DecodeOne(w + s, |w| + p, |w| + end, acc);
      MovedLiteral(w, s, p, end);
      if s[p] != BACKSLASH {
        MovedDecoding(w, s, p + 1, end, acc + [s[p]]);
      } else if Unescape(s[p + 1]).Some? {
        MovedDecoding(w, s, p + 2, end, acc + [Unescape(s[p + 1]).value]);
      } else if s[p + 1] == LETTER_U && LiteralAt(s, p, end).Good? {
        var l := LiteralAt(s, p, end);
        MovedDecoding(w, s, p + l.length, end, acc + Encode(l.codepoint));
      }
    }
  }

  lemma NothingToDecode(s: bytes, p: nat, end: nat, acc: bytes)
    requires end <= p && end < |s|
    ensures DecodeFrom(s, p, end, acc) == Unescaped(acc)
  {
  }

  lemma MovedStrings(w: bytes, s: bytes, i: nat)
    requires i < |s|
    ensures ParseString(w + s, |w| + i) == MovedString(ParseString(s, i), |w|)
  {
    hide CloseQuote, DecodeFrom;
    assert (w + s)[|w| + i] == s[i];
    MovedQuote(w, s, i + 1);
    if CloseQuote(s, i + 1).Some? {
      MovedDecoding(w, s, i + 1, CloseQuote(s, i + 1).value, []);
    }
  }

  lemma MovedName(w: bytes, s: bytes, i: nat)
    requires i < |s|
    ensures ParseName(w + s, |w| + i) == MovedString(ParseName(s, i), |w|)
  {
    hide ParseString, SkipSpace;
    if i + 1 < |s| {
      MovedSpace(w, s, i + 1);
      MovedStrings(w, s, SkipSpace(s, i + 1));
      var r := ParseString(s, SkipSpace(s, i + 1));
      if r.StringRead? {
        NextIsInside(s, SkipSpace(s, i + 1));
        MovedSpace(w, s, r.next);
        var j := SkipSpace(s, r.next);
        assert j < |s| ==> (w + s)[|w| + j] == s[j];
      }
    }
  }

  lemma NextIsInside(s: bytes, i: nat)
    requires i < |s| && ParseString(s, i).StringRead?
    ensures ParseString(s, i).next <= |s|
  {
    hide CloseQuote, DecodeFrom;
  }

  // ----- values

  lemma MovedByte(w: bytes, s: bytes, j: nat)
    requires j < |s|
    ensures (w + s)[|w| + j] == s[j]
  {
  }

  /** The next thing behind the white space. */
  lemma MovedNext(w: bytes, s: bytes, i: nat)
    requires i <= |s|
    ensures SkipSpace(w + s, |w| + i) == |w| + SkipSpace(s, i)
    ensures SkipSpace(s, i) < |s| ==> (w + s)[|w| + SkipSpace(s, i)] == s[SkipSpace(s, i)]
  {
    hide SkipSpace;
    MovedSpace(w, s, i);
  }

  lemma {:induction false} MovedValue(lib: CLib, w: bytes, s: bytes, i: nat, d: nat)
    requires i <= |s|
    ensures ParseValue(lib, w + s, |w| + i, d) == Shifted(ParseValue(lib, s, i, d), |w|)
    decreases |s| - i, 3
  {
    hide ParseNumber, ParseString, ParseArray, ParseObject, At;
    MovedAt(w, s, i, NULL_TEXT);
    MovedAt(w, s, i, FALSE_TEXT);
    MovedAt(w, s, i, TRUE_TEXT);
    if i < |s| {
      assert (w + s)[|w| + i] == s[i];
      MovedStrings(w, s, i);
      MovedNumber(lib, w, s, i);
      MovedArray(lib, w, s, i, d);
      MovedObject(lib, w, s, i, d);
    }
  }

  lemma {:induction false} MovedArray(lib: CLib, w: bytes, s: bytes, i: nat, d: nat)
    requires i < |s|
    ensures ParseArray(lib, w + s, |w| + i, d) == Shifted(ParseArray(lib, s, i, d), |w|)
    decreases |s| - i, 2
  {
    hide ParseElements, SkipSpace;
    MovedSpace(w, s, i + 1);
    var j := SkipSpace(s, i + 1);
    if j < |s| {
      assert (w + s)[|w| + j] == s[j];
      MovedElements(lib, w, s, j - 1, d + 1, []);
    }
  }

  lemma {:induction false} MovedElements(lib: CLib, w: bytes, s: bytes, i: nat, d: nat, acc: seq<Item>)
    requires i < |s|
    ensures ParseElements(lib, w + s, |w| + i, d, acc) == Shifted(ParseElements(lib, s, i, d, acc), |w|)
    decreases |s| - i, 1
  {
    hide ParseElements, ParseValue, SkipSpace;
    ElementsStep(lib, s, i, d, acc);
    ElementsStep(lib, w + s, |w| + i, d, acc);
    MovedSpace(w, s, i + 1);
    var k := SkipSpace(s, i + 1);
    MovedValue(lib, w, s, k, d);
    var r := ParseValue(lib, s, k, d);
    if r.Ok? {
      MovedSpace(w, s, r.next);
      var j := SkipSpace(s, r.next);
      if j < |s| {
        MovedByte(w, s, j);
        if s[j] == COMMA {
          MovedElements(lib, w, s, j, d, acc + [r.item]);
        }
      }
    }
  }

  lemma {:induction false} MovedObject(lib: CLib, w: bytes, s: bytes, i: nat, d: nat)
    requires i < |s|
    ensures ParseObject(lib, w + s, |w| + i, d) == Shifted(ParseObject(lib, s, i, d), |w|)
    decreases |s| - i, 2
  {
    hide ParseMembers, SkipSpace;
    MovedSpace(w, s, i + 1);
    var j := SkipSpace(s, i + 1);
    if j < |s| {
      assert (w + s)[|w| + j] == s[j];
      MovedMembers(lib, w, s, j - 1, d + 1, []);
    }
  }

  lemma {:induction false} MovedMembers(lib: CLib, w: bytes, s: bytes, i: nat, d: nat, acc: seq<Item>)
    requires i < |s|
    ensures ParseMembers(lib, w + s, |w| + i, d, acc) == Shifted(ParseMembers(lib, s, i, d, acc), |w|)
    decreases |s| - i, 1
  {
    hide ParseMembers, ParseName, ParseValue, SkipSpace, WithKey, Bytes.CString;
    MembersStep(lib, s, i, d, acc);
    MembersStep(lib, w + s, |w| + i, d, acc);
    MovedName(w, s, i);
    var name := ParseName(s, i);
    if name.StringRead? {
      MovedSpace(w, s, name.next + 1);
      var k := SkipSpace(s, name.next + 1);
      MovedValue(lib, w, s, k, d);
      var r := ParseValue(lib, s, k, d);
      if r.Ok? {
        MovedNext(w, s, r.next);
        var j := SkipSpace(s, r.next);
        if j < |s| && s[j] == COMMA {
          MovedMembers(lib, w, s, j, d, acc + [WithKey(r.item, Some(Bytes.CString(name.text)))]);
        }
      }
    }
  }

  // ----- main result

  /** White space in front moves what is found, and the position of an error, by its length. */
  lemma SpaceInFront(lib: CLib, w: bytes, s: bytes, requireNul: bool)
    requires Gap(w) && s != [] && s[0] > 32 && SkipBom(s) == 0
    ensures ParseText(lib, w + s, requireNul) == Shifted(ParseText(lib, s, requireNul), |w|)
  {
    hide ParseValue, SkipSpace, SkipBom;
    NoMarkBehind(w, s);
    MovedValue(lib, w, s, 0, 0);
    SpaceSkipped(w, s);
    var r := ParseValue(lib, s, 0, 0);
    if r.Ok? {
      MovedSpace(w, s, r.next);
      var j := SkipSpace(s, r.next);
      assert j < |s| ==> (w + s)[|w| + j] == s[j];
    }
  }

  lemma SpaceSkipped(w: bytes, s: bytes)
    requires Gap(w) && s != [] && s[0] > 32
    ensures SkipSpace(w + s, 0) == |w| && SkipSpace(s, 0) == 0
  {
    GapBefore([], w, s);
    assert [] + w + s == w + s && [] + w == w;
    GapBefore([], [], s);
    assert [] + [] + s == s;
  }

  lemma NoMarkBehind(w: bytes, s: bytes)
    requires Gap(w) && s != [] && SkipBom(s) == 0
    ensures SkipBom(w + s) == 0
  {
    if w == [] {
      assert w + s == s;
    } else {
      NoMark(w + s);
    }
  }
}
