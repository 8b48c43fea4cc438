/** What every tree that comes out of the parser is fit for, whatever the text was. */
module ParsedTrees {
  import opened Bytes
  import opened CLibrary
  import opened Items
  import opened StringParser
  import opened Parser
  import opened RoundTrip
  import Compare
  import Duplicate

  /** Only JSON kinds, strings with a text, names exactly on members, and nested no deeper than the limit. */
  predicate FromParser(item: Item, depth: nat)
    decreases item
  {
    match item
    case Invalid(_) => false
    case Raw(_, _) => false
    case String(_, text) => text.Some?
    case Array(_, kids) => depth < NESTING_LIMIT && forall k :: k in kids ==> k.key.None? && FromParser(k, depth + 1)
    case Object(_, kids) => depth < NESTING_LIMIT && forall k :: k in kids ==> k.key.Some? && FromParser(k, depth + 1)
    case _ => true
  }

  lemma {:induction false} ParsedValue(lib: CLib, s: bytes, i: nat, d: nat)
    requires i <= |s| && ParseValue(lib, s, i, d).Ok?
    ensures FromParser(ParseValue(lib, s, i, d).item, d)
    decreases |s| - i, 3
  {
    hide At, ParseString, SkipSpace, ParseElements, ParseMembers;
    if i < |s| && ParseValue(lib, s, i, d) == ParseArray(lib, s, i, d) && ParseArray(lib, s, i, d).Ok? {
      var j := SkipSpace(s, i + 1);
      if s[j] != CLOSE_BRACKET {
        ParsedElements(lib, s, j - 1, d + 1, []);
      }
    }
    if i < |s| && ParseValue(lib, s, i, d) == ParseObject(lib, s, i, d) && ParseObject(lib, s, i, d).Ok? {
      var j := SkipSpace(s, i + 1);
      if s[j] != CLOSE_BRACE {
        ParsedMembers(lib, s, j - 1, d + 1, []);
      }
    }
  }

  lemma {:induction false} ParsedElements(lib: CLib, s: bytes, i: nat, d: nat, acc: seq<Item>)
    requires i < |s| && 0 < d <= NESTING_LIMIT && ParseElements(lib, s, i, d, acc).Ok?
    requires forall k :: k in acc ==> k.key.None? && FromParser(k, d)
    ensures FromParser(ParseElements(lib, s, i, d, acc).item, d - 1)
    decreases |s| - i, 1
  {
    hide ParseValue, SkipSpace;
    ParsedValue(lib, s, SkipSpace(s, i + 1), d);
    var r := ParseValue(lib, s, SkipSpace(s, i + 1), d);
    var j := SkipSpace(s, r.next);
    if s[j] == COMMA {
      ParsedElements(lib, s, j, d, acc + [r.item]);
    }
  }

  lemma {:induction false} ParsedMembers(lib: CLib, s: bytes, i: nat, d: nat, acc: seq<Item>)
    requires i < |s| && 0 < d <= NESTING_LIMIT && ParseMembers(lib, s, i, d, acc).Ok?
    requires forall k :: k in acc ==> k.key.Some? && FromParser(k, d)
    ensures FromParser(ParseMembers(lib, s, i, d, acc).item, d - 1)
    decreases |s| - i, 1
  {
    hide ParseValue, SkipSpace, ParseName;
    var name := ParseName(s, i);
    ParsedValue(lib, s, SkipSpace(s, name.next + 1), d);
    var r := ParseValue(lib, s, SkipSpace(s, name.next + 1), d);
    var item := WithKey(r.item, Some(CString(name.text)));
    Renamed(r.item, d, Some(CString(name.text)));
    var j := SkipSpace(s, r.next);
    if s[j] == COMMA {
      ParsedMembers(lib, s, j, d, acc + [item]);
    }
  }

  lemma Renamed(item: Item, d: nat, key: Option<cstring>)
    requires FromParser(item, d)
    ensures FromParser(WithKey(item, key), d)
  {
  }

  lemma {:induction false} FitForAll(item: Item, d: nat)
    requires FromParser(item, d)
    ensures RawFree(item) && Compare.Complete(item) && Compare.HasTexts(item) && Duplicate.HeightFits(item, d)
    decreases item
  {
    if item.Array? || item.Object? {
      forall k | k in item.kids
        ensures RawFree(k) && Compare.Complete(k) && Compare.HasTexts(k) && Duplicate.HeightFits(k, d + 1)
      {
        FitForAll(k, d + 1);
      }
    }
  }

  /** Every parsed tree can be duplicated and compared. */
  lemma ParsedTreeIsFit(lib: CLib, s: bytes, requireNul: bool)
    requires ParseText(lib, s, requireNul).Ok?
    ensures
      var item := ParseText(lib, s, requireNul).item;
      RawFree(item) && Compare.Complete(item) && Compare.HasTexts(item) && Duplicate.HeightFits(item, 0)
  {
    hide ParseValue, FromParser, RawFree, SkipSpace, SkipBom;
    ParsedValue(lib, s, SkipSpace(s, SkipBom(s)), 0);
    FitForAll(ParseText(lib, s, requireNul).item, 0);
  }

  // ----- printing what was parsed

  predicate NumbersSurvive(lib: CLib, item: Item)
    decreases item
  {
    match item
    case Number(_, d) => |NumberText(lib, d)| <= 25 && Recovered(lib, d)
    case Array(_, kids) => forall k :: k in kids ==> NumbersSurvive(lib, k)
    case Object(_, kids) => forall k :: k in kids ==> NumbersSurvive(lib, k)
    case _ => true
  }

  lemma {:induction false} ParsedIsPrintable(lib: CLib, item: Item, d: nat)
    requires FromParser(item, d) && NumbersSurvive(lib, item)
    ensures Printable(lib, item, d) && Settled(lib, item)
    decreases item
  {
    hide NumberText;
    if item.Array? || item.Object? {
      forall k | k in item.kids ensures Printable(lib, k, d + 1) && Settled(lib, k) {
        ParsedIsPrintable(lib, k, d + 1);
      }
    }
  }

  /** Integers of up to 32 bits survive: at most eleven characters, and read back exactly. */
  lemma {:induction false} IntegersSurvive(lib: CLib, item: Item)
    requires Compare.Integral(item)
    ensures NumbersSurvive(lib, item)
    decreases item
  {
    if item.Number? {
      var n: int32 := item.d.Floor;
      IntegersAreRecovered(lib, n);
      assert NumberText(lib, n as real) == Decimal(n);
      DecimalIsShort(n);
    } else if item.Array? || item.Object? {
      forall k | k in item.kids ensures NumbersSurvive(lib, k) {
        IntegersSurvive(lib, k);
      }
    }
  }

  lemma {:induction false} DigitsAreShort(n: nat, width: nat, bound: nat)
    requires width > 0 && bound == Power(width) && n < bound
    ensures |Digits(n)| <= width
    decreases width
  {
    if n >= 10 {
      if width > 1 {
        assert bound == 10 * Power(width - 1);
        DigitsAreShort(n / 10, width - 1, Power(width - 1));
      }
    }
  }

  function Power(width: nat): nat {
    if width == 0 then 1 else 10 * Power(width - 1)
  }

  lemma DecimalIsShort(n: int32)
    ensures |Decimal(n)| <= 11
  {
    assert Power(5) == 100000;
    assert Power(10) == 100000 * Power(5);
    var m: int := n;
    DigitsAreShort(if m < 0 then -m else m, 10, 10000000000);
  }

  /**
   * Whatever text a tree of integers was parsed from, printing it and parsing
   * the output gives the same tree.
   */
  lemma ParsePrintParse(lib: CLib, s: bytes, requireNul: bool, format: bool)
    requires ParseText(lib, s, requireNul).Ok? && NumbersSurvive(lib, ParseText(lib, s, requireNul).item)
    ensures
      var item := ParseText(lib, s, requireNul).item;
      var text := Text(lib, CJsonLayout(format), item, 0);
      Printable(lib, item, 0) && ParseText(lib, text + [NUL], true) == Ok(item, |text|)
  {
    hide ParseValue, FromParser, RawFree, SkipSpace, SkipBom, Text, NumbersSurvive;
    var item := ParseText(lib, s, requireNul).item;
    ParsedValue(lib, s, SkipSpace(s, SkipBom(s)), 0);
    FitForAll(item, 0);
    ParsedIsPrintable(lib, item, 0);
    PrintThenParseExactly(lib, item, format);
  }
}
