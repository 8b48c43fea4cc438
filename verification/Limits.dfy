/** The limits and tolerances, as numbers. */
module Limits {
  import opened Bytes
  import opened CLibrary
  import opened Items
  import opened Parser
  import opened Compare
  import opened RoundTrip
  import opened Duplicate

  // ----- numbers

  /** valueint is the double without its fraction, or the end of the int range that it is beyond. */
  lemma SaturateTruncates(d: real)
    ensures d >= 2147483647.0 ==> Saturate(d) == 2147483647
    ensures d <= -2147483648.0 ==> Saturate(d) == -2147483648
    ensures 0.0 <= d < 2147483647.0 ==> Saturate(d) as real <= d < Saturate(d) as real + 1.0
    ensures -2147483648.0 < d <= 0.0 ==> Saturate(d) as real - 1.0 < d <= Saturate(d) as real
  {
  }

  /** Two doubles are close when they differ by no more than one part in 2 to the power of 52 of the larger. */
  lemma RoundingTolerance(a: real, b: real)
    ensures Near(a, b) <==>
      Abs(a - b) * 4503599627370496.0 <= Abs(a) || Abs(a - b) * 4503599627370496.0 <= Abs(b)
  {
    assert DBL_EPSILON * 4503599627370496.0 == 1.0;
    Scaled(Abs(a - b), Abs(a));
    Scaled(Abs(a - b), Abs(b));
  }

  lemma Scaled(x: real, y: real)
    ensures x <= y * DBL_EPSILON <==> x * 4503599627370496.0 <= y
  {
  }

  lemma HarnessTolerance(a: real, b: real)
    ensures Within(a, b) <==> -0.000001 <= a - b <= 0.000001
  {
  }

  /** A number that is no 32-bit integer is printed with 15 digits if they are read back up to rounding. */
  lemma DigitsPrinted(lib: CLib, d: real)
    requires d.Floor as real != d || d < -2147483648.0 || d > 2147483647.0
    ensures
      var difference := Abs(lib.strtod(lib.format15(d)).value - d) * 4503599627370496.0;
      NumberText(lib, d) ==
        if difference <= Abs(lib.strtod(lib.format15(d)).value) || difference <= Abs(d) then lib.format15(d)
        else lib.format17(d)
  {
    RoundingTolerance(lib.strtod(lib.format15(d)).value, d);
    SaturateTruncates(d);
    assert (Saturate(d) as real).Floor == Saturate(d);
  }

  /** Of the items without children, only Invalid ones and raw ones without text are never printed. */
  lemma LeavesPrinted(lib: CLib, item: Item, depth: nat)
    requires !item.Array? && !item.Object? && !item.Number?
    ensures Printable(lib, item, depth) <==> !item.Invalid? && item != Raw(item.key, None)
  {
  }

  /** The buffer for a number has 26 bytes, one of them for the terminator. */
  lemma NumberFits(lib: CLib, key: Option<cstring>, d: real, depth: nat)
    ensures Printable(lib, Number(key, d), depth) <==> |NumberText(lib, d)| + 1 <= 26
  {
  }

  // ----- nesting

  /** Arrays in arrays, `n` deep below the outermost. */
  function Nested(n: nat): Item {
    Array(None, if n == 0 then [] else [Nested(n - 1)])
  }

  /** Printing takes 1000 levels of arrays. */
  lemma {:induction false} PrintLimit(lib: CLib, n: nat, depth: nat)
    ensures Printable(lib, Nested(n), depth) <==> depth + n < 1000
    decreases n
  {
    if n > 0 {
      PrintLimit(lib, n - 1, depth + 1);
      assert Nested(n).kids == [Nested(n - 1)];
      assert Nested(n - 1) in Nested(n).kids;
    }
  }

  /** Copying takes 10000 levels below the outermost. */
  lemma {:induction false} CopyLimit(n: nat, depth: nat)
    ensures HeightFits(Nested(n), depth) <==> n == 0 || depth + n <= 10000
    decreases n
  {
    if n > 0 {
      CopyLimit(n - 1, depth + 1);
      assert Nested(n).kids == [Nested(n - 1)];
      assert Nested(n - 1) in Nested(n).kids;
    }
  }

  function Brackets(n: nat): bytes {
    Repeat([OPEN_BRACKET], n) + Repeat([CLOSE_BRACKET], n)
  }

  lemma {:induction false} NestedText(lib: CLib, n: nat, depth: nat)
    ensures Text(lib, Compact, Nested(n), depth) == Brackets(n + 1)
    ensures RawFree(Nested(n)) && AsParsed(lib, Nested(n)) == Nested(n)
    decreases n
  {
    hide Brackets, Text, AsParsed, RawFree, Nested;
    if n == 0 {
      Innermost(lib, depth);
      OneBracket();
    } else {
      NestedText(lib, n - 1, depth + 1);
      NestedIs(n);
      OneInside(lib, Nested(n - 1), depth);
      MoreBrackets(n);
    }
  }

  lemma NestedIs(n: nat)
    requires n > 0
    ensures Nested(n) == Array(None, [Nested(n - 1)])
  {
  }

  lemma Innermost(lib: CLib, depth: nat)
    ensures Text(lib, Compact, Nested(0), depth) == [OPEN_BRACKET, CLOSE_BRACKET]
    ensures RawFree(Nested(0)) && AsParsed(lib, Nested(0)) == Nested(0)
  {
    assert Elements(lib, Compact, [], depth + 1) == [];
  }

  lemma OneBracket()
    ensures Brackets(1) == [OPEN_BRACKET, CLOSE_BRACKET]
  {
    assert Repeat([OPEN_BRACKET], 1) == [OPEN_BRACKET] && Repeat([CLOSE_BRACKET], 1) == [CLOSE_BRACKET];
  }

  lemma MoreBrackets(n: nat)
    ensures Brackets(n + 1) == [OPEN_BRACKET] + Brackets(n) + [CLOSE_BRACKET]
  {
    RepeatMore([CLOSE_BRACKET], n);
  }

  lemma OneInside(lib: CLib, inner: Item, depth: nat)
    ensures Text(lib, Compact, Array(None, [inner]), depth)
         == [OPEN_BRACKET] + Text(lib, Compact, inner, depth + 1) + [CLOSE_BRACKET]
    ensures AsParsed(lib, Array(None, [inner])) == Array(None, [AsParsed(lib, inner)])
    ensures RawFree(Array(None, [inner])) <==> RawFree(inner)
  {
    hide Elements, ElementsAsParsed;
    OneElementText(lib, inner, depth + 1);
    OneElementParsed(lib, inner);
    assert inner in [inner];
  }

  lemma OneElementText(lib: CLib, inner: Item, depth: nat)
    ensures Elements(lib, Compact, [inner], depth) == Text(lib, Compact, inner, depth)
  {
    hide Text;
    assert [inner][1..] == [];
    assert ElementEnd(Compact, true) == [];
  }

  lemma OneElementParsed(lib: CLib, inner: Item)
    ensures ElementsAsParsed(lib, [inner]) == [AsParsed(lib, inner)]
  {
    hide AsParsed;
    assert [inner][1..] == [];
  }

  lemma {:induction false} RepeatMore(unit: bytes, n: nat)
    ensures Repeat(unit, n + 1) == Repeat(unit, n) + unit
  {
    if n > 0 {
      RepeatMore(unit, n - 1);
      assert unit + (Repeat(unit, n - 1) + unit) == unit + Repeat(unit, n - 1) + unit;
    }
  }

  /** Parsing takes 1000 levels of brackets, and reports the first one too many. */
  lemma ParseLimit(lib: CLib, n: nat)
    requires n > 0
    ensures ParseText(lib, Brackets(n) + [NUL], true) == if n <= 1000 then Ok(Nested(n - 1), 2 * n) else Fail(1000)
  {
    hide ParseText, Text, Printable, AsParsed, RawFree;
    if n <= 1000 {
      NestedText(lib, n - 1, 0);
      PrintLimit(lib, n - 1, 0);
      PrintThenParse(lib, Compact, Nested(n - 1), true);
    } else {
      TooManyBrackets(lib, n);
    }
  }

  lemma {:induction false} RepeatIs(unit: byte, n: nat)
    ensures |Repeat([unit], n)| == n && forall i :: 0 <= i < n ==> Repeat([unit], n)[i] == unit
  {
    if n > 0 {
      RepeatIs(unit, n - 1);
    }
  }

  lemma TooManyBrackets(lib: CLib, n: nat)
    requires n > 1000
    ensures ParseText(lib, Brackets(n) + [NUL], true) == Fail(1000)
  {
    hide ParseValue, Brackets;
    var s := Brackets(n) + [NUL];
    BracketsAre(n);
    BracketsFail(lib, s, n, 0);
    assert s[0] == OPEN_BRACKET;
    assert SkipBom(s) == 0 by { assert s[0..3][0] == OPEN_BRACKET; }
    assert SkipSpace(s, 0) == 0;
  }

  lemma BracketsAre(n: nat)
    ensures |Brackets(n)| == 2 * n && forall i :: 0 <= i < n ==> Brackets(n)[i] == OPEN_BRACKET
  {
    RepeatIs(OPEN_BRACKET, n);
    RepeatIs(CLOSE_BRACKET, n);
  }

  lemma {:induction false} BracketsFail(lib: CLib, s: bytes, n: nat, i: nat)
    requires i <= 1000 < n <= |s| && forall k :: 0 <= k < n ==> s[k] == OPEN_BRACKET
    ensures ParseValue(lib, s, i, i) == Fail(1000)
    decreases 1000 - i
  {
    hide ParseElements;
    assert s[i] == OPEN_BRACKET;
    NoWord(s, i);
    if i < 1000 {
      assert s[i + 1] == OPEN_BRACKET && SkipSpace(s, i + 1) == i + 1;
      BracketsFail(lib, s, n, i + 1);
      InnerFails(lib, s, i, i + 1);
    }
  }

  lemma InnerFails(lib: CLib, s: bytes, i: nat, d: nat)
    requires i < |s| && ParseValue(lib, s, SkipSpace(s, i + 1), d).Fail?
    ensures ParseElements(lib, s, i, d, []) == ParseValue(lib, s, SkipSpace(s, i + 1), d)
  {
    hide ParseValue;
  }

  lemma NoWord(s: bytes, i: nat)
    requires i < |s| && s[i] == OPEN_BRACKET
    ensures !At(s, i, NULL_TEXT) && !At(s, i, FALSE_TEXT) && !At(s, i, TRUE_TEXT)
  {
    forall t: bytes | t != [] && At(s, i, t) ensures t[0] == OPEN_BRACKET {
      assert s[i..i + |t|][0] == s[i];
    }
  }
}
