/** Facts about printed text that the printer's loops need. */
module TextFacts {
  import opened Bytes
  import opened CLibrary
  import opened Strings
  import opened Items

  lemma EscapedCons(b: byte, rest: bytes)
    ensures Escaped([b] + rest) == EscapedByte(b) + Escaped(rest)
  {
    assert ([b] + rest)[1..] == rest;
  }

  lemma {:induction false} EscapedConcat(a: bytes, b: bytes)
    ensures Escaped(a + b) == Escaped(a) + Escaped(b)
  {
    hide EscapedByte;
    if a == [] {
      assert a + b == b;
    } else {
      var e, rest := EscapedByte(a[0]), Escaped(a[1..]);
      calc {
        Escaped(a + b);
        { assert a + b == [a[0]] + (a[1..] + b); EscapedCons(a[0], a[1..] + b); }
        e + Escaped(a[1..] + b);
        { EscapedConcat(a[1..], b); }
        e + (rest + Escaped(b));
        (e + rest) + Escaped(b);
        { assert a == [a[0]] + a[1..]; EscapedCons(a[0], a[1..]); }
        Escaped(a) + Escaped(b);
      }
    }
  }

  lemma EscapedStep(s: bytes, i: nat)
    requires i < |s|
    ensures Escaped(s[..i + 1]) == Escaped(s[..i]) + EscapedByte(s[i])
  {
    EscapedConcat(s[..i], [s[i]]);
    assert s[..i + 1] == s[..i] + [s[i]];
    assert Escaped([s[i]]) == EscapedByte(s[i]);
  }

  lemma EscapedPrefix(s: bytes, i: nat)
    requires i <= |s|
    ensures |Escaped(s[..i])| <= |Escaped(s)|
  {
    EscapedConcat(s[..i], s[i..]);
    assert s == s[..i] + s[i..];
  }

  /** No printed text holds a NUL, so strlen finds its end. */
  lemma {:induction false} EscapedNulFree(s: cstring)
    ensures NulFree(Escaped(s))
  {
    if s != [] {
      EscapedNulFree(s[1..]);
    }
  }

  lemma {:induction false} RepeatIsSpace(unit: bytes, n: nat)
    requires AllSpace(unit)
    ensures AllSpace(Repeat(unit, n))
  {
    if n > 0 {
      RepeatIsSpace(unit, n - 1);
    }
  }

  lemma {:induction false} RepeatEnd(b: byte, n: nat)
    ensures Repeat([b], n + 1) == Repeat([b], n) + [b]
  {
    if n > 0 {
      RepeatEnd(b, n - 1);
    }
  }

  lemma LayoutIsSpace(layout: Layout, depth: nat)
    requires ValidLayout(layout)
    ensures AllSpace(Indent(layout, depth))
    ensures AllSpace(AfterColon(layout)) && AllSpace(AfterComma(layout)) && AllSpace(LineBreak(layout))
  {
    if layout.Pretty? {
      RepeatIsSpace(layout.indent, depth);
    }
  }

  lemma SpaceIsNulFree(s: bytes)
    requires AllSpace(s)
    ensures NulFree(s)
  {
  }

  lemma LayoutIsNulFree(layout: Layout, depth: nat)
    requires ValidLayout(layout)
    ensures NulFree(Indent(layout, depth))
    ensures NulFree(AfterColon(layout)) && NulFree(AfterComma(layout)) && NulFree(LineBreak(layout))
  {
    LayoutIsSpace(layout, depth);
    SpaceIsNulFree(Indent(layout, depth));
    SpaceIsNulFree(AfterColon(layout));
  }

  lemma QuotedNulFree(s: cstring)
    ensures NulFree(Quoted(s))
  {
    EscapedNulFree(s);
  }

  lemma MemberStartNulFree(layout: Layout, key: Option<cstring>, depth: nat)
    requires ValidLayout(layout)
    ensures NulFree(MemberStart(layout, key, depth))
  {
    LayoutIsNulFree(layout, depth);
    QuotedNulFree(OrEmpty(key));
    var a := Indent(layout, depth) + Quoted(OrEmpty(key));
    NulFreeConcat(Indent(layout, depth), Quoted(OrEmpty(key)));
    NulFreeConcat(a, [COLON]);
    NulFreeConcat(a + [COLON], AfterColon(layout));
  }

  lemma MemberEndNulFree(layout: Layout, last: bool)
    ensures NulFree(MemberEnd(layout, last))
  {
  }

  lemma EnclosedNulFree(open: byte, a: bytes, b: bytes, c: bytes, close: byte)
    requires open != NUL && close != NUL && NulFree(a) && NulFree(b) && NulFree(c)
    ensures NulFree([open] + a + b + c + [close])
  {
    NulFreeConcat([open] + a, b);
    NulFreeConcat([open] + a + b, c);
  }

  lemma {:induction false} TextNulFree(lib: CLib, layout: Layout, item: Item, depth: nat)
    requires ValidLayout(layout)
    ensures NulFree(Text(lib, layout, item, depth))
    decreases item, 1
  {
    hide Elements, Members, Indent, LineBreak, ObjectStart, Quoted, NumberText, JsonNumber, ValidLayout;
    match item
    case Number(_, d) => JsonNumberBytes(NumberText(lib, d));
    case String(_, text) => QuotedNulFree(OrEmpty(text));
    case Array(_, kids) => ArrayNulFree(lib, layout, kids, depth);
    case Object(_, kids) => ObjectNulFree(lib, layout, kids, depth);
    case _ =>
  }

  lemma {:induction false} ArrayNulFree(lib: CLib, layout: Layout, kids: seq<Item>, depth: nat)
    requires ValidLayout(layout)
    ensures NulFree([OPEN_BRACKET] + Elements(lib, layout, kids, depth + 1) + [CLOSE_BRACKET])
    decreases kids, 1
  {
    hide Elements, ValidLayout;
    ElementsNulFree(lib, layout, kids, depth + 1);
    var elements := Elements(lib, layout, kids, depth + 1);
    EnclosedNulFree(OPEN_BRACKET, [], elements, [], CLOSE_BRACKET);
    assert [OPEN_BRACKET] + [] + elements + [] == [OPEN_BRACKET] + elements;
  }

  lemma {:induction false} ObjectNulFree(lib: CLib, layout: Layout, kids: seq<Item>, depth: nat)
    requires ValidLayout(layout)
    ensures
      NulFree(ObjectStart(layout) + Members(lib, layout, kids, depth + 1) + Indent(layout, depth) + [CLOSE_BRACE])
    decreases kids, 1
  {
    hide Members, Indent, LineBreak, ValidLayout;
    LayoutIsNulFree(layout, depth);
    MembersNulFree(lib, layout, kids, depth + 1);
    EnclosedNulFree(OPEN_BRACE, LineBreak(layout), Members(lib, layout, kids, depth + 1),
                    Indent(layout, depth), CLOSE_BRACE);
  }

  lemma {:induction false} ElementsNulFree(lib: CLib, layout: Layout, kids: seq<Item>, depth: nat)
    requires ValidLayout(layout)
    ensures NulFree(Elements(lib, layout, kids, depth))
    decreases kids, 0
  {
    if kids != [] {
      TextNulFree(lib, layout, kids[0], depth);
      ElementsNulFree(lib, layout, kids[1..], depth);
      var t := Text(lib, layout, kids[0], depth);
      var comma := ElementEnd(layout, |kids| == 1);
      NulFreeConcat(t, comma);
      NulFreeConcat(t + comma, Elements(lib, layout, kids[1..], depth));
    }
  }

  lemma {:induction false} MembersNulFree(lib: CLib, layout: Layout, kids: seq<Item>, depth: nat)
    requires ValidLayout(layout)
    ensures NulFree(Members(lib, layout, kids, depth))
    decreases kids, 0
  {
    if kids != [] {
      MemberStartNulFree(layout, kids[0].key, depth);
      TextNulFree(lib, layout, kids[0], depth);
      MemberEndNulFree(layout, |kids| == 1);
      MembersNulFree(lib, layout, kids[1..], depth);
      var s, t := MemberStart(layout, kids[0].key, depth), Text(lib, layout, kids[0], depth);
      var e := MemberEnd(layout, |kids| == 1);
      NulFreeConcat(s, t);
      NulFreeConcat(s + t, e);
      NulFreeConcat(s + t + e, Members(lib, layout, kids[1..], depth));
    }
  }

  /** Bookkeeping of a printing loop: one more part of what is left has been written. */
  lemma Advance(done: bytes, part: bytes, rest: bytes, tail: bytes, all: bytes)
    requires done + (part + rest) + tail == all
    ensures (done + part) + rest + tail == all
    ensures |done| + |part| + |rest| + |tail| == |all|
  {
    assert done + (part + rest) == (done + part) + rest;
  }

  lemma ElementParts(lib: CLib, layout: Layout, kids: seq<Item>, k: nat, depth: nat, done: bytes, all: bytes)
    requires k < |kids|
    requires done + Elements(lib, layout, kids[k..], depth) + [CLOSE_BRACKET] == all
    ensures
      var kidText, end := Text(lib, layout, kids[k], depth), ElementEnd(layout, k + 1 == |kids|);
      var rest := Elements(lib, layout, kids[k + 1..], depth);
      && (done + kidText + end) + rest + [CLOSE_BRACKET] == all
      && |done| + |kidText| + |end| + |rest| + 1 == |all|
  {
    hide Text, ElementEnd;
    var kidText, end := Text(lib, layout, kids[k], depth), ElementEnd(layout, k + 1 == |kids|);
    var rest := Elements(lib, layout, kids[k + 1..], depth);
    assert kids[k..][1..] == kids[k + 1..];
    assert Elements(lib, layout, kids[k..], depth) == (kidText + end) + rest;
    Advance(done, kidText + end, rest, [CLOSE_BRACKET], all);
    assert done + (kidText + end) == done + kidText + end;
  }

  lemma MemberParts(lib: CLib, layout: Layout, kids: seq<Item>, k: nat, depth: nat,
                    done: bytes, tail: bytes, all: bytes)
    requires k < |kids|
    requires done + Members(lib, layout, kids[k..], depth) + tail == all
    ensures
      var start, kidText := MemberStart(layout, kids[k].key, depth), Text(lib, layout, kids[k], depth);
      var end := MemberEnd(layout, k + 1 == |kids|);
      var rest := Members(lib, layout, kids[k + 1..], depth);
      && (done + start + kidText + end) + rest + tail == all
      && |done| + |start| + |kidText| + |end| + |rest| + |tail| == |all|
  {
    hide Text, MemberStart, MemberEnd;
    var start, kidText := MemberStart(layout, kids[k].key, depth), Text(lib, layout, kids[k], depth);
    var end := MemberEnd(layout, k + 1 == |kids|);
    var rest := Members(lib, layout, kids[k + 1..], depth);
    assert kids[k..][1..] == kids[k + 1..];
    assert Members(lib, layout, kids[k..], depth) == (start + kidText + end) + rest;
    Advance(done, start + kidText + end, rest, tail, all);
    Regroup(done, start, kidText, end);
  }

  lemma Regroup(a: bytes, b: bytes, c: bytes, d: bytes)
    ensures a + (b + c + d) == a + b + c + d
  {
  }

  lemma QuotedParts(pre: bytes, s: bytes)
    ensures pre + Quoted(s) + [NUL] == pre + [QUOTE] + Escaped(s) + [QUOTE] + [NUL]
  {
  }

  lemma ArrayParts(lib: CLib, layout: Layout, item: Item, depth: nat, pre: bytes)
    requires item.Array?
    ensures pre + [OPEN_BRACKET] + Elements(lib, layout, item.kids[0..], depth + 1) + [CLOSE_BRACKET]
         == pre + Text(lib, layout, item, depth)
  {
    assert item.kids[0..] == item.kids;
    Regroup(pre, [OPEN_BRACKET], Elements(lib, layout, item.kids, depth + 1), [CLOSE_BRACKET]);
  }

  lemma ObjectParts(lib: CLib, layout: Layout, item: Item, depth: nat, pre: bytes)
    requires item.Object?
    ensures
      var members := Members(lib, layout, item.kids[0..], depth + 1);
      var tail := Indent(layout, depth) + [CLOSE_BRACE];
      && (pre + ObjectStart(layout)) + members + tail == pre + Text(lib, layout, item, depth)
  {
    hide Members, ObjectStart, Indent;
    assert item.kids[0..] == item.kids;
    var start, members := ObjectStart(layout), Members(lib, layout, item.kids, depth + 1);
    Regroup(start, members, Indent(layout, depth), [CLOSE_BRACE]);
    Regroup(pre, start, members, Indent(layout, depth) + [CLOSE_BRACE]);
  }

  lemma NothingLeft(lib: CLib, layout: Layout, kids: seq<Item>, k: nat, depth: nat, done: bytes)
    requires k == |kids|
    ensures done + Elements(lib, layout, kids[k..], depth) == done
    ensures done + Members(lib, layout, kids[k..], depth) == done
  {
  }
}
