/** The printer: print_value and its helpers, writing into a buffer that may grow. */
module PrintBuffer {
  import opened Bytes
  import opened CLibrary
  import opened Strings
  import opened Items
  import opened TextFacts
  import opened Heap

  class Buffer {
    var buffer: array?<byte>
    var length: nat
    var offset: nat
    var depth: nat
    const noalloc: bool
    const format: bool
    const hasRealloc: bool  // hooks.reallocate is not NULL
    const lib: CLib
    const heap: Allocator

    // The bytes the last successful Ensure reserved.
    ghost var reservedFrom: nat
    ghost var reservedTo: nat

    ghost const base: set<object>  // what is live beside the buffer
    ghost const failures: nat  // how many allocations had failed before

    ghost predicate Valid()
      reads this, heap
    {
      && length <= INT_MAX && Ledger()
      && (buffer != null ==> length <= buffer.Length && reservedTo <= length)
      && (!noalloc && buffer != null ==> length == buffer.Length)
    }

    /**
     * A growing buffer is live memory of its own, until it is gone because an
     * allocation failed; a preallocated one is the caller's.
     */
    ghost predicate Ledger()
      reads this`buffer, heap
    {
      && heap.Valid()
      && heap.live == base + (if noalloc then {} else Block(buffer))
      && (noalloc || Block(buffer) !! base)
      && heap.failures == failures + (if buffer == null then 1 else 0)
    }

    /** What lies behind the part of a preallocated buffer that may be written. */
    ghost function Tail(): bytes
      reads this`buffer, this`length, buffer
    {
      if noalloc && buffer != null && length <= buffer.Length then buffer[length..] else []
    }

    /** `pre` has been written, and the next byte goes right behind it. */
    ghost predicate Ready(pre: bytes)
      reads this, buffer, heap
    {
      && Valid()
      && buffer != null
      && offset == |pre| <= length
      && (noalloc || offset < length || (length == 0 && hasRealloc))
      && buffer[..offset] == pre
    }

    /** `all` and a terminator have been written; offset may lag behind, but not before `from`. */
    ghost predicate Written(from: nat, all: bytes)
      reads this, buffer, heap
    {
      && Valid()
      && buffer != null
      && |all| + 1 <= length
      && buffer[..|all| + 1] == all + [NUL]
      && from <= offset <= |all|
    }

    ghost predicate Shows(pre: bytes, text: bytes)
      reads this, buffer, heap
    {
      Written(|pre|, pre + text)
    }

    lemma {:induction false} ReadyLedger(pre: bytes)
      requires Ready(pre)
      ensures Ledger()
    {
    }

    ghost function Limit(): nat
      reads this
    {
      if noalloc then length else INT_MAX
    }

    /**
     * A preallocated buffer is never exchanged, and what lies behind the part
     * that may be written stays; a growing one is only exchanged for a new one.
     */
    twostate predicate SameOrNewBuffer()
      reads this, buffer, heap
    {
      && (buffer == old(buffer) || buffer == null || fresh(buffer))
      && (noalloc ==> buffer == old(buffer) && length == old(length) && Tail() == old(Tail()))
      && Ledger()
    }

    /** The tree to print, which is not part of the buffer. */
    ghost predicate Tree(node: Node, sh: Shape, it: Item)
      reads this, sh.node, Blocks(sh), Inner(sh), Block(sh.key)
    {
      node == sh.node && Models(sh, it) && this !in Blocks(sh) && heap !in Blocks(sh) && buffer !in Blocks(sh)
    }

    /** A list of trees to print. */
    ghost predicate Trees(kids: seq<Shape>, items: seq<Item>)
      reads this, BlocksOf(kids), NodesOf(kids)
    {
      && ModelsAll(kids, items) && NextChained(kids)
      && this !in BlocksOf(kids) && heap !in BlocksOf(kids) && buffer !in BlocksOf(kids)
    }

    /** Why a print function may say no. */
    ghost predicate Refused(size: nat, printable: bool)
      reads this
    {
      buffer == null || !printable || size + 2 > Limit()
    }

    constructor (buffer: array<byte>, length: nat, noalloc: bool, format: bool, hasRealloc: bool, lib: CLib,
                 heap: Allocator, ghost base: set<object>)
      requires length <= INT_MAX && length <= buffer.Length && heap.Valid()
      requires if noalloc then heap.live == base else heap.live == base + {buffer} && buffer !in base
      requires noalloc || (length == buffer.Length && (length > 0 || hasRealloc))
      ensures Ready([]) && this.buffer == buffer && this.length == length && depth == 0
      ensures this.noalloc == noalloc && this.format == format && this.hasRealloc == hasRealloc
      ensures this.lib == lib && this.heap == heap && this.base == base && failures == heap.failures
    {
      this.buffer, this.length, offset, depth := buffer, length, 0, 0;
      this.noalloc, this.format, this.hasRealloc, this.lib := noalloc, format, hasRealloc, lib;
      this.heap, this.base, failures := heap, base, heap.failures;
      reservedFrom, reservedTo := 0, 0;
    }

    /** The end of ensure: the buffer moves to a new block, or is gone. */
    method Exchange(newsize: nat) returns (ok: bool)
      requires Valid() && buffer != null && !noalloc && offset < newsize <= INT_MAX && length < newsize
      requires offset < length || (offset == length == 0 && hasRealloc)
      modifies this`buffer, this`length, heap
      ensures Ledger() && (ok <==> buffer != null) && (!ok ==> length == 0)
      ensures ok ==> fresh(buffer) && length == buffer.Length == newsize && buffer[..offset] == old(buffer[..offset])
    {
      var newbuffer: array?<byte>;
      if hasRealloc {
        newbuffer := heap.Realloc(buffer, newsize);
      } else {
        newbuffer := heap.NewBytes(newsize);
        if newbuffer != null {
          forall i | 0 <= i < offset + 1 {
            newbuffer[i] := buffer[i];
          }
          heap.Free(buffer);
        }
      }
      if newbuffer == null {
        heap.Free(buffer);
        length := 0;
        buffer := null;
        return false;
      }
      length := newsize;
      buffer := newbuffer;
      return true;
    }

    method Ensure(needed: nat) returns (ok: bool)
      requires Valid()
      requires buffer != null ==> offset <= length
      requires buffer != null ==> noalloc || offset < length || (length == 0 && hasRealloc)
      modifies this`buffer, this`length, this`reservedFrom, this`reservedTo, heap
      ensures Valid() && SameOrNewBuffer()
      ensures ok ==> offset + needed + 1 <= length && reservedFrom == offset && reservedTo == offset + needed
      ensures ok ==> buffer != null && old(buffer) != null && buffer[..offset] == old(buffer[..offset])
      ensures ok ==>
        if offset + needed + 1 <= old(length) then buffer == old(buffer) && length == old(length)
        else length == if offset + needed + 1 <= 1073741823 then 2 * (offset + needed + 1) else 2147483647
      ensures !ok && old(buffer) != null ==> buffer == null || offset + needed + 1 > Limit()
    {
      if buffer == null {
        return false;
      }
      if length > 0 && offset >= length {
        return false;
      }
      if needed > INT_MAX {
        return false;
      }
      var total := needed + offset + 1;
      if total <= length {
        reservedFrom, reservedTo := offset, offset + needed;
        return true;
      }
      if noalloc {
        return false;
      }
      var newsize;
      if total > INT_MAX / 2 {
        if total <= INT_MAX {
          newsize := INT_MAX;
        } else {
          return false;
        }
      } else {
        newsize := total * 2;
      }
      ok := Exchange(newsize);
      reservedFrom, reservedTo := if ok then offset else 0, if ok then offset + needed else 0;
    }

    /** One store through the output pointer, inside the reservation. */
    method Put(at: nat, b: byte)
      requires Valid() && buffer != null
      requires reservedFrom <= at < reservedTo
      modifies buffer
      ensures buffer[..at + 1] == old(buffer[..at]) + [b] && Tail() == old(Tail())
    {
      buffer[at] := b;
    }

    /** strcpy and memcpy: the text, followed by a terminator. */
    method StrCpy(at: nat, text: bytes)
      requires Valid() && buffer != null
      requires reservedFrom <= at && at + |text| + 1 <= reservedTo
      modifies buffer
      ensures buffer[..at + |text| + 1] == old(buffer[..at]) + text + [NUL] && Tail() == old(Tail())
    {
      hide Ledger, Tail;
      var i := 0;
      while i < |text|
        invariant 0 <= i <= |text|
        invariant buffer[..at + i] == old(buffer[..at]) + text[..i] && Tail() == old(Tail())
      {
        Put(at + i, text[i]);
        assert text[..i + 1] == text[..i] + [text[i]];
        i := i + 1;
      }
      Put(at + i, NUL);
      assert text[..i] == text;
    }

    /** update_offset: catch up with what was written. */
    method UpdateOffset(ghost pre: bytes, ghost text: bytes)
      requires Shows(pre, text) && NulFree(text)
      modifies this`offset
      ensures Ready(pre + text)
    {
      ghost var end := |pre| + |text|;
      assert buffer[..end + 1][end] == NUL;
      assert forall i :: |pre| <= i < end ==> buffer[i] != NUL by {
        forall i | |pre| <= i < end ensures buffer[i] != NUL {
          assert buffer[i] == buffer[..end + 1][i] == text[i - |pre|];
        }
      }
      var n := 0;
      while buffer[offset + n] != NUL
        invariant offset + n <= end
        decreases end - n
      {
        n := n + 1;
      }
      offset := offset + n;
      assert buffer[..end] == buffer[..end + 1][..end] == pre + text;
    }

    method PrintLiteral(text: bytes, ghost pre: bytes) returns (ok: bool)
      requires Ready(pre)
      modifies this, buffer, heap
      ensures SameOrNewBuffer() && depth == old(depth)
      ensures ok ==> Shows(pre, text) && |pre| + |text| + 2 <= length
      ensures !ok ==> Refused(|pre| + |text|, true)
    {
      hide Ledger, Tail;
      ok := Ensure(|text| + 1);
      if ok {
        StrCpy(offset, text);
      }
    }

    /** What print_number puts into its temporary buffer. */
    method FormatNumber(d: real, valueint: int) returns (number: bytes)
      requires valueint == Saturate(d)
      ensures number == NumberText(lib, d)
    {
      if d == valueint as real {
        return Decimal(valueint);
      }
      number := lib.format15(d);
      if !Near(lib.strtod(number).value, d) {
        number := lib.format17(d);
      }
    }

    method PrintNumber(d: real, valueint: int, ghost pre: bytes) returns (ok: bool)
      requires Ready(pre) && valueint == Saturate(d)
      modifies this, buffer, heap
      ensures SameOrNewBuffer() && depth == old(depth)
      ensures ok ==> Shows(pre, NumberText(lib, d)) && |pre| + |NumberText(lib, d)| + 2 <= length
      ensures ok ==> |NumberText(lib, d)| <= 25
      ensures !ok ==> Refused(|pre| + |NumberText(lib, d)|, |NumberText(lib, d)| <= 25)
    {
      hide Ledger, Tail, NumberText, JsonNumber;
      var number := FormatNumber(d, valueint);
      if |number| > 25 {
        return false;
      }
      ok := Ensure(|number| + 1);
      if ok {
        StrCpy(offset, number);
        offset := offset + |number|;
      }
    }

    static method CountEscapes(input: cstring) returns (escapes: nat)
      ensures |Escaped(input)| == |input| + escapes
      ensures escapes == 0 ==> Escaped(input) == input
    {
      escapes := 0;
      var i := 0;
      while i < |input|
        invariant 0 <= i <= |input|
        invariant |Escaped(input[..i])| == i + escapes
        invariant escapes == 0 ==> Escaped(input[..i]) == input[..i]
      {
        EscapedStep(input, i);
        var b := input[i];
        if b == 34 || b == 92 || b == 8 || b == 12 || b == 10 || b == 13 || b == 9 {
          escapes := escapes + 1;
        } else if b < 32 {
          escapes := escapes + 5;
        }
        assert input[..i + 1] == input[..i] + [b];
        i := i + 1;
      }
      assert input[..i] == input;
    }

    /** The default case of the inner switch: sprintf("u%04x"). */
    method PutUnicodeEscape(at: nat, b: byte)
      requires Valid() && buffer != null && b < 32
      requires reservedFrom <= at && at + 5 <= reservedTo
      modifies buffer
      ensures buffer[..at + 5] == old(buffer[..at]) + [LETTER_U, 48, 48, HexDigit(b / 16), HexDigit(b % 16)]
      ensures Tail() == old(Tail())
    {
      hide Ledger, Tail;
      Put(at, LETTER_U);
      Put(at + 1, 48);
      Put(at + 2, 48);
      Put(at + 3, HexDigit(b / 16));
      Put(at + 4, HexDigit(b % 16));
    }

    method PutEscaped(at: nat, b: byte) returns (next: nat)
      requires Valid() && buffer != null && b != 0
      requires reservedFrom <= at && at + |EscapedByte(b)| <= reservedTo
      modifies buffer
      ensures next == at + |EscapedByte(b)|
      ensures buffer[..next] == old(buffer[..at]) + EscapedByte(b) && Tail() == old(Tail())
    {
      hide Ledger, Tail;
      if b > 31 && b != QUOTE && b != BACKSLASH {
        Put(at, b);
        next := at + 1;
      } else {
        Put(at, BACKSLASH);
        next := at + 1;
        if b == 92 {
          Put(next, 92);
        } else if b == 34 {
          Put(next, 34);
        } else if b == 8 {
          Put(next, 98);
        } else if b == 12 {
          Put(next, 102);
        } else if b == 10 {
          Put(next, 110);
        } else if b == 13 {
          Put(next, 114);
        } else if b == 9 {
          Put(next, 116);
        } else {
          PutUnicodeEscape(next, b);
          next := next + 4;
        }
        next := next + 1;
      }
    }

    /** The two passes agree: the closing quote goes where the second pass stopped. */
    method PrintStringPtr(input: Option<cstring>, ghost pre: bytes) returns (ok: bool)
      requires Ready(pre)
      modifies this, buffer, heap
      ensures SameOrNewBuffer() && depth == old(depth)
      ensures ok ==> Shows(pre, Quoted(OrEmpty(input))) && |pre| + |Quoted(OrEmpty(input))| + 2 <= length
      ensures !ok ==> Refused(|pre| + |Quoted(OrEmpty(input))|, true)
    {
      hide Ledger, Tail;
      if input.None? {
        NoText();
        ok := PrintLiteral([QUOTE, QUOTE], pre);
        return ok;
      }
      var s := input.value;
      var escapes := CountEscapes(s);
      var outputLength := |s| + escapes;
      ok := Ensure(outputLength + 3);
      if !ok {
        return false;
      }
      WriteQuoted(s, escapes, outputLength, pre);
    }

    static lemma NoText()
      ensures Quoted([]) == [QUOTE, QUOTE]
    {
    }

    method WriteQuoted(s: cstring, escapes: nat, outputLength: nat, ghost pre: bytes)
      requires Valid() && buffer != null && offset == |pre| <= length && buffer[..offset] == pre
      requires reservedFrom == offset && reservedTo == offset + outputLength + 3
      requires outputLength == |Escaped(s)|
      requires escapes == 0 ==> Escaped(s) == s
      modifies buffer
      ensures buffer[..offset + outputLength + 3] == pre + Quoted(s) + [NUL] && Tail() == old(Tail())
    {
      hide Ledger, Tail, Escaped;
      Put(offset, QUOTE);
      WriteInQuotes(offset + 1, s, escapes);
      Put(offset + outputLength + 1, QUOTE);
      Put(offset + outputLength + 2, NUL);
      QuotedParts(pre, s);
    }

    /** Between the quotes: copied when nothing needs an escape, escaped otherwise. */
    method WriteInQuotes(at: nat, s: cstring, escapes: nat)
      requires Valid() && buffer != null
      requires reservedFrom <= at && at + |Escaped(s)| <= reservedTo
      requires escapes == 0 ==> Escaped(s) == s
      modifies buffer
      ensures buffer[..at + |Escaped(s)|] == old(buffer[..at]) + Escaped(s) && Tail() == old(Tail())
    {
      hide Ledger, Tail, Escaped;
      if escapes == 0 {
        WriteBytes(at, s);
      } else {
        WriteEscaped(at, s);
      }
    }

    method WriteBytes(at: nat, s: cstring)
      requires Valid() && buffer != null
      requires reservedFrom <= at && at + |s| <= reservedTo
      modifies buffer
      ensures buffer[..at + |s|] == old(buffer[..at]) + s && Tail() == old(Tail())
    {
      hide Ledger, Tail;
      var i := 0;
      while i < |s|
        invariant 0 <= i <= |s|
        invariant buffer[..at + i] == old(buffer[..at]) + s[..i] && Tail() == old(Tail())
      {
        Put(at + i, s[i]);
        assert s[..i + 1] == s[..i] + [s[i]];
        i := i + 1;
      }
      assert s[..i] == s;
    }

    method WriteEscaped(at: nat, s: cstring)
      requires Valid() && buffer != null
      requires reservedFrom <= at && at + |Escaped(s)| <= reservedTo
      modifies buffer
      ensures buffer[..at + |Escaped(s)|] == old(buffer[..at]) + Escaped(s) && Tail() == old(Tail())
    {
      hide Ledger, Tail, EscapedByte;
      var next := at;
      var i := 0;
      while i < |s|
        invariant 0 <= i <= |s|
        invariant next == at + |Escaped(s[..i])| <= reservedTo
        invariant buffer[..next] == old(buffer[..at]) + Escaped(s[..i]) && Tail() == old(Tail())
      {
        EscapedStep(s, i);
        EscapedPrefix(s, i + 1);
        next := PutEscaped(next, s[i]);
        i := i + 1;
      }
      assert s[..i] == s;
    }

    /** Writes `count` tabs. */
    method WriteTabs(at: nat, count: nat)
      requires Valid() && buffer != null
      requires reservedFrom <= at && at + count <= reservedTo
      modifies buffer
      ensures buffer[..at + count] == old(buffer[..at]) + Repeat([TAB], count) && Tail() == old(Tail())
    {
      hide Ledger, Tail;
      var i := 0;
      while i < count
        invariant 0 <= i <= count
        invariant buffer[..at + i] == old(buffer[..at]) + Repeat([TAB], i) && Tail() == old(Tail())
      {
        Put(at + i, TAB);
        RepeatEnd(TAB, i);
        i := i + 1;
      }
    }

    method PrintValue(item: Node, ghost pre: bytes, ghost sh: Shape, ghost it: Item) returns (ok: bool)
      requires Ready(pre) && Tree(item, sh, it)
      modifies this, buffer, heap
      ensures SameOrNewBuffer()
      ensures ok ==> Printable(lib, it, old(depth)) && depth == old(depth)
      ensures ok ==> Shows(pre, Text(lib, CJsonLayout(format), it, old(depth)))
      ensures ok ==> |pre| + |Text(lib, CJsonLayout(format), it, old(depth))| + 2 <= length
      ensures !ok ==> Refused(|pre| + |Text(lib, CJsonLayout(format), it, old(depth))|, Printable(lib, it, old(depth)))
      decreases it, 9
    {
      hide Ledger, Tail, Text, Tree, Printable, Refused, Written, Ready;
      ValueShows(item, sh, it);
      match item.kind
      case KArray =>
        ok := PrintArray(item, pre, sh, it);
      case KObject =>
        ok := PrintObject(item, pre, sh, it);
      case _ =>
        ok := PrintScalar(item, pre, it);
    }

    /** What the kinds without children print as, and when. */
    lemma ScalarText(it: Item)
      requires !it.Array? && !it.Object?
      ensures it.Null? ==> Text(lib, CJsonLayout(format), it, depth) == NULL_TEXT
      ensures it.False? ==> Text(lib, CJsonLayout(format), it, depth) == FALSE_TEXT
      ensures it.True? ==> Text(lib, CJsonLayout(format), it, depth) == TRUE_TEXT
      ensures it.Number? ==> Text(lib, CJsonLayout(format), it, depth) == NumberText(lib, it.d)
      ensures it.Raw? ==> Text(lib, CJsonLayout(format), it, depth) == OrEmpty(it.text)
      ensures it.String? ==> Text(lib, CJsonLayout(format), it, depth) == Quoted(OrEmpty(it.text))
      ensures Printable(lib, it, depth) <==>
        !it.Invalid? && (it.Raw? ==> it.text.Some?) && (it.Number? ==> |NumberText(lib, it.d)| <= 25)
    {
    }

    /** The cases of print_value that print no list. */
    method PrintScalar(item: Node, ghost pre: bytes, ghost it: Item) returns (ok: bool)
      requires Ready(pre) && KindIs(item.kind, it) && !it.Array? && !it.Object?
      requires it.Number? ==> item.valuedouble == it.d && item.valueint == Saturate(it.d)
      requires it.String? || it.Raw? ==> StringAt(item.valuestring) == it.text
      modifies this, buffer, heap
      ensures SameOrNewBuffer() && depth == old(depth)
      ensures ok ==> Printable(lib, it, depth)
      ensures ok ==> Shows(pre, Text(lib, CJsonLayout(format), it, depth))
      ensures ok ==> |pre| + |Text(lib, CJsonLayout(format), it, depth)| + 2 <= length
      ensures !ok ==> Refused(|pre| + |Text(lib, CJsonLayout(format), it, depth)|, Printable(lib, it, depth))
    {
      hide Ledger, Tail, Text, Printable, Quoted, NumberText, Ready, Written;
      ReadyLedger(pre);
      ScalarText(it);
      match item.kind
      case KInvalid =>
        ok := false;
      case KNull =>
        ok := PrintLiteral(NULL_TEXT, pre);
      case KFalse =>
        ok := PrintLiteral(FALSE_TEXT, pre);
      case KTrue =>
        ok := PrintLiteral(TRUE_TEXT, pre);
      case KNumber =>
        ok := PrintNumber(item.valuedouble, item.valueint, pre);
      case KRaw =>
        if item.valuestring == null {
          ok := false;
        } else {
          ok := PrintLiteral(CString(item.valuestring[..]), pre);
        }
      case KString =>
        ok := PrintStringPtr(StringAt(item.valuestring), pre);
    }

    lemma {:induction false} ValueShows(node: Node, sh: Shape, it: Item)
      requires Tree(node, sh, it)
      ensures KindIs(node.kind, it)
      ensures it.Number? ==> node.valuedouble == it.d && node.valueint == Saturate(it.d)
      ensures it.String? || it.Raw? ==> StringAt(node.valuestring) == it.text
    {
      hide Models, ModelsAll, Blocks, BlocksOf, Inner, NextChained;
      NodeShows(sh, it);
    }

    lemma {:induction false} TreeShows(node: Node, sh: Shape, it: Item)
      requires Tree(node, sh, it)
      ensures Trees(sh.kids, KidsOf(it)) && node.child == First(sh.kids) && |sh.kids| == |KidsOf(it)|
      ensures BlocksOf(sh.kids) <= Blocks(sh)
    {
      hide Models, ModelsAll, Blocks, BlocksOf, Inner, NextChained;
      NodeShows(sh, it);
    }

    lemma {:induction false} KidTree(kids: seq<Shape>, items: seq<Item>, k: nat)
      requires Trees(kids, items) && k < |kids|
      ensures |kids| == |items| && Tree(kids[k].node, kids[k], items[k])
      ensures kids[k].node.next == NodeAt(kids, k + 1)
      ensures StringAt(kids[k].node.key) == items[k].key
      ensures Blocks(kids[k]) <= BlocksOf(kids)
    {
      hide Models, ModelsAll, Blocks, BlocksOf, Inner;
      KidModels(kids, items, k);
    }

    method PrintElementEnd(last: bool, ghost pre: bytes) returns (ok: bool)
      requires Ready(pre)
      modifies this, buffer, heap
      ensures SameOrNewBuffer() && depth == old(depth)
      ensures ok ==> Ready(pre + ElementEnd(CJsonLayout(format), last))
      ensures !ok ==> Refused(|pre| + |ElementEnd(CJsonLayout(format), last)|, true)
    {
      hide Ledger, Tail;
      ok := true;
      if last {
        assert pre + [] == pre;
        return;
      }
      var size := if format then 2 else 1;
      ok := Ensure(size + 1);
      if ok {
        WriteComma(offset, size);
        offset := offset + size;
      }
    }

    method WriteComma(at: nat, size: nat)
      requires Valid() && buffer != null && size == |ElementEnd(CJsonLayout(format), false)|
      requires reservedFrom <= at && at + size + 1 <= reservedTo
      modifies buffer
      ensures buffer[..at + size] == old(buffer[..at]) + ElementEnd(CJsonLayout(format), false)
      ensures Tail() == old(Tail())
    {
      hide Ledger, Tail;
      Put(at, COMMA);
      if format {
        Put(at + 1, SPACE);
      }
      Put(at + size, NUL);
      assert buffer[..at + size] == buffer[..at + size + 1][..at + size];
    }

    method PrintOpenBracket(ghost pre: bytes) returns (ok: bool)
      requires Ready(pre)
      modifies this, buffer, heap
      ensures SameOrNewBuffer() && depth == old(depth) + (if ok then 1 else 0)
      ensures ok ==> Ready(pre + [OPEN_BRACKET])
      ensures !ok ==> Refused(|pre|, true)
    {
      hide Ledger, Tail;
      ok := Ensure(1);
      if ok {
        Put(offset, OPEN_BRACKET);
        offset := offset + 1;
        depth := depth + 1;
      }
    }

    method PrintCloseBracket(ghost pre: bytes) returns (ok: bool)
      requires Ready(pre)
      modifies this, buffer, heap
      ensures SameOrNewBuffer() && depth == old(depth) && offset == old(offset)
      ensures ok ==> Shows(pre, [CLOSE_BRACKET]) && |pre| + 3 <= length
      ensures !ok ==> Refused(|pre| + 1, true)
    {
      hide Ledger, Tail;
      ok := Ensure(2);
      if ok {
        Put(offset, CLOSE_BRACKET);
        Put(offset + 1, NUL);
      }
    }

    lemma TooDeep(size: nat)
      ensures Refused(size, false)
    {
    }

    method PrintArray(item: Node, ghost pre: bytes, ghost sh: Shape, ghost it: Item) returns (ok: bool)
      requires it.Array? && Ready(pre) && Tree(item, sh, it)
      modifies this, buffer, heap
      ensures SameOrNewBuffer()
      ensures ok ==> Printable(lib, it, old(depth)) && depth == old(depth)
      ensures ok ==> Shows(pre, Text(lib, CJsonLayout(format), it, old(depth)))
      ensures ok ==> |pre| + |Text(lib, CJsonLayout(format), it, old(depth))| + 2 <= length
      ensures !ok ==> Refused(|pre| + |Text(lib, CJsonLayout(format), it, old(depth))|, Printable(lib, it, old(depth)))
      decreases it, 8
    {
      hide Ledger, Tail, Text, Elements, Members, Tree, Trees, Printable, KidsPrintable;
      hide Ready, Written, Refused, ModelsAll, NextChained, BlocksOf, NodesOf, Models, Blocks, Inner;
      ghost var all := pre + Text(lib, CJsonLayout(format), it, depth);
      ListPrintable(it, depth);
      ReadyLedger(pre);
      if depth >= NESTING_LIMIT {
        TooDeep(|all|);
        return false;
      }
      ArrayParts(lib, CJsonLayout(format), it, depth, pre);
      TreeShows(item, sh, it);
      ok := PrintBrackets(item.child, pre, all, sh.kids, it);
    }

    method PrintBrackets(first: Node?, ghost pre: bytes, ghost all: bytes, ghost kids: seq<Shape>, ghost it: Item)
      returns (ok: bool)
      requires it.Array? && Ready(pre) && Trees(kids, it.kids) && |kids| == |it.kids| && first == First(kids)
      requires pre + [OPEN_BRACKET] + Elements(lib, CJsonLayout(format), it.kids[0..], depth + 1)
             + [CLOSE_BRACKET] == all
      modifies this, buffer, heap
      ensures SameOrNewBuffer()
      ensures ok ==> depth == old(depth) && KidsPrintable(it.kids, depth + 1)
      ensures ok ==> Written(|pre|, all) && |all| + 2 <= length
      ensures !ok ==> Refused(|all|, KidsPrintable(it.kids, old(depth) + 1))
      decreases it, 7
    {
      hide Ledger, Tail, Text, Elements, Members, Printable, KidsPrintable, ModelsAll, NextChained, BlocksOf, NodesOf,
           Models, Blocks, Inner, Ready, Written;
      ReadyLedger(pre);
      BlocksOfAllocated(kids);
      NodesInBlocks(kids);
      ok := PrintOpenBracket(pre);
      if !ok {
        return;
      }
      ok := PrintInside(first, |pre|, pre + [OPEN_BRACKET], all, kids, it);
    }

    /** Behind the opening bracket. */
    method PrintInside(first: Node?, ghost from: nat, ghost start: bytes, ghost all: bytes, ghost kids: seq<Shape>,
                       ghost it: Item) returns (ok: bool)
      requires it.Array? && Ready(start) && Trees(kids, it.kids) && |kids| == |it.kids| && first == First(kids)
      requires start + Elements(lib, CJsonLayout(format), it.kids[0..], depth) + [CLOSE_BRACKET] == all
      requires from <= |start| && depth > 0
      modifies this, buffer, heap
      ensures SameOrNewBuffer()
      ensures ok ==> depth == old(depth) - 1 && KidsPrintable(it.kids, old(depth))
      ensures ok ==> Written(from, all) && |all| + 2 <= length
      ensures !ok ==> Refused(|all|, KidsPrintable(it.kids, old(depth)))
      decreases it, 6
    {
      hide Ledger, Tail, Text, Elements, Members, Printable, KidsPrintable, Trees, BlocksOf, NodesOf;
      ghost var done;
      ok, done := PrintElements(first, start, all, kids, it);
      if !ok {
        return;
      }
      ok := PrintCloseBracket(done);
      if !ok {
        return;
      }
      depth := depth - 1;
    }

    predicate KidsPrintable(kids: seq<Item>, depth: nat) {
      forall c :: c in kids ==> Printable(lib, c, depth)
    }

    lemma AllPrintable(kids: seq<Item>, depth: nat)
      ensures KidsPrintable(kids[..0], depth)
      ensures kids[..|kids|] == kids
    {
    }

    lemma OneMorePrintable(kids: seq<Item>, k: nat, depth: nat)
      requires k < |kids|
      ensures KidsPrintable(kids[..k + 1], depth) <==> KidsPrintable(kids[..k], depth) && Printable(lib, kids[k], depth)
      ensures KidsPrintable(kids, depth) ==> Printable(lib, kids[k], depth)
    {
      assert kids[..k + 1] == kids[..k] + [kids[k]];
    }

    lemma ListPrintable(it: Item, depth: nat)
      requires it.Array? || it.Object?
      ensures Printable(lib, it, depth) <==> depth < NESTING_LIMIT && KidsPrintable(it.kids, depth + 1)
    {
    }

    /** The loop of print_array. */
    method PrintElements(first: Node?, ghost start: bytes, ghost all: bytes, ghost kids: seq<Shape>, ghost it: Item)
      returns (ok: bool, ghost done: bytes)
      requires it.Array? && Ready(start) && Trees(kids, it.kids) && |kids| == |it.kids| && first == First(kids)
      requires start + Elements(lib, CJsonLayout(format), it.kids[0..], depth) + [CLOSE_BRACKET] == all
      modifies this, buffer, heap
      ensures SameOrNewBuffer()
      ensures ok ==> depth == old(depth) && Ready(done) && done + [CLOSE_BRACKET] == all && |start| <= |done|
      ensures ok ==> KidsPrintable(it.kids, depth)
      ensures !ok ==> Refused(|all|, KidsPrintable(it.kids, old(depth)))
      decreases it, 0, 2
    {
      hide Ledger, Tail, Text, Elements, Members, Printable, KidsPrintable, ModelsAll, NextChained, BlocksOf, NodesOf,
           Ready, Written;
      ReadyLedger(start);
      BlocksOfAllocated(kids);
      NodesInBlocks(kids);
      ok := true;
      done := start;
      var current := first;
      ghost var k := 0;
      AllPrintable(it.kids, depth);
      while current != null
        invariant k <= |kids| && current == NodeAt(kids, k) && Trees(kids, it.kids)
        invariant SameOrNewBuffer() && Ready(done) && depth == old(depth) && |start| <= |done|
        invariant KidsPrintable(it.kids[..k], depth)
        invariant done + Elements(lib, CJsonLayout(format), it.kids[k..], depth) + [CLOSE_BRACKET] == all
        decreases |kids| - k
      {
        KidTree(kids, it.kids, k);
        OneMorePrintable(it.kids, k, depth);
        ok, done := PrintElement(current, k, done, all, kids, it);
        if !ok {
          return;
        }
        current := current.next;
        k := k + 1;
      }
      NothingLeft(lib, CJsonLayout(format), it.kids, k, depth, done);
    }

    /** One round of print_array's loop. */
    method PrintElement(current: Node, ghost k: nat, ghost done: bytes, ghost all: bytes, ghost kids: seq<Shape>,
                        ghost it: Item) returns (ok: bool, ghost done': bytes)
      requires it.Array? && k < |kids| == |it.kids| && Ready(done) && Trees(kids, it.kids) && current == kids[k].node
      requires done + Elements(lib, CJsonLayout(format), it.kids[k..], depth) + [CLOSE_BRACKET] == all
      modifies this, buffer, heap
      ensures SameOrNewBuffer() && current.next == old(current.next)
      ensures ok ==> depth == old(depth) && Ready(done') && Printable(lib, it.kids[k], depth) && |done| <= |done'|
      ensures ok ==> done' + Elements(lib, CJsonLayout(format), it.kids[k + 1..], depth) + [CLOSE_BRACKET] == all
      ensures !ok ==> Refused(|all|, Printable(lib, it.kids[k], old(depth)))
      decreases it, 0, 0
    {
      hide Ledger, Tail, Text, Elements, Members, Printable, ElementEnd, Trees, Models, Blocks, BlocksOf, Ready,
           Written;
      ghost var kidText := Text(lib, CJsonLayout(format), it.kids[k], depth);
      ghost var end := ElementEnd(CJsonLayout(format), k + 1 == |it.kids|);
      ghost var rest := Elements(lib, CJsonLayout(format), it.kids[k + 1..], depth);
      ElementParts(lib, CJsonLayout(format), it.kids, k, depth, done, all);
      KidTree(kids, it.kids, k);
      KidApart(current, kids[k], it.kids[k]);
      done' := done;
      ok := PrintValue(current, done, kids[k], it.kids[k]);
      if !ok {
        return;
      }
      TextNulFree(lib, CJsonLayout(format), it.kids[k], depth);
      UpdateOffset(done, kidText);
      ok := PrintElementEnd(current.next == null, done + kidText);
      done' := done + kidText + end;
    }

    /** A node to print is neither the buffer nor this. */
    lemma {:induction false} KidApart(node: Node, sh: Shape, it: Item)
      requires Tree(node, sh, it)
      ensures node as object != this && node as object != buffer && (node.key != null ==> node.key != buffer)
    {
      hide Models;
      NodeShows(sh, it);
      FieldsOf(sh, it);
    }

    method PrintOpenBrace(ghost pre: bytes) returns (ok: bool)
      requires Ready(pre)
      modifies this, buffer, heap
      ensures SameOrNewBuffer() && depth == old(depth) + (if ok then 1 else 0)
      ensures ok ==> Ready(pre + ObjectStart(CJsonLayout(format)))
      ensures !ok ==> Refused(|pre| + |ObjectStart(CJsonLayout(format))|, true)
    {
      hide Ledger, Tail;
      var size := if format then 2 else 1;
      ok := Ensure(size + 1);
      if ok {
        Put(offset, OPEN_BRACE);
        depth := depth + 1;
        if format {
          Put(offset + 1, NEWLINE);
        }
        offset := offset + size;
      }
    }

    /** The indentation of a member; it is only written when formatting. */
    method PrintIndent(ghost pre: bytes) returns (ok: bool)
      requires Ready(pre)
      modifies this, buffer, heap
      ensures SameOrNewBuffer() && depth == old(depth)
      ensures ok ==> Ready(pre + Indent(CJsonLayout(format), depth))
      ensures !ok ==> Refused(|pre| + |Indent(CJsonLayout(format), depth)|, true)
    {
      hide Ledger, Tail;
      ok := true;
      if format {
        ok := Ensure(depth);
        if ok {
          WriteTabs(offset, depth);
          offset := offset + depth;
        }
      } else {
        assert pre + [] == pre;
      }
    }

    method PrintColon(ghost pre: bytes) returns (ok: bool)
      requires Ready(pre)
      modifies this, buffer, heap
      ensures SameOrNewBuffer() && depth == old(depth)
      ensures ok ==> Ready(pre + [COLON] + AfterColon(CJsonLayout(format)))
      ensures !ok ==> Refused(|pre| + |AfterColon(CJsonLayout(format))| + 1, true)
    {
      hide Ledger, Tail;
      var size := if format then 2 else 1;
      ok := Ensure(size);
      if ok {
        Put(offset, COLON);
        if format {
          Put(offset + 1, TAB);
        }
        offset := offset + size;
      }
    }

    method PrintMemberEnd(last: bool, ghost pre: bytes) returns (ok: bool)
      requires Ready(pre)
      modifies this, buffer, heap
      ensures SameOrNewBuffer() && depth == old(depth)
      ensures ok ==> Ready(pre + MemberEnd(CJsonLayout(format), last))
      ensures !ok ==> Refused(|pre| + |MemberEnd(CJsonLayout(format), last)|, true)
    {
      hide Ledger, Tail;
      var size := (if format then 1 else 0) + (if last then 0 else 1);
      ok := Ensure(size + 1);
      if ok {
        WriteMemberEnd(offset, last);
        offset := offset + size;
      }
    }

    method WriteMemberEnd(at: nat, last: bool)
      requires Valid() && buffer != null
      requires reservedFrom <= at && at + |MemberEnd(CJsonLayout(format), last)| + 1 <= reservedTo
      modifies buffer
      ensures buffer[..at + |MemberEnd(CJsonLayout(format), last)|]
           == old(buffer[..at]) + MemberEnd(CJsonLayout(format), last)
      ensures Tail() == old(Tail())
    {
      hide Ledger, Tail;
      var end := at;
      if !last {
        Put(end, COMMA);
        end := end + 1;
      }
      if format {
        Put(end, NEWLINE);
        end := end + 1;
      }
      Put(end, NUL);
      assert buffer[..end] == buffer[..end + 1][..end];
    }

    method PrintMemberStart(key: Option<cstring>, ghost pre: bytes) returns (ok: bool)
      requires Ready(pre)
      modifies this, buffer, heap
      ensures SameOrNewBuffer() && depth == old(depth)
      ensures ok ==> Ready(pre + MemberStart(CJsonLayout(format), key, depth))
      ensures !ok ==> Refused(|pre| + |MemberStart(CJsonLayout(format), key, depth)|, true)
    {
      hide Ledger, Tail, Quoted, Indent, AfterColon;
      ghost var indent := Indent(CJsonLayout(format), depth);
      ghost var name := Quoted(OrEmpty(key));
      ok := PrintIndent(pre);
      if !ok {
        return;
      }
      ok := PrintStringPtr(key, pre + indent);
      if !ok {
        return;
      }
      QuotedNulFree(OrEmpty(key));
      UpdateOffset(pre + indent, name);
      ok := PrintColon(pre + indent + name);
      assert pre + MemberStart(CJsonLayout(format), key, depth)
          == pre + indent + name + [COLON] + AfterColon(CJsonLayout(format));
    }

    method WriteCloseBrace(at: nat, ghost tail: bytes)
      requires Valid() && buffer != null && depth > 0
      requires tail == Indent(CJsonLayout(format), depth - 1) + [CLOSE_BRACE]
      requires reservedFrom <= at && at + |tail| + 1 <= reservedTo
      modifies buffer
      ensures buffer[..at + |tail| + 1] == old(buffer[..at]) + tail + [NUL] && Tail() == old(Tail())
    {
      hide Ledger, Tail, Indent;
      IndentSize(format, depth - 1);
      var end := at;
      if format {
        WriteTabs(end, depth - 1);
        end := end + (depth - 1);
      }
      assert buffer[..end] == old(buffer[..at]) + Indent(CJsonLayout(format), depth - 1) by {
        TabsAreIndent(format, depth - 1);
        assert old(buffer[..at]) + [] == old(buffer[..at]);
      }
      Put(end, CLOSE_BRACE);
      Put(end + 1, NUL);
    }

    static lemma TabsAreIndent(format: bool, depth: nat)
      ensures Indent(CJsonLayout(format), depth) == if format then Repeat([TAB], depth) else []
    {
    }

    static lemma IndentSize(format: bool, depth: nat)
      ensures |Indent(CJsonLayout(format), depth)| == if format then depth else 0
    {
    }

    method PrintCloseBrace(ghost pre: bytes, ghost tail: bytes) returns (ok: bool)
      requires Ready(pre) && depth > 0
      requires tail == Indent(CJsonLayout(format), depth - 1) + [CLOSE_BRACE]
      modifies this, buffer, heap
      ensures SameOrNewBuffer() && depth == old(depth) - (if ok then 1 else 0)
      ensures ok ==> Shows(pre, tail) && |pre| + |tail| + 2 <= length
      ensures !ok ==> Refused(|pre| + |tail|, true)
    {
      hide Ledger, Tail, Indent;
      IndentSize(format, depth - 1);
      ok := Ensure(if format then depth + 1 else 2);
      if ok {
        WriteCloseBrace(offset, tail);
        depth := depth - 1;
      }
    }

    method PrintObject(item: Node, ghost pre: bytes, ghost sh: Shape, ghost it: Item) returns (ok: bool)
      requires it.Object? && Ready(pre) && Tree(item, sh, it)
      modifies this, buffer, heap
      ensures SameOrNewBuffer()
      ensures ok ==> Printable(lib, it, old(depth)) && depth == old(depth)
      ensures ok ==> Shows(pre, Text(lib, CJsonLayout(format), it, old(depth)))
      ensures ok ==> |pre| + |Text(lib, CJsonLayout(format), it, old(depth))| + 2 <= length
      ensures !ok ==> Refused(|pre| + |Text(lib, CJsonLayout(format), it, old(depth))|, Printable(lib, it, old(depth)))
      decreases it, 8
    {
      hide Ledger, Tail, Text, Elements, Members, ObjectStart, Indent, Tree, Trees, Printable, KidsPrintable;
      hide Ready, Written, Refused, ModelsAll, NextChained, BlocksOf, NodesOf, Models, Blocks, Inner;
      ghost var all := pre + Text(lib, CJsonLayout(format), it, depth);
      ListPrintable(it, depth);
      ReadyLedger(pre);
      if depth >= NESTING_LIMIT {
        TooDeep(|all|);
        return false;
      }
      ObjectParts(lib, CJsonLayout(format), it, depth, pre);
      TreeShows(item, sh, it);
      ok := PrintBraces(item.child, pre, all, Indent(CJsonLayout(format), depth) + [CLOSE_BRACE], sh.kids, it);
    }

    method PrintBraces(first: Node?, ghost pre: bytes, ghost all: bytes, ghost tail: bytes, ghost kids: seq<Shape>,
                       ghost it: Item) returns (ok: bool)
      requires it.Object? && Ready(pre) && Trees(kids, it.kids) && |kids| == |it.kids| && first == First(kids)
      requires pre + ObjectStart(CJsonLayout(format))
             + Members(lib, CJsonLayout(format), it.kids[0..], depth + 1) + tail == all
      requires tail == Indent(CJsonLayout(format), depth) + [CLOSE_BRACE]
      modifies this, buffer, heap
      ensures SameOrNewBuffer()
      ensures ok ==> depth == old(depth) && KidsPrintable(it.kids, depth + 1)
      ensures ok ==> Written(|pre|, all) && |all| + 2 <= length
      ensures !ok ==> Refused(|all|, KidsPrintable(it.kids, old(depth) + 1))
      decreases it, 7
    {
      hide Ledger, Tail, Text, Elements, Members, Printable, ObjectStart, Indent, KidsPrintable, ModelsAll,
           NextChained, BlocksOf, NodesOf, Models, Blocks, Inner, Ready, Written;
      ReadyLedger(pre);
      BlocksOfAllocated(kids);
      NodesInBlocks(kids);
      ok := PrintOpenBrace(pre);
      if !ok {
        return;
      }
      ok := PrintInBraces(first, |pre|, pre + ObjectStart(CJsonLayout(format)), all, tail, kids, it);
    }

    /** Behind the opening brace. */
    method PrintInBraces(first: Node?, ghost from: nat, ghost start: bytes, ghost all: bytes, ghost tail: bytes,
                         ghost kids: seq<Shape>, ghost it: Item) returns (ok: bool)
      requires it.Object? && Ready(start) && Trees(kids, it.kids) && |kids| == |it.kids| && first == First(kids)
      requires start + Members(lib, CJsonLayout(format), it.kids[0..], depth) + tail == all
      requires from <= |start| && depth > 0 && tail == Indent(CJsonLayout(format), depth - 1) + [CLOSE_BRACE]
      modifies this, buffer, heap
      ensures SameOrNewBuffer()
      ensures ok ==> depth == old(depth) - 1 && KidsPrintable(it.kids, old(depth))
      ensures ok ==> Written(from, all) && |all| + 2 <= length
      ensures !ok ==> Refused(|all|, KidsPrintable(it.kids, old(depth)))
      decreases it, 6
    {
      hide Ledger, Tail, Text, Elements, Members, Printable, KidsPrintable, Trees, BlocksOf, NodesOf, Indent;
      ghost var done;
      ok, done := PrintMembers(first, start, all, tail, kids, it);
      if !ok {
        return;
      }
      ok := PrintCloseBrace(done, tail);
    }

    /** The loop of print_object. */
    method PrintMembers(first: Node?, ghost start: bytes, ghost all: bytes, ghost tail: bytes, ghost kids: seq<Shape>,
                        ghost it: Item) returns (ok: bool, ghost done: bytes)
      requires it.Object? && Ready(start) && tail != []
      requires Trees(kids, it.kids) && |kids| == |it.kids| && first == First(kids)
      requires start + Members(lib, CJsonLayout(format), it.kids[0..], depth) + tail == all
      modifies this, buffer, heap
      ensures SameOrNewBuffer()
      ensures ok ==> depth == old(depth) && Ready(done) && done + tail == all && |start| <= |done|
      ensures ok ==> KidsPrintable(it.kids, depth)
      ensures !ok ==> Refused(|all|, KidsPrintable(it.kids, old(depth)))
      decreases it, 0, 2
    {
      hide Ledger, Tail, Text, Elements, Members, Printable, KidsPrintable, Indent, ModelsAll, NextChained, BlocksOf,
           NodesOf, Ready, Written;
      ReadyLedger(start);
      BlocksOfAllocated(kids);
      NodesInBlocks(kids);
      ok := true;
      done := start;
      var current := first;
      ghost var k := 0;
      AllPrintable(it.kids, depth);
      while current != null
        invariant k <= |kids| && current == NodeAt(kids, k) && Trees(kids, it.kids)
        invariant SameOrNewBuffer() && Ready(done) && depth == old(depth) && |start| <= |done|
        invariant KidsPrintable(it.kids[..k], depth)
        invariant done + Members(lib, CJsonLayout(format), it.kids[k..], depth) + tail == all
        decreases |kids| - k
      {
        KidTree(kids, it.kids, k);
        OneMorePrintable(it.kids, k, depth);
        ok, done := PrintMember(current, k, done, all, tail, kids, it);
        if !ok {
          return;
        }
        current := current.next;
        k := k + 1;
      }
      NothingLeft(lib, CJsonLayout(format), it.kids, k, depth, done);
    }

    /** One round of print_object's loop. */
    method PrintMember(current: Node, ghost k: nat, ghost done: bytes, ghost all: bytes, ghost tail: bytes,
                       ghost kids: seq<Shape>, ghost it: Item) returns (ok: bool, ghost done': bytes)
      requires it.Object? && k < |kids| == |it.kids| && Ready(done) && tail != []
      requires Trees(kids, it.kids) && current == kids[k].node
      requires done + Members(lib, CJsonLayout(format), it.kids[k..], depth) + tail == all
      modifies this, buffer, heap
      ensures SameOrNewBuffer() && current.next == old(current.next)
      ensures ok ==> depth == old(depth) && Ready(done') && Printable(lib, it.kids[k], depth) && |done| <= |done'|
      ensures ok ==> done' + Members(lib, CJsonLayout(format), it.kids[k + 1..], depth) + tail == all
      ensures !ok ==> Refused(|all|, Printable(lib, it.kids[k], old(depth)))
      decreases it, 0, 1
    {
      hide Ledger, Tail, Text, Elements, Members, Printable, MemberStart, MemberEnd, Trees, Tree, Ready, Written;
      ghost var start := MemberStart(CJsonLayout(format), it.kids[k].key, depth);
      ghost var kidText := Text(lib, CJsonLayout(format), it.kids[k], depth);
      ghost var end := MemberEnd(CJsonLayout(format), k + 1 == |it.kids|);
      MemberParts(lib, CJsonLayout(format), it.kids, k, depth, done, tail, all);
      KidTree(kids, it.kids, k);
      KidApart(current, kids[k], it.kids[k]);
      done' := done;
      ok := PrintNameAndValue(current, done, kids[k], it.kids[k]);
      if !ok {
        return;
      }
      ok := PrintMemberEnd(current.next == null, done + start + kidText);
      done' := done + start + kidText + end;
    }

    /** The start of a member leaves the tree as it is. */
    method PrintName(current: Node, ghost pre: bytes, ghost sh: Shape, ghost it: Item) returns (ok: bool)
      requires Ready(pre) && Tree(current, sh, it) && StringAt(current.key) == it.key
      modifies this, buffer, heap
      ensures SameOrNewBuffer() && depth == old(depth)
      ensures ok ==> Ready(pre + MemberStart(CJsonLayout(format), it.key, depth)) && Tree(current, sh, it)
      ensures !ok ==> Refused(|pre| + |MemberStart(CJsonLayout(format), it.key, depth)|, true)
    {
      hide Ledger, Tail, MemberStart, Models, Blocks, Inner;
      BlocksAllocated(sh);
      ReadsOwn(sh);
      ok := PrintMemberStart(StringAt(current.key), pre);
    }

    method PrintNameAndValue(current: Node, ghost pre: bytes, ghost sh: Shape, ghost it: Item) returns (ok: bool)
      requires Ready(pre) && Tree(current, sh, it) && StringAt(current.key) == it.key
      modifies this, buffer, heap
      ensures SameOrNewBuffer()
      ensures ok ==> depth == old(depth) && Printable(lib, it, depth)
      ensures ok ==> Ready(pre + MemberStart(CJsonLayout(format), it.key, depth)
                               + Text(lib, CJsonLayout(format), it, depth))
      ensures !ok ==> Refused(|pre| + |MemberStart(CJsonLayout(format), it.key, old(depth))|
                                    + |Text(lib, CJsonLayout(format), it, old(depth))|,
                              Printable(lib, it, old(depth)))
      decreases it, 10
    {
      hide Ledger, Tail, Text, Elements, Members, Printable, MemberStart, Tree, Ready, Written;
      ghost var start := MemberStart(CJsonLayout(format), it.key, depth);
      ok := PrintName(current, pre, sh, it);
      if !ok {
        return;
      }
      ok := PrintValue(current, pre + start, sh, it);
      if !ok {
        return;
      }
      TextNulFree(lib, CJsonLayout(format), it, depth);
      UpdateOffset(pre + start, Text(lib, CJsonLayout(format), it, depth));
    }
  }
}
