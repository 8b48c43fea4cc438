/** The parser over its buffer, building nodes in memory. */
module ParseBuffer {
  import opened Bytes
  import opened CLibrary
  import opened Items
  import opened Utf8
  import opened StringParser
  import opened Parser
  import opened Heap

  class Buffer {
    const content: bytes
    var offset: nat
    var depth: nat
    const lib: CLib
    const heap: Allocator

    constructor (content: bytes, lib: CLib, heap: Allocator)
      ensures this.content == content && this.lib == lib && this.heap == heap
      ensures offset == 0 && depth == 0
    {
      this.content, this.lib, this.heap := content, lib, heap;
      offset, depth := 0, 0;
    }

    ghost predicate Valid()
      reads this, heap
    {
      offset <= |content| && heap.Valid() && this !in heap.live
    }

    method SkipWhitespace()
      requires offset <= |content|
      modifies this`offset
      ensures offset == SkipSpace(content, old(offset))
    {
      if offset >= |content| {
        return;
      }
      while offset < |content| && content[offset] <= 32
        invariant old(offset) <= offset <= |content|
        invariant SpaceEnd(content, old(offset)) == SpaceEnd(content, offset)
        decreases |content| - offset
      {
        offset := offset + 1;
      }
      if offset == |content| {
        offset := offset - 1;
      }
    }

    method SkipBom()
      requires offset == 0
      modifies this`offset
      ensures offset == Parser.SkipBom(content)
    {
      if |content| > 4 && At(content, 0, [0xEF, 0xBB, 0xBF]) {
        offset := offset + 3;
      }
    }

    // ----- strings

    /** The first pass of parse_string: the closing quote, and the size to allocate. */
    method SizeString(start: nat) returns (ok: bool, end: nat, size: nat)
      requires 0 < start <= |content|
      ensures ok <==> CloseQuote(content, start).Some?
      ensures ok ==> CloseQuote(content, start) == Some(end) && size == Steps(content, start) + 1
    {
      end := start;
      size := 0;
      var skipped := 0;
      while end < |content| && content[end] != QUOTE
        invariant start <= end <= |content|
        invariant CloseQuote(content, start) == CloseQuote(content, end)
        invariant CloseQuote(content, start).Some? ==>
          Steps(content, start) == Steps(content, end) + (end - start - skipped)
        decreases |content| - end
      {
        if content[end] == BACKSLASH {
          if end + 1 >= |content| {
            return false, end, size;
          }
          skipped := skipped + 1;
          end := end + 1;
        }
        end := end + 1;
      }
      if end >= |content| {
        return false, end, size;
      }
      size := end - (start - 1) - skipped;
      return true, end, size;
    }

    /** One UTF-16 literal, written at `out` as UTF-8. */
    method ConvertLiteral(p: nat, end: nat, output: array<byte>, out: nat) returns (length: nat, next: nat)
      requires p <= end <= |content|
      requires out <= output.Length
      requires LiteralAt(content, p, end).Good? ==>
        out + |Encode(LiteralAt(content, p, end).codepoint)| <= output.Length
      modifies output
      ensures length == 0 <==> LiteralAt(content, p, end).Bad?
      ensures length != 0 ==>
        var l := LiteralAt(content, p, end);
        length == l.length && next == out + |Encode(l.codepoint)|
        && output[..next] == old(output[..out]) + Encode(l.codepoint)
    {
      hide Encode, Hex4;
      next := out;
      if end - p < 6 {
        return 0, next;
      }
      var first := ParseHex4(content, p + 2);
      if 0xDC00 <= first <= 0xDFFF {
        return 0, next;
      }
      var codepoint: nat;
      if 0xD800 <= first <= 0xDBFF {
        length := 12;
        if end - (p + 6) < 6 {
          return 0, next;
        }
        if content[p + 6] != BACKSLASH || content[p + 7] != LETTER_U {
          return 0, next;
        }
        var second := ParseHex4(content, p + 8);
        if second < 0xDC00 || second > 0xDFFF {
          return 0, next;
        }
        LowBits(first, second);
        codepoint := 0x10000 + first % 0x400 * 0x400 + second % 0x400;
      } else {
        length := 6;
        codepoint := first;
      }
      next := EncodeInto(codepoint, output, out);
    }

    /** How far the second pass has come, and that what is left still fits. */
    ghost predicate Decoding(start: nat, end: nat, p: nat, inside: bool, stored: bytes)
    {
      && CloseQuote(content, start) == Some(end)
      && start <= p <= |content|
      && (p <= end ==> Tracks(content, p, inside, end)
                       && |stored| + Room(content, p, inside, end) <= Steps(content, start))
      && (p > end ==> |stored| <= Steps(content, start))
      && DecodeFrom(content, start, end, []) == DecodeFrom(content, p, end, stored)
    }

    /** The byte that a one-letter escape stands for. */
    static method SimpleEscape(c: byte) returns (ok: bool, b: byte)
      ensures ok <==> Unescape(c).Some?
      ensures ok ==> Unescape(c) == Some(b)
    {
      ok, b := true, c;
      if c == 98 {
        b := 8;
      } else if c == 102 {
        b := 12;
      } else if c == 110 {
        b := 10;
      } else if c == 114 {
        b := 13;
      } else if c == 116 {
        b := 9;
      } else if c == QUOTE || c == BACKSLASH || c == SLASH {
      } else {
        ok := false;
      }
    }

    /** One round of the second pass. */
    method DecodeStep(output: array<byte>, start: nat, end: nat, p: nat, out: nat, ghost inside: bool)
      returns (ok: bool, p': nat, out': nat, ghost inside': bool)
      requires CloseQuote(content, start).Some? && output.Length == Steps(content, start) + 2
      requires p < end && out <= output.Length && Decoding(start, end, p, inside, output[..out])
      modifies output
      ensures ok ==> p < p' && out' <= output.Length && Decoding(start, end, p', inside', output[..out'])
      ensures !ok ==> p' == p && DecodeFrom(content, start, end, []) == BadAt(p)
    {
      hide Encode, LiteralAt, CloseQuote, Steps, Unescape;
      ok, p', out', inside' := true, p, out, inside;
      UnescapeU();
      if content[p] != BACKSLASH {
        RoomPlain(content, p, inside, end);
        output[out] := content[p];
        assert output[..out + 1] == old(output[..out]) + [content[p]];
        p', out', inside' := p + 1, out + 1, false;
        return;
      }
      var c := content[p + 1];
      if c == LETTER_U {
        if LiteralAt(content, p, end).Good? {
          RoomLiteral(content, p, inside, end);
        }
        var length;
        length, out' := ConvertLiteral(p, end, output, out);
        if length == 0 {
          return false, p, out, inside;
        }
        p', inside' := p + length, InsideAfter(content, p, inside, length);
        return;
      }
      var b;
      ok, b := SimpleEscape(c);
      if !ok {
        return false, p, out, inside;
      }
      RoomEscape(content, p, inside, end);
      output[out] := b;
      assert output[..out + 1] == old(output[..out]) + [b];
      p', out', inside' := p + 2, out + 1, AfterEscape(content, p, inside);
    }

    static lemma UnescapeU()
      ensures Unescape(LETTER_U).None?
    {
    }

    /** The second pass of parse_string. Every store, and the terminator, is inside the block. */
    method DecodeInto(output: array<byte>, start: nat, end: nat) returns (ok: bool, p: nat)
      requires CloseQuote(content, start) == Some(end) && output.Length == Steps(content, start) + 2
      modifies output
      ensures ok ==>
        && DecodeFrom(content, start, end, []).Unescaped?
        && var text := DecodeFrom(content, start, end, []).text;
           |text| + 1 < output.Length && output[..|text| + 1] == text + [NUL]
      ensures !ok ==> DecodeFrom(content, start, end, []) == BadAt(p)
    {
      p := start;
      var out: nat := 0;
      ghost var inside := false;
      ok := true;
      assert output[..0] == [];
      while p < end
        invariant out <= output.Length && Decoding(start, end, p, inside, output[..out])
        decreases |content| - p
      {
        ok, p, out, inside := DecodeStep(output, start, end, p, out, inside);
        if !ok {
          return;
        }
      }
      output[out] := NUL;
      assert output[..out + 1] == output[..out] + [NUL];
    }

    /** parse_string: the decoded string, in a new block owned by the item. */
    method ReadString(item: Node) returns (ok: bool)
      requires Valid() && offset < |content| && item.valuestring == null
      modifies this`offset, heap, item`kind, item`valuestring
      ensures Valid()
      ensures ok ==> item.kind == KString && item.valuestring != null && fresh(item.valuestring)
      ensures ok ==> heap.live == old(heap.live) + {item.valuestring}
      ensures ok ==>
        var r := StringParser.ParseString(content, old(offset));
        r.StringRead? && offset == r.next && Holds(item.valuestring, Some(CString(r.text)))
      ensures !ok ==>
        heap.live == old(heap.live) && item.kind == old(item.kind) && item.valuestring == null
      ensures ok ==> heap.failures == old(heap.failures)
      ensures !ok ==>
        heap.failures != old(heap.failures) || StringParser.ParseString(content, old(offset)) == NoString(offset)
    {
      var start := offset + 1;
      if content[offset] != QUOTE {
        offset := start;
        return false;
      }
      var found, end, size := SizeString(start);
      if !found {
        offset := start;
        return false;
      }
      var output := heap.NewBytes(size + 1);
      if output == null {
        offset := start;
        return false;
      }
      var decoded, at := DecodeInto(output, start, end);
      DecodeBound(content, start, end, []);
      if !decoded {
        heap.Free(output);
        offset := at;
        return false;
      }
      ghost var text := DecodeFrom(content, start, end, []).text;
      TextStored(output, text);
      item.kind := KString;
      item.valuestring := output;
      offset := end + 1;
      return true;
    }

    static lemma {:induction false} TextStored(a: array<byte>, text: bytes)
      requires |text| + 1 <= a.Length && a[..|text| + 1] == text + [NUL]
      ensures Holds(a, Some(CString(text)))
    {
      assert a[..] == text + [NUL] + a[|text| + 1..];
      assert a[..][|text|] == NUL;
      CStringOfPrefix(text, a[|text| + 1..]);
    }

    /** The int that goes with a number, saturated. */
    static method IntOf(d: real) returns (n: int)
      ensures n == Saturate(d)
    {
      if d >= INT_MAX as real {
        return INT_MAX;
      }
      if d <= INT_MIN as real {
        return INT_MIN;
      }
      return Truncate(d);
    }

    /** The bytes that strtod is to see. */
    method ScanNumber() returns (n: nat)
      requires offset <= |content|
      ensures offset + n == NumberEnd(content, offset)
    {
      n := 0;
      while offset + n < |content| && NumberByte(content[offset + n])
        invariant offset + n <= |content|
        invariant NumberEnd(content, offset) == NumberEnd(content, offset + n)
        decreases |content| - n
      {
        n := n + 1;
      }
    }

    /** They are copied into a temporary block, which is freed again. */
    method Convert(n: nat) returns (ok: bool, number: Strtod)
      requires Valid() && offset + n <= |content|
      modifies heap
      ensures Valid() && heap.live == old(heap.live)
      ensures ok <==> heap.failures == old(heap.failures)
      ensures ok ==> number == lib.strtod(content[offset..offset + n])
    {
      number := Strtod(0, 0.0);
      var copy := heap.NewBytes(n + 1);
      if copy == null {
        return false, number;
      }
      forall k | 0 <= k < n {
        copy[k] := content[offset + k];
      }
      copy[n] := NUL;
      assert copy[..n] == content[offset..offset + n];
      number := lib.strtod(copy[..n]);
      heap.Free(copy);
      ok := true;
    }

    /** parse_number. */
    method ReadNumber(item: Node) returns (ok: bool)
      requires Valid()
      modifies this`offset, heap, item`kind, item`valueint, item`valuedouble
      ensures Valid() && heap.live == old(heap.live)
      ensures ok ==>
        var r := ParseNumber(lib, content, old(offset));
        && r.Ok? && offset == r.next && r.item == Item.Number(None, item.valuedouble)
        && item.kind == KNumber && item.valueint == Saturate(item.valuedouble)
      ensures !ok ==> item.kind == old(item.kind)
      ensures ok ==> heap.failures == old(heap.failures)
      ensures !ok ==> heap.failures != old(heap.failures) || ParseNumber(lib, content, old(offset)) == Fail(offset)
    {
      hide JsonNumber, Decimal, Saturate;
      var n := ScanNumber();
      var number;
      ok, number := Convert(n);
      if !ok {
        return;
      }
      if number.consumed == 0 {
        return false;
      }
      item.valuedouble := number.value;
      item.valueint := IntOf(number.value);
      item.kind := KNumber;
      offset := offset + number.consumed;
    }

    /** `name` is what the item's key holds; the parsed value gets it as its key. */
    ghost function Expected(i: nat, d: nat, name: Option<cstring>): Item
      requires i <= |content| && ParseValue(lib, content, i, d).Ok?
    {
      WithKey(ParseValue(lib, content, i, d).item, name)
    }

    /** A node that has no value yet. */
    ghost predicate Blank(item: Node, name: Option<cstring>)
      reads item, Block(item.key)
    {
      item.valuestring == null && item.child == null && Holds(item.key, name)
    }

    static lemma {:induction false} NothingHeld()
      ensures Holds(null, None)
    {
    }

    static lemma AtLength(s: bytes, i: nat, t: bytes)
      requires At(s, i, t)
      ensures i + |t| <= |s|
    {
    }

    static lemma OneWord(s: bytes, i: nat)
      ensures At(s, i, TRUE_TEXT) ==> !At(s, i, NULL_TEXT) && !At(s, i, FALSE_TEXT)
    {
      forall t: bytes | t != [] && At(s, i, t) ensures i < |s| && t[0] == s[i] {
        AtByte(s, i, t, 0);
      }
    }

    /** A value without text or children: its kind, and the end of its text. */
    method StoreLiteral(item: Node, kind: Kind, length: nat, ghost name: Option<cstring>, ghost value: Item)
      returns (ghost sh: Shape)
      requires Valid() && Blank(item, name) && offset + length <= |content| && KindIs(kind, value) && value.key == name
      requires value.Null? || value.False? || value.True?
      modifies this`offset, item`kind
      ensures Valid() && offset == old(offset) + length
      ensures sh == Shape(item, null, item.key, []) && Models(sh, value) && Separate(sh) && Inner(sh) == {}
    {
      hide Models, Separate, Inner, Holds;
      item.kind := kind;
      offset := offset + length;
      sh := Shape(item, null, item.key, []);
      NothingHeld();
      ScalarModels(sh, value);
    }

    method ReadStringValue(item: Node, ghost name: Option<cstring>) returns (ok: bool, ghost sh: Shape)
      requires Valid() && Blank(item, name) && offset < |content|
      modifies this`offset, heap, item`kind, item`valuestring
      ensures Valid() && sh == Shape(item, item.valuestring, item.key, [])
      ensures ok ==>
        var r := StringParser.ParseString(content, old(offset));
        && r.StringRead? && offset == r.next
        && Models(sh, Item.String(name, Some(CString(r.text)))) && Separate(sh)
      ensures ok ==> fresh(Inner(sh)) && heap.live == old(heap.live) + Inner(sh)
      ensures !ok ==> heap.live == old(heap.live) && item.kind == old(item.kind) && item.valuestring == null
      ensures ok ==> heap.failures == old(heap.failures)
      ensures !ok ==>
        heap.failures != old(heap.failures) || StringParser.ParseString(content, old(offset)) == NoString(offset)
    {
      hide Models, Separate, Inner, Holds, StringParser.ParseString;
      ok := ReadString(item);
      sh := Shape(item, item.valuestring, item.key, []);
      if ok {
        ghost var text := StringParser.ParseString(content, old(offset)).text;
        ScalarModels(sh, Item.String(name, Some(CString(text))));
      }
    }

    method ReadNumberValue(item: Node, ghost name: Option<cstring>) returns (ok: bool, ghost sh: Shape)
      requires Valid() && Blank(item, name)
      modifies this`offset, heap, item`kind, item`valueint, item`valuedouble
      ensures Valid() && sh == Shape(item, null, item.key, []) && heap.live == old(heap.live)
      ensures ok ==>
        var r := ParseNumber(lib, content, old(offset));
        && r.Ok? && offset == r.next && r.item == Item.Number(None, item.valuedouble)
        && Models(sh, Item.Number(name, item.valuedouble)) && Separate(sh) && Inner(sh) == {}
      ensures !ok ==> item.kind == old(item.kind)
      ensures ok ==> heap.failures == old(heap.failures)
      ensures !ok ==> heap.failures != old(heap.failures) || ParseNumber(lib, content, old(offset)) == Fail(offset)
    {
      hide Models, Separate, Inner, Holds, ParseNumber;
      ok := ReadNumber(item);
      sh := Shape(item, null, item.key, []);
      if ok {
        NothingHeld();
        ScalarModels(sh, Item.Number(name, item.valuedouble));
      }
    }

    /** parse_value. */
    method ReadValue(item: Node, ghost name: Option<cstring>) returns (ok: bool, ghost sh: Shape)
      requires Valid() && Blank(item, name)
      modifies this`offset, this`depth, heap
      modifies item`kind, item`valuestring, item`valueint, item`valuedouble, item`child
      ensures Valid() && sh.node == item && sh.key == item.key
      ensures ok ==>
        && ParseValue(lib, content, old(offset), old(depth)).Ok?
        && offset == ParseValue(lib, content, old(offset), old(depth)).next && depth == old(depth)
        && Models(sh, Expected(old(offset), old(depth), name)) && Separate(sh)
      ensures ok ==> fresh(Inner(sh)) && heap.live == old(heap.live) + Inner(sh)
      ensures !ok ==> heap.live == old(heap.live)
      ensures !ok ==> item.kind == old(item.kind) && item.valuestring == null && item.child == null
      ensures !ok ==> sh == Shape(item, null, item.key, [])
      ensures ok ==> heap.failures == old(heap.failures)
      ensures !ok ==>
        heap.failures != old(heap.failures) || ParseValue(lib, content, old(offset), old(depth)) == Fail(offset)
      ensures At(content, old(offset), TRUE_TEXT) ==> item.valueint == 1
      decreases |content| - offset, 10
    {
      hide Models, Separate, Inner, At, Holds, ParseNumber, StringParser.ParseString, ParseArray, ParseObject;
      OneWord(content, offset);
      sh := Shape(item, null, item.key, []);
      if At(content, offset, NULL_TEXT) {
        AtLength(content, offset, NULL_TEXT);
        sh := StoreLiteral(item, KNull, 4, name, Null(name));
        return true, sh;
      }
      if At(content, offset, FALSE_TEXT) {
        AtLength(content, offset, FALSE_TEXT);
        sh := StoreLiteral(item, KFalse, 5, name, False(name));
        return true, sh;
      }
      if At(content, offset, TRUE_TEXT) {
        AtLength(content, offset, TRUE_TEXT);
        item.valueint := 1;
        sh := StoreLiteral(item, KTrue, 4, name, True(name));
        return true, sh;
      }
      if offset < |content| && content[offset] == QUOTE {
        ok, sh := ReadStringValue(item, name);
        return;
      }
      if offset < |content| && (content[offset] == MINUS || IsDigit(content[offset])) {
        ok, sh := ReadNumberValue(item, name);
        return;
      }
      if offset < |content| && content[offset] == OPEN_BRACKET {
        ok, sh := ReadArray(item, name);
        return;
      }
      if offset < |content| && content[offset] == OPEN_BRACE {
        ok, sh := ReadObject(item, name);
        return;
      }
      return false, sh;
    }

    /** Fails at any point: the elements read so far are freed. */
    method Abandon(head: Node?, ghost base: set<object>, ghost kids: seq<Shape>, ghost items: seq<Item>)
      requires Valid() && Linked(head, kids, items, null)
      requires heap.live == base + BlocksOf(kids) && base !! BlocksOf(kids)
      modifies heap`live, BlocksOf(kids)
      ensures Valid() && heap.live == base
    {
      hide BlocksOf, Models, Stored, Separate, Inner, Blocks;
      if head != null {
        AllModelsAreStored(kids, items);
        Delete(head, heap, kids);
      } else {
        assert kids == [];
        NoBlocks();
      }
    }

    /** Allocates the next child and attaches it to the list. */
    method AppendNode(head: Node?, current: Node?, ghost base: set<object>,
                      ghost kids: seq<Shape>, ghost items: seq<Item>)
      returns (head': Node?, node: Node?)
      requires Valid() && Linked(head, kids, items, null) && current == Last(kids)
      requires heap.live == base + BlocksOf(kids)
      modifies heap, Only(current)`next
      ensures Valid() && heap.failures == old(heap.failures) + (if node == null then 1 else 0)
      ensures node == null ==> head' == head && Linked(head, kids, items, null) && heap.live == old(heap.live)
      ensures node != null ==>
        && fresh(node) && heap.live == old(heap.live) + {node}
        && Linked(head', kids, items, node)
        && node.next == null && node.prev == Last(kids) && Blank(node, None) && node.key == null
        && node.kind == KInvalid
    {
      hide BlocksOf, Models, ModelsAll, Separate, SeparateAll, Inner, Blocks, Linked;
      head' := head;
      NodesInBlocks(kids);
      node := heap.NewNode();
      if node == null {
        return;
      }
      if head == null {
        FirstOfList(head, kids, items, node);
        head' := node;
      } else {
        NotEmpty(head, kids, items);
        LinkBehind(current, node, head, kids, items);
      }
    }

    static lemma {:induction false} FirstOfList(head: Node?, kids: seq<Shape>, items: seq<Item>, node: Node)
      requires head == null && Linked(head, kids, items, null)
      ensures kids == [] && items == [] && Linked(node, kids, items, node)
    {
    }

    static lemma {:induction false} NotEmpty(head: Node?, kids: seq<Shape>, items: seq<Item>)
      requires head != null && Linked(head, kids, items, null)
      ensures kids != []
    {
    }

    /** Nothing but the list's own memory is touched between the rounds of a loop. */
    ghost predicate ListState(head: Node?, current: Node?, base: set<object>, kids: seq<Shape>, items: seq<Item>)
      reads this, heap, BlocksOf(kids), NodesOf(kids)
    {
      && Valid()
      && Linked(head, kids, items, null) && current == Last(kids)
      && heap.live == base + BlocksOf(kids) && base !! BlocksOf(kids)
    }

    /** One round of parse_array's loop. */
    method ReadElement(head: Node?, current: Node?, ghost base: set<object>,
                       ghost kids: seq<Shape>, ghost items: seq<Item>)
      returns (ok: bool, head': Node?, current': Node?, ghost kids': seq<Shape>, ghost items': seq<Item>)
      requires ListState(head, current, base, kids, items) && offset < |content|
      modifies this`offset, this`depth, heap, Only(current)`next
      ensures ListState(head', current', base, kids', items')
      ensures fresh(BlocksOf(kids') - BlocksOf(kids)) && BlocksOf(kids) <= BlocksOf(kids')
      ensures ok ==>
        var r := ParseValue(lib, content, SkipSpace(content, old(offset) + 1), old(depth));
        && r.Ok? && offset == SkipSpace(content, r.next) && depth == old(depth)
        && items' == items + [WithKey(r.item, None)]
      ensures ok ==> heap.failures == old(heap.failures)
      ensures !ok ==>
        heap.failures != old(heap.failures)
        || ParseValue(lib, content, SkipSpace(content, old(offset) + 1), old(depth)) == Fail(offset)
      decreases |content| - offset, 6
    {
      hide Blocks, BlocksOf, Models, Separate, SeparateAll, Inner, ParseValue, SkipSpace, Linked, Holds, Last;
      ok, head', current', kids', items' := false, head, current, kids, items;
      var node;
      head', node := AppendNode(head, current, base, kids, items);
      if node == null {
        return;
      }
      NodesInBlocks(kids);
      offset := offset + 1;
      SkipWhitespace();
      ghost var sh;
      ok, sh := ReadValue(node, None);
      ghost var it := Invalid(None);
      if ok {
        it := Expected(SkipSpace(content, old(offset) + 1), old(depth), None);
      } else {
        BareModels(sh, it);
      }
      ReadsOwn(sh);
      Joined(head', base, kids, items, sh, it);
      current', kids', items' := node, kids + [sh], items + [it];
      if ok {
        SkipWhitespace();
      }
    }

    lemma {:induction false} Joined(head: Node?, base: set<object>, kids: seq<Shape>, items: seq<Item>,
                                    sh: Shape, it: Item)
      requires Valid() && Linked(head, kids, items, sh.node)
      requires Models(sh, it) && Separate(sh) && Blocks(sh) !! base + BlocksOf(kids)
      requires heap.live == base + BlocksOf(kids) + Blocks(sh) && base !! BlocksOf(kids)
      requires sh.node.next == null && sh.node.prev == Last(kids)
      ensures ListState(head, sh.node, base, kids + [sh], items + [it])
      ensures BlocksOf(kids + [sh]) == BlocksOf(kids) + Blocks(sh)
      ensures NodesOf(kids + [sh]) <= BlocksOf(kids + [sh])
    {
      hide Blocks, BlocksOf, Models, Separate, SeparateAll, Inner, Linked;
      LinkedAppend(head, kids, items, sh, it);
      NodesInBlocks(kids + [sh]);
    }

    /** The loop of parse_array, up to the closing bracket. */
    method ReadElements(ghost base: set<object>)
      returns (ok: bool, head: Node?, current: Node?, ghost kids: seq<Shape>, ghost items: seq<Item>)
      requires Valid() && offset < |content| && heap.live == base
      modifies this`offset, this`depth, heap
      ensures ListState(head, current, base, kids, items) && fresh(BlocksOf(kids))
      ensures ok ==>
        && offset < |content| && depth == old(depth)
        && ParseElements(lib, content, old(offset), old(depth), []) == Ok(Item.Array(None, items), offset + 1)
      ensures ok ==> heap.failures == old(heap.failures)
      ensures !ok ==>
        heap.failures != old(heap.failures) || ParseElements(lib, content, old(offset), old(depth), []) == Fail(offset)
      decreases |content| - offset, 7
    {
      hide Blocks, BlocksOf, Models, Separate, SeparateAll, Inner, ParseValue, SkipSpace, Linked, NodesOf;
      ok, head, current, kids, items := true, null, null, [], [];
      NoBlocks();
      EmptyList();
      while true
        invariant ListState(head, current, base, kids, items) && fresh(BlocksOf(kids))
        invariant offset < |content| && depth == old(depth) && old(offset) <= offset
        invariant heap.failures == old(heap.failures)
        invariant ParseElements(lib, content, old(offset), depth, [])
               == ParseElements(lib, content, offset, depth, items)
        decreases |content| - offset
      {
        FirstInBlocks(kids);
        ok, head, current, kids, items := ReadElement(head, current, base, kids, items);
        if !ok {
          return;
        }
        if !(offset < |content| && content[offset] == COMMA) {
          break;
        }
      }
      if offset >= |content| || content[offset] != CLOSE_BRACKET {
        ok := false;
      }
    }

    /** parse_array. */
    method ReadArray(item: Node, ghost name: Option<cstring>) returns (ok: bool, ghost sh: Shape)
      requires Valid() && Blank(item, name) && offset < |content| && content[offset] == OPEN_BRACKET
      modifies this`offset, this`depth, heap, item`kind, item`child
      ensures Valid() && sh.node == item && sh.key == item.key
      ensures ok ==>
        var r := ParseArray(lib, content, old(offset), old(depth));
        && r.Ok? && offset == r.next && depth == old(depth)
        && Models(sh, WithKey(r.item, name)) && Separate(sh)
      ensures ok ==> fresh(Inner(sh)) && heap.live == old(heap.live) + Inner(sh)
      ensures !ok ==> heap.live == old(heap.live) && sh == Shape(item, null, item.key, [])
      ensures !ok ==> item.kind == old(item.kind) && item.child == null
      ensures ok ==> heap.failures == old(heap.failures)
      ensures !ok ==>
        heap.failures != old(heap.failures) || ParseArray(lib, content, old(offset), old(depth)) == Fail(offset)
      decreases |content| - offset, 9
    {
      hide Blocks, BlocksOf, Models, Separate, SeparateAll, Linked, NodesOf, Inner, Holds, WithKey;
      hide SkipSpace, ParseArray, ParseElements;
      ArrayCases(offset, depth);
      ok, sh := false, Shape(item, null, item.key, []);
      if depth >= NESTING_LIMIT {
        return;
      }
      depth := depth + 1;
      offset := offset + 1;
      SkipWhitespace();
      if offset < |content| && content[offset] == CLOSE_BRACKET {
        NoBlocks();
        EmptyList();
        EmptyNamed(name);
        sh := Finish(item, null, null, KArray, heap.live, name, [], [], Item.Array(name, []));
        return true, sh;
      }
      if offset >= |content| {
        offset := offset - 1;
        return;
      }
      offset := offset - 1;
      ok, sh := ReadFilledArray(item, name);
    }

    lemma ArrayCases(i: nat, d: nat)
      requires i < |content|
      ensures
        var r, j := ParseArray(lib, content, i, d), SkipSpace(content, i + 1);
        r == if d >= NESTING_LIMIT then Fail(i)
             else if j == |content| then Fail(j - 1)
             else if content[j] == CLOSE_BRACKET then Ok(Item.Array(None, []), j + 1)
             else ParseElements(lib, content, j - 1, d + 1, [])
    {
      hide ParseElements, SkipSpace;
    }

    /** The rest of parse_array: the list, and what becomes of it. */
    method ReadFilledArray(item: Node, ghost name: Option<cstring>) returns (ok: bool, ghost sh: Shape)
      requires Valid() && Blank(item, name) && offset < |content| && depth > 0
      modifies this`offset, this`depth, heap, item`kind, item`child
      ensures Valid() && sh.node == item && sh.key == item.key
      ensures ok ==>
        var r := ParseElements(lib, content, old(offset), old(depth), []);
        && r.Ok? && offset == r.next && depth == old(depth) - 1
        && Models(sh, WithKey(r.item, name)) && Separate(sh)
      ensures ok ==> fresh(Inner(sh)) && heap.live == old(heap.live) + Inner(sh)
      ensures !ok ==> heap.live == old(heap.live) && sh == Shape(item, null, item.key, [])
      ensures !ok ==> item.kind == old(item.kind) && item.child == null
      ensures ok ==> heap.failures == old(heap.failures)
      ensures !ok ==>
        heap.failures != old(heap.failures) || ParseElements(lib, content, old(offset), old(depth), []) == Fail(offset)
      decreases |content| - offset, 8
    {
      hide Blocks, BlocksOf, Models, Separate, SeparateAll, ParseElements, Linked, NodesOf, Holds, Inner;
      sh := Shape(item, null, item.key, []);
      var head, current;
      ghost var kids, items;
      ghost var base := heap.live;
      ok, head, current, kids, items := ReadElements(base);
      if !ok {
        Abandon(head, base, kids, items);
        return;
      }
      FirstInBlocks(kids);
      HeadIs(head, kids, items);
      sh := Finish(item, head, current, KArray, base, name, kids, items, Item.Array(name, items));
    }

    static lemma EmptyNamed(name: Option<cstring>)
      ensures WithKey(Item.Array(None, []), name) == Item.Array(name, [])
      ensures WithKey(Item.Object(None, []), name) == Item.Object(name, [])
    {
    }

    /** The success paths of parse_array and parse_object. */
    method Finish(item: Node, head: Node?, current: Node?, kind: Kind, ghost base: set<object>,
                  ghost name: Option<cstring>, ghost kids: seq<Shape>, ghost items: seq<Item>, ghost value: Item)
      returns (ghost sh: Shape)
      requires ListState(head, current, base, kids, items) && offset < |content| && depth > 0
      requires Blank(item, name) && item !in BlocksOf(kids) && Block(item.key) !! BlocksOf(kids)
      requires (kind == KArray && value == Item.Array(name, items))
            || (kind == KObject && value == Item.Object(name, items))
      modifies this`offset, this`depth, Only(head)`prev, item`kind, item`child
      ensures Valid() && depth == old(depth) - 1 && offset == old(offset) + 1
      ensures sh == Shape(item, null, item.key, kids) && Models(sh, value) && Separate(sh)
      ensures Inner(sh) == BlocksOf(kids)
    {
      hide Blocks, BlocksOf, Models, Separate, SeparateAll, Linked;
      FirstInBlocks(kids);
      HeadIs(head, kids, items);
      depth := depth - 1;
      Adopt(item, head, current, kind, name, kids, items, value);
      sh := Shape(item, null, item.key, kids);
      InnerOfList(sh);
      offset := offset + 1;
    }

    static lemma {:induction false} InnerOfList(sh: Shape)
      requires sh.text == null
      ensures Inner(sh) == BlocksOf(sh.kids)
    {
    }

    /** The name of a member, stored as the node's key, and its colon. */
    method ReadName(node: Node) returns (ok: bool, ghost name: Option<cstring>)
      requires Valid() && offset < |content|
      requires node.valuestring == null && node.key == null && node.kind == KInvalid
      modifies this`offset, heap, node`kind, node`valuestring, node`key
      ensures Valid() && node.valuestring == null && Holds(node.key, name)
      ensures fresh(Block(node.key)) && heap.live == old(heap.live) + Block(node.key)
      ensures if name == None then node.kind == KInvalid else node.kind == KString
      ensures ok ==>
        && ParseName(content, old(offset)).StringRead? && offset == ParseName(content, old(offset)).next
        && name == Some(CString(ParseName(content, old(offset)).text))
      ensures ok ==> heap.failures == old(heap.failures)
      ensures !ok ==> heap.failures != old(heap.failures) || ParseName(content, old(offset)) == NoString(offset)
    {
      hide StringParser.ParseString, SkipSpace;
      name := None;
      if offset + 1 >= |content| {
        return false, name;
      }
      offset := offset + 1;
      SkipWhitespace();
      ghost var at := offset;
      ok := ReadString(node);
      if !ok {
        return;
      }
      SkipWhitespace();
      name := Some(CString(StringParser.ParseString(content, at).text));
      node.key := node.valuestring;
      node.valuestring := null;
      if offset >= |content| || content[offset] != COLON {
        return false, name;
      }
    }

    /** One round of parse_object's loop. */
    method ReadMember(head: Node?, current: Node?, ghost base: set<object>,
                      ghost kids: seq<Shape>, ghost items: seq<Item>)
      returns (ok: bool, head': Node?, current': Node?, ghost kids': seq<Shape>, ghost items': seq<Item>)
      requires ListState(head, current, base, kids, items) && offset < |content|
      modifies this`offset, this`depth, heap, Only(current)`next
      ensures ListState(head', current', base, kids', items')
      ensures fresh(BlocksOf(kids') - BlocksOf(kids)) && BlocksOf(kids) <= BlocksOf(kids')
      ensures ok ==>
        && MemberFrom(old(offset), old(depth)).Ok?
        && offset == SkipSpace(content, MemberFrom(old(offset), old(depth)).next) && depth == old(depth)
        && items' == items + [MemberFrom(old(offset), old(depth)).item]
      ensures ok ==> heap.failures == old(heap.failures)
      ensures !ok ==> heap.failures != old(heap.failures) || MemberFrom(old(offset), old(depth)) == Fail(offset)
      decreases |content| - offset, 6
    {
      hide Blocks, BlocksOf, Models, Separate, SeparateAll, Inner, ParseValue, SkipSpace, Linked, ParseName, Holds;
      ok, head', current', kids', items' := false, head, current, kids, items;
      var node;
      head', node := AppendNode(head, current, base, kids, items);
      if node == null {
        return;
      }
      NodesInBlocks(kids);
      ghost var sh, it;
      ok, sh, it := ReadNamed(node);
      ReadsOwn(sh);
      Joined(head', base, kids, items, sh, it);
      current', kids', items' := node, kids + [sh], items + [it];
      if ok {
        SkipWhitespace();
      }
    }

    /** A name and a value, into a new node. */
    method ReadNamed(node: Node) returns (ok: bool, ghost sh: Shape, ghost it: Item)
      requires Valid() && offset < |content|
      requires Blank(node, None) && node.key == null && node.kind == KInvalid
      modifies this`offset, this`depth, heap
      modifies node`kind, node`valuestring, node`valueint, node`valuedouble, node`child, node`key
      ensures Valid() && sh.node == node && sh.key == node.key && Models(sh, it) && Separate(sh)
      ensures fresh(Block(sh.key) + Inner(sh)) && heap.live == old(heap.live) + Block(sh.key) + Inner(sh)
      ensures ok ==>
        && MemberFrom(old(offset), old(depth)).Ok? && it == MemberFrom(old(offset), old(depth)).item
        && offset == MemberFrom(old(offset), old(depth)).next && depth == old(depth)
      ensures ok ==> heap.failures == old(heap.failures)
      ensures !ok ==> heap.failures != old(heap.failures) || MemberFrom(old(offset), old(depth)) == Fail(offset)
      decreases |content| - offset, 5
    {
      hide Models, Separate, Inner, ParseValue, SkipSpace, ParseName, Holds, MemberFrom, WithKey;
      MemberCases(offset, depth);
      ghost var name;
      ok, name := ReadName(node);
      sh := Shape(node, null, node.key, []);
      it := if name == None then Invalid(None) else Item.String(name, None);
      if ok {
        ok, sh, it := ReadBehindColon(node, name.value);
      } else {
        BareModels(sh, it);
      }
    }

    /** The value of a member. */
    method ReadBehindColon(node: Node, ghost name: cstring) returns (ok: bool, ghost sh: Shape, ghost it: Item)
      requires Valid() && offset < |content|
      requires Blank(node, Some(name)) && node.kind == KString
      modifies this`offset, this`depth, heap
      modifies node`kind, node`valuestring, node`valueint, node`valuedouble, node`child
      ensures Valid() && sh.node == node && sh.key == node.key && Models(sh, it) && Separate(sh)
      ensures fresh(Inner(sh)) && heap.live == old(heap.live) + Inner(sh)
      ensures
        var r := ParseValue(lib, content, SkipSpace(content, old(offset) + 1), old(depth));
        && (ok ==> r.Ok? && it == WithKey(r.item, Some(name)) && offset == r.next && depth == old(depth))
        && (ok ==> heap.failures == old(heap.failures))
        && (!ok ==> heap.failures != old(heap.failures) || r == Fail(offset))
      decreases |content| - offset, 4
    {
      hide Models, Separate, Inner, ParseValue, SkipSpace, Holds, WithKey;
      offset := offset + 1;
      SkipWhitespace();
      ghost var start := offset;
      ok, sh := ReadValue(node, Some(name));
      if ok {
        it := Expected(start, depth, Some(name));
      } else {
        it := Item.String(Some(name), None);
        BareModels(sh, it);
      }
    }

    lemma MemberCases(i: nat, d: nat)
      requires i < |content|
      ensures
        var name := ParseName(content, i);
        if name.NoString? then MemberFrom(i, d) == Fail(name.at)
        else
          var r := ParseValue(lib, content, SkipSpace(content, name.next + 1), d);
          MemberFrom(i, d) == if r.Fail? then r else Ok(WithKey(r.item, Some(CString(name.text))), r.next)
    {
      hide ParseName, ParseValue, SkipSpace;
    }

    /** What one round of the loop reads: a name and a value. */
    ghost function MemberFrom(i: nat, d: nat): (r: Parsed)
      requires i < |content|
      ensures r.Ok? ==> i < r.next <= |content|
    {
      match ParseName(content, i)
      case NoString(at) => Fail(at)
      case StringRead(name, colon) =>
        match ParseValue(lib, content, SkipSpace(content, colon + 1), d)
        case Fail(at) => Fail(at)
        case Ok(value, next) => Ok(WithKey(value, Some(CString(name))), next)
    }

    lemma {:induction false} MemberRound(i: nat, d: nat, acc: seq<Item>)
      requires i < |content|
      ensures
        match MemberFrom(i, d)
        case Fail(at) => ParseMembers(lib, content, i, d, acc) == Fail(at)
        case Ok(item, next) =>
          var j := SkipSpace(content, next);
          if j < |content| && content[j] == COMMA then
            ParseMembers(lib, content, i, d, acc) == ParseMembers(lib, content, j, d, acc + [item])
          else if j < |content| && content[j] == CLOSE_BRACE then
            ParseMembers(lib, content, i, d, acc) == Ok(Item.Object(None, acc + [item]), j + 1)
          else ParseMembers(lib, content, i, d, acc) == Fail(j)
    {
      hide ParseName, ParseValue, SkipSpace;
    }

    /** The loop of parse_object, up to the closing brace. */
    method ReadMembers(ghost base: set<object>)
      returns (ok: bool, head: Node?, current: Node?, ghost kids: seq<Shape>, ghost items: seq<Item>)
      requires Valid() && offset < |content| && heap.live == base
      modifies this`offset, this`depth, heap
      ensures ListState(head, current, base, kids, items) && fresh(BlocksOf(kids))
      ensures ok ==>
        && offset < |content| && depth == old(depth)
        && ParseMembers(lib, content, old(offset), old(depth), []) == Ok(Item.Object(None, items), offset + 1)
      ensures ok ==> heap.failures == old(heap.failures)
      ensures !ok ==>
        heap.failures != old(heap.failures) || ParseMembers(lib, content, old(offset), old(depth), []) == Fail(offset)
      decreases |content| - offset, 7
    {
      hide Blocks, BlocksOf, Models, Separate, SeparateAll, Inner, SkipSpace, ParseMembers, MemberFrom, Linked, NodesOf;
      ok, head, current, kids, items := true, null, null, [], [];
      NoBlocks();
      EmptyList();
      while true
        invariant ListState(head, current, base, kids, items) && fresh(BlocksOf(kids))
        invariant offset < |content| && depth == old(depth) && old(offset) <= offset
        invariant heap.failures == old(heap.failures)
        invariant ParseMembers(lib, content, old(offset), depth, [])
               == ParseMembers(lib, content, offset, depth, items)
        decreases |content| - offset
      {
        FirstInBlocks(kids);
        MemberRound(offset, depth, items);
        ok, head, current, kids, items := ReadMember(head, current, base, kids, items);
        if !ok {
          return;
        }
        if !(offset < |content| && content[offset] == COMMA) {
          break;
        }
      }
      if offset >= |content| || content[offset] != CLOSE_BRACE {
        ok := false;
      }
    }

    /** parse_object. */
    method ReadObject(item: Node, ghost name: Option<cstring>) returns (ok: bool, ghost sh: Shape)
      requires Valid() && Blank(item, name) && offset < |content| && content[offset] == OPEN_BRACE
      modifies this`offset, this`depth, heap, item`kind, item`child
      ensures Valid() && sh.node == item && sh.key == item.key
      ensures ok ==>
        var r := ParseObject(lib, content, old(offset), old(depth));
        && r.Ok? && offset == r.next && depth == old(depth)
        && Models(sh, WithKey(r.item, name)) && Separate(sh)
      ensures ok ==> fresh(Inner(sh)) && heap.live == old(heap.live) + Inner(sh)
      ensures !ok ==> heap.live == old(heap.live) && sh == Shape(item, null, item.key, [])
      ensures !ok ==> item.kind == old(item.kind) && item.child == null
      ensures ok ==> heap.failures == old(heap.failures)
      ensures !ok ==>
        heap.failures != old(heap.failures) || ParseObject(lib, content, old(offset), old(depth)) == Fail(offset)
      decreases |content| - offset, 9
    {
      hide Blocks, BlocksOf, Models, Separate, SeparateAll, Linked, NodesOf, Inner, Holds, WithKey;
      hide SkipSpace, ParseObject, ParseMembers;
      ObjectCases(offset, depth);
      ok, sh := false, Shape(item, null, item.key, []);
      if depth >= NESTING_LIMIT {
        return;
      }
      depth := depth + 1;
      offset := offset + 1;
      SkipWhitespace();
      if offset < |content| && content[offset] == CLOSE_BRACE {
        NoBlocks();
        EmptyList();
        EmptyNamed(name);
        sh := Finish(item, null, null, KObject, heap.live, name, [], [], Item.Object(name, []));
        return true, sh;
      }
      if offset >= |content| {
        offset := offset - 1;
        return;
      }
      offset := offset - 1;
      ok, sh := ReadFilledObject(item, name);
    }

    lemma ObjectCases(i: nat, d: nat)
      requires i < |content|
      ensures
        var r, j := ParseObject(lib, content, i, d), SkipSpace(content, i + 1);
        r == if d >= NESTING_LIMIT then Fail(i)
             else if j == |content| then Fail(j - 1)
             else if content[j] == CLOSE_BRACE then Ok(Item.Object(None, []), j + 1)
             else ParseMembers(lib, content, j - 1, d + 1, [])
    {
      hide ParseMembers, SkipSpace;
    }

    /** The rest of parse_object: the list, and what becomes of it. */
    method ReadFilledObject(item: Node, ghost name: Option<cstring>) returns (ok: bool, ghost sh: Shape)
      requires Valid() && Blank(item, name) && offset < |content| && depth > 0
      modifies this`offset, this`depth, heap, item`kind, item`child
      ensures Valid() && sh.node == item && sh.key == item.key
      ensures ok ==>
        var r := ParseMembers(lib, content, old(offset), old(depth), []);
        && r.Ok? && offset == r.next && depth == old(depth) - 1
        && Models(sh, WithKey(r.item, name)) && Separate(sh)
      ensures ok ==> fresh(Inner(sh)) && heap.live == old(heap.live) + Inner(sh)
      ensures !ok ==> heap.live == old(heap.live) && sh == Shape(item, null, item.key, [])
      ensures !ok ==> item.kind == old(item.kind) && item.child == null
      ensures ok ==> heap.failures == old(heap.failures)
      ensures !ok ==>
        heap.failures != old(heap.failures) || ParseMembers(lib, content, old(offset), old(depth), []) == Fail(offset)
      decreases |content| - offset, 8
    {
      hide Blocks, BlocksOf, Models, Separate, SeparateAll, ParseMembers, Linked, NodesOf, Holds, Inner;
      sh := Shape(item, null, item.key, []);
      var head, current;
      ghost var kids, items;
      ghost var base := heap.live;
      ok, head, current, kids, items := ReadMembers(base);
      if !ok {
        Abandon(head, base, kids, items);
        return;
      }
      FirstInBlocks(kids);
      HeadIs(head, kids, items);
      sh := Finish(item, head, current, KObject, base, name, kids, items, Item.Object(name, items));
    }
  }
}
