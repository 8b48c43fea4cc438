/** The public printing functions, on top of the buffered printer. */
module Printing {
  import opened Bytes
  import opened CLibrary
  import opened Items
  import opened TextFacts
  import opened Heap
  import opened PrintBuffer

  const DEFAULT_BUFFER_SIZE: nat := 256

  /** A tree that can be printed, with a text that fits in a buffer that may grow. */
  ghost predicate Fits(lib: CLib, it: Item, format: bool) {
    Printable(lib, it, 0) && |Text(lib, CJsonLayout(format), it, 0)| + 2 <= INT_MAX
  }

  /** The tree to print, in memory. */
  ghost predicate InMemory(item: Node?, sh: Shape, it: Item)
    reads sh.node, Blocks(sh), Inner(sh), Block(sh.key)
  {
    item != null ==> item == sh.node && Models(sh, it)
  }

  /** print_value from the start, on a buffer that holds nothing yet. */
  method PrintWhole(p: Buffer, item: Node?, ghost sh: Shape, ghost it: Item) returns (ok: bool)
    requires p.Ready([]) && p.depth == 0 && InMemory(item, sh, it)
    requires item != null ==> p.buffer !in Blocks(sh) && p !in Blocks(sh) && p.heap !in Blocks(sh)
    modifies p, p.buffer, p.heap
    ensures p.SameOrNewBuffer()
    ensures ok ==>
      && item != null && Printable(p.lib, it, 0)
      && p.Shows([], Text(p.lib, CJsonLayout(p.format), it, 0))
      && |Text(p.lib, CJsonLayout(p.format), it, 0)| + 2 <= p.length
    ensures !ok && item != null ==>
      p.Refused(|Text(p.lib, CJsonLayout(p.format), it, 0)|, Printable(p.lib, it, 0))
  {
    hide Text, Printable, Models, Blocks, Inner;
    ok := false;
    if item != null {
      ok := p.PrintValue(item, [], sh, it);
    }
  }

  /**
   * cJSON_Print and cJSON_PrintUnformatted. The result is exactly the text and
   * its terminator. When no allocation fails, there is one if and only if there
   * is a tree, it is printable and its text fits. Of all the memory that was
   * used only the result is left.
   */
  method Print(lib: CLib, item: Node?, format: bool, hasRealloc: bool, heap: Allocator, ghost sh: Shape, ghost it: Item)
    returns (printed: array?<byte>)
    requires heap.Valid() && InMemory(item, sh, it)
    modifies heap
    ensures heap.Valid() && heap.live == old(heap.live) + Block(printed)
    ensures printed != null ==> item != null && fresh(printed) && Fits(lib, it, format)
    ensures printed != null ==> heap.failures == old(heap.failures)
    ensures printed != null ==> printed[..] == Text(lib, CJsonLayout(format), it, 0) + [NUL]
    ensures heap.failures == old(heap.failures) ==> (printed != null <==> item != null && Fits(lib, it, format))
  {
    hide Text, Printable, Models, Blocks, Inner;
    BlocksAllocated(sh);
    BlockKinds(sh);
    ReadsOwn(sh);
    ghost var base := heap.live;
    ghost var text := Text(lib, CJsonLayout(format), it, 0);
    var block := heap.NewBytes(DEFAULT_BUFFER_SIZE);
    if block == null {
      return null;
    }
    var p := new Buffer(block, DEFAULT_BUFFER_SIZE, false, format, hasRealloc, lib, heap, base);
    var ok := PrintWhole(p, item, sh, it);
    assert [] + text == text;
    if !ok {
      Discard(p);
      return null;
    }
    TextNulFree(lib, CJsonLayout(format), it, 0);
    printed := Shrink(p, text);
  }

  /** The fail labels: the buffer, if it is still there, is freed. */
  method Discard(p: Buffer)
    requires p.heap.Valid() && p.heap.live == p.base + Block(p.buffer) && Block(p.buffer) !! p.base
    modifies p.heap`live
    ensures p.heap.Valid() && p.heap.live == p.base
  {
    if p.buffer != null {
      p.heap.Free(p.buffer);
    }
  }

  /** The end of print: a block of just the size of the text takes the place of the buffer. */
  method Shrink(p: Buffer, ghost text: bytes) returns (printed: array?<byte>)
    requires p.Shows([], text) && |text| + 2 <= p.length && NulFree(text) && !p.noalloc
    modifies p`offset, p.heap
    ensures p.heap.Valid() && p.heap.live == p.base + Block(printed)
    ensures printed == null <==> p.heap.failures != old(p.heap.failures)
    ensures printed != null ==> fresh(printed) && printed[..] == text + [NUL]
  {
    assert p.buffer[..|text| + 1] == text + [NUL] by { assert [] + text == text; }
    p.UpdateOffset([], text);
    assert p.offset == |text| by { assert [] + text == text; }
    if p.hasRealloc {
      printed := p.heap.Realloc(p.buffer, p.offset + 1);
    } else {
      printed := p.heap.NewBytes(p.offset + 1);
      if printed != null {
        forall i | 0 <= i < p.offset + 1 {
          printed[i] := p.buffer[i];
        }
        printed[p.offset] := NUL;
        p.heap.Free(p.buffer);
      }
    }
    if printed == null {
      Discard(p);
      return null;
    }
    assert printed[..] == p.buffer[..|text| + 1];
  }

  /** cJSON_PrintBuffered: the block it returns is the buffer itself, and may be longer than the text. */
  method PrintBuffered(lib: CLib, item: Node?, prebuffer: int32, format: bool, hasRealloc: bool, heap: Allocator,
                       ghost sh: Shape, ghost it: Item)
    returns (printed: array?<byte>)
    requires heap.Valid() && InMemory(item, sh, it) && (prebuffer == 0 ==> hasRealloc)
    modifies heap
    ensures heap.Valid() && heap.live == old(heap.live) + Block(printed)
    ensures printed != null ==> item != null && prebuffer >= 0 && fresh(printed) && Fits(lib, it, format)
    ensures printed != null ==> heap.failures == old(heap.failures)
    ensures printed != null ==>
      var text := Text(lib, CJsonLayout(format), it, 0);
      |text| + 2 <= printed.Length && printed[..|text| + 1] == text + [NUL]
    ensures heap.failures == old(heap.failures) ==>
      (printed != null <==> item != null && prebuffer >= 0 && Fits(lib, it, format))
  {
    hide Text, Printable, Models, Blocks, Inner;
    BlocksAllocated(sh);
    BlockKinds(sh);
    ReadsOwn(sh);
    if prebuffer < 0 {
      return null;
    }
    ghost var base := heap.live;
    ghost var text := Text(lib, CJsonLayout(format), it, 0);
    var block := heap.NewBytes(prebuffer);
    if block == null {
      return null;
    }
    var p := new Buffer(block, prebuffer, false, format, hasRealloc, lib, heap, base);
    var ok := PrintWhole(p, item, sh, it);
    assert [] + text == text;
    if !ok {
      Discard(p);
      return null;
    }
    return p.buffer;
  }

  /**
   * cJSON_PrintPreallocated: it succeeds if and only if the tree is printable
   * and there is room for the text, its terminator and one byte more. Whether
   * it does or not, it allocates nothing and writes nothing from `length` on.
   */
  method PrintPreallocated(lib: CLib, item: Node?, buffer: array?<byte>, length: int32, format: bool, heap: Allocator,
                           ghost sh: Shape, ghost it: Item) returns (ok: bool)
    requires heap.Valid() && InMemory(item, sh, it) && (item != null ==> buffer !in Blocks(sh))
    requires buffer != null ==> length <= buffer.Length
    modifies buffer, heap
    ensures heap.Valid() && heap.live == old(heap.live) && heap.failures == old(heap.failures)
    ensures buffer != null && length >= 0 ==> buffer[length..] == old(buffer[length..])
    ensures ok <==>
      && buffer != null && length >= 0 && item != null
      && Printable(lib, it, 0)
      && |Text(lib, CJsonLayout(format), it, 0)| + 2 <= length
    ensures ok ==>
      var text := Text(lib, CJsonLayout(format), it, 0);
      buffer[..|text| + 1] == text + [NUL]
  {
    hide Text, Printable, Models, Blocks, Inner;
    BlocksAllocated(sh);
    BlockKinds(sh);
    ReadsOwn(sh);
    if length < 0 || buffer == null {
      return false;
    }
    assert [] + Text(lib, CJsonLayout(format), it, 0) == Text(lib, CJsonLayout(format), it, 0);
    var p := new Buffer(buffer, length, true, format, true, lib, heap, heap.live);
    ok := PrintWhole(p, item, sh, it);
    assert p.Tail() == buffer[length..];
  }
}
