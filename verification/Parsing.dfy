/** The public parsing functions. */
module Parsing {
  import opened Bytes
  import opened CLibrary
  import opened Items
  import opened Parser
  import opened Heap
  import opened ParseBuffer

  /** A whole tree in memory. */
  ghost predicate Represents(item: Node, sh: Shape, tree: Item)
    reads item, Blocks(sh)
  {
    item == sh.node && Models(sh, tree) && Separate(sh) && item.next == null
  }

  /** cJSON_Delete of one tree: every block of it is freed, once. */
  method DeleteTree(item: Node, heap: Allocator, ghost sh: Shape, ghost tree: Item)
    requires Represents(item, sh, tree)
    requires heap.Valid() && Blocks(sh) <= heap.live
    modifies heap`live, Blocks(sh)
    ensures heap.Valid() && heap.live == old(heap.live) - Blocks(sh)
  {
    hide Models, Stored, Separate, Blocks;
    ModelsAreStored(sh, tree);
    DeleteStored(item, heap, sh);
  }

  lemma NoKey()
    ensures Holds(null, None)
  {
  }

  /** The value behind the byte order mark and white space; a root that could not be filled is an empty tree. */
  method ReadRoot(buffer: Buffer, root: Node) returns (ok: bool, ghost sh: Shape, ghost tree: Item)
    requires buffer.Valid() && buffer.offset == 0 == buffer.depth && buffer.Blank(root, None) && root.next == null
    requires root.key == null && root.kind == KInvalid && root in buffer.heap.live
    modifies buffer, buffer.heap
    modifies root`kind, root`valuestring, root`valueint, root`valuedouble, root`child
    ensures buffer.Valid() && Represents(root, sh, tree) && root in Blocks(sh) && fresh(Blocks(sh) - {root})
    ensures buffer.heap.live == old(buffer.heap.live) + Blocks(sh)
    ensures var s := buffer.content;
      var r := ParseValue(buffer.lib, s, SkipSpace(s, Parser.SkipBom(s)), 0);
      && (ok ==> r == Parsed.Ok(tree, buffer.offset) && buffer.heap.failures == old(buffer.heap.failures))
      && (!ok ==> buffer.heap.failures != old(buffer.heap.failures) || r == Fail(buffer.offset))
  {
    hide Models, Separate, Inner, ParseValue, SkipSpace, SkipBom;
    buffer.SkipBom();
    buffer.SkipWhitespace();
    ok, sh := buffer.ReadValue(root, None);
    if ok {
      tree := ParseValue(buffer.lib, buffer.content, SkipSpace(buffer.content, Parser.SkipBom(buffer.content)), 0).item;
    } else {
      tree := Invalid(None);
      BareModels(sh, tree);
    }
    ReadsOwn(sh);
  }

  /**
   * cJSON_ParseWithLengthOpts. A tree comes back exactly when the functions of
   * the parser say so, unless an allocation failed. All of its memory is new;
   * a failure leaves no memory behind and reports the position of the error.
   */
  method ParseWithLengthOpts(lib: CLib, heap: Allocator, value: Option<bytes>, requireNul: bool)
    returns (item: Node?, end: nat, ghost shape: Option<Shape>)
    requires heap.Valid()
    modifies heap
    ensures heap.Valid()
    ensures item != null ==>
      && value.Some? && ParseText(lib, value.value, requireNul).Ok?
      && end == ParseText(lib, value.value, requireNul).next
      && shape.Some? && Represents(item, shape.value, ParseText(lib, value.value, requireNul).item)
      && fresh(Blocks(shape.value)) && heap.live == old(heap.live) + Blocks(shape.value)
    ensures item != null ==> heap.failures == old(heap.failures)
    ensures item == null ==> heap.live == old(heap.live)
    ensures heap.failures == old(heap.failures) ==>
      (item != null <==> value.Some? && ParseText(lib, value.value, requireNul).Ok?)
    ensures heap.failures == old(heap.failures) && item == null && value.Some? ==>
      ParseText(lib, value.value, requireNul) == Fail(end)
  {
    hide Represents, Blocks, Inner, ParseValue, SkipSpace, SkipBom;
    end, item, shape := 0, null, None;
    if value.None? || value.value == [] {
      return;
    }
    var s := value.value;
    var root := heap.NewNode();
    if root == null {
      return;
    }
    ghost var before := heap.live - {root};
    var buffer := new Buffer(s, lib, heap);
    NoKey();
    var ok;
    ghost var sh, tree;
    ok, sh, tree := ReadRoot(buffer, root);
    assert heap.live == before + Blocks(sh);
    if ok && requireNul {
      buffer.SkipWhitespace();
      ok := buffer.offset < |s| && s[buffer.offset] == NUL;
    }
    if ok {
      item, end, shape := root, buffer.offset, Some(sh);
      return;
    }
    DeleteTree(root, heap, sh, tree);
    end := if buffer.offset < |s| then buffer.offset else |s| - 1;
  }

  /** cJSON_ParseWithOpts: the text of a C string, with its terminator. */
  method ParseWithOpts(lib: CLib, heap: Allocator, value: Option<cstring>, requireNul: bool)
    returns (item: Node?, end: nat, ghost shape: Option<Shape>)
    requires heap.Valid()
    modifies heap
    ensures heap.Valid()
    ensures item != null ==>
      && value.Some? && ParseText(lib, value.value + [NUL], requireNul).Ok?
      && end == ParseText(lib, value.value + [NUL], requireNul).next
      && shape.Some? && Represents(item, shape.value, ParseText(lib, value.value + [NUL], requireNul).item)
      && fresh(Blocks(shape.value)) && heap.live == old(heap.live) + Blocks(shape.value)
    ensures item != null ==> heap.failures == old(heap.failures)
    ensures item == null ==> heap.live == old(heap.live)
    ensures heap.failures == old(heap.failures) ==>
      (item != null <==> value.Some? && ParseText(lib, value.value + [NUL], requireNul).Ok?)
    ensures heap.failures == old(heap.failures) && item == null && value.Some? ==>
      ParseText(lib, value.value + [NUL], requireNul) == Fail(end)
  {
    hide Blocks, Represents, ParseText;
    if value.None? {
      return null, 0, None;
    }
    item, end, shape := ParseWithLengthOpts(lib, heap, Some(value.value + [NUL]), requireNul);
  }
}
