/** cJSON_Duplicate. */
module Duplicate {
  import opened Bytes
  import opened CLibrary
  import opened Items
  import opened Heap

  const CIRCULAR_LIMIT: nat := 10000

  /** Whether a node that has children at depth `depth` is within the limit everywhere below. */
  predicate HeightFits(item: Item, depth: nat)
    decreases item
  {
    item.Array? || item.Object? ==>
      (item.kids == [] || depth < CIRCULAR_LIMIT) && forall k :: k in item.kids ==> HeightFits(k, depth + 1)
  }

  /** The item without its children. */
  function Alone(item: Item): Item {
    if item.Array? || item.Object? then item.(kids := []) else item
  }

  /** cJSON_strdup: the C string in a new block, or NULL for NULL and when memory runs out. */
  method Strdup(from: array?<byte>, heap: Allocator, ghost s: Option<cstring>) returns (copy: array?<byte>)
    requires heap.Valid() && Holds(from, s)
    modifies heap
    ensures heap.Valid() && heap.live == old(heap.live) + Block(copy) && fresh(Block(copy))
    ensures copy == null && from != null <==> heap.failures != old(heap.failures)
    ensures copy != null || from == null ==> Holds(copy, s)
  {
    if from == null {
      return null;
    }
    var length := 0;
    while from[length] != NUL
      invariant 0 <= length < from.Length
      invariant forall i :: 0 <= i < length ==> from[i] != NUL
      invariant NUL in from[..]
      decreases from.Length - length
      modifies {}
    {
      EndAhead(from[..], length);
      length := length + 1;
    }
    copy := heap.NewBytes(length + 1);
    if copy == null {
      return;
    }
    forall i | 0 <= i <= length {
      copy[i] := from[i];
    }
    ghost var text := from[..length];
    assert from[..] == old(from[..]) == text + [NUL] + from[length + 1..];
    assert copy[..] == text + [NUL] + [];
    CStringOfNulFree(text, from[length + 1..]);
    CStringOfNulFree(text, []);
    assert copy[..][length] == NUL;
    assert CString(copy[..]) == text == CString(from[..]);
  }

  lemma {:induction false} EndAhead(s: bytes, n: nat)
    requires NUL in s && n < |s| && forall i :: 0 <= i <= n ==> s[i] != NUL
    ensures n + 1 < |s|
  {
  }

  /** The fields that are no pointers. */
  ghost predicate SameFields(copy: Node, item: Node)
    reads copy, item
  {
    copy.kind == item.kind && copy.valueint == item.valueint && copy.valuedouble == item.valuedouble
  }

  /** The copy of one node: its fields, and its strings in new blocks. */
  method CopyNode(item: Node, heap: Allocator, ghost sh: Shape, ghost it: Item)
    returns (copy: Node?, ghost copySh: Option<Shape>)
    requires item == sh.node && Models(sh, it) && heap.Valid()
    modifies heap
    ensures heap.Valid()
    ensures copy == null <==> heap.failures != old(heap.failures)
    ensures copy == null ==> heap.live == old(heap.live)
    ensures copy != null ==>
      && fresh(copy)
      && copy.next == null && copy.prev == null && copy.child == null
      && copySh.Some? && copySh.value == Shape(copy, copySh.value.text, copySh.value.key, [])
      && Copied(copySh.value, it) && SameFields(copy, item)
      && fresh(Blocks(copySh.value)) && heap.live == old(heap.live) + Blocks(copySh.value)
  {
    hide Models, Separate, Inner, Blocks, BlocksOf, Holds, KindIs, Saturate, Copied, TextOf, Stored;
    copySh := None;
    FieldsOf(sh, it);
    copy := heap.NewNode();
    if copy == null {
      return;
    }
    var ok := CopyFields(item, copy, heap, sh, it, old(heap.live));
    if !ok {
      return null, None;
    }
    NodeBlocks(Shape(copy, copy.valuestring, copy.key, []));
    copySh := Some(Shape(copy, copy.valuestring, copy.key, []));
  }

  method CopyFields(item: Node, copy: Node, heap: Allocator, ghost sh: Shape, ghost it: Item, ghost before: set<object>)
    returns (ok: bool)
    requires heap.Valid() && heap.live == before + {copy} && copy !in before && copy != item
    requires copy.child == null && copy.next == null && copy.valuestring == null && copy.key == null
    requires item.valuestring == sh.text && item.key == sh.key && KindIs(item.kind, it)
    requires Holds(sh.key, it.key) && Holds(sh.text, TextOf(it))
    requires it.Number? ==> item.valuedouble == it.d && item.valueint == Saturate(it.d)
    modifies heap, copy
    ensures heap.Valid()
    ensures !ok <==> heap.failures != old(heap.failures)
    ensures !ok ==> heap.live == before
    ensures ok ==>
      && copy.next == old(copy.next) && copy.prev == old(copy.prev) && copy.child == null
      && Copied(Shape(copy, copy.valuestring, copy.key, []), it) && SameFields(copy, item)
      && heap.live == before + {copy} + Block(copy.valuestring) + Block(copy.key)
      && fresh(Block(copy.valuestring) + Block(copy.key))
  {
    hide Holds, KindIs, Saturate, Copied, TextOf;
    copy.kind := item.kind;
    copy.valueint := item.valueint;
    copy.valuedouble := item.valuedouble;
    ok := CopyStrings(item, copy, heap, sh, it, before);
    if ok {
      FieldsCopied(Shape(copy, copy.valuestring, copy.key, []), it);
    }
  }

  lemma {:induction false} FieldsCopied(sh: Shape, it: Item)
    requires sh.node.valuestring == sh.text && sh.node.key == sh.key
    requires KindIs(sh.node.kind, it)
    requires Holds(sh.key, it.key) && Holds(sh.text, TextOf(it))
    requires it.Number? ==> sh.node.valuedouble == it.d && sh.node.valueint == Saturate(it.d)
    requires Block(sh.text) !! Block(sh.key)
    ensures Copied(sh, it)
  {
  }

  method CopyStrings(item: Node, copy: Node, heap: Allocator, ghost sh: Shape, ghost it: Item,
                     ghost before: set<object>) returns (ok: bool)
    requires heap.Valid() && heap.live == before + {copy} && copy !in before && copy != item
    requires copy.child == null && copy.next == null && copy.valuestring == null && copy.key == null
    requires item.valuestring == sh.text && item.key == sh.key
    requires Holds(sh.key, it.key) && Holds(sh.text, TextOf(it))
    modifies heap, copy
    ensures heap.Valid()
    ensures !ok <==> heap.failures != old(heap.failures)
    ensures !ok ==> heap.live == before
    ensures ok ==>
      && copy.next == old(copy.next) && copy.prev == old(copy.prev) && copy.child == old(copy.child)
      && copy.kind == old(copy.kind) && copy.valueint == old(copy.valueint)
      && copy.valuedouble == old(copy.valuedouble)
      && Holds(copy.key, it.key) && Holds(copy.valuestring, TextOf(it))
      && heap.live == before + {copy} + Block(copy.valuestring) + Block(copy.key)
      && fresh(Block(copy.valuestring) + Block(copy.key)) && Block(copy.valuestring) !! Block(copy.key)
  {
    hide Separate, Inner, Blocks, BlocksOf, Holds, TextOf, Stored;
    if item.valuestring != null {
      copy.valuestring := Strdup(item.valuestring, heap, TextOf(it));
      if copy.valuestring == null {
        Discard(copy, heap, before);
        return false;
      }
    }
    if item.key != null {
      copy.key := Strdup(item.key, heap, it.key);
      if copy.key == null {
        Discard(copy, heap, before);
        return false;
      }
    }
    return true;
  }

  lemma {:induction false} NodeBlocks(sh: Shape)
    requires sh.kids == []
    ensures Blocks(sh) == {sh.node} + Block(sh.key) + Block(sh.text)
    ensures Inner(sh) == Block(sh.text)
    ensures Separate(sh) <==> Block(sh.text) !! Block(sh.key)
    ensures sh.node.valuestring == sh.text && sh.node.key == sh.key && sh.node.child == null ==> Stored(sh)
  {
  }

  /** A node that has its fields and strings, but no children. */
  ghost predicate Copied(sh: Shape, it: Item)
    reads sh.node`kind, sh.node`valuestring, sh.node`valueint, sh.node`valuedouble, sh.node`key
    reads Block(sh.key), Block(sh.text)
  {
    && sh.node.valuestring == sh.text && sh.node.key == sh.key
    && KindIs(sh.node.kind, it)
    && Holds(sh.key, it.key) && Holds(sh.text, TextOf(it))
    && (it.Number? ==> sh.node.valuedouble == it.d && sh.node.valueint == Saturate(it.d))
    && Block(sh.text) !! Block(sh.key)
  }

  /** The fail label of a node without children. */
  method Discard(copy: Node, heap: Allocator, ghost before: set<object>)
    requires heap.Valid() && copy.child == null && copy.next == null && copy !in before
    requires heap.live == before + {copy} + Block(copy.valuestring) + Block(copy.key)
    requires before !! Block(copy.valuestring) + Block(copy.key)
    requires Block(copy.valuestring) !! Block(copy.key)
    modifies heap`live, copy, Block(copy.valuestring), Block(copy.key)
    ensures heap.Valid() && heap.live == before
  {
    hide Stored, Separate, Blocks, Inner;
    ghost var sh := Shape(copy, copy.valuestring, copy.key, []);
    NodeBlocks(sh);
    DeleteStored(copy, heap, sh);
  }

  /** What has been copied so far: the node, and a list of the copies of its first children. */
  ghost predicate Copying(copy: Node, head: Node?, last: Node?, base: set<object>, own: Shape, it: Item,
                          kids: seq<Shape>, done: seq<Item>, heap: Allocator)
    reads heap, copy, Block(own.key), Block(own.text), BlocksOf(kids), NodesOf(kids)
  {
    && heap.Valid()
    && own == Shape(copy, own.text, own.key, []) && Copied(own, it)
    && copy.next == null && copy.prev == null && copy.child == head
    && Linked(head, kids, done, null) && last == Last(kids)
    && heap.live == base + Blocks(own) + BlocksOf(kids)
    && base !! Blocks(own) && base !! BlocksOf(kids) && Blocks(own) !! BlocksOf(kids)
  }

  lemma {:induction false} AloneModels(own: Shape, it: Item)
    requires own.kids == [] && own.node.child == null && Copied(own, it)
    ensures Models(own, Alone(it)) && Separate(own)
  {
  }

  /** One round of the loop: the copy of a child joins the list. */
  method AttachChild(copy: Node, last: Node?, newchild: Node, heap: Allocator, ghost base: set<object>,
                     ghost own: Shape, ghost it: Item, ghost kids: seq<Shape>, ghost done: seq<Item>,
                     ghost kid: Shape, ghost kidIt: Item)
    requires heap.Valid() && own == Shape(copy, own.text, own.key, []) && Copied(own, it)
    requires copy.next == null && copy.prev == null
    requires Linked(copy.child, kids, done, null) && last == Last(kids)
    requires heap.live == base + Blocks(own) + BlocksOf(kids) + Blocks(kid)
    requires base !! Blocks(own) && base !! BlocksOf(kids) && Blocks(own) !! BlocksOf(kids)
    requires newchild == kid.node && Models(kid, kidIt) && Separate(kid)
    requires newchild.next == null && newchild.prev == null
    requires Blocks(kid) !! base + Blocks(own) + BlocksOf(kids)
    modifies copy`child, Only(last)`next, newchild`prev
    ensures Copying(copy, copy.child, newchild, base, own, it, kids + [kid], done + [kidIt], heap)
    ensures BlocksOf(kids + [kid]) == BlocksOf(kids) + Blocks(kid)
  {
    hide Models, ModelsAll, Separate, SeparateAll, Inner, Blocks, BlocksOf, NodesOf, Linked, Copied;
    FirstInBlocks(kids);
    OwnNodes(own);
    NodeNotInner(kid);
    if last != null {
      LinkBehind(last, newchild, copy.child, kids, done);
    } else {
      NoKidsYet(copy.child, kids, done, newchild);
      copy.child := newchild;
    }
    LinkedAppend(copy.child, kids, done, kid, kidIt);
  }

  lemma {:induction false} NoKidsYet(head: Node?, kids: seq<Shape>, done: seq<Item>, node: Node)
    requires Linked(head, kids, done, null) && Last(kids) == null
    ensures kids == [] && done == [] && Linked(node, kids, done, node)
  {
  }

  lemma {:induction false} OwnNodes(own: Shape)
    ensures own.node in Blocks(own) && Block(own.key) + Block(own.text) <= Blocks(own)
  {
  }

  /** The fail label. */
  method DiscardAll(copy: Node, last: Node?, heap: Allocator, ghost base: set<object>, ghost own: Shape,
                    ghost it: Item, ghost kids: seq<Shape>, ghost done: seq<Item>)
    requires Copying(copy, copy.child, last, base, own, it, kids, done, heap)
    modifies heap`live, Blocks(own), BlocksOf(kids)
    ensures heap.Valid() && heap.live == base
  {
    hide Models, ModelsAll, Stored, StoredAll, Separate, SeparateAll, Inner, Blocks, BlocksOf, NodesOf;
    ghost var sh := Shape(copy, own.text, own.key, kids);
    WithKids(own, it, sh, done);
    DeleteStored(copy, heap, sh);
  }

  /** The node and its list, as one tree. */
  lemma {:induction false} WithKids(own: Shape, it: Item, sh: Shape, done: seq<Item>)
    requires own == Shape(own.node, own.text, own.key, []) && Copied(own, it)
    requires sh == Shape(own.node, own.text, own.key, sh.kids)
    requires Linked(own.node.child, sh.kids, done, null) && Blocks(own) !! BlocksOf(sh.kids)
    ensures Stored(sh) && Separate(sh) && Blocks(sh) == Blocks(own) + BlocksOf(sh.kids)
  {
    hide Models, ModelsAll, StoredAll, SeparateAll, BlocksOf, NodesOf;
    NodeBlocks(own);
    NodesInBlocks(sh.kids);
    AllModelsAreStored(sh.kids, done);
    forall i | 0 <= i < |sh.kids| ensures sh.kids[i].node.next == NodeAt(sh.kids, i + 1) {
    }
  }

  /** After the loop: the head's prev is set, and the tree is complete. */
  method CloseCopy(copy: Node, last: Node?, heap: Allocator, ghost base: set<object>, ghost own: Shape,
                   ghost it: Item, ghost kids: seq<Shape>)
    returns (ghost sh: Shape)
    requires Copying(copy, copy.child, last, base, own, it, kids, KidsOf(it), heap)
    modifies Only(copy.child)`prev
    ensures heap.Valid() && sh.node == copy && copy.next == null && copy.prev == null
    ensures Models(sh, it) && Separate(sh) && Blocks(sh) == Blocks(own) + BlocksOf(kids)
    ensures heap.live == base + Blocks(sh)
  {
    hide Models, ModelsAll, Separate, SeparateAll, Inner, Blocks, BlocksOf, NodesOf, Copied, Linked;
    FirstInBlocks(kids);
    HeadIs(copy.child, kids, KidsOf(it));
    OwnNodes(own);
    Close(copy.child, last, kids, KidsOf(it));
    sh := Shape(copy, own.text, own.key, kids);
    CompleteModels(own, it, sh);
  }

  lemma {:induction false} CompleteModels(own: Shape, it: Item, sh: Shape)
    requires own == Shape(own.node, own.text, own.key, []) && Copied(own, it)
    requires sh == Shape(own.node, own.text, own.key, sh.kids)
    requires own.node.child == First(sh.kids) && Siblings(sh.kids) && ModelsAll(sh.kids, KidsOf(it))
    requires SeparateAll(sh.kids) && Blocks(own) !! BlocksOf(sh.kids)
    ensures Models(sh, it) && Separate(sh) && Blocks(sh) == Blocks(own) + BlocksOf(sh.kids)
  {
    hide ModelsAll, SeparateAll, BlocksOf, NodesOf, Siblings;
    NodeBlocks(own);
    NodesInBlocks(sh.kids);
  }

  /**
   * cJSON_Duplicate_rec. A copy is in entirely new memory and represents the
   * same item; there is none only if an allocation failed or the tree is too high,
   * and then no memory is left behind.
   */
  method DuplicateRec(item: Node, depth: nat, recurse: bool, heap: Allocator, ghost sh: Shape, ghost it: Item)
    returns (copy: Node?, ghost copySh: Option<Shape>)
    requires item == sh.node && Models(sh, it) && heap.Valid() && Blocks(sh) <= heap.live
    modifies heap
    ensures heap.Valid()
    ensures copy == null ==> heap.live == old(heap.live)
    ensures copy == null ==> heap.failures != old(heap.failures) || (recurse && !HeightFits(it, depth))
    ensures copy != null ==> heap.failures == old(heap.failures)
    ensures copy != null ==>
      && copySh.Some? && copySh.value.node == copy && copy.next == null && copy.prev == null
      && Models(copySh.value, if recurse then it else Alone(it)) && Separate(copySh.value)
      && fresh(Blocks(copySh.value)) && heap.live == old(heap.live) + Blocks(copySh.value)
      && (recurse ==> HeightFits(it, depth))
    ensures copy != null ==> SameFields(copy, item)
    decreases it, 1
  {
    hide Models, ModelsAll, Separate, Inner, Blocks, BlocksOf, Copied, Copying, HeightFits, NodesOf, NextChained, Holds;
    ghost var base := heap.live;
    FieldsOf(sh, it);
    copy, copySh := CopyNode(item, heap, sh, it);
    if copy == null {
      return;
    }
    ghost var own := copySh.value;
    if !recurse {
      AloneModels(own, it);
      return;
    }
    var ok, last;
    ghost var kids;
    KidBlocks(sh);
    ok, last, kids := CopyChildren(item.child, copy, depth, heap, base, own, it, sh.kids);
    if !ok {
      DiscardAll(copy, last, heap, base, own, it, kids, KidsOf(it)[..|kids|]);
      return null, None;
    }
    assert KidsOf(it)[..|kids|] == KidsOf(it);
    HeadInBlocks(copy, last, heap, base, own, it, kids);
    ghost var made := CloseCopy(copy, last, heap, base, own, it, kids);
    copySh := Some(made);
  }

  lemma {:induction false} HeadInBlocks(copy: Node, last: Node?, heap: Allocator, base: set<object>, own: Shape,
                                        it: Item, kids: seq<Shape>)
    requires Copying(copy, copy.child, last, base, own, it, kids, KidsOf(it), heap)
    ensures Only(copy.child) <= BlocksOf(kids)
  {
    FirstInBlocks(kids);
    HeadIs(copy.child, kids, KidsOf(it));
  }

  /** The loop over the children. */
  method CopyChildren(first: Node?, copy: Node, depth: nat, heap: Allocator, ghost base: set<object>,
                      ghost own: Shape, ghost it: Item, ghost from: seq<Shape>)
    returns (ok: bool, last: Node?, ghost kids: seq<Shape>)
    requires first == First(from) && NextChained(from) && ModelsAll(from, KidsOf(it))
    requires own == Shape(copy, own.text, own.key, []) && Copied(own, it)
    requires copy.next == null && copy.prev == null && copy.child == null
    requires heap.Valid() && heap.live == base + Blocks(own) && base !! Blocks(own)
    requires BlocksOf(from) <= base && NodesOf(from) <= BlocksOf(from) && |from| == |KidsOf(it)|
    modifies heap, copy`child
    ensures |kids| <= |from| && fresh(BlocksOf(kids))
    ensures Copying(copy, copy.child, last, base, own, it, kids, KidsOf(it)[..|kids|], heap)
    ensures ok ==> |kids| == |from| && HeightFits(it, depth)
    ensures ok ==> heap.failures == old(heap.failures)
    ensures !ok ==> heap.failures != old(heap.failures) || !HeightFits(it, depth)
    decreases it, 0
  {
    hide Models, ModelsAll, Separate, SeparateAll, Inner, Blocks, BlocksOf, Copied, Linked, NodesOf, HeightFits,
         FitSoFar;
    ok, last, kids := true, null, [];
    NoneTooHigh(KidsOf(it), depth);
    var child := first;
    ghost var k := 0;
    NoBlocks();
    EmptyList();
    OwnNodes(own);
    while child != null
      invariant 0 <= k <= |from| && child == NodeAt(from, k)
      invariant NextChained(from) && ModelsAll(from, KidsOf(it))
      invariant |kids| == k && fresh(BlocksOf(kids))
      invariant Copying(copy, copy.child, last, base, own, it, kids, KidsOf(it)[..k], heap)
      invariant FitSoFar(KidsOf(it), k, depth) && heap.failures == old(heap.failures)
      decreases |from| - k
    {
      if depth >= CIRCULAR_LIMIT {
        ok := false;
        TooHigh(it, depth, k);
        return;
      }
      FirstInBlocks(kids);
      NextOf(from, k);
      ok, last, kids := CopyChild(child, copy, last, depth, heap, base, own, it, from, k, kids);
      if !ok {
        if !HeightFits(KidsOf(it)[k], depth + 1) {
          TooHigh(it, depth, k);
        }
        return;
      }
      OneMoreFits(KidsOf(it), k, depth);
      child := child.next;
      k := k + 1;
    }
    Fits(it, depth);
  }

  /** The first `k` children are not too deep. */
  predicate FitSoFar(kids: seq<Item>, k: nat, depth: nat) {
    k <= |kids| && (k > 0 ==> depth < CIRCULAR_LIMIT) && forall j :: 0 <= j < k ==> HeightFits(kids[j], depth + 1)
  }

  lemma NoneTooHigh(kids: seq<Item>, depth: nat)
    ensures FitSoFar(kids, 0, depth)
  {
  }

  lemma OneMoreFits(kids: seq<Item>, k: nat, depth: nat)
    requires k < |kids| && FitSoFar(kids, k, depth) && depth < CIRCULAR_LIMIT && HeightFits(kids[k], depth + 1)
    ensures FitSoFar(kids, k + 1, depth)
  {
    hide HeightFits;
  }

  lemma Fits(it: Item, depth: nat)
    requires FitSoFar(KidsOf(it), |KidsOf(it)|, depth)
    ensures HeightFits(it, depth)
  {
  }

  lemma TooHigh(it: Item, depth: nat, k: nat)
    requires k < |KidsOf(it)|
    requires depth >= CIRCULAR_LIMIT || !HeightFits(KidsOf(it)[k], depth + 1)
    ensures !HeightFits(it, depth)
  {
    assert KidsOf(it)[k] in KidsOf(it);
  }

  lemma {:induction false} NextOf(from: seq<Shape>, k: nat)
    requires k < |from| && NodesOf(from) <= BlocksOf(from)
    ensures from[k].node in BlocksOf(from)
  {
    assert from[k] in from;
  }

  method CopyChild(child: Node, copy: Node, last: Node?, depth: nat, heap: Allocator, ghost base: set<object>,
                   ghost own: Shape, ghost it: Item, ghost from: seq<Shape>, ghost k: nat, ghost kids: seq<Shape>)
    returns (ok: bool, last': Node?, ghost kids': seq<Shape>)
    requires k < |from| && child == from[k].node && ModelsAll(from, KidsOf(it))
    requires BlocksOf(from) <= base && |kids| == k && |from| == |KidsOf(it)|
    requires Copying(copy, copy.child, last, base, own, it, kids, KidsOf(it)[..k], heap)
    modifies heap, copy`child, Only(last)`next
    ensures ok ==> |kids'| == k + 1 && HeightFits(KidsOf(it)[k], depth + 1)
    ensures ok ==> heap.failures == old(heap.failures)
    ensures !ok ==> kids' == kids && (heap.failures != old(heap.failures) || !HeightFits(KidsOf(it)[k], depth + 1))
    ensures fresh(BlocksOf(kids') - BlocksOf(kids)) && BlocksOf(kids) <= BlocksOf(kids')
    ensures Copying(copy, copy.child, last', base, own, it, kids', KidsOf(it)[..|kids'|], heap)
    decreases it, 0, k
  {
    hide Models, ModelsAll, Separate, SeparateAll, Inner, Blocks, BlocksOf, Copied, Linked, NodesOf, HeightFits;
    ok, last', kids' := false, last, kids;
    var newchild;
    ghost var kid;
    BlocksOfMember(from, k);
    OneOfAll(from, KidsOf(it), k);
    FirstInBlocks(kids);
    OwnNodes(own);
    newchild, kid := DuplicateRec(child, depth + 1, true, heap, from[k], KidsOf(it)[k]);
    if newchild == null {
      return;
    }
    OwnNodes(kid.value);
    AttachChild(copy, last, newchild, heap, base, own, it, kids, KidsOf(it)[..k], kid.value, KidsOf(it)[k]);
    assert KidsOf(it)[..k] + [KidsOf(it)[k]] == KidsOf(it)[..k + 1];
    ok, last', kids' := true, newchild, kids + [kid.value];
  }

  lemma {:induction false} KidBlocks(sh: Shape)
    ensures BlocksOf(sh.kids) <= Blocks(sh) && NodesOf(sh.kids) <= BlocksOf(sh.kids)
  {
    NodesInBlocks(sh.kids);
  }

  /** Whether the two trees share no memory. */
  ghost predicate Apart(sh: Shape, other: Shape) {
    Blocks(sh) !! Blocks(other)
  }

  /**
   * cJSON_Duplicate. When no allocation fails, a recursive copy is made exactly of
   * the trees whose lists nest at most 10000 deep; it shares no memory with
   * the original, which is left as it was.
   */
  method Duplicate(item: Node?, recurse: bool, heap: Allocator, ghost sh: Shape, ghost it: Item)
    returns (copy: Node?, ghost copySh: Option<Shape>)
    requires item != null ==> item == sh.node && Models(sh, it) && Blocks(sh) <= heap.live
    requires heap.Valid()
    modifies heap
    ensures heap.Valid()
    ensures copy == null ==> heap.live == old(heap.live)
    ensures heap.failures == old(heap.failures) ==> (copy != null <==> item != null && (recurse ==> HeightFits(it, 0)))
    ensures copy != null ==>
      && item != null && Models(sh, it)
      && copySh.Some? && copySh.value.node == copy && copy.next == null && copy.prev == null
      && Models(copySh.value, if recurse then it else Alone(it)) && Separate(copySh.value)
      && heap.live == old(heap.live) + Blocks(copySh.value)
      && fresh(Blocks(copySh.value)) && Apart(sh, copySh.value)
    ensures copy != null ==> item != null && SameFields(copy, item)
  {
    hide Models, Separate, Blocks, HeightFits;
    copy, copySh := null, None;
    if item != null {
      ReadsOwn(sh);
      copy, copySh := DuplicateRec(item, 0, recurse, heap, sh, it);
    }
  }
}
