/** cJSON nodes in memory, what they represent, and the ledger of live memory. */
module Heap {
  import opened Bytes
  import opened CLibrary
  import opened Items

  datatype Kind = KInvalid | KFalse | KTrue | KNull | KNumber | KString | KArray | KObject | KRaw

  class Node {
    var next: Node?
    var prev: Node?
    var child: Node?
    var kind: Kind
    var valuestring: array?<byte>
    var valueint: int
    var valuedouble: real
    var key: array?<byte>  // the field `string` of the source

    constructor ()
      ensures next == null && prev == null && child == null && kind == KInvalid
      ensures valuestring == null && key == null && valueint == 0 && valuedouble == 0.0
    {
      next, prev, child := null, null, null;
      kind, valuestring, key, valueint, valuedouble := KInvalid, null, null, 0, 0.0;
    }
  }

  /** malloc and free, with a ledger of the blocks that are allocated. */
  class Allocator {
    ghost var live: set<object>
    ghost var failures: nat  // how many allocations have failed so far
    const reliable: bool  // none ever does

    constructor (reliable: bool)
      ensures this.reliable == reliable && live == {} && failures == 0 && Valid()
    {
      this.reliable, live, failures := reliable, {}, 0;
    }

    ghost predicate Valid()
      reads this
    {
      this !in live && (reliable ==> failures == 0)
    }

    /** cJSON_New_Item. */
    method NewNode() returns (n: Node?)
      requires Valid()
      modifies this
      ensures Valid() && failures == old(failures) + (if n == null then 1 else 0)
      ensures n == null ==> live == old(live)
      ensures n != null ==> fresh(n) && live == old(live) + {n}
      ensures n != null ==>
        && n.next == null && n.prev == null && n.child == null && n.kind == KInvalid
        && n.valuestring == null && n.key == null
    {
      if !reliable {
        if * {
          failures := failures + 1;
          return null;
        }
      }
      n := new Node();
      live := live + {n};
    }

    method NewBytes(size: nat) returns (a: array?<byte>)
      requires Valid()
      modifies this
      ensures Valid() && failures == old(failures) + (if a == null then 1 else 0)
      ensures a == null ==> live == old(live)
      ensures a != null ==> fresh(a) && a.Length == size && live == old(live) + {a}
    {
      if !reliable {
        if * {
          failures := failures + 1;
          return null;
        }
      }
      a := new byte[size];
      live := live + {a};
    }

    /** realloc: the block moves with its contents, or stays where it is when there is no memory. */
    method Realloc(block: array<byte>, size: nat) returns (a: array?<byte>)
      requires Valid() && block in live
      modifies this
      ensures Valid() && failures == old(failures) + (if a == null then 1 else 0)
      ensures a == null ==> live == old(live)
      ensures a != null ==> fresh(a) && a.Length == size && live == old(live) - {block} + {a}
      ensures a != null ==>
        forall i :: 0 <= i < size && i < block.Length ==> a[i] == old(block[i])
    {
      a := NewBytes(size);
      if a != null {
        forall i | 0 <= i < size && i < block.Length {
          a[i] := block[i];
        }
        Free(block);
      }
    }

    /** free: only of memory that is live, so never twice. */
    method Free(block: object)
      requires Valid() && block in live
      modifies this`live
      ensures Valid() && live == old(live) - {block}
    {
      live := live - {block};
    }
  }

  // ----- footprints

  /** Where a tree lies in memory: its node, its strings, and the trees of its children. */
  datatype Shape = Shape(node: Node, text: array?<byte>, key: array?<byte>, kids: seq<Shape>)

  ghost function Only(n: Node?): set<Node> {
    if n == null then {} else {n}
  }

  ghost function Block(a: array?<byte>): set<object> {
    if a == null then {} else {a}
  }

  /** The blocks of a tree that are not its node's own name or the node itself. */
  ghost function Inner(sh: Shape): set<object>
    decreases sh, 1
  {
    Block(sh.text) + BlocksOf(sh.kids)
  }

  ghost function Blocks(sh: Shape): set<object>
    decreases sh, 2
  {
    {sh.node} + Block(sh.key) + Inner(sh)
  }

  ghost function BlocksOf(kids: seq<Shape>): set<object>
    decreases kids, 0
  {
    if kids == [] then {} else BlocksOf(kids[..|kids| - 1]) + Blocks(kids[|kids| - 1])
  }

  lemma BlocksOfAppend(kids: seq<Shape>, sh: Shape)
    ensures BlocksOf(kids + [sh]) == BlocksOf(kids) + Blocks(sh)
  {
    assert (kids + [sh])[..|kids|] == kids;
  }

  lemma {:induction false} BlocksOfMember(kids: seq<Shape>, i: nat)
    requires i < |kids|
    ensures Blocks(kids[i]) <= BlocksOf(kids)
  {
    if i < |kids| - 1 {
      BlocksOfMember(kids[..|kids| - 1], i);
    }
  }

  lemma BlocksOfStep(kids: seq<Shape>, i: nat)
    requires i < |kids|
    ensures BlocksOf(kids[..i + 1]) == BlocksOf(kids[..i]) + Blocks(kids[i])
  {
    assert kids[..i + 1][..i] == kids[..i];
  }

  lemma {:induction false} BlocksOfWhere(kids: seq<Shape>, o: object)
    ensures o in BlocksOf(kids) <==> exists i :: 0 <= i < |kids| && o in Blocks(kids[i])
  {
    if kids != [] {
      var rest := kids[..|kids| - 1];
      BlocksOfWhere(rest, o);
      if o in BlocksOf(rest) {
        var i :| 0 <= i < |rest| && o in Blocks(rest[i]);
        assert o in Blocks(kids[i]);
      }
      if i :| 0 <= i < |kids| && o in Blocks(kids[i]) {
        assert i < |rest| ==> o in Blocks(rest[i]);
      }
    }
  }

  /** No block occurs twice in a tree. */
  ghost predicate Separate(sh: Shape)
    decreases sh, 1
  {
    && Block(sh.text) !! Block(sh.key)
    && sh.node !in BlocksOf(sh.kids)
    && Block(sh.text) !! BlocksOf(sh.kids) && Block(sh.key) !! BlocksOf(sh.kids)
    && SeparateAll(sh.kids)
  }

  ghost predicate SeparateAll(kids: seq<Shape>)
    decreases kids, 0
  {
    && (forall i :: 0 <= i < |kids| ==> Separate(kids[i]))
    && (forall i, j :: 0 <= i < j < |kids| ==> Blocks(kids[i]) !! Blocks(kids[j]))
  }

  lemma {:induction false} SeparatePrefix(kids: seq<Shape>, i: nat, n: nat)
    requires n <= i < |kids| && SeparateAll(kids)
    ensures BlocksOf(kids[..n]) !! Blocks(kids[i])
    decreases n
  {
    hide Blocks, Separate;
    if n > 0 {
      SeparatePrefix(kids, i, n - 1);
      BlocksOfStep(kids, n - 1);
    }
  }

  lemma SeparateAppend(kids: seq<Shape>, sh: Shape)
    requires SeparateAll(kids) && Separate(sh) && Blocks(sh) !! BlocksOf(kids)
    ensures SeparateAll(kids + [sh])
  {
    hide Separate, Blocks, BlocksOf;
    var all := kids + [sh];
    forall i, j | 0 <= i < j < |all| ensures Blocks(all[i]) !! Blocks(all[j]) {
      BlocksOfMember(kids, i);
    }
  }

  // ----- representation

  ghost function First(kids: seq<Shape>): Node? {
    NodeAt(kids, 0)
  }

  ghost function NodeAt(kids: seq<Shape>, i: nat): Node? {
    NodeOr(kids, i, null)
  }

  ghost function NodeOr(kids: seq<Shape>, i: nat, behind: Node?): Node? {
    if i < |kids| then kids[i].node else behind
  }

  ghost function NodesOf(kids: seq<Shape>): set<Node> {
    set k | k in kids :: k.node
  }

  /** The next pointers run through the children and end in NULL. */
  ghost predicate NextChained(kids: seq<Shape>)
    reads NodesOf(kids)
  {
    forall i :: 0 <= i < |kids| ==>
      kids[i].node.next == NodeAt(kids, i + 1)
  }

  /** The prev pointers run back. */
  ghost predicate PrevChained(kids: seq<Shape>)
    reads NodesOf(kids)
  {
    forall i :: 0 < i < |kids| ==> kids[i].node.prev == kids[i - 1].node
  }

  /** A finished child list: the head's prev is the tail. */
  ghost predicate Siblings(kids: seq<Shape>)
    reads NodesOf(kids)
  {
    NextChained(kids) && PrevChained(kids) && (kids != [] ==> kids[0].node.prev == kids[|kids| - 1].node)
  }

  /** A string in memory: NULL, or a terminated block. */
  ghost predicate Holds(a: array?<byte>, s: Option<cstring>)
    reads a
  {
    if a == null then s == None else s.Some? && NUL in a[..] && s == Some(CString(a[..]))
  }

  /** The C string at a pointer. */
  function StringAt(a: array?<byte>): Option<cstring>
    reads a
  {
    if a == null then None else Some(CString(a[..]))
  }

  ghost predicate KindIs(kind: Kind, item: Item) {
    match item
    case Invalid(_) => kind == KInvalid
    case Null(_) => kind == KNull
    case False(_) => kind == KFalse
    case True(_) => kind == KTrue
    case Number(_, _) => kind == KNumber
    case Raw(_, _) => kind == KRaw
    case String(_, _) => kind == KString
    case Array(_, _) => kind == KArray
    case Object(_, _) => kind == KObject
  }

  /** What an item has below it, and its text. */
  function KidsOf(item: Item): seq<Item> {
    if item.Array? || item.Object? then item.kids else []
  }

  ghost function TextOf(it: Item): Option<cstring> {
    if it.String? || it.Raw? then it.text else None
  }

  /** The item in memory at `sh`. Says nothing about the node's own next and prev. */
  ghost predicate Models(sh: Shape, item: Item)
    reads sh.node`kind, sh.node`valuestring, sh.node`valueint, sh.node`valuedouble, sh.node`key, sh.node`child
    reads Block(sh.key), Inner(sh)
    decreases sh, 1
  {
    && sh.node.valuestring == sh.text && sh.node.key == sh.key && sh.node.child == First(sh.kids)
    && KindIs(sh.node.kind, item)
    && Holds(sh.key, item.key)
    && Holds(sh.text, TextOf(item))
    && (item.Number? ==> sh.node.valuedouble == item.d && sh.node.valueint == Saturate(item.d))
    && NodesOf(sh.kids) <= BlocksOf(sh.kids)
    && Siblings(sh.kids)
    && ModelsAll(sh.kids, KidsOf(item))
  }

  ghost predicate ModelsAll(kids: seq<Shape>, items: seq<Item>)
    reads BlocksOf(kids)
    decreases kids, 0
  {
    && |kids| == |items|
    && forall i :: 0 <= i < |kids| ==> (BlocksOfMember(kids, i); Models(kids[i], items[i]))
  }

  lemma {:induction false} FieldsOf(sh: Shape, it: Item)
    requires Models(sh, it)
    ensures sh.node.valuestring == sh.text && sh.node.key == sh.key
    ensures Holds(sh.key, it.key) && Holds(sh.text, TextOf(it))
    ensures KindIs(sh.node.kind, it)
    ensures it.Number? ==> sh.node.valuedouble == it.d && sh.node.valueint == Saturate(it.d)
    ensures sh.node.child == First(sh.kids) && NextChained(sh.kids) && ModelsAll(sh.kids, KidsOf(it))
  {
  }

  /** The type of a node tells what it represents. */
  lemma {:induction false} TypeTells(sh: Shape, it: Item)
    requires Models(sh, it)
    ensures (sh.node.kind == KFalse <==> it.False?) && (sh.node.kind == KTrue <==> it.True?)
    ensures (sh.node.kind == KNull <==> it.Null?) && (sh.node.kind == KNumber <==> it.Number?)
    ensures (sh.node.kind == KString <==> it.String?) && (sh.node.kind == KRaw <==> it.Raw?)
    ensures (sh.node.kind == KArray <==> it.Array?) && (sh.node.kind == KObject <==> it.Object?)
  {
    hide Holds, ModelsAll, Siblings, Saturate;
  }

  lemma {:induction false} OneOfAll(from: seq<Shape>, items: seq<Item>, k: nat)
    requires ModelsAll(from, items) && k < |from|
    ensures |from| == |items| && Models(from[k], items[k])
  {
  }

  lemma {:induction false} NodesInBlocks(kids: seq<Shape>)
    ensures NodesOf(kids) <= BlocksOf(kids)
  {
    forall k | k in kids ensures k.node in BlocksOf(kids) {
      var i :| 0 <= i < |kids| && kids[i] == k;
      BlocksOfMember(kids, i);
    }
  }

  /** Whoever can name a shape can see the memory it lists, so a call that only reads leaves it as it is. */
  lemma {:induction false} BlocksAllocated(sh: Shape)
    ensures forall o :: o in Blocks(sh) ==> allocated(o)
    decreases sh, 1
  {
    BlocksOfAllocated(sh.kids);
    assert Blocks(sh) == {sh.node} + Block(sh.key) + Inner(sh);
    assert Inner(sh) == Block(sh.text) + BlocksOf(sh.kids);
    assert allocated(sh.node) && allocated(sh.text) && allocated(sh.key);
  }

  lemma {:induction false} BlocksOfAllocated(kids: seq<Shape>)
    ensures forall o :: o in BlocksOf(kids) ==> allocated(o)
    decreases kids, 0
  {
    hide Blocks;
    forall o | o in BlocksOf(kids) ensures allocated(o) {
      BlocksOfWhere(kids, o);
      var i :| 0 <= i < |kids| && o in Blocks(kids[i]);
      BlocksAllocated(kids[i]);
    }
  }

  /** A node in memory that is one of the children. */
  lemma {:induction false} KidModels(kids: seq<Shape>, items: seq<Item>, k: nat)
    requires ModelsAll(kids, items) && NextChained(kids) && k < |kids|
    ensures |kids| == |items| && Models(kids[k], items[k]) && kids[k].node.next == NodeAt(kids, k + 1)
    ensures Holds(kids[k].node.key, items[k].key)
    ensures Blocks(kids[k]) <= BlocksOf(kids) && kids[k].node in Blocks(kids[k])
  {
    hide Models, Blocks, BlocksOf, Holds;
    BlocksOfMember(kids, k);
    FieldsOf(kids[k], items[k]);
    ReadsOwn(kids[k]);
  }

  /** What a node shows of itself. */
  lemma {:induction false} NodeShows(sh: Shape, it: Item)
    requires Models(sh, it)
    ensures KindIs(sh.node.kind, it)
    ensures it.Number? ==> sh.node.valuedouble == it.d && sh.node.valueint == Saturate(it.d)
    ensures it.String? || it.Raw? ==> Holds(sh.node.valuestring, it.text)
    ensures sh.node.child == First(sh.kids) && NextChained(sh.kids) && ModelsAll(sh.kids, KidsOf(it))
    ensures BlocksOf(sh.kids) <= Blocks(sh)
    ensures |sh.kids| == |KidsOf(it)| && NodesOf(sh.kids) <= BlocksOf(sh.kids)
    ensures {sh.node} + Block(sh.key) + Inner(sh) == Blocks(sh)
    ensures forall o :: o in Blocks(sh) ==> allocated(o)
  {
    FieldsOf(sh, it);
    BlocksAllocated(sh);
    assert Blocks(sh) == {sh.node} + Block(sh.key) + Inner(sh);
  }

  /** The blocks of a tree are nodes and strings. */
  lemma {:induction false} BlockKinds(sh: Shape)
    ensures forall o :: o in Blocks(sh) ==> o is Node || o is array<byte>
    decreases sh, 1
  {
    BlockKindsOf(sh.kids);
    assert Blocks(sh) == {sh.node} + Block(sh.key) + Inner(sh);
    assert Inner(sh) == Block(sh.text) + BlocksOf(sh.kids);
  }

  lemma {:induction false} BlockKindsOf(kids: seq<Shape>)
    ensures forall o :: o in BlocksOf(kids) ==> o is Node || o is array<byte>
    decreases kids, 0
  {
    hide Blocks;
    forall o | o in BlocksOf(kids) ensures o is Node || o is array<byte> {
      BlocksOfWhere(kids, o);
      var i :| 0 <= i < |kids| && o in Blocks(kids[i]);
      BlockKinds(kids[i]);
    }
  }

  // ----- child lists under construction

  /**
   * A list that is being built: the head has no prev yet, and `behind` is a
   * node already linked to the end that is not part of `kids` yet.
   */
  ghost predicate Linked(head: Node?, kids: seq<Shape>, items: seq<Item>, behind: Node?)
    reads BlocksOf(kids), NodesOf(kids)
  {
    && head == NodeOr(kids, 0, behind)
    && (forall i :: 0 <= i < |kids| ==> kids[i].node.next == NodeOr(kids, i + 1, behind))
    && PrevChained(kids)
    && (kids != [] ==> kids[0].node.prev == null)
    && ModelsAll(kids, items)
    && SeparateAll(kids)
  }

  lemma {:induction false} EmptyList()
    ensures Linked(null, [], [], null)
  {
  }

  lemma {:induction false} HeadIs(head: Node?, kids: seq<Shape>, items: seq<Item>)
    requires Linked(head, kids, items, null)
    ensures head == First(kids)
  {
  }

  ghost function Last(kids: seq<Shape>): Node? {
    if kids == [] then null else kids[|kids| - 1].node
  }

  /** A node without a value. */
  lemma {:induction false} BareModels(sh: Shape, it: Item)
    requires sh == Shape(sh.node, null, sh.key, [])
    requires sh.node.valuestring == null && sh.node.key == sh.key && sh.node.child == null
    requires Holds(sh.key, it.key)
    requires (it.Invalid? && sh.node.kind == KInvalid) || (it == String(it.key, None) && sh.node.kind == KString)
    ensures Models(sh, it) && Separate(sh) && Inner(sh) == {}
  {
  }

  /** A node without children. */
  lemma {:induction false} ScalarModels(sh: Shape, it: Item)
    requires sh.kids == [] && sh.node.child == null
    requires sh.node.valuestring == sh.text && sh.node.key == sh.key
    requires !it.Array? && !it.Object? && KindIs(sh.node.kind, it)
    requires Holds(sh.key, it.key) && Holds(sh.text, TextOf(it))
    requires it.Number? ==> sh.node.valuedouble == it.d && sh.node.valueint == Saturate(it.d)
    requires Block(sh.text) !! Block(sh.key)
    ensures Models(sh, it) && Separate(sh) && Inner(sh) == Block(sh.text)
  {
  }

  /** The node behind the list joins it. */
  lemma {:induction false} LinkedAppend(head: Node?, kids: seq<Shape>, items: seq<Item>, sh: Shape, it: Item)
    requires Linked(head, kids, items, sh.node)
    requires Models(sh, it) && Separate(sh) && Blocks(sh) !! BlocksOf(kids)
    requires sh.node.next == null && sh.node.prev == Last(kids)
    ensures Linked(head, kids + [sh], items + [it], null)
    ensures BlocksOf(kids + [sh]) == BlocksOf(kids) + Blocks(sh)
  {
    hide Models, Separate, Blocks, BlocksOf, SeparateAll;
    SeparateAppend(kids, sh);
    BlocksOfAppend(kids, sh);
    var all, n := kids + [sh], |kids|;
    assert all[n] == sh && forall i :: 0 <= i < n ==> all[i] == kids[i];
    assert ModelsAll(all, items + [it]);
    assert PrevChained(all);
    forall i | 0 <= i < |all| ensures all[i].node.next == NodeOr(all, i + 1, null) {
      if i < n {
        assert kids[i].node.next == NodeOr(kids, i + 1, sh.node);
      }
    }
  }

  method LinkBehind(current: Node, node: Node, ghost head: Node?, ghost kids: seq<Shape>, ghost items: seq<Item>)
    requires kids != [] && current == Last(kids) && Linked(head, kids, items, null)
    requires node !in BlocksOf(kids)
    modifies current`next, node`prev
    ensures Linked(head, kids, items, node) && current.next == node && node.prev == current
  {
    hide Models, ModelsAll, BlocksOf, SeparateAll, NodesOf, Linked;
    FirstInBlocks(kids);
    SetNext(current, node, head, kids, items);
    node.prev := current;
  }

  /** Models reads neither next nor prev of the node itself. */
  method SetNext(current: Node, node: Node, ghost head: Node?, ghost kids: seq<Shape>, ghost items: seq<Item>)
    requires kids != [] && current == Last(kids) && Linked(head, kids, items, null)
    modifies current`next
    ensures Linked(head, kids, items, node) && current.next == node
  {
    hide Models, Blocks, BlocksOf, SeparateAll, Separate, Inner, NodesOf;
    ghost var n := |kids| - 1;
    forall i | 0 <= i < n ensures current != kids[i].node && current !in Blocks(kids[i]) {
      SeparateNodes(kids, i, n);
    }
    SeparateMember(kids, n);
    current.next := node;
    forall i | 0 <= i < |kids| ensures Models(kids[i], items[i]) {
      assert old(Models(kids[i], items[i]));
      ReadsOwn(kids[i]);
    }
    assert ModelsAll(kids, items);
    forall i | 0 <= i < |kids| ensures kids[i].node.next == NodeOr(kids, i + 1, node) {
      assert old(kids[i].node.next) == NodeOr(kids, i + 1, null);
    }
  }

  lemma SeparateNodes(kids: seq<Shape>, i: nat, j: nat)
    requires i < j < |kids| && SeparateAll(kids)
    ensures kids[i].node != kids[j].node && kids[j].node !in Blocks(kids[i]) && kids[i].node !in Blocks(kids[j])
  {
    assert Blocks(kids[i]) !! Blocks(kids[j]);
  }

  lemma {:induction false} NodeNotInner(sh: Shape)
    requires Separate(sh)
    ensures sh.node !in Inner(sh) + Block(sh.key) && Inner(sh) <= Blocks(sh) && sh.node in Blocks(sh)
  {
  }

  lemma SeparateMember(kids: seq<Shape>, i: nat)
    requires i < |kids| && SeparateAll(kids)
    ensures Separate(kids[i]) && kids[i].node !in Inner(kids[i]) + Block(kids[i].key)
  {
  }

  /** The success paths of parse_array and parse_object: the list is closed and hung under its item. */
  method Adopt(item: Node, head: Node?, current: Node?, kind: Kind, ghost name: Option<cstring>,
               ghost kids: seq<Shape>, ghost items: seq<Item>, ghost value: Item)
    requires Linked(head, kids, items, null) && current == Last(kids)
    requires item !in BlocksOf(kids) && item.valuestring == null && Holds(item.key, name)
    requires Block(item.key) !! BlocksOf(kids)
    requires kind == KArray ==> value == Array(name, items)
    requires kind == KObject ==> value == Object(name, items)
    requires kind == KArray || kind == KObject
    modifies Only(head)`prev, item`kind, item`child
    ensures Models(Shape(item, null, item.key, kids), value)
    ensures Separate(Shape(item, null, item.key, kids))
  {
    hide Models, ModelsAll, Blocks, BlocksOf, SeparateAll, Separate, Inner, NodesOf, Siblings, Linked;
    NodesInBlocks(kids);
    FirstInBlocks(kids);
    Close(head, current, kids, items);
    item.kind := kind;
    item.child := head;
    ListModels(Shape(item, null, item.key, kids), value);
  }

  lemma {:induction false} FirstInBlocks(kids: seq<Shape>)
    ensures Only(First(kids)) <= NodesOf(kids) <= BlocksOf(kids)
    ensures Only(Last(kids)) <= NodesOf(kids)
  {
    NodesInBlocks(kids);
    if kids != [] {
      assert kids[0] in kids && kids[|kids| - 1] in kids;
    }
  }

  lemma {:induction false} ListModels(sh: Shape, value: Item)
    requires sh.text == null && sh.node.valuestring == null && sh.node.key == sh.key
    requires sh.node.child == First(sh.kids)
    requires (value.Array? && sh.node.kind == KArray) || (value.Object? && sh.node.kind == KObject)
    requires Holds(sh.key, value.key)
    requires Siblings(sh.kids) && ModelsAll(sh.kids, value.kids) && SeparateAll(sh.kids)
    requires sh.node !in BlocksOf(sh.kids) && Block(sh.key) !! BlocksOf(sh.kids)
    ensures Models(sh, value) && Separate(sh)
  {
    hide ModelsAll, SeparateAll, Siblings;
    NodesInBlocks(sh.kids);
  }

  method Close(head: Node?, current: Node?, ghost kids: seq<Shape>, ghost items: seq<Item>)
    requires Linked(head, kids, items, null) && current == Last(kids)
    modifies Only(head)`prev
    ensures head == First(kids) && Siblings(kids) && ModelsAll(kids, items) && SeparateAll(kids)
  {
    hide Models, Blocks, BlocksOf, SeparateAll, Separate, Inner, NodesOf;
    forall i | 0 < i < |kids| ensures kids[0].node != kids[i].node && kids[0].node !in Blocks(kids[i]) {
      SeparateNodes(kids, 0, i);
    }
    if kids != [] {
      SeparateMember(kids, 0);
    }
    if head != null {
      head.prev := current;
    }
    forall i | 0 <= i < |kids| ensures Models(kids[i], items[i]) {
      assert old(Models(kids[i], items[i]));
      ReadsOwn(kids[i]);
    }
    assert ModelsAll(kids, items);
    forall i | 0 < i < |kids| ensures kids[i].node.prev == kids[i - 1].node {
      assert old(kids[i].node.prev) == kids[i - 1].node;
    }
  }

  // ----- cJSON_Delete

  /** The pointers of a tree lead where its shape says; all that cJSON_Delete relies on. */
  ghost predicate Stored(sh: Shape)
    reads sh.node`valuestring, sh.node`key, sh.node`child, Inner(sh)
    decreases sh, 1
  {
    && sh.node.valuestring == sh.text && sh.node.key == sh.key && sh.node.child == First(sh.kids)
    && NodesOf(sh.kids) <= BlocksOf(sh.kids)
    && NextChained(sh.kids)
    && StoredAll(sh.kids)
  }

  ghost predicate StoredAll(kids: seq<Shape>)
    reads BlocksOf(kids)
    decreases kids, 0
  {
    forall i :: 0 <= i < |kids| ==> (BlocksOfMember(kids, i); Stored(kids[i]))
  }

  lemma {:induction false} ModelsAreStored(sh: Shape, it: Item)
    requires Models(sh, it)
    ensures Stored(sh)
    decreases sh, 1
  {
    AllModelsAreStored(sh.kids, KidsOf(it));
  }

  lemma {:induction false} AllModelsAreStored(kids: seq<Shape>, items: seq<Item>)
    requires ModelsAll(kids, items)
    ensures StoredAll(kids)
    decreases kids, 0
  {
    hide Models, Stored;
    forall i | 0 <= i < |kids| ensures Stored(kids[i]) {
      ModelsAreStored(kids[i], items[i]);
    }
  }

  /**
   * cJSON_Delete. Exactly the memory of the list is given back; Free's
   * precondition makes sure that no block is freed twice.
   */
  method Delete(first: Node?, heap: Allocator, ghost kids: seq<Shape>)
    requires first == First(kids) && NextChained(kids) && StoredAll(kids) && SeparateAll(kids)
    requires heap.Valid() && BlocksOf(kids) <= heap.live
    modifies heap`live, BlocksOf(kids)
    ensures heap.Valid() && heap.live == old(heap.live) - BlocksOf(kids)
    decreases kids
  {
    hide Blocks, BlocksOf, Stored, Separate;
    var item := first;
    ghost var k := 0;
    assert kids[..0] == [];
    assert BlocksOf([]) == {} by { NoBlocks(); }
    while item != null
      invariant 0 <= k <= |kids| && item == NodeAt(kids, k)
      invariant heap.Valid() && heap.live == old(heap.live) - BlocksOf(kids[..k])
      invariant forall i :: k <= i < |kids| ==> Stored(kids[i])
      invariant forall i :: k <= i < |kids| ==> kids[i].node.next == NodeAt(kids, i + 1)
      decreases |kids| - k
    {
      BlocksOfMember(kids, k);
      BlocksOfStep(kids, k);
      SeparatePrefix(kids, k, k);
      var next := item.next;
      label Before:
      DeleteNode(item, heap, kids[k]);
      forall i | k < i < |kids|
        ensures Stored(kids[i]) && kids[i].node.next == NodeAt(kids, i + 1)
      {
        assert old@Before(Stored(kids[i]));
        BlocksOfMember(kids, i);
        ReadsOwn(kids[i]);
        assert Reads(kids[i]) !! Blocks(kids[k]);
      }
      item := next;
      k := k + 1;
    }
    assert kids[..k] == kids;
  }

  lemma NoBlocks()
    ensures BlocksOf([]) == {}
  {
  }

  /** What Models and Stored read of one tree, and next. */
  ghost function Reads(sh: Shape): set<object> {
    {sh.node} + Block(sh.key) + Inner(sh)
  }

  lemma ReadsOwn(sh: Shape)
    ensures Reads(sh) == Blocks(sh)
  {
  }

  lemma {:induction false} StoredShows(sh: Shape)
    requires Stored(sh) && Separate(sh)
    ensures sh.node.valuestring == sh.text && sh.node.key == sh.key && sh.node.child == First(sh.kids)
    ensures NextChained(sh.kids) && StoredAll(sh.kids) && SeparateAll(sh.kids)
    ensures sh.node !in BlocksOf(sh.kids) && Block(sh.text) !! BlocksOf(sh.kids) && Block(sh.key) !! BlocksOf(sh.kids)
    ensures Block(sh.text) !! Block(sh.key)
    ensures Blocks(sh) == BlocksOf(sh.kids) + Block(sh.text) + Block(sh.key) + {sh.node}
    ensures sh.node.child == null ==> BlocksOf(sh.kids) == {}
  {
    hide NextChained, StoredAll, SeparateAll;
    assert Blocks(sh) == {sh.node} + Block(sh.key) + Inner(sh) && Inner(sh) == Block(sh.text) + BlocksOf(sh.kids);
    NoBlocks();
  }

  method DeleteNode(item: Node, heap: Allocator, ghost sh: Shape)
    requires item == sh.node && Stored(sh) && Separate(sh)
    requires heap.Valid() && Blocks(sh) <= heap.live
    modifies heap`live, Blocks(sh)
    ensures heap.Valid() && heap.live == old(heap.live) - Blocks(sh)
    decreases sh
  {
    hide Stored, Separate, Blocks, BlocksOf, StoredAll, SeparateAll, NextChained, First;
    StoredShows(sh);
    if item.child != null {
      Delete(item.child, heap, sh.kids);
    }
    if item.valuestring != null {
      heap.Free(item.valuestring);
      item.valuestring := null;
    }
    if item.key != null {
      heap.Free(item.key);
      item.key := null;
    }
    heap.Free(item);
  }

  /** cJSON_Delete of a single tree. */
  method DeleteStored(item: Node, heap: Allocator, ghost sh: Shape)
    requires item == sh.node && Stored(sh) && Separate(sh) && item.next == null
    requires heap.Valid() && Blocks(sh) <= heap.live
    modifies heap`live, Blocks(sh)
    ensures heap.Valid() && heap.live == old(heap.live) - Blocks(sh)
  {
    hide Stored, Separate, Blocks;
    NoBlocks();
    BlocksOfAppend([], sh);
    assert [] + [sh] == [sh];
    Delete(item, heap, [sh]);
  }
}
