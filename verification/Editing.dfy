/** Any sequence of list operations on an array or object, with items that belong to no list. */
module Editing {
  import opened Items
  import opened Heap
  import opened Lists

  /** A call, naming trees by their numbers. */
  datatype Edit =
    | Append(t: nat)
    | Insert(which: int, t: nat)
    | Detach(which: int)
    | Replace(which: int, t: nat)

  /** Which trees are children, in order, and which belong to no list. The others have been freed. */
  datatype State = State(order: seq<nat>, loose: set<nat>)

  function Alive(st: State): set<nat> {
    (set t | t in st.order) + st.loose
  }

  /** The call hands over an item that belongs to no list. */
  predicate Legal(st: State, e: Edit) {
    e.Detach? || e.t in st.loose
  }

  /** What a call does to the list. */
  function Step(st: State, e: Edit): State {
    match e
    case Append(t) => State(st.order + [t], st.loose - {t})
    case Insert(which, t) =>
      if which < 0 then st else State(Inserted(st.order, which, t), st.loose - {t})
    case Detach(which) =>
      if 0 <= which < |st.order| then State(Removed(st.order, which), st.loose + {st.order[which]}) else st
    case Replace(which, t) =>
      if 0 <= which < |st.order| then State(st.order[which := t], st.loose - {t}) else st
  }

  predicate LegalRun(st: State, script: seq<Edit>)
    decreases script
  {
    script != [] ==> Legal(st, script[0]) && LegalRun(Step(st, script[0]), script[1..])
  }

  function Run(st: State, script: seq<Edit>): State
    decreases script
  {
    if script == [] then st else Run(Step(st, script[0]), script[1..])
  }

  ghost predicate Proper(st: State) {
    && Distinct(st.order)
    && (forall t :: t in st.order ==> t !in st.loose)
  }

  // ----- what the calls mean for the list

  /** No call makes a tree, and only a replacement ends one. */
  lemma AliveAfter(st: State, e: Edit)
    requires Proper(st) && Legal(st, e)
    ensures Proper(Step(st, e))
    ensures Alive(Step(st, e)) ==
      Alive(st) - if e.Replace? && 0 <= e.which < |st.order| then {st.order[e.which]} else {}
  {
    hide Inserted, Removed, Distinct;
    match e
    case Append(t) => InsertedMembers(st.order, |st.order|, t);
    case Insert(which, t) => if which >= 0 { InsertedMembers(st.order, which, t); }
    case Detach(which) => if 0 <= which < |st.order| { RemovedDistinct(st.order, which); }
    case Replace(which, t) => if 0 <= which < |st.order| { ExchangedDistinct(st.order, which, t); }
  }

  lemma InsertedMembers(s: seq<nat>, k: nat, t: nat)
    requires Distinct(s) && t !in s
    ensures Distinct(Inserted(s, k, t))
    ensures forall n :: n in Inserted(s, k, t) <==> n in s || n == t
    ensures k == |s| ==> Inserted(s, k, t) == s + [t]
  {
    InsertedDistinct(s, k, t);
  }

  /** Detaching what was inserted, and inserting again what was detached, gives the same list. */
  lemma InsertDetach(st: State, which: int, t: nat)
    requires Proper(st) && t in st.loose
    ensures 0 <= which <= |st.order| ==> Step(Step(st, Insert(which, t)), Detach(which)) == st
    ensures Step(Step(st, Append(t)), Detach(|st.order|)) == st
    ensures 0 <= which < |st.order| ==>
      Step(Step(st, Detach(which)), Insert(which, st.order[which])) == st
  {
    assert Removed(st.order + [t], |st.order|) == st.order;
    if 0 <= which <= |st.order| {
      assert Removed(Inserted(st.order, which, t), which) == st.order;
      assert (st.loose - {t}) + {t} == st.loose;
    }
    if 0 <= which < |st.order| {
      var k := st.order[which];
      assert Inserted(Removed(st.order, which), which, k) == st.order;
      assert (st.loose + {k}) - {k} == st.loose;
    }
  }

  /** A call that finds no child at its index, or that inserts behind the last one. */
  lemma OutOfRange(st: State, which: int, t: nat)
    ensures which < 0 || which >= |st.order| ==>
      Step(st, Detach(which)) == st && Step(st, Replace(which, t)) == st
    ensures which < 0 ==> Step(st, Insert(which, t)) == st
    ensures which >= |st.order| ==> Step(st, Insert(which, t)) == Step(st, Append(t))
  {
  }

  /** The index counts from the head of the list. */
  lemma Positions(st: State, which: nat, t: nat, i: nat)
    requires which < |st.order|
    ensures i <= |st.order| ==>
      Step(st, Insert(which, t)).order[i]
        == (if i < which then st.order[i] else if i == which then t else st.order[i - 1])
    ensures i < |st.order| - 1 ==>
      Step(st, Detach(which)).order[i] == (if i < which then st.order[i] else st.order[i + 1])
    ensures i < |st.order| ==>
      Step(st, Replace(which, t)).order[i] == (if i == which then t else st.order[i])
  {
  }

  /** A replacement is a detachment and an insertion, but for what becomes of the old item. */
  lemma ReplaceIsDetachInsert(st: State, which: int, t: nat)
    requires Proper(st) && t in st.loose && 0 <= which < |st.order|
    ensures Step(Step(st, Detach(which)), Insert(which, t)).order == Step(st, Replace(which, t)).order
  {
    assert Inserted(Removed(st.order, which), which, t) == st.order[which := t];
  }

  // ----- trees in memory

  ghost function ChildNodes(trees: seq<Shape>, order: seq<nat>): (r: seq<Node>)
    requires forall i :: 0 <= i < |order| ==> order[i] < |trees|
    ensures |r| == |order| && forall i :: 0 <= i < |order| ==> r[i] == trees[order[i]].node
  {
    seq(|order|, i requires 0 <= i < |order| => trees[order[i]].node)
  }

  /** The blocks of some of the trees. */
  ghost function BlocksAt(trees: seq<Shape>, which: set<nat>): set<object>
    requires forall t :: t in which ==> t < |trees|
  {
    set t, o | t in which && o in Blocks(trees[t]) :: o
  }

  ghost predicate Numbers(trees: seq<Shape>, values: seq<Item>, st: State) {
    && |trees| == |values| && Proper(st)
    && (forall t :: t in st.loose ==> t < |trees|)
    && (forall i :: 0 <= i < |st.order| ==> st.order[i] < |trees|)
  }

  /** The nodes of the trees are distinct, and none is inside another tree. */
  lemma {:induction false} NotInside(trees: seq<Shape>, t: nat)
    requires t < |trees| && SeparateAll(trees)
    ensures forall u :: 0 <= u < |trees| ==>
      trees[u].node !in Inner(trees[t]) + Block(trees[t].key) && (trees[u].node == trees[t].node <==> u == t)
  {
    hide Separate, Inner, Blocks;
    SeparateMember(trees, t);
    NodeNotInner(trees[t]);
    forall u | 0 <= u < |trees| && u != t
      ensures trees[u].node !in Inner(trees[t]) + Block(trees[t].key) && trees[u].node != trees[t].node
    {
      SeparateNodes(trees, if u < t then u else t, if u < t then t else u);
      ReadsOwn(trees[t]);
    }
  }

  lemma {:induction false} ChildNodesFacts(trees: seq<Shape>, values: seq<Item>, st: State)
    requires Numbers(trees, values, st) && SeparateAll(trees)
    ensures Distinct(ChildNodes(trees, st.order))
    ensures forall n :: n in ChildNodes(trees, st.order) ==> n in NodesOf(trees)
    ensures forall t :: 0 <= t < |trees| && t !in st.order ==> trees[t].node !in ChildNodes(trees, st.order)
  {
    hide SeparateAll;
    var nodes := ChildNodes(trees, st.order);
    forall i, j | 0 <= i < j < |nodes| ensures nodes[i] != nodes[j] {
      NotInside(trees, st.order[i]);
    }
    forall n | n in nodes ensures n in NodesOf(trees) {
      var i :| 0 <= i < |nodes| && nodes[i] == n;
      assert trees[st.order[i]] in trees;
    }
    forall t | 0 <= t < |trees| && t !in st.order ensures trees[t].node !in nodes {
      NotInside(trees, t);
    }
  }

  ghost predicate TableOf(table: seq<Node>, trees: seq<Shape>) {
    |table| == |trees| && forall t :: 0 <= t < |trees| ==> table[t] == trees[t].node
  }

  /** What the pointer work of a call needs, and what it leaves for the next. */
  ghost predicate Wired(parent: Node, trees: seq<Shape>, values: seq<Item>, st: State)
    reads parent`child, NodesOf(trees)
  {
    && Numbers(trees, values, st) && SeparateAll(trees) && parent !in NodesOf(trees)
    && (forall n :: n in ChildNodes(trees, st.order) ==> n in NodesOf(trees))
    && List(parent, ChildNodes(trees, st.order))
    && (forall t :: t in st.loose ==>
          trees[t].node in NodesOf(trees) && trees[t].node.next == null && trees[t].node.prev == null)
  }

  method Relink(parent: Node, e: Edit, table: seq<Node>, ghost trees: seq<Shape>, ghost values: seq<Item>,
                ghost st: State)
    requires Wired(parent, trees, values, st) && TableOf(table, trees)
    requires Legal(st, e) && !e.Replace?
    modifies parent`child, NodesOf(trees)`next, NodesOf(trees)`prev
    ensures Wired(parent, trees, values, Step(st, e))
  {
    match e
    case Append(t) => RelinkAppend(parent, t, table, trees, values, st);
    case Insert(which, t) => RelinkInsert(parent, which, t, table, trees, values, st);
    case Detach(which) => RelinkDetach(parent, which, trees, values, st);
  }

  method RelinkAppend(parent: Node, t: nat, table: seq<Node>, ghost trees: seq<Shape>, ghost values: seq<Item>,
                      ghost st: State)
    requires Wired(parent, trees, values, st) && TableOf(table, trees) && t in st.loose
    modifies parent`child, NodesOf(trees)`next, NodesOf(trees)`prev
    ensures Wired(parent, trees, values, Step(st, Append(t)))
  {
    hide SeparateAll, Distinct, List, Inner, Blocks, NodesOf;
    ghost var nodes := ChildNodes(trees, st.order);
    ghost var next := Step(st, Append(t));
    ChildNodesFacts(trees, values, st);
    AliveAfter(st, Append(t));
    NotInside(trees, t);
    var ok := AddItemToArray(parent, table[t], nodes);
    ChildNodesFacts(trees, values, next);
    assert ChildNodes(trees, next.order) == nodes + [table[t]];
  }

  lemma ChildNodesInserted(trees: seq<Shape>, order: seq<nat>, k: nat, t: nat, r: seq<nat>)
    requires t < |trees| && forall i :: 0 <= i < |order| ==> order[i] < |trees|
    requires r == Inserted(order, k, t)
    ensures forall i :: 0 <= i < |r| ==> r[i] < |trees|
    ensures ChildNodes(trees, r) == Inserted<Node>(ChildNodes(trees, order), k, trees[t].node)
  {
  }

  lemma ChildNodesRemoved(trees: seq<Shape>, order: seq<nat>, k: nat, r: seq<nat>)
    requires k < |order| && forall i :: 0 <= i < |order| ==> order[i] < |trees|
    requires r == Removed(order, k)
    ensures forall i :: 0 <= i < |r| ==> r[i] < |trees|
    ensures ChildNodes(trees, r) == Removed(ChildNodes(trees, order), k)
  {
  }

  lemma ChildNodesExchanged(trees: seq<Shape>, order: seq<nat>, k: nat, t: nat, r: seq<nat>)
    requires k < |order| && t < |trees| && forall i :: 0 <= i < |order| ==> order[i] < |trees|
    requires r == order[k := t]
    ensures forall i :: 0 <= i < |r| ==> r[i] < |trees|
    ensures ChildNodes(trees, r) == ChildNodes(trees, order)[k := trees[t].node]
  {
  }

  method RelinkInsert(parent: Node, which: int, t: nat, table: seq<Node>, ghost trees: seq<Shape>,
                      ghost values: seq<Item>, ghost st: State)
    requires Wired(parent, trees, values, st) && TableOf(table, trees) && t in st.loose
    modifies parent`child, NodesOf(trees)`next, NodesOf(trees)`prev
    ensures Wired(parent, trees, values, Step(st, Insert(which, t)))
  {
    hide SeparateAll, Distinct, List, Inner, Blocks, NodesOf, Inserted, Removed;
    ghost var nodes := ChildNodes(trees, st.order);
    ghost var next := Step(st, Insert(which, t));
    ChildNodesFacts(trees, values, st);
    AliveAfter(st, Insert(which, t));
    NotInside(trees, t);
    var ok := InsertItemInArray(parent, which, table[t], nodes);
    if which >= 0 {
      ChildNodesInserted(trees, st.order, which, t, next.order);
      ChildNodesFacts(trees, values, next);
    }
  }

  method RelinkDetach(parent: Node, which: int, ghost trees: seq<Shape>, ghost values: seq<Item>, ghost st: State)
    requires Wired(parent, trees, values, st)
    modifies parent`child, NodesOf(trees)`next, NodesOf(trees)`prev
    ensures Wired(parent, trees, values, Step(st, Detach(which)))
  {
    hide SeparateAll, Distinct, List, Inner, Blocks, NodesOf, Inserted, Removed;
    ghost var nodes := ChildNodes(trees, st.order);
    ghost var next := Step(st, Detach(which));
    ChildNodesFacts(trees, values, st);
    AliveAfter(st, Detach(which));
    var item := DetachItemFromArray(parent, which, nodes);
    if item != null {
      NotInside(trees, st.order[which]);
      ChildNodesRemoved(trees, st.order, which, next.order);
      ChildNodesFacts(trees, values, next);
    }
  }

  lemma {:induction false} ListWalks(parent: Node, nodes: seq<Node>)
    requires List(parent, nodes)
    ensures Walk(parent.child, nodes) && (nodes != [] ==> parent.child != null)
  {
  }

  /** cJSON_ReplaceItemInArray up to the deletion of the replaced item. */
  method RelinkReplace(parent: Node, which: int, t: nat, table: seq<Node>, ghost trees: seq<Shape>,
                       ghost values: seq<Item>, ghost st: State) returns (item: Node?)
    requires Wired(parent, trees, values, st) && TableOf(table, trees) && t in st.loose
    modifies parent`child, NodesOf(trees)`next, NodesOf(trees)`prev
    ensures Wired(parent, trees, values, Step(st, Replace(which, t)))
    ensures item == if 0 <= which < |st.order| then trees[st.order[which]].node else null
    ensures item != null ==> item.next == null
  {
    hide SeparateAll, Distinct, Inner, Blocks, NodesOf, List, Walk;
    if which < 0 {
      return null;
    }
    ghost var nodes := ChildNodes(trees, st.order);
    ghost var next := Step(st, Replace(which, t));
    ChildNodesFacts(trees, values, st);
    AliveAfter(st, Replace(which, t));
    NotInside(trees, t);
    ListWalks(parent, nodes);
    item := GetArrayItem(parent, which, nodes);
    if parent.child == null || item == null {
      return null;
    }
    Exchange(parent, item, table[t], nodes, which);
    ChildNodesFacts(trees, values, next);
    ChildNodesExchanged(trees, st.order, which, t, next.order);
  }

  /** The trees are in memory as the state says, and the ledger holds them and what was there before. */
  ghost predicate Inv(parent: Node, trees: seq<Shape>, values: seq<Item>, st: State, heap: Allocator, base: set<object>)
    reads heap, parent`child, NodesOf(trees), BlocksOf(trees)
  {
    && Wired(parent, trees, values, st) && heap.Valid()
    && base !! BlocksOf(trees) && parent !in BlocksOf(trees) && heap !in BlocksOf(trees)
    && (forall t :: t in Alive(st) ==> (BlocksOfMember(trees, t); Models(trees[t], values[t])))
    && heap.live == base + BlocksAt(trees, Alive(st))
  }

  lemma {:induction false} PointersOutside(trees: seq<Shape>, t: nat)
    requires t < |trees| && SeparateAll(trees)
    ensures NodesOf(trees) !! Inner(trees[t]) + Block(trees[t].key)
    ensures Inner(trees[t]) + Block(trees[t].key) + {trees[t].node} <= BlocksOf(trees)
  {
    hide Inner, Blocks, SeparateAll, BlocksOf;
    NotInside(trees, t);
    BlocksOfMember(trees, t);
    ReadsOwn(trees[t]);
  }

  lemma BlocksMemberAt(trees: seq<Shape>, which: set<nat>, t: nat)
    requires t in which && forall u :: u in which ==> u < |trees|
    ensures Blocks(trees[t]) <= BlocksAt(trees, which)
  {
    hide Blocks;
  }

  lemma BlocksAtLess(trees: seq<Shape>, which: set<nat>, gone: nat)
    requires SeparateAll(trees) && gone !in which && gone < |trees| && forall u :: u in which ==> u < |trees|
    ensures BlocksAt(trees, which + {gone}) - Blocks(trees[gone]) == BlocksAt(trees, which)
  {
    hide Blocks, SeparateAll;
    forall t | t in which ensures Blocks(trees[t]) !! Blocks(trees[gone]) {
      ApartMembers(trees, t, gone);
    }
  }

  /** One call. */
  method Perform(parent: Node, e: Edit, table: seq<Node>, heap: Allocator, ghost trees: seq<Shape>,
                 ghost values: seq<Item>, ghost st: State, ghost base: set<object>)
    requires Inv(parent, trees, values, st, heap, base) && TableOf(table, trees) && Legal(st, e)
    modifies heap`live, parent`child, BlocksOf(trees)
    ensures Inv(parent, trees, values, Step(st, e), heap, base)
  {
    hide Inner, Blocks, SeparateAll, BlocksOf, Models, Distinct, List, NodesOf, ChildNodes;
    NodesInBlocks(trees);
    AliveAfter(st, e);
    label Before:
    var item := null;
    if e.Replace? {
      item := RelinkReplace(parent, e.which, e.t, table, trees, values, st);
    } else {
      Relink(parent, e, table, trees, values, st);
    }
    forall t | t in Alive(st) ensures Models(trees[t], values[t]) {
      assert old@Before(Models(trees[t], values[t]));
      PointersOutside(trees, t);
      BlocksMemberAt(trees, Alive(st), t);
      ReadsOwn(trees[t]);
    }
    if item != null {
      assert Alive(st) == Alive(Step(st, e)) + {st.order[e.which]};
      BlocksMemberAt(trees, Alive(st), st.order[e.which]);
      BlocksOfMember(trees, st.order[e.which]);
      Drop(parent, item, heap, trees, values, Step(st, e), base, st.order[e.which]);
    }
  }

  /** The deletion of the replaced item. */
  method Drop(parent: Node, item: Node, heap: Allocator, ghost trees: seq<Shape>,
              ghost values: seq<Item>, ghost st: State, ghost base: set<object>, ghost gone: nat)
    requires Wired(parent, trees, values, st) && heap.Valid()
    requires base !! BlocksOf(trees) && parent !in BlocksOf(trees) && heap !in BlocksOf(trees)
    requires gone < |trees| && gone !in Alive(st) && item == trees[gone].node && item.next == null
    requires Models(trees[gone], values[gone])
    requires forall t :: t in Alive(st) ==> Models(trees[t], values[t])
    requires heap.live == base + BlocksAt(trees, Alive(st) + {gone})
    modifies heap`live, Blocks(trees[gone])
    ensures Inv(parent, trees, values, st, heap, base)
  {
    hide Inner, Blocks, SeparateAll, BlocksOf, Models, Distinct, List, NodesOf;
    SeparateMember(trees, gone);
    BlocksOfMember(trees, gone);
    ModelsAreStored(trees[gone], values[gone]);
    forall t | t in Alive(st)
      ensures Blocks(trees[t]) !! Blocks(trees[gone]) && trees[t].node in Blocks(trees[t])
    {
      ApartMembers(trees, t, gone);
      BlocksMemberAt(trees, Alive(st) + {gone}, t);
    }
    BlocksMemberAt(trees, Alive(st) + {gone}, gone);
    BlocksAtLess(trees, Alive(st), gone);
    label Before:
    DeleteStored(item, heap, trees[gone]);
    forall t | t in Alive(st) ensures Models(trees[t], values[t]) {
      assert old@Before(Models(trees[t], values[t]));
      BlocksMemberAt(trees, Alive(st), t);
      ReadsOwn(trees[t]);
    }
  }

  lemma {:induction false} ApartMembers(trees: seq<Shape>, t: nat, u: nat)
    requires t < |trees| && u < |trees| && t != u && SeparateAll(trees)
    ensures Blocks(trees[t]) !! Blocks(trees[u]) && trees[t].node in Blocks(trees[t])
  {
    hide Separate;
    assert Blocks(if t < u then trees[t] else trees[u]) !! Blocks(if t < u then trees[u] else trees[t]);
  }

  /**
   * Any run of calls: the list stays well formed and holds what the calls
   * made of it, every tree that was not replaced is in memory unharmed, and
   * of all memory exactly the replaced trees have been freed.
   */
  method PerformAll(parent: Node, script: seq<Edit>, table: seq<Node>, heap: Allocator, ghost trees: seq<Shape>,
                    ghost values: seq<Item>, ghost st: State, ghost base: set<object>)
    requires Inv(parent, trees, values, st, heap, base) && TableOf(table, trees) && LegalRun(st, script)
    modifies heap`live, parent`child, BlocksOf(trees)
    ensures Inv(parent, trees, values, Run(st, script), heap, base)
    decreases script
  {
    hide Inv;
    if script != [] {
      Perform(parent, script[0], table, heap, trees, values, st, base);
      PerformAll(parent, script[1..], table, heap, trees, values, Step(st, script[0]), base);
    }
  }

  /** The entries of `all` that `order` names. */
  function Picked<T>(all: seq<T>, order: seq<nat>): (r: seq<T>)
    requires forall i :: 0 <= i < |order| ==> order[i] < |all|
    ensures |r| == |order| && forall i :: 0 <= i < |order| ==> r[i] == all[order[i]]
  {
    seq(|order|, i requires 0 <= i < |order| => all[order[i]])
  }

  /** Between calls, the parent's tree in memory is the array or object of its children. */
  lemma {:induction false} ParentModels(parent: Node, trees: seq<Shape>, values: seq<Item>, st: State, heap: Allocator,
                                        base: set<object>, value: Item)
    requires Inv(parent, trees, values, st, heap, base)
    requires (value.Array? && parent.kind == KArray) || (value.Object? && parent.kind == KObject)
    requires value.kids == Picked(values, st.order)
    requires parent.valuestring == null && Holds(parent.key, value.key) && Block(parent.key) !! BlocksOf(trees)
    ensures Models(Shape(parent, null, parent.key, Picked(trees, st.order)), value)
    ensures Separate(Shape(parent, null, parent.key, Picked(trees, st.order)))
  {
    hide Models, Inner, Blocks, BlocksOf, Separate, SeparateAll, Siblings, ModelsAll, List, NodesOf;
    var kids := Picked(trees, st.order);
    forall i | 0 <= i < |st.order|
      ensures st.order[i] < |trees| && (BlocksOfMember(trees, st.order[i]); Models(trees[st.order[i]], value.kids[i]))
    {
      assert st.order[i] in Alive(st);
    }
    PickedModels(trees, st.order, kids, value.kids);
    PickedSeparate(trees, st.order, kids);
    ListedSiblings(parent, kids, ChildNodes(trees, st.order));
    ChildBlocks(trees, st.order, kids);
    ListModels(Shape(parent, null, parent.key, kids), value);
  }

  lemma {:induction false} PickedModels(trees: seq<Shape>, order: seq<nat>, kids: seq<Shape>, items: seq<Item>)
    requires |kids| == |order| == |items|
    requires forall i :: 0 <= i < |order| ==> order[i] < |trees| && kids[i] == trees[order[i]]
    requires forall i :: 0 <= i < |order| ==> (BlocksOfMember(trees, order[i]); Models(trees[order[i]], items[i]))
    ensures ModelsAll(kids, items)
  {
    hide Models, Blocks, BlocksOf;
  }

  lemma {:induction false} PickedSeparate(trees: seq<Shape>, order: seq<nat>, kids: seq<Shape>)
    requires SeparateAll(trees) && Distinct(order) && |kids| == |order|
    requires forall i :: 0 <= i < |order| ==> order[i] < |trees| && kids[i] == trees[order[i]]
    ensures SeparateAll(kids)
  {
    hide Separate, Blocks;
    forall i, j | 0 <= i < j < |kids| ensures Blocks(kids[i]) !! Blocks(kids[j]) {
      ApartMembers(trees, order[i], order[j]);
    }
  }

  lemma {:induction false} ListedSiblings(parent: Node, kids: seq<Shape>, nodes: seq<Node>)
    requires |nodes| == |kids| && (forall i :: 0 <= i < |kids| ==> nodes[i] == kids[i].node) && List(parent, nodes)
    ensures Siblings(kids) && parent.child == First(kids)
  {
    hide NodesOf, Distinct;
    forall i | 0 <= i < |kids| ensures kids[i].node.next == NodeAt(kids, i + 1) {
      assert nodes[i].next == NodeIn(nodes, i + 1);
    }
    forall i | 0 <= i < |kids|
      ensures kids[i].node.prev == if i == 0 then kids[|kids| - 1].node else kids[i - 1].node
    {
      assert nodes[i].prev == Before(nodes, i);
    }
  }

  lemma {:induction false} ChildBlocks(trees: seq<Shape>, order: seq<nat>, kids: seq<Shape>)
    requires |kids| == |order|
    requires forall i :: 0 <= i < |order| ==> order[i] < |trees| && kids[i] == trees[order[i]]
    ensures BlocksOf(kids) <= BlocksOf(trees)
  {
    hide Blocks, BlocksOf;
    forall o | o in BlocksOf(kids) ensures o in BlocksOf(trees) {
      BlocksOfWhere(kids, o);
      var i :| 0 <= i < |kids| && o in Blocks(kids[i]);
      BlocksOfMember(trees, order[i]);
    }
  }

  // ----- from an array or object in memory to another

  lemma IdentityIsProper(n: nat)
    ensures forall t :: t in Identity(n) <==> 0 <= t < n
    ensures Proper(State(Identity(n), {}))
  {
    forall t | 0 <= t < n ensures t in Identity(n) {
      assert Identity(n)[t] == t;
    }
  }

  lemma {:induction false} BlocksAtAll(trees: seq<Shape>, which: set<nat>)
    requires forall t :: t in which <==> 0 <= t < |trees|
    ensures BlocksAt(trees, which) == BlocksOf(trees)
  {
    hide Blocks, BlocksOf;
    forall o | o in BlocksAt(trees, which) ensures o in BlocksOf(trees) {
      var t :| t in which && o in Blocks(trees[t]);
      BlocksOfMember(trees, t);
    }
    forall o | o in BlocksOf(trees) ensures o in BlocksAt(trees, which) {
      BlocksOfWhere(trees, o);
      var t: nat :| t < |trees| && o in Blocks(trees[t]);
      BlocksMemberAt(trees, which, t);
    }
  }

  lemma {:induction false} KidsShow(sh: Shape, value: Item)
    requires Models(sh, value) && Separate(sh) && (value.Array? || value.Object?)
    ensures Siblings(sh.kids) && ModelsAll(sh.kids, value.kids) && SeparateAll(sh.kids)
    ensures sh.node.child == First(sh.kids) && sh.node !in BlocksOf(sh.kids)
    ensures sh.node.kind == if value.Array? then KArray else KObject
    ensures sh.node.valuestring == null && sh.text == null && sh.node.key == sh.key && Holds(sh.key, value.key)
    ensures Block(sh.key) !! BlocksOf(sh.kids)
  {
    hide Siblings, ModelsAll, SeparateAll;
  }

  lemma {:induction false} ChildrenListed(parent: Node, kids: seq<Shape>)
    requires Siblings(kids) && SeparateAll(kids) && parent.child == First(kids) && parent !in NodesOf(kids)
    ensures List(parent, ChildNodes(kids, Identity(|kids|)))
  {
    hide SeparateAll, Siblings, NodesOf, Identity, Distinct;
    var nodes := ChildNodes(kids, Identity(|kids|));
    NodesDiffer(kids, nodes);
    forall i | 0 <= i < |nodes|
      ensures nodes[i] != parent && nodes[i].next == NodeIn(nodes, i + 1) && nodes[i].prev == Before(nodes, i)
    {
      SiblingAt(kids, i);
    }
  }

  lemma {:induction false} NodesDiffer(kids: seq<Shape>, nodes: seq<Node>)
    requires SeparateAll(kids) && |nodes| == |kids| && forall i :: 0 <= i < |kids| ==> nodes[i] == kids[i].node
    ensures Distinct(nodes)
  {
    hide SeparateAll;
    forall i, j | 0 <= i < j < |nodes| ensures nodes[i] != nodes[j] {
      SeparateNodes(kids, i, j);
    }
  }

  lemma {:induction false} SiblingAt(kids: seq<Shape>, i: nat)
    requires Siblings(kids) && i < |kids|
    ensures kids[i].node in NodesOf(kids) && kids[i].node.next == NodeAt(kids, i + 1)
    ensures kids[i].node.prev == if i == 0 then kids[|kids| - 1].node else kids[i - 1].node
  {
    assert kids[i] in kids;
  }

  lemma {:induction false} EachModels(kids: seq<Shape>, items: seq<Item>)
    requires ModelsAll(kids, items)
    ensures |kids| == |items| &&
      forall t :: 0 <= t < |kids| ==> (BlocksOfMember(kids, t); Models(kids[t], items[t]))
  {
    hide Models;
  }

  /** An array or object in memory, with every child in its place and no tree outside the list. */
  lemma {:induction false} Entry(sh: Shape, value: Item, heap: Allocator)
    requires Models(sh, value) && Separate(sh) && (value.Array? || value.Object?)
    requires heap.Valid() && Blocks(sh) <= heap.live
    ensures Inv(sh.node, sh.kids, value.kids, State(Identity(|sh.kids|), {}), heap, heap.live - BlocksOf(sh.kids))
  {
    hide Models, ModelsAll, Siblings, Separate, Blocks, BlocksOf, SeparateAll, Inner, List, NodesOf, Identity;
    var st := State(Identity(|sh.kids|), {});
    NodeShows(sh, value);
    KidsShow(sh, value);
    ChildrenListed(sh.node, sh.kids);
    EachModels(sh.kids, value.kids);
    IdentityIsProper(|sh.kids|);
    BlocksAtAll(sh.kids, Alive(st));
    ChildNodesFacts(sh.kids, value.kids, st);
  }

  /** A tree that is in memory and in no list may be handed to the calls that follow. */
  lemma {:induction false} Admit(parent: Node, trees: seq<Shape>, values: seq<Item>, st: State, heap: Allocator,
                                 base: set<object>, sh: Shape, value: Item)
    requires Inv(parent, trees, values, st, heap, base)
    requires Models(sh, value) && Separate(sh) && Blocks(sh) <= base && parent !in Blocks(sh)
    requires sh.node.next == null && sh.node.prev == null
    ensures
      Inv(parent, trees + [sh], values + [value], State(st.order, st.loose + {|trees|}), heap, base - Blocks(sh))
  {
    hide Models, Blocks, BlocksOf, SeparateAll, Inner, List, NodesOf, Separate;
    var all, st' := trees + [sh], State(st.order, st.loose + {|trees|});
    SeparateAppend(trees, sh);
    BlocksOfAppend(trees, sh);
    NodesOfAppend(trees, sh);
    assert ChildNodes(all, st.order) == ChildNodes(trees, st.order);
    BlocksAtMore(trees, sh, Alive(st));
    assert Alive(st') == Alive(st) + {|trees|};
    ReadsOwn(sh);
  }

  lemma NodesOfAppend(kids: seq<Shape>, sh: Shape)
    ensures NodesOf(kids + [sh]) == NodesOf(kids) + {sh.node} && sh.node in Blocks(sh)
  {
    hide Blocks;
    ReadsOwn(sh);
    assert sh in kids + [sh] && forall k :: k in kids ==> k in kids + [sh];
  }

  lemma {:induction false} BlocksAtMore(trees: seq<Shape>, sh: Shape, which: set<nat>)
    requires forall t :: t in which ==> t < |trees|
    ensures BlocksAt(trees + [sh], which + {|trees|}) == BlocksAt(trees, which) + Blocks(sh)
    ensures BlocksAt(trees, which) <= BlocksOf(trees)
  {
    hide Blocks, BlocksOf;
    forall o | o in BlocksAt(trees, which) ensures o in BlocksOf(trees) {
      BlocksOfWhere(trees, o);
    }
    var all, which' := trees + [sh], which + {|trees|};
    assert forall t :: t in which ==> t in which' && all[t] == trees[t];
    forall o: object | o in BlocksAt(trees, which) + Blocks(sh) ensures o in BlocksAt(all, which') {
      if o in BlocksAt(trees, which) {
        var t :| t in which && o in Blocks(trees[t]);
        BlocksMemberAt(all, which', t);
      } else {
        BlocksMemberAt(all, which', |trees|);
      }
    }
  }

  /**
   * Any run of calls on an array or object in memory: what is in memory
   * afterwards is the array or object that the sequence operations make of its
   * children, and exactly the replaced children have been freed.
   */
  method EditTree(parent: Node, script: seq<Edit>, table: seq<Node>, heap: Allocator,
                  ghost sh: Shape, ghost value: Item)
    requires parent == sh.node && Models(sh, value) && Separate(sh) && (value.Array? || value.Object?)
    requires heap.Valid() && Blocks(sh) <= heap.live
    requires TableOf(table, sh.kids) && LegalRun(State(Identity(|sh.kids|), {}), script)
    modifies heap`live, parent`child, BlocksOf(sh.kids)
    ensures
      var end := Run(State(Identity(|sh.kids|), {}), script);
      && Inv(parent, sh.kids, value.kids, end, heap, old(heap.live) - BlocksOf(sh.kids))
      && Models(Shape(parent, null, sh.key, Picked(sh.kids, end.order)), value.(kids := Picked(value.kids, end.order)))
      && Separate(Shape(parent, null, sh.key, Picked(sh.kids, end.order)))
  {
    hide Inv, Models, Separate, Blocks, BlocksOf, Inner;
    ghost var base := heap.live - BlocksOf(sh.kids);
    ghost var st := State(Identity(|sh.kids|), {});
    Entry(sh, value, heap);
    KidsShow(sh, value);
    PerformAll(parent, script, table, heap, sh.kids, value.kids, st, base);
    ghost var end := Run(st, script);
    InvNumbers(parent, sh.kids, value.kids, end, heap, base);
    ParentModels(parent, sh.kids, value.kids, end, heap, base, value.(kids := Picked(value.kids, end.order)));
  }

  lemma InvNumbers(parent: Node, trees: seq<Shape>, values: seq<Item>, st: State, heap: Allocator, base: set<object>)
    requires Inv(parent, trees, values, st, heap, base)
    ensures Numbers(trees, values, st)
  {
  }
}
