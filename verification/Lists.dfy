/** Child lists: doubly linked, the head's prev is the tail, and the tail's next is NULL. */
module Lists {
  import opened Heap

  ghost function NodeIn(nodes: seq<Node>, i: int): Node? {
    if 0 <= i < |nodes| then nodes[i] else null
  }

  /** The next pointers lead from `first` through `nodes` to NULL. */
  ghost predicate Walk(first: Node?, nodes: seq<Node>)
    reads nodes
  {
    first == NodeIn(nodes, 0) &&
    forall i {:trigger nodes[i].next} :: 0 <= i < |nodes| ==> nodes[i].next == NodeIn(nodes, i + 1)
  }

  ghost predicate Distinct<T>(nodes: seq<T>) {
    forall i, j :: 0 <= i < j < |nodes| ==> nodes[i] != nodes[j]
  }

  /** Where the prev pointer of node `i` leads. */
  ghost function Before(nodes: seq<Node>, i: int): Node? {
    if i == 0 then NodeIn(nodes, |nodes| - 1) else NodeIn(nodes, i - 1)
  }

  /** `nodes` are the children of `parent`, and their pointers are as they should be. */
  ghost predicate List(parent: Node, nodes: seq<Node>)
    reads parent`child, nodes
  {
    && Distinct(nodes) && parent !in nodes
    && Walk(parent.child, nodes)
    && forall i {:trigger nodes[i].prev} :: 0 <= i < |nodes| ==> nodes[i].prev == Before(nodes, i)
  }

  /** The positions of a list, in order. */
  function Identity(n: nat): (p: seq<nat>)
    ensures |p| == n && forall i :: 0 <= i < n ==> p[i] == i
  {
    seq(n, i requires 0 <= i < n => i)
  }

  function Inserted<T>(nodes: seq<T>, k: nat, item: T): seq<T> {
    if k < |nodes| then nodes[..k] + [item] + nodes[k..] else nodes + [item]
  }

  function Removed<T>(nodes: seq<T>, k: nat): seq<T>
    requires k < |nodes|
  {
    nodes[..k] + nodes[k + 1..]
  }

  lemma Differ<T>(nodes: seq<T>, i: int, j: int)
    requires Distinct(nodes) && 0 <= i < |nodes| && 0 <= j < |nodes|
    ensures nodes[i] == nodes[j] <==> i == j
    ensures nodes[i] in nodes && nodes[j] in nodes
  {
  }

  /** The nodes that an operation at place `k` touches. */
  lemma NearDiffer<T>(nodes: seq<T>, k: nat)
    requires Distinct(nodes) && k < |nodes|
    ensures nodes[k] in nodes && nodes[0] in nodes && (nodes[k] == nodes[0] <==> k == 0)
    ensures k > 0 ==> nodes[k - 1] in nodes && nodes[k - 1] != nodes[k]
    ensures k + 1 < |nodes| ==> nodes[k + 1] in nodes && nodes[k + 1] != nodes[k] && nodes[k + 1] != nodes[0]
    ensures k > 0 && k + 1 < |nodes| ==> nodes[k - 1] != nodes[k + 1]
    ensures |nodes| > 1 ==> nodes[|nodes| - 1] != nodes[0]
  {
  }

  lemma InsertedDistinct<T>(nodes: seq<T>, k: nat, item: T)
    requires Distinct(nodes) && item !in nodes
    ensures Distinct(Inserted(nodes, k, item))
    ensures forall n :: n in Inserted(nodes, k, item) <==> n in nodes || n == item
  {
    var all := Inserted(nodes, k, item);
    var at := if k < |nodes| then k else |nodes|;
    assert forall i :: 0 <= i < at ==> all[i] == nodes[i];
    assert forall i :: at < i < |all| ==> all[i] == nodes[i - 1];
    assert all[at] == item;
    assert forall i :: 0 <= i < |nodes| ==> nodes[i] == all[if i < at then i else i + 1];
  }

  lemma RemovedDistinct<T>(nodes: seq<T>, k: nat)
    requires Distinct(nodes) && k < |nodes|
    ensures Distinct(Removed(nodes, k))
    ensures forall n :: n in Removed(nodes, k) <==> n in nodes && n != nodes[k]
  {
    var all := Removed(nodes, k);
    assert forall i :: 0 <= i < k ==> all[i] == nodes[i];
    assert forall i :: k <= i < |all| ==> all[i] == nodes[i + 1];
    assert forall i :: 0 <= i < |nodes| && i != k ==> nodes[i] == all[if i < k then i else i - 1];
  }

  lemma ExchangedDistinct<T>(nodes: seq<T>, k: nat, item: T)
    requires Distinct(nodes) && k < |nodes| && item !in nodes
    ensures Distinct(nodes[k := item])
    ensures forall n :: n in nodes[k := item] <==> n == item || (n in nodes && n != nodes[k])
  {
    assert forall i :: 0 <= i < |nodes| && i != k ==> nodes[i] == nodes[k := item][i];
    assert nodes[k := item][k] == item;
  }

  /** A node has been linked in before node `k`. */
  lemma {:induction false} InsertedList(parent: Node, nodes: seq<Node>, k: nat, item: Node)
    requires Distinct(nodes) && k < |nodes| && parent !in nodes && item !in nodes && parent != item
    requires parent.child == if k == 0 then item else nodes[0]
    requires item.next == nodes[k] && item.prev == Before(nodes, k) && nodes[k].prev == item
    requires k > 0 ==> nodes[k - 1].next == item
    requires forall i {:trigger nodes[i].next} ::
      0 <= i < |nodes| && i != k - 1 ==> nodes[i].next == NodeIn(nodes, i + 1)
    requires forall i {:trigger nodes[i].prev} :: 0 <= i < |nodes| && i != k ==> nodes[i].prev == Before(nodes, i)
    ensures List(parent, Inserted(nodes, k, item))
  {
    hide Distinct;
    InsertedDistinct(nodes, k, item);
    var all := Inserted(nodes, k, item);
    forall i | 0 <= i < |all| ensures all[i].next == NodeIn(all, i + 1) && all[i].prev == Before(all, i) {
      assert i != k ==> all[i] == nodes[if i < k then i else i - 1];
    }
  }

  /** Node `k` has been linked out. */
  lemma {:induction false} RemovedList(parent: Node, nodes: seq<Node>, k: nat)
    requires Distinct(nodes) && k < |nodes| && parent !in nodes
    requires parent.child == if k == 0 then NodeIn(nodes, 1) else nodes[0]
    requires k > 0 ==> nodes[k - 1].next == NodeIn(nodes, k + 1)
    requires k + 1 < |nodes| ==> nodes[k + 1].prev == Before(nodes, k)
    requires k > 0 && k + 1 == |nodes| ==> nodes[0].prev == nodes[k - 1]
    requires forall i {:trigger nodes[i].next} ::
      0 <= i < |nodes| && i != k - 1 && i != k ==> nodes[i].next == NodeIn(nodes, i + 1)
    requires forall i {:trigger nodes[i].prev} :: 0 <= i < |nodes| && i != k + 1 && i != k && (i > 0 || k + 1 < |nodes|)
               ==> nodes[i].prev == Before(nodes, i)
    ensures List(parent, Removed(nodes, k))
  {
    hide Distinct;
    RemovedDistinct(nodes, k);
    var all := Removed(nodes, k);
    forall i | 0 <= i < |all| ensures all[i].next == NodeIn(all, i + 1) && all[i].prev == Before(all, i) {
      assert all[i] == nodes[if i < k then i else i + 1];
    }
  }

  /** A node has taken the place of node `k`. */
  lemma {:induction false} ExchangedList(parent: Node, nodes: seq<Node>, k: nat, item: Node)
    requires Distinct(nodes) && k < |nodes| && parent !in nodes && item !in nodes && parent != item
    requires parent.child == if k == 0 then item else nodes[0]
    requires item.next == NodeIn(nodes, k + 1)
    requires item.prev == if |nodes| == 1 then item else Before(nodes, k)
    requires k > 0 ==> nodes[k - 1].next == item
    requires k + 1 < |nodes| ==> nodes[k + 1].prev == item
    requires k > 0 && k + 1 == |nodes| ==> nodes[0].prev == item
    requires forall i {:trigger nodes[i].next} ::
      0 <= i < |nodes| && i != k - 1 && i != k ==> nodes[i].next == NodeIn(nodes, i + 1)
    requires forall i {:trigger nodes[i].prev} :: 0 <= i < |nodes| && i != k + 1 && i != k && (i > 0 || k + 1 < |nodes|)
               ==> nodes[i].prev == Before(nodes, i)
    ensures List(parent, nodes[k := item])
  {
    hide Distinct;
    ExchangedDistinct(nodes, k, item);
    var all := nodes[k := item];
    forall i | 0 <= i < |all| ensures all[i].next == NodeIn(all, i + 1) && all[i].prev == Before(all, i) {
      assert i != k ==> all[i] == nodes[i];
    }
  }

  /** The pointers next to place `k`. */
  lemma {:induction false} ListNear(parent: Node, nodes: seq<Node>, k: nat)
    requires List(parent, nodes) && k < |nodes|
    ensures Distinct(nodes) && parent !in nodes
    ensures parent.child == nodes[0]
    ensures nodes[k].next == NodeIn(nodes, k + 1) && nodes[k].prev == Before(nodes, k)
    ensures nodes[0].prev == nodes[|nodes| - 1]
  {
  }

  /** cJSON_GetArraySize. */
  method GetArraySize(parent: Node?, ghost nodes: seq<Node>) returns (size: nat)
    requires parent != null ==> Walk(parent.child, nodes)
    ensures size == if parent == null then 0 else |nodes|
  {
    if parent == null {
      return 0;
    }
    size := 0;
    var child := parent.child;
    while child != null
      invariant size <= |nodes| && child == NodeIn(nodes, size)
      decreases |nodes| - size
    {
      size := size + 1;
      child := child.next;
    }
  }

  /** get_array_item. */
  method GetArrayItem(parent: Node?, index: nat, ghost nodes: seq<Node>) returns (item: Node?)
    requires parent != null ==> Walk(parent.child, nodes)
    ensures item == if parent == null then null else NodeIn(nodes, index)
  {
    if parent == null {
      return null;
    }
    item := parent.child;
    var left := index;
    while item != null && left > 0
      invariant 0 <= left && index - |nodes| <= left <= index && item == NodeIn(nodes, index - left)
      decreases left
    {
      left := left - 1;
      item := item.next;
    }
  }

  /** suffix_object. */
  method SuffixObject(prev: Node, item: Node)
    modifies prev`next, item`prev
    ensures prev.next == item && item.prev == prev
  {
    prev.next := item;
    item.prev := prev;
  }

  /** add_item_to_array: the item goes to the end. */
  method AddItemToArray(parent: Node?, item: Node?, ghost nodes: seq<Node>) returns (ok: bool)
    requires parent != null ==> List(parent, nodes)
    requires item != null && item != parent ==> item !in nodes && item.next == null
    modifies Only(parent)`child, Only(item)`next, Only(item)`prev, nodes`next, nodes`prev
    ensures ok == (parent != null && item != null && parent != item)
    ensures parent != null ==> List(parent, if ok then nodes + [item] else nodes)
    ensures !ok && item != null ==> item.next == old(item.next) && item.prev == old(item.prev)
  {
    if item == null || parent == null || parent == item {
      return false;
    }
    var child := parent.child;
    if child == null {
      parent.child := item;
      item.prev := item;
      item.next := null;
    } else {
      ghost var n := |nodes|;
      assert nodes[0] in nodes && nodes[n - 1] in nodes;
      assert child.prev == Before(nodes, 0);
      if child.prev != null {
        SuffixObject(child.prev, item);
        parent.child.prev := item;
      }
      ghost var all := nodes + [item];
      forall i | 0 <= i < |all| ensures all[i].next == NodeIn(all, i + 1) && all[i].prev == Before(all, i) {
        if i < n {
          assert old(nodes[i].next) == NodeIn(nodes, i + 1) && old(nodes[i].prev) == Before(nodes, i);
        }
      }
    }
    return true;
  }

  /** cJSON_InsertItemInArray: an index beyond the end appends. */
  method InsertItemInArray(parent: Node?, which: int, newitem: Node?, ghost nodes: seq<Node>) returns (ok: bool)
    requires parent != null ==> List(parent, nodes)
    requires newitem != null && newitem != parent ==> newitem !in nodes && newitem.next == null
    requires newitem != null && newitem == parent ==> which >= |nodes|
    modifies Only(parent)`child, Only(newitem)`next, Only(newitem)`prev, nodes`next, nodes`prev
    ensures ok == (which >= 0 && parent != null && newitem != null && parent != newitem)
    ensures parent != null ==> List(parent, if ok then Inserted<Node>(nodes, which, newitem) else nodes)
    ensures !ok && newitem != null ==> newitem.next == old(newitem.next) && newitem.prev == old(newitem.prev)
  {
    hide Distinct;
    if which < 0 || newitem == null {
      return false;
    }
    var after := GetArrayItem(parent, which, nodes);
    if after == null {
      ok := AddItemToArray(parent, newitem, nodes);
      return;
    }
    Differ(nodes, which, if which > 0 then which - 1 else |nodes| - 1);
    assert after == nodes[which] && after.prev == Before(nodes, which);
    Differ(nodes, 0, which);
    if after != parent.child && after.prev == null {
      return false;
    }
    newitem.next := after;
    newitem.prev := after.prev;
    after.prev := newitem;
    if after == parent.child {
      parent.child := newitem;
    } else {
      newitem.prev.next := newitem;
    }
    forall i | 0 <= i < |nodes| && i != which ensures nodes[i].prev == Before(nodes, i) {
      Differ(nodes, i, which);
      assert old(nodes[i].prev) == Before(nodes, i);
    }
    forall i | 0 <= i < |nodes| && i != which - 1 ensures nodes[i].next == NodeIn(nodes, i + 1) {
      Differ(nodes, i, if which > 0 then which - 1 else which);
      assert old(nodes[i].next) == NodeIn(nodes, i + 1);
    }
    InsertedList(parent, nodes, which, newitem);
    return true;
  }

  /** cJSON_DetachItemViaPointer: the item leaves the list and points nowhere. */
  method DetachItemViaPointer(parent: Node?, item: Node?, ghost nodes: seq<Node>, ghost k: nat) returns (r: Node?)
    requires parent != null ==> List(parent, nodes) && item == NodeIn(nodes, k)
    modifies Only(parent)`child, nodes`next, nodes`prev
    ensures r == if parent == null then null else item
    ensures r != null ==> k < |nodes| && List(parent, Removed(nodes, k)) && r.next == null && r.prev == null
    ensures r == null && parent != null ==> List(parent, nodes)
  {
    hide Distinct;
    if parent == null || item == null || (item != parent.child && item.prev == null) {
      return null;
    }
    ListNear(parent, nodes, k);
    NearDiffer(nodes, k);
    if item != parent.child {
      item.prev.next := item.next;
    }
    if item.next != null {
      item.next.prev := item.prev;
    }
    if item == parent.child {
      parent.child := item.next;
    } else if item.next == null {
      parent.child.prev := item.prev;
    }
    item.prev := null;
    item.next := null;
    forall i | 0 <= i < |nodes| && i != k - 1 && i != k ensures nodes[i].next == NodeIn(nodes, i + 1) {
      Differ(nodes, i, k);
      Differ(nodes, i, if k > 0 then k - 1 else k);
      assert old(nodes[i].next) == NodeIn(nodes, i + 1);
    }
    forall i | 0 <= i < |nodes| && i != k + 1 && i != k && (i > 0 || k + 1 < |nodes|)
      ensures nodes[i].prev == Before(nodes, i)
    {
      Differ(nodes, i, k);
      Differ(nodes, i, 0);
      Differ(nodes, i, if k + 1 < |nodes| then k + 1 else k);
      assert old(nodes[i].prev) == Before(nodes, i);
    }
    RemovedList(parent, nodes, k);
    return item;
  }

  /** cJSON_DetachItemFromArray. */
  method DetachItemFromArray(parent: Node?, which: int, ghost nodes: seq<Node>) returns (r: Node?)
    requires parent != null ==> List(parent, nodes)
    modifies Only(parent)`child, nodes`next, nodes`prev
    ensures r == if parent == null then null else NodeIn(nodes, which)
    ensures r != null ==> List(parent, Removed(nodes, which)) && r.next == null && r.prev == null
    ensures r == null && parent != null ==> List(parent, nodes)
  {
    if which < 0 {
      return null;
    }
    var item := GetArrayItem(parent, which, nodes);
    r := DetachItemViaPointer(parent, item, nodes, which);
  }

  /** cJSON_ReplaceItemViaPointer up to the deletion of the replaced item. */
  method Exchange(parent: Node, item: Node, replacement: Node, ghost nodes: seq<Node>, ghost k: nat)
    requires List(parent, nodes) && item == NodeIn(nodes, k)
    requires replacement != item ==> replacement !in nodes && replacement != parent
    modifies parent`child, replacement`next, replacement`prev, nodes`next, nodes`prev
    ensures List(parent, nodes[k := replacement])
    ensures replacement != item ==> item.next == null && item.prev == null
  {
    if replacement == item {
      assert nodes[k := replacement] == nodes;
      return;
    }
    TakePlace(parent, item, replacement, nodes, k);
  }

  /** The pointer work of a replacement. */
  method TakePlace(parent: Node, item: Node, replacement: Node, ghost nodes: seq<Node>, ghost k: nat)
    requires List(parent, nodes) && item == NodeIn(nodes, k) && replacement !in nodes && replacement != parent
    modifies parent`child, replacement`next, replacement`prev, nodes`next, nodes`prev
    ensures List(parent, nodes[k := replacement]) && item.next == null && item.prev == null
  {
    hide Distinct;
    ListNear(parent, nodes, k);
    NearDiffer(nodes, k);
    replacement.next := item.next;
    replacement.prev := item.prev;
    if replacement.next != null {
      assert replacement.next == nodes[k + 1];
      replacement.next.prev := replacement;
    }
    if parent.child == item {
      if parent.child.prev == parent.child {
        replacement.prev := replacement;
      }
      parent.child := replacement;
    } else {
      assert k > 0 && replacement.prev == nodes[k - 1];
      if replacement.prev != null {
        replacement.prev.next := replacement;
      }
      if replacement.next == null {
        assert parent.child == nodes[0];
        parent.child.prev := replacement;
      }
    }
    item.next := null;
    item.prev := null;
    forall i | 0 <= i < |nodes| && i != k - 1 && i != k ensures nodes[i].next == NodeIn(nodes, i + 1) {
      Differ(nodes, i, k);
      Differ(nodes, i, if k > 0 then k - 1 else k);
      assert old(nodes[i].next) == NodeIn(nodes, i + 1);
    }
    forall i | 0 <= i < |nodes| && i != k + 1 && i != k && (i > 0 || k + 1 < |nodes|)
      ensures nodes[i].prev == Before(nodes, i)
    {
      Differ(nodes, i, k);
      Differ(nodes, i, 0);
      Differ(nodes, i, if k + 1 < |nodes| then k + 1 else k);
      assert old(nodes[i].prev) == Before(nodes, i);
    }
    ExchangedList(parent, nodes, k, replacement);
  }
}
