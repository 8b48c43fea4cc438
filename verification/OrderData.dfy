/** order_data: the canonical key order of mod_api.json. */
module OrderData {
  /**
   * JSON data. `name` is the key under which a value is stored in its
   * dictionary; it means nothing elsewhere. A dictionary is the sequence of
   * its entries in insertion order.
   */
  datatype Data =
    | Scalar(name: string, text: string)
    | List(name: string, items: seq<Data>)
    | Dict(name: string, entries: seq<Data>)

  const KEY_ORDER: seq<string> := [
    "entities", "classes", "host_functions", "name", "description", "used_generics", "static_methods", "methods",
    "export_functions", "return_type", "parameters", "type", "generics", "resource_extension", "optional",
    "entity_type"]

  const UNLISTED: int := 9999

  // ----- the order of keys

  function IndexOf(keys: seq<string>, k: string): (i: nat)
    ensures i <= |keys| && (i < |keys| ==> keys[i] == k) && forall j :: 0 <= j < i ==> keys[j] != k
  {
    if keys == [] || keys[0] == k then 0 else 1 + IndexOf(keys[1..], k)
  }

  /** The first part of sort_key. */
  function Rank(topLevel: bool, k: string): int {
    if topLevel && k == "constraints" then -1
    else
      var i := IndexOf(KEY_ORDER, k);
      if i < |KEY_ORDER| then i else UNLISTED
  }

  /** Strings compare by their first difference. */
  predicate TextBefore(a: string, b: string) {
    b != "" && (a == "" || a[0] < b[0] || (a[0] == b[0] && TextBefore(a[1..], b[1..])))
  }

  predicate KeyBefore(topLevel: bool, a: string, b: string) {
    var i, j := Rank(topLevel, a), Rank(topLevel, b);
    i < j || (i == j && TextBefore(a, b))
  }

  lemma {:induction false} TextOrder(a: string, b: string)
    ensures a == b || TextBefore(a, b) || TextBefore(b, a)
    ensures !(TextBefore(a, b) && TextBefore(b, a)) && !TextBefore(a, a)
  {
    if a != "" && b != "" && a[0] == b[0] {
      TextOrder(a[1..], b[1..]);
      assert a == [a[0]] + a[1..] && b == [b[0]] + b[1..];
    }
    if a != "" {
      TextIrreflexive(a);
    }
  }

  lemma {:induction false} TextIrreflexive(a: string)
    ensures !TextBefore(a, a)
  {
    if a != "" {
      TextIrreflexive(a[1..]);
    }
  }

  lemma {:induction false} TextTransitive(a: string, b: string, c: string)
    requires TextBefore(a, b) && TextBefore(b, c)
    ensures TextBefore(a, c)
  {
    if a != "" && a[0] == b[0] == c[0] {
      TextTransitive(a[1..], b[1..], c[1..]);
    }
  }

  lemma KeyOrder(topLevel: bool, a: string, b: string)
    ensures a == b || KeyBefore(topLevel, a, b) || KeyBefore(topLevel, b, a)
    ensures !(KeyBefore(topLevel, a, b) && KeyBefore(topLevel, b, a))
  {
    hide Rank;
    TextOrder(a, b);
  }

  lemma KeyTransitive(topLevel: bool, a: string, b: string, c: string)
    requires KeyBefore(topLevel, a, b) && KeyBefore(topLevel, b, c)
    ensures KeyBefore(topLevel, a, c)
  {
    hide Rank;
    if TextBefore(a, b) && TextBefore(b, c) {
      TextTransitive(a, b, c);
    }
  }

  // ----- sorting entries

  function Insert(topLevel: bool, e: Data, s: seq<Data>): seq<Data> {
    if s == [] || KeyBefore(topLevel, e.name, s[0].name) then [e] + s
    else [s[0]] + Insert(topLevel, e, s[1..])
  }

  function Sort(topLevel: bool, s: seq<Data>): seq<Data> {
    if s == [] then [] else Insert(topLevel, s[0], Sort(topLevel, s[1..]))
  }

  predicate DistinctNames(s: seq<Data>) {
    forall i, j :: 0 <= i < j < |s| ==> s[i].name != s[j].name
  }

  predicate InOrder(topLevel: bool, s: seq<Data>) {
    forall i, j :: 0 <= i < j < |s| ==> KeyBefore(topLevel, s[i].name, s[j].name)
  }

  lemma {:induction false} InsertKeepsOrder(topLevel: bool, e: Data, s: seq<Data>)
    requires InOrder(topLevel, s) && forall x :: x in s ==> x.name != e.name
    ensures InOrder(topLevel, Insert(topLevel, e, s))
    ensures forall x :: x in Insert(topLevel, e, s) <==> x == e || x in s
  {
    hide KeyBefore;
    if s != [] {
      var r := Insert(topLevel, e, s);
      assert forall x :: x in s <==> x == s[0] || x in s[1..];
      KeyOrder(topLevel, e.name, s[0].name);
      if KeyBefore(topLevel, e.name, s[0].name) {
        forall i, j | 0 <= i < j < |r| ensures KeyBefore(topLevel, r[i].name, r[j].name) {
          if i == 0 && j > 1 {
            KeyTransitive(topLevel, e.name, s[0].name, s[j - 1].name);
          }
        }
      } else {
        InsertKeepsOrder(topLevel, e, s[1..]);
        assert r[1..] == Insert(topLevel, e, s[1..]);
        forall i, j | 0 <= i < j < |r| ensures KeyBefore(topLevel, r[i].name, r[j].name) {
          if i == 0 {
            assert r[j] in r[1..];
            assert r[j] == e || exists k :: 0 < k < |s| && s[k] == r[j];
          } else {
            assert r[i] == r[1..][i - 1] && r[j] == r[1..][j - 1];
          }
        }
      }
    }
  }

  lemma {:induction false} SortSorts(topLevel: bool, s: seq<Data>)
    requires DistinctNames(s)
    ensures InOrder(topLevel, Sort(topLevel, s)) && forall x :: x in Sort(topLevel, s) <==> x in s
  {
    hide KeyBefore, Insert;
    if s != [] {
      assert forall x :: x in s <==> x == s[0] || x in s[1..];
      SortSorts(topLevel, s[1..]);
      InsertKeepsOrder(topLevel, s[0], Sort(topLevel, s[1..]));
    }
  }

  lemma SomeMember(t: seq<Data>)
    ensures t != [] ==> exists x :: x in t
  {
    if t != [] {
      assert t[0] in t;
    }
  }

  /** There is only one way to put entries in order. */
  lemma {:induction false} OrderIsUnique(topLevel: bool, s: seq<Data>, t: seq<Data>)
    requires InOrder(topLevel, s) && InOrder(topLevel, t) && forall x :: x in s <==> x in t
    ensures s == t
  {
    hide KeyBefore;
    if s == [] {
      SomeMember(t);
    } else {
      assert s[0] in t && t != [] && t[0] in s;
      var i :| 0 <= i < |t| && t[i] == s[0];
      var j :| 0 <= j < |s| && s[j] == t[0];
      KeyOrder(topLevel, s[0].name, t[0].name);
      assert s[0] == t[0];
      forall x ensures x in s[1..] <==> x in t[1..] {
        HeadIsElsewhereToo(topLevel, s, x);
        HeadIsElsewhereToo(topLevel, t, x);
      }
      OrderIsUnique(topLevel, s[1..], t[1..]);
      assert s == [s[0]] + s[1..] && t == [t[0]] + t[1..];
    }
  }

  lemma HeadIsElsewhereToo(topLevel: bool, s: seq<Data>, x: Data)
    requires s != [] && InOrder(topLevel, s)
    ensures x in s[1..] <==> x in s && x != s[0]
  {
    hide KeyBefore;
    if x in s[1..] {
      var i :| 0 < i < |s| && s[i] == x;
      KeyOrder(topLevel, s[0].name, x.name);
      assert KeyBefore(topLevel, s[0].name, s[i].name);
    }
  }

  // ----- order_data

  function OrderData(data: Data, topLevel: bool): (r: Data)
    ensures r.name == data.name
    decreases data, 1
  {
    match data
    case Dict(name, entries) => Dict(name, Sort(topLevel, OrderAll(entries)))
    case List(name, items) => List(name, OrderAll(items))
    case Scalar(_, _) => data
  }

  function OrderAll(s: seq<Data>): (r: seq<Data>)
    ensures |r| == |s| && forall i :: 0 <= i < |s| ==> r[i] == OrderData(s[i], false)
    decreases s, 0
  {
    if s == [] then [] else [OrderData(s[0], false)] + OrderAll(s[1..])
  }

  /** As in every dictionary, no two entries have the same key. */
  predicate Proper(data: Data)
    decreases data
  {
    match data
    case Dict(_, entries) => DistinctNames(entries) && forall e :: e in entries ==> Proper(e)
    case List(_, items) => forall e :: e in items ==> Proper(e) && e.name == ""
    case Scalar(_, _) => true
  }

  predicate HasName(s: seq<Data>, name: string) {
    exists i :: 0 <= i < |s| && s[i].name == name
  }

  /** Equal up to the order of keys, at every depth. */
  ghost predicate Alike(a: Data, b: Data)
    decreases a
  {
    a.name == b.name &&
    match (a, b)
    case (Dict(_, ea), Dict(_, eb)) =>
      && (forall k :: HasName(ea, k) <==> HasName(eb, k))
      && forall i, j :: 0 <= i < |ea| && 0 <= j < |eb| && ea[i].name == eb[j].name ==> Alike(ea[i], eb[j])
    case (List(_, ia), List(_, ib)) => |ia| == |ib| && forall i :: 0 <= i < |ia| ==> Alike(ia[i], ib[i])
    case (Scalar(_, s), Scalar(_, t)) => s == t
    case _ => false
  }

  /** Keys in order at every depth, with "constraints" in front at the top level only. */
  predicate Ordered(data: Data, topLevel: bool)
    decreases data
  {
    match data
    case Dict(_, entries) => InOrder(topLevel, entries) && forall e :: e in entries ==> Ordered(e, false)
    case List(_, items) => forall e :: e in items ==> Ordered(e, false)
    case Scalar(_, _) => true
  }

  /** The result is in order, and it is the input up to key order. */
  lemma {:induction false} OrderedAndAlike(data: Data, topLevel: bool)
    requires Proper(data)
    ensures var r := OrderData(data, topLevel); Proper(r) && Ordered(r, topLevel) && Alike(data, r)
    decreases data
  {
    hide KeyBefore, Insert, Sort;
    match data
    case Dict(_, entries) =>
      var s := OrderAll(entries);
      forall i | 0 <= i < |entries|
        ensures Proper(s[i]) && Ordered(s[i], false) && Alike(entries[i], s[i])
      {
        OrderedAndAlike(entries[i], false);
      }
      SortSorts(topLevel, s);
      DictAlike(data, topLevel);
    case List(_, items) =>
      forall i | 0 <= i < |items|
        ensures Proper(OrderAll(items)[i]) && Ordered(OrderAll(items)[i], false) && Alike(items[i], OrderAll(items)[i])
      {
        OrderedAndAlike(items[i], false);
      }
    case Scalar(_, _) =>
  }

  lemma DictAlike(data: Data, topLevel: bool)
    requires data.Dict? && Proper(data)
    requires forall i :: 0 <= i < |data.entries| ==>
      var x := OrderData(data.entries[i], false); Proper(x) && Ordered(x, false) && Alike(data.entries[i], x)
    ensures var r := OrderData(data, topLevel); Proper(r) && Ordered(r, topLevel) && Alike(data, r)
  {
    hide KeyBefore, Insert, Sort, Proper, Ordered;
    var entries, s := data.entries, OrderAll(data.entries);
    ProperDict(data);
    var r := Sort(topLevel, s);
    SortSorts(topLevel, s);
    forall x | x in r ensures exists i :: 0 <= i < |s| && s[i] == x {
      assert x in s;
    }
    forall i | 0 <= i < |s| ensures exists j :: 0 <= j < |r| && r[j] == s[i] {
      assert s[i] in r;
    }
    forall k ensures HasName(entries, k) <==> HasName(r, k) {
      if i :| 0 <= i < |entries| && entries[i].name == k {
        var j :| 0 <= j < |r| && r[j] == s[i];
      }
      if j :| 0 <= j < |r| && r[j].name == k {
        assert r[j] in r;
        var i :| 0 <= i < |s| && s[i] == r[j];
        assert entries[i].name == k;
      }
    }
    forall i, j | 0 <= i < |entries| && 0 <= j < |r| && entries[i].name == r[j].name ensures Alike(entries[i], r[j]) {
      assert r[j] in r;
      var k :| 0 <= k < |s| && s[k] == r[j];
      assert entries[k].name == entries[i].name;
      assert i == k;
    }
    InOrderIsDistinct(topLevel, r);
    DictIs(Dict(data.name, r), topLevel);
  }

  lemma ProperDict(data: Data)
    requires data.Dict? && Proper(data)
    ensures DistinctNames(data.entries) && DistinctNames(OrderAll(data.entries))
  {
  }

  lemma InOrderIsDistinct(topLevel: bool, s: seq<Data>)
    requires InOrder(topLevel, s)
    ensures DistinctNames(s)
  {
    hide KeyBefore;
    forall i, j | 0 <= i < j < |s| ensures s[i].name != s[j].name {
      KeyOrder(topLevel, s[i].name, s[j].name);
      assert KeyBefore(topLevel, s[i].name, s[j].name);
    }
  }

  lemma DictIs(data: Data, topLevel: bool)
    requires data.Dict? && InOrder(topLevel, data.entries) && DistinctNames(data.entries)
    requires forall x :: x in data.entries ==> Proper(x) && Ordered(x, false)
    ensures Proper(data) && Ordered(data, topLevel)
  {
    hide KeyBefore;
  }

  /** Inputs that are equal up to key order give the same result. */
  lemma {:induction false} AlikeOrdersTheSame(a: Data, b: Data, topLevel: bool)
    requires Proper(a) && Proper(b) && Alike(a, b)
    ensures OrderData(a, topLevel) == OrderData(b, topLevel)
    decreases a
  {
    hide KeyBefore, Insert, Sort, HasName, DistinctNames;
    match a
    case Dict(_, ea) =>
      forall i, j | 0 <= i < |ea| && 0 <= j < |b.entries| && ea[i].name == b.entries[j].name
        ensures OrderData(ea[i], false) == OrderData(b.entries[j], false)
      {
        AlikeOrdersTheSame(ea[i], b.entries[j], false);
      }
      ProperDict(a);
      ProperDict(b);
      EntriesOrderTheSame(ea, b.entries, topLevel);
    case List(_, ia) =>
      forall i | 0 <= i < |ia| ensures OrderAll(ia)[i] == OrderAll(b.items)[i] {
        AlikeOrdersTheSame(ia[i], b.items[i], false);
      }
    case Scalar(_, _) =>
  }

  lemma SameEntries(ea: seq<Data>, eb: seq<Data>)
    requires forall k :: HasName(ea, k) ==> HasName(eb, k)
    requires forall i, j :: 0 <= i < |ea| && 0 <= j < |eb| && ea[i].name == eb[j].name ==>
      OrderData(ea[i], false) == OrderData(eb[j], false)
    ensures forall x :: x in OrderAll(ea) ==> x in OrderAll(eb)
  {
    hide OrderData;
    var s, t := OrderAll(ea), OrderAll(eb);
    forall x | x in s ensures x in t {
      var i :| 0 <= i < |s| && s[i] == x;
      assert HasName(ea, ea[i].name);
      var j :| 0 <= j < |eb| && eb[j].name == ea[i].name;
      assert t[j] == x;
    }
  }

  lemma EntriesOrderTheSame(ea: seq<Data>, eb: seq<Data>, topLevel: bool)
    requires DistinctNames(OrderAll(ea)) && DistinctNames(OrderAll(eb))
    requires forall k :: HasName(ea, k) <==> HasName(eb, k)
    requires forall i, j :: 0 <= i < |ea| && 0 <= j < |eb| && ea[i].name == eb[j].name ==>
      OrderData(ea[i], false) == OrderData(eb[j], false)
    ensures Sort(topLevel, OrderAll(ea)) == Sort(topLevel, OrderAll(eb))
  {
    hide Insert, Sort, HasName, DistinctNames, OrderData, OrderAll, InOrder;
    SameEntries(ea, eb);
    SameEntries(eb, ea);
    SortSorts(topLevel, OrderAll(ea));
    SortSorts(topLevel, OrderAll(eb));
    OrderIsUnique(topLevel, Sort(topLevel, OrderAll(ea)), Sort(topLevel, OrderAll(eb)));
  }

  lemma {:induction false} AlikeSymmetric(a: Data, b: Data)
    requires Alike(a, b)
    ensures Alike(b, a)
    decreases a
  {
    if a.Dict? {
      forall i, j | 0 <= i < |b.entries| && 0 <= j < |a.entries| && b.entries[i].name == a.entries[j].name
        ensures Alike(b.entries[i], a.entries[j])
      {
        AlikeSymmetric(a.entries[j], b.entries[i]);
      }
    } else if a.List? {
      forall i | 0 <= i < |a.items| ensures Alike(b.items[i], a.items[i]) {
        AlikeSymmetric(a.items[i], b.items[i]);
      }
    }
  }

  lemma {:induction false} AlikeTransitive(a: Data, b: Data, c: Data)
    requires Alike(a, b) && Alike(b, c)
    ensures Alike(a, c)
    decreases a
  {
    if a.Dict? {
      forall i, j | 0 <= i < |a.entries| && 0 <= j < |c.entries| && a.entries[i].name == c.entries[j].name
        ensures Alike(a.entries[i], c.entries[j])
      {
        assert HasName(a.entries, a.entries[i].name);
        var k :| 0 <= k < |b.entries| && b.entries[k].name == a.entries[i].name;
        AlikeTransitive(a.entries[i], b.entries[k], c.entries[j]);
      }
    } else if a.List? {
      forall i | 0 <= i < |a.items| ensures Alike(a.items[i], c.items[i]) {
        AlikeTransitive(a.items[i], b.items[i], c.items[i]);
      }
    }
  }

  // ----- main results

  /** order_data is a canonical form: it tells apart exactly the data that differ in more than key order. */
  lemma CanonicalForm(a: Data, b: Data, topLevel: bool)
    requires Proper(a) && Proper(b)
    ensures OrderData(a, topLevel) == OrderData(b, topLevel) <==> Alike(a, b)
  {
    hide OrderData, Alike, Proper;
    OrderedAndAlike(a, topLevel);
    OrderedAndAlike(b, topLevel);
    if OrderData(a, topLevel) == OrderData(b, topLevel) {
      AlikeSymmetric(b, OrderData(b, topLevel));
      AlikeTransitive(a, OrderData(a, topLevel), b);
    }
    if Alike(a, b) {
      AlikeOrdersTheSame(a, b, topLevel);
    }
  }

  /** It changes nothing exactly when the keys are in order already, so once is enough. */
  lemma FixedWhenOrdered(data: Data, topLevel: bool)
    requires Proper(data)
    ensures OrderData(data, topLevel) == data <==> Ordered(data, topLevel)
    ensures OrderData(OrderData(data, topLevel), topLevel) == OrderData(data, topLevel)
  {
    hide OrderData, Alike, Proper, Ordered;
    var r := OrderData(data, topLevel);
    OrderedAndAlike(data, topLevel);
    OrderedIsFixed(r, topLevel);
    if Ordered(data, topLevel) {
      OrderedIsFixed(data, topLevel);
    }
  }

  lemma {:induction false} OrderedIsFixed(data: Data, topLevel: bool)
    requires Proper(data) && Ordered(data, topLevel)
    ensures OrderData(data, topLevel) == data
    decreases data
  {
    hide KeyBefore, Insert, Sort;
    match data
    case Dict(_, entries) =>
      forall i | 0 <= i < |entries| ensures OrderAll(entries)[i] == entries[i] {
        OrderedIsFixed(entries[i], false);
      }
      assert OrderAll(entries) == entries;
      SortSorts(topLevel, entries);
      OrderIsUnique(topLevel, Sort(topLevel, entries), entries);
    case List(_, items) =>
      forall i | 0 <= i < |items| ensures OrderAll(items)[i] == items[i] {
        OrderedIsFixed(items[i], false);
      }
      assert OrderAll(items) == items;
    case Scalar(_, _) =>
  }

  lemma Ranks(topLevel: bool, k: string)
    ensures Rank(topLevel, k) >= -1
    ensures Rank(topLevel, k) == -1 <==> topLevel && k == "constraints"
    ensures k in KEY_ORDER ==> Rank(false, k) < UNLISTED
  {
  }

  lemma ConstraintsUnlisted()
    ensures Rank(false, "constraints") == UNLISTED
  {
    hide IndexOf;
    var k := "constraints";
    assert k != "description" && k != "return_type" by {
      assert k[0] == 'c' && "description"[0] == 'd' && "return_type"[0] == 'r';
    }
    assert k !in KEY_ORDER;
  }

  /** The dictionary that comes out has its keys in order, and the keys of the one that went in. */
  lemma DictOrdered(data: Data, topLevel: bool)
    requires data.Dict? && Proper(data)
    ensures OrderData(data, topLevel).Dict? && InOrder(topLevel, OrderData(data, topLevel).entries)
    ensures forall i :: 0 <= i < |data.entries| ==> HasName(OrderData(data, topLevel).entries, data.entries[i].name)
  {
    hide Insert, Sort, InOrder;
    var s := OrderAll(data.entries);
    ProperDict(data);
    SortSorts(topLevel, s);
    forall i | 0 <= i < |data.entries| ensures HasName(Sort(topLevel, s), data.entries[i].name) {
      assert s[i] in Sort(topLevel, s);
    }
  }

  /** "constraints" comes first at the top level, and behind every listed key in all other dictionaries. */
  lemma ConstraintsFirst(data: Data)
    requires data.Dict? && Proper(data) && HasName(data.entries, "constraints")
    ensures
      var top := OrderData(data, true).entries;
      top != [] && top[0].name == "constraints"
    ensures
      var inner := OrderData(data, false).entries;
      && HasName(inner, "constraints")
      && forall i, j :: 0 <= i < |inner| && 0 <= j < |inner| ==>
           inner[i].name in KEY_ORDER && inner[j].name == "constraints" ==> i < j
  {
    hide TextBefore, Rank, IndexOf, OrderData, Proper;
    DictOrdered(data, true);
    DictOrdered(data, false);
    var top, inner := OrderData(data, true).entries, OrderData(data, false).entries;
    var k :| 0 <= k < |top| && top[k].name == "constraints";
    Ranks(true, top[0].name);
    Ranks(true, "constraints");
    assert k > 0 ==> KeyBefore(true, top[0].name, top[k].name);
    forall i, j | 0 <= i < |inner| && 0 <= j < |inner| && inner[i].name in KEY_ORDER && inner[j].name == "constraints"
      ensures i < j
    {
      Ranks(false, inner[i].name);
      ConstraintsUnlisted();
      assert j < i ==> KeyBefore(false, inner[j].name, inner[i].name);
    }
  }

  // ----- which order it is

  /** The strings agree up to `k`, and there `a` ends or has the smaller character. */
  predicate SmallerAt(a: string, b: string, k: nat) {
    k <= |a| && k < |b| && a[..k] == b[..k] && (k == |a| || a[k] < b[k])
  }

  lemma {:induction false} FirstDifference(a: string, b: string) returns (k: nat)
    requires TextBefore(a, b)
    ensures SmallerAt(a, b, k)
  {
    if a == "" || a[0] != b[0] {
      k := 0;
    } else {
      var rest := FirstDifference(a[1..], b[1..]);
      k := rest + 1;
      assert a[..k] == [a[0]] + a[1..][..rest] && b[..k] == [b[0]] + b[1..][..rest];
    }
  }

  lemma ListedRank(k: string)
    ensures k in KEY_ORDER <==> IndexOf(KEY_ORDER, k) < |KEY_ORDER|
    ensures Rank(false, k) == if k in KEY_ORDER then IndexOf(KEY_ORDER, k) else UNLISTED
    ensures k != "constraints" ==> Rank(true, k) == Rank(false, k)
  {
  }

  /**
   * Any two keys of a dictionary that comes out: "constraints" first at the top
   * level, then the listed keys in the order of the list, then all others by
   * their first difference.
   */
  lemma KeysComeInOrder(data: Data, topLevel: bool, i: nat, j: nat)
    requires data.Dict? && Proper(data) && i < j < |OrderData(data, topLevel).entries|
    ensures
      var a, b := OrderData(data, topLevel).entries[i].name, OrderData(data, topLevel).entries[j].name;
      var listed := [
        "entities", "classes", "host_functions", "name", "description", "used_generics", "static_methods", "methods",
        "export_functions", "return_type", "parameters", "type", "generics", "resource_extension", "optional",
        "entity_type"];
      && !(topLevel && b == "constraints")
      && (|| (topLevel && a == "constraints")
          || (exists p, q :: 0 <= p < q < |listed| && listed[p] == a && listed[q] == b)
          || (a in listed && b !in listed)
          || (a !in listed && b !in listed && exists k :: SmallerAt(a, b, k)))
  {
    hide TextBefore, Rank, IndexOf, OrderData, Proper, Ordered;
    DictOrdered(data, topLevel);
    var a, b := OrderData(data, topLevel).entries[i].name, OrderData(data, topLevel).entries[j].name;
    assert KeyBefore(topLevel, a, b);
    Ranks(topLevel, a);
    Ranks(topLevel, b);
    ListedRank(a);
    ListedRank(b);
    if TextBefore(a, b) {
      var k := FirstDifference(a, b);
    }
  }
}
