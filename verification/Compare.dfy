/** cJSON_Compare, the tree comparison of the test harness, and what both decide. */
module Compare {
  import opened Bytes
  import opened CLibrary
  import opened Items
  import opened Heap
  import opened Lists

  // ----- the nodes of a tree, counted

  function Weight(item: Item): (w: nat)
    ensures w > 0 && forall k :: k in KidsOf(item) ==> Weight(k) < w
    decreases item, 1
  {
    if item.Array? || item.Object? then 1 + WeightAll(item.kids) else 1
  }

  function WeightAll(kids: seq<Item>): (w: nat)
    ensures forall k :: k in kids ==> Weight(k) <= w
    decreases kids, 0
  {
    if kids == [] then 0 else Weight(kids[0]) + WeightAll(kids[1..])
  }

  // ----- numbers and names

  /** The tolerance of the test harness. */
  predicate Within(a: real, b: real) {
    Abs(a - b) <= 1.0 / 1000000.0
  }

  predicate IsInteger(d: real) {
    INT_MIN as real <= d <= INT_MAX as real && d.Floor as real == d
  }

  lemma IntegersApart(a: real, b: real)
    requires IsInteger(a) && IsInteger(b)
    ensures Near(a, b) <==> a == b
    ensures Within(a, b) <==> a == b
  {
    if a != b {
      assert a - b == (a.Floor - b.Floor) as real;
      assert Abs(a - b) >= 1.0;
    }
  }

  /** tolower in the C locale. */
  function Lower(b: byte): byte {
    if 65 <= b <= 90 then b + 32 else b
  }

  function LowerAll(s: bytes): (r: bytes)
    ensures |r| == |s| && forall i :: 0 <= i < |s| ==> r[i] == Lower(s[i])
  {
    seq(|s|, i requires 0 <= i < |s| => Lower(s[i]))
  }

  /** Whether two names are the same, where letters may differ in case unless `exact`. */
  predicate SameName(a: bytes, b: bytes, exact: bool) {
    if exact then a == b else LowerAll(a) == LowerAll(b)
  }

  // ----- get_object_item

  /** The walk stops at the first child with the name; in exact mode also at a child without any name. */
  predicate Stops(kid: Item, name: cstring, exact: bool) {
    if kid.key.None? then exact else SameName(name, kid.key.value, exact)
  }

  function FirstStop(kids: seq<Item>, name: cstring, exact: bool): (i: nat)
    ensures i <= |kids|
    ensures forall j :: 0 <= j < i ==> !Stops(kids[j], name, exact)
    ensures i < |kids| ==> Stops(kids[i], name, exact)
  {
    if kids == [] || Stops(kids[0], name, exact) then 0 else 1 + FirstStop(kids[1..], name, exact)
  }

  /** The position of the child with the name. */
  function Find(kids: seq<Item>, name: Option<cstring>, exact: bool): (r: Option<nat>)
    ensures r.Some? ==>
      && r.value < |kids| && name.Some? && kids[r.value].key.Some?
      && SameName(name.value, kids[r.value].key.value, exact)
  {
    if name.None? then None
    else
      var i := FirstStop(kids, name.value, exact);
      if i < |kids| && kids[i].key.Some? then Some(i) else None
  }

  /** A child without a name ends the case-sensitive walk, and the other one goes past it. */
  lemma NamelessChild(kid: Item, kids: seq<Item>, name: cstring)
    requires kid.key.None?
    ensures Find([kid] + kids, Some(name), true) == None
    ensures Find([kid] + kids, Some(name), false) ==
      match Find(kids, Some(name), false) case None => None case Some(i) => Some(i + 1)
  {
    assert ([kid] + kids)[1..] == kids;
  }

  // ----- cJSON_Compare

  /** cJSON_Compare of two different nodes. */
  predicate Same(a: Item, b: Item, exact: bool)
    decreases Weight(a) + Weight(b)
  {
    match (a, b)
    case (False(_), False(_)) => true
    case (True(_), True(_)) => true
    case (Null(_), Null(_)) => true
    case (Number(_, x), Number(_, y)) => Near(x, y)
    case (String(_, s), String(_, t)) => s.Some? && s == t
    case (Raw(_, s), Raw(_, t)) => s.Some? && s == t
    case (Array(_, ka), Array(_, kb)) =>
      |ka| == |kb| && forall i :: 0 <= i < |ka| ==> Same(ka[i], kb[i], exact)
    case (Object(_, ka), Object(_, kb)) =>
      && (forall i :: 0 <= i < |ka| ==>
            var j := Find(kb, ka[i].key, exact);
            j.Some? && Same(ka[i], kb[j.value], exact))
      && (forall j :: 0 <= j < |kb| ==>
            var i := Find(ka, kb[j].key, exact);
            i.Some? && Same(kb[j], ka[i.value], exact))
    case _ => false
  }

  /** The member has a counterpart of the same name that compares equal. */
  predicate Found(a: Item, kb: seq<Item>, exact: bool) {
    var j := Find(kb, a.key, exact);
    j.Some? && Same(a, kb[j.value], exact)
  }

  /** Every member of `ka` has a counterpart in `kb`. */
  predicate AllFound(ka: seq<Item>, kb: seq<Item>, exact: bool) {
    forall i :: 0 <= i < |ka| ==> Found(ka[i], kb, exact)
  }

  lemma SameObjects(a: Item, b: Item, exact: bool)
    requires a.Object? && b.Object?
    ensures Same(a, b, exact) <==> AllFound(a.kids, b.kids, exact) && AllFound(b.kids, a.kids, exact)
  {
    hide Find;
  }

  lemma SameArrays(a: Item, b: Item, exact: bool)
    requires a.Array? && b.Array?
    ensures Same(a, b, exact) <==>
      |a.kids| == |b.kids| && forall i :: 0 <= i < |a.kids| ==> Same(a.kids[i], b.kids[i], exact)
  {
  }

  /** cJSON_Compare does not depend on the order of its arguments, whatever the trees. */
  lemma {:induction false} SameSymmetric(a: Item, b: Item, exact: bool)
    ensures Same(a, b, exact) == Same(b, a, exact)
    decreases Weight(a) + Weight(b)
  {
    if a.Array? && b.Array? && |a.kids| == |b.kids| {
      forall i | 0 <= i < |a.kids| ensures Same(a.kids[i], b.kids[i], exact) == Same(b.kids[i], a.kids[i], exact) {
        SameSymmetric(a.kids[i], b.kids[i], exact);
      }
    }
  }

  // ----- compare_nodes of the test harness

  /** compare_nodes runs to the end without a mismatch. */
  predicate Accepts(exp: Item, act: Item)
    decreases exp
  {
    match (exp, act)
    case (False(_), False(_)) => true
    case (True(_), True(_)) => true
    case (Null(_), Null(_)) => true
    case (Number(_, x), Number(_, y)) => Within(x, y)
    case (String(_, s), String(_, t)) => s.Some? && s == t
    case (Array(_, ke), Array(_, ka)) => |ke| == |ka| && forall i :: 0 <= i < |ke| ==> Accepts(ke[i], ka[i])
    case (Object(_, ke), Object(_, ka)) =>
      |ke| == |ka| &&
      forall i :: 0 <= i < |ke| ==>
        var j := Find(ka, ke[i].key, true);
        j.Some? && Accepts(ke[i], ka[j.value])
    case _ => false
  }

  // ----- what both should decide

  datatype Tolerance = Rounding | Micro

  predicate Close(tol: Tolerance, a: real, b: real) {
    if tol.Rounding? then Near(a, b) else Within(a, b)
  }

  ghost predicate Permutation(p: seq<nat>, n: nat) {
    |p| == n && Distinct(p) && forall i :: 0 <= i < n ==> p[i] < n
  }

  /** Equal as JSON values: arrays in order, the members of objects in any order. */
  ghost predicate Equivalent(a: Item, b: Item, tol: Tolerance)
    decreases a, 1
  {
    match (a, b)
    case (False(_), False(_)) => true
    case (True(_), True(_)) => true
    case (Null(_), Null(_)) => true
    case (Number(_, x), Number(_, y)) => Close(tol, x, y)
    case (String(_, s), String(_, t)) => s.Some? && s == t
    case (Raw(_, s), Raw(_, t)) => s.Some? && s == t
    case (Array(_, ka), Array(_, kb)) =>
      |ka| == |kb| && forall i :: 0 <= i < |ka| ==> Equivalent(ka[i], kb[i], tol)
    case (Object(_, ka), Object(_, kb)) =>
      |ka| == |kb| && exists p :: Permutation(p, |ka|) && Paired(a, b, tol, p)
    case _ => false
  }

  /** Member `i` of `a` goes with member `p[i]` of `b`. */
  ghost predicate Paired(a: Item, b: Item, tol: Tolerance, p: seq<nat>)
    requires a.Object? && b.Object? && |a.kids| == |b.kids| && Permutation(p, |a.kids|)
    decreases a, 0
  {
    forall i :: 0 <= i < |a.kids| ==>
      b.kids[p[i]].key == a.kids[i].key && Equivalent(a.kids[i], b.kids[p[i]], tol)
  }

  /** All members of objects have names, and no two in one object have the same. */
  predicate Keyed(item: Item, exact: bool)
    decreases item
  {
    item.Array? || item.Object? ==>
      && (forall k :: k in item.kids ==> Keyed(k, exact))
      && (item.Object? ==> DistinctNames(item.kids, exact))
  }

  predicate DistinctNames(kids: seq<Item>, exact: bool) {
    && (forall i :: 0 <= i < |kids| ==> kids[i].key.Some?)
    && (forall i, j :: 0 <= i < j < |kids| ==> !SameName(kids[i].key.value, kids[j].key.value, exact))
  }

  // ----- lookups and permutations

  /** The pigeonhole principle. */
  lemma {:induction false} InjectionBound(p: seq<nat>, n: nat)
    requires Distinct(p) && forall i :: 0 <= i < |p| ==> p[i] < n
    ensures |p| <= n
    decreases n
  {
    if |p| > 0 {
      if k :| 0 <= k < |p| && p[k] == n - 1 {
        var q := Removed(p, k);
        RemovedDistinct(p, k);
        forall i | 0 <= i < |q| ensures q[i] < n - 1 {
          assert q[i] in q;
        }
        InjectionBound(q, n - 1);
      } else {
        assert p[0] < n;
        InjectionBound(p, n - 1);
      }
    }
  }

  lemma {:induction false} PermutationReaches(p: seq<nat>, n: nat, j: nat)
    requires Permutation(p, n) && j < n
    ensures exists i :: 0 <= i < n && p[i] == j
  {
    if forall i :: 0 <= i < n ==> p[i] != j {
      InjectionBound(p + [j], n);
    }
  }

  /** Where the lookups of the members of one object in another lead. */
  function Lookups(ka: seq<Item>, kb: seq<Item>): (p: seq<nat>)
    requires forall i :: 0 <= i < |ka| ==> Find(kb, ka[i].key, true).Some?
    ensures |p| == |ka| && forall i :: 0 <= i < |p| ==> p[i] == Find(kb, ka[i].key, true).value
  {
    seq(|ka|, i requires 0 <= i < |ka| => Find(kb, ka[i].key, true).value)
  }

  lemma LookupsDistinct(ka: seq<Item>, kb: seq<Item>)
    requires DistinctNames(ka, true)
    requires forall i :: 0 <= i < |ka| ==> Find(kb, ka[i].key, true).Some?
    ensures Distinct(Lookups(ka, kb)) && |ka| <= |kb|
    ensures |ka| == |kb| ==> Permutation(Lookups(ka, kb), |ka|)
  {
    var p := Lookups(ka, kb);
    forall i, j | 0 <= i < j < |p| ensures p[i] != p[j] {
      assert kb[p[i]].key == ka[i].key && kb[p[j]].key == ka[j].key;
    }
    InjectionBound(p, |kb|);
  }

  /** A lookup among distinct names finds the one child with the name. */
  lemma FindUnique(kids: seq<Item>, i: nat, exact: bool)
    requires DistinctNames(kids, exact) && i < |kids|
    ensures Find(kids, kids[i].key, exact) == Some(i)
  {
    assert Stops(kids[i], kids[i].key.value, exact);
  }

  /** Names paired by a permutation are distinct on both sides or on neither. */
  lemma DistinctNamesPaired(ka: seq<Item>, kb: seq<Item>, p: seq<nat>)
    requires |ka| == |kb| && Permutation(p, |ka|) && DistinctNames(ka, true)
    requires forall i :: 0 <= i < |ka| ==> kb[p[i]].key == ka[i].key
    ensures DistinctNames(kb, true)
  {
    forall j | 0 <= j < |kb| ensures kb[j].key.Some? {
      PermutationReaches(p, |ka|, j);
    }
    forall j, k | 0 <= j < k < |kb| ensures !SameName(kb[j].key.value, kb[k].key.value, true) {
      PermutationReaches(p, |ka|, j);
      PermutationReaches(p, |ka|, k);
      var i, m :| 0 <= i < |ka| && p[i] == j && 0 <= m < |ka| && p[m] == k;
      assert ka[i].key == kb[j].key && ka[m].key == kb[k].key;
      assert i < m || m < i;
    }
  }

  // ----- main results

  /**
   * compare_nodes accepts exactly the equal trees, when no two members of an
   * expected object have the same name: equal sizes make the lookups a
   * permutation, so it is enough to look in one direction.
   */
  lemma {:induction false} AcceptsIsEquivalent(exp: Item, act: Item)
    requires Keyed(exp, true)
    ensures Accepts(exp, act) <==> RawFree(exp) && Equivalent(exp, act, Micro)
    decreases exp
  {
    if exp.Array? && act.Array? && |exp.kids| == |act.kids| {
      forall i | 0 <= i < |exp.kids|
        ensures Accepts(exp.kids[i], act.kids[i]) <==>
                RawFree(exp.kids[i]) && Equivalent(exp.kids[i], act.kids[i], Micro)
      {
        AcceptsIsEquivalent(exp.kids[i], act.kids[i]);
      }
    }
    if exp.Object? && act.Object? && |exp.kids| == |act.kids| {
      ObjectAccepted(exp, act);
    }
  }

  lemma {:induction false} ObjectAccepted(exp: Item, act: Item)
    requires exp.Object? && act.Object? && |exp.kids| == |act.kids| && Keyed(exp, true)
    ensures Accepts(exp, act) <==> RawFree(exp) && Equivalent(exp, act, Micro)
    decreases exp, 0
  {
    var ke, ka := exp.kids, act.kids;
    forall i, j | 0 <= i < |ke| && 0 <= j < |ka|
      ensures Accepts(ke[i], ka[j]) <==> RawFree(ke[i]) && Equivalent(ke[i], ka[j], Micro)
    {
      AcceptsIsEquivalent(ke[i], ka[j]);
    }
    if Accepts(exp, act) {
      LookupsDistinct(ke, ka);
      assert Paired(exp, act, Micro, Lookups(ke, ka));
    }
    if RawFree(exp) && Equivalent(exp, act, Micro) {
      var p :| Permutation(p, |ke|) && Paired(exp, act, Micro, p);
      DistinctNamesPaired(ke, ka, p);
      forall i | 0 <= i < |ke| ensures Find(ka, ke[i].key, true) == Some(p[i]) {
        FindUnique(ka, p[i], true);
      }
    }
  }

  /** cJSON_Compare in case-sensitive mode accepts exactly the equal trees, when names are distinct on both sides. */
  lemma {:induction false} SameIsEquivalent(a: Item, b: Item)
    requires Keyed(a, true) && Keyed(b, true)
    ensures Same(a, b, true) <==> Equivalent(a, b, Rounding)
    decreases a, 1
  {
    if a.Array? && b.Array? && |a.kids| == |b.kids| {
      forall i | 0 <= i < |a.kids|
        ensures Same(a.kids[i], b.kids[i], true) <==> Equivalent(a.kids[i], b.kids[i], Rounding)
      {
        SameIsEquivalent(a.kids[i], b.kids[i]);
      }
    }
    if a.Object? && b.Object? {
      ObjectSame(a, b);
    }
  }

  lemma {:induction false} ObjectSame(a: Item, b: Item)
    requires a.Object? && b.Object? && Keyed(a, true) && Keyed(b, true)
    ensures Same(a, b, true) <==> Equivalent(a, b, Rounding)
    decreases a, 0
  {
    hide Find, Weight, WeightAll, Same, Equivalent, Keyed, DistinctNames;
    KeyedObject(a);
    KeyedObject(b);
    forall i, j | 0 <= i < |a.kids| && 0 <= j < |b.kids|
      ensures Same(a.kids[i], b.kids[j], true) <==> Equivalent(a.kids[i], b.kids[j], Rounding)
      ensures Same(b.kids[j], a.kids[i], true) <==> Same(a.kids[i], b.kids[j], true)
    {
      SameIsEquivalent(a.kids[i], b.kids[j]);
      SameSymmetric(a.kids[i], b.kids[j], true);
    }
    if Same(a, b, true) {
      SamePaired(a, b);
    }
    if Equivalent(a, b, Rounding) {
      PairedSame(a, b);
    }
  }

  lemma KeyedObject(a: Item)
    requires a.Object? && Keyed(a, true)
    ensures DistinctNames(a.kids, true) && forall i :: 0 <= i < |a.kids| ==> Keyed(a.kids[i], true)
  {
  }

  lemma {:induction false} SamePaired(a: Item, b: Item)
    requires a.Object? && b.Object? && DistinctNames(a.kids, true) && DistinctNames(b.kids, true) && Same(a, b, true)
    requires forall i, j :: 0 <= i < |a.kids| && 0 <= j < |b.kids| ==>
      (Same(a.kids[i], b.kids[j], true) <==> Equivalent(a.kids[i], b.kids[j], Rounding))
    ensures Equivalent(a, b, Rounding)
  {
    hide Find, Near, Within, DistinctNames;
    LookupsDistinct(a.kids, b.kids);
    LookupsDistinct(b.kids, a.kids);
    assert Paired(a, b, Rounding, Lookups(a.kids, b.kids));
  }

  lemma {:induction false} PairedSame(a: Item, b: Item)
    requires a.Object? && b.Object? && DistinctNames(a.kids, true) && DistinctNames(b.kids, true)
    requires Equivalent(a, b, Rounding)
    requires forall i, j :: 0 <= i < |a.kids| && 0 <= j < |b.kids| ==>
      && (Same(a.kids[i], b.kids[j], true) <==> Equivalent(a.kids[i], b.kids[j], Rounding))
      && (Same(b.kids[j], a.kids[i], true) <==> Same(a.kids[i], b.kids[j], true))
    ensures Same(a, b, true)
  {
    hide Find, Near, Within, DistinctNames;
    var ka, kb := a.kids, b.kids;
    var p :| Permutation(p, |ka|) && Paired(a, b, Rounding, p);
    forall i | 0 <= i < |ka| ensures Find(kb, ka[i].key, true) == Some(p[i]) {
      FindUnique(kb, p[i], true);
    }
    forall j | 0 <= j < |kb|
      ensures exists i :: 0 <= i < |ka| && p[i] == j && Find(ka, kb[j].key, true) == Some(i)
    {
      PermutationReaches(p, |ka|, j);
      var i :| 0 <= i < |ka| && p[i] == j;
      FindUnique(ka, i, true);
    }
  }

  predicate Integral(item: Item)
    decreases item
  {
    match item
    case Number(_, d) => IsInteger(d)
    case Array(_, kids) => forall k :: k in kids ==> Integral(k)
    case Object(_, kids) => forall k :: k in kids ==> Integral(k)
    case _ => true
  }

  /** Between integers both tolerances mean equality. */
  lemma {:induction false} TolerancesAgree(a: Item, b: Item)
    requires Integral(a) && Integral(b)
    ensures Equivalent(a, b, Rounding) <==> Equivalent(a, b, Micro)
    decreases a
  {
    if a.Number? && b.Number? {
      IntegersApart(a.d, b.d);
    }
    if (a.Array? && b.Array?) || (a.Object? && b.Object?) {
      forall i, j | 0 <= i < |a.kids| && 0 <= j < |b.kids|
        ensures Equivalent(a.kids[i], b.kids[j], Rounding) <==> Equivalent(a.kids[i], b.kids[j], Micro)
      {
        TolerancesAgree(a.kids[i], b.kids[j]);
      }
      if a.Object? && |a.kids| == |b.kids| {
        forall p | Permutation(p, |a.kids|) ensures Paired(a, b, Rounding, p) <==> Paired(a, b, Micro, p) {
        }
      }
    }
  }

  /** The two comparisons agree on trees of integers with distinct names. */
  lemma ComparisonsAgree(exp: Item, act: Item)
    requires Keyed(exp, true) && Keyed(act, true) && Integral(exp) && Integral(act) && RawFree(exp)
    ensures Accepts(exp, act) <==> Same(exp, act, true)
  {
    AcceptsIsEquivalent(exp, act);
    SameIsEquivalent(exp, act);
    TolerancesAgree(exp, act);
  }

  /** Trees without Invalid nodes and without strings whose text is NULL. */
  predicate Complete(item: Item)
    decreases item
  {
    match item
    case Invalid(_) => false
    case String(_, text) => text.Some?
    case Raw(_, text) => text.Some?
    case Array(_, kids) => forall k :: k in kids ==> Complete(k)
    case Object(_, kids) => forall k :: k in kids ==> Complete(k)
    case _ => true
  }

  /** A tree with distinct names, and so a copy of it, compares equal to itself exactly when it is complete. */
  lemma {:induction false} SelfSame(a: Item, exact: bool)
    requires Keyed(a, exact)
    ensures Same(a, a, exact) <==> Complete(a)
    decreases a
  {
    if a.Array? || a.Object? {
      forall i | 0 <= i < |a.kids| ensures Same(a.kids[i], a.kids[i], exact) <==> Complete(a.kids[i]) {
        SelfSame(a.kids[i], exact);
      }
      if a.Object? {
        forall i | 0 <= i < |a.kids| ensures Find(a.kids, a.kids[i].key, exact) == Some(i) {
          FindUnique(a.kids, i, exact);
        }
      }
    }
  }

  /** String nodes have a text. */
  predicate HasTexts(item: Item)
    decreases item
  {
    match item
    case String(_, text) => text.Some?
    case Array(_, kids) => forall k :: k in kids ==> HasTexts(k)
    case Object(_, kids) => forall k :: k in kids ==> HasTexts(k)
    case _ => true
  }

  // ----- on nodes

  /** case_insensitive_strcmp. */
  method CaseInsensitiveStrcmp(a: array?<byte>, b: array?<byte>, ghost s: Option<cstring>, ghost t: Option<cstring>)
    returns (difference: int)
    requires Holds(a, s) && Holds(b, t)
    ensures difference == 0 <==> s.Some? && t.Some? && SameName(s.value, t.value, false)
  {
    hide Holds, LowerAll, Lower;
    HeldOrNull(a, s);
    HeldOrNull(b, t);
    if a == null || b == null {
      return 1;
    }
    if a == b {
      SameHeld(a, s, t);
      return 0;
    }
    ghost var x, y := s.value, t.value;
    HeldEnds(a, x);
    HeldEnds(b, y);
    var i := 0;
    while Lower(a[i]) == Lower(b[i])
      invariant i <= |x| && i <= |y| && forall j :: 0 <= j < i ==> Lower(x[j]) == Lower(y[j])
      decreases |x| - i
    {
      OnlyNulIsNul(a[i]);
      OnlyNulIsNul(b[i]);
      if a[i] == NUL {
        LowersAgree(x, y, i);
        return 0;
      }
      i := i + 1;
    }
    LowersAgree(x, y, i);
    return Lower(a[i]) as int - Lower(b[i]) as int;
  }

  lemma HeldOrNull(a: array?<byte>, s: Option<cstring>)
    requires Holds(a, s)
    ensures a == null <==> s.None?
  {
    hide CString;
  }

  lemma SameHeld(a: array<byte>, s: Option<cstring>, t: Option<cstring>)
    requires Holds(a, s) && Holds(a, t)
    ensures s == t
  {
    hide CString;
  }

  lemma HeldEnds(a: array<byte>, x: cstring)
    requires Holds(a, Some(x))
    ensures |x| < a.Length && a[|x|] == NUL && forall j :: 0 <= j < |x| ==> a[j] == x[j] && x[j] != NUL
  {
    CStringEnds(a[..]);
  }

  lemma OnlyNulIsNul(b: byte)
    ensures Lower(b) == NUL <==> b == NUL
  {
  }

  /** Where two strings that were alike so far end or differ. */
  lemma LowersAgree(x: cstring, y: cstring, i: nat)
    requires i <= |x| && i <= |y| && forall j :: 0 <= j < i ==> Lower(x[j]) == Lower(y[j])
    ensures i == |x| == |y| ==> LowerAll(x) == LowerAll(y)
    ensures (i == |x|) != (i == |y|) ==> LowerAll(x) != LowerAll(y)
    ensures i < |x| && i < |y| && Lower(x[i]) != Lower(y[i]) ==> LowerAll(x) != LowerAll(y)
  {
    hide Lower;
    if i < |x| && i < |y| && Lower(x[i]) != Lower(y[i]) {
      assert LowerAll(x)[i] != LowerAll(y)[i];
    }
  }

  lemma {:induction false} FirstStopIs(kids: seq<Item>, name: cstring, exact: bool, i: nat)
    requires i <= |kids| && forall j :: 0 <= j < i ==> !Stops(kids[j], name, exact)
    requires i < |kids| ==> Stops(kids[i], name, exact)
    ensures FirstStop(kids, name, exact) == i
  {
  }

  ghost function Chosen(kids: seq<Shape>, r: Option<nat>): Node? {
    if r.Some? && r.value < |kids| then kids[r.value].node else null
  }

  /** get_object_item. */
  method GetObjectItem(parent: Node?, name: array?<byte>, exact: bool,
                       ghost sh: Shape, ghost it: Item, ghost wanted: Option<cstring>)
    returns (item: Node?)
    requires parent != null ==> parent == sh.node && Models(sh, it)
    requires Holds(name, wanted)
    ensures item == if parent == null then null else Chosen(sh.kids, Find(KidsOf(it), wanted, exact))
  {
    hide Models, ModelsAll, FirstStop, BlocksOf, Blocks, Stops, Holds, SameName, NextChained;
    if parent == null || name == null {
      NamelessNode(name, wanted);
      return null;
    }
    ghost var kids, items, k := sh.kids, KidsOf(it), 0;
    NamedNode(name, wanted);
    FieldsOf(sh, it);
    BlocksOfAllocated(kids);
    NodesInBlocks(kids);
    SameLength(kids, items);
    item := parent.child;
    if exact {
      while item != null && item.key != null && CString(name[..]) != CString(item.key[..])
        invariant k <= |kids| && item == NodeAt(kids, k)
        invariant ModelsAll(kids, items) && NextChained(kids)
        invariant forall j :: 0 <= j < k ==> !Stops(items[j], wanted.value, exact)
        decreases |kids| - k
      {
        KidStops(kids, items, k, name, wanted);
        item := item.next;
        k := k + 1;
      }
    } else {
      while item != null
        invariant k <= |kids| && item == NodeAt(kids, k)
        invariant ModelsAll(kids, items) && NextChained(kids)
        invariant forall j :: 0 <= j < k ==> !Stops(items[j], wanted.value, exact)
        decreases |kids| - k
      {
        KidStops(kids, items, k, name, wanted);
        var difference := CaseInsensitiveStrcmp(name, item.key, wanted, items[k].key);
        if difference == 0 {
          break;
        }
        item := item.next;
        k := k + 1;
      }
    }
    if item != null {
      KidStops(kids, items, k, name, wanted);
    }
    FirstStopIs(items, wanted.value, exact, k);
    if item == null || item.key == null {
      return null;
    }
  }

  lemma {:induction false} NamelessNode(name: array?<byte>, wanted: Option<cstring>)
    requires Holds(name, wanted)
    ensures name == null <==> wanted == None
  {
  }

  lemma {:induction false} NamedNode(name: array<byte>, wanted: Option<cstring>)
    requires Holds(name, wanted)
    ensures wanted == Some(CString(name[..]))
  {
  }

  lemma {:induction false} SameLength(kids: seq<Shape>, items: seq<Item>)
    requires ModelsAll(kids, items)
    ensures |kids| == |items|
  {
  }

  /** What a child in memory shows of its name, and whether the walk stops there. */
  lemma {:induction false} KidStops(kids: seq<Shape>, items: seq<Item>, k: nat, name: array<byte>,
                                    wanted: Option<cstring>)
    requires ModelsAll(kids, items) && NextChained(kids) && k < |kids| && Holds(name, wanted)
    ensures |kids| == |items| && Holds(kids[k].node.key, items[k].key)
    ensures kids[k].node.next == NodeAt(kids, k + 1)
    ensures kids[k].node.key == null <==> items[k].key == None
    ensures Stops(items[k], wanted.value, true) <==>
      kids[k].node.key == null || CString(name[..]) == CString(kids[k].node.key[..])
    ensures Stops(items[k], wanted.value, false) <==>
      items[k].key.Some? && SameName(wanted.value, items[k].key.value, false)
  {
    hide LowerAll;
    FieldsOf(kids[k], items[k]);
  }

  /** cJSON_Compare. Different trees that share no memory are compared as values. */
  method Compare(a: Node?, b: Node?, exact: bool, ghost shA: Shape, ghost itA: Item, ghost shB: Shape, ghost itB: Item)
    returns (r: bool)
    requires a != null ==> a == shA.node && Models(shA, itA)
    requires b != null ==> b == shB.node && Models(shB, itB)
    requires a != null && b != null && a != b ==> Blocks(shA) !! Blocks(shB)
    ensures r == (a != null && b != null && if a == b then !itA.Invalid? else Same(itA, itB, exact))
    decreases Weight(itA) + Weight(itB), 2
  {
    hide Models, ModelsAll, NextChained, Blocks, BlocksOf, Inner, NodesOf, Holds, Near, Find, Weight, First, AllFound;
    if a == null || b == null {
      return false;
    }
    NodeShows(shA, itA);
    NodeShows(shB, itB);
    if a.kind != b.kind || a.kind == KInvalid {
      return false;
    }
    if a == b {
      return true;
    }
    match a.kind
    case KFalse | KTrue | KNull => return true;
    case KNumber => return Near(a.valuedouble, b.valuedouble);
    case KString | KRaw =>
      r := SameStrings(a.valuestring, b.valuestring, itA.text, itB.text);
    case KArray =>
      r := CompareElements(a, b, exact, shA, itA, shB, itB);
    case KObject =>
      SameObjects(itA, itB, exact);
      r := CompareMembers(a, b, exact, shA, itA, shB, itB);
      if r {
        r := CompareMembers(b, a, exact, shB, itB, shA, itA);
      }
  }

  method SameStrings(a: array?<byte>, b: array?<byte>, ghost s: Option<cstring>, ghost t: Option<cstring>)
    returns (r: bool)
    requires Holds(a, s) && Holds(b, t)
    ensures r == (s.Some? && s == t)
  {
    return a != null && b != null && CString(a[..]) == CString(b[..]);
  }

  method CompareElements(a: Node, b: Node, exact: bool, ghost shA: Shape, ghost itA: Item, ghost shB: Shape,
                         ghost itB: Item) returns (r: bool)
    requires a == shA.node && Models(shA, itA) && b == shB.node && Models(shB, itB)
    requires itA.Array? && itB.Array? && Blocks(shA) !! Blocks(shB)
    ensures r == Same(itA, itB, exact)
    decreases Weight(itA) + Weight(itB), 1
  {
    hide Models, ModelsAll, NextChained, Blocks, BlocksOf, Inner, NodesOf, Holds, Weight, Same, KindIs;
    SameArrays(itA, itB, exact);
    NodeShows(shA, itA);
    NodeShows(shB, itB);
    var aElement, bElement := a.child, b.child;
    ghost var k := 0;
    while aElement != null && bElement != null
      invariant k <= |shA.kids| && k <= |shB.kids|
      invariant aElement == NodeAt(shA.kids, k) && bElement == NodeAt(shB.kids, k)
      invariant ModelsAll(shA.kids, itA.kids) && NextChained(shA.kids)
      invariant ModelsAll(shB.kids, itB.kids) && NextChained(shB.kids)
      invariant forall i :: 0 <= i < k ==> Same(itA.kids[i], itB.kids[i], exact)
      decreases |shA.kids| - k
    {
      KidModels(shA.kids, itA.kids, k);
      KidModels(shB.kids, itB.kids, k);
      KidWeighsLess(itA, k);
      KidWeighsLess(itB, k);
      var same := Compare(aElement, bElement, exact, shA.kids[k], itA.kids[k], shB.kids[k], itB.kids[k]);
      if !same {
        return false;
      }
      aElement := aElement.next;
      bElement := bElement.next;
      k := k + 1;
    }
    return aElement == bElement;
  }

  lemma KidWeighsLess(item: Item, k: nat)
    requires k < |KidsOf(item)|
    ensures Weight(KidsOf(item)[k]) < Weight(item)
  {
    assert KidsOf(item)[k] in KidsOf(item);
  }

  lemma FoundMeans(a: Item, kb: seq<Item>, exact: bool)
    ensures Found(a, kb, exact) <==>
      var j := Find(kb, a.key, exact);
      j.Some? && Same(a, kb[j.value], exact)
  {
    hide Find, Same;
  }

  /** Whether each member of `a` has a member of `b` of the same name that compares equal. */
  method CompareMembers(a: Node, b: Node, exact: bool, ghost shA: Shape, ghost itA: Item, ghost shB: Shape,
                        ghost itB: Item) returns (r: bool)
    requires a == shA.node && Models(shA, itA) && b == shB.node && Models(shB, itB)
    requires itA.Object? && itB.Object? && Blocks(shA) !! Blocks(shB)
    ensures r == AllFound(itA.kids, itB.kids, exact)
    decreases Weight(itA) + Weight(itB), 0
  {
    hide Models, ModelsAll, NextChained, Blocks, BlocksOf, Inner, NodesOf, Holds, Weight, Find, Same, Found, KindIs;
    NodeShows(shA, itA);
    NodeShows(shB, itB);
    var aElement := a.child;
    ghost var k := 0;
    while aElement != null
      invariant k <= |shA.kids| && aElement == NodeAt(shA.kids, k)
      invariant ModelsAll(shA.kids, itA.kids) && NextChained(shA.kids) && Models(shB, itB)
      invariant ModelsAll(shB.kids, itB.kids) && NextChained(shB.kids)
      invariant forall i :: 0 <= i < k ==> Found(itA.kids[i], itB.kids, exact)
      decreases |shA.kids| - k
    {
      FoundMeans(itA.kids[k], itB.kids, exact);
      KidModels(shA.kids, itA.kids, k);
      ghost var j := Find(itB.kids, itA.kids[k].key, exact);
      var bElement := GetObjectItem(b, aElement.key, exact, shB, itB, itA.kids[k].key);
      if bElement == null {
        return false;
      }
      KidModels(shA.kids, itA.kids, k);
      KidModels(shB.kids, itB.kids, j.value);
      KidWeighsLess(itA, k);
      KidWeighsLess(itB, j.value);
      var same := Compare(aElement, bElement, exact, shA.kids[k], itA.kids[k], shB.kids[j.value], itB.kids[j.value]);
      if !same {
        return false;
      }
      aElement := aElement.next;
      k := k + 1;
    }
    return true;
  }

  ghost function NodesIn(kids: seq<Shape>): (r: seq<Node>)
    ensures |r| == |kids| && forall i :: 0 <= i < |kids| ==> r[i] == kids[i].node
  {
    seq(|kids|, i requires 0 <= i < |kids| => kids[i].node)
  }

  lemma {:induction false} NodesWalk(kids: seq<Shape>)
    requires NextChained(kids)
    ensures Walk(First(kids), NodesIn(kids))
  {
    var nodes := NodesIn(kids);
    forall i | 0 <= i < |nodes| ensures nodes[i].next == NodeIn(nodes, i + 1) {
      assert kids[i].node.next == NodeAt(kids, i + 1);
    }
  }

  /** compare_nodes, up to the messages: whether it gets to the end without a mismatch. */
  method CompareNodes(exp: Node?, act: Node?, ghost shE: Shape, ghost itE: Item, ghost shA: Shape, ghost itA: Item)
    returns (ok: bool)
    requires exp != null ==> exp == shE.node && Models(shE, itE) && HasTexts(itE)
    requires act != null ==> act == shA.node && Models(shA, itA) && HasTexts(itA)
    ensures ok == if exp != null && act != null then Accepts(itE, itA) else exp == act
    decreases itE, 1
  {
    hide Models, ModelsAll, NextChained, Blocks, BlocksOf, Inner, NodesOf, Holds, Within, Find, HasTexts;
    if exp == null && act == null {
      return true;
    }
    if exp == null || act == null {
      return false;
    }
    NodeShows(shE, itE);
    NodeShows(shA, itA);
    if (exp.kind == KTrue || exp.kind == KFalse) && (act.kind == KTrue || act.kind == KFalse) {
      return (exp.kind == KTrue) == (act.kind == KTrue);
    }
    if exp.kind != act.kind {
      return false;
    }
    match exp.kind
    case KNumber =>
      WithinMeans(exp.valuedouble, act.valuedouble);
      return !(Abs(exp.valuedouble - act.valuedouble) > 1.0 / 1000000.0);
    case KString =>
      TextHeld(itE);
      ok := SameStrings(exp.valuestring, act.valuestring, itE.text, itA.text);
    case KArray =>
      ok := CompareNodeElements(exp, act, shE, itE, shA, itA);
    case KObject =>
      ok := CompareNodeMembers(exp, act, shE, itE, shA, itA);
    case KNull => return true;
    case _ => return false;
  }

  lemma WithinMeans(a: real, b: real)
    ensures Within(a, b) <==> !(Abs(a - b) > 1.0 / 1000000.0)
  {
  }

  lemma TextHeld(it: Item)
    requires it.String? && HasTexts(it)
    ensures it.text.Some?
  {
  }

  lemma KidTexts(it: Item, k: nat)
    requires k < |KidsOf(it)| && HasTexts(it)
    ensures HasTexts(KidsOf(it)[k])
  {
    assert KidsOf(it)[k] in KidsOf(it);
  }

  lemma ElementsAccepted(exp: Item, act: Item)
    requires exp.Array? && act.Array?
    ensures Accepts(exp, act) <==>
      |exp.kids| == |act.kids| && forall i :: 0 <= i < |exp.kids| ==> Accepts(exp.kids[i], act.kids[i])
  {
  }

  lemma MembersAccepted(exp: Item, act: Item)
    requires exp.Object? && act.Object?
    ensures Accepts(exp, act) <==>
      && |exp.kids| == |act.kids|
      && forall i :: 0 <= i < |exp.kids| ==>
           var j := Find(act.kids, exp.kids[i].key, true);
           j.Some? && Accepts(exp.kids[i], act.kids[j.value])
  {
    hide Find;
  }

  method CompareNodeElements(exp: Node, act: Node, ghost shE: Shape, ghost itE: Item, ghost shA: Shape, ghost itA: Item)
    returns (ok: bool)
    requires exp == shE.node && Models(shE, itE) && HasTexts(itE)
    requires act == shA.node && Models(shA, itA) && HasTexts(itA)
    requires itE.Array? && itA.Array?
    ensures ok == Accepts(itE, itA)
    decreases itE, 0, 1
  {
    hide Models, ModelsAll, NextChained, Blocks, BlocksOf, Inner, NodesOf, Holds, HasTexts, Walk, Accepts, KindIs;
    ElementsAccepted(itE, itA);
    NodeShows(shE, itE);
    NodeShows(shA, itA);
    NodesWalk(shE.kids);
    NodesWalk(shA.kids);
    var sizeExp := GetArraySize(exp, NodesIn(shE.kids));
    var sizeAct := GetArraySize(act, NodesIn(shA.kids));
    if sizeExp != sizeAct {
      return false;
    }
    for i := 0 to sizeExp
      invariant forall j :: 0 <= j < i ==> Accepts(itE.kids[j], itA.kids[j])
    {
      var same := CompareNodesAt(exp, act, i, shE, itE, shA, itA);
      if !same {
        return false;
      }
    }
    return true;
  }

  /** One round of the loop over the elements. */
  method CompareNodesAt(exp: Node, act: Node, i: nat,
                        ghost shE: Shape, ghost itE: Item, ghost shA: Shape, ghost itA: Item)
    returns (ok: bool)
    requires exp == shE.node && Models(shE, itE) && HasTexts(itE)
    requires act == shA.node && Models(shA, itA) && HasTexts(itA)
    requires itE.Array? && itA.Array? && i < |itE.kids| == |itA.kids|
    ensures ok == Accepts(itE.kids[i], itA.kids[i])
    decreases itE, 0, 0
  {
    hide Models, ModelsAll, NextChained, Blocks, BlocksOf, Inner, NodesOf, Holds, HasTexts, Walk, Accepts, KindIs;
    NodeShows(shE, itE);
    NodeShows(shA, itA);
    NodesWalk(shE.kids);
    NodesWalk(shA.kids);
    var childExp := GetArrayItem(exp, i, NodesIn(shE.kids));
    var childAct := GetArrayItem(act, i, NodesIn(shA.kids));
    KidModels(shE.kids, itE.kids, i);
    KidModels(shA.kids, itA.kids, i);
    KidTexts(itE, i);
    KidTexts(itA, i);
    ok := CompareNodes(childExp, childAct, shE.kids[i], itE.kids[i], shA.kids[i], itA.kids[i]);
  }

  method CompareNodeMembers(exp: Node, act: Node, ghost shE: Shape, ghost itE: Item, ghost shA: Shape, ghost itA: Item)
    returns (ok: bool)
    requires exp == shE.node && Models(shE, itE) && HasTexts(itE)
    requires act == shA.node && Models(shA, itA) && HasTexts(itA)
    requires itE.Object? && itA.Object?
    ensures ok == Accepts(itE, itA)
    decreases itE, 0, 1
  {
    hide Models, ModelsAll, NextChained, Blocks, BlocksOf, Inner, NodesOf, Holds, HasTexts, Walk, Find, Accepts, KindIs;
    MembersAccepted(itE, itA);
    NodeShows(shE, itE);
    NodeShows(shA, itA);
    NodesWalk(shE.kids);
    NodesWalk(shA.kids);
    var sizeExp := GetArraySize(exp, NodesIn(shE.kids));
    var sizeAct := GetArraySize(act, NodesIn(shA.kids));
    if sizeExp != sizeAct {
      return false;
    }
    ok := CompareNamed(exp.child, act, shE, itE, shA, itA);
  }

  /** The loop over the expected members. */
  method CompareNamed(first: Node?, act: Node, ghost shE: Shape, ghost itE: Item, ghost shA: Shape, ghost itA: Item)
    returns (ok: bool)
    requires itE.Object? && Models(shE, itE) && HasTexts(itE) && first == shE.node.child
    requires itA.Object? && Models(shA, itA) && HasTexts(itA) && act == shA.node
    ensures ok <==> forall i :: 0 <= i < |itE.kids| ==>
      var j := Find(itA.kids, itE.kids[i].key, true);
      j.Some? && Accepts(itE.kids[i], itA.kids[j.value])
    decreases itE, 0, 0
  {
    hide Models, ModelsAll, NextChained, Blocks, BlocksOf, Inner, NodesOf, Holds, HasTexts, Find, Accepts, KindIs;
    NodeShows(shE, itE);
    NodeShows(shA, itA);
    var childExp := first;
    ghost var k := 0;
    while childExp != null
      invariant k <= |shE.kids| && childExp == NodeAt(shE.kids, k)
      invariant ModelsAll(shE.kids, itE.kids) && NextChained(shE.kids) && Models(shA, itA)
      invariant ModelsAll(shA.kids, itA.kids) && NextChained(shA.kids)
      invariant forall i :: 0 <= i < k ==>
        var j := Find(itA.kids, itE.kids[i].key, true);
        j.Some? && Accepts(itE.kids[i], itA.kids[j.value])
      decreases |shE.kids| - k
    {
      KidModels(shE.kids, itE.kids, k);
      ghost var j := Find(itA.kids, itE.kids[k].key, true);
      var childAct := GetObjectItem(act, childExp.key, true, shA, itA, itE.kids[k].key);
      if childAct == null {
        return false;
      }
      KidModels(shE.kids, itE.kids, k);
      KidModels(shA.kids, itA.kids, j.value);
      KidTexts(itE, k);
      KidTexts(itA, j.value);
      var same := CompareNodes(childExp, childAct, shE.kids[k], itE.kids[k], shA.kids[j.value], itA.kids[j.value]);
      if !same {
        return false;
      }
      childExp := childExp.next;
      k := k + 1;
    }
    return true;
  }
}
