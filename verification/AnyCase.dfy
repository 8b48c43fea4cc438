/** What cJSON_Compare decides when it is not case sensitive. */
module AnyCase {
  import opened Bytes
  import opened CLibrary
  import opened Items
  import opened Compare

  function FoldedName(name: cstring): (r: cstring)
    ensures |r| == |name| && r == LowerAll(name)
  {
    assert forall i :: 0 <= i < |name| ==> Lower(name[i]) != NUL;
    LowerAll(name)
  }

  /** The same tree with every name in lower case. */
  function Folded(a: Item): (r: Item)
    ensures r.key == if a.key.None? then None else Some(FoldedName(a.key.value))
    ensures (r.Array? <==> a.Array?) && (r.Object? <==> a.Object?)
    ensures a.Array? || a.Object? ==>
      |r.kids| == |a.kids| && forall i :: 0 <= i < |a.kids| ==> r.kids[i] == Folded(a.kids[i])
    decreases a
  {
    var named := a.(key := if a.key.None? then None else Some(FoldedName(a.key.value)));
    if a.Array? || a.Object? then
      named.(kids := seq(|a.kids|, i requires 0 <= i < |a.kids| => Folded(a.kids[i])))
    else named
  }

  // ----- names that differ in more than case

  lemma {:induction false} FoldedKeyed(a: Item)
    ensures Keyed(Folded(a), true) <==> Keyed(a, false)
    decreases a
  {
    hide Folded, DistinctNames;
    if a.Array? || a.Object? {
      var r := Folded(a);
      forall i | 0 <= i < |a.kids| ensures Keyed(r.kids[i], true) <==> Keyed(a.kids[i], false) {
        FoldedKeyed(a.kids[i]);
      }
      if a.Object? {
        FoldedDistinct(a.kids, r.kids);
      }
      assert forall k :: k in a.kids ==> exists i :: 0 <= i < |a.kids| && a.kids[i] == k;
      assert forall k :: k in r.kids ==> exists i :: 0 <= i < |a.kids| && r.kids[i] == k;
      assert forall i :: 0 <= i < |a.kids| ==> a.kids[i] in a.kids && r.kids[i] in r.kids;
    }
  }

  lemma FoldedDistinct(kids: seq<Item>, folded: seq<Item>)
    requires |folded| == |kids| && forall i :: 0 <= i < |kids| ==> folded[i] == Folded(kids[i])
    ensures DistinctNames(folded, true) <==> DistinctNames(kids, false)
  {
    hide Folded;
  }

  // ----- lookups

  lemma FindFolded(kids: seq<Item>, folded: seq<Item>, name: Option<cstring>)
    requires |folded| == |kids| && forall i :: 0 <= i < |kids| ==> folded[i] == Folded(kids[i])
    requires DistinctNames(kids, false)
    ensures Find(folded, if name.None? then None else Some(FoldedName(name.value)), true) == Find(kids, name, false)
  {
    hide Folded;
    if name.Some? {
      var i := FirstStop(kids, name.value, false);
      assert forall j :: 0 <= j < |kids| ==>
        (Stops(folded[j], FoldedName(name.value), true) <==> Stops(kids[j], name.value, false));
      FirstStopIs(folded, FoldedName(name.value), true, i);
    }
  }

  // ----- the comparison

  /** Ignoring the case of names is comparing the trees with their names in lower case. */
  lemma {:induction false} SameFolded(a: Item, b: Item)
    requires Keyed(a, false) && Keyed(b, false)
    ensures Same(a, b, false) <==> Same(Folded(a), Folded(b), true)
    decreases Weight(a) + Weight(b)
  {
    hide Find, Near, DistinctNames, Folded, Weight;
    if (a.Array? && b.Array?) || (a.Object? && b.Object?) {
      forall i, j | 0 <= i < |a.kids| && 0 <= j < |b.kids|
        ensures Same(a.kids[i], b.kids[j], false) <==> Same(Folded(a.kids[i]), Folded(b.kids[j]), true)
        ensures Same(b.kids[j], a.kids[i], false) <==> Same(Folded(b.kids[j]), Folded(a.kids[i]), true)
      {
        KidWeighsLess(a, i);
        KidWeighsLess(b, j);
        SameFolded(a.kids[i], b.kids[j]);
        SameFolded(b.kids[j], a.kids[i]);
      }
      if a.Object? {
        SameFoldedObjects(a, b);
      }
    } else {
      SameFoldedScalars(a, b);
    }
  }

  lemma SameFoldedScalars(a: Item, b: Item)
    requires !((a.Array? && b.Array?) || (a.Object? && b.Object?))
    ensures Same(a, b, false) <==> Same(Folded(a), Folded(b), true)
  {
    hide Near;
  }

  lemma AllFoundFolded(ka: seq<Item>, kb: seq<Item>, fa: seq<Item>, fb: seq<Item>)
    requires |fa| == |ka| && forall i :: 0 <= i < |ka| ==> fa[i] == Folded(ka[i])
    requires |fb| == |kb| && forall j :: 0 <= j < |kb| ==> fb[j] == Folded(kb[j])
    requires DistinctNames(kb, false)
    requires forall i, j :: 0 <= i < |ka| && 0 <= j < |kb| ==> (Same(ka[i], kb[j], false) <==> Same(fa[i], fb[j], true))
    ensures AllFound(ka, kb, false) <==> AllFound(fa, fb, true)
  {
    hide Find, Same, DistinctNames, Folded;
    forall i | 0 <= i < |ka| ensures Find(fb, fa[i].key, true) == Find(kb, ka[i].key, false) {
      FindFolded(kb, fb, ka[i].key);
    }
  }

  lemma SameFoldedObjects(a: Item, b: Item)
    requires a.Object? && b.Object? && Keyed(a, false) && Keyed(b, false)
    requires forall i, j :: 0 <= i < |a.kids| && 0 <= j < |b.kids| ==>
      && (Same(a.kids[i], b.kids[j], false) <==> Same(Folded(a.kids[i]), Folded(b.kids[j]), true))
      && (Same(b.kids[j], a.kids[i], false) <==> Same(Folded(b.kids[j]), Folded(a.kids[i]), true))
    ensures Same(a, b, false) <==> Same(Folded(a), Folded(b), true)
  {
    hide Same, DistinctNames, Folded, AllFound;
    var fa, fb := Folded(a), Folded(b);
    AllFoundFolded(a.kids, b.kids, fa.kids, fb.kids);
    AllFoundFolded(b.kids, a.kids, fb.kids, fa.kids);
    SameObjects(a, b, false);
    SameObjects(fa, fb, true);
  }

  /**
   * cJSON_Compare in case-insensitive mode accepts exactly the trees that are
   * equal up to the order of members and the case of their names, when no two
   * names in one object differ in case only.
   */
  lemma AnyCaseIsEquivalent(a: Item, b: Item)
    requires Keyed(a, false) && Keyed(b, false)
    ensures Same(a, b, false) <==> Equivalent(Folded(a), Folded(b), Rounding)
  {
    hide Same, Equivalent, Keyed, Folded;
    FoldedKeyed(a);
    FoldedKeyed(b);
    SameFolded(a, b);
    SameIsEquivalent(Folded(a), Folded(b));
  }

  /** With such names, what the case-sensitive mode accepts the other one accepts too. */
  lemma {:induction false} ExactIsAnyCase(a: Item, b: Item)
    requires Keyed(a, false) && Keyed(b, false) && Same(a, b, true)
    ensures Same(a, b, false)
    decreases Weight(a) + Weight(b)
  {
    hide Find, Near, DistinctNames, Weight;
    if (a.Array? && b.Array?) || (a.Object? && b.Object?) {
      forall i, j | 0 <= i < |a.kids| && 0 <= j < |b.kids|
        ensures Same(a.kids[i], b.kids[j], true) ==> Same(a.kids[i], b.kids[j], false)
        ensures Same(b.kids[j], a.kids[i], true) ==> Same(b.kids[j], a.kids[i], false)
      {
        KidWeighsLess(a, i);
        KidWeighsLess(b, j);
        if Same(a.kids[i], b.kids[j], true) {
          ExactIsAnyCase(a.kids[i], b.kids[j]);
        }
        if Same(b.kids[j], a.kids[i], true) {
          ExactIsAnyCase(b.kids[j], a.kids[i]);
        }
      }
      if a.Object? {
        ExactObjects(a, b);
      }
    }
  }

  lemma AllFoundAnyCase(ka: seq<Item>, kb: seq<Item>)
    requires AllFound(ka, kb, true) && DistinctNames(kb, false)
    requires forall i, j :: 0 <= i < |ka| && 0 <= j < |kb| && Same(ka[i], kb[j], true) ==> Same(ka[i], kb[j], false)
    ensures AllFound(ka, kb, false)
  {
    hide Find, Same, DistinctNames;
    forall i | 0 <= i < |ka| ensures Find(kb, ka[i].key, false) == Find(kb, ka[i].key, true) {
      FoundEitherWay(kb, ka[i].key);
    }
  }

  lemma ExactObjects(a: Item, b: Item)
    requires a.Object? && b.Object? && Keyed(a, false) && Keyed(b, false) && Same(a, b, true)
    requires forall i, j :: 0 <= i < |a.kids| && 0 <= j < |b.kids| ==>
      && (Same(a.kids[i], b.kids[j], true) ==> Same(a.kids[i], b.kids[j], false))
      && (Same(b.kids[j], a.kids[i], true) ==> Same(b.kids[j], a.kids[i], false))
    ensures Same(a, b, false)
  {
    hide Same, DistinctNames, AllFound;
    SameObjects(a, b, true);
    AllFoundAnyCase(a.kids, b.kids);
    AllFoundAnyCase(b.kids, a.kids);
    SameObjects(a, b, false);
  }

  /** What an exact lookup finds, the other one finds. */
  lemma FoundEitherWay(kids: seq<Item>, name: Option<cstring>)
    requires DistinctNames(kids, false) && Find(kids, name, true).Some?
    ensures Find(kids, name, false) == Find(kids, name, true)
  {
    var j := Find(kids, name, true).value;
    FindUnique(kids, j, false);
    assert kids[j].key == name;
  }

  lemma UpperAndLower(kids: seq<Item>, upper: cstring, lower: cstring)
    requires upper == [65] && lower == [97] && kids == [True(Some(upper)), False(Some(lower))]
    ensures DistinctNames(kids, true)
    ensures Find(kids, Some(upper), true) == Some(0) && Find(kids, Some(lower), true) == Some(1)
    ensures Find(kids, Some(lower), false) == Some(0)
  {
    assert DistinctNames(kids, true);
    FindUnique(kids, 0, true);
    FindUnique(kids, 1, true);
    assert LowerAll(lower) == LowerAll(upper);
    assert Stops(kids[0], lower, false);
  }

  /** Without such names it is the other way round: a tree that equals itself only when case matters. */
  lemma CaseTellsApart() returns (a: Item)
    ensures Keyed(a, true) && Same(a, a, true) && !Same(a, a, false)
  {
    hide Find, DistinctNames, Same, LowerAll;
    var upper, lower: cstring := [65], [97];
    a := Object(None, [True(Some(upper)), False(Some(lower))]);
    UpperAndLower(a.kids, upper, lower);
    TrueIsNotFalse(Some(upper), Some(lower));
    SameObjects(a, a, true);
    SameObjects(a, a, false);
    assert Found(a.kids[0], a.kids, true) && Found(a.kids[1], a.kids, true) && !Found(a.kids[1], a.kids, false);
  }

  lemma TrueIsNotFalse(name: Option<cstring>, other: Option<cstring>)
    ensures Same(True(name), True(name), true) && Same(False(other), False(other), true)
    ensures !Same(False(other), True(name), false)
  {
  }
}
