/** What becomes of the two comparisons when an object has two members of one name. */
module RepeatedNames {
  import opened Bytes
  import opened Items
  import opened Lists
  import opened Compare

  // ----- both sides of an equality have distinct names, or neither

  lemma {:induction false} EquivalentCarriesKeyed(a: Item, b: Item, tol: Tolerance)
    requires Keyed(a, true) && Equivalent(a, b, tol)
    ensures Keyed(b, true)
    decreases a
  {
    if a.Array? {
      forall k | k in b.kids ensures Keyed(k, true) {
        var i :| 0 <= i < |b.kids| && b.kids[i] == k;
        EquivalentCarriesKeyed(a.kids[i], k, tol);
      }
    } else if a.Object? {
      var p :| Permutation(p, |a.kids|) && Paired(a, b, tol, p);
      DistinctNamesPaired(a.kids, b.kids, p);
      forall k | k in b.kids ensures Keyed(k, true) {
        var j :| 0 <= j < |b.kids| && b.kids[j] == k;
        PermutationReaches(p, |a.kids|, j);
        var i :| 0 <= i < |a.kids| && p[i] == j;
        EquivalentCarriesKeyed(a.kids[i], k, tol);
      }
    }
  }

  /** With distinct names on one side, equality is acceptance by cJSON_Compare and distinct names on the other. */
  lemma EquivalentExactly(a: Item, b: Item)
    requires Keyed(a, true)
    ensures Equivalent(a, b, Rounding) <==> Same(a, b, true) && Keyed(b, true)
  {
    hide Same, Keyed, Equivalent;
    if Equivalent(a, b, Rounding) {
      EquivalentCarriesKeyed(a, b, Rounding);
    }
    if Keyed(b, true) {
      SameIsEquivalent(a, b);
    }
  }

  /**
   * On trees of integers, and with distinct names on the expected side,
   * compare_nodes accepts exactly what case-sensitive cJSON_Compare accepts
   * with distinct names on the actual side. So the two differ exactly when
   * cJSON_Compare accepts and the actual side repeats a name.
   */
  lemma ComparisonsDifferExactly(exp: Item, act: Item)
    requires Keyed(exp, true) && Integral(exp) && Integral(act) && RawFree(exp)
    ensures Accepts(exp, act) <==> Same(exp, act, true) && Keyed(act, true)
    ensures Accepts(exp, act) != Same(exp, act, true) <==> Same(exp, act, true) && !Keyed(act, true)
  {
    hide Accepts, Same, Keyed, Integral, RawFree, Equivalent;
    if Accepts(exp, act) {
      AcceptsIsEquivalent(exp, act);
      EquivalentCarriesKeyed(exp, act, Micro);
      ComparisonsAgree(exp, act);
    }
    if Same(exp, act, true) && Keyed(act, true) {
      ComparisonsAgree(exp, act);
    }
  }

  // ----- compare_nodes can be trusted exactly with distinct names on the expected side

  /** Every tree of the kinds that JSON has is equal to itself. */
  lemma {:induction false} EquivalentReflexive(a: Item, tol: Tolerance)
    requires RawFree(a) && HasTexts(a)
    ensures Equivalent(a, a, tol)
    decreases a
  {
    if a.Array? || a.Object? {
      forall i | 0 <= i < |a.kids| ensures Equivalent(a.kids[i], a.kids[i], tol) {
        EquivalentReflexive(a.kids[i], tol);
      }
      if a.Object? {
        var p := Identity(|a.kids|);
        assert Paired(a, a, tol, p);
      }
    }
  }

  /** The name of a tree's root plays no part in comparing it. */
  lemma RootName(a: Item, b: Item, key: Option<cstring>, tol: Tolerance)
    ensures Accepts(a, WithKey(b, key)) == Accepts(a, b)
    ensures Equivalent(a, WithKey(b, key), tol) == Equivalent(a, b, tol)
  {
    RootNameAccepted(a, b, key);
    RootNameEquivalent(a, b, key, tol);
  }

  lemma RootNameAccepted(a: Item, b: Item, key: Option<cstring>)
    ensures Accepts(a, WithKey(b, key)) == Accepts(a, b)
  {
    hide Within, Find;
  }

  lemma RootNameEquivalent(a: Item, b: Item, key: Option<cstring>, tol: Tolerance)
    ensures Equivalent(a, WithKey(b, key), tol) == Equivalent(a, b, tol)
  {
    hide Close, Permutation;
    var c := WithKey(b, key);
    if a.Object? && b.Object? && |a.kids| == |b.kids| {
      forall p | Permutation(p, |a.kids|) ensures Paired(a, c, tol, p) == Paired(a, b, tol, p) {
      }
    }
  }

  /** compare_nodes gives a wrong answer for `exp` against `act`. */
  ghost predicate Misjudged(exp: Item, act: Item) {
    Accepts(exp, act) != Equivalent(exp, act, Micro)
  }

  ghost predicate Untrusted(exp: Item) {
    exists act :: Misjudged(exp, act)
  }

  function Longest(kids: seq<Item>): (n: nat)
    ensures forall k :: k in kids && k.key.Some? ==> |k.key.value| <= n
  {
    if kids == [] then 0
    else
      var n := Longest(kids[1..]);
      if kids[0].key.Some? && |kids[0].key.value| > n then |kids[0].key.value| else n
  }

  /** A name that no child has. */
  function Unused(kids: seq<Item>): (name: cstring)
    ensures forall k :: k in kids ==> k.key != Some(name)
  {
    seq(Longest(kids) + 1, _ => SPACE)
  }

  /** The first stop of a lookup does not move when a child behind another of the same name gets a new one. */
  lemma {:induction false} FindRenamed(kids: seq<Item>, i: nat, j: nat, spare: cstring, name: cstring)
    requires i < j < |kids| && kids[i].key == kids[j].key && kids[i].key.Some?
    requires forall k :: k in kids ==> k.key.Some? && k.key != Some(spare)
    requires name != spare && exists k :: 0 <= k < |kids| && kids[k].key == Some(name)
    ensures Find(kids[j := WithKey(kids[j], Some(spare))], Some(name), true) == Find(kids, Some(name), true)
    ensures Find(kids, Some(name), true).Some? && Find(kids, Some(name), true).value != j
  {
    var f := FirstStop(kids, name, true);
    var renamed := kids[j := WithKey(kids[j], Some(spare))];
    var k :| 0 <= k < |kids| && kids[k].key == Some(name);
    assert Stops(kids[k], name, true);
    assert f <= k;
    assert kids[f].key == Some(name);
    if f == j {
      assert Stops(kids[i], name, true);
    }
    FirstStopIs(renamed, name, true, f);
  }

  /** A name occurs twice: with the second holder renamed the tree is still accepted, but no longer equal. */
  lemma {:induction false} RepeatedNameMisjudged(exp: Item, i: nat, j: nat)
    requires exp.Object? && i < j < |exp.kids| && exp.kids[i].key == exp.kids[j].key
    requires Accepts(exp, exp)
    ensures Untrusted(exp)
  {
    var kids := exp.kids;
    AllNamed(exp);
    var spare := Unused(kids);
    var act := exp.(kids := kids[j := WithKey(kids[j], Some(spare))]);
    forall k | 0 <= k < |kids|
      ensures var f := Find(act.kids, kids[k].key, true); f.Some? && Accepts(kids[k], act.kids[f.value])
    {
      assert kids[k] in kids;
      FindRenamed(kids, i, j, spare, kids[k].key.value);
    }
    assert Accepts(exp, act);
    forall p | Permutation(p, |kids|) ensures !Paired(exp, act, Micro, p) {
      PermutationReaches(p, |kids|, j);
      var k :| 0 <= k < |kids| && p[k] == j;
      assert kids[k] in kids && act.kids[j].key == Some(spare);
    }
    assert Misjudged(exp, act);
  }

  lemma AllNamed(exp: Item)
    requires exp.Object? && Accepts(exp, exp)
    ensures forall k :: k in exp.kids ==> k.key.Some?
  {
    forall k | k in exp.kids ensures k.key.Some? {
      var i :| 0 <= i < |exp.kids| && exp.kids[i] == k;
      assert Find(exp.kids, exp.kids[i].key, true).Some?;
    }
  }

  /** A wrong answer for a child makes a wrong answer for the parent. */
  lemma {:induction false} ElementMisjudged(exp: Item, i: nat)
    requires exp.Array? && i < |exp.kids| && Untrusted(exp.kids[i])
    requires RawFree(exp) && HasTexts(exp) && Accepts(exp, exp)
    ensures Untrusted(exp)
  {
    var kid :| Misjudged(exp.kids[i], kid);
    var act := exp.(kids := exp.kids[i := kid]);
    forall k | 0 <= k < |exp.kids| ensures Equivalent(exp.kids[k], exp.kids[k], Micro) {
      EquivalentReflexive(exp.kids[k], Micro);
    }
    assert Accepts(exp, act) <==> Accepts(exp.kids[i], kid) by {
      assert forall k :: 0 <= k < |exp.kids| && k != i ==> Accepts(exp.kids[k], act.kids[k]);
    }
    assert Equivalent(exp, act, Micro) <==> Equivalent(exp.kids[i], kid, Micro) by {
      assert forall k :: 0 <= k < |exp.kids| && k != i ==> Equivalent(exp.kids[k], act.kids[k], Micro);
    }
    assert Misjudged(exp, act);
  }

  lemma KidsAreFit(exp: Item)
    requires (exp.Array? || exp.Object?) && RawFree(exp) && HasTexts(exp)
    ensures forall k :: k in exp.kids ==> RawFree(k) && HasTexts(k)
  {
  }

  lemma {:induction false} MemberMisjudged(exp: Item, i: nat)
    requires exp.Object? && i < |exp.kids| && Untrusted(exp.kids[i]) && DistinctNames(exp.kids, true)
    requires RawFree(exp) && HasTexts(exp) && Accepts(exp, exp)
    ensures Untrusted(exp)
  {
    hide Accepts, Equivalent, Find;
    KidsAreFit(exp);
    var kids := exp.kids;
    var other :| Misjudged(kids[i], other);
    var kid := WithKey(other, kids[i].key);
    RootName(kids[i], other, kids[i].key, Micro);
    var act := exp.(kids := kids[i := kid]);
    forall k | 0 <= k < |kids| ensures Equivalent(kids[k], kids[k], Micro) {
      EquivalentReflexive(kids[k], Micro);
    }
    MemberAccepted(exp, act, i);
    MemberReplaced(exp, act, i);
    assert Misjudged(exp, act);
  }

  lemma MemberAccepted(exp: Item, act: Item, i: nat)
    requires exp.Object? && act.Object? && i < |exp.kids| == |act.kids|
    requires DistinctNames(exp.kids, true) && Accepts(exp, exp)
    requires act.kids == exp.kids[i := act.kids[i]] && act.kids[i].key == exp.kids[i].key
    ensures Accepts(exp, act) <==> Accepts(exp.kids[i], act.kids[i])
  {
    hide Find;
    var kids := exp.kids;
    forall k | 0 <= k < |kids|
      ensures Find(kids, kids[k].key, true) == Some(k) && Find(act.kids, kids[k].key, true) == Some(k)
    {
      FindUnique(kids, k, true);
      FindUnique(act.kids, k, true);
    }
    assert forall k :: 0 <= k < |kids| && k != i ==> Accepts(kids[k], act.kids[k]);
  }

  /** With distinct names there is only one way to pair the members. */
  lemma MemberReplaced(exp: Item, act: Item, i: nat)
    requires exp.Object? && act.Object? && i < |exp.kids| == |act.kids| && DistinctNames(exp.kids, true)
    requires forall k :: 0 <= k < |exp.kids| ==> act.kids[k].key == exp.kids[k].key
    requires forall k :: 0 <= k < |exp.kids| && k != i ==> Equivalent(exp.kids[k], act.kids[k], Micro)
    ensures Equivalent(exp, act, Micro) <==> Equivalent(exp.kids[i], act.kids[i], Micro)
  {
    hide DistinctNames, Equivalent, Permutation;
    if Equivalent(exp.kids[i], act.kids[i], Micro) {
      PairedInOrder(exp, act);
    }
    if Equivalent(exp, act, Micro) {
      var j := PartnerOf(exp, act, i);
      OneHolder(exp.kids, i, j);
    }
  }

  lemma PairedInOrder(exp: Item, act: Item)
    requires exp.Object? && act.Object? && |exp.kids| == |act.kids|
    requires forall k :: 0 <= k < |exp.kids| ==>
      act.kids[k].key == exp.kids[k].key && Equivalent(exp.kids[k], act.kids[k], Micro)
    ensures Equivalent(exp, act, Micro)
  {
    assert Paired(exp, act, Micro, Identity(|exp.kids|));
  }

  lemma PartnerOf(exp: Item, act: Item, i: nat) returns (j: nat)
    requires exp.Object? && act.Object? && Equivalent(exp, act, Micro) && i < |exp.kids|
    ensures j < |act.kids| && act.kids[j].key == exp.kids[i].key && Equivalent(exp.kids[i], act.kids[j], Micro)
  {
    var p :| Permutation(p, |exp.kids|) && Paired(exp, act, Micro, p);
    j := p[i];
  }

  lemma OneHolder(kids: seq<Item>, i: nat, j: nat)
    requires i < |kids| && j < |kids| && DistinctNames(kids, true) && kids[i].key == kids[j].key
    ensures i == j
  {
  }

  lemma {:induction false} UnkeyedIsUntrusted(exp: Item)
    requires RawFree(exp) && HasTexts(exp) && !Keyed(exp, true)
    ensures Untrusted(exp)
    decreases exp
  {
    EquivalentReflexive(exp, Micro);
    if !Accepts(exp, exp) {
      assert Misjudged(exp, exp);
    } else if i :| 0 <= i < |exp.kids| && !Keyed(exp.kids[i], true) {
      UnkeyedIsUntrusted(exp.kids[i]);
      if exp.Array? {
        ElementMisjudged(exp, i);
      } else if DistinctNames(exp.kids, true) {
        MemberMisjudged(exp, i);
      } else {
        TwoOfOneName(exp);
      }
    } else {
      TwoOfOneName(exp);
    }
  }

  lemma TwoOfOneName(exp: Item)
    requires exp.Object? && Accepts(exp, exp) && !DistinctNames(exp.kids, true)
    ensures Untrusted(exp)
  {
    hide Accepts, Untrusted, Equivalent, Keyed;
    AllNamed(exp);
    var i, j :| 0 <= i < j < |exp.kids| && SameName(exp.kids[i].key.value, exp.kids[j].key.value, true);
    RepeatedNameMisjudged(exp, i, j);
  }

  /**
   * compare_nodes decides equality against every actual tree if and only if no
   * object of the expected tree has a nameless member or repeats a name.
   */
  lemma TrustedExactly(exp: Item)
    requires RawFree(exp) && HasTexts(exp)
    ensures Keyed(exp, true) <==> forall act :: Accepts(exp, act) <==> Equivalent(exp, act, Micro)
  {
    hide Accepts, Equivalent, Keyed, RawFree, HasTexts;
    if Keyed(exp, true) {
      forall act ensures Accepts(exp, act) <==> Equivalent(exp, act, Micro) {
        AcceptsIsEquivalent(exp, act);
      }
    } else {
      UnkeyedIsUntrusted(exp);
      var act :| Misjudged(exp, act);
      assert Accepts(exp, act) != Equivalent(exp, act, Micro);
    }
  }

  // ----- both ways of going wrong do occur

  /** With a name twice on the expected side, compare_nodes may accept a tree that differs. */
  lemma RepeatedNameAccepts() returns (exp: Item, act: Item)
    ensures RawFree(exp) && HasTexts(exp) && Accepts(exp, act) && !Equivalent(exp, act, Micro)
  {
    var k, m: cstring := [107], [109];
    exp := Object(None, [True(Some(k)), True(Some(k))]);
    act := Object(None, [True(Some(k)), True(Some(m))]);
    assert Stops(act.kids[0], k, true);
    assert FirstStop(act.kids, k, true) == 0;
    assert Accepts(exp, act);
    forall p | Permutation(p, 2) ensures !Paired(exp, act, Micro, p) {
      assert p[0] != p[1];
      assert act.kids[1].key != exp.kids[0].key && act.kids[1].key != exp.kids[1].key;
    }
  }

  /** Members of one name are all held against the same member of the actual side. */
  lemma SameHolder(exp: Item, act: Item, i: nat, j: nat)
    requires exp.Object? && Accepts(exp, act) && i < |exp.kids| && j < |exp.kids| && exp.kids[i].key == exp.kids[j].key
    ensures act.Object? && exists k :: 0 <= k < |act.kids| && Accepts(exp.kids[i], act.kids[k])
                                       && Accepts(exp.kids[j], act.kids[k])
  {
    hide Find;
    var f := Find(act.kids, exp.kids[i].key, true);
    assert Accepts(exp.kids[i], act.kids[f.value]) && Accepts(exp.kids[j], act.kids[f.value]);
  }

  /** Or accept nothing at all, not even the same tree. */
  lemma RepeatedNameRejects() returns (exp: Item)
    ensures RawFree(exp) && HasTexts(exp) && Equivalent(exp, exp, Micro)
    ensures forall act :: !Accepts(exp, act)
  {
    var k: cstring := [107];
    exp := Object(None, [True(Some(k)), False(Some(k))]);
    EquivalentReflexive(exp, Micro);
    forall act ensures !Accepts(exp, act) {
      if Accepts(exp, act) {
        SameHolder(exp, act, 0, 1);
      }
    }
  }

  /** With a name twice on the actual side, cJSON_Compare may accept where compare_nodes does not. */
  lemma RepeatedNameDivides() returns (exp: Item, act: Item)
    ensures Keyed(exp, true) && Integral(exp) && Integral(act) && RawFree(exp)
    ensures Same(exp, act, true) && !Accepts(exp, act)
  {
    var k: cstring := [107];
    exp := Object(None, [True(Some(k))]);
    act := Object(None, [True(Some(k)), True(Some(k))]);
    assert FirstStop(exp.kids, k, true) == 0 && FirstStop(act.kids, k, true) == 0;
    assert Find(exp.kids, Some(k), true) == Some(0) && Find(act.kids, Some(k), true) == Some(0);
    assert Same(exp.kids[0], act.kids[0], true) && Same(act.kids[0], exp.kids[0], true)
      && Same(act.kids[1], exp.kids[0], true);
    assert Same(exp, act, true) && !Accepts(exp, act);
  }
}
