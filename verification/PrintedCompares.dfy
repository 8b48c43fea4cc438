/** When a tree that went through its text compares equal to what it was. */
module PrintedCompares {
  import opened Bytes
  import opened CLibrary
  import opened Items
  import opened Parser
  import opened RoundTrip
  import opened Lists
  import opened Compare
  import opened RepeatedNames

  /** strtod reads what was printed for any number of the tree as one that compare_double takes for equal. */
  predicate NumbersClose(lib: CLib, item: Item)
    decreases item
  {
    match item
    case Number(_, d) => Near(lib.strtod(NumberText(lib, d)).value, d)
    case Array(_, kids) => forall k :: k in kids ==> NumbersClose(lib, k)
    case Object(_, kids) => forall k :: k in kids ==> NumbersClose(lib, k)
    case _ => true
  }

  /** The same of what "%1.17g" writes, for the numbers that are not 32-bit integers. */
  predicate SeventeenDigitsDo(lib: CLib, item: Item)
    decreases item
  {
    match item
    case Number(_, d) => d == Saturate(d) as real || Near(lib.strtod(lib.format17(d)).value, d)
    case Array(_, kids) => forall k :: k in kids ==> SeventeenDigitsDo(lib, k)
    case Object(_, kids) => forall k :: k in kids ==> SeventeenDigitsDo(lib, k)
    case _ => true
  }

  /** Whatever 17 digits can do, the choice between "%d", 15 and 17 digits does not spoil it. */
  lemma {:induction false} NumbersAreClose(lib: CLib, item: Item)
    requires SeventeenDigitsDo(lib, item)
    ensures NumbersClose(lib, item)
    decreases item
  {
    if item.Number? {
      if item.d == Saturate(item.d) as real {
        IntegersAreRecovered(lib, Saturate(item.d));
      }
    } else if item.Array? || item.Object? {
      forall k | k in item.kids ensures NumbersClose(lib, k) {
        NumbersAreClose(lib, k);
      }
    }
  }

  lemma {:induction false} ElementsAt(lib: CLib, kids: seq<Item>, i: nat)
    requires i < |kids|
    ensures |ElementsAsParsed(lib, kids)| == |kids| && ElementsAsParsed(lib, kids)[i] == AsParsed(lib, kids[i])
  {
    hide AsParsed;
    if |kids| > 1 {
      ElementsAt(lib, kids[1..], if i > 0 then i - 1 else 0);
    }
  }

  lemma {:induction false} MembersAt(lib: CLib, kids: seq<Item>, i: nat)
    requires i < |kids|
    ensures |MembersAsParsed(lib, kids)| == |kids|
    ensures MembersAsParsed(lib, kids)[i] == WithKey(AsParsed(lib, kids[i]), Some(OrEmpty(kids[i].key)))
  {
    hide AsParsed;
    if |kids| > 1 {
      MembersAt(lib, kids[1..], if i > 0 then i - 1 else 0);
    }
  }

  /** The children of a tree that was parsed back, and the names they have. */
  lemma KidsAsParsed(lib: CLib, item: Item)
    requires item.Array? || item.Object?
    ensures
      var r := AsParsed(lib, item);
      && (r.Array? <==> item.Array?) && (r.Object? <==> item.Object?) && |r.kids| == |item.kids|
      && forall i :: 0 <= i < |item.kids| ==>
           r.kids[i] == WithKey(AsParsed(lib, item.kids[i]),
                                if item.Array? then None else Some(OrEmpty(item.kids[i].key)))
  {
    hide ElementsAsParsed, MembersAsParsed;
    if item.kids == [] {
      NothingAsParsed(lib);
    }
    forall i | 0 <= i < |item.kids|
      ensures
        |ElementsAsParsed(lib, item.kids)| == |item.kids| == |MembersAsParsed(lib, item.kids)|
        && ElementsAsParsed(lib, item.kids)[i] == AsParsed(lib, item.kids[i])
        && MembersAsParsed(lib, item.kids)[i] == WithKey(AsParsed(lib, item.kids[i]), Some(OrEmpty(item.kids[i].key)))
    {
      ElementsAt(lib, item.kids, i);
      MembersAt(lib, item.kids, i);
    }
  }

  lemma NothingAsParsed(lib: CLib)
    ensures ElementsAsParsed(lib, []) == [] && MembersAsParsed(lib, []) == []
  {
  }

  lemma {:induction false} ParsedIsKeyed(lib: CLib, item: Item)
    requires Keyed(item, true)
    ensures Keyed(AsParsed(lib, item), true)
    decreases item
  {
    hide AsParsed, DistinctNames;
    if item.Array? || item.Object? {
      KidsAsParsed(lib, item);
      var r := AsParsed(lib, item);
      if item.Object? {
        SameNamesDistinct(item.kids, r.kids);
      }
      forall k | k in r.kids ensures Keyed(k, true) {
        var i :| 0 <= i < |r.kids| && r.kids[i] == k;
        ParsedIsKeyed(lib, item.kids[i]);
        RenamedIsKeyed(AsParsed(lib, item.kids[i]), k.key);
      }
    } else {
      ScalarAsParsed(lib, item);
    }
  }

  lemma SameNamesDistinct(a: seq<Item>, b: seq<Item>)
    requires DistinctNames(a, true) && |a| == |b|
    requires forall i :: 0 <= i < |a| ==> b[i].key == Some(OrEmpty(a[i].key))
    ensures DistinctNames(b, true)
  {
  }

  lemma RenamedIsKeyed(item: Item, key: Option<cstring>)
    ensures Keyed(WithKey(item, key), true) == Keyed(item, true)
  {
    hide DistinctNames;
  }

  lemma ScalarAsParsed(lib: CLib, item: Item)
    requires !item.Array? && !item.Object?
    ensures !AsParsed(lib, item).Array? && !AsParsed(lib, item).Object?
    ensures RawFree(item) ==>
      (Equivalent(item, AsParsed(lib, item), Rounding) <==> HasTexts(item) && NumbersClose(lib, item))
  {
    hide NumberText, Near;
    if item.Number? {
      NearEitherWay(item.d, lib.strtod(NumberText(lib, item.d)).value);
    }
  }

  lemma NearEitherWay(a: real, b: real)
    ensures Near(a, b) <==> Near(b, a)
  {
  }

  lemma {:induction false} EquivalentToParsed(lib: CLib, item: Item)
    requires RawFree(item) && Keyed(item, true)
    ensures Equivalent(item, AsParsed(lib, item), Rounding) <==> HasTexts(item) && NumbersClose(lib, item)
    decreases item
  {
    hide AsParsed, Equivalent, RawFree, Keyed, HasTexts, NumbersClose, DistinctNames;
    if item.Array? || item.Object? {
      var r := AsParsed(lib, item);
      KidsAsParsed(lib, item);
      KidsAreKeyed(item);
      forall i | 0 <= i < |item.kids|
        ensures Equivalent(item.kids[i], r.kids[i], Rounding)
                <==> HasTexts(item.kids[i]) && NumbersClose(lib, item.kids[i])
      {
        EquivalentToParsed(lib, item.kids[i]);
        RootName(item.kids[i], AsParsed(lib, item.kids[i]), r.kids[i].key, Rounding);
      }
      EquivalentKidByKid(item, r);
      AllKidsFit(lib, item);
    } else {
      ScalarAsParsed(lib, item);
    }
  }

  lemma KidsAreKeyed(item: Item)
    requires (item.Array? || item.Object?) && RawFree(item) && Keyed(item, true)
    ensures forall i :: 0 <= i < |item.kids| ==> RawFree(item.kids[i]) && Keyed(item.kids[i], true)
    ensures item.Object? ==> DistinctNames(item.kids, true)
  {
    hide DistinctNames;
  }

  lemma AllKidsFit(lib: CLib, item: Item)
    requires item.Array? || item.Object?
    ensures HasTexts(item) && NumbersClose(lib, item) <==>
      forall i :: 0 <= i < |item.kids| ==> HasTexts(item.kids[i]) && NumbersClose(lib, item.kids[i])
  {
    assert forall k :: k in item.kids <==> exists i :: 0 <= i < |item.kids| && item.kids[i] == k;
  }

  /** Lists with the same distinct names in the same places are equal if and only if their children are, in order. */
  lemma {:induction false} EquivalentKidByKid(a: Item, b: Item)
    requires (a.Array? && b.Array?) || (a.Object? && b.Object?)
    requires |a.kids| == |b.kids|
    requires a.Object? ==> DistinctNames(a.kids, true)
    requires a.Object? ==> forall i :: 0 <= i < |a.kids| ==> b.kids[i].key == Some(OrEmpty(a.kids[i].key))
    ensures Equivalent(a, b, Rounding) <==>
      forall i :: 0 <= i < |a.kids| ==> Equivalent(a.kids[i], b.kids[i], Rounding)
  {
    if a.Object? && |a.kids| > 0 {
      forall i | 0 <= i < |a.kids| ensures b.kids[i].key == a.kids[i].key {
      }
      if forall i :: 0 <= i < |a.kids| ==> Equivalent(a.kids[i], b.kids[i], Rounding) {
        assert Paired(a, b, Rounding, Identity(|a.kids|));
      }
      if Equivalent(a, b, Rounding) {
        var p :| Permutation(p, |a.kids|) && Paired(a, b, Rounding, p);
        forall i | 0 <= i < |a.kids| ensures p[i] == i {
          OneHolder(a.kids, i, p[i]);
        }
      }
    } else if a.Object? {
      assert Paired(a, b, Rounding, []);
    }
  }

  /**
   * Printing a tree with distinct names and parsing the output gives a tree
   * that case-sensitive cJSON_Compare takes for equal if and only if no string
   * was NULL and every number is read back up to rounding.
   */
  lemma PrintThenParseCompares(lib: CLib, layout: Layout, item: Item)
    requires RawFree(item) && Printable(lib, item, 0) && ValidLayout(layout) && Keyed(item, true)
    ensures
      var r := ParseText(lib, Text(lib, layout, item, 0) + [NUL], true);
      r.Ok? && (Same(item, r.item, true) <==> HasTexts(item) && NumbersClose(lib, item))
  {
    hide Text, AsParsed, Same, Equivalent, Keyed, HasTexts, NumbersClose, RawFree, Printable, ParseText;
    PrintThenParse(lib, layout, item, true);
    ParsedIsKeyed(lib, item);
    EquivalentToParsed(lib, item);
    SameIsEquivalent(item, AsParsed(lib, item));
  }
}
