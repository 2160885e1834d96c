/** The two selection policies: replace-selection (`selectNew`) and toggle
    (`selectNext`), each addressed by position or by item identity. The source
    writes `didSelected` on shared item objects; here the item sequences are
    rebuilt with the flag set or flipped, which is the same thing as long as no
    item object sits at two positions. */
module Selection {
  import opened Model

  /** Replace-selection by position: exactly the targeted positions are selected. */
  predicate SelectsPositions(before: seq<Section>, indexs: seq<IndexPath>, after: seq<Section>) {
    && SameShape(before, after)
    && forall s, i :: 0 <= s < |before| && 0 <= i < |before[s].items| ==>
         i < |after[s].items| && after[s].items[i].didSelected == (IndexPath(s, i) in indexs)
  }

  /** Replace-selection by identity: exactly the items matching a target are selected. */
  predicate SelectsMatching(before: seq<Section>, targets: seq<Item>, after: seq<Section>) {
    && SameShape(before, after)
    && forall s, i :: 0 <= s < |before| && 0 <= i < |before[s].items| ==>
         i < |after[s].items| &&
         after[s].items[i].didSelected == Matches(targets, before[s].items[i].identity)
  }

  /** Toggle by identity: every item matching a target is flipped once, the others keep their flag. */
  predicate TogglesMatching(before: seq<Section>, targets: seq<Item>, after: seq<Section>) {
    && SameShape(before, after)
    && forall s, i :: 0 <= s < |before| && 0 <= i < |before[s].items| ==>
         i < |after[s].items| &&
         after[s].items[i].didSelected ==
           (before[s].items[i].didSelected != Matches(targets, before[s].items[i].identity))
  }

  /** Shape and flags determine a collection completely. */
  lemma {:induction false} ShapeAndFlagsDetermine(a: seq<Section>, b: seq<Section>, c: seq<Section>)
    requires SameShape(a, b) && SameShape(a, c)
    requires forall s, i :: 0 <= s < |a| && 0 <= i < |a[s].items| ==>
               i < |b[s].items| && i < |c[s].items| && b[s].items[i].didSelected == c[s].items[i].didSelected
    ensures b == c
  {
    forall s | 0 <= s < |b|
      ensures b[s] == c[s]
    {
      assert b[s].items == c[s].items by {
        forall i | 0 <= i < |b[s].items|
          ensures b[s].items[i] == c[s].items[i]
        {
          assert b[s].items[i].identity == a[s].items[i].identity == c[s].items[i].identity;
        }
      }
    }
  }

  /** `selectNew(indexs:)`: every item is visited and its flag set to whether its
      position is among the targets. */
  method SelectNewIndexes(indexs: seq<IndexPath>, sections: seq<Section>) returns (r: seq<Section>)
    ensures SelectsPositions(sections, indexs, r)
  {
    r := sections;
    for s := 0 to |sections|
      invariant |r| == |sections|
      invariant forall t :: s <= t < |sections| ==> r[t] == sections[t]
      invariant forall t :: 0 <= t < s ==>
                  r[t].model == sections[t].model && |r[t].items| == |sections[t].items|
      invariant forall t, i :: 0 <= t < s && 0 <= i < |sections[t].items| ==>
                  i < |r[t].items| &&
                  r[t].items[i] == sections[t].items[i].(didSelected := IndexPath(t, i) in indexs)
    {
      var items := sections[s].items;
      for i := 0 to |items|
        invariant |items| == |sections[s].items|
        invariant forall j :: i <= j < |items| ==> items[j] == sections[s].items[j]
        invariant forall j :: 0 <= j < i ==>
                    items[j] == sections[s].items[j].(didSelected := IndexPath(s, j) in indexs)
      {
        items := items[i := items[i].(didSelected := IndexPath(s, i) in indexs)];
      }
      r := r[s := sections[s].(items := items)];
    }
  }

  /** `selectNew(items:)`: every item is visited and its flag set to whether its
      identity equals some target's identity. */
  method SelectNewItems(targets: seq<Item>, sections: seq<Section>) returns (r: seq<Section>)
    ensures SelectsMatching(sections, targets, r)
  {
    r := sections;
    for s := 0 to |sections|
      invariant |r| == |sections|
      invariant forall t :: s <= t < |sections| ==> r[t] == sections[t]
      invariant forall t :: 0 <= t < s ==>
                  r[t].model == sections[t].model && |r[t].items| == |sections[t].items|
      invariant forall t, i :: 0 <= t < s && 0 <= i < |sections[t].items| ==>
                  i < |r[t].items| &&
                  r[t].items[i] == sections[t].items[i].(didSelected := Matches(targets, sections[t].items[i].identity))
    {
      var items := sections[s].items;
      for i := 0 to |items|
        invariant |items| == |sections[s].items|
        invariant forall j :: i <= j < |items| ==> items[j] == sections[s].items[j]
        invariant forall j :: 0 <= j < i ==>
                    items[j] == sections[s].items[j].(didSelected := Matches(targets, sections[s].items[j].identity))
      {
        items := items[i := items[i].(didSelected := Matches(targets, items[i].identity))];
      }
      r := r[s := sections[s].(items := items)];
    }
  }

  /** `selectNext(items:)`: every item whose identity matches a target is
      flipped once, however often that identity occurs among the targets. */
  method SelectNextItems(targets: seq<Item>, sections: seq<Section>) returns (r: seq<Section>)
    ensures TogglesMatching(sections, targets, r)
  {
    r := sections;
    for s := 0 to |sections|
      invariant |r| == |sections|
      invariant forall t :: s <= t < |sections| ==> r[t] == sections[t]
      invariant forall t :: 0 <= t < s ==>
                  r[t].model == sections[t].model && |r[t].items| == |sections[t].items|
      invariant forall t, i :: 0 <= t < s && 0 <= i < |sections[t].items| ==>
                  i < |r[t].items| &&
                  r[t].items[i] == sections[t].items[i].(didSelected :=
                    sections[t].items[i].didSelected != Matches(targets, sections[t].items[i].identity))
    {
      var items := sections[s].items;
      for i := 0 to |items|
        invariant |items| == |sections[s].items|
        invariant forall j :: i <= j < |items| ==> items[j] == sections[s].items[j]
        invariant forall j :: 0 <= j < i ==>
                    items[j] == sections[s].items[j].(didSelected :=
                      sections[s].items[j].didSelected != Matches(targets, sections[s].items[j].identity))
      {
        if Matches(targets, items[i].identity) {
          items := items[i := items[i].(didSelected := !items[i].didSelected)];
        }
      }
      r := r[s := sections[s].(items := items)];
    }
  }

  /** Toggling by identity twice with the same targets restores every flag. */
  lemma ToggleMatchingTwiceRestores(a: seq<Section>, targets: seq<Item>, b: seq<Section>, c: seq<Section>)
    requires TogglesMatching(a, targets, b) && TogglesMatching(b, targets, c)
    ensures c == a
  {
    assert SameShape(a, a);
    assert SameShape(a, c);
    ShapeAndFlagsDetermine(a, a, c);
  }

  /** Replace-selection by identity is determined by the targets alone and
      selecting again with the same targets changes nothing. */
  lemma SelectMatchingIdempotent(a: seq<Section>, targets: seq<Item>, b: seq<Section>, c: seq<Section>)
    requires SelectsMatching(a, targets, b) && SelectsMatching(b, targets, c)
    ensures c == b
  {
    assert SameShape(b, b);
    ShapeAndFlagsDetermine(b, b, c);
  }

  /** One toggle by position: flip the item at `index` when it is in range. */
  function Flipped(sections: seq<Section>, index: IndexPath): seq<Section> {
    if InRange(sections, index) then
      var sec := sections[index.section];
      var item := sec.items[index.item];
      sections[index.section := sec.(items := sec.items[index.item := item.(didSelected := !item.didSelected)])]
    else sections
  }

  /** The toggles of `indexs` applied one after the other, in list order. */
  function ToggledAll(sections: seq<Section>, indexs: seq<IndexPath>): seq<Section>
    decreases |indexs|
  {
    if indexs == [] then sections
    else Flipped(ToggledAll(sections, indexs[..|indexs| - 1]), indexs[|indexs| - 1])
  }

  /** `selectNext(indexs:)`: each listed position found by `find` is flipped. */
  method SelectNextIndexes(indexs: seq<IndexPath>, sections: seq<Section>) returns (r: seq<Section>)
    ensures r == ToggledAll(sections, indexs)
  {
    r := sections;
    for n := 0 to |indexs|
      invariant r == ToggledAll(sections, indexs[..n])
    {
      assert indexs[..n + 1][..n] == indexs[..n];
      var index := indexs[n];
      match Find(index, r) {
        case Some(item) =>
          var sec := r[index.section];
          r := r[index.section := sec.(items := sec.items[index.item := item.(didSelected := !item.didSelected)])];
        case None =>
      }
    }
    assert indexs[..|indexs|] == indexs;
  }

  /** Toggling by position adds and removes nothing and renames nothing. */
  lemma {:induction false} ToggledAllShape(sections: seq<Section>, indexs: seq<IndexPath>)
    ensures SameShape(sections, ToggledAll(sections, indexs))
    decreases |indexs|
  {
    if indexs != [] {
      ToggledAllShape(sections, indexs[..|indexs| - 1]);
    }
  }

  /** After toggling by position, an in-range item is flipped exactly when its
      position occurs an odd number of times in the list; out-of-range
      positions have no effect. */
  lemma {:induction false} ToggledAllParity(sections: seq<Section>, indexs: seq<IndexPath>, s: int, i: int)
    requires 0 <= s < |sections| && 0 <= i < |sections[s].items|
    ensures var t := ToggledAll(sections, indexs);
            s < |t| && i < |t[s].items| &&
            t[s].items[i].didSelected == (sections[s].items[i].didSelected != (multiset(indexs)[IndexPath(s, i)] % 2 == 1))
    decreases |indexs|
  {
    ToggledAllShape(sections, indexs);
    if indexs != [] {
      var prefix, last := indexs[..|indexs| - 1], indexs[|indexs| - 1];
      assert indexs == prefix + [last];
      ToggledAllParity(sections, prefix, s, i);
      ToggledAllShape(sections, prefix);
      assert multiset(indexs) == multiset(prefix) + multiset{last};
    }
  }

  /** Applying `selectNext(indexs:)` twice with the same list restores every flag. */
  lemma ToggledAllTwiceRestores(sections: seq<Section>, indexs: seq<IndexPath>)
    ensures ToggledAll(ToggledAll(sections, indexs), indexs) == sections
  {
    var once := ToggledAll(sections, indexs);
    var twice := ToggledAll(once, indexs);
    ToggledAllShape(sections, indexs);
    ToggledAllShape(once, indexs);
    assert SameShape(sections, sections);
    assert SameShape(sections, twice);
    forall s, i | 0 <= s < |sections| && 0 <= i < |sections[s].items|
      ensures twice[s].items[i].didSelected == sections[s].items[i].didSelected
    {
      ToggledAllParity(sections, indexs, s, i);
      ToggledAllParity(once, indexs, s, i);
    }
    ShapeAndFlagsDetermine(sections, sections, twice);
  }
}
