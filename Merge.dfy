/** The page merge: combining the held sections with a freshly fetched page.
    Incoming items whose identity is already held (or, when deletion caching is
    on, already deleted) are dropped; the rest go to the tail on a load-more
    page and to the head on a refresh, and the section total is recomputed with
    `max` so that it never falls below the number of items held. */
module Merge {
  import opened Model

  function Max(a: int, b: int): int {
    if a >= b then a else b
  }

  /** The incoming items whose identity occurs nowhere in `pool`, in incoming order. */
  function Fresh(incoming: seq<Item>, pool: seq<Item>): seq<Item>
    decreases |incoming|
  {
    if incoming == [] then []
    else
      var last := incoming[|incoming| - 1];
      Fresh(incoming[..|incoming| - 1], pool) + (if Matches(pool, last.identity) then [] else [last])
  }

  /** The matching pool of a merge: the held items, followed by the deleted-items
      cache when caching is on. */
  function Pool(held: Section, needCacheDeleted: bool, deletedItemsCache: seq<Item>): seq<Item> {
    if needCacheDeleted then held.items + deletedItemsCache else held.items
  }

  /** `mergeSection`: the held section `held` combined with the fetched `incoming`. */
  function MergedSection(held: Section, incoming: Section, loadMore: bool,
                         needCacheDeleted: bool, deletedItemsCache: seq<Item>): Section
  {
    var freshItems := Fresh(incoming.items, Pool(held, needCacheDeleted, deletedItemsCache));
    var items := if loadMore then held.items + freshItems else freshItems + held.items;
    var total := if loadMore then Max(incoming.model.totalCount, held.model.totalCount)
                 else Max(incoming.model.totalCount, held.model.totalCount + |freshItems|);
    Section(held.model.(totalCount := Max(total, |items|), canLoadMore := incoming.model.canLoadMore), items)
  }

  /** `mergeSection` as the source runs it: one pass over the incoming items,
      collecting those that find no match in the pool. For a matched item the
      source calls the `mergeUpdateItem` hook, which does nothing. */
  method MergeSection(held: Section, incoming: Section, loadMore: bool,
                      needCacheDeleted: bool, deletedItemsCache: seq<Item>) returns (r: Section)
    ensures r == MergedSection(held, incoming, loadMore, needCacheDeleted, deletedItemsCache)
  {
    var currentItems := held.items;
    var filterItems := currentItems;
    if needCacheDeleted {
      filterItems := filterItems + deletedItemsCache;
    }
    var newItems: seq<Item> := [];
    for n := 0 to |incoming.items|
      invariant newItems == Fresh(incoming.items[..n], filterItems)
    {
      var item := incoming.items[n];
      assert incoming.items[..n + 1][..n] == incoming.items[..n];
      if !Matches(filterItems, item.identity) {
        newItems := newItems + [item];
      }
    }
    assert incoming.items[..|incoming.items|] == incoming.items;
    var items, total;
    if loadMore {
      items := currentItems + newItems;
      total := Max(incoming.model.totalCount, held.model.totalCount);
    } else {
      items := newItems + currentItems;
      total := Max(incoming.model.totalCount, held.model.totalCount + |newItems|);
    }
    total := Max(total, |items|);
    r := Section(held.model.(totalCount := total, canLoadMore := incoming.model.canLoadMore), items);
  }

  /** An incoming item is freshItems exactly when its identity is not in the pool. */
  lemma {:induction false} FreshMembership(incoming: seq<Item>, pool: seq<Item>, x: Item)
    ensures x in Fresh(incoming, pool) <==> x in incoming && !Matches(pool, x.identity)
    decreases |incoming|
  {
    if incoming != [] {
      var init := incoming[..|incoming| - 1];
      FreshMembership(init, pool, x);
      assert incoming == init + [incoming[|incoming| - 1]];
    }
  }

  /** Fresh items keep their incoming order: selecting them distributes over
      concatenation. */
  lemma {:induction false} FreshConcat(a: seq<Item>, b: seq<Item>, pool: seq<Item>)
    ensures Fresh(a + b, pool) == Fresh(a, pool) + Fresh(b, pool)
    decreases |b|
  {
    if b != [] {
      var init := b[..|b| - 1];
      assert (a + b)[..|a + b| - 1] == a + init;
      assert (a + b)[|a + b| - 1] == b[|b| - 1];
      FreshConcat(a, init, pool);
    } else {
      assert a + b == a;
    }
  }

  lemma MatchesConcat(a: seq<Item>, b: seq<Item>, id: string)
    ensures Matches(a + b, id) <==> Matches(a, id) || Matches(b, id)
  {
    if Matches(a + b, id) {
      var t :| t in a + b && t.identity == id;
      assert t in a || t in b;
    }
    if Matches(a, id) {
      var t :| t in a && t.identity == id;
      assert t in a + b;
    }
    if Matches(b, id) {
      var t :| t in b && t.identity == id;
      assert t in a + b;
    }
  }

  /** What a section merge promises: it keeps the held section's identity,
      takes `canLoadMore` from the page, keeps every held item in its relative
      order (as a prefix on load-more, as a suffix on refresh), adds exactly the
      incoming items whose identity is neither held nor (when caching) deleted,
      and ends with a total no smaller than either total or the item count. */
  lemma MergedSectionProperties(held: Section, incoming: Section, loadMore: bool,
                                needCacheDeleted: bool, deletedItemsCache: seq<Item>)
    ensures var r := MergedSection(held, incoming, loadMore, needCacheDeleted, deletedItemsCache);
            && r.model.identity == held.model.identity
            && r.model.canLoadMore == incoming.model.canLoadMore
            && r.model.totalCount >= |r.items|
            && r.model.totalCount >= incoming.model.totalCount
            && r.model.totalCount >= held.model.totalCount
            && |r.items| >= |held.items|
            && (loadMore ==> r.items[..|held.items|] == held.items)
            && (!loadMore ==> r.items[|r.items| - |held.items|..] == held.items)
            && (forall x :: x in r.items ==>
                  x in held.items ||
                  (x in incoming.items && !Matches(held.items, x.identity) &&
                   !(needCacheDeleted && Matches(deletedItemsCache, x.identity))))
            && (forall x :: x in incoming.items ==>
                  x in r.items || Matches(held.items, x.identity) ||
                  (needCacheDeleted && Matches(deletedItemsCache, x.identity)))
  {
    var pool := Pool(held, needCacheDeleted, deletedItemsCache);
    var freshItems := Fresh(incoming.items, pool);
    var r := MergedSection(held, incoming, loadMore, needCacheDeleted, deletedItemsCache);
    assert r.items == if loadMore then held.items + freshItems else freshItems + held.items;
    forall x | x in r.items
      ensures x in held.items ||
              (x in incoming.items && !Matches(held.items, x.identity) &&
               !(needCacheDeleted && Matches(deletedItemsCache, x.identity)))
    {
      if x !in held.items {
        assert x in freshItems;
        FreshMembership(incoming.items, pool, x);
        if needCacheDeleted {
          MatchesConcat(held.items, deletedItemsCache, x.identity);
        }
      }
    }
    forall x | x in incoming.items
      ensures x in r.items || Matches(held.items, x.identity) ||
              (needCacheDeleted && Matches(deletedItemsCache, x.identity))
    {
      FreshMembership(incoming.items, pool, x);
      if needCacheDeleted {
        MatchesConcat(held.items, deletedItemsCache, x.identity);
      }
    }
  }

  /** With deletion caching on, a merge never brings back an identity that was
      deleted and is no longer held: the page's copy of it is ignored. */
  lemma CachedNotResurrected(held: Section, incoming: Section, loadMore: bool,
                             deletedItemsCache: seq<Item>, id: string)
    requires Matches(deletedItemsCache, id) && !Matches(held.items, id)
    ensures !Matches(MergedSection(held, incoming, loadMore, true, deletedItemsCache).items, id)
  {
    MergedSectionProperties(held, incoming, loadMore, true, deletedItemsCache);
  }

  /** The load-more example: held [A, B] with total 2, page [C] with total 3. */
  lemma LoadMoreExample(a: Item, b: Item, c: Item, id: string)
    requires a.identity == "A" && b.identity == "B" && c.identity == "C"
    ensures var held := Section(SectionModel(id, 2, true), [a, b]);
            var page := Section(SectionModel(id, 3, false), [c]);
            var r := MergedSection(held, page, true, false, []);
            r.items == [a, b, c] && r.model.totalCount == 3 && !r.model.canLoadMore
  {
    assert a.identity != c.identity by { assert a.identity[0] != c.identity[0]; }
    assert b.identity != c.identity by { assert b.identity[0] != c.identity[0]; }
    var held := Section(SectionModel(id, 2, true), [a, b]);
    var page := Section(SectionModel(id, 3, false), [c]);
    assert Pool(held, false, []) == [a, b];
    assert !Matches([a, b], c.identity);
    assert [c][..0] == [];
    assert Fresh([c], [a, b]) == [c];
    assert held.items + [c] == [a, b, c];
  }

  /** The refresh example: held [B] with total 5, page [A, B] with total 5; the
      total grows by the one new item. */
  lemma RefreshExample(a: Item, b: Item, b': Item, id: string)
    requires a.identity == "A" && b.identity == "B" && b'.identity == "B"
    ensures var held := Section(SectionModel(id, 5, true), [b]);
            var page := Section(SectionModel(id, 5, true), [a, b']);
            var r := MergedSection(held, page, false, false, []);
            r.items == [a, b] && r.model.totalCount == 6
  {
    assert [a, b'][..1] == [a];
    assert [a][..0] == [];
    assert a.identity != b.identity by { assert a.identity[0] != b.identity[0]; }
    assert !Matches([b], a.identity);
    assert Matches([b], b'.identity);
    assert Fresh([a], [b]) == [a];
    assert Fresh([a, b'], [b]) == [a];
  }

  /** `mergeSections` of the plain service: driven by the incoming page. */
  function MergedByIncoming(heldSections: seq<Section>, incoming: seq<Section>, loadMore: bool,
                            needCacheDeleted: bool, deletedItemsCache: seq<Item>): seq<Section>
  {
    seq(|incoming|, j requires 0 <= j < |incoming| =>
      match FirstWithIdentity(heldSections, incoming[j].model.identity)
      case Some(held) => MergedSection(held, incoming[j], loadMore, needCacheDeleted, deletedItemsCache)
      case None => incoming[j])
  }

  /** `mergeSections` of the observable service: driven by the held sections. */
  function MergedByOld(heldSections: seq<Section>, incoming: seq<Section>, loadMore: bool,
                       needCacheDeleted: bool, deletedItemsCache: seq<Item>): seq<Section>
  {
    seq(|heldSections|, j requires 0 <= j < |heldSections| =>
      match FirstWithIdentity(incoming, heldSections[j].model.identity)
      case Some(page) => MergedSection(heldSections[j], page, loadMore, needCacheDeleted, deletedItemsCache)
      case None => heldSections[j])
  }

  /** The incoming-driven merge yields one section per incoming section, in
      incoming order and with its identity: an incoming section with no held
      counterpart passes through unchanged, a matched one is merged with the
      first held section of that identity, and held-only sections are dropped. */
  lemma MergedByIncomingShape(heldSections: seq<Section>, incoming: seq<Section>, loadMore: bool,
                              needCacheDeleted: bool, deletedItemsCache: seq<Item>)
    ensures var r := MergedByIncoming(heldSections, incoming, loadMore, needCacheDeleted, deletedItemsCache);
            && |r| == |incoming|
            && (forall j :: 0 <= j < |incoming| ==> r[j].model.identity == incoming[j].model.identity)
            && (forall j :: 0 <= j < |incoming| ==>
                  (forall o :: o in heldSections ==> o.model.identity != incoming[j].model.identity) ==> r[j] == incoming[j])
            && (forall j :: 0 <= j < |incoming| ==>
                  (r[j].model.totalCount >= |r[j].items| ||
                   (r[j] == incoming[j] && forall o :: o in heldSections ==> o.model.identity != incoming[j].model.identity)))
  {
    var r := MergedByIncoming(heldSections, incoming, loadMore, needCacheDeleted, deletedItemsCache);
    forall j | 0 <= j < |incoming|
      ensures r[j].model.identity == incoming[j].model.identity
      ensures r[j].model.totalCount >= |r[j].items| ||
              (r[j] == incoming[j] && forall o :: o in heldSections ==> o.model.identity != incoming[j].model.identity)
    {
      match FirstWithIdentity(heldSections, incoming[j].model.identity) {
        case Some(held) =>
          MergedSectionProperties(held, incoming[j], loadMore, needCacheDeleted, deletedItemsCache);
        case None =>
      }
    }
  }

  /** The held-driven merge yields one section per held section, in held order
      and with its identity: a held section with no incoming counterpart is
      kept unchanged, a matched one is merged (keeping its held items as a
      prefix on load-more and a suffix on refresh, and holding no more items
      than its total), and incoming-only sections are dropped. */
  lemma MergedByOldShape(heldSections: seq<Section>, incoming: seq<Section>, loadMore: bool,
                         needCacheDeleted: bool, deletedItemsCache: seq<Item>)
    ensures var r := MergedByOld(heldSections, incoming, loadMore, needCacheDeleted, deletedItemsCache);
            && |r| == |heldSections|
            && (forall j :: 0 <= j < |heldSections| ==> r[j].model.identity == heldSections[j].model.identity)
            && (forall j :: 0 <= j < |heldSections| ==>
                  (forall p :: p in incoming ==> p.model.identity != heldSections[j].model.identity) ==> r[j] == heldSections[j])
            && (forall j :: 0 <= j < |heldSections| ==>
                  (exists p :: p in incoming && p.model.identity == heldSections[j].model.identity) ==>
                    && r[j].model.totalCount >= |r[j].items|
                    && |r[j].items| >= |heldSections[j].items|
                    && (loadMore ==> r[j].items[..|heldSections[j].items|] == heldSections[j].items)
                    && (!loadMore ==> r[j].items[|r[j].items| - |heldSections[j].items|..] == heldSections[j].items))
  {
    var r := MergedByOld(heldSections, incoming, loadMore, needCacheDeleted, deletedItemsCache);
    forall j | 0 <= j < |heldSections|
      ensures r[j].model.identity == heldSections[j].model.identity
      ensures (exists p :: p in incoming && p.model.identity == heldSections[j].model.identity) ==>
                && r[j].model.totalCount >= |r[j].items|
                && |r[j].items| >= |heldSections[j].items|
                && (loadMore ==> r[j].items[..|heldSections[j].items|] == heldSections[j].items)
                && (!loadMore ==> r[j].items[|r[j].items| - |heldSections[j].items|..] == heldSections[j].items)
    {
      match FirstWithIdentity(incoming, heldSections[j].model.identity) {
        case Some(page) =>
          MergedSectionProperties(heldSections[j], page, loadMore, needCacheDeleted, deletedItemsCache);
        case None =>
      }
    }
  }
}
