/** The plain list service. It computes new section lists from the ones it is
    given and owns only the deleted-items cache and two mode flags. */
module Basic {
  import opened Model
  import Selection
  import Mutation
  import Merge

  class BasicCollectionService {
    /** Items removed by a delete while `needCacheDeleted` was on. */
    var deletedItemsCache: seq<Item>
    var needCacheDeleted: bool
    /** Selection policy: toggle when true, replace-selection when false. */
    var isSelectedForNext: bool

    constructor ()
      ensures deletedItemsCache == [] && !needCacheDeleted && !isSelectedForNext
    {
      deletedItemsCache := [];
      needCacheDeleted := false;
      isSelectedForNext := false;
    }

    /** `select(indexs:sections:)`: toggle the listed positions, or select
        exactly the listed positions, as `isSelectedForNext` says. */
    method Select(indexs: seq<IndexPath>, sections: seq<Section>) returns (r: seq<Section>)
      ensures isSelectedForNext ==> r == Selection.ToggledAll(sections, indexs)
      ensures !isSelectedForNext ==> Selection.SelectsPositions(sections, indexs, r)
    {
      if isSelectedForNext {
        r := Selection.SelectNextIndexes(indexs, sections);
      } else {
        r := Selection.SelectNewIndexes(indexs, sections);
      }
    }

    /** `delete(items:sections:)`: remove every item whose identity matches a
        target, and append the removed items to the cache when caching is on. */
    method DeleteItems(items: seq<Item>, sections: seq<Section>) returns (r: seq<Section>)
      modifies this`deletedItemsCache
      ensures |r| == |sections|
      ensures forall s :: 0 <= s < |sections| ==> r[s] == Mutation.DeletedSection(sections[s], items)
      ensures deletedItemsCache == old(deletedItemsCache) +
                (if needCacheDeleted then Mutation.RemovedFromAll(sections, items) else [])
    {
      var removed;
      r, removed := Mutation.DeleteItems(items, sections);
      if needCacheDeleted {
        deletedItemsCache := deletedItemsCache + removed;
      }
    }

    /** `delete(indexs:sections:)`: remove the items at the targeted positions
        of the input snapshot, and cache them when caching is on. */
    method DeleteIndexes(indexs: seq<IndexPath>, sections: seq<Section>) returns (r: seq<Section>)
      modifies this`deletedItemsCache
      ensures |r| == |sections|
      ensures forall s :: 0 <= s < |sections| ==> r[s] == Mutation.DeletedAtSection(sections[s], s, indexs)
      ensures deletedItemsCache == old(deletedItemsCache) +
                (if needCacheDeleted then Mutation.RemovedAtAll(sections, indexs) else [])
    {
      var removed;
      r, removed := Mutation.DeleteIndexes(indexs, sections);
      if needCacheDeleted {
        deletedItemsCache := deletedItemsCache + removed;
      }
    }

    /** `mergeSection(_:with:page:)`: any page number above 0 counts as load-more. */
    method MergeSection(held: Section, incoming: Section, page: int) returns (r: Section)
      ensures r == Merge.MergedSection(held, incoming, page > 0, needCacheDeleted, deletedItemsCache)
      ensures r.model.totalCount >= |r.items| && r.model.canLoadMore == incoming.model.canLoadMore
      ensures page > 0 ==> |r.items| >= |held.items| && r.items[..|held.items|] == held.items
      ensures page <= 0 ==> |r.items| >= |held.items| && r.items[|r.items| - |held.items|..] == held.items
    {
      r := Merge.MergeSection(held, incoming, page > 0, needCacheDeleted, deletedItemsCache);
      Merge.MergedSectionProperties(held, incoming, page > 0, needCacheDeleted, deletedItemsCache);
    }

    /** `mergeSections(_:with:page:)`: one pass over the INCOMING sections; each
        is merged with the first held section of its identity, or passed
        through when there is none. */
    method MergeSections(heldSections: seq<Section>, incoming: seq<Section>, page: int) returns (r: seq<Section>)
      ensures r == Merge.MergedByIncoming(heldSections, incoming, page > 0, needCacheDeleted, deletedItemsCache)
    {
      r := [];
      for j := 0 to |incoming|
        invariant |r| == j
        invariant forall t :: 0 <= t < j ==>
                    r[t] == Merge.MergedByIncoming(heldSections, incoming, page > 0, needCacheDeleted, deletedItemsCache)[t]
      {
        var section := incoming[j];
        match FirstWithIdentity(heldSections, section.model.identity) {
          case Some(held) =>
            var merged := MergeSection(held, section, page);
            r := r + [merged];
          case None =>
            r := r + [section];
        }
      }
    }
  }
}
