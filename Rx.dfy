/** The observable list service. It holds the current `sections` itself; every
    public command reads them, computes the new list with the same
    reconciliation engine as the plain service, and saves the result. The
    event stream that reports each command is not modelled. */
module Rx {
  import opened Model
  import Selection
  import Mutation
  import Merge

  class RxBasicCollectionService {
    var deletedItemsCache: seq<Item>
    var sections: seq<Section>
    var needCacheDeleted: bool
    /** Selection policy: toggle when true, replace-selection when false. */
    var isSelectedNext: bool
    /** When false, a selection command only reports the tapped item. */
    var isSelectedForReloadData: bool
    /** When true, even a first page is merged into the held sections. */
    var isCachePageData: bool

    constructor ()
      ensures deletedItemsCache == [] && sections == []
      ensures !needCacheDeleted && !isSelectedNext && !isSelectedForReloadData && !isCachePageData
    {
      deletedItemsCache := [];
      sections := [];
      needCacheDeleted := false;
      isSelectedNext := false;
      isSelectedForReloadData := false;
      isCachePageData := false;
    }

    /** `saveSections`: the given list becomes the held one. */
    method SaveSections(newSections: seq<Section>) returns (saved: seq<Section>)
      modifies this`sections
      ensures sections == newSections && saved == newSections
    {
      sections := newSections;
      saved := newSections;
    }

    /** `handleResponse`: a failed fetch is passed on unchanged; a first page
        (page 1 or below) replaces the held sections unless page caching is on;
        any other page is merged into the held sections, driven by them, as a
        load-more exactly when the page number is above 1. */
    function HandleResponse(response: Result<seq<Section>>, page: int, current: seq<Section>): (r: Result<seq<Section>>)
      reads this
      ensures response.Failure? ==> r == response
      ensures response.Success? ==> r.Success?
      ensures response.Success? && page <= 1 && !isCachePageData ==> r == response
      ensures response.Success? && (page > 1 || isCachePageData) ==>
                && r.value == Merge.MergedByOld(current, response.value, page > 1, needCacheDeleted, deletedItemsCache)
                && |r.value| == |current|
                && forall j :: 0 <= j < |current| ==> r.value[j].model.identity == current[j].model.identity
    {
      match response
      case Failure(_) => response
      case Success(value) =>
        var isLoadMore := page > 1;
        if isLoadMore || isCachePageData then
          Merge.MergedByOldShape(current, value, isLoadMore, needCacheDeleted, deletedItemsCache);
          Success(Merge.MergedByOld(current, value, isLoadMore, needCacheDeleted, deletedItemsCache))
        else
          Success(value)
    }

    /** `fetchData(page:)` with the fetch itself as a parameter: the handled
        response is saved on success, and a failure leaves the held sections
        untouched. */
    method FetchData(page: int, response: Result<seq<Section>>) returns (result: Result<seq<Section>>)
      modifies this`sections
      ensures result == old(HandleResponse(response, page, sections))
      ensures result.Success? ==> sections == result.value
      ensures result.Failure? ==> sections == old(sections) && result == response
    {
      result := HandleResponse(response, page, sections);
      if result.Success? {
        var saved := SaveSections(result.value);
      }
    }

    /** `select(indexes:sections:)`: the policy chosen by `isSelectedNext`. */
    method SelectIndexesIn(indexes: seq<IndexPath>, current: seq<Section>) returns (r: seq<Section>)
      ensures isSelectedNext ==> r == Selection.ToggledAll(current, indexes)
      ensures !isSelectedNext ==> Selection.SelectsPositions(current, indexes, r)
    {
      if isSelectedNext {
        r := Selection.SelectNextIndexes(indexes, current);
      } else {
        r := Selection.SelectNewIndexes(indexes, current);
      }
    }

    /** `select(items:sections:)`: the policy chosen by `isSelectedNext`. */
    method SelectItemsIn(items: seq<Item>, current: seq<Section>) returns (r: seq<Section>)
      ensures isSelectedNext ==> Selection.TogglesMatching(current, items, r)
      ensures !isSelectedNext ==> Selection.SelectsMatching(current, items, r)
    {
      if isSelectedNext {
        r := Selection.SelectNextItems(items, current);
      } else {
        r := Selection.SelectNewItems(items, current);
      }
    }

    /** `select(indexes:)`: only a notice (state unchanged) unless
        `isSelectedForReloadData`; otherwise the selection is applied and saved. */
    method SelectIndexes(indexes: seq<IndexPath>)
      modifies this`sections
      ensures !isSelectedForReloadData ==> sections == old(sections)
      ensures isSelectedForReloadData && isSelectedNext ==> sections == Selection.ToggledAll(old(sections), indexes)
      ensures isSelectedForReloadData && !isSelectedNext ==> Selection.SelectsPositions(old(sections), indexes, sections)
    {
      if isSelectedForReloadData {
        var r := SelectIndexesIn(indexes, sections);
        var saved := SaveSections(r);
      }
    }

    /** `select(items:)`: only a notice (state unchanged) unless
        `isSelectedForReloadData`; otherwise the selection is applied and saved. */
    method SelectItems(items: seq<Item>)
      modifies this`sections
      ensures !isSelectedForReloadData ==> sections == old(sections)
      ensures isSelectedForReloadData && isSelectedNext ==> Selection.TogglesMatching(old(sections), items, sections)
      ensures isSelectedForReloadData && !isSelectedNext ==> Selection.SelectsMatching(old(sections), items, sections)
    {
      if isSelectedForReloadData {
        var r := SelectItemsIn(items, sections);
        var saved := SaveSections(r);
      }
    }

    /** `insert(items:)` applied to the held sections and saved. */
    method Insert(items: map<IndexPath, Item>)
      modifies this`sections
      ensures Mutation.InsertOutcome(items, items.Keys, old(sections), sections)
    {
      var r := Mutation.Insert(items, sections);
      var saved := SaveSections(r);
    }

    /** `delete(items:)` applied to the held sections and saved; removed items
        go to the cache when caching is on. */
    method DeleteItems(items: seq<Item>)
      modifies this`sections, this`deletedItemsCache
      ensures |sections| == |old(sections)|
      ensures forall s :: 0 <= s < |sections| ==> sections[s] == Mutation.DeletedSection(old(sections)[s], items)
      ensures deletedItemsCache == old(deletedItemsCache) +
                (if needCacheDeleted then Mutation.RemovedFromAll(old(sections), items) else [])
    {
      var r, removed := Mutation.DeleteItems(items, sections);
      if needCacheDeleted {
        deletedItemsCache := deletedItemsCache + removed;
      }
      var saved := SaveSections(r);
    }

    /** `delete(indexes:)` applied to the held sections and saved; removed
        items go to the cache when caching is on. */
    method DeleteIndexes(indexes: seq<IndexPath>)
      modifies this`sections, this`deletedItemsCache
      ensures |sections| == |old(sections)|
      ensures forall s :: 0 <= s < |sections| ==> sections[s] == Mutation.DeletedAtSection(old(sections)[s], s, indexes)
      ensures deletedItemsCache == old(deletedItemsCache) +
                (if needCacheDeleted then Mutation.RemovedAtAll(old(sections), indexes) else [])
    {
      var r, removed := Mutation.DeleteIndexes(indexes, sections);
      if needCacheDeleted {
        deletedItemsCache := deletedItemsCache + removed;
      }
      var saved := SaveSections(r);
    }

    /** `update(items:)` applied to the held sections and saved. */
    method UpdateItems(items: seq<Item>)
      modifies this`sections
      ensures sections == Mutation.UpdatedSections(items, old(sections))
      ensures SameShape(old(sections), sections)
    {
      var r := Mutation.UpdateItems(items, sections);
      var saved := SaveSections(r);
    }

    /** `update(sections:)` applied to the held sections and saved. */
    method UpdateSections(newSections: seq<Section>)
      modifies this`sections
      ensures sections == Mutation.UpdatedSectionList(newSections, old(sections))
      ensures |sections| == |old(sections)|
    {
      var r := Mutation.UpdateSections(newSections, sections);
      var saved := SaveSections(r);
    }

    /** `replace(items:)` applied to the held sections and saved. */
    method Replace(items: map<IndexPath, Item>)
      modifies this`sections
      ensures sections == Mutation.ReplacedSections(items, old(sections))
    {
      var r := Mutation.ReplaceItems(items, sections);
      var saved := SaveSections(r);
    }

    /** `mergeSection(_:with:isLoadMore:)`. */
    method MergeSection(held: Section, incoming: Section, isLoadMore: bool) returns (r: Section)
      ensures r == Merge.MergedSection(held, incoming, isLoadMore, needCacheDeleted, deletedItemsCache)
      ensures r.model.totalCount >= |r.items| && r.model.canLoadMore == incoming.model.canLoadMore
      ensures isLoadMore ==> |r.items| >= |held.items| && r.items[..|held.items|] == held.items
      ensures !isLoadMore ==> |r.items| >= |held.items| && r.items[|r.items| - |held.items|..] == held.items
    {
      r := Merge.MergeSection(held, incoming, isLoadMore, needCacheDeleted, deletedItemsCache);
      Merge.MergedSectionProperties(held, incoming, isLoadMore, needCacheDeleted, deletedItemsCache);
    }

    /** `mergeSections(_:with:isLoadMore:)`: one pass over the HELD sections;
        each is merged with the first incoming section of its identity, or kept
        when there is none. */
    method MergeSections(heldSections: seq<Section>, incoming: seq<Section>, isLoadMore: bool) returns (r: seq<Section>)
      ensures r == Merge.MergedByOld(heldSections, incoming, isLoadMore, needCacheDeleted, deletedItemsCache)
    {
      r := [];
      for j := 0 to |heldSections|
        invariant |r| == j
        invariant forall t :: 0 <= t < j ==>
                    r[t] == Merge.MergedByOld(heldSections, incoming, isLoadMore, needCacheDeleted, deletedItemsCache)[t]
      {
        var held := heldSections[j];
        match FirstWithIdentity(incoming, held.model.identity) {
          case Some(section) =>
            var merged := MergeSection(held, section, isLoadMore);
            r := r + [merged];
          case None =>
            r := r + [held];
        }
      }
    }
  }
}
