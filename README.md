# Section-list reconciliation engine

A Dafny model of the list services of the ReactorCollectionViewDemo app:
`BasicCollectionService` and its observable variant `RxBasicCollectionService`.
Both keep a two-level collection view model. It is a sequence of sections.
Each section has a header model (`identity`, `totalCount`, `canLoadMore`) and a
sequence of items (`identity`, `didSelected`). The services offer:

- safe positional lookup (`safeIndex`, `find` for one or many index paths);
- two selection policies: replace the selection, or toggle;
- structural edits: insert by index path, delete by identity or by position,
  update by identity, replace by position, and whole-section update;
- the page merge that folds a fetched page into the held sections;
- and, in the observable service, the response step that replaces or merges.

Layout:

- `Model.dfy` — value types (`Item`, `SectionModel`, `Section`, `IndexPath`,
  `Option`, `Result`) and the lookups.
- `Selection.dfy` — the four selection loops. Each is proved against a relation
  (`SelectsPositions`, `SelectsMatching`, `TogglesMatching`) or a fold
  (`ToggledAll`), together with the toggle/idempotence lemmas.
- `Mutation.dfy` — insert, both deletes, update, replace and section update. Each
  is a loop proved equal to a specification function, and the lemmas say what
  that function keeps, removes and counts.
- `Merge.dfy` — `mergeSection` (a loop proved equal to `MergedSection`) and
  the two `mergeSections` drivers, as `MergedByIncoming` (plain service) and
  `MergedByOld` (observable service).
- `Basic.dfy` — `BasicCollectionService` as a class. It owns the deleted-items
  cache and the flags, and dispatches to the engine.
- `Rx.dfy` — `RxBasicCollectionService` as a class. It holds `sections`, and
  every command replaces them with the engine's result.

The engine algorithms are written once. The plain and observable services have
line-for-line identical copies of them, and the table cites the plain service's
lines for them. The observable copies are at these lines:

- `selectNew(indexes:)` 251-262, `selectNext(indexes:)` 277-284
- `insert` 297-312, `delete(items:)` 314-333, `delete(indexes:)` 335-358
- `update(items:)` 360-373, `replace` 385-398
- `find` 400-413, `mergeSection` 428-454

The two copies differ in only two places, and both are modelled:

- **Which side drives `mergeSections`.** The plain service loops over the
  incoming page (`Merge.MergedByIncoming`). The observable one loops over the
  held sections (`Merge.MergedByOld`).
- **The load-more test.** The plain service treats `page > 0` as load-more. The
  observable service passes `page > 1` from `handleResponse`.

Quirks of the source that the model reproduces:

- `insert` accepts only `0 <= item < count`, so appending at the end or into an
  empty section is skipped.
- `insert` reads each section from the input list, not the accumulating result.
  So for a section hit by several valid keys, only the last key in sorted order
  takes effect (`Mutation.LastApplied`).
- `find(indexs:)` stores "not found" by assigning nil, which removes the key.
- `safeIndex` guards on `count > abs(i)` and then scans for the offset.
- `mergeUpdateItem` is an empty hook, so a matched incoming item has no effect.

## Model

| member | source | states |
|---|---|---|
| Model.SafeIndex | ReactorCollectionViewDemo/ReactorCollectionViewDemo/BasicCollectionView/BasicCollectionService.swift:24-34 | yields the element at offset i exactly when 0 <= i < count, and nothing for a negative or too large i or an empty collection |
| Model.Find | ReactorCollectionViewDemo/ReactorCollectionViewDemo/BasicCollectionView/BasicCollectionService.swift:254-259 | yields an item iff both the section and the item position are in range, and then it is the item at that position |
| Model.FindMany | ReactorCollectionViewDemo/ReactorCollectionViewDemo/BasicCollectionView/BasicCollectionService.swift:261-267 | the result's keys are exactly the listed positions that are in range, each mapped to the item there |
| Model.FirstWithIdentity | ReactorCollectionViewDemo/ReactorCollectionViewDemo/BasicCollectionView/BasicCollectionService.swift:276 | `filter{identity}.first`: the first section with the identity, and none iff no section has it |
| Selection.SelectNewIndexes | ReactorCollectionViewDemo/ReactorCollectionViewDemo/BasicCollectionView/BasicCollectionService.swift:139-150 | shape kept (sections, models, lengths, identities), and an item is selected iff its (section, row) is listed |
| Selection.SelectNextIndexes | ReactorCollectionViewDemo/ReactorCollectionViewDemo/BasicCollectionView/BasicCollectionService.swift:152-159 | the result equals toggling each listed position in turn, out-of-range positions ignored |
| Selection.ToggledAllShape | ReactorCollectionViewDemo/ReactorCollectionViewDemo/BasicCollectionView/BasicCollectionService.swift:152-159 | toggling by position adds, removes or reorders nothing |
| Selection.ToggledAllParity | ReactorCollectionViewDemo/ReactorCollectionViewDemo/BasicCollectionView/BasicCollectionService.swift:152-159 | an in-range item ends flipped iff its position occurs an odd number of times in the list |
| Selection.ToggledAllTwiceRestores | ReactorCollectionViewDemo/ReactorCollectionViewDemo/BasicCollectionView/BasicCollectionService.swift:152-159 | toggling twice with the same list restores every flag |
| Selection.SelectNewItems | ReactorCollectionViewDemo/ReactorCollectionViewDemo/RxBasicCollectionView/RxBasicCollectionService.swift:264-275 | shape kept, and an item is selected iff some target has its identity |
| Selection.SelectNextItems | ReactorCollectionViewDemo/ReactorCollectionViewDemo/RxBasicCollectionView/RxBasicCollectionService.swift:286-295 | shape kept, and an item's flag is flipped iff some target has its identity, however often it repeats |
| Selection.ToggleMatchingTwiceRestores | ReactorCollectionViewDemo/ReactorCollectionViewDemo/RxBasicCollectionView/RxBasicCollectionService.swift:286-295 | toggling by identity twice with the same targets gives back the original sections |
| Selection.SelectMatchingIdempotent | ReactorCollectionViewDemo/ReactorCollectionViewDemo/RxBasicCollectionView/RxBasicCollectionService.swift:264-275 | selecting by identity a second time changes nothing |
| Mutation.Least | ReactorCollectionViewDemo/ReactorCollectionViewDemo/BasicCollectionView/BasicCollectionService.swift:162 | a least key of a non-empty key set in the (section, item) order |
| Mutation.SortedKeys | ReactorCollectionViewDemo/ReactorCollectionViewDemo/BasicCollectionView/BasicCollectionService.swift:162 | the dictionary's keys, each once, in strictly increasing (section, item) order |
| Mutation.InsertedAt | ReactorCollectionViewDemo/ReactorCollectionViewDemo/BasicCollectionView/BasicCollectionService.swift:166-170 | inserting at i gives one more item, the new item at i, the rest shifted, and totalCount + 1 |
| Mutation.Insert | ReactorCollectionViewDemo/ReactorCollectionViewDemo/BasicCollectionView/BasicCollectionService.swift:161-176 | section count kept; a section with no valid key is unchanged, and one with valid keys is the input section with only the last valid key's item inserted; `find` at that key then yields the inserted item |
| Mutation.DeleteItems | ReactorCollectionViewDemo/ReactorCollectionViewDemo/BasicCollectionView/BasicCollectionService.swift:178-197 | section count kept; each section keeps its unmatched items in order with its total lowered by the number removed, and the removed items are returned in traversal order |
| Mutation.DeleteFromSection | ReactorCollectionViewDemo/ReactorCollectionViewDemo/BasicCollectionView/BasicCollectionService.swift:181-194 | one section: its unmatched items in order, its total lowered by one per removal, and the removed items in order |
| Mutation.KeptRemovedPartition | ReactorCollectionViewDemo/ReactorCollectionViewDemo/BasicCollectionView/BasicCollectionService.swift:183-192 | kept and removed items together account for every item of the section |
| Mutation.KeptMembership | ReactorCollectionViewDemo/ReactorCollectionViewDemo/BasicCollectionView/BasicCollectionService.swift:183-192 | an item is kept iff no target has its identity, and removed iff some target does |
| Mutation.KeptConcat | ReactorCollectionViewDemo/ReactorCollectionViewDemo/BasicCollectionView/BasicCollectionService.swift:183-186 | keeping the unmatched items of a concatenation keeps those of each part in turn, so the kept items stay in their original order |
| Mutation.DeleteUnmatchedUnchanged | ReactorCollectionViewDemo/ReactorCollectionViewDemo/BasicCollectionView/BasicCollectionService.swift:178-197 | a section none of whose items is targeted comes back unchanged |
| Mutation.DeleteIndexes | ReactorCollectionViewDemo/ReactorCollectionViewDemo/BasicCollectionView/BasicCollectionService.swift:199-222 | section count kept; each section keeps the items at untargeted positions of the input snapshot and loses one from its total per removal; removed items are returned in order |
| Mutation.RemovedAtCount | ReactorCollectionViewDemo/ReactorCollectionViewDemo/BasicCollectionView/BasicCollectionService.swift:205-214 | the number removed from a section is the number of distinct targeted in-range positions in it, and the kept count is the rest |
| Mutation.DeleteAtUntargetedUnchanged | ReactorCollectionViewDemo/ReactorCollectionViewDemo/BasicCollectionView/BasicCollectionService.swift:201-219 | a section with no targeted position comes back unchanged, so out-of-range indices are ignored |
| Mutation.FirstMatch | ReactorCollectionViewDemo/ReactorCollectionViewDemo/BasicCollectionView/BasicCollectionService.swift:229 | `filter{identity}.first` over the targets: the first target with the identity, present iff one matches |
| Mutation.UpdatedSections | ReactorCollectionViewDemo/ReactorCollectionViewDemo/BasicCollectionView/BasicCollectionService.swift:224-237 | shape and models kept; a matched item becomes the first target with its identity and an unmatched item is kept |
| Mutation.UpdateItems | ReactorCollectionViewDemo/ReactorCollectionViewDemo/BasicCollectionView/BasicCollectionService.swift:224-237 | the loop's result is the update specification |
| Mutation.UpdateIdempotent | ReactorCollectionViewDemo/ReactorCollectionViewDemo/BasicCollectionView/BasicCollectionService.swift:224-237 | updating twice with the same targets equals updating once |
| Mutation.ReplaceItems | ReactorCollectionViewDemo/ReactorCollectionViewDemo/BasicCollectionView/BasicCollectionService.swift:239-252 | the loop's result is the replace specification |
| Mutation.ReplaceFind | ReactorCollectionViewDemo/ReactorCollectionViewDemo/BasicCollectionView/BasicCollectionService.swift:239-252 | models and lengths kept; `find` afterwards yields the target at a targeted existing position, the old item elsewhere, nothing out of range |
| Mutation.UpdatedSectionList | ReactorCollectionViewDemo/ReactorCollectionViewDemo/RxBasicCollectionView/RxBasicCollectionService.swift:375-383 | length and order kept; a section with a same-identity new section becomes one of them, and the others are kept |
| Mutation.UpdateSections | ReactorCollectionViewDemo/ReactorCollectionViewDemo/RxBasicCollectionView/RxBasicCollectionService.swift:375-383 | the loop's result is the section-update specification |
| Merge.MergeSection | ReactorCollectionViewDemo/ReactorCollectionViewDemo/BasicCollectionView/BasicCollectionService.swift:286-312 | the loop over incoming items computes the merge specification |
| Merge.FreshMembership | ReactorCollectionViewDemo/ReactorCollectionViewDemo/BasicCollectionView/BasicCollectionService.swift:295-301 | an incoming item is added iff its identity is neither held nor, when caching, deleted |
| Merge.FreshConcat | ReactorCollectionViewDemo/ReactorCollectionViewDemo/BasicCollectionView/BasicCollectionService.swift:295-301 | the new items of a concatenated page are those of each part in turn, so new items keep their incoming order |
| Merge.MergedSectionProperties | ReactorCollectionViewDemo/ReactorCollectionViewDemo/BasicCollectionView/BasicCollectionService.swift:286-312 | identity kept; `canLoadMore` from the page; held items kept in order as prefix (load-more) or suffix (refresh); only new incoming items added, every incoming item present or already matched; total >= both totals and >= item count |
| Merge.CachedNotResurrected | ReactorCollectionViewDemo/ReactorCollectionViewDemo/BasicCollectionView/BasicCollectionService.swift:289-301 | with caching on, an identity that was deleted and is not held does not come back through a merge |
| Merge.LoadMoreExample | ReactorCollectionViewDemo/ReactorCollectionViewDemo/RxBasicCollectionView/RxBasicCollectionService.swift:444-453 | held [A,B] total 2 with page [C] total 3 on load-more gives [A,B,C] total 3 |
| Merge.RefreshExample | ReactorCollectionViewDemo/ReactorCollectionViewDemo/RxBasicCollectionView/RxBasicCollectionService.swift:447-451 | held [B] total 5 with page [A,B] total 5 on refresh gives [A,B] total 6 |
| Merge.MergedByIncomingShape | ReactorCollectionViewDemo/ReactorCollectionViewDemo/BasicCollectionView/BasicCollectionService.swift:273-284 | one section per incoming section in incoming order; unmatched incoming sections pass through; held-only sections dropped; merged ones hold no more items than their total |
| Merge.MergedByOldShape | ReactorCollectionViewDemo/ReactorCollectionViewDemo/RxBasicCollectionView/RxBasicCollectionService.swift:415-426 | one section per held section in held order; unmatched held sections kept; incoming-only sections dropped; merged ones keep their held items in order, as a prefix on load-more and a suffix on refresh, and hold no more items than their total |
| Basic.BasicCollectionService.constructor | ReactorCollectionViewDemo/ReactorCollectionViewDemo/BasicCollectionView/BasicCollectionService.swift:114-116 | empty cache, caching and toggle mode off |
| Basic.BasicCollectionService.Select | ReactorCollectionViewDemo/ReactorCollectionViewDemo/BasicCollectionView/BasicCollectionService.swift:131-137 | toggles the listed positions when `isSelectedForNext`, else selects exactly the listed positions |
| Basic.BasicCollectionService.DeleteItems | ReactorCollectionViewDemo/ReactorCollectionViewDemo/BasicCollectionView/BasicCollectionService.swift:178-197 | the delete-by-identity result; the cache gains the removed items in order iff `needCacheDeleted`, else it is unchanged |
| Basic.BasicCollectionService.DeleteIndexes | ReactorCollectionViewDemo/ReactorCollectionViewDemo/BasicCollectionView/BasicCollectionService.swift:199-222 | the delete-by-position result; the cache gains the removed items in order iff `needCacheDeleted` |
| Basic.BasicCollectionService.MergeSection | ReactorCollectionViewDemo/ReactorCollectionViewDemo/BasicCollectionView/BasicCollectionService.swift:286-312 | the merge with load-more iff page > 0; total >= item count; held items as prefix (page > 0) or suffix |
| Basic.BasicCollectionService.MergeSections | ReactorCollectionViewDemo/ReactorCollectionViewDemo/BasicCollectionView/BasicCollectionService.swift:273-284 | the incoming-driven merge with load-more iff page > 0 |
| Rx.RxBasicCollectionService.constructor | ReactorCollectionViewDemo/ReactorCollectionViewDemo/RxBasicCollectionView/RxBasicCollectionService.swift:54-59 | empty sections and cache, every flag off |
| Rx.RxBasicCollectionService.SaveSections | ReactorCollectionViewDemo/ReactorCollectionViewDemo/RxBasicCollectionView/RxBasicCollectionService.swift:68-71 | the given sections become the held ones and are returned |
| Rx.RxBasicCollectionService.HandleResponse | ReactorCollectionViewDemo/ReactorCollectionViewDemo/RxBasicCollectionView/RxBasicCollectionService.swift:219-229 | a failure is returned unchanged; a page <= 1 without page caching replaces the sections; otherwise the held-driven merge with load-more iff page > 1, which keeps the held sections' count and identities |
| Rx.RxBasicCollectionService.FetchData | ReactorCollectionViewDemo/ReactorCollectionViewDemo/RxBasicCollectionView/RxBasicCollectionService.swift:73-91 | the handled response is returned; on success it becomes the held sections, and on failure they are unchanged |
| Rx.RxBasicCollectionService.SelectIndexesIn | ReactorCollectionViewDemo/ReactorCollectionViewDemo/RxBasicCollectionView/RxBasicCollectionService.swift:235-241 | toggles the listed positions when `isSelectedNext`, else selects exactly them |
| Rx.RxBasicCollectionService.SelectItemsIn | ReactorCollectionViewDemo/ReactorCollectionViewDemo/RxBasicCollectionView/RxBasicCollectionService.swift:243-249 | toggles the matching items when `isSelectedNext`, else selects exactly the matching ones |
| Rx.RxBasicCollectionService.SelectIndexes | ReactorCollectionViewDemo/ReactorCollectionViewDemo/RxBasicCollectionView/RxBasicCollectionService.swift:127-143 | sections unchanged unless `isSelectedForReloadData`; otherwise the chosen selection by position is applied to the held sections |
| Rx.RxBasicCollectionService.SelectItems | ReactorCollectionViewDemo/ReactorCollectionViewDemo/RxBasicCollectionView/RxBasicCollectionService.swift:109-125 | sections unchanged unless `isSelectedForReloadData`; otherwise the chosen selection by identity is applied to the held sections |
| Rx.RxBasicCollectionService.Insert | ReactorCollectionViewDemo/ReactorCollectionViewDemo/RxBasicCollectionView/RxBasicCollectionService.swift:145-155 | the held sections become the insert outcome of the previous ones |
| Rx.RxBasicCollectionService.DeleteItems | ReactorCollectionViewDemo/ReactorCollectionViewDemo/RxBasicCollectionView/RxBasicCollectionService.swift:157-167 | the held sections become the delete-by-identity result; the cache grows by the removed items iff caching is on |
| Rx.RxBasicCollectionService.DeleteIndexes | ReactorCollectionViewDemo/ReactorCollectionViewDemo/RxBasicCollectionView/RxBasicCollectionService.swift:169-179 | the held sections become the delete-by-position result; the cache grows by the removed items iff caching is on |
| Rx.RxBasicCollectionService.UpdateItems | ReactorCollectionViewDemo/ReactorCollectionViewDemo/RxBasicCollectionView/RxBasicCollectionService.swift:181-191 | the held sections become the update result, with the same shape |
| Rx.RxBasicCollectionService.UpdateSections | ReactorCollectionViewDemo/ReactorCollectionViewDemo/RxBasicCollectionView/RxBasicCollectionService.swift:193-203 | the held sections become the section-update result, with the same count |
| Rx.RxBasicCollectionService.Replace | ReactorCollectionViewDemo/ReactorCollectionViewDemo/RxBasicCollectionView/RxBasicCollectionService.swift:205-215 | the held sections become the replace result |
| Rx.RxBasicCollectionService.MergeSection | ReactorCollectionViewDemo/ReactorCollectionViewDemo/RxBasicCollectionView/RxBasicCollectionService.swift:428-454 | the merge with the given load-more flag; total >= item count; held items as prefix or suffix |
| Rx.RxBasicCollectionService.MergeSections | ReactorCollectionViewDemo/ReactorCollectionViewDemo/RxBasicCollectionView/RxBasicCollectionService.swift:415-426 | the held-driven merge |

## Left out

- The reactive plumbing is not modelled: `Observable` wrappers, the `event` subject and the events each command emits. Each command is modelled by its state change and its result.
- The notice-only selection branch (`isSelectedForReloadData` false) only emits an event. It is modelled as leaving the sections unchanged.
- `request` (the network fetch) and `localSections` (persistence) are not modelled. `FetchData` takes the fetched `Result` as a parameter.
- `sort`, `group` and the observable `sort()` command are identity stubs and are not modelled. So is `fetchSections`, which only reads `sections`.
- The layout fields `cellSize`, `headerSize` and `footerSize` are not modelled. They are floating-point sizes with no role in the logic.
- The item payload beyond `identity` and `didSelected` is not modelled. A subclass's extra fields travel with the item unchanged.
- `mergeUpdateItem` is an empty hook and is modelled as doing nothing. An override in a subclass is not modelled.
- Reference aliasing is not modelled. Items and section models are Swift class instances, so in the source:
  - a selection also changes the caller's item objects;
  - `totalCount` writes in delete, insert and merge also reach the caller's section model;
  - one item object held at two positions is flipped twice.
  
  The model treats sections and items as values, and every operation returns new values.
- Mutation.Insert: because of write-through on the shared section model, the source raises the total once per valid key of a section, even though only the last key's item survives. The model raises it once per surviving insertion.
- Basic.BasicCollectionService.MergeSections: when two incoming sections share an identity, both merge with the same held section. In the source they then share its model object, so the second merge's total and `canLoadMore` also show in the first result. For example, held X with total 5 and pages X/10/[a] and X/3/[b] give 10 twice in the source, but 10 and 5 in the model. The model merges each incoming section independently.
- Rx.RxBasicCollectionService.FetchData is modelled as one atomic step: read the held sections, handle the response, save. In the source, an asynchronous `request` override lets another command save in between, and this save then overwrites it.
- Swift `Int` overflow of `totalCount` is not modelled, nor the trap of `abs(Int.min)` in `safeIndex`. Integers are unbounded.
