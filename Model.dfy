/** Value types of the list-reconciliation engine and the safe positional lookups
    that every other component goes through. */
module Model {

  datatype Option<T> = None | Some(value: T)

  /** What a page fetch delivers: the fetched sections, or the fetch error. */
  datatype Result<T> = Success(value: T) | Failure(error: string)

  /** A list element. Matching and merging look only at `identity`; the layout
      size of a cell is not modelled. */
  datatype Item = Item(identity: string, didSelected: bool)

  /** The per-section header data: `totalCount` is the server-side count, which
      may exceed the number of items loaded so far. */
  datatype SectionModel = SectionModel(identity: string, totalCount: int, canLoadMore: bool)

  datatype Section = Section(model: SectionModel, items: seq<Item>)

  /** A (section, item) position; both parts are plain integers and may be
      negative or past the end. */
  datatype IndexPath = IndexPath(section: int, item: int)

  /** The order `<` of index paths: section first, then item. */
  predicate Precedes(a: IndexPath, b: IndexPath) {
    a.section < b.section || (a.section == b.section && a.item < b.item)
  }

  /** The element at offset `i`, or None when `i` is not a valid offset. */
  function At<T>(s: seq<T>, i: int): Option<T> {
    if 0 <= i < |s| then Some(s[i]) else None
  }

  predicate InRange(sections: seq<Section>, index: IndexPath) {
    0 <= index.section < |sections| && 0 <= index.item < |sections[index.section].items|
  }

  /** `after` has the sections, models, lengths and item identities of `before`:
      only the selection flags (or other item fields) may differ. */
  predicate SameShape(before: seq<Section>, after: seq<Section>) {
    && |before| == |after|
    && (forall s :: 0 <= s < |before| ==>
          before[s].model == after[s].model && |before[s].items| == |after[s].items|)
    && (forall s, i :: 0 <= s < |before| && 0 <= i < |before[s].items| ==>
          i < |after[s].items| && before[s].items[i].identity == after[s].items[i].identity)
  }

  /** Does some target carry this identity? */
  predicate Matches(targets: seq<Item>, identity: string) {
    exists t :: t in targets && t.identity == identity
  }

  /** The safe lookup as the source writes it: a guard on `abs(i)` and then a
      scan of the enumerated offsets for `i`. */
  method SafeIndex<T>(s: seq<T>, i: int) returns (r: Option<T>)
    ensures 0 <= i < |s| ==> r == Some(s[i])
    ensures i < 0 || |s| <= i ==> r == None
  {
    var magnitude := if i < 0 then -i else i;
    if |s| == 0 || |s| <= magnitude {
      return None;
    }
    var offset := 0;
    while offset < |s|
      invariant 0 <= offset <= |s|
      invariant 0 <= i ==> offset <= i
    {
      if offset == i {
        return Some(s[offset]);
      }
      offset := offset + 1;
    }
    return None;
  }

  /** Two-level safe lookup: the item at `index`, or None when either part of
      the position is out of range. */
  function Find(index: IndexPath, sections: seq<Section>): (r: Option<Item>)
    ensures r.Some? <==> InRange(sections, index)
    ensures r.Some? ==> r.value == sections[index.section].items[index.item]
  {
    match At(sections, index.section)
    case Some(section) => At(section.items, index.item)
    case None => None
  }

  /** Batch lookup. Storing "not found" under a key removes the key, so the
      result holds exactly the in-range positions of `indexs`. */
  method FindMany(indexs: seq<IndexPath>, sections: seq<Section>) returns (result: map<IndexPath, Item>)
    ensures forall k :: k in result <==> k in indexs && InRange(sections, k)
    ensures forall k :: k in result ==> InRange(sections, k) && result[k] == sections[k.section].items[k.item]
  {
    result := map[];
    for n := 0 to |indexs|
      invariant forall k :: k in result <==> k in indexs[..n] && InRange(sections, k)
      invariant forall k :: k in result ==> InRange(sections, k) && result[k] == sections[k.section].items[k.item]
    {
      var index := indexs[n];
      match Find(index, sections) {
        case Some(item) =>
          result := result[index := item];
        case None =>
          result := result - {index};
      }
    }
  }

  /** The first section of `secs` whose model carries `identity`. */
  function FirstWithIdentity(secs: seq<Section>, identity: string): (r: Option<Section>)
    ensures r.Some? ==> r.value in secs && r.value.model.identity == identity
    ensures r.None? <==> forall sec :: sec in secs ==> sec.model.identity != identity
    ensures r.Some? ==> exists j :: 0 <= j < |secs| && secs[j] == r.value &&
                          forall k :: 0 <= k < j ==> secs[k].model.identity != identity
  {
    if secs == [] then None
    else if secs[0].model.identity == identity then Some(secs[0])
    else
      var rest := FirstWithIdentity(secs[1..], identity);
      assert forall sec :: sec in secs ==> sec == secs[0] || sec in secs[1..];
      if rest.Some? then
        var j :| 0 <= j < |secs[1..]| && secs[1..][j] == rest.value &&
                 forall k :: 0 <= k < j ==> secs[1..][k].model.identity != identity;
        assert secs[j + 1] == rest.value;
        rest
      else rest
  }
}
