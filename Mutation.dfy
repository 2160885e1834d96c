/** Structural edits of a section list: insert by position, delete by identity
    or by position, update by identity, replace by position, and (in the
    observable service) update of whole sections by identity. Every target
    that names no existing item or section is skipped without an error. */
module Mutation {
  import opened Model

  // ----- insert -----------------------------------------------------------

  /** Strictly ascending in the order `<` of index paths. */
  predicate Increasing(ks: seq<IndexPath>) {
    forall a, b :: 0 <= a < b < |ks| ==> Precedes(ks[a], ks[b])
  }

  /** The smallest key of a non-empty set of index paths. */
  method Least(keys: set<IndexPath>) returns (least: IndexPath)
    requires keys != {}
    ensures least in keys
    ensures forall k :: k in keys && k != least ==> Precedes(least, k)
  {
    least :| least in keys;
    var todo := keys - {least};
    while todo != {}
      invariant least in keys && least !in todo && todo <= keys
      invariant forall k :: k in keys && k !in todo && k != least ==> Precedes(least, k)
      decreases todo
    {
      var k :| k in todo;
      if Precedes(k, least) {
        least := k;
      }
      todo := todo - {k};
    }
  }

  /** The keys of an index-path dictionary in ascending order, as
      `sorted(by: { $0.key < $1.key })` delivers them. */
  method SortedKeys<V>(m: map<IndexPath, V>) returns (ks: seq<IndexPath>)
    ensures Increasing(ks)
    ensures forall k :: k in ks <==> k in m
  {
    ks := [];
    var rest := m.Keys;
    while rest != {}
      invariant rest <= m.Keys
      invariant forall k :: k in ks <==> k in m && k !in rest
      invariant Increasing(ks)
      invariant forall a, k :: 0 <= a < |ks| && k in rest ==> Precedes(ks[a], k)
      decreases rest
    {
      var least := Least(rest);
      ks := ks + [least];
      rest := rest - {least};
    }
  }

  /** A key that `insert` applies: its section exists and its item position is
      strictly below the section's item count (so appending at the end, and
      inserting into an empty section, are both skipped). */
  predicate Applies(keys: set<IndexPath>, sections: seq<Section>, k: IndexPath) {
    k in keys && 0 <= k.section < |sections| && 0 <= k.item < |sections[k.section].items|
  }

  /** `i` is the largest applying item position of section `s`: the target that
      comes last, in ascending key order, among those for section `s`. */
  ghost predicate LastApplied(keys: set<IndexPath>, sections: seq<Section>, s: int, i: int) {
    && Applies(keys, sections, IndexPath(s, i))
    && forall j :: Applies(keys, sections, IndexPath(s, j)) ==> j <= i
  }

  /** A section with `item` inserted before position `i` and one more in its total. */
  function InsertedAt(sec: Section, i: int, item: Item): (r: Section)
    requires 0 <= i <= |sec.items|
    ensures r.model == sec.model.(totalCount := sec.model.totalCount + 1)
    ensures |r.items| == |sec.items| + 1 && r.items[i] == item
    ensures forall j :: 0 <= j < i ==> r.items[j] == sec.items[j]
    ensures forall j :: i < j < |r.items| ==> r.items[j] == sec.items[j - 1]
  {
    Section(sec.model.(totalCount := sec.model.totalCount + 1), sec.items[..i] + [item] + sec.items[i..])
  }

  /** What `insert` leaves behind once the keys in `keys` are processed: every
      section with an applying key is the ORIGINAL section with the item of its
      last applying key inserted (each step re-reads the section from the input,
      so earlier inserts into the same section are overwritten); all other
      sections are unchanged. */
  ghost predicate InsertOutcome(targets: map<IndexPath, Item>, keys: set<IndexPath>, sections: seq<Section>, r: seq<Section>)
    requires keys <= targets.Keys
  {
    && |r| == |sections|
    && forall s :: 0 <= s < |sections| ==> SectionOutcome(targets, keys, sections, r, s)
  }

  /** The part of `InsertOutcome` about section `s`. */
  ghost predicate SectionOutcome(targets: map<IndexPath, Item>, keys: set<IndexPath>, sections: seq<Section>,
                                 r: seq<Section>, s: int)
    requires keys <= targets.Keys && 0 <= s < |sections| && |r| == |sections|
  {
    || ((forall j :: !Applies(keys, sections, IndexPath(s, j))) && r[s] == sections[s])
    || (exists i :: LastApplied(keys, sections, s, i) &&
                    r[s] == InsertedAt(sections[s], i, targets[IndexPath(s, i)]))
  }

  /** Processing one more key, larger than every key processed so far, keeps
      `InsertOutcome`. */
  lemma InsertStep(targets: map<IndexPath, Item>, done: set<IndexPath>, key: IndexPath,
                   sections: seq<Section>, r: seq<Section>)
    requires done <= targets.Keys && key in targets
    requires InsertOutcome(targets, done, sections, r)
    requires forall k :: k in done ==> Precedes(k, key)
    ensures Applies({key}, sections, key) ==>
              InsertOutcome(targets, done + {key}, sections,
                            r[key.section := InsertedAt(sections[key.section], key.item, targets[key])])
    ensures !Applies({key}, sections, key) ==> InsertOutcome(targets, done + {key}, sections, r)
  {
    var done' := done + {key};
    var touched := Applies({key}, sections, key);
    var r' := if touched
              then r[key.section := InsertedAt(sections[key.section], key.item, targets[key])]
              else r;
    assert |r'| == |sections|;
    forall s | 0 <= s < |sections|
      ensures SectionOutcome(targets, done', sections, r', s)
    {
      if touched && s == key.section {
        assert key == IndexPath(s, key.item);
        forall j | Applies(done', sections, IndexPath(s, j))
          ensures j <= key.item
        {
          if IndexPath(s, j) != key {
            assert Precedes(IndexPath(s, j), key);
          }
        }
        assert LastApplied(done', sections, s, key.item);
        assert r'[s] == InsertedAt(sections[s], key.item, targets[IndexPath(s, key.item)]);
      } else {
        assert r'[s] == r[s];
        forall j
          ensures Applies(done', sections, IndexPath(s, j)) == Applies(done, sections, IndexPath(s, j))
        {
          if IndexPath(s, j) == key {
            assert !touched;
          }
        }
        assert SectionOutcome(targets, done, sections, r, s);
        if exists i :: LastApplied(done, sections, s, i) &&
                       r[s] == InsertedAt(sections[s], i, targets[IndexPath(s, i)]) {
          var i :| LastApplied(done, sections, s, i) && r[s] == InsertedAt(sections[s], i, targets[IndexPath(s, i)]);
          assert LastApplied(done', sections, s, i);
        }
      }
    }
    assert InsertOutcome(targets, done', sections, r');
  }

  /** `insert(items:)`: the targets in ascending key order; each applying one
      inserts into a copy of the section taken from the INPUT list. */
  method Insert(targets: map<IndexPath, Item>, sections: seq<Section>) returns (r: seq<Section>)
    ensures InsertOutcome(targets, targets.Keys, sections, r)
    ensures forall s, i :: LastApplied(targets.Keys, sections, s, i) ==>
              Find(IndexPath(s, i), r) == Some(targets[IndexPath(s, i)])
  {
    var sorted := SortedKeys(targets);
    r := sections;
    ghost var done: set<IndexPath> := {};
    for n := 0 to |sorted|
      invariant forall k :: k in done <==> k in sorted[..n]
      invariant done <= targets.Keys
      invariant InsertOutcome(targets, done, sections, r)
      invariant n < |sorted| ==> forall k :: k in done ==> Precedes(k, sorted[n])
    {
      var key := sorted[n];
      var value := targets[key];
      InsertStep(targets, done, key, sections, r);
      match At(sections, key.section) {
        case Some(section) =>
          if 0 <= key.item < |section.items| {
            r := r[key.section := InsertedAt(section, key.item, value)];
          }
        case None =>
      }
      done := done + {key};
      if n + 1 < |sorted| {
        assert Precedes(key, sorted[n + 1]);
      }
    }
    assert sorted[..|sorted|] == sorted;
    assert done == targets.Keys;
    forall s, i | LastApplied(targets.Keys, sections, s, i)
      ensures Find(IndexPath(s, i), r) == Some(targets[IndexPath(s, i)])
    {
      assert Applies(targets.Keys, sections, IndexPath(s, i));
      assert SectionOutcome(targets, targets.Keys, sections, r, s);
      var i' :| LastApplied(targets.Keys, sections, s, i') &&
                r[s] == InsertedAt(sections[s], i', targets[IndexPath(s, i')]);
      assert i' == i;
    }
  }

  // ----- delete by identity -----------------------------------------------

  /** The items that match no target, in their original order. */
  function Kept(items: seq<Item>, targets: seq<Item>): seq<Item>
    decreases |items|
  {
    if items == [] then []
    else
      var last := items[|items| - 1];
      Kept(items[..|items| - 1], targets) + (if Matches(targets, last.identity) then [] else [last])
  }

  /** The items that match some target, in their original order. */
  function Removed(items: seq<Item>, targets: seq<Item>): seq<Item>
    decreases |items|
  {
    if items == [] then []
    else
      var last := items[|items| - 1];
      Removed(items[..|items| - 1], targets) + (if Matches(targets, last.identity) then [last] else [])
  }

  /** A section after `delete(items:)`: the unmatched items, and the total
      lowered by one per removed item. */
  function DeletedSection(sec: Section, targets: seq<Item>): Section {
    Section(sec.model.(totalCount := sec.model.totalCount - |Removed(sec.items, targets)|),
            Kept(sec.items, targets))
  }

  /** Every removed item of every section, in traversal order. */
  function RemovedFromAll(sections: seq<Section>, targets: seq<Item>): seq<Item>
    decreases |sections|
  {
    if sections == [] then []
    else RemovedFromAll(sections[..|sections| - 1], targets) + Removed(sections[|sections| - 1].items, targets)
  }

  /** One section of `delete(items:)`: a pass over its items that keeps the
      unmatched ones and counts the total down once per removal. */
  method DeleteFromSection(targets: seq<Item>, section: Section) returns (r: Section, removed: seq<Item>)
    ensures r == DeletedSection(section, targets)
    ensures removed == Removed(section.items, targets)
  {
    var newItems: seq<Item> := [];
    var totalCount := section.model.totalCount;
    removed := [];
    for i := 0 to |section.items|
      invariant newItems == Kept(section.items[..i], targets)
      invariant removed == Removed(section.items[..i], targets)
      invariant totalCount == section.model.totalCount - |removed|
    {
      var item := section.items[i];
      assert section.items[..i + 1][..i] == section.items[..i];
      if !Matches(targets, item.identity) {
        newItems := newItems + [item];
      } else {
        removed := removed + [item];
        totalCount := totalCount - 1;
      }
    }
    assert section.items[..|section.items|] == section.items;
    r := Section(section.model.(totalCount := totalCount), newItems);
  }

  /** `delete(items:)` without its cache write: returns the new sections and
      the removed items, in the order the source appends them to the cache. */
  method DeleteItems(targets: seq<Item>, sections: seq<Section>) returns (r: seq<Section>, removed: seq<Item>)
    ensures |r| == |sections|
    ensures forall s :: 0 <= s < |sections| ==> r[s] == DeletedSection(sections[s], targets)
    ensures removed == RemovedFromAll(sections, targets)
  {
    r, removed := [], [];
    for s := 0 to |sections|
      invariant |r| == s
      invariant forall t :: 0 <= t < s ==> r[t] == DeletedSection(sections[t], targets)
      invariant removed == RemovedFromAll(sections[..s], targets)
    {
      var section, removedHere := DeleteFromSection(targets, sections[s]);
      r := r + [section];
      removed := removed + removedHere;
      assert sections[..s + 1][..s] == sections[..s];
    }
    assert sections[..|sections|] == sections;
  }

  /** Every item is either kept or removed: the section total drops by exactly
      the number of items that left the section. */
  lemma {:induction false} KeptRemovedPartition(items: seq<Item>, targets: seq<Item>)
    ensures |Kept(items, targets)| + |Removed(items, targets)| == |items|
    decreases |items|
  {
    if items != [] {
      KeptRemovedPartition(items[..|items| - 1], targets);
    }
  }

  /** An item survives `delete(items:)` exactly when it was present and its
      identity matches no target; an item is removed exactly when it was present
      and matched. */
  lemma {:induction false} KeptMembership(items: seq<Item>, targets: seq<Item>, x: Item)
    ensures x in Kept(items, targets) <==> x in items && !Matches(targets, x.identity)
    ensures x in Removed(items, targets) <==> x in items && Matches(targets, x.identity)
    decreases |items|
  {
    if items != [] {
      var init := items[..|items| - 1];
      KeptMembership(init, targets, x);
      assert items == init + [items[|items| - 1]];
    }
  }

  /** Deleting by identity is a filter: it distributes over concatenation, so
      the kept items keep their relative order. */
  lemma {:induction false} KeptConcat(a: seq<Item>, b: seq<Item>, targets: seq<Item>)
    ensures Kept(a + b, targets) == Kept(a, targets) + Kept(b, targets)
    decreases |b|
  {
    if b != [] {
      var init := b[..|b| - 1];
      assert (a + b)[..|a + b| - 1] == a + init;
      assert (a + b)[|a + b| - 1] == b[|b| - 1];
      KeptConcat(a, init, targets);
    } else {
      assert a + b == a;
    }
  }

  /** A section none of whose items matches a target comes out unchanged. */
  lemma {:induction false} DeleteUnmatchedUnchanged(sec: Section, targets: seq<Item>)
    requires forall x :: x in sec.items ==> !Matches(targets, x.identity)
    ensures DeletedSection(sec, targets) == sec
  {
    KeepAllUnmatched(sec.items, targets);
  }

  lemma {:induction false} KeepAllUnmatched(items: seq<Item>, targets: seq<Item>)
    requires forall x :: x in items ==> !Matches(targets, x.identity)
    ensures Kept(items, targets) == items && Removed(items, targets) == []
    decreases |items|
  {
    if items != [] {
      var init := items[..|items| - 1];
      KeepAllUnmatched(init, targets);
      assert items == init + [items[|items| - 1]];
    }
  }

  // ----- delete by position -----------------------------------------------

  /** Does some target name section `s`? */
  predicate Touches(indexs: seq<IndexPath>, s: int) {
    exists k :: k in indexs && k.section == s
  }

  /** The items of section `s` whose position is not targeted, in order. */
  function KeptAt(items: seq<Item>, s: int, indexs: seq<IndexPath>): seq<Item>
    decreases |items|
  {
    if items == [] then []
    else
      var n := |items| - 1;
      KeptAt(items[..n], s, indexs) + (if IndexPath(s, n) in indexs then [] else [items[n]])
  }

  /** The items of section `s` whose position is targeted, in order. */
  function RemovedAt(items: seq<Item>, s: int, indexs: seq<IndexPath>): seq<Item>
    decreases |items|
  {
    if items == [] then []
    else
      var n := |items| - 1;
      RemovedAt(items[..n], s, indexs) + (if IndexPath(s, n) in indexs then [items[n]] else [])
  }

  /** Section `s` after `delete(indexs:)`: positions are those of the input
      snapshot; a section no target names is passed through as it is. */
  function DeletedAtSection(sec: Section, s: int, indexs: seq<IndexPath>): Section {
    if Touches(indexs, s) then
      Section(sec.model.(totalCount := sec.model.totalCount - |RemovedAt(sec.items, s, indexs)|),
              KeptAt(sec.items, s, indexs))
    else sec
  }

  /** Every item removed by `delete(indexs:)`, in traversal order. */
  function RemovedAtAll(sections: seq<Section>, indexs: seq<IndexPath>): seq<Item>
    decreases |sections|
  {
    if sections == [] then []
    else
      var s := |sections| - 1;
      RemovedAtAll(sections[..s], indexs) +
        (if Touches(indexs, s) then RemovedAt(sections[s].items, s, indexs) else [])
  }

  /** `delete(indexs:)` without its cache write. */
  method DeleteIndexes(indexs: seq<IndexPath>, sections: seq<Section>) returns (r: seq<Section>, removed: seq<Item>)
    ensures |r| == |sections|
    ensures forall s :: 0 <= s < |sections| ==> r[s] == DeletedAtSection(sections[s], s, indexs)
    ensures removed == RemovedAtAll(sections, indexs)
  {
    r, removed := [], [];
    for s := 0 to |sections|
      invariant |r| == s
      invariant forall t :: 0 <= t < s ==> r[t] == DeletedAtSection(sections[t], t, indexs)
      invariant removed == RemovedAtAll(sections[..s], indexs)
    {
      var section := sections[s];
      assert sections[..s + 1][..s] == sections[..s];
      if Touches(indexs, s) {
        var newItems: seq<Item> := [];
        var totalCount := section.model.totalCount;
        ghost var before := removed;
        for i := 0 to |section.items|
          invariant newItems == KeptAt(section.items[..i], s, indexs)
          invariant removed == before + RemovedAt(section.items[..i], s, indexs)
          invariant totalCount == section.model.totalCount - |RemovedAt(section.items[..i], s, indexs)|
        {
          var item := section.items[i];
          assert section.items[..i + 1][..i] == section.items[..i];
          if IndexPath(s, i) !in indexs {
            newItems := newItems + [item];
          } else {
            removed := removed + [item];
            totalCount := totalCount - 1;
          }
        }
        assert section.items[..|section.items|] == section.items;
        r := r + [Section(section.model.(totalCount := totalCount), newItems)];
      } else {
        r := r + [section];
      }
    }
    assert sections[..|sections|] == sections;
  }

  /** The in-range positions of section `s` that some target names. */
  function TargetedPositions(n: nat, s: int, indexs: seq<IndexPath>): set<int> {
    set i | 0 <= i < n && IndexPath(s, i) in indexs
  }

  /** `delete(indexs:)` removes exactly one item per distinct targeted in-range
      position (duplicates and out-of-range positions remove nothing), and keeps
      the rest. */
  lemma {:induction false} RemovedAtCount(items: seq<Item>, s: int, indexs: seq<IndexPath>)
    ensures |RemovedAt(items, s, indexs)| == |TargetedPositions(|items|, s, indexs)|
    ensures |KeptAt(items, s, indexs)| == |items| - |TargetedPositions(|items|, s, indexs)|
    decreases |items|
  {
    if items == [] {
      assert TargetedPositions(0, s, indexs) == {};
    } else {
      var n := |items| - 1;
      RemovedAtCount(items[..n], s, indexs);
      var before := TargetedPositions(n, s, indexs);
      if IndexPath(s, n) in indexs {
        assert TargetedPositions(n + 1, s, indexs) == before + {n};
        assert n !in before;
      } else {
        assert TargetedPositions(n + 1, s, indexs) == before;
      }
    }
  }

  /** A section whose in-range positions are all untargeted comes out unchanged,
      even when some target names it with an out-of-range item position. */
  lemma DeleteAtUntargetedUnchanged(sec: Section, s: int, indexs: seq<IndexPath>)
    requires forall i :: 0 <= i < |sec.items| ==> IndexPath(s, i) !in indexs
    ensures DeletedAtSection(sec, s, indexs) == sec
  {
    RemovedAtCount(sec.items, s, indexs);
    assert TargetedPositions(|sec.items|, s, indexs) == {};
    KeptAtAll(sec.items, s, indexs);
  }

  lemma {:induction false} KeptAtAll(items: seq<Item>, s: int, indexs: seq<IndexPath>)
    requires forall i :: 0 <= i < |items| ==> IndexPath(s, i) !in indexs
    ensures KeptAt(items, s, indexs) == items
    decreases |items|
  {
    if items != [] {
      var n := |items| - 1;
      KeptAtAll(items[..n], s, indexs);
      assert items == items[..n] + [items[n]];
    }
  }

  // ----- update by identity -----------------------------------------------

  /** The first target with the given identity (`filter { … }.first`). */
  function FirstMatch(targets: seq<Item>, identity: string): (r: Option<Item>)
    ensures r.Some? <==> Matches(targets, identity)
    ensures r.Some? ==> r.value.identity == identity
    ensures r.Some? ==> exists j :: 0 <= j < |targets| && targets[j] == r.value &&
                          forall k :: 0 <= k < j ==> targets[k].identity != identity
  {
    if targets == [] then None
    else if targets[0].identity == identity then Some(targets[0])
    else
      var rest := FirstMatch(targets[1..], identity);
      assert forall t :: t in targets ==> t == targets[0] || t in targets[1..];
      if rest.Some? then
        var j :| 0 <= j < |targets[1..]| && targets[1..][j] == rest.value &&
                 forall k :: 0 <= k < j ==> targets[1..][k].identity != identity;
        assert targets[j + 1] == rest.value;
        rest
      else rest
  }

  /** An item after `update(items:)`: the first target with its identity, or itself. */
  function UpdatedItem(targets: seq<Item>, item: Item): Item {
    match FirstMatch(targets, item.identity)
    case Some(t) => t
    case None => item
  }

  /** The sections after `update(items:)`: positions, lengths, models and
      identities are kept; each item becomes the first target of equal
      identity, if there is one. */
  function UpdatedSections(targets: seq<Item>, sections: seq<Section>): (r: seq<Section>)
    ensures SameShape(sections, r)
    ensures forall s, i :: 0 <= s < |sections| && 0 <= i < |sections[s].items| ==>
              (Matches(targets, sections[s].items[i].identity) ==> r[s].items[i] in targets) &&
              (!Matches(targets, sections[s].items[i].identity) ==> r[s].items[i] == sections[s].items[i])
  {
    seq(|sections|, s requires 0 <= s < |sections| =>
      sections[s].(items := seq(|sections[s].items|, i requires 0 <= i < |sections[s].items| =>
        UpdatedItem(targets, sections[s].items[i]))))
  }

  /** `update(items:)` as the source loops over sections and items. */
  method UpdateItems(targets: seq<Item>, sections: seq<Section>) returns (r: seq<Section>)
    ensures r == UpdatedSections(targets, sections)
  {
    r := sections;
    for s := 0 to |sections|
      invariant |r| == |sections|
      invariant forall t :: 0 <= t < |sections| ==> r[t].model == sections[t].model
      invariant forall t :: s <= t < |sections| ==> r[t] == sections[t]
      invariant forall t :: 0 <= t < s ==> r[t] == UpdatedSections(targets, sections)[t]
    {
      var section := sections[s];
      var newItems := section.items;
      for i := 0 to |section.items|
        invariant |newItems| == |section.items|
        invariant forall j :: 0 <= j < i ==> newItems[j] == UpdatedItem(targets, section.items[j])
        invariant forall j :: i <= j < |newItems| ==> newItems[j] == section.items[j]
      {
        match FirstMatch(targets, section.items[i].identity) {
          case Some(newItem) =>
            newItems := newItems[i := newItem];
          case None =>
        }
      }
      assert newItems == UpdatedSections(targets, sections)[s].items;
      r := r[s := section.(items := newItems)];
    }
  }

  /** Updating twice with the same targets gives what updating once gives. */
  lemma UpdateIdempotent(targets: seq<Item>, sections: seq<Section>)
    ensures UpdatedSections(targets, UpdatedSections(targets, sections)) == UpdatedSections(targets, sections)
  {
    var once := UpdatedSections(targets, sections);
    var twice := UpdatedSections(targets, once);
    forall s | 0 <= s < |once|
      ensures twice[s] == once[s]
    {
      forall i | 0 <= i < |once[s].items|
        ensures twice[s].items[i] == once[s].items[i]
      {
        var x := sections[s].items[i];
        var fm := FirstMatch(targets, x.identity);
        if fm.Some? {
          assert once[s].items[i] == fm.value;
          assert FirstMatch(targets, fm.value.identity) == fm;
        }
      }
      assert twice[s].items == once[s].items;
    }
  }

  // ----- replace by position ----------------------------------------------

  /** The sections after `replace(items:)`: the item at every targeted
      existing position is overwritten by the target, whatever its identity. */
  function ReplacedSections(targets: map<IndexPath, Item>, sections: seq<Section>): seq<Section> {
    seq(|sections|, s requires 0 <= s < |sections| =>
      sections[s].(items := seq(|sections[s].items|, i requires 0 <= i < |sections[s].items| =>
        if IndexPath(s, i) in targets then targets[IndexPath(s, i)] else sections[s].items[i])))
  }

  /** `replace(items:)` as the source loops over sections and items. */
  method ReplaceItems(targets: map<IndexPath, Item>, sections: seq<Section>) returns (r: seq<Section>)
    ensures r == ReplacedSections(targets, sections)
  {
    r := sections;
    for s := 0 to |sections|
      invariant |r| == |sections|
      invariant forall t :: s <= t < |sections| ==> r[t] == sections[t]
      invariant forall t :: 0 <= t < s ==> r[t] == ReplacedSections(targets, sections)[t]
    {
      var section := sections[s];
      var newItems := section.items;
      for i := 0 to |section.items|
        invariant |newItems| == |section.items|
        invariant forall j :: 0 <= j < i ==>
                    newItems[j] == if IndexPath(s, j) in targets then targets[IndexPath(s, j)] else section.items[j]
        invariant forall j :: i <= j < |newItems| ==> newItems[j] == section.items[j]
      {
        if IndexPath(s, i) in targets {
          newItems := newItems[i := targets[IndexPath(s, i)]];
        }
      }
      assert newItems == ReplacedSections(targets, sections)[s].items;
      r := r[s := section.(items := newItems)];
    }
  }

  /** Replacing keeps every section's model and length; afterwards `find`
      yields the target at every targeted existing position, the old item at
      every other position, and nothing out of range. */
  lemma ReplaceFind(targets: map<IndexPath, Item>, sections: seq<Section>, k: IndexPath)
    ensures var r := ReplacedSections(targets, sections);
            && |r| == |sections|
            && (forall s :: 0 <= s < |r| ==> r[s].model == sections[s].model && |r[s].items| == |sections[s].items|)
            && Find(k, r) == (if !InRange(sections, k) then None
                              else if k in targets then Some(targets[k])
                              else Find(k, sections))
  {
    var r := ReplacedSections(targets, sections);
    if InRange(sections, k) {
      assert k == IndexPath(k.section, k.item);
      assert InRange(r, k);
    } else {
      assert !InRange(r, k);
    }
  }

  // ----- update whole sections (observable service only) ------------------

  /** The sections after `update(newSections:)`: length and order are kept;
      a section is swapped for the first new section with its identity, and a
      section with no such match is kept. */
  function UpdatedSectionList(newSections: seq<Section>, sections: seq<Section>): (r: seq<Section>)
    ensures |r| == |sections|
    ensures forall j :: 0 <= j < |sections| ==> r[j].model.identity == sections[j].model.identity
    ensures forall j :: 0 <= j < |sections| ==>
              if exists n :: n in newSections && n.model.identity == sections[j].model.identity
              then r[j] in newSections
              else r[j] == sections[j]
  {
    seq(|sections|, j requires 0 <= j < |sections| =>
      match FirstWithIdentity(newSections, sections[j].model.identity)
      case Some(n) => n
      case None => sections[j])
  }

  /** `update(newSections:sections:)` as the source loops over the held sections. */
  method UpdateSections(newSections: seq<Section>, sections: seq<Section>) returns (r: seq<Section>)
    ensures r == UpdatedSectionList(newSections, sections)
  {
    r := sections;
    for j := 0 to |sections|
      invariant |r| == |sections|
      invariant forall t :: j <= t < |sections| ==> r[t] == sections[t]
      invariant forall t :: 0 <= t < j ==> r[t] == UpdatedSectionList(newSections, sections)[t]
    {
      match FirstWithIdentity(newSections, sections[j].model.identity) {
        case Some(n) =>
          r := r[j := n];
        case None =>
      }
    }
  }
}
