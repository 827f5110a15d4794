/**
 * The version-keyed reconciliation of the sync command, as functions on
 * the node store and the two persisted maps: collection key to
 * `{collection, remId}` and item key to `{item, remId}`. An unseen key gets
 * a node and an entry, a changed version keeps the node, renames it and
 * replaces the snapshot, an unchanged version does nothing. A second pass
 * moves every collection node under the node of its parent collection.
 */
module Reconcile {
  import opened Wrappers
  import opened Zotero
  import opened Host
  import opened RemUtils
  import opened AttributeWalk

  type CollectionMap = map<string, Record<Collection>>
  type ItemsMap = map<string, Record<Item>>

  /** Every entry names a node of the store. */
  predicate IdsValid<T>(nodes: seq<Rem>, m: map<string, Record<T>>) {
    forall k :: k in m ==> m[k].remId < |nodes|
  }

  /** `rem.setText(text)` on the node store. */
  function Renamed(nodes: seq<Rem>, id: RemId, text: RichText): (r: seq<Rem>)
    requires id < |nodes|
    ensures |r| == |nodes| && r[id].text == text
    ensures r[id] == nodes[id].(text := text)
    ensures forall i :: 0 <= i < |nodes| && i != id ==> r[i] == nodes[i]
  {
    nodes[id := nodes[id].(text := text)]
  }

  // ---------------------------------------------------------------------
  // Collections

  datatype CState = CState(nodes: seq<Rem>, cmap: CollectionMap)

  /** One turn of the collection loop, under the collections document `root`. */
  function CollectionStep(s: CState, root: RemId, c: Collection): (r: CState)
    requires IdsValid(s.nodes, s.cmap)
    ensures IdsValid(r.nodes, r.cmap) && |s.nodes| <= |r.nodes|
    ensures r.cmap.Keys == s.cmap.Keys + {c.key}
    ensures r.cmap[c.key].snapshot.version == c.version
    ensures forall k :: k in s.cmap ==> r.cmap[k].remId == s.cmap[k].remId
    ensures forall k :: k in s.cmap && k != c.key ==> r.cmap[k] == s.cmap[k]
  {
    if c.key !in s.cmap then
      var m := MakeRemOn(s.nodes, [Text(c.name)], Some(root), Some(true));
      CState(m.nodes, s.cmap[c.key := Record(c, m.id)])
    else
      var rec := s.cmap[c.key];
      if rec.snapshot.version != c.version then
        CState(Renamed(s.nodes, rec.remId, [Text(c.name)]), s.cmap[c.key := Record(c, rec.remId)])
      else s
  }

  /** An unseen key gains exactly one entry, for the node `makeRem(name, root, true)` returns. */
  lemma CollectionUnseen(s: CState, root: RemId, c: Collection)
    requires IdsValid(s.nodes, s.cmap) && c.key !in s.cmap
    ensures var r := CollectionStep(s, root, c);
            var m := MakeRemOn(s.nodes, [Text(c.name)], Some(root), Some(true));
            && r.nodes == m.nodes
            && r.cmap[c.key] == Record(c, m.id)
            && |r.cmap| == |s.cmap| + 1
  {
  }

  /** A known key with the same version changes nothing. */
  lemma CollectionUnchanged(s: CState, root: RemId, c: Collection)
    requires IdsValid(s.nodes, s.cmap) && c.key in s.cmap && s.cmap[c.key].snapshot.version == c.version
    ensures CollectionStep(s, root, c) == s
  {
  }

  /** A known key with another version keeps its node, renames it and replaces the snapshot. */
  lemma CollectionChanged(s: CState, root: RemId, c: Collection)
    requires IdsValid(s.nodes, s.cmap) && c.key in s.cmap && s.cmap[c.key].snapshot.version != c.version
    ensures var r := CollectionStep(s, root, c);
            var id := s.cmap[c.key].remId;
            && r.cmap == s.cmap[c.key := Record(c, id)]
            && |r.nodes| == |s.nodes|
            && r.nodes[id] == s.nodes[id].(text := [Text(c.name)])
            && forall i :: 0 <= i < |s.nodes| && i != id ==> r.nodes[i] == s.nodes[i]
  {
  }

  /** The whole collection loop over the fetched collections, in order. */
  function CollectionsPass(s: CState, root: RemId, cs: seq<Collection>): (r: CState)
    requires IdsValid(s.nodes, s.cmap)
    decreases |cs|
    ensures IdsValid(r.nodes, r.cmap) && |s.nodes| <= |r.nodes|
  {
    if cs == [] then s
    else CollectionStep(CollectionsPass(s, root, cs[..|cs| - 1]), root, cs[|cs| - 1])
  }

  /** The pass over the first `i + 1` collections: that over the first `i`, then one more turn. */
  lemma CollectionsSnoc(s: CState, root: RemId, cs: seq<Collection>, i: nat)
    requires IdsValid(s.nodes, s.cmap) && i < |cs|
    ensures CollectionsPass(s, root, cs[..i + 1]) == CollectionStep(CollectionsPass(s, root, cs[..i]), root, cs[i])
  {
    assert cs[..i + 1][..i] == cs[..i];
  }

  /** The pass never removes a key: afterwards the keys are the old ones and the fetched ones. */
  lemma {:induction false} CollectionsPassKeys(s: CState, root: RemId, cs: seq<Collection>)
    requires IdsValid(s.nodes, s.cmap)
    ensures CollectionsPass(s, root, cs).cmap.Keys == s.cmap.Keys + (set c | c in cs :: c.key)
    decreases |cs|
  {
    if cs != [] {
      var init := cs[..|cs| - 1];
      CollectionsPassKeys(s, root, init);
      CollectionKeysSnoc(cs);
    }
  }

  lemma CollectionKeysSnoc(cs: seq<Collection>)
    requires cs != []
    ensures (set c | c in cs :: c.key) == (set c | c in cs[..|cs| - 1] :: c.key) + {cs[|cs| - 1].key}
  {
    assert cs == cs[..|cs| - 1] + [cs[|cs| - 1]];
  }

  /** A key that was in the map keeps its node. */
  lemma {:induction false} CollectionsPassStable(s: CState, root: RemId, cs: seq<Collection>)
    requires IdsValid(s.nodes, s.cmap)
    ensures var r := CollectionsPass(s, root, cs);
            forall k :: k in s.cmap ==> k in r.cmap && r.cmap[k].remId == s.cmap[k].remId
    decreases |cs|
  {
    if cs != [] {
      CollectionsPassStable(s, root, cs[..|cs| - 1]);
    }
  }

  /** No collection after the `i`-th has its key. */
  predicate LastOfKey(cs: seq<Collection>, i: nat) {
    forall j :: i < j < |cs| ==> cs[j].key != cs[i].key
  }

  /** The entry of each fetched key holds the version of the last collection fetched with that key. */
  lemma {:induction false} CollectionsPassLatest(s: CState, root: RemId, cs: seq<Collection>)
    requires IdsValid(s.nodes, s.cmap)
    ensures var r := CollectionsPass(s, root, cs);
            forall i :: 0 <= i < |cs| && LastOfKey(cs, i) ==>
              cs[i].key in r.cmap && r.cmap[cs[i].key].snapshot.version == cs[i].version
    decreases |cs|
  {
    if cs != [] {
      var n := |cs| - 1;
      var init := cs[..n];
      CollectionsPassLatest(s, root, init);
      var p := CollectionsPass(s, root, init);
      CollectionsLatestStep(p.cmap, CollectionStep(p, root, cs[n]).cmap, init, cs);
    }
  }

  lemma CollectionsLatestStep(before: CollectionMap, after: CollectionMap, init: seq<Collection>, cs: seq<Collection>)
    requires cs != [] && init == cs[..|cs| - 1]
    requires forall i :: 0 <= i < |init| && LastOfKey(init, i) ==>
               init[i].key in before && before[init[i].key].snapshot.version == init[i].version
    requires cs[|cs| - 1].key in after && after[cs[|cs| - 1].key].snapshot.version == cs[|cs| - 1].version
    requires forall k :: k in before && k != cs[|cs| - 1].key ==> k in after && after[k] == before[k]
    ensures forall i :: 0 <= i < |cs| && LastOfKey(cs, i) ==>
              cs[i].key in after && after[cs[i].key].snapshot.version == cs[i].version
  {
    var n := |cs| - 1;
    forall i | 0 <= i < n && LastOfKey(cs, i)
      ensures cs[i].key in after && after[cs[i].key].snapshot.version == cs[i].version
    {
      assert init[i] == cs[i];
      forall j | i < j < |init| ensures init[j].key != init[i].key {
        assert init[j] == cs[j];
      }
      assert LastOfKey(init, i);
      assert cs[n].key != cs[i].key;
    }
  }

  /** Every snapshot in the map afterwards is the old one or a fetched collection with that key. */
  lemma {:induction false} CollectionsPassSnapshots(s: CState, root: RemId, cs: seq<Collection>)
    requires IdsValid(s.nodes, s.cmap)
    ensures var r := CollectionsPass(s, root, cs);
            forall k :: k in r.cmap ==>
              (k in s.cmap && r.cmap[k] == s.cmap[k]) || (r.cmap[k].snapshot in cs && r.cmap[k].snapshot.key == k)
    decreases |cs|
  {
    if cs != [] {
      var init := cs[..|cs| - 1];
      CollectionsPassSnapshots(s, root, init);
      assert forall c :: c in init ==> c in cs;
    }
  }

  /** With every fetched key already known at its version, the pass changes nothing. */
  lemma {:induction false} CollectionsPassNoop(s: CState, root: RemId, cs: seq<Collection>)
    requires IdsValid(s.nodes, s.cmap)
    requires forall c :: c in cs ==> c.key in s.cmap && s.cmap[c.key].snapshot.version == c.version
    ensures CollectionsPass(s, root, cs) == s
    decreases |cs|
  {
    if cs != [] {
      var init := cs[..|cs| - 1];
      assert forall c :: c in init ==> c in cs;
      CollectionsPassNoop(s, root, init);
    }
  }

  /** With distinct keys among the fetched collections, a second pass changes nothing. */
  lemma CollectionsPassIdempotent(s: CState, root: RemId, cs: seq<Collection>)
    requires IdsValid(s.nodes, s.cmap)
    requires forall i, j :: 0 <= i < j < |cs| ==> cs[i].key != cs[j].key
    ensures var r := CollectionsPass(s, root, cs);
            CollectionsPass(r, root, cs) == r
  {
    var r := CollectionsPass(s, root, cs);
    CollectionsPassLatest(s, root, cs);
    forall c | c in cs ensures c.key in r.cmap && r.cmap[c.key].snapshot.version == c.version {
      var i :| 0 <= i < |cs| && cs[i] == c;
      assert LastOfKey(cs, i);
    }
    CollectionsPassNoop(r, root, cs);
  }

  /**
   * Two unseen collections with the same name, fetched one after the
   * other, end up sharing one node: the second lookup by name under the
   * collections document finds the first one's node.
   */
  lemma CollectionsCollide(s: CState, root: RemId, c1: Collection, c2: Collection)
    requires IdsValid(s.nodes, s.cmap)
    requires c1.key !in s.cmap && c2.key !in s.cmap && c1.key != c2.key && c1.name == c2.name
    ensures var r := CollectionsPass(s, root, [c1, c2]);
            c1.key in r.cmap && c2.key in r.cmap && r.cmap[c1.key].remId == r.cmap[c2.key].remId
  {
    var p := CollectionStep(s, root, c1);
    assert [c1, c2][..1] == [c1];
    assert [c1][..0] == [];
    assert CollectionsPass(s, root, [c1]) == p;
    assert CollectionsPass(s, root, [c1, c2]) == CollectionStep(p, root, c2);
    MakeRemIdempotent(s.nodes, [Text(c1.name)], Some(root), Some(true));
  }

  /**
   * After a reset the map is empty, so every fetched collection is unseen;
   * the lookup by name still returns a node of the same name that is still
   * under the collections document, and no node is made for it.
   */
  lemma ResetReuses(nodes: seq<Rem>, root: RemId, c: Collection, id: RemId)
    requires id < |nodes| && Named(nodes[id], [Text(c.name)], Some(root))
    ensures var r := CollectionStep(CState(nodes, map[]), root, c);
            r.nodes == nodes && r.cmap[c.key].remId <= id
  {
    MakeRemExisting(nodes, [Text(c.name)], Some(root), Some(true), id);
  }

  // ---------------------------------------------------------------------
  // Moving collections under their parents

  /** `if (parentCollection)`: a parent key that is present and not empty. */
  function ParentOf(c: Collection): Option<string>
  {
    if c.parentCollection.Some? && c.parentCollection.value != "" then c.parentCollection else None
  }

  /** The lookup of every parent key succeeds. */
  predicate ParentsMapped(cmap: CollectionMap) {
    forall k :: k in cmap && ParentOf(cmap[k].snapshot).Some? ==> ParentOf(cmap[k].snapshot).value in cmap
  }

  /** Nodes change at most their parent. */
  predicate OnlyParents(before: seq<Rem>, after: seq<Rem>) {
    |after| == |before| && forall i :: 0 <= i < |before| ==> after[i] == before[i].(parent := after[i].parent)
  }

  /** One turn of the move loop, for the entry of `key`. */
  function MoveOne(nodes: seq<Rem>, cmap: CollectionMap, key: string): (r: seq<Rem>)
    requires key in cmap && IdsValid(nodes, cmap) && ParentsMapped(cmap)
    ensures OnlyParents(nodes, r)
    ensures forall i :: 0 <= i < |nodes| && i != cmap[key].remId ==> r[i] == nodes[i]
    ensures ParentOf(cmap[key].snapshot).None? ==> r == nodes
    ensures ParentOf(cmap[key].snapshot).Some? ==>
              r[cmap[key].remId].parent == Some(cmap[ParentOf(cmap[key].snapshot).value].remId)
  {
    var rec := cmap[key];
    match ParentOf(rec.snapshot)
    case None => nodes
    case Some(p) => nodes[rec.remId := nodes[rec.remId].(parent := Some(cmap[p].remId))]
  }

  /** The move loop, visiting the entries in the order `order`. */
  function Reparented(nodes: seq<Rem>, cmap: CollectionMap, order: seq<string>): (r: seq<Rem>)
    requires IdsValid(nodes, cmap) && ParentsMapped(cmap)
    requires forall k :: k in order ==> k in cmap
    decreases |order|
    ensures OnlyParents(nodes, r)
  {
    if order == [] then nodes
    else
      var init := order[..|order| - 1];
      assert forall k :: k in init ==> k in order;
      var p := Reparented(nodes, cmap, init);
      MoveOne(p, cmap, order[|order| - 1])
  }

  /** The move loop over a non-empty order: over all but the last key, then the last. */
  lemma ReparentedLast(nodes: seq<Rem>, cmap: CollectionMap, order: seq<string>)
    requires IdsValid(nodes, cmap) && ParentsMapped(cmap)
    requires order != [] && forall k :: k in order ==> k in cmap
    ensures forall k :: k in order[..|order| - 1] ==> k in cmap
    ensures Reparented(nodes, cmap, order) == MoveOne(Reparented(nodes, cmap, order[..|order| - 1]), cmap, order[|order| - 1])
  {
    assert forall k :: k in order[..|order| - 1] ==> k in order;
  }

  /** Visiting one more entry is one more `MoveOne`. */
  lemma ReparentedSnoc(nodes: seq<Rem>, cmap: CollectionMap, order: seq<string>, key: string)
    requires IdsValid(nodes, cmap) && ParentsMapped(cmap)
    requires forall k :: k in order ==> k in cmap
    requires key in cmap
    ensures forall k :: k in order + [key] ==> k in cmap
    ensures Reparented(nodes, cmap, order + [key]) == MoveOne(Reparented(nodes, cmap, order), cmap, key)
  {
    assert (order + [key])[..|order|] == order;
  }

  /** `order` lists each key of the map once: an iteration order of the map. */
  ghost predicate Enumerates(order: seq<string>, cmap: CollectionMap) {
    && (forall k :: k in order <==> k in cmap)
    && forall i, j :: 0 <= i < j < |order| ==> order[i] != order[j]
  }

  /** The move loop's progress: the keys visited so far, each once, and the keys still to visit. */
  ghost predicate Splits(cmap: CollectionMap, order: seq<string>, remaining: set<string>) {
    && (forall k :: k in cmap <==> k in remaining || k in order)
    && (forall k :: k in remaining ==> k !in order)
    && (forall i, j :: 0 <= i < j < |order| ==> order[i] != order[j])
  }

  /** Visiting one more remaining key keeps the split. */
  lemma SplitsStep(cmap: CollectionMap, order: seq<string>, remaining: set<string>, key: string)
    requires Splits(cmap, order, remaining) && key in remaining
    ensures key in cmap && Splits(cmap, order + [key], remaining - {key})
  {
  }

  /** With nothing left to visit, the visited keys are an iteration order of the map. */
  lemma SplitsDone(cmap: CollectionMap, order: seq<string>)
    requires Splits(cmap, order, {})
    ensures Enumerates(order, cmap)
  {
  }

  /** No two entries share a node. */
  predicate RemIdsInjective(cmap: CollectionMap) {
    forall k1, k2 :: k1 in cmap && k2 in cmap && k1 != k2 ==> cmap[k1].remId != cmap[k2].remId
  }

  /** The node of `k`'s entry is under its parent's node, or, without a parent, as it was in `before`. */
  predicate Settled(before: seq<Rem>, after: seq<Rem>, cmap: CollectionMap, k: string) {
    && k in cmap && cmap[k].remId < |before| && |after| == |before|
    && (ParentOf(cmap[k].snapshot).Some? ==>
          ParentOf(cmap[k].snapshot).value in cmap
          && after[cmap[k].remId].parent == Some(cmap[ParentOf(cmap[k].snapshot).value].remId))
    && (ParentOf(cmap[k].snapshot).None? ==> after[cmap[k].remId] == before[cmap[k].remId])
  }

  /**
   * When no two entries share a node, after the move loop each visited
   * entry with a parent has its node under the parent's node, and each one
   * without a parent has its node as it was.
   */
  lemma {:induction false} ReparentedParents(nodes: seq<Rem>, cmap: CollectionMap, order: seq<string>)
    requires IdsValid(nodes, cmap) && ParentsMapped(cmap) && RemIdsInjective(cmap)
    requires forall k :: k in order ==> k in cmap
    ensures forall k :: k in order ==> Settled(nodes, Reparented(nodes, cmap, order), cmap, k)
    decreases |order|
  {
    if order != [] {
      var init := order[..|order| - 1];
      var last := order[|order| - 1];
      assert order == init + [last];
      ReparentedLast(nodes, cmap, order);
      ReparentedParents(nodes, cmap, init);
      var p := Reparented(nodes, cmap, init);
      if last !in init {
        ReparentedFrame(nodes, cmap, init, cmap[last].remId);
      }
      ReparentedStep(nodes, cmap, init, last, p);
    }
  }

  lemma ReparentedStep(nodes: seq<Rem>, cmap: CollectionMap, init: seq<string>, last: string, p: seq<Rem>)
    requires IdsValid(nodes, cmap) && ParentsMapped(cmap) && RemIdsInjective(cmap)
    requires last in cmap && |p| == |nodes|
    requires forall k :: k in init ==> Settled(nodes, p, cmap, k)
    requires last !in init ==> p[cmap[last].remId] == nodes[cmap[last].remId]
    ensures forall k :: k in init + [last] ==> Settled(nodes, MoveOne(p, cmap, last), cmap, k)
  {
    var r := MoveOne(p, cmap, last);
    forall k | k in init + [last] ensures Settled(nodes, r, cmap, k) {
      if k != last {
        assert k in init;
        assert cmap[k].remId != cmap[last].remId;
      }
    }
  }

  /** Nodes that no visited entry names are untouched by the move loop. */
  lemma {:induction false} ReparentedFrame(nodes: seq<Rem>, cmap: CollectionMap, order: seq<string>, i: nat)
    requires IdsValid(nodes, cmap) && ParentsMapped(cmap)
    requires forall k :: k in order ==> k in cmap
    requires i < |nodes| && forall k :: k in order ==> cmap[k].remId != i
    ensures Reparented(nodes, cmap, order)[i] == nodes[i]
    decreases |order|
  {
    if order != [] {
      ReparentedLast(nodes, cmap, order);
      ReparentedFrame(nodes, cmap, order[..|order| - 1], i);
    }
  }

  // ---------------------------------------------------------------------
  // Items

  datatype IState = IState(nodes: seq<Rem>, itemMap: ItemsMap)

  /** The item loop reads an item's fields only when its key is unseen or its version has changed. */
  predicate Walks(m: ItemsMap, it: Item) {
    it.key !in m || m[it.key].snapshot.version != it.version
  }

  /** One turn of the item loop: the node of the item, then its attribute walk. */
  function ItemStep(s: IState, cmap: CollectionMap, roots: Roots, it: Item): (r: IState)
    requires IdsValid(s.nodes, s.itemMap) && (Walks(s.itemMap, it) ==> FieldsReadable(cmap, it.fields))
    ensures IdsValid(r.nodes, r.itemMap) && |s.nodes| <= |r.nodes|
    ensures r.itemMap.Keys == s.itemMap.Keys + {it.key}
    ensures r.itemMap[it.key].snapshot.version == it.version
    ensures forall k :: k in s.itemMap ==> r.itemMap[k].remId == s.itemMap[k].remId
    ensures forall k :: k in s.itemMap && k != it.key ==> r.itemMap[k] == s.itemMap[k]
  {
    if it.key !in s.itemMap then
      var m := MakeRemOn(s.nodes, NameText(it.title), Some(roots.items), Some(true));
      IState(WalkOn(m.nodes, cmap, roots, m.id, it.fields), s.itemMap[it.key := Record(it, m.id)])
    else
      var rec := s.itemMap[it.key];
      if rec.snapshot.version != it.version then
        var renamed := Renamed(s.nodes, rec.remId, NameText(it.title));
        IState(WalkOn(renamed, cmap, roots, rec.remId, it.fields), s.itemMap[it.key := Record(it, rec.remId)])
      else s
  }

  /** An unseen key gains exactly one entry, for the node `makeRem(title, itemsRoot, true)` returns, then walked. */
  lemma ItemUnseen(s: IState, cmap: CollectionMap, roots: Roots, it: Item)
    requires IdsValid(s.nodes, s.itemMap) && FieldsReadable(cmap, it.fields) && it.key !in s.itemMap
    ensures var r := ItemStep(s, cmap, roots, it);
            var m := MakeRemOn(s.nodes, NameText(it.title), Some(roots.items), Some(true));
            && r.itemMap[it.key] == Record(it, m.id)
            && |r.itemMap| == |s.itemMap| + 1
            && r.nodes == WalkOn(m.nodes, cmap, roots, m.id, it.fields)
            && Named(r.nodes[m.id], NameText(it.title), Some(roots.items))
  {
  }

  /** A known key with the same version changes nothing. */
  lemma ItemUnchanged(s: IState, cmap: CollectionMap, roots: Roots, it: Item)
    requires IdsValid(s.nodes, s.itemMap)
    requires it.key in s.itemMap && s.itemMap[it.key].snapshot.version == it.version
    ensures ItemStep(s, cmap, roots, it) == s
  {
  }

  /** A known key with another version keeps its node, retitles it, walks it again and replaces the snapshot. */
  lemma ItemChanged(s: IState, cmap: CollectionMap, roots: Roots, it: Item)
    requires IdsValid(s.nodes, s.itemMap) && FieldsReadable(cmap, it.fields)
    requires it.key in s.itemMap && s.itemMap[it.key].snapshot.version != it.version
    ensures var r := ItemStep(s, cmap, roots, it);
            var id := s.itemMap[it.key].remId;
            && r.itemMap == s.itemMap[it.key := Record(it, id)]
            && r.nodes[id].text == NameText(it.title) && r.nodes[id].parent == s.nodes[id].parent
            && r.nodes == WalkOn(Renamed(s.nodes, id, NameText(it.title)), cmap, roots, id, it.fields)
  {
  }

  /**
   * A walked item ends up with a card under its node for each front of each
   * field, whether the key was unseen or its version changed.
   */
  lemma ItemCards(s: IState, cmap: CollectionMap, roots: Roots, it: Item, i: nat)
    requires IdsValid(s.nodes, s.itemMap) && FieldsReadable(cmap, it.fields) && Walks(s.itemMap, it)
    requires i < |it.fields|
    ensures WellTyped(it.fields[i].0, it.fields[i].1)
    ensures var r := ItemStep(s, cmap, roots, it);
            HasCards(r.nodes, FieldFronts(it.fields[i].0, it.fields[i].1), r.itemMap[it.key].remId)
  {
    if it.key !in s.itemMap {
      var m := MakeRemOn(s.nodes, NameText(it.title), Some(roots.items), Some(true));
      WalkCards(m.nodes, cmap, roots, m.id, it.fields, i);
    } else {
      var id := s.itemMap[it.key].remId;
      WalkCards(Renamed(s.nodes, id, NameText(it.title)), cmap, roots, id, it.fields, i);
    }
  }

  predicate ItemsReadable(cmap: CollectionMap, its: seq<Item>) {
    forall it :: it in its ==> FieldsReadable(cmap, it.fields)
  }

  /** The whole item loop over the fetched items, in order. */
  function ItemsPass(s: IState, cmap: CollectionMap, roots: Roots, its: seq<Item>): (r: IState)
    requires IdsValid(s.nodes, s.itemMap) && ItemsReadable(cmap, its)
    decreases |its|
    ensures IdsValid(r.nodes, r.itemMap) && |s.nodes| <= |r.nodes|
  {
    if its == [] then s
    else
      var init := its[..|its| - 1];
      assert forall it :: it in init ==> it in its;
      ItemStep(ItemsPass(s, cmap, roots, init), cmap, roots, its[|its| - 1])
  }

  /** The item loop over a non-empty sequence: over all but the last item, then the last. */
  lemma ItemsLast(s: IState, cmap: CollectionMap, roots: Roots, its: seq<Item>)
    requires IdsValid(s.nodes, s.itemMap) && its != [] && ItemsReadable(cmap, its)
    ensures ItemsReadable(cmap, its[..|its| - 1]) && FieldsReadable(cmap, its[|its| - 1].fields)
    ensures ItemsPass(s, cmap, roots, its)
            == ItemStep(ItemsPass(s, cmap, roots, its[..|its| - 1]), cmap, roots, its[|its| - 1])
  {
    assert forall it :: it in its[..|its| - 1] ==> it in its;
    assert its[|its| - 1] in its;
  }

  /** The item loop over the first `i + 1` items: that over the first `i`, then one more turn. */
  lemma ItemsSnoc(s: IState, cmap: CollectionMap, roots: Roots, its: seq<Item>, i: nat)
    requires IdsValid(s.nodes, s.itemMap) && i < |its| && ItemsReadable(cmap, its)
    ensures ItemsReadable(cmap, its[..i]) && ItemsReadable(cmap, its[..i + 1]) && FieldsReadable(cmap, its[i].fields)
    ensures ItemsPass(s, cmap, roots, its[..i + 1]) == ItemStep(ItemsPass(s, cmap, roots, its[..i]), cmap, roots, its[i])
  {
    assert its[..i + 1][..i] == its[..i];
    assert its[i] in its;
    assert forall it :: it in its[..i + 1] ==> it in its;
  }

  /** The item loop never removes a key: afterwards the keys are the old ones and the fetched ones. */
  lemma {:induction false} ItemsPassKeys(s: IState, cmap: CollectionMap, roots: Roots, its: seq<Item>)
    requires IdsValid(s.nodes, s.itemMap) && ItemsReadable(cmap, its)
    ensures ItemsPass(s, cmap, roots, its).itemMap.Keys == s.itemMap.Keys + (set it | it in its :: it.key)
    decreases |its|
  {
    if its != [] {
      var init := its[..|its| - 1];
      ItemsLast(s, cmap, roots, its);
      ItemsPassKeys(s, cmap, roots, init);
      ItemKeysSnoc(its);
    }
  }

  lemma ItemKeysSnoc(its: seq<Item>)
    requires its != []
    ensures (set it | it in its :: it.key) == (set it | it in its[..|its| - 1] :: it.key) + {its[|its| - 1].key}
  {
    assert its == its[..|its| - 1] + [its[|its| - 1]];
  }

  /** A key that was in the map keeps its node. */
  lemma {:induction false} ItemsPassStable(s: IState, cmap: CollectionMap, roots: Roots, its: seq<Item>)
    requires IdsValid(s.nodes, s.itemMap) && ItemsReadable(cmap, its)
    ensures var r := ItemsPass(s, cmap, roots, its);
            forall k :: k in s.itemMap ==> k in r.itemMap && r.itemMap[k].remId == s.itemMap[k].remId
    decreases |its|
  {
    if its != [] {
      var init := its[..|its| - 1];
      ItemsLast(s, cmap, roots, its);
      ItemsPassStable(s, cmap, roots, init);
    }
  }

  /** No item after the `i`-th has its key. */
  predicate LastItemOfKey(its: seq<Item>, i: nat) {
    forall j :: i < j < |its| ==> its[j].key != its[i].key
  }

  /** The entry of each fetched key holds the version of the last item fetched with that key. */
  lemma {:induction false} ItemsPassLatest(s: IState, cmap: CollectionMap, roots: Roots, its: seq<Item>)
    requires IdsValid(s.nodes, s.itemMap) && ItemsReadable(cmap, its)
    ensures var r := ItemsPass(s, cmap, roots, its);
            forall i :: 0 <= i < |its| && LastItemOfKey(its, i) ==>
              its[i].key in r.itemMap && r.itemMap[its[i].key].snapshot.version == its[i].version
    decreases |its|
  {
    if its != [] {
      var n := |its| - 1;
      var init := its[..n];
      ItemsLast(s, cmap, roots, its);
      ItemsPassLatest(s, cmap, roots, init);
      var p := ItemsPass(s, cmap, roots, init);
      ItemsLatestStep(p.itemMap, ItemStep(p, cmap, roots, its[n]).itemMap, init, its);
    }
  }

  lemma ItemsLatestStep(before: ItemsMap, after: ItemsMap, init: seq<Item>, its: seq<Item>)
    requires its != [] && init == its[..|its| - 1]
    requires forall i :: 0 <= i < |init| && LastItemOfKey(init, i) ==>
               init[i].key in before && before[init[i].key].snapshot.version == init[i].version
    requires its[|its| - 1].key in after && after[its[|its| - 1].key].snapshot.version == its[|its| - 1].version
    requires forall k :: k in before && k != its[|its| - 1].key ==> k in after && after[k] == before[k]
    ensures forall i :: 0 <= i < |its| && LastItemOfKey(its, i) ==>
              its[i].key in after && after[its[i].key].snapshot.version == its[i].version
  {
    var n := |its| - 1;
    forall i | 0 <= i < n && LastItemOfKey(its, i)
      ensures its[i].key in after && after[its[i].key].snapshot.version == its[i].version
    {
      assert init[i] == its[i];
      forall j | i < j < |init| ensures init[j].key != init[i].key {
        assert init[j] == its[j];
      }
      assert LastItemOfKey(init, i);
      assert its[n].key != its[i].key;
    }
  }

  /** With every fetched key already known at its version, the item loop changes nothing. */
  lemma {:induction false} ItemsPassNoop(s: IState, cmap: CollectionMap, roots: Roots, its: seq<Item>)
    requires IdsValid(s.nodes, s.itemMap) && ItemsReadable(cmap, its)
    requires forall it :: it in its ==> it.key in s.itemMap && s.itemMap[it.key].snapshot.version == it.version
    ensures ItemsPass(s, cmap, roots, its) == s
    decreases |its|
  {
    if its != [] {
      var init := its[..|its| - 1];
      ItemsLast(s, cmap, roots, its);
      ItemsPassNoop(s, cmap, roots, init);
    }
  }

  /** With distinct keys among the fetched items, a second item loop changes nothing. */
  lemma ItemsPassIdempotent(s: IState, cmap: CollectionMap, roots: Roots, its: seq<Item>)
    requires IdsValid(s.nodes, s.itemMap) && ItemsReadable(cmap, its)
    requires forall i, j :: 0 <= i < j < |its| ==> its[i].key != its[j].key
    ensures var r := ItemsPass(s, cmap, roots, its);
            ItemsPass(r, cmap, roots, its) == r
  {
    var r := ItemsPass(s, cmap, roots, its);
    ItemsPassLatest(s, cmap, roots, its);
    forall it | it in its ensures it.key in r.itemMap && r.itemMap[it.key].snapshot.version == it.version {
      var i :| 0 <= i < |its| && its[i] == it;
      assert LastItemOfKey(its, i);
    }
    ItemsPassNoop(r, cmap, roots, its);
  }

  /**
   * Two unseen items with the same title, fetched one after the other,
   * end up sharing one node: the walk of the first keeps its node's text
   * and parent, so the second lookup by title finds it.
   */
  lemma ItemsCollide(s: IState, cmap: CollectionMap, roots: Roots, i1: Item, i2: Item)
    requires IdsValid(s.nodes, s.itemMap) && ItemsReadable(cmap, [i1, i2])
    requires i1.key !in s.itemMap && i2.key !in s.itemMap && i1.key != i2.key && i1.title == i2.title
    ensures var r := ItemsPass(s, cmap, roots, [i1, i2]);
            i1.key in r.itemMap && i2.key in r.itemMap && r.itemMap[i1.key].remId == r.itemMap[i2.key].remId
  {
    assert i1 in [i1, i2] && i2 in [i1, i2];
    var p := ItemStep(s, cmap, roots, i1);
    assert [i1, i2][..1] == [i1];
    assert [i1][..0] == [];
    assert ItemsPass(s, cmap, roots, [i1]) == p;
    assert ItemsPass(s, cmap, roots, [i1, i2]) == ItemStep(p, cmap, roots, i2);
    var text := NameText(i1.title);
    ItemUnseen(s, cmap, roots, i1);
    MakeRemStable(s.nodes, p.nodes, text, Some(roots.items), Some(true));
    ItemUnseen(p, cmap, roots, i2);
  }
}
