/**
 * The plugin's state and commands: the documents made at activation, the
 * two persisted maps, the reset command and the update command, which
 * reconciles the fetched collections, moves them under their parents and
 * reconciles the fetched items with their attribute walk. Each command is
 * proved to compute the functions of `Reconcile` and `AttributeWalk`.
 */
module Sync {
  import opened Wrappers
  import opened Zotero
  import opened Host
  import opened RemUtils
  import opened Attributes
  import opened AttributeWalk
  import opened Reconcile

  datatype Activated = Activated(nodes: seq<Rem>, roots: Roots)

  /** The five documents exist with their names: the library at top level, the others under it. */
  predicate RootsNamed(nodes: seq<Rem>, roots: Roots, rootName: string) {
    && roots.library < |nodes| && Named(nodes[roots.library], [Text(rootName)], None)
    && roots.collections < |nodes| && Named(nodes[roots.collections], [Text("Collections")], Some(roots.library))
    && roots.items < |nodes| && Named(nodes[roots.items], [Text("Items")], Some(roots.library))
    && roots.creators < |nodes| && Named(nodes[roots.creators], [Text("Creators")], Some(roots.library))
    && roots.tags < |nodes| && Named(nodes[roots.tags], [Text("Tags")], Some(roots.library))
  }

  /** Activation: find or make the library document, then its four children. */
  function ActivateOn(nodes: seq<Rem>, rootName: string): (r: Activated)
    ensures nodes <= r.nodes && |r.nodes| <= |nodes| + 5
    ensures RootsNamed(r.nodes, r.roots, rootName)
  {
    var library := MakeRemOn(nodes, [Text(rootName)], None, Some(true));
    var collections := MakeRemOn(library.nodes, [Text("Collections")], Some(library.id), Some(true));
    var items := MakeRemOn(collections.nodes, [Text("Items")], Some(library.id), Some(true));
    var creators := MakeRemOn(items.nodes, [Text("Creators")], Some(library.id), Some(false));
    var tags := MakeRemOn(creators.nodes, [Text("Tags")], Some(library.id), Some(false));
    Activated(tags.nodes, Roots(library.id, collections.id, items.id, creators.id, tags.id))
  }

  /** The five documents are five distinct nodes, whatever the library is called. */
  lemma RootsDistinct(nodes: seq<Rem>, rootName: string)
    ensures var r := ActivateOn(nodes, rootName).roots;
            && r.library != r.collections && r.library != r.items && r.library != r.creators && r.library != r.tags
            && r.collections != r.items && r.collections != r.creators && r.collections != r.tags
            && r.items != r.creators && r.items != r.tags
            && r.creators != r.tags
  {
    var a := ActivateOn(nodes, rootName);
    DistinctTexts(a.nodes, a.roots, rootName);
  }

  lemma DistinctTexts(nodes: seq<Rem>, r: Roots, rootName: string)
    requires RootsNamed(nodes, r, rootName)
    ensures && r.library != r.collections && r.library != r.items && r.library != r.creators && r.library != r.tags
            && r.collections != r.items && r.collections != r.creators && r.collections != r.tags
            && r.items != r.creators && r.items != r.tags
            && r.creators != r.tags
  {
    assert nodes[r.collections].text[0] == Text("Collections");
    assert nodes[r.items].text[0] == Text("Items");
    assert nodes[r.creators].text[0] == Text("Creators");
    assert nodes[r.tags].text[0] == Text("Tags");
  }

  class ZoteroSync {
    const store: RemStore
    const roots: Roots
    /** Collection key to `{collection, remId}`. */
    var collectionMap: CollectionMap
    /** Item key to `{item, remId}`. */
    var itemsMap: ItemsMap

    predicate Valid()
      reads this, store
    {
      IdsValid(store.nodes, collectionMap) && IdsValid(store.nodes, itemsMap)
    }

    /** Activation, over the maps persisted by earlier sessions. */
    constructor (store: RemStore, rootName: string, collectionMap: CollectionMap, itemsMap: ItemsMap)
      requires IdsValid(store.nodes, collectionMap) && IdsValid(store.nodes, itemsMap)
      modifies store
      ensures this.store == store && this.collectionMap == collectionMap && this.itemsMap == itemsMap
      ensures Activated(store.nodes, roots) == ActivateOn(old(store.nodes), rootName)
      ensures Valid()
    {
      var library := MakeRem(store, [Text(rootName)], None, Some(true));
      var collections := MakeRem(store, [Text("Collections")], Some(library), Some(true));
      var items := MakeRem(store, [Text("Items")], Some(library), Some(true));
      var creators := MakeRem(store, [Text("Creators")], Some(library), Some(false));
      var tags := MakeRem(store, [Text("Tags")], Some(library), Some(false));
      this.store := store;
      this.roots := Roots(library, collections, items, creators, tags);
      this.collectionMap := collectionMap;
      this.itemsMap := itemsMap;
    }

    /** The reset command: both persisted maps are emptied; no node changes. */
    method Reset()
      requires Valid()
      modifies this
      ensures Valid()
      ensures collectionMap == map[] && itemsMap == map[]
    {
      collectionMap := map[];
      itemsMap := map[];
    }

    /** The collection loop of the update command. */
    method SyncCollections(cs: seq<Collection>)
      requires Valid()
      modifies this, store
      ensures Valid()
      ensures CState(store.nodes, collectionMap)
              == CollectionsPass(CState(old(store.nodes), old(collectionMap)), roots.collections, cs)
      ensures itemsMap == old(itemsMap)
    {
      ghost var start := CState(store.nodes, collectionMap);
      for i := 0 to |cs|
        invariant Valid() && itemsMap == old(itemsMap)
        invariant CState(store.nodes, collectionMap) == CollectionsPass(start, roots.collections, cs[..i])
      {
        CollectionsSnoc(start, roots.collections, cs, i);
        SyncCollection(cs[i]);
      }
      assert cs[..|cs|] == cs;
    }

    /** One turn of the collection loop. */
    method SyncCollection(c: Collection)
      requires Valid()
      modifies this, store
      ensures Valid() && itemsMap == old(itemsMap)
      ensures CState(store.nodes, collectionMap)
              == CollectionStep(CState(old(store.nodes), old(collectionMap)), roots.collections, c)
    {
      if c.key !in collectionMap {
        var id := MakeRem(store, [Text(c.name)], Some(roots.collections), Some(true));
        collectionMap := collectionMap[c.key := Record(c, id)];
      } else {
        var rec := collectionMap[c.key];
        if rec.snapshot.version != c.version {
          store.SetText(rec.remId, [Text(c.name)]);
          collectionMap := collectionMap[c.key := Record(c, rec.remId)];
        }
      }
    }

    /**
     * The move loop of the update command, in the map's iteration order:
     * each entry with a parent key has its node moved under the parent's node.
     */
    method MoveCollections()
      requires Valid() && ParentsMapped(collectionMap)
      modifies store
      ensures Valid()
      ensures OnlyParents(old(store.nodes), store.nodes)
      ensures exists order :: Enumerates(order, collectionMap) && store.nodes == Reparented(old(store.nodes), collectionMap, order)
      ensures RemIdsInjective(collectionMap) ==>
                forall k :: k in collectionMap ==> Settled(old(store.nodes), store.nodes, collectionMap, k)
    {
      var remaining := collectionMap.Keys;
      ghost var order: seq<string> := [];
      while remaining != {}
        invariant Splits(collectionMap, order, remaining)
        invariant forall k :: k in order ==> k in collectionMap
        invariant store.nodes == Reparented(old(store.nodes), collectionMap, order)
        decreases |remaining|
      {
        var key :| key in remaining;
        SplitsStep(collectionMap, order, remaining, key);
        ReparentedSnoc(old(store.nodes), collectionMap, order, key);
        MoveEntry(key);
        order := order + [key];
        remaining := remaining - {key};
      }
      SplitsDone(collectionMap, order);
      if RemIdsInjective(collectionMap) {
        ReparentedParents(old(store.nodes), collectionMap, order);
      }
    }

    /** One turn of the move loop: the entry of `key` is moved under its parent's node, if it has a parent. */
    method MoveEntry(key: string)
      requires Valid() && ParentsMapped(collectionMap) && key in collectionMap
      modifies store
      ensures store.nodes == MoveOne(old(store.nodes), collectionMap, key)
    {
      var rec := collectionMap[key];
      var parent := ParentOf(rec.snapshot);
      if parent.Some? {
        store.SetParent(rec.remId, Some(collectionMap[parent.value].remId));
      }
    }

    /** The item loop of the update command. */
    method SyncItems(its: seq<Item>)
      requires Valid() && ItemsReadable(collectionMap, its)
      modifies this, store
      ensures collectionMap == old(collectionMap) && Valid()
      ensures IState(store.nodes, itemsMap)
              == ItemsPass(IState(old(store.nodes), old(itemsMap)), collectionMap, roots, its)
    {
      ghost var start := IState(store.nodes, itemsMap);
      for i := 0 to |its|
        invariant collectionMap == old(collectionMap) && Valid()
        invariant ItemsReadable(collectionMap, its[..i])
        invariant IState(store.nodes, itemsMap) == ItemsPass(start, collectionMap, roots, its[..i])
      {
        ItemsSnoc(start, collectionMap, roots, its, i);
        SyncItem(its[i]);
      }
      assert its[..|its|] == its;
    }

    /** One turn of the item loop: the item's node, then its attribute walk. */
    method SyncItem(it: Item)
      requires Valid() && (Walks(itemsMap, it) ==> FieldsReadable(collectionMap, it.fields))
      modifies this, store
      ensures collectionMap == old(collectionMap) && Valid()
      ensures IState(store.nodes, itemsMap) == ItemStep(IState(old(store.nodes), old(itemsMap)), collectionMap, roots, it)
    {
      if it.key !in itemsMap {
        var id := MakeRem(store, NameText(it.title), Some(roots.items), Some(true));
        WalkAttributes(id, it.fields);
        itemsMap := itemsMap[it.key := Record(it, id)];
      } else {
        var rec := itemsMap[it.key];
        if rec.snapshot.version != it.version {
          store.SetText(rec.remId, NameText(it.title));
          WalkAttributes(rec.remId, it.fields);
          itemsMap := itemsMap[it.key := Record(it, rec.remId)];
        }
      }
    }

    /** The attribute loop of one item: one `SetAttribute` per field, in order. */
    method WalkAttributes(item: RemId, fields: seq<(string, Value)>)
      requires FieldsReadable(collectionMap, fields)
      modifies store
      ensures store.nodes == WalkOn(old(store.nodes), collectionMap, roots, item, fields)
    {
      ghost var start := store.nodes;
      for i := 0 to |fields|
        invariant store.nodes == WalkOn(start, collectionMap, roots, item, fields[..i])
      {
        WalkSnoc(start, collectionMap, roots, item, fields, i);
        var _ := SetAttribute(item, fields[i].0, fields[i].1);
      }
      assert fields[..|fields|] == fields;
    }

    /** One turn of the attribute loop: the cards made for field `key`, in order. */
    method SetAttribute(item: RemId, key: string, v: Value) returns (cards: seq<RemId>)
      requires WellTyped(key, v) && Resolvable(collectionMap, key, v)
      modifies store
      ensures MadeMany(store.nodes, cards) == FieldOn(old(store.nodes), collectionMap, roots, item, key, v)
    {
      if Skipped(key, v) {
        return [];
      }
      if key == "creators" {
        cards := CreatorCards(item, v.creators);
        return;
      }
      if key == "tags" {
        var backText, _ := MakeRefs(TagTexts(v.tags), Some(roots.tags));
        var id := MakeCard(store, [Text("Tags")], DropLast(backText), Some(item), Descriptor, NoDirection);
        return [id];
      }
      if key == "collections" {
        var backText: RichText := [];
        for i := 0 to |v.items|
          invariant backText == Pairs(CollectionIds(collectionMap, v.items[..i]))
        {
          var record := collectionMap[v.items[i]];
          ghost var ids := CollectionIds(collectionMap, v.items[..i + 1]);
          assert ids[..i] == CollectionIds(collectionMap, v.items[..i]);
          backText := backText + [Ref(record.remId), Sep];
        }
        assert v.items[..|v.items|] == v.items;
        var id := MakeCard(store, [Text("Collections")], DropLast(backText), Some(item), Descriptor, NoDirection);
        return [id];
      }
      var id := MakeCard(store, [Text(Capitalize(key))], [Generic(v)], Some(item), Descriptor, NoDirection);
      return [id];
    }

    /** The creators branch: group by role, then per role a node per name and one card. */
    method CreatorCards(item: RemId, cs: seq<Creator>) returns (cards: seq<RemId>)
      modifies store
      ensures MadeMany(store.nodes, cards) == CreatorCardsOn(old(store.nodes), Grouped(cs), roots, item)
    {
      var groups := GroupCreators(cs);
      ghost var start := store.nodes;
      cards := [];
      for g := 0 to |groups|
        invariant MadeMany(store.nodes, cards) == CreatorCardsOn(start, groups[..g], roots, item)
      {
        CreatorCardsSnoc(start, groups, g, roots, item);
        var id := RoleCard(item, groups[g]);
        cards := cards + [id];
      }
      assert groups[..|groups|] == groups;
    }

    /** The card of one role: a node per name under the creators document, then the card. */
    method RoleCard(item: RemId, g: Group) returns (id: RemId)
      modifies store
      ensures Made(store.nodes, id) == GroupCardOn(old(store.nodes), g, roots, item)
    {
      var backText, _ := MakeRefs(NameTexts(g.names), Some(roots.creators));
      id := MakeCard(store, [Text(Capitalize(g.creatorType))], DropLast(backText), Some(item), Descriptor, NoDirection);
    }

    /** `makeRem` per text under `parent`, pushing a reference and a separator for each. */
    method MakeRefs(texts: seq<RichText>, parent: Option<RemId>) returns (backText: RichText, refs: seq<RemId>)
      modifies store
      ensures MadeMany(store.nodes, refs) == MakeRemsOn(old(store.nodes), texts, parent, Some(false))
      ensures backText == Pairs(refs)
    {
      ghost var start := store.nodes;
      backText, refs := [], [];
      for i := 0 to |texts|
        invariant MadeMany(store.nodes, refs) == MakeRemsOn(start, texts[..i], parent, Some(false))
        invariant backText == Pairs(refs)
      {
        MakeRemsSnoc(start, texts, parent, Some(false), i);
        var id := MakeRem(store, texts[i], parent, Some(false));
        PairsSnoc(refs, id);
        backText := backText + [Ref(id), Sep];
        refs := refs + [id];
      }
      assert texts[..|texts|] == texts;
    }

    /** The update command: collections, their parents, then items. */
    method Update(cs: seq<Collection>, its: seq<Item>)
      requires Valid()
      requires var cmap := CollectionsPass(CState(store.nodes, collectionMap), roots.collections, cs).cmap;
               ParentsMapped(cmap) && ItemsReadable(cmap, its)
      modifies this, store
      ensures Valid()
      ensures var c := CollectionsPass(CState(old(store.nodes), old(collectionMap)), roots.collections, cs);
              && collectionMap == c.cmap
              && exists order, moved ::
                   && Enumerates(order, c.cmap)
                   && moved == Reparented(c.nodes, c.cmap, order)
                   && IState(store.nodes, itemsMap) == ItemsPass(IState(moved, old(itemsMap)), c.cmap, roots, its)
    {
      SyncCollections(cs);
      ghost var c := CState(store.nodes, collectionMap);
      MoveCollections();
      ghost var moved := store.nodes;
      SyncItems(its);
      ghost var order :| Enumerates(order, c.cmap) && moved == Reparented(c.nodes, c.cmap, order);
    }
  }
}
