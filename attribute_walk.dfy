/**
 * The attribute walk of one item, as a function on the node store: every
 * field that passes the filter becomes one card under the item's node (the
 * creators field one card per role), whose back text is the field's value
 * or a list of references to the nodes of its creators, tags or
 * collections.
 */
module AttributeWalk {
  import opened Wrappers
  import opened Zotero
  import opened Host
  import opened RemUtils
  import opened Attributes

  /** The five documents made at activation. */
  datatype Roots = Roots(library: RemId, collections: RemId, items: RemId, creators: RemId, tags: RemId)

  datatype MadeMany = MadeMany(nodes: seq<Rem>, ids: seq<RemId>)

  /**
   * Old nodes keep their text, parent and document flag; an old node that
   * changes otherwise has become a descriptor card that is not practised.
   */
  predicate Evolves(before: seq<Rem>, after: seq<Rem>) {
    && Preserves(before, after)
    && forall i :: 0 <= i < |before| ==>
         after[i] == before[i] || (after[i].remType == Descriptor && after[i].direction == NoDirection)
  }

  lemma EvolvesTransitive(a: seq<Rem>, b: seq<Rem>, c: seq<Rem>)
    requires Evolves(a, b) && Evolves(b, c)
    ensures Evolves(a, c)
  {
  }

  /** Node `id` is a card with front `front` under `item`, a descriptor that is not practised. */
  predicate IsCard(nodes: seq<Rem>, id: RemId, front: string, item: RemId) {
    && id < |nodes|
    && Named(nodes[id], [Text(front)], Some(item))
    && nodes[id].remType == Descriptor
    && nodes[id].direction == NoDirection
  }

  lemma CardsStable(a: seq<Rem>, b: seq<Rem>, ids: seq<RemId>, fronts: seq<string>, item: RemId)
    requires |ids| == |fronts| && forall k :: 0 <= k < |ids| ==> IsCard(a, ids[k], fronts[k], item)
    requires Evolves(a, b)
    ensures forall k :: 0 <= k < |ids| ==> IsCard(b, ids[k], fronts[k], item)
  {
    forall k | 0 <= k < |ids| ensures IsCard(b, ids[k], fronts[k], item) {
      assert ids[k] < |a|;
    }
  }

  /** The text of a node named by an optional string (a creator's name, an item's title): the string, or `undefined`. */
  function NameText(n: Option<string>): RichText {
    match n
    case Some(s) => [Text(s)]
    case None => [Undefined]
  }

  /** One node text per creator name, in order. */
  function NameTexts(names: seq<Option<string>>): seq<RichText>
  {
    seq(|names|, k requires 0 <= k < |names| => NameText(names[k]))
  }

  /** `value.map(obj => obj.tag)`, as node texts. */
  function TagTexts(tags: seq<Tag>): seq<RichText>
  {
    seq(|tags|, k requires 0 <= k < |tags| => [Text(tags[k].tag)])
  }

  /** `makeRem` once per text, in order, all under one parent: the ids of the nodes found or made. */
  function MakeRemsOn(nodes: seq<Rem>, texts: seq<RichText>, parent: Option<RemId>, isDocument: Option<bool>): (r: MadeMany)
    decreases |texts|
    ensures nodes <= r.nodes
    ensures |r.ids| == |texts|
    ensures forall k :: 0 <= k < |texts| ==> r.ids[k] < |r.nodes| && Named(r.nodes[r.ids[k]], texts[k], parent)
  {
    if texts == [] then MadeMany(nodes, [])
    else
      var p := MakeRemsOn(nodes, texts[..|texts| - 1], parent, isDocument);
      var m := MakeRemOn(p.nodes, texts[|texts| - 1], parent, isDocument);
      MadeMany(m.nodes, p.ids + [m.id])
  }

  /** `makeRem` for the first `i + 1` texts: for the first `i`, then one more. */
  lemma MakeRemsSnoc(nodes: seq<Rem>, texts: seq<RichText>, parent: Option<RemId>, isDocument: Option<bool>, i: nat)
    requires i < |texts|
    ensures MakeRemsOn(nodes, texts[..i + 1], parent, isDocument)
            == var p := MakeRemsOn(nodes, texts[..i], parent, isDocument);
               var m := MakeRemOn(p.nodes, texts[i], parent, isDocument);
               MadeMany(m.nodes, p.ids + [m.id])
  {
    assert texts[..i + 1][..i] == texts[..i];
  }

  /** `back` is the joined list of references to nodes with the texts `texts`, in order, under `parent`. */
  ghost predicate RefersTo(nodes: seq<Rem>, back: RichText, texts: seq<RichText>, parent: Option<RemId>) {
    exists refs: seq<RemId> ::
      && back == Joined(refs)
      && |refs| == |texts|
      && forall k :: 0 <= k < |refs| ==> refs[k] < |nodes| && Named(nodes[refs[k]], texts[k], parent)
  }

  lemma RefersToIntro(nodes: seq<Rem>, refs: seq<RemId>, texts: seq<RichText>, parent: Option<RemId>)
    requires |refs| == |texts|
    requires forall k :: 0 <= k < |refs| ==> refs[k] < |nodes| && Named(nodes[refs[k]], texts[k], parent)
    ensures RefersTo(nodes, Joined(refs), texts, parent)
  {
  }

  lemma RefersToStable(a: seq<Rem>, b: seq<Rem>, back: RichText, texts: seq<RichText>, parent: Option<RemId>)
    requires RefersTo(a, back, texts, parent) && Preserves(a, b)
    ensures RefersTo(b, back, texts, parent)
  {
    var refs :| back == Joined(refs) && |refs| == |texts|
                && forall k :: 0 <= k < |refs| ==> refs[k] < |a| && Named(a[refs[k]], texts[k], parent);
    assert forall k :: 0 <= k < |refs| ==> refs[k] < |b| && Named(b[refs[k]], texts[k], parent);
  }

  /** `makeCard([front], back, item, DESCRIPTOR, 'none')`. */
  function CardOn(nodes: seq<Rem>, front: string, back: RichText, item: RemId): (r: Made)
    ensures IsCard(r.nodes, r.id, front, item) && r.nodes[r.id].backText == back
    ensures Evolves(nodes, r.nodes)
    ensures forall i :: 0 <= i < |nodes| && i != r.id ==> r.nodes[i] == nodes[i]
  {
    MakeCardOn(nodes, [Text(front)], back, Some(item), Descriptor, NoDirection)
  }

  /** The reference card of one creator role: a node per name, then the card. */
  function GroupCardOn(nodes: seq<Rem>, g: Group, roots: Roots, item: RemId): (r: Made)
    ensures IsCard(r.nodes, r.id, Capitalize(g.creatorType), item)
    ensures Evolves(nodes, r.nodes)
    ensures forall i :: 0 <= i < |nodes| && i != r.id ==> r.nodes[i] == nodes[i]
  {
    var refs := MakeRemsOn(nodes, NameTexts(g.names), Some(roots.creators), Some(false));
    var card := CardOn(refs.nodes, Capitalize(g.creatorType), Joined(refs.ids), item);
    GrownThenCard(nodes, refs.nodes, card);
    card
  }

  /** New nodes appended, then one card set: old nodes other than the card are unchanged, and the card evolved. */
  lemma GrownThenCard(nodes: seq<Rem>, mid: seq<Rem>, card: Made)
    requires nodes <= mid && Evolves(mid, card.nodes)
    requires forall i :: 0 <= i < |mid| && i != card.id ==> card.nodes[i] == mid[i]
    ensures Evolves(nodes, card.nodes)
    ensures forall i :: 0 <= i < |nodes| && i != card.id ==> card.nodes[i] == nodes[i]
  {
    assert forall i :: 0 <= i < |nodes| ==> mid[i] == nodes[i];
  }

  /** A role's card refers to one node per name, under the creators document, in order. */
  lemma GroupCardBack(nodes: seq<Rem>, g: Group, roots: Roots, item: RemId)
    ensures var r := GroupCardOn(nodes, g, roots, item);
            RefersTo(r.nodes, r.nodes[r.id].backText, NameTexts(g.names), Some(roots.creators))
  {
    var refs := MakeRemsOn(nodes, NameTexts(g.names), Some(roots.creators), Some(false));
    var card := CardOn(refs.nodes, Capitalize(g.creatorType), Joined(refs.ids), item);
    RefersToIntro(refs.nodes, refs.ids, NameTexts(g.names), Some(roots.creators));
    RefersToStable(refs.nodes, card.nodes, Joined(refs.ids), NameTexts(g.names), Some(roots.creators));
  }

  /** The plugin's second creators loop: a card per group, in group order. */
  function CreatorCardsOn(nodes: seq<Rem>, groups: seq<Group>, roots: Roots, item: RemId): (r: MadeMany)
    decreases |groups|
    ensures Evolves(nodes, r.nodes)
    ensures |r.ids| == |groups|
    ensures forall k :: 0 <= k < |groups| ==> IsCard(r.nodes, r.ids[k], Capitalize(groups[k].creatorType), item)
  {
    if groups == [] then MadeMany(nodes, [])
    else
      var p := CreatorCardsOn(nodes, groups[..|groups| - 1], roots, item);
      var card := GroupCardOn(p.nodes, groups[|groups| - 1], roots, item);
      CreatorCardsStep(p, card, groups, item);
      EvolvesTransitive(nodes, p.nodes, card.nodes);
      MadeMany(card.nodes, p.ids + [card.id])
  }

  /** The cards of the first `g + 1` groups: those of the first `g`, then one more role's card. */
  lemma CreatorCardsSnoc(nodes: seq<Rem>, groups: seq<Group>, g: nat, roots: Roots, item: RemId)
    requires g < |groups|
    ensures CreatorCardsOn(nodes, groups[..g + 1], roots, item)
            == var p := CreatorCardsOn(nodes, groups[..g], roots, item);
               var card := GroupCardOn(p.nodes, groups[g], roots, item);
               MadeMany(card.nodes, p.ids + [card.id])
  {
    assert groups[..g + 1][..g] == groups[..g];
  }

  lemma CreatorCardsStep(p: MadeMany, card: Made, groups: seq<Group>, item: RemId)
    requires groups != [] && |p.ids| == |groups| - 1
    requires forall k :: 0 <= k < |groups| - 1 ==> IsCard(p.nodes, p.ids[k], Capitalize(groups[..|groups| - 1][k].creatorType), item)
    requires IsCard(card.nodes, card.id, Capitalize(groups[|groups| - 1].creatorType), item)
    requires Evolves(p.nodes, card.nodes)
    ensures forall k :: 0 <= k < |groups| ==>
              IsCard(card.nodes, (p.ids + [card.id])[k], Capitalize(groups[k].creatorType), item)
  {
    var n := |groups| - 1;
    var fronts := seq(n, k requires 0 <= k < n => Capitalize(groups[k].creatorType));
    forall k | 0 <= k < n ensures IsCard(p.nodes, p.ids[k], fronts[k], item) {
      assert groups[..n][k] == groups[k];
    }
    CardsStable(p.nodes, card.nodes, p.ids, fronts, item);
    forall k | 0 <= k < |groups|
      ensures IsCard(card.nodes, (p.ids + [card.id])[k], Capitalize(groups[k].creatorType), item)
    {
      if k < n {
        assert (p.ids + [card.id])[k] == p.ids[k];
        assert IsCard(card.nodes, p.ids[k], fronts[k], item);
      }
    }
  }

  /** The fields whose value must have a given shape for the walk to read it. */
  predicate WellTyped(key: string, v: Value) {
    !Skipped(key, v) ==>
      && (key == "creators" ==> v.Creators?)
      && (key == "tags" ==> v.Tags?)
      && (key == "collections" ==> v.Strings?)
  }

  /** Every collection key the field refers to is in the collection map. */
  predicate Resolvable(cmap: map<string, Record<Collection>>, key: string, v: Value) {
    !Skipped(key, v) && key == "collections" && v.Strings? ==> forall k :: k in v.items ==> k in cmap
  }

  /** The node ids of the collections `keys`, through the collection map. */
  function CollectionIds(cmap: map<string, Record<Collection>>, keys: seq<string>): seq<RemId>
    requires forall k :: k in keys ==> k in cmap
  {
    seq(|keys|, i requires 0 <= i < |keys| => cmap[keys[i]].remId)
  }

  /** The back text of a generic card: `[value]`. */
  function Generic(v: Value): RichElement {
    if v.Str? then Text(v.s) else Raw(v)
  }

  /**
   * The fronts of the cards a field makes: none for a skipped field, one
   * per role for creators, "Tags", "Collections", or the capitalized key.
   */
  function FieldFronts(key: string, v: Value): seq<string>
    requires WellTyped(key, v)
  {
    if Skipped(key, v) then []
    else if key == "creators" then
      var gs := Grouped(v.creators);
      seq(|gs|, k requires 0 <= k < |gs| => Capitalize(gs[k].creatorType))
    else if key == "tags" then ["Tags"]
    else if key == "collections" then ["Collections"]
    else [Capitalize(key)]
  }

  /** The card of the `tags` field: a node per tag under the tags document, then the card. */
  function TagsCardOn(nodes: seq<Rem>, tags: seq<Tag>, roots: Roots, item: RemId): (r: Made)
    ensures IsCard(r.nodes, r.id, "Tags", item) && Evolves(nodes, r.nodes)
  {
    var refs := MakeRemsOn(nodes, TagTexts(tags), Some(roots.tags), Some(false));
    CardOn(refs.nodes, "Tags", Joined(refs.ids), item)
  }

  /** The cards of the creators field, with the fronts `FieldFronts` names. */
  function CreatorsFieldOn(nodes: seq<Rem>, cs: seq<Creator>, roots: Roots, item: RemId): (r: MadeMany)
    ensures Evolves(nodes, r.nodes) && |r.ids| == |Grouped(cs)|
    ensures forall k :: 0 <= k < |r.ids| ==> IsCard(r.nodes, r.ids[k], Capitalize(Grouped(cs)[k].creatorType), item)
  {
    CreatorCardsOn(nodes, Grouped(cs), roots, item)
  }

  function Single(card: Made, ghost front: string, ghost nodes: seq<Rem>, ghost item: RemId): (r: MadeMany)
    requires IsCard(card.nodes, card.id, front, item) && Evolves(nodes, card.nodes)
    ensures Evolves(nodes, r.nodes) && |r.ids| == 1 && IsCard(r.nodes, r.ids[0], front, item)
  {
    MadeMany(card.nodes, [card.id])
  }

  /** One turn of the attribute loop: the store afterwards and the cards made, in order. */
  function FieldOn(
    nodes: seq<Rem>, cmap: map<string, Record<Collection>>, roots: Roots, item: RemId,
    key: string, v: Value): (r: MadeMany)
    requires WellTyped(key, v) && Resolvable(cmap, key, v)
    ensures Evolves(nodes, r.nodes)
    ensures Skipped(key, v) ==> r.nodes == nodes
    ensures |r.ids| == |FieldFronts(key, v)|
    ensures forall k :: 0 <= k < |r.ids| ==> IsCard(r.nodes, r.ids[k], FieldFronts(key, v)[k], item)
  {
    if Skipped(key, v) then MadeMany(nodes, [])
    else if key == "creators" then CreatorsFieldOn(nodes, v.creators, roots, item)
    else if key == "tags" then Single(TagsCardOn(nodes, v.tags, roots, item), "Tags", nodes, item)
    else if key == "collections" then
      Single(CardOn(nodes, "Collections", Joined(CollectionIds(cmap, v.items)), item), "Collections", nodes, item)
    else Single(CardOn(nodes, Capitalize(key), [Generic(v)], item), Capitalize(key), nodes, item)
  }

  predicate FieldsReadable(cmap: map<string, Record<Collection>>, fields: seq<(string, Value)>) {
    forall f :: f in fields ==> WellTyped(f.0, f.1) && Resolvable(cmap, f.0, f.1)
  }

  /** The whole attribute loop over the item's fields, in order. */
  function WalkOn(
    nodes: seq<Rem>, cmap: map<string, Record<Collection>>, roots: Roots, item: RemId,
    fields: seq<(string, Value)>): (r: seq<Rem>)
    requires FieldsReadable(cmap, fields)
    decreases |fields|
    ensures Evolves(nodes, r)
  {
    if fields == [] then nodes
    else
      var f := fields[|fields| - 1];
      ReadableLast(cmap, fields);
      var p := WalkOn(nodes, cmap, roots, item, fields[..|fields| - 1]);
      var r := FieldOn(p, cmap, roots, item, f.0, f.1).nodes;
      EvolvesTransitive(nodes, p, r);
      r
  }

  /** The fields of an item but the last are readable, and so is the last. */
  lemma ReadableLast(cmap: map<string, Record<Collection>>, fields: seq<(string, Value)>)
    requires fields != [] && FieldsReadable(cmap, fields)
    ensures FieldsReadable(cmap, fields[..|fields| - 1])
    ensures WellTyped(fields[|fields| - 1].0, fields[|fields| - 1].1) && Resolvable(cmap, fields[|fields| - 1].0, fields[|fields| - 1].1)
  {
    assert fields[|fields| - 1] in fields;
    assert forall f :: f in fields[..|fields| - 1] ==> f in fields;
  }

  /** The walk over the first `i + 1` fields: that over the first `i`, then one more field. */
  lemma WalkSnoc(
    nodes: seq<Rem>, cmap: map<string, Record<Collection>>, roots: Roots, item: RemId,
    fields: seq<(string, Value)>, i: nat)
    requires i < |fields| && FieldsReadable(cmap, fields)
    ensures FieldsReadable(cmap, fields[..i]) && WellTyped(fields[i].0, fields[i].1) && Resolvable(cmap, fields[i].0, fields[i].1)
    ensures WalkOn(nodes, cmap, roots, item, fields[..i + 1])
            == FieldOn(WalkOn(nodes, cmap, roots, item, fields[..i]), cmap, roots, item, fields[i].0, fields[i].1).nodes
  {
    assert fields[..i + 1][..i] == fields[..i];
    assert fields[i] in fields;
    assert forall f :: f in fields[..i] ==> f in fields;
  }

  /** The store holds a card under `item` for each of the fronts `fronts`. */
  ghost predicate HasCards(nodes: seq<Rem>, fronts: seq<string>, item: RemId) {
    exists ids: seq<RemId> :: |ids| == |fronts| && forall k :: 0 <= k < |ids| ==> IsCard(nodes, ids[k], fronts[k], item)
  }

  /** After the whole walk, every field's cards are still cards with their fronts under the item. */
  lemma {:induction false} WalkCards(
    nodes: seq<Rem>, cmap: map<string, Record<Collection>>, roots: Roots, item: RemId,
    fields: seq<(string, Value)>, i: nat)
    requires FieldsReadable(cmap, fields) && i < |fields|
    ensures WellTyped(fields[i].0, fields[i].1)
    ensures HasCards(WalkOn(nodes, cmap, roots, item, fields), FieldFronts(fields[i].0, fields[i].1), item)
    decreases |fields|
  {
    var n := |fields| - 1;
    WalkSnoc(nodes, cmap, roots, item, fields, n);
    assert fields[..n + 1] == fields;
    var p := WalkOn(nodes, cmap, roots, item, fields[..n]);
    var r := FieldOn(p, cmap, roots, item, fields[n].0, fields[n].1);
    var fronts := FieldFronts(fields[i].0, fields[i].1);
    if i == n {
      assert |r.ids| == |fronts| && forall k :: 0 <= k < |r.ids| ==> IsCard(r.nodes, r.ids[k], fronts[k], item);
    } else {
      assert fields[..n][i] == fields[i];
      WalkCards(nodes, cmap, roots, item, fields[..n], i);
      var ids :| |ids| == |fronts| && forall k :: 0 <= k < |ids| ==> IsCard(p, ids[k], fronts[k], item);
      CardsStable(p, r.nodes, ids, fronts, item);
    }
  }

  // ---------------------------------------------------------------------
  // The back text of each kind of card

  /** A generic card's back text is the value itself. */
  lemma GenericCardBack(
    nodes: seq<Rem>, cmap: map<string, Record<Collection>>, roots: Roots, item: RemId, key: string, v: Value)
    requires WellTyped(key, v) && Resolvable(cmap, key, v)
    requires !Skipped(key, v) && key != "creators" && key != "tags" && key != "collections"
    ensures var r := FieldOn(nodes, cmap, roots, item, key, v);
            |r.ids| == 1 && IsCard(r.nodes, r.ids[0], Capitalize(key), item)
            && r.nodes[r.ids[0]].backText == [if v.Str? then Text(v.s) else Raw(v)]
  {
  }

  /** The Tags card refers to one node per tag, named by the tag, under the tags document, in order. */
  lemma TagsCardBack(
    nodes: seq<Rem>, cmap: map<string, Record<Collection>>, roots: Roots, item: RemId, v: Value)
    requires WellTyped("tags", v) && !Skipped("tags", v)
    ensures var r := FieldOn(nodes, cmap, roots, item, "tags", v);
            |r.ids| == 1 && IsCard(r.nodes, r.ids[0], "Tags", item)
            && RefersTo(r.nodes, r.nodes[r.ids[0]].backText, TagTexts(v.tags), Some(roots.tags))
  {
    var refs := MakeRemsOn(nodes, TagTexts(v.tags), Some(roots.tags), Some(false));
    var card := CardOn(refs.nodes, "Tags", Joined(refs.ids), item);
    assert card == TagsCardOn(nodes, v.tags, roots, item);
    RefersToIntro(refs.nodes, refs.ids, TagTexts(v.tags), Some(roots.tags));
    RefersToStable(refs.nodes, card.nodes, Joined(refs.ids), TagTexts(v.tags), Some(roots.tags));
  }

  /** The Collections card refers to the mapped node of each collection key, in order. */
  lemma CollectionsCardBack(
    nodes: seq<Rem>, cmap: map<string, Record<Collection>>, roots: Roots, item: RemId, v: Value)
    requires WellTyped("collections", v) && Resolvable(cmap, "collections", v) && !Skipped("collections", v)
    ensures var r := FieldOn(nodes, cmap, roots, item, "collections", v);
            && |r.ids| == 1 && IsCard(r.nodes, r.ids[0], "Collections", item)
            && var back := r.nodes[r.ids[0]].backText;
               && |back| == 2 * |v.items| - 1
               && (forall i :: 0 <= i < |v.items| ==> back[2 * i] == Ref(cmap[v.items[i]].remId))
               && (forall i :: 0 <= i < |v.items| - 1 ==> back[2 * i + 1] == Sep)
  {
    var ids := CollectionIds(cmap, v.items);
    JoinedShape(ids);
    assert v.items != [];
  }

  /** Card `ids[k]` refers to one node per name of role `groups[k]`, under the creators document, in order. */
  ghost predicate CardsRefer(nodes: seq<Rem>, ids: seq<RemId>, groups: seq<Group>, roots: Roots) {
    && |ids| == |groups|
    && forall k :: 0 <= k < |ids| ==>
         ids[k] < |nodes| && RefersTo(nodes, nodes[ids[k]].backText, NameTexts(groups[k].names), Some(roots.creators))
  }

  /**
   * With distinct fronts, each role's card refers to one node per name of
   * that role, under the creators document, in input order.
   */
  lemma {:induction false} CreatorCardsBack(nodes: seq<Rem>, groups: seq<Group>, roots: Roots, item: RemId)
    requires forall i, j :: 0 <= i < j < |groups| ==> Capitalize(groups[i].creatorType) != Capitalize(groups[j].creatorType)
    ensures var r := CreatorCardsOn(nodes, groups, roots, item);
            CardsRefer(r.nodes, r.ids, groups, roots)
    decreases |groups|
  {
    if groups != [] {
      var n := |groups| - 1;
      var init := groups[..n];
      assert init + [groups[n]] == groups;
      var p := CreatorCardsOn(nodes, init, roots, item);
      var card := GroupCardOn(p.nodes, groups[n], roots, item);
      forall i, j | 0 <= i < j < |init|
        ensures Capitalize(init[i].creatorType) != Capitalize(init[j].creatorType)
      {
        assert init[i] == groups[i] && init[j] == groups[j];
      }
      CreatorCardsBack(nodes, init, roots, item);
      GroupCardBack(p.nodes, groups[n], roots, item);
      forall k | 0 <= k < n ensures Capitalize(init[k].creatorType) != Capitalize(groups[n].creatorType) {
        assert init[k] == groups[k];
      }
      EarlierCardsKept(p, card, init, groups[n], roots, item);
      CardsReferSnoc(card.nodes, p.ids, init, card.id, groups[n], roots);
    }
  }

  /** One more card that refers to the names of one more role. */
  lemma CardsReferSnoc(nodes: seq<Rem>, ids: seq<RemId>, groups: seq<Group>, id: RemId, g: Group, roots: Roots)
    requires CardsRefer(nodes, ids, groups, roots)
    requires id < |nodes| && RefersTo(nodes, nodes[id].backText, NameTexts(g.names), Some(roots.creators))
    ensures CardsRefer(nodes, ids + [id], groups + [g], roots)
  {
    var ids' := ids + [id];
    var groups' := groups + [g];
    forall k | 0 <= k < |ids'|
      ensures ids'[k] < |nodes| && RefersTo(nodes, nodes[ids'[k]].backText, NameTexts(groups'[k].names), Some(roots.creators))
    {
      if k < |ids| {
        assert ids'[k] == ids[k] && groups'[k] == groups[k];
      } else {
        assert ids'[k] == id && groups'[k] == g;
      }
    }
  }

  /** The card of a role with another front leaves every earlier role's card referring to its names. */
  lemma EarlierCardsKept(p: MadeMany, card: Made, init: seq<Group>, last: Group, roots: Roots, item: RemId)
    requires |p.ids| == |init|
    requires forall k :: 0 <= k < |init| ==> IsCard(p.nodes, p.ids[k], Capitalize(init[k].creatorType), item)
    requires forall k :: 0 <= k < |init| ==> Capitalize(init[k].creatorType) != Capitalize(last.creatorType)
    requires CardsRefer(p.nodes, p.ids, init, roots)
    requires IsCard(card.nodes, card.id, Capitalize(last.creatorType), item)
    requires Preserves(p.nodes, card.nodes)
    requires forall i :: 0 <= i < |p.nodes| && i != card.id ==> card.nodes[i] == p.nodes[i]
    ensures CardsRefer(card.nodes, p.ids, init, roots)
  {
    forall k | 0 <= k < |init|
      ensures RefersTo(card.nodes, card.nodes[p.ids[k]].backText, NameTexts(init[k].names), Some(roots.creators))
    {
      EarlierCardKept(p.nodes, card, p.ids[k], Capitalize(init[k].creatorType),
                      Capitalize(last.creatorType), item, NameTexts(init[k].names), Some(roots.creators));
    }
  }

  /** A later card with another front leaves an earlier card's references in place. */
  lemma EarlierCardKept(
    a: seq<Rem>, card: Made, id: RemId, front: string, other: string, item: RemId,
    texts: seq<RichText>, parent: Option<RemId>)
    requires IsCard(a, id, front, item) && IsCard(card.nodes, card.id, other, item) && front != other
    requires Preserves(a, card.nodes)
    requires forall i :: 0 <= i < |a| && i != card.id ==> card.nodes[i] == a[i]
    requires RefersTo(a, a[id].backText, texts, parent)
    ensures RefersTo(card.nodes, card.nodes[id].backText, texts, parent)
  {
    assert [Text(front)][0] != [Text(other)][0];
    assert id != card.id;
    RefersToStable(a, card.nodes, a[id].backText, texts, parent);
  }
}
