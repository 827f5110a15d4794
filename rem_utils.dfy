/**
 * The two find-or-create helpers, `makeRem` and `makeCard`. Each is a
 * function on the node store (what the call does) and a method that makes
 * the same host calls as the plugin and is proved to do exactly that.
 */
module RemUtils {
  import opened Wrappers
  import opened Host

  datatype Made = Made(nodes: seq<Rem>, id: RemId)

  /** No node disappeared, and every old node kept its text, parent and document flag. */
  predicate Preserves(before: seq<Rem>, after: seq<Rem>) {
    && |before| <= |after|
    && forall i :: 0 <= i < |before| ==>
         after[i].text == before[i].text && after[i].parent == before[i].parent
         && after[i].isDocument == before[i].isDocument
  }

  /** The node `makeRem` creates when the lookup fails (`null` counts as `false`). */
  function NewRem(text: RichText, parent: Option<RemId>, isDocument: Option<bool>): Rem {
    Blank.(text := text, parent := parent, isDocument := isDocument == Some(true))
  }

  /** `makeRem(text, parent, isDocument)` on the node store. */
  function MakeRemOn(nodes: seq<Rem>, text: RichText, parent: Option<RemId>, isDocument: Option<bool>): (r: Made)
    ensures r.id < |r.nodes| && Named(r.nodes[r.id], text, parent)
    ensures nodes <= r.nodes && |r.nodes| <= |nodes| + 1
    ensures |r.nodes| == |nodes| + 1 ==> r.id == |nodes| && r.nodes[r.id] == NewRem(text, parent, isDocument)
  {
    match Find(nodes, text, parent)
    case Some(id) => Made(nodes, id)
    case None => Made(nodes + [NewRem(text, parent, isDocument)], |nodes|)
  }

  /** An existing match is returned, the oldest one, and nothing changes. */
  lemma MakeRemExisting(nodes: seq<Rem>, text: RichText, parent: Option<RemId>, isDocument: Option<bool>, id: RemId)
    requires id < |nodes| && Named(nodes[id], text, parent)
    ensures MakeRemOn(nodes, text, parent, isDocument).nodes == nodes
    ensures MakeRemOn(nodes, text, parent, isDocument).id <= id
    ensures forall i :: 0 <= i < MakeRemOn(nodes, text, parent, isDocument).id ==> !Named(nodes[i], text, parent)
  {
  }

  /** Without a match, exactly one fresh node is appended, with this text, parent and flag. */
  lemma MakeRemAbsent(nodes: seq<Rem>, text: RichText, parent: Option<RemId>, isDocument: Option<bool>)
    requires forall i :: 0 <= i < |nodes| ==> !Named(nodes[i], text, parent)
    ensures MakeRemOn(nodes, text, parent, isDocument).id == |nodes|
    ensures MakeRemOn(nodes, text, parent, isDocument).nodes
            == nodes + [Rem(text, parent, isDocument == Some(true), [], DefaultType, Forward)]
  {
  }

  /** A second call with the same arguments returns the same node and changes nothing. */
  lemma MakeRemIdempotent(nodes: seq<Rem>, text: RichText, parent: Option<RemId>, isDocument: Option<bool>)
    ensures var r := MakeRemOn(nodes, text, parent, isDocument);
            MakeRemOn(r.nodes, text, parent, isDocument) == r
  {
    var r := MakeRemOn(nodes, text, parent, isDocument);
    if Find(nodes, text, parent).None? {
      assert forall i :: 0 <= i < |nodes| ==> r.nodes[i] == nodes[i];
      assert Find(r.nodes, text, parent) == Some(|nodes|);
    }
  }

  /** `makeCard(text, backText, parent, type, practiceDirection)` on the node store. */
  function MakeCardOn(
    nodes: seq<Rem>, text: RichText, backText: RichText, parent: Option<RemId>,
    remType: RemType, direction: PracticeDirection): (r: Made)
    ensures r.id < |r.nodes| && Named(r.nodes[r.id], text, parent)
    ensures r.nodes[r.id].backText == backText
    ensures r.nodes[r.id].remType == remType && r.nodes[r.id].direction == direction
    ensures |nodes| <= |r.nodes| <= |nodes| + 1
    ensures forall i :: 0 <= i < |nodes| && i != r.id ==> r.nodes[i] == nodes[i]
    ensures r.id < |nodes| ==>
              r.nodes[r.id] == nodes[r.id].(backText := backText, remType := remType, direction := direction)
    ensures r.id >= |nodes| ==>
              r.id == |nodes| && r.nodes[r.id] == Rem(text, parent, false, backText, remType, direction)
    ensures Preserves(nodes, r.nodes)
  {
    var found :=
      match Find(nodes, text, parent)
      case Some(id) => Made(nodes, id)
      case None => Made(nodes + [Blank.(text := text, parent := parent)], |nodes|);
    Made(found.nodes[found.id := found.nodes[found.id].(backText := backText, remType := remType, direction := direction)],
         found.id)
  }

  /** With a match the card is that node: no node is created. */
  lemma MakeCardExisting(
    nodes: seq<Rem>, text: RichText, backText: RichText, parent: Option<RemId>,
    remType: RemType, direction: PracticeDirection, id: RemId)
    requires id < |nodes| && Named(nodes[id], text, parent)
    ensures var r := MakeCardOn(nodes, text, backText, parent, remType, direction);
            |r.nodes| == |nodes| && r.id <= id
  {
  }

  /** A second call with the same arguments returns the same card and changes nothing. */
  lemma MakeCardIdempotent(
    nodes: seq<Rem>, text: RichText, backText: RichText, parent: Option<RemId>,
    remType: RemType, direction: PracticeDirection)
    ensures var r := MakeCardOn(nodes, text, backText, parent, remType, direction);
            MakeCardOn(r.nodes, text, backText, parent, remType, direction) == r
  {
    var r := MakeCardOn(nodes, text, backText, parent, remType, direction);
    if Find(nodes, text, parent).None? {
      assert forall i :: 0 <= i < |nodes| ==> r.nodes[i] == nodes[i];
      assert Find(r.nodes, text, parent) == Some(|nodes|);
    } else {
      assert Find(r.nodes, text, parent) == Find(nodes, text, parent);
    }
  }

  /**
   * Once `makeRem` has found or made a node, the same call on any store
   * that keeps the old nodes' text and parent finds that node again.
   */
  lemma MakeRemStable(nodes: seq<Rem>, later: seq<Rem>, text: RichText, parent: Option<RemId>, isDocument: Option<bool>)
    requires Preserves(MakeRemOn(nodes, text, parent, isDocument).nodes, later)
    ensures MakeRemOn(later, text, parent, isDocument) == Made(later, MakeRemOn(nodes, text, parent, isDocument).id)
  {
    var r := MakeRemOn(nodes, text, parent, isDocument);
    assert forall i :: 0 <= i < r.id ==> !Named(r.nodes[i], text, parent) by {
      if Find(nodes, text, parent).None? {
        assert forall i :: 0 <= i < |nodes| ==> r.nodes[i] == nodes[i];
      }
    }
    assert Named(later[r.id], text, parent);
    var f := Find(later, text, parent);
    assert f.Some? && f.value <= r.id;
  }

  method MakeRem(store: RemStore, text: RichText, parent: Option<RemId>, isDocument: Option<bool>) returns (id: RemId)
    modifies store
    ensures Made(store.nodes, id) == MakeRemOn(old(store.nodes), text, parent, isDocument)
  {
    var found := store.FindByName(text, parent);
    if found.Some? {
      return found.value;
    }
    id := store.CreateRem();
    store.SetText(id, text);
    store.SetParent(id, parent);
    store.SetIsDocument(id, if isDocument == Some(true) then true else false);
  }

  method MakeCard(
    store: RemStore, text: RichText, backText: RichText, parent: Option<RemId>,
    remType: RemType, direction: PracticeDirection) returns (id: RemId)
    modifies store
    ensures Made(store.nodes, id) == MakeCardOn(old(store.nodes), text, backText, parent, remType, direction)
  {
    var found := store.FindByName(text, parent);
    if found.Some? {
      id := found.value;
    } else {
      id := store.CreateRem();
      store.SetText(id, text);
      store.SetParent(id, parent);
    }
    store.SetBackText(id, backText);
    store.SetType(id, remType);
    store.SetPracticeDirection(id, direction);
  }
}
