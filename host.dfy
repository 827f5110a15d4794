/**
 * The host's note graph, as an abstract node store: node `i` is `nodes[i]`,
 * and a new node gets the next free id.
 */
module Host {
  import opened Wrappers
  import opened Zotero

  type RemId = nat

  /**
   * An element of rich text: a string, a reference to another node, a raw
   * field value handed over as it is, or JavaScript's `undefined`.
   */
  datatype RichElement = Text(s: string) | Ref(id: RemId) | Raw(v: Value) | Undefined

  type RichText = seq<RichElement>

  datatype RemType = DefaultType | Concept | Descriptor

  datatype PracticeDirection = Forward | Backward | NoDirection | Both

  datatype Rem = Rem(
    text: RichText,
    parent: Option<RemId>,
    isDocument: bool,
    backText: RichText,
    remType: RemType,
    direction: PracticeDirection)

  /** The node `createRem` returns, before anything is set on it. */
  const Blank: Rem := Rem([], None, false, [], DefaultType, Forward)

  predicate Named(r: Rem, text: RichText, parent: Option<RemId>) {
    r.text == text && r.parent == parent
  }

  function FindFrom(nodes: seq<Rem>, text: RichText, parent: Option<RemId>, from: nat): (r: Option<RemId>)
    requires from <= |nodes|
    decreases |nodes| - from
    ensures r.Some? ==> from <= r.value < |nodes| && Named(nodes[r.value], text, parent)
    ensures r.Some? ==> forall i :: from <= i < r.value ==> !Named(nodes[i], text, parent)
    ensures r.None? ==> forall i :: from <= i < |nodes| ==> !Named(nodes[i], text, parent)
  {
    if from == |nodes| then None
    else if Named(nodes[from], text, parent) then Some(from)
    else FindFrom(nodes, text, parent, from + 1)
  }

  /**
   * `findByName(text, parent)`: a node with exactly this text under this
   * parent, if there is one. Which one the host picks among several is not
   * specified; the model picks the oldest.
   */
  function Find(nodes: seq<Rem>, text: RichText, parent: Option<RemId>): (r: Option<RemId>)
    ensures r.Some? ==> r.value < |nodes| && Named(nodes[r.value], text, parent)
    ensures r.Some? ==> forall i :: 0 <= i < r.value ==> !Named(nodes[i], text, parent)
    ensures r.None? ==> forall i :: 0 <= i < |nodes| ==> !Named(nodes[i], text, parent)
  {
    FindFrom(nodes, text, parent, 0)
  }

  /** The host's node API, as the plugin calls it. */
  class RemStore {
    var nodes: seq<Rem>

    constructor ()
      ensures nodes == []
    {
      nodes := [];
    }

    method FindByName(text: RichText, parent: Option<RemId>) returns (r: Option<RemId>)
      ensures r == Find(nodes, text, parent)
    {
      r := Find(nodes, text, parent);
    }

    method CreateRem() returns (id: RemId)
      modifies this
      ensures id == old(|nodes|) && nodes == old(nodes) + [Blank]
    {
      id := |nodes|;
      nodes := nodes + [Blank];
    }

    method SetText(id: RemId, text: RichText)
      requires id < |nodes|
      modifies this
      ensures nodes == old(nodes)[id := old(nodes)[id].(text := text)]
    {
      nodes := nodes[id := nodes[id].(text := text)];
    }

    method SetParent(id: RemId, parent: Option<RemId>)
      requires id < |nodes|
      modifies this
      ensures nodes == old(nodes)[id := old(nodes)[id].(parent := parent)]
    {
      nodes := nodes[id := nodes[id].(parent := parent)];
    }

    method SetIsDocument(id: RemId, isDocument: bool)
      requires id < |nodes|
      modifies this
      ensures nodes == old(nodes)[id := old(nodes)[id].(isDocument := isDocument)]
    {
      nodes := nodes[id := nodes[id].(isDocument := isDocument)];
    }

    method SetBackText(id: RemId, backText: RichText)
      requires id < |nodes|
      modifies this
      ensures nodes == old(nodes)[id := old(nodes)[id].(backText := backText)]
    {
      nodes := nodes[id := nodes[id].(backText := backText)];
    }

    method SetType(id: RemId, remType: RemType)
      requires id < |nodes|
      modifies this
      ensures nodes == old(nodes)[id := old(nodes)[id].(remType := remType)]
    {
      nodes := nodes[id := nodes[id].(remType := remType)];
    }

    method SetPracticeDirection(id: RemId, direction: PracticeDirection)
      requires id < |nodes|
      modifies this
      ensures nodes == old(nodes)[id := old(nodes)[id].(direction := direction)]
    {
      nodes := nodes[id := nodes[id].(direction := direction)];
    }
  }
}
