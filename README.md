# RemNote–Zotero integration, modelled in Dafny

This project models the plugin that mirrors a Zotero library into a RemNote
knowledge base. Each Zotero collection and each top-level item becomes a
document node. Each item field that passes the filter becomes a flashcard
under the item's node; the creators field gives one card per creator role.
Creators and tags become nodes that those cards reference. The model also
covers the "Paste Zotero Annotations" command, which turns a copied
annotation into a markdown reference.

RemNote's node graph is modelled as a node store. Node ids are indices into a
sequence of `Rem` records (text, parent, document flag, back text, type,
practice direction). A new id is the length of the store, and the lookup by
name returns the oldest node with that text under that parent.

The plugin works by changing state step by step, so the model pairs
imperative code with pure definitions:

- `RemUtils.MakeRem` and `RemUtils.MakeCard` call the store's methods as
  `makeRem` and `makeCard` do. Each is proved equal to a pure function on the
  store (`MakeRemOn`, `MakeCardOn`).
- `Sync.ZoteroSync` holds the two persisted maps. The first maps a
  collection key to `{collection, remId}`, the second an item key to
  `{item, remId}`.
- Each of its commands is proved to compute a pure pass:
  - the collection loop computes `Reconcile.CollectionsPass`;
  - the move loop computes `Reconcile.Reparented`;
  - the item loop computes `Reconcile.ItemsPass`;
  - the attribute walk computes `AttributeWalk.WalkOn`.
- The lemmas about those functions state what the plugin promises:
  - the version-keyed reconciliation;
  - where nodes end up;
  - which cards are made and what their back texts refer to.
- The clipboard parser is a pure function. It is written as two scanners, and
  proved against predicates that state what each regular expression matches.

Files:

| file | contents |
|---|---|
| wrappers.dfy | `Option` |
| zotero.dfy | the Zotero objects the plugin reads: collections, items, creators, tags, field values; map records |
| host.dfy | the node store and the host calls the plugin makes (`findByName`, `createRem`, the setters) |
| rem_utils.dfy | `makeRem`, `makeCard` |
| annotations.dfy | the clipboard command |
| attributes.dfy | `capitalize`, the field filter, creator grouping, the `", "`-joined back text |
| attribute_walk.dfy | the attribute walk of one item as a function on the store, and the back text of each card |
| reconcile.dfy | collection and item reconciliation, moving collections under their parents |
| sync.dfy | activation, the reset command and the update command, as a class over the store |

Two consequences of the code worth knowing:

- **The clipboard label is the leftmost citation.** The label expression
  takes the leftmost `[` whose shortest closing `]` is followed by
  `(zotero://select`. For a clipboard holding
  `[📝 Note](zotero://select/…) [Deng, 2018, p.24](zotero://select/…) [pdf](…)`,
  the inserted label is `📝 Note`, not `Deng, 2018, p.24`.
  `Annotations.FirstCitationWins` proves this for every clipboard that starts
  with a citation.
- **Reset followed by a sync reuses nodes.** A reset empties only the two
  maps. The next sync still looks up each unseen collection and item by name
  under its document, so a node with that name that is still there is reused,
  not recreated (`Reconcile.ResetReuses`). Collections that were moved under
  a parent collection are no longer under the collections document, so for
  those a new node is made, unless another node with that name is still
  under the collections document, which the lookup then reuses.

## Model

| member | source | states |
|---|---|---|
| Host.Find | src/lib/rem-utils.tsx:4 | the host lookup by name returns a node with exactly this text under exactly this parent, the oldest one, or none when no node matches |
| Host.RemStore.FindByName | src/lib/rem-utils.tsx:4 | the lookup returns `Find` of the current store |
| Host.RemStore.CreateRem | src/lib/rem-utils.tsx:6 | appends one blank node and returns its id, the old length |
| Host.RemStore.SetText | src/lib/rem-utils.tsx:7 | only the text of node `id` changes |
| Host.RemStore.SetParent | src/lib/rem-utils.tsx:8 | only the parent of node `id` changes |
| Host.RemStore.SetIsDocument | src/lib/rem-utils.tsx:9 | only the document flag of node `id` changes |
| Host.RemStore.SetBackText | src/lib/rem-utils.tsx:21 | only the back text of node `id` changes |
| Host.RemStore.SetType | src/lib/rem-utils.tsx:22 | only the type of node `id` changes |
| Host.RemStore.SetPracticeDirection | src/lib/rem-utils.tsx:23 | only the practice direction of node `id` changes |
| RemUtils.MakeRemOn | src/lib/rem-utils.tsx:3-12 | the returned node has the given text and parent; the store only grows, by at most one node; a created node is the fresh id, with the document flag set only when the argument is `true` |
| RemUtils.MakeRemExisting | src/lib/rem-utils.tsx:4-5 | when a node with this text and parent exists, the store is unchanged and the oldest match is returned |
| RemUtils.MakeRemAbsent | src/lib/rem-utils.tsx:5-10 | when no node matches, exactly one node is appended, with the given text and parent, and `null` counts as not a document |
| RemUtils.MakeRemIdempotent | src/lib/rem-utils.tsx:3-12 | a second call with the same arguments returns the same node and changes nothing |
| RemUtils.MakeRemStable | src/lib/rem-utils.tsx:4 | once a node is found or made, the same call on any later store that keeps old nodes' text and parent returns that node and creates nothing |
| RemUtils.MakeCardOn | src/lib/rem-utils.tsx:14-25 | the returned node has the given text, parent, back text, type and practice direction; at most one node is created; an existing node keeps its text, parent and document flag; no other node changes |
| RemUtils.MakeCardExisting | src/lib/rem-utils.tsx:15-20 | with a matching node, no node is created |
| RemUtils.MakeCardIdempotent | src/lib/rem-utils.tsx:14-25 | a second call with the same arguments returns the same card and changes nothing |
| RemUtils.MakeRem | src/lib/rem-utils.tsx:3-12 | the host calls of `makeRem` compute `MakeRemOn` of the old store |
| RemUtils.MakeCard | src/lib/rem-utils.tsx:14-25 | the host calls of `makeCard` compute `MakeCardOn` of the old store |
| Annotations.LinkClose | src/widgets/index.tsx:79 | the first `)` at or after the position, with no `)` or line terminator before it |
| Annotations.FindLink | src/widgets/index.tsx:79 | a result is a match of the link expression at or after the start position |
| Annotations.FindLinkLeftmost | src/widgets/index.tsx:79 | the link scanner returns the leftmost match, or none when the expression matches nowhere |
| Annotations.LinkCloseNone | src/widgets/index.tsx:79 | a failed close scan means every later `)` has a `)` or line terminator before it |
| Annotations.NoLinkMatchAt | src/widgets/index.tsx:79 | where the scanner sees no `[pdf](` with a closing `)`, the expression does not match |
| Annotations.LinkMatchUnique | src/widgets/index.tsx:79 | a lazy group ends at one place only: the first `)` |
| Annotations.LabelClose | src/widgets/index.tsx:82 | the first `]` followed by `(zotero://select`, with no line terminator before it |
| Annotations.FindLabel | src/widgets/index.tsx:82 | a result is a match of the label expression at or after the start position |
| Annotations.FindLabelLeftmost | src/widgets/index.tsx:82 | the label scanner returns the leftmost match, or none when the expression matches nowhere |
| Annotations.LabelCloseNone | src/widgets/index.tsx:82 | a failed close scan means every later qualifying `]` has an earlier qualifying `]` or a line terminator before it |
| Annotations.NoLabelMatchAt | src/widgets/index.tsx:82 | where the scanner sees no `[` with a qualifying `]`, the expression does not match |
| Annotations.LabelMatchUnique | src/widgets/index.tsx:82 | the label group ends at the first qualifying `]` only, so it may span an earlier plain `]` |
| Annotations.LabelCloseSkip | src/widgets/index.tsx:82 | the label scan passes over text holding no `]` and no line terminator |
| Annotations.FirstCitationWins | src/widgets/index.tsx:82-91 | for a clipboard starting with `[x](zotero://select`, the label is `x` whatever follows, so any inserted text is `Reference(x, link)` |
| Annotations.ParseSucceedsIff | src/widgets/index.tsx:85-92 | parsing yields text exactly when both expressions match somewhere |
| Annotations.ParseResult | src/widgets/index.tsx:79-91 | with the leftmost link match and the leftmost label match, the inserted text is `"[🕮 " + label + "](" + link + ")"` |
| Annotations.FindLinkIs | src/widgets/index.tsx:79-85 | given the leftmost match of the link expression, the link scanner returns exactly that match |
| Annotations.FindLabelIs | src/widgets/index.tsx:82-87 | given the leftmost match of the label expression, the label scanner returns exactly that match |
| Annotations.PasteFailure | src/widgets/index.tsx:86-95 | the command shows the toast exactly when one of the expressions matches nowhere, and the message is `"Failed to parse data in clipboard: "` followed by the clipboard text |
| Attributes.Capitalize | src/widgets/index.tsx:326-328 | keeps the length |
| Attributes.CapitalizeSpec | src/widgets/index.tsx:326-328 | the first character is upper-cased and the rest is unchanged; a string without a lower-case first letter is unchanged |
| Attributes.CapitalizeIdempotent | src/widgets/index.tsx:326-328 | capitalizing twice is capitalizing once |
| Attributes.JoinCommaEmpty | src/widgets/index.tsx:174 | an array of strings converts to `''` exactly when it is empty or holds one empty string |
| Attributes.SkippedExactly | src/widgets/index.tsx:170-182 | a field produces no card exactly when its key is one of the seven denied keys or its value is `''`, an empty array, `['']` or a non-array object |
| Attributes.DedupMembers | src/widgets/index.tsx:195-197 | the groups' roles are exactly the creators' roles |
| Attributes.DedupDistinct | src/widgets/index.tsx:195-197 | no role has two groups |
| Attributes.DedupFirstAppearance | src/widgets/index.tsx:195-199 | groups come in the order of each role's first appearance |
| Attributes.NamesOfTypeNonEmpty | src/widgets/index.tsx:195-197 | every role of the input has at least one name |
| Attributes.NamesOfTypeAbsent | src/widgets/index.tsx:195-197 | a role no creator has has no names |
| Attributes.GroupStep | src/widgets/index.tsx:187-198 | one more creator appends its role if new and appends its name to its role's names, in input order |
| Attributes.GroupPush | src/widgets/index.tsx:195-196 | a creator of a role already in the map has its name pushed onto that role's list; the map still holds, for every role seen, its names in input order |
| Attributes.GroupAdd | src/widgets/index.tsx:197 | a creator of a new role adds that role, with a list of its one name, at the end of the insertion order |
| Attributes.GroupsNonEmpty | src/widgets/index.tsx:186-198 | every group belongs to a role of the input and has at least one name |
| Attributes.GroupsByRole | src/widgets/index.tsx:186-198 | no two groups share a role, and every creator's role has a group |
| Attributes.GroupCreators | src/widgets/index.tsx:186-198 | the loop filling the role map returns `Grouped`: roles in first-appearance order, names (`first + " " + last` for a non-empty first name, else `name`) in input order |
| Attributes.GroupedFrom | src/widgets/index.tsx:199 | reading the role map in insertion order yields `Grouped` |
| Attributes.PairsShape | src/widgets/index.tsx:200-205 | after the pushes the array holds a reference and a separator per node, in order |
| Attributes.JoinedShape | src/widgets/index.tsx:206 | for n ≥ 1 nodes the back text has 2n−1 elements: references at even positions in input order, `", "` between them, none trailing; for none it is empty |
| AttributeWalk.EvolvesTransitive | src/widgets/index.tsx:167-234 | the walk's frame (old nodes keep text, parent and document flag; changed ones become non-practised descriptors) composes |
| AttributeWalk.CardsStable | src/widgets/index.tsx:184-233 | cards made earlier in the walk stay cards with the same front |
| AttributeWalk.MakeRemsOn | src/widgets/index.tsx:201-205 | one node per text, each with that text under the given parent, in order; the store only grows |
| AttributeWalk.RefersToIntro | src/widgets/index.tsx:200-206 | the joined references to nodes found for texts make a back text that refers to those texts |
| AttributeWalk.RefersToStable | src/widgets/index.tsx:184-233 | a back text keeps referring to its nodes while the walk goes on |
| AttributeWalk.CardOn | src/widgets/index.tsx:233 | `makeCard([front], back, item, DESCRIPTOR, 'none')` yields a non-practised descriptor with this front under the item and this back text; no other node changes |
| AttributeWalk.GroupCardOn | src/widgets/index.tsx:199-207 | one role's card is a descriptor with front `capitalize(role)` under the item; only new nodes and that card change |
| AttributeWalk.GroupCardBack | src/widgets/index.tsx:200-206 | a role's card refers to one node per name, under the creators document, in order; `NameTexts` gives each node's text: `[name]`, or `[undefined]` when the name is missing |
| AttributeWalk.CreatorCardsOn | src/widgets/index.tsx:199-207 | one card per group, in group order, each with front `capitalize(role)` |
| AttributeWalk.TagsCardOn | src/widgets/index.tsx:211-218 | the tags field yields a card with front `Tags` under the item |
| AttributeWalk.CreatorsFieldOn | src/widgets/index.tsx:184-208 | the creators field yields one card per role, fronts as the groups give them |
| AttributeWalk.FieldOn | src/widgets/index.tsx:168-233 | a skipped field changes nothing and makes no card; any other makes the cards `FieldFronts` names, in order: one per role for creators, `Tags`, `Collections` or `capitalize(key)` |
| AttributeWalk.WalkOn | src/widgets/index.tsx:167-234 | the walk over all fields keeps every old node's text, parent and document flag |
| AttributeWalk.WalkCards | src/widgets/index.tsx:167-234 | after the whole walk, every field's cards exist under the item with the fronts `FieldFronts` names: a card per role, `Tags`, `Collections` or `capitalize(key)`, none for a skipped field |
| AttributeWalk.GenericCardBack | src/widgets/index.tsx:233 | any other field's card has the value itself as its back text |
| AttributeWalk.TagsCardBack | src/widgets/index.tsx:211-218 | the `Tags` card refers to one node per tag, under the tags document, in order; `TagTexts` gives each node's text, the tag itself (`value.map(obj => obj.tag)`) |
| AttributeWalk.CollectionsCardBack | src/widgets/index.tsx:222-229 | the `Collections` card's back text is the mapped node of each collection key, as `CollectionIds` looks them up through the collection map, in order, `", "`-separated, 2n−1 elements |
| AttributeWalk.CreatorCardsBack | src/widgets/index.tsx:199-207 | with distinct fronts, each role's card refers to one node per name of that role (texts as `NameTexts` gives them), under the creators document, in input order |
| Reconcile.Renamed | src/widgets/index.tsx:133 | `setText` changes the text of that node only |
| Reconcile.CollectionStep | src/widgets/index.tsx:121-137 | one turn never removes a key, records the fetched version, keeps every known key's node and leaves other entries alone |
| Reconcile.CollectionUnseen | src/widgets/index.tsx:123-127 | an unseen key gains exactly one entry, holding the collection and the node `makeRem([name], collectionsRoot, true)` returns |
| Reconcile.CollectionUnchanged | src/widgets/index.tsx:129-131 | a known key with the same version changes neither the map nor the store |
| Reconcile.CollectionChanged | src/widgets/index.tsx:129-136 | a known key with another version keeps its node, replaces the snapshot and renames the node; no other node changes |
| Reconcile.CollectionsPass | src/widgets/index.tsx:121-138 | the pass keeps every entry's node in the store and never shrinks the store; existing nodes may be renamed |
| Reconcile.CollectionsPassKeys | src/widgets/index.tsx:121-138 | afterwards the keys are the old keys and the fetched keys: none is removed |
| Reconcile.CollectionsPassStable | src/widgets/index.tsx:129-135 | a key already in the map keeps its node |
| Reconcile.CollectionsPassLatest | src/widgets/index.tsx:127-135 | each fetched key's entry holds the version of the last collection fetched with that key |
| Reconcile.CollectionsPassSnapshots | src/widgets/index.tsx:127-135 | every entry is the old entry or holds a fetched collection with that key |
| Reconcile.CollectionsPassNoop | src/widgets/index.tsx:128-131 | when every fetched key is known at its version, nothing changes |
| Reconcile.CollectionsPassIdempotent | src/widgets/index.tsx:121-138 | with distinct fetched keys, a second pass changes nothing |
| Reconcile.CollectionsCollide | src/widgets/index.tsx:125 | two unseen collections with the same name share one node |
| Reconcile.ResetReuses | src/widgets/index.tsx:103-125 | after a reset, a collection whose name is still on a node under the collections document gets that node or an older one, and no node is made |
| Reconcile.MoveOne | src/widgets/index.tsx:142-146 | an entry with a parent key (`ParentOf`: `parentCollection` present and non-empty, the `if (parentCollection)` test) has its node moved under the parent's node; without one nothing changes; no other node and no other field changes |
| Reconcile.Reparented | src/widgets/index.tsx:141-148 | the move loop changes at most nodes' parents |
| Reconcile.ReparentedParents | src/widgets/index.tsx:141-148 | when no two entries share a node, each visited entry with a parent (as `ParentOf` decides) has its node under the parent's mapped node, and each without one has its node as it was |
| Reconcile.ReparentedFrame | src/widgets/index.tsx:141-148 | a node that no visited entry names is untouched |
| Reconcile.ItemStep | src/widgets/index.tsx:161-316 | one turn never removes a key, records the fetched version, keeps every known key's node and leaves other entries alone |
| Reconcile.ItemUnseen | src/widgets/index.tsx:163-236 | an unseen key gains exactly one entry, holding the item and the node `makeRem([title], itemsRoot, true)` returns, which is then walked and keeps its title and parent |
| Reconcile.ItemUnchanged | src/widgets/index.tsx:238-240 | a known key with the same version changes neither the map nor the store |
| Reconcile.ItemChanged | src/widgets/index.tsx:238-314 | a known key with another version keeps its node, retitles it, walks its fields again and replaces the snapshot |
| Reconcile.ItemCards | src/widgets/index.tsx:163-314 | an unseen or changed item ends up with every field's cards under its node, with the fronts `FieldFronts` names |
| Reconcile.ItemsPass | src/widgets/index.tsx:161-318 | the item loop keeps every entry's node in the store and never shrinks the store; existing nodes may be retitled and existing cards given new back texts |
| Reconcile.ItemsPassKeys | src/widgets/index.tsx:161-318 | afterwards the keys are the old keys and the fetched keys: none is removed |
| Reconcile.ItemsPassStable | src/widgets/index.tsx:238-314 | a key already in the map keeps its node |
| Reconcile.ItemsPassLatest | src/widgets/index.tsx:236-314 | each fetched key's entry holds the version of the last item fetched with that key |
| Reconcile.ItemsPassNoop | src/widgets/index.tsx:237-240 | when every fetched key is known at its version, nothing changes |
| Reconcile.ItemsPassIdempotent | src/widgets/index.tsx:161-318 | with distinct fetched keys, a second item loop changes nothing |
| Reconcile.ItemsCollide | src/widgets/index.tsx:165 | two unseen items with the same title, or both without one (rendered `undefined`), share one node, even after the first item's walk |
| Sync.ActivateOn | src/widgets/index.tsx:56-70 | activation leaves the library document at top level and the Collections, Items, Creators and Tags documents under it, each with its name; the store only grows, by at most five nodes |
| Sync.RootsDistinct | src/widgets/index.tsx:58-70 | the five documents are five distinct nodes |
| Sync.ZoteroSync.constructor | src/widgets/index.tsx:56-70 | the host calls at activation compute `ActivateOn` |
| Sync.ZoteroSync.Reset | src/widgets/index.tsx:103-104 | both maps become empty; the store is untouched |
| Sync.ZoteroSync.SyncCollections | src/widgets/index.tsx:115-138 | the collection loop computes `CollectionsPass` and leaves the items map alone |
| Sync.ZoteroSync.SyncCollection | src/widgets/index.tsx:122-137 | one turn of the collection loop computes `CollectionStep` |
| Sync.ZoteroSync.MoveCollections | src/widgets/index.tsx:141-148 | the move loop computes `Reparented` for some order listing each key once, changes only parents, and, when no two entries share a node, leaves each node under its parent's node |
| Sync.ZoteroSync.MoveEntry | src/widgets/index.tsx:142-147 | one turn of the move loop computes `MoveOne` |
| Sync.ZoteroSync.SyncItems | src/widgets/index.tsx:153-318 | the item loop computes `ItemsPass` and leaves the collection map alone |
| Sync.ZoteroSync.SyncItem | src/widgets/index.tsx:162-316 | one turn of the item loop computes `ItemStep`, and leaves the collection map alone |
| Sync.ZoteroSync.WalkAttributes | src/widgets/index.tsx:167-234 | the attribute loop computes `WalkOn` |
| Sync.ZoteroSync.SetAttribute | src/widgets/index.tsx:168-233 | one field's branch computes `FieldOn` and returns its cards |
| Sync.ZoteroSync.CreatorCards | src/widgets/index.tsx:184-208 | the creators branch computes `CreatorCardsOn` of the grouped creators |
| Sync.ZoteroSync.RoleCard | src/widgets/index.tsx:199-206 | one role's card, with a node per name, computes `GroupCardOn` |
| Sync.ZoteroSync.MakeRefs | src/widgets/index.tsx:200-205 | the push loop makes the nodes `MakeRemsOn` names and holds a reference and a separator per node |
| Sync.ZoteroSync.Update | src/widgets/index.tsx:112-318 | the update command reconciles the collections, moves them in some order, then reconciles the items against the updated collection map |

## Left out

- Settings registration and reads (src/widgets/index.tsx:10-46, 57): host configuration with no logic. The library document's name is a parameter.
- The Zotero client, its construction failure toast and the fetches (src/widgets/index.tsx:49-54, 118-119, 157-158): a foreign network library. The fetched collections and items are parameters.
- Clipboard read, editor insertion and toasts (src/widgets/index.tsx:83-84, 91, 95): host I/O. The command is the function `PasteAnnotation` from clipboard text to an `Insert` or a `Toast` outcome.
- Synced storage (src/widgets/index.tsx:115-117, 150, 153-155, 317): the maps are fields of `ZoteroSync`. Writing them back, including once per item, is not modelled. A missing stored map is the empty map.
- async/await and two update commands running at once: not sequential behaviour.
- Failures that abort a command are preconditions, not error paths:
  - the non-null assertions on `findOne` (src/widgets/index.tsx:132, 144, 241) become `Valid`, which says every entry names a node of the store;
  - the non-null assertions on `createRem()` (src/lib/rem-utils.tsx:6, 17) are not modelled: `Host.RemStore.CreateRem` always succeeds;
  - a missing parent collection (src/widgets/index.tsx:145) becomes `ParentsMapped`;
  - a missing collection key in an item (src/widgets/index.tsx:225, 303) becomes `Resolvable`.
- Field values of other shapes for the keys `creators`, `tags` and `collections`: `FieldsReadable` (through `WellTyped`) assumes the Zotero API's types for these three keys, an array of creator objects, of tag objects and of collection keys. The source would still run on other shapes, for example `tags` as plain strings would give `[undefined]` tag nodes; the model does not cover that.
- Nodes deleted or edited in RemNote between commands: the store changes only through the plugin.
- Attributes.Capitalize: upper-cases ASCII letters only. It does not model Unicode case mapping (`toUpperCase` of other letters, or of characters that grow when upper-cased).
- JavaScript values other than strings, arrays of strings, creators or tags, and non-array objects. Numbers and booleans, for which `value == ''` also holds for `0` and `false`, are not modelled. `Object` stands for every non-array object.
- The iteration order of the collection map in the move loop: `MoveCollections` picks keys in any order, and the model proves its properties for every order.
- Reconcile.ReparentedParents: stated only when no two entries share a node. Two collections with the same name share a node (`CollectionsCollide`). When their parents differ, the last one moved wins.
- Sync.ZoteroSync.MoveCollections: the parent property is stated under the same condition, for the same reason.
- AttributeWalk.CreatorCardsBack: stated for distinct card fronts. Two roles that capitalize to the same front share one card, and the later role's back text overwrites the earlier one's.
- Host.Find: the host's lookup by name does not say which node it returns when several nodes have the same text and parent, and the model settles on the oldest. Such duplicates arise after a rename (src/widgets/index.tsx:133, 243) or a move (src/widgets/index.tsx:146). The "oldest match" clause of `RemUtils.MakeRemExisting`, `RemUtils.MakeRemStable`, the "or an older one" of `Reconcile.ResetReuses` and `Reconcile.ItemsCollide`, which uses `MakeRemStable`, rest on this choice.
- AttributeWalk.WalkCards: states the cards' fronts only; back texts are stated per field (`GenericCardBack`, `TagsCardBack`, `CollectionsCardBack`, `CreatorCardsBack`). A later field whose card has the same front as an earlier one reuses that card and overwrites its back text, so an earlier field's back text is not promised after the whole walk.
- Reconcile.ItemsPass: requires every fetched item's fields to be readable, including those at their stored version, which the source never reads. Whether an item is walked depends on the map the earlier turns produce, so the fold states the condition for every item. The single turn (`ItemStep`, `Sync.ZoteroSync.SyncItem`) requires it only of an item it walks.
- Rich text is modelled as `Text`, `Ref`, a raw field value (`Raw`) and `undefined`. The host's formatting of rich text is not modelled.
