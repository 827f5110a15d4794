/**
 * The objects the bibliography web API returns, restricted to the shapes
 * the plugin reads, and the records the plugin keeps about them.
 */
module Zotero {
  import opened Wrappers

  /** A remote collection; `parentCollection` is absent for a top-level one. */
  datatype Collection = Collection(key: string, name: string, version: int, parentCollection: Option<string>)

  /** The two creator formats of the API: first and last name, or one name. */
  datatype Creator =
    | TwoField(creatorType: string, firstName: string, lastName: string)
    | SingleField(creatorType: string, name: string)

  datatype Tag = Tag(tag: string)

  /**
   * A field value of an item: a string, an array (of strings, of creator
   * objects or of tag objects) or any other, non-array, object.
   */
  datatype Value =
    | Str(s: string)
    | Strings(items: seq<string>)
    | Creators(creators: seq<Creator>)
    | Tags(tags: seq<Tag>)
    | Object

  /**
   * A top-level item; `title` is absent for an item without one, such as a
   * standalone note. `fields` lists the item's properties in the order a
   * `for ... in` loop visits them.
   */
  datatype Item = Item(key: string, version: int, title: Option<string>, fields: seq<(string, Value)>)

  /** An entry of the plugin's persisted maps: the last snapshot and the id of its node. */
  datatype Record<T> = Record(snapshot: T, remId: nat)
}
