/**
 * The value-level parts of the attribute walk: `capitalize`, the field
 * filter, creator names and their grouping by role, and the
 * separator-joined reference lists used as back text.
 */
module Attributes {
  import opened Wrappers
  import opened Zotero
  import opened Host

  function UpperAscii(c: char): char {
    if 'a' <= c <= 'z' then (c as int - 32) as char else c
  }

  /** `capitalize`: the first character upper-cased, the rest unchanged ("xyzAbc" to "XyzAbc"). */
  function Capitalize(s: string): (r: string)
    ensures |r| == |s|
  {
    if s == [] then [] else [UpperAscii(s[0])] + s[1..]
  }

  lemma CapitalizeSpec(s: string)
    ensures |Capitalize(s)| == |s|
    ensures s != [] ==> Capitalize(s)[0] == UpperAscii(s[0]) && Capitalize(s)[1..] == s[1..]
    ensures s != [] && 'a' <= s[0] <= 'z' ==> 'A' <= Capitalize(s)[0] <= 'Z'
    ensures s != [] && !('a' <= s[0] <= 'z') ==> Capitalize(s) == s
  {
    if s != [] {
      assert Capitalize(s)[1..] == s[1..];
    }
  }

  lemma CapitalizeIdempotent(s: string)
    ensures Capitalize(Capitalize(s)) == Capitalize(s)
  {
    if s != [] {
      assert Capitalize(s)[0] == UpperAscii(s[0]);
      assert Capitalize(Capitalize(s))[1..] == Capitalize(s)[1..];
    }
  }

  // ---------------------------------------------------------------------
  // The field filter

  /** The keys whose fields never become cards. */
  predicate Denied(key: string) {
    key == "title" || key == "key" || key == "version" || key == "linkMode"
    || key == "dateAdded" || key == "dateModified" || key == "accessDate"
  }

  /** JavaScript's `String(array)` for an array of strings: the items joined by commas. */
  function JoinComma(items: seq<string>): string {
    if |items| == 0 then ""
    else if |items| == 1 then items[0]
    else items[0] + "," + JoinComma(items[1..])
  }

  lemma {:induction false} JoinCommaEmpty(items: seq<string>)
    ensures JoinComma(items) == "" <==> items == [] || items == [""]
  {
    if |items| >= 2 {
      assert |JoinComma(items)| >= 1;
    }
  }

  /** JavaScript's loose `value == ''`: an array compares by its comma-joined string. */
  predicate LooseEqualsEmpty(v: Value) {
    match v
    case Str(s) => s == ""
    case Strings(items) => JoinComma(items) == ""
    case Creators(cs) => cs == []
    case Tags(ts) => ts == []
    case Object => false
  }

  predicate IsArray(v: Value) {
    v.Strings? || v.Creators? || v.Tags?
  }

  function ArrayLength(v: Value): nat
    requires IsArray(v)
  {
    match v
    case Strings(items) => |items|
    case Creators(cs) => |cs|
    case Tags(ts) => |ts|
  }

  /** `typeof value == 'object'`. */
  predicate IsObject(v: Value) {
    !v.Str?
  }

  /** The four `continue`s at the head of the attribute loop, in source order. */
  predicate Skipped(key: string, v: Value) {
    || Denied(key)
    || LooseEqualsEmpty(v)
    || (IsArray(v) && ArrayLength(v) == 0)
    || (!IsArray(v) && IsObject(v))
  }

  /**
   * Exactly the denied keys, the empty string, the empty arrays, the
   * non-array objects, and also the array holding one empty string (the
   * loose comparison with '').
   */
  lemma SkippedExactly(key: string, v: Value)
    ensures Skipped(key, v) <==>
              || Denied(key) || v == Object || v == Str("")
              || v == Strings([]) || v == Strings([""]) || v == Creators([]) || v == Tags([])
  {
    if v.Strings? {
      JoinCommaEmpty(v.items);
    }
  }

  // ---------------------------------------------------------------------
  // Creators

  /**
   * A creator's display name: "first last" when the first name is
   * non-empty, otherwise the `name` property, which a two-field creator does
   * not have (`None`, JavaScript's `undefined`).
   */
  function CreatorName(c: Creator): Option<string> {
    match c
    case TwoField(_, first, last) => if first != "" then Some(first + " " + last) else None
    case SingleField(_, name) => Some(name)
  }

  function TypesOf(cs: seq<Creator>): (ts: seq<string>)
    ensures |ts| == |cs| && forall i :: 0 <= i < |cs| ==> ts[i] == cs[i].creatorType
  {
    if cs == [] then [] else TypesOf(cs[..|cs| - 1]) + [cs[|cs| - 1].creatorType]
  }

  /** Each string once, in order of first appearance. */
  function Dedup(xs: seq<string>): seq<string> {
    if xs == [] then []
    else
      var d := Dedup(xs[..|xs| - 1]);
      if xs[|xs| - 1] in d then d else d + [xs[|xs| - 1]]
  }

  /** The names of the creators of role `t`, in input order. */
  function NamesOfType(cs: seq<Creator>, t: string): seq<Option<string>> {
    if cs == [] then []
    else
      NamesOfType(cs[..|cs| - 1], t)
      + (if cs[|cs| - 1].creatorType == t then [CreatorName(cs[|cs| - 1])] else [])
  }

  datatype Group = Group(creatorType: string, names: seq<Option<string>>)

  /** The creators grouped by role: one group per role, in order of the role's first appearance. */
  function Grouped(cs: seq<Creator>): (gs: seq<Group>) {
    var ts := Dedup(TypesOf(cs));
    seq(|ts|, i requires 0 <= i < |ts| => Group(ts[i], NamesOfType(cs, ts[i])))
  }

  /** The index of the first occurrence of `x`. */
  function FirstIndex(xs: seq<string>, x: string): (k: nat)
    requires x in xs
    ensures k < |xs| && xs[k] == x && x !in xs[..k]
  {
    if x in xs[..|xs| - 1] then FirstIndex(xs[..|xs| - 1], x) else |xs| - 1
  }

  lemma {:induction false} DedupMembers(xs: seq<string>)
    ensures forall x :: x in Dedup(xs) <==> x in xs
  {
    if xs != [] {
      DedupMembers(xs[..|xs| - 1]);
      assert xs == xs[..|xs| - 1] + [xs[|xs| - 1]];
    }
  }

  lemma {:induction false} DedupDistinct(xs: seq<string>)
    ensures forall i, j :: 0 <= i < j < |Dedup(xs)| ==> Dedup(xs)[i] != Dedup(xs)[j]
  {
    if xs != [] {
      DedupDistinct(xs[..|xs| - 1]);
    }
  }

  /** Groups come in the order in which their roles first appear. */
  lemma {:induction false} DedupFirstAppearance(xs: seq<string>)
    ensures forall x :: x in Dedup(xs) ==> x in xs
    ensures forall i, j :: 0 <= i < j < |Dedup(xs)| ==>
              FirstIndex(xs, Dedup(xs)[i]) < FirstIndex(xs, Dedup(xs)[j])
  {
    DedupMembers(xs);
    if xs != [] {
      var p := xs[..|xs| - 1];
      var d := Dedup(p);
      DedupFirstAppearance(p);
      DedupMembers(p);
      forall x | x in d ensures FirstIndex(xs, x) == FirstIndex(p, x) {
        assert xs[..|xs| - 1] == p;
      }
    }
  }

  /** Every role gets a group, and every group has at least one name. */
  lemma {:induction false} NamesOfTypeNonEmpty(cs: seq<Creator>, t: string)
    requires t in TypesOf(cs)
    ensures |NamesOfType(cs, t)| >= 1
  {
    var p := cs[..|cs| - 1];
    if cs[|cs| - 1].creatorType != t {
      assert TypesOf(cs) == TypesOf(p) + [cs[|cs| - 1].creatorType];
      NamesOfTypeNonEmpty(p, t);
    }
  }

  /** One more creator: the three definitions each grow by their last step. */
  lemma GroupStep(cs: seq<Creator>, i: nat)
    requires i < |cs|
    ensures TypesOf(cs[..i + 1]) == TypesOf(cs[..i]) + [cs[i].creatorType]
    ensures Dedup(TypesOf(cs[..i + 1])) ==
              if cs[i].creatorType in Dedup(TypesOf(cs[..i])) then Dedup(TypesOf(cs[..i]))
              else Dedup(TypesOf(cs[..i])) + [cs[i].creatorType]
    ensures forall t :: NamesOfType(cs[..i + 1], t) ==
              NamesOfType(cs[..i], t) + (if cs[i].creatorType == t then [CreatorName(cs[i])] else [])
  {
    assert cs[..i + 1][..i] == cs[..i];
    var ts := TypesOf(cs[..i + 1]);
    assert ts[..|ts| - 1] == TypesOf(cs[..i]);
  }

  lemma {:induction false} NamesOfTypeAbsent(cs: seq<Creator>, t: string)
    requires t !in TypesOf(cs)
    ensures NamesOfType(cs, t) == []
  {
    if cs != [] {
      var p := cs[..|cs| - 1];
      assert TypesOf(cs) == TypesOf(p) + [cs[|cs| - 1].creatorType];
      NamesOfTypeAbsent(p, t);
    }
  }

  /** Every group belongs to a role of the input and has at least one name. */
  lemma GroupsNonEmpty(cs: seq<Creator>)
    ensures forall k :: 0 <= k < |Grouped(cs)| ==>
              Grouped(cs)[k].creatorType in TypesOf(cs) && |Grouped(cs)[k].names| >= 1
  {
    var ts := Dedup(TypesOf(cs));
    DedupMembers(TypesOf(cs));
    forall k | 0 <= k < |ts|
      ensures Grouped(cs)[k].creatorType in TypesOf(cs) && |Grouped(cs)[k].names| >= 1
    {
      assert ts[k] in TypesOf(cs);
      NamesOfTypeNonEmpty(cs, ts[k]);
    }
  }

  /** One group per role: no two groups share a role, and every creator's role has a group. */
  lemma GroupsByRole(cs: seq<Creator>)
    ensures forall i, j :: 0 <= i < j < |Grouped(cs)| ==> Grouped(cs)[i].creatorType != Grouped(cs)[j].creatorType
    ensures forall c :: c in cs ==> exists k :: 0 <= k < |Grouped(cs)| && Grouped(cs)[k].creatorType == c.creatorType
  {
    var ts := Dedup(TypesOf(cs));
    DedupMembers(TypesOf(cs));
    DedupDistinct(TypesOf(cs));
    forall c | c in cs ensures exists k :: 0 <= k < |ts| && Grouped(cs)[k].creatorType == c.creatorType {
      var i :| 0 <= i < |cs| && cs[i] == c;
      assert TypesOf(cs)[i] == c.creatorType;
      assert c.creatorType in ts;
      var k :| 0 <= k < |ts| && ts[k] == c.creatorType;
      assert Grouped(cs)[k].creatorType == c.creatorType;
    }
  }

  /** The role map and its insertion order after the first `i` creators. */
  ghost predicate GroupedUpTo(cs: seq<Creator>, i: nat, order: seq<string>, byType: map<string, seq<Option<string>>>)
    requires i <= |cs|
  {
    && order == Dedup(TypesOf(cs[..i]))
    && (forall t :: t in byType <==> t in order)
    && forall t :: t in byType ==> byType[t] == NamesOfType(cs[..i], t)
  }

  /** One more creator of a known role: its name is pushed onto that role's list. */
  lemma GroupPush(cs: seq<Creator>, i: nat, order: seq<string>, byType: map<string, seq<Option<string>>>)
    requires i < |cs| && GroupedUpTo(cs, i, order, byType) && cs[i].creatorType in byType
    ensures GroupedUpTo(cs, i + 1, order, byType[cs[i].creatorType := byType[cs[i].creatorType] + [CreatorName(cs[i])]])
  {
    var t := cs[i].creatorType;
    GroupStep(cs, i);
    var byType' := byType[t := byType[t] + [CreatorName(cs[i])]];
    forall u | u in byType' ensures byType'[u] == NamesOfType(cs[..i + 1], u) {
      if u != t {
        assert NamesOfType(cs[..i + 1], u) == NamesOfType(cs[..i], u) + [];
      }
    }
  }

  /** One more creator of a new role: the role is appended to the order with a list of one name. */
  lemma GroupAdd(cs: seq<Creator>, i: nat, order: seq<string>, byType: map<string, seq<Option<string>>>)
    requires i < |cs| && GroupedUpTo(cs, i, order, byType) && cs[i].creatorType !in byType
    ensures GroupedUpTo(cs, i + 1, order + [cs[i].creatorType], byType[cs[i].creatorType := [CreatorName(cs[i])]])
  {
    var t := cs[i].creatorType;
    GroupStep(cs, i);
    DedupMembers(TypesOf(cs[..i]));
    NamesOfTypeAbsent(cs[..i], t);
    var byType' := byType[t := [CreatorName(cs[i])]];
    forall u | u in byType' ensures byType'[u] == NamesOfType(cs[..i + 1], u) {
      if u != t {
        assert NamesOfType(cs[..i + 1], u) == NamesOfType(cs[..i], u) + [];
      }
    }
  }

  /**
   * The plugin's first creators loop: each creator's name is pushed onto
   * the list of its role in a `Map`, whose iteration order is the order in
   * which the roles were first set.
   */
  method GroupCreators(cs: seq<Creator>) returns (groups: seq<Group>)
    ensures groups == Grouped(cs)
  {
    var byType: map<string, seq<Option<string>>> := map[];
    var order: seq<string> := [];
    for i := 0 to |cs|
      invariant GroupedUpTo(cs, i, order, byType)
    {
      var c := cs[i];
      var name := CreatorName(c);
      if c.creatorType in byType {
        GroupPush(cs, i, order, byType);
        byType := byType[c.creatorType := byType[c.creatorType] + [name]];
      } else {
        GroupAdd(cs, i, order, byType);
        byType := byType[c.creatorType := [name]];
        order := order + [c.creatorType];
      }
    }
    assert cs[..|cs|] == cs;
    groups := seq(|order|, k requires 0 <= k < |order| => Group(order[k], byType[order[k]]));
    GroupedFrom(cs, order, byType, groups);
  }

  lemma GroupedFrom(cs: seq<Creator>, order: seq<string>, byType: map<string, seq<Option<string>>>, groups: seq<Group>)
    requires order == Dedup(TypesOf(cs))
    requires forall t :: t in byType <==> t in order
    requires forall t :: t in byType ==> byType[t] == NamesOfType(cs, t)
    requires |groups| == |order| && forall k :: 0 <= k < |order| ==> groups[k] == Group(order[k], byType[order[k]])
    ensures groups == Grouped(cs)
  {
  }

  // ---------------------------------------------------------------------
  // Back text

  const Sep: RichElement := Text(", ")

  /** The back-text array after the pushes: a reference and a separator per id. */
  function Pairs(ids: seq<RemId>): RichText {
    if ids == [] then [] else Pairs(ids[..|ids| - 1]) + [Ref(ids[|ids| - 1]), Sep]
  }

  /** Two more pushes: a reference and a separator. */
  lemma PairsSnoc(ids: seq<RemId>, id: RemId)
    ensures Pairs(ids + [id]) == Pairs(ids) + [Ref(id), Sep]
  {
    assert (ids + [id])[..|ids|] == ids;
  }

  /** JavaScript's `slice(0, -1)`: everything but the last element (nothing from nothing). */
  function DropLast(t: RichText): RichText {
    if t == [] then [] else t[..|t| - 1]
  }

  /** The back text of a reference card. */
  function Joined(ids: seq<RemId>): RichText {
    DropLast(Pairs(ids))
  }

  lemma {:induction false} PairsShape(ids: seq<RemId>)
    ensures |Pairs(ids)| == 2 * |ids|
    ensures forall k :: 0 <= k < |ids| ==> Pairs(ids)[2 * k] == Ref(ids[k]) && Pairs(ids)[2 * k + 1] == Sep
  {
    if ids != [] {
      var p := ids[..|ids| - 1];
      PairsShape(p);
      forall k | 0 <= k < |ids| ensures Pairs(ids)[2 * k] == Ref(ids[k]) && Pairs(ids)[2 * k + 1] == Sep {
        if k < |p| {
          assert Pairs(ids)[2 * k] == Pairs(p)[2 * k];
          assert Pairs(ids)[2 * k + 1] == Pairs(p)[2 * k + 1];
        }
      }
    }
  }

  /**
   * For n >= 1 ids the back text is ref 1, separator, ref 2, ..., ref n:
   * 2n - 1 elements, references in input order at the even positions,
   * separators between them and none at the end.
   */
  lemma JoinedShape(ids: seq<RemId>)
    ensures ids == [] ==> Joined(ids) == []
    ensures ids != [] ==> |Joined(ids)| == 2 * |ids| - 1
    ensures forall k :: 0 <= k < |ids| ==> Joined(ids)[2 * k] == Ref(ids[k])
    ensures forall k :: 0 <= k < |ids| - 1 ==> Joined(ids)[2 * k + 1] == Sep
  {
    PairsShape(ids);
  }
}
