/**
 * The "Paste Zotero Annotations" command: two fixed regular expressions
 * applied to the clipboard text, written as hand-made scanners, with the
 * match each expression denotes stated separately as a predicate.
 *
 *   link:  /\[pdf]\((.*?)\)/
 *   label: /\[(.*?)\](?=\(zotero:\/\/select)/
 *
 * `.` matches any character except a JavaScript line terminator.
 */
module Annotations {
  import opened Wrappers

  const LinkOpen: string := "[pdf]("
  const SelectTarget: string := "(zotero://select"
  const FailurePrefix: string := "Failed to parse data in clipboard: "

  predicate IsLineTerminator(c: char) {
    c == '\n' || c == '\r' || c == '\U{2028}' || c == '\U{2029}'
  }

  predicate HasAt(s: string, p: string, i: nat) {
    i + |p| <= |s| && s[i..i + |p|] == p
  }

  /** The link expression matches at `i`, and its group is `s[i + |LinkOpen|..j]` (the `)` is at `j`). */
  ghost predicate LinkMatch(s: string, i: nat, j: nat) {
    && HasAt(s, LinkOpen, i)
    && i + |LinkOpen| <= j < |s|
    && s[j] == ')'
    && forall k :: i + |LinkOpen| <= k < j ==> s[k] != ')' && !IsLineTerminator(s[k])
  }

  /** The label expression matches at `a`, and its group is `s[a + 1..b]` (the `]` is at `b`). */
  ghost predicate LabelMatch(s: string, a: nat, b: nat) {
    && a < b < |s|
    && s[a] == '['
    && s[b] == ']'
    && HasAt(s, SelectTarget, b + 1)
    && forall k :: a + 1 <= k < b ==>
         !IsLineTerminator(s[k]) && !(s[k] == ']' && HasAt(s, SelectTarget, k + 1))
  }

  /** The first `)` at or after `k`, if no line terminator comes before it. */
  function LinkClose(s: string, k: nat): (r: Option<nat>)
    decreases |s| - k
    ensures r.Some? ==> k <= r.value < |s| && s[r.value] == ')'
    ensures r.Some? ==> forall m :: k <= m < r.value ==> s[m] != ')' && !IsLineTerminator(s[m])
  {
    if k >= |s| then None
    else if s[k] == ')' then Some(k)
    else if IsLineTerminator(s[k]) then None
    else LinkClose(s, k + 1)
  }

  lemma {:induction false} LinkCloseNone(s: string, k: nat, j: nat)
    requires LinkClose(s, k) == None
    requires k <= j < |s| && s[j] == ')'
    ensures exists m :: k <= m < j && (s[m] == ')' || IsLineTerminator(s[m]))
    decreases j - k
  {
    if s[k] != ')' && !IsLineTerminator(s[k]) {
      assert k < j;
      LinkCloseNone(s, k + 1, j);
      var m :| k + 1 <= m < j && (s[m] == ')' || IsLineTerminator(s[m]));
      assert k <= m < j;
    }
  }

  /** The leftmost match of the link expression starting at or after `i`: the start and the `)`. */
  function FindLink(s: string, i: nat): (r: Option<(nat, nat)>)
    decreases |s| - i
    ensures r.Some? ==> i <= r.value.0 && LinkMatch(s, r.value.0, r.value.1)
  {
    if i + |LinkOpen| > |s| then None
    else if HasAt(s, LinkOpen, i) && LinkClose(s, i + |LinkOpen|).Some? then
      Some((i, LinkClose(s, i + |LinkOpen|).value))
    else FindLink(s, i + 1)
  }

  lemma {:induction false} NoLinkMatchAt(s: string, i: nat, j: nat)
    requires !(HasAt(s, LinkOpen, i) && LinkClose(s, i + |LinkOpen|).Some?)
    ensures !LinkMatch(s, i, j)
  {
    if LinkMatch(s, i, j) {
      LinkCloseNone(s, i + |LinkOpen|, j);
    }
  }

  /** `FindLink` finds the leftmost match, or reports that there is none. */
  lemma {:induction false} FindLinkLeftmost(s: string, i: nat)
    ensures FindLink(s, i).Some? ==>
              forall a, b :: i <= a < FindLink(s, i).value.0 ==> !LinkMatch(s, a, b)
    ensures FindLink(s, i).None? ==> forall a, b :: i <= a ==> !LinkMatch(s, a, b)
    decreases |s| - i
  {
    if i + |LinkOpen| > |s| {
      forall a, b | i <= a ensures !LinkMatch(s, a, b) { }
    } else if HasAt(s, LinkOpen, i) && LinkClose(s, i + |LinkOpen|).Some? {
    } else {
      FindLinkLeftmost(s, i + 1);
      forall b ensures !LinkMatch(s, i, b) { NoLinkMatchAt(s, i, b); }
    }
  }

  /** The first `]` after `k` that is followed by `(zotero://select`, if no line terminator comes before it. */
  function LabelClose(s: string, k: nat): (r: Option<nat>)
    decreases |s| - k
    ensures r.Some? ==> k <= r.value < |s| && s[r.value] == ']' && HasAt(s, SelectTarget, r.value + 1)
    ensures r.Some? ==> forall m :: k <= m < r.value ==>
              !IsLineTerminator(s[m]) && !(s[m] == ']' && HasAt(s, SelectTarget, m + 1))
  {
    if k >= |s| then None
    else if s[k] == ']' && HasAt(s, SelectTarget, k + 1) then Some(k)
    else if IsLineTerminator(s[k]) then None
    else LabelClose(s, k + 1)
  }

  lemma {:induction false} LabelCloseNone(s: string, k: nat, j: nat)
    requires LabelClose(s, k) == None
    requires k <= j < |s| && s[j] == ']' && HasAt(s, SelectTarget, j + 1)
    ensures exists m :: k <= m < j && (IsLineTerminator(s[m]) || (s[m] == ']' && HasAt(s, SelectTarget, m + 1)))
    decreases j - k
  {
    if !(s[k] == ']' && HasAt(s, SelectTarget, k + 1)) && !IsLineTerminator(s[k]) {
      assert k < j;
      LabelCloseNone(s, k + 1, j);
      var m :| k + 1 <= m < j && (IsLineTerminator(s[m]) || (s[m] == ']' && HasAt(s, SelectTarget, m + 1)));
      assert k <= m < j;
    }
  }

  /** The leftmost match of the label expression starting at or after `a`: the `[` and the `]`. */
  function FindLabel(s: string, a: nat): (r: Option<(nat, nat)>)
    decreases |s| - a
    ensures r.Some? ==> a <= r.value.0 && LabelMatch(s, r.value.0, r.value.1)
  {
    if a >= |s| then None
    else if s[a] == '[' && LabelClose(s, a + 1).Some? then Some((a, LabelClose(s, a + 1).value))
    else FindLabel(s, a + 1)
  }

  lemma {:induction false} NoLabelMatchAt(s: string, a: nat, b: nat)
    requires !(a < |s| && s[a] == '[' && LabelClose(s, a + 1).Some?)
    ensures !LabelMatch(s, a, b)
  {
    if LabelMatch(s, a, b) {
      LabelCloseNone(s, a + 1, b);
    }
  }

  /** `FindLabel` finds the leftmost match, or reports that there is none. */
  lemma {:induction false} FindLabelLeftmost(s: string, a: nat)
    ensures FindLabel(s, a).Some? ==>
              forall x, y :: a <= x < FindLabel(s, a).value.0 ==> !LabelMatch(s, x, y)
    ensures FindLabel(s, a).None? ==> forall x, y :: a <= x ==> !LabelMatch(s, x, y)
    decreases |s| - a
  {
    if a >= |s| {
      forall x, y | a <= x ensures !LabelMatch(s, x, y) { }
    } else if s[a] == '[' && LabelClose(s, a + 1).Some? {
    } else {
      FindLabelLeftmost(s, a + 1);
      forall y ensures !LabelMatch(s, a, y) { NoLabelMatchAt(s, a, y); }
    }
  }

  /** The inserted markdown: `[🕮 label](link)`. */
  function Reference(citation: string, link: string): string {
    "[\U{1F56E} " + citation + "](" + link + ")"
  }

  /** The text to insert, or `None` when either expression fails to match. */
  function ParseClipboard(s: string): Option<string> {
    match FindLink(s, 0)
    case None => None
    case Some((i, j)) =>
      match FindLabel(s, 0)
      case None => None
      case Some((a, b)) => Some(Reference(s[a + 1..b], s[i + |LinkOpen|..j]))
  }

  datatype Outcome = Insert(markdown: string) | Toast(message: string)

  /** The whole command on the clipboard text: insert the reference, or show the failure toast. */
  function PasteAnnotation(clipboard: string): Outcome {
    match ParseClipboard(clipboard)
    case Some(md) => Insert(md)
    case None => Toast(FailurePrefix + clipboard)
  }

  /** Parsing succeeds exactly when both expressions match somewhere. */
  lemma ParseSucceedsIff(s: string)
    ensures ParseClipboard(s).Some? <==>
              (exists i, j :: LinkMatch(s, i, j)) && (exists a, b :: LabelMatch(s, a, b))
  {
    FindLinkLeftmost(s, 0);
    FindLabelLeftmost(s, 0);
    if FindLink(s, 0).Some? && FindLabel(s, 0).Some? {
      var (i, j) := FindLink(s, 0).value;
      var (a, b) := FindLabel(s, 0).value;
      assert LinkMatch(s, i, j) && LabelMatch(s, a, b);
    }
  }

  /**
   * With the leftmost link match at `i` (closing at `j`) and the leftmost
   * label match at `a` (closing at `b`), the inserted text is the label
   * and the link in the fixed format.
   */
  lemma ParseResult(s: string, i: nat, j: nat, a: nat, b: nat)
    requires LinkMatch(s, i, j) && forall x: nat, y: nat :: x < i ==> !LinkMatch(s, x, y)
    requires LabelMatch(s, a, b) && forall x: nat, y: nat :: x < a ==> !LabelMatch(s, x, y)
    ensures ParseClipboard(s) == Some("[\U{1F56E} " + s[a + 1..b] + "](" + s[i + |LinkOpen|..j] + ")")
  {
    FindLinkIs(s, i, j);
    FindLabelIs(s, a, b);
  }

  /** The link scanner returns the leftmost match. */
  lemma FindLinkIs(s: string, i: nat, j: nat)
    requires LinkMatch(s, i, j) && forall x: nat, y: nat :: x < i ==> !LinkMatch(s, x, y)
    ensures FindLink(s, 0) == Some((i, j))
  {
    FindLinkLeftmost(s, 0);
    var (i', j') := FindLink(s, 0).value;
    LinkMatchUnique(s, i, j, j');
  }

  /** The label scanner returns the leftmost match. */
  lemma FindLabelIs(s: string, a: nat, b: nat)
    requires LabelMatch(s, a, b) && forall x: nat, y: nat :: x < a ==> !LabelMatch(s, x, y)
    ensures FindLabel(s, 0) == Some((a, b))
  {
    FindLabelLeftmost(s, 0);
    var (a', b') := FindLabel(s, 0).value;
    LabelMatchUnique(s, a, b, b');
  }

  lemma LinkMatchUnique(s: string, i: nat, j: nat, j': nat)
    requires LinkMatch(s, i, j) && LinkMatch(s, i, j')
    ensures j == j'
  {
  }

  lemma LabelMatchUnique(s: string, a: nat, b: nat, b': nat)
    requires LabelMatch(s, a, b) && LabelMatch(s, a, b')
    ensures b == b'
  {
  }

  /** A failed parse inserts nothing and shows the clipboard text after the fixed prefix. */
  lemma PasteFailure(s: string)
    ensures PasteAnnotation(s).Toast? <==>
              (forall i, j :: !LinkMatch(s, i, j)) || (forall a, b :: !LabelMatch(s, a, b))
    ensures PasteAnnotation(s).Toast? ==> PasteAnnotation(s).message == FailurePrefix + s
  {
    ParseSucceedsIff(s);
  }
  /** The label scanner passes over a stretch without `]` or line terminator in one step. */
  lemma {:induction false} LabelCloseSkip(s: string, k: nat, m: nat)
    requires k <= m <= |s|
    requires forall t :: k <= t < m ==> s[t] != ']' && !IsLineTerminator(s[t])
    ensures LabelClose(s, k) == LabelClose(s, m)
    decreases m - k
  {
    if k < m {
      LabelCloseSkip(s, k + 1, m);
    }
  }

  /**
   * A clipboard that starts with a citation `[x](zotero://select...` gets
   * `x` as its label, whatever citations follow: only the leftmost one
   * counts.
   */
  lemma FirstCitationWins(x: string, rest: string)
    requires forall c :: c in x ==> c != ']' && !IsLineTerminator(c)
    ensures var s := "[" + x + "]" + SelectTarget + rest;
            && FindLabel(s, 0) == Some((0, |x| + 1))
            && s[1..|x| + 1] == x
            && (ParseClipboard(s).Some? ==> exists link :: ParseClipboard(s) == Some(Reference(x, link)))
  {
    var s := "[" + x + "]" + SelectTarget + rest;
    forall t | 1 <= t < |x| + 1 ensures s[t] != ']' && !IsLineTerminator(s[t]) {
      assert s[t] == x[t - 1];
      assert x[t - 1] in x;
    }
    LabelCloseSkip(s, 1, |x| + 1);
    assert s[|x| + 1] == ']';
    assert s[|x| + 2..|x| + 2 + |SelectTarget|] == SelectTarget;
    assert s[1..|x| + 1] == x;
  }
}
