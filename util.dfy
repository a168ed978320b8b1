/**
 * Sibling lookup among a parent's children, as enumerated by `forEachChild`. Children are
 * compared by identity, modelled as equality of the child values.
 */
module Util {
  import opened Wrappers

  /** The index of the first occurrence of `x`, or `|s|` when there is none. */
  function FirstIndex<T(==)>(s: seq<T>, x: T): (i: nat)
    ensures i <= |s|
    ensures i < |s| ==> s[i] == x
    ensures forall j :: 0 <= j < i ==> s[j] != x
  {
    if s == [] then 0
    else if s[0] == x then 0
    else 1 + FirstIndex(s[1..], x)
  }

  /** The first element of `s` other than `x`. */
  function FirstOther<T(==)>(s: seq<T>, x: T): (r: Option<T>)
    ensures r.None? <==> forall j :: 0 <= j < |s| ==> s[j] == x
    ensures r.Some? ==> r.value != x && r.value in s
  {
    if s == [] then None
    else if s[0] != x then Some(s[0])
    else FirstOther(s[1..], x)
  }

  /**
   * What the sibling-before scan ends with: the child just before the first occurrence
   * of `node`; when `node` never occurs, the last child scanned.
   */
  function SiblingBeforeOf<T(==)>(children: seq<T>, node: T): Option<T>
  {
    var i := FirstIndex(children, node);
    if i == 0 then None else Some(children[i - 1])
  }

  /**
   * What the sibling-after scan ends with: the first child after the first occurrence of
   * `node` that is not `node` itself; nothing when `node` never occurs.
   */
  function SiblingAfterOf<T(==)>(children: seq<T>, node: T): Option<T>
  {
    var i := FirstIndex(children, node);
    if i == |children| then None else FirstOther(children[i + 1..], node)
  }

  predicate Distinct<T(==)>(s: seq<T>) {
    forall a, b :: 0 <= a < b < |s| ==> s[a] != s[b]
  }

  lemma FirstIndexStep<T>(s: seq<T>, k: nat, x: T)
    requires k < |s|
    ensures FirstIndex(s[..k + 1], x)
         == if FirstIndex(s[..k], x) < k then FirstIndex(s[..k], x) else if s[k] == x then k else k + 1
  {
    var i := FirstIndex(s[..k], x);
    if i < k {
      assert s[..k + 1][i] == x;
    } else if s[k] == x {
      assert s[..k + 1][k] == x;
    }
  }

  /** One more child scanned: how the sibling-before state evolves. */
  lemma SiblingBeforeStep<T>(s: seq<T>, k: nat, x: T)
    requires k < |s|
    ensures SiblingBeforeOf(s[..k + 1], x)
         == if x in s[..k] || s[k] == x then SiblingBeforeOf(s[..k], x) else Some(s[k])
  {
    FirstIndexStep(s, k, x);
    if x in s[..k] {
      var j :| 0 <= j < k && s[..k][j] == x;
    }
  }

  /** One more child scanned: how the sibling-after state evolves. */
  lemma SiblingAfterStep<T>(s: seq<T>, k: nat, x: T)
    requires k < |s|
    ensures SiblingAfterOf(s[..k + 1], x)
         == if x !in s[..k] || s[k] == x || SiblingAfterOf(s[..k], x).Some? then SiblingAfterOf(s[..k], x)
            else Some(s[k])
  {
    if x in s[..k] {
      var j :| 0 <= j < k && s[..k][j] == x;
      SiblingAfterStepFound(s, k, x);
    } else {
      SiblingAfterStepNotFound(s, k, x);
    }
  }

  lemma SiblingAfterStepFound<T>(s: seq<T>, k: nat, x: T)
    requires k < |s| && FirstIndex(s[..k], x) < k
    ensures SiblingAfterOf(s[..k + 1], x)
         == if s[k] == x || SiblingAfterOf(s[..k], x).Some? then SiblingAfterOf(s[..k], x) else Some(s[k])
  {
    FirstIndexStep(s, k, x);
    var i := FirstIndex(s[..k], x);
    var before := s[..k][i + 1..];
    assert s[..k + 1][i + 1..] == before + [s[k]];
    FirstOtherAppend(before, s[k], x);
  }

  lemma SiblingAfterStepNotFound<T>(s: seq<T>, k: nat, x: T)
    requires k < |s| && FirstIndex(s[..k], x) == k
    ensures SiblingAfterOf(s[..k], x) == None && SiblingAfterOf(s[..k + 1], x) == None
  {
    FirstIndexStep(s, k, x);
    assert s[..k + 1][k + 1..] == [];
  }

  lemma {:induction false} FirstOtherAppend<T>(s: seq<T>, y: T, x: T)
    ensures FirstOther(s + [y], x) == if FirstOther(s, x).Some? then FirstOther(s, x) else if y != x then Some(y) else None
  {
    if s != [] {
      assert (s + [y])[1..] == s[1..] + [y];
      FirstOtherAppend(s[1..], y, x);
    }
  }

  /** The source's `getSiblingBefore`: one pass over the parent's children. */
  method GetSiblingBefore<T(==)>(children: seq<T>, node: T) returns (siblingBefore: Option<T>)
    ensures siblingBefore == SiblingBeforeOf(children, node)
  {
    siblingBefore := None;
    var foundNode := false;
    for k := 0 to |children|
      invariant foundNode <==> node in children[..k]
      invariant siblingBefore == SiblingBeforeOf(children[..k], node)
    {
      SiblingBeforeStep(children, k, node);
      var child := children[k];
      if child == node {
        foundNode := true;
      } else if !foundNode {
        siblingBefore := Some(child);
      }
      assert children[..k + 1] == children[..k] + [child];
    }
    assert children[..|children|] == children;
  }

  /** The source's `getSiblingAfter`: one pass over the parent's children. */
  method GetSiblingAfter<T(==)>(children: seq<T>, node: T) returns (siblingAfter: Option<T>)
    ensures siblingAfter == SiblingAfterOf(children, node)
  {
    siblingAfter := None;
    var foundNode := false;
    for k := 0 to |children|
      invariant foundNode <==> node in children[..k]
      invariant siblingAfter == SiblingAfterOf(children[..k], node)
    {
      SiblingAfterStep(children, k, node);
      var child := children[k];
      if child == node {
        foundNode := true;
      } else if foundNode && siblingAfter.None? {
        siblingAfter := Some(child);
      }
      assert children[..k + 1] == children[..k] + [child];
    }
    assert children[..|children|] == children;
  }

  /**
   * In a parent's child list (whose children are distinct) the sibling before a child is
   * the one immediately preceding it, none for the first child; the sibling after is
   * the one immediately following it, none for the last child.
   */
  lemma SiblingsAreNeighbours<T>(children: seq<T>, i: nat)
    requires Distinct(children) && i < |children|
    ensures SiblingBeforeOf(children, children[i]) == if i == 0 then None else Some(children[i - 1])
    ensures SiblingAfterOf(children, children[i]) == if i + 1 < |children| then Some(children[i + 1]) else None
  {
    var x := children[i];
    var f := FirstIndex(children, x);
    assert f == i;
    if i + 1 < |children| {
      assert children[i + 1..][0] == children[i + 1];
    } else {
      assert children[i + 1..] == [];
    }
  }
}
