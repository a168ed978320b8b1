/**
 * What both rules share: the records a rule function returns, the
 * pre-order walk that feeds every node of a file to the rule, and the diagnostic sink
 * the walk appends to.
 */
module NodeRuleHelpers {
  import opened Wrappers

  /** A text edit proposed as a fix: replace `length` characters at offset `start` by `text`. */
  datatype Replacement = Replacement(start: int, length: int, text: string)

  /**
   * A node a rule found invalid. `message` is present for records built by
   * MarkAsInvalidNode and absent for those built by CreateInvalidNode.
   */
  datatype InvalidNode<A> = InvalidNode(node: A, message: Option<string>, replacements: seq<Replacement>)

  /** What a rule function returns for one node; an absent `skipChildren` means "descend". */
  datatype RuleFunctionResult<A> = RuleFunctionResult(invalidNodes: seq<InvalidNode<A>>, skipChildren: Option<bool>)

  /** One entry of the host's diagnostic sink. */
  datatype RuleFailure<A> = RuleFailure(node: A, failure: string, fix: seq<Replacement>)

  /** A syntax tree as the host's `forEachChild` enumerates it. */
  datatype Tree<N> = Tree(node: N, children: seq<Tree<N>>)

  /** The record the rule files build for each violation. */
  function MarkAsInvalidNode<A>(node: A, message: string, replacements: seq<Replacement>): InvalidNode<A>
  {
    InvalidNode(node, Some(message), replacements)
  }

  /** Builds an invalid-node record; omitted replacements default to none. */
  function CreateInvalidNode<A>(node: A, replacements: Option<seq<Replacement>>): (r: InvalidNode<A>)
    ensures r.node == node && r.message.None?
    ensures replacements.None? ==> r.replacements == []
    ensures replacements.Some? ==> r.replacements == replacements.value
  {
    InvalidNode(node, None, replacements.GetOr([]))
  }

  /** The walk stops descending only on an explicit `skipChildren === true`. */
  predicate Skips<A>(r: RuleFunctionResult<A>) {
    r.skipChildren == Some(true)
  }

  /** The sink entries for a list of invalid nodes, in list order. */
  function FailuresOf<A>(invalidNodes: seq<InvalidNode<A>>, failureString: string): (r: seq<RuleFailure<A>>)
    ensures |r| == |invalidNodes|
    ensures forall i :: 0 <= i < |r| ==>
      r[i] == RuleFailure(invalidNodes[i].node, failureString, invalidNodes[i].replacements)
  {
    if invalidNodes == [] then []
    else [RuleFailure(invalidNodes[0].node, failureString, invalidNodes[0].replacements)]
         + FailuresOf(invalidNodes[1..], failureString)
  }

  /** The nodes the walk hands to the rule, in order, for a subtree `t`. */
  function Visited<N, C, A>(rule: (N, Option<C>) -> RuleFunctionResult<A>, checker: Option<C>, t: Tree<N>): seq<N>
    decreases t
  {
    [t.node] + (if Skips(rule(t.node, checker)) then [] else VisitedAll(rule, checker, t.children))
  }

  function VisitedAll<N, C, A>(rule: (N, Option<C>) -> RuleFunctionResult<A>, checker: Option<C>, ts: seq<Tree<N>>): seq<N>
    decreases ts
  {
    if ts == [] then [] else Visited(rule, checker, ts[0]) + VisitedAll(rule, checker, ts[1..])
  }

  /** Plain pre-order of a subtree, the reference order for the walk. */
  function Preorder<N>(t: Tree<N>): seq<N>
    decreases t
  {
    [t.node] + PreorderAll(t.children)
  }

  function PreorderAll<N>(ts: seq<Tree<N>>): seq<N>
    decreases ts
  {
    if ts == [] then [] else Preorder(ts[0]) + PreorderAll(ts[1..])
  }

  /** What the walk appends to the sink for a subtree `t`. */
  function Reports<N, C, A>(rule: (N, Option<C>) -> RuleFunctionResult<A>, checker: Option<C>,
                            failureString: string, t: Tree<N>): seq<RuleFailure<A>>
    decreases t
  {
    var res := rule(t.node, checker);
    FailuresOf(res.invalidNodes, failureString)
      + (if Skips(res) then [] else ReportsAll(rule, checker, failureString, t.children))
  }

  function ReportsAll<N, C, A>(rule: (N, Option<C>) -> RuleFunctionResult<A>, checker: Option<C>,
                               failureString: string, ts: seq<Tree<N>>): seq<RuleFailure<A>>
    decreases ts
  {
    if ts == [] then [] else Reports(rule, checker, failureString, ts[0]) + ReportsAll(rule, checker, failureString, ts[1..])
  }

  /** The sink entries produced for a sequence of visited nodes, node by node. */
  function FailuresAlong<N, C, A>(rule: (N, Option<C>) -> RuleFunctionResult<A>, checker: Option<C>,
                                  failureString: string, ns: seq<N>): seq<RuleFailure<A>>
  {
    if ns == [] then []
    else FailuresOf(rule(ns[0], checker).invalidNodes, failureString) + FailuresAlong(rule, checker, failureString, ns[1..])
  }

  /** The host's walk context: the diagnostic sink the walk appends to. */
  class WalkContext<A> {
    var failures: seq<RuleFailure<A>>

    constructor ()
      ensures failures == []
    {
      failures := [];
    }

    method AddFailureAtNode(node: A, failure: string, fix: seq<Replacement>)
      modifies this
      ensures failures == old(failures) + [RuleFailure(node, failure, fix)]
    {
      failures := failures + [RuleFailure(node, failure, fix)];
    }
  }

  /** Appends one sink entry per invalid node, in order, each with the rule's failure string. */
  method ReportInvalidNodes<A>(invalidNodes: seq<InvalidNode<A>>, ctx: WalkContext<A>, failureString: string)
    modifies ctx
    ensures ctx.failures == old(ctx.failures) + FailuresOf(invalidNodes, failureString)
  {
    for i := 0 to |invalidNodes|
      invariant ctx.failures == old(ctx.failures) + FailuresOf(invalidNodes[..i], failureString)
    {
      FailuresOfStep(invalidNodes, i, failureString);
      AppendAssociates(old(ctx.failures), FailuresOf(invalidNodes[..i], failureString),
                       [RuleFailure(invalidNodes[i].node, failureString, invalidNodes[i].replacements)]);
      ctx.AddFailureAtNode(invalidNodes[i].node, failureString, invalidNodes[i].replacements);
    }
    assert invalidNodes[..|invalidNodes|] == invalidNodes;
  }

  /**
   * Walks a source file: every node below the root is passed to the rule in pre-order,
   * together with the checker when one is supplied, and its invalid nodes are reported
   * before its children are visited.
   */
  method Walk<N, C, A>(ctx: WalkContext<A>, rule: (N, Option<C>) -> RuleFunctionResult<A>,
                       failureString: string, checker: Option<C>, sourceFile: Tree<N>)
    modifies ctx
    ensures ctx.failures == old(ctx.failures) + ReportsAll(rule, checker, failureString, sourceFile.children)
  {
    ForEachChild(ctx, rule, failureString, checker, sourceFile.children);
  }

  /** The walk's callback for one node. */
  method VisitNode<N, C, A>(ctx: WalkContext<A>, rule: (N, Option<C>) -> RuleFunctionResult<A>,
                            failureString: string, checker: Option<C>, t: Tree<N>)
    modifies ctx
    ensures ctx.failures == old(ctx.failures) + Reports(rule, checker, failureString, t)
    decreases t
  {
    var res := rule(t.node, checker);
    ghost var own := FailuresOf(res.invalidNodes, failureString);
    ReportInvalidNodes(res.invalidNodes, ctx, failureString);
    if res.skipChildren == Some(true) {
      assert own + [] == own;
      return;
    }
    AppendAssociates(old(ctx.failures), own, ReportsAll(rule, checker, failureString, t.children));
    ForEachChild(ctx, rule, failureString, checker, t.children);
  }

  /** Calls the callback on each child in order. */
  method ForEachChild<N, C, A>(ctx: WalkContext<A>, rule: (N, Option<C>) -> RuleFunctionResult<A>,
                               failureString: string, checker: Option<C>, ts: seq<Tree<N>>)
    modifies ctx
    ensures ctx.failures == old(ctx.failures) + ReportsAll(rule, checker, failureString, ts)
    decreases ts
  {
    for i := 0 to |ts|
      invariant ctx.failures == old(ctx.failures) + ReportsAll(rule, checker, failureString, ts[..i])
    {
      var child := ts[i];
      assert child in ts;
      ReportsAllStep(rule, checker, failureString, ts, i);
      AppendAssociates(old(ctx.failures), ReportsAll(rule, checker, failureString, ts[..i]),
                       Reports(rule, checker, failureString, child));
      VisitNode(ctx, rule, failureString, checker, child);
    }
    assert ts[..|ts|] == ts;
  }

  lemma {:induction false} FailuresOfAppend<A>(s: seq<InvalidNode<A>>, x: InvalidNode<A>, failureString: string)
    ensures FailuresOf(s + [x], failureString) == FailuresOf(s, failureString) + FailuresOf([x], failureString)
  {
    // FailuresOf is determined pointwise by its ensures clauses.
  }

  /** One more invalid node reported: its sink entry follows those of the nodes before it. */
  lemma FailuresOfStep<A>(invalidNodes: seq<InvalidNode<A>>, i: nat, failureString: string)
    requires i < |invalidNodes|
    ensures FailuresOf(invalidNodes[..i + 1], failureString)
         == FailuresOf(invalidNodes[..i], failureString)
            + [RuleFailure(invalidNodes[i].node, failureString, invalidNodes[i].replacements)]
  {
    FailuresOfAppend(invalidNodes[..i], invalidNodes[i], failureString);
    assert invalidNodes[..i + 1] == invalidNodes[..i] + [invalidNodes[i]];
  }

  /** One more child visited: its reports follow those of the children before it. */
  lemma ReportsAllStep<N, C, A>(rule: (N, Option<C>) -> RuleFunctionResult<A>, checker: Option<C>,
                                failureString: string, ts: seq<Tree<N>>, i: nat)
    requires i < |ts|
    ensures ReportsAll(rule, checker, failureString, ts[..i + 1])
         == ReportsAll(rule, checker, failureString, ts[..i]) + Reports(rule, checker, failureString, ts[i])
  {
    ReportsAllAppend(rule, checker, failureString, ts[..i], ts[i]);
    assert ts[..i + 1] == ts[..i] + [ts[i]];
  }

  lemma AppendAssociates<T>(a: seq<T>, b: seq<T>, c: seq<T>)
    ensures a + (b + c) == a + b + c
  {
  }

  lemma {:induction false} ReportsAllAppend<N, C, A>(rule: (N, Option<C>) -> RuleFunctionResult<A>, checker: Option<C>,
                                                     failureString: string, ts: seq<Tree<N>>, t: Tree<N>)
    ensures ReportsAll(rule, checker, failureString, ts + [t])
         == ReportsAll(rule, checker, failureString, ts) + Reports(rule, checker, failureString, t)
    decreases ts
  {
    if ts == [] {
      assert [t][1..] == [];
    } else {
      ReportsAllAppend(rule, checker, failureString, ts[1..], t);
      assert ts + [t] == [ts[0]] + (ts[1..] + [t]);
      assert ts == [ts[0]] + ts[1..];
      ReportsAllCons(rule, checker, failureString, ts[0], ts[1..] + [t]);
      ReportsAllCons(rule, checker, failureString, ts[0], ts[1..]);
      AppendAssociates(Reports(rule, checker, failureString, ts[0]), ReportsAll(rule, checker, failureString, ts[1..]),
                       Reports(rule, checker, failureString, t));
    }
  }

  lemma ReportsAllCons<N, C, A>(rule: (N, Option<C>) -> RuleFunctionResult<A>, checker: Option<C>,
                                failureString: string, t: Tree<N>, ts: seq<Tree<N>>)
    ensures ReportsAll(rule, checker, failureString, [t] + ts)
         == Reports(rule, checker, failureString, t) + ReportsAll(rule, checker, failureString, ts)
  {
    assert ([t] + ts)[0] == t && ([t] + ts)[1..] == ts;
  }

  lemma {:induction false} FailuresAlongConcat<N, C, A>(rule: (N, Option<C>) -> RuleFunctionResult<A>, checker: Option<C>,
                                                        failureString: string, a: seq<N>, b: seq<N>)
    ensures FailuresAlong(rule, checker, failureString, a + b)
         == FailuresAlong(rule, checker, failureString, a) + FailuresAlong(rule, checker, failureString, b)
  {
    if a == [] {
      assert a + b == b;
    } else {
      FailuresAlongConcat(rule, checker, failureString, a[1..], b);
      assert a + b == [a[0]] + (a[1..] + b);
      assert a == [a[0]] + a[1..];
      FailuresAlongCons(rule, checker, failureString, a[0], a[1..] + b);
      FailuresAlongCons(rule, checker, failureString, a[0], a[1..]);
      AppendAssociates(FailuresOf(rule(a[0], checker).invalidNodes, failureString),
                       FailuresAlong(rule, checker, failureString, a[1..]),
                       FailuresAlong(rule, checker, failureString, b));
    }
  }

  lemma FailuresAlongCons<N, C, A>(rule: (N, Option<C>) -> RuleFunctionResult<A>, checker: Option<C>,
                                   failureString: string, n: N, ns: seq<N>)
    ensures FailuresAlong(rule, checker, failureString, [n] + ns)
         == FailuresOf(rule(n, checker).invalidNodes, failureString) + FailuresAlong(rule, checker, failureString, ns)
  {
    assert ([n] + ns)[0] == n && ([n] + ns)[1..] == ns;
  }

  /**
   * The sink receives, node after node in the order the walk visits them, exactly the
   * failures of each visited node's own invalid-node list, kept in list order.
   */
  lemma {:induction false} ReportsFollowVisitOrder<N, C, A>(rule: (N, Option<C>) -> RuleFunctionResult<A>, checker: Option<C>,
                                                            failureString: string, t: Tree<N>)
    ensures Reports(rule, checker, failureString, t) == FailuresAlong(rule, checker, failureString, Visited(rule, checker, t))
    decreases t
  {
    var res := rule(t.node, checker);
    var below := if Skips(res) then [] else VisitedAll(rule, checker, t.children);
    if !Skips(res) {
      ReportsAllFollowVisitOrder(rule, checker, failureString, t.children);
    }
    FailuresAlongConcat(rule, checker, failureString, [t.node], below);
  }

  lemma {:induction false} ReportsAllFollowVisitOrder<N, C, A>(rule: (N, Option<C>) -> RuleFunctionResult<A>, checker: Option<C>,
                                                               failureString: string, ts: seq<Tree<N>>)
    ensures ReportsAll(rule, checker, failureString, ts) == FailuresAlong(rule, checker, failureString, VisitedAll(rule, checker, ts))
    decreases ts
  {
    if ts != [] {
      ReportsFollowVisitOrder(rule, checker, failureString, ts[0]);
      ReportsAllFollowVisitOrder(rule, checker, failureString, ts[1..]);
      FailuresAlongConcat(rule, checker, failureString, Visited(rule, checker, ts[0]), VisitedAll(rule, checker, ts[1..]));
    }
  }

  /** A rule that never asks to skip children makes the walk a plain pre-order traversal. */
  lemma {:induction false} NoSkipVisitsPreorder<N, C, A>(rule: (N, Option<C>) -> RuleFunctionResult<A>, checker: Option<C>, t: Tree<N>)
    requires forall n :: !Skips(rule(n, checker))
    ensures Visited(rule, checker, t) == Preorder(t)
    decreases t
  {
    NoSkipVisitsPreorderAll(rule, checker, t.children);
  }

  lemma {:induction false} NoSkipVisitsPreorderAll<N, C, A>(rule: (N, Option<C>) -> RuleFunctionResult<A>, checker: Option<C>, ts: seq<Tree<N>>)
    requires forall n :: !Skips(rule(n, checker))
    ensures VisitedAll(rule, checker, ts) == PreorderAll(ts)
    decreases ts
  {
    if ts != [] {
      NoSkipVisitsPreorder(rule, checker, ts[0]);
      NoSkipVisitsPreorderAll(rule, checker, ts[1..]);
    }
  }

  /**
   * Skipping only removes nodes: every node handed to the rule is a node of the subtree,
   * and no node is handed over more often than it occurs there.
   */
  lemma {:induction false} VisitedWithinTree<N, C, A>(rule: (N, Option<C>) -> RuleFunctionResult<A>, checker: Option<C>, t: Tree<N>)
    ensures multiset(Visited(rule, checker, t)) <= multiset(Preorder(t))
    decreases t
  {
    VisitedAllWithinTrees(rule, checker, t.children);
  }

  lemma {:induction false} VisitedAllWithinTrees<N, C, A>(rule: (N, Option<C>) -> RuleFunctionResult<A>, checker: Option<C>, ts: seq<Tree<N>>)
    ensures multiset(VisitedAll(rule, checker, ts)) <= multiset(PreorderAll(ts))
    decreases ts
  {
    if ts != [] {
      VisitedWithinTree(rule, checker, ts[0]);
      VisitedAllWithinTrees(rule, checker, ts[1..]);
    }
  }

  /** When the rule skips a node's children, none of its descendants reaches the rule or the sink. */
  lemma SkipHidesDescendants<N, C, A>(rule: (N, Option<C>) -> RuleFunctionResult<A>, checker: Option<C>,
                                      failureString: string, t: Tree<N>)
    requires Skips(rule(t.node, checker))
    ensures Visited(rule, checker, t) == [t.node]
    ensures Reports(rule, checker, failureString, t) == FailuresOf(rule(t.node, checker).invalidNodes, failureString)
  {
  }
}
