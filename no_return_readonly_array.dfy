/**
 * The `no-return-readonly-array` rule: a function-like declaration must not declare a
 * return type that is, or (with the `includeTypeArguments` and `deep` options) contains,
 * `ReadonlyArray`.
 */
module NoReturnReadonlyArray {
  import opened Wrappers
  import opened TypeSyntax
  import opened Typeguard
  import opened NodeRuleHelpers
  import Options

  const READONLY_ARRAY_TYPE := "ReadonlyArray"
  const REPLACEMENT_TYPE := "Array"

  const FAILURE_MESSAGE_DEFAULT := "Do not return a ReadonlyArray; return an Array instead."
  const FAILURE_MESSAGE_TYPE := "Do not return a type containing a ReadonlyArray; use an Array instead."
  const FAILURE_MESSAGE_DEEP := "Do not return a ReadonlyArray within the result; use an Array instead."

  /** The rule's two options, each off unless configured. */
  datatype RuleOptions = RuleOptions(includeTypeArguments: bool, deep: bool)

  /** `Boolean(ctx.options.includeTypeArguments)` and `Boolean(ctx.options.deep)`. */
  function RuleOptionsOf(options: Options.OptionsMap): RuleOptions {
    RuleOptions(Options.Flag(options, "includeTypeArguments"), Options.Flag(options, "deep"))
  }

  type Violation = InvalidNode<TypeNode>

  /** A type reference whose name is the identifier `ReadonlyArray`. */
  predicate IsReadonlyArrayReference(t: TypeNode) {
    t.TypeReference? && t.typeName == Identifier(READONLY_ARRAY_TYPE)
  }

  /** The single rename edit the rule ever proposes. */
  predicate IsRenameFix(reps: seq<Replacement>) {
    |reps| == 1 && reps[0].length == |READONLY_ARRAY_TYPE| && reps[0].text == REPLACEMENT_TYPE
  }

  /**
   * The shape every violation has when built below a call with the given `safeToReplace`
   * and `nodeToMark`: it carries a message; it is anchored at `nodeToMark` when that is
   * given and at a type reference otherwise; it has no fix unless replacing is safe; and a
   * fix is the one rename edit, placed at the start of the anchor when no `nodeToMark`
   * redirected it.
   */
  predicate Marked(v: Violation, safeToReplace: bool, nodeToMark: Option<TypeNode>) {
    && v.message.Some?
    && (nodeToMark.Some? ==> v.node == nodeToMark.value)
    && (nodeToMark.None? ==> v.node.TypeReference?)
    && (!safeToReplace ==> v.replacements == [])
    && (v.replacements != [] ==> IsRenameFix(v.replacements))
    && (v.replacements != [] && nodeToMark.None? ==>
          IsReadonlyArrayReference(v.node) && v.node.pos >= 0 && v.replacements[0].start == v.node.start)
  }

  predicate AllMarked(vs: seq<Violation>, safeToReplace: bool, nodeToMark: Option<TypeNode>) {
    forall v :: v in vs ==> Marked(v, safeToReplace, nodeToMark)
  }

  /** Every message is the caller's or one of the two messages used below the top level. */
  predicate MessagesAmong(vs: seq<Violation>, failureMessage: string) {
    forall v :: v in vs ==>
      v.message == Some(failureMessage) || v.message == Some(FAILURE_MESSAGE_TYPE) || v.message == Some(FAILURE_MESSAGE_DEEP)
  }

  /**
   * The fix for an invalid reference: rename `ReadonlyArray` to `Array` at the node's first
   * token, offered only when replacing is safe and the node is not synthesized (pos >= 0).
   */
  function GetInvalidNodeReplacements(safeToReplace: bool, invalidNode: TypeNode): (r: seq<Replacement>)
    requires invalidNode.TypeReference?
    ensures r != [] <==> safeToReplace && invalidNode.pos >= 0
    ensures r != [] ==> IsRenameFix(r) && r[0].start == invalidNode.start
  {
    if safeToReplace && invalidNode.pos >= 0 then
      [Replacement(invalidNode.start, |READONLY_ARRAY_TYPE|, REPLACEMENT_TYPE)]
    else
      []
  }

  function Mark(anchor: TypeNode, failureMessage: string, reps: seq<Replacement>): Violation {
    MarkAsInvalidNode(anchor, failureMessage, reps)
  }

  /** Entry point: called by the walk on every node, with the rule's options. */
  function RuleEntryPoint(node: Node, options: RuleOptions): (r: RuleFunctionResult<TypeNode>)
    ensures r.skipChildren == Some(false)
    ensures !IsTypedFunctionLikeDeclaration(node) ==> r.invalidNodes == []
    ensures MessagesAmong(r.invalidNodes, FAILURE_MESSAGE_DEFAULT)
    ensures AllMarked(r.invalidNodes, true, None)
  {
    if IsTypedFunctionLikeDeclaration(node) then
      var returnType := node.declaredType.value;
      var direct := if returnType.TypeReference? then
                      InspectTypeReference(returnType, options, FAILURE_MESSAGE_DEFAULT, true, None)
                    else [];
      if direct != [] then
        RuleFunctionResult(direct, Some(false))
      else
        var deep := if options.deep then CheckOptionDeep(returnType, options, true) else [];
        RuleFunctionResult(deep, Some(false))
    else
      RuleFunctionResult([], Some(false))
  }

  /** The `deep` path for a return type that is a type literal or a tuple. */
  function CheckOptionDeep(returnType: TypeNode, options: RuleOptions, safeToReplace: bool): (r: seq<Violation>)
    ensures !returnType.TypeLiteral? && !returnType.TupleType? ==> r == []
    ensures MessagesAmong(r, FAILURE_MESSAGE_DEEP)
    ensures AllMarked(r, safeToReplace, None)
  {
    if returnType.TypeLiteral? then
      InspectTypeLiteralNode(returnType, options, safeToReplace, None)
    else if returnType.TupleType? then
      InspectTupleTypeNode(returnType, options, safeToReplace, None)
    else
      []
  }

  function InspectPropertySignatureNode(member: TypeElement, options: RuleOptions, safeToReplace: bool,
                                        nodeToMark: Option<TypeNode>): (r: seq<Violation>)
    requires member.PropertySignature?
    ensures member.propertyType.None? ==> r == []
    ensures MessagesAmong(r, FAILURE_MESSAGE_DEEP)
    ensures AllMarked(r, safeToReplace, nodeToMark)
    decreases member, 0
  {
    match member.propertyType
    case None => []
    case Some(t) =>
      if t.TypeReference? then
        InspectTypeReference(t, options, FAILURE_MESSAGE_DEEP, safeToReplace, nodeToMark)
      else if t.TypeLiteral? then
        InspectTypeLiteralNode(t, options, safeToReplace, nodeToMark)
      else
        []
  }

  /**
   * The violations of a tuple's reference elements with duplicates filtered out: exactly
   * one per anchor position occurring among them, the first one, in element order.
   */
  function InspectTupleTypeNode(node: TypeNode, options: RuleOptions, safeToReplace: bool,
                                nodeToMark: Option<TypeNode>): (r: seq<Violation>)
    requires node.TupleType?
    ensures MessagesAmong(r, FAILURE_MESSAGE_DEEP)
    ensures AllMarked(r, safeToReplace, nodeToMark)
    ensures forall i, j :: 0 <= i < j < |r| ==> r[i].node.pos != r[j].node.pos
    ensures var all := InspectTupleElements(node.elementTypes, options, safeToReplace, nodeToMark);
      && IsSubsequence(r, all)
      && Positions(r) == Positions(all)
      && forall v :: v in r ==> FirstWithPos(all, v.node.pos) == Some(v)
    decreases node, 1
  {
    var all := InspectTupleElements(node.elementTypes, options, safeToReplace, nodeToMark);
    DedupByPosSpec(all);
    DedupByPos(all)
  }

  function InspectTupleElements(elements: seq<TypeNode>, options: RuleOptions, safeToReplace: bool,
                                nodeToMark: Option<TypeNode>): (r: seq<Violation>)
    ensures MessagesAmong(r, FAILURE_MESSAGE_DEEP)
    ensures AllMarked(r, safeToReplace, nodeToMark)
    decreases elements
  {
    if elements == [] then []
    else
      (if elements[0].TypeReference? then
         InspectTypeReference(elements[0], options, FAILURE_MESSAGE_DEEP, safeToReplace, nodeToMark)
       else [])
      + InspectTupleElements(elements[1..], options, safeToReplace, nodeToMark)
  }

  /**
   * A type reference: a direct `ReadonlyArray` match first, then (with
   * `includeTypeArguments`) its type arguments, then (with `deep`) what the type checker
   * resolves it to; the first non-empty answer wins.
   */
  function InspectTypeReference(node: TypeNode, options: RuleOptions, failureMessage: string,
                                safeToReplace: bool, nodeToMark: Option<TypeNode>): (r: seq<Violation>)
    requires node.TypeReference?
    ensures node.typeName.QualifiedName? ==> r == []
    ensures MessagesAmong(r, failureMessage)
    ensures AllMarked(r, safeToReplace, nodeToMark)
    decreases node, 2
  {
    if !node.typeName.Identifier? then
      []
    else if node.typeName.text == READONLY_ARRAY_TYPE then
      [Mark(nodeToMark.GetOr(node), failureMessage, GetInvalidNodeReplacements(safeToReplace, node))]
    else
      var results := if options.includeTypeArguments then
                       CheckOptionIncludeTypeArguments(node, FAILURE_MESSAGE_TYPE, safeToReplace, nodeToMark)
                     else [];
      if results != [] then results
      else InspectTypeReferenceWithTypeChecking(node, options, nodeToMark)
  }

  /**
   * The type-checker path (only with `deep`): first the syntax of the resolved type, then
   * the declarations of its alias. Everything found here is anchored at the caller's
   * `nodeToMark`, or at this reference, and is never offered a fix.
   */
  function InspectTypeReferenceWithTypeChecking(node: TypeNode, options: RuleOptions,
                                                nodeToMark: Option<TypeNode>): (r: seq<Violation>)
    requires node.TypeReference?
    ensures !options.deep ==> r == []
    ensures MessagesAmong(r, FAILURE_MESSAGE_DEEP)
    ensures AllMarked(r, false, Some(nodeToMark.GetOr(node)))
    decreases node, 1
  {
    if !options.deep then
      []
    else
      var nodeTypeNodeResults := InspectTypeReferenceNodeTypeNode(node, options, nodeToMark);
      if nodeTypeNodeResults != [] then
        nodeTypeNodeResults
      else
        InspectTypeReferenceTypeAlias(node, options, nodeToMark)
  }

  /** Inspects the syntax the checker gives back for the reference's type. */
  function InspectTypeReferenceNodeTypeNode(node: TypeNode, options: RuleOptions,
                                            nodeToMark: Option<TypeNode>): (r: seq<Violation>)
    requires node.TypeReference?
    ensures MessagesAmong(r, FAILURE_MESSAGE_DEEP)
    ensures AllMarked(r, false, Some(nodeToMark.GetOr(node)))
    decreases node, 0
  {
    match node.resolution.typeNode
    case None => []
    case Some(nodeTypeNode) =>
      if nodeTypeNode.TypeReference? then
        InspectTypeReference(nodeTypeNode, options, FAILURE_MESSAGE_DEEP, false, Some(nodeToMark.GetOr(node)))
      else if nodeTypeNode.TupleType? then
        InspectTupleTypeNode(nodeTypeNode, options, false, Some(nodeToMark.GetOr(node)))
      else
        []
  }

  /** Inspects every type-alias declaration of the type's alias symbol whose body is a type literal. */
  function InspectTypeReferenceTypeAlias(node: TypeNode, options: RuleOptions,
                                         nodeToMark: Option<TypeNode>): (r: seq<Violation>)
    requires node.TypeReference?
    ensures node.resolution.aliasDeclarations == [] ==> r == []
    ensures MessagesAmong(r, FAILURE_MESSAGE_DEEP)
    ensures AllMarked(r, false, Some(nodeToMark.GetOr(node)))
    decreases node, 0
  {
    InspectAliasDeclarations(node.resolution.aliasDeclarations, options, Some(nodeToMark.GetOr(node)))
  }

  function InspectAliasDeclarations(declarations: seq<Declaration>, options: RuleOptions,
                                    nodeToMark: Option<TypeNode>): (r: seq<Violation>)
    ensures MessagesAmong(r, FAILURE_MESSAGE_DEEP)
    ensures AllMarked(r, false, nodeToMark)
    decreases declarations
  {
    if declarations == [] then []
    else
      (if declarations[0].TypeAliasDeclaration? && declarations[0].aliasedType.TypeLiteral? then
         assert declarations[0].aliasedType < declarations[0];
         InspectTypeLiteralNode(declarations[0].aliasedType, options, false, nodeToMark)
       else [])
      + InspectAliasDeclarations(declarations[1..], options, nodeToMark)
  }

  /** The violations of a type literal's property signatures, member by member. */
  function InspectTypeLiteralNode(node: TypeNode, options: RuleOptions, safeToReplace: bool,
                                  nodeToMark: Option<TypeNode>): (r: seq<Violation>)
    requires node.TypeLiteral?
    ensures MessagesAmong(r, FAILURE_MESSAGE_DEEP)
    ensures AllMarked(r, safeToReplace, nodeToMark)
    decreases node, 1
  {
    InspectMembers(node.members, options, safeToReplace, nodeToMark)
  }

  function InspectMembers(members: seq<TypeElement>, options: RuleOptions, safeToReplace: bool,
                          nodeToMark: Option<TypeNode>): (r: seq<Violation>)
    ensures MessagesAmong(r, FAILURE_MESSAGE_DEEP)
    ensures AllMarked(r, safeToReplace, nodeToMark)
    decreases members
  {
    if members == [] then []
    else
      (if members[0].PropertySignature? then
         InspectPropertySignatureNode(members[0], options, safeToReplace, nodeToMark)
       else [])
      + InspectMembers(members[1..], options, safeToReplace, nodeToMark)
  }

  /**
   * The `includeTypeArguments` path: every `ReadonlyArray` reached through type
   * arguments that are themselves references, reported before its own arguments.
   */
  function CheckOptionIncludeTypeArguments(node: TypeNode, failureMessage: string, safeToReplace: bool,
                                           nodeToMark: Option<TypeNode>): (r: seq<Violation>)
    requires node.TypeReference?
    ensures forall v :: v in r ==> v.message == Some(failureMessage)
    ensures AllMarked(r, safeToReplace, nodeToMark)
    decreases node
  {
    CheckArguments(node.typeArguments, failureMessage, safeToReplace, nodeToMark)
  }

  function CheckArguments(arguments: seq<TypeNode>, failureMessage: string, safeToReplace: bool,
                          nodeToMark: Option<TypeNode>): (r: seq<Violation>)
    ensures forall v :: v in r ==> v.message == Some(failureMessage)
    ensures AllMarked(r, safeToReplace, nodeToMark)
    decreases arguments
  {
    if arguments == [] then []
    else
      var argument := arguments[0];
      (if !argument.TypeReference? then []
       else if argument.typeName.Identifier? && argument.typeName.text == READONLY_ARRAY_TYPE then
         [Mark(nodeToMark.GetOr(argument), failureMessage, GetInvalidNodeReplacements(safeToReplace, argument))]
         + CheckOptionIncludeTypeArguments(argument, failureMessage, safeToReplace, nodeToMark)
       else
         CheckOptionIncludeTypeArguments(argument, failureMessage, safeToReplace, nodeToMark))
      + CheckArguments(arguments[1..], failureMessage, safeToReplace, nodeToMark)
  }

  /** Keeps the first violation for each anchor position, in order, skipping positions in `seen`. */
  function DedupFrom(vs: seq<Violation>, seen: set<int>): seq<Violation>
  {
    if vs == [] then []
    else if vs[0].node.pos in seen then DedupFrom(vs[1..], seen)
    else [vs[0]] + DedupFrom(vs[1..], seen + {vs[0].node.pos})
  }

  function DedupByPos(vs: seq<Violation>): seq<Violation> {
    DedupFrom(vs, {})
  }

  /** The anchor positions occurring in a list of violations. */
  function Positions(vs: seq<Violation>): set<int> {
    set v | v in vs :: v.node.pos
  }

  /** The first violation anchored at position `pos`, if any. */
  function FirstWithPos(vs: seq<Violation>, pos: int): Option<Violation> {
    if vs == [] then None
    else if vs[0].node.pos == pos then Some(vs[0])
    else FirstWithPos(vs[1..], pos)
  }

  /** `a` is `b` with some elements left out, the rest kept in order. */
  predicate IsSubsequence<T(==)>(a: seq<T>, b: seq<T>) {
    if a == [] then true
    else if b == [] then false
    else if a[0] == b[0] then IsSubsequence(a[1..], b[1..])
    else IsSubsequence(a, b[1..])
  }

  lemma {:induction false} DedupFromMembers(vs: seq<Violation>, seen: set<int>)
    ensures forall v :: v in DedupFrom(vs, seen) ==>
      v in vs && v.node.pos !in seen && FirstWithPos(vs, v.node.pos) == Some(v)
  {
    if vs != [] {
      var p := vs[0].node.pos;
      if p in seen {
        DedupFromMembers(vs[1..], seen);
      } else {
        DedupFromMembers(vs[1..], seen + {p});
      }
    }
  }

  lemma {:induction false} DedupFromDistinct(vs: seq<Violation>, seen: set<int>)
    ensures forall i, j :: 0 <= i < j < |DedupFrom(vs, seen)| ==>
      DedupFrom(vs, seen)[i].node.pos != DedupFrom(vs, seen)[j].node.pos
  {
    if vs != [] {
      var p := vs[0].node.pos;
      if p in seen {
        DedupFromDistinct(vs[1..], seen);
      } else {
        DedupFromDistinct(vs[1..], seen + {p});
        DedupFromMembers(vs[1..], seen + {p});
        var d := DedupFrom(vs[1..], seen + {p});
        assert DedupFrom(vs, seen) == [vs[0]] + d;
        forall j | 0 < j < |[vs[0]] + d|
          ensures ([vs[0]] + d)[j].node.pos != p
        {
          assert ([vs[0]] + d)[j] == d[j - 1];
          assert d[j - 1] in d;
        }
      }
    }
  }

  lemma {:induction false} DedupFromPositions(vs: seq<Violation>, seen: set<int>)
    ensures Positions(DedupFrom(vs, seen)) == Positions(vs) - seen
  {
    if vs != [] {
      var p := vs[0].node.pos;
      assert Positions(vs) == {p} + Positions(vs[1..]) by {
        assert forall v :: v in vs <==> v == vs[0] || v in vs[1..];
      }
      if p in seen {
        DedupFromPositions(vs[1..], seen);
      } else {
        DedupFromPositions(vs[1..], seen + {p});
        var d := DedupFrom(vs[1..], seen + {p});
        assert Positions([vs[0]] + d) == {p} + Positions(d) by {
          assert forall v :: v in [vs[0]] + d <==> v == vs[0] || v in d;
        }
      }
    }
  }

  lemma {:induction false} DedupFromSubsequence(vs: seq<Violation>, seen: set<int>)
    ensures IsSubsequence(DedupFrom(vs, seen), vs)
  {
    if vs != [] {
      var p := vs[0].node.pos;
      if p in seen {
        DedupFromSubsequence(vs[1..], seen);
        DedupFromMembers(vs[1..], seen);
        var d := DedupFrom(vs[1..], seen);
        if d != [] {
          assert d[0] in d;
        }
        SubsequenceOfTail(d, vs);
      } else {
        DedupFromSubsequence(vs[1..], seen + {p});
        var d := DedupFrom(vs[1..], seen + {p});
        assert ([vs[0]] + d)[1..] == d;
      }
    }
  }

  lemma {:induction false} SubsequenceOfTail<T>(a: seq<T>, b: seq<T>)
    requires b != [] && IsSubsequence(a, b[1..])
    requires a != [] ==> a[0] != b[0]
    ensures IsSubsequence(a, b)
  {
  }

  /**
   * Tuple de-duplication keeps, in the original order, exactly one violation per anchor
   * position: the first one.
   */
  lemma DedupByPosSpec(vs: seq<Violation>)
    ensures IsSubsequence(DedupByPos(vs), vs)
    ensures forall v :: v in DedupByPos(vs) ==> v in vs
    ensures forall i, j :: 0 <= i < j < |DedupByPos(vs)| ==> DedupByPos(vs)[i].node.pos != DedupByPos(vs)[j].node.pos
    ensures forall v :: v in DedupByPos(vs) ==> FirstWithPos(vs, v.node.pos) == Some(v)
    ensures Positions(DedupByPos(vs)) == Positions(vs)
  {
    DedupFromMembers(vs, {});
    DedupFromDistinct(vs, {});
    DedupFromPositions(vs, {});
    DedupFromSubsequence(vs, {});
  }

  /** The tuple filter as the source runs it: one pass with a dictionary of seen positions. */
  method FilterDuplicates(items: seq<Violation>) returns (kept: seq<Violation>)
    ensures kept == DedupByPos(items)
  {
    var mutableIds: set<int> := {};
    kept := [];
    for i := 0 to |items|
      invariant kept + DedupFrom(items[i..], mutableIds) == DedupByPos(items)
    {
      assert items[i..][1..] == items[i + 1..];
      var id := items[i].node.pos;
      if id !in mutableIds {
        mutableIds := mutableIds + {id};
        kept := kept + [items[i]];
      }
    }
  }
}
