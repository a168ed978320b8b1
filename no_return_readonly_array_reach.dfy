/**
 * What the `deep` and `includeTypeArguments` searches of `no-return-readonly-array` can
 * find, defined independently of the searches: every `ReadonlyArray` reachable from a type
 * under the options, marked as the rule marks it, collected as a set along every path at
 * once. The searches themselves stop at the first non-empty answer and de-duplicate tuple
 * results; the lemmas here show that what they return is always drawn from this set, and
 * is empty exactly when the set is.
 */
module NoReturnReadonlyArrayReach {
  import opened Wrappers
  import opened TypeSyntax
  import opened Typeguard
  import opened NodeRuleHelpers
  import opened NoReturnReadonlyArray
  import opened NoReturnReadonlyArrayProperties

  function Elements(vs: seq<Violation>): set<Violation> {
    set v | v in vs
  }

  /** A search result drawn from `reach`, and empty exactly when `reach` is. */
  predicate Covers(r: seq<Violation>, reach: set<Violation>) {
    && (forall v :: v in r ==> v in reach)
    && (r != [] <==> reach != {})
  }

  /**
   * From a reference: itself if it names `ReadonlyArray`; otherwise (with
   * `includeTypeArguments`) the `ReadonlyArray`s among its reference-only type-argument
   * nesting, and (with `deep`) what is reachable from the checker's syntax for its type and
   * from its alias declarations, all of these anchored at the reference.
   */
  function ReferenceReach(node: TypeNode, options: RuleOptions, failureMessage: string, safeToReplace: bool,
                          nodeToMark: Option<TypeNode>): set<Violation>
    requires node.TypeReference?
    decreases node, 2
  {
    if !node.typeName.Identifier? then {}
    else if node.typeName.text == READONLY_ARRAY_TYPE then
      {Mark(nodeToMark.GetOr(node), failureMessage, GetInvalidNodeReplacements(safeToReplace, node))}
    else
      (if options.includeTypeArguments then
         Elements(MarkReadonlyArrays(ReferenceArguments(node), FAILURE_MESSAGE_TYPE, safeToReplace, nodeToMark))
       else {})
      + (if options.deep then
           ResolvedReach(node, options, nodeToMark)
           + AliasReach(node.resolution.aliasDeclarations, options, Some(nodeToMark.GetOr(node)))
         else {})
  }

  /** From the checker's syntax for a reference's type, when that is a reference or a tuple. */
  function ResolvedReach(node: TypeNode, options: RuleOptions, nodeToMark: Option<TypeNode>): set<Violation>
    requires node.TypeReference?
    decreases node, 0
  {
    match node.resolution.typeNode
    case None => {}
    case Some(t) =>
      if t.TypeReference? then ReferenceReach(t, options, FAILURE_MESSAGE_DEEP, false, Some(nodeToMark.GetOr(node)))
      else if t.TupleType? then ElementReach(t.elementTypes, options, false, Some(nodeToMark.GetOr(node)))
      else {}
  }

  /** From the alias declarations whose body is a type literal. */
  function AliasReach(declarations: seq<Declaration>, options: RuleOptions, nodeToMark: Option<TypeNode>): set<Violation>
    decreases declarations
  {
    if declarations == [] then {}
    else
      (if declarations[0].TypeAliasDeclaration? && declarations[0].aliasedType.TypeLiteral? then
         assert declarations[0].aliasedType < declarations[0];
         MemberReach(declarations[0].aliasedType.members, options, false, nodeToMark)
       else {})
      + AliasReach(declarations[1..], options, nodeToMark)
  }

  /** From the property signatures of a type literal. */
  function MemberReach(members: seq<TypeElement>, options: RuleOptions, safeToReplace: bool,
                       nodeToMark: Option<TypeNode>): set<Violation>
    decreases members
  {
    if members == [] then {}
    else
      (if members[0].PropertySignature? then PropertyReach(members[0], options, safeToReplace, nodeToMark) else {})
      + MemberReach(members[1..], options, safeToReplace, nodeToMark)
  }

  /** From a property's type, when that is a reference or a type literal. */
  function PropertyReach(member: TypeElement, options: RuleOptions, safeToReplace: bool,
                         nodeToMark: Option<TypeNode>): set<Violation>
    requires member.PropertySignature?
    decreases member, 0
  {
    match member.propertyType
    case None => {}
    case Some(t) =>
      if t.TypeReference? then ReferenceReach(t, options, FAILURE_MESSAGE_DEEP, safeToReplace, nodeToMark)
      else if t.TypeLiteral? then MemberReach(t.members, options, safeToReplace, nodeToMark)
      else {}
  }

  /** From the reference elements of a tuple. */
  function ElementReach(elements: seq<TypeNode>, options: RuleOptions, safeToReplace: bool,
                        nodeToMark: Option<TypeNode>): set<Violation>
    decreases elements
  {
    if elements == [] then {}
    else
      (if elements[0].TypeReference? then
         ReferenceReach(elements[0], options, FAILURE_MESSAGE_DEEP, safeToReplace, nodeToMark)
       else {})
      + ElementReach(elements[1..], options, safeToReplace, nodeToMark)
  }

  /**
   * From a declaration's return type: a reference as the rule's entry inspects it, and,
   * with `deep`, a type literal or a tuple.
   */
  function ReturnTypeReach(returnType: TypeNode, options: RuleOptions): set<Violation> {
    if returnType.TypeReference? then ReferenceReach(returnType, options, FAILURE_MESSAGE_DEFAULT, true, None)
    else if options.deep && returnType.TypeLiteral? then MemberReach(returnType.members, options, true, None)
    else if options.deep && returnType.TupleType? then ElementReach(returnType.elementTypes, options, true, None)
    else {}
  }

  lemma CoversElements(vs: seq<Violation>)
    ensures Covers(vs, Elements(vs))
  {
    if vs != [] {
      assert vs[0] in Elements(vs);
    }
  }

  lemma CoversAppend(a: seq<Violation>, reachA: set<Violation>, b: seq<Violation>, reachB: set<Violation>)
    requires Covers(a, reachA) && Covers(b, reachB)
    ensures Covers(a + b, reachA + reachB)
  {
    if a != [] {
      assert a[0] in reachA;
    } else if b != [] {
      assert b[0] in reachB;
    }
  }

  /** The rule's "first non-empty answer wins" returns part of the union of the two answers' reach. */
  lemma CoversFirstNonEmpty(a: seq<Violation>, reachA: set<Violation>, b: seq<Violation>, reachB: set<Violation>)
    requires Covers(a, reachA) && Covers(b, reachB)
    ensures Covers(if a != [] then a else b, reachA + reachB)
  {
    if a == [] && b != [] {
      assert b[0] in reachB;
    }
  }

  /**
   * A reference's inspection reports only what is reachable from it, and reports
   * something exactly when something is reachable.
   */
  lemma {:induction false} ReferenceCovered(node: TypeNode, options: RuleOptions, failureMessage: string,
                                            safeToReplace: bool, nodeToMark: Option<TypeNode>)
    requires node.TypeReference?
    ensures Covers(InspectTypeReference(node, options, failureMessage, safeToReplace, nodeToMark),
                   ReferenceReach(node, options, failureMessage, safeToReplace, nodeToMark))
    decreases node, 2
  {
    if node.typeName.Identifier? && node.typeName.text != READONLY_ARRAY_TYPE {
      var arguments := if options.includeTypeArguments then
                         CheckOptionIncludeTypeArguments(node, FAILURE_MESSAGE_TYPE, safeToReplace, nodeToMark)
                       else [];
      var argumentReach := if options.includeTypeArguments then
                             Elements(MarkReadonlyArrays(ReferenceArguments(node), FAILURE_MESSAGE_TYPE, safeToReplace, nodeToMark))
                           else {};
      if options.includeTypeArguments {
        IncludeTypeArgumentsFindsReachableReadonlyArrays(node, FAILURE_MESSAGE_TYPE, safeToReplace, nodeToMark);
        CoversElements(arguments);
      }
      CheckingCovered(node, options, nodeToMark);
      CoversFirstNonEmpty(arguments, argumentReach, InspectTypeReferenceWithTypeChecking(node, options, nodeToMark),
                          if options.deep then
                            ResolvedReach(node, options, nodeToMark)
                            + AliasReach(node.resolution.aliasDeclarations, options, Some(nodeToMark.GetOr(node)))
                          else {});
    }
  }

  lemma {:induction false} CheckingCovered(node: TypeNode, options: RuleOptions, nodeToMark: Option<TypeNode>)
    requires node.TypeReference?
    ensures Covers(InspectTypeReferenceWithTypeChecking(node, options, nodeToMark),
                   if options.deep then
                     ResolvedReach(node, options, nodeToMark)
                     + AliasReach(node.resolution.aliasDeclarations, options, Some(nodeToMark.GetOr(node)))
                   else {})
    decreases node, 1
  {
    if options.deep {
      ResolvedCovered(node, options, nodeToMark);
      AliasCovered(node.resolution.aliasDeclarations, options, Some(nodeToMark.GetOr(node)));
      CoversFirstNonEmpty(InspectTypeReferenceNodeTypeNode(node, options, nodeToMark),
                          ResolvedReach(node, options, nodeToMark),
                          InspectTypeReferenceTypeAlias(node, options, nodeToMark),
                          AliasReach(node.resolution.aliasDeclarations, options, Some(nodeToMark.GetOr(node))));
    }
  }

  lemma {:induction false} ResolvedCovered(node: TypeNode, options: RuleOptions, nodeToMark: Option<TypeNode>)
    requires node.TypeReference?
    ensures Covers(InspectTypeReferenceNodeTypeNode(node, options, nodeToMark), ResolvedReach(node, options, nodeToMark))
    decreases node, 0
  {
    if node.resolution.typeNode.Some? {
      var t := node.resolution.typeNode.value;
      if t.TypeReference? {
        ReferenceCovered(t, options, FAILURE_MESSAGE_DEEP, false, Some(nodeToMark.GetOr(node)));
      } else if t.TupleType? {
        TupleCovered(t, options, false, Some(nodeToMark.GetOr(node)));
      }
    }
  }

  lemma {:induction false} TupleCovered(node: TypeNode, options: RuleOptions, safeToReplace: bool,
                                        nodeToMark: Option<TypeNode>)
    requires node.TupleType?
    ensures Covers(InspectTupleTypeNode(node, options, safeToReplace, nodeToMark),
                   ElementReach(node.elementTypes, options, safeToReplace, nodeToMark))
    decreases node, 1
  {
    var all := InspectTupleElements(node.elementTypes, options, safeToReplace, nodeToMark);
    ElementsCovered(node.elementTypes, options, safeToReplace, nodeToMark);
    DedupByPosSpec(all);
    var r := InspectTupleTypeNode(node, options, safeToReplace, nodeToMark);
    assert r == DedupByPos(all);
    if all != [] {
      assert all[0].node.pos in Positions(all);
    }
  }

  lemma {:induction false} ElementsCovered(elements: seq<TypeNode>, options: RuleOptions, safeToReplace: bool,
                                           nodeToMark: Option<TypeNode>)
    ensures Covers(InspectTupleElements(elements, options, safeToReplace, nodeToMark),
                   ElementReach(elements, options, safeToReplace, nodeToMark))
    decreases elements
  {
    if elements != [] {
      if elements[0].TypeReference? {
        ReferenceCovered(elements[0], options, FAILURE_MESSAGE_DEEP, safeToReplace, nodeToMark);
      }
      ElementsCovered(elements[1..], options, safeToReplace, nodeToMark);
      CoversAppend(if elements[0].TypeReference? then
                     InspectTypeReference(elements[0], options, FAILURE_MESSAGE_DEEP, safeToReplace, nodeToMark)
                   else [],
                   if elements[0].TypeReference? then
                     ReferenceReach(elements[0], options, FAILURE_MESSAGE_DEEP, safeToReplace, nodeToMark)
                   else {},
                   InspectTupleElements(elements[1..], options, safeToReplace, nodeToMark),
                   ElementReach(elements[1..], options, safeToReplace, nodeToMark));
    }
  }

  lemma {:induction false} AliasCovered(declarations: seq<Declaration>, options: RuleOptions,
                                        nodeToMark: Option<TypeNode>)
    ensures Covers(InspectAliasDeclarations(declarations, options, nodeToMark),
                   AliasReach(declarations, options, nodeToMark))
    decreases declarations
  {
    if declarations != [] {
      var d := declarations[0];
      if d.TypeAliasDeclaration? && d.aliasedType.TypeLiteral? {
        assert d.aliasedType < d;
        LiteralCovered(d.aliasedType, options, false, nodeToMark);
      }
      AliasCovered(declarations[1..], options, nodeToMark);
      CoversAppend(if d.TypeAliasDeclaration? && d.aliasedType.TypeLiteral? then
                     InspectTypeLiteralNode(d.aliasedType, options, false, nodeToMark)
                   else [],
                   if d.TypeAliasDeclaration? && d.aliasedType.TypeLiteral? then
                     MemberReach(d.aliasedType.members, options, false, nodeToMark)
                   else {},
                   InspectAliasDeclarations(declarations[1..], options, nodeToMark),
                   AliasReach(declarations[1..], options, nodeToMark));
    }
  }

  lemma {:induction false} LiteralCovered(node: TypeNode, options: RuleOptions, safeToReplace: bool,
                                          nodeToMark: Option<TypeNode>)
    requires node.TypeLiteral?
    ensures Covers(InspectTypeLiteralNode(node, options, safeToReplace, nodeToMark),
                   MemberReach(node.members, options, safeToReplace, nodeToMark))
    decreases node, 1
  {
    MembersCovered(node.members, options, safeToReplace, nodeToMark);
  }

  lemma {:induction false} MembersCovered(members: seq<TypeElement>, options: RuleOptions, safeToReplace: bool,
                                          nodeToMark: Option<TypeNode>)
    ensures Covers(InspectMembers(members, options, safeToReplace, nodeToMark),
                   MemberReach(members, options, safeToReplace, nodeToMark))
    decreases members
  {
    if members != [] {
      if members[0].PropertySignature? {
        PropertyCovered(members[0], options, safeToReplace, nodeToMark);
      }
      MembersCovered(members[1..], options, safeToReplace, nodeToMark);
      CoversAppend(if members[0].PropertySignature? then
                     InspectPropertySignatureNode(members[0], options, safeToReplace, nodeToMark)
                   else [],
                   if members[0].PropertySignature? then
                     PropertyReach(members[0], options, safeToReplace, nodeToMark)
                   else {},
                   InspectMembers(members[1..], options, safeToReplace, nodeToMark),
                   MemberReach(members[1..], options, safeToReplace, nodeToMark));
    }
  }

  lemma {:induction false} PropertyCovered(member: TypeElement, options: RuleOptions, safeToReplace: bool,
                                           nodeToMark: Option<TypeNode>)
    requires member.PropertySignature?
    ensures Covers(InspectPropertySignatureNode(member, options, safeToReplace, nodeToMark),
                   PropertyReach(member, options, safeToReplace, nodeToMark))
    decreases member, 0
  {
    if member.propertyType.Some? {
      var t := member.propertyType.value;
      assert t < member.propertyType;
      if t.TypeReference? {
        ReferenceCovered(t, options, FAILURE_MESSAGE_DEEP, safeToReplace, nodeToMark);
      } else if t.TypeLiteral? {
        LiteralCovered(t, options, safeToReplace, nodeToMark);
      }
    }
  }

  /**
   * The rule reports, for a typed function-like declaration, only violations reachable
   * from its return type, and reports something exactly when something is reachable:
   * no false positives and no misses.
   */
  lemma RuleReportsReach(node: Node, options: RuleOptions)
    ensures Covers(RuleEntryPoint(node, options).invalidNodes,
                   if IsTypedFunctionLikeDeclaration(node) then ReturnTypeReach(node.declaredType.value, options) else {})
  {
    if IsTypedFunctionLikeDeclaration(node) {
      var t := node.declaredType.value;
      if t.TypeReference? {
        ReferenceCovered(t, options, FAILURE_MESSAGE_DEFAULT, true, None);
      } else if options.deep && t.TypeLiteral? {
        LiteralCovered(t, options, true, None);
      } else if options.deep && t.TupleType? {
        TupleCovered(t, options, true, None);
      }
    }
  }

  /**
   * The order of a reference's inspection, for any anchor including none (the rule's own
   * call): a non-empty type-argument answer is returned without consulting the checker, and
   * a non-empty answer from the checker's syntax for the type is returned without consulting
   * the alias declarations. When an anchor is passed down, that answer stays the same
   * whatever the alias declarations are.
   */
  lemma ReferenceSearchOrder(node: TypeNode, options: RuleOptions, failureMessage: string, safeToReplace: bool,
                             nodeToMark: Option<TypeNode>, declarations: seq<Declaration>)
    requires node.TypeReference? && node.typeName.Identifier? && !IsReadonlyArrayReference(node)
    ensures var arguments := CheckOptionIncludeTypeArguments(node, FAILURE_MESSAGE_TYPE, safeToReplace, nodeToMark);
      options.includeTypeArguments && arguments != [] ==>
        InspectTypeReference(node, options, failureMessage, safeToReplace, nodeToMark) == arguments
    ensures var resolved := InspectTypeReferenceNodeTypeNode(node, options, nodeToMark);
      options.deep && resolved != [] ==> InspectTypeReferenceWithTypeChecking(node, options, nodeToMark) == resolved
    ensures var resolved := InspectTypeReferenceNodeTypeNode(node, options, nodeToMark);
      var other := node.(resolution := node.resolution.(aliasDeclarations := declarations));
      nodeToMark.Some? && options.deep && resolved != [] ==>
        InspectTypeReferenceWithTypeChecking(other, options, nodeToMark) == resolved
  {
    var other := node.(resolution := node.resolution.(aliasDeclarations := declarations));
    if nodeToMark.Some? {
      assert InspectTypeReferenceNodeTypeNode(other, options, nodeToMark)
          == InspectTypeReferenceNodeTypeNode(node, options, nodeToMark);
    }
  }
}
