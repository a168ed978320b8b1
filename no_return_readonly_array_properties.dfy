/** Properties of the `no-return-readonly-array` rule, stated over whole inputs. */
module NoReturnReadonlyArrayProperties {
  import opened Wrappers
  import opened TypeSyntax
  import opened Typeguard
  import opened NodeRuleHelpers
  import opened NoReturnReadonlyArray
  import Options
  import OptionsProperties

  /**
   * A return type spelled `ReadonlyArray<...>` is reported once, with the default message,
   * at the return type itself, whatever the options; its arguments are not looked into.
   */
  lemma DirectReadonlyArrayReturn(node: Node, options: RuleOptions)
    requires IsTypedFunctionLikeDeclaration(node)
    requires IsReadonlyArrayReference(node.declaredType.value)
    ensures var t := node.declaredType.value;
      RuleEntryPoint(node, options).invalidNodes
        == [InvalidNode(t, Some(FAILURE_MESSAGE_DEFAULT),
                        if t.pos >= 0 then [Replacement(t.start, |READONLY_ARRAY_TYPE|, REPLACEMENT_TYPE)] else [])]
  {
  }

  /**
   * With both options off the rule reports exactly when the declared return type is
   * spelled `ReadonlyArray`: literals, tuples, type arguments and the type checker are
   * never consulted.
   */
  lemma WithoutOptionsOnlyDirectMatches(node: Node)
    ensures var r := RuleEntryPoint(node, RuleOptions(false, false));
      r.invalidNodes != [] <==> IsTypedFunctionLikeDeclaration(node) && IsReadonlyArrayReference(node.declaredType.value)
  {
    if IsTypedFunctionLikeDeclaration(node) {
      var t := node.declaredType.value;
      if t.TypeReference? && !IsReadonlyArrayReference(t) && t.typeName.Identifier? {
        assert InspectTypeReferenceWithTypeChecking(t, RuleOptions(false, false), None) == [];
      }
    }
  }

  /** The type references reachable from a reference through type arguments that are references, in pre-order. */
  function ReferenceArguments(node: TypeNode): seq<TypeNode>
    requires node.TypeReference?
    decreases node
  {
    ReferenceArgumentsOf(node.typeArguments)
  }

  function ReferenceArgumentsOf(arguments: seq<TypeNode>): seq<TypeNode>
    decreases arguments
  {
    if arguments == [] then []
    else
      (if arguments[0].TypeReference? then [arguments[0]] + ReferenceArguments(arguments[0]) else [])
      + ReferenceArgumentsOf(arguments[1..])
  }

  /** One violation per `ReadonlyArray` reference of `refs`, in order. */
  function MarkReadonlyArrays(refs: seq<TypeNode>, failureMessage: string, safeToReplace: bool,
                              nodeToMark: Option<TypeNode>): seq<Violation>
  {
    if refs == [] then []
    else MarkIfReadonlyArray(refs[0], failureMessage, safeToReplace, nodeToMark)
         + MarkReadonlyArrays(refs[1..], failureMessage, safeToReplace, nodeToMark)
  }

  /** The violation for one reference when it names `ReadonlyArray`; nothing otherwise. */
  function MarkIfReadonlyArray(ref: TypeNode, failureMessage: string, safeToReplace: bool,
                               nodeToMark: Option<TypeNode>): seq<Violation>
  {
    if IsReadonlyArrayReference(ref) then
      [MarkAsInvalidNode(nodeToMark.GetOr(ref), failureMessage, GetInvalidNodeReplacements(safeToReplace, ref))]
    else []
  }

  lemma MarkReadonlyArraysCons(ref: TypeNode, refs: seq<TypeNode>, failureMessage: string,
                               safeToReplace: bool, nodeToMark: Option<TypeNode>)
    ensures MarkReadonlyArrays([ref] + refs, failureMessage, safeToReplace, nodeToMark)
         == MarkIfReadonlyArray(ref, failureMessage, safeToReplace, nodeToMark)
            + MarkReadonlyArrays(refs, failureMessage, safeToReplace, nodeToMark)
  {
    assert ([ref] + refs)[0] == ref && ([ref] + refs)[1..] == refs;
  }

  lemma {:induction false} MarkReadonlyArraysConcat(a: seq<TypeNode>, b: seq<TypeNode>, failureMessage: string,
                                                    safeToReplace: bool, nodeToMark: Option<TypeNode>)
    ensures MarkReadonlyArrays(a + b, failureMessage, safeToReplace, nodeToMark)
         == MarkReadonlyArrays(a, failureMessage, safeToReplace, nodeToMark)
            + MarkReadonlyArrays(b, failureMessage, safeToReplace, nodeToMark)
  {
    if a == [] {
      assert a + b == b;
    } else {
      MarkReadonlyArraysConcat(a[1..], b, failureMessage, safeToReplace, nodeToMark);
      assert a + b == [a[0]] + (a[1..] + b);
      assert a == [a[0]] + a[1..];
      MarkReadonlyArraysCons(a[0], a[1..] + b, failureMessage, safeToReplace, nodeToMark);
      MarkReadonlyArraysCons(a[0], a[1..], failureMessage, safeToReplace, nodeToMark);
      AppendAssociates(MarkIfReadonlyArray(a[0], failureMessage, safeToReplace, nodeToMark),
                       MarkReadonlyArrays(a[1..], failureMessage, safeToReplace, nodeToMark),
                       MarkReadonlyArrays(b, failureMessage, safeToReplace, nodeToMark));
    }
  }

  /**
   * The `includeTypeArguments` search reports exactly the `ReadonlyArray` references
   * reachable through reference-only type-argument nesting, each before the ones nested
   * in its own arguments; non-reference arguments end the search on their branch.
   */
  lemma {:induction false} IncludeTypeArgumentsFindsReachableReadonlyArrays(
    node: TypeNode, failureMessage: string, safeToReplace: bool, nodeToMark: Option<TypeNode>)
    requires node.TypeReference?
    ensures CheckOptionIncludeTypeArguments(node, failureMessage, safeToReplace, nodeToMark)
         == MarkReadonlyArrays(ReferenceArguments(node), failureMessage, safeToReplace, nodeToMark)
    decreases node
  {
    ArgumentsFindReachableReadonlyArrays(node.typeArguments, failureMessage, safeToReplace, nodeToMark);
  }

  lemma {:induction false} ArgumentsFindReachableReadonlyArrays(
    arguments: seq<TypeNode>, failureMessage: string, safeToReplace: bool, nodeToMark: Option<TypeNode>)
    ensures CheckArguments(arguments, failureMessage, safeToReplace, nodeToMark)
         == MarkReadonlyArrays(ReferenceArgumentsOf(arguments), failureMessage, safeToReplace, nodeToMark)
    decreases arguments
  {
    if arguments != [] {
      var argument := arguments[0];
      ArgumentsFindReachableReadonlyArrays(arguments[1..], failureMessage, safeToReplace, nodeToMark);
      var rest := ReferenceArgumentsOf(arguments[1..]);
      if argument.TypeReference? {
        IncludeTypeArgumentsFindsReachableReadonlyArrays(argument, failureMessage, safeToReplace, nodeToMark);
        var below := ReferenceArguments(argument);
        AppendAssociates([argument], below, rest);
        MarkReadonlyArraysCons(argument, below + rest, failureMessage, safeToReplace, nodeToMark);
        MarkReadonlyArraysConcat(below, rest, failureMessage, safeToReplace, nodeToMark);
        AppendAssociates(MarkIfReadonlyArray(argument, failureMessage, safeToReplace, nodeToMark),
                         MarkReadonlyArrays(below, failureMessage, safeToReplace, nodeToMark),
                         MarkReadonlyArrays(rest, failureMessage, safeToReplace, nodeToMark));
      } else {
        assert ReferenceArgumentsOf(arguments) == rest;
      }
    }
  }

  lemma {:induction false} MarkReadonlyArraysFinds(refs: seq<TypeNode>, a: TypeNode, failureMessage: string,
                                                   safeToReplace: bool, nodeToMark: Option<TypeNode>)
    requires a in refs && IsReadonlyArrayReference(a)
    ensures MarkAsInvalidNode(nodeToMark.GetOr(a), failureMessage, GetInvalidNodeReplacements(safeToReplace, a))
            in MarkReadonlyArrays(refs, failureMessage, safeToReplace, nodeToMark)
  {
    if refs[0] != a {
      MarkReadonlyArraysFinds(refs[1..], a, failureMessage, safeToReplace, nodeToMark);
    }
  }

  lemma {:induction false} MarkReadonlyArraysAnchors(refs: seq<TypeNode>, failureMessage: string, safeToReplace: bool)
    ensures forall v :: v in MarkReadonlyArrays(refs, failureMessage, safeToReplace, None) ==>
      v.node in refs && IsReadonlyArrayReference(v.node)
  {
    if refs != [] {
      MarkReadonlyArraysAnchors(refs[1..], failureMessage, safeToReplace);
    }
  }

  /**
   * With `includeTypeArguments`, a return type such as `Promise<ReadonlyArray<T>>` is
   * reported with the type message; each violation is anchored at the nested
   * `ReadonlyArray` argument (not at the outer return type) and carries its rename fix.
   */
  lemma TypeArgumentsReported(node: Node, options: RuleOptions, a: TypeNode)
    requires IsTypedFunctionLikeDeclaration(node)
    requires node.declaredType.value.TypeReference?
    requires node.declaredType.value.typeName.Identifier? && !IsReadonlyArrayReference(node.declaredType.value)
    requires options.includeTypeArguments
    requires a in ReferenceArguments(node.declaredType.value) && IsReadonlyArrayReference(a)
    ensures var r := RuleEntryPoint(node, options).invalidNodes;
      && MarkAsInvalidNode(a, FAILURE_MESSAGE_TYPE, GetInvalidNodeReplacements(true, a)) in r
      && forall v :: v in r ==> v.message == Some(FAILURE_MESSAGE_TYPE) && IsReadonlyArrayReference(v.node)
                                && v.node in ReferenceArguments(node.declaredType.value)
  {
    var t := node.declaredType.value;
    IncludeTypeArgumentsFindsReachableReadonlyArrays(t, FAILURE_MESSAGE_TYPE, true, None);
    MarkReadonlyArraysFinds(ReferenceArguments(t), a, FAILURE_MESSAGE_TYPE, true, None);
    MarkReadonlyArraysAnchors(ReferenceArguments(t), FAILURE_MESSAGE_TYPE, true);
  }

  /** A property signature typed `ReadonlyArray<...>` makes its literal's inspection report something. */
  lemma {:induction false} MembersReport(members: seq<TypeElement>, i: nat, options: RuleOptions, safeToReplace: bool,
                                         nodeToMark: Option<TypeNode>)
    requires i < |members|
    requires members[i].PropertySignature? && members[i].propertyType.Some?
    requires IsReadonlyArrayReference(members[i].propertyType.value)
    ensures InspectMembers(members, options, safeToReplace, nodeToMark) != []
  {
    if i == 0 {
      var t := members[0].propertyType.value;
      assert InspectTypeReference(t, options, FAILURE_MESSAGE_DEEP, safeToReplace, nodeToMark) != [];
      assert InspectPropertySignatureNode(members[0], options, safeToReplace, nodeToMark) != [];
    } else {
      assert members[1..][i - 1] == members[i];
      MembersReport(members[1..], i - 1, options, safeToReplace, nodeToMark);
    }
  }

  /** The tuple's flat map distributes over concatenation: each element contributes on its own. */
  lemma {:induction false} TupleElementsAppend(a: seq<TypeNode>, b: seq<TypeNode>, options: RuleOptions,
                                               safeToReplace: bool, nodeToMark: Option<TypeNode>)
    ensures InspectTupleElements(a + b, options, safeToReplace, nodeToMark)
         == InspectTupleElements(a, options, safeToReplace, nodeToMark)
            + InspectTupleElements(b, options, safeToReplace, nodeToMark)
    decreases a
  {
    if a == [] {
      assert a + b == b;
    } else {
      TupleElementsAppend(a[1..], b, options, safeToReplace, nodeToMark);
      assert (a + b)[0] == a[0] && (a + b)[1..] == a[1..] + b;
      var own := if a[0].TypeReference? then InspectTypeReference(a[0], options, FAILURE_MESSAGE_DEEP, safeToReplace, nodeToMark)
                 else [];
      AppendAssociates(own, InspectTupleElements(a[1..], options, safeToReplace, nodeToMark),
                       InspectTupleElements(b, options, safeToReplace, nodeToMark));
    }
  }

  /** One element contributes its reference inspection when it is a type reference, and nothing otherwise. */
  lemma TupleElementAlone(e: TypeNode, options: RuleOptions, safeToReplace: bool, nodeToMark: Option<TypeNode>)
    ensures InspectTupleElements([e], options, safeToReplace, nodeToMark)
         == if e.TypeReference? then InspectTypeReference(e, options, FAILURE_MESSAGE_DEEP, safeToReplace, nodeToMark) else []
  {
    assert [e][1..] == [];
  }

  /** The tuple's reference elements, in order. */
  function ReferenceElements(elements: seq<TypeNode>): (r: seq<TypeNode>)
    ensures forall e :: e in r ==> e.TypeReference? && e in elements
  {
    if elements == [] then []
    else (if elements[0].TypeReference? then [elements[0]] else []) + ReferenceElements(elements[1..])
  }

  /** Only reference elements are inspected: dropping the others changes nothing. */
  lemma {:induction false} TupleOnlyReferenceElements(elements: seq<TypeNode>, options: RuleOptions,
                                                      safeToReplace: bool, nodeToMark: Option<TypeNode>)
    ensures InspectTupleElements(elements, options, safeToReplace, nodeToMark)
         == InspectTupleElements(ReferenceElements(elements), options, safeToReplace, nodeToMark)
  {
    if elements != [] {
      var e := elements[0];
      TupleOnlyReferenceElements(elements[1..], options, safeToReplace, nodeToMark);
      if e.TypeReference? {
        var rest := ReferenceElements(elements[1..]);
        assert ([e] + rest)[0] == e && ([e] + rest)[1..] == rest;
      } else {
        assert ReferenceElements(elements) == ReferenceElements(elements[1..]) by {
          assert [] + ReferenceElements(elements[1..]) == ReferenceElements(elements[1..]);
        }
        assert InspectTupleElements(elements, options, safeToReplace, nodeToMark)
            == InspectTupleElements(elements[1..], options, safeToReplace, nodeToMark) by {
          var rest := InspectTupleElements(elements[1..], options, safeToReplace, nodeToMark);
          assert [] + rest == rest;
        }
      }
    }
  }

  /** Every violation of a tuple comes from one of its reference elements, and each of theirs is kept. */
  lemma {:induction false} TupleElementsMembers(elements: seq<TypeNode>, options: RuleOptions,
                                                safeToReplace: bool, nodeToMark: Option<TypeNode>, v: Violation)
    ensures v in InspectTupleElements(elements, options, safeToReplace, nodeToMark)
        <==> exists i :: 0 <= i < |elements| && elements[i].TypeReference?
               && v in InspectTypeReference(elements[i], options, FAILURE_MESSAGE_DEEP, safeToReplace, nodeToMark)
  {
    if elements != [] {
      TupleElementsMembers(elements[1..], options, safeToReplace, nodeToMark, v);
      if exists i :: 1 <= i < |elements| && elements[i].TypeReference?
           && v in InspectTypeReference(elements[i], options, FAILURE_MESSAGE_DEEP, safeToReplace, nodeToMark) {
        var i :| 1 <= i < |elements| && elements[i].TypeReference?
           && v in InspectTypeReference(elements[i], options, FAILURE_MESSAGE_DEEP, safeToReplace, nodeToMark);
        assert elements[1..][i - 1] == elements[i];
      }
      if v in InspectTupleElements(elements[1..], options, safeToReplace, nodeToMark) {
        var i :| 0 <= i < |elements[1..]| && elements[1..][i].TypeReference?
           && v in InspectTypeReference(elements[1..][i], options, FAILURE_MESSAGE_DEEP, safeToReplace, nodeToMark);
        assert elements[i + 1] == elements[1..][i];
      }
    }
  }

  /**
   * A tuple with a `ReadonlyArray` reference element is reported: that element's violation
   * is kept unless an earlier one shares its anchor, and the filtered list is never empty.
   */
  lemma TupleElementReported(node: TypeNode, i: nat, options: RuleOptions, safeToReplace: bool,
                             nodeToMark: Option<TypeNode>)
    requires node.TupleType? && i < |node.elementTypes| && IsReadonlyArrayReference(node.elementTypes[i])
    ensures var e := node.elementTypes[i];
      var v := Mark(nodeToMark.GetOr(e), FAILURE_MESSAGE_DEEP, GetInvalidNodeReplacements(safeToReplace, e));
      v in InspectTupleElements(node.elementTypes, options, safeToReplace, nodeToMark)
      && v.node.pos in Positions(InspectTupleTypeNode(node, options, safeToReplace, nodeToMark))
  {
    var e := node.elementTypes[i];
    var v := Mark(nodeToMark.GetOr(e), FAILURE_MESSAGE_DEEP, GetInvalidNodeReplacements(safeToReplace, e));
    assert InspectTypeReference(e, options, FAILURE_MESSAGE_DEEP, safeToReplace, nodeToMark) == [v];
    TupleElementsMembers(node.elementTypes, options, safeToReplace, nodeToMark, v);
    var all := InspectTupleElements(node.elementTypes, options, safeToReplace, nodeToMark);
    assert v.node.pos in Positions(all);
  }

  /**
   * A tuple return type with a `ReadonlyArray` element is reported when, and only when,
   * `deep` is set.
   */
  lemma DeepTupleReported(node: Node, options: RuleOptions, i: nat)
    requires IsTypedFunctionLikeDeclaration(node)
    requires node.declaredType.value.TupleType?
    requires i < |node.declaredType.value.elementTypes|
    requires IsReadonlyArrayReference(node.declaredType.value.elementTypes[i])
    ensures RuleEntryPoint(node, options).invalidNodes != [] <==> options.deep
  {
    if options.deep {
      TupleElementReported(node.declaredType.value, i, options, true, None);
    }
  }

  /**
   * A return type `{ p: ReadonlyArray<...> }` is reported when, and only when, `deep` is
   * set; without `deep` no literal or tuple return type is ever reported.
   */
  lemma DeepLiteralReported(node: Node, options: RuleOptions, i: nat)
    requires IsTypedFunctionLikeDeclaration(node)
    requires node.declaredType.value.TypeLiteral?
    requires i < |node.declaredType.value.members|
    requires node.declaredType.value.members[i].PropertySignature?
    requires node.declaredType.value.members[i].propertyType.Some?
    requires IsReadonlyArrayReference(node.declaredType.value.members[i].propertyType.value)
    ensures RuleEntryPoint(node, options).invalidNodes != [] <==> options.deep
  {
    if options.deep {
      MembersReport(node.declaredType.value.members, i, options, true, None);
    }
  }

  lemma {:induction false} AliasDeclarationsReport(declarations: seq<Declaration>, k: nat, i: nat, options: RuleOptions,
                                                   nodeToMark: Option<TypeNode>)
    requires k < |declarations| && declarations[k].TypeAliasDeclaration?
    requires declarations[k].aliasedType.TypeLiteral?
    requires i < |declarations[k].aliasedType.members|
    requires declarations[k].aliasedType.members[i].PropertySignature?
    requires declarations[k].aliasedType.members[i].propertyType.Some?
    requires IsReadonlyArrayReference(declarations[k].aliasedType.members[i].propertyType.value)
    ensures InspectAliasDeclarations(declarations, options, nodeToMark) != []
  {
    if k == 0 {
      MembersReport(declarations[0].aliasedType.members, i, options, false, nodeToMark);
    } else {
      AliasDeclarationsReport(declarations[1..], k - 1, i, options, nodeToMark);
    }
  }

  /** The member inspection distributes over concatenation: each member contributes on its own. */
  lemma {:induction false} MembersAppend(a: seq<TypeElement>, b: seq<TypeElement>, options: RuleOptions,
                                         safeToReplace: bool, nodeToMark: Option<TypeNode>)
    ensures InspectMembers(a + b, options, safeToReplace, nodeToMark)
         == InspectMembers(a, options, safeToReplace, nodeToMark) + InspectMembers(b, options, safeToReplace, nodeToMark)
    decreases a
  {
    if a == [] {
      assert a + b == b;
    } else {
      MembersAppend(a[1..], b, options, safeToReplace, nodeToMark);
      assert (a + b)[0] == a[0] && (a + b)[1..] == a[1..] + b;
      var own := if a[0].PropertySignature? then InspectPropertySignatureNode(a[0], options, safeToReplace, nodeToMark)
                 else [];
      AppendAssociates(own, InspectMembers(a[1..], options, safeToReplace, nodeToMark),
                       InspectMembers(b, options, safeToReplace, nodeToMark));
    }
  }

  /** One member contributes its property inspection when it is a property signature, and nothing otherwise. */
  lemma MemberAlone(m: TypeElement, options: RuleOptions, safeToReplace: bool, nodeToMark: Option<TypeNode>)
    ensures InspectMembers([m], options, safeToReplace, nodeToMark)
         == if m.PropertySignature? then InspectPropertySignatureNode(m, options, safeToReplace, nodeToMark) else []
  {
    assert [m][1..] == [];
  }

  /** A violation is found among the members iff some property signature's inspection yields it. */
  lemma {:induction false} MembersMembers(members: seq<TypeElement>, options: RuleOptions, safeToReplace: bool,
                                          nodeToMark: Option<TypeNode>, v: Violation)
    ensures v in InspectMembers(members, options, safeToReplace, nodeToMark)
        <==> exists i :: 0 <= i < |members| && members[i].PropertySignature?
               && v in InspectPropertySignatureNode(members[i], options, safeToReplace, nodeToMark)
  {
    if members != [] {
      MembersMembers(members[1..], options, safeToReplace, nodeToMark, v);
      if exists i :: 1 <= i < |members| && members[i].PropertySignature?
           && v in InspectPropertySignatureNode(members[i], options, safeToReplace, nodeToMark) {
        var i :| 1 <= i < |members| && members[i].PropertySignature?
           && v in InspectPropertySignatureNode(members[i], options, safeToReplace, nodeToMark);
        assert members[1..][i - 1] == members[i];
      }
      if v in InspectMembers(members[1..], options, safeToReplace, nodeToMark) {
        var i :| 0 <= i < |members[1..]| && members[1..][i].PropertySignature?
           && v in InspectPropertySignatureNode(members[1..][i], options, safeToReplace, nodeToMark);
        assert members[i + 1] == members[1..][i];
      }
    }
  }

  /** The alias inspection distributes over concatenation: each declaration contributes on its own. */
  lemma {:induction false} AliasDeclarationsAppend(a: seq<Declaration>, b: seq<Declaration>, options: RuleOptions,
                                                   nodeToMark: Option<TypeNode>)
    ensures InspectAliasDeclarations(a + b, options, nodeToMark)
         == InspectAliasDeclarations(a, options, nodeToMark) + InspectAliasDeclarations(b, options, nodeToMark)
    decreases a
  {
    if a == [] {
      assert a + b == b;
    } else {
      AliasDeclarationsAppend(a[1..], b, options, nodeToMark);
      assert (a + b)[0] == a[0] && (a + b)[1..] == a[1..] + b;
      var own := if a[0].TypeAliasDeclaration? && a[0].aliasedType.TypeLiteral? then
                   InspectTypeLiteralNode(a[0].aliasedType, options, false, nodeToMark)
                 else [];
      AppendAssociates(own, InspectAliasDeclarations(a[1..], options, nodeToMark),
                       InspectAliasDeclarations(b, options, nodeToMark));
    }
  }

  /** One declaration contributes its literal's inspection when it is a type alias of a literal, and nothing otherwise. */
  lemma AliasDeclarationAlone(d: Declaration, options: RuleOptions, nodeToMark: Option<TypeNode>)
    ensures InspectAliasDeclarations([d], options, nodeToMark)
         == if d.TypeAliasDeclaration? && d.aliasedType.TypeLiteral? then
              InspectTypeLiteralNode(d.aliasedType, options, false, nodeToMark)
            else []
  {
    assert [d][1..] == [];
  }

  /** A violation is found among the declarations iff some literal alias declaration's inspection yields it. */
  lemma {:induction false} AliasDeclarationsMembers(declarations: seq<Declaration>, options: RuleOptions,
                                                    nodeToMark: Option<TypeNode>, v: Violation)
    ensures v in InspectAliasDeclarations(declarations, options, nodeToMark)
        <==> exists k :: 0 <= k < |declarations| && declarations[k].TypeAliasDeclaration?
               && declarations[k].aliasedType.TypeLiteral?
               && v in InspectTypeLiteralNode(declarations[k].aliasedType, options, false, nodeToMark)
  {
    if declarations != [] {
      AliasDeclarationsMembers(declarations[1..], options, nodeToMark, v);
      if exists k :: 1 <= k < |declarations| && declarations[k].TypeAliasDeclaration?
           && declarations[k].aliasedType.TypeLiteral?
           && v in InspectTypeLiteralNode(declarations[k].aliasedType, options, false, nodeToMark) {
        var k :| 1 <= k < |declarations| && declarations[k].TypeAliasDeclaration?
           && declarations[k].aliasedType.TypeLiteral?
           && v in InspectTypeLiteralNode(declarations[k].aliasedType, options, false, nodeToMark);
        assert declarations[1..][k - 1] == declarations[k];
      }
      if v in InspectAliasDeclarations(declarations[1..], options, nodeToMark) {
        var k :| 0 <= k < |declarations[1..]| && declarations[1..][k].TypeAliasDeclaration?
           && declarations[1..][k].aliasedType.TypeLiteral?
           && v in InspectTypeLiteralNode(declarations[1..][k].aliasedType, options, false, nodeToMark);
        assert declarations[k + 1] == declarations[1..][k];
      }
    }
  }

  /**
   * With `deep`, every property of a literal return type that is typed `ReadonlyArray` is
   * reported on its own, anchored at that property type and with its rename fix.
   */
  lemma DeepLiteralEveryPropertyReported(node: Node, options: RuleOptions, i: nat)
    requires IsTypedFunctionLikeDeclaration(node) && options.deep
    requires node.declaredType.value.TypeLiteral?
    requires i < |node.declaredType.value.members|
    requires node.declaredType.value.members[i].PropertySignature?
    requires node.declaredType.value.members[i].propertyType.Some?
    requires IsReadonlyArrayReference(node.declaredType.value.members[i].propertyType.value)
    ensures var t := node.declaredType.value.members[i].propertyType.value;
      Mark(t, FAILURE_MESSAGE_DEEP, GetInvalidNodeReplacements(true, t)) in RuleEntryPoint(node, options).invalidNodes
  {
    var members := node.declaredType.value.members;
    var t := members[i].propertyType.value;
    var v := Mark(t, FAILURE_MESSAGE_DEEP, GetInvalidNodeReplacements(true, t));
    assert InspectPropertySignatureNode(members[i], options, true, None) == [v];
    MembersMembers(members, options, true, None, v);
  }

  /**
   * Every literal declaration of a reference's alias is searched: a property typed
   * `ReadonlyArray` in any of them is reported at the anchor, without a fix.
   */
  lemma TypeAliasEveryDeclarationReported(node: TypeNode, options: RuleOptions, nodeToMark: Option<TypeNode>,
                                          k: nat, i: nat)
    requires node.TypeReference?
    requires k < |node.resolution.aliasDeclarations|
    requires node.resolution.aliasDeclarations[k].TypeAliasDeclaration?
    requires node.resolution.aliasDeclarations[k].aliasedType.TypeLiteral?
    requires i < |node.resolution.aliasDeclarations[k].aliasedType.members|
    requires node.resolution.aliasDeclarations[k].aliasedType.members[i].PropertySignature?
    requires node.resolution.aliasDeclarations[k].aliasedType.members[i].propertyType.Some?
    requires IsReadonlyArrayReference(node.resolution.aliasDeclarations[k].aliasedType.members[i].propertyType.value)
    ensures Mark(nodeToMark.GetOr(node), FAILURE_MESSAGE_DEEP, []) in InspectTypeReferenceTypeAlias(node, options, nodeToMark)
  {
    var anchor := Some(nodeToMark.GetOr(node));
    var literal := node.resolution.aliasDeclarations[k].aliasedType;
    var t := literal.members[i].propertyType.value;
    var v := Mark(nodeToMark.GetOr(node), FAILURE_MESSAGE_DEEP, []);
    assert GetInvalidNodeReplacements(false, t) == [];
    assert InspectPropertySignatureNode(literal.members[i], options, false, anchor) == [v];
    MembersMembers(literal.members, options, false, anchor, v);
    AliasDeclarationsMembers(node.resolution.aliasDeclarations, options, anchor, v);
  }

  /**
   * Alias transparency: with `deep`, a return type naming an alias whose declaration is
   * `{ p: ReadonlyArray<...> }` is reported although its name does not mention
   * `ReadonlyArray`. Every violation is anchored at the return type and has no fix.
   */
  lemma AliasTransparency(node: Node, options: RuleOptions, k: nat, i: nat)
    requires IsTypedFunctionLikeDeclaration(node)
    requires var t := node.declaredType.value;
      t.TypeReference? && t.typeName.Identifier? && !IsReadonlyArrayReference(t)
    requires forall a :: a in ReferenceArguments(node.declaredType.value) ==> !IsReadonlyArrayReference(a)
    requires var decls := node.declaredType.value.resolution.aliasDeclarations;
      && k < |decls| && decls[k].TypeAliasDeclaration? && decls[k].aliasedType.TypeLiteral?
      && i < |decls[k].aliasedType.members|
      && decls[k].aliasedType.members[i].PropertySignature?
      && decls[k].aliasedType.members[i].propertyType.Some?
      && IsReadonlyArrayReference(decls[k].aliasedType.members[i].propertyType.value)
    requires options.deep
    ensures var r := RuleEntryPoint(node, options).invalidNodes;
      r != [] && forall v :: v in r ==> v.node == node.declaredType.value && v.replacements == []
  {
    var t := node.declaredType.value;
    IncludeTypeArgumentsFindsReachableReadonlyArrays(t, FAILURE_MESSAGE_TYPE, true, None);
    NoReadonlyArrayNoMarks(ReferenceArguments(t), FAILURE_MESSAGE_TYPE, true, None);
    AliasDeclarationsReport(t.resolution.aliasDeclarations, k, i, options, Some(t));
    assert InspectTypeReferenceTypeAlias(t, options, None) != [];
    var r := InspectTypeReferenceWithTypeChecking(t, options, None);
    assert r != [];
    assert InspectTypeReference(t, options, FAILURE_MESSAGE_DEFAULT, true, None) == r;
  }

  lemma {:induction false} NoReadonlyArrayNoMarks(refs: seq<TypeNode>, failureMessage: string, safeToReplace: bool,
                                                  nodeToMark: Option<TypeNode>)
    requires forall a :: a in refs ==> !IsReadonlyArrayReference(a)
    ensures MarkReadonlyArrays(refs, failureMessage, safeToReplace, nodeToMark) == []
  {
    if refs != [] {
      NoReadonlyArrayNoMarks(refs[1..], failureMessage, safeToReplace, nodeToMark);
    }
  }

  /**
   * With `parseOptions` as written, the type-argument path is switched off whatever the rule
   * arguments: no key it produces is `includeTypeArguments`.
   */
  lemma ParsedOptionsNeverIncludeTypeArguments(args: seq<Options.Json>, m: Options.OptionsMap)
    requires Options.ParseOptionsSpec(args) == Wrappers.Ok(m)
    ensures !RuleOptionsOf(m).includeTypeArguments
  {
    OptionsProperties.IncludeTypeArgumentsNeverParsed(args, m);
  }

  /**
   * The shipped configuration `["include-type-arguments", "deep"]` turns on only `deep` as
   * written, and both options with the documented camel-casing.
   */
  lemma ShippedRuleOptions(args: seq<Options.Json>)
    requires args == [Options.JString("include-type-arguments"), Options.JString("deep")]
    ensures Options.ParseOptionsSpec(args).Ok?
    ensures RuleOptionsOf(Options.ParseOptionsSpec(args).value) == RuleOptions(false, true)
    ensures Options.ParseOptionsWith(Options.CamelizeIntended, args).Ok?
    ensures RuleOptionsOf(Options.ParseOptionsWith(Options.CamelizeIntended, args).value) == RuleOptions(true, true)
  {
    OptionsProperties.ShippedConfiguration(args);
    var m := Options.ParseOptionsSpec(args).value;
    assert "includeTypeArguments" != "includeType,Arguments";
    assert "includeTypeArguments" !in m;
  }
}
