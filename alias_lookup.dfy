/**
 * The `deep` alias path of `no-return-readonly-array` with the type checker read as a
 * table from alias names to their declarations, so that an alias may mention itself
 * (`type T = { self: T }`), which the finite `Resolution` records cannot express.
 *
 * The path followed is the one taken when `includeTypeArguments` is off and the type
 * node the checker synthesizes for the reference contributes nothing: a reference is
 * looked up, each alias declared as a type literal is inspected member by member, and a
 * property typed by a reference starts the search again from that reference.
 */
module AliasLookup {
  import opened Wrappers
  import opened TypeSyntax
  import opened NodeRuleHelpers
  import opened NoReturnReadonlyArray

  /** The checker's alias table: an alias name to the declarations of its symbol. */
  type AliasTable = map<string, seq<Declaration>>

  /** The declarations the checker gives for a reference; none for an unknown name. */
  function AliasDeclarationsOf(table: AliasTable, ref: TypeNode): (r: seq<Declaration>)
    requires ref.TypeReference?
    ensures r != [] ==> ref.typeName.text in table
  {
    if ref.typeName.Identifier? && ref.typeName.text in table then table[ref.typeName.text] else []
  }

  /** Concatenates two results; no result when either search did not finish. */
  function Both(a: Option<seq<Violation>>, b: Option<seq<Violation>>): (r: Option<seq<Violation>>)
    ensures r.Some? <==> a.Some? && b.Some?
    ensures r.Some? ==> r.value == a.value + b.value
  {
    if a.Some? && b.Some? then Some(a.value + b.value) else None
  }

  /**
   * The source's search as written, allowed `fuel` alias expansions; `None` means the
   * search needed more. A search that needs more than every bound is one that never ends.
   */
  function ExpandReference(ref: TypeNode, table: AliasTable, failureMessage: string, safeToReplace: bool,
                           nodeToMark: Option<TypeNode>, fuel: nat): (r: Option<seq<Violation>>)
    requires ref.TypeReference?
    ensures !ref.typeName.Identifier? ==> r == Some([])
    ensures IsReadonlyArrayReference(ref) ==> r.Some? && |r.value| == 1
    decreases fuel, ref, 0
  {
    if !ref.typeName.Identifier? then Some([])
    else if ref.typeName.text == READONLY_ARRAY_TYPE then
      Some([Mark(nodeToMark.GetOr(ref), failureMessage, GetInvalidNodeReplacements(safeToReplace, ref))])
    else if fuel == 0 then None
    else ExpandAliases(AliasDeclarationsOf(table, ref), table, Some(nodeToMark.GetOr(ref)), fuel - 1)
  }

  function ExpandAliases(declarations: seq<Declaration>, table: AliasTable, nodeToMark: Option<TypeNode>,
                         fuel: nat): (r: Option<seq<Violation>>)
    ensures declarations == [] ==> r == Some([])
    decreases fuel, declarations
  {
    if declarations == [] then Some([])
    else
      Both(if declarations[0].TypeAliasDeclaration? && declarations[0].aliasedType.TypeLiteral? then
             assert declarations[0].aliasedType < declarations[0];
             ExpandLiteral(declarations[0].aliasedType, table, false, nodeToMark, fuel)
           else Some([]),
           ExpandAliases(declarations[1..], table, nodeToMark, fuel))
  }

  function ExpandLiteral(node: TypeNode, table: AliasTable, safeToReplace: bool, nodeToMark: Option<TypeNode>,
                         fuel: nat): (r: Option<seq<Violation>>)
    requires node.TypeLiteral?
    ensures node.members == [] ==> r == Some([])
    decreases fuel, node, 1
  {
    ExpandMembers(node.members, table, safeToReplace, nodeToMark, fuel)
  }

  function ExpandMembers(members: seq<TypeElement>, table: AliasTable, safeToReplace: bool,
                         nodeToMark: Option<TypeNode>, fuel: nat): (r: Option<seq<Violation>>)
    ensures members == [] ==> r == Some([])
    decreases fuel, members
  {
    if members == [] then Some([])
    else
      var own :=
        if members[0].PropertySignature? && members[0].propertyType.Some? then
          var t := members[0].propertyType.value;
          assert t < members[0].propertyType && members[0].propertyType < members[0];
          if t.TypeReference? then ExpandReference(t, table, FAILURE_MESSAGE_DEEP, safeToReplace, nodeToMark, fuel)
          else if t.TypeLiteral? then ExpandLiteral(t, table, safeToReplace, nodeToMark, fuel)
          else Some([])
        else Some([]);
      Both(own, ExpandMembers(members[1..], table, safeToReplace, nodeToMark, fuel))
  }

  /** The alias `T` declared as `{ self: T }`, and a reference to it. */
  function SelfReference(pos: int): (r: TypeNode)
    ensures r.TypeReference? && r.typeName == Identifier("T") && !IsReadonlyArrayReference(r)
  {
    TypeReference(pos, pos, Identifier("T"), [], Resolution(None, []))
  }

  function SelfAliasTable(propertyPos: int): (table: AliasTable)
    ensures "T" in table && |table["T"]| == 1
  {
    map["T" := [TypeAliasDeclaration(TypeLiteral(propertyPos, [PropertySignature(propertyPos, Some(SelfReference(propertyPos)))]))]]
  }

  /**
   * As written, the search from any reference to `T` with `type T = { self: T }` never
   * ends: no number of alias expansions is enough, because each expansion of `T` reaches
   * the property `self: T` and starts over with the same arguments.
   */
  lemma {:induction false} SelfAliasNeverFinishes(ref: TypeNode, propertyPos: int, failureMessage: string,
                                                  safeToReplace: bool, nodeToMark: Option<TypeNode>, fuel: nat)
    requires ref.TypeReference? && ref.typeName == Identifier("T")
    ensures ExpandReference(ref, SelfAliasTable(propertyPos), failureMessage, safeToReplace, nodeToMark, fuel).None?
    decreases fuel
  {
    var table := SelfAliasTable(propertyPos);
    if fuel > 0 {
      var self := SelfReference(propertyPos);
      var members := [PropertySignature(propertyPos, Some(self))];
      var literal := TypeLiteral(propertyPos, members);
      var anchor := Some(nodeToMark.GetOr(ref));
      assert AliasDeclarationsOf(table, ref) == [TypeAliasDeclaration(literal)];
      SelfAliasNeverFinishes(self, propertyPos, FAILURE_MESSAGE_DEEP, false, anchor, fuel - 1);
      assert ExpandMembers(members, table, false, anchor, fuel - 1).None?;
      assert ExpandLiteral(literal, table, false, anchor, fuel - 1).None?;
    }
  }

  /** A search that finishes within some budget gives the same result with a larger one. */
  lemma {:induction false} ExpandReferenceMoreFuel(ref: TypeNode, table: AliasTable, failureMessage: string,
                                                   safeToReplace: bool, nodeToMark: Option<TypeNode>, fuel: nat)
    requires ref.TypeReference?
    requires ExpandReference(ref, table, failureMessage, safeToReplace, nodeToMark, fuel).Some?
    ensures ExpandReference(ref, table, failureMessage, safeToReplace, nodeToMark, fuel + 1)
         == ExpandReference(ref, table, failureMessage, safeToReplace, nodeToMark, fuel)
    decreases fuel, ref, 0
  {
    if ref.typeName.Identifier? && ref.typeName.text != READONLY_ARRAY_TYPE {
      ExpandAliasesMoreFuel(AliasDeclarationsOf(table, ref), table, Some(nodeToMark.GetOr(ref)), fuel - 1);
    }
  }

  lemma {:induction false} ExpandAliasesMoreFuel(declarations: seq<Declaration>, table: AliasTable,
                                                 nodeToMark: Option<TypeNode>, fuel: nat)
    requires ExpandAliases(declarations, table, nodeToMark, fuel).Some?
    ensures ExpandAliases(declarations, table, nodeToMark, fuel + 1) == ExpandAliases(declarations, table, nodeToMark, fuel)
    decreases fuel, declarations
  {
    if declarations != [] {
      if declarations[0].TypeAliasDeclaration? && declarations[0].aliasedType.TypeLiteral? {
        assert declarations[0].aliasedType < declarations[0];
        ExpandMembersMoreFuel(declarations[0].aliasedType.members, table, false, nodeToMark, fuel);
      }
      ExpandAliasesMoreFuel(declarations[1..], table, nodeToMark, fuel);
    }
  }

  lemma {:induction false} ExpandMembersMoreFuel(members: seq<TypeElement>, table: AliasTable, safeToReplace: bool,
                                                 nodeToMark: Option<TypeNode>, fuel: nat)
    requires ExpandMembers(members, table, safeToReplace, nodeToMark, fuel).Some?
    ensures ExpandMembers(members, table, safeToReplace, nodeToMark, fuel + 1)
         == ExpandMembers(members, table, safeToReplace, nodeToMark, fuel)
    decreases fuel, members
  {
    if members != [] {
      if members[0].PropertySignature? && members[0].propertyType.Some? {
        var t := members[0].propertyType.value;
        assert t < members[0].propertyType && members[0].propertyType < members[0];
        if t.TypeReference? {
          ExpandReferenceMoreFuel(t, table, FAILURE_MESSAGE_DEEP, safeToReplace, nodeToMark, fuel);
        } else if t.TypeLiteral? {
          ExpandMembersMoreFuel(t.members, table, safeToReplace, nodeToMark, fuel);
        }
      }
      ExpandMembersMoreFuel(members[1..], table, safeToReplace, nodeToMark, fuel);
    }
  }

  /** The aliases of `table` not yet being expanded. */
  function Unexpanded(table: AliasTable, expanding: set<string>): set<string> {
    table.Keys - expanding
  }

  /**
   * The evidently intended search: the same path, except that an alias already being
   * expanded further up is not expanded again. It always ends, because every expansion
   * leaves one alias fewer to expand, and it returns what the written search returns on
   * every input where that one finishes (`GuardedAgreesWhereSourceFinishes`).
   */
  function GuardedReference(ref: TypeNode, table: AliasTable, failureMessage: string, safeToReplace: bool,
                            nodeToMark: Option<TypeNode>, expanding: set<string>): (r: seq<Violation>)
    requires ref.TypeReference?
    ensures !ref.typeName.Identifier? ==> r == []
    ensures IsReadonlyArrayReference(ref) ==> |r| == 1
    ensures ref.typeName.Identifier? && ref.typeName.text in expanding && !IsReadonlyArrayReference(ref) ==> r == []
    decreases |Unexpanded(table, expanding)|, ref, 0
  {
    if !ref.typeName.Identifier? then []
    else if ref.typeName.text == READONLY_ARRAY_TYPE then
      [Mark(nodeToMark.GetOr(ref), failureMessage, GetInvalidNodeReplacements(safeToReplace, ref))]
    else if ref.typeName.text in expanding || ref.typeName.text !in table then []
    else
      var name := ref.typeName.text;
      assert Unexpanded(table, expanding + {name}) == Unexpanded(table, expanding) - {name};
      GuardedAliases(table[name], table, Some(nodeToMark.GetOr(ref)), expanding + {name})
  }

  function GuardedAliases(declarations: seq<Declaration>, table: AliasTable, nodeToMark: Option<TypeNode>,
                          expanding: set<string>): (r: seq<Violation>)
    ensures declarations == [] ==> r == []
    decreases |Unexpanded(table, expanding)|, declarations
  {
    if declarations == [] then []
    else
      (if declarations[0].TypeAliasDeclaration? && declarations[0].aliasedType.TypeLiteral? then
         assert declarations[0].aliasedType < declarations[0];
         GuardedMembers(declarations[0].aliasedType.members, table, false, nodeToMark, expanding)
       else [])
      + GuardedAliases(declarations[1..], table, nodeToMark, expanding)
  }

  function GuardedMembers(members: seq<TypeElement>, table: AliasTable, safeToReplace: bool,
                          nodeToMark: Option<TypeNode>, expanding: set<string>): (r: seq<Violation>)
    ensures members == [] ==> r == []
    decreases |Unexpanded(table, expanding)|, members
  {
    if members == [] then []
    else
      (if members[0].PropertySignature? && members[0].propertyType.Some? then
         var t := members[0].propertyType.value;
         assert t < members[0].propertyType && members[0].propertyType < members[0];
         if t.TypeReference? then GuardedReference(t, table, FAILURE_MESSAGE_DEEP, safeToReplace, nodeToMark, expanding)
         else if t.TypeLiteral? then GuardedMembers(t.members, table, safeToReplace, nodeToMark, expanding)
         else []
       else [])
      + GuardedMembers(members[1..], table, safeToReplace, nodeToMark, expanding)
  }

  /** With the guard, `type T = { self: T }` is searched once and, holding no `ReadonlyArray`, reported nowhere. */
  lemma SelfAliasGuardedFinishes(ref: TypeNode, propertyPos: int, failureMessage: string, safeToReplace: bool,
                                 nodeToMark: Option<TypeNode>)
    requires ref.TypeReference? && ref.typeName == Identifier("T")
    ensures GuardedReference(ref, SelfAliasTable(propertyPos), failureMessage, safeToReplace, nodeToMark, {}) == []
  {
    var table := SelfAliasTable(propertyPos);
    var self := SelfReference(propertyPos);
    var members := [PropertySignature(propertyPos, Some(self))];
    var anchor := Some(nodeToMark.GetOr(ref));
    assert GuardedReference(self, table, FAILURE_MESSAGE_DEEP, false, anchor, {"T"}) == [];
    assert members[1..] == [];
    assert GuardedMembers(members, table, false, anchor, {"T"}) == [];
    var declarations := [TypeAliasDeclaration(TypeLiteral(propertyPos, members))];
    assert declarations[1..] == [];
    assert GuardedAliases(declarations, table, anchor, {"T"}) == [];
    assert table[ref.typeName.text] == declarations;
    assert {} + {ref.typeName.text} == {"T"};
  }

  /**
   * The guarded search still reports an alias, not yet being expanded, whose literal has a
   * property typed `ReadonlyArray`, anchored at the searched reference. That it returns the
   * source's answer whenever the source finishes is `GuardedAgreesWhereSourceFinishes`.
   */
  lemma GuardedFindsReadonlyArrayProperty(ref: TypeNode, table: AliasTable, failureMessage: string,
                                          safeToReplace: bool, nodeToMark: Option<TypeNode>,
                                          expanding: set<string>, k: nat, i: nat)
    requires ref.TypeReference? && ref.typeName.Identifier? && !IsReadonlyArrayReference(ref)
    requires ref.typeName.text in table && ref.typeName.text !in expanding
    requires var decls := table[ref.typeName.text];
      && k < |decls| && decls[k].TypeAliasDeclaration? && decls[k].aliasedType.TypeLiteral?
      && i < |decls[k].aliasedType.members|
      && decls[k].aliasedType.members[i].PropertySignature?
      && decls[k].aliasedType.members[i].propertyType.Some?
      && IsReadonlyArrayReference(decls[k].aliasedType.members[i].propertyType.value)
    ensures var r := GuardedReference(ref, table, failureMessage, safeToReplace, nodeToMark, expanding);
      r != [] && forall v :: v in r ==> v.node == nodeToMark.GetOr(ref)
  {
    var name := ref.typeName.text;
    var anchor := Some(nodeToMark.GetOr(ref));
    GuardedAliasesReport(table[name], table, anchor, expanding + {name}, k, i);
    GuardedAliasesAnchored(table[name], table, anchor, expanding + {name});
  }

  lemma {:induction false} GuardedAliasesReport(declarations: seq<Declaration>, table: AliasTable,
                                                nodeToMark: Option<TypeNode>, expanding: set<string>, k: nat, i: nat)
    requires k < |declarations| && declarations[k].TypeAliasDeclaration? && declarations[k].aliasedType.TypeLiteral?
    requires i < |declarations[k].aliasedType.members|
    requires declarations[k].aliasedType.members[i].PropertySignature?
    requires declarations[k].aliasedType.members[i].propertyType.Some?
    requires IsReadonlyArrayReference(declarations[k].aliasedType.members[i].propertyType.value)
    ensures GuardedAliases(declarations, table, nodeToMark, expanding) != []
  {
    if k == 0 {
      GuardedMembersReport(declarations[0].aliasedType.members, table, nodeToMark, expanding, i);
    } else {
      GuardedAliasesReport(declarations[1..], table, nodeToMark, expanding, k - 1, i);
    }
  }

  lemma {:induction false} GuardedMembersReport(members: seq<TypeElement>, table: AliasTable,
                                                nodeToMark: Option<TypeNode>, expanding: set<string>, i: nat)
    requires i < |members| && members[i].PropertySignature? && members[i].propertyType.Some?
    requires IsReadonlyArrayReference(members[i].propertyType.value)
    ensures GuardedMembers(members, table, false, nodeToMark, expanding) != []
  {
    if i > 0 {
      assert members[1..][i - 1] == members[i];
      GuardedMembersReport(members[1..], table, nodeToMark, expanding, i - 1);
    }
  }

  /** Everything the guarded alias search reports is anchored at the given node. */
  lemma {:induction false} GuardedAliasesAnchored(declarations: seq<Declaration>, table: AliasTable,
                                                  nodeToMark: Option<TypeNode>, expanding: set<string>)
    requires nodeToMark.Some?
    ensures forall v :: v in GuardedAliases(declarations, table, nodeToMark, expanding) ==> v.node == nodeToMark.value
    decreases |Unexpanded(table, expanding)|, declarations, 1
  {
    if declarations != [] {
      if declarations[0].TypeAliasDeclaration? && declarations[0].aliasedType.TypeLiteral? {
        assert declarations[0].aliasedType < declarations[0];
        GuardedMembersAnchored(declarations[0].aliasedType.members, table, false, nodeToMark, expanding);
      }
      GuardedAliasesAnchored(declarations[1..], table, nodeToMark, expanding);
    }
  }

  lemma {:induction false} GuardedMembersAnchored(members: seq<TypeElement>, table: AliasTable, safeToReplace: bool,
                                                  nodeToMark: Option<TypeNode>, expanding: set<string>)
    requires nodeToMark.Some?
    ensures forall v :: v in GuardedMembers(members, table, safeToReplace, nodeToMark, expanding) ==> v.node == nodeToMark.value
    decreases |Unexpanded(table, expanding)|, members, 1
  {
    if members != [] {
      if members[0].PropertySignature? && members[0].propertyType.Some? {
        var t := members[0].propertyType.value;
        assert t < members[0].propertyType && members[0].propertyType < members[0];
        if t.TypeReference? {
          GuardedReferenceAnchored(t, table, FAILURE_MESSAGE_DEEP, safeToReplace, nodeToMark, expanding);
        } else if t.TypeLiteral? {
          GuardedMembersAnchored(t.members, table, safeToReplace, nodeToMark, expanding);
        }
      }
      GuardedMembersAnchored(members[1..], table, safeToReplace, nodeToMark, expanding);
    }
  }

  lemma {:induction false} GuardedReferenceAnchored(ref: TypeNode, table: AliasTable, failureMessage: string,
                                                    safeToReplace: bool, nodeToMark: Option<TypeNode>,
                                                    expanding: set<string>)
    requires ref.TypeReference? && nodeToMark.Some?
    ensures forall v :: v in GuardedReference(ref, table, failureMessage, safeToReplace, nodeToMark, expanding)
              ==> v.node == nodeToMark.value
    decreases |Unexpanded(table, expanding)|, ref, 0
  {
    if ref.typeName.Identifier? && ref.typeName.text != READONLY_ARRAY_TYPE
       && ref.typeName.text !in expanding && ref.typeName.text in table {
      var name := ref.typeName.text;
      assert Unexpanded(table, expanding + {name}) == Unexpanded(table, expanding) - {name};
      GuardedAliasesAnchored(table[name], table, nodeToMark, expanding + {name});
    }
  }

  /** A finished alias expansion keeps its answer under any larger budget. */
  lemma {:induction false} ExpandAliasesMonotone(declarations: seq<Declaration>, table: AliasTable,
                                                 nodeToMark: Option<TypeNode>, fuel: nat, more: nat)
    requires fuel <= more
    requires ExpandAliases(declarations, table, nodeToMark, fuel).Some?
    ensures ExpandAliases(declarations, table, nodeToMark, more) == ExpandAliases(declarations, table, nodeToMark, fuel)
    decreases more - fuel
  {
    if fuel < more {
      ExpandAliasesMoreFuel(declarations, table, nodeToMark, fuel);
      ExpandAliasesMonotone(declarations, table, nodeToMark, fuel + 1, more);
    }
  }

  /** The least budget within which a finished alias expansion finishes, with the same answer. */
  lemma {:induction false} LeastFuel(declarations: seq<Declaration>, table: AliasTable, nodeToMark: Option<TypeNode>,
                                     fuel: nat) returns (least: nat)
    requires ExpandAliases(declarations, table, nodeToMark, fuel).Some?
    ensures least <= fuel
    ensures ExpandAliases(declarations, table, nodeToMark, least) == ExpandAliases(declarations, table, nodeToMark, fuel)
    ensures forall g :: 0 <= g < least ==> ExpandAliases(declarations, table, nodeToMark, g).None?
    decreases fuel
  {
    if fuel > 0 && ExpandAliases(declarations, table, nodeToMark, fuel - 1).Some? {
      least := LeastFuel(declarations, table, nodeToMark, fuel - 1);
      ExpandAliasesMoreFuel(declarations, table, nodeToMark, fuel - 1);
    } else {
      least := fuel;
      forall g | 0 <= g < fuel
        ensures ExpandAliases(declarations, table, nodeToMark, g).None?
      {
        if ExpandAliases(declarations, table, nodeToMark, g).Some? {
          ExpandAliasesMonotone(declarations, table, nodeToMark, g, fuel - 1);
        }
      }
    }
  }

  /**
   * Every alias in `expanding` is in the table, and its expansion towards `anchor` does
   * not finish within any budget below `fuel`.
   */
  predicate ExpandingUnfinished(table: AliasTable, expanding: set<string>, anchor: TypeNode, fuel: nat) {
    forall name :: name in expanding ==>
      name in table && forall g :: 0 <= g < fuel ==> ExpandAliases(table[name], table, Some(anchor), g).None?
  }

  /**
   * The corrected search agrees with the source's search wherever the latter ends: the
   * guard only ever cuts off a search that would never have ended.
   */
  lemma GuardedAgreesWhereSourceFinishes(ref: TypeNode, table: AliasTable, failureMessage: string,
                                         safeToReplace: bool, nodeToMark: Option<TypeNode>, fuel: nat)
    requires ref.TypeReference?
    requires ExpandReference(ref, table, failureMessage, safeToReplace, nodeToMark, fuel).Some?
    ensures GuardedReference(ref, table, failureMessage, safeToReplace, nodeToMark, {})
         == ExpandReference(ref, table, failureMessage, safeToReplace, nodeToMark, fuel).value
  {
    AgreeReference(ref, table, failureMessage, safeToReplace, nodeToMark, {}, fuel);
  }

  lemma {:induction false} AgreeReference(ref: TypeNode, table: AliasTable, failureMessage: string,
                                          safeToReplace: bool, nodeToMark: Option<TypeNode>,
                                          expanding: set<string>, fuel: nat)
    requires ref.TypeReference?
    requires ExpandingUnfinished(table, expanding, nodeToMark.GetOr(ref), fuel)
    requires ExpandReference(ref, table, failureMessage, safeToReplace, nodeToMark, fuel).Some?
    ensures GuardedReference(ref, table, failureMessage, safeToReplace, nodeToMark, expanding)
         == ExpandReference(ref, table, failureMessage, safeToReplace, nodeToMark, fuel).value
    decreases fuel, ref, 0
  {
    if ref.typeName.Identifier? && ref.typeName.text != READONLY_ARRAY_TYPE {
      var name := ref.typeName.text;
      var anchor := nodeToMark.GetOr(ref);
      if name !in expanding && name in table {
        var least := LeastFuel(table[name], table, Some(anchor), fuel - 1);
        AgreeAliases(table[name], table, anchor, expanding + {name}, least);
      }
    }
  }

  lemma {:induction false} AgreeAliases(declarations: seq<Declaration>, table: AliasTable, anchor: TypeNode,
                                        expanding: set<string>, fuel: nat)
    requires ExpandingUnfinished(table, expanding, anchor, fuel)
    requires ExpandAliases(declarations, table, Some(anchor), fuel).Some?
    ensures GuardedAliases(declarations, table, Some(anchor), expanding)
         == ExpandAliases(declarations, table, Some(anchor), fuel).value
    decreases fuel, declarations
  {
    if declarations != [] {
      if declarations[0].TypeAliasDeclaration? && declarations[0].aliasedType.TypeLiteral? {
        assert declarations[0].aliasedType < declarations[0];
        AgreeMembers(declarations[0].aliasedType.members, table, false, anchor, expanding, fuel);
      }
      AgreeAliases(declarations[1..], table, anchor, expanding, fuel);
    }
  }

  lemma {:induction false} AgreeMembers(members: seq<TypeElement>, table: AliasTable, safeToReplace: bool,
                                        anchor: TypeNode, expanding: set<string>, fuel: nat)
    requires ExpandingUnfinished(table, expanding, anchor, fuel)
    requires ExpandMembers(members, table, safeToReplace, Some(anchor), fuel).Some?
    ensures GuardedMembers(members, table, safeToReplace, Some(anchor), expanding)
         == ExpandMembers(members, table, safeToReplace, Some(anchor), fuel).value
    decreases fuel, members
  {
    if members != [] {
      if members[0].PropertySignature? && members[0].propertyType.Some? {
        var t := members[0].propertyType.value;
        assert t < members[0].propertyType && members[0].propertyType < members[0];
        if t.TypeReference? {
          AgreeReference(t, table, FAILURE_MESSAGE_DEEP, safeToReplace, Some(anchor), expanding, fuel);
        } else if t.TypeLiteral? {
          AgreeMembers(t.members, table, safeToReplace, anchor, expanding, fuel);
        }
      }
      AgreeMembers(members[1..], table, safeToReplace, anchor, expanding, fuel);
    }
  }
}
