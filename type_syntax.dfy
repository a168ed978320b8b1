/**
 * The part of the compiler's type-syntax tree that the ReadonlyArray rule looks at,
 * together with the answers of the type checker for each type reference.
 */
module TypeSyntax {
  import opened Wrappers

  /** The name of a type reference: a plain identifier or a dotted (qualified) name. */
  datatype EntityName = Identifier(text: string) | QualifiedName(text: string)

  /**
   * A type-syntax node. `pos` is the node's full start (before leading trivia; -1 for a
   * node synthesized by the type checker) and `start` is the offset of its first token.
   * Absent type arguments are represented by the empty sequence: the rule treats
   * `undefined` and `[]` alike.
   */
  datatype TypeNode =
    | TypeReference(pos: int, start: int, typeName: EntityName,
                    typeArguments: seq<TypeNode>, resolution: Resolution)
    | TypeLiteral(pos: int, members: seq<TypeElement>)
    | TupleType(pos: int, elementTypes: seq<TypeNode>)
    | OtherType(pos: int)

  /** A member of a type literal. */
  datatype TypeElement =
    | PropertySignature(pos: int, propertyType: Option<TypeNode>)
    | OtherElement(pos: int)

  /**
   * What the type checker answers for a type reference: `typeNode` is the syntax it
   * gives back for the reference's type (`typeToTypeNode(getTypeFromTypeNode(ref))`),
   * `aliasDeclarations` the declarations of that type's alias symbol (empty when the
   * type has no alias symbol; the rule treats both alike). Being data inside the
   * reference, the answers form a finite tree, so only checkers whose resolution
   * bottoms out are represented; an alias that mentions itself, on which the rule's
   * search does not end, is modelled by `AliasLookup` instead.
   */
  datatype Resolution = Resolution(typeNode: Option<TypeNode>, aliasDeclarations: seq<Declaration>)

  datatype Declaration = TypeAliasDeclaration(aliasedType: TypeNode) | OtherDeclaration
}
