/** Kind tests on syntax nodes, as the rules use them. */
module Typeguard {
  import opened Wrappers
  import opened TypeSyntax

  /** The node kinds the kind tests distinguish; every other kind is `OtherKind`. */
  datatype SyntaxKind =
    | ArrowFunction | Constructor | FunctionDeclaration | FunctionExpression
    | GetAccessor | MethodDeclaration | SetAccessor
    | BindingElement | EnumMember | Parameter | PropertyAssignment
    | PropertyDeclaration | PropertySignatureKind | ShorthandPropertyAssignment | VariableDeclaration
    | ElementAccessExpression | PropertyAccessExpression
    | OtherKind

  /** A syntax node: its kind and its declared type annotation (`node.type`), if any. */
  datatype Node = Node(kind: SyntaxKind, declaredType: Option<TypeNode>)

  const FUNCTION_LIKE_KINDS: set<SyntaxKind> :=
    {ArrowFunction, Constructor, FunctionDeclaration, FunctionExpression, GetAccessor, MethodDeclaration, SetAccessor}

  const VARIABLE_LIKE_KINDS: set<SyntaxKind> :=
    {BindingElement, EnumMember, Parameter, PropertyAssignment, PropertyDeclaration,
     PropertySignatureKind, ShorthandPropertyAssignment, VariableDeclaration}

  predicate IsFunctionLikeDeclaration(node: Node)
    ensures IsFunctionLikeDeclaration(node) <==> node.kind in FUNCTION_LIKE_KINDS
  {
    node.kind.ArrowFunction? || node.kind.Constructor? || node.kind.FunctionDeclaration?
    || node.kind.FunctionExpression? || node.kind.GetAccessor? || node.kind.MethodDeclaration?
    || node.kind.SetAccessor?
  }

  predicate IsTypedFunctionLikeDeclaration(node: Node)
    ensures IsTypedFunctionLikeDeclaration(node) <==> node.kind in FUNCTION_LIKE_KINDS && node.declaredType.Some?
  {
    IsFunctionLikeDeclaration(node) && node.declaredType != None
  }

  predicate IsVariableLikeDeclaration(node: Node)
    ensures IsVariableLikeDeclaration(node) <==> node.kind in VARIABLE_LIKE_KINDS
  {
    node.kind.BindingElement? || node.kind.EnumMember? || node.kind.Parameter?
    || node.kind.PropertyAssignment? || node.kind.PropertyDeclaration?
    || node.kind.PropertySignatureKind? || node.kind.ShorthandPropertyAssignment?
    || node.kind.VariableDeclaration?
  }

  predicate IsAccessExpression(node: Node)
    ensures IsAccessExpression(node) <==> node.kind in {ElementAccessExpression, PropertyAccessExpression}
  {
    node.kind.ElementAccessExpression? || node.kind.PropertyAccessExpression?
  }
}
