/**
 * The part of the TypeScript syntax tree that the extractor reads. The
 * compiler's `getText` becomes the `text` field and `getChildren` the
 * `children` field; the properties the extractor reads from the two
 * declaration kinds and from union types are carried by the node's kind.
 */
module Syntax {
  import opened Sequences

  /** Kinds of interface members. */
  datatype MemberKind = PropertySignature | MethodSignature | CallSignature | ConstructSignature | IndexSignature

  /** An interface member: its kind, its name text, its type annotation text if any, and whether it has a `?`. */
  datatype Member = Member(kind: MemberKind, name: string, annotation: Option<string>, questionToken: bool)

  /** An `extends` clause: the text of each type it lists. */
  datatype HeritageClause = HeritageClause(types: seq<string>)

  /** Kinds of the member types of a union. */
  datatype TypeKind = LiteralType | TypeReference | ArrayType | KeywordType | OtherType

  /** A member type of a union, with its source text. */
  datatype TypeNode = TypeNode(kind: TypeKind, text: string)

  /**
   * Node kinds. The extractor tells apart interface and type-alias
   * declarations, identifiers and union types; every other kind
   * (property signatures, literal types, keywords, statements, ...) is
   * `OtherKind`, since the walk treats them all alike.
   */
  datatype Kind =
    | InterfaceDeclaration(name: string, members: seq<Member>, heritageClauses: Option<seq<HeritageClause>>)
    | TypeAliasDeclaration(rhs: string)
    | UnionType(types: seq<TypeNode>)
    | Identifier
    | OtherKind

  datatype Node = Node(kind: Kind, text: string, children: seq<Node>)

  predicate IsIdentifier(c: Node) { c.kind.Identifier? }

  predicate IsUnionType(c: Node) { c.kind.UnionType? }

  predicate HasIdentifier(n: Node)
  {
    exists i :: 0 <= i < |n.children| && IsIdentifier(n.children[i])
  }

  /** The first UnionType child of `n` is the `k`-th child. */
  predicate FirstUnionAt(n: Node, k: int)
  {
    0 <= k < |n.children| && IsUnionType(n.children[k]) && forall i :: 0 <= i < k ==> !IsUnionType(n.children[i])
  }

  /** There is only one first UnionType child. */
  lemma FirstUnionUnique(n: Node)
    ensures forall j, k :: FirstUnionAt(n, j) && FirstUnionAt(n, k) ==> j == k
  {
  }

  /**
   * A node the extractor can handle without failing. A type alias reads the
   * text of its first Identifier child unless its first UnionType child has no
   * members, so it needs such a child in every other case.
   */
  predicate Declarable(n: Node)
  {
    n.kind.TypeAliasDeclaration? ==>
      HasIdentifier(n) || exists k :: 0 <= k < |n.children| && FirstUnionAt(n, k) && |n.children[k].kind.types| == 0
  }

  /** Every node of the tree is declarable. */
  predicate WellFormed(n: Node)
    decreases n
  {
    Declarable(n) && forall i :: 0 <= i < |n.children| ==> WellFormed(n.children[i])
  }

  /** The nodes of the tree in pre-order: parent first, then each child's subtree, left to right. */
  function Preorder(n: Node): (r: seq<Node>)
    decreases n, 1
  {
    [n] + Flatten(Subtrees(n))
  }

  /** The pre-order of each child's subtree. */
  function Subtrees(n: Node): (r: seq<seq<Node>>)
    ensures |r| == |n.children|
    decreases n, 0
  {
    seq(|n.children|, i requires 0 <= i < |n.children| => Preorder(n.children[i]))
  }
}
