/**
 * The extractor: a pre-order walk over the syntax tree that turns interface
 * declarations into `Object` entities and type-alias declarations into
 * `Enum`, `UnionType` or `Alias` entities.
 */
module Transform {
  import opened Sequences
  import opened Types
  import opened Syntax

  // ---------------------------------------------------------------------------
  // Interface declarations

  predicate IsPropertySignature(m: Member) { m.kind == PropertySignature }

  /** `m.type && { name, type, nullable }`: nothing for a member without a type annotation. */
  function ToProperty(m: Member): (r: Option<Property>)
    ensures r.None? <==> m.annotation.None?
    ensures r.Some? ==> r.value.name == m.name && m.annotation == Some(r.value.typeText) &&
                        (r.value.nullable <==> m.questionToken)
  {
    match m.annotation
    case None => None
    case Some(t) => Some(Property(m.name, t, m.questionToken))
  }

  /** Member `m` is a type-annotated property signature and `p` is the property it declares. */
  predicate Declares(m: Member, p: Property)
  {
    m.kind == PropertySignature && m.annotation == Some(p.typeText) &&
    p.name == m.name && p.nullable == m.questionToken
  }

  /**
   * The properties of an interface, read member by member: one per property
   * signature that carries a type annotation, in member order.
   */
  function DeclaredProperties(members: seq<Member>): (ps: seq<Property>)
    ensures |ps| <= |members|
  {
    if members == [] then []
    else
      var m := members[0];
      (if m.kind == PropertySignature && m.annotation.Some? then [Property(m.name, m.annotation.value, m.questionToken)] else [])
      + DeclaredProperties(members[1..])
  }

  /** Each extracted property is declared by some member, and each declared property is extracted. */
  lemma {:induction false} DeclaredPropertiesMembers(members: seq<Member>)
    ensures forall k :: 0 <= k < |DeclaredProperties(members)| ==>
              exists i :: 0 <= i < |members| && Declares(members[i], DeclaredProperties(members)[k])
    ensures forall i, p :: 0 <= i < |members| && Declares(members[i], p) ==> p in DeclaredProperties(members)
  {
    if members != [] {
      var m, ps, rest := members[0], DeclaredProperties(members), DeclaredProperties(members[1..]);
      DeclaredPropertiesMembers(members[1..]);
      var head := if m.kind == PropertySignature && m.annotation.Some? then [Property(m.name, m.annotation.value, m.questionToken)] else [];
      assert ps == head + rest;
      forall k | 0 <= k < |ps| ensures exists i :: 0 <= i < |members| && Declares(members[i], ps[k]) {
        if k < |head| {
          assert Declares(members[0], ps[k]);
        } else {
          var i :| 0 <= i < |members[1..]| && Declares(members[1..][i], rest[k - |head|]);
          assert Declares(members[i + 1], ps[k]);
        }
      }
      forall i, p | 0 <= i < |members| && Declares(members[i], p) ensures p in ps {
        if i > 0 {
          assert members[i] == members[1..][i - 1];
        }
      }
    } else {
      assert DeclaredProperties(members) == [];
    }
  }

  /** The filter/map/filter chain of the interface transformer yields exactly the declared properties. */
  lemma {:induction false} PropertiesPipeline(members: seq<Member>)
    ensures Somes(Map(ToProperty, Filter(IsPropertySignature, members))) == DeclaredProperties(members)
  {
    if members != [] {
      var m := members[0];
      var tail := Filter(IsPropertySignature, members[1..]);
      PropertiesPipeline(members[1..]);
      if IsPropertySignature(m) {
        assert Filter(IsPropertySignature, members) == [m] + tail;
        MapAppend(ToProperty, [m], tail);
        SomesAppend([ToProperty(m)], Map(ToProperty, tail));
      } else {
        assert Filter(IsPropertySignature, members) == tail;
      }
    }
  }

  /** The types listed by the heritage clauses, clause by clause and type by type; none without clauses. */
  function HeritageTypes(clauses: Option<seq<HeritageClause>>): (r: seq<string>)
  {
    match clauses
    case None => []
    case Some(cs) => Flatten(Map((c: HeritageClause) => c.types, cs))
  }

  /** A type text is included exactly when some heritage clause lists it. */
  lemma HeritageTypesMembers(clauses: Option<seq<HeritageClause>>, t: string)
    ensures t in HeritageTypes(clauses) <==>
            clauses.Some? && exists i :: 0 <= i < |clauses.value| && t in clauses.value[i].types
  {
    if clauses.Some? {
      FlattenMembers(Map((c: HeritageClause) => c.types, clauses.value), t);
    }
  }

  /** The `heritageClauses` reduce: concatenate each clause's type texts onto the result so far. */
  function ReduceHeritageClauses(clauses: Option<seq<HeritageClause>>): (r: seq<string>)
    ensures r == HeritageTypes(clauses)
  {
    if clauses.None? then []
    else
      var typeLists := Map((c: HeritageClause) => c.types, clauses.value);
      ConcatFoldIsFlatten([], typeLists);
      ConcatFold([], typeLists)
  }

  /** `transformInterfaceDeclaration`: every interface yields one `Object`. */
  function TransformInterfaceDeclaration(n: Node): (r: Entity)
    requires n.kind.InterfaceDeclaration?
    ensures r.Object? && r.name == n.kind.name
    ensures r.properties == DeclaredProperties(n.kind.members)
    ensures r.includes == HeritageTypes(n.kind.heritageClauses)
  {
    PropertiesPipeline(n.kind.members);
    var properties := Somes(Map(ToProperty, Filter(IsPropertySignature, n.kind.members)));
    Object(n.kind.name, properties, ReduceHeritageClauses(n.kind.heritageClauses))
  }

  // ---------------------------------------------------------------------------
  // Type-alias declarations

  predicate IsLiteral(t: TypeNode) { t.kind == LiteralType }

  function TextOf(t: TypeNode): string { t.text }

  /**
   * The entity for an alias named `name` whose right-hand side is a union of
   * `types`: an `Enum` of the literal members when there is one, otherwise a
   * `UnionType` of all members, and nothing for an empty union.
   */
  function ClassifyUnion(name: string, types: seq<TypeNode>): (r: Option<Entity>)
    ensures r.None? <==> |types| == 0
    ensures r.Some? ==> r.value.name == name && (r.value.Enum? || r.value.UnionType?)
    ensures r.Some? ==> (r.value.Enum? <==> exists i :: 0 <= i < |types| && IsLiteral(types[i]))
    ensures r.Some? && r.value.Enum? ==> r.value.values == Map(TextOf, Filter(IsLiteral, types))
    ensures r.Some? && r.value.Enum? ==>
              forall v :: v in r.value.values <==> exists i :: 0 <= i < |types| && IsLiteral(types[i]) && types[i].text == v
    ensures r.Some? && r.value.UnionType? ==>
              |r.value.types| == |types| && forall i :: 0 <= i < |types| ==> r.value.types[i] == types[i].text
  {
    var literals := Filter(IsLiteral, types);
    FilterMembers(IsLiteral, types);
    MapFilterMembers(TextOf, IsLiteral, types);
    assert |literals| != 0 ==> literals[0] in types && IsLiteral(literals[0]);
    assert forall i :: 0 <= i < |types| && IsLiteral(types[i]) ==> types[i] in literals;
    var values := Map(TextOf, literals);
    if |values| != 0 then Some(Enum(name, values))
    else
      var all := Map(TextOf, types);
      if |all| != 0 then Some(Entity.UnionType(name, all)) else None
  }

  /** The name of a type alias: the text of the first Identifier among its children. */
  function AliasName(n: Node): (name: string)
    requires HasIdentifier(n)
    ensures exists k :: 0 <= k < |n.children| && IsIdentifier(n.children[k]) && name == n.children[k].text &&
                        forall i :: 0 <= i < k ==> !IsIdentifier(n.children[i])
  {
    Find(IsIdentifier, n.children).value.text
  }

  /**
   * `transformTypeAliasDeclaration`: the first union among the node's immediate
   * children is classified by its members, and yields nothing when it has none;
   * without a union the alias keeps its right-hand side text. The name is read
   * only when an entity is returned.
   */
  function TransformTypeAliasDeclaration(n: Node): (r: Option<Entity>)
    requires n.kind.TypeAliasDeclaration? && Declarable(n)
    ensures (forall i :: 0 <= i < |n.children| ==> !IsUnionType(n.children[i])) ==>
              HasIdentifier(n) && r == Some(Alias(AliasName(n), n.kind.rhs))
    ensures forall k :: FirstUnionAt(n, k) && |n.children[k].kind.types| == 0 ==> r.None?
    ensures forall k :: FirstUnionAt(n, k) && |n.children[k].kind.types| > 0 ==>
              HasIdentifier(n) && r == ClassifyUnion(AliasName(n), n.children[k].kind.types)
  {
    var union := Find(IsUnionType, n.children);
    if union.None? then Some(Alias(AliasName(n), n.kind.rhs))
    else if |union.value.kind.types| == 0 then None
    else
      FirstUnionUnique(n);
      ClassifyUnion(AliasName(n), union.value.kind.types)
  }

  // ---------------------------------------------------------------------------
  // The walk

  /** The `transformers` table: the entity a node yields on its own, if its kind has a handler and the handler returns one. */
  function OwnEntity(n: Node): (r: Option<Entity>)
    requires Declarable(n)
    ensures r.Some? ==> n.kind.InterfaceDeclaration? || n.kind.TypeAliasDeclaration?
    ensures n.kind.InterfaceDeclaration? ==> r.Some? && r.value.Object?
    ensures n.kind.TypeAliasDeclaration? ==> r.Some? ==> !r.value.Object?
  {
    match n.kind
    case InterfaceDeclaration(_, _, _) => Some(TransformInterfaceDeclaration(n))
    case TypeAliasDeclaration(_) => TransformTypeAliasDeclaration(n)
    case _ => None
  }

  /** The `entities` array before the children are appended: empty or the node's own entity. */
  function OwnEntities(n: Node): (r: seq<Entity>)
    requires Declarable(n)
    ensures |r| <= 1
    ensures forall e :: e in r <==> OwnEntity(n) == Some(e)
  {
    match OwnEntity(n)
    case None => []
    case Some(e) => [e]
  }

  /** `transform`: the node's own entity, then the entities of each child's subtree, left to right. */
  function Transform(n: Node): (r: seq<Entity>)
    requires WellFormed(n)
    ensures OwnEntity(n).Some? ==> |r| > 0 && r[0] == OwnEntity(n).value
    decreases n, 1
  {
    OwnEntities(n) + Flatten(ChildEntities(n))
  }

  /** `node.getChildren().map(c => transform(c))`. */
  function ChildEntities(n: Node): (r: seq<seq<Entity>>)
    requires WellFormed(n)
    ensures |r| == |n.children|
    decreases n, 0
  {
    seq(|n.children|, i requires 0 <= i < |n.children| => Transform(n.children[i]))
  }

  /** The own entities of a sequence of nodes, concatenated in order. */
  function Collect(ns: seq<Node>): (r: seq<Entity>)
    requires forall i :: 0 <= i < |ns| ==> Declarable(ns[i])
    ensures |r| <= |ns|
  {
    if ns == [] then [] else OwnEntities(ns[0]) + Collect(ns[1..])
  }

  lemma {:induction false} CollectAppend(a: seq<Node>, b: seq<Node>)
    requires forall i :: 0 <= i < |a| ==> Declarable(a[i])
    requires forall i :: 0 <= i < |b| ==> Declarable(b[i])
    ensures Collect(a + b) == Collect(a) + Collect(b)
  {
    if a == [] {
      assert a + b == b;
    } else {
      assert (a + b)[1..] == a[1..] + b;
      CollectAppend(a[1..], b);
    }
  }

  lemma {:induction false} CollectFlatten(xss: seq<seq<Node>>)
    requires forall i, j :: 0 <= i < |xss| && 0 <= j < |xss[i]| ==> Declarable(xss[i][j])
    ensures forall i :: 0 <= i < |Flatten(xss)| ==> Declarable(Flatten(xss)[i])
    ensures Collect(Flatten(xss)) == Flatten(seq(|xss|, i requires 0 <= i < |xss| => Collect(xss[i])))
  {
    var parts := seq(|xss|, i requires 0 <= i < |xss| => Collect(xss[i]));
    if xss != [] {
      CollectFlatten(xss[1..]);
      CollectAppend(xss[0], Flatten(xss[1..]));
      assert parts[1..] == seq(|xss[1..]|, i requires 0 <= i < |xss[1..]| => Collect(xss[1..][i]));
    }
  }

  /**
   * The walk, read off the pre-order: the entities are the own entities of
   * all the nodes of the tree, parent before children, siblings left to right.
   */
  lemma {:induction false} TransformIsPreorderCollect(n: Node)
    requires WellFormed(n)
    ensures forall i :: 0 <= i < |Preorder(n)| ==> Declarable(Preorder(n)[i])
    ensures Transform(n) == Collect(Preorder(n))
    decreases n
  {
    var cs := n.children;
    var subtrees := Subtrees(n);
    forall i | 0 <= i < |cs|
      ensures forall j :: 0 <= j < |subtrees[i]| ==> Declarable(subtrees[i][j])
      ensures Collect(subtrees[i]) == Transform(cs[i])
    {
      TransformIsPreorderCollect(cs[i]);
    }
    CollectFlatten(subtrees);
    CollectAppend([n], Flatten(subtrees));
    assert seq(|subtrees|, i requires 0 <= i < |subtrees| => Collect(subtrees[i])) == ChildEntities(n);
  }

  lemma {:induction false} CollectMembers(ns: seq<Node>, e: Entity)
    requires forall i :: 0 <= i < |ns| ==> Declarable(ns[i])
    ensures e in Collect(ns) <==> exists i :: 0 <= i < |ns| && OwnEntity(ns[i]) == Some(e)
  {
    if ns != [] {
      CollectMembers(ns[1..], e);
      if e in Collect(ns[1..]) {
        var i :| 0 <= i < |ns[1..]| && OwnEntity(ns[1..][i]) == Some(e);
        assert OwnEntity(ns[i + 1]) == Some(e);
      }
      if exists i :: 0 <= i < |ns| && OwnEntity(ns[i]) == Some(e) {
        var i :| 0 <= i < |ns| && OwnEntity(ns[i]) == Some(e);
        if i > 0 {
          assert OwnEntity(ns[1..][i - 1]) == Some(e);
        }
      }
    }
  }

  /** Only interface and type-alias declarations contribute entities; every entity is one node's own. */
  lemma EntityOrigin(n: Node, e: Entity)
    requires WellFormed(n) && e in Transform(n)
    ensures exists m :: m in Preorder(n) && (m.kind.InterfaceDeclaration? || m.kind.TypeAliasDeclaration?) &&
                        Declarable(m) && OwnEntity(m) == Some(e)
  {
    TransformIsPreorderCollect(n);
    CollectMembers(Preorder(n), e);
  }

  /** Every interface anywhere in the tree, nested or not, contributes its `Object`. */
  lemma InterfaceReported(n: Node, m: Node)
    requires WellFormed(n) && m in Preorder(n) && m.kind.InterfaceDeclaration?
    ensures TransformInterfaceDeclaration(m) in Transform(n)
  {
    TransformIsPreorderCollect(n);
    var i :| 0 <= i < |Preorder(n)| && Preorder(n)[i] == m;
    CollectMembers(Preorder(n), TransformInterfaceDeclaration(m));
  }

  /**
   * A matched declaration does not prune the walk: each child's entities follow
   * the node's own entity and the entities of the earlier children, whole and
   * in place.
   */
  lemma ChildEntitiesKept(n: Node, i: nat)
    requires WellFormed(n) && i < |n.children|
    ensures var parts := ChildEntities(n);
            Transform(n) ==
              OwnEntities(n) + (Flatten(parts[..i]) + Transform(n.children[i]) + Flatten(parts[i + 1..]))
  {
    FlattenAround(ChildEntities(n), i);
  }
}
