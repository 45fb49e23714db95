# tsviz core in Dafny

tsviz reads TypeScript sources and draws their type declarations as a
Graphviz digraph. This project models the part of tsviz that holds its logic.

- **Entity model** (`types.dfy`, module `Types`). An extracted declaration is
  exactly one of four shapes: `Object`, `Enum`, `UnionType` and `Alias`. Each
  shape is a constructor of one datatype, so the `discriminator` tag can never
  disagree with the shape.
- **Syntax tree** (`syntax.dfy`, module `Syntax`). This is the part of the
  TypeScript compiler's tree that the extractor reads. Each node has a kind, a
  source text and an ordered child list. Interface and type-alias
  declarations and union types carry the fields the extractor reads from them.
- **Extractor** (`transform.dfy`, module `Transform`).
  - `transform` walks the tree in pre-order.
  - Each interface declaration yields an `Object`.
  - Each type alias yields one of:
    - an `Enum`, for a union with literal members;
    - a `UnionType`, for a union without literal members;
    - nothing, for an empty union;
    - an `Alias`, for a type alias that has no union.
- **Graph writer** (`write.dfy`, module `Write`).
  - `write` renders one record node per Object, Enum and UnionType.
  - It draws inheritance edges from the supertypes of each Object.
  - It draws aggregation edges to each distinct non-primitive property type or union member, in first-occurrence order.
  - It assembles these inside a fixed DOT template.
- **Sequence helpers** (`sequences.dfy`, module `Sequences`). This module
  models the JavaScript array and string operations the core uses: `filter`,
  `map`, `find`, `concat`, `reduce`, `join`, and `filter(Boolean)`. It also
  defines `Split`, which serves as the inverse of `join` in the lemmas.

The writer behaves as follows:

- The primitive list is `String`, `String[]`, `Number`, `Number[]`,
  `Boolean` and `Boolean[]`. Type texts are compared with it case-sensitively.
- Labels are Graphviz record labels with the text inserted verbatim, with no
  escaping.
- `Foo[]` is an edge target as it stands.
- An `Alias` gets neither a node nor an edge.
- The inheritance block and the aggregation block of an Object are appended
  with no newline between them. So when both are present, the last
  inheritance edge and the first aggregation edge share one line.
  `Write.ObjectDependencyLines` states this exactly.

## Model

| member | source | states |
|---|---|---|
| Types.Discriminator | src/types.ts:32-39 | every entity carries exactly one tag, and that tag names its own shape (both directions for each of the four tags) |
| Types.TagValue | src/types.ts:34-39 | the enumeration gives each tag a value below four |
| Types.TagValueOrder | src/types.ts:34-39 | the four tag values are distinct and follow the declaration order Object, Enum, UnionType, Alias |
| Transform.DeclaredProperties | src/transform.ts:26-34 | an interface has at most one property per member |
| Transform.DeclaredPropertiesMembers | src/transform.ts:26-34 | every extracted property comes from a type-annotated property signature with the same name, the annotation text as type, and nullable exactly when there is a question token; every such member's property is extracted |
| Transform.PropertiesPipeline | src/transform.ts:26-34 | the filter, map, map and `filter(Boolean)` chain yields exactly the properties declared member by member, in member order |
| Transform.HeritageTypesMembers | src/transform.ts:35-37 | a type text is included exactly when some heritage clause lists it; nothing is included without clauses |
| Transform.ReduceHeritageClauses | src/transform.ts:35-37 | the `reduce` over the clauses equals their type lists concatenated clause by clause, type by type |
| Transform.TransformInterfaceDeclaration | src/transform.ts:22-39 | every interface yields one Object with its own name, its declared properties and its heritage types |
| Transform.ClassifyUnion | src/transform.ts:45-56 | a union yields nothing exactly when it is empty; it yields an Enum exactly when it has a literal member, whose values are the literal texts in order (a text is a value exactly when some literal member has it), and otherwise a UnionType of every member text in order |
| Transform.AliasName | src/transform.ts:42-43 | the alias is named by the text of its first Identifier child |
| Transform.ToProperty | src/transform.ts:29-33 | a member yields a property exactly when it has a type annotation; the property has the member's name, the annotation text as its type, and is nullable exactly when the member has a question token |
| Transform.TransformTypeAliasDeclaration | src/transform.ts:41-64 | with no union among its children an alias yields Alias(name, right-hand side); a first union child without members yields nothing, without the name being read; any other first union child yields its classification under the alias's name |
| Transform.OwnEntity | src/transform.ts:5-17 | only interface and type-alias declarations yield an entity of their own; an interface always yields an Object, and an alias never does |
| Transform.OwnEntities | src/transform.ts:11-18 | the `entities` array holds at most one entity, and holds exactly the node's own entity when there is one |
| Transform.ChildEntities | src/transform.ts:19 | the children's results, one per child |
| Transform.Transform | src/transform.ts:10-20 | a node's own entity, when it has one, comes first in its result |
| Transform.TransformIsPreorderCollect | src/transform.ts:10-20 | the result is the own entities of all nodes of the tree in pre-order: parent first, then siblings left to right |
| Transform.EntityOrigin | src/transform.ts:5-19 | every entity returned is the own entity of some interface or type-alias declaration in the tree |
| Transform.InterfaceReported | src/transform.ts:19-25 | every interface anywhere in the tree, nested or not, contributes its Object |
| Transform.ChildEntitiesKept | src/transform.ts:19 | a matched declaration does not prune the walk: each child's entities appear whole, after the node's own entity and the entities of the earlier children |
| Write.Unique | src/write.ts:82-86 | one `unique` step keeps the result so far as a prefix, adds the item if it is missing, adds nothing else, and keeps the result free of duplicates |
| Write.ReduceUnique | src/write.ts:82-86 | the fold keeps its starting list as a prefix, holds exactly the elements of the starting list and of the input, and keeps a list without duplicates free of them |
| Write.Dedupe | src/write.ts:68 | `reduce(unique, [])` has no duplicates and holds exactly the input's elements |
| Write.ReduceUniqueSnoc | src/write.ts:82-86 | folding `unique` over a list ending in `x` is one more `unique` step after folding the rest |
| Write.DedupeSpec | src/write.ts:82-86 | the fold of `unique` has no duplicates, holds exactly the input's elements, and orders them by first occurrence |
| Write.DedupeDistinct | src/write.ts:82-86 | a list without duplicates is left as it is |
| Write.DedupeIdempotent | src/write.ts:82-86 | folding `unique` a second time changes nothing |
| Write.IsPrimitive | src/write.ts:54-61 | a primitive type text starts with an upper-case letter, so no lower-case spelling is primitive |
| Write.PrimitiveForms | src/write.ts:54-61 | a type text is primitive exactly when it is `String`, `Number` or `Boolean`, optionally followed by `[]` |
| Write.PrimitiveIsCaseSensitive | src/write.ts:54-61 | `String` and `Boolean[]` are primitive; `string`, `number`, `boolean` and `string[]` are not |
| Write.RenderObject | src/write.ts:29-37 | an Object's node is declared under the Object's name, and its label opens with the name and a bar |
| Write.RenderEnum | src/write.ts:39-41 | an Enum's node is declared under the Enum's name, and its label opens with the name, a colon and a label line break |
| Write.RenderUnionType | src/write.ts:43-45 | a UnionType's node is declared under the UnionType's name, and its label opens with the name, a label line break and `= ` |
| Write.RenderEntity | src/write.ts:21-27 | every entity but an Alias gets a non-empty node string; an Alias gets none |
| Write.ObjectLabelRows | src/write.ts:29-37 | an Object without properties has a label body of its name and a bar alone; otherwise the body is its name, a bar, and rows that cut back into one `+`/`-` row per property, in order |
| Write.EnumLabelRows | src/write.ts:39-41 | an Enum's label rows are `name:` followed by its values, in order |
| Write.UnionLabelRows | src/write.ts:43-45 | a UnionType's label lists, after `= `, its member types separated by a label line break and an escaped bar, which cut back into the members in order |
| Write.RenderObjectDependencies | src/write.ts:63-72 | an Object's edge text is empty exactly when it has no supertype and every property type is primitive |
| Write.RenderUnionTypeDependencies | src/write.ts:74-80 | a UnionType's edge text is empty exactly when every member type is primitive |
| Write.RenderDependencies | src/write.ts:47-52 | Objects and UnionTypes get edge text; Enums and Aliases get none |
| Write.AggregationTargetsSpec | src/write.ts:63-70 | an Object aggregates each distinct type of its properties that is not primitive, once each, in first-occurrence order |
| Write.AggregationTargetsEmpty | src/write.ts:65-68 | an Object has aggregation targets exactly when one of its property types is not primitive |
| Write.ReferenceTypeTexts | src/write.ts:65-67 | the kept type texts are exactly the types of the properties whose type is not primitive |
| Write.TypeTextsOfReferences | src/write.ts:65-67 | filtering properties by type and then taking their types equals taking the types and then filtering them |
| Write.DependenciesIgnoreNamesAndNullability | src/write.ts:63-72 | an Object's edges depend only on its name, its supertypes and its property types, not on property names or `nullable` |
| Write.ObjectDependencyLines | src/write.ts:63-72 | an Object's edge text splits into its inheritance lines followed by its aggregation lines, with the last of one and the first of the other on the same line when both are present; it is one empty line when both blocks are empty |
| Write.UnionTargetsSpec | src/write.ts:74-77 | a UnionType's targets are its distinct non-primitive members, once each, in first-occurrence order |
| Write.UnionHasLines | src/write.ts:74-80 | a UnionType has edge lines exactly when one of its members is not primitive |
| Write.UnionDependencyLines | src/write.ts:74-80 | a UnionType's edge text is empty exactly when all its members are primitive; otherwise it splits into one aggregation line per target |
| Write.Nodes | src/write.ts:4 | there is at most one node string per entity, and each is the rendering of one of the entities |
| Write.Edges | src/write.ts:5 | there is at most one edge string per entity, none of them empty, and each is the edge text of one of the entities |
| Write.EdgesCons | src/write.ts:5 | the edge list is the first entity's edge text, when it is present and not empty, followed by the edge strings of the rest |
| Write.EdgesOfEntities | src/write.ts:5 | there is one edge string per entity whose edge text is present and not empty, in entity order, and each is that entity's edge text |
| Write.Present | src/write.ts:4-5 | `filter(Boolean)` never lengthens the list |
| Write.PresentMembers | src/write.ts:4-5 | `filter(Boolean)` keeps exactly the non-empty strings |
| Write.NodesCons | src/write.ts:4 | the node list is the first entity's node, unless that entity is an Alias, followed by the nodes of the rest |
| Write.NodesAreNonAliases | src/write.ts:4 | there is one node per non-Alias entity, in entity order, and each is that entity's rendering |
| Write.NodeIsOneLine | src/write.ts:29-45 | the node of an Object, Enum or UnionType whose texts hold no newline is a single line |
| Write.NodesAreOneLine | src/write.ts:4 | when no Object, Enum or UnionType text holds a newline, every node is a single line; Alias texts may hold newlines |
| Write.Write | src/write.ts:3-18 | the document opens with `digraph G {` on its first line and ends with `  }` on its last |
| Write.HeaderIsOneLiners | src/write.ts:6-14 | each line of the fixed header is a single line |
| Write.DocumentLines | src/write.ts:3-18 | the document's lines are the nine header lines, then the node lines with only the first one indented by four spaces (or one line of four spaces when there are no nodes), then an empty line, then the lines of the edge block with only the first one indented by four spaces, and then the closing `  }` |
| Sequences.SplitJoin | src/write.ts:64-70 | for a non-empty list of parts in which no part contains the separator's first character, cutting their `join` at the separator gives back the parts |
| Sequences.ConcatFoldIsFlatten | src/transform.ts:36 | the concatenating `reduce` from an accumulator equals the accumulator followed by every list in order |
| Sequences.SomesMembers | src/transform.ts:29-34 | `filter(Boolean)` over optional properties keeps exactly the present ones |

## Left out

- src/index.ts, src/parse.ts, src/search.ts and src/render.ts are not part of this model. They handle command-line arguments, file reading, glob expansion and running the `dot` program, which are I/O or external processes. The one piece of logic in index.ts is appending the per-file entity lists in file order, which is a plain concatenation.
- The TypeScript compiler API is not modelled. `getText` and `getChildren` become the `text` and `children` fields of a node. The per-kind properties the extractor reads become the payload of the node's kind. The numbering of `SyntaxKind` is not represented, and every kind the extractor does not tell apart is `OtherKind`.
- Transform.AliasName: when a type alias has no Identifier child, the source throws a TypeError wherever it reads the name: at src/transform.ts:50 for an Enum, at :54 for a UnionType, and at :60 for an Alias. The model does not represent that crash. `Syntax.Declarable` and `Syntax.WellFormed` require an Identifier child for every type alias except one whose first union has no members, because the source returns nothing for that alias without reading the name.
- Write.ObjectLabelRows: stated only for property names and types that contain no backslash, because a backslash in the text could fake a `\n` label separator.
- Write.EnumLabelRows: stated only for a name and values that contain no backslash, for the same reason.
- Write.UnionLabelRows: stated only for member types that contain no backslash, for the same reason.
- Write.ObjectDependencyLines: stated only for an Object whose name, property texts and supertype texts contain no newline. A newline in one of them would add lines the statement does not count.
- Write.UnionDependencyLines: stated only for a UnionType whose name and member texts contain no newline, for the same reason.
- Write.DocumentLines: stated only when no Object, Enum or UnionType text contains a newline, for the same reason. An Alias's type text never reaches the document and may hold newlines.
- Whether the emitted text is valid DOT, and what Graphviz draws from it, are not modelled. The model states the exact strings instead.
