/**
 * The graph writer: turns the entity sequence into a Graphviz DOT document
 * with one record-shaped node per Object, Enum and UnionType, inheritance
 * edges from each Object's supertypes, and aggregation edges to every
 * non-primitive property or union member type.
 *
 * Labels and identifiers are emitted verbatim (no escaping), `Foo[]` is an
 * edge target as it stands, and an Alias gets neither node nor edge.
 */
module Write {
  import opened Sequences
  import opened Types

  // ---------------------------------------------------------------------------
  // Order-preserving deduplication

  /** `unique`: append `item` unless `result` already holds it. */
  function Unique(result: seq<string>, item: string): (r: seq<string>)
    ensures result <= r && item in r
    ensures forall x :: x in r <==> x in result || x == item
    ensures NoDuplicates(result) ==> NoDuplicates(r)
  {
    if item !in result then result + [item] else result
  }

  /** `xs.reduce(unique, acc)`. */
  function ReduceUnique(acc: seq<string>, xs: seq<string>): (r: seq<string>)
    ensures acc <= r
    ensures forall x :: x in r <==> x in acc || x in xs
    ensures NoDuplicates(acc) ==> NoDuplicates(r)
    decreases xs
  {
    if xs == [] then acc
    else
      var r := ReduceUnique(Unique(acc, xs[0]), xs[1..]);
      assert forall x :: x in xs <==> x == xs[0] || x in xs[1..];
      r
  }

  /** `xs.reduce(unique, [])`: every element of `xs`, each once. */
  function Dedupe(xs: seq<string>): (r: seq<string>)
    ensures NoDuplicates(r)
    ensures forall x :: x in r <==> x in xs
  {
    ReduceUnique([], xs)
  }

  predicate NoDuplicates(s: seq<string>)
  {
    forall i, j :: 0 <= i < j < |s| ==> s[i] != s[j]
  }

  /** The position of the first occurrence of `x` in `xs`. */
  function FirstIndex(xs: seq<string>, x: string): (k: nat)
    requires x in xs
    ensures k < |xs| && xs[k] == x && forall i :: 0 <= i < k ==> xs[i] != x
  {
    if xs[0] == x then 0 else 1 + FirstIndex(xs[1..], x)
  }

  lemma FirstIndexPrefix(xs: seq<string>, x: string, y: string)
    requires y in xs
    ensures FirstIndex(xs + [x], y) == FirstIndex(xs, y)
  {
    var k' := FirstIndex(xs, y);
    assert (xs + [x])[k'] == y;
    assert forall i :: 0 <= i < k' ==> (xs + [x])[i] == xs[i];
  }

  /** The fold seen from its last step: reducing `xs + [x]` is one more `unique` after reducing `xs`. */
  lemma {:induction false} ReduceUniqueSnoc(acc: seq<string>, xs: seq<string>, x: string)
    ensures ReduceUnique(acc, xs + [x]) == Unique(ReduceUnique(acc, xs), x)
    decreases xs
  {
    if xs == [] {
      assert [] + [x] == [x];
    } else {
      assert (xs + [x])[1..] == xs[1..] + [x];
      ReduceUniqueSnoc(Unique(acc, xs[0]), xs[1..], x);
    }
  }

  /** `d` holds each element of `xs` exactly once, ordered by where it first occurs in `xs`. */
  ghost predicate FirstOccurrences(xs: seq<string>, d: seq<string>)
  {
    NoDuplicates(d) &&
    (forall x :: x in d <==> x in xs) &&
    forall i, j :: 0 <= i < j < |d| ==> d[i] in xs && d[j] in xs && FirstIndex(xs, d[i]) < FirstIndex(xs, d[j])
  }

  /**
   * Deduplication keeps exactly the elements of its input, each once, ordered
   * by where they first occur.
   */
  lemma DedupeSpec(xs: seq<string>)
    ensures NoDuplicates(Dedupe(xs))
    ensures forall x :: x in Dedupe(xs) <==> x in xs
    ensures forall i, j :: 0 <= i < j < |Dedupe(xs)| ==>
              FirstIndex(xs, Dedupe(xs)[i]) < FirstIndex(xs, Dedupe(xs)[j])
  {
    DedupeFirstOccurrences(xs);
  }

  lemma {:induction false} DedupeFirstOccurrences(xs: seq<string>)
    ensures FirstOccurrences(xs, Dedupe(xs))
    decreases |xs|
  {
    if xs != [] {
      var ys, x := xs[..|xs| - 1], xs[|xs| - 1];
      assert xs == ys + [x];
      DedupeFirstOccurrences(ys);
      ReduceUniqueSnoc([], ys, x);
      FirstOccurrencesSnoc(ys, Dedupe(ys), x);
    }
  }

  /** One more `unique` step keeps the first occurrences of the longer list. */
  lemma FirstOccurrencesSnoc(ys: seq<string>, d: seq<string>, x: string)
    requires FirstOccurrences(ys, d)
    ensures FirstOccurrences(ys + [x], Unique(d, x))
  {
    var xs := ys + [x];
    forall y | y in ys
      ensures y in xs && FirstIndex(xs, y) == FirstIndex(ys, y)
    {
      FirstIndexPrefix(ys, x, y);
    }
    if x in ys {
      assert Unique(d, x) == d;
    } else {
      var d' := d + [x];
      assert Unique(d, x) == d';
      assert xs[|ys|] == x;
      assert FirstIndex(xs, x) == |ys|;
      forall i, j | 0 <= i < j < |d'|
        ensures d'[i] in xs && d'[j] in xs && FirstIndex(xs, d'[i]) < FirstIndex(xs, d'[j])
      {
        if j == |d| {
          assert d'[i] == d[i] && d[i] in ys;
        } else {
          assert d'[i] == d[i] && d'[j] == d[j];
        }
      }
    }
  }

  /** A list that is already free of duplicates is left as it is. */
  lemma {:induction false} DedupeDistinct(xs: seq<string>)
    requires NoDuplicates(xs)
    ensures Dedupe(xs) == xs
    decreases |xs|
  {
    if xs != [] {
      var ys, x := xs[..|xs| - 1], xs[|xs| - 1];
      assert xs == ys + [x];
      DedupeDistinct(ys);
      ReduceUniqueSnoc([], ys, x);
      assert x !in ys;
    }
  }

  /** Folding `unique` a second time changes nothing. */
  lemma DedupeIdempotent(xs: seq<string>)
    ensures Dedupe(Dedupe(xs)) == Dedupe(xs)
  {
    DedupeSpec(xs);
    DedupeDistinct(Dedupe(xs));
  }

  // ---------------------------------------------------------------------------
  // Primitive types

  /** `primitiveTypes`: the type texts that never produce an edge. */
  const PrimitiveTypes: seq<string> := ["String", "String[]", "Number", "Number[]", "Boolean", "Boolean[]"]

  predicate IsPrimitive(t: string)
    ensures IsPrimitive(t) ==> |t| > 0 && 'A' <= t[0] <= 'Z'
  {
    t in PrimitiveTypes
  }

  /** The keywords whose spellings are primitive, each on its own and as an array. */
  const PrimitiveKeywords: seq<string> := ["String", "Number", "Boolean"]

  /** A type text is primitive exactly when it is one of three capitalised keywords, optionally followed by `[]`. */
  lemma PrimitiveForms(t: string)
    ensures IsPrimitive(t) <==>
              t in PrimitiveKeywords || (|t| > 2 && t[|t| - 2..] == "[]" && t[..|t| - 2] in PrimitiveKeywords)
  {
    if IsPrimitive(t) && t !in PrimitiveKeywords {
      assert t == "String[]" || t == "Number[]" || t == "Boolean[]";
      assert "String[]"[..6] == "String" && "String[]"[6..] == "[]";
      assert "Number[]"[..6] == "Number" && "Number[]"[6..] == "[]";
      assert "Boolean[]"[..7] == "Boolean" && "Boolean[]"[7..] == "[]";
    }
    if |t| > 2 && t[|t| - 2..] == "[]" && t[..|t| - 2] in PrimitiveKeywords {
      var keyword := t[..|t| - 2];
      assert t == keyword + "[]";
      assert keyword == "String" || keyword == "Number" || keyword == "Boolean";
      assert "String" + "[]" == "String[]" && "Number" + "[]" == "Number[]" && "Boolean" + "[]" == "Boolean[]";
    }
  }

  /** The list is compared case-sensitively: the lower-case keyword spellings are not primitive. */
  lemma PrimitiveIsCaseSensitive()
    ensures IsPrimitive("String") && IsPrimitive("Boolean[]")
    ensures !IsPrimitive("string") && !IsPrimitive("number") && !IsPrimitive("boolean") && !IsPrimitive("string[]")
  {
  }

  // ---------------------------------------------------------------------------
  // Nodes

  /** The frame of every record label, around `body`. */
  function Label(name: string, body: string): string
  {
    name + "[label = \"{" + body + "}\"]"
  }

  /** One row of an Object label: `+ name: type`, or `- name: type` when nullable. */
  function PropertyRow(p: Property): string
  {
    (if p.nullable then "- " else "+ ") + p.name + ": " + p.typeText
  }

  /** `renderObject`: the name, a `|`, then one row per property separated by a label line break. */
  function RenderObject(e: Entity): (r: string)
    requires e.Object?
    ensures e.name + "[label = \"{" + e.name + "|" <= r
  {
    var rows := Join(Map(PropertyRow, e.properties), "\\n");
    assert Label(e.name, e.name + "|" + rows) == e.name + "[label = \"{" + e.name + "|" + (rows + "}\"]");
    Label(e.name, e.name + "|" + rows)
  }

  /** `renderEnum`: `name:` and then one row per value. */
  function RenderEnum(e: Entity): (r: string)
    requires e.Enum?
    ensures e.name + "[label = \"{" + e.name + ":\\n" <= r
  {
    var rows := Join(e.values, "\\n");
    assert Label(e.name, e.name + ":\\n" + rows) == e.name + "[label = \"{" + e.name + ":\\n" + (rows + "}\"]");
    Label(e.name, e.name + ":\\n" + rows)
  }

  /** `renderUnionType`: the name, `= ` before the first member and `\| ` before each other member. */
  function RenderUnionType(e: Entity): (r: string)
    requires e.UnionType?
    ensures e.name + "[label = \"{" + e.name + "\\n= " <= r
  {
    var members := Join(e.types, "\\n\\| ");
    assert Label(e.name, e.name + "\\n= " + members) == e.name + "[label = \"{" + e.name + "\\n= " + (members + "}\"]");
    Label(e.name, e.name + "\\n= " + members)
  }

  /** `renderEntity`: the node of each Object, Enum and UnionType; nothing for an Alias. */
  function RenderEntity(e: Entity): (r: Option<string>)
    ensures r.None? <==> e.Alias?
    ensures r.Some? ==> |r.value| > 0
  {
    match e
    case Object(_, _, _) => Some(RenderObject(e))
    case Enum(_, _) => Some(RenderEnum(e))
    case UnionType(_, _) => Some(RenderUnionType(e))
    case Alias(_, _) => None
  }

  /** No backslash in `s`: label rows can then be told apart at their separators. */
  predicate PlainText(s: string) { '\\' !in s }

  /**
   * The rows of an Object label are recovered by cutting its body at the label
   * line breaks; an Object without properties has the label `{Name|}`.
   */
  lemma ObjectLabelRows(e: Entity)
    requires e.Object?
    requires forall i :: 0 <= i < |e.properties| ==> PlainText(e.properties[i].name + e.properties[i].typeText)
    ensures |e.properties| == 0 ==> RenderObject(e) == Label(e.name, e.name + "|")
    ensures |e.properties| > 0 ==>
              exists rows :: RenderObject(e) == Label(e.name, e.name + "|" + rows) &&
                             Split(rows, "\\n") == Map(PropertyRow, e.properties)
  {
    var lines := Map(PropertyRow, e.properties);
    if |lines| == 0 {
      assert e.name + "|" + Join(lines, "\\n") == e.name + "|";
    } else {
      forall i | 0 <= i < |lines|
        ensures '\\' !in lines[i]
      {
        var p := e.properties[i];
        assert lines[i] == (if p.nullable then "- " else "+ ") + (p.name + ": " + p.typeText);
        assert PlainText(p.name + p.typeText);
        assert forall c :: c in p.name ==> c in p.name + p.typeText;
        assert forall c :: c in p.typeText ==> c in p.name + p.typeText;
      }
      SplitJoin(lines, "\\n");
    }
  }

  /** The rows of an Enum label are its `name:` row and then its values, one each. */
  lemma EnumLabelRows(e: Entity)
    requires e.Enum? && |e.values| > 0
    requires PlainText(e.name) && forall i :: 0 <= i < |e.values| ==> PlainText(e.values[i])
    ensures exists rows :: RenderEnum(e) == Label(e.name, rows) && Split(rows, "\\n") == [e.name + ":"] + e.values
  {
    var parts := [e.name + ":"] + e.values;
    assert Join(parts, "\\n") == e.name + ":" + "\\n" + Join(e.values, "\\n");
    assert e.name + ":" + "\\n" + Join(e.values, "\\n") == e.name + ":\\n" + Join(e.values, "\\n");
    assert PlainText(e.name + ":");
    forall i | 0 <= i < |parts|
      ensures "\\n"[0] !in parts[i]
    {
      if i > 0 {
        assert parts[i] == e.values[i - 1];
      }
    }
    SplitJoin(parts, "\\n");
  }

  /** The member types of a UnionType label are recovered by cutting after `= ` at each `\n\| `. */
  lemma UnionLabelRows(e: Entity)
    requires e.UnionType? && |e.types| > 0
    requires forall i :: 0 <= i < |e.types| ==> PlainText(e.types[i])
    ensures exists members :: RenderUnionType(e) == Label(e.name, e.name + "\\n= " + members) &&
                              Split(members, "\\n\\| ") == e.types
  {
    SplitJoin(e.types, "\\n\\| ");
  }

  // ---------------------------------------------------------------------------
  // Edges

  /** An inheritance line: from the supertype to the entity. */
  function InheritanceLine(supertype: string, name: string): string
  {
    supertype + "->" + name
  }

  /** An aggregation line: from the entity to a referenced type, with a hollow diamond at the tail. */
  function AggregationLine(name: string, target: string): string
  {
    name + "->" + target + "[arrowtail=odiamond]"
  }

  predicate HasReferenceType(p: Property) { !IsPrimitive(p.typeText) }

  function TypeTextOf(p: Property): string { p.typeText }

  /** The distinct non-primitive property types of an Object, in first-occurrence order. */
  function AggregationTargets(properties: seq<Property>): seq<string>
  {
    Dedupe(Map(TypeTextOf, Filter(HasReferenceType, properties)))
  }

  function InheritanceLines(e: Entity): seq<string>
    requires e.Object?
  {
    Map((i: string) => InheritanceLine(i, e.name), e.includes)
  }

  function AggregationLines(e: Entity): seq<string>
    requires e.Object?
  {
    Map((t: string) => AggregationLine(e.name, t), AggregationTargets(e.properties))
  }

  /**
   * `renderObjectDependencies`: the inheritance block and the aggregation block,
   * appended with no separator. It is empty exactly when the Object has no
   * supertype and only primitive property types.
   */
  function RenderObjectDependencies(e: Entity): (r: string)
    requires e.Object?
    ensures r == "" <==> |e.includes| == 0 && forall i :: 0 <= i < |e.properties| ==> IsPrimitive(e.properties[i].typeText)
  {
    AggregationTargetsEmpty(e.properties);
    JoinEmpty(InheritanceLines(e), "\n");
    JoinEmpty(AggregationLines(e), "\n");
    Join(InheritanceLines(e), "\n") + Join(AggregationLines(e), "\n")
  }

  predicate IsReference(t: string) { !IsPrimitive(t) }

  /** The distinct non-primitive member types of a UnionType, in first-occurrence order. */
  function UnionTargets(types: seq<string>): seq<string>
  {
    Dedupe(Filter(IsReference, types))
  }

  function UnionLines(e: Entity): seq<string>
    requires e.UnionType?
  {
    Map((t: string) => AggregationLine(e.name, t), UnionTargets(e.types))
  }

  /** `renderUnionTypeDependencies`: empty exactly when every member type is primitive. */
  function RenderUnionTypeDependencies(e: Entity): (r: string)
    requires e.UnionType?
    ensures r == "" <==> forall i :: 0 <= i < |e.types| ==> IsPrimitive(e.types[i])
  {
    UnionHasLines(e);
    JoinEmpty(UnionLines(e), "\n");
    Join(UnionLines(e), "\n")
  }

  /** `renderDependencies`: edges originate only at Objects and UnionTypes. */
  function RenderDependencies(e: Entity): (r: Option<string>)
    ensures r.None? <==> e.Enum? || e.Alias?
  {
    match e
    case Object(_, _, _) => Some(RenderObjectDependencies(e))
    case UnionType(_, _) => Some(RenderUnionTypeDependencies(e))
    case _ => None
  }

  /**
   * An Object aggregates each distinct non-primitive property type once, in
   * the order those types first appear among its properties.
   */
  lemma AggregationTargetsSpec(properties: seq<Property>)
    ensures NoDuplicates(AggregationTargets(properties))
    ensures forall t :: t in AggregationTargets(properties) <==>
              exists i :: 0 <= i < |properties| && properties[i].typeText == t && !IsPrimitive(t)
    ensures var typed := Map(TypeTextOf, Filter(HasReferenceType, properties));
            (forall t :: t in AggregationTargets(properties) ==> t in typed) &&
            forall i, j :: 0 <= i < j < |AggregationTargets(properties)| ==>
              FirstIndex(typed, AggregationTargets(properties)[i]) < FirstIndex(typed, AggregationTargets(properties)[j])
  {
    DedupeSpec(Map(TypeTextOf, Filter(HasReferenceType, properties)));
    ReferenceTypeTexts(properties);
  }

  /** An Object has aggregation targets exactly when one of its property types is not primitive. */
  lemma AggregationTargetsEmpty(properties: seq<Property>)
    ensures |AggregationTargets(properties)| == 0 <==>
              forall i :: 0 <= i < |properties| ==> IsPrimitive(properties[i].typeText)
  {
    var targets := AggregationTargets(properties);
    AggregationTargetsSpec(properties);
    if |targets| > 0 {
      assert targets[0] in targets;
    } else {
      forall i | 0 <= i < |properties| ensures IsPrimitive(properties[i].typeText) {
        assert properties[i].typeText !in targets;
      }
    }
  }

  /** The non-primitive type texts are those of the properties whose type is not primitive. */
  lemma ReferenceTypeTexts(properties: seq<Property>)
    ensures forall t :: t in Map(TypeTextOf, Filter(HasReferenceType, properties)) <==>
              exists i :: 0 <= i < |properties| && properties[i].typeText == t && !IsPrimitive(t)
  {
    MapFilterMembers(TypeTextOf, HasReferenceType, properties);
  }

  /** Filtering properties by type and then taking types is taking types and then filtering them. */
  lemma {:induction false} TypeTextsOfReferences(properties: seq<Property>)
    ensures Map(TypeTextOf, Filter(HasReferenceType, properties)) == Filter(IsReference, Map(TypeTextOf, properties))
  {
    if properties != [] {
      var p := properties[0];
      var ts := Map(TypeTextOf, properties);
      assert ts == [p.typeText] + Map(TypeTextOf, properties[1..]);
      assert ts[1..] == Map(TypeTextOf, properties[1..]);
      TypeTextsOfReferences(properties[1..]);
      var rest := Filter(HasReferenceType, properties[1..]);
      if HasReferenceType(p) {
        MapAppend(TypeTextOf, [p], rest);
      }
    }
  }

  /** Edges depend only on the property types: property names and `nullable` do not affect them. */
  lemma DependenciesIgnoreNamesAndNullability(e: Entity, f: Entity)
    requires e.Object? && f.Object? && e.name == f.name && e.includes == f.includes
    requires Map(TypeTextOf, e.properties) == Map(TypeTextOf, f.properties)
    ensures RenderObjectDependencies(e) == RenderObjectDependencies(f)
  {
    TypeTextsOfReferences(e.properties);
    TypeTextsOfReferences(f.properties);
  }

  /** The union edges go to each distinct non-primitive member once, in first-occurrence order. */
  lemma UnionTargetsSpec(types: seq<string>)
    ensures NoDuplicates(UnionTargets(types))
    ensures forall t :: t in UnionTargets(types) <==> t in types && !IsPrimitive(t)
    ensures var kept := Filter(IsReference, types);
            (forall t :: t in UnionTargets(types) ==> t in kept) &&
            forall i, j :: 0 <= i < j < |UnionTargets(types)| ==>
              FirstIndex(kept, UnionTargets(types)[i]) < FirstIndex(kept, UnionTargets(types)[j])
  {
    var kept := Filter(IsReference, types);
    FilterMembers(IsReference, types);
    DedupeSpec(kept);
    forall t ensures t in kept <==> t in types && !IsPrimitive(t) {
      if t in types && !IsPrimitive(t) {
        var k :| 0 <= k < |types| && types[k] == t;
      }
    }
  }

  // ---------------------------------------------------------------------------
  // Lines of the edge text

  /** No newline in `s`. */
  predicate OneLine(s: string) { '\n' !in s }

  /** No newline in any text of the entity that reaches the document; an Alias's type text never does. */
  predicate SingleLineEntity(e: Entity)
  {
    OneLine(e.name) &&
    match e
    case Object(_, properties, includes) =>
      (forall i :: 0 <= i < |properties| ==> OneLine(properties[i].name) && OneLine(properties[i].typeText)) &&
      (forall i :: 0 <= i < |includes| ==> OneLine(includes[i]))
    case Enum(_, values) => forall i :: 0 <= i < |values| ==> OneLine(values[i])
    case UnionType(_, types) => forall i :: 0 <= i < |types| ==> OneLine(types[i])
    case Alias(_, _) => true
  }

  lemma OneLineConcat(a: string, b: string)
    requires OneLine(a) && OneLine(b)
    ensures OneLine(a + b)
  {
  }

  /**
   * The lines of an Object's edge text. Because the two blocks are appended
   * with no newline between them, the last inheritance line and the first
   * aggregation line share one line when both blocks are present.
   */
  lemma ObjectDependencyLines(e: Entity)
    requires e.Object? && SingleLineEntity(e)
    ensures var inh, agg := InheritanceLines(e), AggregationLines(e);
            Split(RenderObjectDependencies(e), "\n") ==
              if |inh| == 0 && |agg| == 0 then [""]
              else if |agg| == 0 then inh
              else if |inh| == 0 then agg
              else Fuse(inh, agg)
  {
    InheritanceLinesAreLines(e);
    AggregationLinesAreLines(e);
    SplitJoinedBlocks(InheritanceLines(e), AggregationLines(e), "\n");
  }

  lemma InheritanceLinesAreLines(e: Entity)
    requires e.Object? && SingleLineEntity(e)
    ensures forall i :: 0 <= i < |InheritanceLines(e)| ==> "\n"[0] !in InheritanceLines(e)[i]
  {
    var inh := InheritanceLines(e);
    forall i | 0 <= i < |inh| ensures "\n"[0] !in inh[i] {
      OneLineConcat(e.includes[i], "->");
      OneLineConcat(e.includes[i] + "->", e.name);
    }
  }

  lemma AggregationLinesAreLines(e: Entity)
    requires e.Object? && SingleLineEntity(e)
    ensures forall i :: 0 <= i < |AggregationLines(e)| ==> "\n"[0] !in AggregationLines(e)[i]
  {
    var agg := AggregationLines(e);
    var targets := AggregationTargets(e.properties);
    AggregationTargetsOneLine(e.properties);
    forall i | 0 <= i < |agg| ensures "\n"[0] !in agg[i] {
      OneLineConcat(e.name, "->");
      OneLineConcat(e.name + "->", targets[i]);
      OneLineConcat(e.name + "->" + targets[i], "[arrowtail=odiamond]");
    }
  }

  lemma AggregationTargetsOneLine(properties: seq<Property>)
    requires forall i :: 0 <= i < |properties| ==> OneLine(properties[i].typeText)
    ensures forall i :: 0 <= i < |AggregationTargets(properties)| ==> OneLine(AggregationTargets(properties)[i])
  {
    var targets := AggregationTargets(properties);
    AggregationTargetsSpec(properties);
    forall i | 0 <= i < |targets| ensures OneLine(targets[i]) {
      assert targets[i] in targets;
    }
  }

  /** The lines of a UnionType's edge text are its aggregation lines, one per distinct non-primitive member. */
  lemma UnionDependencyLines(e: Entity)
    requires e.UnionType? && SingleLineEntity(e)
    ensures RenderUnionTypeDependencies(e) == "" <==> forall i :: 0 <= i < |e.types| ==> IsPrimitive(e.types[i])
    ensures |UnionLines(e)| > 0 ==> Split(RenderUnionTypeDependencies(e), "\n") == UnionLines(e)
  {
    var lines := UnionLines(e);
    UnionHasLines(e);
    if |lines| > 0 {
      UnionLinesAreLines(e);
      SplitJoin(lines, "\n");
      assert |RenderUnionTypeDependencies(e)| >= |lines[0]| > 0;
    }
  }

  /** A UnionType has edge lines exactly when one of its members is not primitive. */
  lemma UnionHasLines(e: Entity)
    requires e.UnionType?
    ensures |UnionLines(e)| == 0 <==> forall i :: 0 <= i < |e.types| ==> IsPrimitive(e.types[i])
  {
    var targets := UnionTargets(e.types);
    UnionTargetsSpec(e.types);
    if |targets| > 0 {
      assert targets[0] in targets;
    } else {
      forall i | 0 <= i < |e.types| ensures IsPrimitive(e.types[i]) {
        assert e.types[i] !in targets;
      }
    }
  }

  lemma UnionLinesAreLines(e: Entity)
    requires e.UnionType? && SingleLineEntity(e)
    ensures forall i :: 0 <= i < |UnionLines(e)| ==> "\n"[0] !in UnionLines(e)[i]
  {
    var lines, targets := UnionLines(e), UnionTargets(e.types);
    UnionTargetsOneLine(e.types);
    forall i | 0 <= i < |lines| ensures "\n"[0] !in lines[i] {
      OneLineConcat(e.name, "->");
      OneLineConcat(e.name + "->", targets[i]);
      OneLineConcat(e.name + "->" + targets[i], "[arrowtail=odiamond]");
    }
  }

  lemma UnionTargetsOneLine(types: seq<string>)
    requires forall i :: 0 <= i < |types| ==> OneLine(types[i])
    ensures forall i :: 0 <= i < |UnionTargets(types)| ==> OneLine(UnionTargets(types)[i])
  {
    var targets := UnionTargets(types);
    UnionTargetsSpec(types);
    forall i | 0 <= i < |targets| ensures OneLine(targets[i]) {
      assert targets[i] in targets;
    }
  }

  // ---------------------------------------------------------------------------
  // The document

  /** `.filter(Boolean)` over strings and `undefined`: keeps the non-empty strings, in order. */
  function Present(xs: seq<Option<string>>): (r: seq<string>)
    ensures |r| <= |xs|
  {
    if xs == [] then []
    else (if xs[0].Some? && xs[0].value != "" then [xs[0].value] else []) + Present(xs[1..])
  }

  /** Exactly the non-empty strings survive. */
  lemma {:induction false} PresentMembers(xs: seq<Option<string>>)
    ensures forall i :: 0 <= i < |Present(xs)| ==> Present(xs)[i] != "" && Some(Present(xs)[i]) in xs
    ensures forall i :: 0 <= i < |xs| && xs[i].Some? && xs[i].value != "" ==> xs[i].value in Present(xs)
  {
    if xs != [] {
      PresentMembers(xs[1..]);
      var r, rest := Present(xs), Present(xs[1..]);
      var kept := xs[0].Some? && xs[0].value != "";
      if kept {
        assert r == [xs[0].value] + rest;
        forall i | 0 <= i < |r| ensures r[i] != "" && Some(r[i]) in xs {
          if i > 0 {
            assert r[i] == rest[i - 1];
            assert Some(r[i]) in xs[1..];
          }
        }
      } else {
        assert r == rest;
        forall i | 0 <= i < |r| ensures r[i] != "" && Some(r[i]) in xs {
          assert Some(r[i]) in xs[1..];
        }
      }
      forall i | 0 <= i < |xs| && xs[i].Some? && xs[i].value != "" ensures xs[i].value in r {
        if i > 0 {
          assert xs[i] == xs[1..][i - 1];
        }
      }
    }
  }

  /**
   * The default node attributes: filled records with a yellow-orange gradient,
   * that is `    node [shape=record, style=filled, fillcolor="#FFDD00:#FBB034", gradientangle=270]`.
   * The line is written as a concatenation of short pieces so that its freedom
   * from newlines can be checked piece by piece (NodeDefaultsIsOneLine).
   */
  const NodeDefaults: string :=
    "    node [" + "shape=record, " + "style=filled, " + "fillcolor=" + "\"#FFDD00" + ":#FBB034\", " + "gradientangle" + "=270]"

  /** The lines of the template before the node block. */
  const HeaderLines: seq<string> := [
    "digraph G {",
    "    overlap=false",
    "    splines=true",
    "",
    "    bgcolor=transparent",
    "",
    NodeDefaults,
    "    edge [dir=back, arrowtail=empty]",
    ""
  ]

  /** The node strings, in entity order: at most one per entity, each one an entity's rendering. */
  function Nodes(entities: seq<Entity>): (r: seq<string>)
    ensures |r| <= |entities|
    ensures forall i :: 0 <= i < |r| ==> Some(r[i]) in Map(RenderEntity, entities)
  {
    PresentMembers(Map(RenderEntity, entities));
    Present(Map(RenderEntity, entities))
  }

  /** The edge strings, in entity order: none of them empty, each one an entity's edge text. */
  function Edges(entities: seq<Entity>): (r: seq<string>)
    ensures |r| <= |entities|
    ensures forall i :: 0 <= i < |r| ==> r[i] != "" && Some(r[i]) in Map(RenderDependencies, entities)
  {
    PresentMembers(Map(RenderDependencies, entities));
    Present(Map(RenderDependencies, entities))
  }

  /** `write`: the template, line by line, with the node block and the edge block substituted. */
  function Write(entities: seq<Entity>): (r: string)
    ensures exists body :: r == "digraph G {\n" + body + "\n  }"
  {
    var nodes := Join(Nodes(entities), "\n");
    var edges := Join(Edges(entities), "\n");
    DocumentFrame(nodes, edges);
    Join(HeaderLines + ["    " + nodes, "", "    " + edges, "  }"], "\n")
  }

  /** The document opens the digraph on its first line and closes it on its last. */
  lemma DocumentFrame(nodes: string, edges: string)
    ensures exists body :: Join(HeaderLines + ["    " + nodes, "", "    " + edges, "  }"], "\n") ==
                           "digraph G {\n" + body + "\n  }"
  {
    var parts := HeaderLines + ["    " + nodes, "", "    " + edges, "  }"];
    var init := parts[..|parts| - 1];
    JoinLast(parts, "\n");
    assert init[0] == "digraph G {" && parts[|parts| - 1] == "  }";
    var body := Join(init[1..], "\n");
    assert Join(init, "\n") == "digraph G {" + "\n" + body;
    assert "digraph G {" + "\n" + body + "\n" + "  }" == "digraph G {\n" + body + "\n  }";
  }

  predicate Drawn(e: Entity) { !e.Alias? }

  /** The node block of a non-empty entity sequence: the first entity's node, unless it is an Alias, then the rest. */
  lemma NodesCons(entities: seq<Entity>)
    requires entities != []
    ensures Nodes(entities) ==
              (if Drawn(entities[0]) then [RenderEntity(entities[0]).value] else []) + Nodes(entities[1..])
  {
    var rendered := Map(RenderEntity, entities);
    assert rendered[1..] == Map(RenderEntity, entities[1..]);
  }

  /** One node per entity that is not an Alias, in entity order. */
  lemma {:induction false} NodesAreNonAliases(entities: seq<Entity>)
    ensures var drawn := Filter(Drawn, entities);
            |Nodes(entities)| == |drawn| &&
            forall i :: 0 <= i < |drawn| ==> Some(Nodes(entities)[i]) == RenderEntity(drawn[i])
  {
    if entities != [] {
      var e := entities[0];
      NodesAreNonAliases(entities[1..]);
      NodesCons(entities);
      var nodes, rest := Nodes(entities), Nodes(entities[1..]);
      var drawn, drawnRest := Filter(Drawn, entities), Filter(Drawn, entities[1..]);
      if Drawn(e) {
        assert drawn == [e] + drawnRest;
        assert nodes == [RenderEntity(e).value] + rest;
        forall i | 0 <= i < |drawn| ensures Some(nodes[i]) == RenderEntity(drawn[i]) {
          if i > 0 {
            assert nodes[i] == rest[i - 1] && drawn[i] == drawnRest[i - 1];
          }
        }
      } else {
        assert drawn == drawnRest;
      }
    }
  }

  /** An entity that contributes an edge string: an Object or UnionType whose edge text is not empty. */
  predicate HasEdges(e: Entity)
  {
    RenderDependencies(e).Some? && RenderDependencies(e).value != ""
  }

  /** The edge block of a non-empty entity sequence: the first entity's edge text, if it has any, then the rest. */
  lemma EdgesCons(entities: seq<Entity>)
    requires entities != []
    ensures Edges(entities) ==
              (if HasEdges(entities[0]) then [RenderDependencies(entities[0]).value] else []) + Edges(entities[1..])
  {
    var rendered := Map(RenderDependencies, entities);
    assert rendered[1..] == Map(RenderDependencies, entities[1..]);
  }

  /** One edge string per entity with a non-empty edge text, in entity order, and each is that text. */
  lemma {:induction false} EdgesOfEntities(entities: seq<Entity>)
    ensures var withEdges := Filter(HasEdges, entities);
            |Edges(entities)| == |withEdges| &&
            forall i :: 0 <= i < |withEdges| ==> Some(Edges(entities)[i]) == RenderDependencies(withEdges[i])
  {
    if entities != [] {
      var e := entities[0];
      EdgesOfEntities(entities[1..]);
      EdgesCons(entities);
      var edges, rest := Edges(entities), Edges(entities[1..]);
      var withEdges, withEdgesRest := Filter(HasEdges, entities), Filter(HasEdges, entities[1..]);
      if HasEdges(e) {
        assert withEdges == [e] + withEdgesRest;
        assert edges == [RenderDependencies(e).value] + rest;
        forall i | 0 <= i < |withEdges| ensures Some(edges[i]) == RenderDependencies(withEdges[i]) {
          if i > 0 {
            assert edges[i] == rest[i - 1] && withEdges[i] == withEdgesRest[i - 1];
          }
        }
      } else {
        assert withEdges == withEdgesRest;
      }
    }
  }

  /** The first line of a block is indented by the template's four spaces. */
  function Indented(lines: seq<string>): seq<string>
    requires |lines| > 0
  {
    ["    " + lines[0]] + lines[1..]
  }

  lemma {:induction false} JoinOneLine(parts: seq<string>, sep: string)
    requires OneLine(sep) && forall i :: 0 <= i < |parts| ==> OneLine(parts[i])
    ensures OneLine(Join(parts, sep))
  {
    if |parts| > 1 {
      JoinOneLine(parts[1..], sep);
      OneLineConcat(parts[0], sep);
      OneLineConcat(parts[0] + sep, Join(parts[1..], sep));
    }
  }

  /** Every node of an entity without newlines in its texts is a single line. */
  lemma NodeIsOneLine(e: Entity)
    requires SingleLineEntity(e) && !e.Alias?
    ensures OneLine(RenderEntity(e).value)
  {
    var body: string;
    match e {
      case Object(name, properties, _) =>
        var rows := Map(PropertyRow, properties);
        forall i | 0 <= i < |rows| ensures OneLine(rows[i]) {
          var p := properties[i];
          var mark: string := if p.nullable then "- " else "+ ";
          OneLineConcat(mark, p.name);
          OneLineConcat(mark + p.name, ": ");
          OneLineConcat(mark + p.name + ": ", p.typeText);
        }
        JoinOneLine(rows, "\\n");
        OneLineConcat(name, "|");
        OneLineConcat(name + "|", Join(rows, "\\n"));
        body := name + "|" + Join(rows, "\\n");
      case Enum(name, values) =>
        JoinOneLine(values, "\\n");
        OneLineConcat(name, ":\\n");
        OneLineConcat(name + ":\\n", Join(values, "\\n"));
        body := name + ":\\n" + Join(values, "\\n");
      case UnionType(name, types) =>
        JoinOneLine(types, "\\n\\| ");
        OneLineConcat(name, "\\n= ");
        OneLineConcat(name + "\\n= ", Join(types, "\\n\\| "));
        body := name + "\\n= " + Join(types, "\\n\\| ");
    }
    assert RenderEntity(e).value == Label(e.name, body);
    OneLineConcat(e.name, "[label = \"{");
    OneLineConcat(e.name + "[label = \"{", body);
    OneLineConcat(e.name + "[label = \"{" + body, "}\"]");
  }

  /** The lines of a block joined by newlines: the lines of each of its strings, in order. */
  function BlockLines(parts: seq<string>): (r: seq<string>)
    ensures |r| > 0
  {
    if |parts| == 0 then [""] else
      SplitJoinAll(parts, "\n");
      SplitAll(parts, "\n")
  }

  lemma BlockSplit(parts: seq<string>)
    ensures Split("    " + Join(parts, "\n"), "\n") == Indented(BlockLines(parts))
  {
    SplitWithoutSeparator("    ", "\n");
    SplitAppend("    ", Join(parts, "\n"), "\n");
    if |parts| > 0 {
      SplitJoinAll(parts, "\n");
    }
  }

  /** Splitting the template: the header's own lines, then the lines of each substituted block. */
  lemma TemplateSplit(header: seq<string>, a: string, blank: string, b: string, closing: string, sep: string)
    requires |sep| == 1
    requires forall i :: 0 <= i < |header| ==> sep[0] !in header[i]
    requires sep[0] !in blank && sep[0] !in closing
    ensures Split(Join(header + [a, blank, b, closing], sep), sep) ==
            header + Split(a, sep) + [blank] + Split(b, sep) + [closing]
  {
    var tail := [a, blank, b, closing];
    assert tail == [a] + ([blank] + ([b] + [closing]));
    SplitJoinAll(header + tail, sep);
    SplitAllAppend(header, tail, sep);
    SplitAllWithoutSeparator(header, sep);
    TailSplit(a, blank, b, closing, sep);
    AppendAssoc(header, Split(a, sep), [blank], Split(b, sep), [closing]);
  }

  lemma AppendAssoc<T>(h: seq<T>, v: seq<T>, w: seq<T>, x: seq<T>, y: seq<T>)
    ensures h + (v + (w + (x + y))) == h + v + w + x + y
  {
  }

  lemma TailSplit(a: string, blank: string, b: string, closing: string, sep: string)
    requires |sep| == 1
    requires sep[0] !in blank && sep[0] !in closing
    ensures SplitAll([a] + ([blank] + ([b] + [closing])), sep) == Split(a, sep) + ([blank] + (Split(b, sep) + [closing]))
  {
    SplitWithoutSeparator(blank, sep);
    SplitWithoutSeparator(closing, sep);
    SplitAllCons(closing, [], sep);
    SplitAllCons(b, [closing], sep);
    SplitAllCons(blank, [b] + [closing], sep);
    SplitAllCons(a, [blank] + ([b] + [closing]), sep);
  }

  lemma NodesAreOneLine(entities: seq<Entity>)
    requires forall i :: 0 <= i < |entities| ==> SingleLineEntity(entities[i])
    ensures forall i :: 0 <= i < |Nodes(entities)| ==> OneLine(Nodes(entities)[i])
  {
    var nodes := Nodes(entities);
    PresentMembers(Map(RenderEntity, entities));
    forall i | 0 <= i < |nodes| ensures OneLine(nodes[i]) {
      var k :| 0 <= k < |entities| && Some(nodes[i]) == RenderEntity(entities[k]);
      NodeIsOneLine(entities[k]);
    }
  }

  /**
   * The document, line by line: the fixed header, the node block (one line per
   * node, the first indented), an empty line, the edge block, and the closing
   * brace.
   */
  lemma DocumentLines(entities: seq<Entity>)
    requires forall i :: 0 <= i < |entities| ==> SingleLineEntity(entities[i])
    ensures var nodes := Nodes(entities);
            Split(Write(entities), "\n") ==
              HeaderLines + Indented(if |nodes| == 0 then [""] else nodes) + [""] +
              Indented(BlockLines(Edges(entities))) + ["  }"]
  {
    var nodes, edges := Nodes(entities), Edges(entities);
    HeaderIsOneLiners();
    NodesAreOneLine(entities);
    TemplateLines(HeaderLines, nodes, edges);
  }

  /** DocumentLines for any header of single lines and any node block of single lines. */
  lemma TemplateLines(header: seq<string>, nodes: seq<string>, edges: seq<string>)
    requires forall i :: 0 <= i < |header| ==> OneLine(header[i])
    requires forall i :: 0 <= i < |nodes| ==> OneLine(nodes[i])
    ensures Split(Join(header + ["    " + Join(nodes, "\n"), "", "    " + Join(edges, "\n"), "  }"], "\n"), "\n") ==
            header + Indented(if |nodes| == 0 then [""] else nodes) + [""] + Indented(BlockLines(edges)) + ["  }"]
  {
    var a, b := "    " + Join(nodes, "\n"), "    " + Join(edges, "\n");
    TemplateSplit(header, a, "", b, "  }", "\n");
    NodeBlockLines(nodes);
    BlockSplit(edges);
  }

  /** A block of single lines splits back into those lines, the first one indented. */
  lemma NodeBlockLines(nodes: seq<string>)
    requires forall i :: 0 <= i < |nodes| ==> OneLine(nodes[i])
    ensures Split("    " + Join(nodes, "\n"), "\n") == Indented(if |nodes| == 0 then [""] else nodes)
  {
    BlockSplit(nodes);
    if |nodes| > 0 {
      SplitAllWithoutSeparator(nodes, "\n");
    }
  }

  lemma HeaderIsOneLiners()
    ensures forall i :: 0 <= i < |HeaderLines| ==> OneLine(HeaderLines[i])
  {
    forall i | 0 <= i < |HeaderLines| ensures OneLine(HeaderLines[i]) {
      if i == 6 {
        NodeDefaultsIsOneLine();
        assert HeaderLines[6] == NodeDefaults;
      } else if i < 3 {
        assert OneLine(HeaderLines[0]) && OneLine(HeaderLines[1]) && OneLine(HeaderLines[2]);
      } else if i < 6 {
        assert OneLine(HeaderLines[3]) && OneLine(HeaderLines[4]) && OneLine(HeaderLines[5]);
      } else {
        assert OneLine(HeaderLines[7]) && OneLine(HeaderLines[8]);
      }
    }
  }

  lemma NodeDefaultsIsOneLine()
    ensures OneLine(NodeDefaults)
  {
    assert OneLine("    node [") && OneLine("shape=record, ") && OneLine("style=filled, ");
    assert OneLine("fillcolor=") && OneLine("\"#FFDD00") && OneLine(":#FBB034\", ");
    assert OneLine("gradientangle") && OneLine("=270]");
  }
}
