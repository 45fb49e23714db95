/**
 * The entity model shared by the extractor and the graph writer: one
 * constructor per declaration shape, so that the shape and its tag cannot
 * disagree.
 */
module Types {

  /** One member of an interface as extracted: its name, its verbatim type text, and whether it is optional. */
  datatype Property = Property(name: string, typeText: string, nullable: bool)

  /**
   * An extracted declaration. `Object` comes from an interface, the other three
   * from a type alias: a union with literal members (`Enum`), a union without
   * them (`UnionType`), or anything else (`Alias`).
   */
  datatype Entity =
    | Object(name: string, properties: seq<Property>, includes: seq<string>)
    | Enum(name: string, values: seq<string>)
    | UnionType(name: string, types: seq<string>)
    | Alias(name: string, typeText: string)

  /** The discriminator tags, in their declaration order. */
  datatype EntityType = ObjectTag | EnumTag | UnionTypeTag | AliasTag

  /** The numeric value the enumeration gives each tag: its position in the declaration. */
  function TagValue(t: EntityType): (v: nat)
    ensures v < 4
  {
    match t
    case ObjectTag => 0
    case EnumTag => 1
    case UnionTypeTag => 2
    case AliasTag => 3
  }

  /** Distinct tags have distinct values, numbered in declaration order. */
  lemma TagValueOrder()
    ensures forall s, t :: TagValue(s) == TagValue(t) ==> s == t
    ensures TagValue(ObjectTag) < TagValue(EnumTag) < TagValue(UnionTypeTag) < TagValue(AliasTag)
  {
  }

  /** The `discriminator` field that every shape carries. */
  function Discriminator(e: Entity): (t: EntityType)
    ensures t == ObjectTag <==> e.Object?
    ensures t == EnumTag <==> e.Enum?
    ensures t == UnionTypeTag <==> e.UnionType?
    ensures t == AliasTag <==> e.Alias?
  {
    match e
    case Object(_, _, _) => ObjectTag
    case Enum(_, _) => EnumTag
    case UnionType(_, _) => UnionTypeTag
    case Alias(_, _) => AliasTag
  }
}
