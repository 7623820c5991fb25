/**
 * The generator's view of annotated types: type, member and class records, the type-name maps that
 * pick reader and writer calls, node-name resolution, and the class table with its drop rule.
 */
module GenModel {
  import opened Wrappers

  /** The identity of a type symbol (symbols are compared with `SymbolEqualityComparer.Default`). */
  type TypeId = string

  datatype TypeKind = Class | Struct | Enum | Interface | Delegate | TypeParameter | Array | Other

  /** What the generator reads off a type symbol. */
  datatype TypeRef = TypeRef(
    id: TypeId,
    name: string,
    kind: TypeKind,
    isValueType: bool,
    isReferenceType: bool,
    typeArgs: seq<TypeRef>)

  predicate IsTypeParameter(t: TypeRef) {
    t.kind == TypeParameter
  }

  predicate IsValueNullable(t: TypeRef) {
    t.name == "Nullable" && t.isValueType
  }

  predicate IsEnum(t: TypeRef) {
    t.isValueType && t.kind == Enum
  }

  /** Value types, nullable value types, enums and `String` count as primitive. */
  predicate IsPrimitive(t: TypeRef) {
    t.isValueType || IsValueNullable(t) || IsEnum(t) || t.name == "String"
  }

  predicate IsString(t: TypeRef) {
    t.name == "String"
  }

  predicate IsList(t: TypeRef) {
    t.name == "List"
  }

  /** `TypeArguments[0]`, absent when the type has no type arguments. */
  function ElementType(t: TypeRef): (r: Option<TypeRef>)
    ensures r.Some? <==> |t.typeArgs| > 0
    ensures r.Some? ==> r.value == t.typeArgs[0]
  {
    if |t.typeArgs| > 0 then Some(t.typeArgs[0]) else None
  }

  datatype MemberKind = Field | Property

  /** An annotated field or property (`FieldGenInfo` / `PropertyGenInfo`). */
  datatype Member = Member(
    symbolName: string,
    kind: MemberKind,
    memberType: TypeRef,
    xmlName: Option<string>,
    splitChar: Option<char>,
    isReadOnly: bool)

  /**
   * A class in the generator's table (`ClassGenInfo`). A class with the class attribute gets its
   * node name from `ResolveNodeName`; a class that enters the table only because one of its
   * members is annotated has no node name (`className` is `None`).
   */
  datatype ClassInfo = ClassInfo(
    symbolName: string,
    displayName: string,
    isAbstract: bool,
    isSealed: bool,
    isGeneric: bool,
    baseType: Option<TypeId>,
    attributes: seq<Member>,
    bodies: seq<Member>,
    className: Option<string>,
    inheritedClassName: bool,
    alreadyHasEmptyConstructor: bool,
    inheritedFromSerializable: bool,
    haveGenericElements: bool)

  /** The failures the generator raises with `throw`. */
  datatype GenError =
    | NoAttributeWriter(typeName: string)
    | NoAttributeReader(typeName: string)
    | NoWriterForType(typeName: string)
    | NoReaderForType(typeName: string)
    | BothBodyKinds(className: string)
    | UnsupportedInlineBody(member: string)
    | MissingClass(id: TypeId)
    | NoBodyName(member: string)
    | MissingTypeArgument(member: string)
    | ListElementNotSerializable(member: string)

  // ---------------------------------------------------------------------------------------------
  // The type-name maps.

  /** The scalar type names every map accepts besides `String`. */
  const ScalarTypeNames: set<string> :=
    {"Byte", "Int32", "UInt32", "Int64", "Double", "Decimal", "Char", "Boolean", "Guid"}

  datatype AttributeWriter = PutAttribute | PutAttributeValue

  /** `GetPutAttributeAction`: which write-buffer call writes an attribute of the given type. */
  function GetPutAttributeAction(typeName: string): (r: Result<AttributeWriter, GenError>)
    ensures r.Ok? <==> typeName == "String" || typeName in ScalarTypeNames
    ensures r.Ok? ==> (r.value == PutAttribute <==> typeName == "String")
    ensures r.Err? ==> r.error == NoAttributeWriter(typeName)
  {
    match typeName
    case "String" => Ok(PutAttribute)
    case "Byte" => Ok(PutAttributeValue)
    case "Int32" => Ok(PutAttributeValue)
    case "UInt32" => Ok(PutAttributeValue)
    case "Int64" => Ok(PutAttributeValue)
    case "Double" => Ok(PutAttributeValue)
    case "Decimal" => Ok(PutAttributeValue)
    case "Char" => Ok(PutAttributeValue)
    case "Boolean" => Ok(PutAttributeValue)
    case "Guid" => Ok(PutAttributeValue)
    case _ => Err(NoAttributeWriter(typeName))
  }

  /** The parse calls the generated attribute and value readers use. */
  datatype ParseCall =
    | ValueToString | ParseByte | ParseInt | ParseUInt | ParseLong | ParseDouble
    | ParseDecimal | ParseChar | InterpretBool | ParseGuid

  /** `GetParseAction`: how a value span is turned into a member of the given type. */
  function GetParseAction(typeName: string): (r: Result<ParseCall, GenError>)
    ensures r.Ok? <==> typeName == "String" || typeName in ScalarTypeNames
    ensures r.Ok? ==> (r.value == ValueToString <==> typeName == "String")
    ensures r.Err? ==> r.error == NoAttributeReader(typeName)
  {
    match typeName
    case "String" => Ok(ValueToString)
    case "Byte" => Ok(ParseByte)
    case "Int32" => Ok(ParseInt)
    case "UInt32" => Ok(ParseUInt)
    case "Int64" => Ok(ParseLong)
    case "Double" => Ok(ParseDouble)
    case "Decimal" => Ok(ParseDecimal)
    case "Char" => Ok(ParseChar)
    case "Boolean" => Ok(InterpretBool)
    case "Guid" => Ok(ParseGuid)
    case _ => Err(NoAttributeReader(typeName))
  }

  datatype ValueWriter = WriterPutString | WriterPutValue

  /** `GetWriterForType`: how one element of a split attribute is written. */
  function GetWriterForType(typeName: string): (r: Result<ValueWriter, GenError>)
    ensures r.Ok? <==> typeName in {"String", "SpanStr"} || typeName in ScalarTypeNames
    ensures r.Ok? ==> (r.value == WriterPutString <==> typeName in {"String", "SpanStr"})
    ensures r.Err? ==> r.error == NoWriterForType(typeName)
  {
    match typeName
    case "String" => Ok(WriterPutString)
    case "SpanStr" => Ok(WriterPutString)
    case "Byte" => Ok(WriterPutValue)
    case "Int32" => Ok(WriterPutValue)
    case "UInt32" => Ok(WriterPutValue)
    case "Int64" => Ok(WriterPutValue)
    case "Double" => Ok(WriterPutValue)
    case "Decimal" => Ok(WriterPutValue)
    case "Char" => Ok(WriterPutValue)
    case "Boolean" => Ok(WriterPutValue)
    case "Guid" => Ok(WriterPutValue)
    case _ => Err(NoWriterForType(typeName))
  }

  datatype ReaderCall =
    | GetString | GetSpanString | GetByte | GetInt | GetUInt | GetLong | GetDouble
    | GetDecimal | GetChar | GetBoolean | GetGuid

  /** `GetReaderForType`: how one element of a split attribute is read. */
  function GetReaderForType(typeName: string): (r: Result<ReaderCall, GenError>)
    ensures r.Ok? <==> typeName in {"String", "SpanStr"} || typeName in ScalarTypeNames
    ensures r.Err? ==> r.error == NoReaderForType(typeName)
  {
    match typeName
    case "String" => Ok(GetString)
    case "SpanStr" => Ok(GetSpanString)
    case "Byte" => Ok(GetByte)
    case "Int32" => Ok(GetInt)
    case "UInt32" => Ok(GetUInt)
    case "Int64" => Ok(GetLong)
    case "Double" => Ok(GetDouble)
    case "Decimal" => Ok(GetDecimal)
    case "Char" => Ok(GetChar)
    case "Boolean" => Ok(GetBoolean)
    case "Guid" => Ok(GetGuid)
    case _ => Err(NoReaderForType(typeName))
  }

  /**
   * The maps agree: a type that can be written as an attribute can be parsed back, and an element
   * type of a split attribute that can be written can be read, with text read as text.
   */
  lemma TypeMapsAgree(typeName: string)
    ensures GetPutAttributeAction(typeName).Ok? <==> GetParseAction(typeName).Ok?
    ensures GetWriterForType(typeName).Ok? <==> GetReaderForType(typeName).Ok?
    ensures GetPutAttributeAction(typeName).Ok? ==> GetWriterForType(typeName).Ok?
    ensures GetWriterForType(typeName) == Ok(WriterPutString)
        <==> GetReaderForType(typeName) in {Ok(GetString), Ok(GetSpanString)}
  {
  }

  // ---------------------------------------------------------------------------------------------
  // Node-name resolution.

  /** The position of the first present name, if any. */
  function FirstNamed(names: seq<Option<string>>): (r: Option<nat>)
    ensures r.None? <==> forall i :: 0 <= i < |names| ==> names[i].None?
    ensures r.Some? ==> r.value < |names| && names[r.value].Some?
    ensures r.Some? ==> forall i :: 0 <= i < r.value ==> names[i].None?
  {
    if names == [] then None
    else if names[0].Some? then Some(0)
    else
      match FirstNamed(names[1..])
      case None => None
      case Some(k) => Some(k + 1)
  }

  /** A class's node name and whether it was taken from an ancestor. */
  datatype NodeName = NodeName(name: string, inherited: bool)

  /**
   * The node name of a class: the name given in its own class attribute; otherwise the name given
   * by its first ancestor (nearest first) whose class attribute names one, marked as inherited;
   * otherwise the type's simple name.
   */
  function ResolveNodeName(explicitName: Option<string>, ancestorNames: seq<Option<string>>, simpleName: string)
    : (r: NodeName)
    ensures explicitName.Some? ==> r == NodeName(explicitName.value, false)
    ensures r.inherited <==> explicitName.None? && exists i :: 0 <= i < |ancestorNames| && ancestorNames[i].Some?
    ensures r.inherited ==> exists k :: (0 <= k < |ancestorNames| && ancestorNames[k] == Some(r.name)
        && forall i :: 0 <= i < k ==> ancestorNames[i].None?)
    ensures explicitName.None? && !r.inherited ==> r.name == simpleName
  {
    if explicitName.Some? then NodeName(explicitName.value, false)
    else
      match FirstNamed(ancestorNames)
      case Some(k) => NodeName(ancestorNames[k].value, true)
      case None => NodeName(simpleName, false)
  }

  // ---------------------------------------------------------------------------------------------
  // The class table.

  predicate HasListMember(c: ClassInfo) {
    (exists i :: 0 <= i < |c.attributes| && IsList(c.attributes[i].memberType))
    || (exists i :: 0 <= i < |c.bodies| && IsList(c.bodies[i].memberType))
  }

  /** A class that already has a parameterless constructor and has a list-typed member is dropped. */
  predicate ShouldDrop(c: ClassInfo) {
    c.alreadyHasEmptyConstructor && HasListMember(c)
  }

  predicate HasGenericMember(c: ClassInfo) {
    (exists i :: 0 <= i < |c.attributes| && IsTypeParameter(c.attributes[i].memberType))
    || (exists i :: 0 <= i < |c.bodies| && IsTypeParameter(c.bodies[i].memberType))
  }

  /** The flags the second pass over the table sets on one class. */
  function Marked(classes: map<TypeId, ClassInfo>, c: ClassInfo): (r: ClassInfo)
    ensures r.inheritedFromSerializable <==> c.inheritedFromSerializable || (c.baseType.Some? && c.baseType.value in classes)
    ensures r.haveGenericElements <==> c.haveGenericElements || HasGenericMember(c)
    ensures r.(inheritedFromSerializable := c.inheritedFromSerializable, haveGenericElements := c.haveGenericElements) == c
  {
    var inherited := c.baseType.Some? && c.baseType.value in classes;
    c.(inheritedFromSerializable := c.inheritedFromSerializable || inherited,
       haveGenericElements := c.haveGenericElements || HasGenericMember(c))
  }

  /** `Marked` looks only at which types the table holds. */
  lemma MarkedReadsKeysOnly(a: map<TypeId, ClassInfo>, b: map<TypeId, ClassInfo>, c: ClassInfo)
    requires a.Keys == b.Keys
    ensures Marked(a, c) == Marked(b, c)
  {
  }

  /** The generator's `classes` dictionary. */
  class ClassTable {
    var classes: map<TypeId, ClassInfo>

    constructor (initial: map<TypeId, ClassInfo>)
      ensures classes == initial
    {
      classes := initial;
    }

    /**
     * Removes every class that `ShouldDrop`, iterating over a snapshot of the classes that already
     * have a parameterless constructor.
     */
    method DropClassesWithListMembers()
      modifies this
      ensures classes.Keys <= old(classes).Keys
      ensures forall k :: k in old(classes) ==> (k in classes <==> !ShouldDrop(old(classes)[k]))
      ensures forall k :: k in classes ==> classes[k] == old(classes)[k]
    {
      ghost var initial := classes;
      var snapshot := set k | k in classes && classes[k].alreadyHasEmptyConstructor;
      var todo := snapshot;
      while todo != {}
        invariant todo <= snapshot
        invariant classes.Keys <= initial.Keys
        invariant forall k :: k in classes ==> classes[k] == initial[k]
        invariant forall k :: k in initial ==>
          (k in classes <==> !(k in snapshot && k !in todo && HasListMember(initial[k])))
        decreases todo
      {
        var k :| k in todo;
        if HasListMember(classes[k]) {
          classes := classes - {k};
        }
        todo := todo - {k};
      }
    }

    /** Sets `InheritedFromSerializable` and `HaveGenericElements` on every class. */
    method MarkInheritance()
      modifies this
      ensures classes.Keys == old(classes).Keys
      ensures forall k :: k in classes ==> classes[k] == Marked(old(classes), old(classes)[k])
    {
      ghost var initial := classes;
      var todo := classes.Keys;
      while todo != {}
        invariant todo <= initial.Keys && classes.Keys == initial.Keys
        invariant forall k :: k in classes ==>
          classes[k] == if k in todo then initial[k] else Marked(initial, initial[k])
        decreases todo
      {
        var k :| k in todo;
        MarkedReadsKeysOnly(classes, initial, initial[k]);
        classes := classes[k := Marked(classes, classes[k])];
        todo := todo - {k};
      }
    }
  }

  // ---------------------------------------------------------------------------------------------
  // Registration and `GetNodeName`.

  /** The text after the last `.` of `s` (all of `s` when it has none): `s[(s.LastIndexOf('.') + 1)..]`. */
  function AfterLastDot(s: string): (r: string)
    ensures |r| <= |s|
  {
    if s == [] || s[|s| - 1] == '.' then []
    else AfterLastDot(s[..|s| - 1]) + [s[|s| - 1]]
  }

  /** `AfterLastDot(s)` is the dot-free suffix of `s` that is either all of `s` or follows a `.`. */
  lemma {:induction false} AfterLastDotSplits(s: string)
    ensures var r := AfterLastDot(s);
      && r == s[|s| - |r|..]
      && (forall i :: 0 <= i < |r| ==> r[i] != '.')
      && (|r| < |s| ==> s[|s| - |r| - 1] == '.')
  {
    if s != [] && s[|s| - 1] != '.' {
      var init := s[..|s| - 1];
      AfterLastDotSplits(init);
      var q := AfterLastDot(init);
      assert init[|init| - |q|..] + [s[|s| - 1]] == s[|s| - |q| - 1..];
    }
  }

  /** The registration the static constructor performs: the type name used and the node name. */
  datatype Registration = Registration(typeName: string, nodeName: string)

  /**
   * Abstract classes register nothing; other classes register their node name under their simple
   * name, or for a generic type under the text after the last `.` of its display name. A class
   * without a node name registers the empty text, which is what interpolating `null` writes.
   */
  function RegistrationFor(c: ClassInfo): (r: Option<Registration>)
    ensures r.Some? <==> !c.isAbstract
    ensures r.Some? && c.className.Some? ==> r.value.nodeName == c.className.value
    ensures r.Some? && c.className.None? ==> r.value.nodeName == ""
    ensures r.Some? && !c.isGeneric ==> r.value.typeName == c.symbolName
    ensures r.Some? && c.isGeneric ==> r.value.typeName == AfterLastDot(c.displayName)
  {
    if c.isAbstract then None
    else
      var name := if c.isGeneric then AfterLastDot(c.displayName) else c.symbolName;
      Some(Registration(name, c.className.GetOr("")))
  }

  /**
   * `GetNodeName` is generated, returning the class name, only when that name is not inherited;
   * a class without a node name returns the empty text.
   */
  function GetNodeNameFor(c: ClassInfo): (r: Option<string>)
    ensures r.Some? <==> !c.inheritedClassName
    ensures r.Some? && c.className.Some? ==> r.value == c.className.value
    ensures r.Some? && c.className.None? ==> r.value == ""
  {
    if c.inheritedClassName then None else Some(c.className.GetOr(""))
  }
}
