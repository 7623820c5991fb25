/**
 * What the generator emits for one annotated class: which of the parse and serialize methods are
 * generated, left as empty stubs or omitted, which cases their dispatch holds, and which
 * declarations make the generator fail.
 */
module GenPlan {
  import opened Wrappers
  import opened Seqs
  import opened GenModel
  import NameHash

  /** A generated method is omitted, emitted as a stub returning `default`, or generated with content. */
  datatype Emission<+T> = NotEmitted | EmptyStub | Generated(content: T)

  /** The generator's `foreach` that emits one piece per element and stops at the first `throw`. */
  function MapResult<A, B>(s: seq<A>, f: A -> Result<B, GenError>): (r: Result<seq<B>, GenError>)
    ensures r.Ok? <==> forall i :: 0 <= i < |s| ==> f(s[i]).Ok?
    ensures r.Ok? ==> |r.value| == |s| && forall i :: 0 <= i < |s| ==> f(s[i]) == Ok(r.value[i])
    ensures r.Err? ==> exists i :: 0 <= i < |s| && f(s[i]) == Err(r.error) && forall j :: 0 <= j < i ==> f(s[j]).Ok?
  {
    if s == [] then Ok([])
    else
      match f(s[0])
      case Err(e) => Err(e)
      case Ok(b) =>
        match MapResult(s[1..], f)
        case Err(e) =>
          ghost var i :| 0 <= i < |s[1..]| && f(s[1..][i]) == Err(e) && forall j :: 0 <= j < i ==> f(s[1..][j]).Ok?;
          assert f(s[i + 1]) == Err(e) && forall j :: 0 <= j < i + 1 ==> f(s[j]).Ok? by {
            forall j | 0 <= j < i + 1 ensures f(s[j]).Ok? {
              if j > 0 { assert s[j] == s[1..][j - 1]; }
            }
          }
          Err(e)
        case Ok(rest) => Ok([b] + rest)
  }

  /** The modifier on generated methods: `override` below a serializable base, else `virtual` unless sealed. */
  datatype MethodModifier = NoModifier | Virtual | Override

  function MethodModifierFor(c: ClassInfo): (r: MethodModifier)
    ensures r == Override <==> c.inheritedFromSerializable
    ensures r == NoModifier <==> !c.inheritedFromSerializable && c.isSealed && !c.isAbstract
  {
    if c.inheritedFromSerializable then Override
    else if !c.isSealed || c.isAbstract then Virtual
    else NoModifier
  }

  // ---------------------------------------------------------------------------------------------
  // Parsing bodies.

  /** A primitive body without an element name is read inline from the node's own text. */
  predicate IsInlineBody(b: Member) {
    IsPrimitive(b.memberType) && b.xmlName.None?
  }

  predicate HasInlineBody(bodies: seq<Member>) {
    exists i :: 0 <= i < |bodies| && IsInlineBody(bodies[i])
  }

  predicate HasSubBody(bodies: seq<Member>) {
    exists i :: 0 <= i < |bodies| && !IsInlineBody(bodies[i])
  }

  /** The loop that sets `needsInlineBody` and `needsSubBody`. */
  method ClassifyBodies(bodies: seq<Member>) returns (needsInlineBody: bool, needsSubBody: bool)
    ensures needsInlineBody <==> HasInlineBody(bodies)
    ensures needsSubBody <==> HasSubBody(bodies)
  {
    needsInlineBody := false;
    needsSubBody := false;
    for i := 0 to |bodies|
      invariant needsInlineBody <==> HasInlineBody(bodies[..i])
      invariant needsSubBody <==> HasSubBody(bodies[..i])
    {
      assert bodies[..i + 1] == bodies[..i] + [bodies[i]];
      if IsInlineBody(bodies[i]) {
        needsInlineBody := true;
      } else {
        needsSubBody := true;
      }
    }
    assert bodies[..|bodies|] == bodies;
  }

  /** The members `ParseFullBody` assigns from the node's CDATA text; only text bodies can be inlined. */
  function InlineBodyMembers(bodies: seq<Member>): (r: Result<seq<string>, GenError>)
    ensures r.Ok? <==> forall i :: 0 <= i < |bodies| ==> IsString(bodies[i].memberType)
    ensures r.Ok? ==> |r.value| == |bodies| && forall i :: 0 <= i < |bodies| ==> r.value[i] == bodies[i].symbolName
    ensures r.Err? ==> exists i :: (0 <= i < |bodies| && !IsString(bodies[i].memberType)
        && r.error == UnsupportedInlineBody(bodies[i].symbolName))
  {
    MapResult(bodies, (b: Member) =>
      if IsString(b.memberType) then Ok(b.symbolName) else Err(UnsupportedInlineBody(b.symbolName)))
  }

  /** Neither a read-only field nor a read-only property is assigned by a parser. */
  predicate IsWritable(b: Member) {
    !b.isReadOnly
  }

  /** Bodies dispatched on the hash of their element name. */
  predicate IsHashBody(b: Member) {
    IsWritable(b) && !IsTypeParameter(b.memberType)
  }

  /** Bodies of a type-parameter type, dispatched on the registered node name of the type argument. */
  predicate IsNameBody(b: Member) {
    IsWritable(b) && IsTypeParameter(b.memberType)
  }

  function HashBodies(bodies: seq<Member>): seq<Member> {
    Filter(bodies, IsHashBody)
  }

  function NameBodies(bodies: seq<Member>): seq<Member> {
    Filter(bodies, IsNameBody)
  }

  /** Every writable body is dispatched by exactly one of the two sub-body parsers; the others by neither. */
  lemma BodiesDispatchedOnce(bodies: seq<Member>)
    ensures forall i :: 0 <= i < |HashBodies(bodies)| ==> HashBodies(bodies)[i] in bodies && IsWritable(HashBodies(bodies)[i])
    ensures forall i :: 0 <= i < |NameBodies(bodies)| ==> NameBodies(bodies)[i] in bodies && IsWritable(NameBodies(bodies)[i])
    ensures forall i :: 0 <= i < |bodies| && IsWritable(bodies[i]) ==>
      (bodies[i] in HashBodies(bodies) <==> !(bodies[i] in NameBodies(bodies)))
  {
    FilterMembers(bodies, IsHashBody);
    FilterMembers(bodies, IsNameBody);
  }

  /** How a matched sub-body is read into its member. */
  datatype SubBodyRead =
    | ReadNested(cls: TypeId, append: bool)
    | ReadCData
    | ReadNodeValue(call: ParseCall)

  /** One `case <hash>:` of the generated `ParseSubBody` switch. */
  datatype HashCase = HashCase(key: NameHash.UInt64, member: string, read: SubBodyRead)

  datatype SubBodyDispatch = SubBodyDispatch(callsBase: bool, cases: seq<HashCase>)

  /** The class a non-primitive body is read as: the body's own type, or a list's element type. */
  function NestedTarget(b: Member): Option<TypeRef> {
    if IsList(b.memberType) then ElementType(b.memberType) else Some(b.memberType)
  }

  /** A non-primitive body with no element name whose class, though in the table, has no node name. */
  predicate UnnamedNestedBody(b: Member, classes: map<TypeId, ClassInfo>) {
    !IsPrimitive(b.memberType) && b.xmlName.None? && NestedTarget(b).Some?
    && NestedTarget(b).value.id in classes && classes[NestedTarget(b).value.id].className.None?
  }

  /**
   * The case for one hash-dispatched body. A non-primitive body is read as its class (for a list,
   * the class of its element type), which must be in the table; its key is the hash of the body's
   * element name, or else of that class's node name, and with neither the case fails. A primitive
   * body needs an element name and is read as CDATA text or as a parsed node value.
   */
  function HashCaseFor(b: Member, classes: map<TypeId, ClassInfo>): (r: Result<HashCase, GenError>)
    ensures r.Ok? ==> r.value.member == b.symbolName
    ensures r.Ok? && b.xmlName.Some? ==> r.value.key == NameHash.HashOf(b.xmlName.value)
    ensures r.Ok? ==> (r.value.read.ReadNested? <==> !IsPrimitive(b.memberType))
    ensures r.Ok? && r.value.read.ReadNested? ==>
      r.value.read.cls in classes && r.value.read.append == IsList(b.memberType)
      && (b.xmlName.None? ==>
            classes[r.value.read.cls].className.Some?
            && r.value.key == NameHash.HashOf(classes[r.value.read.cls].className.value))
    ensures r.Ok? ==> (r.value.read == ReadCData <==> IsPrimitive(b.memberType) && IsString(b.memberType))
    ensures r == Err(NoBodyName(b.symbolName)) <==> IsInlineBody(b) || UnnamedNestedBody(b, classes)
    ensures r.Err? && r.error.NoBodyName? ==> r.error.member == b.symbolName
    ensures !IsPrimitive(b.memberType) && !IsList(b.memberType) ==>
      (r.Ok? <==> b.memberType.id in classes && (b.xmlName.Some? || classes[b.memberType.id].className.Some?))
    ensures r.Ok? && r.value.read.ReadNested? ==>
      NestedTarget(b).Some? && r.value.read.cls == NestedTarget(b).value.id
    ensures IsPrimitive(b.memberType) && !IsString(b.memberType) && b.xmlName.Some? ==>
      (r.Ok? <==> GetParseAction(b.memberType.name).Ok?)
      && (r.Ok? ==> r.value.read == ReadNodeValue(GetParseAction(b.memberType.name).value))
  {
    if !IsPrimitive(b.memberType) then
      var target := NestedTarget(b);
      if target.None? then Err(MissingTypeArgument(b.symbolName))
      else if target.value.id !in classes then Err(MissingClass(target.value.id))
      else if b.xmlName.None? && classes[target.value.id].className.None? then Err(NoBodyName(b.symbolName))
      else
        var name := if b.xmlName.Some? then b.xmlName.value else classes[target.value.id].className.value;
        Ok(HashCase(NameHash.HashOf(name), b.symbolName, ReadNested(target.value.id, IsList(b.memberType))))
    else if b.xmlName.None? then Err(NoBodyName(b.symbolName))
    else if IsString(b.memberType) then Ok(HashCase(NameHash.HashOf(b.xmlName.value), b.symbolName, ReadCData))
    else
      match GetParseAction(b.memberType.name)
      case Err(e) => Err(e)
      case Ok(call) => Ok(HashCase(NameHash.HashOf(b.xmlName.value), b.symbolName, ReadNodeValue(call)))
  }

  /** `WriteParseSubBody`. */
  function ParseSubBodyPlan(c: ClassInfo, classes: map<TypeId, ClassInfo>): (r: Result<Emission<SubBodyDispatch>, GenError>)
    ensures r == Ok(NotEmitted) <==> HashBodies(c.bodies) == [] && c.inheritedFromSerializable
    ensures r == Ok(EmptyStub) <==> HashBodies(c.bodies) == [] && !c.inheritedFromSerializable
    ensures r.Ok? && r.value.Generated? ==>
      var d := r.value.content;
      d.callsBase == c.inheritedFromSerializable && |d.cases| == |HashBodies(c.bodies)|
      && forall i :: 0 <= i < |d.cases| ==> HashCaseFor(HashBodies(c.bodies)[i], classes) == Ok(d.cases[i])
    ensures r.Err? ==> exists i :: 0 <= i < |HashBodies(c.bodies)| && HashCaseFor(HashBodies(c.bodies)[i], classes) == Err(r.error)
  {
    var bodies := HashBodies(c.bodies);
    if bodies == [] then
      if c.inheritedFromSerializable then Ok(NotEmitted) else Ok(EmptyStub)
    else
      var cases :- MapResult(bodies, (b: Member) => HashCaseFor(b, classes));
      Ok(Generated(SubBodyDispatch(c.inheritedFromSerializable, cases)))
  }

  /** One `if (nodeName.Equals(NodeNamesCollector.GetFor<T>()))` branch of the by-name parser. */
  datatype NameCase = NameCase(member: string, memberType: TypeRef)

  datatype NameDispatch = NameDispatch(callsBase: bool, cases: seq<NameCase>)

  /** `WriteParseSubBodyByNames`: always emitted, a stub when there is no type-parameter body. */
  function ParseSubBodyByNamesPlan(c: ClassInfo): (r: Emission<NameDispatch>)
    ensures !r.NotEmitted?
    ensures r.EmptyStub? <==> NameBodies(c.bodies) == []
    ensures r.Generated? ==>
      r.content.callsBase == c.inheritedFromSerializable && |r.content.cases| == |NameBodies(c.bodies)|
      && forall i :: 0 <= i < |r.content.cases| ==>
        r.content.cases[i] == NameCase(NameBodies(c.bodies)[i].symbolName, NameBodies(c.bodies)[i].memberType)
  {
    var bodies := NameBodies(c.bodies);
    if bodies == [] then EmptyStub
    else
      Generated(NameDispatch(c.inheritedFromSerializable,
        seq(|bodies|, i requires 0 <= i < |bodies| => NameCase(bodies[i].symbolName, bodies[i].memberType))))
  }

  /** The three body parsers of a class. */
  datatype ParseBodyMethods = ParseBodyMethods(
    fullBody: Emission<seq<string>>,
    subBody: Emission<SubBodyDispatch>,
    byNames: Emission<NameDispatch>)

  /** `WriteParseBody`. */
  function ParseBodyPlan(c: ClassInfo, classes: map<TypeId, ClassInfo>): (r: Result<ParseBodyMethods, GenError>)
    ensures HasInlineBody(c.bodies) && HasSubBody(c.bodies) ==> r == Err(BothBodyKinds(c.symbolName))
    ensures r.Ok? ==> (r.value.fullBody.Generated? <==> HasInlineBody(c.bodies))
    ensures r.Ok? && HasInlineBody(c.bodies) ==>
      r.value.subBody == EmptyStub && r.value.byNames == EmptyStub
      && |r.value.fullBody.content| == |c.bodies|
      && forall i :: 0 <= i < |c.bodies| ==> r.value.fullBody.content[i] == c.bodies[i].symbolName
    ensures r.Ok? && !HasInlineBody(c.bodies) ==>
      r.value.fullBody == (if c.inheritedFromSerializable then NotEmitted else EmptyStub)
    ensures r.Ok? && !HasInlineBody(c.bodies) && !HasSubBody(c.bodies) ==>
      if c.inheritedFromSerializable then r.value.subBody.NotEmitted? && r.value.byNames.NotEmitted?
      else r.value.subBody.EmptyStub? && r.value.byNames.EmptyStub?
    ensures r.Ok? && HasSubBody(c.bodies) ==>
      ParseSubBodyPlan(c, classes) == Ok(r.value.subBody) && r.value.byNames == ParseSubBodyByNamesPlan(c)
    ensures r.Err? && HasInlineBody(c.bodies) && !HasSubBody(c.bodies) ==> InlineBodyMembers(c.bodies) == Err(r.error)
    ensures r.Err? && !HasInlineBody(c.bodies) ==> HasSubBody(c.bodies) && ParseSubBodyPlan(c, classes) == Err(r.error)
  {
    var needsInline := HasInlineBody(c.bodies);
    var needsSub := HasSubBody(c.bodies);
    if needsInline && needsSub then Err(BothBodyKinds(c.symbolName))
    else if needsInline then
      var members :- InlineBodyMembers(c.bodies);
      Ok(ParseBodyMethods(Generated(members), EmptyStub, EmptyStub))
    else
      var fullBody := if c.inheritedFromSerializable then NotEmitted else EmptyStub;
      if needsSub then
        var subBody :- ParseSubBodyPlan(c, classes);
        Ok(ParseBodyMethods(fullBody, subBody, ParseSubBodyByNamesPlan(c)))
      else if c.inheritedFromSerializable then Ok(ParseBodyMethods(fullBody, NotEmitted, NotEmitted))
      else Ok(ParseBodyMethods(fullBody, EmptyStub, EmptyStub))
  }

  /**
   * The "no body name" failure of the body parsers comes from a hash-dispatched body that has no
   * element name and whose class has no node name; inline bodies never reach the hash dispatch.
   */
  lemma ParseBodyLacksNameOnlyForUnnamedClass(c: ClassInfo, classes: map<TypeId, ClassInfo>)
    ensures ParseBodyPlan(c, classes).Err? && ParseBodyPlan(c, classes).error.NoBodyName? ==>
      exists i :: 0 <= i < |HashBodies(c.bodies)| && UnnamedNestedBody(HashBodies(c.bodies)[i], classes)
  {
    var r := ParseBodyPlan(c, classes);
    if r.Err? && r.error.NoBodyName? && !HasInlineBody(c.bodies) {
      var sub := ParseSubBodyPlan(c, classes);
      assert sub == Err(r.error);
      var bodies := HashBodies(c.bodies);
      var i :| 0 <= i < |bodies| && HashCaseFor(bodies[i], classes) == Err(sub.error);
      HashBodyIsSubBody(c.bodies, i);
      assert UnnamedNestedBody(bodies[i], classes);
    }
  }

  /** When every class in the table has a node name, the "no body name" failure cannot happen. */
  lemma NamedClassesNeverLackName(c: ClassInfo, classes: map<TypeId, ClassInfo>)
    requires forall k :: k in classes ==> classes[k].className.Some?
    ensures ParseBodyPlan(c, classes).Err? ==> !ParseBodyPlan(c, classes).error.NoBodyName?
  {
    ParseBodyLacksNameOnlyForUnnamedClass(c, classes);
  }

  /**
   * The failure does happen: a property body `Child` of type `Item` with no element name, where
   * `Item` is in the table only because of an annotated member and so has no node name.
   */
  lemma NoBodyNameReachable()
    ensures var item := TypeRef("Item", "Item", Class, false, true, []);
      var child := Member("Child", Property, item, None, None, false);
      var owner := ClassInfo("Owner", "Owner", false, false, false, None, [], [child], Some("owner"),
                             false, false, false, false);
      var classes := map["Item" := ClassInfo("Item", "Item", false, false, false, None, [], [], None,
                                              false, false, false, false)];
      ParseBodyPlan(owner, classes) == Err(NoBodyName("Child"))
  {
    var item := TypeRef("Item", "Item", Class, false, true, []);
    var child := Member("Child", Property, item, None, None, false);
    assert !IsInlineBody(child);
    assert HashBodies([child]) == [child];
  }

  /** Without inline bodies, every hash-dispatched body is a sub-body. */
  lemma HashBodyIsSubBody(bodies: seq<Member>, i: nat)
    requires !HasInlineBody(bodies) && i < |HashBodies(bodies)|
    ensures !IsInlineBody(HashBodies(bodies)[i])
  {
    FilterMembers(bodies, IsHashBody);
    var x := HashBodies(bodies)[i];
    var j :| 0 <= j < |bodies| && bodies[j] == x;
  }

  // ---------------------------------------------------------------------------------------------
  // Run-time behaviour of the generated body cases.

  /** The member a nested body is read into: null, one value, or a list. */
  datatype Slot<V> = Unset | Single(v: V) | Items(items: seq<V>)

  /**
   * A matched nested body: a list member is created on first use and appended to; any other
   * member fails with "duplicate non-list body" when already set.
   */
  function Accept<V>(append: bool, name: string, slot: Slot<V>, v: V): (r: Result<Slot<V>, string>)
    ensures append ==> r.Ok? && r.value.Items? && |r.value.items| > 0 && r.value.items[|r.value.items| - 1] == v
    ensures !append ==> (r.Ok? <==> slot.Unset?) && (r.Ok? ==> r.value == Single(v))
    ensures !append && r.Err? ==> r.error == name
  {
    if append then Ok(Items((if slot.Items? then slot.items else []) + [v]))
    else if slot.Unset? then Ok(Single(v))
    else Err(name)
  }

  /** Reading a sequence of matching nested bodies in document order. */
  function AcceptAll<V>(append: bool, name: string, slot: Slot<V>, vs: seq<V>): Result<Slot<V>, string>
    decreases |vs|
  {
    if vs == [] then Ok(slot)
    else
      match Accept(append, name, slot, vs[0])
      case Err(e) => Err(e)
      case Ok(s) => AcceptAll(append, name, s, vs[1..])
  }

  /** A list member collects every matching body, in document order. */
  lemma {:induction false} AcceptAllAppends<V>(name: string, items: seq<V>, vs: seq<V>)
    ensures AcceptAll(true, name, Items(items), vs) == Ok(Items(items + vs))
    decreases |vs|
  {
    if vs == [] {
      assert items + vs == items;
    } else {
      assert Accept(true, name, Items(items), vs[0]) == Ok(Items(items + [vs[0]]));
      AcceptAllAppends(name, items + [vs[0]], vs[1..]);
      assert items + [vs[0]] + vs[1..] == items + vs;
    }
  }

  /** A list member that is still null on the first match collects all of them. */
  lemma AcceptAllIntoList<V>(name: string, vs: seq<V>)
    requires vs != []
    ensures AcceptAll(true, name, Unset, vs) == Ok(Items(vs))
  {
    assert [] + [vs[0]] == [vs[0]];
    assert Accept(true, name, Unset, vs[0]) == Ok(Items([vs[0]]));
    AcceptAllAppends(name, [vs[0]], vs[1..]);
    assert [vs[0]] + vs[1..] == vs;
  }

  /** A non-list member accepts at most one matching body; a second one is a "duplicate" failure. */
  lemma AcceptAllSingle<V>(name: string, vs: seq<V>)
    ensures AcceptAll(false, name, Unset, vs).Ok? <==> |vs| <= 1
    ensures |vs| > 1 ==> AcceptAll(false, name, Unset, vs) == Err(name)
  {
    if |vs| > 0 {
      assert Accept(false, name, Unset, vs[0]) == Ok(Single(vs[0]));
      if |vs| > 1 {
        assert vs[1..][0] == vs[1];
        assert Accept(false, name, Single(vs[0]), vs[1]) == Err(name);
      }
    }
  }

  // ---------------------------------------------------------------------------------------------
  // Parsing attributes.

  /** Attributes the parser dispatches on: named ones, except read-only properties. */
  predicate IsParsedAttribute(a: Member) {
    a.xmlName.Some? && !(a.kind == Property && a.isReadOnly)
  }

  function XmlNameLength(a: Member): nat {
    |a.xmlName.GetOr("")|
  }

  /** The parsed attributes ordered by the length of their names, ties in declaration order. */
  function ParsedAttributes(attributes: seq<Member>): seq<Member> {
    OrderBy(Filter(attributes, IsParsedAttribute), XmlNameLength)
  }

  /**
   * The parser's cases are the parsed attributes ordered by name length: a permutation of the
   * attributes that qualify, keeping declaration order among names of the same length.
   */
  lemma ParsedAttributesOrder(attributes: seq<Member>, k: nat)
    ensures multiset(ParsedAttributes(attributes)) == multiset(Filter(attributes, IsParsedAttribute))
    ensures SortedByKey(ParsedAttributes(attributes), XmlNameLength)
    ensures Filter(ParsedAttributes(attributes), HasKey(XmlNameLength, k))
        == Filter(Filter(attributes, IsParsedAttribute), HasKey(XmlNameLength, k))
    ensures forall i :: 0 <= i < |ParsedAttributes(attributes)| ==> IsParsedAttribute(ParsedAttributes(attributes)[i])
  {
    var named := Filter(attributes, IsParsedAttribute);
    OrderByPermutes(named, XmlNameLength);
    OrderBySorted(named, XmlNameLength);
    OrderByStable(named, XmlNameLength, k);
    FilterMembers(attributes, IsParsedAttribute);
    forall i | 0 <= i < |ParsedAttributes(attributes)| ensures IsParsedAttribute(ParsedAttributes(attributes)[i]) {
      var x := ParsedAttributes(attributes)[i];
      assert x in multiset(named);
    }
  }

  /** How an attribute value is read: parsed as a scalar, or split into a list of elements. */
  datatype AttributeRead = ParseScalar(call: ParseCall) | SplitList(separator: char, element: ReaderCall)

  /** One `case <hash>:` of the generated `ParseAttribute` switch. */
  datatype AttrCase = AttrCase(key: NameHash.UInt64, member: string, read: AttributeRead)

  datatype AttrDispatch = AttrDispatch(callsBase: bool, cases: seq<AttrCase>)

  /** The case for one attribute, keyed by the hash of its name. */
  function AttrCaseFor(a: Member): (r: Result<AttrCase, GenError>)
    ensures r.Ok? ==> r.value.key == NameHash.HashOf(a.xmlName.GetOr("")) && r.value.member == a.symbolName
    ensures r.Ok? ==> (r.value.read.SplitList? <==> a.splitChar.Some?)
    ensures r.Ok? && a.splitChar.Some? ==> r.value.read.separator == a.splitChar.value
    ensures a.splitChar.None? ==> (r.Ok? <==> GetParseAction(a.memberType.name).Ok?)
    ensures a.splitChar.Some? ==>
      (r.Ok? <==> ElementType(a.memberType).Some? && GetReaderForType(ElementType(a.memberType).value.name).Ok?)
    ensures r.Ok? && a.splitChar.None? ==> r.value.read == ParseScalar(GetParseAction(a.memberType.name).value)
    ensures r.Ok? && a.splitChar.Some? ==>
      r.value.read.element == GetReaderForType(ElementType(a.memberType).value.name).value
  {
    var key := NameHash.HashOf(a.xmlName.GetOr(""));
    if a.splitChar.Some? then
      match ElementType(a.memberType)
      case None => Err(MissingTypeArgument(a.symbolName))
      case Some(element) =>
        var reader :- GetReaderForType(element.name);
        Ok(AttrCase(key, a.symbolName, SplitList(a.splitChar.value, reader)))
    else
      var call :- GetParseAction(a.memberType.name);
      Ok(AttrCase(key, a.symbolName, ParseScalar(call)))
  }

  /** `WriteParseAttribute`. */
  function ParseAttributePlan(c: ClassInfo): (r: Result<Emission<AttrDispatch>, GenError>)
    ensures r == Ok(NotEmitted) <==> ParsedAttributes(c.attributes) == [] && c.inheritedFromSerializable
    ensures r == Ok(EmptyStub) <==> ParsedAttributes(c.attributes) == [] && !c.inheritedFromSerializable
    ensures r.Ok? && r.value.Generated? ==>
      var d := r.value.content;
      d.callsBase == c.inheritedFromSerializable && |d.cases| == |ParsedAttributes(c.attributes)|
      && forall i :: 0 <= i < |d.cases| ==> AttrCaseFor(ParsedAttributes(c.attributes)[i]) == Ok(d.cases[i])
    ensures r.Err? ==> exists i :: (0 <= i < |ParsedAttributes(c.attributes)|
        && AttrCaseFor(ParsedAttributes(c.attributes)[i]) == Err(r.error))
  {
    var attributes := ParsedAttributes(c.attributes);
    if attributes == [] then
      if c.inheritedFromSerializable then Ok(NotEmitted) else Ok(EmptyStub)
    else
      var cases :- MapResult(attributes, AttrCaseFor);
      Ok(Generated(AttrDispatch(c.inheritedFromSerializable, cases)))
  }

  // ---------------------------------------------------------------------------------------------
  // Serializing bodies.

  /** How one body is written. */
  datatype BodyWriteKind =
    | SerializeEach
    | SerializeNested
    | PutCDataText(node: Option<string>)
    | PutScalarValue(node: Option<string>)

  /** One body write, guarded by a null check for reference types. */
  datatype BodyWrite = BodyWrite(member: string, nullGuard: bool, write: BodyWriteKind)

  datatype BodySerialization = BodySerialization(callsBase: bool, writes: seq<BodyWrite>)

  /** The body write as the source has it: a list body needs the LIST type itself to be annotated. */
  function BodyWriteAsWritten(b: Member, classes: map<TypeId, ClassInfo>): (r: Result<BodyWrite, GenError>)
    ensures IsList(b.memberType) ==>
      (r.Ok? <==> !IsPrimitive(b.memberType) && b.memberType.id in classes)
    ensures !IsList(b.memberType) ==> r == BodyWriteFor(b, classes)
    ensures r.Ok? ==> r.value.member == b.symbolName && (r.value.nullGuard <==> b.memberType.isReferenceType)
    ensures r.Ok? ==> (r.value.write == SerializeEach <==> IsList(b.memberType))
    ensures r.Err? && IsList(b.memberType) ==> r.error == ListElementNotSerializable(b.symbolName)
  {
    if IsList(b.memberType) && (IsPrimitive(b.memberType) || b.memberType.id !in classes) then
      Err(ListElementNotSerializable(b.symbolName))
    else if IsList(b.memberType) then Ok(BodyWrite(b.symbolName, b.memberType.isReferenceType, SerializeEach))
    else BodyWriteFor(b, classes)
  }

  /** The element type of a list body is an annotated class. */
  predicate ListElementSerializable(t: TypeRef, classes: map<TypeId, ClassInfo>) {
    match ElementType(t)
    case None => false
    case Some(element) => !IsPrimitive(element) && element.id in classes
  }

  /**
   * The body write: a list body writes each element (its element type must be an annotated class),
   * another non-primitive body writes itself as a nested node, and a primitive body writes CDATA
   * text or a value, wrapped in its own element when it has an element name.
   */
  function BodyWriteFor(b: Member, classes: map<TypeId, ClassInfo>): (r: Result<BodyWrite, GenError>)
    ensures r.Ok? ==> r.value.member == b.symbolName && (r.value.nullGuard <==> b.memberType.isReferenceType)
    ensures r.Err? <==> IsList(b.memberType) && !ListElementSerializable(b.memberType, classes)
    ensures r.Err? ==> r.error == ListElementNotSerializable(b.symbolName)
    ensures r.Ok? ==> (r.value.write == SerializeEach <==> IsList(b.memberType))
    ensures r.Ok? ==> (r.value.write == SerializeNested <==> !IsList(b.memberType) && !IsPrimitive(b.memberType))
    ensures r.Ok? && r.value.write.PutCDataText? ==> IsString(b.memberType) && r.value.write.node == b.xmlName
    ensures r.Ok? && r.value.write.PutScalarValue? ==>
      IsPrimitive(b.memberType) && !IsString(b.memberType) && r.value.write.node == b.xmlName
  {
    var guard := b.memberType.isReferenceType;
    if IsList(b.memberType) then
      if ListElementSerializable(b.memberType, classes) then Ok(BodyWrite(b.symbolName, guard, SerializeEach))
      else Err(ListElementNotSerializable(b.symbolName))
    else if !IsPrimitive(b.memberType) then Ok(BodyWrite(b.symbolName, guard, SerializeNested))
    else if IsString(b.memberType) then Ok(BodyWrite(b.symbolName, guard, PutCDataText(b.xmlName)))
    else Ok(BodyWrite(b.symbolName, guard, PutScalarValue(b.xmlName)))
  }

  /** As written, no list body can be serialized unless the list type itself is an annotated class. */
  lemma ListBodyRejectedAsWritten(b: Member, classes: map<TypeId, ClassInfo>)
    requires IsList(b.memberType) && b.memberType.id !in classes
    ensures BodyWriteAsWritten(b, classes) == Err(ListElementNotSerializable(b.symbolName))
  {
  }

  /** A body `List<Item>` with `Item` annotated: parsed, but rejected by the serializer as written. */
  lemma ListBodyCounterexample()
    ensures var item := TypeRef("Item", "Item", Class, false, true, []);
      var list := TypeRef("List<Item>", "List", Class, false, true, [item]);
      var b := Member("Items", Field, list, None, None, false);
      var classes := map["Item" := ClassInfo("Item", "Item", false, false, false, None, [], [], Some("item"),
                                              false, true, false, false)];
      HashCaseFor(b, classes).Ok? && BodyWriteAsWritten(b, classes).Err? && BodyWriteFor(b, classes).Ok?
  {
  }

  /**
   * A list body the corrected serializer accepts is one the parser reads, element by element,
   * unless neither the body nor its element class has a name to dispatch on.
   */
  lemma ListBodySerializedIsParsed(b: Member, classes: map<TypeId, ClassInfo>)
    requires IsList(b.memberType) && !IsPrimitive(b.memberType) && BodyWriteFor(b, classes).Ok?
    ensures HashCaseFor(b, classes).Ok? <==> !UnnamedNestedBody(b, classes)
    ensures HashCaseFor(b, classes).Ok? ==>
      HashCaseFor(b, classes).value.read == ReadNested(ElementType(b.memberType).value.id, true)
    ensures HashCaseFor(b, classes).Err? ==> HashCaseFor(b, classes) == Err(NoBodyName(b.symbolName))
  {
  }

  /** `WriteSerializeBody`, with the list-body check as the source has it. */
  function SerializeBodyPlan(c: ClassInfo, classes: map<TypeId, ClassInfo>): (r: Result<Emission<BodySerialization>, GenError>)
    ensures r == Ok(NotEmitted) <==> c.bodies == [] && c.inheritedFromSerializable
    ensures r == Ok(EmptyStub) <==> c.bodies == [] && !c.inheritedFromSerializable
    ensures r.Ok? && r.value.Generated? ==>
      var s := r.value.content;
      s.callsBase == c.inheritedFromSerializable && |s.writes| == |c.bodies|
      && forall i :: 0 <= i < |c.bodies| ==> BodyWriteAsWritten(c.bodies[i], classes) == Ok(s.writes[i])
    ensures r.Err? ==> exists i :: 0 <= i < |c.bodies| && BodyWriteAsWritten(c.bodies[i], classes) == Err(r.error)
  {
    if c.bodies == [] then
      if c.inheritedFromSerializable then Ok(NotEmitted) else Ok(EmptyStub)
    else
      var writes :- MapResult(c.bodies, (b: Member) => BodyWriteAsWritten(b, classes));
      Ok(Generated(BodySerialization(c.inheritedFromSerializable, writes)))
  }

  /**
   * As written, one list body whose list type is not itself in the table makes the body
   * serializer fail, and with it everything generated for the class.
   */
  lemma ListBodyFailsClassAsWritten(c: ClassInfo, classes: map<TypeId, ClassInfo>, i: nat)
    requires i < |c.bodies| && IsList(c.bodies[i].memberType) && c.bodies[i].memberType.id !in classes
    ensures SerializeBodyPlan(c, classes).Err?
    ensures ClassPlanFor(c, classes).Err?
  {
    ListBodyRejectedAsWritten(c.bodies[i], classes);
  }

  // ---------------------------------------------------------------------------------------------
  // Serializing attributes.

  /** How one attribute is written: directly, or its elements joined by the split character. */
  datatype AttributeWrite =
    | PutAttr(name: string, member: string, writer: AttributeWriter)
    | PutSplit(name: string, member: string, separator: char, element: ValueWriter)

  datatype AttrSerialization = AttrSerialization(callsBase: bool, writes: seq<AttributeWrite>)

  function AttributeWriteFor(a: Member): (r: Result<AttributeWrite, GenError>)
    ensures r.Ok? ==> r.value.name == a.xmlName.GetOr("") && r.value.member == a.symbolName
    ensures r.Ok? ==> (r.value.PutSplit? <==> a.splitChar.Some?)
    ensures r.Ok? && a.splitChar.Some? ==> r.value.separator == a.splitChar.value
    ensures a.splitChar.None? ==> (r.Ok? <==> GetPutAttributeAction(a.memberType.name).Ok?)
    ensures a.splitChar.Some? ==>
      (r.Ok? <==> ElementType(a.memberType).Some? && GetWriterForType(ElementType(a.memberType).value.name).Ok?)
    ensures r.Ok? && a.splitChar.None? ==> r.value.writer == GetPutAttributeAction(a.memberType.name).value
    ensures r.Ok? && a.splitChar.Some? ==>
      r.value.element == GetWriterForType(ElementType(a.memberType).value.name).value
  {
    var name := a.xmlName.GetOr("");
    if a.splitChar.Some? then
      match ElementType(a.memberType)
      case None => Err(MissingTypeArgument(a.symbolName))
      case Some(element) =>
        var w :- GetWriterForType(element.name);
        Ok(PutSplit(name, a.symbolName, a.splitChar.value, w))
    else
      var w :- GetPutAttributeAction(a.memberType.name);
      Ok(PutAttr(name, a.symbolName, w))
  }

  /** `WriteSerializeAttributes`: every attribute, in declaration order. */
  function SerializeAttributesPlan(c: ClassInfo): (r: Result<Emission<AttrSerialization>, GenError>)
    ensures r == Ok(NotEmitted) <==> c.attributes == [] && c.inheritedFromSerializable
    ensures r == Ok(EmptyStub) <==> c.attributes == [] && !c.inheritedFromSerializable
    ensures r.Ok? && r.value.Generated? ==>
      var s := r.value.content;
      s.callsBase == c.inheritedFromSerializable && |s.writes| == |c.attributes|
      && forall i :: 0 <= i < |c.attributes| ==> AttributeWriteFor(c.attributes[i]) == Ok(s.writes[i])
    ensures r.Err? ==> exists i :: 0 <= i < |c.attributes| && AttributeWriteFor(c.attributes[i]) == Err(r.error)
  {
    if c.attributes == [] then
      if c.inheritedFromSerializable then Ok(NotEmitted) else Ok(EmptyStub)
    else
      var writes :- MapResult(c.attributes, AttributeWriteFor);
      Ok(Generated(AttrSerialization(c.inheritedFromSerializable, writes)))
  }

  /**
   * An attribute the serializer can write, the parser can read back under the same name's hash,
   * provided the parser dispatches on it.
   */
  lemma WrittenAttributeIsParsed(a: Member)
    requires AttributeWriteFor(a).Ok?
    ensures AttrCaseFor(a).Ok?
    ensures AttrCaseFor(a).value.key == NameHash.HashOf(AttributeWriteFor(a).value.name)
    ensures AttrCaseFor(a).value.read.SplitList? <==> AttributeWriteFor(a).value.PutSplit?
    ensures AttributeWriteFor(a).value.PutAttr? ==>
      (AttrCaseFor(a).value.read == ParseScalar(GetParseAction(a.memberType.name).value)
      && (AttributeWriteFor(a).value.writer == PutAttribute <==> AttrCaseFor(a).value.read.call == ValueToString))
    ensures AttributeWriteFor(a).value.PutSplit? ==>
      (AttrCaseFor(a).value.read.separator == AttributeWriteFor(a).value.separator
      && (AttributeWriteFor(a).value.element == WriterPutString
          <==> AttrCaseFor(a).value.read.element in {GetString, GetSpanString}))
  {
    TypeMapsAgree(a.memberType.name);
    if ElementType(a.memberType).Some? {
      TypeMapsAgree(ElementType(a.memberType).value.name);
    }
  }

  // ---------------------------------------------------------------------------------------------
  // The whole class.

  /** The steps of the generated `Serialize`. */
  datatype SerializeStep = StartNodeHead | SerializeAttributesCall | SerializeBodyCall | EndNode

  /** `WriteSerialize`: only the topmost serializable class of a hierarchy writes the node. */
  function SerializePlan(c: ClassInfo): (r: Emission<seq<SerializeStep>>)
    ensures r.NotEmitted? <==> c.inheritedFromSerializable
    ensures !r.EmptyStub?
    ensures r.Generated? ==> (|r.content| == 4 && r.content[0] == StartNodeHead && r.content[|r.content| - 1] == EndNode
      && r.content[1] == SerializeAttributesCall && r.content[2] == SerializeBodyCall)
  {
    if c.inheritedFromSerializable then NotEmitted
    else Generated([StartNodeHead, SerializeAttributesCall, SerializeBodyCall, EndNode])
  }

  /** Everything generated for one class inside its partial declaration. */
  datatype ClassPlan = ClassPlan(
    implementsInterface: bool,
    modifier: MethodModifier,
    registration: Option<Registration>,
    getNodeName: Option<string>,
    parseBody: ParseBodyMethods,
    parseAttribute: Emission<AttrDispatch>,
    serializeBody: Emission<BodySerialization>,
    serializeAttributes: Emission<AttrSerialization>,
    serialize: Emission<seq<SerializeStep>>)

  /** The class-level part of `ProcessClasses`, failing with the first error in emission order. */
  function ClassPlanFor(c: ClassInfo, classes: map<TypeId, ClassInfo>): (r: Result<ClassPlan, GenError>)
    ensures r.Ok? <==> (ParseBodyPlan(c, classes).Ok? && ParseAttributePlan(c).Ok?
        && SerializeBodyPlan(c, classes).Ok? && SerializeAttributesPlan(c).Ok?)
    ensures r.Err? && ParseBodyPlan(c, classes).Ok? && ParseAttributePlan(c).Ok? && SerializeBodyPlan(c, classes).Ok? ==>
      SerializeAttributesPlan(c) == Err(r.error)
    ensures ParseBodyPlan(c, classes).Err? ==> r == Err(ParseBodyPlan(c, classes).error)
    ensures ParseBodyPlan(c, classes).Ok? && ParseAttributePlan(c).Err? ==> r == Err(ParseAttributePlan(c).error)
    ensures ParseBodyPlan(c, classes).Ok? && ParseAttributePlan(c).Ok? && SerializeBodyPlan(c, classes).Err? ==>
      r == Err(SerializeBodyPlan(c, classes).error)
    ensures r.Ok? ==>
      r.value.implementsInterface == !c.inheritedFromSerializable
      && r.value.modifier == MethodModifierFor(c)
      && r.value.registration == RegistrationFor(c)
      && r.value.getNodeName == GetNodeNameFor(c)
      && Ok(r.value.parseBody) == ParseBodyPlan(c, classes)
      && Ok(r.value.parseAttribute) == ParseAttributePlan(c)
      && Ok(r.value.serializeBody) == SerializeBodyPlan(c, classes)
      && Ok(r.value.serializeAttributes) == SerializeAttributesPlan(c)
      && r.value.serialize == SerializePlan(c)
  {
    var parseBody :- ParseBodyPlan(c, classes);
    var parseAttribute :- ParseAttributePlan(c);
    var serializeBody :- SerializeBodyPlan(c, classes);
    var serializeAttributes :- SerializeAttributesPlan(c);
    Ok(ClassPlan(!c.inheritedFromSerializable, MethodModifierFor(c), RegistrationFor(c), GetNodeNameFor(c),
      parseBody, parseAttribute, serializeBody, serializeAttributes, SerializePlan(c)))
  }

  /** A class below a serializable base neither re-implements the interface nor writes its own node. */
  lemma DerivedClassDefersToBase(c: ClassInfo, classes: map<TypeId, ClassInfo>)
    requires c.inheritedFromSerializable && ClassPlanFor(c, classes).Ok?
    ensures var p := ClassPlanFor(c, classes).value;
      !p.implementsInterface && p.modifier == Override && p.serialize == NotEmitted
      && (p.parseAttribute.Generated? ==> p.parseAttribute.content.callsBase)
      && (p.serializeBody.Generated? ==> p.serializeBody.content.callsBase)
      && (p.serializeAttributes.Generated? ==> p.serializeAttributes.content.callsBase)
      && (p.parseBody.subBody.Generated? ==> p.parseBody.subBody.content.callsBase)
      && (p.parseBody.byNames.Generated? ==> p.parseBody.byNames.content.callsBase)
  {
  }
}
