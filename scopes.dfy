/**
 * The brace-and-indent scopes the generator writes code through: `NestedScope`, which opens one
 * block and is tracked on a shared stack, and `NestedClassScope`, which opens the partial
 * declarations of a class and of every class containing it.
 */
module Scopes {
  import opened Wrappers
  import opened Seqs
  import GenModel

  /** One written line with the indent level it was written at. */
  datatype Line = Line(indent: nat, text: string)

  /** Lowering the indent by one; the writer clamps it at zero. */
  function Dedented(indent: nat): (r: nat)
    ensures indent > 0 ==> r + 1 == indent
    ensures indent == 0 ==> r == 0
  {
    if indent == 0 then 0 else indent - 1
  }

  /** The writer, reduced to its indent level and the lines written so far. */
  class IndentedTextWriter {
    var indent: nat
    var lines: seq<Line>

    constructor ()
      ensures indent == 0 && lines == []
    {
      indent := 0;
      lines := [];
    }

    method WriteLine(text: string)
      modifies this
      ensures indent == old(indent) && lines == old(lines) + [Line(indent, text)]
    {
      lines := lines + [Line(indent, text)];
    }

    /** `Indent++`. */
    method IncreaseIndent()
      modifies this
      ensures indent == old(indent) + 1 && lines == old(lines)
    {
      indent := indent + 1;
    }

    /** `Indent--`. */
    method DecreaseIndent()
      modifies this
      ensures indent == Dedented(old(indent)) && lines == old(lines)
    {
      indent := Dedented(indent);
    }
  }

  // ---------------------------------------------------------------------------------------------
  // `NestedScope`.

  class NestedScope {
    const writer: IndentedTextWriter
    var shouldCloseOnDispose: bool

    constructor (writer: IndentedTextWriter)
      ensures this.writer == writer && shouldCloseOnDispose
    {
      this.writer := writer;
      shouldCloseOnDispose := true;
    }

    /** Opens a block: the scope name if given, then `{`, one level deeper, pushed on the stack. */
    static method Start(scopes: ScopeStack, writer: IndentedTextWriter, scopeName: Option<string>)
      returns (scope: NestedScope)
      modifies scopes, writer
      ensures fresh(scope) && scope.writer == writer && scope.shouldCloseOnDispose
      ensures scopes.stack == old(scopes.stack) + [scope]
      ensures writer.indent == old(writer.indent) + 1
      ensures writer.lines == old(writer.lines)
        + (if scopeName.Some? then [Line(old(writer.indent), scopeName.value)] else [])
        + [Line(old(writer.indent), "{")]
    {
      scope := new NestedScope(writer);
      scopes.Push(scope);
      if scopeName.Some? {
        writer.WriteLine(scopeName.value);
      }
      writer.WriteLine("{");
      writer.IncreaseIndent();
    }

    /** Closes the block: one level up, then `}`; a later `Dispose` no longer closes it. */
    method Close()
      modifies this, writer
      ensures !shouldCloseOnDispose
      ensures writer.indent == Dedented(old(writer.indent))
      ensures writer.lines == old(writer.lines) + [Line(writer.indent, "}")]
    {
      writer.DecreaseIndent();
      writer.WriteLine("}");
      shouldCloseOnDispose := false;
    }

    /**
     * Closes the block unless it was closed already, then pops the stack; `popped` is false when the
     * stack was empty (`Stack.Pop` throws).
     */
    method Dispose(scopes: ScopeStack) returns (popped: bool)
      modifies this, writer, scopes
      ensures !shouldCloseOnDispose
      ensures old(shouldCloseOnDispose) ==>
        writer.indent == Dedented(old(writer.indent)) && writer.lines == old(writer.lines) + [Line(writer.indent, "}")]
      ensures !old(shouldCloseOnDispose) ==> writer.indent == old(writer.indent) && writer.lines == old(writer.lines)
      ensures popped <==> old(scopes.stack) != []
      ensures popped ==> scopes.stack == old(scopes.stack)[..|old(scopes.stack)| - 1]
      ensures !popped ==> scopes.stack == []
    {
      if shouldCloseOnDispose {
        Close();
      }
      popped := scopes.Pop();
    }

    /** Closes the scope on top of the stack, leaving the stack as it is; false when it is empty. */
    static method CloseLast(scopes: ScopeStack) returns (found: bool)
      modifies scopes.TopFrame()
      ensures found <==> scopes.stack != []
      ensures found ==>
        var top := scopes.stack[|scopes.stack| - 1];
        !top.shouldCloseOnDispose
        && top.writer.indent == Dedented(old(top.writer.indent))
        && top.writer.lines == old(top.writer.lines) + [Line(top.writer.indent, "}")]
    {
      found := scopes.stack != [];
      if found {
        var top := scopes.stack[|scopes.stack| - 1];
        top.Close();
      }
    }
  }

  /** The static `Stack<NestedScope>`. */
  class ScopeStack {
    var stack: seq<NestedScope>

    constructor ()
      ensures stack == []
    {
      stack := [];
    }

    /** The objects `CloseLast` changes: the top scope and its writer. */
    function TopFrame(): set<object>
      reads this
    {
      if stack == [] then {} else {stack[|stack| - 1], stack[|stack| - 1].writer}
    }

    method Push(scope: NestedScope)
      modifies this
      ensures stack == old(stack) + [scope]
    {
      stack := stack + [scope];
    }

    method Pop() returns (popped: bool)
      modifies this
      ensures popped <==> old(stack) != []
      ensures stack == if popped then old(stack)[..|old(stack)| - 1] else old(stack)
    {
      popped := stack != [];
      if popped {
        stack := stack[..|stack| - 1];
      }
    }
  }

  /** The lines of a block body, written one level in. */
  function BodyLines(body: seq<string>, indent: nat): (r: seq<Line>)
    ensures |r| == |body|
    ensures forall i :: 0 <= i < |r| ==> r[i] == Line(indent, body[i])
  {
    seq(|body|, i requires 0 <= i < |body| => Line(indent, body[i]))
  }

  /**
   * `using (NestedScope.Start(...)) { ... }` with an optional `CloseLast` at the end of the body:
   * exactly one `}` is written, at the indent the block started at, the indent is restored and the
   * stack is as before.
   */
  method ScopedBlock(scopes: ScopeStack, writer: IndentedTextWriter, scopeName: Option<string>,
                     body: seq<string>, closeEarly: bool)
    modifies scopes, writer
    ensures scopes.stack == old(scopes.stack)
    ensures writer.indent == old(writer.indent)
    ensures writer.lines == old(writer.lines)
      + (if scopeName.Some? then [Line(old(writer.indent), scopeName.value)] else [])
      + [Line(old(writer.indent), "{")]
      + BodyLines(body, old(writer.indent) + 1)
      + [Line(old(writer.indent), "}")]
  {
    var scope := NestedScope.Start(scopes, writer, scopeName);
    ghost var afterOpen := writer.lines;
    for i := 0 to |body|
      invariant writer.indent == old(writer.indent) + 1
      invariant writer.lines == afterOpen + BodyLines(body[..i], old(writer.indent) + 1)
      invariant scopes.stack == old(scopes.stack) + [scope] && scope.shouldCloseOnDispose
    {
      writer.WriteLine(body[i]);
      assert BodyLines(body[..i + 1], old(writer.indent) + 1)
          == BodyLines(body[..i], old(writer.indent) + 1) + [Line(old(writer.indent) + 1, body[i])];
    }
    assert body[..|body|] == body;
    if closeEarly {
      var found := NestedScope.CloseLast(scopes);
    }
    var popped := scope.Dispose(scopes);
    assert old(scopes.stack) + [scope] == scopes.stack + [scope] by {
      assert (old(scopes.stack) + [scope])[..|old(scopes.stack)|] == old(scopes.stack);
    }
  }

  // ---------------------------------------------------------------------------------------------
  // `NestedClassScope`.

  /**
   * A named type whose partial declaration is opened; `accessibility` is the lower-cased name of its
   * declared accessibility, as Roslyn reports it.
   */
  datatype TypeDecl = TypeDecl(
    accessibility: string,
    isRefLike: bool,
    kind: GenModel.TypeKind,
    displayName: string)

  datatype ScopeError = UnhandledKind(kind: GenModel.TypeKind)

  /** `TypeKindToStr`: only classes and structs can be declared partial here. */
  function TypeKindToStr(kind: GenModel.TypeKind): (r: Result<string, ScopeError>)
    ensures r.Ok? <==> kind == GenModel.Class || kind == GenModel.Struct
    ensures r == Ok("class") <==> kind == GenModel.Class
    ensures r == Ok("struct") <==> kind == GenModel.Struct
    ensures r.Err? ==> r.error == UnhandledKind(kind)
  {
    match kind
    case Class => Ok("class")
    case Struct => Ok("struct")
    case _ => Err(UnhandledKind(kind))
  }

  /** `GetClsString`: `<accessibility> [ref ]partial <class|struct> <name after the last '.'>`. */
  function GetClsString(t: TypeDecl): (r: Result<string, ScopeError>)
    ensures r.Ok? <==> Declarable(t)
    ensures r.Err? ==> r == Err(UnhandledKind(t.kind))
    ensures r.Ok? ==> |r.value| > 1
  {
    var kind :- TypeKindToStr(t.kind);
    Ok(DeclarationText(t.accessibility, t.isRefLike, kind, GenModel.AfterLastDot(t.displayName)))
  }

  function DeclarationText(accessibility: string, isRefLike: bool, kind: string, name: string): (r: string)
    ensures |r| > 1 && |name| < |r| && r[|r| - |name|..] == name
  {
    var prefix := accessibility + " " + (if isRefLike then "ref " else "") + "partial " + kind + " ";
    assert (prefix + name)[|prefix|..] == name;
    prefix + name
  }

  /** The header of the class itself, with the interface when the class implements it. */
  function ClassHeader(t: TypeDecl, implementsInterface: bool): (r: Result<string, ScopeError>)
    ensures r.Ok? <==> Declarable(t)
    ensures r.Ok? ==> |r.value| > 1
  {
    var s :- GetClsString(t);
    Ok(s + (if implementsInterface then " : IXmlSerialization" else ""))
  }

  /** The lines opening the containing declarations (outermost first) and then the class. */
  function OpenLines(containing: seq<string>, header: string, indent: nat): seq<Line>
    decreases |containing|
  {
    if containing == [] then [Line(indent, header), Line(indent, "{")]
    else [Line(indent, containing[0]), Line(indent, "{")] + OpenLines(containing[1..], header, indent + 1)
  }

  /** The lines opening only the containing declarations. */
  function OpenContaining(containing: seq<string>, indent: nat): seq<Line>
    decreases |containing|
  {
    if containing == [] then []
    else [Line(indent, containing[0]), Line(indent, "{")] + OpenContaining(containing[1..], indent + 1)
  }

  /** `count` closing braces, each one level further out. */
  function CloseLines(count: nat, indent: nat): seq<Line>
    decreases count
  {
    if count == 0 then [] else [Line(Dedented(indent), "}")] + CloseLines(count - 1, Dedented(indent))
  }

  /** The indent after `count` decrements. */
  function DedentedBy(indent: nat, count: nat): nat
    decreases count
  {
    if count == 0 then indent else DedentedBy(Dedented(indent), count - 1)
  }

  function Reversed<T>(s: seq<T>): (r: seq<T>)
    ensures |r| == |s| && forall i :: 0 <= i < |s| ==> r[i] == s[|s| - 1 - i]
  {
    if s == [] then [] else Reversed(s[1..]) + [s[0]]
  }

  /** Only classes and structs get a partial declaration. */
  predicate Declarable(t: TypeDecl) {
    t.kind == GenModel.Class || t.kind == GenModel.Struct
  }

  predicate AllDeclarable(containing: seq<TypeDecl>) {
    forall i :: 0 <= i < |containing| ==> Declarable(containing[i])
  }

  /** The headers of the containing types, given nearest first, as the constructor stores them. */
  function ContainingHeaders(containing: seq<TypeDecl>): (r: seq<string>)
    requires AllDeclarable(containing)
    ensures |r| == |containing|
  {
    Reversed(seq(|containing|, i requires 0 <= i < |containing| => GetClsString(containing[i]).value))
  }

  class NestedClassScope {
    const writer: IndentedTextWriter
    /** The headers of the containing types, outermost first. */
    const containingClasses: seq<string>

    constructor Make(writer: IndentedTextWriter, containingClasses: seq<string>)
      ensures this.writer == writer && this.containingClasses == containingClasses
    {
      this.writer := writer;
      this.containingClasses := containingClasses;
    }

    /**
     * Opens the containing declarations and the class; fails (before writing anything) when a
     * containing type is neither a class nor a struct, or after opening them when the class is not.
     */
    static method Start(writer: IndentedTextWriter, cls: TypeDecl, containing: seq<TypeDecl>, implementsInterface: bool)
      returns (r: Result<NestedClassScope, ScopeError>)
      modifies writer
      ensures !AllDeclarable(containing) ==> r.Err? && writer.indent == old(writer.indent) && writer.lines == old(writer.lines)
      ensures AllDeclarable(containing) && !Declarable(cls) ==>
        r.Err? && writer.indent == old(writer.indent) + |containing|
        && writer.lines == old(writer.lines) + OpenContaining(ContainingHeaders(containing), old(writer.indent))
      ensures AllDeclarable(containing) && Declarable(cls) ==>
        r.Ok? && r.value.writer == writer && r.value.containingClasses == ContainingHeaders(containing)
        && (forall i :: 0 <= i < |containing| ==> |r.value.containingClasses[i]| > 1)
        && writer.indent == old(writer.indent) + |containing| + 1
        && writer.lines == old(writer.lines)
          + OpenLines(ContainingHeaders(containing), ClassHeader(cls, implementsInterface).value, old(writer.indent))
    {
      var collected := CollectHeaders(containing);
      if collected.Err? {
        return Err(collected.error);
      }
      var headers := collected.value;
      ghost var start := writer.indent;
      ghost var before := writer.lines;
      OpenContainingScopes(writer, headers);
      var header := ClassHeader(cls, implementsInterface);
      if header.Err? {
        return Err(header.error);
      }
      OpenBlock(writer, header.value);
      ghost var classLines := [Line(start + |headers|, header.value), Line(start + |headers|, "{")];
      OpenLinesSplit(headers, header.value, start);
      AppendAssoc(before, OpenContaining(headers, start), classLines);
      var scope := new NestedClassScope.Make(writer, headers);
      r := Ok(scope);
    }

    /** Closes the class and then every containing declaration. */
    method Dispose()
      modifies writer
      ensures writer.indent == DedentedBy(old(writer.indent), |containingClasses| + 1)
      ensures writer.lines == old(writer.lines) + CloseLines(|containingClasses| + 1, old(writer.indent))
    {
      writer.DecreaseIndent();
      writer.WriteLine("}");
      ghost var start := old(writer.indent);
      for k := 0 to |containingClasses|
        invariant writer.indent == DedentedBy(start, k + 1)
        invariant writer.lines == old(writer.lines) + CloseLines(k + 1, start)
      {
        writer.DecreaseIndent();
        writer.WriteLine("}");
        CloseLinesSnoc(k + 1, start);
      }
    }
  }

  /** A header line, `{`, and one level deeper. */
  method OpenBlock(writer: IndentedTextWriter, header: string)
    modifies writer
    ensures writer.indent == old(writer.indent) + 1
    ensures writer.lines == old(writer.lines) + [Line(old(writer.indent), header), Line(old(writer.indent), "{")]
  {
    writer.WriteLine(header);
    writer.WriteLine("{");
    writer.IncreaseIndent();
  }

  /** The constructor's walk outwards through the containing types, followed by `Reverse()`. */
  method CollectHeaders(containing: seq<TypeDecl>) returns (r: Result<seq<string>, ScopeError>)
    ensures r.Ok? <==> AllDeclarable(containing)
    ensures r.Ok? ==> r.value == ContainingHeaders(containing)
    ensures r.Ok? ==> forall i :: 0 <= i < |r.value| ==> |r.value[i]| > 1
  {
    var collected: seq<string> := [];
    var i := 0;
    while i < |containing|
      invariant 0 <= i <= |containing| && |collected| == i
      invariant forall j :: 0 <= j < i ==> Declarable(containing[j])
      invariant forall j :: 0 <= j < i ==> collected[j] == GetClsString(containing[j]).value && |collected[j]| > 1
    {
      var s := GetClsString(containing[i]);
      if s.Err? {
        return Err(s.error);
      }
      ghost var previous := collected;
      collected := collected + [s.value];
      assert forall j :: 0 <= j < i ==> collected[j] == previous[j];
      i := i + 1;
    }
    TextsCollected(containing, collected);
    r := Ok(Reversed(collected));
  }

  lemma TextsCollected(containing: seq<TypeDecl>, collected: seq<string>)
    requires AllDeclarable(containing) && |collected| == |containing|
    requires forall j :: 0 <= j < |containing| ==> collected[j] == GetClsString(containing[j]).value
    ensures seq(|containing|, i requires 0 <= i < |containing| => GetClsString(containing[i]).value) == collected
  {
  }

  /** Writes the header and `{` of each containing type, one level deeper each time. */
  method OpenContainingScopes(writer: IndentedTextWriter, headers: seq<string>)
    modifies writer
    ensures writer.indent == old(writer.indent) + |headers|
    ensures writer.lines == old(writer.lines) + OpenContaining(headers, old(writer.indent))
  {
    for k := 0 to |headers|
      invariant writer.indent == old(writer.indent) + k
      invariant writer.lines == old(writer.lines) + OpenContaining(headers[..k], old(writer.indent))
    {
      OpenBlock(writer, headers[k]);
      OpenContainingSnoc(headers[..k], headers[k], old(writer.indent));
      assert headers[..k + 1] == headers[..k] + [headers[k]];
    }
    assert headers[..|headers|] == headers;
  }

  lemma {:induction false} OpenContainingSnoc(containing: seq<string>, next: string, indent: nat)
    ensures OpenContaining(containing + [next], indent)
         == OpenContaining(containing, indent) + [Line(indent + |containing|, next), Line(indent + |containing|, "{")]
    decreases |containing|
  {
    if containing != [] {
      assert (containing + [next])[1..] == containing[1..] + [next];
      OpenContainingSnoc(containing[1..], next, indent + 1);
    }
  }

  lemma AppendAssoc(a: seq<Line>, b: seq<Line>, c: seq<Line>)
    ensures a + b + c == a + (b + c)
  {
  }

  lemma {:induction false} OpenLinesSplit(containing: seq<string>, header: string, indent: nat)
    ensures OpenLines(containing, header, indent)
         == OpenContaining(containing, indent) + [Line(indent + |containing|, header), Line(indent + |containing|, "{")]
    decreases |containing|
  {
    if containing != [] {
      OpenLinesSplit(containing[1..], header, indent + 1);
    }
  }

  lemma {:induction false} CloseLinesSnoc(count: nat, indent: nat)
    ensures CloseLines(count + 1, indent)
         == CloseLines(count, indent) + [Line(DedentedBy(indent, count + 1), "}")]
    ensures DedentedBy(indent, count + 1) == Dedented(DedentedBy(indent, count))
    decreases count
  {
    if count > 0 {
      CloseLinesSnoc(count - 1, Dedented(indent));
    }
  }

  /** The number of lines with the given text. */
  function CountText(lines: seq<Line>, text: string): nat {
    |Filter(lines, (l: Line) => l.text == text)|
  }

  lemma CountTextConcat(a: seq<Line>, b: seq<Line>, text: string)
    ensures CountText(a + b, text) == CountText(a, text) + CountText(b, text)
  {
    FilterConcat(a, b, (l: Line) => l.text == text);
  }

  lemma CountTextSingle(l: Line, text: string)
    ensures CountText([l], text) == if l.text == text then 1 else 0
  {
    assert [l][1..] == [];
  }

  /** A header longer than one character is never the brace line. */
  lemma {:induction false} OpenCount(containing: seq<string>, header: string, indent: nat)
    requires forall i :: 0 <= i < |containing| ==> |containing[i]| > 1
    requires |header| > 1
    ensures CountText(OpenLines(containing, header, indent), "{") == |containing| + 1
    decreases |containing|
  {
    var name := if containing == [] then header else containing[0];
    var pair := [Line(indent, name), Line(indent, "{")];
    assert name != "{" by { assert |name| > 1; }
    assert pair == [Line(indent, name)] + [Line(indent, "{")];
    CountTextConcat([Line(indent, name)], [Line(indent, "{")], "{");
    CountTextSingle(Line(indent, name), "{");
    CountTextSingle(Line(indent, "{"), "{");
    if containing != [] {
      OpenCount(containing[1..], header, indent + 1);
      CountTextConcat(pair, OpenLines(containing[1..], header, indent + 1), "{");
    }
  }

  /** The class scope opens `|containing| + 1` braces; the indent it reaches closes exactly as many. */
  lemma ClassScopeBalanced(containing: seq<string>, header: string, indent: nat)
    requires forall i :: 0 <= i < |containing| ==> |containing[i]| > 1
    requires |header| > 1
    ensures CountText(OpenLines(containing, header, indent), "{") == |containing| + 1
    ensures CountText(CloseLines(|containing| + 1, indent + |containing| + 1), "}") == |containing| + 1
    ensures DedentedBy(indent + |containing| + 1, |containing| + 1) == indent
  {
    OpenCount(containing, header, indent);
    CloseCount(|containing| + 1, indent + |containing| + 1);
  }

  lemma {:induction false} CloseCount(count: nat, indent: nat)
    requires count <= indent
    ensures CountText(CloseLines(count, indent), "}") == count
    ensures DedentedBy(indent, count) == indent - count
    decreases count
  {
    if count > 0 {
      CloseCount(count - 1, indent - 1);
      FilterConcat([Line(indent - 1, "}")], CloseLines(count - 1, indent - 1), (l: Line) => l.text == "}");
    }
  }
}
