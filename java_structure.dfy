/** The structure preview parser (`src/parser/java_structure.rs`): from a
    syntax tree of a Java file it extracts the package, the imports, the
    file-level annotations and, for every class, interface, enum, record or
    annotation type, its modifiers, annotations with normalised values,
    inheritance, type parameters, fields, methods with parameters and
    thrown types, nested classes and Javadoc. Node kinds are compared as
    strings, as the source does. */
module JavaStructure {
  import opened Strings
  import opened SyntaxTree

  /** The five kinds of type declaration (`ClassKind`; its `Annotation`
      variant is `AnnotationType` here). */
  datatype ClassKind = Class | Interface | Enum | Record | AnnotationType

  /** A one-based line and column span. */
  datatype SourceRange = SourceRange(startLine: nat, startColumn: nat, endLine: nat, endColumn: nat)

  datatype Annotation = Annotation(name: string, values: seq<(string, string)>, range: SourceRange)

  datatype ParameterStructure = ParameterStructure(name: string, typeName: string, annotations: seq<Annotation>)

  datatype FieldStructure = FieldStructure(
    name: string,
    typeName: string,
    modifiers: seq<string>,
    annotations: seq<Annotation>,
    documentation: Option<string>)

  datatype MethodStructure = MethodStructure(
    name: string,
    returnType: string,
    parameters: seq<ParameterStructure>,
    modifiers: seq<string>,
    annotations: seq<Annotation>,
    typeParameters: seq<string>,
    throws: seq<string>,
    range: SourceRange,
    documentation: Option<string>)

  datatype ClassStructure = ClassStructure(
    name: string,
    fqn: string,
    kind: ClassKind,
    modifiers: seq<string>,
    annotations: seq<Annotation>,
    extendsClass: Option<string>,
    implements: seq<string>,
    typeParameters: seq<string>,
    fields: seq<FieldStructure>,
    methods: seq<MethodStructure>,
    nestedClasses: seq<ClassStructure>,
    range: SourceRange,
    documentation: Option<string>)

  /** The preview of a whole file; the file metadata is not modelled. */
  datatype JavaStructurePreview = JavaStructurePreview(
    package: Option<string>,
    imports: seq<string>,
    topLevelClasses: seq<ClassStructure>,
    fileAnnotations: seq<Annotation>)

  // `node_text` is `SyntaxTree.Text`: the node's slice of the source, or ""
  // when the span is not inside it.

  /** `node_range`: tree-sitter's zero-based rows and columns made one-based,
      by the same conversion as `JavaParser.GetSourceRange`. */
  function NodeRange(n: Node): (r: SourceRange)
    ensures r.startLine == n.startPosition.row + 1 && r.startColumn == n.startPosition.column + 1
    ensures r.endLine == n.endPosition.row + 1 && r.endColumn == n.endPosition.column + 1
  {
    SourceRange(LineOf(n.startPosition), ColumnOf(n.startPosition), LineOf(n.endPosition), ColumnOf(n.endPosition))
  }

  /** `build_fqn`: the package, a dot and the name; just the name without
      a package. */
  function BuildFqn(package: Option<string>, name: string): (r: string)
    ensures package.None? ==> r == name
    ensures package.Some? ==>
      StartsWith(r, package.value + ".") && EndsWith(r, name) && |r| == |package.value| + 1 + |name|
  {
    match package
    case None => name
    case Some(p) =>
      assert (p + "." + name)[..|p + "."|] == p + ".";
      assert (p + "." + name)[|p + "."|..] == name;
      p + "." + name
  }

  /** The fully qualified name determines the name once the package is
      known. */
  lemma BuildFqnInjective(package: Option<string>, a: string, b: string)
    requires BuildFqn(package, a) == BuildFqn(package, b)
    ensures a == b
  {
    if package.Some? {
      var n := |package.value| + 1;
      assert a == BuildFqn(package, a)[n..];
      assert b == BuildFqn(package, b)[n..];
    }
  }

  // ---------------------------------------------------------------------
  // Declaration kinds

  /** The kind string of each class kind. */
  function ClassKindString(k: ClassKind): string {
    match k
    case Class => "class_declaration"
    case Interface => "interface_declaration"
    case Enum => "enum_declaration"
    case Record => "record_declaration"
    case AnnotationType => "annotation_type_declaration"
  }

  /** The match at the head of `parse_class`. */
  function ClassKindOf(kind: string): Option<ClassKind> {
    if kind == "class_declaration" then Some(Class)
    else if kind == "interface_declaration" then Some(Interface)
    else if kind == "enum_declaration" then Some(Enum)
    else if kind == "record_declaration" then Some(Record)
    else if kind == "annotation_type_declaration" then Some(AnnotationType)
    else None
  }

  /** The five kind strings and the five class kinds correspond one to one. */
  lemma ClassKindRoundTrip(kind: string, k: ClassKind)
    ensures ClassKindOf(kind) == Some(k) <==> kind == ClassKindString(k)
  {
  }

  // ---------------------------------------------------------------------
  // Package and imports

  /** Index of the first node of the given kind. */
  function FirstOfKind(cs: seq<Node>, kind: string): (r: Option<nat>)
    ensures r.Some? ==> r.value < |cs| && cs[r.value].kind == kind
    ensures r.Some? ==> forall j :: 0 <= j < r.value ==> cs[j].kind != kind
    ensures r.None? ==> forall j :: 0 <= j < |cs| ==> cs[j].kind != kind
  {
    if cs == [] then None
    else if cs[0].kind == kind then Some(0)
    else match FirstOfKind(cs[1..], kind)
      case None => None
      case Some(i) => Some(i + 1)
  }

  /** What `extract_package` returns: the trimmed text of the first
      `scoped_identifier` directly under the first package declaration that
      has one. */
  function PackageIn(cs: seq<Node>, src: string): Option<string> {
    PackageFrom(cs, src, 0)
  }

  /** `PackageIn` over the children from index `i` on. */
  function PackageFrom(cs: seq<Node>, src: string, i: nat): Option<string>
    decreases |cs| - i
  {
    if i >= |cs| then None
    else if cs[i].kind == "package_declaration" then
      match FirstOfKind(cs[i].children, "scoped_identifier")
      case Some(j) => Some(Trim(Text(cs[i].children[j], src)))
      case None => PackageFrom(cs, src, i + 1)
    else PackageFrom(cs, src, i + 1)
  }

  /** The scan inside `extract_package`: the index of the first child of the
      given kind. */
  method FindFirstOfKind(cs: seq<Node>, kind: string) returns (r: Option<nat>)
    ensures r == FirstOfKind(cs, kind)
  {
    var j := 0;
    while j < |cs|
      invariant j <= |cs|
      invariant forall k :: 0 <= k < j ==> cs[k].kind != kind
    {
      if cs[j].kind == kind {
        assert FirstOfKind(cs, kind) == Some(j);
        return Some(j);
      }
      j := j + 1;
    }
    assert FirstOfKind(cs, kind).None?;
    return None;
  }

  /** `extract_package`. */
  method ExtractPackage(root: Node, src: string) returns (package: Option<string>)
    ensures package == PackageIn(root.children, src)
  {
    var cs := root.children;
    var i := 0;
    while i < |cs|
      invariant i <= |cs|
      invariant PackageFrom(cs, src, i) == PackageIn(cs, src)
    {
      if cs[i].kind == "package_declaration" {
        var found := FindFirstOfKind(cs[i].children, "scoped_identifier");
        if found.Some? {
          return Some(Trim(Text(cs[i].children[found.value], src)));
        }
      }
      i := i + 1;
    }
    return None;
  }

  /** The package is absent exactly when no package declaration has a
      `scoped_identifier` child, so a one-word package such as `package foo;`
      (an `identifier`) gives none; otherwise it is the trimmed text of one. */
  lemma PackageSpec(cs: seq<Node>, src: string)
    ensures PackageIn(cs, src).None? <==>
      forall i :: 0 <= i < |cs| && cs[i].kind == "package_declaration" ==>
        FirstOfKind(cs[i].children, "scoped_identifier").None?
    ensures PackageIn(cs, src).Some? ==>
      exists i, j :: 0 <= i < |cs| && cs[i].kind == "package_declaration" &&
        0 <= j < |cs[i].children| && cs[i].children[j].kind == "scoped_identifier" &&
        PackageIn(cs, src).value == Trim(Text(cs[i].children[j], src))
  {
    PackageFromSpec(cs, src, 0);
  }

  /** `PackageSpec` for the children from index `s` on. */
  lemma {:induction false} PackageFromSpec(cs: seq<Node>, src: string, s: nat)
    ensures PackageFrom(cs, src, s).None? <==>
      forall i :: s <= i < |cs| && cs[i].kind == "package_declaration" ==>
        FirstOfKind(cs[i].children, "scoped_identifier").None?
    ensures PackageFrom(cs, src, s).Some? ==>
      exists i, j :: s <= i < |cs| && cs[i].kind == "package_declaration" &&
        0 <= j < |cs[i].children| && cs[i].children[j].kind == "scoped_identifier" &&
        PackageFrom(cs, src, s).value == Trim(Text(cs[i].children[j], src))
    decreases |cs| - s
  {
    if s < |cs| {
      PackageFromSpec(cs, src, s + 1);
      if cs[s].kind == "package_declaration" && FirstOfKind(cs[s].children, "scoped_identifier").Some? {
        var j := FirstOfKind(cs[s].children, "scoped_identifier").value;
        assert PackageFrom(cs, src, s).value == Trim(Text(cs[s].children[j], src));
      }
    }
  }

  /** The import named by one root child: the `name` field's text of an
      import declaration. */
  function ImportOf(n: Node, src: string): Option<string> {
    if n.kind == "import_declaration" && ChildByFieldName(n, "name").Some?
    then Some(Text(ChildByFieldName(n, "name").value, src)) else None
  }

  /** The value of an optional as a sequence of at most one element. */
  function OptSeq<T>(o: Option<T>): (r: seq<T>)
    ensures o.Some? ==> r == [o.value]
    ensures o.None? ==> r == []
  {
    if o.Some? then [o.value] else []
  }

  /** What `extract_imports` returns: the import of every child that names
      one, in order. */
  function ImportsIn(cs: seq<Node>, src: string): seq<string>
    decreases |cs|
  {
    if cs == [] then [] else ImportsIn(cs[..|cs| - 1], src) + OptSeq(ImportOf(cs[|cs| - 1], src))
  }

  /** `extract_imports`. */
  method ExtractImports(root: Node, src: string) returns (imports: seq<string>)
    ensures imports == ImportsIn(root.children, src)
  {
    var cs := root.children;
    imports := [];
    var i := 0;
    while i < |cs|
      invariant i <= |cs|
      invariant imports == ImportsIn(cs[..i], src)
    {
      assert cs[..i + 1][..i] == cs[..i];
      if cs[i].kind == "import_declaration" {
        var nameNode := ChildByFieldName(cs[i], "name");
        if nameNode.Some? {
          imports := imports + [Text(nameNode.value, src)];
        }
      }
      i := i + 1;
    }
    assert cs[..i] == cs;
  }

  /** Every import is the name of an import declaration, at most one per
      child, and every import declaration with a name contributes it. */
  lemma ImportsSpec(cs: seq<Node>, src: string)
    ensures |ImportsIn(cs, src)| <= |cs|
    ensures forall x :: x in ImportsIn(cs, src) <==> exists i :: 0 <= i < |cs| && ImportOf(cs[i], src) == Some(x)
  {
    ImportsSound(cs, src);
    ImportsComplete(cs, src);
    forall x | exists i :: 0 <= i < |cs| && ImportOf(cs[i], src) == Some(x)
      ensures x in ImportsIn(cs, src)
    {
      var i :| 0 <= i < |cs| && ImportOf(cs[i], src) == Some(x);
    }
  }

  /** Every import comes from a child, at most one per child. */
  lemma {:induction false} ImportsSound(cs: seq<Node>, src: string)
    ensures |ImportsIn(cs, src)| <= |cs|
    ensures forall x :: x in ImportsIn(cs, src) ==> exists i :: 0 <= i < |cs| && ImportOf(cs[i], src) == Some(x)
    decreases |cs|
  {
    if cs != [] {
      var init := cs[..|cs| - 1];
      var o := ImportOf(cs[|cs| - 1], src);
      var prev := ImportsIn(init, src);
      var all := ImportsIn(cs, src);
      ImportsSound(init, src);
      assert all == prev + OptSeq(o);
      forall x | x in all
        ensures exists i :: 0 <= i < |cs| && ImportOf(cs[i], src) == Some(x)
      {
        OptSeqMember(all, prev, o, x);
        if x in prev {
          var i :| 0 <= i < |init| && ImportOf(init[i], src) == Some(x);
          assert init[i] == cs[i];
        } else {
          assert ImportOf(cs[|cs| - 1], src) == Some(x);
        }
      }
    }
  }

  /** Every child that names an import contributes it. */
  lemma {:induction false} ImportsComplete(cs: seq<Node>, src: string)
    ensures forall i :: 0 <= i < |cs| && ImportOf(cs[i], src).Some? ==> ImportOf(cs[i], src).value in ImportsIn(cs, src)
    decreases |cs|
  {
    if cs != [] {
      var init := cs[..|cs| - 1];
      var o := ImportOf(cs[|cs| - 1], src);
      var prev := ImportsIn(init, src);
      var all := ImportsIn(cs, src);
      ImportsComplete(init, src);
      assert all == prev + OptSeq(o);
      forall i | 0 <= i < |cs| && ImportOf(cs[i], src).Some?
        ensures ImportOf(cs[i], src).value in all
      {
        OptSeqMember(all, prev, o, ImportOf(cs[i], src).value);
        if i < |init| {
          assert init[i] == cs[i];
        }
      }
    }
  }

  /** What appending the value of `o` to `xs` holds. */
  lemma OptSeqMember<T>(ys: seq<T>, xs: seq<T>, o: Option<T>, x: T)
    requires ys == xs + OptSeq(o)
    ensures x in ys <==> x in xs || o == Some(x)
  {
  }

  // ---------------------------------------------------------------------
  // Annotations

  predicate IsAnnotationNode(n: Node) {
    n.kind == "annotation" || n.kind == "marker_annotation"
  }

  /** The first piece of `text.split(|c| c == '(' || c.is_whitespace())`:
      the longest prefix holding neither an opening parenthesis nor
      whitespace. */
  function FirstPiece(s: string): (r: string)
    ensures StartsWith(s, r)
    ensures forall k :: 0 <= k < |r| ==> r[k] != '(' && !IsSpace(r[k])
    ensures |r| < |s| ==> s[|r|] == '(' || IsSpace(s[|r|])
  {
    if s == [] || s[0] == '(' || IsSpace(s[0]) then []
    else
      var rest := FirstPiece(s[1..]);
      assert ([s[0]] + rest)[1..] == rest;
      [s[0]] + rest
  }

  /** The name `parse_annotation` gives an annotation node: a marker
      annotation's trimmed text without its leading `@`s; a regular
      annotation's `name` field, or else the first piece of its text
      without its leading `@`s. */
  function AnnotationName(n: Node, src: string): string {
    if n.kind == "marker_annotation" then TrimStartMatches(Trim(Text(n, src)), "@")
    else match ChildByFieldName(n, "name")
      case Some(nameNode) => Text(nameNode, src)
      case None => TrimStartMatches(FirstPiece(Text(n, src)), "@")
  }

  /** The literal kinds `extract_annotation_values` records as a bare value. */
  const LiteralKinds: set<string> := {"string_literal", "number_literal", "true", "false", "null"}

  /** The punctuation the fallback case of `extract_annotation_values`
      skips; a closing brace is not among it. */
  const Punctuation: set<string> := {"(", ")", ",", "{"}

  /** The values an array initializer contributes: each string literal or
      identifier element, under the key "value". */
  function ArrayValues(cs: seq<Node>, src: string): seq<(string, string)>
    decreases |cs|
  {
    if cs == [] then []
    else
      var last := cs[|cs| - 1];
      ArrayValues(cs[..|cs| - 1], src) +
        (if last.kind == "string_literal" || last.kind == "identifier" then [("value", Text(last, src))] else [])
  }

  /** The values one child of an annotation's argument list contributes. */
  function ArgumentValue(child: Node, src: string): seq<(string, string)> {
    if child.kind == "element_value_pair" then
      match ChildByFieldName(child, "key")
      case None => []
      case Some(key) =>
        match ChildByFieldName(child, "value")
        case None => []
        case Some(value) => [(Text(key, src), Text(value, src))]
    else if child.kind in LiteralKinds || child.kind == "identifier" then [("value", Text(child, src))]
    else if child.kind == "element_value_array_initializer" then ArrayValues(child.children, src)
    else
      var t := Trim(Text(child, src));
      if t != "" && t !in Punctuation then [("value", t)] else []
  }

  /** The values of a whole argument list, in order. */
  function ArgumentValues(cs: seq<Node>, src: string): seq<(string, string)>
    decreases |cs|
  {
    if cs == [] then [] else ArgumentValues(cs[..|cs| - 1], src) + ArgumentValue(cs[|cs| - 1], src)
  }

  /** The values of an annotation without an argument list: its literal
      children. */
  function LiteralValues(cs: seq<Node>, src: string): seq<(string, string)>
    decreases |cs|
  {
    if cs == [] then []
    else
      var last := cs[|cs| - 1];
      LiteralValues(cs[..|cs| - 1], src) + (if last.kind in LiteralKinds then [("value", Text(last, src))] else [])
  }

  /** What `extract_annotation_values` returns. */
  function ValuesOf(n: Node, src: string): seq<(string, string)> {
    match ChildByFieldName(n, "arguments")
    case Some(arguments) => ArgumentValues(arguments.children, src)
    case None => LiteralValues(n.children, src)
  }

  /** What `parse_annotation` returns: an annotation for exactly the two
      annotation kinds. */
  function AnnotationOf(n: Node, src: string): Option<Annotation> {
    if IsAnnotationNode(n) then Some(Annotation(AnnotationName(n, src), ValuesOf(n, src), NodeRange(n))) else None
  }

  /** One more argument appends its values. */
  lemma ArgumentValuesStep(cs: seq<Node>, i: nat, src: string)
    requires i < |cs|
    ensures ArgumentValues(cs[..i + 1], src) == ArgumentValues(cs[..i], src) + ArgumentValue(cs[i], src)
  {
    assert cs[..i + 1][..i] == cs[..i];
  }

  /** One more child appends its value when it is a literal. */
  lemma LiteralValuesStep(cs: seq<Node>, i: nat, src: string)
    requires i < |cs|
    ensures LiteralValues(cs[..i + 1], src) ==
      LiteralValues(cs[..i], src) + (if cs[i].kind in LiteralKinds then [("value", Text(cs[i], src))] else [])
  {
    assert cs[..i + 1][..i] == cs[..i];
  }

  /** The body of `extract_annotation_values`' loop over the argument list:
      the values one argument contributes. */
  method ExtractArgumentValue(child: Node, src: string) returns (values: seq<(string, string)>)
    ensures values == ArgumentValue(child, src)
  {
    values := [];
    if child.kind == "element_value_pair" {
      var key := ChildByFieldName(child, "key");
      if key.Some? {
        var value := ChildByFieldName(child, "value");
        if value.Some? {
          values := [(Text(key.value, src), Text(value.value, src))];
        }
      }
    } else if child.kind in LiteralKinds || child.kind == "identifier" {
      values := [("value", Text(child, src))];
    } else if child.kind == "element_value_array_initializer" {
      var elements := child.children;
      var j := 0;
      while j < |elements|
        invariant j <= |elements|
        invariant values == ArrayValues(elements[..j], src)
      {
        assert elements[..j + 1][..j] == elements[..j];
        if elements[j].kind == "string_literal" || elements[j].kind == "identifier" {
          values := values + [("value", Text(elements[j], src))];
        }
        j := j + 1;
      }
      assert elements[..j] == elements;
    } else {
      var t := Trim(Text(child, src));
      if t != "" && t !in Punctuation {
        values := [("value", t)];
      }
    }
  }

  /** `extract_annotation_values`. */
  method ExtractAnnotationValues(n: Node, src: string) returns (values: seq<(string, string)>)
    ensures values == ValuesOf(n, src)
  {
    values := [];
    var arguments := ChildByFieldName(n, "arguments");
    if arguments.Some? {
      var cs := arguments.value.children;
      var i := 0;
      while i < |cs|
        invariant i <= |cs|
        invariant values == ArgumentValues(cs[..i], src)
      {
        ArgumentValuesStep(cs, i, src);
        var vs := ExtractArgumentValue(cs[i], src);
        values := values + vs;
        i := i + 1;
      }
      assert cs[..i] == cs;
    } else {
      var cs := n.children;
      var i := 0;
      while i < |cs|
        invariant i <= |cs|
        invariant values == LiteralValues(cs[..i], src)
      {
        LiteralValuesStep(cs, i, src);
        if cs[i].kind in LiteralKinds {
          values := values + [("value", Text(cs[i], src))];
        }
        i := i + 1;
      }
      assert cs[..i] == cs;
    }
  }

  /** `parse_annotation`. */
  method ParseAnnotation(n: Node, src: string) returns (annotation: Option<Annotation>)
    ensures annotation == AnnotationOf(n, src)
  {
    if n.kind != "annotation" && n.kind != "marker_annotation" {
      return None;
    }
    var name;
    if n.kind == "marker_annotation" {
      name := TrimStartMatches(Trim(Text(n, src)), "@");
    } else {
      var nameNode := ChildByFieldName(n, "name");
      if nameNode.Some? {
        name := Text(nameNode.value, src);
      } else {
        name := TrimStartMatches(FirstPiece(Text(n, src)), "@");
      }
    }
    var values := ExtractAnnotationValues(n, src);
    return Some(Annotation(name, values, NodeRange(n)));
  }

  /** Exactly the two annotation kinds give an annotation, spanning the
      node; a name taken from the text never keeps a leading `@`. */
  lemma AnnotationSpec(n: Node, src: string)
    ensures AnnotationOf(n, src).Some? <==> IsAnnotationNode(n)
    ensures AnnotationOf(n, src).Some? ==> AnnotationOf(n, src).value.range == NodeRange(n)
    ensures AnnotationOf(n, src).Some? && (n.kind == "marker_annotation" || ChildByFieldName(n, "name").None?) ==>
      !StartsWith(AnnotationOf(n, src).value.name, "@")
  {
  }

  /** `TrimStartMatches` of a single `@` in front of a name that does not
      itself start with `@` gives back the name. */
  lemma TrimAt(w: string)
    requires !StartsWith(w, "@")
    ensures TrimStartMatches("@" + w, "@") == w
  {
    StartsWithAppend("@", w);
    assert ("@" + w)[1..] == w;
  }

  /** `@Name` as a marker annotation is named `Name`. */
  lemma MarkerAnnotationName(n: Node, src: string, w: string)
    requires n.kind == "marker_annotation" && Text(n, src) == "@" + w
    requires w != [] && Trimmed(w) && !StartsWith(w, "@")
    ensures AnnotationOf(n, src).Some? && AnnotationOf(n, src).value.name == w
  {
    assert Trimmed("@" + w);
    TrimOfTrimmed("@" + w);
    TrimAt(w);
  }

  /** `@Name(...)` without a `name` field is named `Name` from its text. */
  lemma {:induction false} AnnotationFallbackName(n: Node, src: string, w: string, rest: string)
    requires n.kind == "annotation" && ChildByFieldName(n, "name").None?
    requires Text(n, src) == "@" + w + "(" + rest
    requires forall k :: 0 <= k < |w| ==> w[k] != '(' && !IsSpace(w[k])
    requires !StartsWith(w, "@")
    ensures AnnotationOf(n, src).Some? && AnnotationOf(n, src).value.name == w
  {
    var t := "@" + w + "(" + rest;
    FirstPieceOf("@" + w, rest);
    assert t == ("@" + w) + "(" + rest;
    TrimAt(w);
  }

  lemma {:induction false} FirstPieceOf(w: string, rest: string)
    requires forall k :: 0 <= k < |w| ==> w[k] != '(' && !IsSpace(w[k])
    ensures FirstPiece(w + "(" + rest) == w
  {
    var s := w + "(" + rest;
    assert s[..|w|] == w && s[|w|] == '(';
  }

  /** Keys other than the ones of name-value pairs are "value"; a value
      taken from the fallback case is non-empty, trimmed and not
      punctuation; a name-value pair gives at most one entry, and one
      exactly when it has both a key and a value. */
  lemma ArgumentValueSpec(child: Node, src: string)
    ensures child.kind == "element_value_pair" ==>
      (ArgumentValue(child, src) != [] <==> ChildByFieldName(child, "key").Some? && ChildByFieldName(child, "value").Some?) &&
      |ArgumentValue(child, src)| <= 1
    ensures child.kind != "element_value_pair" ==> forall p :: p in ArgumentValue(child, src) ==> p.0 == "value"
    ensures child.kind !in LiteralKinds + {"element_value_pair", "identifier", "element_value_array_initializer"} ==>
      forall p :: p in ArgumentValue(child, src) ==> p.1 != "" && Trimmed(p.1) && p.1 !in Punctuation
  {
    if child.kind == "element_value_array_initializer" {
      ArrayValuesKeys(child.children, src);
    }
  }

  lemma {:induction false} ArrayValuesKeys(cs: seq<Node>, src: string)
    ensures |ArrayValues(cs, src)| <= |cs|
    ensures forall p :: p in ArrayValues(cs, src) ==> p.0 == "value"
    decreases |cs|
  {
    if cs != [] {
      ArrayValuesKeys(cs[..|cs| - 1], src);
    }
  }

  /** Every key of an argument list is "value" or the key text of one of
      its name-value pairs. */
  lemma {:induction false} ArgumentValuesKeys(cs: seq<Node>, src: string)
    ensures forall p :: p in ArgumentValues(cs, src) ==> p.0 == "value" || exists i :: 0 <= i < |cs| && PairKey(cs[i], src) == Some(p.0)
    decreases |cs|
  {
    if cs != [] {
      var init := cs[..|cs| - 1];
      var last := cs[|cs| - 1];
      ArgumentValuesKeys(init, src);
      ArgumentValueSpec(last, src);
      forall p | p in ArgumentValues(cs, src)
        ensures p.0 == "value" || exists i :: 0 <= i < |cs| && PairKey(cs[i], src) == Some(p.0)
      {
        if p in ArgumentValues(init, src) {
          if p.0 != "value" {
            var i :| 0 <= i < |init| && PairKey(init[i], src) == Some(p.0);
            assert init[i] == cs[i];
          }
        } else if last.kind == "element_value_pair" {
          assert PairKey(cs[|cs| - 1], src) == Some(p.0);
        }
      }
    }
  }

  /** The key text of a name-value pair that has a key and a value. */
  function PairKey(child: Node, src: string): Option<string> {
    if child.kind == "element_value_pair" && ChildByFieldName(child, "key").Some? && ChildByFieldName(child, "value").Some?
    then Some(Text(ChildByFieldName(child, "key").value, src)) else None
  }

  /** Without an argument list every literal child gives one "value", in
      order. */
  lemma {:induction false} LiteralValuesSpec(cs: seq<Node>, src: string)
    requires forall i :: 0 <= i < |cs| ==> cs[i].kind in LiteralKinds
    ensures |LiteralValues(cs, src)| == |cs|
    ensures forall i :: 0 <= i < |cs| ==> LiteralValues(cs, src)[i] == ("value", Text(cs[i], src))
    decreases |cs|
  {
    if cs != [] {
      var init := cs[..|cs| - 1];
      assert forall i :: 0 <= i < |init| ==> init[i] == cs[i];
      LiteralValuesSpec(init, src);
      assert LiteralValues(cs, src) == LiteralValues(init, src) + [("value", Text(cs[|cs| - 1], src))];
    }
  }

  // ---------------------------------------------------------------------
  // File annotations

  /** The annotations of a sequence of nodes, each parsed on its own. */
  function AnnotationsOfNodes(cs: seq<Node>, src: string): seq<Annotation>
    decreases |cs|
  {
    if cs == [] then [] else AnnotationsOfNodes(cs[..|cs| - 1], src) + OptSeq(AnnotationOf(cs[|cs| - 1], src))
  }

  /** `extract_file_annotations`: the annotations directly under the root. */
  method ExtractFileAnnotations(root: Node, src: string) returns (annotations: seq<Annotation>)
    ensures annotations == AnnotationsOfNodes(root.children, src)
  {
    var cs := root.children;
    annotations := [];
    var i := 0;
    while i < |cs|
      invariant i <= |cs|
      invariant annotations == AnnotationsOfNodes(cs[..i], src)
    {
      assert cs[..i + 1][..i] == cs[..i];
      var annotation := ParseAnnotation(cs[i], src);
      if annotation.Some? {
        annotations := annotations + [annotation.value];
      }
      i := i + 1;
    }
    assert cs[..i] == cs;
  }

  /** Number of annotation nodes in a sequence. */
  function AnnotationNodeCount(cs: seq<Node>): nat
    decreases |cs|
  {
    if cs == [] then 0 else AnnotationNodeCount(cs[..|cs| - 1]) + (if IsAnnotationNode(cs[|cs| - 1]) then 1 else 0)
  }

  /** No annotation node is dropped and nothing else is taken: one
      annotation per annotation node, each spanning its node. */
  lemma {:induction false} AnnotationsOfNodesSpec(cs: seq<Node>, src: string)
    ensures |AnnotationsOfNodes(cs, src)| == AnnotationNodeCount(cs)
    ensures forall a :: a in AnnotationsOfNodes(cs, src) ==>
      exists i :: 0 <= i < |cs| && IsAnnotationNode(cs[i]) && a.range == NodeRange(cs[i])
    decreases |cs|
  {
    if cs != [] {
      var init := cs[..|cs| - 1];
      AnnotationsOfNodesSpec(init, src);
      forall a | a in AnnotationsOfNodes(cs, src)
        ensures exists i :: 0 <= i < |cs| && IsAnnotationNode(cs[i]) && a.range == NodeRange(cs[i])
      {
        if a in AnnotationsOfNodes(init, src) {
          var i :| 0 <= i < |init| && IsAnnotationNode(init[i]) && a.range == NodeRange(init[i]);
          assert init[i] == cs[i];
        } else {
          assert a.range == NodeRange(cs[|cs| - 1]);
        }
      }
    }
  }

  // ---------------------------------------------------------------------
  // Modifiers

  /** The keyword kinds `extract_modifiers` records by their text. */
  const ModifierKeywords: set<string> :=
    {"public", "private", "protected", "static", "final", "abstract",
     "synchronized", "volatile", "transient", "native", "strictfp"}

  /** The modifier one child of a `modifiers` node gives: a keyword's
      non-empty text; nothing for an annotation; any other token's
      untrimmed text unless it is blank or starts with `@` once trimmed. */
  function ModifierOf(m: Node, src: string): (r: Option<string>)
    ensures r.Some? ==> r.value == Text(m, src) && r.value != ""
    ensures r.Some? && m.kind !in ModifierKeywords ==> Trim(r.value) != "" && !StartsWith(Trim(r.value), "@")
    ensures IsAnnotationNode(m) ==> r.None?
    ensures m.kind in ModifierKeywords ==> (r.Some? <==> Text(m, src) != "")
  {
    var t := Text(m, src);
    if m.kind in ModifierKeywords then (if t != "" then Some(t) else None)
    else if IsAnnotationNode(m) then None
    else if !StartsWith(Trim(t), "@") && t != "" && Trim(t) != "" then Some(t)
    else None
  }

  /** The modifiers of one `modifiers` node. */
  function ModifierList(ms: seq<Node>, src: string): seq<string>
    decreases |ms|
  {
    if ms == [] then [] else ModifierList(ms[..|ms| - 1], src) + OptSeq(ModifierOf(ms[|ms| - 1], src))
  }

  /** What `extract_modifiers` returns: the modifiers of every `modifiers`
      child, in order. */
  function ModifiersIn(cs: seq<Node>, src: string): seq<string>
    decreases |cs|
  {
    if cs == [] then []
    else
      var last := cs[|cs| - 1];
      ModifiersIn(cs[..|cs| - 1], src) + (if last.kind == "modifiers" then ModifierList(last.children, src) else [])
  }

  /** `extract_modifiers`. */
  method ExtractModifiers(n: Node, src: string) returns (modifiers: seq<string>)
    ensures modifiers == ModifiersIn(n.children, src)
  {
    var cs := n.children;
    modifiers := [];
    var i := 0;
    while i < |cs|
      invariant i <= |cs|
      invariant modifiers == ModifiersIn(cs[..i], src)
    {
      assert cs[..i + 1][..i] == cs[..i];
      if cs[i].kind == "modifiers" {
        var list := ExtractModifierList(cs[i].children, src);
        modifiers := modifiers + list;
      }
      i := i + 1;
    }
    assert cs[..i] == cs;
  }

  /** The inner loop of `extract_modifiers`, over the tokens of one
      `modifiers` node. */
  method ExtractModifierList(ms: seq<Node>, src: string) returns (modifiers: seq<string>)
    ensures modifiers == ModifierList(ms, src)
  {
    modifiers := [];
    var j := 0;
    while j < |ms|
      invariant j <= |ms|
      invariant modifiers == ModifierList(ms[..j], src)
    {
      assert ms[..j + 1][..j] == ms[..j];
      var t := Text(ms[j], src);
      if ms[j].kind in ModifierKeywords {
        if t != "" {
          modifiers := modifiers + [t];
        }
      } else if ms[j].kind == "marker_annotation" || ms[j].kind == "annotation" {
      } else if !StartsWith(Trim(t), "@") && t != "" && Trim(t) != "" {
        modifiers := modifiers + [t];
      }
      j := j + 1;
    }
    assert ms[..j] == ms;
  }

  /** A `modifiers` node made of keywords lists each keyword's text, in
      order (`public class` gives `["public"]`). */
  lemma {:induction false} KeywordModifiers(ms: seq<Node>, src: string)
    requires forall k :: 0 <= k < |ms| ==> ms[k].kind in ModifierKeywords && Text(ms[k], src) != ""
    ensures |ModifierList(ms, src)| == |ms|
    ensures forall k :: 0 <= k < |ms| ==> ModifierList(ms, src)[k] == Text(ms[k], src)
    decreases |ms|
  {
    if ms != [] {
      var init := ms[..|ms| - 1];
      KeywordModifiers(init, src);
      assert forall k :: 0 <= k < |init| ==> init[k] == ms[k];
      assert OptSeq(ModifierOf(ms[|ms| - 1], src)) == [Text(ms[|ms| - 1], src)];
      assert ModifierList(ms, src) == ModifierList(init, src) + [Text(ms[|ms| - 1], src)];
    }
  }

  /** Every modifier is the non-empty text of a child of a `modifiers` node
      that is not an annotation. */
  lemma {:induction false} ModifierListSpec(ms: seq<Node>, src: string)
    ensures |ModifierList(ms, src)| <= |ms|
    ensures forall x :: x in ModifierList(ms, src) ==>
      x != "" && exists k :: 0 <= k < |ms| && !IsAnnotationNode(ms[k]) && ModifierOf(ms[k], src) == Some(x)
    decreases |ms|
  {
    if ms != [] {
      var init := ms[..|ms| - 1];
      ModifierListSpec(init, src);
      forall x | x in ModifierList(ms, src)
        ensures x != "" && exists k :: 0 <= k < |ms| && !IsAnnotationNode(ms[k]) && ModifierOf(ms[k], src) == Some(x)
      {
        if x in ModifierList(init, src) {
          var k :| 0 <= k < |init| && !IsAnnotationNode(init[k]) && ModifierOf(init[k], src) == Some(x);
          assert init[k] == ms[k];
        } else {
          assert ModifierOf(ms[|ms| - 1], src) == Some(x);
        }
      }
    }
  }

  // ---------------------------------------------------------------------
  // Annotations of a declaration

  /** The annotation nodes among a sequence of nodes. */
  function AnnotationNodes(cs: seq<Node>): (r: seq<Node>)
    ensures |r| <= |cs|
    ensures forall k :: 0 <= k < |r| ==> IsAnnotationNode(r[k]) && r[k] in cs
    decreases |cs|
  {
    if cs == [] then []
    else
      var init := AnnotationNodes(cs[..|cs| - 1]);
      assert forall x :: x in cs[..|cs| - 1] ==> x in cs;
      init + (if IsAnnotationNode(cs[|cs| - 1]) then [cs[|cs| - 1]] else [])
  }

  /** The nodes `extract_annotations` parses for one child: the annotation
      children of a `modifiers` node, an annotation itself, or the
      annotation children of any other node (the same as for `modifiers`). */
  function Targets(child: Node): seq<Node> {
    if child.kind == "modifiers" then AnnotationNodes(child.children)
    else if IsAnnotationNode(child) then [child]
    else AnnotationNodes(child.children)
  }

  /** What `extract_annotations` returns. */
  function AnnotationsIn(cs: seq<Node>, src: string): seq<Annotation>
    decreases |cs|
  {
    if cs == [] then [] else AnnotationsIn(cs[..|cs| - 1], src) + AnnotationsOfNodes(Targets(cs[|cs| - 1]), src)
  }

  /** The targets of one child (the inner loops of `extract_annotations`). */
  method CollectTargets(child: Node) returns (targets: seq<Node>)
    ensures targets == Targets(child)
  {
    if IsAnnotationNode(child) && child.kind != "modifiers" {
      return [child];
    }
    var gs := child.children;
    targets := [];
    var j := 0;
    while j < |gs|
      invariant j <= |gs|
      invariant targets == AnnotationNodes(gs[..j])
    {
      assert gs[..j + 1][..j] == gs[..j];
      if gs[j].kind == "annotation" || gs[j].kind == "marker_annotation" {
        targets := targets + [gs[j]];
      }
      j := j + 1;
    }
    assert gs[..j] == gs;
  }

  /** The parsing loop over the targets of one child. */
  method ParseTargets(targets: seq<Node>, src: string) returns (annotations: seq<Annotation>)
    ensures annotations == AnnotationsOfNodes(targets, src)
  {
    annotations := [];
    var j := 0;
    while j < |targets|
      invariant j <= |targets|
      invariant annotations == AnnotationsOfNodes(targets[..j], src)
    {
      assert targets[..j + 1][..j] == targets[..j];
      var annotation := ParseAnnotation(targets[j], src);
      if annotation.Some? {
        annotations := annotations + [annotation.value];
      }
      j := j + 1;
    }
    assert targets[..j] == targets;
  }

  /** `extract_annotations`. */
  method ExtractAnnotations(n: Node, src: string) returns (annotations: seq<Annotation>)
    ensures annotations == AnnotationsIn(n.children, src)
  {
    var cs := n.children;
    annotations := [];
    var i := 0;
    while i < |cs|
      invariant i <= |cs|
      invariant annotations == AnnotationsIn(cs[..i], src)
    {
      assert cs[..i + 1][..i] == cs[..i];
      var targets := CollectTargets(cs[i]);
      var parsed := ParseTargets(targets, src);
      annotations := annotations + parsed;
      i := i + 1;
    }
    assert cs[..i] == cs;
  }

  /** Every target is parsed: each annotation node a target list holds
      yields exactly one annotation, in order. */
  lemma {:induction false} TargetsAllParsed(ts: seq<Node>, src: string)
    requires forall k :: 0 <= k < |ts| ==> IsAnnotationNode(ts[k])
    ensures |AnnotationsOfNodes(ts, src)| == |ts|
    ensures forall k :: 0 <= k < |ts| ==> Some(AnnotationsOfNodes(ts, src)[k]) == AnnotationOf(ts[k], src)
    decreases |ts|
  {
    if ts != [] {
      var init := ts[..|ts| - 1];
      var prev := AnnotationsOfNodes(init, src);
      var o := AnnotationOf(ts[|ts| - 1], src);
      var ys := AnnotationsOfNodes(ts, src);
      TargetsAllParsed(init, src);
      assert o.Some? && ys == prev + OptSeq(o);
      OptSeqAppended(ys, prev, o);
      forall k | 0 <= k < |ts|
        ensures Some(ys[k]) == AnnotationOf(ts[k], src)
      {
        if k < |init| {
          assert ys[k] == prev[k] && init[k] == ts[k];
        } else {
          assert k == |prev|;
        }
      }
    }
  }

  /** Appending the value of `o` to `xs` keeps `xs` as a prefix and puts the
      value last. */
  lemma OptSeqAppended<T>(ys: seq<T>, xs: seq<T>, o: Option<T>)
    requires o.Some? && ys == xs + OptSeq(o)
    ensures |ys| == |xs| + 1 && ys[|xs|] == o.value
    ensures forall k :: 0 <= k < |xs| ==> ys[k] == xs[k]
  {
  }

  // ---------------------------------------------------------------------
  // Inheritance and type parameters

  /** What `extract_extends` returns: the `superclass` field's text with
      the `extends` keyword and surrounding whitespace removed, if anything
      is left. */
  function ExtendsOf(n: Node, src: string): (r: Option<string>)
    ensures r.Some? ==> ChildByFieldName(n, "superclass").Some? && r.value != "" && Trimmed(r.value)
  {
    match ChildByFieldName(n, "superclass")
    case None => None
    case Some(e) =>
      var t := Trim(TrimStartMatches(Trim(Text(e, src)), "extends"));
      if t != "" then Some(t) else None
  }

  /** `extends Base` gives `Base` (the superclass test). */
  lemma ExtendsRoundTrip(n: Node, src: string, w: string)
    requires ChildByFieldName(n, "superclass").Some?
    requires Text(ChildByFieldName(n, "superclass").value, src) == "extends " + w
    requires w != [] && Trimmed(w) && !StartsWith(w, "extends")
    ensures ExtendsOf(n, src) == Some(w)
  {
    var t := "extends " + w;
    assert Trimmed(t);
    TrimOfTrimmed(t);
    StartsWithAppend("extends", " " + w);
    assert t == "extends" + (" " + w);
    assert t[|"extends"|..] == " " + w;
    assert !StartsWith(" " + w, "extends");
    assert TrimStartMatches(t, "extends") == " " + w;
    TrimPadded(" ", w, "");
    assert " " + w + "" == " " + w;
  }

  /** The interfaces of a list of children: each trimmed text that is
      neither empty nor the `implements` keyword. */
  function ImplementsIn(cs: seq<Node>, src: string): (r: seq<string>)
    ensures |r| <= |cs|
    ensures forall k :: 0 <= k < |r| ==> r[k] != "" && Trimmed(r[k]) && r[k] != "implements"
    decreases |cs|
  {
    if cs == [] then []
    else
      var t := Trim(Text(cs[|cs| - 1], src));
      ImplementsIn(cs[..|cs| - 1], src) + (if t != "" && t != "implements" then [t] else [])
  }

  /** What `extract_implements` returns. */
  function ImplementsOf(n: Node, src: string): seq<string> {
    match ChildByFieldName(n, "interfaces")
    case None => []
    case Some(i) => ImplementsIn(i.children, src)
  }

  /** `extract_implements`. */
  method ExtractImplements(n: Node, src: string) returns (implements: seq<string>)
    ensures implements == ImplementsOf(n, src)
  {
    implements := [];
    var node := ChildByFieldName(n, "interfaces");
    if node.Some? {
      var cs := node.value.children;
      var i := 0;
      while i < |cs|
        invariant i <= |cs|
        invariant implements == ImplementsIn(cs[..i], src)
      {
        assert cs[..i + 1][..i] == cs[..i];
        var t := Trim(Text(cs[i], src));
        if t != "" && t != "implements" {
          implements := implements + [t];
        }
        i := i + 1;
      }
      assert cs[..i] == cs;
    }
  }

  /** The non-empty texts of the `type_parameter` nodes among `cs`. */
  function TypeParametersIn(cs: seq<Node>, src: string): (r: seq<string>)
    ensures |r| <= |cs|
    ensures forall k :: 0 <= k < |r| ==> r[k] != ""
    decreases |cs|
  {
    if cs == [] then []
    else
      var last := cs[|cs| - 1];
      var t := Text(last, src);
      TypeParametersIn(cs[..|cs| - 1], src) + (if last.kind == "type_parameter" && t != "" then [t] else [])
  }

  /** What `extract_type_parameters` returns. */
  function TypeParametersOf(n: Node, src: string): seq<string> {
    match ChildByFieldName(n, "type_parameters")
    case None => []
    case Some(t) => TypeParametersIn(t.children, src)
  }

  /** `extract_type_parameters`. */
  method ExtractTypeParameters(n: Node, src: string) returns (typeParameters: seq<string>)
    ensures typeParameters == TypeParametersOf(n, src)
  {
    typeParameters := [];
    var node := ChildByFieldName(n, "type_parameters");
    if node.Some? {
      var cs := node.value.children;
      var i := 0;
      while i < |cs|
        invariant i <= |cs|
        invariant typeParameters == TypeParametersIn(cs[..i], src)
      {
        assert cs[..i + 1][..i] == cs[..i];
        var t := Text(cs[i], src);
        if cs[i].kind == "type_parameter" && t != "" {
          typeParameters := typeParameters + [t];
        }
        i := i + 1;
      }
      assert cs[..i] == cs;
    }
  }

  /** Every `type_parameter` with text is listed, in order. */
  lemma {:induction false} TypeParametersAll(cs: seq<Node>, src: string)
    requires forall k :: 0 <= k < |cs| ==> cs[k].kind == "type_parameter" && Text(cs[k], src) != ""
    ensures |TypeParametersIn(cs, src)| == |cs|
    ensures forall k :: 0 <= k < |cs| ==> TypeParametersIn(cs, src)[k] == Text(cs[k], src)
    decreases |cs|
  {
    if cs != [] {
      TypeParametersAll(cs[..|cs| - 1], src);
    }
  }

  // ---------------------------------------------------------------------
  // Thrown types

  /** One comma-separated piece of a `throws` clause as `extract_throws`
      writes it: trimmed, dropped when empty or the bare keyword, else
      stripped of EVERY leading `throws` and trimmed again. The stripping
      applies to every piece, not only to the first. */
  function ThrowsPieceAsWritten(piece: string): (r: seq<string>)
    ensures |r| <= 1
    ensures r == [] <==> Trim(piece) == "" || Trim(piece) == "throws"
    ensures forall k :: 0 <= k < |r| ==> Trimmed(r[k])
  {
    var t := Trim(piece);
    if t != "" && t != "throws" then [Trim(TrimStartMatches(t, "throws"))] else []
  }

  function ThrowsPiecesAsWritten(pieces: seq<string>): (r: seq<string>)
    ensures |r| <= |pieces|
    ensures forall k :: 0 <= k < |r| ==> Trimmed(r[k])
    decreases |pieces|
  {
    if pieces == [] then [] else ThrowsPieceAsWritten(pieces[0]) + ThrowsPiecesAsWritten(pieces[1..])
  }

  /** What `extract_throws` makes of one `throws` child's text. */
  function ThrowsAsWritten(text: string): seq<string> {
    ThrowsPiecesAsWritten(Split(text, ','))
  }

  /** The clause with its leading `throws` keyword removed. */
  function DropThrowsKeyword(s: string): (r: string)
    ensures |r| <= |s|
  {
    if StartsWith(s, "throws") && (|s| == 6 || IsSpace(s[6])) then s[6..] else s
  }

  /** The trimmed, non-empty pieces, in order. */
  function TrimmedPieces(pieces: seq<string>): (r: seq<string>)
    ensures |r| <= |pieces|
    ensures forall k :: 0 <= k < |r| ==> r[k] != "" && Trimmed(r[k])
    decreases |pieces|
  {
    if pieces == [] then []
    else
      var t := Trim(pieces[0]);
      (if t != "" then [t] else []) + TrimmedPieces(pieces[1..])
  }

  /** The thrown types of a `throws` clause: the keyword is removed once,
      from the front of the clause, and the rest is split at commas. */
  function ThrowsOf(text: string): (r: seq<string>)
    ensures forall k :: 0 <= k < |r| ==> r[k] != "" && Trimmed(r[k])
  {
    TrimmedPieces(Split(DropThrowsKeyword(Trim(text)), ','))
  }

  /** The types of every `throws` child, in order, as `extract_throws`
      collects them. */
  function ThrowsIn(cs: seq<Node>, src: string): (r: seq<string>)
    ensures forall k :: 0 <= k < |r| ==> Trimmed(r[k])
    decreases |cs|
  {
    if cs == [] then []
    else
      var last := cs[|cs| - 1];
      ThrowsIn(cs[..|cs| - 1], src) + (if last.kind == "throws" then ThrowsAsWritten(Text(last, src)) else [])
  }

  /** `extract_throws`. */
  method ExtractThrows(n: Node, src: string) returns (throws: seq<string>)
    ensures throws == ThrowsIn(n.children, src)
  {
    var cs := n.children;
    throws := [];
    var i := 0;
    while i < |cs|
      invariant i <= |cs|
      invariant throws == ThrowsIn(cs[..i], src)
    {
      assert cs[..i + 1][..i] == cs[..i];
      if cs[i].kind == "throws" {
        throws := throws + ThrowsAsWritten(Text(cs[i], src));
      }
      i := i + 1;
    }
    assert cs[..i] == cs;
  }

  lemma {:induction false} JoinLast(parts: seq<string>, sep: string)
    requires |parts| >= 1
    ensures EndsWith(Join(parts, sep), parts[|parts| - 1])
    decreases |parts|
  {
    if |parts| == 1 {
      assert Join(parts, sep)[|Join(parts, sep)| - |parts[0]|..] == parts[0];
    } else {
      JoinLast(parts[1..], sep);
      var rest := Join(parts[1..], sep);
      var j := parts[0] + sep + rest;
      assert j[|j| - |parts[|parts| - 1]|..] == rest[|rest| - |parts[|parts| - 1]|..];
    }
  }

  /** Trimmed non-empty pieces are kept as they are. */
  lemma {:induction false} TrimmedPiecesOfTrimmed(pieces: seq<string>)
    requires forall k :: 0 <= k < |pieces| ==> pieces[k] != "" && Trimmed(pieces[k])
    ensures TrimmedPieces(pieces) == pieces
    decreases |pieces|
  {
    if pieces != [] {
      TrimmedPiecesOfTrimmed(pieces[1..]);
      TrimOfTrimmed(pieces[0]);
    }
  }

  /** The keyword in front of text ending in a trimmed word gives a
      trimmed clause. */
  lemma KeywordClauseTrimmed(j: string, last: string)
    requires EndsWith(j, last) && last != [] && Trimmed(last)
    ensures Trim("throws " + j) == "throws " + j
  {
    assert j[|j| - |last|..] == last;
    assert j[|j| - 1] == last[|last| - 1];
    var text := "throws " + j;
    assert text[|text| - 1] == j[|j| - 1];
    assert text[0] == 't';
    TrimOfTrimmed(text);
  }

  /** The keyword and the space after it are dropped. */
  lemma DropThrowsKeywordOf(rest: string)
    ensures DropThrowsKeyword("throws " + rest) == " " + rest
  {
    var text := "throws " + rest;
    assert text[..6] == "throws";
    assert text[6] == ' ';
    assert text[6..] == " " + rest;
  }

  /** A leading space joins the first piece. */
  lemma JoinSpaced(names: seq<string>)
    requires |names| >= 1
    ensures " " + Join(names, ",") == Join([" " + names[0]] + names[1..], ",")
  {
    JoinPrefixFirst(" ", names, ",");
  }

  /** A space in front of a trimmed piece is trimmed away. */
  lemma TrimSpaced(w: string)
    requires Trimmed(w)
    ensures Trim(" " + w) == w
  {
    TrimPadded(" ", w, "");
    assert " " + w + "" == " " + w;
  }

  /** The trimmed pieces of a spaced first name and further trimmed names. */
  lemma TrimmedPiecesSpaced(names: seq<string>)
    requires |names| >= 1
    requires forall k :: 0 <= k < |names| ==> names[k] != "" && Trimmed(names[k])
    ensures TrimmedPieces([" " + names[0]] + names[1..]) == names
  {
    var pieces := [" " + names[0]] + names[1..];
    TrimSpaced(names[0]);
    assert pieces[1..] == names[1..];
    TrimmedPiecesOfTrimmed(names[1..]);
    assert TrimmedPieces(pieces) == [names[0]] + names[1..];
  }

  /** The pieces of a spaced clause are free of commas. */
  lemma SpacedPiecesFree(names: seq<string>)
    requires |names| >= 1
    requires forall k :: 0 <= k < |names| ==> ',' !in names[k]
    ensures forall k :: 0 <= k < |[" " + names[0]] + names[1..]| ==> ',' !in ([" " + names[0]] + names[1..])[k]
  {
    var pieces := [" " + names[0]] + names[1..];
    forall k | 0 <= k < |pieces|
      ensures ',' !in pieces[k]
    {
      if k > 0 {
        assert pieces[k] == names[k];
      }
    }
  }

  /** `throws A,B,...` gives back the listed types. */
  lemma ThrowsRoundTrip(names: seq<string>)
    requires |names| >= 1
    requires forall k :: 0 <= k < |names| ==> names[k] != "" && Trimmed(names[k]) && ',' !in names[k]
    ensures ThrowsOf("throws " + Join(names, ",")) == names
  {
    var j := Join(names, ",");
    var text := "throws " + j;
    var pieces := [" " + names[0]] + names[1..];
    JoinLast(names, ",");
    KeywordClauseTrimmed(j, names[|names| - 1]);
    DropThrowsKeywordOf(j);
    JoinSpaced(names);
    SpacedPiecesFree(names);
    SplitJoin(pieces, ',');
    TrimmedPiecesSpaced(names);
    calc {
      ThrowsOf(text);
      TrimmedPieces(Split(DropThrowsKeyword(Trim(text)), ','));
      TrimmedPieces(Split(DropThrowsKeyword(text), ','));
      TrimmedPieces(Split(" " + j, ','));
      TrimmedPieces(Split(Join(pieces, ","), ','));
      TrimmedPieces(pieces);
      names;
    }
  }

  /** The leading piece `throws A` of a clause, as written. */
  lemma ThrowsFirstPieceAsWritten(a: string)
    requires a != [] && Trimmed(a)
    ensures ThrowsPieceAsWritten("throws " + a) == [a]
  {
    var t := "throws " + a;
    assert t[|t| - 1] == a[|a| - 1];
    TrimOfTrimmed(t);
    assert t == "throws" + (" " + a);
    StartsWithAppend("throws", " " + a);
    assert t[6..] == " " + a;
    assert TrimStartMatches(" " + a, "throws") == " " + a;
    TrimSpaced(a);
  }

  /** A later piece ` throwsB`, as written: the prefix is stripped. */
  lemma ThrowsLaterPieceAsWritten(b: string)
    requires b != [] && Trimmed(b) && !StartsWith(b, "throws")
    ensures ThrowsPieceAsWritten(" throws" + b) == [b]
  {
    var t := "throws" + b;
    assert t[0] == 't' && t[|t| - 1] == b[|b| - 1];
    assert Trimmed(t);
    assert " throws" + b == " " + t;
    TrimSpaced(t);
    assert |t| > 6;
    StartsWithAppend("throws", b);
    assert t[6..] == b;
    TrimOfTrimmed(b);
    calc {
      ThrowsPieceAsWritten(" " + t);
      [Trim(TrimStartMatches(t, "throws"))];
      [Trim(TrimStartMatches(b, "throws"))];
      [Trim(b)];
      [b];
    }
  }

  /** A trimmed name that does not begin with `throws` is one piece kept
      as it is. */
  lemma ThrowsNamePiece(b: string)
    requires b != [] && Trimmed(b) && !StartsWith(b, "throws")
    ensures ThrowsPieceAsWritten(b) == [b]
  {
    TrimOfTrimmed(b);
    assert TrimStartMatches(b, "throws") == b;
  }

  /** Names that do not begin with `throws` pass through unchanged. */
  lemma {:induction false} ThrowsNamePieces(names: seq<string>)
    requires forall k :: 0 <= k < |names| ==> names[k] != "" && Trimmed(names[k]) && !StartsWith(names[k], "throws")
    ensures ThrowsPiecesAsWritten(names) == names
    decreases |names|
  {
    if names != [] {
      ThrowsNamePiece(names[0]);
      ThrowsNamePieces(names[1..]);
      assert names == [names[0]] + names[1..];
    }
  }

  /** `throws A,B,...` as written gives back the listed types, provided
      that no type after the first begins with `throws`. */
  lemma ThrowsAsWrittenRoundTrip(names: seq<string>)
    requires |names| >= 1
    requires forall k :: 0 <= k < |names| ==> names[k] != "" && Trimmed(names[k]) && ',' !in names[k]
    requires forall k :: 1 <= k < |names| ==> !StartsWith(names[k], "throws")
    ensures ThrowsAsWritten("throws " + Join(names, ",")) == names
  {
    var first := names[0];
    var rest := names[1..];
    var pieces := ["throws " + first] + rest;
    ThrowsClauseSplit(names);
    ThrowsFirstPieceAsWritten(first);
    forall k | 0 <= k < |rest|
      ensures rest[k] != "" && Trimmed(rest[k]) && !StartsWith(rest[k], "throws")
    {
      assert rest[k] == names[k + 1];
    }
    ThrowsNamePieces(rest);
    ThrowsPiecesCons(pieces);
    assert pieces[0] == "throws " + first && pieces[1..] == rest;
    assert ThrowsPiecesAsWritten(pieces) == [first] + rest;
    FirstAndRest(names);
  }

  lemma FirstAndRest<T>(xs: seq<T>)
    requires xs != []
    ensures [xs[0]] + xs[1..] == xs
  {
  }

  /** A clause splits into the keyword with the first name, then the
      further names. */
  lemma ThrowsClauseSplit(names: seq<string>)
    requires |names| >= 1
    requires forall k :: 0 <= k < |names| ==> ',' !in names[k]
    ensures Split("throws " + Join(names, ","), ',') == ["throws " + names[0]] + names[1..]
  {
    var pieces := ["throws " + names[0]] + names[1..];
    JoinPrefixFirst("throws ", names, ",");
    ThrowsPiecesFree(names, pieces);
    SplitJoin(pieces, ',');
  }

  lemma ThrowsPiecesCons(pieces: seq<string>)
    requires pieces != []
    ensures ThrowsPiecesAsWritten(pieces) == ThrowsPieceAsWritten(pieces[0]) + ThrowsPiecesAsWritten(pieces[1..])
  {
  }

  /** The pieces of a clause whose names are free of commas are free of
      commas. */
  lemma ThrowsPiecesFree(names: seq<string>, pieces: seq<string>)
    requires |names| >= 1 && pieces == ["throws " + names[0]] + names[1..]
    requires forall k :: 0 <= k < |names| ==> ',' !in names[k]
    ensures forall k :: 0 <= k < |pieces| ==> ',' !in pieces[k]
  {
    forall k | 0 <= k < |pieces|
      ensures ',' !in pieces[k]
    {
      if k > 0 {
        assert pieces[k] == names[k];
      }
    }
  }


  /** The thrown types of a clause the keyword opens. */
  lemma ThrowsOfClause(rest: string)
    requires Trim("throws " + rest) == "throws " + rest
    ensures ThrowsOf("throws " + rest) == TrimmedPieces(Split(" " + rest, ','))
  {
    DropThrowsKeywordOf(rest);
  }

  /** Two pieces, each behind a space. */
  lemma SplitSpacedPair(a: string, t: string)
    requires ',' !in a && ',' !in t
    ensures Split(" " + (a + ", " + t), ',') == [" " + a, " " + t]
  {
    assert " " + (a + ", " + t) == (" " + a) + [','] + (" " + t);
    assert ',' !in " " + a && ',' !in " " + t;
    SplitCons(" " + a, ',', " " + t);
    assert Split(" " + t, ',') == [" " + t];
  }

  lemma TrimmedPiecesPair(a: string, t: string)
    requires a != [] && Trimmed(a) && t != [] && Trimmed(t)
    ensures TrimmedPieces([" " + a, " " + t]) == [a, t]
  {
    TrimSpaced(a);
    TrimSpaced(t);
    assert [" " + a, " " + t][1..] == [" " + t];
  }

  /** A space after the comma changes nothing. */
  lemma ThrowsSpacedComma(a: string, t: string)
    requires a != [] && Trimmed(a) && ',' !in a
    requires t != [] && Trimmed(t) && ',' !in t
    ensures ThrowsOf("throws " + (a + ", " + t)) == [a, t]
  {
    var rest := a + ", " + t;
    assert rest[|rest| - |t|..] == t;
    KeywordClauseTrimmed(rest, t);
    ThrowsOfClause(rest);
    SplitSpacedPair(a, t);
    TrimmedPiecesPair(a, t);
  }

  /** The pieces of `throws A, throwsB`. */
  lemma SplitThrowsPair(a: string, b: string)
    requires ',' !in a && ',' !in b
    ensures Split("throws " + a + ", throws" + b, ',') == ["throws " + a, " throws" + b]
  {
    var first := "throws " + a;
    var second := " throws" + b;
    assert "throws " + a + ", throws" + b == first + [','] + second;
    assert ',' !in first && ',' !in second;
    SplitCons(first, ',', second);
    assert Split(second, ',') == [second];
  }

  lemma ThrowsPiecesPair(first: string, second: string)
    ensures ThrowsPiecesAsWritten([first, second]) == ThrowsPieceAsWritten(first) + ThrowsPieceAsWritten(second)
  {
    assert [first, second][1..] == [second];
    assert [second][1..] == [];
    assert ThrowsPiecesAsWritten([second]) == ThrowsPieceAsWritten(second) + [];
    assert ThrowsPieceAsWritten(second) + [] == ThrowsPieceAsWritten(second);
  }

  /** `throws A, throwsB` as written gives `[A, B]`. */
  lemma ThrowsAsWrittenPair(a: string, b: string)
    requires a != [] && Trimmed(a) && ',' !in a
    requires b != [] && Trimmed(b) && ',' !in b && !StartsWith(b, "throws")
    ensures ThrowsAsWritten("throws " + a + ", throws" + b) == [a, b]
  {
    var text := "throws " + a + ", throws" + b;
    SplitThrowsPair(a, b);
    ThrowsPiecesPair("throws " + a, " throws" + b);
    ThrowsFirstPieceAsWritten(a);
    ThrowsLaterPieceAsWritten(b);
    calc {
      ThrowsAsWritten(text);
      ThrowsPiecesAsWritten(Split(text, ','));
      ThrowsPiecesAsWritten(["throws " + a, " throws" + b]);
      ThrowsPieceAsWritten("throws " + a) + ThrowsPieceAsWritten(" throws" + b);
      [a, b];
    }
  }

  /** As written, a thrown type whose name begins with `throws` loses that
      prefix when it is not the first one: `throws IOException, throwsError`
      gives `Error` instead of `throwsError`. */
  lemma ThrowsAsWrittenStripsNames(a: string, b: string)
    requires a != [] && Trimmed(a) && ',' !in a
    requires b != [] && Trimmed(b) && ',' !in b && !StartsWith(b, "throws")
    ensures ThrowsAsWritten("throws " + a + ", throws" + b) == [a, b]
    ensures ThrowsOf("throws " + a + ", throws" + b) == [a, "throws" + b]
  {
    ThrowsAsWrittenPair(a, b);
    var t := "throws" + b;
    assert t[0] == 't' && t[|t| - 1] == b[|b| - 1];
    assert ',' !in t;
    ThrowsSpacedComma(a, t);
    ThrowsPairText(a, b);
    calc {
      ThrowsOf("throws " + a + ", throws" + b);
      ThrowsOf("throws " + (a + ", " + t));
      [a, t];
    }
  }

  lemma ThrowsPairText(a: string, b: string)
    ensures "throws " + a + ", throws" + b == "throws " + (a + ", " + ("throws" + b))
  {
  }

  // ---------------------------------------------------------------------
  // Documentation

  predicate IsComment(n: Node) {
    n.kind == "line_comment" || n.kind == "block_comment"
  }

  /** A comment whose text opens a Javadoc block. */
  predicate IsJavadoc(n: Node, src: string) {
    IsComment(n) && StartsWith(Text(n, src), "/**")
  }

  /** The documentation `extract_documentation` finds among the preceding
      siblings (nearest last) as written: the nearest Javadoc comment,
      however many declarations lie between it and the node. */
  function DocumentationAsWritten(prev: seq<Node>, src: string): Option<string>
    decreases |prev|
  {
    if prev == [] then None
    else if IsJavadoc(prev[|prev| - 1], src) then Some(Text(prev[|prev| - 1], src))
    else DocumentationAsWritten(prev[..|prev| - 1], src)
  }

  /** The documentation read as applying only to the comments directly in
      front of a declaration: the nearest Javadoc comment among them; the
      walk stops at the first sibling that is not a comment. */
  function DocumentationOf(prev: seq<Node>, src: string): Option<string>
    decreases |prev|
  {
    if prev == [] || !IsComment(prev[|prev| - 1]) then None
    else if IsJavadoc(prev[|prev| - 1], src) then Some(Text(prev[|prev| - 1], src))
    else DocumentationOf(prev[..|prev| - 1], src)
  }

  /** `extract_documentation`: the walk goes back over every previous
      sibling, whatever its kind. */
  method ExtractDocumentation(n: Node, src: string) returns (documentation: Option<string>)
    ensures documentation == DocumentationAsWritten(n.prevSiblings, src)
  {
    var prev := n.prevSiblings;
    var i := |prev|;
    assert prev[..i] == prev;
    while i > 0
      invariant 0 <= i <= |prev|
      invariant DocumentationAsWritten(prev[..i], src) == DocumentationAsWritten(prev, src)
    {
      assert prev[..i][..i - 1] == prev[..i - 1];
      var p := prev[i - 1];
      if p.kind == "line_comment" || p.kind == "block_comment" {
        var text := Text(p, src);
        if StartsWith(text, "/**") {
          return Some(text);
        }
      }
      i := i - 1;
    }
    return None;
  }

  /** `prev[i]` is the last Javadoc comment among `prev`. */
  predicate LastJavadoc(prev: seq<Node>, src: string, i: nat) {
    i < |prev| && IsJavadoc(prev[i], src) &&
    forall j :: i < j < |prev| ==> !IsJavadoc(prev[j], src)
  }

  /** As written, the documentation is the text of the last Javadoc comment
      among all previous siblings, and there is none exactly when no
      previous sibling is a Javadoc comment. */
  lemma DocumentationAsWrittenSpec(prev: seq<Node>, src: string)
    ensures DocumentationAsWritten(prev, src).Some? ==>
      exists i: nat :: LastJavadoc(prev, src, i) && DocumentationAsWritten(prev, src).value == Text(prev[i], src)
    ensures DocumentationAsWritten(prev, src).None? <==> forall i :: 0 <= i < |prev| ==> !IsJavadoc(prev[i], src)
  {
    DocumentationAsWrittenFound(prev, src);
    DocumentationAsWrittenAbsent(prev, src);
  }

  /** Found documentation is the last Javadoc among the previous siblings. */
  lemma {:induction false} DocumentationAsWrittenFound(prev: seq<Node>, src: string)
    ensures DocumentationAsWritten(prev, src).Some? ==>
      exists i: nat :: LastJavadoc(prev, src, i) && DocumentationAsWritten(prev, src).value == Text(prev[i], src)
    decreases |prev|
  {
    if prev != [] {
      var last := |prev| - 1;
      if IsJavadoc(prev[last], src) {
        assert LastJavadoc(prev, src, last);
      } else {
        var init := prev[..last];
        DocumentationAsWrittenFound(init, src);
        assert DocumentationAsWritten(prev, src) == DocumentationAsWritten(init, src);
        if DocumentationAsWritten(init, src).Some? {
          var i: nat :| LastJavadoc(init, src, i) && DocumentationAsWritten(init, src).value == Text(init[i], src);
          LastJavadocExtend(init, prev, src, i);
        }
      }
    }
  }

  /** A later sibling that is not Javadoc keeps the last Javadoc. */
  lemma LastJavadocExtend(init: seq<Node>, prev: seq<Node>, src: string, i: nat)
    requires prev != [] && init == prev[..|prev| - 1]
    requires !IsJavadoc(prev[|prev| - 1], src)
    requires LastJavadoc(init, src, i)
    ensures LastJavadoc(prev, src, i) && prev[i] == init[i]
  {
    forall j | i < j < |prev|
      ensures !IsJavadoc(prev[j], src)
    {
      if j < |init| {
        assert init[j] == prev[j];
      }
    }
  }

  /** As written, there is no documentation exactly when no previous
      sibling is a Javadoc comment. */
  lemma {:induction false} DocumentationAsWrittenAbsent(prev: seq<Node>, src: string)
    ensures DocumentationAsWritten(prev, src).None? <==> forall i :: 0 <= i < |prev| ==> !IsJavadoc(prev[i], src)
    decreases |prev|
  {
    if prev != [] {
      var last := |prev| - 1;
      if IsJavadoc(prev[last], src) {
        assert DocumentationAsWritten(prev, src).Some?;
      } else {
        var init := prev[..last];
        DocumentationAsWrittenAbsent(init, src);
        assert DocumentationAsWritten(prev, src) == DocumentationAsWritten(init, src);
        assert forall i :: 0 <= i < |init| ==> init[i] == prev[i];
      }
    }
  }

  /** Where the adjacent reading finds documentation, the code finds the
      same. */
  lemma {:induction false} DocumentationReadingsAgree(prev: seq<Node>, src: string)
    ensures DocumentationOf(prev, src).Some? ==> DocumentationAsWritten(prev, src) == DocumentationOf(prev, src)
    decreases |prev|
  {
    if prev != [] && IsComment(prev[|prev| - 1]) && !IsJavadoc(prev[|prev| - 1], src) {
      DocumentationReadingsAgree(prev[..|prev| - 1], src);
    }
  }

  /** The documentation is the text of a Javadoc comment separated from the
      node by comments only, with no nearer Javadoc; there is none exactly
      when no such comment exists. */
  lemma DocumentationSpec(prev: seq<Node>, src: string)
    ensures DocumentationOf(prev, src).Some? ==>
      exists i: nat :: NearestJavadoc(prev, src, i) && DocumentationOf(prev, src).value == Text(prev[i], src)
    ensures DocumentationOf(prev, src).None? ==>
      forall i :: 0 <= i < |prev| && IsJavadoc(prev[i], src) ==> exists j :: i < j < |prev| && !IsComment(prev[j])
  {
    DocumentationFound(prev, src);
    DocumentationAbsent(prev, src);
  }

  /** `prev[i]` is a Javadoc comment followed only by comments that are
      not Javadoc. */
  predicate NearestJavadoc(prev: seq<Node>, src: string, i: nat) {
    i < |prev| && IsJavadoc(prev[i], src) &&
    forall j :: i < j < |prev| ==> IsComment(prev[j]) && !IsJavadoc(prev[j], src)
  }

  /** Found documentation is the nearest Javadoc, with only comments after it. */
  lemma {:induction false} DocumentationFound(prev: seq<Node>, src: string)
    ensures DocumentationOf(prev, src).Some? ==>
      exists i: nat :: NearestJavadoc(prev, src, i) && DocumentationOf(prev, src).value == Text(prev[i], src)
    decreases |prev|
  {
    if prev != [] && IsComment(prev[|prev| - 1]) {
      var last := |prev| - 1;
      if IsJavadoc(prev[last], src) {
        assert NearestJavadoc(prev, src, last);
      } else {
        var init := prev[..last];
        DocumentationFound(init, src);
        assert DocumentationOf(prev, src) == DocumentationOf(init, src);
        if DocumentationOf(init, src).Some? {
          var i: nat :| NearestJavadoc(init, src, i) && DocumentationOf(init, src).value == Text(init[i], src);
          NearestJavadocExtend(init, prev, src, i);
        }
      }
    }
  }

  /** A later comment that is not Javadoc keeps the nearest Javadoc. */
  lemma NearestJavadocExtend(init: seq<Node>, prev: seq<Node>, src: string, i: nat)
    requires prev != [] && init == prev[..|prev| - 1]
    requires IsComment(prev[|prev| - 1]) && !IsJavadoc(prev[|prev| - 1], src)
    requires NearestJavadoc(init, src, i)
    ensures NearestJavadoc(prev, src, i) && prev[i] == init[i]
  {
    assert prev[i] == init[i];
    forall j | i < j < |prev|
      ensures IsComment(prev[j]) && !IsJavadoc(prev[j], src)
    {
      if j < |init| {
        assert init[j] == prev[j];
        assert IsComment(init[j]) && !IsJavadoc(init[j], src);
      }
    }
  }

  /** Without documentation, every Javadoc is cut off by a later sibling
      that is not a comment. */
  lemma {:induction false} DocumentationAbsent(prev: seq<Node>, src: string)
    ensures DocumentationOf(prev, src).None? ==>
      forall i :: 0 <= i < |prev| && IsJavadoc(prev[i], src) ==> exists j :: i < j < |prev| && !IsComment(prev[j])
    decreases |prev|
  {
    if prev != [] {
      var last := |prev| - 1;
      if !IsComment(prev[last]) {
        forall i | 0 <= i < |prev| && IsJavadoc(prev[i], src)
          ensures exists j :: i < j < |prev| && !IsComment(prev[j])
        {
          assert i < last && !IsComment(prev[last]);
        }
      } else if IsJavadoc(prev[last], src) {
        assert DocumentationOf(prev, src).Some?;
      } else {
        var init := prev[..last];
        DocumentationAbsent(init, src);
        assert DocumentationOf(prev, src) == DocumentationOf(init, src);
        if DocumentationOf(prev, src).None? {
          JavadocsCutOffExtend(init, prev, src);
        }
      }
    }
  }

  /** Every Javadoc among `prev` has a later sibling that is not a comment. */
  predicate JavadocsCutOff(prev: seq<Node>, src: string) {
    forall i :: 0 <= i < |prev| && IsJavadoc(prev[i], src) ==> exists j :: i < j < |prev| && !IsComment(prev[j])
  }

  /** A later sibling that is not Javadoc leaves every Javadoc cut off. */
  lemma JavadocsCutOffExtend(init: seq<Node>, prev: seq<Node>, src: string)
    requires prev != [] && init == prev[..|prev| - 1] && !IsJavadoc(prev[|prev| - 1], src)
    requires JavadocsCutOff(init, src)
    ensures JavadocsCutOff(prev, src)
  {
    forall i | 0 <= i < |prev| && IsJavadoc(prev[i], src)
      ensures exists j :: i < j < |prev| && !IsComment(prev[j])
    {
      assert i < |init| && init[i] == prev[i];
      var j :| i < j < |init| && !IsComment(init[j]);
      assert init[j] == prev[j];
    }
  }

  /** As written, a declaration without Javadoc takes the Javadoc of an
      earlier declaration: with siblings `/** A */`, a method and a
      comment-less method, the second method is documented `/** A */`. */
  lemma DocumentationAsWrittenCrossesDeclarations(doc: Node, earlier: Node, src: string)
    requires IsJavadoc(doc, src) && !IsComment(earlier)
    ensures DocumentationAsWritten([doc, earlier], src) == Some(Text(doc, src))
    ensures DocumentationOf([doc, earlier], src) == None
  {
    assert [doc, earlier][..1] == [doc];
  }

  // ---------------------------------------------------------------------
  // Parameters

  /** What `parse_parameter` returns: a parameter exactly when the node
      has both a `type` and a `name` field. */
  function ParameterOf(p: Node, src: string): (r: Option<ParameterStructure>)
    ensures r.Some? <==> ChildByFieldName(p, "type").Some? && ChildByFieldName(p, "name").Some?
  {
    match ChildByFieldName(p, "type")
    case None => None
    case Some(t) =>
      match ChildByFieldName(p, "name")
      case None => None
      case Some(nm) => Some(ParameterStructure(Text(nm, src), Text(t, src), AnnotationsIn(p.children, src)))
  }

  /** The parameters of the `formal_parameter` nodes among `cs`. */
  function ParametersIn(cs: seq<Node>, src: string): seq<ParameterStructure>
    decreases |cs|
  {
    if cs == [] then []
    else
      var last := cs[|cs| - 1];
      ParametersIn(cs[..|cs| - 1], src) + (if last.kind == "formal_parameter" then OptSeq(ParameterOf(last, src)) else [])
  }

  /** What `extract_parameters` returns. */
  function ParametersOf(n: Node, src: string): seq<ParameterStructure> {
    match ChildByFieldName(n, "parameters")
    case None => []
    case Some(ps) => ParametersIn(ps.children, src)
  }

  /** `parse_parameter`. */
  method ParseParameter(p: Node, src: string) returns (parameter: Option<ParameterStructure>)
    ensures parameter == ParameterOf(p, src)
  {
    var typeNode := ChildByFieldName(p, "type");
    if typeNode.None? {
      return None;
    }
    var typeName := Text(typeNode.value, src);
    var annotations := ExtractAnnotations(p, src);
    var nameNode := ChildByFieldName(p, "name");
    if nameNode.None? {
      return None;
    }
    return Some(ParameterStructure(Text(nameNode.value, src), typeName, annotations));
  }

  /** `extract_parameters`. */
  method ExtractParameters(n: Node, src: string) returns (parameters: seq<ParameterStructure>)
    ensures parameters == ParametersOf(n, src)
  {
    parameters := [];
    var node := ChildByFieldName(n, "parameters");
    if node.Some? {
      var cs := node.value.children;
      var i := 0;
      while i < |cs|
        invariant i <= |cs|
        invariant parameters == ParametersIn(cs[..i], src)
      {
        assert cs[..i + 1][..i] == cs[..i];
        assert ParametersIn(cs[..i + 1], src) ==
          parameters + (if cs[i].kind == "formal_parameter" then OptSeq(ParameterOf(cs[i], src)) else []);
        if cs[i].kind == "formal_parameter" {
          var parameter := ParseParameter(cs[i], src);
          if parameter.Some? {
            parameters := parameters + [parameter.value];
          }
        }
        i := i + 1;
      }
      assert cs[..i] == cs;
    }
  }

  /** A formal parameter with a type and a name. */
  predicate FullParameter(p: Node) {
    p.kind == "formal_parameter" && ChildByFieldName(p, "type").Some? && ChildByFieldName(p, "name").Some?
  }

  /** Formal parameters that all have a type and a name are all listed, in
      order. */
  lemma {:induction false} ParametersComplete(cs: seq<Node>, src: string)
    requires forall i :: 0 <= i < |cs| ==> FullParameter(cs[i])
    ensures |ParametersIn(cs, src)| == |cs|
    ensures forall i :: 0 <= i < |cs| ==> Some(ParametersIn(cs, src)[i]) == ParameterOf(cs[i], src)
    decreases |cs|
  {
    if cs != [] {
      var init := cs[..|cs| - 1];
      var last := cs[|cs| - 1];
      ParametersComplete(init, src);
      assert ParametersIn(cs, src) == ParametersIn(init, src) + [ParameterOf(last, src).value];
      forall i | 0 <= i < |cs|
        ensures Some(ParametersIn(cs, src)[i]) == ParameterOf(cs[i], src)
      {
        if i < |init| {
          assert ParametersIn(cs, src)[i] == ParametersIn(init, src)[i];
          assert init[i] == cs[i];
        }
      }
    }
  }

  /** Every parameter comes from a formal parameter child. */
  lemma {:induction false} ParametersSound(cs: seq<Node>, src: string)
    ensures |ParametersIn(cs, src)| <= |cs|
    ensures forall x :: x in ParametersIn(cs, src) ==>
      exists i :: 0 <= i < |cs| && cs[i].kind == "formal_parameter" && ParameterOf(cs[i], src) == Some(x)
    decreases |cs|
  {
    if cs != [] {
      var init := cs[..|cs| - 1];
      ParametersSound(init, src);
      forall x | x in ParametersIn(cs, src)
        ensures exists i :: 0 <= i < |cs| && cs[i].kind == "formal_parameter" && ParameterOf(cs[i], src) == Some(x)
      {
        if x in ParametersIn(init, src) {
          var i :| 0 <= i < |init| && init[i].kind == "formal_parameter" && ParameterOf(init[i], src) == Some(x);
          assert init[i] == cs[i];
        } else {
          assert ParameterOf(cs[|cs| - 1], src) == Some(x);
        }
      }
    }
  }

  // ---------------------------------------------------------------------
  // Fields

  /** What `parse_field` returns for one declarator of a field declaration:
      a field exactly when the declaration has a `type` and the declarator
      a `name`. */
  function FieldOf(field: Node, declarator: Node, src: string): (r: Option<FieldStructure>)
    ensures r.Some? <==> ChildByFieldName(field, "type").Some? && ChildByFieldName(declarator, "name").Some?
    ensures r.Some? ==> r.value.documentation == DocumentationAsWritten(field.prevSiblings, src)
  {
    match ChildByFieldName(field, "type")
    case None => None
    case Some(t) =>
      match ChildByFieldName(declarator, "name")
      case None => None
      case Some(nm) =>
        Some(FieldStructure(Text(nm, src), Text(t, src), ModifiersIn(field.children, src),
          AnnotationsIn(field.children, src), DocumentationAsWritten(field.prevSiblings, src)))
  }

  /** The fields of the `variable_declarator` nodes among `ds`. */
  function DeclaratorFields(field: Node, ds: seq<Node>, src: string): seq<FieldStructure>
    decreases |ds|
  {
    if ds == [] then []
    else
      var last := ds[|ds| - 1];
      DeclaratorFields(field, ds[..|ds| - 1], src) +
        (if last.kind == "variable_declarator" then OptSeq(FieldOf(field, last, src)) else [])
  }

  /** The fields of the `field_declaration` nodes among `cs`. */
  function FieldsIn(cs: seq<Node>, src: string): seq<FieldStructure>
    decreases |cs|
  {
    if cs == [] then []
    else
      var last := cs[|cs| - 1];
      FieldsIn(cs[..|cs| - 1], src) + (if last.kind == "field_declaration" then DeclaratorFields(last, last.children, src) else [])
  }

  /** What `extract_fields` returns. */
  function FieldsOf(n: Node, src: string): seq<FieldStructure> {
    match ChildByFieldName(n, "body")
    case None => []
    case Some(body) => FieldsIn(body.children, src)
  }

  /** `parse_field`. */
  method ParseField(field: Node, declarator: Node, src: string) returns (result: Option<FieldStructure>)
    ensures result == FieldOf(field, declarator, src)
  {
    var typeNode := ChildByFieldName(field, "type");
    if typeNode.None? {
      return None;
    }
    var typeName := Text(typeNode.value, src);
    var modifiers := ExtractModifiers(field, src);
    var annotations := ExtractAnnotations(field, src);
    var documentation := ExtractDocumentation(field, src);
    var nameNode := ChildByFieldName(declarator, "name");
    if nameNode.None? {
      return None;
    }
    return Some(FieldStructure(Text(nameNode.value, src), typeName, modifiers, annotations, documentation));
  }

  /** The inner loop of `extract_fields`, over one declaration's children. */
  method ParseDeclarators(field: Node, src: string) returns (fields: seq<FieldStructure>)
    ensures fields == DeclaratorFields(field, field.children, src)
  {
    var ds := field.children;
    fields := [];
    var j := 0;
    while j < |ds|
      invariant j <= |ds|
      invariant fields == DeclaratorFields(field, ds[..j], src)
    {
      assert ds[..j + 1][..j] == ds[..j];
      if ds[j].kind == "variable_declarator" {
        var f := ParseField(field, ds[j], src);
        if f.Some? {
          fields := fields + [f.value];
        }
      }
      j := j + 1;
    }
    assert ds[..j] == ds;
  }

  /** `extract_fields`. */
  method ExtractFields(n: Node, src: string) returns (fields: seq<FieldStructure>)
    ensures fields == FieldsOf(n, src)
  {
    fields := [];
    var body := ChildByFieldName(n, "body");
    if body.Some? {
      var cs := body.value.children;
      var i := 0;
      while i < |cs|
        invariant i <= |cs|
        invariant fields == FieldsIn(cs[..i], src)
      {
        assert cs[..i + 1][..i] == cs[..i];
        if cs[i].kind == "field_declaration" {
          var declared := ParseDeclarators(cs[i], src);
          fields := fields + declared;
        }
        i := i + 1;
      }
      assert cs[..i] == cs;
    }
  }

  /** A declaration without a type gives no field. */
  lemma {:induction false} DeclaratorFieldsUntyped(field: Node, ds: seq<Node>, src: string)
    requires ChildByFieldName(field, "type").None?
    ensures DeclaratorFields(field, ds, src) == []
    decreases |ds|
  {
    if ds != [] {
      DeclaratorFieldsUntyped(field, ds[..|ds| - 1], src);
    }
  }

  /** `int a, b;` declares two fields of type `int`: a typed declaration
      gives one field per named declarator, in order, all of its type. */
  lemma {:induction false} DeclaratorFieldsComplete(field: Node, ds: seq<Node>, src: string)
    requires ChildByFieldName(field, "type").Some?
    requires forall k :: 0 <= k < |ds| ==> ds[k].kind == "variable_declarator" && ChildByFieldName(ds[k], "name").Some?
    ensures |DeclaratorFields(field, ds, src)| == |ds|
    ensures forall k :: 0 <= k < |ds| ==>
      DeclaratorFields(field, ds, src)[k].name == Text(ChildByFieldName(ds[k], "name").value, src) &&
      DeclaratorFields(field, ds, src)[k].typeName == Text(ChildByFieldName(field, "type").value, src)
    decreases |ds|
  {
    if ds != [] {
      var init := ds[..|ds| - 1];
      var prev := DeclaratorFields(field, init, src);
      var o := FieldOf(field, ds[|ds| - 1], src);
      var all := DeclaratorFields(field, ds, src);
      DeclaratorFieldsComplete(field, init, src);
      assert o.Some? && all == prev + OptSeq(o);
      OptSeqAppended(all, prev, o);
      forall k | 0 <= k < |ds|
        ensures all[k].name == Text(ChildByFieldName(ds[k], "name").value, src) &&
          all[k].typeName == Text(ChildByFieldName(field, "type").value, src)
      {
        if k < |init| {
          assert all[k] == prev[k] && init[k] == ds[k];
        } else {
          assert k == |prev|;
        }
      }
    }
  }

  // ---------------------------------------------------------------------
  // Methods and constructors

  /** What `parse_method` returns: a method exactly when the node has a
      `name`, with the `type` field's text as return type or "void". */
  function MethodOf(m: Node, src: string): (r: Option<MethodStructure>)
    ensures r.Some? <==> ChildByFieldName(m, "name").Some?
    ensures r.Some? && ChildByFieldName(m, "type").None? ==> r.value.returnType == "void"
    ensures r.Some? ==> r.value.throws == ThrowsIn(m.children, src)
    ensures r.Some? ==> r.value.documentation == DocumentationAsWritten(m.prevSiblings, src)
  {
    match ChildByFieldName(m, "name")
    case None => None
    case Some(nm) =>
      var returnType := match ChildByFieldName(m, "type")
        case Some(t) => Text(t, src)
        case None => "void";
      Some(MethodStructure(Text(nm, src), returnType, ParametersOf(m, src), ModifiersIn(m.children, src),
        AnnotationsIn(m.children, src), TypeParametersOf(m, src), ThrowsIn(m.children, src), NodeRange(m),
        DocumentationAsWritten(m.prevSiblings, src)))
  }

  /** `parse_constructor` as written: name, modifiers and annotations come
      from the constructor's parent, which is the class body. */
  function ConstructorAsWritten(c: Node, parent: Node, src: string): (r: Option<MethodStructure>)
    ensures r.Some? <==> ChildByFieldName(parent, "name").Some?
    ensures r.Some? ==> r.value.name == Text(ChildByFieldName(parent, "name").value, src)
    ensures r.Some? ==> r.value.returnType == "void" && r.value.typeParameters == []
  {
    match ChildByFieldName(parent, "name")
    case None => None
    case Some(nm) =>
      Some(MethodStructure(Text(nm, src), "void", ParametersOf(c, src), ModifiersIn(parent.children, src),
        AnnotationsIn(parent.children, src), [], ThrowsIn(c.children, src), NodeRange(c),
        DocumentationAsWritten(c.prevSiblings, src)))
  }

  /** A constructor read from its own declaration: named by its own `name`
      field, with its own modifiers and annotations, return type "void" and
      no type parameters. */
  function ConstructorOf(c: Node, src: string): (r: Option<MethodStructure>)
    ensures r.Some? <==> ChildByFieldName(c, "name").Some?
    ensures r.Some? ==> r.value.returnType == "void" && r.value.typeParameters == []
  {
    match ChildByFieldName(c, "name")
    case None => None
    case Some(nm) =>
      Some(MethodStructure(Text(nm, src), "void", ParametersOf(c, src), ModifiersIn(c.children, src),
        AnnotationsIn(c.children, src), [], ThrowsIn(c.children, src), NodeRange(c),
        DocumentationAsWritten(c.prevSiblings, src)))
  }

  /** As written, a constructor whose parent (the class body) has no `name`
      field is dropped, however it is named itself: `class A { A() {} }`
      lists no constructor. */
  lemma ConstructorAsWrittenDropped(c: Node, body: Node, src: string)
    requires ChildByFieldName(body, "name").None? && ChildByFieldName(c, "name").Some?
    ensures ConstructorAsWritten(c, body, src).None?
    ensures ConstructorOf(c, src).Some? && ConstructorOf(c, src).value.name == Text(ChildByFieldName(c, "name").value, src)
  {
  }

  /** The method or constructor one child of `body` declares, as
      `extract_methods` parses it. */
  function MemberOf(c: Node, body: Node, src: string): Option<MethodStructure> {
    if c.kind == "method_declaration" then MethodOf(c, src)
    else if c.kind == "constructor_declaration" then ConstructorAsWritten(c, body, src)
    else None
  }

  /** The methods and constructors among the children `cs` of `body`, in
      order. */
  function MethodsIn(cs: seq<Node>, body: Node, src: string): seq<MethodStructure> {
    Gather(c => MemberOf(c, body, src), cs)
  }

  /** What `extract_methods` returns. */
  function MethodsOf(n: Node, src: string): seq<MethodStructure> {
    match ChildByFieldName(n, "body")
    case None => []
    case Some(body) => MethodsIn(body.children, body, src)
  }

  /** `parse_method`. */
  method ParseMethod(m: Node, src: string) returns (result: Option<MethodStructure>)
    ensures result == MethodOf(m, src)
  {
    var nameNode := ChildByFieldName(m, "name");
    if nameNode.None? {
      return None;
    }
    var returnType := "void";
    var typeNode := ChildByFieldName(m, "type");
    if typeNode.Some? {
      returnType := Text(typeNode.value, src);
    }
    var modifiers := ExtractModifiers(m, src);
    var annotations := ExtractAnnotations(m, src);
    var typeParameters := ExtractTypeParameters(m, src);
    var parameters := ExtractParameters(m, src);
    var throws := ExtractThrows(m, src);
    var documentation := ExtractDocumentation(m, src);
    return Some(MethodStructure(Text(nameNode.value, src), returnType, parameters, modifiers, annotations,
      typeParameters, throws, NodeRange(m), documentation));
  }

  /** `parse_constructor`, with `parent` the node the constructor hangs
      under. */
  method ParseConstructor(c: Node, parent: Node, src: string) returns (result: Option<MethodStructure>)
    ensures result == ConstructorAsWritten(c, parent, src)
  {
    var nameNode := ChildByFieldName(parent, "name");
    if nameNode.None? {
      return None;
    }
    var modifiers := ExtractModifiers(parent, src);
    var annotations := ExtractAnnotations(parent, src);
    var parameters := ExtractParameters(c, src);
    var throws := ExtractThrows(c, src);
    var documentation := ExtractDocumentation(c, src);
    return Some(MethodStructure(Text(nameNode.value, src), "void", parameters, modifiers, annotations,
      [], throws, NodeRange(c), documentation));
  }

  /** `extract_methods`. */
  method ExtractMethods(n: Node, src: string) returns (methods: seq<MethodStructure>)
    ensures methods == MethodsOf(n, src)
  {
    methods := [];
    var body := ChildByFieldName(n, "body");
    if body.Some? {
      var cs := body.value.children;
      var i := 0;
      while i < |cs|
        invariant i <= |cs|
        invariant methods == MethodsIn(cs[..i], body.value, src)
      {
        MethodsInStep(cs, i, body.value, src);
        var member := None;
        if cs[i].kind == "method_declaration" {
          member := ParseMethod(cs[i], src);
        } else if cs[i].kind == "constructor_declaration" {
          member := ParseConstructor(cs[i], body.value, src);
        }
        assert member == MemberOf(cs[i], body.value, src);
        if member.Some? {
          methods := methods + [member.value];
        }
        i := i + 1;
      }
      assert cs[..i] == cs;
    }
  }

  /** Every listed method or constructor is declared by some body child;
      nested types and fields give none. */
  lemma MethodsInSound(cs: seq<Node>, body: Node, src: string)
    ensures |MethodsIn(cs, body, src)| <= |cs|
    ensures forall x :: x in MethodsIn(cs, body, src) ==> exists i :: 0 <= i < |cs| && MemberOf(cs[i], body, src) == Some(x)
  {
    GatherSound(c => MemberOf(c, body, src), cs);
  }

  /** Every named method declaration among the body's children is listed,
      and so is every constructor when the body itself has a `name`. */
  lemma MethodsInComplete(cs: seq<Node>, body: Node, src: string, i: nat)
    requires i < |cs|
    requires (cs[i].kind == "method_declaration" && ChildByFieldName(cs[i], "name").Some?) ||
      (cs[i].kind == "constructor_declaration" && ChildByFieldName(body, "name").Some?)
    ensures MemberOf(cs[i], body, src).Some? && MemberOf(cs[i], body, src).value in MethodsIn(cs, body, src)
  {
    GatherComplete(c => MemberOf(c, body, src), cs, i);
  }

  /** Under a body without a `name` field, which is every class body, only
      method declarations are listed: no constructor ever is. */
  lemma MethodsInOnlyMethods(cs: seq<Node>, body: Node, src: string)
    requires ChildByFieldName(body, "name").None?
    ensures forall x :: x in MethodsIn(cs, body, src) ==>
      exists i :: 0 <= i < |cs| && cs[i].kind == "method_declaration" && MethodOf(cs[i], src) == Some(x)
  {
    MethodsInSound(cs, body, src);
  }

  /** One more body child adds its method or constructor, if any. */
  lemma MethodsInStep(cs: seq<Node>, i: nat, body: Node, src: string)
    requires i < |cs|
    ensures MethodsIn(cs[..i + 1], body, src) == MethodsIn(cs[..i], body, src) + OptSeq(MemberOf(cs[i], body, src))
  {
    GatherStep(c => MemberOf(c, body, src), cs, i);
  }

  /** The values `f` gives the nodes of `cs`, in order, skipping `None`. */
  function Gather<T>(f: Node -> Option<T>, cs: seq<Node>): seq<T>
    decreases |cs|
  {
    if cs == [] then [] else Gather(f, cs[..|cs| - 1]) + OptSeq(f(cs[|cs| - 1]))
  }

  lemma GatherStep<T>(f: Node -> Option<T>, cs: seq<Node>, i: nat)
    requires i < |cs|
    ensures Gather(f, cs[..i + 1]) == Gather(f, cs[..i]) + OptSeq(f(cs[i]))
  {
    assert cs[..i + 1][..i] == cs[..i];
  }

  /** Each gathered value comes from a node, at most one per node. */
  lemma {:induction false} GatherSound<T>(f: Node -> Option<T>, cs: seq<Node>)
    ensures |Gather(f, cs)| <= |cs|
    ensures forall x :: x in Gather(f, cs) ==> exists i :: 0 <= i < |cs| && f(cs[i]) == Some(x)
    decreases |cs|
  {
    if cs != [] {
      var init := cs[..|cs| - 1];
      var o := f(cs[|cs| - 1]);
      var prev := Gather(f, init);
      var all := Gather(f, cs);
      GatherSound(f, init);
      forall x | x in all
        ensures exists i :: 0 <= i < |cs| && f(cs[i]) == Some(x)
      {
        OptSeqMember(all, prev, o, x);
        if x in prev {
          var i :| 0 <= i < |init| && f(init[i]) == Some(x);
          assert init[i] == cs[i];
        } else {
          assert f(cs[|cs| - 1]) == Some(x);
        }
      }
    }
  }

  /** The value of every node `f` gives one for is gathered. */
  lemma {:induction false} GatherComplete<T>(f: Node -> Option<T>, cs: seq<Node>, i: nat)
    requires i < |cs| && f(cs[i]).Some?
    ensures f(cs[i]).value in Gather(f, cs)
    decreases |cs|
  {
    var init := cs[..|cs| - 1];
    var o := f(cs[|cs| - 1]);
    if i < |init| {
      assert init[i] == cs[i];
      GatherComplete(f, init, i);
    }
    OptSeqMember(Gather(f, cs), Gather(f, init), o, f(cs[i]).value);
  }

  // ---------------------------------------------------------------------
  // Classes

  /** What `parse_class` returns: a class exactly for the five declaration
      kinds with a `name` field. Nested classes share the file's package. */
  function ClassOf(n: Node, src: string, package: Option<string>): (r: Option<ClassStructure>)
    ensures r.Some? <==> ClassKindOf(n.kind).Some? && ChildByFieldName(n, "name").Some?
    ensures r.Some? ==> r.value.kind == ClassKindOf(n.kind).value && r.value.range == NodeRange(n)
    ensures r.Some? ==> r.value.name == Text(ChildByFieldName(n, "name").value, src) && r.value.fqn == BuildFqn(package, r.value.name)
    ensures r.Some? ==> r.value.methods == MethodsOf(n, src)
    ensures r.Some? ==> r.value.documentation == DocumentationAsWritten(n.prevSiblings, src)
    decreases n, 2, 0
  {
    match ClassKindOf(n.kind)
    case None => None
    case Some(kind) =>
      match ChildByFieldName(n, "name")
      case None => None
      case Some(nameNode) =>
        var name := Text(nameNode, src);
        Some(ClassStructure(name, BuildFqn(package, name), kind, ModifiersIn(n.children, src),
          AnnotationsIn(n.children, src), ExtendsOf(n, src), ImplementsOf(n, src), TypeParametersOf(n, src),
          FieldsOf(n, src), MethodsOf(n, src), NestedOf(n, src, package), NodeRange(n),
          DocumentationAsWritten(n.prevSiblings, src)))
  }

  /** What `extract_nested_classes` returns: the classes among the `body`
      field's children. */
  function NestedOf(n: Node, src: string, package: Option<string>): seq<ClassStructure>
    decreases n, 1, 0
  {
    match ChildByFieldName(n, "body")
    case None => []
    case Some(body) => ClassesIn(body, |body.children|, src, package)
  }

  /** The classes declared by the first `k` children of `p`, in order
      (`extract_classes` on the root, the loop of `extract_nested_classes`
      on a body). */
  function ClassesIn(p: Node, k: nat, src: string, package: Option<string>): seq<ClassStructure>
    requires k <= |p.children|
    decreases p, 0, k
  {
    if k == 0 then []
    else
      var c := p.children[k - 1];
      ClassesIn(p, k - 1, src, package) + (if ClassKindOf(c.kind).Some? then OptSeq(ClassOf(c, src, package)) else [])
  }

  /** `parse_class`. */
  method ParseClass(n: Node, src: string, package: Option<string>) returns (result: Option<ClassStructure>)
    ensures result == ClassOf(n, src, package)
    decreases n, 2, 0
  {
    var kind := ClassKindOf(n.kind);
    if kind.None? {
      return None;
    }
    var nameNode := ChildByFieldName(n, "name");
    if nameNode.None? {
      return None;
    }
    var name := Text(nameNode.value, src);
    var modifiers := ExtractModifiers(n, src);
    var annotations := ExtractAnnotations(n, src);
    var implements := ExtractImplements(n, src);
    var typeParameters := ExtractTypeParameters(n, src);
    var fields := ExtractFields(n, src);
    var methods := ExtractMethods(n, src);
    var nested := ExtractNestedClasses(n, src, package);
    var documentation := ExtractDocumentation(n, src);
    return Some(ClassStructure(name, BuildFqn(package, name), kind.value, modifiers, annotations,
      ExtendsOf(n, src), implements, typeParameters, fields, methods, nested, NodeRange(n), documentation));
  }

  /** `extract_nested_classes`. */
  method ExtractNestedClasses(n: Node, src: string, package: Option<string>) returns (nested: seq<ClassStructure>)
    ensures nested == NestedOf(n, src, package)
    decreases n, 1, 0
  {
    var body := ChildByFieldName(n, "body");
    if body.None? {
      return [];
    }
    nested := ExtractClasses(body.value, src, package);
  }

  /** `extract_classes`: the classes among the children of `p`. */
  method ExtractClasses(p: Node, src: string, package: Option<string>) returns (classes: seq<ClassStructure>)
    ensures classes == ClassesIn(p, |p.children|, src, package)
    decreases p, 0, |p.children|
  {
    var cs := p.children;
    classes := [];
    var i := 0;
    while i < |cs|
      invariant i <= |cs|
      invariant classes == ClassesIn(p, i, src, package)
    {
      ClassesInStep(p, i, src, package);
      if ClassKindOf(cs[i].kind).Some? {
        var c := ParseClass(cs[i], src, package);
        if c.Some? {
          classes := classes + [c.value];
        }
      }
      i := i + 1;
    }
  }

  lemma ClassesInStep(p: Node, i: nat, src: string, package: Option<string>)
    requires i < |p.children|
    ensures ClassesIn(p, i + 1, src, package) == ClassesIn(p, i, src, package) +
      (if ClassKindOf(p.children[i].kind).Some? then OptSeq(ClassOf(p.children[i], src, package)) else [])
  {
  }

  /** Every class of a tree, nested ones included, is qualified by the
      same package. */
  predicate PackagedFqns(c: ClassStructure, package: Option<string>)
    decreases c
  {
    c.fqn == BuildFqn(package, c.name) &&
    forall k :: 0 <= k < |c.nestedClasses| ==> PackagedFqns(c.nestedClasses[k], package)
  }

  /** A parsed class and all its nested classes carry the file's package
      in their fully qualified names, never the enclosing class's name. */
  lemma {:induction false} ClassFqns(n: Node, src: string, package: Option<string>)
    ensures ClassOf(n, src, package).Some? ==> PackagedFqns(ClassOf(n, src, package).value, package)
    decreases n, 2, 0
  {
    if ClassOf(n, src, package).Some? {
      NestedFqns(n, src, package);
    }
  }

  lemma {:induction false} NestedFqns(n: Node, src: string, package: Option<string>)
    ensures forall k :: 0 <= k < |NestedOf(n, src, package)| ==> PackagedFqns(NestedOf(n, src, package)[k], package)
    decreases n, 1, 0
  {
    match ChildByFieldName(n, "body")
    case None =>
    case Some(body) =>
      ClassesInFqns(body, |body.children|, src, package);
  }

  lemma {:induction false} ClassesInFqns(p: Node, k: nat, src: string, package: Option<string>)
    requires k <= |p.children|
    ensures forall j :: 0 <= j < |ClassesIn(p, k, src, package)| ==> PackagedFqns(ClassesIn(p, k, src, package)[j], package)
    decreases p, 0, k
  {
    if k > 0 {
      var c := p.children[k - 1];
      ClassesInFqns(p, k - 1, src, package);
      ClassFqns(c, src, package);
    }
  }

  /** A declaration of one of the five kinds with a name. */
  predicate NamedClass(n: Node) {
    ClassKindOf(n.kind).Some? && ChildByFieldName(n, "name").Some?
  }

  /** No named class declaration is dropped: each one among the first `k`
      children is listed (so both nested classes of a class appear among
      its nested classes). */
  lemma {:induction false} ClassesInListed(p: Node, k: nat, j: nat, src: string, package: Option<string>)
    requires j < k <= |p.children|
    requires NamedClass(p.children[j])
    ensures ClassOf(p.children[j], src, package).Some?
    ensures ClassOf(p.children[j], src, package).value in ClassesIn(p, k, src, package)
    decreases k
  {
    if j < k - 1 {
      ClassesInListed(p, k - 1, j, src, package);
      ClassesInGrow(p, k, j, src, package);
    } else {
      ClassesInLast(p, k, src, package);
    }
  }

  lemma ClassesInGrow(p: Node, k: nat, j: nat, src: string, package: Option<string>)
    requires j < k <= |p.children|
    requires ClassOf(p.children[j], src, package).Some?
    requires ClassOf(p.children[j], src, package).value in ClassesIn(p, k - 1, src, package)
    ensures ClassOf(p.children[j], src, package).value in ClassesIn(p, k, src, package)
  {
    ClassesInStep(p, k - 1, src, package);
  }

  lemma ClassOfNamed(c: Node, src: string, package: Option<string>)
    requires NamedClass(c)
    ensures ClassKindOf(c.kind).Some? && ClassOf(c, src, package).Some?
  {
  }

  lemma ClassesInLast(p: Node, k: nat, src: string, package: Option<string>)
    requires 0 < k <= |p.children|
    requires NamedClass(p.children[k - 1])
    ensures ClassOf(p.children[k - 1], src, package).Some?
    ensures ClassOf(p.children[k - 1], src, package).value in ClassesIn(p, k, src, package)
  {
    var c := p.children[k - 1];
    var o := ClassOf(c, src, package);
    var xs := ClassesIn(p, k - 1, src, package);
    var ys := ClassesIn(p, k, src, package);
    ClassOfNamed(c, src, package);
    ClassesInStep(p, k - 1, src, package);
    OptSeqLast(ys, xs, o);
  }

  /** The value of `o` is in `ys` when `ys` appends `o`'s contents to `xs`. */
  lemma OptSeqLast<T>(ys: seq<T>, xs: seq<T>, o: Option<T>)
    requires o.Some? && ys == xs + OptSeq(o)
    ensures o.value in ys
  {
    assert ys[|xs|] == o.value;
  }

  // ---------------------------------------------------------------------
  // The whole file

  /** What `extract_structure` returns for a syntax tree. */
  function StructureOf(root: Node, src: string): JavaStructurePreview {
    var package := PackageIn(root.children, src);
    JavaStructurePreview(package, ImportsIn(root.children, src),
      ClassesIn(root, |root.children|, src, package), AnnotationsOfNodes(root.children, src))
  }

  /** `extract_structure`. */
  method ExtractStructure(root: Node, src: string) returns (preview: JavaStructurePreview)
    ensures preview == StructureOf(root, src)
  {
    var package := ExtractPackage(root, src);
    var imports := ExtractImports(root, src);
    var classes := ExtractClasses(root, src, package);
    var fileAnnotations := ExtractFileAnnotations(root, src);
    preview := JavaStructurePreview(package, imports, classes, fileAnnotations);
  }

  /** Every class of a file, at any depth, is qualified by the file's
      package; with a package, every fully qualified name starts with it
      and a dot. */
  lemma StructureFqns(root: Node, src: string)
    ensures forall j :: 0 <= j < |StructureOf(root, src).topLevelClasses| ==>
      PackagedFqns(StructureOf(root, src).topLevelClasses[j], StructureOf(root, src).package)
    ensures StructureOf(root, src).package.Some? ==>
      forall j :: 0 <= j < |StructureOf(root, src).topLevelClasses| ==>
        StartsWith(StructureOf(root, src).topLevelClasses[j].fqn, StructureOf(root, src).package.value + ".")
  {
    var package := PackageIn(root.children, src);
    ClassesInFqns(root, |root.children|, src, package);
  }
}
