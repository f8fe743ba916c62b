/** The shared records of the indexer: declarations found in Java code,
    search queries and results, and the reference graph. */
module Types {
  import opened Strings

  /** Kind of a top-level Java declaration. `AnnotationType` is the
      `@interface` kind, whose Rust variant is spelled `Annotation`. */
  datatype DeclarationKind = Class | Interface | Enum | Record | AnnotationType

  /** The variant name the source prints with `{:?}`. */
  function KindName(k: DeclarationKind): (r: string)
    ensures r != [] && NoSpace(r)
  {
    match k
    case Class => "Class"
    case Interface => "Interface"
    case Enum => "Enum"
    case Record => "Record"
    case AnnotationType => "Annotation"
  }

  /** One-based line and column span. */
  datatype SourceRange = SourceRange(startLine: nat, startColumn: nat, endLine: nat, endColumn: nat)

  /** An annotation use, with its key/value arguments in source order. */
  datatype Annotation = Annotation(name: string, values: seq<(string, string)>)

  datatype Parameter = Parameter(name: string, typeName: string, annotations: seq<Annotation>)

  datatype Field = Field(name: string, typeName: string, modifiers: seq<string>, annotations: seq<Annotation>)

  datatype Method = Method(
    name: string,
    returnType: string,
    parameters: seq<Parameter>,
    modifiers: seq<string>,
    annotations: seq<Annotation>,
    range: SourceRange,
    bodyRange: Option<SourceRange>)

  datatype Declaration = Declaration(
    name: string,
    kind: DeclarationKind,
    modifiers: seq<string>,
    annotations: seq<Annotation>,
    signature: string,
    extendsClass: Option<string>,
    implements: seq<string>,
    fields: seq<Field>,
    methods: seq<Method>,
    range: SourceRange,
    documentation: Option<string>)

  /** A parsed Java source file: its module and package, imports and
      top-level declarations, and the hash of its text. */
  datatype JavaFile = JavaFile(
    path: string,
    moduleName: Option<string>,
    package: string,
    imports: seq<string>,
    declarations: seq<Declaration>,
    sourceHash: string)

  datatype XmlFile = XmlFile(path: string, rootElement: string, content: string)

  datatype PropertiesFile = PropertiesFile(path: string, properties: seq<(string, string)>)

  datatype SearchKind = Exact | Fuzzy | Regex

  /** The `{:?}` name of a search kind, the first half of a cache key. */
  function SearchKindName(k: SearchKind): (r: string)
    ensures r != [] && ':' !in r
  {
    match k
    case Exact => "Exact"
    case Fuzzy => "Fuzzy"
    case Regex => "Regex"
  }

  datatype SearchFilter =
    | KindFilter(kind: DeclarationKind)
    | AnnotationFilter(annotation: string)
    | PackageFilter(package: string)
    | ModuleFilter(moduleName: string)

  datatype SearchQuery = SearchQuery(query: string, kind: SearchKind, filters: seq<SearchFilter>, limit: Option<nat>)

  /** A hit; the `f32` score is a real number here. */
  datatype SearchResult = SearchResult(declaration: Declaration, filePath: string, score: real, preview: string)

  datatype RelationshipType = Extends | Implements | Uses | References | DependsOn

  datatype GraphNode = GraphNode(id: string, labelText: string, kind: DeclarationKind, filePath: string)

  datatype GraphEdge = GraphEdge(from: string, to: string, relationship: RelationshipType)

  datatype ReferenceGraph = ReferenceGraph(nodes: seq<GraphNode>, edges: seq<GraphEdge>)
}
