/** The index document projection: a declaration becomes a document of
    schema fields, and a stored document becomes a declaration and a
    search result again. The full-text engine behind it is a store of
    committed documents; which documents match a query, and in what rank
    order, is an input. */
module Indexer {
  import opened Strings
  import opened Types

  /** A stored value. The JSON texts of the field and method lists are
      kept as the lists they encode. */
  datatype Value = Text(s: string) | U64(n: nat) | FieldsJson(fields: seq<Field>) | MethodsJson(methods: seq<Method>)

  /** A document: the values added to each field, in the order added. */
  datatype Document = Document(
    name: seq<Value>,
    package: seq<Value>,
    filePath: seq<Value>,
    signature: seq<Value>,
    documentation: seq<Value>,
    kind: seq<Value>,
    modifiers: seq<Value>,
    annotations: seq<Value>,
    extendsClass: seq<Value>,
    implements: seq<Value>,
    fields: seq<Value>,
    methods: seq<Value>,
    startLine: seq<Value>,
    endLine: seq<Value>,
    startColumn: seq<Value>,
    endColumn: seq<Value>,
    sourceHash: seq<Value>)

  const EmptyDocument := Document([], [], [], [], [], [], [], [], [], [], [], [], [], [], [], [], [])

  /** `get_first`: the first value added to a field. */
  function FirstValue(vs: seq<Value>): Option<Value>
  {
    if vs == [] then None else Some(vs[0])
  }

  /** The `get_text` closure: the first value as a string, else `""`. */
  function TextOf(vs: seq<Value>): string
  {
    var v := FirstValue(vs);
    if v.Some? && v.value.Text? then v.value.s else ""
  }

  /** The `get_u64` closure: the first value as a number, else 0. */
  function U64Of(vs: seq<Value>): nat
  {
    var v := FirstValue(vs);
    if v.Some? && v.value.U64? then v.value.n else 0
  }

  /** The stored field list, or the empty list when it is missing or does
      not decode. */
  function FieldsOf(vs: seq<Value>): seq<Field>
  {
    var v := FirstValue(vs);
    if v.Some? && v.value.FieldsJson? then v.value.fields else []
  }

  /** The stored method list, or the empty list when it is missing or does
      not decode. */
  function MethodsOf(vs: seq<Value>): seq<Method>
  {
    var v := FirstValue(vs);
    if v.Some? && v.value.MethodsJson? then v.value.methods else []
  }

  /** The annotation names, in order. */
  function AnnotationNames(annotations: seq<Annotation>): (r: seq<string>)
    ensures |r| == |annotations|
  {
    if annotations == [] then [] else AnnotationNames(annotations[..|annotations| - 1]) + [annotations[|annotations| - 1].name]
  }

  /** The document `create_document` builds: one value per field, with the
      documentation and extends fields present only when the declaration
      has them. */
  function DocumentOf(d: Declaration, file: JavaFile): Document
  {
    Document(
      [Text(d.name)],
      [Text(file.package)],
      [Text(file.path)],
      [Text(d.signature)],
      if d.documentation.Some? then [Text(d.documentation.value)] else [],
      [Text(KindName(d.kind))],
      [Text(Join(d.modifiers, " "))],
      [Text(Join(AnnotationNames(d.annotations), " "))],
      if d.extendsClass.Some? then [Text(d.extendsClass.value)] else [],
      [Text(Join(d.implements, " "))],
      [FieldsJson(d.fields)],
      [MethodsJson(d.methods)],
      [U64(d.range.startLine)],
      [U64(d.range.endLine)],
      [U64(d.range.startColumn)],
      [U64(d.range.endColumn)],
      [Text(file.sourceHash)])
  }

  /** `create_document`: each `add_*` call appends one value to its
      field's list; documentation and extends get a value only when the
      declaration has one. */
  method CreateDocument(declaration: Declaration, javaFile: JavaFile) returns (doc: Document)
    ensures doc == DocumentOf(declaration, javaFile)
  {
    var documentation: seq<Value> := [];
    if declaration.documentation.Some? {
      documentation := documentation + [Text(declaration.documentation.value)];
    }
    var extendsClass: seq<Value> := [];
    if declaration.extendsClass.Some? {
      extendsClass := extendsClass + [Text(declaration.extendsClass.value)];
    }
    var annotations := AnnotationNames(declaration.annotations);
    doc := Document(
      [Text(declaration.name)], [Text(javaFile.package)], [Text(javaFile.path)], [Text(declaration.signature)],
      documentation, [Text(KindName(declaration.kind))], [Text(Join(declaration.modifiers, " "))],
      [Text(Join(annotations, " "))], extendsClass, [Text(Join(declaration.implements, " "))],
      [FieldsJson(declaration.fields)], [MethodsJson(declaration.methods)],
      [U64(declaration.range.startLine)], [U64(declaration.range.endLine)],
      [U64(declaration.range.startColumn)], [U64(declaration.range.endColumn)], [Text(javaFile.sourceHash)]);
  }

  /** The kind read back from its stored name; any other text is `Class`. */
  function KindFromText(s: string): DeclarationKind
  {
    if s == "Class" then Class
    else if s == "Interface" then Interface
    else if s == "Enum" then Enum
    else if s == "Record" then Record
    else if s == "Annotation" then AnnotationType
    else Class
  }

  /** Every kind is read back as itself; unknown text becomes `Class`. */
  lemma KindRoundTrip(k: DeclarationKind, s: string)
    ensures KindFromText(KindName(k)) == k
    ensures (forall k' :: s != KindName(k')) ==> KindFromText(s) == Class
  {
    if forall k' :: s != KindName(k') {
      assert s != KindName(Class) && s != KindName(Interface) && s != KindName(Enum);
      assert s != KindName(Record) && s != KindName(AnnotationType);
    }
  }

  /** `Some(text).filter(|s| !s.is_empty())`. */
  function NonEmpty(s: string): (r: Option<string>)
    ensures r == None <==> s == ""
  {
    if s == "" then None else Some(s)
  }

  /** `create_declaration_from_doc`. Annotations are not read back. */
  function DeclarationFromDoc(doc: Document): Declaration
  {
    Declaration(
      TextOf(doc.name),
      KindFromText(TextOf(doc.kind)),
      SplitWhitespace(TextOf(doc.modifiers)),
      [],
      TextOf(doc.signature),
      NonEmpty(TextOf(doc.extendsClass)),
      SplitWhitespace(TextOf(doc.implements)),
      FieldsOf(doc.fields),
      MethodsOf(doc.methods),
      RangeOf(doc),
      NonEmpty(TextOf(doc.documentation)))
  }

  /** The source range read back from the four numeric fields. */
  function RangeOf(doc: Document): SourceRange
  {
    SourceRange(U64Of(doc.startLine), U64Of(doc.startColumn), U64Of(doc.endLine), U64Of(doc.endColumn))
  }

  predicate Words(ws: seq<string>)
  {
    forall i :: 0 <= i < |ws| ==> IsWord(ws[i])
  }

  /** An optional text that is empty is read back as absent. */
  function DropEmpty(o: Option<string>): Option<string>
  {
    if o == Some("") then None else o
  }

  /** What survives the round trip: annotations are lost, and an empty
      extends or documentation text becomes absent. */
  function Projected(d: Declaration): Declaration
  {
    d.(annotations := [], extendsClass := DropEmpty(d.extendsClass), documentation := DropEmpty(d.documentation))
  }

  /** Reading back a created document gives the declaration up to the
      projection, when modifiers and implemented names are whitespace-free
      words. */
  lemma RoundTrip(d: Declaration, file: JavaFile)
    requires Words(d.modifiers) && Words(d.implements)
    ensures DeclarationFromDoc(DocumentOf(d, file)) == Projected(d)
  {
    var doc := DocumentOf(d, file);
    SplitWhitespaceJoin(d.modifiers);
    SplitWhitespaceJoin(d.implements);
    KindRoundTrip(d.kind, "");
  }

  /** The round trip is exact precisely for declarations without
      annotations and without an empty extends or documentation text. */
  lemma RoundTripExact(d: Declaration, file: JavaFile)
    requires Words(d.modifiers) && Words(d.implements)
    ensures DeclarationFromDoc(DocumentOf(d, file)) == d <==>
      d.annotations == [] && d.extendsClass != Some("") && d.documentation != Some("")
  {
    RoundTrip(d, file);
  }

  /** A modifier list holding one empty string comes back empty, and a
      modifier with a space inside comes back split. */
  lemma ModifiersLossy(d: Declaration, file: JavaFile)
    requires d.modifiers == [""] || d.modifiers == ["a b"]
    ensures DeclarationFromDoc(DocumentOf(d, file)).modifiers != d.modifiers
  {
    var text := Join(d.modifiers, " ");
    if d.modifiers == [""] {
      assert text == "";
    } else {
      assert text == "a b" == "a" + " b";
      SplitWhitespaceOfToken("a", " b");
      assert SplitWhitespace(text) == ["a"] + SplitWhitespace(" b");
    }
  }

  /** A document missing its numeric and list fields reads as zeros and
      empty lists. */
  lemma MissingFieldsDefault(doc: Document)
    requires doc.startLine == [] && doc.endLine == [] && doc.startColumn == [] && doc.endColumn == []
    requires doc.fields == [] && doc.methods == []
    ensures DeclarationFromDoc(doc).range == SourceRange(0, 0, 0, 0)
    ensures DeclarationFromDoc(doc).fields == [] && DeclarationFromDoc(doc).methods == []
  {
  }

  /** `document_to_result`: the declaration read back, the stored path, a
      fixed score of 1.0 and the preview `"<name>: <signature>"`. */
  function DocumentToResult(doc: Document): SearchResult
  {
    SearchResult(DeclarationFromDoc(doc), TextOf(doc.filePath), 1.0, TextOf(doc.name) + ": " + TextOf(doc.signature))
  }

  /** A result is the document read back, with its stored path and a
      score of 1.0. */
  lemma ResultOfDocument(doc: Document)
    ensures DocumentToResult(doc).score == 1.0
    ensures DocumentToResult(doc).declaration == DeclarationFromDoc(doc)
    ensures DocumentToResult(doc).filePath == TextOf(doc.filePath)
  {
  }

  /** The preview of a result for an indexed declaration names it and
      gives its signature, and the result carries the file's path. */
  lemma ResultOfIndexed(d: Declaration, file: JavaFile)
    ensures DocumentToResult(DocumentOf(d, file)).preview == d.name + ": " + d.signature
    ensures DocumentToResult(DocumentOf(d, file)).filePath == file.path
    ensures DocumentToResult(DocumentOf(d, file)).declaration.name == d.name
  {
  }

  /** The documents for the first `n` declarations of a file, in order. */
  function DocumentsOf(declarations: seq<Declaration>, file: JavaFile, n: nat): (r: seq<Document>)
    requires n <= |declarations|
    ensures |r| == n
  {
    if n == 0 then [] else DocumentsOf(declarations, file, n - 1) + [DocumentOf(declarations[n - 1], file)]
  }

  lemma {:induction false} DocumentsOfAt(declarations: seq<Declaration>, file: JavaFile, n: nat, i: nat)
    requires i < n <= |declarations|
    ensures DocumentsOf(declarations, file, n)[i] == DocumentOf(declarations[i], file)
  {
    if i < n - 1 {
      DocumentsOfAt(declarations, file, n - 1, i);
      assert DocumentsOf(declarations, file, n)[i] == DocumentsOf(declarations, file, n - 1)[i];
    }
  }

  /** The number of hits `search` keeps: the query's limit, 100 by default. */
  function Limit(q: SearchQuery): nat
  {
    match q.limit
    case Some(n) => n
    case None => 100
  }

  /** Adding the next declaration's document extends the pending documents
      by one more of the file's documents. */
  lemma PendingStep(pending: seq<Document>, declarations: seq<Declaration>, file: JavaFile, i: nat, doc: Document)
    requires i < |declarations| && doc == DocumentOf(declarations[i], file)
    ensures (pending + DocumentsOf(declarations, file, i)) + [doc] == pending + DocumentsOf(declarations, file, i + 1)
  {
  }

  lemma Reassociate<T>(a: seq<T>, b: seq<T>, c: seq<T>)
    ensures a + (b + c) == a + b + c
  {
  }

  /** The index: documents added by the writer become searchable at commit. */
  class IndexManager {
    var committed: seq<Document>
    var pending: seq<Document>

    constructor ()
      ensures committed == [] && pending == []
    {
      committed := [];
      pending := [];
    }

    /** `writer.commit()`. */
    method Commit()
      modifies this
      ensures committed == old(committed) + old(pending) && pending == []
    {
      committed := committed + pending;
      pending := [];
    }

    /** `index_java_file`: one document per declaration, then a commit. */
    method IndexJavaFile(javaFile: JavaFile)
      modifies this
      ensures committed == old(committed) + old(pending) + DocumentsOf(javaFile.declarations, javaFile, |javaFile.declarations|)
      ensures pending == []
    {
      ghost var pending0 := pending;
      for i := 0 to |javaFile.declarations|
        invariant committed == old(committed)
        invariant pending == pending0 + DocumentsOf(javaFile.declarations, javaFile, i)
      {
        var doc := CreateDocument(javaFile.declarations[i], javaFile);
        PendingStep(pending0, javaFile.declarations, javaFile, i, doc);
        pending := pending + [doc];
      }
      ghost var added := DocumentsOf(javaFile.declarations, javaFile, |javaFile.declarations|);
      Commit();
      Reassociate(old(committed), pending0, added);
    }

    /** `search`. `hits` are the committed documents the query matches,
        best first, as the full-text engine ranks them; the first `limit`
        become results. */
    method Search(query: SearchQuery, hits: seq<Document>) returns (results: seq<SearchResult>)
      requires forall i :: 0 <= i < |hits| ==> hits[i] in committed
      ensures |results| == if Limit(query) < |hits| then Limit(query) else |hits|
      ensures forall i :: 0 <= i < |results| ==> results[i] == DocumentToResult(hits[i])
    {
      var top := if Limit(query) < |hits| then Limit(query) else |hits|;
      results := [];
      for i := 0 to top
        invariant results == ResultsOf(hits, i)
      {
        var result := DocumentToResult(hits[i]);
        results := results + [result];
      }
      forall i | 0 <= i < |results|
        ensures results[i] == DocumentToResult(hits[i])
      {
        ResultsOfAt(hits, top, i);
      }
    }
  }

  /** The results for the first `n` hits, in order. */
  function ResultsOf(hits: seq<Document>, n: nat): (r: seq<SearchResult>)
    requires n <= |hits|
    ensures |r| == n
  {
    if n == 0 then [] else ResultsOf(hits, n - 1) + [DocumentToResult(hits[n - 1])]
  }

  lemma {:induction false} ResultsOfAt(hits: seq<Document>, n: nat, i: nat)
    requires i < n <= |hits|
    ensures ResultsOf(hits, n)[i] == DocumentToResult(hits[i])
  {
    if i < n - 1 {
      ResultsOfAt(hits, n - 1, i);
      assert ResultsOf(hits, n)[i] == ResultsOf(hits, n - 1)[i];
    }
  }

  /** Every result of a search is a committed document read back with
      score 1.0, and a limit of `n` yields at most `n` results. */
  lemma SearchResultsShape(committed: seq<Document>, hits: seq<Document>, query: SearchQuery, results: seq<SearchResult>)
    requires forall i :: 0 <= i < |hits| ==> hits[i] in committed
    requires |results| == (if Limit(query) < |hits| then Limit(query) else |hits|)
    requires forall i :: 0 <= i < |results| ==> results[i] == DocumentToResult(hits[i])
    ensures |results| <= Limit(query)
    ensures forall r :: r in results ==> r.score == 1.0 && exists doc :: doc in committed && r.declaration == DeclarationFromDoc(doc)
  {
    forall r | r in results
      ensures r.score == 1.0 && exists doc :: doc in committed && r.declaration == DeclarationFromDoc(doc)
    {
      var i :| 0 <= i < |results| && results[i] == r;
      ResultOfDocument(hits[i]);
    }
  }
}
