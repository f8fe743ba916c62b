# code-insight core, modelled in Dafny

code-insight indexes Java source trees. It has four parts:

- a structure extractor that walks a syntax tree and builds a typed model of every type declaration;
- an index manager that stores declarations as search documents;
- a query engine that filters, sorts and caches search results;
- helpers around them: a `.properties` reader, a POM reader, Spring XML and Maven property readers, a Maven module dependency graph, a type reference graph, and a graph visualiser.

This project models that core and proves properties of it.

Each source file has one module:

| module | file | form |
|---|---|---|
| `JavaStructure` | `java_structure.dfy` | the richer extractor (`src/parser/java_structure.rs`). Each `extract_*` loop is a method proved equal to a recursive specification function. |
| `JavaParser` | `java_parser.dfy` | the older flat extractor (`src/parser/java.rs`). It holds the closed node-kind classifier, the token-scanned modifiers, the signature builder and `parse_root`, which mutates a file record. |
| `Query` | `query.dfy` | `QueryEngine`, a class whose cache field is a `map<string, seq<SearchResult>>`. |
| `Sorting` | `sorting.dfy` | a stable insertion sort by a comparison. It stands for `sort_by`. |
| `Indexer` | `indexer.dfy` | `IndexManager`, a class over an abstract document store. It holds the document projection and its partial inverse. |
| `Properties` | `properties.dfy` | the `.properties` line parser, unescaper, map view and merge. |
| `MavenParser` | `maven_parser.dfy` | the POM event state machine. |
| `Xml` | `xml.dfy` | root element detection, Spring beans and Maven properties, over abstract events (`XmlEvents`). |
| `Dependency` | `dependency.dfy` | the Maven `DependencyGraph` class and the analyser. |
| `Graph` | `graph.dfy` | `GraphBuilder`: declarations, type references, DFS cycle finding and BFS components. |
| `Visualization` | `visualization.dfy` | Mermaid and DOT emitters, focused graph, dependency matrix and summary. |

Supporting modules:

- `Strings` models the Rust string operations used (`trim`, `split`, `split_whitespace`, `lines`, `starts_with`, `trim_start_matches`, byte-wise ordering).
- `SyntaxTree` is the abstract syntax tree node. Each node has a kind string, a byte span, row/column positions, named fields, children and its previous siblings.
- `Types` holds the shared records of `src/types.rs`.

How the code is modelled:

- Loops in the source are `while` loops in methods. Each method's `ensures` ties its result to a specification function. Lemmas then state what the source promises about that function.
- Code that only computes is written as functions and lemmas.
- Collections whose iteration order Rust leaves unspecified (`HashMap`, `HashSet`) are stated over sets, multisets and maps.

Where the code's own comments or tests disagree with the code, the model follows the code:

- **Documentation association.** `src/types.rs:29` calls `documentation` the JavaDoc comments above the declaration, and the comment at `src/parser/java_structure.rs:729` says the same. `extract_documentation` walks back over every previous sibling, earlier declarations included, and returns the nearest `/**` comment it meets. The extractor follows that walk (`DocumentationAsWritten`). `DocumentationOf` is this model's own reading of "above this declaration": only comments directly in front of the declaration count. `DocumentationReadingsAgree` proves that the code finds the same comment whenever that reading finds one (see Findings).
- **Throws and constructors.** The extractor computes what `extract_throws` and `parse_constructor` do (`ThrowsAsWritten`, `ConstructorAsWritten`). The corrected readings `ThrowsOf` and `ConstructorOf` stand beside them (see Findings).
- **Tests that contradict their code.** The model follows the code in each case:
  - `src/graph/mod.rs:273-286` expects two components with no nodes.
  - `src/graph/visualization.rs:454-456` expects two nodes at depth 1.
  - `src/graph/visualization.rs:412` expects unquoted DOT edge ends.

## Model

| member | source | states |
|---|---|---|
| JavaStructure.NodeRange | src/parser/java_structure.rs:760-767 | every coordinate is the tree's zero-based row or column plus one |
| JavaStructure.BuildFqn | src/parser/java_structure.rs:743-748 | without a package the name itself; with one, the package, a dot, then the name |
| JavaStructure.BuildFqnInjective | src/parser/java_structure.rs:743-748 | within one package, equal fully qualified names mean equal class names |
| JavaStructure.ClassKindRoundTrip | src/parser/java_structure.rs:215-222 | a node kind maps to a class kind exactly when it is that kind's declaration string |
| JavaStructure.FirstOfKind | src/parser/java_structure.rs:147-151 | the index of the first child of the given kind, or none when no child has it |
| JavaStructure.ExtractPackage | src/parser/java_structure.rs:141-156 | the loop returns the package of the root's children |
| JavaStructure.PackageSpec | src/parser/java_structure.rs:141-156 | no package iff no package declaration has a scoped identifier child; a package is the trimmed text of such a child |
| JavaStructure.PackageFromSpec | src/parser/java_structure.rs:141-156 | the same characterisation for the children from a given index on |
| JavaStructure.OptSeq | src/parser/java_structure.rs:163-165 | an optional import contributes one name or none |
| JavaStructure.ExtractImports | src/parser/java_structure.rs:158-169 | the loop returns the imports of the root's children |
| JavaStructure.ImportsSpec | src/parser/java_structure.rs:158-169 | at most one import per child; an import is there iff some import declaration has it as the text of its `name` field |
| JavaStructure.ImportsSound | src/parser/java_structure.rs:158-169 | every import comes from some child with that import, and there are no more imports than children |
| JavaStructure.ImportsComplete | src/parser/java_structure.rs:158-169 | the import of every import declaration with a `name` field is among the imports |
| JavaStructure.FirstPiece | src/parser/java_structure.rs:397-402 | the first piece of a text split at `(` and whitespace: a prefix free of both, followed by one of them or by the end |
| JavaStructure.ExtractAnnotationValues | src/parser/java_structure.rs:420-483 | the loop returns the values of the annotation's arguments, or of its direct literals without arguments |
| JavaStructure.ExtractArgumentValue | src/parser/java_structure.rs:426-466 | the values one argument contributes: a key/value pair only when both fields exist, a literal or identifier as "value", each string or identifier element of an array, otherwise its trimmed text unless empty or punctuation |
| JavaStructure.ParseAnnotation | src/parser/java_structure.rs:378-418 | the method returns the annotation of the node |
| JavaStructure.AnnotationSpec | src/parser/java_structure.rs:378-418 | an annotation exists iff the node is an `annotation` or `marker_annotation`; it carries the node's range; a marker's or fallback name has its leading `@` removed |
| JavaStructure.TrimAt | src/parser/java_structure.rs:388 | removing the leading `@` of `@` and a name gives the name back |
| JavaStructure.MarkerAnnotationName | src/parser/java_structure.rs:385-389 | a marker annotation whose text is `@` and a trimmed name is named by that name |
| JavaStructure.AnnotationFallbackName | src/parser/java_structure.rs:394-405 | an annotation without a `name` field whose text is `@name(...)` is named by that name |
| JavaStructure.FirstPieceOf | src/parser/java_structure.rs:397-402 | the first piece of `w(rest)` is `w` when `w` has no `(` or whitespace |
| JavaStructure.ArgumentValueSpec | src/parser/java_structure.rs:426-466 | an element-value pair gives one pair iff it has a key and a value; every other argument is keyed `value`; a fallback argument is non-empty, trimmed and not punctuation |
| JavaStructure.ArrayValuesKeys | src/parser/java_structure.rs:445-457 | an array initializer gives at most one value per element, all keyed `value` |
| JavaStructure.ArgumentValuesKeys | src/parser/java_structure.rs:423-467 | every pair is keyed `value` or by the key of some element-value pair |
| JavaStructure.LiteralValuesSpec | src/parser/java_structure.rs:468-480 | over literal children, one pair per literal, in order, keyed `value` with the literal's text |
| JavaStructure.ExtractFileAnnotations | src/parser/java_structure.rs:171-180 | the loop returns the annotations of the root's children |
| JavaStructure.AnnotationsOfNodesSpec | src/parser/java_structure.rs:171-180 | one file annotation per annotation child, each with the range of such a child |
| JavaStructure.ModifierOf | src/parser/java_structure.rs:296-320 | a keyword modifier is kept iff its text is non-empty; an annotation is never kept; another token is kept when its trimmed text is non-empty and does not start with `@` |
| JavaStructure.ExtractModifiers | src/parser/java_structure.rs:288-325 | the outer loop returns the modifiers of all `modifiers` children |
| JavaStructure.ExtractModifierList | src/parser/java_structure.rs:292-323 | the inner loop returns the modifiers of one `modifiers` node's tokens |
| JavaStructure.KeywordModifiers | src/parser/java_structure.rs:299-305 | over non-empty keyword tokens, the modifiers are exactly their texts, in order |
| JavaStructure.ModifierListSpec | src/parser/java_structure.rs:292-323 | at most one modifier per token; each is a non-empty text of a token that is not an annotation |
| JavaStructure.AnnotationNodes | src/parser/java_structure.rs:339-347 | the annotation targets are annotation nodes taken from the children, no more of them than children |
| JavaStructure.CollectTargets | src/parser/java_structure.rs:336-365 | the loop returns the targets of one child |
| JavaStructure.ParseTargets | src/parser/java_structure.rs:368-372 | the loop returns the parsed targets |
| JavaStructure.ExtractAnnotations | src/parser/java_structure.rs:327-376 | the nested loops return the annotations of all children's targets |
| JavaStructure.TargetsAllParsed | src/parser/java_structure.rs:368-372 | every target is an annotation node, so each one gives exactly one annotation, in order |
| JavaStructure.ExtendsOf | src/parser/java_structure.rs:485-495 | a superclass name needs a `superclass` field and is non-empty and trimmed |
| JavaStructure.ExtendsRoundTrip | src/parser/java_structure.rs:485-495 | the superclass text `extends w` gives back `w` |
| JavaStructure.ImplementsIn | src/parser/java_structure.rs:500-509 | at most one interface per child; each is non-empty, trimmed and not the `implements` keyword |
| JavaStructure.ExtractImplements | src/parser/java_structure.rs:497-512 | the loop returns the interfaces of the `interfaces` field |
| JavaStructure.TypeParametersIn | src/parser/java_structure.rs:517-527 | at most one type parameter per child, each non-empty |
| JavaStructure.ExtractTypeParameters | src/parser/java_structure.rs:514-530 | the loop returns the type parameters of the `type_parameters` field |
| JavaStructure.TypeParametersAll | src/parser/java_structure.rs:519-526 | over non-empty `type_parameter` children, exactly their texts, in order |
| JavaStructure.DropThrowsKeyword | src/parser/java_structure.rs:722 | removing a leading keyword never lengthens a text |
| JavaStructure.TrimmedPieces | src/parser/java_structure.rs:720-721 | the kept pieces are non-empty and trimmed, no more of them than pieces |
| JavaStructure.ThrowsOf | src/parser/java_structure.rs:714-726 | the corrected throws list: every exception name is non-empty and trimmed |
| JavaStructure.ThrowsIn | src/parser/java_structure.rs:715-725 | every exception name the `throws` children give, as written, is trimmed; a piece such as `throwsthrows` gives an empty name |
| JavaStructure.ExtractThrows | src/parser/java_structure.rs:714-726 | the loop returns the throws of the children, as written |
| JavaStructure.JoinLast | src/parser/java_structure.rs:719 | a comma-joined list ends with its last element |
| JavaStructure.TrimmedPiecesOfTrimmed | src/parser/java_structure.rs:720-721 | trimming and filtering leave non-empty trimmed pieces unchanged |
| JavaStructure.KeywordClauseTrimmed | src/parser/java_structure.rs:720 | a clause ending with a trimmed name is already trimmed |
| JavaStructure.DropThrowsKeywordOf | src/parser/java_structure.rs:722 | removing the keyword from `throws rest` leaves a space and `rest` |
| JavaStructure.JoinSpaced | src/parser/java_structure.rs:719 | a space in front of a joined list goes onto its first element |
| JavaStructure.TrimSpaced | src/parser/java_structure.rs:720 | trimming a space and a trimmed word gives the word |
| JavaStructure.TrimmedPiecesSpaced | src/parser/java_structure.rs:720-721 | trimmed non-empty names survive with a space in front of the first |
| JavaStructure.SpacedPiecesFree | src/parser/java_structure.rs:719 | adding a space keeps every piece free of commas |
| JavaStructure.ThrowsRoundTrip | src/parser/java_structure.rs:714-726 | the corrected extraction of `throws` and comma-joined names gives back the names |
| JavaStructure.ThrowsFirstPieceAsWritten | src/parser/java_structure.rs:719-723 | as written, the piece `throws a` gives `[a]` |
| JavaStructure.ThrowsLaterPieceAsWritten | src/parser/java_structure.rs:719-723 | as written, a later piece ` throwsb` gives `[b]`, the prefix of the name removed |
| JavaStructure.ThrowsOfClause | src/parser/java_structure.rs:714-726 | the corrected extraction of a trimmed clause splits the text after the keyword at commas |
| JavaStructure.SplitSpacedPair | src/parser/java_structure.rs:719 | splitting ` a, t` at commas gives its two parts |
| JavaStructure.TrimmedPiecesPair | src/parser/java_structure.rs:720-721 | two trimmed names with spaces in front are kept as the two names |
| JavaStructure.ThrowsSpacedComma | src/parser/java_structure.rs:714-726 | the corrected extraction of `throws a, t` gives `[a, t]` |
| JavaStructure.SplitThrowsPair | src/parser/java_structure.rs:719 | splitting `throws a, throwsb` at commas gives its two parts |
| JavaStructure.ThrowsPiecesPair | src/parser/java_structure.rs:717-724 | the pieces of two parts are the pieces of the first then the second |
| JavaStructure.ThrowsAsWrittenPair | src/parser/java_structure.rs:714-726 | as written, `throws a, throwsb` gives `[a, b]` |
| JavaStructure.ThrowsAsWrittenStripsNames | src/parser/java_structure.rs:714-726 | as written the exception `throwsError` is reported as `Error`; the corrected extraction keeps `throwsError` |
| JavaStructure.ThrowsPairText | src/parser/java_structure.rs:719 | the two spellings of the clause text are equal |
| JavaStructure.ThrowsPieceAsWritten | src/parser/java_structure.rs:719-723 | a comma piece gives at most one name; it gives none exactly when it trims to nothing or to `throws`; a name is trimmed |
| JavaStructure.ThrowsPiecesAsWritten | src/parser/java_structure.rs:717-724 | the pieces give at most one trimmed name each |
| JavaStructure.ThrowsNamePiece | src/parser/java_structure.rs:719-723 | a non-empty trimmed piece that does not start with `throws` is kept whole |
| JavaStructure.ThrowsNamePieces | src/parser/java_structure.rs:717-724 | a list of such pieces is returned unchanged |
| JavaStructure.ThrowsAsWrittenRoundTrip | src/parser/java_structure.rs:714-726 | as written, `throws ` and comma-joined names give back the names when no name after the first starts with `throws` |
| JavaStructure.ExtractDocumentation | src/parser/java_structure.rs:728-741 | the loop over previous siblings returns the documentation as written |
| JavaStructure.DocumentationAsWrittenSpec | src/parser/java_structure.rs:728-741 | the documentation is the text of the nearest Javadoc among the previous siblings, whatever lies between; none iff no previous sibling is a Javadoc |
| JavaStructure.DocumentationAsWrittenFound | src/parser/java_structure.rs:730-736 | a found documentation is the text of the nearest Javadoc sibling |
| JavaStructure.DocumentationAsWrittenAbsent | src/parser/java_structure.rs:730-740 | no documentation exactly when no previous sibling is a Javadoc |
| JavaStructure.DocumentationReadingsAgree | src/types.rs:29 | when a Javadoc stands directly above the declaration, the code documents the declaration with it |
| JavaStructure.DocumentationSpec | src/types.rs:29 | the adjacent reading: documentation is the text of the nearest Javadoc sibling with only comments between it and the node; none iff every Javadoc is separated from the node by a non-comment |
| JavaStructure.DocumentationFound | src/types.rs:29 | the adjacent reading: a found documentation is the text of a Javadoc sibling with only comments between it and the node |
| JavaStructure.DocumentationAbsent | src/types.rs:29 | the adjacent reading: with no documentation, every Javadoc sibling has a non-comment between it and the node |
| JavaStructure.DocumentationAsWrittenCrossesDeclarations | src/parser/java_structure.rs:728-741 | as written, a Javadoc before an earlier declaration documents this node; the corrected reading gives none |
| JavaStructure.ParameterOf | src/parser/java_structure.rs:691-712 | a parameter exists iff the node has a `type` and a `name` field |
| JavaStructure.ParseParameter | src/parser/java_structure.rs:691-712 | the method returns the parameter of the node |
| JavaStructure.ExtractParameters | src/parser/java_structure.rs:674-689 | the loop returns the parameters of the `parameters` field |
| JavaStructure.ParametersComplete | src/parser/java_structure.rs:677-686 | when every child is a complete formal parameter, one parameter per child, in order |
| JavaStructure.ParametersSound | src/parser/java_structure.rs:677-686 | at most one parameter per child, each the parameter of a `formal_parameter` child |
| JavaStructure.FieldOf | src/parser/java_structure.rs:554-585 | a field exists iff the declaration has a `type` field and the declarator a `name` field; its documentation is the nearest Javadoc before the declaration, as the code finds it |
| JavaStructure.ParseField | src/parser/java_structure.rs:554-585 | the method returns the field of the declaration and declarator, as written |
| JavaStructure.ParseDeclarators | src/parser/java_structure.rs:539-546 | the loop returns the fields of the declarators of one declaration |
| JavaStructure.ExtractFields | src/parser/java_structure.rs:532-552 | the nested loop returns the fields of the `body` field |
| JavaStructure.DeclaratorFieldsUntyped | src/parser/java_structure.rs:560-564 | a declaration without a `type` field gives no fields |
| JavaStructure.DeclaratorFieldsComplete | src/parser/java_structure.rs:539-546 | a typed declaration gives one field per named declarator, in order |
| JavaStructure.MethodOf | src/parser/java_structure.rs:612-644 | a method exists iff the node has a `name` field; without a `type` field it returns `void`; its throws and documentation are those the code extracts |
| JavaStructure.ConstructorOf | src/parser/java_structure.rs:646-672 | the corrected constructor exists iff the node has a `name` field; it returns `void` and has no type parameters |
| JavaStructure.ConstructorAsWritten | src/parser/java_structure.rs:646-672 | a constructor exists iff its parent has a `name` field; it carries that name, returns `void` and has no type parameters |
| JavaStructure.ConstructorAsWrittenDropped | src/parser/java_structure.rs:646-652 | as written, a constructor in a class body without a `name` field is dropped; the corrected one is named by its own `name` field |
| JavaStructure.ParseMethod | src/parser/java_structure.rs:612-644 | the method returns the method of the node, as written |
| JavaStructure.ParseConstructor | src/parser/java_structure.rs:646-672 | the method returns the constructor as written, named by its parent |
| JavaStructure.ExtractMethods | src/parser/java_structure.rs:587-610 | the loop returns the methods and constructors of the `body` field, as written |
| JavaStructure.MethodsInSound | src/parser/java_structure.rs:590-607 | at most one member per child, each the method or the constructor as written of a child |
| JavaStructure.MethodsInComplete | src/parser/java_structure.rs:590-607 | every named method child is listed; a constructor child is listed when the body itself has a `name` field |
| JavaStructure.MethodsInOnlyMethods | src/parser/java_structure.rs:646-652 | when the class body has no `name` field, only method declarations are listed: every constructor is dropped |
| JavaStructure.ClassOf | src/parser/java_structure.rs:209-257 | a class exists iff the node is of a class kind with a `name` field; it has that kind, the node's range, that name, the fqn of the package and name, the methods and constructors as the code lists them, and the documentation the code finds |
| JavaStructure.ParseClass | src/parser/java_structure.rs:209-257 | the method returns the class of the node, as written |
| JavaStructure.ExtractNestedClasses | src/parser/java_structure.rs:259-286 | the loop returns the classes of the `body` field |
| JavaStructure.ExtractClasses | src/parser/java_structure.rs:182-207 | the loop returns the classes of the root's children |
| JavaStructure.ClassesInStep | src/parser/java_structure.rs:191-204 | one more child appends its class, if any |
| JavaStructure.ClassFqns | src/parser/java_structure.rs:230 | a class and all its nested classes carry fqns of the file's package |
| JavaStructure.NestedFqns | src/parser/java_structure.rs:259-286 | every nested class carries fqns of the file's package |
| JavaStructure.ClassesInFqns | src/parser/java_structure.rs:182-207 | every top-level class carries fqns of the file's package |
| JavaStructure.ClassesInListed | src/parser/java_structure.rs:182-207 | every named class declaration child appears among the classes |
| JavaStructure.ClassesInGrow | src/parser/java_structure.rs:191-204 | a listed class stays listed after one more child |
| JavaStructure.ClassOfNamed | src/parser/java_structure.rs:215-228 | a named class declaration gives a class |
| JavaStructure.ClassesInLast | src/parser/java_structure.rs:191-204 | a named class declaration as the last child is listed |
| JavaStructure.ExtractStructure | src/parser/java_structure.rs:119-139 | the method returns the structure of the root, as the code builds it |
| JavaStructure.StructureFqns | src/parser/java_structure.rs:119-139 | every class of the file, at any depth, is qualified by the package, and with a package each fqn starts with it and a dot |
| JavaParser.FromStrByLength | src/parser/java.rs:82-131 | the classifier reads a kind string through the arms of its own length; longer strings are `Unknown` |
| JavaParser.DeferredLookup | src/parser/java.rs:82-131 | the deferred lookup is the full lookup |
| JavaParser.LookupFromLength | src/parser/java.rs:82-131 | the lookup from a length bound down reaches the arms of the kind's own length |
| JavaParser.FromStrUnlisted | src/parser/java.rs:129 | every kind string not listed maps to `Unknown` |
| JavaParser.FromStrDeclarations | src/parser/java.rs:84-94 | each of the eleven declaration node kinds is read back from its own string |
| JavaParser.FromStrIdentifiers | src/parser/java.rs:95-99 | the modifier, annotation, identifier, scoped identifier and asterisk kinds are read back from their own strings |
| JavaParser.FromStrMembers | src/parser/java.rs:100-111 | the superclass, super-interfaces, formal parameter(s) and variable declarator kinds are read back from their own strings |
| JavaParser.FromStrPrimitiveTypes | src/parser/java.rs:103-106 | the primitive type kinds are read back from their own strings |
| JavaParser.FromStrReferenceTypes | src/parser/java.rs:102-108 | the reference type kinds are read back from their own strings |
| JavaParser.FromStrValues | src/parser/java.rs:112-128 | literal, comment and element-value-pair kinds are read back from their own strings |
| JavaParser.FromStrAccessKeywords | src/parser/java.rs:117-122 | the six access, `static`, `final` and `abstract` keyword kinds are read back from their own strings |
| JavaParser.FromStrOtherKeywords | src/parser/java.rs:123-127 | the five other modifier keyword kinds are read back from their own strings |
| JavaParser.FromStrKindString | src/parser/java.rs:82-131 | every listed kind is read back from its string, so the classifier is injective on listed kinds |
| JavaParser.ToDeclarationKind | src/parser/java.rs:176-185 | `Some` exactly for the kinds `is_declaration` accepts |
| JavaParser.ToDeclarationKindBijective | src/parser/java.rs:176-185 | the five declaration node kinds and the five declaration kinds correspond one to one |
| JavaParser.CategoriesDisjoint | src/parser/java.rs:134-174 | no kind is at once a declaration, a modifier or a type in two of these categories |
| JavaParser.FirstOfKinds | src/parser/java.rs:392-397 | the index of the first child of a listed kind, or none when no child has one |
| JavaParser.FirstOfKindsAt | src/parser/java.rs:392-397 | the first match is at i when i matches and nothing before does |
| JavaParser.FirstOfKindsSnoc | src/parser/java.rs:392-397 | one more child: the first match stays first, or the new child is the first match |
| JavaParser.FirstIdentifierIsFirst | src/parser/java.rs:707-711 | the `if name.is_none()` scan yields the text of the first identifier child |
| JavaParser.LastOfKinds | src/parser/java.rs:715-717 | the index of the last child of a listed kind, or none |
| JavaParser.LastTextSnoc | src/parser/java.rs:715-717 | one more child is the last match when its kind is listed |
| JavaParser.LastTextLast | src/parser/java.rs:715-717 | the last match of a non-empty list is the last child when it matches, else the last match before it |
| JavaParser.TextsOfKind | src/parser/java.rs:580-587 | at most one text per child |
| JavaParser.GetDeclarationName | src/parser/java.rs:391-399 | the first identifier child's text, or `Anonymous` when there is none |
| JavaParser.GetModifiers | src/parser/java.rs:401-429 | the token loop returns the modifier scan of the declaration's whitespace-split text |
| JavaParser.ScanModifiersSpec | src/parser/java.rs:414-426 | the scan extends what it has with distinct modifier keywords, exactly those among the tokens before the first kind keyword |
| JavaParser.ScanModifiersOrder | src/parser/java.rs:414-426 | the keywords the scan adds come in the order of their first occurrence among the scanned tokens |
| JavaParser.ScanModifiersOrderStep | src/parser/java.rs:415-423 | one more token in front keeps the added keywords in first-occurrence order |
| JavaParser.ModifiersSpec | src/parser/java.rs:401-429 | the modifiers are without duplicates, are exactly the eleven keywords that occur before the first `class`/`interface`/`enum`/`record`/`@interface` token, and come in the order of their first occurrence |
| JavaParser.ParseAnnotationValue | src/parser/java.rs:471-499 | the loop returns the pair of the element-value node |
| JavaParser.AnnotationValueSpec | src/parser/java.rs:471-499 | a pair exists iff there is an identifier child and a literal child; the key is the first identifier's text and the value the last literal's |
| JavaParser.ParseAnnotation | src/parser/java.rs:446-469 | the loop returns the annotation of the node: none without an identifier child, else named by the first identifier with the pairs of its element-value children |
| JavaParser.ScanAnnotationChild | src/parser/java.rs:452-465 | one child's effect: only the first identifier names the annotation, and an element-value pair appends its pair when it yields one |
| JavaParser.AnnotationsInSpec | src/parser/java.rs:431-444 | at most one annotation per annotation child, each the parse of such a child |
| JavaParser.GetAnnotations | src/parser/java.rs:431-444 | the loop returns the parsed annotations of the annotation children, in order |
| JavaParser.GetSignature | src/parser/java.rs:521-561 | the signature of a declaration node with the file's package; the text of any other node |
| JavaParser.VisibleIsWord | src/parser/java.rs:560 | a non-empty visible string is one whitespace-free word |
| JavaParser.JavaModifiersAreWords | src/parser/java.rs:408-411 | every modifier keyword is one word |
| JavaParser.KindKeywordIsWord | src/parser/java.rs:544-550 | every kind keyword (`class`, `interface`, `enum`, `record`, `@interface`) is one word |
| JavaParser.FqnIsWord | src/parser/java.rs:553-557 | a package and a name free of whitespace make a one-word fqn |
| JavaParser.SignatureWords | src/parser/java.rs:521-561 | the signature splits into the modifiers, the kind keyword and the fqn (package, dot and name, or the bare name for the empty package), joined by single spaces |
| JavaParser.PushTypeIdentifiers | src/parser/java.rs:580-587 | the inner loop appends the texts of the type-identifier children in order |
| JavaParser.ScanInheritanceChild | src/parser/java.rs:573-589 | one child's effect: a superclass child with a `type` field replaces extends, a super-interfaces child appends its type identifiers, any other child changes nothing |
| JavaParser.GetInheritanceInfo | src/parser/java.rs:563-594 | extends is the type of the last superclass child that has one; implements are the type identifiers of all interface children, in order |
| JavaParser.ScanNestedType | src/parser/java.rs:646-654 | the nested loop yields the text of the last type or identifier grandchild |
| JavaParser.ParseField | src/parser/java.rs:615-666 | the loop returns the field of the declaration node |
| JavaParser.FieldNeedsNameAndType | src/parser/java.rs:659 | a field is emitted exactly when both a name and a type were scanned, that is when a declarator has a `name` field and some child gives a type |
| JavaParser.DeclaratorNameFound | src/parser/java.rs:636-640 | a declarator name is found exactly when a declarator child has a `name` field |
| JavaParser.FieldTypeFound | src/parser/java.rs:641-655 | a type is found exactly when a child is a type or, not being a modifier, annotation or declarator, has a type or identifier child |
| JavaParser.FieldsOfChild | src/parser/java.rs:603-608 | a body child contributes its parsed field when it is a field declaration that parses, and nothing otherwise |
| JavaParser.GetFields | src/parser/java.rs:596-613 | the fields of the field declarations in the `body` field, in order; none without a body |
| JavaParser.ParameterScanStep | src/parser/java.rs:754-776 | one more child changes the name, the type and the annotations as its kind says |
| JavaParser.ParseParameter | src/parser/java.rs:748-783 | the loop returns the parameter of the node |
| JavaParser.ScanParameterChild | src/parser/java.rs:755-775 | one child's effect: a parsed annotation is appended, only the first identifier names the parameter, and a primitive or plain type identifier replaces the type |
| JavaParser.ParameterSpec | src/parser/java.rs:748-783 | a parameter is emitted iff there is an identifier and a type child; its name is the first identifier, its type the last type child |
| JavaParser.ParseParameters | src/parser/java.rs:733-746 | the parameters of the formal-parameter children, in order |
| JavaParser.ParametersInSpec | src/parser/java.rs:733-746 | at most one parameter per formal-parameter child, each the parse of such a child |
| JavaParser.GetSourceRange | src/parser/java.rs:839-849 | every coordinate is the tree's row or column plus one, so all four are at least 1 |
| JavaParser.GetMethodBodyRange | src/parser/java.rs:851-857 | a body range exists iff the node has a `body` field, and it is that node's range |
| JavaParser.ScanMethodComponents | src/parser/java.rs:694-720 | the method scan computes each of its variables as its own definition says |
| JavaParser.ScanMethodName | src/parser/java.rs:707-711 | the scanned name is the first identifier's text |
| JavaParser.MethodStepReturnType | src/parser/java.rs:715-717 | only a type child changes the return type |
| JavaParser.ScanMethodReturnType | src/parser/java.rs:715-717 | the scanned return type is the last type child's text |
| JavaParser.ScanMethodParameters | src/parser/java.rs:712-714 | the scanned parameters are those of the last formal-parameters child |
| JavaParser.ScanMethodLists | src/parser/java.rs:697-706 | the modifiers and annotations are those of the modifier and annotation children, in order |
| JavaParser.ParseMethod | src/parser/java.rs:686-731 | the loop returns the method of the node |
| JavaParser.ScanMethodChild | src/parser/java.rs:695-719 | one child's effect on the scan: a modifier or parsed annotation is appended, only the first identifier names the method, a parameter list replaces the parameters and a type child replaces the return type |
| JavaParser.MethodSpec | src/parser/java.rs:686-731 | a method is emitted iff there is an identifier child; it is named by the first; its return type is the last type child's text, else `void` |
| JavaParser.MethodsOfChild | src/parser/java.rs:674-679 | a body child contributes its parsed method when it is a method declaration that parses, and nothing otherwise |
| JavaParser.GetMethods | src/parser/java.rs:668-684 | the methods of the method declarations in the `body` field, in order |
| JavaParser.GetPackageName | src/parser/java.rs:785-804 | the loop returns the first name child's text or the trimmed text of the first other child that is non-empty, not `package` and without `;` |
| JavaParser.PackageNameSpec | src/parser/java.rs:785-804 | after skipped children, a name child gives its text; with no candidate the name is empty |
| JavaParser.FindNestedName | src/parser/java.rs:816-825 | the inner loop yields the first name grandchild's text |
| JavaParser.GetImportName | src/parser/java.rs:806-830 | the loop returns the first name or asterisk child, else the first name grandchild, of the import |
| JavaParser.ImportNameSpec | src/parser/java.rs:806-830 | no import name iff no child is a name or asterisk and no child has a name child |
| JavaParser.GetDocumentation | src/parser/java.rs:859-873 | the loop returns the first comment child starting with `/**` |
| JavaParser.DocumentationSpec | src/parser/java.rs:859-873 | a documentation text starts with `/**` and is a comment child's text; none iff no comment child starts with `/**` |
| JavaParser.DocumentationInFound | src/parser/java.rs:859-873 | found documentation starts with `/**` and is the text of some comment child |
| JavaParser.DocumentationInAbsent | src/parser/java.rs:859-873 | no documentation exactly when no comment child starts with `/**` |
| JavaParser.ParseDeclaration | src/parser/java.rs:357-389 | the loop-free assembly returns the declaration of the node |
| JavaParser.DeclarationSpec | src/parser/java.rs:357-389 | a declaration is emitted iff the node is of a declaration kind, with the matching kind, and its signature splits into its modifiers, kind keyword and fqn |
| JavaParser.RootOfSnoc | src/parser/java.rs:331-352 | visiting one more child is one more step |
| JavaParser.ParseRoot | src/parser/java.rs:328-355 | the loop mutates the file as the children, visited in order, say |
| JavaParser.RootStepParts | src/parser/java.rs:332-351 | one child keeps path and hash, replaces the package on a package child, appends its import name if any, and appends its declaration, parsed against the current package, iff it is one |
| JavaParser.RootSpec | src/parser/java.rs:328-355 | path and hash are kept, import names are appended in order, each declaration child appends its declaration parsed against the package known at that point, and the package is that of the last package child |
| JavaParser.DeclarationsWithoutPackage | src/parser/java.rs:336-349 | without a package child the package stays as it was and every declaration is parsed against it |
| JavaParser.ParseFile | src/parser/java.rs:313-325 | the file is the root walk from an empty file with the given path and hash |
| JavaParser.ParseFileSpec | src/parser/java.rs:313-325 | a parsed file has the path and hash, the import names in order, the declarations of the declaration children in order, each parsed against the package declared before it, and without a package child an empty package for the file and every declaration |
| SyntaxTree.Text | src/parser/java_structure.rs:750-758 | the text of a node is the source slice of its byte span when the span lies within the source, and empty otherwise |
| Query.FilterBy | src/query/mod.rs:120-148 | one filter pass never adds results |
| Query.FilterKeepAll | src/query/mod.rs:119-149 | one more pass over the conjunctive filter equals the conjunctive filter with the extra filter |
| Query.ApplyAllIsConjunction | src/query/mod.rs:118-152 | the sequential filter passes equal a single pass keeping the results every filter keeps |
| Query.KeepAllNone | src/query/mod.rs:118-152 | with no filters every result is kept, in order |
| Query.KeepAllIff | src/query/mod.rs:118-152 | a result survives iff it was a hit and every filter keeps it (kind equality, annotation-name containment, path containment for package and module) |
| Query.KeepAllOrderFree | src/query/mod.rs:118-152 | the output depends only on which filters are given, not on their order or repetition |
| Query.KeepAllKeepsOrder | src/query/mod.rs:118-152 | when every result passes, the output is the input unchanged, so filtering preserves order |
| Query.ApplyFilters | src/query/mod.rs:118-152 | the filter loop returns the filter passes applied in the given order |
| Query.OrderIsTotalPreorder | src/query/mod.rs:154-170 | each kind's comparison (name, path, descending score) is total and transitive |
| Query.SortResultsSpec | src/query/mod.rs:154-170 | the sorted list is a permutation of the input, ordered ascending by name for Exact, by path for Regex and by descending score for Fuzzy; tied results keep their input order |
| Query.CacheKeyDetermines | src/query/mod.rs:27 | two queries share a cache key iff they have the same kind and the same text; filters and limit are not part of it |
| Query.AnswerOfSoundCache | src/query/mod.rs:25-50 | when every cached list was computed fresh, any answer is the fresh answer to some query with the same kind and text, though perhaps other filters and limit |
| Query.KindSearchSharesKey | src/query/mod.rs:27-61 | a kind search and an unfiltered exact search for the kind's name share one cache entry |
| Query.TotalLengthRemove | src/query/mod.rs:198 | the sum of the stored lengths may count any entry first |
| Query.TotalLengthInsert | src/query/mod.rs:46-198 | inserting a new key adds one entry and that list's length to the sum |
| Query.KindQueryKeepsKind | src/query/mod.rs:52-125 | a fresh kind search returns only index hits of that kind |
| Query.EmptyIndexAnswersNothing | src/query/mod.rs:35-49 | a fresh search on an index with no hits is empty |
| Query.QueryEngine.constructor | src/query/mod.rs:16-23 | a new engine has an empty cache over the given index |
| Query.QueryEngine.Search | src/query/mod.rs:25-50 | a hit returns the stored list unchanged and leaves the cache as it was; a miss returns the hits filtered then sorted and stores exactly that list under `<kind>:<query>` |
| Query.QueryEngine.SearchByKind | src/query/mod.rs:52-61 | searches the kind's name with Exact and the single filter on that kind, storing the answer under its key |
| Query.QueryEngine.SearchByAnnotation | src/query/mod.rs:63-72 | searches the annotation text with Exact and the single annotation filter |
| Query.QueryEngine.SearchByPackage | src/query/mod.rs:74-83 | searches the package text with Exact and the single package filter |
| Query.QueryEngine.FuzzySearch | src/query/mod.rs:85-94 | an unfiltered Fuzzy search for the text |
| Query.QueryEngine.ExactSearch | src/query/mod.rs:96-105 | an unfiltered Exact search for the text |
| Query.QueryEngine.RegexSearch | src/query/mod.rs:107-116 | an unfiltered Regex search for the pattern |
| Query.QueryEngine.GetStatistics | src/query/mod.rs:172-189 | the total is the index's document count and each count is the length of the answer to that kind's search, so all are zero on an empty index |
| Query.StoredAnswer | src/query/mod.rs:175-179 | storing one kind's answer does not change the answer to another kind's search |
| Query.KindNameInjective | src/query/mod.rs:54 | distinct kinds have distinct names, hence distinct cache keys |
| Query.QueryEngine.ClearCache | src/query/mod.rs:191-194 | the cache becomes empty |
| Query.QueryEngine.GetCacheStats | src/query/mod.rs:196-199 | the number of entries and the sum of the stored list lengths; both zero after `ClearCache` |
| Sorting.InsertPermutes | src/query/mod.rs:158-166 | inserting adds exactly the one element |
| Sorting.InsertSorted | src/query/mod.rs:158-166 | inserting into a sorted list keeps it sorted under a total preorder |
| Sorting.SortPermutes | src/query/mod.rs:158-166 | sorting returns a permutation of its input |
| Sorting.SortSorted | src/query/mod.rs:158-166 | sorting under a total preorder returns a sorted list |
| Sorting.InsertOther | src/query/mod.rs:158-166 | inserting an element leaves the order of the elements not equivalent to it unchanged |
| Sorting.InsertEquivalent | src/query/mod.rs:158-166 | inserting into a sorted list places the element after every element equivalent to it |
| Sorting.SortStable | src/query/mod.rs:158-166 | the sort is stable: elements equivalent to each other keep their input order |
| Indexer.AnnotationNames | src/indexer/mod.rs:135-138 | one annotation name per annotation |
| Indexer.CreateDocument | src/indexer/mod.rs:100-161 | the document built by successive field additions is the field-by-field image of the declaration and its file; `RoundTrip` states what reads back from it |
| Indexer.KindRoundTrip | src/indexer/mod.rs:132-274 | each of the five kinds is written as its variant name and read back as itself; any other text reads back as `Class` |
| Indexer.NonEmpty | src/indexer/mod.rs:293 | an optional text is absent exactly when the stored text is empty |
| Indexer.RoundTrip | src/indexer/mod.rs:121-304 | reading back a created document gives the declaration with annotations emptied and an empty extends or documentation turned into absent, provided modifiers and implements are whitespace-free non-empty words |
| Indexer.RoundTripExact | src/indexer/mod.rs:128-303 | for such declarations the round trip is exact iff there are no annotations and neither extends nor documentation is the empty text |
| Indexer.ModifiersLossy | src/indexer/mod.rs:133-290 | a modifier list `[""]` or one holding a modifier with a space inside does not survive the round trip |
| Indexer.MissingFieldsDefault | src/indexer/mod.rs:259-285 | a document without numeric or blob values reads back with a zero range and empty field and method lists |
| Indexer.ResultOfDocument | src/indexer/mod.rs:214-246 | a result has score 1.0, the declaration read back from the document and the stored path |
| Indexer.ResultOfIndexed | src/indexer/mod.rs:238 | for an indexed declaration the preview is `<name>: <signature>` and the path is the file's path |
| Indexer.DocumentsOf | src/indexer/mod.rs:91-94 | one document for each of the first n declarations |
| Indexer.DocumentsOfAt | src/indexer/mod.rs:91-94 | document i is the document of declaration i |
| Indexer.IndexManager.constructor | src/indexer/mod.rs:25-86 | a new index has no committed and no pending documents |
| Indexer.IndexManager.Commit | src/indexer/mod.rs:96 | the pending documents become committed, in order |
| Indexer.IndexManager.IndexJavaFile | src/indexer/mod.rs:88-98 | exactly one document per declaration of the file, in order, is added and committed together with what was pending |
| Indexer.IndexManager.Search | src/indexer/mod.rs:163-181 | the results are the first `limit` (100 by default) ranked documents, each turned into a result, in ranked order; the index changes nothing |
| Indexer.SearchResultsShape | src/indexer/mod.rs:169-243 | a search returns at most the limit, and each result has score 1.0 and is read back from a committed document |
| Properties.UnescapedAt | src/parser/properties.rs:67-80 | at each position: a plain character is copied; a backslash followed by a character decodes that pair; a lone trailing backslash ends the output |
| Properties.UnescapeProperties | src/parser/properties.rs:63-83 | the character loop returns the unescaped value: `\n`, `\t`, `\r`, `\\` decode to their characters, any other escaped character yields itself, a trailing lone backslash is dropped |
| Properties.UnescapedIdentity | src/parser/properties.rs:63-83 | a value without a backslash is returned unchanged |
| Properties.UnescapedNoLonger | src/parser/properties.rs:63-83 | unescaping never makes a value longer |
| Properties.UnescapedOtherAndTrailing | src/parser/properties.rs:74-75 | an escaped character other than n, t, r yields itself, and a lone trailing backslash is dropped |
| Properties.UnescapedAppend | src/parser/properties.rs:77-79 | a backslash-free prefix passes through unchanged ahead of the rest |
| Properties.Escape | src/parser/properties.rs:63-83 | the writer's escaping of a value contains no raw line break |
| Properties.UnescapeEscape | src/parser/properties.rs:63-83 | unescaping undoes escaping for every value |
| Properties.UnescapeEscapeChar | src/parser/properties.rs:68-74 | the escape of one character is decoded back to that character, whatever follows |
| Properties.EscapeEnds | src/parser/properties.rs:36 | escaping a non-empty value without whitespace at its ends keeps it so, so trimming leaves it whole |
| Properties.ParseLineSpec | src/parser/properties.rs:25-42 | a line yields a pair iff, trimmed, it is not blank, starts with neither `#` nor `!`, and holds an `=`; the key holds no `=`, so the split is at the first one |
| Properties.ParseContent | src/parser/properties.rs:22-46 | the line loop returns the pairs of the lines in file order, one per key=value line |
| Properties.ParseOneLine | src/parser/properties.rs:26-42 | the loop body returns the pair of one line, if any |
| Properties.PairsOfLinesSnoc | src/parser/properties.rs:25-43 | a further line appends its own pair, if any, after the earlier ones |
| Properties.SkippedLines | src/parser/properties.rs:28-31 | blank lines and lines starting with `#` or `!` add nothing |
| Properties.PairsOfLinesLength | src/parser/properties.rs:25-43 | every line contributes at most one pair |
| Properties.PairsOfLinesAppend | src/parser/properties.rs:25-43 | the pairs of two runs of lines are the pairs of each, concatenated, so order and duplicates are kept |
| Properties.RenderShape | src/parser/properties.rs:26-36 | a rendered `key=value` line has no whitespace at its ends and no line break |
| Properties.ParseLineRender | src/parser/properties.rs:34-41 | a rendered line is read back as its own pair, including the empty value of `key=` and values holding `=` |
| Properties.RenderAll | src/parser/properties.rs:25 | one line per pair, each the rendering of its pair |
| Properties.ReadWritten | src/parser/properties.rs:22-46 | a file written pair by pair, one line each, is read back as exactly those pairs, in order, duplicates kept |
| Properties.PairsOfRendered | src/parser/properties.rs:25-43 | the rendered lines give back the pairs |
| Properties.ToMapSnoc | src/parser/properties.rs:50 | collecting one more pair overrides its key |
| Properties.ToMapKeys | src/parser/properties.rs:48-51 | the map's keys are exactly the keys of the pairs |
| Properties.ToMapLastWins | src/parser/properties.rs:48-51 | a duplicated key keeps the value of its last pair |
| Properties.FirstValue | src/parser/properties.rs:56-60 | absent iff no pair has the key; otherwise the value of the first pair with that key |
| Properties.FirstAndLastDiffer | src/parser/properties.rs:48-61 | for a key given twice, `get_property` returns the first value while `parse_to_map` keeps the second |
| Properties.MergeProperties | src/parser/properties.rs:85-95 | the nested loops give the map of all pairs of all files, in order |
| Properties.InsertProperties | src/parser/properties.rs:89-91 | inserting one file's pairs into the map of the earlier pairs gives the map of all of them, later pairs winning |
| Properties.ToMapValueFrom | src/parser/properties.rs:85-95 | every merged value comes from a pair with that key |
| Properties.ToMapAppend | src/parser/properties.rs:88-92 | a key of a later run of pairs takes that run's value |
| Properties.MergeLaterOverrides | src/parser/properties.rs:85-95 | a key of the last file takes that file's value, so later files override earlier ones |
| MavenParser.DependencyText | src/maven/parser.rs:52-60 | inside a dependency, `optional` becomes true iff the text is exactly `true`, and text for any other element leaves the dependency unchanged |
| MavenParser.ModuleText | src/maven/parser.rs:61-69 | outside a dependency, groupId/artifactId/version/packaging are overwritten (last wins), each `module` text appends a submodule, other elements change nothing, and dependencies and path are never touched |
| MavenParser.Step | src/maven/parser.rs:33-86 | a Start records its element and opens a fresh dependency for `dependency`; text inside an open dependency never touches the module; every End clears the current element; End of `dependency` appends the open dependency only when complete; every kept dependency stays complete |
| MavenParser.PomOf | src/maven/parser.rs:90-94 | a successful parse has non-empty groupId and artifactId, the POM's path, and only dependencies with non-empty groupId and artifactId |
| MavenParser.RunKeepsValid | src/maven/parser.rs:32-88 | the event loop keeps every kept dependency complete and never changes the path |
| MavenParser.ParsePomFile | src/maven/parser.rs:11-95 | the event loop returns what the step-by-step fold over the events gives: an error on a reader error or a missing groupId/artifactId, the module otherwise |
| MavenParser.OpenDependencyShieldsModule | src/maven/parser.rs:52-60 | while a dependency is open and no End arrives, no event changes the module fields |
| Xml.ParseFile | src/parser/xml.rs:11-43 | the loop's result equals the scan for the first element: its name, `unknown` at the end of input, or the reader error |
| Xml.RootScanSkip | src/parser/xml.rs:21-36 | events that neither open an element nor stop the reader are skipped |
| Xml.RootIsFirstElement | src/parser/xml.rs:23-30 | the root element is the name of the first Start or Empty event |
| Xml.RootUnknown | src/parser/xml.rs:31-40 | with no element before the end of input the root element is `unknown` |
| Xml.RootError | src/parser/xml.rs:32 | a reader error before any element is the result, with the `XML parsing error: ` prefix |
| Xml.ExtractSpringBeans | src/parser/xml.rs:45-76 | the loop's result equals the event-by-event fold over bean tags and their class attributes |
| Xml.ClassesFromValues | src/parser/xml.rs:57-65 | one tag's loop appends its `class` attribute values in attribute order, or fails when one cannot be decoded |
| Xml.BeansAreBeanClasses | src/parser/xml.rs:52-75 | without errors the result is exactly the class values of the elements named `bean` or ending in `:bean`, in document order |
| Xml.BeansErrorAborts | src/parser/xml.rs:69 | a reader error before the end aborts the whole extraction |
| Xml.ExtractMavenProperties | src/parser/xml.rs:78-108 | the loop's result equals the fold over the events with a pending key |
| Xml.PropsKeysAreTags | src/parser/xml.rs:88-93 | every key is the name of a start tag other than `properties` or `project` |
| Xml.PropsAtMostOnePerStart | src/parser/xml.rs:94-99 | each pair consumes the key set by its own start tag, so there are no more pairs than start tags |
| Xml.PropsErrorAborts | src/parser/xml.rs:101 | a reader error before the end aborts the whole extraction |
| Dependency.CoordinatesSplit | src/maven/dependency.rs:19-28 | an id `group:artifact:version` whose parts contain no `:` splits on `:` back into exactly those three parts |
| Dependency.DependencyGraph.constructor | src/maven/dependency.rs:93-98 | a new graph has no nodes and no edges |
| Dependency.DependencyGraph.AddNode | src/maven/dependency.rs:100-102 | the node map gains (or replaces) the entry for the id; the edges are unchanged |
| Dependency.DependencyGraph.AddEdge | src/maven/dependency.rs:104-106 | the edge list grows by exactly the pair (from, to) at its end; the nodes are unchanged |
| Dependency.DependencyGraph.ToMermaid | src/maven/dependency.rs:128-137 | the text is the Mermaid rendering of the current edge list (header, then one line per edge) |
| Dependency.Targets | src/maven/dependency.rs:108-116 | the dependencies of a module are never more than the edges |
| Dependency.Sources | src/maven/dependency.rs:118-126 | the dependents of a module are never more than the edges |
| Dependency.DependencyDependent | src/maven/dependency.rs:108-126 | b is a dependency of a iff the edge (a, b) exists iff a is a dependent of b |
| Dependency.EdgeMultiplicity | src/maven/dependency.rs:108-126 | duplicates are kept: b occurs in the dependencies of a (and a in the dependents of b) exactly as often as the edge (a, b) occurs |
| Dependency.TargetsMultiplicity | src/maven/dependency.rs:108-126 | b occurs among the dependencies of a exactly as often as the edge (a, b) |
| Dependency.SourcesMultiplicity | src/maven/dependency.rs:108-126 | a occurs among the dependents of b exactly as often as the edge (a, b) |
| Dependency.MermaidHeader | src/maven/dependency.rs:130 | the Mermaid text always starts with `graph TD` and a newline |
| Dependency.MermaidSnoc | src/maven/dependency.rs:132-134 | appending an edge appends exactly the line `    from --> to` and a newline, so lines follow edge order |
| Dependency.DependencyEdges | src/maven/dependency.rs:27-30 | one edge per dependency, in order, each from the module id to the dependency id |
| Dependency.AnalyzeDependencies | src/maven/dependency.rs:10-34 | the new graph's nodes map each module id to its path (last module wins) and its edges are every module's dependency edges in module-then-dependency order |
| Dependency.AnalyzeCounts | src/maven/dependency.rs:23-31 | the number of edges is the total number of dependencies and the node ids are exactly the distinct module ids |
| Dependency.DependencyIds | src/maven/dependency.rs:75-77 | one id per dependency, in order, each `group:artifact:version` |
| Dependency.ResolveDependencyTree | src/maven/dependency.rs:65-83 | the map equals the fold that inserts each module id with its dependency ids |
| Dependency.TreeLastWins | src/maven/dependency.rs:71-80 | a module id maps to the dependency ids of the LAST module carrying that id |
| Graph.DependencyDependent | src/graph/mod.rs:86-103 | b is among the dependencies of a iff a is among the dependents of b; the undirected neighbour relation is symmetric |
| Graph.IndexOf | src/graph/mod.rs:144 | the first position of an element on the path: it holds the element and no earlier position does |
| Graph.ImplementsEdges | src/graph/mod.rs:46-52 | one `Implements` edge per implements entry |
| Graph.ImplementsEdgesAt | src/graph/mod.rs:46-52 | edge j goes from the node id to `implements:` followed by entry j |
| Graph.DeclarationEdgesShape | src/graph/mod.rs:37-52 | the appended edges all leave the new node, number one per supertype, include an `Extends` edge iff the declaration extends something, and that edge comes first and points to `extends:<X>` |
| Graph.ReportedCycle | src/graph/mod.rs:142-146 | when a dependency of the path's last type is already on the path, the slice from its first position is a cycle: it follows reference edges and its last type references its first |
| Graph.StackPush | src/graph/mod.rs:134-136 | pushing an unvisited type keeps the DFS invariant: the recursion stack is the set of path elements, the path follows reference edges and lies within the visited set |
| Graph.GraphBuilder.constructor | src/graph/mod.rs:17-23 | a new builder has no nodes, no edges and no type references |
| Graph.GraphBuilder.AddDeclaration | src/graph/mod.rs:25-53 | the node `<path>:<name>` is inserted (replacing an old one) and exactly the declaration's extends/implements edges are appended, even when the node existed; references are unchanged |
| Graph.GraphBuilder.AddEdge | src/graph/mod.rs:55-66 | the edge list grows by exactly the new edge; nodes and references are unchanged |
| Graph.GraphBuilder.AddTypeReference | src/graph/mod.rs:68-77 | the target is added to the source type's reference set (created when missing); nodes and edges are unchanged |
| Graph.ReferenceIdempotent | src/graph/mod.rs:73-76 | adding the same type reference twice gives the same map as adding it once |
| Graph.GraphBuilder.Build | src/graph/mod.rs:79-84 | the built graph has the builder's edges and exactly one copy of each node value |
| Graph.GraphBuilder.GetDependencies | src/graph/mod.rs:86-91 | the result lists, without repeats, exactly the reference set of the type (empty for an unknown type) |
| Graph.GraphBuilder.GetDependents | src/graph/mod.rs:93-103 | the result lists, without repeats, exactly the types whose reference set contains the type |
| Graph.GraphBuilder.CalculateComplexity | src/graph/mod.rs:155-167 | the complexity is the number of dependencies plus the number of dependents |
| Graph.GraphBuilder.FindCycles | src/graph/mod.rs:105-124 | every reported cycle is non-empty, follows reference edges and its last type references its first |
| Graph.GraphBuilder.DfsFindCycle | src/graph/mod.rs:126-153 | given the stack invariant, the visit marks the node visited, restores the recursion stack and the path, and adds only genuine cycles |
| Graph.GraphBuilder.GetComponents | src/graph/mod.rs:169-182 | components start at node keys, have no repeats, are pairwise disjoint, closed under both reference directions, cover every node key, and are no more than the nodes |
| Graph.AddComponent | src/graph/mod.rs:169-182 | appending a closed, repeat-free component disjoint from those found keeps the components repeat-free, pairwise disjoint and closed, and covers its nodes too |
| Graph.GraphBuilder.BfsComponent | src/graph/mod.rs:184-217 | the component starts at the start type, has no repeats, avoids what was already visited, is closed under both reference directions, and the visited set grows by exactly its elements |
| Graph.GraphBuilder.VisitNext | src/graph/mod.rs:196-197 | popping the queue appends the front type to the component and keeps the BFS invariant |
| Graph.GraphBuilder.EnqueueDependencies | src/graph/mod.rs:199-207 | after the loop every dependency of the node is visited and the BFS invariant holds |
| Graph.GraphBuilder.EnqueueDependents | src/graph/mod.rs:209-215 | after the loop every dependent of the node is visited and the BFS invariant holds |
| Graph.ComponentClosed | src/graph/mod.rs:196-216 | a search that started from a closed visited set and visited every neighbour of what it found yields a component closed under neighbours |
| Visualization.NodeStylesDistinct | src/graph/visualization.rs:189-219 | different kinds get different Mermaid classes and different DOT colours |
| Visualization.ClassDefsHave | src/graph/visualization.rs:176-187 | the style block defines the class of every listed kind |
| Visualization.StylesDefineEveryClass | src/graph/visualization.rs:176-198 | every class a node line refers to is defined by the style block |
| Visualization.EdgeLabelsAgree | src/graph/visualization.rs:201-236 | both emitters label each relationship alike, and different relationships differently |
| Visualization.ReplaceChar | src/graph/visualization.rs:240 | replacing a character by text without it leaves none of it |
| Visualization.ReplaceCharAppend | src/graph/visualization.rs:240 | replacement distributes over concatenation |
| Visualization.EscapeLabelPerChar | src/graph/visualization.rs:239-241 | the two successive replacements amount to escaping each character on its own (`"` to `\"`, newline to `\n`) |
| Visualization.EscapeLabelOneLine | src/graph/visualization.rs:239-241 | an escaped label contains no raw newline |
| Visualization.UnescapeEscapeLabel | src/graph/visualization.rs:239-241 | a label without backslashes is recovered from its escape |
| Visualization.EscapeLabelCollision | src/graph/visualization.rs:239-241 | backslashes are not escaped, so the label `\n` (two characters) and a real newline escape alike |
| Visualization.ToMermaid | src/graph/visualization.rs:9-46 | the appended text is the header, the style block, one line per node and one per edge, in list order |
| Visualization.AppendMermaidNodes | src/graph/visualization.rs:26-33 | the node loop appends one `id[label]:::class` line per node |
| Visualization.AppendMermaidEdges | src/graph/visualization.rs:36-43 | the edge loop appends one `from --label--> to` line per edge |
| Visualization.MermaidNodesExtend | src/graph/visualization.rs:26-33 | the node loop only appends |
| Visualization.MermaidEdgesExtend | src/graph/visualization.rs:36-43 | the edge loop only appends |
| Visualization.MermaidNodesHave | src/graph/visualization.rs:26-33 | every node's line is in the text |
| Visualization.MermaidEdgesHave | src/graph/visualization.rs:36-43 | every edge's line is in the text |
| Visualization.MermaidEdgesKeep | src/graph/visualization.rs:36-43 | text already written stays in the output |
| Visualization.MermaidHeaderOf | src/graph/visualization.rs:16-20 | the header is `graph LR` exactly for left-to-right and `graph TD` otherwise |
| Visualization.MermaidHeaderShape | src/graph/visualization.rs:16-20 | the Mermaid text starts with `graph LR` iff the direction is left-to-right, else with `graph TD` |
| Visualization.MermaidHasEveryLine | src/graph/visualization.rs:26-43 | the Mermaid text holds the line of every node and of every edge |
| Visualization.ToDot | src/graph/visualization.rs:48-83 | the appended text is the header, one quoted line per node, one quoted `"from" -> "to"` line per edge and the closing brace |
| Visualization.AppendDotNodes | src/graph/visualization.rs:63-69 | the node loop appends one quoted line per node |
| Visualization.AppendDotEdges | src/graph/visualization.rs:72-79 | the edge loop appends one quoted line per edge |
| Visualization.DotNodesExtend | src/graph/visualization.rs:63-69 | the node loop only appends |
| Visualization.DotEdgesExtend | src/graph/visualization.rs:72-79 | the edge loop only appends |
| Visualization.DotEdgesHave | src/graph/visualization.rs:72-79 | every edge's quoted arrow is in the text |
| Visualization.DotHeaderShape | src/graph/visualization.rs:53-60 | the DOT header starts with `digraph G {` and carries `rankdir=LR;` right after it iff the direction is left-to-right |
| Visualization.DotFrame | src/graph/visualization.rs:53-82 | the DOT text starts with `digraph G {`, has `rankdir=LR;` iff left-to-right, and ends with `}` and a newline |
| Visualization.DotHasEveryEdge | src/graph/visualization.rs:72-79 | every edge appears with both ends quoted, `"from" -> "to"` |
| Visualization.WithinStep | src/graph/visualization.rs:138-144 | a neighbour's neighbourhood lies one step further out |
| Visualization.NbrsOf | src/graph/visualization.rs:138-144 | the other end of an edge touching a node is its neighbour |
| Visualization.CollectNeighbors | src/graph/visualization.rs:124-145 | nothing changes at depth 0 or at an already collected id; otherwise the id is collected and everything added lies within undirected distance depth-1 of it; from depth 2 on, the other end of every edge at a newly collected id is collected too |
| Visualization.FilterEdges | src/graph/visualization.rs:106-110 | filtering never adds edges |
| Visualization.FilterNodes | src/graph/visualization.rs:112-116 | filtering never adds nodes |
| Visualization.FilterEdgesIff | src/graph/visualization.rs:106-110 | an edge is kept iff it is in the graph with both ends collected |
| Visualization.FilterNodesIff | src/graph/visualization.rs:112-116 | a node is kept iff it is in the graph with its id collected |
| Visualization.FilterNodesAll | src/graph/visualization.rs:112-116 | nodes keep their original order: with every id kept nothing changes |
| Visualization.GenerateFocusedGraph | src/graph/visualization.rs:93-122 | the result is the graph restricted to the collected ids; depth 0 collects nothing; otherwise the focus is collected and every collected id is within distance depth-1; from depth 2 on, every edge at the focus is in the result together with both its ends |
| Visualization.DepthOneKeepsOnlyFocus | src/graph/visualization.rs:131-142 | at depth 1 the focused graph holds only the focus node and only its self-loops |
| Visualization.ChainDepthOneAsWritten | src/graph/visualization.rs:131-142 | on the two-node chain A→B, depth 1 from A keeps at most one node and no edge |
| Visualization.FocusedWithinReaches | src/graph/visualization.rs:124-145 | with the evident reading of depth, depth 1 or more reaches both ends of every edge at the focus |
| Visualization.ChainDepthOneIntended | src/graph/visualization.rs:454-456 | with the evident reading, depth 1 from A on the chain keeps both nodes and the edge between them |
| Visualization.NodeIds | src/graph/visualization.rs:151 | one id per node |
| Visualization.NodeIndexBound | src/graph/visualization.rs:155-159 | every index in the id map is a position of the id list |
| Visualization.NodeIndexFacts | src/graph/visualization.rs:155-159 | the id map holds exactly the ids, each index points back at its id, and with distinct ids id i maps to i |
| Visualization.NodeIndexKeys | src/graph/visualization.rs:155-159 | the id map's keys are exactly the ids |
| Visualization.NodeIndexPoints | src/graph/visualization.rs:155-159 | each id map entry is a position of the list holding that id |
| Visualization.NodeIndexDistinct | src/graph/visualization.rs:155-159 | with distinct ids, id i maps to i |
| Visualization.MarkedIff | src/graph/visualization.rs:161-168 | cell (i, j) is set iff some edge has both ends in the index map, at i and j |
| Visualization.MatrixCellMeansEdge | src/graph/visualization.rs:161-168 | with distinct ids, cell (i, j) is set iff some edge goes from id i to id j; edges with an unknown end are ignored |
| Visualization.MatrixIdsSorted | src/graph/visualization.rs:151-152 | the matrix ids are a sorted permutation of the node ids |
| Visualization.LexTotalPreorder | src/graph/visualization.rs:152 | string order is a total preorder |
| Visualization.GenerateDependencyMatrix | src/graph/visualization.rs:147-174 | the ids are sorted, the matrix is n×n and each cell is set exactly by the edges between indexed ids |
| Visualization.TallyCounts | src/graph/visualization.rs:247-253 | a key is counted iff it occurs, with its number of occurrences |
| Visualization.TallyStep | src/graph/visualization.rs:248 | one more element adds one to its own count only |
| Visualization.KindsOf | src/graph/visualization.rs:247-249 | one kind per node |
| Visualization.RelationshipsOf | src/graph/visualization.rs:251-253 | one relationship per edge |
| Visualization.KindCountsSum | src/graph/visualization.rs:247-249 | the five per-kind counts add up to the number of nodes |
| Visualization.RelationshipCountsSum | src/graph/visualization.rs:251-253 | the five per-relationship counts add up to the number of edges |
| Visualization.IsolatedCount | src/graph/visualization.rs:273 | the isolated count is at most the number of nodes |
| Visualization.EndpointsIff | src/graph/visualization.rs:266-271 | an id is connected iff some edge starts or ends at it |
| Visualization.IsolatedBounds | src/graph/visualization.rs:265-274 | without edges every node is isolated; when every node is an endpoint none is |
| Visualization.CountIsolatedNodes | src/graph/visualization.rs:265-274 | the count is the number of nodes whose id ends no edge |
| Visualization.CountKinds | src/graph/visualization.rs:247-249 | the loop's map is the tally of node kinds |
| Visualization.CountRelationships | src/graph/visualization.rs:251-253 | the loop's map is the tally of edge relationships |
| Visualization.GenerateSummary | src/graph/visualization.rs:243-280 | totals are the list lengths, counts are the tallies, isolated nodes are counted as above, and the component count is always 0 |

## Left out

- Parsing Java text into a syntax tree, reading files, walking directories and MD5 hashing are foreign calls and I/O. The tree is an input (`SyntaxTree.Node`) and the hash is a parameter. This covers `JavaParser::new`, `JavaStructureParser::new`, `parse_structure` and `FileParseable::parse_file`.
- Tokenising XML and unescaping XML entities belong to the XML library. The parsers take an abstract sequence of events (`XmlEvents.Event`).
- The search index's internals are left out: schema objects, query parsing, the edit distance of fuzzy terms, ranking, segment statistics, delete-by-term and optimisation. The index is the sequence of committed documents. A search takes as a parameter the committed documents the query matches, in ranked order.
- Field and method lists are stored in the index as JSON text. The model keeps them as values of their own variants (`FieldsJson`, `MethodsJson`), and any other value reads back as an empty list.
- Locks around the writer and the cache, and all asynchronous code, are concurrency. Methods run one at a time. `src/async/mod.rs` is not part of this model.
- Search scores are `f32` and fuzzy results are ordered with `partial_cmp().unwrap()`. The model uses real scores, so the panic on NaN is not modelled.
- The remaining parts sit outside the indexing core. These are `to_svg`, `src/type_config.rs`, `src/llm/mod.rs`, `src/cli/mod.rs`, `src/bin/main.rs` and the debug binaries.
- Source text is a sequence of characters indexed by byte offset. This assumes one character per byte, so multi-byte UTF-8 is not modelled.
- `get_node_text` in `src/parser/java.rs` panics when a node's byte span lies outside the source. The model uses the total `SyntaxTree.Text`, which gives the empty string there, like `node_text` in `src/parser/java_structure.rs`.
- `src/parser/java.rs:664` sets a `range` on `Field`, but `Field` in `src/types.rs` has none. The model follows `src/types.rs`.
- `JavaNodeKind::from_str` is one flat match. The model groups its arms by string length, which gives the same map (`JavaParser.FromStrByLength`).
- The `Result` wrappers in `src/parser/java_structure.rs` never carry an error on the paths modelled, so the model drops them.
- The file-path tests compare paths as strings. `Path` ordering and containment work component by component; the model does not.
- Graph.GraphBuilder.GetComponents: states that the components are non-empty, without repeats, pairwise disjoint, closed under reference edges, started at declared nodes and together cover every declared node. It does not state that every member is connected to the component's first node.
- Graph.GraphBuilder.FindCycles: states that every reported cycle is a real cycle through reference edges. It does not state that every cycle of the graph is reported, which the depth-first search does not promise either.
- The `module` field of `JavaFile` is set from a module declaration's text and otherwise never read.

## Findings

The extractor in `JavaStructure` computes what the code does. Each corrected member below is a separate definition, with the intended property proved about it.

| source | as written | input that shows it | evidently intended | confidence | as-written member | corrected member |
|---|---|---|---|---|---|---|
| src/graph/visualization.rs:124-145 | `collect_neighbors` adds a node and recurses with `depth - 1`, stopping at depth 0, so depth 1 collects only the focus | chain `A -> B -> C`, focus `A`, depth 1: one node, no edge (the test at :454-456 expects two nodes) | depth `d` keeps every node within `d` steps of the focus | not executed | Visualization.ChainDepthOneAsWritten | Visualization.ChainDepthOneIntended |
| src/parser/java_structure.rs:714-726 | each comma piece is filtered for `throws` before `trim_start_matches("throws")`, so that prefix is stripped from any exception name that starts with it | `throws IOException, throwsError` gives `["IOException", "Error"]` | only the clause keyword is removed; names are kept whole | not executed | JavaStructure.ThrowsAsWrittenStripsNames | JavaStructure.ThrowsRoundTrip |
| src/parser/java_structure.rs:728-741 | the loop walks back over every previous sibling, past other declarations | `/** A */ void a() {} void b() {}`: `b` is documented `/** A */` | only comments immediately in front of the declaration count | not executed | JavaStructure.DocumentationAsWrittenCrossesDeclarations | JavaStructure.DocumentationSpec |
| src/parser/java_structure.rs:646-652 | the constructor's name, modifiers and annotations are read from its parent, which is the class body, and a class body has no `name` field | `class A { A() {} }` lists no constructor | the name and modifiers come from the constructor declaration itself | not executed | JavaStructure.ConstructorAsWrittenDropped | JavaStructure.ConstructorOf |
