/** The flat Java parser (`src/parser/java.rs`): a closed classification of
    tree-sitter node kinds, and the extraction of a `JavaFile` (package,
    imports, top-level declarations with their modifiers, annotations,
    signature, inheritance, fields and methods) from a syntax tree. */
module JavaParser {
  import opened Strings
  import opened Types
  import opened SyntaxTree

  /** The node kinds the parser distinguishes; every other kind string is `Unknown`. */
  datatype JavaNodeKind =
    | ModuleDeclaration | PackageDeclaration | ImportDeclaration
    | ClassDeclaration | InterfaceDeclaration | EnumDeclaration | RecordDeclaration
    | AnnotationTypeDeclaration | FieldDeclaration | MethodDeclaration | ConstructorDeclaration
    | Modifier | AnnotationNode
    | Identifier | ScopedIdentifier | Asterisk
    | TypeIdentifier | IntegralType | FloatingPointType | BooleanType | VoidType
    | GenericType | ArrayType
    | FormalParameters | FormalParameter | VariableDeclarator
    | Superclass | SuperInterfaces
    | StringLiteral | NumberLiteral | True | False
    | Comment
    | ElementValuePair
    | Public | Private | Protected | Static | Final | Abstract
    | Synchronized | Volatile | Transient | Native | Strictfp
    | Unknown

  /** The tree-sitter kind string each named kind is read from. */
  function KindString(k: JavaNodeKind): string
  {
    match k
    case ModuleDeclaration => "module_declaration"
    case PackageDeclaration => "package_declaration"
    case ImportDeclaration => "import_declaration"
    case ClassDeclaration => "class_declaration"
    case InterfaceDeclaration => "interface_declaration"
    case EnumDeclaration => "enum_declaration"
    case RecordDeclaration => "record_declaration"
    case AnnotationTypeDeclaration => "annotation_type_declaration"
    case FieldDeclaration => "field_declaration"
    case MethodDeclaration => "method_declaration"
    case ConstructorDeclaration => "constructor_declaration"
    case AnnotationNode => "annotation"
    case Modifier => "modifier"
    case Identifier => "identifier"
    case ScopedIdentifier => "scoped_identifier"
    case Asterisk => "asterisk"
    case Superclass => "superclass"
    case SuperInterfaces => "super_interfaces"
    case TypeIdentifier => "type_identifier"
    case IntegralType => "integral_type"
    case FloatingPointType => "floating_point_type"
    case BooleanType => "boolean_type"
    case VoidType => "void_type"
    case GenericType => "generic_type"
    case ArrayType => "array_type"
    case FormalParameters => "formal_parameters"
    case FormalParameter => "formal_parameter"
    case VariableDeclarator => "variable_declarator"
    case Comment => "comment"
    case StringLiteral => "string_literal"
    case NumberLiteral => "number_literal"
    case True => "true"
    case False => "false"
    case Public => "public"
    case Private => "private"
    case Protected => "protected"
    case Static => "static"
    case Final => "final"
    case Abstract => "abstract"
    case Synchronized => "synchronized"
    case Volatile => "volatile"
    case Transient => "transient"
    case Native => "native"
    case Strictfp => "strictfp"
    case ElementValuePair => "element_value_pair"
    case Unknown => ""
  }

  /** `JavaNodeKind::from_str`: the source's flat match on the kind string.
      The arms are grouped by string length, looked up from the longest
      length down. The strings are pairwise distinct, so the grouping
      selects the same arm. */
  function FromStr(kind: string): JavaNodeKind
  {
    Deferred(kind, 3)
  }

  /** The lookup behind a few idle steps. It exists only to keep proofs
      cheap: the verifier unfolds a function a bounded number of times, so
      a proof about some node's kind does not expand the fifty-odd arms
      unless it calls `FromStrByLength`. It gives the same value as the
      lookup itself. */
  function Deferred(kind: string, steps: nat): JavaNodeKind
    decreases steps
  {
    if steps == 0 then LookupFrom(kind, 27) else Deferred(kind, steps - 1)
  }

  /** The lookup reaches the arms of the kind's own length; kind strings
      longer than every listed one are `Unknown`. */
  lemma FromStrByLength(kind: string)
    ensures FromStr(kind) == if |kind| <= 27 then KindOfLength(kind) else Unknown
  {
    DeferredLookup(kind, 3);
    LookupFromLength(kind, 27);
  }

  lemma {:induction false} DeferredLookup(kind: string, steps: nat)
    ensures Deferred(kind, steps) == LookupFrom(kind, 27)
    decreases steps
  {
    if steps > 0 {
      DeferredLookup(kind, steps - 1);
    }
  }

  /** The arms for kind strings of length at most `len`. */
  function LookupFrom(kind: string, len: nat): JavaNodeKind
    decreases len
  {
    if |kind| == len then KindOfLength(kind)
    else if len == 0 then Unknown
    else LookupFrom(kind, len - 1)
  }

  /** The lookup from `len` down reaches the arms of the kind's own length. */
  lemma {:induction false} LookupFromLength(kind: string, len: nat)
    ensures LookupFrom(kind, len) == if |kind| <= len then KindOfLength(kind) else Unknown
    decreases len
  {
    if |kind| != len && len > 0 {
      LookupFromLength(kind, len - 1);
    }
  }

  /** The arms whose string has the length of `kind`. */
  function KindOfLength(kind: string): JavaNodeKind
  {
    if |kind| == 4 then
      if kind == "true" then True
      else Unknown
    else if |kind| == 5 then
      if kind == "false" then False
      else if kind == "final" then Final
      else Unknown
    else if |kind| == 6 then
      if kind == "public" then Public
      else if kind == "static" then Static
      else if kind == "native" then Native
      else Unknown
    else if |kind| == 7 then
      if kind == "comment" then Comment
      else if kind == "private" then Private
      else Unknown
    else if |kind| == 8 then
      if kind == "modifier" then Modifier
      else if kind == "asterisk" then Asterisk
      else if kind == "abstract" then Abstract
      else if kind == "volatile" then Volatile
      else if kind == "strictfp" then Strictfp
      else Unknown
    else if |kind| == 9 then
      if kind == "void_type" then VoidType
      else if kind == "protected" then Protected
      else if kind == "transient" then Transient
      else Unknown
    else if |kind| == 10 then
      if kind == "annotation" then AnnotationNode
      else if kind == "identifier" then Identifier
      else if kind == "superclass" then Superclass
      else if kind == "array_type" then ArrayType
      else Unknown
    else if |kind| == 12 then
      if kind == "boolean_type" then BooleanType
      else if kind == "generic_type" then GenericType
      else if kind == "synchronized" then Synchronized
      else Unknown
    else if |kind| == 13 then
      if kind == "integral_type" then IntegralType
      else Unknown
    else if |kind| == 14 then
      if kind == "string_literal" then StringLiteral
      else if kind == "number_literal" then NumberLiteral
      else Unknown
    else if |kind| == 15 then
      if kind == "type_identifier" then TypeIdentifier
      else Unknown
    else if |kind| == 16 then
      if kind == "enum_declaration" then EnumDeclaration
      else if kind == "super_interfaces" then SuperInterfaces
      else if kind == "formal_parameter" then FormalParameter
      else Unknown
    else if |kind| == 17 then
      if kind == "class_declaration" then ClassDeclaration
      else if kind == "field_declaration" then FieldDeclaration
      else if kind == "scoped_identifier" then ScopedIdentifier
      else if kind == "formal_parameters" then FormalParameters
      else Unknown
    else if |kind| == 18 then
      if kind == "module_declaration" then ModuleDeclaration
      else if kind == "import_declaration" then ImportDeclaration
      else if kind == "record_declaration" then RecordDeclaration
      else if kind == "method_declaration" then MethodDeclaration
      else if kind == "element_value_pair" then ElementValuePair
      else Unknown
    else if |kind| == 19 then
      if kind == "package_declaration" then PackageDeclaration
      else if kind == "floating_point_type" then FloatingPointType
      else if kind == "variable_declarator" then VariableDeclarator
      else Unknown
    else if |kind| == 21 then
      if kind == "interface_declaration" then InterfaceDeclaration
      else Unknown
    else if |kind| == 23 then
      if kind == "constructor_declaration" then ConstructorDeclaration
      else Unknown
    else if |kind| == 27 then
      if kind == "annotation_type_declaration" then AnnotationTypeDeclaration
      else Unknown
    else Unknown
  }

  /** The kind strings `from_str` lists, one per named kind. */
  const ListedKinds: set<string> := {
    "module_declaration", "package_declaration", "import_declaration", "class_declaration",
    "interface_declaration", "enum_declaration", "record_declaration",
    "annotation_type_declaration", "field_declaration", "method_declaration",
    "constructor_declaration", "annotation", "modifier", "identifier", "scoped_identifier",
    "asterisk", "superclass", "super_interfaces", "type_identifier", "integral_type",
    "floating_point_type", "boolean_type", "void_type", "generic_type", "array_type",
    "formal_parameters", "formal_parameter", "variable_declarator", "comment",
    "string_literal", "number_literal", "true", "false", "public", "private", "protected",
    "static", "final", "abstract", "synchronized", "volatile", "transient", "native",
    "strictfp", "element_value_pair"}

  /** Every kind string that is not listed reads as `Unknown`. */
  lemma FromStrUnlisted(kind: string)
    requires kind !in ListedKinds
    ensures FromStr(kind) == Unknown
  {
    FromStrByLength(kind);
    if |kind| <= 9 {
      ShortUnlisted(kind);
    } else if |kind| <= 16 {
      MiddleUnlisted(kind);
    } else {
      LongUnlisted(kind);
    }
  }

  /** No arm matches an unlisted kind string of at most nine characters. */
  lemma ShortUnlisted(kind: string)
    requires |kind| <= 9 && kind !in ListedKinds
    ensures KindOfLength(kind) == Unknown
  {
    assert kind != "true" && kind != "false" && kind != "final";
    assert kind != "public" && kind != "static" && kind != "native";
    assert kind != "comment" && kind != "private";
    assert kind != "modifier" && kind != "asterisk" && kind != "abstract" && kind != "volatile" && kind != "strictfp";
    assert kind != "void_type" && kind != "protected" && kind != "transient";
  }

  /** No arm matches an unlisted kind string of ten to sixteen characters. */
  lemma MiddleUnlisted(kind: string)
    requires 9 < |kind| <= 16 && kind !in ListedKinds
    ensures KindOfLength(kind) == Unknown
  {
    assert kind != "annotation" && kind != "identifier" && kind != "superclass" && kind != "array_type";
    assert kind != "boolean_type" && kind != "generic_type" && kind != "synchronized";
    assert kind != "integral_type" && kind != "string_literal" && kind != "number_literal";
    assert kind != "type_identifier";
    assert kind != "enum_declaration" && kind != "super_interfaces" && kind != "formal_parameter";
  }

  /** No arm matches an unlisted kind string of more than sixteen characters. */
  lemma LongUnlisted(kind: string)
    requires 16 < |kind| && kind !in ListedKinds
    ensures KindOfLength(kind) == Unknown
  {
    assert kind != "class_declaration" && kind != "field_declaration" && kind != "scoped_identifier" && kind != "formal_parameters";
    assert kind != "module_declaration" && kind != "import_declaration" && kind != "record_declaration";
    assert kind != "method_declaration" && kind != "element_value_pair";
    assert kind != "package_declaration" && kind != "floating_point_type" && kind != "variable_declarator";
    assert kind != "interface_declaration" && kind != "constructor_declaration" && kind != "annotation_type_declaration";
  }

  /** The declaration kinds are read back from their own strings. */
  lemma FromStrDeclarations(k: JavaNodeKind)
    requires k in {ModuleDeclaration, PackageDeclaration, ImportDeclaration, ClassDeclaration,
                   InterfaceDeclaration, EnumDeclaration, RecordDeclaration,
                   AnnotationTypeDeclaration, FieldDeclaration, MethodDeclaration,
                   ConstructorDeclaration}
    ensures FromStr(KindString(k)) == k
  {
    FromStrByLength(KindString(k));
    match k
    case ModuleDeclaration =>
    case PackageDeclaration =>
    case ImportDeclaration =>
    case ClassDeclaration =>
    case InterfaceDeclaration =>
    case EnumDeclaration =>
    case RecordDeclaration =>
    case AnnotationTypeDeclaration =>
    case FieldDeclaration =>
    case MethodDeclaration =>
    case ConstructorDeclaration =>
  }

  /** Modifier, annotation and identifier kinds are read back from their
      own strings. */
  lemma FromStrIdentifiers(k: JavaNodeKind)
    requires k in {Modifier, AnnotationNode, Identifier, ScopedIdentifier, Asterisk}
    ensures FromStr(KindString(k)) == k
  {
    FromStrByLength(KindString(k));
    match k
    case Modifier =>
    case AnnotationNode =>
    case Identifier =>
    case ScopedIdentifier =>
    case Asterisk =>
  }

  /** Inheritance, parameter and variable kinds are read back from their own
      strings. */
  lemma FromStrMembers(k: JavaNodeKind)
    requires k in {Superclass, SuperInterfaces, FormalParameters, FormalParameter, VariableDeclarator}
    ensures FromStr(KindString(k)) == k
  {
    FromStrByLength(KindString(k));
    match k
    case Superclass =>
    case SuperInterfaces =>
    case FormalParameters =>
    case FormalParameter =>
    case VariableDeclarator =>
  }

  /** Primitive type kinds are read back from their own strings. */
  lemma FromStrPrimitiveTypes(k: JavaNodeKind)
    requires k in {IntegralType, FloatingPointType, BooleanType, VoidType}
    ensures FromStr(KindString(k)) == k
  {
    FromStrByLength(KindString(k));
    match k
    case IntegralType =>
    case FloatingPointType =>
    case BooleanType =>
    case VoidType =>
  }

  /** Reference type kinds are read back from their own strings. */
  lemma FromStrReferenceTypes(k: JavaNodeKind)
    requires k in {TypeIdentifier, GenericType, ArrayType}
    ensures FromStr(KindString(k)) == k
  {
    FromStrByLength(KindString(k));
    match k
    case TypeIdentifier =>
    case GenericType =>
    case ArrayType =>
  }

  /** Literal, comment and annotation-element kinds are read back from their
      own strings. */
  lemma FromStrValues(k: JavaNodeKind)
    requires k in {StringLiteral, NumberLiteral, True, False, Comment, ElementValuePair}
    ensures FromStr(KindString(k)) == k
  {
    FromStrByLength(KindString(k));
    match k
    case StringLiteral =>
    case NumberLiteral =>
    case True =>
    case False =>
    case Comment =>
    case ElementValuePair =>
  }

  /** Access and storage keyword kinds are read back from their own strings. */
  lemma FromStrAccessKeywords(k: JavaNodeKind)
    requires k in {Public, Private, Protected, Static, Final, Abstract}
    ensures FromStr(KindString(k)) == k
  {
    FromStrByLength(KindString(k));
    match k
    case Public =>
    case Private =>
    case Protected =>
    case Static =>
    case Final =>
    case Abstract =>
  }

  /** The remaining modifier keyword kinds are read back from their own strings. */
  lemma FromStrOtherKeywords(k: JavaNodeKind)
    requires k in {Synchronized, Volatile, Transient, Native, Strictfp}
    ensures FromStr(KindString(k)) == k
  {
    FromStrByLength(KindString(k));
    match k
    case Synchronized =>
    case Volatile =>
    case Transient =>
    case Native =>
    case Strictfp =>
  }

  /** `from_str` reads every named kind back from its own string: together
      with `FromStrUnlisted`, the listed strings and the named kinds are in
      one-to-one correspondence and everything else is `Unknown`. */
  lemma FromStrKindString(k: JavaNodeKind)
    requires k != Unknown
    ensures FromStr(KindString(k)) == k
  {
    if k in {ModuleDeclaration, PackageDeclaration, ImportDeclaration, ClassDeclaration,
             InterfaceDeclaration, EnumDeclaration, RecordDeclaration,
             AnnotationTypeDeclaration, FieldDeclaration, MethodDeclaration,
             ConstructorDeclaration} {
      FromStrDeclarations(k);
    } else if k in {Modifier, AnnotationNode, Identifier, ScopedIdentifier, Asterisk} {
      FromStrIdentifiers(k);
    } else if k in {Superclass, SuperInterfaces, FormalParameters, FormalParameter, VariableDeclarator} {
      FromStrMembers(k);
    } else if k in {IntegralType, FloatingPointType, BooleanType, VoidType} {
      FromStrPrimitiveTypes(k);
    } else if k in {TypeIdentifier, GenericType, ArrayType} {
      FromStrReferenceTypes(k);
    } else if k in {StringLiteral, NumberLiteral, True, False, Comment, ElementValuePair} {
      FromStrValues(k);
    } else if k in {Public, Private, Protected, Static, Final, Abstract} {
      FromStrAccessKeywords(k);
    } else {
      FromStrOtherKeywords(k);
    }
  }

  /** `is_declaration`: the five type-declaration kinds. */
  predicate IsDeclaration(k: JavaNodeKind) {
    k in {ClassDeclaration, InterfaceDeclaration, EnumDeclaration, RecordDeclaration,
          AnnotationTypeDeclaration}
  }

  /** `is_modifier`: `modifier` and the eleven modifier keywords. */
  predicate IsModifier(k: JavaNodeKind) {
    k in {Modifier, Public, Private, Protected, Static, Final, Abstract, Synchronized,
          Volatile, Transient, Native, Strictfp}
  }

  /** The kinds `is_type` accepts. */
  const TypeKinds: set<JavaNodeKind> :=
    {TypeIdentifier, IntegralType, FloatingPointType, BooleanType, VoidType, GenericType, ArrayType}

  /** `is_type`. */
  predicate IsType(k: JavaNodeKind) {
    k in TypeKinds
  }

  /** `to_declaration_kind`. */
  function ToDeclarationKind(k: JavaNodeKind): (r: Option<DeclarationKind>)
    ensures r.Some? <==> IsDeclaration(k)
  {
    match k
    case ClassDeclaration => Some(Class)
    case InterfaceDeclaration => Some(Interface)
    case EnumDeclaration => Some(Enum)
    case RecordDeclaration => Some(Record)
    case AnnotationTypeDeclaration => Some(AnnotationType)
    case _ => None
  }

  /** The node kind each declaration kind is parsed from. */
  function DeclarationNodeKind(dk: DeclarationKind): JavaNodeKind
  {
    match dk
    case Class => ClassDeclaration
    case Interface => InterfaceDeclaration
    case Enum => EnumDeclaration
    case Record => RecordDeclaration
    case AnnotationType => AnnotationTypeDeclaration
  }

  /** `to_declaration_kind` is a bijection between the five declaration node
      kinds and `DeclarationKind`. */
  lemma ToDeclarationKindBijective(k: JavaNodeKind, dk: DeclarationKind)
    ensures ToDeclarationKind(k) == Some(dk) <==> k == DeclarationNodeKind(dk)
  {
  }

  /** The three categories are disjoint. */
  lemma CategoriesDisjoint(k: JavaNodeKind)
    ensures !(IsDeclaration(k) && IsModifier(k))
    ensures !(IsDeclaration(k) && IsType(k))
    ensures !(IsModifier(k) && IsType(k))
  {
  }

  // ---------------------------------------------------------------------
  // Node text and kinds

  // `get_node_text` is `SyntaxTree.Text`: the slice of the source a node
  // spans.

  /** A node's kind, read from its kind string. */
  function Kind(n: Node): JavaNodeKind {
    FromStr(n.kind)
  }

  function OptSeq<T>(o: Option<T>): seq<T> {
    if o.Some? then [o.value] else []
  }

  /** Index of the first node whose kind is in `kinds`. */
  function FirstOfKinds(cs: seq<Node>, kinds: set<JavaNodeKind>): (r: Option<nat>)
    ensures r.Some? ==> r.value < |cs| && Kind(cs[r.value]) in kinds
    ensures r.Some? ==> forall j :: 0 <= j < r.value ==> Kind(cs[j]) !in kinds
    ensures r.None? ==> forall j :: 0 <= j < |cs| ==> Kind(cs[j]) !in kinds
  {
    if cs == [] then None
    else if Kind(cs[0]) in kinds then Some(0)
    else match FirstOfKinds(cs[1..], kinds)
      case None => None
      case Some(i) => Some(i + 1)
  }

  /** The scan `if name.is_none() { name = Some(text) }` over identifier
      children, as it stands after the nodes `cs`. */
  function FirstIdentifier(cs: seq<Node>, src: string): Option<string>
    decreases |cs|
  {
    if cs == [] then None
    else
      var prev := FirstIdentifier(cs[..|cs| - 1], src);
      var last := cs[|cs| - 1];
      if prev.None? && Kind(last) == Identifier then Some(Text(last, src)) else prev
  }

  /** The first match is at `i` when `i` matches and nothing before does. */
  lemma FirstOfKindsAt(cs: seq<Node>, kinds: set<JavaNodeKind>, i: nat)
    requires i < |cs| && Kind(cs[i]) in kinds
    requires forall j :: 0 <= j < i ==> Kind(cs[j]) !in kinds
    ensures FirstOfKinds(cs, kinds) == Some(i)
  {
  }

  /** Appending a node to the sequence: the first match stays first, and
      the new node is the first match only when there was none. */
  lemma {:induction false} FirstOfKindsSnoc(cs: seq<Node>, kinds: set<JavaNodeKind>)
    requires cs != []
    ensures FirstOfKinds(cs, kinds) ==
      match FirstOfKinds(cs[..|cs| - 1], kinds)
      case Some(i) => Some(i)
      case None => if Kind(cs[|cs| - 1]) in kinds then Some(|cs| - 1) else None
  {
    var n := |cs| - 1;
    var init := cs[..n];
    match FirstOfKinds(init, kinds)
    case Some(i) =>
      forall j | 0 <= j < i ensures Kind(cs[j]) !in kinds {
        assert init[j] == cs[j];
      }
      assert init[i] == cs[i];
      FirstOfKindsAt(cs, kinds, i);
    case None =>
      forall j | 0 <= j < n ensures Kind(cs[j]) !in kinds {
        assert init[j] == cs[j];
      }
      if Kind(cs[n]) in kinds {
        FirstOfKindsAt(cs, kinds, n);
      }
  }

  /** One more child names the scan only when none did before. */
  lemma FirstIdentifierSnoc(cs: seq<Node>, i: nat, src: string)
    requires i < |cs|
    ensures FirstIdentifier(cs[..i + 1], src) ==
      if FirstIdentifier(cs[..i], src).None? && Kind(cs[i]) == Identifier then Some(Text(cs[i], src))
      else FirstIdentifier(cs[..i], src)
  {
    assert cs[..i + 1][..i] == cs[..i];
  }

  lemma {:induction false} FirstIdentifierIsFirst(cs: seq<Node>, src: string)
    ensures FirstIdentifier(cs, src) ==
      match FirstOfKinds(cs, {Identifier})
      case None => None
      case Some(i) => Some(Text(cs[i], src))
    decreases |cs|
  {
    if cs != [] {
      var init := cs[..|cs| - 1];
      FirstIdentifierIsFirst(init, src);
      FirstOfKindsSnoc(cs, {Identifier});
      var f := FirstOfKinds(init, {Identifier});
      if f.Some? {
        assert init[f.value] == cs[f.value];
      }
    }
  }

  /** Index of the last node whose kind is in `kinds`. */
  function LastOfKinds(cs: seq<Node>, kinds: set<JavaNodeKind>): (r: Option<nat>)
    ensures r.Some? ==> r.value < |cs| && Kind(cs[r.value]) in kinds
    ensures r.Some? ==> forall j :: r.value < j < |cs| ==> Kind(cs[j]) !in kinds
    ensures r.None? ==> forall j :: 0 <= j < |cs| ==> Kind(cs[j]) !in kinds
    decreases |cs|
  {
    if cs == [] then None
    else if Kind(cs[|cs| - 1]) in kinds then Some(|cs| - 1)
    else LastOfKinds(cs[..|cs| - 1], kinds)
  }

  /** The scan `value = Some(text)` over nodes of the given kinds: the text
      of the last one. */
  function LastText(cs: seq<Node>, src: string, kinds: set<JavaNodeKind>): Option<string>
  {
    match LastOfKinds(cs, kinds)
    case None => None
    case Some(i) => Some(Text(cs[i], src))
  }

  /** One more node: it is the last match when its kind is listed,
      otherwise the last match is unchanged. */
  lemma LastTextSnoc(cs: seq<Node>, i: nat, src: string, kinds: set<JavaNodeKind>)
    requires i < |cs|
    ensures LastText(cs[..i + 1], src, kinds) ==
      if Kind(cs[i]) in kinds then Some(Text(cs[i], src)) else LastText(cs[..i], src, kinds)
  {
    assert cs[..i + 1][..i] == cs[..i];
  }

  /** The last match of a non-empty sequence, in terms of its last node. */
  lemma LastTextLast(cs: seq<Node>, src: string, kinds: set<JavaNodeKind>)
    requires cs != []
    ensures LastText(cs, src, kinds) ==
      if Kind(cs[|cs| - 1]) in kinds then Some(Text(cs[|cs| - 1], src)) else LastText(cs[..|cs| - 1], src, kinds)
  {
  }

  /** The texts of the nodes of kind `k`, in order. */
  function TextsOfKind(cs: seq<Node>, src: string, k: JavaNodeKind): (r: seq<string>)
    ensures |r| <= |cs|
    decreases |cs|
  {
    if cs == [] then []
    else
      var last := cs[|cs| - 1];
      TextsOfKind(cs[..|cs| - 1], src, k) + (if Kind(last) == k then [Text(last, src)] else [])
  }

  // ---------------------------------------------------------------------
  // Declaration names and modifiers

  /** What `get_declaration_name` returns: the first identifier child's
      text, else `"Anonymous"`. */
  function DeclarationNameOf(n: Node, src: string): string
  {
    match FirstOfKinds(n.children, {Identifier})
    case Some(i) => Text(n.children[i], src)
    case None => "Anonymous"
  }

  /** `get_declaration_name`. */
  method GetDeclarationName(n: Node, src: string) returns (name: string)
    ensures name == DeclarationNameOf(n, src)
  {
    var cs := n.children;
    var i := 0;
    while i < |cs|
      invariant i <= |cs|
      invariant forall j :: 0 <= j < i ==> Kind(cs[j]) != Identifier
    {
      if Kind(cs[i]) == Identifier {
        FirstOfKindsAt(cs, {Identifier}, i);
        return Text(cs[i], src);
      }
      i := i + 1;
    }
    return "Anonymous";
  }

  /** The eleven keywords `get_modifiers` looks for. */
  const JavaModifiers: seq<string> :=
    ["public", "private", "protected", "static", "final", "abstract",
     "synchronized", "volatile", "transient", "native", "strictfp"]

  /** The tokens that end the modifier scan. */
  predicate IsKindKeyword(t: string) {
    t == "class" || t == "interface" || t == "enum" || t == "record" || t == "@interface"
  }

  /** The scan of `get_modifiers` over the remaining `tokens`, having
      collected `acc` so far. */
  function ScanModifiers(tokens: seq<string>, acc: seq<string>): seq<string>
    decreases |tokens|
  {
    if tokens == [] then acc
    else
      var t := Trim(tokens[0]);
      var acc' := if t in JavaModifiers && t !in acc then acc + [t] else acc;
      if IsKindKeyword(t) then acc' else ScanModifiers(tokens[1..], acc')
  }

  /** The modifiers `get_modifiers` reads from a declaration's text. */
  function ModifiersOf(text: string): seq<string> {
    ScanModifiers(SplitWhitespace(text), [])
  }

  /** `get_modifiers`. */
  method GetModifiers(n: Node, src: string) returns (modifiers: seq<string>)
    ensures modifiers == ModifiersOf(Text(n, src))
  {
    var tokens := SplitWhitespace(Text(n, src));
    modifiers := [];
    var i := 0;
    while i < |tokens|
      invariant i <= |tokens|
      invariant ScanModifiers(tokens[i..], modifiers) == ScanModifiers(tokens, [])
    {
      var cleanToken := Trim(tokens[i]);
      assert tokens[i..][0] == tokens[i] && tokens[i..][1..] == tokens[i + 1..];
      if cleanToken in JavaModifiers && cleanToken !in modifiers {
        modifiers := modifiers + [cleanToken];
      }
      if IsKindKeyword(cleanToken) {
        return;
      }
      i := i + 1;
    }
  }

  /** The trimmed tokens the modifier scan looks at: up to and including
      the first kind keyword. */
  function Scanned(tokens: seq<string>): seq<string>
    decreases |tokens|
  {
    if tokens == [] then []
    else
      var t := Trim(tokens[0]);
      if IsKindKeyword(t) then [t] else [t] + Scanned(tokens[1..])
  }

  predicate Distinct(xs: seq<string>) {
    forall i, j :: 0 <= i < j < |xs| ==> xs[i] != xs[j]
  }

  /** The scan extends what it has collected with distinct modifier
      keywords: a word is collected exactly when it is one of the eleven
      keywords and occurs among the scanned tokens. */
  lemma {:induction false} ScanModifiersSpec(tokens: seq<string>, acc: seq<string>)
    requires Distinct(acc)
    ensures var r := ScanModifiers(tokens, acc);
      Distinct(r) && |acc| <= |r| && r[..|acc|] == acc &&
      forall x :: x in r <==> x in acc || (x in JavaModifiers && x in Scanned(tokens))
    decreases |tokens|
  {
    if tokens != [] {
      var t := Trim(tokens[0]);
      var acc' := if t in JavaModifiers && t !in acc then acc + [t] else acc;
      assert Distinct(acc');
      if !IsKindKeyword(t) {
        ScanModifiersSpec(tokens[1..], acc');
        var r := ScanModifiers(tokens[1..], acc');
        assert r[..|acc|] == r[..|acc'|][..|acc|];
      }
    }
  }

  /** The position of the first occurrence of `x` in `xs`. */
  function FirstIndex(xs: seq<string>, x: string): (r: nat)
    requires x in xs
    ensures r < |xs| && xs[r] == x
    ensures forall k :: 0 <= k < r ==> xs[k] != x
    decreases |xs|
  {
    if xs[0] == x then 0 else 1 + FirstIndex(xs[1..], x)
  }

  /** Behind a token other than `x`, the first occurrence of `x` moves one
      place on. */
  lemma FirstIndexCons(t: string, xs: seq<string>, x: string)
    requires x in [t] + xs
    ensures x == t ==> FirstIndex([t] + xs, x) == 0
    ensures x != t ==> x in xs && FirstIndex([t] + xs, x) == 1 + FirstIndex(xs, x)
  {
    assert ([t] + xs)[1..] == xs;
  }

  /** An element past a prefix of a list without repeats is not in the
      prefix. */
  lemma PastPrefix(r: seq<string>, p: seq<string>, j: nat)
    requires Distinct(r) && |p| <= j < |r| && r[..|p|] == p
    ensures r[j] !in p
  {
    forall k | 0 <= k < |p|
      ensures p[k] != r[j]
    {
      assert r[k] == p[k];
    }
  }

  /** The keywords the scan adds come in the order of their first
      occurrence among the scanned tokens. */
  lemma {:induction false} ScanModifiersOrder(tokens: seq<string>, acc: seq<string>)
    requires Distinct(acc)
    ensures var r := ScanModifiers(tokens, acc); var s := Scanned(tokens);
      forall i, j :: |acc| <= i < j < |r| ==> r[i] in s && r[j] in s && FirstIndex(s, r[i]) < FirstIndex(s, r[j])
    decreases |tokens|
  {
    if tokens != [] {
      var t := Trim(tokens[0]);
      var acc' := if t in JavaModifiers && t !in acc then acc + [t] else acc;
      assert Distinct(acc');
      if !IsKindKeyword(t) {
        var rest := tokens[1..];
        ScanModifiersOrder(rest, acc');
        ScanModifiersSpec(rest, acc');
        ScanModifiersOrderStep(ScanModifiers(rest, acc'), acc, acc', t, Scanned(rest));
      }
    }
  }

  /** One token in front keeps the order of the keywords the scan adds. */
  lemma ScanModifiersOrderStep(r: seq<string>, acc: seq<string>, acc': seq<string>, t: string, s': seq<string>)
    requires acc' == (if t in JavaModifiers && t !in acc then acc + [t] else acc)
    requires Distinct(r) && |acc'| <= |r| && r[..|acc'|] == acc'
    requires forall x :: x in r <==> x in acc' || (x in JavaModifiers && x in s')
    requires forall i, j :: |acc'| <= i < j < |r| ==> r[i] in s' && r[j] in s' && FirstIndex(s', r[i]) < FirstIndex(s', r[j])
    ensures forall i, j :: |acc| <= i < j < |r| ==>
      r[i] in [t] + s' && r[j] in [t] + s' && FirstIndex([t] + s', r[i]) < FirstIndex([t] + s', r[j])
  {
    var s := [t] + s';
    forall i, j | |acc| <= i < j < |r|
      ensures r[i] in s && r[j] in s && FirstIndex(s, r[i]) < FirstIndex(s, r[j])
    {
      ScanModifiersLater(r, acc, acc', t, s', j);
      FirstIndexCons(t, s', r[j]);
      if i < |acc'| {
        assert r[i] == acc'[i] == t;
        FirstIndexCons(t, s', r[i]);
      } else {
        ScanModifiersLater(r, acc, acc', t, s', i);
        FirstIndexCons(t, s', r[i]);
      }
    }
  }

  /** A keyword the rest of the scan adds is one of the keywords, comes
      from the later tokens and is not the first token. */
  lemma ScanModifiersLater(r: seq<string>, acc: seq<string>, acc': seq<string>, t: string, s': seq<string>, j: nat)
    requires Distinct(r) && |acc'| <= j < |r| && r[..|acc'|] == acc'
    requires acc' == (if t in JavaModifiers && t !in acc then acc + [t] else acc)
    requires forall x :: x in r <==> x in acc' || (x in JavaModifiers && x in s')
    ensures r[j] in JavaModifiers && r[j] in s' && r[j] != t
  {
    PastPrefix(r, acc', j);
    assert r[j] in r;
    if t in JavaModifiers && t !in acc {
      assert t in acc';
    }
  }

  /** `get_modifiers` returns distinct modifier keywords, in the order in
      which they first occur; a keyword is returned exactly when it
      appears as a token no later than the first
      `class`/`interface`/`enum`/`record`/`@interface` token. */
  lemma ModifiersSpec(text: string)
    ensures Distinct(ModifiersOf(text))
    ensures forall x :: x in ModifiersOf(text) <==> x in JavaModifiers && x in Scanned(SplitWhitespace(text))
    ensures var r := ModifiersOf(text); var s := Scanned(SplitWhitespace(text));
      forall i, j :: 0 <= i < j < |r| ==> r[i] in s && r[j] in s && FirstIndex(s, r[i]) < FirstIndex(s, r[j])
  {
    ScanModifiersSpec(SplitWhitespace(text), []);
    ScanModifiersOrder(SplitWhitespace(text), []);
  }

  // ---------------------------------------------------------------------
  // Annotations

  /** The value kinds `parse_annotation_value` accepts. */
  const LiteralKinds: set<JavaNodeKind> := {StringLiteral, NumberLiteral, True, False}

  /** What `parse_annotation_value` returns: the scanned key and value,
      when both were found. */
  function AnnotationValueOf(n: Node, src: string): Option<(string, string)>
  {
    var key := FirstIdentifier(n.children, src);
    var value := LastText(n.children, src, LiteralKinds);
    if key.Some? && value.Some? then Some((key.value, value.value)) else None
  }

  lemma LiteralKind(k: JavaNodeKind)
    ensures k in LiteralKinds ==> k != Identifier
  {
  }

  /** `parse_annotation_value`. */
  method ParseAnnotationValue(n: Node, src: string) returns (pair: Option<(string, string)>)
    ensures pair == AnnotationValueOf(n, src)
  {
    var cs := n.children;
    var key: Option<string> := None;
    var value: Option<string> := None;
    var i := 0;
    while i < |cs|
      invariant i <= |cs|
      invariant key == FirstIdentifier(cs[..i], src)
      invariant value == LastText(cs[..i], src, LiteralKinds)
    {
      FirstIdentifierSnoc(cs, i, src);
      LastTextSnoc(cs, i, src, LiteralKinds);
      var kind := Kind(cs[i]);
      LiteralKind(kind);
      if kind == Identifier {
        if key.None? {
          key := Some(Text(cs[i], src));
        }
      } else if kind in LiteralKinds {
        value := Some(Text(cs[i], src));
      }
      i := i + 1;
    }
    assert cs[..i] == cs;
    pair := if key.Some? && value.Some? then Some((key.value, value.value)) else None;
  }

  /** An element-value pair yields a pair exactly when it has an identifier
      child and a literal child; the key is the first identifier's text and
      the value the last literal's text. */
  lemma AnnotationValueSpec(n: Node, src: string)
    ensures var cs := n.children;
      var key := FirstOfKinds(cs, {Identifier});
      var value := LastOfKinds(cs, LiteralKinds);
      && (AnnotationValueOf(n, src).Some? <==> key.Some? && value.Some?)
      && (AnnotationValueOf(n, src).Some? ==>
            AnnotationValueOf(n, src).value ==
              (Text(cs[key.value], src), Text(cs[value.value], src)))
  {
    FirstIdentifierIsFirst(n.children, src);
  }

  /** The pairs of the element-value-pair nodes, in order. */
  function PairsIn(cs: seq<Node>, src: string): seq<(string, string)>
    decreases |cs|
  {
    if cs == [] then []
    else
      var last := cs[|cs| - 1];
      PairsIn(cs[..|cs| - 1], src) +
        (if Kind(last) == ElementValuePair then OptSeq(AnnotationValueOf(last, src)) else [])
  }

  /** What `parse_annotation` returns: `None` without an identifier child. */
  function AnnotationOf(n: Node, src: string): Option<Annotation>
  {
    match FirstIdentifier(n.children, src)
    case None => None
    case Some(name) => Some(Annotation(name, PairsIn(n.children, src)))
  }

  /** One more child appends its pair only when it is an element-value pair. */
  lemma PairsInStep(cs: seq<Node>, i: nat, src: string)
    requires i < |cs|
    ensures Kind(cs[i]) == ElementValuePair ==>
      PairsIn(cs[..i + 1], src) == PairsIn(cs[..i], src) + OptSeq(AnnotationValueOf(cs[i], src))
    ensures Kind(cs[i]) != ElementValuePair ==> PairsIn(cs[..i + 1], src) == PairsIn(cs[..i], src)
  {
    assert cs[..i + 1][..i] == cs[..i];
  }

  /** One iteration of `parse_annotation`'s loop: the child's effect on the
      name and the values. */
  method ScanAnnotationChild(child: Node, src: string, name: Option<string>, values: seq<(string, string)>)
    returns (name': Option<string>, values': seq<(string, string)>)
    ensures name' == if name.None? && Kind(child) == Identifier then Some(Text(child, src)) else name
    ensures Kind(child) == ElementValuePair ==> values' == values + OptSeq(AnnotationValueOf(child, src))
    ensures Kind(child) != ElementValuePair ==> values' == values
  {
    name', values' := name, values;
    var kind := Kind(child);
    if kind == Identifier {
      if name.None? {
        name' := Some(Text(child, src));
      }
    } else if kind == ElementValuePair {
      var pair := ParseAnnotationValue(child, src);
      if pair.Some? {
        values' := values + [pair.value];
      }
    }
  }

  /** `parse_annotation`. */
  method ParseAnnotation(n: Node, src: string) returns (annotation: Option<Annotation>)
    ensures annotation == AnnotationOf(n, src)
  {
    var cs := n.children;
    var name: Option<string> := None;
    var values: seq<(string, string)> := [];
    var i := 0;
    while i < |cs|
      invariant i <= |cs|
      invariant name == FirstIdentifier(cs[..i], src)
      invariant values == PairsIn(cs[..i], src)
    {
      FirstIdentifierSnoc(cs, i, src);
      PairsInStep(cs, i, src);
      name, values := ScanAnnotationChild(cs[i], src, name, values);
      i := i + 1;
    }
    assert cs[..i] == cs;
    annotation := if name.Some? then Some(Annotation(name.value, values)) else None;
  }

  /** The annotations of the annotation nodes, in order. */
  function AnnotationsIn(cs: seq<Node>, src: string): seq<Annotation>
    decreases |cs|
  {
    if cs == [] then []
    else
      var last := cs[|cs| - 1];
      AnnotationsIn(cs[..|cs| - 1], src) +
        (if Kind(last) == AnnotationNode then OptSeq(AnnotationOf(last, src)) else [])
  }

  /** Each annotation is named by an identifier, and there are at most as
      many as there are annotation nodes. */
  lemma {:induction false} AnnotationsInSpec(cs: seq<Node>, src: string)
    ensures |AnnotationsIn(cs, src)| <= CountOfKind(cs, AnnotationNode)
    ensures forall a :: a in AnnotationsIn(cs, src) ==>
      exists i :: 0 <= i < |cs| && Kind(cs[i]) == AnnotationNode && AnnotationOf(cs[i], src) == Some(a)
    decreases |cs|
  {
    if cs != [] {
      var init := cs[..|cs| - 1];
      AnnotationsInSpec(init, src);
      assert forall j :: 0 <= j < |init| ==> init[j] == cs[j];
    }
  }

  /** Number of nodes of kind `k`. */
  function CountOfKind(cs: seq<Node>, k: JavaNodeKind): nat
    decreases |cs|
  {
    if cs == [] then 0
    else CountOfKind(cs[..|cs| - 1], k) + (if Kind(cs[|cs| - 1]) == k then 1 else 0)
  }

  /** `get_annotations`. */
  method GetAnnotations(n: Node, src: string) returns (annotations: seq<Annotation>)
    ensures annotations == AnnotationsIn(n.children, src)
  {
    var cs := n.children;
    annotations := [];
    var i := 0;
    while i < |cs|
      invariant i <= |cs|
      invariant annotations == AnnotationsIn(cs[..i], src)
    {
      assert cs[..i + 1][..i] == cs[..i];
      if Kind(cs[i]) == AnnotationNode {
        var annotation := ParseAnnotation(cs[i], src);
        if annotation.Some? {
          annotations := annotations + [annotation.value];
        }
      }
      i := i + 1;
    }
    assert cs[..i] == cs;
  }

  // ---------------------------------------------------------------------
  // Signatures

  /** The keyword `get_signature` writes for each declaration kind. */
  function KindKeyword(k: DeclarationKind): string
  {
    match k
    case Class => "class"
    case Interface => "interface"
    case Enum => "enum"
    case Record => "record"
    case AnnotationType => "@interface"
  }

  /** The fully qualified name: the package, a dot and the name, or the
      bare name in the default package. */
  function Fqn(package: string, name: string): string
  {
    if package == "" then name else package + "." + name
  }

  /** What `get_signature` returns: the text of a non-declaration node;
      otherwise the modifiers, the kind keyword and the fully qualified name
      joined with single spaces. */
  function SignatureOf(n: Node, src: string, package: string): string
  {
    match ToDeclarationKind(Kind(n))
    case None => Text(n, src)
    case Some(k) =>
      Join(ModifiersOf(Text(n, src)) + [KindKeyword(k), Fqn(package, DeclarationNameOf(n, src))], " ")
  }

  /** `get_signature`, with the package taken from the file being built. */
  method GetSignature(n: Node, src: string, javaFile: JavaFile) returns (signature: string)
    ensures signature == SignatureOf(n, src, javaFile.package)
  {
    var kind := ToDeclarationKind(Kind(n));
    if kind.None? {
      return Text(n, src);
    }
    var name := GetDeclarationName(n, src);
    var modifiers := GetModifiers(n, src);
    var signatureParts: seq<string> := [];
    if modifiers != [] {
      signatureParts := signatureParts + modifiers;
    }
    signatureParts := signatureParts + [KindKeyword(kind.value)];
    var fqn := if javaFile.package == "" then name else javaFile.package + "." + name;
    signatureParts := signatureParts + [fqn];
    assert signatureParts == modifiers + [KindKeyword(kind.value), Fqn(javaFile.package, name)];
    signature := Join(signatureParts, " ");
  }

  /** Printable ASCII other than the space. */
  predicate Visible(s: string) {
    forall i :: 0 <= i < |s| ==> '!' <= s[i] <= '~'
  }

  lemma VisibleIsWord(s: string)
    requires s != [] && Visible(s)
    ensures IsWord(s)
  {
  }

  lemma JavaModifiersAreWords()
    ensures forall w :: w in JavaModifiers ==> IsWord(w)
  {
    forall w | w in JavaModifiers
      ensures IsWord(w)
    {
      VisibleIsWord(w);
    }
  }

  lemma KindKeywordIsWord(k: DeclarationKind)
    ensures IsWord(KindKeyword(k))
  {
    VisibleIsWord(KindKeyword(k));
  }

  /** A package and a name free of whitespace make a one-word fqn. */
  lemma FqnIsWord(package: string, name: string)
    requires NoSpace(package) && IsWord(name)
    ensures IsWord(Fqn(package, name))
  {
    if package != "" {
      var f := package + "." + name;
      forall i | 0 <= i < |f|
        ensures !IsSpace(f[i])
      {
        if i < |package| {
          assert f[i] == package[i];
        } else if i > |package| {
          assert f[i] == name[i - |package| - 1];
        }
      }
    }
  }

  /** Splitting a declaration's signature on whitespace gives back its
      modifiers, its kind keyword and its fully qualified name, when the
      package and the name are free of whitespace. */
  lemma SignatureWords(n: Node, src: string, package: string)
    requires IsDeclaration(Kind(n))
    requires NoSpace(package) && IsWord(DeclarationNameOf(n, src))
    ensures SplitWhitespace(SignatureOf(n, src, package)) ==
      ModifiersOf(Text(n, src)) +
        [KindKeyword(ToDeclarationKind(Kind(n)).value), Fqn(package, DeclarationNameOf(n, src))]
  {
    var k := ToDeclarationKind(Kind(n)).value;
    var mods := ModifiersOf(Text(n, src));
    var words := mods + [KindKeyword(k), Fqn(package, DeclarationNameOf(n, src))];
    ScanModifiersSpec(SplitWhitespace(Text(n, src)), []);
    JavaModifiersAreWords();
    KindKeywordIsWord(k);
    FqnIsWord(package, DeclarationNameOf(n, src));
    forall i | 0 <= i < |words|
      ensures IsWord(words[i])
    {
      if i < |mods| {
        assert words[i] == mods[i] && mods[i] in mods;
      }
    }
    SplitWhitespaceJoin(words);
  }

  // ---------------------------------------------------------------------
  // Inheritance

  /** The scanned `extends`: the `type` field of the last superclass node
      that has one. */
  function ExtendsIn(cs: seq<Node>, src: string): Option<string>
    decreases |cs|
  {
    if cs == [] then None
    else
      var prev := ExtendsIn(cs[..|cs| - 1], src);
      var last := cs[|cs| - 1];
      if Kind(last) == Superclass then
        match ChildByFieldName(last, "type")
        case Some(t) => Some(Text(t, src))
        case None => prev
      else prev
  }

  /** The scanned `implements`: the type identifiers directly under each
      super-interfaces node, in order. */
  function InterfacesIn(cs: seq<Node>, src: string): seq<string>
    decreases |cs|
  {
    if cs == [] then []
    else
      var last := cs[|cs| - 1];
      InterfacesIn(cs[..|cs| - 1], src) +
        (if Kind(last) == SuperInterfaces then TextsOfKind(last.children, src, TypeIdentifier) else [])
  }

  /** One more child appends its text when it has the kind. */
  lemma TextsOfKindStep(cs: seq<Node>, i: nat, src: string, k: JavaNodeKind)
    requires i < |cs|
    ensures Kind(cs[i]) == k ==> TextsOfKind(cs[..i + 1], src, k) == TextsOfKind(cs[..i], src, k) + [Text(cs[i], src)]
    ensures Kind(cs[i]) != k ==> TextsOfKind(cs[..i + 1], src, k) == TextsOfKind(cs[..i], src, k)
  {
    assert cs[..i + 1][..i] == cs[..i];
  }

  /** One iteration of `PushTypeIdentifiers` keeps its invariant. */
  lemma PushStep(implements: seq<string>, cs: seq<Node>, i: nat, src: string, result: seq<string>)
    requires i < |cs| && result == implements + TextsOfKind(cs[..i], src, TypeIdentifier)
    ensures implements + TextsOfKind(cs[..i + 1], src, TypeIdentifier) ==
      result + (if Kind(cs[i]) == TypeIdentifier then [Text(cs[i], src)] else [])
  {
    TextsOfKindStep(cs, i, src, TypeIdentifier);
    if Kind(cs[i]) == TypeIdentifier {
      var x := Text(cs[i], src);
      var before := TextsOfKind(cs[..i], src, TypeIdentifier);
      assert implements + (before + [x]) == (implements + before) + [x];
    } else {
      assert result + [] == result;
    }
  }

  /** One child of a super-interfaces node: its text is pushed when it is a
      type identifier. */
  method PushIfTypeIdentifier(result: seq<string>, child: Node, src: string) returns (next: seq<string>)
    ensures next == result + (if Kind(child) == TypeIdentifier then [Text(child, src)] else [])
  {
    next := result;
    if Kind(child) == TypeIdentifier {
      next := result + [Text(child, src)];
    }
  }

  /** The inner loop of `get_inheritance_info`: pushes the texts of the
      type identifiers among `cs`. */
  method PushTypeIdentifiers(implements: seq<string>, cs: seq<Node>, src: string) returns (result: seq<string>)
    ensures result == implements + TextsOfKind(cs, src, TypeIdentifier)
  {
    result := implements;
    var i := 0;
    while i < |cs|
      invariant i <= |cs|
      invariant result == implements + TextsOfKind(cs[..i], src, TypeIdentifier)
    {
      PushStep(implements, cs, i, src, result);
      result := PushIfTypeIdentifier(result, cs[i], src);
      i := i + 1;
    }
    assert cs[..i] == cs;
  }

  /** One more child updates the scanned `extends` and `implements`. */
  lemma InheritanceStep(cs: seq<Node>, i: nat, src: string)
    requires i < |cs|
    ensures ExtendsIn(cs[..i + 1], src) ==
      if Kind(cs[i]) == Superclass then
        match ChildByFieldName(cs[i], "type")
        case Some(t) => Some(Text(t, src))
        case None => ExtendsIn(cs[..i], src)
      else ExtendsIn(cs[..i], src)
    ensures InterfacesIn(cs[..i + 1], src) ==
      InterfacesIn(cs[..i], src) +
        (if Kind(cs[i]) == SuperInterfaces then TextsOfKind(cs[i].children, src, TypeIdentifier) else [])
  {
    assert cs[..i + 1][..i] == cs[..i];
  }

  /** What one child of the declaration does to the scanned inheritance. */
  method ScanInheritanceChild(child: Node, src: string, extendsClass: Option<string>, implements: seq<string>)
    returns (extendsClass': Option<string>, implements': seq<string>)
    ensures extendsClass' ==
      if Kind(child) == Superclass then
        match ChildByFieldName(child, "type")
        case Some(t) => Some(Text(t, src))
        case None => extendsClass
      else extendsClass
    ensures implements' ==
      implements + (if Kind(child) == SuperInterfaces then TextsOfKind(child.children, src, TypeIdentifier) else [])
  {
    extendsClass', implements' := extendsClass, implements;
    var kind := Kind(child);
    if kind == Superclass {
      var typeNode := ChildByFieldName(child, "type");
      if typeNode.Some? {
        extendsClass' := Some(Text(typeNode.value, src));
      }
    } else if kind == SuperInterfaces {
      implements' := PushTypeIdentifiers(implements, child.children, src);
    }
  }

  /** `get_inheritance_info`. */
  method GetInheritanceInfo(n: Node, src: string) returns (extendsClass: Option<string>, implements: seq<string>)
    ensures extendsClass == ExtendsIn(n.children, src)
    ensures implements == InterfacesIn(n.children, src)
  {
    var cs := n.children;
    extendsClass := None;
    implements := [];
    var i := 0;
    while i < |cs|
      invariant i <= |cs|
      invariant extendsClass == ExtendsIn(cs[..i], src)
      invariant implements == InterfacesIn(cs[..i], src)
    {
      InheritanceStep(cs, i, src);
      extendsClass, implements := ScanInheritanceChild(cs[i], src, extendsClass, implements);
      i := i + 1;
    }
    assert cs[..i] == cs;
  }

  // ---------------------------------------------------------------------
  // Fields

  /** The kinds the nested type scan of `parse_field` accepts. */
  const NestedTypeKinds: set<JavaNodeKind> := TypeKinds + {Identifier}

  lemma NestedTypeKind(k: JavaNodeKind)
    ensures k in NestedTypeKinds <==> IsType(k) || k == Identifier
  {
  }

  /** The scanned field name: the `name` field of the last variable
      declarator that has one. */
  function DeclaratorName(cs: seq<Node>, src: string): Option<string>
    decreases |cs|
  {
    if cs == [] then None
    else
      var prev := DeclaratorName(cs[..|cs| - 1], src);
      var last := cs[|cs| - 1];
      if Kind(last) == VariableDeclarator then
        match ChildByFieldName(last, "name")
        case Some(id) => Some(Text(id, src))
        case None => prev
      else prev
  }

  /** The scanned field type: a type child sets it; any other child that is
      not a modifier, annotation or declarator is searched, while no type is
      known yet, for its last type or identifier child. */
  function FieldType(cs: seq<Node>, src: string): Option<string>
    decreases |cs|
  {
    if cs == [] then None
    else
      var prev := FieldType(cs[..|cs| - 1], src);
      var last := cs[|cs| - 1];
      var kind := Kind(last);
      if kind == Modifier || kind == AnnotationNode || kind == VariableDeclarator then prev
      else if IsType(kind) then Some(Text(last, src))
      else if prev.None? then LastText(last.children, src, NestedTypeKinds)
      else prev
  }

  /** What `parse_field` returns: a field only when both a name and a type
      were found. */
  function FieldOf(n: Node, src: string): Option<Field>
  {
    var name := DeclaratorName(n.children, src);
    var typeName := FieldType(n.children, src);
    if name.Some? && typeName.Some? then
      Some(Field(name.value, typeName.value, TextsOfKind(n.children, src, Modifier), AnnotationsIn(n.children, src)))
    else None
  }

  /** The inner loop of `parse_field` over a child's children, entered while
      no type is known. */
  method ScanNestedType(cs: seq<Node>, src: string) returns (typeName: Option<string>)
    ensures typeName == LastText(cs, src, NestedTypeKinds)
  {
    typeName := None;
    var i := 0;
    while i < |cs|
      invariant i <= |cs|
      invariant typeName == LastText(cs[..i], src, NestedTypeKinds)
    {
      LastTextSnoc(cs, i, src, NestedTypeKinds);
      var kind := Kind(cs[i]);
      NestedTypeKind(kind);
      if IsType(kind) || kind == Identifier {
        typeName := Some(Text(cs[i], src));
      }
      i := i + 1;
    }
    assert cs[..i] == cs;
  }

  /** `parse_field`. */
  method ParseField(n: Node, src: string) returns (field: Option<Field>)
    ensures field == FieldOf(n, src)
  {
    var cs := n.children;
    var name: Option<string> := None;
    var typeName: Option<string> := None;
    var modifiers: seq<string> := [];
    var annotations: seq<Annotation> := [];
    var i := 0;
    while i < |cs|
      invariant i <= |cs|
      invariant name == DeclaratorName(cs[..i], src)
      invariant typeName == FieldType(cs[..i], src)
      invariant modifiers == TextsOfKind(cs[..i], src, Modifier)
      invariant annotations == AnnotationsIn(cs[..i], src)
    {
      FieldScanStep(cs, i, src);
      var child := cs[i];
      var kind := Kind(child);
      if kind == Modifier {
        modifiers := modifiers + [Text(child, src)];
      } else if kind == AnnotationNode {
        var annotation := ParseAnnotation(child, src);
        if annotation.Some? {
          annotations := annotations + [annotation.value];
        }
      } else if kind == VariableDeclarator {
        var identifier := ChildByFieldName(child, "name");
        if identifier.Some? {
          name := Some(Text(identifier.value, src));
        }
      } else if IsType(kind) {
        typeName := Some(Text(child, src));
      } else if typeName.None? {
        typeName := ScanNestedType(child.children, src);
      }
      i := i + 1;
    }
    assert cs[..i] == cs;
    field := if name.Some? && typeName.Some? then Some(Field(name.value, typeName.value, modifiers, annotations)) else None;
  }

  /** One more child extends each of the four results `parse_field`
      accumulates. */
  lemma FieldScanStep(cs: seq<Node>, i: nat, src: string)
    requires i < |cs|
    ensures var c := cs[i]; var k := Kind(c);
      && DeclaratorName(cs[..i + 1], src) ==
        (if k == VariableDeclarator && ChildByFieldName(c, "name").Some?
         then Some(Text(ChildByFieldName(c, "name").value, src)) else DeclaratorName(cs[..i], src))
      && FieldType(cs[..i + 1], src) ==
        (if k == Modifier || k == AnnotationNode || k == VariableDeclarator then FieldType(cs[..i], src)
         else if IsType(k) then Some(Text(c, src))
         else if FieldType(cs[..i], src).None? then LastText(c.children, src, NestedTypeKinds)
         else FieldType(cs[..i], src))
      && TextsOfKind(cs[..i + 1], src, Modifier) ==
        TextsOfKind(cs[..i], src, Modifier) + (if k == Modifier then [Text(c, src)] else [])
      && AnnotationsIn(cs[..i + 1], src) ==
        AnnotationsIn(cs[..i], src) + (if k == AnnotationNode then OptSeq(AnnotationOf(c, src)) else [])
  {
    assert cs[..i + 1][..i] == cs[..i];
  }

  /** A variable declarator with a `name` field. */
  predicate NamedDeclarator(c: Node) {
    Kind(c) == VariableDeclarator && ChildByFieldName(c, "name").Some?
  }

  /** A field declaration child that gives `parse_field` a type: a type
      node, or a child other than a modifier, annotation or declarator with
      a type or identifier child of its own. */
  predicate HoldsType(c: Node) {
    var k := Kind(c);
    IsType(k) ||
    (k != Modifier && k != AnnotationNode && k != VariableDeclarator &&
     exists j :: 0 <= j < |c.children| && Kind(c.children[j]) in NestedTypeKinds)
  }

  /** `parse_field` zips the scanned name with the scanned type: a field is
      emitted exactly when both were found, that is when some variable
      declarator has a `name` field and some child gives a type. */
  lemma FieldNeedsNameAndType(n: Node, src: string)
    ensures FieldOf(n, src).Some? <==>
      DeclaratorName(n.children, src).Some? && FieldType(n.children, src).Some?
    ensures FieldOf(n, src).Some? <==>
      (exists i :: 0 <= i < |n.children| && NamedDeclarator(n.children[i])) &&
      (exists i :: 0 <= i < |n.children| && HoldsType(n.children[i]))
  {
    DeclaratorNameFound(n.children, src);
    FieldTypeFound(n.children, src);
  }

  /** The declarator scan finds a name exactly when some declarator has
      one. */
  lemma {:induction false} DeclaratorNameFound(cs: seq<Node>, src: string)
    ensures DeclaratorName(cs, src).Some? <==> exists i :: 0 <= i < |cs| && NamedDeclarator(cs[i])
    decreases |cs|
  {
    if cs != [] {
      var init := cs[..|cs| - 1];
      DeclaratorNameFound(init, src);
      DeclaratorNameStep(cs, src);
      ExistsInPrefix(cs, init, NamedDeclarator);
    }
  }

  /** One more child: a name is known when one was before or the child is a
      named declarator. */
  lemma DeclaratorNameStep(cs: seq<Node>, src: string)
    requires cs != []
    ensures DeclaratorName(cs, src).Some? <==>
      DeclaratorName(cs[..|cs| - 1], src).Some? || NamedDeclarator(cs[|cs| - 1])
  {
  }

  /** Some node of a non-empty sequence satisfies `p` exactly when some node
      before the last does or the last does. */
  lemma ExistsInPrefix(cs: seq<Node>, init: seq<Node>, p: Node -> bool)
    requires cs != [] && init == cs[..|cs| - 1]
    ensures (exists i :: 0 <= i < |cs| && p(cs[i])) <==>
      (exists i :: 0 <= i < |init| && p(init[i])) || p(cs[|cs| - 1])
  {
    if exists i :: 0 <= i < |cs| && p(cs[i]) {
      var i :| 0 <= i < |cs| && p(cs[i]);
      if i < |init| {
        assert p(init[i]);
      }
    }
    if exists i :: 0 <= i < |init| && p(init[i]) {
      var i :| 0 <= i < |init| && p(init[i]);
      assert p(cs[i]);
    }
  }

  /** The type scan finds a type exactly when some child gives one. */
  lemma {:induction false} FieldTypeFound(cs: seq<Node>, src: string)
    ensures FieldType(cs, src).Some? <==> exists i :: 0 <= i < |cs| && HoldsType(cs[i])
    decreases |cs|
  {
    if cs != [] {
      var init := cs[..|cs| - 1];
      FieldTypeFound(init, src);
      FieldTypeStep(cs, src);
      ExistsInPrefix(cs, init, HoldsType);
    }
  }

  /** The children `parse_field` handles by kind are not types. */
  lemma FieldSkipsNotTypes(k: JavaNodeKind)
    requires k == Modifier || k == AnnotationNode || k == VariableDeclarator
    ensures !IsType(k)
  {
  }

  /** One more child: a type is known when one was before or the child
      gives one. */
  lemma FieldTypeStep(cs: seq<Node>, src: string)
    requires cs != []
    ensures FieldType(cs, src).Some? <==>
      FieldType(cs[..|cs| - 1], src).Some? || HoldsType(cs[|cs| - 1])
  {
    var last := cs[|cs| - 1];
    var kind := Kind(last);
    var prev := FieldType(cs[..|cs| - 1], src);
    if kind == Modifier || kind == AnnotationNode || kind == VariableDeclarator {
      FieldSkipsNotTypes(kind);
      assert FieldType(cs, src) == prev;
    } else if IsType(kind) {
      assert FieldType(cs, src).Some?;
    } else if prev.None? {
      LastTypeFound(last, src);
      assert FieldType(cs, src) == LastText(last.children, src, NestedTypeKinds);
    } else {
      assert FieldType(cs, src) == prev;
    }
  }

  /** The nested type scan of one child finds a type exactly when the child
      has a type or identifier child. */
  lemma LastTypeFound(c: Node, src: string)
    ensures LastText(c.children, src, NestedTypeKinds).Some? <==>
      exists j :: 0 <= j < |c.children| && Kind(c.children[j]) in NestedTypeKinds
  {
  }

  /** The fields of the field declarations, in order. */
  function FieldsIn(cs: seq<Node>, src: string): seq<Field>
    decreases |cs|
  {
    if cs == [] then []
    else
      var last := cs[|cs| - 1];
      FieldsIn(cs[..|cs| - 1], src) + (if Kind(last) == FieldDeclaration then OptSeq(FieldOf(last, src)) else [])
  }

  /** What `get_fields` returns: the fields declared in the `body` field. */
  function FieldsOf(n: Node, src: string): seq<Field>
  {
    match ChildByFieldName(n, "body")
    case None => []
    case Some(body) =>
      FieldsIn(body.children, src)
  }

  /** One more child of the body: its field, if any, is appended. */
  lemma FieldsInStep(cs: seq<Node>, i: nat, src: string)
    requires i < |cs|
    ensures FieldsIn(cs[..i + 1], src) ==
      FieldsIn(cs[..i], src) + (if Kind(cs[i]) == FieldDeclaration then OptSeq(FieldOf(cs[i], src)) else [])
  {
    assert cs[..i + 1][..i] == cs[..i];
  }

  /** One child of the body: its field, when it is a field declaration that
      gives one. */
  method FieldsOfChild(child: Node, src: string) returns (found: seq<Field>)
    ensures found == if Kind(child) == FieldDeclaration then OptSeq(FieldOf(child, src)) else []
  {
    found := [];
    if Kind(child) == FieldDeclaration {
      var field := ParseField(child, src);
      if field.Some? {
        found := [field.value];
      }
    }
  }

  /** `get_fields`. */
  method GetFields(n: Node, src: string) returns (fields: seq<Field>)
    ensures fields == FieldsOf(n, src)
  {
    fields := [];
    var body := ChildByFieldName(n, "body");
    if body.Some? {
      var cs := body.value.children;
      var i := 0;
      while i < |cs|
        invariant i <= |cs|
        invariant fields == FieldsIn(cs[..i], src)
      {
        FieldsInStep(cs, i, src);
        var found := FieldsOfChild(cs[i], src);
        fields := fields + found;
        i := i + 1;
      }
      assert cs[..i] == cs;
    }
  }


  // ---------------------------------------------------------------------
  // Parameters

  /** The kinds `parse_parameter` takes a parameter type from; generic and
      array types are not among them. */
  const ParameterTypeKinds: set<JavaNodeKind> :=
    {TypeIdentifier, IntegralType, FloatingPointType, BooleanType, VoidType}

  /** What `parse_parameter` returns: the first identifier names the
      parameter and the last parameter type child types it. */
  function ParameterOf(n: Node, src: string): Option<Parameter>
  {
    var name := FirstIdentifier(n.children, src);
    var typeName := LastText(n.children, src, ParameterTypeKinds);
    if name.Some? && typeName.Some? then
      Some(Parameter(name.value, typeName.value, AnnotationsIn(n.children, src)))
    else None
  }

  /** One more child of a formal parameter: its effect on each scanned
      variable. */
  lemma ParameterScanStep(cs: seq<Node>, i: nat, src: string)
    requires i < |cs|
    ensures FirstIdentifier(cs[..i + 1], src) ==
      if FirstIdentifier(cs[..i], src).None? && Kind(cs[i]) == Identifier then Some(Text(cs[i], src))
      else FirstIdentifier(cs[..i], src)
    ensures LastText(cs[..i + 1], src, ParameterTypeKinds) ==
      if Kind(cs[i]) in ParameterTypeKinds then Some(Text(cs[i], src)) else LastText(cs[..i], src, ParameterTypeKinds)
    ensures AnnotationsIn(cs[..i + 1], src) ==
      AnnotationsIn(cs[..i], src) + if Kind(cs[i]) == AnnotationNode then OptSeq(AnnotationOf(cs[i], src)) else []
  {
    assert cs[..i + 1][..i] == cs[..i];
    LastTextSnoc(cs, i, src, ParameterTypeKinds);
  }

  /** One iteration of `parse_parameter`'s loop: the child's effect on the
      name, the type and the annotations. */
  method ScanParameterChild(child: Node, src: string, name: Option<string>, typeName: Option<string>,
                            annotations: seq<Annotation>)
    returns (name': Option<string>, typeName': Option<string>, annotations': seq<Annotation>)
    ensures name' == if name.None? && Kind(child) == Identifier then Some(Text(child, src)) else name
    ensures typeName' == if Kind(child) in ParameterTypeKinds then Some(Text(child, src)) else typeName
    ensures annotations' == annotations + if Kind(child) == AnnotationNode then OptSeq(AnnotationOf(child, src)) else []
  {
    name', typeName', annotations' := name, typeName, annotations;
    var kind := Kind(child);
    if kind == AnnotationNode {
      var annotation := ParseAnnotation(child, src);
      if annotation.Some? {
        annotations' := annotations + [annotation.value];
      }
    } else if kind == Identifier {
      if name.None? {
        name' := Some(Text(child, src));
      }
    } else if kind in ParameterTypeKinds {
      typeName' := Some(Text(child, src));
    }
  }

  /** `parse_parameter`. */
  method ParseParameter(n: Node, src: string) returns (parameter: Option<Parameter>)
    ensures parameter == ParameterOf(n, src)
  {
    var cs := n.children;
    var name: Option<string> := None;
    var typeName: Option<string> := None;
    var annotations: seq<Annotation> := [];
    var i := 0;
    while i < |cs|
      invariant i <= |cs|
      invariant name == FirstIdentifier(cs[..i], src)
      invariant typeName == LastText(cs[..i], src, ParameterTypeKinds)
      invariant annotations == AnnotationsIn(cs[..i], src)
    {
      ParameterScanStep(cs, i, src);
      name, typeName, annotations := ScanParameterChild(cs[i], src, name, typeName, annotations);
      i := i + 1;
    }
    assert cs[..i] == cs;
    parameter := if name.Some? && typeName.Some? then Some(Parameter(name.value, typeName.value, annotations)) else None;
  }

  /** A parameter is produced exactly when the node has an identifier child
      and a parameter type child; its name is the first identifier's text
      and its type the last parameter type's text. */
  lemma ParameterSpec(n: Node, src: string)
    ensures ParameterOf(n, src).Some? <==>
      FirstOfKinds(n.children, {Identifier}).Some? && LastOfKinds(n.children, ParameterTypeKinds).Some?
    ensures ParameterOf(n, src).Some? ==>
      ParameterOf(n, src).value.name == Text(n.children[FirstOfKinds(n.children, {Identifier}).value], src) &&
      ParameterOf(n, src).value.typeName == Text(n.children[LastOfKinds(n.children, ParameterTypeKinds).value], src)
  {
    FirstIdentifierIsFirst(n.children, src);
  }

  /** The parameters of the formal parameter children, in order. */
  function ParametersIn(cs: seq<Node>, src: string): seq<Parameter>
    decreases |cs|
  {
    if cs == [] then []
    else
      var last := cs[|cs| - 1];
      ParametersIn(cs[..|cs| - 1], src) + (if Kind(last) == FormalParameter then OptSeq(ParameterOf(last, src)) else [])
  }

  /** `parse_parameters`. */
  method ParseParameters(n: Node, src: string) returns (parameters: seq<Parameter>)
    ensures parameters == ParametersIn(n.children, src)
  {
    var cs := n.children;
    parameters := [];
    var i := 0;
    while i < |cs|
      invariant i <= |cs|
      invariant parameters == ParametersIn(cs[..i], src)
    {
      assert cs[..i + 1][..i] == cs[..i];
      if Kind(cs[i]) == FormalParameter {
        var parameter := ParseParameter(cs[i], src);
        if parameter.Some? {
          parameters := parameters + [parameter.value];
        }
      }
      i := i + 1;
    }
    assert cs[..i] == cs;
  }

  /** Every parameter comes from a formal parameter child, and there are at
      most as many parameters as such children. */
  lemma ParametersInSpec(cs: seq<Node>, src: string)
    ensures |ParametersIn(cs, src)| <= CountOfKind(cs, FormalParameter)
    ensures forall p :: p in ParametersIn(cs, src) ==>
      exists i :: 0 <= i < |cs| && Kind(cs[i]) == FormalParameter && ParameterOf(cs[i], src) == Some(p)
  {
    ParametersInCount(cs, src);
    ParametersInSound(cs, src);
  }

  lemma {:induction false} ParametersInCount(cs: seq<Node>, src: string)
    ensures |ParametersIn(cs, src)| <= CountOfKind(cs, FormalParameter)
    decreases |cs|
  {
    if cs != [] {
      ParametersInCount(cs[..|cs| - 1], src);
    }
  }

  lemma {:induction false} ParametersInSound(cs: seq<Node>, src: string)
    ensures forall p :: p in ParametersIn(cs, src) ==>
      exists i :: 0 <= i < |cs| && Kind(cs[i]) == FormalParameter && ParameterOf(cs[i], src) == Some(p)
    decreases |cs|
  {
    if cs != [] {
      var init := cs[..|cs| - 1];
      var last := cs[|cs| - 1];
      var o := ParameterOf(last, src);
      var extra := if Kind(last) == FormalParameter then OptSeq(o) else [];
      ParametersInSound(init, src);
      assert ParametersIn(cs, src) == ParametersIn(init, src) + extra;
      forall p | p in ParametersIn(cs, src)
        ensures exists i :: 0 <= i < |cs| && Kind(cs[i]) == FormalParameter && ParameterOf(cs[i], src) == Some(p)
      {
        if p in ParametersIn(init, src) {
          var i :| 0 <= i < |init| && Kind(init[i]) == FormalParameter && ParameterOf(init[i], src) == Some(p);
          assert init[i] == cs[i];
        } else {
          assert p in extra;
          assert cs[|cs| - 1] == last;
        }
      }
    }
  }

  // ---------------------------------------------------------------------
  // Methods

  /** `get_source_range`: tree-sitter's zero-based rows and columns made
      one-based, by the same conversion as `JavaStructure.NodeRange`. */
  function GetSourceRange(n: Node): (r: SourceRange)
    ensures r.startLine == n.startPosition.row + 1 && r.startColumn == n.startPosition.column + 1
    ensures r.endLine == n.endPosition.row + 1 && r.endColumn == n.endPosition.column + 1
  {
    SourceRange(LineOf(n.startPosition), ColumnOf(n.startPosition), LineOf(n.endPosition), ColumnOf(n.endPosition))
  }

  /** `get_method_body_range`: the range of the `body` field, if any. */
  function GetMethodBodyRange(n: Node): (r: Option<SourceRange>)
    ensures r.Some? <==> ChildByFieldName(n, "body").Some?
    ensures r.Some? ==> r.value == GetSourceRange(ChildByFieldName(n, "body").value)
  {
    match ChildByFieldName(n, "body")
    case None => None
    case Some(body) => Some(GetSourceRange(body))
  }

  /** The parameter list of the last formal parameters child. */
  function LastParameters(cs: seq<Node>, src: string): seq<Parameter>
    decreases |cs|
  {
    if cs == [] then []
    else
      var last := cs[|cs| - 1];
      if Kind(last) == FormalParameters then ParametersIn(last.children, src)
      else LastParameters(cs[..|cs| - 1], src)
  }

  /** What `parse_method` returns: named by the first identifier child,
      returning the last type child's text or "void". */
  function MethodOf(n: Node, src: string): Option<Method>
  {
    match FirstIdentifier(n.children, src)
    case None => None
    case Some(name) =>
      var returnType := LastText(n.children, src, TypeKinds);
      Some(Method(name, if returnType.Some? then returnType.value else "void",
                  LastParameters(n.children, src), TextsOfKind(n.children, src, Modifier),
                  AnnotationsIn(n.children, src), GetSourceRange(n), GetMethodBodyRange(n)))
  }

  /** The five variables `parse_method` accumulates over the children. */
  datatype MethodScan = MethodScan(
    name: Option<string>,
    returnType: Option<string>,
    parameters: seq<Parameter>,
    modifiers: seq<string>,
    annotations: seq<Annotation>)

  /** One child's effect on the accumulated variables of `parse_method`. */
  function MethodStep(st: MethodScan, child: Node, src: string): MethodScan
  {
    var kind := Kind(child);
    if kind == Modifier then st.(modifiers := st.modifiers + [Text(child, src)])
    else if kind == AnnotationNode then st.(annotations := st.annotations + OptSeq(AnnotationOf(child, src)))
    else if kind == Identifier then (if st.name.None? then st.(name := Some(Text(child, src))) else st)
    else if kind == FormalParameters then st.(parameters := ParametersIn(child.children, src))
    else if IsType(kind) then st.(returnType := Some(Text(child, src)))
    else st
  }

  /** The variables after the whole scan of `cs`. */
  function ScanMethod(cs: seq<Node>, src: string): MethodScan
    decreases |cs|
  {
    if cs == [] then MethodScan(None, None, [], [], [])
    else MethodStep(ScanMethod(cs[..|cs| - 1], src), cs[|cs| - 1], src)
  }

  /** The scan computes each variable as its own definition says: the first
      identifier, the last type, the last parameter list, and all modifiers
      and annotations in order. */
  lemma ScanMethodComponents(cs: seq<Node>, src: string)
    ensures ScanMethod(cs, src) ==
      MethodScan(FirstIdentifier(cs, src), LastText(cs, src, TypeKinds), LastParameters(cs, src),
                 TextsOfKind(cs, src, Modifier), AnnotationsIn(cs, src))
  {
    ScanMethodName(cs, src);
    ScanMethodReturnType(cs, src);
    ScanMethodParameters(cs, src);
    ScanMethodLists(cs, src);
  }

  lemma {:induction false} ScanMethodName(cs: seq<Node>, src: string)
    ensures ScanMethod(cs, src).name == FirstIdentifier(cs, src)
    decreases |cs|
  {
    if cs != [] {
      ScanMethodName(cs[..|cs| - 1], src);
    }
  }

  /** Only a parameter list changes the parameters. */
  lemma MethodStepParameters(st: MethodScan, child: Node, src: string)
    ensures MethodStep(st, child, src).parameters ==
      if Kind(child) == FormalParameters then ParametersIn(child.children, src) else st.parameters
  {
  }

  /** Only a type child changes the return type. */
  lemma MethodStepReturnType(st: MethodScan, child: Node, src: string)
    ensures MethodStep(st, child, src).returnType ==
      if IsType(Kind(child)) then Some(Text(child, src)) else st.returnType
  {
  }

  lemma {:induction false} ScanMethodReturnType(cs: seq<Node>, src: string)
    ensures ScanMethod(cs, src).returnType == LastText(cs, src, TypeKinds)
    decreases |cs|
  {
    if cs != [] {
      ScanMethodReturnType(cs[..|cs| - 1], src);
      MethodStepReturnType(ScanMethod(cs[..|cs| - 1], src), cs[|cs| - 1], src);
      LastTextLast(cs, src, TypeKinds);
    }
  }

  lemma {:induction false} ScanMethodParameters(cs: seq<Node>, src: string)
    ensures ScanMethod(cs, src).parameters == LastParameters(cs, src)
    decreases |cs|
  {
    if cs != [] {
      var init := cs[..|cs| - 1];
      ScanMethodParameters(init, src);
      MethodStepParameters(ScanMethod(init, src), cs[|cs| - 1], src);
    }
  }


  lemma {:induction false} ScanMethodLists(cs: seq<Node>, src: string)
    ensures ScanMethod(cs, src).modifiers == TextsOfKind(cs, src, Modifier)
    ensures ScanMethod(cs, src).annotations == AnnotationsIn(cs, src)
    decreases |cs|
  {
    if cs != [] {
      var init := cs[..|cs| - 1];
      ScanMethodLists(init, src);
      MethodStepLists(ScanMethod(init, src), cs[|cs| - 1], src);
    }
  }

  /** Only a modifier extends the modifiers, and only an annotation the
      annotations. */
  lemma MethodStepLists(st: MethodScan, child: Node, src: string)
    ensures MethodStep(st, child, src).modifiers ==
      st.modifiers + if Kind(child) == Modifier then [Text(child, src)] else []
    ensures MethodStep(st, child, src).annotations ==
      st.annotations + if Kind(child) == AnnotationNode then OptSeq(AnnotationOf(child, src)) else []
  {
  }


  /** One more child is one more step of the scan. */
  lemma ScanMethodStep(cs: seq<Node>, i: nat, src: string)
    requires i < |cs|
    ensures ScanMethod(cs[..i + 1], src) == MethodStep(ScanMethod(cs[..i], src), cs[i], src)
  {
    assert cs[..i + 1][..i] == cs[..i];
  }

  /** One iteration of `parse_method`'s loop: the child's effect on the
      accumulated variables. */
  method ScanMethodChild(st: MethodScan, child: Node, src: string) returns (next: MethodScan)
    ensures next == MethodStep(st, child, src)
  {
    next := st;
    var kind := Kind(child);
    if kind == Modifier {
      next := next.(modifiers := st.modifiers + [Text(child, src)]);
    } else if kind == AnnotationNode {
      var annotation := ParseAnnotation(child, src);
      if annotation.Some? {
        next := next.(annotations := st.annotations + [annotation.value]);
      }
    } else if kind == Identifier {
      if st.name.None? {
        next := next.(name := Some(Text(child, src)));
      }
    } else if kind == FormalParameters {
      var parameters := ParseParameters(child, src);
      next := next.(parameters := parameters);
    } else if IsType(kind) {
      next := next.(returnType := Some(Text(child, src)));
    }
  }

  /** `parse_method`. The record `scan` holds the loop's five variables. */
  method ParseMethod(n: Node, src: string) returns (m: Option<Method>)
    ensures m == MethodOf(n, src)
  {
    var cs := n.children;
    var scan := MethodScan(None, None, [], [], []);
    var i := 0;
    while i < |cs|
      invariant i <= |cs|
      invariant scan == ScanMethod(cs[..i], src)
    {
      ScanMethodStep(cs, i, src);
      scan := ScanMethodChild(scan, cs[i], src);
      i := i + 1;
    }
    assert cs[..i] == cs;
    ScanMethodComponents(cs, src);
    if scan.name.None? {
      return None;
    }
    var returned := if scan.returnType.Some? then scan.returnType.value else "void";
    m := Some(Method(scan.name.value, returned, scan.parameters, scan.modifiers, scan.annotations,
                     GetSourceRange(n), GetMethodBodyRange(n)));
  }


  /** A method is produced exactly when the node has an identifier child;
      without a type child its return type is "void", otherwise the last
      type child's text. */
  lemma MethodSpec(n: Node, src: string)
    ensures MethodOf(n, src).Some? <==> FirstOfKinds(n.children, {Identifier}).Some?
    ensures MethodOf(n, src).Some? ==>
      MethodOf(n, src).value.name == Text(n.children[FirstOfKinds(n.children, {Identifier}).value], src)
    ensures MethodOf(n, src).Some? && LastOfKinds(n.children, TypeKinds).None? ==>
      MethodOf(n, src).value.returnType == "void"
    ensures MethodOf(n, src).Some? && LastOfKinds(n.children, TypeKinds).Some? ==>
      MethodOf(n, src).value.returnType == Text(n.children[LastOfKinds(n.children, TypeKinds).value], src)
  {
    FirstIdentifierIsFirst(n.children, src);
  }

  /** The methods of the method declarations, in order. */
  function MethodsIn(cs: seq<Node>, src: string): seq<Method>
    decreases |cs|
  {
    if cs == [] then []
    else
      var last := cs[|cs| - 1];
      MethodsIn(cs[..|cs| - 1], src) + (if Kind(last) == MethodDeclaration then OptSeq(MethodOf(last, src)) else [])
  }

  /** What `get_methods` returns: the methods declared in the `body` field. */
  function MethodsOf(n: Node, src: string): seq<Method>
  {
    match ChildByFieldName(n, "body")
    case None => []
    case Some(body) =>
      MethodsIn(body.children, src)
  }

  /** One more child appends its method when it is a method declaration
      that parses. */
  lemma MethodsInStep(cs: seq<Node>, i: nat, src: string)
    requires i < |cs|
    ensures MethodsIn(cs[..i + 1], src) ==
      MethodsIn(cs[..i], src) + (if Kind(cs[i]) == MethodDeclaration then OptSeq(MethodOf(cs[i], src)) else [])
  {
    assert cs[..i + 1][..i] == cs[..i];
  }

  /** The methods one child of the body contributes. */
  method MethodsOfChild(child: Node, src: string) returns (found: seq<Method>)
    ensures found == if Kind(child) == MethodDeclaration then OptSeq(MethodOf(child, src)) else []
  {
    found := [];
    if Kind(child) == MethodDeclaration {
      var m := ParseMethod(child, src);
      if m.Some? {
        found := [m.value];
      }
    }
  }

  /** `get_methods`. */
  method GetMethods(n: Node, src: string) returns (methods: seq<Method>)
    ensures methods == MethodsOf(n, src)
  {
    methods := [];
    var body := ChildByFieldName(n, "body");
    if body.Some? {
      var cs := body.value.children;
      var i := 0;
      while i < |cs|
        invariant i <= |cs|
        invariant methods == MethodsIn(cs[..i], src)
      {
        MethodsInStep(cs, i, src);
        var found := MethodsOfChild(cs[i], src);
        methods := methods + found;
        i := i + 1;
      }
      assert cs[..i] == cs;
    }
  }

  // ---------------------------------------------------------------------
  // Package and import names

  /** The kinds that name a package directly. */
  const NameKinds: set<JavaNodeKind> := {ScopedIdentifier, Identifier}

  /** The texts `get_package_name` passes over: empty, the keyword, or
      anything holding the terminating semicolon. */
  predicate Skipped(t: string) {
    t == "" || t == "package" || Contains(t, ";")
  }

  /** What one child decides in `get_package_name`: a name child gives its
      text, any other child that is not skipped its trimmed text, and a
      skipped child nothing. */
  function PackageDecision(c: Node, src: string): Option<string> {
    if Kind(c) in NameKinds then Some(Text(c, src))
    else if !Skipped(Text(c, src)) then Some(Trim(Text(c, src)))
    else None
  }

  function PackageDecider(src: string): Node -> Option<string> {
    c => PackageDecision(c, src)
  }

  /** The first decision among the children from index `i` on, or `none`
      when no child decides. */
  function FirstDecision<T>(f: Node -> Option<T>, cs: seq<Node>, i: nat, none: T): T
    decreases |cs| - i
  {
    if i >= |cs| then none
    else
      match f(cs[i])
      case Some(t) => t
      case None => FirstDecision(f, cs, i + 1, none)
  }

  /** Children that decide nothing are passed over. */
  lemma {:induction false} FirstDecisionSkips<T>(f: Node -> Option<T>, cs: seq<Node>, s: nat, i: nat, none: T)
    requires s <= i
    requires forall j :: s <= j < i && j < |cs| ==> f(cs[j]).None?
    ensures FirstDecision(f, cs, s, none) == FirstDecision(f, cs, i, none)
    decreases i - s
  {
    if s < i && s < |cs| {
      FirstDecisionSkips(f, cs, s + 1, i, none);
    }
  }

  /** What `get_package_name` returns: the first name child's text, or
      else the first other child's trimmed text that is not skipped, or
      else the empty string. */
  function PackageNameIn(cs: seq<Node>, src: string): string {
    PackageNameFrom(cs, src, 0)
  }

  /** `PackageNameIn` over the children from index `i` on. */
  function PackageNameFrom(cs: seq<Node>, src: string, i: nat): string {
    FirstDecision(PackageDecider(src), cs, i, "")
  }

  /** The search at one child: its decision if it makes one, else the
      search from the next child. */
  lemma PackageNameStep(cs: seq<Node>, src: string, i: nat)
    requires i < |cs|
    ensures PackageNameFrom(cs, src, i) ==
      match PackageDecision(cs[i], src)
      case Some(t) => t
      case None => PackageNameFrom(cs, src, i + 1)
  {
    assert PackageDecider(src)(cs[i]) == PackageDecision(cs[i], src);
  }

  /** `get_package_name`. */
  method GetPackageName(n: Node, src: string) returns (name: string)
    ensures name == PackageNameIn(n.children, src)
  {
    var cs := n.children;
    var i := 0;
    while i < |cs|
      invariant i <= |cs|
      invariant PackageNameFrom(cs, src, i) == PackageNameIn(cs, src)
    {
      PackageNameStep(cs, src, i);
      var kind := Kind(cs[i]);
      if kind == ScopedIdentifier || kind == Identifier {
        return Text(cs[i], src);
      }
      var text := Text(cs[i], src);
      if text != "" && text != "package" && !Contains(text, ";") {
        return Trim(text);
      }
      i := i + 1;
    }
    return "";
  }

  /** When everything before the first name child is skipped, the package
      is that child's text; when every child is skipped and none is a
      name, the package is empty. */
  lemma PackageNameSpec(cs: seq<Node>, src: string, i: nat)
    requires forall j :: 0 <= j < i && j < |cs| ==> Kind(cs[j]) !in NameKinds && Skipped(Text(cs[j], src))
    ensures i < |cs| && Kind(cs[i]) in NameKinds ==> PackageNameIn(cs, src) == Text(cs[i], src)
    ensures i >= |cs| ==> PackageNameIn(cs, src) == ""
  {
    var f := PackageDecider(src);
    forall j | 0 <= j < i && j < |cs|
      ensures f(cs[j]).None?
    {
      assert f(cs[j]) == PackageDecision(cs[j], src);
    }
    FirstDecisionSkips(f, cs, 0, i, "");
  }

  /** The kinds `get_import_name` takes from a child directly. */
  const ImportNameKinds: set<JavaNodeKind> := {ScopedIdentifier, Identifier, Asterisk}

  /** What `get_import_name` returns: the first child that is a name or an
      asterisk, or else the first name among the children of a child that
      is not, searched child by child; `None` when there is neither. */
  function ImportNameIn(cs: seq<Node>, src: string): Option<string>
    decreases |cs|
  {
    if cs == [] then None
    else if Kind(cs[0]) in ImportNameKinds then Some(Text(cs[0], src))
    else
      match FirstOfKinds(cs[0].children, NameKinds)
      case Some(j) => Some(Text(cs[0].children[j], src))
      case None => ImportNameIn(cs[1..], src)
  }

  /** The inner search of `get_import_name` among a child's children. */
  method FindNestedName(cs: seq<Node>, src: string) returns (name: Option<string>)
    ensures name == match FirstOfKinds(cs, NameKinds)
                    case Some(j) => Some(Text(cs[j], src))
                    case None => None
  {
    var i := 0;
    while i < |cs|
      invariant i <= |cs|
      invariant forall j :: 0 <= j < i ==> Kind(cs[j]) !in NameKinds
    {
      if Kind(cs[i]) in NameKinds {
        FirstOfKindsAt(cs, NameKinds, i);
        return Some(Text(cs[i], src));
      }
      i := i + 1;
    }
    return None;
  }

  /** `get_import_name`. */
  method GetImportName(n: Node, src: string) returns (name: Option<string>)
    ensures name == ImportNameIn(n.children, src)
  {
    var cs := n.children;
    var i := 0;
    while i < |cs|
      invariant i <= |cs|
      invariant ImportNameIn(cs[i..], src) == ImportNameIn(cs, src)
    {
      assert cs[i..][0] == cs[i] && cs[i..][1..] == cs[i + 1..];
      var kind := Kind(cs[i]);
      if kind == ScopedIdentifier || kind == Identifier || kind == Asterisk {
        return Some(Text(cs[i], src));
      }
      var nested := FindNestedName(cs[i].children, src);
      if nested.Some? {
        return nested;
      }
      i := i + 1;
    }
    return None;
  }

  /** An import declaration yields no name exactly when no child is a name
      or an asterisk and no grandchild is a name. */
  lemma {:induction false} ImportNameSpec(cs: seq<Node>, src: string)
    ensures ImportNameIn(cs, src).None? <==>
      forall i :: 0 <= i < |cs| ==>
        Kind(cs[i]) !in ImportNameKinds && FirstOfKinds(cs[i].children, NameKinds).None?
    decreases |cs|
  {
    if cs != [] {
      ImportNameSpec(cs[1..], src);
      assert forall i :: 0 < i < |cs| ==> cs[i] == cs[1..][i - 1];
    }
  }

  // ---------------------------------------------------------------------
  // Documentation

  /** What `get_documentation` returns: the text of the first comment
      child that opens with the Javadoc marker. */
  function DocumentationIn(cs: seq<Node>, src: string): Option<string>
    decreases |cs|
  {
    if cs == [] then None
    else if Kind(cs[0]) == Comment && StartsWith(Text(cs[0], src), "/**") then Some(Text(cs[0], src))
    else DocumentationIn(cs[1..], src)
  }

  /** `get_documentation`. */
  method GetDocumentation(n: Node, src: string) returns (documentation: Option<string>)
    ensures documentation == DocumentationIn(n.children, src)
  {
    var cs := n.children;
    var i := 0;
    while i < |cs|
      invariant i <= |cs|
      invariant DocumentationIn(cs[i..], src) == DocumentationIn(cs, src)
    {
      assert cs[i..][0] == cs[i] && cs[i..][1..] == cs[i + 1..];
      if Kind(cs[i]) == Comment {
        var text := Text(cs[i], src);
        if StartsWith(text, "/**") {
          return Some(text);
        }
      }
      i := i + 1;
    }
    return None;
  }

  /** The documentation is a Javadoc comment child's text, and there is
      none exactly when no comment child opens with the marker. */
  lemma DocumentationSpec(cs: seq<Node>, src: string)
    ensures DocumentationIn(cs, src).Some? ==>
      StartsWith(DocumentationIn(cs, src).value, "/**") &&
      exists i :: 0 <= i < |cs| && Kind(cs[i]) == Comment && Text(cs[i], src) == DocumentationIn(cs, src).value
    ensures DocumentationIn(cs, src).None? <==>
      forall i :: 0 <= i < |cs| && Kind(cs[i]) == Comment ==> !StartsWith(Text(cs[i], src), "/**")
  {
    DocumentationInFound(cs, src);
    DocumentationInAbsent(cs, src);
  }

  /** Found documentation is the text of a comment child that opens with
      the Javadoc marker. */
  lemma {:induction false} DocumentationInFound(cs: seq<Node>, src: string)
    ensures DocumentationIn(cs, src).Some? ==>
      StartsWith(DocumentationIn(cs, src).value, "/**") &&
      exists i :: 0 <= i < |cs| && Kind(cs[i]) == Comment && Text(cs[i], src) == DocumentationIn(cs, src).value
    decreases |cs|
  {
    if cs != [] && !(Kind(cs[0]) == Comment && StartsWith(Text(cs[0], src), "/**")) {
      var rest := cs[1..];
      DocumentationInFound(rest, src);
      var d := DocumentationIn(rest, src);
      assert DocumentationIn(cs, src) == d;
      if d.Some? {
        var i :| 0 <= i < |rest| && Kind(rest[i]) == Comment && Text(rest[i], src) == d.value;
        assert rest[i] == cs[i + 1];
      }
    }
  }

  /** There is no documentation exactly when no comment child opens with
      the Javadoc marker. */
  lemma {:induction false} DocumentationInAbsent(cs: seq<Node>, src: string)
    ensures DocumentationIn(cs, src).None? <==>
      forall i :: 0 <= i < |cs| && Kind(cs[i]) == Comment ==> !StartsWith(Text(cs[i], src), "/**")
    decreases |cs|
  {
    if cs != [] {
      var rest := cs[1..];
      DocumentationInAbsent(rest, src);
      assert forall i :: 0 < i < |cs| ==> cs[i] == rest[i - 1];
    }
  }

  // ---------------------------------------------------------------------
  // Declarations and files

  /** What `parse_declaration` returns for a node, with `package` the
      package the file has when the node is reached. */
  function DeclarationOf(n: Node, src: string, package: string): Option<Declaration>
  {
    match ToDeclarationKind(Kind(n))
    case None => None
    case Some(kind) =>
      Some(Declaration(
        DeclarationNameOf(n, src), kind, ModifiersOf(Text(n, src)), AnnotationsIn(n.children, src),
        SignatureOf(n, src, package), ExtendsIn(n.children, src), InterfacesIn(n.children, src),
        FieldsOf(n, src), MethodsOf(n, src), GetSourceRange(n), DocumentationIn(n.children, src)))
  }

  /** `parse_declaration`. */
  method ParseDeclaration(n: Node, src: string, javaFile: JavaFile) returns (declaration: Option<Declaration>)
    ensures declaration == DeclarationOf(n, src, javaFile.package)
  {
    var kind := ToDeclarationKind(Kind(n));
    if kind.None? {
      return None;
    }
    var name := GetDeclarationName(n, src);
    var modifiers := GetModifiers(n, src);
    var annotations := GetAnnotations(n, src);
    var signature := GetSignature(n, src, javaFile);
    var extendsClass, implements := GetInheritanceInfo(n, src);
    var fields := GetFields(n, src);
    var methods := GetMethods(n, src);
    var range := GetSourceRange(n);
    var documentation := GetDocumentation(n, src);
    declaration := Some(Declaration(name, kind.value, modifiers, annotations, signature, extendsClass,
                                    implements, fields, methods, range, documentation));
  }

  /** Exactly the five declaration node kinds give a declaration, of the
      matching kind; its signature ends with the kind keyword and the fully
      qualified name. */
  lemma DeclarationSpec(n: Node, src: string, package: string)
    ensures DeclarationOf(n, src, package).Some? <==> IsDeclaration(Kind(n))
    ensures DeclarationOf(n, src, package).Some? ==>
      DeclarationNodeKind(DeclarationOf(n, src, package).value.kind) == Kind(n)
    ensures DeclarationOf(n, src, package).Some? && NoSpace(package) && IsWord(DeclarationNameOf(n, src)) ==>
      SplitWhitespace(DeclarationOf(n, src, package).value.signature) ==
        DeclarationOf(n, src, package).value.modifiers +
          [KindKeyword(DeclarationOf(n, src, package).value.kind), Fqn(package, DeclarationOf(n, src, package).value.name)]
  {
    if IsDeclaration(Kind(n)) {
      ToDeclarationKindBijective(Kind(n), ToDeclarationKind(Kind(n)).value);
      if NoSpace(package) && IsWord(DeclarationNameOf(n, src)) {
        SignatureWords(n, src, package);
      }
    }
  }

  /** One child of the root: a module, package or import declaration sets
      or extends the file; a type declaration is parsed against the package
      known so far; anything else is ignored. */
  function RootStep(file: JavaFile, child: Node, src: string): JavaFile
  {
    var kind := Kind(child);
    if kind == ModuleDeclaration then file.(moduleName := Some(Text(child, src)))
    else if kind == PackageDeclaration then file.(package := PackageNameIn(child.children, src))
    else if kind == ImportDeclaration then file.(imports := file.imports + OptSeq(ImportNameIn(child.children, src)))
    else if IsDeclaration(kind) then
      file.(declarations := file.declarations + OptSeq(DeclarationOf(child, src, file.package)))
    else file
  }

  /** The file after `parse_root` has visited the children `cs` in order. */
  function RootOf(file: JavaFile, cs: seq<Node>, src: string): JavaFile
    decreases |cs|
  {
    if cs == [] then file else RootStep(RootOf(file, cs[..|cs| - 1], src), cs[|cs| - 1], src)
  }

  /** Visiting one more child is one more step. */
  lemma RootOfSnoc(file: JavaFile, cs: seq<Node>, i: nat, src: string)
    requires i < |cs|
    ensures RootOf(file, cs[..i + 1], src) == RootStep(RootOf(file, cs[..i], src), cs[i], src)
  {
    assert cs[..i + 1][..i] == cs[..i];
  }

  /** `parse_root`, on the file passed in and handed back. */
  method ParseRoot(root: Node, src: string, javaFile: JavaFile) returns (result: JavaFile)
    ensures result == RootOf(javaFile, root.children, src)
  {
    var cs := root.children;
    result := javaFile;
    var i := 0;
    while i < |cs|
      invariant i <= |cs|
      invariant result == RootOf(javaFile, cs[..i], src)
    {
      RootOfSnoc(javaFile, cs, i, src);
      var child := cs[i];
      var kind := Kind(child);
      if kind == ModuleDeclaration {
        result := result.(moduleName := Some(Text(child, src)));
      } else if kind == PackageDeclaration {
        var package := GetPackageName(child, src);
        result := result.(package := package);
      } else if kind == ImportDeclaration {
        var name := GetImportName(child, src);
        if name.Some? {
          result := result.(imports := result.imports + [name.value]);
        }
      } else if IsDeclaration(kind) {
        var declaration := ParseDeclaration(child, src, result);
        if declaration.Some? {
          result := result.(declarations := result.declarations + [declaration.value]);
        }
      }
      i := i + 1;
    }
    assert cs[..i] == cs;
  }

  /** The import names found in the import declarations, in order. */
  function ImportsIn(cs: seq<Node>, src: string): seq<string>
    decreases |cs|
  {
    if cs == [] then []
    else
      var last := cs[|cs| - 1];
      ImportsIn(cs[..|cs| - 1], src) +
        (if Kind(last) == ImportDeclaration then OptSeq(ImportNameIn(last.children, src)) else [])
  }

  /** The number of type declarations among `cs`. */
  function DeclarationCount(cs: seq<Node>): nat
    decreases |cs|
  {
    if cs == [] then 0
    else DeclarationCount(cs[..|cs| - 1]) + if IsDeclaration(Kind(cs[|cs| - 1])) then 1 else 0
  }

  /** The package known after the children `cs`: the name read from the
      last package declaration among them, or `package` when there is
      none. */
  function PackageAfter(package: string, cs: seq<Node>, src: string): string
    decreases |cs|
  {
    if cs == [] then package
    else
      var last := cs[|cs| - 1];
      if Kind(last) == PackageDeclaration then PackageNameIn(last.children, src)
      else PackageAfter(package, cs[..|cs| - 1], src)
  }

  /** The declarations of the type declaration children among `cs`, in
      order, each parsed against the package known when it is reached. */
  function DeclarationsIn(package: string, cs: seq<Node>, src: string): seq<Declaration>
    decreases |cs|
  {
    if cs == [] then []
    else
      var init := cs[..|cs| - 1];
      var last := cs[|cs| - 1];
      DeclarationsIn(package, init, src) +
        (if IsDeclaration(Kind(last)) then OptSeq(DeclarationOf(last, src, PackageAfter(package, init, src))) else [])
  }

  /** The declarations of the type declaration children among `cs`, all
      parsed against the one package `package`. */
  function DeclarationsWith(package: string, cs: seq<Node>, src: string): seq<Declaration>
    decreases |cs|
  {
    if cs == [] then []
    else
      var last := cs[|cs| - 1];
      DeclarationsWith(package, cs[..|cs| - 1], src) +
        (if IsDeclaration(Kind(last)) then OptSeq(DeclarationOf(last, src, package)) else [])
  }

  /** Without a package declaration among the children the package stays
      as it was, and every type declaration is parsed against it. */
  lemma {:induction false} DeclarationsWithoutPackage(package: string, cs: seq<Node>, src: string)
    requires forall i :: 0 <= i < |cs| ==> Kind(cs[i]) != PackageDeclaration
    ensures PackageAfter(package, cs, src) == package
    ensures DeclarationsIn(package, cs, src) == DeclarationsWith(package, cs, src)
    decreases |cs|
  {
    if cs != [] {
      var init := cs[..|cs| - 1];
      assert forall i :: 0 <= i < |init| ==> init[i] == cs[i];
      DeclarationsWithoutPackage(package, init, src);
    }
  }

  /** One child's effect on the file: a module or package declaration
      replaces that part, an import declaration appends its name, and a
      type declaration appends its declaration, parsed against the file's
      package at that point. */
  lemma RootStepParts(file: JavaFile, child: Node, src: string)
    ensures RootStep(file, child, src).path == file.path
    ensures RootStep(file, child, src).sourceHash == file.sourceHash
    ensures RootStep(file, child, src).package ==
      if Kind(child) == PackageDeclaration then PackageNameIn(child.children, src) else file.package
    ensures RootStep(file, child, src).imports ==
      file.imports + if Kind(child) == ImportDeclaration then OptSeq(ImportNameIn(child.children, src)) else []
    ensures RootStep(file, child, src).declarations ==
      file.declarations + if IsDeclaration(Kind(child)) then OptSeq(DeclarationOf(child, src, file.package)) else []
    ensures |RootStep(file, child, src).declarations| ==
      |file.declarations| + if IsDeclaration(Kind(child)) then 1 else 0
  {
    DeclarationSpec(child, src, file.package);
    CategoriesDisjoint(Kind(child));
  }

  /** `parse_root` keeps the path and hash, appends every import name in
      order, appends the declaration of every type declaration child in
      order, each parsed against the package known at that child, and
      leaves the package of the last package declaration. */
  lemma {:induction false} RootSpec(file: JavaFile, cs: seq<Node>, src: string)
    ensures RootOf(file, cs, src).path == file.path
    ensures RootOf(file, cs, src).sourceHash == file.sourceHash
    ensures RootOf(file, cs, src).imports == file.imports + ImportsIn(cs, src)
    ensures RootOf(file, cs, src).package == PackageAfter(file.package, cs, src)
    ensures RootOf(file, cs, src).declarations == file.declarations + DeclarationsIn(file.package, cs, src)
    ensures |RootOf(file, cs, src).declarations| == |file.declarations| + DeclarationCount(cs)
    decreases |cs|
  {
    if cs != [] {
      var init := cs[..|cs| - 1];
      var last := cs[|cs| - 1];
      var before := RootOf(file, init, src);
      RootSpec(file, init, src);
      RootStepParts(before, last, src);
      var extra := if IsDeclaration(Kind(last)) then OptSeq(DeclarationOf(last, src, before.package)) else [];
      assert RootOf(file, cs, src).declarations == before.declarations + extra;
      assert DeclarationsIn(file.package, cs, src) == DeclarationsIn(file.package, init, src) + extra;
      Reassociate(file.declarations, DeclarationsIn(file.package, init, src), extra);
    }
  }

  lemma Reassociate<T>(a: seq<T>, b: seq<T>, c: seq<T>)
    ensures a + b + c == a + (b + c)
  {
  }

  /** The file `parse_file` starts from: no module, empty package, no
      imports or declarations, and the given hash of the source. */
  function EmptyFile(path: string, sourceHash: string): JavaFile {
    JavaFile(path, None, "", [], [], sourceHash)
  }

  /** `parse_file`, given the syntax tree of the source and its hash:
      reading the file, parsing it and hashing it are not part of the
      model. */
  method ParseFile(path: string, src: string, root: Node, sourceHash: string) returns (file: JavaFile)
    ensures file == RootOf(EmptyFile(path, sourceHash), root.children, src)
  {
    file := ParseRoot(root, src, EmptyFile(path, sourceHash));
  }

  /** A parsed file has the given path and hash, every import name of its
      import declarations, and the declaration of every type declaration,
      in order, each parsed against the package declared before it; without
      a package declaration the package stays empty and every declaration
      is parsed against the empty package. */
  lemma ParseFileSpec(path: string, src: string, root: Node, sourceHash: string)
    ensures RootOf(EmptyFile(path, sourceHash), root.children, src).path == path
    ensures RootOf(EmptyFile(path, sourceHash), root.children, src).sourceHash == sourceHash
    ensures RootOf(EmptyFile(path, sourceHash), root.children, src).imports == ImportsIn(root.children, src)
    ensures RootOf(EmptyFile(path, sourceHash), root.children, src).declarations == DeclarationsIn("", root.children, src)
    ensures |RootOf(EmptyFile(path, sourceHash), root.children, src).declarations| == DeclarationCount(root.children)
    ensures (forall i :: 0 <= i < |root.children| ==> Kind(root.children[i]) != PackageDeclaration) ==>
      RootOf(EmptyFile(path, sourceHash), root.children, src).package == "" &&
      RootOf(EmptyFile(path, sourceHash), root.children, src).declarations == DeclarationsWith("", root.children, src)
  {
    RootSpec(EmptyFile(path, sourceHash), root.children, src);
    if forall i :: 0 <= i < |root.children| ==> Kind(root.children[i]) != PackageDeclaration {
      DeclarationsWithoutPackage("", root.children, src);
    }
  }
}
