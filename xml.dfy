/** `XmlParser`: root-element detection, Spring bean classes and Maven
    `<properties>` entries, each read from a stream of reader events. */
module Xml {
  import opened Strings
  import opened Types
  import opened XmlEvents

  // ---------------------------------------------------------------------
  // parse_file

  /** What the loop of `parse_file` finds: the name of the first element,
      `None` when the events end first, or the reader's error. */
  function RootScan(evs: seq<Event>): Result<Option<string>>
  {
    if evs == [] then Ok(None)
    else if IsElement(evs[0]) then Ok(Some(evs[0].name))
    else if evs[0].Eof? then Ok(None)
    else if evs[0].Error? then Failure(evs[0].message)
    else RootScan(evs[1..])
  }

  /** The `XmlFile` that `parse_file` returns for a file at `path` with text
      `content` that the reader turns into `evs`. */
  function XmlFileOf(path: string, content: string, evs: seq<Event>): Result<XmlFile>
  {
    match RootScan(evs)
    case Failure(m) => Failure("XML parsing error: " + m)
    case Ok(root) => Ok(XmlFile(path, if root.Some? then root.value else "unknown", content))
  }

  /** `parse_file`, after the file has been read. */
  method ParseFile(path: string, content: string, evs: seq<Event>) returns (r: Result<XmlFile>)
    ensures r == XmlFileOf(path, content, evs)
  {
    var rootElement: Option<string> := None;
    var i := 0;
    while i < |evs|
      invariant 0 <= i <= |evs|
      invariant rootElement == None
      invariant RootScan(evs[i..]) == RootScan(evs)
    {
      match evs[i] {
        case Start(n, _) =>
          rootElement := Some(n);
          break;
        case Empty(n, _) =>
          rootElement := Some(n);
          break;
        case Eof =>
          break;
        case Error(m) =>
          return Failure("XML parsing error: " + m);
        case _ =>
      }
      assert evs[i..][1..] == evs[i + 1..];
      i := i + 1;
    }
    assert RootScan(evs) == Ok(rootElement);
    r := Ok(XmlFile(path, if rootElement.Some? then rootElement.value else "unknown", content));
  }

  /** Events that are neither elements nor stops are skipped. */
  lemma {:induction false} RootScanSkip(evs: seq<Event>, i: nat)
    requires i <= |evs|
    requires forall j :: 0 <= j < i ==> !IsElement(evs[j]) && !Stops(evs[j])
    ensures RootScan(evs) == RootScan(evs[i..])
  {
    if i > 0 {
      RootScanSkip(evs[1..], i - 1);
      assert evs[1..][i - 1..] == evs[i..];
    }
  }

  /** The root element is the first `Start` or `Empty` event, if it comes
      before any end of input or error. */
  lemma RootIsFirstElement(path: string, content: string, evs: seq<Event>, i: nat)
    requires i < |evs| && IsElement(evs[i])
    requires forall j :: 0 <= j < i ==> !IsElement(evs[j]) && !Stops(evs[j])
    ensures XmlFileOf(path, content, evs) == Ok(XmlFile(path, evs[i].name, content))
  {
    RootScanSkip(evs, i);
  }

  /** With no element before the end of input, the root is `"unknown"`. */
  lemma RootUnknown(path: string, content: string, evs: seq<Event>, i: nat)
    requires i <= |evs| && (i == |evs| || evs[i].Eof?)
    requires forall j :: 0 <= j < i ==> !IsElement(evs[j]) && !Stops(evs[j])
    ensures XmlFileOf(path, content, evs) == Ok(XmlFile(path, "unknown", content))
  {
    RootScanSkip(evs, i);
  }

  /** A reader error before any element is the result. */
  lemma RootError(path: string, content: string, evs: seq<Event>, i: nat)
    requires i < |evs| && evs[i].Error?
    requires forall j :: 0 <= j < i ==> !IsElement(evs[j]) && !Stops(evs[j])
    ensures XmlFileOf(path, content, evs) == Failure("XML parsing error: " + evs[i].message)
  {
    RootScanSkip(evs, i);
  }

  // ---------------------------------------------------------------------
  // extract_spring_beans

  /** A Spring bean tag: `bean` itself or a namespaced `prefix:bean`. */
  predicate IsBeanTag(name: string) {
    name == "bean" || EndsWith(name, ":bean")
  }

  const DecodeError := "attribute value could not be decoded"

  /** The loop over one tag's attributes: each well-formed `class` attribute
      appends its decoded value to `acc`; a value that cannot be decoded
      aborts. */
  function ClassesFrom(attrs: seq<Attribute>, acc: seq<string>): Result<seq<string>>
  {
    if attrs == [] then Ok(acc)
    else match attrs[0]
      case Malformed => ClassesFrom(attrs[1..], acc)
      case Attribute(k, v) =>
        if k != "class" then ClassesFrom(attrs[1..], acc)
        else match v
          case None => Failure(DecodeError)
          case Some(x) => ClassesFrom(attrs[1..], acc + [x])
  }

  /** The event loop of `extract_spring_beans`, continuing with `acc` found so far. */
  function BeansFrom(evs: seq<Event>, acc: seq<string>): Result<seq<string>>
  {
    if evs == [] then Ok(acc)
    else if IsElement(evs[0]) then
      if IsBeanTag(evs[0].name) then
        match ClassesFrom(evs[0].attrs, acc)
        case Failure(m) => Failure(m)
        case Ok(grown) => BeansFrom(evs[1..], grown)
      else BeansFrom(evs[1..], acc)
    else if evs[0].Eof? then Ok(acc)
    else if evs[0].Error? then Failure("XML parsing error: " + evs[0].message)
    else BeansFrom(evs[1..], acc)
  }

  /** `extract_spring_beans`. */
  method ExtractSpringBeans(evs: seq<Event>) returns (r: Result<seq<string>>)
    ensures r == BeansFrom(evs, [])
  {
    var beans: seq<string> := [];
    var i := 0;
    while i < |evs|
      invariant 0 <= i <= |evs|
      invariant BeansFrom(evs[i..], beans) == BeansFrom(evs, [])
    {
      var e := evs[i];
      assert evs[i..][1..] == evs[i + 1..];
      if IsElement(e) {
        if IsBeanTag(e.name) {
          var attrs := e.attrs;
          var before := beans;
          for j := 0 to |attrs|
            invariant ClassesFrom(attrs[j..], beans) == ClassesFrom(attrs, before)
          {
            assert attrs[j..][1..] == attrs[j + 1..];
            match attrs[j] {
              case Attribute(k, v) =>
                if k == "class" {
                  match v {
                    case None =>
                      return Failure(DecodeError);
                    case Some(x) =>
                      beans := beans + [x];
                  }
                }
              case Malformed =>
            }
          }
          assert attrs[|attrs|..] == [];
        }
      } else if e.Eof? {
        break;
      } else if e.Error? {
        return Failure("XML parsing error: " + e.message);
      }
      i := i + 1;
    }
    r := Ok(beans);
  }

  /** The `class` values of one tag, when all of them can be decoded. */
  function ClassValues(attrs: seq<Attribute>): seq<string>
  {
    if attrs == [] then []
    else if attrs[0].Attribute? && attrs[0].key == "class" && attrs[0].value.Some? then
      [attrs[0].value.value] + ClassValues(attrs[1..])
    else ClassValues(attrs[1..])
  }

  /** Every `class` attribute of the tag can be decoded. */
  predicate Decodable(attrs: seq<Attribute>) {
    forall j :: 0 <= j < |attrs| ==> attrs[j].Attribute? && attrs[j].key == "class" ==> attrs[j].value.Some?
  }

  /** The bean classes of an event stream, element by element in document
      order, up to the end of input. */
  function BeanClasses(evs: seq<Event>): seq<string>
  {
    if evs == [] || Stops(evs[0]) then []
    else if IsElement(evs[0]) && IsBeanTag(evs[0].name) then ClassValues(evs[0].attrs) + BeanClasses(evs[1..])
    else BeanClasses(evs[1..])
  }

  /** One tag's loop appends its `class` values in attribute order, or fails
      exactly when one of them cannot be decoded. */
  lemma {:induction false} ClassesFromValues(attrs: seq<Attribute>, acc: seq<string>)
    ensures Decodable(attrs) ==> ClassesFrom(attrs, acc) == Ok(acc + ClassValues(attrs))
    ensures !Decodable(attrs) ==> ClassesFrom(attrs, acc) == Failure(DecodeError)
  {
    if attrs != [] {
      var a := attrs[0];
      var grown := if a.Attribute? && a.key == "class" && a.value.Some? then acc + [a.value.value] else acc;
      ClassesFromValues(attrs[1..], grown);
      assert Decodable(attrs) <==> Decodable(attrs[1..]) && !(a.Attribute? && a.key == "class" && a.value.None?) by {
        assert forall j :: 0 <= j < |attrs[1..]| ==> attrs[1..][j] == attrs[j + 1];
        if Decodable(attrs[1..]) && !(a.Attribute? && a.key == "class" && a.value.None?) {
          forall j | 0 <= j < |attrs| && attrs[j].Attribute? && attrs[j].key == "class"
            ensures attrs[j].value.Some?
          {
            if j > 0 {
              assert attrs[j] == attrs[1..][j - 1];
            }
          }
        }
      }
      if a.Attribute? && a.key == "class" && a.value.Some? {
        assert acc + [a.value.value] + ClassValues(attrs[1..]) == acc + ClassValues(attrs);
      }
    } else {
      assert acc + [] == acc;
    }
  }

  /** Every element whose tag is a bean tag has decodable `class`
      attributes, up to the end of input. */
  predicate BeansDecodable(evs: seq<Event>) {
    forall j :: 0 <= j < |evs| && IsElement(evs[j]) && IsBeanTag(evs[j].name) ==> Decodable(evs[j].attrs)
  }

  /** The end of input, if any, comes before any reader error. */
  predicate NoErrorBeforeEof(evs: seq<Event>)
  {
    forall j :: 0 <= j < |evs| && evs[j].Error? ==> exists k :: 0 <= k < j && evs[k].Eof?
  }

  /** Without errors, `extract_spring_beans` returns exactly the bean classes,
      one per `class` attribute of a bean tag, in document order; every other
      element contributes nothing. */
  lemma {:induction false} BeansAreBeanClasses(evs: seq<Event>, acc: seq<string>)
    requires BeansDecodable(evs) && NoErrorBeforeEof(evs)
    ensures BeansFrom(evs, acc) == Ok(acc + BeanClasses(evs))
  {
    if evs == [] {
      assert acc + [] == acc;
    } else if Stops(evs[0]) {
      assert !evs[0].Error?;
      assert acc + [] == acc;
    } else {
      var rest := evs[1..];
      assert BeansDecodable(rest) by {
        forall j | 0 <= j < |rest| && IsElement(rest[j]) && IsBeanTag(rest[j].name)
          ensures Decodable(rest[j].attrs)
        {
          assert rest[j] == evs[j + 1];
        }
      }
      assert NoErrorBeforeEof(rest) by {
        forall j | 0 <= j < |rest| && rest[j].Error?
          ensures exists k :: 0 <= k < j && rest[k].Eof?
        {
          assert evs[j + 1] == rest[j];
          var k :| 0 <= k < j + 1 && evs[k].Eof?;
          assert k != 0;
          assert rest[k - 1] == evs[k];
        }
      }
      if IsElement(evs[0]) && IsBeanTag(evs[0].name) {
        var cs := ClassValues(evs[0].attrs);
        ClassesFromValues(evs[0].attrs, acc);
        BeansAreBeanClasses(rest, acc + cs);
        assert acc + cs + BeanClasses(rest) == acc + (cs + BeanClasses(rest));
      } else {
        BeansAreBeanClasses(rest, acc);
      }
    }
  }

  /** A reader error before the end of input makes `extract_spring_beans` fail. */
  lemma {:induction false} BeansErrorAborts(evs: seq<Event>, i: nat, acc: seq<string>)
    requires i < |evs| && evs[i].Error?
    requires forall j :: 0 <= j < i ==> !Stops(evs[j])
    ensures BeansFrom(evs, acc).Failure?
  {
    if i > 0 {
      var rest := evs[1..];
      assert forall j :: 0 <= j < i - 1 ==> rest[j] == evs[j + 1];
      if IsElement(evs[0]) && IsBeanTag(evs[0].name) {
        match ClassesFrom(evs[0].attrs, acc) {
          case Failure(m) =>
          case Ok(grown) => BeansErrorAborts(rest, i - 1, grown);
        }
      } else {
        BeansErrorAborts(rest, i - 1, acc);
      }
    }
  }

  // ---------------------------------------------------------------------
  // extract_maven_properties

  /** A tag that names a property: anything but the enclosing `properties`
      and `project` elements. */
  predicate IsPropertyTag(name: string) {
    name != "properties" && name != "project"
  }

  /** The event loop of `extract_maven_properties` with the pending key
      `pending` and the pairs `acc` found so far. A `Start` of a property tag
      sets the pending key; the next `Text` consumes it; `End` and `Empty`
      leave it alone. */
  function PropsFrom(evs: seq<Event>, pending: Option<string>, acc: seq<(string, string)>): Result<seq<(string, string)>>
  {
    if evs == [] then Ok(acc)
    else match evs[0]
      case Start(n, _) => PropsFrom(evs[1..], if IsPropertyTag(n) then Some(n) else pending, acc)
      case Text(t) =>
        if pending.Some? then PropsFrom(evs[1..], None, acc + [(pending.value, TextOf(t))])
        else PropsFrom(evs[1..], None, acc)
      case Eof => Ok(acc)
      case Error(m) => Failure("XML parsing error: " + m)
      case _ => PropsFrom(evs[1..], pending, acc)
  }

  /** `extract_maven_properties`. */
  method ExtractMavenProperties(evs: seq<Event>) returns (r: Result<seq<(string, string)>>)
    ensures r == PropsFrom(evs, None, [])
  {
    var properties: seq<(string, string)> := [];
    var currentKey: Option<string> := None;
    var i := 0;
    while i < |evs|
      invariant 0 <= i <= |evs|
      invariant PropsFrom(evs[i..], currentKey, properties) == PropsFrom(evs, None, [])
    {
      assert evs[i..][1..] == evs[i + 1..];
      match evs[i] {
        case Start(n, _) =>
          if IsPropertyTag(n) {
            currentKey := Some(n);
          }
        case Text(t) =>
          var key := currentKey;
          currentKey := None;
          if key.Some? {
            properties := properties + [(key.value, TextOf(t))];
          }
        case Eof =>
          break;
        case Error(m) =>
          return Failure("XML parsing error: " + m);
        case _ =>
      }
      i := i + 1;
    }
    r := Ok(properties);
  }

  predicate KeysAreTags(ps: seq<(string, string)>) {
    forall j :: 0 <= j < |ps| ==> IsPropertyTag(ps[j].0)
  }

  /** Keys are property tags, never `properties` or `project`. */
  lemma {:induction false} PropsKeysAreTags(evs: seq<Event>, pending: Option<string>, acc: seq<(string, string)>)
    requires pending.Some? ==> IsPropertyTag(pending.value)
    requires KeysAreTags(acc)
    ensures PropsFrom(evs, pending, acc).Ok? ==> KeysAreTags(PropsFrom(evs, pending, acc).value)
  {
    if evs != [] {
      match evs[0] {
        case Start(n, _) =>
          PropsKeysAreTags(evs[1..], if IsPropertyTag(n) then Some(n) else pending, acc);
        case Text(t) =>
          if pending.Some? {
            PropsKeysAreTags(evs[1..], None, acc + [(pending.value, TextOf(t))]);
          } else {
            PropsKeysAreTags(evs[1..], None, acc);
          }
        case Eof =>
        case Error(m) =>
        case _ => PropsKeysAreTags(evs[1..], pending, acc);
      }
    }
  }

  /** The number of `Start` events. */
  function StartCount(evs: seq<Event>): nat
  {
    if evs == [] then 0 else (if evs[0].Start? then 1 else 0) + StartCount(evs[1..])
  }

  /** Each pair consumes a key set by its own `Start` event: at most one pair
      per start tag (plus one for a key already pending). */
  lemma {:induction false} PropsAtMostOnePerStart(evs: seq<Event>, pending: Option<string>, acc: seq<(string, string)>)
    ensures PropsFrom(evs, pending, acc).Ok? ==>
      |PropsFrom(evs, pending, acc).value| <= |acc| + StartCount(evs) + (if pending.Some? then 1 else 0)
  {
    if evs != [] {
      match evs[0] {
        case Start(n, _) => PropsAtMostOnePerStart(evs[1..], if IsPropertyTag(n) then Some(n) else pending, acc);
        case Text(t) =>
          if pending.Some? {
            PropsAtMostOnePerStart(evs[1..], None, acc + [(pending.value, TextOf(t))]);
          } else {
            PropsAtMostOnePerStart(evs[1..], None, acc);
          }
        case Eof =>
        case Error(m) =>
        case _ => PropsAtMostOnePerStart(evs[1..], pending, acc);
      }
    }
  }

  /** A reader error before the end of input makes `extract_maven_properties` fail. */
  lemma {:induction false} PropsErrorAborts(evs: seq<Event>, i: nat, pending: Option<string>, acc: seq<(string, string)>)
    requires i < |evs| && evs[i].Error?
    requires forall j :: 0 <= j < i ==> !Stops(evs[j])
    ensures PropsFrom(evs, pending, acc).Failure?
  {
    if i > 0 {
      var rest := evs[1..];
      assert forall j :: 0 <= j < i - 1 ==> rest[j] == evs[j + 1];
      match evs[0] {
        case Start(n, _) => PropsErrorAborts(rest, i - 1, if IsPropertyTag(n) then Some(n) else pending, acc);
        case Text(t) =>
          if pending.Some? {
            PropsErrorAborts(rest, i - 1, None, acc + [(pending.value, TextOf(t))]);
          } else {
            PropsErrorAborts(rest, i - 1, None, acc);
          }
        case Empty(_, _) => PropsErrorAborts(rest, i - 1, pending, acc);
        case End(_) => PropsErrorAborts(rest, i - 1, pending, acc);
        case Other => PropsErrorAborts(rest, i - 1, pending, acc);
      }
    }
  }
}
