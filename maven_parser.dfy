/** `MavenParser::parse_pom_file`: a state machine over the events of a
    `pom.xml` that collects the module's coordinates, its submodules and its
    dependencies. */
module MavenParser {
  import opened Strings
  import opened XmlEvents

  datatype MavenDependency = MavenDependency(
    groupId: string,
    artifactId: string,
    version: string,
    scope: Option<string>,
    optional: bool)

  datatype MavenModule = MavenModule(
    groupId: string,
    artifactId: string,
    version: string,
    packaging: Option<string>,
    path: string,
    dependencies: seq<MavenDependency>,
    submodules: seq<string>)

  /** The loop's state: the module built so far, the name of the element
      whose text is expected (empty after any end tag) and the dependency
      being read, if any. */
  datatype PomState = PomState(project: MavenModule, currentElement: string, currentDependency: Option<MavenDependency>)

  const FreshDependency := MavenDependency("", "", "", None, false)

  function Initial(path: string): PomState
  {
    PomState(MavenModule("", "", "", None, path, [], []), "", None)
  }

  /** A dependency worth keeping: both its group and artifact are known. */
  predicate Complete(d: MavenDependency) {
    d.groupId != "" && d.artifactId != ""
  }

  /** Every kept dependency is complete. */
  predicate Valid(st: PomState) {
    forall j :: 0 <= j < |st.project.dependencies| ==> Complete(st.project.dependencies[j])
  }

  /** Text inside an open dependency. */
  function DependencyText(d: MavenDependency, element: string, text: string): (r: MavenDependency)
    ensures element == "optional" ==> (r.optional <==> text == "true")
    ensures element !in {"groupId", "artifactId", "version", "scope", "optional"} ==> r == d
  {
    match element
    case "groupId" => d.(groupId := text)
    case "artifactId" => d.(artifactId := text)
    case "version" => d.(version := text)
    case "scope" => d.(scope := Some(text))
    case "optional" => d.(optional := text == "true")
    case _ => d
  }

  /** Text outside any dependency. */
  function ModuleText(m: MavenModule, element: string, text: string): (r: MavenModule)
    ensures r.dependencies == m.dependencies && r.path == m.path
    ensures element == "groupId" ==> r.groupId == text
    ensures element == "artifactId" ==> r.artifactId == text
    ensures element == "version" ==> r.version == text
    ensures element == "packaging" ==> r.packaging == Some(text)
    ensures element == "module" ==> r.submodules == m.submodules + [text]
    ensures element != "module" ==> r.submodules == m.submodules
    ensures element !in {"groupId", "artifactId", "version", "packaging", "module"} ==> r == m
  {
    match element
    case "groupId" => m.(groupId := text)
    case "artifactId" => m.(artifactId := text)
    case "version" => m.(version := text)
    case "packaging" => m.(packaging := Some(text))
    case "module" => m.(submodules := m.submodules + [text])
    case _ => m
  }

  /** One non-final event of the loop. */
  function Step(st: PomState, e: Event): (r: PomState)
    requires !Stops(e)
    ensures e.Start? ==> r.currentElement == e.name
    ensures e.Start? && e.name == "dependency" ==> r.currentDependency == Some(FreshDependency)
    ensures e.Start? && e.name != "dependency" ==> r.currentDependency == st.currentDependency
    ensures e.Text? && st.currentDependency.Some? ==> r.project == st.project && r.currentDependency.Some?
    ensures e.End? ==> r.currentElement == ""
    ensures e.End? && e.name == "dependency" && st.currentDependency.Some? ==>
      r.currentDependency.None? &&
      r.project.dependencies == st.project.dependencies + (if Complete(st.currentDependency.value) then [st.currentDependency.value] else [])
    ensures Valid(st) ==> Valid(r)
  {
    match e
    case Start(n, _) =>
      if n == "dependency" then st.(currentElement := n, currentDependency := Some(FreshDependency))
      else st.(currentElement := n)
    case Text(t) =>
      var text := TextOf(t);
      if st.currentDependency.Some? then
        st.(currentDependency := Some(DependencyText(st.currentDependency.value, st.currentElement, text)))
      else
        st.(project := ModuleText(st.project, st.currentElement, text))
    case End(n) =>
      if n == "dependency" && st.currentDependency.Some? then
        var d := st.currentDependency.value;
        var deps := st.project.dependencies + (if Complete(d) then [d] else []);
        PomState(st.project.(dependencies := deps), "", None)
      else st.(currentElement := "")
    case Empty(_, _) => st
    case Other => st
  }

  /** The loop from state `st` over `evs`: stops at the end of input and
      fails on a reader error. */
  function Run(st: PomState, evs: seq<Event>): Result<PomState>
    decreases |evs|
  {
    if evs == [] || evs[0].Eof? then Ok(st)
    else if evs[0].Error? then Failure("XML parsing error: " + evs[0].message)
    else Run(Step(st, evs[0]), evs[1..])
  }

  /** The outcome of `parse_pom_file` for the POM at `path` read as `evs`. */
  function PomOf(path: string, evs: seq<Event>): (r: Result<MavenModule>)
    ensures r.Ok? ==> r.value.groupId != "" && r.value.artifactId != "" && r.value.path == path
    ensures r.Ok? ==> forall j :: 0 <= j < |r.value.dependencies| ==> Complete(r.value.dependencies[j])
  {
    RunKeepsValid(Initial(path), evs);
    match Run(Initial(path), evs)
    case Failure(m) => Failure(m)
    case Ok(st) =>
      if st.project.groupId == "" || st.project.artifactId == "" then
        Failure("Invalid POM file: missing groupId or artifactId")
      else Ok(st.project)
  }

  /** The loop keeps every kept dependency complete and never changes the path. */
  lemma {:induction false} RunKeepsValid(st: PomState, evs: seq<Event>)
    requires Valid(st)
    ensures Run(st, evs).Ok? ==> Valid(Run(st, evs).value) && Run(st, evs).value.project.path == st.project.path
    decreases |evs|
  {
    if evs != [] && !evs[0].Eof? && !evs[0].Error? {
      RunKeepsValid(Step(st, evs[0]), evs[1..]);
    }
  }

  /** `parse_pom_file`, after the file has been read. */
  method ParsePomFile(path: string, evs: seq<Event>) returns (r: Result<MavenModule>)
    ensures r == PomOf(path, evs)
  {
    var project := MavenModule("", "", "", None, path, [], []);
    var currentElement := "";
    var currentDependency: Option<MavenDependency> := None;
    var i := 0;
    while i < |evs|
      invariant 0 <= i <= |evs|
      invariant Run(PomState(project, currentElement, currentDependency), evs[i..]) == Run(Initial(path), evs)
    {
      assert evs[i..][1..] == evs[i + 1..];
      ghost var before := PomState(project, currentElement, currentDependency);
      match evs[i] {
        case Start(n, _) =>
          currentElement := n;
          if n == "dependency" {
            currentDependency := Some(MavenDependency("", "", "", None, false));
          }
        case Text(t) =>
          var text := TextOf(t);
          if currentDependency.Some? {
            var dep := currentDependency.value;
            match currentElement {
              case "groupId" => dep := dep.(groupId := text);
              case "artifactId" => dep := dep.(artifactId := text);
              case "version" => dep := dep.(version := text);
              case "scope" => dep := dep.(scope := Some(text));
              case "optional" => dep := dep.(optional := text == "true");
              case _ =>
            }
            currentDependency := Some(dep);
          } else {
            match currentElement {
              case "groupId" => project := project.(groupId := text);
              case "artifactId" => project := project.(artifactId := text);
              case "version" => project := project.(version := text);
              case "packaging" => project := project.(packaging := Some(text));
              case "module" => project := project.(submodules := project.submodules + [text]);
              case _ =>
            }
          }
        case End(n) =>
          if n == "dependency" {
            var taken := currentDependency;
            currentDependency := None;
            if taken.Some? {
              var dep := taken.value;
              if dep.groupId != "" && dep.artifactId != "" {
                project := project.(dependencies := project.dependencies + [dep]);
              }
            }
          }
          currentElement := "";
        case Eof =>
          break;
        case Error(m) =>
          return Failure("XML parsing error: " + m);
        case _ =>
      }
      assert PomState(project, currentElement, currentDependency) == Step(before, evs[i]);
      i := i + 1;
    }
    if project.groupId == "" || project.artifactId == "" {
      return Failure("Invalid POM file: missing groupId or artifactId");
    }
    r := Ok(project);
  }

  /** While a dependency is open, no event but its closing tag touches the
      module: text for a dependency field never reaches the module fields. */
  lemma {:induction false} OpenDependencyShieldsModule(st: PomState, evs: seq<Event>)
    requires st.currentDependency.Some?
    requires forall j :: 0 <= j < |evs| ==> !evs[j].End? && !(evs[j].Start? && evs[j].name == "dependency")
    ensures Run(st, evs).Ok? ==> Run(st, evs).value.project == st.project
    decreases |evs|
  {
    if evs != [] && !evs[0].Eof? && !evs[0].Error? {
      assert forall j :: 0 <= j < |evs[1..]| ==> evs[1..][j] == evs[j + 1];
      OpenDependencyShieldsModule(Step(st, evs[0]), evs[1..]);
    }
  }
}
