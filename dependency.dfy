/** `DependencyAnalyzer` and `DependencyGraph`: Maven modules and their
    dependencies as a graph of `group:artifact:version` ids. */
module Dependency {
  import opened Strings
  import opened MavenParser

  /** `format!("{}:{}:{}", group, artifact, version)`. */
  function Coordinates(group: string, artifact: string, version: string): string
  {
    group + ":" + artifact + ":" + version
  }

  function ModuleId(m: MavenModule): string
  {
    Coordinates(m.groupId, m.artifactId, m.version)
  }

  function DependencyId(d: MavenDependency): string
  {
    Coordinates(d.groupId, d.artifactId, d.version)
  }

  /** Coordinates free of `:` are read back by splitting on `:`. */
  lemma CoordinatesSplit(group: string, artifact: string, version: string)
    requires ':' !in group && ':' !in artifact && ':' !in version
    ensures Split(Coordinates(group, artifact, version), ':') == [group, artifact, version]
  {
    var parts := [group, artifact, version];
    assert Join(parts, ":") == Coordinates(group, artifact, version) by {
      assert Join(parts[1..], ":") == artifact + ":" + version;
    }
    SplitJoin(parts, ':');
  }

  /** The graph: a map from module id to module path, and edges in insertion order. */
  class DependencyGraph {
    var nodes: map<string, string>
    var edges: seq<(string, string)>

    constructor ()
      ensures nodes == map[] && edges == []
    {
      nodes := map[];
      edges := [];
    }

    method AddNode(id: string, path: string)
      modifies this
      ensures nodes == old(nodes)[id := path] && edges == old(edges)
    {
      nodes := nodes[id := path];
    }

    method AddEdge(from: string, to: string)
      modifies this
      ensures edges == old(edges) + [(from, to)] && nodes == old(nodes)
    {
      edges := edges + [(from, to)];
    }

    /** `get_dependencies`. */
    function GetDependencies(moduleId: string): seq<string>
      reads this
    {
      Targets(edges, moduleId)
    }

    /** `get_dependents`. */
    function GetDependents(moduleId: string): seq<string>
      reads this
    {
      Sources(edges, moduleId)
    }

    /** `to_mermaid`. */
    method ToMermaid() returns (s: string)
      ensures s == Mermaid(edges)
    {
      s := "graph TD\n";
      for k := 0 to |edges|
        invariant s == Mermaid(edges[..k])
      {
        assert edges[..k + 1][..k] == edges[..k];
        s := s + "    " + edges[k].0 + " --> " + edges[k].1 + "\n";
      }
      assert edges[..|edges|] == edges;
    }
  }

  /** The targets of the edges leaving `a`, in edge order, repeats kept. */
  function Targets(edges: seq<(string, string)>, a: string): (r: seq<string>)
    ensures |r| <= |edges|
  {
    if edges == [] then []
    else (if edges[0].0 == a then [edges[0].1] else []) + Targets(edges[1..], a)
  }

  /** The sources of the edges entering `b`, in edge order, repeats kept. */
  function Sources(edges: seq<(string, string)>, b: string): (r: seq<string>)
    ensures |r| <= |edges|
  {
    if edges == [] then []
    else (if edges[0].1 == b then [edges[0].0] else []) + Sources(edges[1..], b)
  }

  /** `b` is a dependency of `a` exactly when `a` is a dependent of `b`:
      both say that the edge `(a, b)` exists. */
  lemma {:induction false} DependencyDependent(edges: seq<(string, string)>, a: string, b: string)
    ensures b in Targets(edges, a) <==> (a, b) in edges
    ensures a in Sources(edges, b) <==> (a, b) in edges
  {
    if edges != [] {
      DependencyDependent(edges[1..], a, b);
      assert edges == [edges[0]] + edges[1..];
    }
  }

  /** Repeats are kept: `b` occurs among the dependencies of `a` once per
      edge `(a, b)`, and `a` among the dependents of `b` likewise. */
  lemma {:induction false} EdgeMultiplicity(edges: seq<(string, string)>, a: string, b: string)
    ensures multiset(Targets(edges, a))[b] == multiset(edges)[(a, b)]
    ensures multiset(Sources(edges, b))[a] == multiset(edges)[(a, b)]
  {
    TargetsMultiplicity(edges, a, b);
    SourcesMultiplicity(edges, a, b);
  }

  lemma {:induction false} TargetsMultiplicity(edges: seq<(string, string)>, a: string, b: string)
    ensures multiset(Targets(edges, a))[b] == multiset(edges)[(a, b)]
  {
    if edges != [] {
      var e := edges[0];
      var rest := edges[1..];
      TargetsMultiplicity(rest, a, b);
      assert edges == [e] + rest;
      assert multiset(edges) == multiset([e]) + multiset(rest);
      var head := if e.0 == a then [e.1] else [];
      assert multiset(Targets(edges, a)) == multiset(head) + multiset(Targets(rest, a));
    }
  }

  lemma {:induction false} SourcesMultiplicity(edges: seq<(string, string)>, a: string, b: string)
    ensures multiset(Sources(edges, b))[a] == multiset(edges)[(a, b)]
  {
    if edges != [] {
      var e := edges[0];
      var rest := edges[1..];
      SourcesMultiplicity(rest, a, b);
      assert edges == [e] + rest;
      assert multiset(edges) == multiset([e]) + multiset(rest);
      var head := if e.1 == b then [e.0] else [];
      assert multiset(Sources(edges, b)) == multiset(head) + multiset(Sources(rest, b));
    }
  }

  /** The Mermaid text: a header, then one arrow line per edge in order. */
  function Mermaid(edges: seq<(string, string)>): string
  {
    if edges == [] then "graph TD\n"
    else Mermaid(edges[..|edges| - 1]) + "    " + edges[|edges| - 1].0 + " --> " + edges[|edges| - 1].1 + "\n"
  }

  /** Every Mermaid text starts with the `graph TD` header. */
  lemma {:induction false} MermaidHeader(edges: seq<(string, string)>)
    ensures |Mermaid(edges)| >= 9 && Mermaid(edges)[..9] == "graph TD\n"
  {
    if edges != [] {
      MermaidHeader(edges[..|edges| - 1]);
    }
  }

  /** Adding an edge appends exactly its arrow line. */
  lemma MermaidSnoc(edges: seq<(string, string)>, from: string, to: string)
    ensures Mermaid(edges + [(from, to)]) == Mermaid(edges) + "    " + from + " --> " + to + "\n"
  {
    assert (edges + [(from, to)])[..|edges|] == edges;
  }

  // ---------------------------------------------------------------------
  // analyze_dependencies, resolve_dependency_tree

  /** The edges `analyze_dependencies` adds: for each module in order, one
      edge per dependency in order. */
  function EdgesOf(modules: seq<MavenModule>): seq<(string, string)>
  {
    if modules == [] then []
    else EdgesOf(modules[..|modules| - 1]) + ModuleEdges(modules[|modules| - 1])
  }

  function ModuleEdges(m: MavenModule): seq<(string, string)>
  {
    DependencyEdges(ModuleId(m), m.dependencies)
  }

  function DependencyEdges(id: string, deps: seq<MavenDependency>): (r: seq<(string, string)>)
    ensures |r| == |deps|
    ensures forall j :: 0 <= j < |deps| ==> r[j] == (id, DependencyId(deps[j]))
  {
    if deps == [] then [] else DependencyEdges(id, deps[..|deps| - 1]) + [(id, DependencyId(deps[|deps| - 1]))]
  }

  /** The nodes `analyze_dependencies` adds: each module id with its path,
      a later module replacing an earlier one with the same id. */
  function NodesOf(modules: seq<MavenModule>): map<string, string>
  {
    if modules == [] then map[]
    else NodesOf(modules[..|modules| - 1])[ModuleId(modules[|modules| - 1]) := modules[|modules| - 1].path]
  }

  /** `analyze_dependencies`. */
  method AnalyzeDependencies(modules: seq<MavenModule>) returns (graph: DependencyGraph)
    ensures fresh(graph)
    ensures graph.nodes == NodesOf(modules) && graph.edges == EdgesOf(modules)
  {
    graph := new DependencyGraph();
    for k := 0 to |modules|
      invariant graph.nodes == NodesOf(modules[..k]) && graph.edges == EdgesOf(modules[..k])
    {
      var m := modules[k];
      assert modules[..k + 1][..k] == modules[..k];
      var moduleId := Coordinates(m.groupId, m.artifactId, m.version);
      graph.AddNode(moduleId, m.path);
      var before := graph.edges;
      for j := 0 to |m.dependencies|
        invariant graph.nodes == NodesOf(modules[..k + 1])
        invariant graph.edges == before + DependencyEdges(moduleId, m.dependencies[..j])
      {
        var dep := m.dependencies[j];
        assert m.dependencies[..j + 1][..j] == m.dependencies[..j];
        graph.AddEdge(moduleId, Coordinates(dep.groupId, dep.artifactId, dep.version));
      }
      assert m.dependencies[..|m.dependencies|] == m.dependencies;
    }
    assert modules[..|modules|] == modules;
  }

  /** The total number of dependencies over all modules. */
  function DependencyCount(modules: seq<MavenModule>): nat
  {
    if modules == [] then 0 else DependencyCount(modules[..|modules| - 1]) + |modules[|modules| - 1].dependencies|
  }

  /** One edge per dependency, and one node per distinct module id. */
  lemma {:induction false} AnalyzeCounts(modules: seq<MavenModule>)
    ensures |EdgesOf(modules)| == DependencyCount(modules)
    ensures NodesOf(modules).Keys == set k | 0 <= k < |modules| :: ModuleId(modules[k])
  {
    if modules != [] {
      var init := modules[..|modules| - 1];
      AnalyzeCounts(init);
      assert forall k :: 0 <= k < |init| ==> init[k] == modules[k];
    }
  }

  /** The map `resolve_dependency_tree` builds: each module id to the ids of
      its dependencies in order; a later module with the same id wins. */
  function TreeOf(modules: seq<MavenModule>): map<string, seq<string>>
  {
    if modules == [] then map[]
    else
      var m := modules[|modules| - 1];
      TreeOf(modules[..|modules| - 1])[ModuleId(m) := DependencyIds(m.dependencies)]
  }

  function DependencyIds(deps: seq<MavenDependency>): (r: seq<string>)
    ensures |r| == |deps|
    ensures forall j :: 0 <= j < |deps| ==> r[j] == DependencyId(deps[j])
  {
    if deps == [] then [] else DependencyIds(deps[..|deps| - 1]) + [DependencyId(deps[|deps| - 1])]
  }

  /** `resolve_dependency_tree`. */
  method ResolveDependencyTree(modules: seq<MavenModule>) returns (tree: map<string, seq<string>>)
    ensures tree == TreeOf(modules)
  {
    tree := map[];
    for k := 0 to |modules|
      invariant tree == TreeOf(modules[..k])
    {
      var m := modules[k];
      assert modules[..k + 1][..k] == modules[..k];
      var moduleId := Coordinates(m.groupId, m.artifactId, m.version);
      var deps: seq<string> := [];
      for j := 0 to |m.dependencies|
        invariant deps == DependencyIds(m.dependencies[..j])
      {
        var dep := m.dependencies[j];
        assert m.dependencies[..j + 1][..j] == m.dependencies[..j];
        deps := deps + [Coordinates(dep.groupId, dep.artifactId, dep.version)];
      }
      assert m.dependencies[..|m.dependencies|] == m.dependencies;
      tree := tree[moduleId := deps];
    }
    assert modules[..|modules|] == modules;
  }

  /** The entry of a module id is the dependency list of the LAST module
      with that id. */
  lemma {:induction false} TreeLastWins(modules: seq<MavenModule>, k: nat)
    requires k < |modules|
    requires forall j :: k < j < |modules| ==> ModuleId(modules[j]) != ModuleId(modules[k])
    ensures ModuleId(modules[k]) in TreeOf(modules)
    ensures TreeOf(modules)[ModuleId(modules[k])] == DependencyIds(modules[k].dependencies)
  {
    if k < |modules| - 1 {
      var init := modules[..|modules| - 1];
      assert forall j :: k < j < |init| ==> init[j] == modules[j];
      TreeLastWins(init, k);
    }
  }
}
