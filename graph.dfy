/** `GraphBuilder`: declaration nodes with their inheritance edges, and a
    separate map of type references over which cycles and connected
    components are searched. Hash-map and hash-set iteration order is
    unspecified, so every loop over one picks its next element freely. */
module Graph {
  import opened Strings
  import opened Types

  /** The type-reference map: each type to the set of types it references. */
  type Refs = map<string, set<string>>

  /** The elements of a sequence. */
  function Elements(s: seq<string>): set<string>
  {
    set i | 0 <= i < |s| :: s[i]
  }

  /** No element occurs twice. */
  predicate Distinct(s: seq<string>) {
    forall i, j :: 0 <= i < j < |s| ==> s[i] != s[j]
  }

  /** A sequence without repeats has as many elements as its length. */
  lemma {:induction false} DistinctCard(s: seq<string>)
    requires Distinct(s)
    ensures |Elements(s)| == |s|
  {
    if s != [] {
      var init := s[..|s| - 1];
      DistinctCard(init);
      assert Elements(s) == Elements(init) + {s[|s| - 1]};
      assert s[|s| - 1] !in Elements(init);
    }
  }

  lemma InElements(s: seq<string>, x: string)
    requires x in Elements(s)
    ensures x in s
  {
  }

  lemma ElementsSnoc(s: seq<string>, x: string)
    ensures Elements(s + [x]) == Elements(s) + {x}
  {
    assert forall i :: 0 <= i < |s| ==> (s + [x])[i] == s[i];
    assert (s + [x])[|s|] == x;
  }

  lemma DistinctSnoc(s: seq<string>, x: string)
    requires Distinct(s) && x !in Elements(s)
    ensures Distinct(s + [x])
  {
    forall i, j | 0 <= i < j < |s + [x]|
      ensures (s + [x])[i] != (s + [x])[j]
    {
      if j == |s| {
        assert (s + [x])[i] == s[i];
      }
    }
  }

  /** The types `t` references (`get_dependencies` as a set). */
  function Deps(refs: Refs, t: string): set<string>
  {
    if t in refs then refs[t] else {}
  }

  /** The types that reference `t` (`get_dependents` as a set). */
  function DependentsOf(refs: Refs, t: string): set<string>
  {
    set f | f in refs && t in refs[f]
  }

  /** The neighbours a component search follows: both directions. */
  function Neighbours(refs: Refs, t: string): set<string>
  {
    Deps(refs, t) + DependentsOf(refs, t)
  }

  /** Every type mentioned in the map, as a source or a target. */
  function Universe(refs: Refs): set<string>
  {
    refs.Keys + set k, x | k in refs && x in refs[k] :: x
  }

  /** `b` is a dependency of `a` exactly when `a` is a dependent of `b`, so
      adjacency is symmetric. */
  lemma DependencyDependent(refs: Refs, a: string, b: string)
    ensures b in Deps(refs, a) <==> a in DependentsOf(refs, b)
    ensures b in Neighbours(refs, a) <==> a in Neighbours(refs, b)
  {
  }

  lemma InUniverse(refs: Refs, k: string, x: string)
    requires k in refs && x in refs[k]
    ensures x in Universe(refs)
  {
  }

  /** Consecutive elements follow reference edges. */
  predicate IsPath(refs: Refs, p: seq<string>) {
    forall i :: 0 <= i < |p| - 1 ==> p[i + 1] in Deps(refs, p[i])
  }

  lemma PathSnoc(refs: Refs, p: seq<string>, x: string)
    requires IsPath(refs, p) && (p != [] ==> x in Deps(refs, p[|p| - 1]))
    ensures IsPath(refs, p + [x])
  {
    forall i | 0 <= i < |p + [x]| - 1
      ensures (p + [x])[i + 1] in Deps(refs, (p + [x])[i])
    {
      assert (p + [x])[i] == p[i];
      if i + 1 < |p| {
        assert (p + [x])[i + 1] == p[i + 1];
      }
    }
  }

  /** A suffix of a path is a path. */
  lemma PathSuffix(refs: Refs, p: seq<string>, k: nat)
    requires IsPath(refs, p) && k <= |p|
    ensures IsPath(refs, p[k..])
  {
    forall i | 0 <= i < |p[k..]| - 1
      ensures p[k..][i + 1] in Deps(refs, p[k..][i])
    {
      assert p[k..][i] == p[k + i] && p[k..][i + 1] == p[k + i + 1];
    }
  }

  /** A cycle: a non-empty path whose last element references its first. */
  predicate IsCycle(refs: Refs, c: seq<string>) {
    c != [] && IsPath(refs, c) && c[0] in Deps(refs, c[|c| - 1])
  }

  predicate AllCycles(refs: Refs, cs: seq<seq<string>>) {
    forall i :: 0 <= i < |cs| ==> IsCycle(refs, cs[i])
  }

  /** `iter().position(..)`: the first index of `x`. */
  function IndexOf(s: seq<string>, x: string): (i: nat)
    requires x in s
    ensures i < |s| && s[i] == x && x !in s[..i]
  {
    if s[0] == x then 0
    else
      var j := IndexOf(s[1..], x);
      assert s[..j + 1] == [s[0]] + s[1..][..j];
      j + 1
  }

  /** Removing a visited element from a finite set shrinks the unvisited part by one. */
  lemma VisitShrinks(u: set<string>, v: set<string>, x: string)
    requires x in u && x !in v
    ensures |u - (v + {x})| == |u - v| - 1
  {
    var a := u - v;
    assert u - (v + {x}) == a - {x};
    assert a == (a - {x}) + {x};
  }

  /** The measure of the cycle search drops at each recursive call. */
  lemma MeasureDrops(u: set<string>, node: string, dep: string, v0: set<string>, v: set<string>)
    requires dep in u && node !in v0 && v0 + {node} <= v
    ensures |(u + {dep}) - v| < |(u + {node}) - v0|
  {
    var a := (u + {dep}) - v;
    var b := (u + {node}) - v0;
    assert a <= b - {node};
    assert b == (b - {node}) + {node};
    assert |a| <= |b - {node}| by {
      assert (b - {node}) == a + ((b - {node}) - a);
    }
  }

  /** The node id: `"<path>:<name>"`. */
  function NodeId(filePath: string, name: string): string
  {
    filePath + ":" + name
  }

  /** The `Implements` edges of one declaration, one per entry, in order. */
  function ImplementsEdges(id: string, implements: seq<string>): (r: seq<GraphEdge>)
    ensures |r| == |implements|
  {
    if implements == [] then []
    else ImplementsEdges(id, implements[..|implements| - 1]) + [GraphEdge(id, "implements:" + implements[|implements| - 1], Implements)]
  }

  /** Entry `j` of the `Implements` edges is the edge to entry `j` of the list. */
  lemma {:induction false} ImplementsEdgesAt(id: string, implements: seq<string>, j: nat)
    requires j < |implements|
    ensures ImplementsEdges(id, implements)[j] == GraphEdge(id, "implements:" + implements[j], Implements)
  {
    if j < |implements| - 1 {
      ImplementsEdgesAt(id, implements[..|implements| - 1], j);
    }
  }

  /** The `Extends` edge of a declaration, when it extends something. */
  function ExtendsEdges(id: string, extendsClass: Option<string>): seq<GraphEdge>
  {
    if extendsClass.Some? then [GraphEdge(id, "extends:" + extendsClass.value, Extends)] else []
  }

  /** The edges `add_declaration` appends: an `Extends` edge first when the
      declaration extends something, then the `Implements` edges. */
  function DeclarationEdges(id: string, d: Declaration): seq<GraphEdge>
  {
    ExtendsEdges(id, d.extendsClass) + ImplementsEdges(id, d.implements)
  }

  /** Every appended edge leaves the new node; there is one edge per
      supertype; an `Extends` edge occurs exactly when the declaration
      extends something, and then it comes first. */
  lemma DeclarationEdgesShape(id: string, d: Declaration)
    ensures var r := DeclarationEdges(id, d);
      |r| == (if d.extendsClass.Some? then 1 else 0) + |d.implements|
      && (forall j :: 0 <= j < |r| ==> r[j].from == id)
      && ((exists j :: 0 <= j < |r| && r[j].relationship == Extends) <==> d.extendsClass.Some?)
      && (d.extendsClass.Some? ==> r[0] == GraphEdge(id, "extends:" + d.extendsClass.value, Extends))
  {
    var ext := ExtendsEdges(id, d.extendsClass);
    var imp := ImplementsEdges(id, d.implements);
    var r := ext + imp;
    forall j | 0 <= j < |imp|
      ensures imp[j].from == id && imp[j].relationship == Implements
    {
      ImplementsEdgesAt(id, d.implements, j);
    }
    assert forall j :: |ext| <= j < |r| ==> r[j] == imp[j - |ext|];
    if d.extendsClass.Some? {
      assert r[0].relationship == Extends;
    }
  }

  /** The search stack: the recursion-stack set holds exactly the types of
      the current path, all visited, and the path follows references
      without repeating a type. */
  predicate OnStack(refs: Refs, visited: set<string>, recStack: set<string>, path: seq<string>) {
    recStack == Elements(path) && recStack <= visited && Distinct(path) && IsPath(refs, path)
  }

  lemma StackPush(refs: Refs, visited: set<string>, recStack: set<string>, path: seq<string>, node: string)
    requires OnStack(refs, visited, recStack, path) && node !in visited
    requires path != [] ==> node in Deps(refs, path[|path| - 1])
    ensures OnStack(refs, visited + {node}, recStack + {node}, path + [node])
  {
    ElementsSnoc(path, node);
    DistinctSnoc(path, node);
    PathSnoc(refs, path, node);
  }

  lemma StackGrow(refs: Refs, visited: set<string>, visited': set<string>, recStack: set<string>, path: seq<string>)
    requires OnStack(refs, visited, recStack, path) && visited <= visited'
    ensures OnStack(refs, visited', recStack, path)
  {
  }

  /** Revisiting a type on the path from the path's last type closes a
      cycle: the path from that type's position to the end. */
  lemma ReportedCycle(refs: Refs, path: seq<string>, dep: string)
    requires IsPath(refs, path) && dep in path && dep in Deps(refs, path[|path| - 1])
    ensures IsCycle(refs, path[IndexOf(path, dep)..])
  {
    var k := IndexOf(path, dep);
    PathSuffix(refs, path, k);
    assert path[k..][|path[k..]| - 1] == path[|path| - 1];
  }

  class GraphBuilder {
    var nodes: map<string, GraphNode>
    var edges: seq<GraphEdge>
    var typeReferences: Refs

    /** Each node is stored under its own id. */
    predicate Valid()
      reads this
    {
      forall k :: k in nodes ==> nodes[k].id == k
    }

    constructor ()
      ensures nodes == map[] && edges == [] && typeReferences == map[]
      ensures Valid()
    {
      nodes := map[];
      edges := [];
      typeReferences := map[];
    }

    /** `add_declaration`: the node replaces any node with the same id; the
        edges are appended even when the node already existed. */
    method AddDeclaration(d: Declaration, filePath: string)
      requires Valid()
      modifies this
      ensures Valid()
      ensures nodes == old(nodes)[NodeId(filePath, d.name) := GraphNode(NodeId(filePath, d.name), d.name, d.kind, filePath)]
      ensures edges == old(edges) + DeclarationEdges(NodeId(filePath, d.name), d)
      ensures typeReferences == old(typeReferences)
    {
      var nodeId := filePath + ":" + d.name;
      nodes := nodes[nodeId := GraphNode(nodeId, d.name, d.kind, filePath)];
      if d.extendsClass.Some? {
        AddEdge(nodeId, "extends:" + d.extendsClass.value, Extends);
      }
      ghost var before := edges;
      assert before == old(edges) + ExtendsEdges(nodeId, d.extendsClass);
      for j := 0 to |d.implements|
        invariant edges == before + ImplementsEdges(nodeId, d.implements[..j])
        invariant nodes == old(nodes)[nodeId := GraphNode(nodeId, d.name, d.kind, filePath)]
        invariant typeReferences == old(typeReferences)
      {
        assert d.implements[..j + 1][..j] == d.implements[..j];
        AddEdge(nodeId, "implements:" + d.implements[j], Implements);
      }
      assert d.implements[..|d.implements|] == d.implements;
    }

    method AddEdge(from: string, to: string, relationship: RelationshipType)
      modifies this
      ensures edges == old(edges) + [GraphEdge(from, to, relationship)]
      ensures nodes == old(nodes) && typeReferences == old(typeReferences)
    {
      edges := edges + [GraphEdge(from, to, relationship)];
    }

    /** `add_type_reference`: set insertion under the source type. */
    method AddTypeReference(fromType: string, toType: string)
      modifies this
      ensures typeReferences == old(typeReferences)[fromType := Deps(old(typeReferences), fromType) + {toType}]
      ensures nodes == old(nodes) && edges == old(edges)
    {
      var existing := if fromType in typeReferences then typeReferences[fromType] else {};
      typeReferences := typeReferences[fromType := existing + {toType}];
    }

    /** `build`: the nodes in some order, each once, and the edges as added. */
    method Build() returns (g: ReferenceGraph)
      requires Valid()
      ensures g.edges == edges
      ensures |g.nodes| == |nodes|
      ensures forall i :: 0 <= i < |g.nodes| ==> g.nodes[i].id in nodes && nodes[g.nodes[i].id] == g.nodes[i]
      ensures forall k :: k in nodes ==> nodes[k] in g.nodes
    {
      var out: seq<GraphNode> := [];
      var remaining := nodes.Keys;
      while remaining != {}
        invariant remaining <= nodes.Keys
        invariant |out| + |remaining| == |nodes|
        invariant forall i :: 0 <= i < |out| ==> out[i].id in nodes - remaining && nodes[out[i].id] == out[i]
        invariant forall k :: k in nodes && k !in remaining ==> nodes[k] in out
        decreases |remaining|
      {
        var k :| k in remaining;
        assert remaining == (remaining - {k}) + {k};
        remaining := remaining - {k};
        out := out + [nodes[k]];
      }
      g := ReferenceGraph(out, edges);
    }

    /** `get_dependencies`: the referenced types in some order, each once. */
    method GetDependencies(typeName: string) returns (r: seq<string>)
      ensures Elements(r) == Deps(typeReferences, typeName) && Distinct(r)
    {
      r := [];
      if typeName in typeReferences {
        var remaining := typeReferences[typeName];
        while remaining != {}
          invariant remaining <= typeReferences[typeName]
          invariant Elements(r) == typeReferences[typeName] - remaining && Distinct(r)
          decreases |remaining|
        {
          var t :| t in remaining;
          remaining := remaining - {t};
          ElementsSnoc(r, t);
          DistinctSnoc(r, t);
          r := r + [t];
        }
      }
    }

    /** `get_dependents`: the referencing types in some order, each once. */
    method GetDependents(typeName: string) returns (dependents: seq<string>)
      ensures Elements(dependents) == DependentsOf(typeReferences, typeName) && Distinct(dependents)
    {
      dependents := [];
      var remaining := typeReferences.Keys;
      while remaining != {}
        invariant remaining <= typeReferences.Keys
        invariant Elements(dependents) == DependentsOf(typeReferences, typeName) - remaining
        invariant Distinct(dependents) && Elements(dependents) !! remaining
        decreases |remaining|
      {
        var from :| from in remaining;
        remaining := remaining - {from};
        if typeName in typeReferences[from] {
          ElementsSnoc(dependents, from);
          DistinctSnoc(dependents, from);
          dependents := dependents + [from];
        }
      }
    }

    /** `calculate_complexity`: direct dependencies plus dependents. */
    method CalculateComplexity(typeName: string) returns (complexity: nat)
      ensures complexity == |Deps(typeReferences, typeName)| + |DependentsOf(typeReferences, typeName)|
    {
      complexity := 0;
      if typeName in typeReferences {
        complexity := complexity + |typeReferences[typeName]|;
      }
      var dependents := GetDependents(typeName);
      DistinctCard(dependents);
      complexity := complexity + |dependents|;
    }

    /** `find_cycles`: a depth-first search from every declaration node not
        yet visited. Every reported sequence is a cycle of references. */
    method FindCycles() returns (cycles: seq<seq<string>>)
      ensures AllCycles(typeReferences, cycles)
    {
      cycles := [];
      var visited: set<string> := {};
      var recStack: set<string> := {};
      var path: seq<string> := [];
      var remaining := nodes.Keys;
      while remaining != {}
        invariant recStack == {} && path == []
        invariant AllCycles(typeReferences, cycles)
        decreases |remaining|
      {
        var node :| node in remaining;
        remaining := remaining - {node};
        if node !in visited {
          visited, recStack, path, cycles := DfsFindCycle(node, visited, recStack, path, cycles);
        }
      }
    }

    /** `dfs_find_cycle`, with its four mutable arguments passed in and
        handed back. The recursion stack is always the set of elements of
        the path, which is what makes the position lookup safe; a cycle is
        reported from the revisited type to the current one. */
    method DfsFindCycle(node: string, visitedIn: set<string>, recStackIn: set<string>, pathIn: seq<string>, cyclesIn: seq<seq<string>>)
      returns (visited: set<string>, recStack: set<string>, path: seq<string>, cycles: seq<seq<string>>)
      requires node !in visitedIn
      requires OnStack(typeReferences, visitedIn, recStackIn, pathIn)
      requires pathIn != [] ==> node in Deps(typeReferences, pathIn[|pathIn| - 1])
      requires AllCycles(typeReferences, cyclesIn)
      ensures visitedIn + {node} <= visited
      ensures recStack == recStackIn && path == pathIn
      ensures AllCycles(typeReferences, cycles)
      decreases |(Universe(typeReferences) + {node}) - visitedIn|
    {
      visited := visitedIn + {node};
      recStack := recStackIn + {node};
      path := pathIn + [node];
      cycles := cyclesIn;
      StackPush(typeReferences, visitedIn, recStackIn, pathIn, node);
      if node in typeReferences {
        var dependencies := typeReferences[node];
        var remaining := dependencies;
        while remaining != {}
          invariant remaining <= dependencies
          invariant visitedIn + {node} <= visited
          invariant recStack == recStackIn + {node} && path == pathIn + [node]
          invariant OnStack(typeReferences, visited, recStack, path)
          invariant AllCycles(typeReferences, cycles)
          decreases |remaining|
        {
          var dep :| dep in remaining;
          remaining := remaining - {dep};
          if dep !in visited {
            InUniverse(typeReferences, node, dep);
            assert path[|path| - 1] == node;
            MeasureDrops(Universe(typeReferences), node, dep, visitedIn, visited);
            ghost var v := visited;
            visited, recStack, path, cycles := DfsFindCycle(dep, visited, recStack, path, cycles);
            StackGrow(typeReferences, v, visited, recStack, path);
          } else if dep in recStack {
            InElements(path, dep);
            var cycleStart := IndexOf(path, dep);
            var cycle := path[cycleStart..];
            assert path[|path| - 1] == node;
            ReportedCycle(typeReferences, path, dep);
            cycles := cycles + [cycle];
          }
        }
      }
      path := path[..|path| - 1];
      recStack := recStack - {node};
    }

    /** `get_components`: a breadth-first search from every declaration node
        not yet visited. The components are disjoint, each starts at a
        declaration node, each is closed under references in both
        directions, and together they cover every declaration node. */
    method GetComponents() returns (components: seq<seq<string>>)
      ensures forall i :: 0 <= i < |components| ==> components[i] != [] && components[i][0] in nodes
      ensures forall i :: 0 <= i < |components| ==> Distinct(components[i])
      ensures forall i, j :: 0 <= i < j < |components| ==> Elements(components[i]) !! Elements(components[j])
      ensures forall i, x :: 0 <= i < |components| && x in Elements(components[i]) ==> Neighbours(typeReferences, x) <= Elements(components[i])
      ensures nodes.Keys <= Covered(components)
      ensures |components| <= |nodes|
    {
      components := [];
      var visited: set<string> := {};
      var remaining := nodes.Keys;
      while remaining != {}
        invariant remaining <= nodes.Keys
        invariant visited == Covered(components)
        invariant nodes.Keys - remaining <= visited
        invariant Closed(visited)
        invariant |components| + |remaining| <= |nodes|
        invariant forall i :: 0 <= i < |components| ==> components[i] != [] && components[i][0] in nodes
        invariant forall i :: 0 <= i < |components| ==> Distinct(components[i])
        invariant forall i, j :: 0 <= i < j < |components| ==> Elements(components[i]) !! Elements(components[j])
        invariant forall i, x :: 0 <= i < |components| && x in Elements(components[i]) ==> Neighbours(typeReferences, x) <= Elements(components[i])
        decreases |remaining|
      {
        var node :| node in remaining;
        assert remaining == (remaining - {node}) + {node};
        remaining := remaining - {node};
        if node !in visited {
          var component;
          visited, component := BfsComponent(node, visited);
          AddComponent(typeReferences, components, component);
          components := components + [component];
        }
      }
    }

    /** Every neighbour of a visited type is visited. */
    ghost predicate Closed(visited: set<string>)
      reads this
    {
      forall x :: x in visited ==> Neighbours(typeReferences, x) <= visited
    }

    /** `bfs_component`: visits the unvisited types reachable from `start`
        in either direction, in breadth-first order. Starting from a closed
        visited set, the component is exactly what it newly visits and is
        itself closed. */
    method BfsComponent(start: string, visitedIn: set<string>) returns (visited: set<string>, component: seq<string>)
      requires start !in visitedIn && Closed(visitedIn)
      ensures visited == visitedIn + Elements(component) && Elements(component) !! visitedIn
      ensures component != [] && component[0] == start && Distinct(component)
      ensures Closed(visited)
      ensures forall x :: x in Elements(component) ==> Neighbours(typeReferences, x) <= Elements(component)
    {
      var queue := [start];
      visited := visitedIn + {start};
      component := [];
      ghost var u := Universe(typeReferences) + {start};
      QueuedStart(visitedIn, u, start);
      while queue != []
        invariant Queued(visitedIn, u, visited, component, queue)
        invariant component == [] ==> queue == [start]
        invariant component != [] ==> component[0] == start
        invariant forall x :: x in Elements(component) ==> Neighbours(typeReferences, x) <= visited
        decreases |u| - |component|
      {
        QueuedBound(visitedIn, u, visited, component, queue);
        visited, component, queue := VisitNext(visitedIn, u, visited, component, queue);
      }
      QueuedDone(visitedIn, u, visited, component);
      ComponentClosed(typeReferences, visitedIn, Elements(component));
    }

    /** One round of `bfs_component`'s outer loop: the type at the head of
        the queue joins the component, and its unvisited neighbours in both
        directions are visited and queued. */
    method VisitNext(ghost visitedIn: set<string>, ghost u: set<string>, visited0: set<string>, component0: seq<string>, queue0: seq<string>)
      returns (visited: set<string>, component: seq<string>, queue: seq<string>)
      requires Queued(visitedIn, u, visited0, component0, queue0) && queue0 != [] && Universe(typeReferences) <= u
      requires forall x :: x in Elements(component0) ==> Neighbours(typeReferences, x) <= visited0
      ensures Queued(visitedIn, u, visited, component, queue)
      ensures component == component0 + [queue0[0]]
      ensures forall x :: x in Elements(component) ==> Neighbours(typeReferences, x) <= visited
    {
      var node := queue0[0];
      QueuedPop(visitedIn, u, visited0, component0, queue0);
      ElementsSnoc(component0, node);
      queue := queue0[1..];
      component := component0 + [node];
      AdjacentInUniverse(typeReferences, node);
      visited, queue := EnqueueDependencies(node, visitedIn, u, component, visited0, queue);
      visited, queue := EnqueueDependents(node, visitedIn, u, component, visited, queue);
    }

    /** The first inner loop of `bfs_component`: every unvisited type that
        `node` references is visited and queued. */
    method EnqueueDependencies(node: string, ghost visitedIn: set<string>, ghost u: set<string>, ghost component: seq<string>,
                               visited0: set<string>, queue0: seq<string>)
      returns (visited: set<string>, queue: seq<string>)
      requires Queued(visitedIn, u, visited0, component, queue0) && Deps(typeReferences, node) <= u
      ensures Queued(visitedIn, u, visited, component, queue)
      ensures visited0 + Deps(typeReferences, node) <= visited
    {
      visited, queue := visited0, queue0;
      if node in typeReferences {
        var deps := typeReferences[node];
        var remaining := deps;
        while remaining != {}
          invariant remaining <= deps
          invariant visited0 + (deps - remaining) <= visited
          invariant Queued(visitedIn, u, visited, component, queue)
          decreases |remaining|
        {
          var dep :| dep in remaining;
          remaining := remaining - {dep};
          if dep !in visited {
            QueuedSnoc(visitedIn, u, visited, component, queue, dep);
            visited := visited + {dep};
            queue := queue + [dep];
          }
        }
      }
    }

    /** The second inner loop of `bfs_component`: every unvisited type that
        references `node` is visited and queued. */
    method EnqueueDependents(node: string, ghost visitedIn: set<string>, ghost u: set<string>, ghost component: seq<string>,
                             visited0: set<string>, queue0: seq<string>)
      returns (visited: set<string>, queue: seq<string>)
      requires Queued(visitedIn, u, visited0, component, queue0) && DependentsOf(typeReferences, node) <= u
      ensures Queued(visitedIn, u, visited, component, queue)
      ensures visited0 + DependentsOf(typeReferences, node) <= visited
    {
      visited, queue := visited0, queue0;
      var entries := typeReferences.Keys;
      while entries != {}
        invariant entries <= typeReferences.Keys
        invariant visited0 + (DependentsOf(typeReferences, node) - entries) <= visited
        invariant Queued(visitedIn, u, visited, component, queue)
        decreases |entries|
      {
        var from :| from in entries;
        entries := entries - {from};
        if node in typeReferences[from] && from !in visited {
          QueuedSnoc(visitedIn, u, visited, component, queue, from);
          visited := visited + {from};
          queue := queue + [from];
        }
      }
    }
  }

  /** The breadth-first search's bookkeeping: the newly visited types are
      exactly those already in the component or still queued, none twice,
      and all of them within `u`. */
  ghost predicate Queued(visitedIn: set<string>, u: set<string>, visited: set<string>, component: seq<string>, queue: seq<string>) {
    visited == visitedIn + Elements(component + queue) && visited <= visitedIn + u
    && Distinct(component + queue) && Elements(component + queue) !! visitedIn
  }

  /** The search starts with only `start` visited and queued. */
  lemma QueuedStart(visitedIn: set<string>, u: set<string>, start: string)
    requires start !in visitedIn && start in u
    ensures Queued(visitedIn, u, visitedIn + {start}, [], [start])
  {
    assert [] + [start] == [start];
    ElementsSnoc([], start);
    DistinctSnoc([], start);
  }

  /** With the queue empty, the newly visited types are the component's. */
  lemma QueuedDone(visitedIn: set<string>, u: set<string>, visited: set<string>, component: seq<string>)
    requires Queued(visitedIn, u, visited, component, [])
    ensures visited == visitedIn + Elements(component) && Elements(component) !! visitedIn && Distinct(component)
  {
    assert component + [] == component;
  }

  lemma QueuedPop(visitedIn: set<string>, u: set<string>, visited: set<string>, component: seq<string>, queue: seq<string>)
    requires Queued(visitedIn, u, visited, component, queue) && queue != []
    ensures Queued(visitedIn, u, visited, component + [queue[0]], queue[1..])
  {
    assert component + queue == (component + [queue[0]]) + queue[1..];
  }

  /** A search that started from a closed visited set and visited every
      neighbour of what it found: what it found is closed on its own,
      since a neighbour inside the old visited set would have made the
      found type old as well. */
  lemma ComponentClosed(refs: Refs, visitedIn: set<string>, found: set<string>)
    requires forall x :: x in visitedIn ==> Neighbours(refs, x) <= visitedIn
    requires forall x :: x in found ==> Neighbours(refs, x) <= visitedIn + found
    requires found !! visitedIn
    ensures forall x :: x in found ==> Neighbours(refs, x) <= found
  {
    forall x, y | x in found && y in Neighbours(refs, x)
      ensures y in found
    {
      if y in visitedIn {
        DependencyDependent(refs, x, y);
      }
    }
  }

  lemma QueuedSnoc(visitedIn: set<string>, u: set<string>, visited: set<string>, component: seq<string>, queue: seq<string>, x: string)
    requires Queued(visitedIn, u, visited, component, queue) && x in u && x !in visited
    ensures Queued(visitedIn, u, visited + {x}, component, queue + [x])
  {
    assert component + (queue + [x]) == (component + queue) + [x];
    ElementsSnoc(component + queue, x);
    DistinctSnoc(component + queue, x);
  }

  /** The component and the queue together never outgrow `u`. */
  lemma QueuedBound(visitedIn: set<string>, u: set<string>, visited: set<string>, component: seq<string>, queue: seq<string>)
    requires Queued(visitedIn, u, visited, component, queue)
    ensures |component| + |queue| <= |u|
  {
    DistinctCard(component + queue);
    assert Elements(component + queue) <= u;
    SubsetCard(Elements(component + queue), u);
  }

  lemma SubsetCard(a: set<string>, b: set<string>)
    requires a <= b
    ensures |a| <= |b|
  {
    assert b == a + (b - a);
  }

  /** Both neighbours of a type lie in the universe of the map. */
  lemma AdjacentInUniverse(refs: Refs, t: string)
    ensures Deps(refs, t) <= Universe(refs) && DependentsOf(refs, t) <= Universe(refs)
  {
    forall x | x in Deps(refs, t)
      ensures x in Universe(refs)
    {
      InUniverse(refs, t, x);
    }
  }

  /** All the types of a sequence of components. */
  function Covered(cs: seq<seq<string>>): set<string>
  {
    if cs == [] then {} else Covered(cs[..|cs| - 1]) + Elements(cs[|cs| - 1])
  }

  lemma CoveredSnoc(cs: seq<seq<string>>, c: seq<string>)
    ensures Covered(cs + [c]) == Covered(cs) + Elements(c)
  {
    assert (cs + [c])[..|cs|] == cs;
  }

  lemma {:induction false} CoveredHas(cs: seq<seq<string>>, i: nat)
    requires i < |cs|
    ensures Elements(cs[i]) <= Covered(cs)
  {
    if i < |cs| - 1 {
      CoveredHas(cs[..|cs| - 1], i);
    }
  }

  /** A new component with no covered type, closed under references, keeps
      the components pairwise disjoint, each without repeats and each
      closed. */
  lemma AddComponent(refs: Refs, cs: seq<seq<string>>, c: seq<string>)
    requires forall i :: 0 <= i < |cs| ==> Distinct(cs[i])
    requires forall i, j :: 0 <= i < j < |cs| ==> Elements(cs[i]) !! Elements(cs[j])
    requires forall i, x :: 0 <= i < |cs| && x in Elements(cs[i]) ==> Neighbours(refs, x) <= Elements(cs[i])
    requires Distinct(c) && Elements(c) !! Covered(cs)
    requires forall x :: x in Elements(c) ==> Neighbours(refs, x) <= Elements(c)
    ensures Covered(cs + [c]) == Covered(cs) + Elements(c)
    ensures var ds := cs + [c]; forall i :: 0 <= i < |ds| ==> Distinct(ds[i])
    ensures var ds := cs + [c]; forall i, j :: 0 <= i < j < |ds| ==> Elements(ds[i]) !! Elements(ds[j])
    ensures var ds := cs + [c];
      forall i, x :: 0 <= i < |ds| && x in Elements(ds[i]) ==> Neighbours(refs, x) <= Elements(ds[i])
  {
    forall i | 0 <= i < |cs|
      ensures Elements(cs[i]) !! Elements(c)
    {
      CoveredHas(cs, i);
    }
    CoveredSnoc(cs, c);
  }

  /** `add_type_reference` is idempotent: a repeated reference changes nothing. */
  lemma ReferenceIdempotent(refs: Refs, a: string, b: string)
    ensures var once := refs[a := Deps(refs, a) + {b}];
      once[a := Deps(once, a) + {b}] == once
  {
    var once := refs[a := Deps(refs, a) + {b}];
    assert Deps(once, a) + {b} == Deps(once, a);
  }
}
