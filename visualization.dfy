/** `GraphVisualizer`: Mermaid and DOT text for a reference graph, the
    neighbourhood of a focus node, the dependency matrix and a summary. */
module Visualization {
  import opened Strings
  import opened Types
  import opened Sorting
  import opened Graph

  datatype Direction = TopDown | LeftToRight | BottomUp | RightToLeft
  datatype ColorScheme = DefaultScheme | Dark | Light | HighContrast
  datatype NodeSize = Small | Medium | Large

  datatype VisualizationConfig = VisualizationConfig(
    direction: Direction,
    showLabels: bool,
    colorScheme: ColorScheme,
    nodeSize: NodeSize)

  /** `VisualizationConfig::default()`. */
  const DefaultConfig := VisualizationConfig(TopDown, true, DefaultScheme, Medium)

  // ---------------------------------------------------------------------
  // Style maps

  /** The Mermaid class of a node kind (`get_node_style`). */
  function NodeClass(k: DeclarationKind): string
  {
    match k
    case Class => "classNode"
    case Interface => "interfaceNode"
    case Enum => "enumNode"
    case Record => "recordNode"
    case AnnotationType => "annotationNode"
  }

  /** The colours of each Mermaid class (`generate_styles`). */
  function ClassColors(k: DeclarationKind): string
  {
    match k
    case Class => "fill:#e1f5fe,stroke:#01579b,stroke-width:2px"
    case Interface => "fill:#f3e5f5,stroke:#4a148c,stroke-width:2px"
    case Enum => "fill:#e8f5e8,stroke:#1b5e20,stroke-width:2px"
    case Record => "fill:#fff3e0,stroke:#e65100,stroke-width:2px"
    case AnnotationType => "fill:#fce4ec,stroke:#880e4f,stroke-width:2px"
  }

  /** The part of a class definition that names the class. */
  function ClassKey(k: DeclarationKind): string
  {
    "classDef " + NodeClass(k) + " "
  }

  function ClassDef(k: DeclarationKind): string
  {
    "    " + ClassKey(k) + ClassColors(k) + "\n"
  }

  /** The kinds in the order their classes are defined. */
  const StyledKinds := [Class, Interface, Enum, Record, AnnotationType]

  function ClassDefs(ks: seq<DeclarationKind>): string
  {
    if ks == [] then [] else ClassDef(ks[0]) + ClassDefs(ks[1..])
  }

  /** `generate_styles`: one class definition per kind; the configuration
      is not consulted. */
  function Styles(): string
  {
    ClassDefs(StyledKinds)
  }

  /** The Mermaid edge label (`get_edge_style`). */
  function EdgeStyle(r: RelationshipType): string
  {
    match r
    case Extends => "extends"
    case Implements => "implements"
    case Uses => "uses"
    case References => "references"
    case DependsOn => "depends on"
  }

  /** The DOT fill colour of a node kind (`get_dot_node_attrs`). */
  function DotColor(k: DeclarationKind): string
  {
    match k
    case Class => "lightblue"
    case Interface => "lightcoral"
    case Enum => "lightgreen"
    case Record => "lightyellow"
    case AnnotationType => "lightpink"
  }

  /** The DOT line style and label of a relationship (`get_dot_edge_attrs`). */
  function DotEdgeStyle(r: RelationshipType): (string, string)
  {
    match r
    case Extends => ("solid", "extends")
    case Implements => ("dashed", "implements")
    case Uses => ("dotted", "uses")
    case References => ("solid", "references")
    case DependsOn => ("bold", "depends on")
  }

  /** Different kinds get different classes and different colours. */
  lemma NodeStylesDistinct(k1: DeclarationKind, k2: DeclarationKind)
    ensures NodeClass(k1) == NodeClass(k2) <==> k1 == k2
    ensures DotColor(k1) == DotColor(k2) <==> k1 == k2
  {
  }

  lemma {:induction false} ClassDefsHave(ks: seq<DeclarationKind>, i: nat)
    requires i < |ks|
    ensures Contains(ClassDefs(ks), ClassKey(ks[i]))
  {
    var sub := ClassKey(ks[i]);
    var head := ClassDef(ks[0]);
    var tail := ClassDefs(ks[1..]);
    assert ClassDefs(ks) == head + tail;
    if i == 0 {
      ClassDefHasKey(ks[0]);
      ContainsExtendRight(head, sub, tail);
    } else {
      ClassDefsHave(ks[1..], i - 1);
      assert ks[1..][i - 1] == ks[i];
      ContainsExtendLeft(head, tail, sub);
    }
  }

  /** A class definition names its class. */
  lemma ClassDefHasKey(k: DeclarationKind)
    ensures Contains(ClassDef(k), ClassKey(k))
  {
    var sub := ClassKey(k);
    var colors := ClassColors(k);
    ContainsMiddle("    ", sub, colors);
    ContainsExtendRight("    " + sub + colors, sub, "\n");
  }

  /** Every class a node can carry is defined in the style block. */
  lemma StylesDefineEveryClass(k: DeclarationKind)
    ensures Contains(Styles(), "classDef " + NodeClass(k) + " ")
  {
    var i := match k case Class => 0 case Interface => 1 case Enum => 2 case Record => 3 case AnnotationType => 4;
    ClassDefsHave(StyledKinds, i);
  }

  /** The two emitters name each relationship alike, and differently for
      different relationships. */
  lemma EdgeLabelsAgree(r1: RelationshipType, r2: RelationshipType)
    ensures DotEdgeStyle(r1).1 == EdgeStyle(r1)
    ensures EdgeStyle(r1) == EdgeStyle(r2) <==> r1 == r2
  {
  }

  // ---------------------------------------------------------------------
  // escape_label

  /** `str::replace(c, rep)` for a single character. */
  function ReplaceChar(s: string, c: char, rep: string): (r: string)
    ensures c !in rep ==> c !in r
  {
    if s == [] then []
    else (if s[0] == c then rep else [s[0]]) + ReplaceChar(s[1..], c, rep)
  }

  /** `escape_label`: `"` becomes `\"`, then a newline becomes `\n`. */
  function EscapeLabel(s: string): string
  {
    ReplaceChar(ReplaceChar(s, '"', "\\\""), '\n', "\\n")
  }

  /** The escape of one character. */
  function EscapeChar(c: char): string
  {
    if c == '"' then "\\\"" else if c == '\n' then "\\n" else [c]
  }

  /** The escape character by character. */
  function EscapeChars(s: string): string
  {
    if s == [] then [] else EscapeChar(s[0]) + EscapeChars(s[1..])
  }

  lemma {:induction false} ReplaceCharAppend(a: string, b: string, c: char, rep: string)
    ensures ReplaceChar(a + b, c, rep) == ReplaceChar(a, c, rep) + ReplaceChar(b, c, rep)
  {
    if a != [] {
      ReplaceCharAppend(a[1..], b, c, rep);
      assert (a + b)[1..] == a[1..] + b;
    } else {
      assert a + b == b;
    }
  }

  /** The two successive replacements amount to escaping each character
      on its own: the first inserts no newline for the second to find. */
  lemma {:induction false} EscapeLabelPerChar(s: string)
    ensures EscapeLabel(s) == EscapeChars(s)
  {
    if s != [] {
      EscapeLabelPerChar(s[1..]);
      var first := if s[0] == '"' then "\\\"" else [s[0]];
      assert ReplaceChar(s, '"', "\\\"") == first + ReplaceChar(s[1..], '"', "\\\"");
      ReplaceCharAppend(first, ReplaceChar(s[1..], '"', "\\\""), '\n', "\\n");
      assert ReplaceChar(first, '\n', "\\n") == EscapeChar(s[0]) by {
        if s[0] == '"' {
          assert ReplaceChar(first[1..], '\n', "\\n") == ReplaceChar(first[1..][1..], '\n', "\\n") + [first[1]];
        }
      }
    }
  }

  /** The escaped label has no raw newline. */
  lemma EscapeLabelOneLine(s: string)
    ensures '\n' !in EscapeLabel(s)
  {
  }

  /** Reads an escaped label back: `\"` and `\n` become `"` and a newline. */
  function UnescapeLabel(t: string): string
  {
    if t == [] then []
    else if |t| >= 2 && t[0] == '\\' && t[1] == '"' then ['"'] + UnescapeLabel(t[2..])
    else if |t| >= 2 && t[0] == '\\' && t[1] == 'n' then ['\n'] + UnescapeLabel(t[2..])
    else [t[0]] + UnescapeLabel(t[1..])
  }

  /** A label without backslashes is recovered from its escape. */
  lemma {:induction false} UnescapeEscapeLabel(s: string)
    requires '\\' !in s
    ensures UnescapeLabel(EscapeLabel(s)) == s
  {
    EscapeLabelPerChar(s);
    UnescapeEscapeChars(s);
  }

  lemma {:induction false} UnescapeEscapeChars(s: string)
    requires '\\' !in s
    ensures UnescapeLabel(EscapeChars(s)) == s
  {
    if s != [] {
      UnescapeEscapeChars(s[1..]);
      var t := EscapeChars(s);
      assert t == EscapeChar(s[0]) + EscapeChars(s[1..]);
      if s[0] == '"' || s[0] == '\n' {
        assert t[2..] == EscapeChars(s[1..]);
      } else {
        assert t[1..] == EscapeChars(s[1..]);
      }
      assert s == [s[0]] + s[1..];
    }
  }

  /** A backslash in a label is not escaped, so a backslash followed by
      `n` and a real newline come out alike. */
  lemma EscapeLabelCollision()
    ensures EscapeLabel("\\n") == EscapeLabel("\n")
  {
    EscapeLabelPerChar("\\n");
    EscapeLabelPerChar("\n");
    assert EscapeChars("\\n") == EscapeChar('\\') + EscapeChars("n");
  }

  // ---------------------------------------------------------------------
  // to_mermaid

  function MermaidHeader(d: Direction): string
  {
    if d == LeftToRight then "graph LR\n" else "graph TD\n"
  }

  function MermaidNodeLine(n: GraphNode): string
  {
    "    " + n.id + "[" + EscapeLabel(n.labelText) + "]" + ":::" + NodeClass(n.kind) + "\n"
  }

  function MermaidEdgeLine(e: GraphEdge): string
  {
    "    " + e.from + " --" + EdgeStyle(e.relationship) + "--> " + e.to + "\n"
  }

  /** `text` followed by one line per node. */
  function MermaidNodes(text: string, nodes: seq<GraphNode>): string
  {
    if nodes == [] then text else MermaidNodes(text, nodes[..|nodes| - 1]) + MermaidNodeLine(nodes[|nodes| - 1])
  }

  /** `text` followed by one line per edge. */
  function MermaidEdges(text: string, edges: seq<GraphEdge>): string
  {
    if edges == [] then text else MermaidEdges(text, edges[..|edges| - 1]) + MermaidEdgeLine(edges[|edges| - 1])
  }

  /** The Mermaid text: header, styles, one line per node, one per edge. */
  function MermaidText(g: ReferenceGraph, config: VisualizationConfig): string
  {
    MermaidEdges(MermaidNodes(MermaidHeader(config.direction) + Styles(), g.nodes), g.edges)
  }

  /** `to_mermaid`; it never fails. */
  method ToMermaid(g: ReferenceGraph, config: VisualizationConfig) returns (mermaid: string)
    ensures mermaid == MermaidText(g, config)
  {
    mermaid := "";
    if config.direction == LeftToRight {
      mermaid := mermaid + "graph LR\n";
    } else {
      mermaid := mermaid + "graph TD\n";
    }
    assert mermaid == MermaidHeader(config.direction);
    mermaid := mermaid + Styles();
    mermaid := AppendMermaidNodes(mermaid, g.nodes);
    mermaid := AppendMermaidEdges(mermaid, g.edges);
  }

  /** The node loop of `to_mermaid`. */
  method AppendMermaidNodes(text: string, nodes: seq<GraphNode>) returns (mermaid: string)
    ensures mermaid == MermaidNodes(text, nodes)
  {
    mermaid := text;
    for k := 0 to |nodes|
      invariant mermaid == MermaidNodes(text, nodes[..k])
    {
      assert nodes[..k + 1][..k] == nodes[..k];
      mermaid := mermaid + MermaidNodeLine(nodes[k]);
    }
    assert nodes[..|nodes|] == nodes;
  }

  /** The edge loop of `to_mermaid`. */
  method AppendMermaidEdges(text: string, edges: seq<GraphEdge>) returns (mermaid: string)
    ensures mermaid == MermaidEdges(text, edges)
  {
    mermaid := text;
    for k := 0 to |edges|
      invariant mermaid == MermaidEdges(text, edges[..k])
    {
      assert edges[..k + 1][..k] == edges[..k];
      mermaid := mermaid + MermaidEdgeLine(edges[k]);
    }
    assert edges[..|edges|] == edges;
  }

  lemma {:induction false} MermaidNodesExtend(text: string, nodes: seq<GraphNode>)
    ensures StartsWith(MermaidNodes(text, nodes), text)
  {
    if nodes != [] {
      MermaidNodesExtend(text, nodes[..|nodes| - 1]);
      StartsWithTrans(MermaidNodes(text, nodes[..|nodes| - 1]), MermaidNodeLine(nodes[|nodes| - 1]), text);
    }
  }

  lemma {:induction false} MermaidEdgesExtend(text: string, edges: seq<GraphEdge>)
    ensures StartsWith(MermaidEdges(text, edges), text)
  {
    if edges != [] {
      MermaidEdgesExtend(text, edges[..|edges| - 1]);
      StartsWithTrans(MermaidEdges(text, edges[..|edges| - 1]), MermaidEdgeLine(edges[|edges| - 1]), text);
    }
  }

  /** Each node line is in the text, and stays there as lines follow. */
  lemma {:induction false} MermaidNodesHave(text: string, nodes: seq<GraphNode>, i: nat)
    requires i < |nodes|
    ensures Contains(MermaidNodes(text, nodes), MermaidNodeLine(nodes[i]))
  {
    var init := MermaidNodes(text, nodes[..|nodes| - 1]);
    var last := MermaidNodeLine(nodes[|nodes| - 1]);
    if i == |nodes| - 1 {
      ContainsSelf(last);
      ContainsExtendLeft(init, last, last);
    } else {
      MermaidNodesHave(text, nodes[..|nodes| - 1], i);
      ContainsExtendRight(init, MermaidNodeLine(nodes[i]), last);
    }
  }

  lemma {:induction false} MermaidEdgesHave(text: string, edges: seq<GraphEdge>, i: nat)
    requires i < |edges|
    ensures Contains(MermaidEdges(text, edges), MermaidEdgeLine(edges[i]))
  {
    var init := MermaidEdges(text, edges[..|edges| - 1]);
    var last := MermaidEdgeLine(edges[|edges| - 1]);
    if i == |edges| - 1 {
      ContainsSelf(last);
      ContainsExtendLeft(init, last, last);
    } else {
      MermaidEdgesHave(text, edges[..|edges| - 1], i);
      ContainsExtendRight(init, MermaidEdgeLine(edges[i]), last);
    }
  }

  lemma {:induction false} MermaidEdgesKeep(text: string, edges: seq<GraphEdge>, sub: string)
    requires Contains(text, sub)
    ensures Contains(MermaidEdges(text, edges), sub)
  {
    if edges != [] {
      MermaidEdgesKeep(text, edges[..|edges| - 1], sub);
      ContainsExtendRight(MermaidEdges(text, edges[..|edges| - 1]), sub, MermaidEdgeLine(edges[|edges| - 1]));
    }
  }

  lemma MermaidHeaderOf(d: Direction, rest: string)
    ensures StartsWith(MermaidHeader(d) + rest, "graph LR\n") <==> d == LeftToRight
    ensures StartsWith(MermaidHeader(d) + rest, "graph TD\n") <==> d != LeftToRight
  {
    var t := MermaidHeader(d) + rest;
    StartsWithAppend(MermaidHeader(d), rest);
    if d == LeftToRight {
      StartsWithDiffer(t, "graph LR\n", "graph TD\n", 6);
    } else {
      StartsWithDiffer(t, "graph TD\n", "graph LR\n", 6);
    }
  }

  /** The Mermaid text opens with `graph LR` exactly for a left-to-right
      layout and with `graph TD` otherwise. */
  lemma MermaidHeaderShape(g: ReferenceGraph, config: VisualizationConfig)
    ensures StartsWith(MermaidText(g, config), "graph LR\n") <==> config.direction == LeftToRight
    ensures StartsWith(MermaidText(g, config), "graph TD\n") <==> config.direction != LeftToRight
  {
    var h := MermaidHeader(config.direction);
    var head := h + Styles();
    var withNodes := MermaidNodes(head, g.nodes);
    var t := MermaidText(g, config);
    StartsWithAppend(h, Styles());
    MermaidNodesExtend(head, g.nodes);
    MermaidEdgesExtend(withNodes, g.edges);
    StartsWithTrans2(t, withNodes, head);
    StartsWithTrans2(t, head, h);
    StartsWithSplit(t, h);
    MermaidHeaderOf(config.direction, t[|h|..]);
  }

  /** The Mermaid text has a line for every node and every edge. */
  lemma MermaidHasEveryLine(g: ReferenceGraph, config: VisualizationConfig)
    ensures forall i :: 0 <= i < |g.nodes| ==> Contains(MermaidText(g, config), MermaidNodeLine(g.nodes[i]))
    ensures forall i :: 0 <= i < |g.edges| ==> Contains(MermaidText(g, config), MermaidEdgeLine(g.edges[i]))
  {
    var head := MermaidHeader(config.direction) + Styles();
    forall i | 0 <= i < |g.nodes|
      ensures Contains(MermaidText(g, config), MermaidNodeLine(g.nodes[i]))
    {
      MermaidNodesHave(head, g.nodes, i);
      MermaidEdgesKeep(MermaidNodes(head, g.nodes), g.edges, MermaidNodeLine(g.nodes[i]));
    }
    forall i | 0 <= i < |g.edges|
      ensures Contains(MermaidText(g, config), MermaidEdgeLine(g.edges[i]))
    {
      MermaidEdgesHave(MermaidNodes(head, g.nodes), g.edges, i);
    }
  }

  // ---------------------------------------------------------------------
  // to_dot

  /** The opening line, with the rank direction for a left-to-right layout. */
  function DotStart(d: Direction): string
  {
    if d == LeftToRight then "digraph G {\n" + "    rankdir=LR;\n" else "digraph G {\n"
  }

  const NodeFont := "    node [fontname=\"Helvetica\"];\n"
  const EdgeFont := "    edge [fontname=\"Helvetica\"];\n"

  function DotHeader(d: Direction): string
  {
    DotStart(d) + NodeFont + EdgeFont
  }

  function DotNodeAttrs(n: GraphNode): string
  {
    "shape=box, style=filled, fillcolor=" + DotColor(n.kind) + ", label=\"" + EscapeLabel(n.labelText) + "\""
  }

  function DotEdgeAttrs(r: RelationshipType): string
  {
    "style=" + DotEdgeStyle(r).0 + ", label=\"" + DotEdgeStyle(r).1 + "\""
  }

  function DotNodeLine(n: GraphNode): string
  {
    "    \"" + n.id + "\" [" + DotNodeAttrs(n) + "];\n"
  }

  /** The quoted arrow of an edge. */
  function DotArrow(e: GraphEdge): string
  {
    "\"" + e.from + "\" -> \"" + e.to + "\""
  }

  function DotEdgeTail(e: GraphEdge): string
  {
    " [" + DotEdgeAttrs(e.relationship) + "];\n"
  }

  function DotEdgeLine(e: GraphEdge): string
  {
    "    " + DotArrow(e) + DotEdgeTail(e)
  }

  function DotNodes(text: string, nodes: seq<GraphNode>): string
  {
    if nodes == [] then text else DotNodes(text, nodes[..|nodes| - 1]) + DotNodeLine(nodes[|nodes| - 1])
  }

  function DotEdges(text: string, edges: seq<GraphEdge>): string
  {
    if edges == [] then text else DotEdges(text, edges[..|edges| - 1]) + DotEdgeLine(edges[|edges| - 1])
  }

  /** The DOT text: header, one line per node, one per edge, closing brace. */
  function DotText(g: ReferenceGraph, config: VisualizationConfig): string
  {
    DotEdges(DotNodes(DotHeader(config.direction), g.nodes), g.edges) + "}\n"
  }

  /** `to_dot`; it never fails. */
  method ToDot(g: ReferenceGraph, config: VisualizationConfig) returns (dot: string)
    ensures dot == DotText(g, config)
  {
    dot := "digraph G {\n";
    if config.direction == LeftToRight {
      dot := dot + "    rankdir=LR;\n";
    }
    assert dot == DotStart(config.direction);
    dot := dot + "    node [fontname=\"Helvetica\"];\n";
    dot := dot + "    edge [fontname=\"Helvetica\"];\n";
    dot := AppendDotNodes(dot, g.nodes);
    dot := AppendDotEdges(dot, g.edges);
    dot := dot + "}\n";
  }

  /** The node loop of `to_dot`. */
  method AppendDotNodes(text: string, nodes: seq<GraphNode>) returns (dot: string)
    ensures dot == DotNodes(text, nodes)
  {
    dot := text;
    for k := 0 to |nodes|
      invariant dot == DotNodes(text, nodes[..k])
    {
      assert nodes[..k + 1][..k] == nodes[..k];
      dot := dot + DotNodeLine(nodes[k]);
    }
    assert nodes[..|nodes|] == nodes;
  }

  /** The edge loop of `to_dot`. */
  method AppendDotEdges(text: string, edges: seq<GraphEdge>) returns (dot: string)
    ensures dot == DotEdges(text, edges)
  {
    dot := text;
    for k := 0 to |edges|
      invariant dot == DotEdges(text, edges[..k])
    {
      assert edges[..k + 1][..k] == edges[..k];
      dot := dot + DotEdgeLine(edges[k]);
    }
    assert edges[..|edges|] == edges;
  }

  lemma {:induction false} DotNodesExtend(text: string, nodes: seq<GraphNode>)
    ensures StartsWith(DotNodes(text, nodes), text)
  {
    if nodes != [] {
      DotNodesExtend(text, nodes[..|nodes| - 1]);
      StartsWithTrans(DotNodes(text, nodes[..|nodes| - 1]), DotNodeLine(nodes[|nodes| - 1]), text);
    }
  }

  lemma {:induction false} DotEdgesExtend(text: string, edges: seq<GraphEdge>)
    ensures StartsWith(DotEdges(text, edges), text)
  {
    if edges != [] {
      DotEdgesExtend(text, edges[..|edges| - 1]);
      StartsWithTrans(DotEdges(text, edges[..|edges| - 1]), DotEdgeLine(edges[|edges| - 1]), text);
    }
  }

  lemma {:induction false} DotEdgesHave(text: string, edges: seq<GraphEdge>, i: nat)
    requires i < |edges|
    ensures Contains(DotEdges(text, edges), DotArrow(edges[i]))
  {
    var init := DotEdges(text, edges[..|edges| - 1]);
    if i == |edges| - 1 {
      var e := edges[i];
      ContainsMiddle("    ", DotArrow(e), DotEdgeTail(e));
      ContainsExtendLeft(init, DotEdgeLine(e), DotArrow(e));
    } else {
      DotEdgesHave(text, edges[..|edges| - 1], i);
      ContainsExtendRight(init, DotArrow(edges[i]), DotEdgeLine(edges[|edges| - 1]));
    }
  }

  /** Any text after the DOT header opens the digraph, and it sets a
      left-to-right rank direction exactly for that layout. */
  lemma DotHeaderShape(d: Direction, rest: string)
    ensures StartsWith(DotHeader(d) + rest, "digraph G {\n")
    ensures StartsWith(DotHeader(d) + rest, "digraph G {\n    rankdir=LR;\n") <==> d == LeftToRight
  {
    if d == LeftToRight {
      DotHeaderLeftToRight(rest);
    } else {
      DotHeaderOther(d, rest);
    }
  }

  /** The left-to-right header sets the rank direction first. */
  lemma DotHeaderLeftToRight(rest: string)
    ensures StartsWith(DotHeader(LeftToRight) + rest, "digraph G {\n    rankdir=LR;\n")
    ensures StartsWith(DotHeader(LeftToRight) + rest, "digraph G {\n")
  {
    var start := "digraph G {\n";
    var t := DotHeader(LeftToRight) + rest;
    StartsWithAppend(DotStart(LeftToRight), NodeFont);
    StartsWithTrans(DotStart(LeftToRight) + NodeFont, EdgeFont, DotStart(LeftToRight));
    StartsWithTrans(DotHeader(LeftToRight), rest, DotStart(LeftToRight));
    StartsWithAppend(start, "    rankdir=LR;\n");
    StartsWithTrans2(t, DotStart(LeftToRight), start);
  }

  /** Any other header goes straight on to the node attributes. */
  lemma DotHeaderOther(d: Direction, rest: string)
    requires d != LeftToRight
    ensures StartsWith(DotHeader(d) + rest, "digraph G {\n")
    ensures !StartsWith(DotHeader(d) + rest, "digraph G {\n    rankdir=LR;\n")
  {
    var start := "digraph G {\n";
    var t := DotHeader(d) + rest;
    var p := start + NodeFont;
    assert DotHeader(d) == p + EdgeFont;
    StartsWithAppend(p, EdgeFont);
    StartsWithTrans(p + EdgeFont, rest, p);
    StartsWithAppend(start, NodeFont);
    StartsWithTrans2(t, p, start);
    assert p[16] == 'n';
    StartsWithDiffer(t, p, "digraph G {\n    rankdir=LR;\n", 16);
  }

  /** The DOT text opens the digraph, sets a left-to-right rank direction
      exactly for that layout, and closes the digraph. */
  lemma DotFrame(g: ReferenceGraph, config: VisualizationConfig)
    ensures StartsWith(DotText(g, config), "digraph G {\n")
    ensures StartsWith(DotText(g, config), "digraph G {\n    rankdir=LR;\n") <==> config.direction == LeftToRight
    ensures EndsWith(DotText(g, config), "}\n")
  {
    var h := DotHeader(config.direction);
    var body := DotEdges(DotNodes(h, g.nodes), g.edges);
    var t := DotText(g, config);
    EndsWithAppend(body, "}\n");
    DotNodesExtend(h, g.nodes);
    DotEdgesExtend(DotNodes(h, g.nodes), g.edges);
    StartsWithAppend(body, "}\n");
    StartsWithTrans2(t, body, DotNodes(h, g.nodes));
    StartsWithTrans2(t, DotNodes(h, g.nodes), h);
    StartsWithSplit(t, h);
    DotHeaderShape(config.direction, t[|h|..]);
  }

  /** The DOT text draws every edge with both of its ends quoted. */
  lemma DotHasEveryEdge(g: ReferenceGraph, config: VisualizationConfig)
    ensures forall i :: 0 <= i < |g.edges| ==> Contains(DotText(g, config), DotArrow(g.edges[i]))
  {
    var body := DotEdges(DotNodes(DotHeader(config.direction), g.nodes), g.edges);
    forall i | 0 <= i < |g.edges|
      ensures Contains(DotText(g, config), DotArrow(g.edges[i]))
    {
      DotEdgesHave(DotNodes(DotHeader(config.direction), g.nodes), g.edges, i);
      ContainsExtendRight(body, DotArrow(g.edges[i]), "}\n");
    }
  }

  // ---------------------------------------------------------------------
  // generate_focused_graph, collect_neighbors

  /** The ends `collect_neighbors` follows from `x`: for each edge, its
      target when it leaves `x`, otherwise its source when it enters `x`. */
  function Nbrs(edges: seq<GraphEdge>, x: string): set<string>
  {
    set k | 0 <= k < |edges| && (edges[k].from == x || edges[k].to == x) :: if edges[k].from == x then edges[k].to else edges[k].from
  }

  /** The ids within `d` steps of `x`, following edges in either direction. */
  function Within(edges: seq<GraphEdge>, x: string, d: nat): set<string>
    decreases d
  {
    {x} + (if d == 0 then {} else set z, y {:trigger y in Within(edges, z, d - 1)} | z in Nbrs(edges, x) && y in Within(edges, z, d - 1) :: y)
  }

  /** A neighbour's neighbourhood lies one step further out. */
  lemma WithinStep(edges: seq<GraphEdge>, x: string, z: string, d: nat)
    requires z in Nbrs(edges, x)
    ensures Within(edges, z, d) <= Within(edges, x, d + 1)
  {
  }

  lemma NbrsOf(edges: seq<GraphEdge>, x: string, k: nat)
    requires k < |edges| && (edges[k].from == x || edges[k].to == x)
    ensures (if edges[k].from == x then edges[k].to else edges[k].from) in Nbrs(edges, x)
  {
  }

  /** What the search from the other end of an edge at `x` adds stays
      within `depth - 1` steps of `x`. */
  lemma NeighbourSearchWithin(edges: seq<GraphEdge>, x: string, k: nat, depth: nat,
                              collectedIn: set<string>, before: set<string>, after: set<string>)
    requires k < |edges| && (edges[k].from == x || edges[k].to == x) && depth > 0
    requires before <= collectedIn + Within(edges, x, depth - 1)
    requires var y := if edges[k].from == x then edges[k].to else edges[k].from;
      (depth == 1 ==> after == before) && (depth > 1 ==> after <= before + Within(edges, y, depth - 2))
    ensures after <= collectedIn + Within(edges, x, depth - 1)
  {
    var y := if edges[k].from == x then edges[k].to else edges[k].from;
    NbrsOf(edges, x, k);
    if depth > 1 {
      WithinStep(edges, x, y, depth - 2);
    }
  }

  /** The other end of every edge among the first `k` at `x` is in `ids`. */
  predicate EndsCollected(edges: seq<GraphEdge>, x: string, k: nat, ids: set<string>)
    requires k <= |edges|
  {
    forall j :: 0 <= j < k ==> (edges[j].from == x ==> edges[j].to in ids) && (edges[j].to == x ==> edges[j].from in ids)
  }

  /** Growing the set and covering edge `k` covers one more edge. */
  lemma EndsCollectedStep(edges: seq<GraphEdge>, x: string, k: nat, before: set<string>, after: set<string>)
    requires k < |edges| && before <= after && x in before
    requires EndsCollected(edges, x, k, before)
    requires edges[k].from == x ==> edges[k].to in after
    requires edges[k].from != x && edges[k].to == x ==> edges[k].from in after
    ensures EndsCollected(edges, x, k + 1, after)
  {
  }

  /** `collect_neighbors`: nothing at depth 0 or at a collected id;
      otherwise the id, then a search one level shallower from every
      neighbour in edge order. Everything it adds lies within `depth - 1`
      steps, so depth 1 collects the focus alone; from depth 2 on, a new id
      brings in the other end of every edge at it. */
  method CollectNeighbors(edges: seq<GraphEdge>, nodeId: string, depth: nat, collectedIn: set<string>) returns (collected: set<string>)
    ensures collectedIn <= collected
    ensures depth == 0 || nodeId in collectedIn ==> collected == collectedIn
    ensures depth > 0 ==> nodeId in collected && collected <= collectedIn + Within(edges, nodeId, depth - 1)
    ensures depth > 1 && nodeId !in collectedIn ==> forall j :: 0 <= j < |edges| ==>
      (edges[j].from == nodeId ==> edges[j].to in collected) && (edges[j].to == nodeId ==> edges[j].from in collected)
    decreases depth
  {
    if depth == 0 || nodeId in collectedIn {
      return collectedIn;
    }
    collected := collectedIn + {nodeId};
    for k := 0 to |edges|
      invariant collectedIn + {nodeId} <= collected
      invariant collected <= collectedIn + Within(edges, nodeId, depth - 1)
      invariant depth > 1 ==> EndsCollected(edges, nodeId, k, collected)
    {
      ghost var before := collected;
      if edges[k].from == nodeId {
        collected := CollectNeighbors(edges, edges[k].to, depth - 1, collected);
        NeighbourSearchWithin(edges, nodeId, k, depth, collectedIn, before, collected);
      } else if edges[k].to == nodeId {
        collected := CollectNeighbors(edges, edges[k].from, depth - 1, collected);
        NeighbourSearchWithin(edges, nodeId, k, depth, collectedIn, before, collected);
      }
      if depth > 1 {
        EndsCollectedStep(edges, nodeId, k, before, collected);
      }
    }
  }

  /** The edges with both ends in `ids`, in order. */
  function FilterEdges(edges: seq<GraphEdge>, ids: set<string>): (r: seq<GraphEdge>)
    ensures |r| <= |edges|
  {
    if edges == [] then []
    else
      var e := edges[|edges| - 1];
      FilterEdges(edges[..|edges| - 1], ids) + (if e.from in ids && e.to in ids then [e] else [])
  }

  /** The nodes whose id is in `ids`, in order. */
  function FilterNodes(nodes: seq<GraphNode>, ids: set<string>): (r: seq<GraphNode>)
    ensures |r| <= |nodes|
  {
    if nodes == [] then []
    else
      var n := nodes[|nodes| - 1];
      FilterNodes(nodes[..|nodes| - 1], ids) + (if n.id in ids then [n] else [])
  }

  /** The graph restricted to the ids in `ids`. */
  function FocusedOf(g: ReferenceGraph, ids: set<string>): ReferenceGraph
  {
    ReferenceGraph(FilterNodes(g.nodes, ids), FilterEdges(g.edges, ids))
  }

  /** An edge is kept exactly when it is in the graph with both ends kept. */
  lemma {:induction false} FilterEdgesIff(edges: seq<GraphEdge>, ids: set<string>, e: GraphEdge)
    ensures e in FilterEdges(edges, ids) <==> e in edges && e.from in ids && e.to in ids
  {
    if edges != [] {
      FilterEdgesIff(edges[..|edges| - 1], ids, e);
      assert edges == edges[..|edges| - 1] + [edges[|edges| - 1]];
    }
  }

  /** A node is kept exactly when it is in the graph with its id kept. */
  lemma {:induction false} FilterNodesIff(nodes: seq<GraphNode>, ids: set<string>, n: GraphNode)
    ensures n in FilterNodes(nodes, ids) <==> n in nodes && n.id in ids
  {
    if nodes != [] {
      FilterNodesIff(nodes[..|nodes| - 1], ids, n);
      assert nodes == nodes[..|nodes| - 1] + [nodes[|nodes| - 1]];
    }
  }

  /** Nodes keep their order: when every id is kept, nothing changes. */
  lemma {:induction false} FilterNodesAll(nodes: seq<GraphNode>, ids: set<string>)
    requires forall i :: 0 <= i < |nodes| ==> nodes[i].id in ids
    ensures FilterNodes(nodes, ids) == nodes
  {
    if nodes != [] {
      FilterNodesAll(nodes[..|nodes| - 1], ids);
      assert nodes == nodes[..|nodes| - 1] + [nodes[|nodes| - 1]];
    }
  }

  /** `generate_focused_graph`; `collected` is the set of ids it gathered. */
  method GenerateFocusedGraph(g: ReferenceGraph, focusNode: string, depth: nat) returns (r: ReferenceGraph, ghost collected: set<string>)
    ensures r == FocusedOf(g, collected)
    ensures depth == 0 ==> collected == {}
    ensures depth > 0 ==> focusNode in collected && collected <= Within(g.edges, focusNode, depth - 1)
    ensures depth > 1 ==> forall j :: 0 <= j < |g.edges| && (g.edges[j].from == focusNode || g.edges[j].to == focusNode) ==>
      g.edges[j].from in collected && g.edges[j].to in collected && g.edges[j] in r.edges
  {
    var focusedNodes := CollectNeighbors(g.edges, focusNode, depth, {});
    collected := focusedNodes;
    var focusedEdges: seq<GraphEdge> := [];
    for k := 0 to |g.edges|
      invariant focusedEdges == FilterEdges(g.edges[..k], focusedNodes)
    {
      assert g.edges[..k + 1][..k] == g.edges[..k];
      var edge := g.edges[k];
      if edge.from in focusedNodes && edge.to in focusedNodes {
        focusedEdges := focusedEdges + [edge];
      }
    }
    assert g.edges[..|g.edges|] == g.edges;
    r := ReferenceGraph(FilterNodes(g.nodes, focusedNodes), focusedEdges);
    if depth > 1 {
      forall j | 0 <= j < |g.edges| && (g.edges[j].from == focusNode || g.edges[j].to == focusNode)
        ensures g.edges[j].from in collected && g.edges[j].to in collected && g.edges[j] in r.edges
      {
        FilterEdgesIff(g.edges, focusedNodes, g.edges[j]);
      }
    }
  }

  /** At depth 1 only the focus is collected, so only nodes with the focus
      id and only edges from the focus to itself survive. */
  lemma DepthOneKeepsOnlyFocus(g: ReferenceGraph, focusNode: string, ids: set<string>)
    requires ids <= Within(g.edges, focusNode, 0)
    ensures forall n :: n in FocusedOf(g, ids).nodes ==> n.id == focusNode
    ensures forall e :: e in FocusedOf(g, ids).edges ==> e.from == focusNode && e.to == focusNode
  {
    forall n | n in FocusedOf(g, ids).nodes
      ensures n.id == focusNode
    {
      FilterNodesIff(g.nodes, ids, n);
    }
    forall e | e in FocusedOf(g, ids).edges
      ensures e.from == focusNode && e.to == focusNode
    {
      FilterEdgesIff(g.edges, ids, e);
    }
  }

  /** The chain `A -> B -> C` of three classes. */
  function ChainGraph(): ReferenceGraph
  {
    ReferenceGraph(
      [GraphNode("A", "A", Class, "/test/A.java"), GraphNode("B", "B", Class, "/test/B.java"), GraphNode("C", "C", Class, "/test/C.java")],
      [GraphEdge("A", "B", Uses), GraphEdge("B", "C", Uses)])
  }

  /** On the chain, depth 1 from `A` as written keeps one node and no edge. */
  lemma ChainDepthOneAsWritten(ids: set<string>)
    requires ids <= Within(ChainGraph().edges, "A", 0)
    ensures |FocusedOf(ChainGraph(), ids).nodes| <= 1 && FocusedOf(ChainGraph(), ids).edges == []
  {
    var g := ChainGraph();
    assert ids <= {"A"};
    assert "B" !in ids && "C" !in ids;
    assert g.nodes[..2][..1] == g.nodes[..1] && g.nodes[..1][..0] == [];
    assert FilterNodes(g.nodes, ids) == FilterNodes(g.nodes[..1], ids);
    assert g.edges[..1][..0] == [];
    assert FilterEdges(g.edges, ids) == [];
  }

  /** The neighbourhood the depth is evidently meant to select: every id
      within `depth` steps of the focus. */
  function FocusedWithin(g: ReferenceGraph, focusNode: string, depth: nat): ReferenceGraph
  {
    FocusedOf(g, Within(g.edges, focusNode, depth))
  }

  /** Depth `d` reaches every neighbour of the focus once `d >= 1`, and
      every neighbour of a node it reaches with depth to spare. */
  lemma FocusedWithinReaches(edges: seq<GraphEdge>, focusNode: string, d: nat, k: nat)
    requires d >= 1 && k < |edges| && (edges[k].from == focusNode || edges[k].to == focusNode)
    ensures edges[k].from in Within(edges, focusNode, d) && edges[k].to in Within(edges, focusNode, d)
  {
    NbrsOf(edges, focusNode, k);
    var z := if edges[k].from == focusNode then edges[k].to else edges[k].from;
    assert z in Within(edges, z, d - 1);
  }

  /** On the chain, depth 1 from `A` keeps `A` and `B` and the edge between. */
  lemma ChainDepthOneIntended()
    ensures |FocusedWithin(ChainGraph(), "A", 1).nodes| == 2
    ensures |FocusedWithin(ChainGraph(), "A", 1).edges| == 1
  {
    var g := ChainGraph();
    var es := g.edges;
    assert Nbrs(es, "A") == {"B"} by {
      NbrsOf(es, "A", 0);
      forall y | y in Nbrs(es, "A")
        ensures y == "B"
      {
        var k :| 0 <= k < |es| && (es[k].from == "A" || es[k].to == "A") && y == (if es[k].from == "A" then es[k].to else es[k].from);
        assert k == 0;
      }
    }
    assert Within(es, "B", 0) == {"B"};
    var w := Within(es, "A", 1);
    assert w == {"A", "B"};
    assert "C" !in w;
    assert g.nodes[..2][..1] == g.nodes[..1] && g.nodes[..1][..0] == [];
    assert FilterNodes(g.nodes[..1], w) == [g.nodes[0]];
    assert FilterNodes(g.nodes[..2], w) == [g.nodes[0], g.nodes[1]];
    assert FilterNodes(g.nodes, w) == [g.nodes[0], g.nodes[1]];
    assert es[..1][..0] == [];
    assert FilterEdges(es, w) == [es[0]];
  }

  // ---------------------------------------------------------------------
  // generate_dependency_matrix

  function NodeIds(nodes: seq<GraphNode>): (r: seq<string>)
    ensures |r| == |nodes|
  {
    if nodes == [] then [] else NodeIds(nodes[..|nodes| - 1]) + [nodes[|nodes| - 1].id]
  }

  /** The id-to-index map collected from the enumeration: a later index
      replaces an earlier one for a repeated id. */
  function NodeIndex(ids: seq<string>): map<string, nat>
  {
    if ids == [] then map[] else NodeIndex(ids[..|ids| - 1])[ids[|ids| - 1] := |ids| - 1]
  }

  /** Every index the map holds is a position of `ids`. */
  lemma {:induction false} NodeIndexBound(ids: seq<string>)
    ensures forall x :: x in NodeIndex(ids) ==> NodeIndex(ids)[x] < |ids|
  {
    if ids != [] {
      NodeIndexBound(ids[..|ids| - 1]);
    }
  }

  /** Every id has an index, every index points back at its id, and
      without repeats each id maps to its own position. */
  lemma NodeIndexFacts(ids: seq<string>)
    ensures NodeIndex(ids).Keys == Elements(ids)
    ensures forall x :: x in NodeIndex(ids) ==> NodeIndex(ids)[x] < |ids| && ids[NodeIndex(ids)[x]] == x
    ensures Distinct(ids) ==> forall i :: 0 <= i < |ids| ==> NodeIndex(ids)[ids[i]] == i
  {
    NodeIndexKeys(ids);
    NodeIndexPoints(ids);
    if Distinct(ids) {
      NodeIndexDistinct(ids);
    }
  }

  /** The ids with an index are exactly the ids listed. */
  lemma {:induction false} NodeIndexKeys(ids: seq<string>)
    ensures NodeIndex(ids).Keys == Elements(ids)
  {
    if ids != [] {
      var init := ids[..|ids| - 1];
      NodeIndexKeys(init);
      ElementsSnoc(init, ids[|ids| - 1]);
      assert init + [ids[|ids| - 1]] == ids;
    }
  }

  /** Every index points back at its id. */
  lemma {:induction false} NodeIndexPoints(ids: seq<string>)
    ensures forall x :: x in NodeIndex(ids) ==> NodeIndex(ids)[x] < |ids| && ids[NodeIndex(ids)[x]] == x
  {
    if ids != [] {
      var init := ids[..|ids| - 1];
      var last := ids[|ids| - 1];
      var m := NodeIndex(init);
      NodeIndexPoints(init);
      assert NodeIndex(ids) == m[last := |ids| - 1];
      forall x | x in NodeIndex(ids)
        ensures NodeIndex(ids)[x] < |ids| && ids[NodeIndex(ids)[x]] == x
      {
        if x != last {
          assert init[m[x]] == ids[m[x]];
        }
      }
    }
  }

  /** Without repeats each id maps to its own position. */
  lemma {:induction false} NodeIndexDistinct(ids: seq<string>)
    requires Distinct(ids)
    ensures forall i :: 0 <= i < |ids| ==> ids[i] in NodeIndex(ids) && NodeIndex(ids)[ids[i]] == i
  {
    if ids != [] {
      var init := ids[..|ids| - 1];
      var last := ids[|ids| - 1];
      var m := NodeIndex(init);
      assert Distinct(init);
      NodeIndexDistinct(init);
      assert NodeIndex(ids) == m[last := |ids| - 1];
      forall i | 0 <= i < |ids|
        ensures ids[i] in NodeIndex(ids) && NodeIndex(ids)[ids[i]] == i
      {
        if i < |init| {
          assert init[i] == ids[i] && ids[i] != last;
        }
      }
    }
  }

  /** Cell `(i, j)` is set by some edge whose ends index to `i` and `j`. */
  function Marked(edges: seq<GraphEdge>, index: map<string, nat>, i: nat, j: nat): bool
  {
    if edges == [] then false
    else
      var e := edges[|edges| - 1];
      Marked(edges[..|edges| - 1], index, i, j) || (e.from in index && e.to in index && index[e.from] == i && index[e.to] == j)
  }

  lemma {:induction false} MarkedIff(edges: seq<GraphEdge>, index: map<string, nat>, i: nat, j: nat)
    ensures Marked(edges, index, i, j) <==>
      exists k :: 0 <= k < |edges| && edges[k].from in index && edges[k].to in index && index[edges[k].from] == i && index[edges[k].to] == j
  {
    if edges != [] {
      var init := edges[..|edges| - 1];
      MarkedIff(init, index, i, j);
      assert forall k :: 0 <= k < |init| ==> init[k] == edges[k];
    }
  }

  /** With distinct node ids, cell `(i, j)` is set exactly when some edge
      runs from the `i`-th id to the `j`-th; edges to unknown ids are ignored. */
  lemma MatrixCellMeansEdge(edges: seq<GraphEdge>, ids: seq<string>, i: nat, j: nat)
    requires Distinct(ids) && i < |ids| && j < |ids|
    ensures Marked(edges, NodeIndex(ids), i, j) <==> exists k :: 0 <= k < |edges| && edges[k].from == ids[i] && edges[k].to == ids[j]
  {
    NodeIndexFacts(ids);
    MarkedIff(edges, NodeIndex(ids), i, j);
    var index := NodeIndex(ids);
    if exists k :: 0 <= k < |edges| && edges[k].from == ids[i] && edges[k].to == ids[j] {
      var k :| 0 <= k < |edges| && edges[k].from == ids[i] && edges[k].to == ids[j];
      assert ids[i] in Elements(ids) && ids[j] in Elements(ids);
      assert edges[k].from in index && index[edges[k].from] == i;
    }
  }

  /** The sorted ids are the node ids, each as often as it occurs, in
      ascending order. */
  lemma MatrixIdsSorted(nodes: seq<GraphNode>)
    ensures SortedBy(SortBy(NodeIds(nodes), LexLe), LexLe)
    ensures multiset(SortBy(NodeIds(nodes), LexLe)) == multiset(NodeIds(nodes))
  {
    LexTotalPreorder();
    SortSorted(NodeIds(nodes), LexLe);
    SortPermutes(NodeIds(nodes), LexLe);
  }

  lemma LexTotalPreorder()
    ensures TotalPreorder(LexLe)
  {
    forall a, b
      ensures LexLe(a, b) || LexLe(b, a)
    {
      LexLeTotal(a, b);
    }
    forall a, b, c | LexLe(a, b) && LexLe(b, c)
      ensures LexLe(a, c)
    {
      LexLeTransitive(a, b, c);
    }
  }

  /** `generate_dependency_matrix`: the ids sorted, and an `n` by `n`
      matrix with a cell set for each edge between known ids. */
  method GenerateDependencyMatrix(g: ReferenceGraph) returns (nodeIds: seq<string>, matrix: array2<bool>)
    ensures fresh(matrix)
    ensures nodeIds == SortBy(NodeIds(g.nodes), LexLe)
    ensures matrix.Length0 == |nodeIds| && matrix.Length1 == |nodeIds|
    ensures forall i, j :: 0 <= i < |nodeIds| && 0 <= j < |nodeIds| ==> matrix[i, j] == Marked(g.edges, NodeIndex(nodeIds), i, j)
  {
    nodeIds := SortBy(NodeIds(g.nodes), LexLe);
    var n := |nodeIds|;
    matrix := new bool[n, n]((i, j) => false);
    var nodeIndex := NodeIndex(nodeIds);
    NodeIndexBound(nodeIds);
    for k := 0 to |g.edges|
      invariant forall i, j :: 0 <= i < n && 0 <= j < n ==> matrix[i, j] == Marked(g.edges[..k], nodeIndex, i, j)
    {
      assert g.edges[..k + 1][..k] == g.edges[..k];
      var edge := g.edges[k];
      if edge.from in nodeIndex && edge.to in nodeIndex {
        matrix[nodeIndex[edge.from], nodeIndex[edge.to]] := true;
      }
    }
    assert g.edges[..|g.edges|] == g.edges;
  }

  // ---------------------------------------------------------------------
  // generate_summary, count_isolated_nodes

  datatype GraphSummary = GraphSummary(
    totalNodes: nat,
    totalEdges: nat,
    nodeCounts: map<DeclarationKind, nat>,
    relationshipCounts: map<RelationshipType, nat>,
    isolatedNodes: nat,
    stronglyConnectedComponents: nat)

  /** `*map.entry(x).or_insert(0) += 1` over a sequence. */
  function Tally<K>(xs: seq<K>): map<K, nat>
  {
    if xs == [] then map[]
    else
      var m := Tally(xs[..|xs| - 1]);
      var x := xs[|xs| - 1];
      m[x := (if x in m then m[x] else 0) + 1]
  }

  /** A key is present exactly when it occurs, with its number of occurrences. */
  lemma {:induction false} TallyCounts<K>(xs: seq<K>, k: K)
    ensures k in Tally(xs) <==> k in xs
    ensures k in Tally(xs) ==> Tally(xs)[k] == multiset(xs)[k]
  {
    if xs != [] {
      var init := xs[..|xs| - 1];
      TallyCounts(init, k);
      assert xs == init + [xs[|xs| - 1]];
    }
  }

  function Count<K>(m: map<K, nat>, k: K): nat
  {
    if k in m then m[k] else 0
  }

  /** Appending `x` adds one to its count and leaves the others alone. */
  lemma TallySnoc<K>(xs: seq<K>, x: K)
    ensures Tally(xs + [x]) == Tally(xs)[x := (if x in Tally(xs) then Tally(xs)[x] else 0) + 1]
  {
    assert (xs + [x])[..|xs|] == xs;
  }

  lemma TallyStep<K>(xs: seq<K>, x: K)
    ensures Count(Tally(xs + [x]), x) == Count(Tally(xs), x) + 1
    ensures forall k :: k != x ==> Count(Tally(xs + [x]), k) == Count(Tally(xs), k)
  {
    assert (xs + [x])[..|xs|] == xs;
  }

  function KindsOf(nodes: seq<GraphNode>): (r: seq<DeclarationKind>)
    ensures |r| == |nodes|
  {
    if nodes == [] then [] else KindsOf(nodes[..|nodes| - 1]) + [nodes[|nodes| - 1].kind]
  }

  function RelationshipsOf(edges: seq<GraphEdge>): (r: seq<RelationshipType>)
    ensures |r| == |edges|
  {
    if edges == [] then [] else RelationshipsOf(edges[..|edges| - 1]) + [edges[|edges| - 1].relationship]
  }

  lemma KindsOfStep(nodes: seq<GraphNode>, k: nat)
    requires k < |nodes|
    ensures KindsOf(nodes[..k + 1]) == KindsOf(nodes[..k]) + [nodes[k].kind]
  {
    assert nodes[..k + 1][..k] == nodes[..k];
  }

  lemma RelationshipsOfStep(edges: seq<GraphEdge>, k: nat)
    requires k < |edges|
    ensures RelationshipsOf(edges[..k + 1]) == RelationshipsOf(edges[..k]) + [edges[k].relationship]
  {
    assert edges[..k + 1][..k] == edges[..k];
  }

  /** The per-kind counts add up to the number of nodes. */
  lemma {:induction false} KindCountsSum(xs: seq<DeclarationKind>)
    ensures var m := Tally(xs);
      Count(m, Class) + Count(m, Interface) + Count(m, Enum) + Count(m, Record) + Count(m, AnnotationType) == |xs|
  {
    if xs != [] {
      var init := xs[..|xs| - 1];
      KindCountsSum(init);
      TallyStep(init, xs[|xs| - 1]);
      assert init + [xs[|xs| - 1]] == xs;
      match xs[|xs| - 1]
      case Class =>
      case Interface =>
      case Enum =>
      case Record =>
      case AnnotationType =>
    }
  }

  /** The per-relationship counts add up to the number of edges. */
  lemma {:induction false} RelationshipCountsSum(xs: seq<RelationshipType>)
    ensures var m := Tally(xs);
      Count(m, Extends) + Count(m, Implements) + Count(m, Uses) + Count(m, References) + Count(m, DependsOn) == |xs|
  {
    if xs != [] {
      var init := xs[..|xs| - 1];
      RelationshipCountsSum(init);
      TallyStep(init, xs[|xs| - 1]);
      assert init + [xs[|xs| - 1]] == xs;
      match xs[|xs| - 1]
      case Extends =>
      case Implements =>
      case Uses =>
      case References =>
      case DependsOn =>
    }
  }

  /** Every id that ends an edge. */
  function Endpoints(edges: seq<GraphEdge>): set<string>
  {
    if edges == [] then {} else Endpoints(edges[..|edges| - 1]) + {edges[|edges| - 1].from, edges[|edges| - 1].to}
  }

  /** The nodes whose id is not in `connected`. */
  function IsolatedCount(nodes: seq<GraphNode>, connected: set<string>): (r: nat)
    ensures r <= |nodes|
  {
    if nodes == [] then 0
    else IsolatedCount(nodes[..|nodes| - 1], connected) + (if nodes[|nodes| - 1].id in connected then 0 else 1)
  }

  /** An id is an endpoint exactly when some edge starts or ends there. */
  lemma {:induction false} EndpointsIff(edges: seq<GraphEdge>, x: string)
    ensures x in Endpoints(edges) <==> exists k :: 0 <= k < |edges| && (edges[k].from == x || edges[k].to == x)
  {
    if edges != [] {
      var init := edges[..|edges| - 1];
      EndpointsIff(init, x);
      assert forall k :: 0 <= k < |init| ==> init[k] == edges[k];
    }
  }

  /** Without edges every node is isolated; with a node on every edge, none is. */
  lemma {:induction false} IsolatedBounds(nodes: seq<GraphNode>, connected: set<string>)
    ensures connected == {} ==> IsolatedCount(nodes, connected) == |nodes|
    ensures (forall i :: 0 <= i < |nodes| ==> nodes[i].id in connected) ==> IsolatedCount(nodes, connected) == 0
  {
    if nodes != [] {
      IsolatedBounds(nodes[..|nodes| - 1], connected);
    }
  }

  /** `count_isolated_nodes`. */
  method CountIsolatedNodes(g: ReferenceGraph) returns (count: nat)
    ensures count == IsolatedCount(g.nodes, Endpoints(g.edges))
  {
    var connected: set<string> := {};
    for k := 0 to |g.edges|
      invariant connected == Endpoints(g.edges[..k])
    {
      assert g.edges[..k + 1][..k] == g.edges[..k];
      connected := connected + {g.edges[k].from};
      connected := connected + {g.edges[k].to};
    }
    assert g.edges[..|g.edges|] == g.edges;
    count := IsolatedCount(g.nodes, connected);
  }

  /** The node loop of `generate_summary`. */
  method CountKinds(nodes: seq<GraphNode>) returns (nodeCounts: map<DeclarationKind, nat>)
    ensures nodeCounts == Tally(KindsOf(nodes))
  {
    nodeCounts := map[];
    for k := 0 to |nodes|
      invariant nodeCounts == Tally(KindsOf(nodes[..k]))
    {
      var kind := nodes[k].kind;
      KindsOfStep(nodes, k);
      TallySnoc(KindsOf(nodes[..k]), kind);
      nodeCounts := nodeCounts[kind := (if kind in nodeCounts then nodeCounts[kind] else 0) + 1];
    }
    assert nodes[..|nodes|] == nodes;
  }

  /** The edge loop of `generate_summary`. */
  method CountRelationships(edges: seq<GraphEdge>) returns (relationshipCounts: map<RelationshipType, nat>)
    ensures relationshipCounts == Tally(RelationshipsOf(edges))
  {
    relationshipCounts := map[];
    for k := 0 to |edges|
      invariant relationshipCounts == Tally(RelationshipsOf(edges[..k]))
    {
      var relationship := edges[k].relationship;
      RelationshipsOfStep(edges, k);
      TallySnoc(RelationshipsOf(edges[..k]), relationship);
      relationshipCounts := relationshipCounts[relationship := (if relationship in relationshipCounts then relationshipCounts[relationship] else 0) + 1];
    }
    assert edges[..|edges|] == edges;
  }

  /** `generate_summary`; the strongly connected component count is a
      constant 0. */
  method GenerateSummary(g: ReferenceGraph) returns (summary: GraphSummary)
    ensures summary.totalNodes == |g.nodes| && summary.totalEdges == |g.edges|
    ensures summary.nodeCounts == Tally(KindsOf(g.nodes))
    ensures summary.relationshipCounts == Tally(RelationshipsOf(g.edges))
    ensures summary.isolatedNodes == IsolatedCount(g.nodes, Endpoints(g.edges))
    ensures summary.stronglyConnectedComponents == 0
  {
    var nodeCounts := CountKinds(g.nodes);
    var relationshipCounts := CountRelationships(g.edges);
    var isolated := CountIsolatedNodes(g);
    summary := GraphSummary(|g.nodes|, |g.edges|, nodeCounts, relationshipCounts, isolated, 0);
  }
}
