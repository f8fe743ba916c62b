/** An abstract concrete-syntax tree standing in for a tree-sitter tree: each
    node has a kind, a byte span, a row/column span, named fields pointing at
    some of its children, all its children (named and anonymous) in source
    order, and its preceding siblings (the nearest one last). */
module SyntaxTree {
  import opened Strings

  datatype Point = Point(row: nat, column: nat)

  /** The one-based line of a point; tree-sitter counts rows from zero. */
  function LineOf(p: Point): nat { p.row + 1 }

  /** The one-based column of a point; tree-sitter counts columns from zero. */
  function ColumnOf(p: Point): nat { p.column + 1 }

  datatype Node = Node(
    kind: string,
    startByte: nat,
    endByte: nat,
    startPosition: Point,
    endPosition: Point,
    fields: map<string, nat>,
    children: seq<Node>,
    prevSiblings: seq<Node>)

  /** `Node::child_by_field_name`: the child a field names, if the field is set. */
  function ChildByFieldName(n: Node, field: string): (r: Option<Node>)
    ensures r.Some? <==> field in n.fields && n.fields[field] < |n.children|
    ensures r.Some? ==> r.value in n.children && r.value == n.children[n.fields[field]]
  {
    if field in n.fields && n.fields[field] < |n.children| then Some(n.children[n.fields[field]]) else None
  }

  /** The node's byte span lies inside a source of length `len`. */
  predicate SpanWithin(n: Node, len: nat) {
    n.startByte <= n.endByte <= len
  }

  /** The source text a node covers; empty when its span is not inside the
      source (the guarded slice of `node_text`). */
  function Text(n: Node, src: string): (r: string)
    ensures SpanWithin(n, |src|) ==> r == src[n.startByte..n.endByte]
    ensures !SpanWithin(n, |src|) ==> r == ""
  {
    if SpanWithin(n, |src|) then src[n.startByte..n.endByte] else ""
  }
}
