/**
 * Connection admission (`onConnect`): a node may have at most one outgoing edge, and an
 * admitted edge is drawn as the custom edge exactly when it is the first edge into its
 * target.
 */
module Admission {
  import opened Graph

  /** `Array.prototype.some` over the edge list: scans from the front and stops at a hit. */
  function AnyEdge(edges: seq<Edge>, p: Edge -> bool): (b: bool)
    ensures b <==> exists i :: 0 <= i < |edges| && p(edges[i])
  {
    if edges == [] then false
    else if p(edges[0]) then true
    else AnyEdge(edges[1..], p)
  }

  predicate HasOutgoing(edges: seq<Edge>, id: string) {
    exists i :: 0 <= i < |edges| && edges[i].source == id
  }

  predicate HasIncoming(edges: seq<Edge>, id: string) {
    exists i :: 0 <= i < |edges| && edges[i].target == id
  }

  /** What a connection attempt comes to; the first case is the alert shown to the user. */
  datatype ConnectOutcome = SourceAlreadyConnected | Added(edge: Edge)

  /** The admission decision and, when admitted, the edge to add. */
  function Admit(edges: seq<Edge>, c: Connection): (r: ConnectOutcome)
    ensures r == SourceAlreadyConnected <==> HasOutgoing(edges, c.source)
    ensures r.Added? ==> r.edge.source == c.source && r.edge.target == c.target
    ensures r.Added? ==> (r.edge.edgeType == DefaultEdge <==> HasIncoming(edges, c.target))
  {
    if AnyEdge(edges, (e: Edge) => e.source == c.source) then SourceAlreadyConnected
    else if AnyEdge(edges, (e: Edge) => e.target == c.target) then Added(Edge(c.source, c.target, DefaultEdge))
    else Added(Edge(c.source, c.target, CustomEdge))
  }

  /** The edge list after a connection attempt; `addEdge` appends. */
  function ConnectEdges(edges: seq<Edge>, c: Connection): (r: seq<Edge>)
    ensures HasOutgoing(edges, c.source) ==> r == edges
    ensures !HasOutgoing(edges, c.source) ==>
      |r| == |edges| + 1 && r[..|edges|] == edges && r[|edges|] == Admit(edges, c).edge
  {
    match Admit(edges, c)
    case SourceAlreadyConnected => edges
    case Added(e) => edges + [e]
  }

  /** A source that already has an outgoing edge leaves the list as it was. */
  lemma RejectedKeepsEdges(edges: seq<Edge>, c: Connection)
    requires exists i :: 0 <= i < |edges| && edges[i].source == c.source
    ensures ConnectEdges(edges, c) == edges
  {
  }

  /** Otherwise exactly one edge with the given ends is added after all existing ones. */
  lemma AdmittedAppendsOne(edges: seq<Edge>, c: Connection)
    requires forall i :: 0 <= i < |edges| ==> edges[i].source != c.source
    ensures var r := ConnectEdges(edges, c);
      && |r| == |edges| + 1
      && r[..|edges|] == edges
      && r[|edges|].source == c.source && r[|edges|].target == c.target
  {
    assert !HasOutgoing(edges, c.source);
  }

  /** The edge type is chosen by whether the target already had an incoming edge. */
  lemma AdmittedEdgeType(edges: seq<Edge>, c: Connection)
    requires !HasOutgoing(edges, c.source)
    ensures var r := ConnectEdges(edges, c);
      |r| == |edges| + 1 &&
      r[|edges|].edgeType == (if HasIncoming(edges, c.target) then DefaultEdge else CustomEdge)
  {
  }

  /** Single outgoing edge per node: connecting never makes two edges share a source. */
  lemma ConnectKeepsSourcesDistinct(edges: seq<Edge>, c: Connection)
    requires SourcesDistinct(edges)
    ensures SourcesDistinct(ConnectEdges(edges, c))
  {
    var r := ConnectEdges(edges, c);
    if r != edges {
      forall i, j | 0 <= i < j < |r| ensures r[i].source != r[j].source {
        if j == |edges| {
          assert edges[i].source != c.source;
        }
      }
    }
  }
}
