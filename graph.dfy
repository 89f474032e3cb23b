/**
 * The records the flow builder keeps in its two lists: message nodes and the directed
 * edges between them, as React Flow represents them.
 */
module Graph {

  /** A canvas coordinate; only carried along, never inspected. */
  datatype Position = Position(x: real, y: real)

  /** The side of a node a handle sits on. */
  datatype Side = Left | Right

  /** The payload of a node: the message text shown and edited. */
  datatype NodeData = NodeData(value: string)

  /**
   * A node. `kind` is React Flow's `type` (today only "text"); new nodes have their
   * outgoing handle on the right and their incoming handle on the left.
   */
  datatype Node = Node(
    id: string,
    kind: string,
    position: Position,
    sourcePosition: Side,
    targetPosition: Side,
    data: NodeData)

  /** An edge without a `type` field is drawn as React Flow's default edge. */
  datatype EdgeType = DefaultEdge | CustomEdge

  datatype Edge = Edge(source: string, target: string, edgeType: EdgeType)

  /** The parameters of a connection attempt: the two node ids at its ends. */
  datatype Connection = Connection(source: string, target: string)

  /** The pair `{nodes, edges}` handed to persistence on save and read back on load. */
  datatype Snapshot = Snapshot(nodes: seq<Node>, edges: seq<Edge>)

  /** No two positions of the node list carry the same id. */
  predicate IdsDistinct(nodes: seq<Node>) {
    forall i, j :: 0 <= i < j < |nodes| ==> nodes[i].id != nodes[j].id
  }

  /** No two edges leave the same node. */
  predicate SourcesDistinct(edges: seq<Edge>) {
    forall i, j :: 0 <= i < j < |edges| ==> edges[i].source != edges[j].source
  }
}
