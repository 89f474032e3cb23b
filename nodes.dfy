/**
 * Operations on the node list: creating a dropped node (`onDrop`) and rewriting the
 * message of the node under edit (`updateSelectedNode`).
 */
module Nodes {
  import opened Wrappers
  import opened Graph
  import opened NodeIds

  /** The value `useRef(1)` gives the id counter when the builder is mounted. */
  const InitialCounter: nat := 1

  /**
   * The node `onDrop` creates for a dropped element of type `kind` with counter value
   * `k`: id `node_<k>`, default message "<kind> node_<k>".
   */
  function NewNode(kind: string, k: nat, position: Position): (r: Node)
    ensures r.id == NodeId(k) && ParseNodeId(r.id) == Some(k)
    ensures r.kind == kind && r.position == position && r.data.value == kind + " " + r.id
    ensures r.sourcePosition == Right && r.targetPosition == Left
  {
    ParseNodeIdRoundTrip(k);
    var nid := NodeId(k);
    Node(nid, kind, position, Right, Left, NodeData(kind + " " + nid))
  }

  /** No node carries an id the counter has yet to allocate, i.e. `node_<k>` with `k >= c`. */
  ghost predicate IdsBelow(nodes: seq<Node>, c: nat) {
    forall i, k: nat :: 0 <= i < |nodes| && c <= k ==> nodes[i].id != NodeId(k)
  }

  /** The next allocated id is not in use. */
  lemma NextIdUnused(nodes: seq<Node>, c: nat)
    requires IdsBelow(nodes, c)
    ensures forall i :: 0 <= i < |nodes| ==> nodes[i].id != NodeId(c)
  {
  }

  /**
   * Dropping a node with the current counter and advancing the counter keeps the ids
   * pairwise distinct and keeps every id below the counter.
   */
  lemma AppendNewNodeFresh(nodes: seq<Node>, c: nat, kind: string, position: Position)
    requires IdsDistinct(nodes) && IdsBelow(nodes, c)
    ensures var r := nodes + [NewNode(kind, c, position)];
      IdsDistinct(r) && IdsBelow(r, c + 1)
  {
    var r := nodes + [NewNode(kind, c, position)];
    forall i, k: nat | 0 <= i < |r| && c + 1 <= k ensures r[i].id != NodeId(k) {
      if i == |nodes| {
        NodeIdInjective(c, k);
      }
    }
  }

  /** `{...node, data: {...node.data, value}}`. */
  function WithValue(n: Node, value: string): (r: Node)
    ensures r.data.value == value
    ensures r.id == n.id && r.kind == n.kind && r.position == n.position
    ensures r.sourcePosition == n.sourcePosition && r.targetPosition == n.targetPosition
  {
    n.(data := n.data.(value := value))
  }

  /**
   * `nodes.map(...)` of `updateSelectedNode`: every node whose id is `id` gets the new
   * message, every other node is returned as it was, and count and order are kept.
   */
  function SetValue(nodes: seq<Node>, id: string, value: string): (r: seq<Node>)
    ensures |r| == |nodes|
    ensures forall i :: 0 <= i < |nodes| && nodes[i].id == id ==> r[i] == WithValue(nodes[i], value)
    ensures forall i :: 0 <= i < |nodes| && nodes[i].id != id ==> r[i] == nodes[i]
  {
    if nodes == [] then []
    else
      var head := if nodes[0].id == id then WithValue(nodes[0], value) else nodes[0];
      [head] + SetValue(nodes[1..], id, value)
  }

  /** An edit changes no id, so the id invariants of the list survive it. */
  lemma SetValueKeepsIds(nodes: seq<Node>, id: string, value: string, c: nat)
    ensures var r := SetValue(nodes, id, value);
      (forall i :: 0 <= i < |r| ==> r[i].id == nodes[i].id)
      && (IdsDistinct(nodes) ==> IdsDistinct(r))
      && (IdsBelow(nodes, c) ==> IdsBelow(r, c))
  {
  }

  /**
   * The cached copy of the node under edit, edited the same way, is still an element of the
   * edited list: the editor and the canvas show the same message.
   */
  lemma SetValueKeepsSelectionInSync(nodes: seq<Node>, sel: Node, value: string)
    requires sel in nodes
    ensures WithValue(sel, value) in SetValue(nodes, sel.id, value)
  {
    var i :| 0 <= i < |nodes| && nodes[i] == sel;
    assert SetValue(nodes, sel.id, value)[i] == WithValue(sel, value);
  }

  /** With distinct ids, an edit of an id that is present changes exactly one position of the list. */
  lemma SetValueChangesOnlyThatNode(nodes: seq<Node>, i: nat, value: string)
    requires IdsDistinct(nodes) && i < |nodes|
    ensures var r := SetValue(nodes, nodes[i].id, value);
      r == nodes[i := WithValue(nodes[i], value)]
  {
  }

  /** An edit of an id that no node has changes nothing. */
  lemma SetValueAbsentIsIdentity(nodes: seq<Node>, id: string, value: string)
    requires forall i :: 0 <= i < |nodes| ==> nodes[i].id != id
    ensures SetValue(nodes, id, value) == nodes
  {
  }

  /** The largest counter value carried by an identifier `node_<digits>` in the list (0 if none). */
  function MaxAllocated(nodes: seq<Node>): (m: nat)
    ensures forall i :: 0 <= i < |nodes| && ParseNodeId(nodes[i].id).Some? ==>
      ParseNodeId(nodes[i].id).value <= m
    ensures m == 0 || exists i :: 0 <= i < |nodes| && ParseNodeId(nodes[i].id) == Some(m)
  {
    if nodes == [] then 0
    else
      var rest := MaxAllocated(nodes[1..]);
      match ParseNodeId(nodes[0].id)
      case Some(k) => if k > rest then k else rest
      case None => rest
  }

  /** A counter value that allocates no id already present in `nodes`. */
  function NextFreeCounter(nodes: seq<Node>): (c: nat)
    ensures c >= InitialCounter
    ensures IdsBelow(nodes, c)
  {
    ParseIdsBelow(nodes);
    MaxAllocated(nodes) + 1
  }

  lemma ParseIdsBelow(nodes: seq<Node>)
    ensures IdsBelow(nodes, MaxAllocated(nodes) + 1)
  {
    forall i, k: nat | 0 <= i < |nodes| && MaxAllocated(nodes) + 1 <= k
      ensures nodes[i].id != NodeId(k)
    {
      ParseNodeIdRoundTrip(k);
    }
  }
}
