/**
 * The flow builder component's state: the node and edge lists, the node under edit (a
 * cached copy, or none) and the id counter, with the event handlers that change them.
 */
module Builder {
  import opened Wrappers
  import opened Graph
  import opened NodeIds
  import opened Nodes
  import opened Admission
  import opened Validator

  class FlowBuilder {
    var nodes: seq<Node>
    var edges: seq<Edge>
    var selected: Option<Node>
    var idCounter: nat

    /**
     * What every handler keeps: no node has two outgoing edges, and the node under edit is,
     * as cached, an element of the node list.
     */
    ghost predicate Valid()
      reads this
    {
      && SourcesDistinct(edges)
      && (selected.Some? ==> selected.value in nodes)
    }

    /**
     * Node ids are distinct and none is an id the counter will still hand out. Every handler
     * keeps this, but the restore of a stored flow as written does not establish it.
     */
    ghost predicate IdsFresh()
      reads this
    {
      IdsDistinct(nodes) && IdsBelow(nodes, idCounter)
    }

    /** A freshly mounted builder with nothing stored. */
    constructor ()
      ensures Valid() && IdsFresh()
      ensures nodes == [] && edges == [] && selected == None && idCounter == InitialCounter
    {
      nodes := [];
      edges := [];
      selected := None;
      idCounter := InitialCounter;
    }

    /**
     * A builder mounted with a stored flow: the lists are replaced by the stored ones and
     * the counter keeps its initial value.
     */
    constructor Restore(stored: Snapshot)
      ensures nodes == stored.nodes && edges == stored.edges
      ensures selected == None && idCounter == InitialCounter
      ensures SourcesDistinct(stored.edges) ==> Valid()
    {
      nodes := stored.nodes;
      edges := stored.edges;
      selected := None;
      idCounter := InitialCounter;
    }

    /**
     * Restoring a stored flow and moving the counter past every id of the form
     * `node_<k>` in it, so later drops cannot reuse a stored id.
     */
    constructor RestoreResumingIds(stored: Snapshot)
      ensures nodes == stored.nodes && edges == stored.edges && selected == None
      ensures idCounter == NextFreeCounter(stored.nodes) && idCounter >= InitialCounter
      ensures SourcesDistinct(stored.edges) ==> Valid()
      ensures IdsDistinct(stored.nodes) ==> IdsFresh()
    {
      nodes := stored.nodes;
      edges := stored.edges;
      selected := None;
      idCounter := NextFreeCounter(stored.nodes);
    }

    /** `onConnect`: admit or refuse the connection; only the edge list may change. */
    method Connect(c: Connection) returns (outcome: ConnectOutcome)
      requires Valid()
      modifies this
      ensures Valid()
      ensures old(IdsFresh()) ==> IdsFresh()
      ensures outcome == Admit(old(edges), c)
      ensures edges == ConnectEdges(old(edges), c)
      ensures nodes == old(nodes) && selected == old(selected) && idCounter == old(idCounter)
    {
      ConnectKeepsSourcesDistinct(edges, c);
      outcome := Admit(edges, c);
      edges := ConnectEdges(edges, c);
    }

    /**
     * `onDrop`: an undefined or empty type does nothing; otherwise the node `node_<k>` of
     * that type, with `k` the counter, is appended and the counter advances. The new id
     * is in use by no earlier node.
     */
    method Drop(kind: Option<string>, position: Position)
      requires Valid()
      modifies this
      ensures Valid()
      ensures old(IdsFresh()) ==> IdsFresh()
      ensures edges == old(edges) && selected == old(selected)
      ensures (kind == None || kind == Some("")) ==>
        nodes == old(nodes) && idCounter == old(idCounter)
      ensures kind.Some? && kind.value != "" ==>
        && nodes == old(nodes) + [NewNode(kind.value, old(idCounter), position)]
        && idCounter == old(idCounter) + 1
      ensures kind.Some? && kind.value != "" && old(IdsFresh()) ==>
        forall i :: 0 <= i < |old(nodes)| ==> old(nodes)[i].id != NodeId(old(idCounter))
    {
      if kind == None || kind == Some("") {
        return;
      }
      if IdsFresh() {
        NextIdUnused(nodes, idCounter);
        AppendNewNodeFresh(nodes, idCounter, kind.value, position);
      }
      var nid := idCounter;
      idCounter := idCounter + 1;
      nodes := nodes + [NewNode(kind.value, nid, position)];
    }

    /** `onNodeClick`: the clicked node (one the canvas renders) becomes the node under edit. */
    method SelectNode(node: Node)
      requires Valid() && node in nodes
      modifies this
      ensures Valid()
      ensures IdsFresh() == old(IdsFresh())
      ensures selected == Some(node)
      ensures nodes == old(nodes) && edges == old(edges) && idCounter == old(idCounter)
    {
      selected := Some(node);
    }

    /** A click on the pane or on an edge, or cancelling the editor: nothing is under edit. */
    method ClearSelection()
      requires Valid()
      modifies this
      ensures Valid()
      ensures IdsFresh() == old(IdsFresh())
      ensures selected == None
      ensures nodes == old(nodes) && edges == old(edges) && idCounter == old(idCounter)
    {
      selected := None;
    }

    /**
     * `updateSelectedNode`: without a selection nothing happens; otherwise every node with
     * the selected id, and the cached copy, get the new message.
     */
    method UpdateSelectedNode(value: string)
      requires Valid()
      modifies this
      ensures Valid()
      ensures old(IdsFresh()) ==> IdsFresh()
      ensures edges == old(edges) && idCounter == old(idCounter)
      ensures old(selected) == None ==> nodes == old(nodes) && selected == None
      ensures old(selected).Some? ==>
        && nodes == SetValue(old(nodes), old(selected).value.id, value)
        && selected == Some(WithValue(old(selected).value, value))
    {
      if selected == None {
        return;
      }
      var sel := selected.value;
      SetValueKeepsIds(nodes, sel.id, value, idCounter);
      SetValueKeepsSelectionInSync(nodes, sel, value);
      nodes := SetValue(nodes, sel.id, value);
      selected := Some(WithValue(sel, value));
    }

    /**
     * `validateFlow` with `saveFlowToLocal`: the outcome of the flow check on the current
     * lists, carrying the unchanged pair `{nodes, edges}` when saving goes ahead.
     */
    method ValidateFlow() returns (outcome: SaveOutcome)
      ensures outcome == Validate(nodes, edges)
    {
      outcome := Validate(nodes, edges);
    }
  }

  /**
   * A fresh builder gets `node_1` and `node_2` by two drops, connects them and saves: the
   * flow passes `validateFlow`.
   */
  method SaveChainOfTwo(p: Position) returns (saved: Snapshot)
    ensures saved.nodes == [NewNode("text", 1, p), NewNode("text", 2, p)]
    ensures saved.edges == [Edge(NodeId(1), NodeId(2), CustomEdge)]
    ensures Validate(saved.nodes, saved.edges) == Saved(saved)
  {
    var n1, n2 := NewNode("text", 1, p), NewNode("text", 2, p);
    NodeIdInjective(1, 2);
    ChainOfTwoSaves(n1, n2);
    var a := new FlowBuilder();
    a.Drop(Some("text"), p);
    a.Drop(Some("text"), p);
    assert a.nodes == [n1, n2];
    var connected := a.Connect(Connection(n1.id, n2.id));
    assert a.edges == [Edge(n1.id, n2.id, CustomEdge)];
    var outcome := a.ValidateFlow();
    saved := outcome.snapshot;
  }

  /**
   * Restoring a stored flow leaves the counter at its initial value, so a builder restored
   * from the saved two-node flow gives its next dropped node the id `node_1` again.
   */
  method RestoreThenDropReusesId(p: Position) returns (saved: Snapshot, b: FlowBuilder)
    ensures Validate(saved.nodes, saved.edges) == Saved(saved)
    ensures saved.nodes == [NewNode("text", 1, p), NewNode("text", 2, p)]
    ensures saved.edges == [Edge(NodeId(1), NodeId(2), CustomEdge)]
    ensures b.nodes == saved.nodes + [NewNode("text", InitialCounter, p)]
    ensures b.nodes[0].id == b.nodes[2].id && !IdsDistinct(b.nodes)
    ensures fresh(b) && b.Valid() && b.edges == saved.edges && b.selected == None
  {
    saved := SaveChainOfTwo(p);
    b := new FlowBuilder.Restore(saved);
    b.Drop(Some("text"), p);
    assert b.nodes[0].id == b.nodes[2].id;
  }

  /**
   * The flow with the reused id can itself be saved: after the collision, connecting
   * `node_2` back to `node_1` gives a flow that passes `validateFlow` and holds two nodes
   * with the id `node_1`.
   */
  method DuplicateIdFlowSaves(p: Position) returns (outcome: SaveOutcome)
    ensures outcome.Saved? && !IdsDistinct(outcome.snapshot.nodes)
    ensures |outcome.snapshot.nodes| == 3
    ensures outcome.snapshot.nodes[0].id == outcome.snapshot.nodes[2].id == NodeId(1)
  {
    var saved, b := RestoreThenDropReusesId(p);
    var n1, n2, n3 := b.nodes[0], b.nodes[1], b.nodes[2];
    NodeIdInjective(1, 2);
    assert b.edges[0].source == n1.id;
    var connected := b.Connect(Connection(n2.id, n1.id));
    assert b.nodes == [n1, n2, n3];
    assert b.edges == [Edge(n1.id, n2.id, CustomEdge), Edge(n2.id, n1.id, CustomEdge)];
    CycleWithRepeatedIdSaves(n1, n2, n3);
    outcome := b.ValidateFlow();
  }

  /** After the corrected restore, the id the next drop allocates is in use by no stored node. */
  lemma RestoreResumingIdsAllocatesFresh(stored: seq<Node>)
    ensures forall i :: 0 <= i < |stored| ==> stored[i].id != NodeId(NextFreeCounter(stored))
  {
    NextIdUnused(stored, NextFreeCounter(stored));
  }

  /**
   * Save then restore, with the corrected restore: a flow that passes `validateFlow` comes back
   * with the same lists, nothing under edit, and both invariants.
   */
  method SaveThenRestore(b: FlowBuilder) returns (restored: FlowBuilder?)
    requires b.Valid() && b.IdsFresh()
    ensures restored != null ==> restored.nodes == b.nodes && restored.edges == b.edges
    ensures restored != null ==> restored.Valid() && restored.IdsFresh() && restored.selected == None
    ensures (restored == null) == Validate(b.nodes, b.edges).Rejected?
  {
    var outcome := b.ValidateFlow();
    if outcome.Rejected? {
      return null;
    }
    restored := new FlowBuilder.RestoreResumingIds(outcome.snapshot);
  }
}
