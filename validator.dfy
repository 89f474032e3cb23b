/**
 * The save-time flow check (`validateFlow`): with more than one node, at most one node may
 * lack an incoming edge; and every node, a lone one included, must be an end of some edge.
 * Only a flow passing both checks is handed to persistence.
 */
module Validator {
  import opened Graph

  /** `new Set(edges.map(edge => edge.target))`. */
  function TargetIds(edges: seq<Edge>): (r: set<string>)
    ensures forall id :: id in r <==> exists k :: 0 <= k < |edges| && edges[k].target == id
  {
    set e | e in edges :: e.target
  }

  /** `new Set(edges.flatMap(edge => [edge.source, edge.target]))`. */
  function EndpointIds(edges: seq<Edge>): (r: set<string>)
    ensures forall id :: id in r <==>
      exists k :: 0 <= k < |edges| && (edges[k].source == id || edges[k].target == id)
  {
    (set e | e in edges :: e.source) + (set e | e in edges :: e.target)
  }

  /** `nodes.filter(node => !ids.has(node.id))`. */
  function Unlisted(nodes: seq<Node>, ids: set<string>): (r: seq<Node>)
    ensures |r| <= |nodes|
    ensures forall n :: n in r <==> n in nodes && n.id !in ids
  {
    if nodes == [] then []
    else if nodes[0].id in ids then Unlisted(nodes[1..], ids)
    else [nodes[0]] + Unlisted(nodes[1..], ids)
  }

  /** The filter is non-empty exactly when some position of the list holds an unlisted node. */
  lemma {:induction false} UnlistedNonEmpty(nodes: seq<Node>, ids: set<string>)
    ensures |Unlisted(nodes, ids)| > 0 <==> exists i :: 0 <= i < |nodes| && nodes[i].id !in ids
  {
    if nodes != [] {
      UnlistedNonEmpty(nodes[1..], ids);
      if nodes[0].id in ids {
        if exists i :: 0 <= i < |nodes| && nodes[i].id !in ids {
          var i :| 0 <= i < |nodes| && nodes[i].id !in ids;
          assert nodes[1..][i - 1] == nodes[i];
        }
      } else {
        assert nodes[0].id !in ids;
      }
    }
  }

  /** The filter has more than one element exactly when two positions hold unlisted nodes. */
  lemma UnlistedAtLeastTwo(nodes: seq<Node>, ids: set<string>)
    ensures |Unlisted(nodes, ids)| > 1 <==>
      exists i, j :: 0 <= i < j < |nodes| && nodes[i].id !in ids && nodes[j].id !in ids
  {
    if exists i, j :: 0 <= i < j < |nodes| && nodes[i].id !in ids && nodes[j].id !in ids {
      var i, j :| 0 <= i < j < |nodes| && nodes[i].id !in ids && nodes[j].id !in ids;
      TwoUnlistedCounted(nodes, ids, i, j);
    }
    if |Unlisted(nodes, ids)| > 1 {
      CountedTwoUnlisted(nodes, ids);
    }
  }

  lemma {:induction false} TwoUnlistedCounted(nodes: seq<Node>, ids: set<string>, i: nat, j: nat)
    requires i < j < |nodes| && nodes[i].id !in ids && nodes[j].id !in ids
    ensures |Unlisted(nodes, ids)| > 1
  {
    var tail := nodes[1..];
    assert tail[j - 1] == nodes[j];
    if i > 0 {
      assert tail[i - 1] == nodes[i];
      TwoUnlistedCounted(tail, ids, i - 1, j - 1);
    } else {
      UnlistedNonEmpty(tail, ids);
    }
  }

  lemma {:induction false} CountedTwoUnlisted(nodes: seq<Node>, ids: set<string>)
    requires |Unlisted(nodes, ids)| > 1
    ensures exists i, j :: 0 <= i < j < |nodes| && nodes[i].id !in ids && nodes[j].id !in ids
  {
    var tail := nodes[1..];
    if nodes[0].id in ids {
      CountedTwoUnlisted(tail, ids);
      var i, j :| 0 <= i < j < |tail| && tail[i].id !in ids && tail[j].id !in ids;
      assert nodes[i + 1] == tail[i] && nodes[j + 1] == tail[j];
    } else {
      UnlistedNonEmpty(tail, ids);
      var j :| 0 <= j < |tail| && tail[j].id !in ids;
      assert nodes[0].id !in ids && nodes[j + 1] == tail[j];
    }
  }

  /** A root of the flow: no edge leads into it. */
  predicate IsRoot(edges: seq<Edge>, id: string) {
    forall k :: 0 <= k < |edges| ==> edges[k].target != id
  }

  /** A node that is the source or the target of some edge. */
  predicate IsLinked(edges: seq<Edge>, id: string) {
    exists k :: 0 <= k < |edges| && (edges[k].source == id || edges[k].target == id)
  }

  /** No two positions of the node list hold roots. */
  predicate AtMostOneRoot(nodes: seq<Node>, edges: seq<Edge>) {
    forall i, j :: 0 <= i < j < |nodes| && IsRoot(edges, nodes[i].id) ==> !IsRoot(edges, nodes[j].id)
  }

  /** Every node is an end of some edge. */
  predicate AllLinked(nodes: seq<Node>, edges: seq<Edge>) {
    forall i :: 0 <= i < |nodes| ==> IsLinked(edges, nodes[i].id)
  }

  lemma RootIffUntargeted(edges: seq<Edge>, id: string)
    ensures IsRoot(edges, id) <==> id !in TargetIds(edges)
  {
    if !IsRoot(edges, id) {
      var k :| 0 <= k < |edges| && edges[k].target == id;
      assert edges[k] in edges;
    }
  }

  lemma LinkedIffEndpoint(edges: seq<Edge>, id: string)
    ensures IsLinked(edges, id) <==> id in EndpointIds(edges)
  {
    if IsLinked(edges, id) {
      var k :| 0 <= k < |edges| && (edges[k].source == id || edges[k].target == id);
      assert edges[k] in edges;
    }
  }

  /** The alerts `validateFlow` can show instead of saving. */
  datatype SaveError = MultipleRoots | DisconnectedNodes

  /** Either the snapshot handed to persistence, or why saving was refused. */
  datatype SaveOutcome = Rejected(error: SaveError) | Saved(snapshot: Snapshot)

  /**
   * The flow check. The root check comes first and applies only to more than one node;
   * the connectivity check applies to every list, and nothing is saved unless both pass.
   */
  function Validate(nodes: seq<Node>, edges: seq<Edge>): (r: SaveOutcome)
    ensures r == Rejected(MultipleRoots) <==> |nodes| > 1 && !AtMostOneRoot(nodes, edges)
    ensures r == Rejected(DisconnectedNodes) <==>
      (|nodes| <= 1 || AtMostOneRoot(nodes, edges)) && !AllLinked(nodes, edges)
    ensures r.Saved? <==>
      (|nodes| <= 1 || AtMostOneRoot(nodes, edges)) && AllLinked(nodes, edges)
    ensures r.Saved? ==> r.snapshot == Snapshot(nodes, edges)
  {
    var targets := TargetIds(edges);
    var linked := EndpointIds(edges);
    UnlistedAtLeastTwo(nodes, targets);
    UnlistedNonEmpty(nodes, linked);
    forall i | 0 <= i < |nodes| ensures IsRoot(edges, nodes[i].id) <==> nodes[i].id !in targets {
      RootIffUntargeted(edges, nodes[i].id);
    }
    forall i | 0 <= i < |nodes| ensures IsLinked(edges, nodes[i].id) <==> nodes[i].id in linked {
      LinkedIffEndpoint(edges, nodes[i].id);
    }
    if |nodes| > 1 && |Unlisted(nodes, targets)| > 1 then Rejected(MultipleRoots)
    else if |Unlisted(nodes, linked)| > 0 then Rejected(DisconnectedNodes)
    else Saved(Snapshot(nodes, edges))
  }

  /** Two roots among two or more nodes always block the save. */
  lemma TwoRootsBlockSave(nodes: seq<Node>, edges: seq<Edge>, i: nat, j: nat)
    requires i < j < |nodes|
    requires IsRoot(edges, nodes[i].id) && IsRoot(edges, nodes[j].id)
    ensures Validate(nodes, edges) == Rejected(MultipleRoots)
  {
  }

  /** A node that no edge touches always blocks the save. */
  lemma IsolatedNodeBlocksSave(nodes: seq<Node>, edges: seq<Edge>, i: nat)
    requires i < |nodes| && !IsLinked(edges, nodes[i].id)
    ensures Validate(nodes, edges).Rejected?
  {
  }

  /** Even a flow made of one node and no edges is refused. */
  lemma LoneNodeRejected(n: Node)
    ensures Validate([n], []) == Rejected(DisconnectedNodes)
  {
    assert !IsLinked([], n.id);
  }

  /**
   * A flow without any root is saved: two nodes connected both ways each have an incoming
   * edge, so the root check, which only counts roots, lets it through.
   */
  lemma CycleWithoutRootSaves(n1: Node, n2: Node)
    requires n1.id != n2.id
    ensures var edges := [Edge(n1.id, n2.id, CustomEdge), Edge(n2.id, n1.id, CustomEdge)];
      && !IsRoot(edges, n1.id) && !IsRoot(edges, n2.id)
      && Validate([n1, n2], edges) == Saved(Snapshot([n1, n2], edges))
  {
    var edges := [Edge(n1.id, n2.id, CustomEdge), Edge(n2.id, n1.id, CustomEdge)];
    assert edges[1].target == n1.id && edges[0].target == n2.id;
    assert IsLinked(edges, n1.id) && IsLinked(edges, n2.id);
  }

  /** Two nodes joined by one edge form a flow that is saved. */
  lemma ChainOfTwoSaves(n1: Node, n2: Node)
    requires n1.id != n2.id
    ensures var edges := [Edge(n1.id, n2.id, CustomEdge)];
      Validate([n1, n2], edges) == Saved(Snapshot([n1, n2], edges))
  {
    var edges := [Edge(n1.id, n2.id, CustomEdge)];
    assert edges[0].target == n2.id;
    assert IsLinked(edges, n1.id) && IsLinked(edges, n2.id);
  }

  /**
   * The flow check does not look at ids twice: a third node that repeats the first one's id
   * is linked and targeted whenever the first one is.
   */
  lemma CycleWithRepeatedIdSaves(n1: Node, n2: Node, n3: Node)
    requires n1.id != n2.id && n3.id == n1.id
    ensures var edges := [Edge(n1.id, n2.id, CustomEdge), Edge(n2.id, n1.id, CustomEdge)];
      Validate([n1, n2, n3], edges) == Saved(Snapshot([n1, n2, n3], edges))
  {
    var edges := [Edge(n1.id, n2.id, CustomEdge), Edge(n2.id, n1.id, CustomEdge)];
    assert edges[1].target == n1.id && edges[0].target == n2.id;
    assert IsLinked(edges, n1.id) && IsLinked(edges, n2.id);
  }
}
