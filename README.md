# Chatbot flow builder: the flow-graph model

This project models the flow-graph logic of the chatbot flow builder (`src/components/FlowBuilder.js`).
A user drops message nodes onto a canvas and connects them with directed edges. The builder:

- admits or refuses each connection attempt (a node may have only one outgoing edge);
- picks the drawing style of each admitted edge (custom for the first edge into a target, default after that);
- gives each new node an id `node_<k>` from a counter and a default message;
- keeps one node under edit and writes edits both into the node list and into its cached copy;
- before a save, checks that, among two or more nodes, at most one has no incoming edge, and that no node is unconnected; only then does it hand `{nodes, edges}` to persistence. A flow in which every node has an incoming edge (a cycle) has no entry point at all and is still saved.

Modules, one per concern of that file:

- `Graph` (graph.dfy): node, edge, connection and snapshot records.
- `NodeIds` (node_ids.dfy): the `node_<k>` id format. It comes with a parser and a decimal round trip, so the model proves that different counter values give different ids.
- `Admission` (admission.dfy): the `onConnect` rule.
- `Nodes` (nodes.dfy): node creation for `onDrop` and the immutable `nodes.map` rewrite of `updateSelectedNode`.
- `Validator` (validator.dfy): `validateFlow`. It is stated against reference predicates (`IsRoot`, `IsLinked`) that do not go through the code's sets and filters.
- `Builder` (builder.dfy): the component state as a class with fields `nodes`, `edges`, `selected` and `idCounter`, plus one method per event handler. Two invariants hold:
  - `Valid()`: no node has two outgoing edges, and the cached node under edit is an element of the node list. A fresh builder establishes it, both restores establish it when the stored edges have distinct sources, and every handler keeps it.
  - `IdsFresh()`: node ids are distinct, and no node carries an id the counter has yet to hand out. A fresh builder establishes it, the corrected restore `RestoreResumingIds` establishes it when the stored node ids are distinct, and every handler keeps it. The restore effect as written (`Restore`) does not establish it; see "## Findings".

What the code does at the points where a reader might expect otherwise:

- Edges are React Flow's default edge or the `'custom-edge'` type.
- A new node's message is `"<type> node_<k>"`.
- An edit rewrites every node that carries the selected id.
- The file has no removal code. React Flow's own delete changes are not modelled (see "## Left out").
- The disconnected-node check fires for a single unconnected node too, including a lone node with no edges.

## Model

| member | source | states |
|---|---|---|
| Admission.AnyEdge | src/components/FlowBuilder.js:51-58 | `some` over the edge list is true exactly when some position satisfies the test |
| Admission.Admit | src/components/FlowBuilder.js:50-62 | refused exactly when an existing edge has the same source; an admitted edge has the proposed source and target and is a default edge exactly when some existing edge has the same target, otherwise the custom edge |
| Admission.ConnectEdges | src/components/FlowBuilder.js:51-62 | the list the updater returns: unchanged when the source already has an outgoing edge, otherwise the old list with the admitted edge appended |
| Admission.RejectedKeepsEdges | src/components/FlowBuilder.js:51-54 | a connection from an already-connected source leaves the edge list unchanged |
| Admission.AdmittedAppendsOne | src/components/FlowBuilder.js:59-62 | an admitted connection keeps every existing edge in place and adds exactly one edge, with the given ends, at the end |
| Admission.AdmittedEdgeType | src/components/FlowBuilder.js:56-62 | the added edge is the default edge if the target already had an incoming edge and the custom edge otherwise |
| Admission.ConnectKeepsSourcesDistinct | src/components/FlowBuilder.js:50-62 | if no two edges shared a source before a connection attempt, none do afterwards |
| NodeIds.Decimal | src/components/FlowBuilder.js:102 | the rendering of the counter is a non-empty digit string without a leading zero |
| NodeIds.DecimalRoundTrip | src/components/FlowBuilder.js:102 | reading the decimal rendering of a counter value gives that value back |
| NodeIds.ParseNodeIdRoundTrip | src/components/FlowBuilder.js:102 | the counter value can be read back from the id `node_<k>` |
| NodeIds.NodeIdInjective | src/components/FlowBuilder.js:102 | two counter values give the same id exactly when they are equal |
| NodeIds.NodeId | src/components/FlowBuilder.js:102 | the id `node_<k>`: the prefix followed by the decimal rendering of `k`; ParseNodeIdRoundTrip and NodeIdInjective state what it guarantees |
| Nodes.NewNode | src/components/FlowBuilder.js:102-113 | the dropped node's id is exactly `node_<k>` and carries the counter value back, its type and position are the dropped ones, its message is `"<type> <id>"`, and its handles are right (outgoing) and left (incoming) |
| Nodes.NextIdUnused | src/components/FlowBuilder.js:102 | when no node holds an id the counter has still to hand out, the next allocated id is used by no node |
| Nodes.AppendNewNodeFresh | src/components/FlowBuilder.js:102-114 | appending the new node and incrementing the counter keeps the ids pairwise distinct and all below the counter |
| Nodes.WithValue | src/components/FlowBuilder.js:138-144 | the spread update sets `data.value` and keeps id, type, position and handle sides |
| Nodes.SetValue | src/components/FlowBuilder.js:135-149 | same length and order; each node with the selected id gets the new value; every other node is returned unchanged |
| Nodes.SetValueKeepsIds | src/components/FlowBuilder.js:135-149 | an edit changes no id, so distinct ids and ids below the counter survive it |
| Nodes.SetValueKeepsSelectionInSync | src/components/FlowBuilder.js:135-158 | the cached node under edit, after the same edit, is still an element of the edited list |
| Nodes.SetValueChangesOnlyThatNode | src/components/FlowBuilder.js:136-148 | with distinct ids, editing a present id changes exactly that one position |
| Nodes.SetValueAbsentIsIdentity | src/components/FlowBuilder.js:136-148 | editing an id that no node has leaves the list as it was |
| Nodes.MaxAllocated | src/components/FlowBuilder.js:223-230 | part of the corrected restore (the code computes no maximum): the largest counter value carried by an id `node_<digits>` in the restored list, or 0 if none |
| Nodes.NextFreeCounter | src/components/FlowBuilder.js:223-230 | part of the corrected restore: a counter value, at least the initial one, that allocates no id present in the restored list |
| Nodes.ParseIdsBelow | src/components/FlowBuilder.js:223-230 | part of the corrected restore: no restored node holds an id `node_<k>` with `k` above the largest restored counter value |
| Validator.TargetIds | src/components/FlowBuilder.js:170 | the set holds exactly the ids that some edge targets |
| Validator.EndpointIds | src/components/FlowBuilder.js:185-187 | the set holds exactly the ids that are the source or the target of some edge |
| Validator.Unlisted | src/components/FlowBuilder.js:171-173 | the filter keeps exactly the nodes whose id is not in the given set |
| Validator.UnlistedNonEmpty | src/components/FlowBuilder.js:189-193 | the filter is non-empty exactly when some node's id is outside the set |
| Validator.UnlistedAtLeastTwo | src/components/FlowBuilder.js:171-175 | the filter has more than one element exactly when two positions hold nodes outside the set |
| Validator.TwoUnlistedCounted | src/components/FlowBuilder.js:171-175 | two positions outside the set make the filter longer than one |
| Validator.CountedTwoUnlisted | src/components/FlowBuilder.js:171-175 | a filter longer than one has come from two distinct positions outside the set |
| Validator.RootIffUntargeted | src/components/FlowBuilder.js:170-173 | a node has no incoming edge exactly when its id is not in the set of edge targets |
| Validator.LinkedIffEndpoint | src/components/FlowBuilder.js:185-191 | a node touches some edge exactly when its id is in the set of edge endpoints |
| Validator.Validate | src/components/FlowBuilder.js:166-204 | multiple roots are reported exactly when there is more than one node and two root positions; otherwise disconnected nodes are reported exactly when some node touches no edge; saving happens exactly when both checks pass, and the saved snapshot is `{nodes, edges}` unchanged |
| Validator.TwoRootsBlockSave | src/components/FlowBuilder.js:168-180 | two nodes with no incoming edge always make the save fail with multiple roots |
| Validator.IsolatedNodeBlocksSave | src/components/FlowBuilder.js:185-197 | a node that no edge touches always blocks the save |
| Validator.CycleWithoutRootSaves | src/components/FlowBuilder.js:168-199 | two nodes connected both ways have no root and the flow is still saved: the root check only counts roots |
| Validator.ChainOfTwoSaves | src/components/FlowBuilder.js:166-199 | two nodes joined by one edge are saved |
| Validator.CycleWithRepeatedIdSaves | src/components/FlowBuilder.js:166-199 | a two-node cycle plus a third node repeating the first one's id is saved: `validateFlow` does not look for repeated ids |
| Validator.LoneNodeRejected | src/components/FlowBuilder.js:193-196 | one node and no edges is refused as disconnected |
| Builder.FlowBuilder.constructor | src/components/FlowBuilder.js:29-39 | a mounted builder has empty lists, no selection and counter 1, and satisfies both invariants |
| Builder.FlowBuilder.Restore | src/components/FlowBuilder.js:223-230 | the restore effect replaces both lists by the stored ones, with nothing selected and the counter left at 1; `Valid()` holds when the stored edges have distinct sources, `IdsFresh()` is not claimed |
| Builder.FlowBuilder.RestoreResumingIds | src/components/FlowBuilder.js:223-230 | corrected restore: the same lists, with the counter moved past every stored id, so `IdsFresh()` holds whenever the stored ids are distinct |
| Builder.FlowBuilder.Connect | src/components/FlowBuilder.js:47-65 | the edge list becomes the admission result; nodes, selection and counter are unchanged; single outgoing edge per node and both invariants are kept |
| Builder.FlowBuilder.Drop | src/components/FlowBuilder.js:83-117 | an undefined or empty type changes nothing; otherwise the node `node_<k>` with message `"<type> node_<k>"` is appended, the counter goes up by one; when `IdsFresh()` held, the new id is used by no earlier node and `IdsFresh()` still holds |
| Builder.FlowBuilder.SelectNode | src/components/FlowBuilder.js:123 | the clicked node becomes the single node under edit; nothing else changes |
| Builder.FlowBuilder.ClearSelection | src/components/FlowBuilder.js:264-265 | a pane or edge click clears the selection; nothing else changes |
| Builder.FlowBuilder.UpdateSelectedNode | src/components/FlowBuilder.js:129-159 | no selection: nothing changes; otherwise the node list is the edit of the selected id, the cached copy holds the new value, and it is still an element of the list |
| Builder.FlowBuilder.ValidateFlow | src/components/FlowBuilder.js:166-206 | the save outcome is the flow check on the current lists, carrying `{nodes, edges}` unchanged when it saves |
| Builder.SaveChainOfTwo | src/components/FlowBuilder.js:83-206 | a fresh builder that drops two text nodes and connects the first to the second saves the flow `node_1 -> node_2` |
| Builder.RestoreThenDropReusesId | src/components/FlowBuilder.js:223-230 | as written: a fresh builder drops `node_1` and `node_2`, connects them and saves (the flow passes `validateFlow`); a builder restored from that snapshot gives its next dropped node the id `node_1`, so two nodes share an id |
| Builder.DuplicateIdFlowSaves | src/components/FlowBuilder.js:47-206 | as written: after the reused id, connecting `node_2` back to `node_1` gives a flow that passes `validateFlow` while two of its nodes share the id `node_1` |
| Builder.RestoreResumingIdsAllocatesFresh | src/components/FlowBuilder.js:223-230 | after the corrected restore, the next drop allocates an id no stored node has |
| Builder.SaveThenRestore | src/components/FlowBuilder.js:203-230 | a flow that passes `validateFlow`, restored from the saved snapshot with the corrected restore `RestoreResumingIds`, has the same nodes and edges, no selection, and satisfies both invariants |

## Findings

| source | as written | input that shows it | evidently intended | confidence | as-written member | corrected member |
|---|---|---|---|---|---|---|
| src/components/FlowBuilder.js:29 | the id counter is `useRef(1)`, and the restore effect at lines 223-230 replaces the lists without advancing it | save a flow that contains `node_1`, reload, drop a node: the new node is again `node_1` | ids are never reused while they are in the graph, so the counter should resume past the restored ids | high (not executed) | Builder.RestoreThenDropReusesId | Builder.FlowBuilder.RestoreResumingIds |

The edit handler keys on ids. So after this collision, one edit rewrites the message of both nodes called `node_1` (see `Nodes.SetValue`). The flow check does not look for repeated ids either. Connecting `node_2` back to `node_1` gives a flow that is saved with the duplicate in it (`Builder.DuplicateIdFlowSaves`).

## Left out

- Rendering, JSX, `ReactFlowProvider`, `Background`, `Controls`, the header and the sidebar components: presentation only.
- `onNodesChange` and `onEdgesChange` (lines 259-260; React Flow's own drag, select and delete changes): foreign library code. Because of this, neither position drift of the cached selected node nor node removal is modelled. React Flow's default Backspace key does delete a selected node and its edges, and afterwards `selectedNode` still names the deleted node. The model therefore does not capture that `Valid()`'s selection clause can be broken by a deletion.
- React Flow's `addEdge` is modelled as a plain append. Its own rejection of an identical connection cannot fire, since a second edge from the same source is refused earlier. The edge ids it generates are not modelled.
- `screenToFlowPosition` and the drop event plumbing. Position is an opaque pair of reals, and the dropped type is a parameter (`None` stands for `undefined`).
- `localStorage`, `JSON.stringify` and `JSON.parse`: platform I/O. A save yields the snapshot handed to persistence. A restore is the state effect of the load on mount (`setNodes`, `setEdges`). Malformed stored data is not modelled.
- The save animation flag and its 800 ms timer (lines 205 and 212-220): time-based UI state.
- The `alert` calls are modelled as the returned tags `SourceAlreadyConnected`, `MultipleRoots` and `DisconnectedNodes`.
- The `onClick` closure stored in node data (line 111): behaviour stored in data.
- Builder.FlowBuilder.Drop: the counter is an unbounded natural. The loss of precision of a JavaScript number past 2^53 is not modelled.
- Builder.FlowBuilder.SelectNode: requires the clicked node to be in the node list, which React Flow guarantees by only reporting clicks on rendered nodes. The extra fields React Flow adds to the node it passes are not modelled.
- Builder.FlowBuilder.Restore and Builder.FlowBuilder.RestoreResumingIds: they promise the invariants only when the stored lists have distinct edge sources (and, for `IdsFresh()`, distinct node ids). Everything `saveFlowToLocal` writes from a builder in that state has them. Stored data written by anything else is not modelled.
