# Node editor graph core in Dafny

This project models the graph-editing core of a visual node editor and proves properties of
it. The core has four layers:

- **NodeCollection.** An ordered set of node ids, kept twice: a sequence for insertion order
  and a set for membership.
- **NodeManager.** The graph store. It holds a table from node id to node, the connections
  from output slots to input slots, node groups, an id generator and an update mode. It
  enumerates dependents, reads and merges nodes, and evaluates. Node values are abstracted
  to each node's calculation status.
- **NodeUIManager.** The editing layer over the store. It keeps:
  - the selection;
  - two dirty flags (recalculate, redraw), which `UpdateInternal` drains in a fixed order;
  - the nodes and groups whose drawing was invalidated;
  - a log of the calls made into the copy-paste and undo handlers.
- **Commands.** The editing commands, each classified as undoable or not:
  - add a node and delete nodes;
  - move nodes;
  - connect and disconnect slots, one connection or all of a slot's connections;
  - copy and paste;
  - add a group, delete a group, take nodes out of their groups;
  - undo and redo.

Files:

- `ids.dfy`: node, slot and group identifiers, and sequence helpers. `Ordered` gives the
  iteration order of an unordered container; that order is unspecified.
- `geometry.dfy`: points, their sum, centroid and translation. It proves the re-centring
  lemma that paste relies on.
- `node_collection.dfy`: the `NodeCollection` class and the order-keeping removal functions.
- `graph.dfy`: graph values, plus three kinds of definition:
  - dependency: the transitive closure, acyclicity, and the preservation lemmas;
  - validity of a graph;
  - the node-table transformations: invalidation, evaluation, moving, detaching, stripping
    groups.
- `node_manager.dfy`: the `NodeManager` class. Its store is specified by pure functions
  (`ChosenId`, `AddToStore`, `ReadAll`, `FreshTable`).
- `node_ui_manager.dfy`: the `Status` flags, the `NodeUIManager` class and the merge event
  handler.
- `commands.dfy`: the command kinds, `IsUndoable`, and one `Do…` method per command.

Design decisions:

- **Dependency and cycles.** A node depends on every node that feeds one of its input
  slots. `DependentClosure` is the least closed set holding a node's direct dependents.
  - The store refuses a connection that would close a cycle, so `Acyclic` is an invariant
    of `NodeManager.Valid`.
  - Acyclicity is what makes the recursive drawing invalidation end. It has no visited
    set; its measure is the size of the closure, which shrinks strictly along each
    dependency (`ClosureShrinks`).
- **Handlers.** The copy-paste and undo handlers' bodies are outside this model. Their
  outcome enters as a parameter: the clipboard a paste delivers, or the graph an undo
  restores (`None` when the handler fails). Each call is appended to `handlerCalls`.
- **Clipboard.** A clipboard holds node records and links. A link joins two records by
  their positions, since the copied ids are not kept.
  - Pasting gives the records the generator's next ids. Each link becomes a connection
    between those ids (`Remapped`).
  - The clipboard is a copy of a valid subgraph. `PastableAt` states this: under the
    fresh ids, its records and links form a valid graph.
  - The pasted part is disjoint from the stored graph, so the union stays valid and acyclic
    (`DisjointUnionValid`).
- **Evaluation.** Evaluation is a status change. The nodes of the parameter `failing`
  cannot compute and become `NeedToCalculateButDisabled`.
- **Adding nodes.** An added node is stored with status `NeedToCalculate`. A node without
  an id gets the generator's next value. A node whose id is already stored is refused.
- **Paste with nothing new.** When a paste yields no new node, the source divides by zero
  to find the centre. No node is then moved, so the model leaves the offset at the origin
  and moves nothing.
- **GetLast.** `GetLast` of an empty collection is the null id.
- **Deleting a node.** `NodeUIManager.DeleteNode` first checks that the node is stored.
  After that check the store's delete cannot fail, so the source's "erased from the
  selection although the delete failed" path cannot be reached in the model.
- **Query forwarders.** The UI manager's query forwarders (`IsOutputSlotConnectedToInputSlot`,
  `HasConnected…`, `GetConnected…Count`, `EnumerateConnected…`) only delegate to the store,
  so they are modelled once, on `NodeManager`.

## Model

| member | source | states |
|---|---|---|
| NodeCollections.NodeCollection.constructor | Sources/NodeEngine/Headers/NE_NodeCollection.hpp:17 | a new collection is valid and empty |
| NodeCollections.NodeCollection.FromSet | Sources/NodeEngine/Headers/NE_NodeCollection.hpp:18 | holds exactly the given ids, each once |
| NodeCollections.NodeCollection.Copy | Sources/NodeUIEngine/NUIE_NodeUIManager.cpp:35 | a copy holds the same ids in the same order |
| NodeCollections.NodeCollection.IsEmpty | Sources/NodeEngine/Headers/NE_NodeCollection.hpp:21 | true iff Count is zero, iff no id is held |
| NodeCollections.NodeCollection.Contains | Sources/NodeEngine/Headers/NE_NodeCollection.hpp:22 | the set answers exactly for the ids in the ordered sequence |
| NodeCollections.NodeCollection.Count | Sources/NodeEngine/Headers/NE_NodeCollection.hpp:23 | the number of distinct ids held |
| NodeCollections.NodeCollection.GetLast | Sources/NodeEngine/Headers/NE_NodeCollection.hpp:24 | the last id in insertion order, held once; the null id when empty |
| NodeCollections.NodeCollection.Enumerate | Sources/NodeEngine/Headers/NE_NodeCollection.hpp:26 | visits a prefix in insertion order; every visit but the last returned true; stops early only after a false |
| NodeCollections.NodeCollection.Insert | Sources/NodeEngine/Headers/NE_NodeCollection.hpp:27 | appends a new id, leaves a present one (Count unchanged); Contains holds afterwards; the invariant is kept |
| NodeCollections.NodeCollection.Erase | Sources/NodeEngine/Headers/NE_NodeCollection.hpp:28 | removes exactly the id; the others keep their relative order; Contains is false afterwards |
| NodeCollections.NodeCollection.Clear | Sources/NodeEngine/Headers/NE_NodeCollection.hpp:29 | the collection is empty and valid |
| NodeCollections.NodeCollection.Equals | Sources/NodeEngine/Headers/NE_NodeCollection.hpp:31 | same ids in the same order; equal collections have the same count and members |
| NodeCollections.NodeCollection.NotEquals | Sources/NodeEngine/Headers/NE_NodeCollection.hpp:32 | exactly the negation of Equals |
| NodeCollections.NodeCollection.Assign | Sources/NodeUIEngine/NUIE_NodeUIManager.cpp:135-139 | the collection becomes a copy of the other one's ids and order |
| NodeCollections.Without | Sources/NodeEngine/Headers/NE_NodeCollection.hpp:28 | the elements are the old ones minus the id; the id no longer occurs |
| NodeCollections.WithoutAll | Sources/NodeEngine/Headers/NE_NodeCollection.hpp:28 | the elements are the old ones minus the removed set |
| NodeCollections.WithoutAt | Sources/NodeEngine/Headers/NE_NodeCollection.hpp:28 | in a duplicate-free sequence erasing cuts out exactly one position, the rest in order |
| NodeCollections.WithoutAbsent | Sources/NodeEngine/Headers/NE_NodeCollection.hpp:28 | erasing an absent id changes nothing |
| NodeCollections.WithoutDistinct | Sources/NodeEngine/Headers/NE_NodeCollection.hpp:38-39 | erasing keeps the sequence free of duplicates |
| NodeCollections.WithoutAllDistinct | Sources/NodeEngine/Headers/NE_NodeCollection.hpp:38-39 | erasing several ids keeps the sequence free of duplicates |
| NodeCollections.WithoutAllThenWithout | Sources/NodeUIEngine/NUIE_NodeUIManager.cpp:28-39 | erasing ids one at a time, as merge deletions do, equals erasing them all at once |
| Ids.Ordered | Sources/NodeEngine/Headers/NodeManager.hpp:101 | iterating an unordered container yields each element exactly once |
| Ids.DistinctCardinality | Sources/NodeEngine/Headers/NE_NodeCollection.hpp:23 | a duplicate-free sequence is as long as its set of elements |
| Geometry.Translate | Sources/NodeUIEngine/NUIE_NodeUIManagerCommands.cpp:178-181 | every point moves by the same offset |
| Geometry.SumTranslate | Sources/NodeUIEngine/NUIE_NodeUIManagerCommands.cpp:169-182 | moving n points by d moves their sum by n·d |
| Geometry.CentreStep | Sources/NodeUIEngine/NUIE_NodeUIManagerCommands.cpp:176-177 | the coordinate identity behind re-centring |
| Geometry.RecentredCentroid | Sources/NodeUIEngine/NUIE_NodeUIManagerCommands.cpp:169-182 | translating by target minus centroid puts the centroid on the target and keeps every pairwise offset |
| Graphs.ClosureLeast | Sources/NodeEngine/Headers/NodeManager.hpp:75 | the transitive dependents lie in every closed set holding the direct dependents |
| Graphs.ClosureClosedAbove | Sources/NodeEngine/Headers/NodeManager.hpp:75 | the transitive dependents contain the direct ones and are closed |
| Graphs.ClosureTransitive | Sources/NodeEngine/Headers/NodeManager.hpp:75 | a transitive dependent's own dependents are transitive dependents |
| Graphs.ClosureShrinks | Sources/NodeUIEngine/NUIE_NodeUIManager.cpp:305-314 | in an acyclic graph a direct dependent has strictly fewer transitive dependents, so the recursion ends |
| Graphs.ClosureMonotone | Sources/NodeEngine/Headers/NodeManager.hpp:51 | fewer connections give no more dependents |
| Graphs.AcyclicSubset | Sources/NodeEngine/Headers/NodeManager.hpp:51 | removing connections keeps the graph acyclic |
| Graphs.EmptyAcyclic | Sources/NodeEngine/Headers/NodeManager.hpp:38 | a graph without connections is acyclic |
| Graphs.DependentsAdd | Sources/NodeEngine/Headers/NodeManager.hpp:58 | a new connection adds exactly its input node to its output node's dependents |
| Graphs.ConnectKeepsAcyclic | Sources/NodeEngine/Headers/NodeManager.hpp:56 | a connection from a node that is not a dependent of the input's node keeps the graph acyclic |
| Graphs.ClosureSeparate | Sources/NodeUIEngine/NUIE_NodeUIManager.cpp:438-444 | connections that leave neither a node nor anything it feeds give it no new transitive dependent |
| Graphs.AcyclicDisjointUnion | Sources/NodeUIEngine/NUIE_NodeUIManager.cpp:438-444 | pasted connections among the new nodes, beside the old acyclic ones, keep the graph acyclic |
| Graphs.DisjointUnionValid | Sources/NodeUIEngine/NUIE_NodeUIManager.cpp:438-444 | a valid pasted graph on fresh nodes, beside a valid graph, gives a valid graph |
| Graphs.DownstreamOfDependents | Sources/NodeEngine/Headers/NodeManager.hpp:74-75 | the direct dependents with their transitive dependents are exactly the transitive dependents |
| Graphs.DownstreamAdd | Sources/NodeUIEngine/NUIE_NodeUIManager.cpp:514-516 | invalidating from one more start node adds that node and its dependents |
| Graphs.ReachAllDownstream | Sources/NodeUIEngine/NUIE_NodeUIManager.cpp:514-516 | invalidating from each node of a sequence in turn reaches exactly those nodes and their dependents |
| Graphs.ReachDependents | Sources/NodeUIEngine/NUIE_NodeUIManager.cpp:305-314 | recursing over the direct dependents of n reaches n's transitive dependents, and their groups |
| Graphs.DrawingStep | Sources/NodeUIEngine/NUIE_NodeUIManager.cpp:309-312 | one more dependent adds its own reach, for nodes and for groups |
| Graphs.Detached | Sources/NodeEngine/Headers/NodeManager.hpp:51 | the connections kept are exactly those touching none of the removed nodes |
| Graphs.DetachedTwice | Sources/NodeUIEngine/NUIE_NodeUIManagerCommands.cpp:56-63 | deleting nodes one at a time detaches the same connections as deleting them together |
| Graphs.DetachedAbsent | Sources/NodeUIEngine/NUIE_NodeUIManagerCommands.cpp:56-63 | in a valid graph, unknown nodes touch no connection |
| Graphs.Moved | Sources/NodeUIEngine/NUIE_NodeUIManagerCommands.cpp:72-81 | moving only changes positions; slots and keys stay the same |
| Graphs.MovedNone | Sources/NodeUIEngine/NUIE_NodeUIManagerCommands.cpp:72-81 | moving no node changes nothing |
| Graphs.MovedStep | Sources/NodeUIEngine/NUIE_NodeUIManagerCommands.cpp:74-79 | moving one more node extends the moved set |
| Graphs.MovedBack | Sources/NodeUIEngine/NUIE_NodeUIManagerCommands.cpp:72-81 | moving by an offset and then by its opposite restores the table |
| Graphs.MovedPositions | Sources/NodeUIEngine/NUIE_NodeUIManagerCommands.cpp:178-181 | the moved nodes' positions are their old positions translated by the offset |
| Graphs.SameShapesKeepValid | Sources/NodeEngine/Headers/NodeManager.hpp:101 | changing node positions or statuses keeps the graph valid |
| Graphs.Stripped | Sources/NodeUIEngine/NUIE_NodeUIManager.cpp:481-489 | every group loses the given nodes and nothing else; the groups themselves remain |
| Graphs.StrippedTwice | Sources/NodeUIEngine/NUIE_NodeUIManager.cpp:483-486 | ungrouping nodes one at a time equals ungrouping them together |
| Graphs.StrippedNone | Sources/NodeUIEngine/NUIE_NodeUIManager.cpp:481-489 | ungrouping no node changes nothing |
| Graphs.StrippedAbsent | Sources/NodeUIEngine/NUIE_NodeUIManagerCommands.cpp:58-61 | ungrouping a node that is not stored changes no group |
| Graphs.GroupsTouchingUnion | Sources/NodeUIEngine/NUIE_NodeUIManager.cpp:316-325 | the groups of a union of nodes are the union of their groups |
| Graphs.Positions | Sources/NodeUIEngine/NUIE_NodeUIManagerCommands.cpp:170-173 | one position per id, in order, read from the table |
| Graphs.Invalidated | Sources/NodeEngine/Headers/NodeManager.hpp:71 | the given nodes need calculation; positions and shapes stay; every other node is unchanged |
| Graphs.KeptOrInvalidatedStep | Sources/NodeUIEngine/NUIE_NodeUIManagerCommands.cpp:58-61 | deleting one more node and invalidating some nodes keeps every surviving node's slots and position, with a status unchanged or NeedToCalculate |
| Graphs.Evaluated | Sources/NodeEngine/Headers/NodeManager.hpp:70 | afterwards only failing nodes are stale, and they are disabled; positions and shapes stay; a normal pass leaves up-to-date nodes alone; a forced pass leaves exactly the stored failing nodes stale |
| NodeManagers.NeedToProcessNode | Sources/NodeEngine/Headers/NodeManager.hpp:17-27 | the all-nodes filter passes every id; an id-set filter passes exactly its ids |
| NodeManagers.ChosenId | Sources/NodeEngine/Headers/NodeManager.hpp:50 | null exactly when the node carries an id that is already stored; otherwise an id not yet stored |
| NodeManagers.AddToStore | Sources/NodeEngine/Headers/NodeManager.hpp:95 | a refused node leaves the store unchanged; an accepted one is stored under the chosen id; the generator never decreases |
| NodeManagers.ReadAll | Sources/NodeEngine/Headers/NodeManager.hpp:97 | reading keeps the store valid |
| NodeManagers.FreshTable | Sources/NodeEngine/Headers/NodeManager.hpp:100 | the k-th record is stored under the k-th generated id, and no other id is used |
| NodeManagers.Remapped | Sources/NodeUIEngine/NUIE_NodeUIManager.cpp:440 | each clipboard link becomes a connection between the ids its records receive; all ends lie at or above the generator, clear of the stored ids |
| NodeManagers.ReadAllGenerateNew | Sources/NodeEngine/Headers/NodeManager.hpp:89-97 | with generated ids every record is accepted; the new nodes take ids gen, gen+1, … and the generator advances by their number |
| NodeManagers.ReadAllKeep | Sources/NodeEngine/Headers/NodeManager.hpp:89-97 | keeping ids never loses a stored node; on success every record is stored under its own id; distinct fresh ids always succeed |
| NodeManagers.ReadAllKeepOnly | Sources/NodeEngine/Headers/NodeManager.hpp:89-97 | keeping ids, reading adds no id other than the records' own |
| NodeManagers.FedByMeans | Sources/NodeEngine/Headers/NodeManager.hpp:65-67 | the slots fed by an output are exactly those connected to it |
| NodeManagers.FeedingMeans | Sources/NodeEngine/Headers/NodeManager.hpp:66-68 | the slots feeding an input are exactly those connected to it |
| NodeManagers.FanInAfterAdd | Sources/NodeEngine/Headers/NodeManager.hpp:55 | a multiple-mode input, or an unfed single-mode one, may take one more connection |
| NodeManagers.TouchingSingleton | Sources/NodeUIEngine/NUIE_NodeUIManager.cpp:318 | a node's groups are exactly the groups that hold it |
| NodeManagers.InvalidatedTwice | Sources/NodeEngine/Headers/NodeManager.hpp:71 | invalidating two sets in turn invalidates their union |
| NodeManagers.InvalidatedDownstreamStep | Sources/NodeEngine/Headers/NodeManager.hpp:71 | invalidating from one more start node adds its reach |
| NodeManagers.NodeManager.constructor | Sources/NodeEngine/Headers/NodeManager.hpp:34 | a new store is valid and empty, in automatic mode |
| NodeManagers.NodeManager.Clear | Sources/NodeEngine/Headers/NodeManager.hpp:38 | no node, connection or group remains; the generator and the mode are kept |
| NodeManagers.NodeManager.IsEmpty | Sources/NodeEngine/Headers/NodeManager.hpp:39 | true iff the node count is zero, iff no id is contained |
| NodeManagers.NodeManager.GetNodeCount | Sources/NodeEngine/Headers/NodeManager.hpp:40 | the number of table entries; zero iff the table is empty |
| NodeManagers.NodeManager.GetConnectionCount | Sources/NodeEngine/Headers/NodeManager.hpp:41 | the number of connections; zero iff no slot pair is connected |
| NodeManagers.NodeManager.EnumerateNodes | Sources/NodeEngine/Headers/NodeManager.hpp:43-44 | visits stored ids once each; all but the last visit returned true; without a false from the processor every id is visited |
| NodeManagers.NodeManager.ContainsNode | Sources/NodeEngine/Headers/NodeManager.hpp:46 | answers by the table key; a contained id is never null and is below the generator |
| NodeManagers.NodeManager.GetNode | Sources/NodeEngine/Headers/NodeManager.hpp:47-49 | a node exactly for contained ids, namely the stored one |
| NodeManagers.NodeManager.AddNode | Sources/NodeEngine/Headers/NodeManager.hpp:50 | none exactly when the carried id is already stored, and then nothing changes; otherwise a new id holding the node (its own id when it has one) |
| NodeManagers.NodeManager.DeleteNode | Sources/NodeEngine/Headers/NodeManager.hpp:51-52 | refused iff not stored; removes the node, its connections and its group membership; the former dependents need recalculation |
| NodeManagers.NodeManager.CanConnectMoreOutputSlotToInputSlot | Sources/NodeEngine/Headers/NodeManager.hpp:55 | false for a missing slot; true for an existing multiple-mode input; a single-mode input accepts iff unfed; when true, fan-in still holds after one more connection |
| NodeManagers.NodeManager.CanConnectOutputSlotToInputSlot | Sources/NodeEngine/Headers/NodeManager.hpp:56 | true iff both slots exist, the pair is new, fan-in allows it and no cycle would form; then the graph with it is valid |
| NodeManagers.NodeManager.ConnectOutputSlotToInputSlot | Sources/NodeEngine/Headers/NodeManager.hpp:58 | succeeds iff connectable; afterwards the pair is connected iff it succeeded or was already connected; the input's node and its dependents need recalculation |
| NodeManagers.NodeManager.DisconnectOutputSlotFromInputSlot | Sources/NodeEngine/Headers/NodeManager.hpp:59 | succeeds iff the pair was connected; afterwards it is not; the other connections stay |
| NodeManagers.NodeManager.EnumerateConnections | Sources/NodeEngine/Headers/NodeManager.hpp:61-63 | every connection exactly once; as many as GetConnectionCount |
| NodeManagers.NodeManager.HasConnectedInputSlots | Sources/NodeEngine/Headers/NodeManager.hpp:65 | true iff some input slot is connected to the output |
| NodeManagers.NodeManager.HasConnectedOutputSlots | Sources/NodeEngine/Headers/NodeManager.hpp:66 | true iff some output slot is connected to the input |
| NodeManagers.NodeManager.EnumerateConnectedInputSlots | Sources/NodeEngine/Headers/NodeManager.hpp:67 | exactly the connected input slots, once each; non-empty iff HasConnectedInputSlots |
| NodeManagers.NodeManager.EnumerateConnectedOutputSlots | Sources/NodeEngine/Headers/NodeManager.hpp:68 | exactly the connected output slots, once each; non-empty iff HasConnectedOutputSlots |
| NodeManagers.NodeManager.GetConnectedInputSlotCount | Sources/NodeUIEngine/NUIE_NodeUIManager.cpp:195-198 | the number of fed input slots; zero iff none is connected |
| NodeManagers.NodeManager.GetConnectedOutputSlotCount | Sources/NodeUIEngine/NUIE_NodeUIManager.cpp:200-203 | the number of feeding output slots; zero iff none is connected |
| NodeManagers.NodeManager.EvaluateAllNodes | Sources/NodeEngine/Headers/NodeManager.hpp:70 | the table becomes its normal evaluation (see Evaluated); nothing else changes |
| NodeManagers.NodeManager.ForceEvaluateAllNodes | Sources/NodeUIEngine/NUIE_NodeUIManager.cpp:527 | the table becomes its forced evaluation; nothing else changes |
| NodeManagers.NodeManager.InvalidateNodeValue | Sources/NodeEngine/Headers/NodeManager.hpp:71-72 | the node and its transitive dependents need recalculation; nothing else changes |
| NodeManagers.NodeManager.InvalidateAll | Sources/NodeEngine/Headers/NodeManager.hpp:71 | invalidating each node of a set invalidates exactly their reach |
| NodeManagers.NodeManager.EnumerateDependentNodes | Sources/NodeEngine/Headers/NodeManager.hpp:74 | each direct dependent once: exactly the nodes an output of the node feeds |
| NodeManagers.NodeManager.EnumerateDependentNodesRecursive | Sources/NodeEngine/Headers/NodeManager.hpp:75 | each transitive dependent once, never the node itself |
| NodeManagers.NodeManager.DisconnectAllInputSlotsFromOutputSlot | Sources/NodeUIEngine/NUIE_NodeUIManager.cpp:171-176 | refused iff the output slot is unknown; removes exactly the connections leaving it; the fed nodes and their dependents need recalculation |
| NodeManagers.NodeManager.DisconnectAllOutputSlotsFromInputSlot | Sources/NodeUIEngine/NUIE_NodeUIManager.cpp:178-183 | refused iff the input slot is unknown; removes exactly the connections entering it; its node and dependents need recalculation |
| NodeManagers.NodeManager.SetNodePosition | Sources/NodeUIEngine/NUIE_NodeUIManagerCommands.cpp:76 | only that node's position changes |
| NodeManagers.NodeManager.SetUpdateMode | Sources/NodeUIEngine/NUIE_NodeUIManager.cpp:383-396 | the mode is set; the graph is unchanged |
| NodeManagers.NodeManager.IsGrouped | Sources/NodeUIEngine/NUIE_NodeUIManager.cpp:318 | true iff some group holds the node |
| NodeManagers.NodeManager.AddNodeGroup | Sources/NodeUIEngine/NUIE_NodeUIManager.cpp:471 | added iff new, with stored members none of which is grouped; otherwise nothing changes |
| NodeManagers.NodeManager.DeleteNodeGroup | Sources/NodeUIEngine/NUIE_NodeUIManager.cpp:478 | exactly that group is gone |
| NodeManagers.NodeManager.RemoveNodeFromGroup | Sources/NodeUIEngine/NUIE_NodeUIManager.cpp:484 | the node is in no group afterwards; the groups otherwise keep their members |
| NodeManagers.NodeManager.ReadNodes | Sources/NodeEngine/Headers/NodeManager.hpp:97 | the store and the result are those of ReadAll under the policy |
| NodeManagers.NodeManager.ReadPasted | Sources/NodeUIEngine/NUIE_NodeUIManager.cpp:440 | the clipboard's records are added under the next generated ids and its links as connections between them; the store's own nodes, connections and groups stay; the graph stays valid |
| NodeManagers.NodeManager.Read | Sources/NodeEngine/Headers/NodeManager.hpp:85 | returns the stream's status; the stored ids are those read with their own ids into an empty store; only connections of the stream are present; no group remains |
| NodeManagers.NodeManager.FilteredRecords | Sources/NodeEngine/Headers/NodeManager.hpp:83 | exactly the stored nodes passing the filter, each once, with their own ids |
| NodeManagers.NodeManager.MergeTo | Sources/NodeEngine/Headers/NodeManager.hpp:83 | the target keeps its nodes, connections, groups and update mode. Keeping ids: on success every node passing the filter is in the target under its id and the target's ids are exactly its old ids plus those, and it succeeds whenever those ids are free there. Generating ids: always succeeds, and the target gains a copy of exactly the nodes passing the filter, under its next ids (`FreshCopy`) |
| NodeManagers.FreshCopyHolds | Sources/NodeEngine/Headers/NodeManager.hpp:83 | after a merge with generated ids, each node passing the filter has a copy at an id the merge generated |
| NodeManagers.FreshCopyOnly | Sources/NodeEngine/Headers/NodeManager.hpp:83 | after a merge with generated ids, each id new to the target was generated by it and holds a copy of a node passing the filter |
| NodeManagers.RecordIndex | Sources/NodeEngine/Headers/NodeManager.hpp:83 | each node passing the filter has a record, carrying its id and content |
| NodeManagers.NodeManager.Replace | Sources/NodeUIEngine/NUIE_NodeUIManager.cpp:451-458 | the store holds the snapshot; the generator does not decrease and stays above every id |
| NodeUIManagers.Status.constructor | Sources/NodeUIEngine/NUIE_NodeUIManager.cpp:46-50 | both flags are set |
| NodeUIManagers.Status.Reset | Sources/NodeUIEngine/NUIE_NodeUIManager.cpp:52-56 | both flags are clear |
| NodeUIManagers.Status.RequestRecalculate | Sources/NodeUIEngine/NUIE_NodeUIManager.cpp:58-61 | sets only the recalculate flag |
| NodeUIManagers.Status.RequestRedraw | Sources/NodeUIEngine/NUIE_NodeUIManager.cpp:63-66 | sets only the redraw flag |
| NodeUIManagers.UpdateEvents | Sources/NodeUIEngine/NUIE_NodeUIManager.cpp:521-536 | no event iff neither flag; one evaluation iff recalculation is pending, first and chosen by mode; then values-recalculated; redraw always last |
| NodeUIManagers.NodeUIManager.constructor | Sources/NodeUIEngine/NUIE_NodeUIManager.cpp:78-86 | an empty graph and selection; both flags set |
| NodeUIManagers.NodeUIManager.RequestRecalculate | Sources/NodeUIEngine/NUIE_NodeUIManager.cpp:255-258 | sets only the recalculate flag |
| NodeUIManagers.NodeUIManager.RequestRedraw | Sources/NodeUIEngine/NUIE_NodeUIManager.cpp:260-263 | sets only the redraw flag |
| NodeUIManagers.NodeUIManager.AddNode | Sources/NodeUIEngine/NUIE_NodeUIManager.cpp:93-104 | null input gives null; refusal gives null with no change; success stores the node and requests recalculation; the update mode stays |
| NodeUIManagers.NodeUIManager.DeleteNode | Sources/NodeUIEngine/NUIE_NodeUIManager.cpp:106-128 | unknown id: false, nothing changes; otherwise the id leaves the selection; the drawings of it, its transitive dependents and their groups are invalidated; it is deleted with its connections and its group membership; recalculation is requested; the id generator and update mode stay |
| NodeUIManagers.NodeUIManager.SetSelectedNodes | Sources/NodeUIEngine/NUIE_NodeUIManager.cpp:135-139 | the selection becomes the given ids; a redraw is requested |
| NodeUIManagers.NodeUIManager.InvalidateNodeGroupDrawing | Sources/NodeUIEngine/NUIE_NodeUIManager.cpp:316-330 | exactly the group holding the node, if any, is invalidated |
| NodeUIManagers.NodeUIManager.InvalidateAllNodeGroupsDrawing | Sources/NodeUIEngine/NUIE_NodeUIManager.cpp:279-285 | every group's drawing is invalidated |
| NodeUIManagers.NodeUIManager.InvalidateAllNodesDrawing | Sources/NodeUIEngine/NUIE_NodeUIManager.cpp:271-277 | every node's drawing is invalidated |
| NodeUIManagers.NodeUIManager.InvalidateAllDrawings | Sources/NodeUIEngine/NUIE_NodeUIManager.cpp:265-269 | every node's and every group's drawing is invalidated |
| NodeUIManagers.NodeUIManager.InvalidateNodeValue | Sources/NodeUIEngine/NUIE_NodeUIManager.cpp:287-297 | the node and its dependents need recalculation; recalculation is requested; the id generator and update mode stay; the redraw flag is untouched |
| NodeUIManagers.NodeUIManager.InvalidateNodeDrawing | Sources/NodeUIEngine/NUIE_NodeUIManager.cpp:299-314 | invalidates exactly the node and its transitive dependents, and their groups; requests a redraw; terminates because the graph is acyclic |
| NodeUIManagers.NodeUIManager.InvalidateDependentsDrawing | Sources/NodeUIEngine/NUIE_NodeUIManager.cpp:309-312 | recursing over the direct dependents invalidates exactly their reach |
| NodeUIManagers.NodeUIManager.InvalidateDependentDrawing | Sources/NodeUIEngine/NUIE_NodeUIManager.cpp:310-311 | one direct dependent: its drawing, its transitive dependents' and their groups' |
| NodeUIManagers.NodeUIManager.InvalidateDrawingsForInvalidatedNodes | Sources/NodeUIEngine/NUIE_NodeUIManager.cpp:505-519 | invalidates exactly the node and group drawings reached from the nodes that need calculation (enabled or disabled); always requests a redraw |
| NodeUIManagers.NodeUIManager.StaleNodes | Sources/NodeUIEngine/NUIE_NodeUIManager.cpp:507-514 | exactly the stored nodes that need calculation, each once |
| NodeUIManagers.NodeUIManager.InvalidateReachDrawing | Sources/NodeUIEngine/NUIE_NodeUIManager.cpp:515-517 | invalidating from each node in turn reaches exactly those nodes, their transitive dependents and their groups |
| NodeUIManagers.NodeUIManager.UpdateInternal | Sources/NodeUIEngine/NUIE_NodeUIManager.cpp:521-536 | the events are UpdateEvents of the old flags; the table is evaluated (forced in manual mode) iff recalculation was pending; both flags are clear afterwards |
| NodeUIManagers.NodeUIManager.Update | Sources/NodeUIEngine/NUIE_NodeUIManager.cpp:332-335 | a normal-mode UpdateInternal: events follow the flags, evaluation happens iff recalculation was pending, both flags are cleared; connections, groups, id generator and update mode stay |
| NodeUIManagers.NodeUIManager.ManualUpdate | Sources/NodeUIEngine/NUIE_NodeUIManager.cpp:337-341 | the node and group drawings reached from the stale nodes are invalidated first, so a redraw always follows; evaluation is forced iff recalculation was pending, otherwise the nodes stay; connections, groups, id generator, update mode and handler calls stay |
| NodeUIManagers.NodeUIManager.SetUpdateMode | Sources/NodeUIEngine/NUIE_NodeUIManager.cpp:383-396 | GetUpdateMode then returns the mode set; the graph is unchanged |
| NodeUIManagers.NodeUIManager.Clear | Sources/NodeUIEngine/NUIE_NodeUIManager.cpp:398-406 | empties the selection, clipboard, undo history and graph; requests recalculation |
| NodeUIManagers.NodeUIManager.Load | Sources/NodeUIEngine/NUIE_NodeUIManager.cpp:408-418 | clears first; reads the stream; returns true iff the stream reports no error; requests recalculation; the update mode, the redraw flag and both drawing sets are untouched |
| NodeUIManagers.NodeUIManager.Copy | Sources/NodeUIEngine/NUIE_NodeUIManager.cpp:433-436 | hands the collection to the copy-paste handler and returns its answer |
| NodeUIManagers.NodeUIManager.Paste | Sources/NodeUIEngine/NUIE_NodeUIManager.cpp:438-444 | the pasted records are added under fresh ids and the connections among them follow to those ids; the rest of the graph stays; succeeds iff the handler delivers; requests recalculation and redraw either way; groups and update mode stay; the id generator advances by the number of records |
| NodeUIManagers.NodeUIManager.SaveUndoState | Sources/NodeUIEngine/NUIE_NodeUIManager.cpp:446-449 | one call to the undo handler; the graph is unchanged |
| NodeUIManagers.NodeUIManager.MergeFrom | Sources/NodeUIEngine/NUIE_NodeUIManager.cpp:451-458 | the graph becomes the snapshot; every node the snapshot lacks leaves the selection, and the others stay in order |
| NodeUIManagers.NodeUIManager.Undo | Sources/NodeUIEngine/NUIE_NodeUIManager.cpp:451-458 | succeeds iff the handler restores a snapshot, whose nodes, connections and groups the store then holds; vanished nodes leave the selection; stale node and group drawings are invalidated and recalculation is requested either way |
| NodeUIManagers.NodeUIManager.Redo | Sources/NodeUIEngine/NUIE_NodeUIManager.cpp:460-467 | as Undo, stepping forward: the store holds the snapshot's nodes, connections and groups |
| NodeUIManagers.NodeUIManager.ConnectOutputSlotToInputSlot | Sources/NodeUIEngine/NUIE_NodeUIManager.cpp:156-162 | connects iff connectable; then the input node and its transitive dependents need calculation, and otherwise the graph is unchanged; the input node's drawing reach and its groups are invalidated; recalculation is requested; groups stay |
| NodeUIManagers.NodeUIManager.DisconnectOutputSlotFromInputSlot | Sources/NodeUIEngine/NUIE_NodeUIManager.cpp:164-169 | removes exactly that connection; if it was there, the input node and its transitive dependents need calculation, otherwise the nodes stay; the input node's drawing reach and its groups are invalidated; recalculation is requested; groups stay |
| NodeUIManagers.NodeUIManager.DisconnectAllInputSlotsFromOutputSlot | Sources/NodeUIEngine/NUIE_NodeUIManager.cpp:171-176 | refused iff the output slot is unknown, and then the graph is unchanged; otherwise exactly the connections leaving it go, and the nodes they fed need calculation with their dependents; the output node's drawing reach and its groups are invalidated; groups stay |
| NodeUIManagers.NodeUIManager.DisconnectAllOutputSlotsFromInputSlot | Sources/NodeUIEngine/NUIE_NodeUIManager.cpp:178-183 | refused iff the input slot is unknown, and then the graph is unchanged; otherwise exactly the connections entering it go, and its node needs calculation with its dependents; the input node's drawing reach and its groups are invalidated; groups stay |
| NodeUIManagers.NodeUIManager.AddUINodeGroup | Sources/NodeUIEngine/NUIE_NodeUIManager.cpp:469-474 | as AddNodeGroup; every group drawing is invalidated; nodes, connections, node drawings, handler calls, the id generator and update mode stay |
| NodeUIManagers.NodeUIManager.DeleteUINodeGroup | Sources/NodeUIEngine/NUIE_NodeUIManager.cpp:476-479 | exactly that group is gone; nodes and connections stay; the id generator and update mode stay |
| NodeUIManagers.NodeUIManager.RemoveNodesFromGroup | Sources/NodeUIEngine/NUIE_NodeUIManager.cpp:481-489 | no node of the collection stays grouped; groups otherwise keep their members; always true; nodes, connections, node drawings, handler calls, the id generator and update mode stay; every group drawing is invalidated |
| NodeUIManagers.NodeUIManagerMergeEventHandler.constructor | Sources/NodeUIEngine/NUIE_NodeUIManager.cpp:16-21 | the handler refers to the given UI manager |
| NodeUIManagers.NodeUIManagerMergeEventHandler.BeforeNodeDelete | Sources/NodeUIEngine/NUIE_NodeUIManager.cpp:28-39 | removes exactly the id from the selection, the rest in order; nothing changes for an unknown id |
| Commands.IsUndoable | Sources/NodeUIEngine/NUIE_NodeUIManagerCommands.cpp:16-34 | false exactly for copy, undo and redo (NotUndoableCommand); true for every other command |
| Commands.DoAddNode | Sources/NodeUIEngine/NUIE_NodeUIManagerCommands.cpp:43-47 | as the UI manager's AddNode: refused exactly for a stored carried id, otherwise stored under the chosen id with connections and groups kept; then a redraw is requested; on refusal the store and the recalculate flag are untouched; the update mode stays |
| Commands.DoDeleteNodes | Sources/NodeUIEngine/NUIE_NodeUIManagerCommands.cpp:56-63 | every stored id of the collection is deleted with its connections and group membership and leaves the selection; each surviving node keeps its slots and position, and its status stays or becomes NeedToCalculate; the recalculate flag is set if one was deleted and untouched otherwise; redraw always; handler calls, the id generator and update mode stay |
| Commands.DeleteTracked | Sources/NodeUIEngine/NUIE_NodeUIManagerCommands.cpp:58-61 | one deletion keeps the running account: nodes, connections, groups and selection are those of deleting one more id |
| Commands.DoMoveNodes | Sources/NodeUIEngine/NUIE_NodeUIManagerCommands.cpp:72-81 | the collection's nodes move by the offset and no other node moves; their groups are invalidated; redraw is requested; connections, groups, node drawings, handler calls, the recalculate flag, the id generator and update mode stay |
| Commands.DoConnectSlots | Sources/NodeUIEngine/NUIE_NodeUIManagerCommands.cpp:90-94 | as the UI manager's connect: connects iff connectable, invalidating the input node's reach, else the graph is unchanged; the same node and group drawings are invalidated; groups and handler calls stay; recalculation and redraw are requested; the id generator and update mode stay |
| Commands.DoDisconnectSlots | Sources/NodeUIEngine/NUIE_NodeUIManagerCommands.cpp:103-107 | as the UI manager's disconnect: removes exactly that connection, invalidating the input node's reach if it was there; the same node and group drawings are invalidated; groups and handler calls stay; recalculation and redraw are requested; the id generator and update mode stay |
| Commands.DoDisconnectAllInputSlots | Sources/NodeUIEngine/NUIE_NodeUIManagerCommands.cpp:115-119 | refused iff the output slot is unknown, then the graph is unchanged; otherwise exactly its connections go and the fed nodes' reach needs calculation; the output node's drawing reach and its groups are invalidated; groups and handler calls stay; recalculation and redraw are requested; the id generator and update mode stay |
| Commands.DoDisconnectAllOutputSlots | Sources/NodeUIEngine/NUIE_NodeUIManagerCommands.cpp:128-132 | refused iff the input slot is unknown, then the graph is unchanged; otherwise exactly its connections go and its node's reach needs calculation; the input node's drawing reach and its groups are invalidated; groups and handler calls stay; recalculation and redraw are requested; the id generator and update mode stay |
| Commands.DoCopyNodes | Sources/NodeUIEngine/NUIE_NodeUIManagerCommands.cpp:140-143 | one call to the copy-paste handler; the graph and drawings are unchanged |
| Commands.NewNodes | Sources/NodeUIEngine/NUIE_NodeUIManagerCommands.cpp:161-167 | exactly the ids present after and not before, each once |
| Commands.PositionSum | Sources/NodeUIEngine/NUIE_NodeUIManagerCommands.cpp:169-173 | the sum of the new nodes' positions |
| Commands.DoPasteNodes | Sources/NodeUIEngine/NUIE_NodeUIManagerCommands.cpp:151-185 | new nodes are exactly after minus before; the selection is exactly them; they move by position minus centroid, so their centroid is the position; old nodes untouched; the pasted connections follow to the new ids; groups, update mode and both drawing sets stay; the id generator advances by the number of pasted records, and stays after a failed paste; recalculation and redraw are requested |
| Commands.PasteAndCollect | Sources/NodeUIEngine/NUIE_NodeUIManagerCommands.cpp:153-167 | lists each node the paste added exactly once; none after a failed paste; the id generator advances by the number of pasted records; groups, update mode and drawings stay |
| Commands.PlacePasted | Sources/NodeUIEngine/NUIE_NodeUIManagerCommands.cpp:169-184 | the given nodes move so that their centroid lands on the position; the selection becomes them; connections, groups, the id generator and update mode stay |
| Commands.MoveAndCollect | Sources/NodeUIEngine/NUIE_NodeUIManagerCommands.cpp:175-182 | each node moves by the offset and the new selection lists them in order; connections, groups, the id generator and update mode stay |
| Commands.PastedPositions | Sources/NodeUIEngine/NUIE_NodeUIManagerCommands.cpp:176-182 | after the move, the centroid of the pasted nodes is the target position |
| Commands.DoAddGroup | Sources/NodeUIEngine/NUIE_NodeUIManagerCommands.cpp:194-198 | added iff new with stored, ungrouped members, otherwise groups unchanged; nodes and connections stay; every group drawing is invalidated; recalculation is requested; node drawings, handler calls, the redraw flag, the id generator and update mode stay |
| Commands.DoDeleteGroup | Sources/NodeUIEngine/NUIE_NodeUIManagerCommands.cpp:207-211 | one forwarded group delete, then a recalculation request; exactly that group goes; nodes, connections, the redraw flag, the id generator and update mode stay |
| Commands.DoRemoveNodesFromGroup | Sources/NodeUIEngine/NUIE_NodeUIManagerCommands.cpp:220-224 | every node of the collection leaves its group and nothing else changes in the groups; nodes and connections stay; every group drawing is invalidated; recalculation is requested; node drawings, handler calls, the redraw flag, the id generator and update mode stay |
| Commands.DoUndo | Sources/NodeUIEngine/NUIE_NodeUIManagerCommands.cpp:232-235 | steps back: the store then holds the restored snapshot's nodes, connections and groups, and the vanished nodes leave the selection; when the handler fails the store and selection are unchanged; the node and group drawings reached from the stale nodes are invalidated; recalculation and redraw are requested |
| Commands.DoRedo | Sources/NodeUIEngine/NUIE_NodeUIManagerCommands.cpp:243-246 | steps forward: the store then holds the restored snapshot's nodes, connections and groups, and the vanished nodes leave the selection; when the handler fails the store and selection are unchanged; the node and group drawings reached from the stale nodes are invalidated; recalculation and redraw are requested |

## Left out

- `CustomUndoableCommand` runs an arbitrary closure; there is nothing to model beyond the call.
- Drawing is left out: `Draw`, `ResizeContext`, the view box and `IsPreviewMode`. A drawing
  is modelled only as the set of invalidated node and group ids.
- `Save` and `Write`, and the byte framing of `Load` and `Read` (including the version
  number), are left out. A stream is its status, its node records and its connections.
- The bodies of the copy-paste and undo handlers are not part of this model, and neither
  is the history. A paste delivers a clipboard as a parameter, and an undo or redo restores
  a snapshot given as a parameter. The clipboard must be a valid copied subgraph
  (`PastableAt`); a clipboard the copy handler could not have produced is not modelled.
- Evaluation internals, the value cache and the evaluator are left out. Evaluation is a
  status change, and which nodes cannot compute is a parameter.
- `UINode::OnDelete` callbacks are left out. So are the UI-node pointer casts, `GetUINode`,
  `EnumerateUINodes` and `EnumerateUINodeGroups`, which only map ids to the same nodes and
  groups.
- The UI manager's query forwarders are modelled once, on `NodeManager`. They are
  `IsOutputSlotConnectedToInputSlot`, `CanConnect…`, `HasConnected…`,
  `GetConnected…Count` and `EnumerateConnected…`.
- The order in which connections, nodes and dependents are enumerated is unspecified, as
  the source iterates unordered containers. Sequences of each element once stand for it.
- NodeManagers.NodeManager.MergeTo: copies the nodes only, not the connections among them.
  The source shows only its declaration (Sources/NodeEngine/Headers/NodeManager.hpp:83), with
  no id-policy argument. The model takes the policy as a parameter and states both: keeping
  ids and generating new ones.
- NodeManagers.NodeManager.Read: states which ids are stored, not which of the stream's
  connections are accepted, only that no others appear.
- NodeManagers.NodeManager.CanConnectOutputSlotToInputSlot: refuses a connection that would
  close a cycle. The source does nothing to reject such a connection. But the source's
  drawing invalidation (Sources/NodeUIEngine/NUIE_NodeUIManager.cpp:305-314) recurses into
  dependents with no visited set, so on a cyclic graph it would never end. The model keeps
  the graph acyclic so that this recursion terminates.
- Commands.DoDeleteNodes: does not state which surviving nodes become NeedToCalculate. It
  states only that each survivor's status is unchanged or NeedToCalculate. It also does not
  state the node or group drawings invalidated. `NodeUIManager.DeleteNode` states all of
  these for each single deletion.
- Commands.DoMoveNodes: requires every id of the collection to be stored, because the
  source dereferences the node it looks up for each id.
- Positions are exact reals, so rounding in the source's doubles is not modelled.
