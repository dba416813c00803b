/**
 * The editing commands executed on a node UI manager. Each command holds its arguments
 * and, when done, calls the UI manager and requests a redraw or a recalculation. A command
 * is undoable unless it only copies or it steps the undo history itself.
 */
module Commands {
  import opened Ids
  import opened Geometry
  import opened Graphs
  import opened NodeCollections
  import opened NodeManagers
  import opened NodeUIManagers

  /** The two command bases: an undoable command is recorded in the undo history. */
  datatype CommandBase = UndoableCommand | NotUndoableCommand

  /** Every command, with the arguments it was built from. */
  datatype Command =
    | AddNodeCommand(uiNode: Option<NodeRecord>)
    | DeleteNodesCommand(nodes: seq<NodeId>)
    | MoveNodesCommand(nodes: seq<NodeId>, offset: Point)
    | ConnectSlotsCommand(output: OutputSlot, input: InputSlot)
    | DisconnectSlotsCommand(output: OutputSlot, input: InputSlot)
    | DisconnectAllInputSlotsCommand(output: OutputSlot)
    | DisconnectAllOutputSlotsCommand(input: InputSlot)
    | CopyNodesCommand(nodes: seq<NodeId>)
    | PasteNodesCommand(position: Point)
    | AddGroupCommand(group: GroupId, members: set<NodeId>)
    | DeleteGroupCommand(group: GroupId)
    | RemoveNodesFromGroupCommand(nodes: seq<NodeId>)
    | UndoCommand
    | RedoCommand

  /** The base each command derives from. */
  function Base(c: Command): CommandBase {
    match c
    case CopyNodesCommand(_) => NotUndoableCommand
    case UndoCommand => NotUndoableCommand
    case RedoCommand => NotUndoableCommand
    case _ => UndoableCommand
  }

  /**
   * Whether doing the command is recorded as an undo step: every command that edits the
   * graph is; copying (which leaves the graph alone) and undo and redo themselves are not.
   */
  function IsUndoable(c: Command): (r: bool)
    ensures r <==> !(c.CopyNodesCommand? || c.UndoCommand? || c.RedoCommand?)
  {
    Base(c) == UndoableCommand
  }

  /** Adds the node through the UI manager, then requests a redraw. */
  method DoAddNode(ui: NodeUIManager, uiNode: Option<NodeRecord>) returns (r: Option<NodeId>)
    requires ui.Valid()
    modifies ui.nodeManager, ui.status
    ensures ui.Valid()
    ensures uiNode.None? ==> r.None?
    ensures uiNode.Some? ==> (r.None? <==> uiNode.value.id != NullNodeId && uiNode.value.id in old(ui.nodeManager.nodes))
    ensures r.None? ==> unchanged(ui.nodeManager) && ui.status.needToRecalculate == old(ui.status.needToRecalculate)
    ensures r.Some? ==> ui.nodeManager.nodes == old(ui.nodeManager.nodes)[r.value := Stored(uiNode.value.node)]
    ensures r.Some? ==> r.value !in old(ui.nodeManager.nodes) && ui.status.needToRecalculate
    ensures r.Some? ==> Store(ui.nodeManager.nodes, ui.nodeManager.idGenerator)
                        == AddToStore(old(Store(ui.nodeManager.nodes, ui.nodeManager.idGenerator)), uiNode.value.id, uiNode.value.node)
    ensures r.Some? ==> ui.nodeManager.connections == old(ui.nodeManager.connections) && ui.nodeManager.groups == old(ui.nodeManager.groups)
    ensures ui.nodeManager.updateMode == old(ui.nodeManager.updateMode)
    ensures ui.status.needToRedraw
  {
    r := ui.AddNode(uiNode);
    ui.RequestRedraw();
  }

  /**
   * Deletes every node of the collection that is stored, then requests a redraw. A deleted
   * node leaves the selection and takes its connections with it.
   */
  method DoDeleteNodes(ui: NodeUIManager, nodes: NodeCollection)
    requires ui.Valid() && nodes.Valid() && nodes != ui.selectedNodes
    modifies ui, ui.nodeManager, ui.selectedNodes, ui.status
    ensures ui.Valid()
    ensures ui.nodeManager.nodes.Keys == old(ui.nodeManager.nodes.Keys) - Elements(nodes.nodes)
    ensures KeptOrInvalidated(old(ui.nodeManager.nodes), ui.nodeManager.nodes)
    ensures ui.nodeManager.connections == Detached(old(ui.nodeManager.connections), Elements(nodes.nodes))
    ensures ui.selectedNodes.nodes
         == WithoutAll(old(ui.selectedNodes.nodes), Elements(nodes.nodes) * old(ui.nodeManager.nodes.Keys))
    ensures old(ui.SelectionStored()) ==> ui.SelectionStored()
    ensures ui.nodeManager.groups == Stripped(old(ui.nodeManager.groups), Elements(nodes.nodes))
    ensures Elements(nodes.nodes) * old(ui.nodeManager.nodes.Keys) != {} ==> ui.status.needToRecalculate
    ensures Elements(nodes.nodes) * old(ui.nodeManager.nodes.Keys) == {} ==> ui.status.needToRecalculate == old(ui.status.needToRecalculate)
    ensures ui.status.needToRedraw
    ensures ui.handlerCalls == old(ui.handlerCalls)
    ensures ui.nodeManager.idGenerator == old(ui.nodeManager.idGenerator) && ui.nodeManager.updateMode == old(ui.nodeManager.updateMode)
  {
    var ids := nodes.nodes;
    ghost var table := ui.nodeManager.nodes;
    ghost var conns := ui.nodeManager.connections;
    ghost var selection := ui.selectedNodes.nodes;
    ghost var groups := ui.nodeManager.groups;
    ghost var erased: set<NodeId> := {};
    WithoutNone(selection);
    StrippedNone(groups);
    assert Elements(ids[..0]) == {};
    DetachedAbsent(ui.nodeManager.nodes, conns, {});
    var k := 0;
    while k < |ids|
      invariant 0 <= k <= |ids|
      invariant ui.Valid()
      invariant DeletedSoFar(ui, table, conns, groups, selection, Elements(ids[..k]), erased)
      invariant old(ui.SelectionStored()) ==> ui.SelectionStored()
      invariant erased != {} ==> ui.status.needToRecalculate
      invariant erased == {} ==> ui.status.needToRecalculate == old(ui.status.needToRecalculate)
      invariant ui.handlerCalls == old(ui.handlerCalls)
      invariant ui.nodeManager.idGenerator == old(ui.nodeManager.idGenerator) && ui.nodeManager.updateMode == old(ui.nodeManager.updateMode)
    {
      ElementsPrefix(ids, k);
      var deleted := DeleteTracked(ui, ids[k], table, conns, groups, selection, Elements(ids[..k]), erased);
      if deleted {
        erased := erased + {ids[k]};
      }
      k := k + 1;
    }
    assert ids[..k] == ids;
    ui.RequestRedraw();
  }

  /**
   * The state after `DoDeleteNodes` has deleted the nodes `done` from a graph with node
   * table `table`, connections `conns`, groups `groups` and selection `selection`; `erased`
   * are the deleted nodes that were stored.
   */
  ghost predicate DeletedSoFar(ui: NodeUIManager, table: NodeTable, conns: set<Connection>, groups: GroupTable,
                               selection: seq<NodeId>, done: set<NodeId>, erased: set<NodeId>)
    reads ui, ui.nodeManager, ui.selectedNodes
  {
    && ui.nodeManager.nodes.Keys == table.Keys - done
    && KeptOrInvalidated(table, ui.nodeManager.nodes)
    && ui.nodeManager.connections == Detached(conns, done)
    && ui.nodeManager.groups == Stripped(groups, done)
    && erased == done * table.Keys
    && ui.selectedNodes.nodes == WithoutAll(selection, erased)
  }

  /**
   * One step of `DoDeleteNodes`: deletes `id` when it is stored, given that the nodes `done`
   * are already deleted (`erased` being those that were stored).
   */
  method DeleteTracked(ui: NodeUIManager, id: NodeId, ghost table: NodeTable, ghost conns: set<Connection>,
                       ghost groups: GroupTable, ghost selection: seq<NodeId>, ghost done: set<NodeId>,
                       ghost erased: set<NodeId>) returns (deleted: bool)
    requires ui.Valid() && DeletedSoFar(ui, table, conns, groups, selection, done, erased)
    modifies ui, ui.nodeManager, ui.selectedNodes, ui.status
    ensures ui.Valid()
    ensures deleted <==> id in table.Keys - done
    ensures DeletedSoFar(ui, table, conns, groups, selection, done + {id}, if deleted then erased + {id} else erased)
    ensures old(ui.SelectionStored()) ==> ui.SelectionStored()
    ensures deleted ==> ui.status.needToRecalculate
    ensures !deleted ==> ui.status.needToRecalculate == old(ui.status.needToRecalculate)
    ensures ui.handlerCalls == old(ui.handlerCalls)
    ensures ui.nodeManager.idGenerator == old(ui.nodeManager.idGenerator) && ui.nodeManager.updateMode == old(ui.nodeManager.updateMode)
  {
    ghost var before := ui.nodeManager.connections;
    ghost var beforeGroups := ui.nodeManager.groups;
    ghost var beforeNodes := ui.nodeManager.nodes;
    deleted := ui.DeleteNode(id);
    DetachedTwice(conns, done, {id});
    StrippedTwice(groups, done, {id});
    if deleted {
      WithoutAllThenWithout(selection, erased, id);
      KeptOrInvalidatedStep(table, beforeNodes, id, old(DependentClosure(ui.nodeManager.connections, id)));
    } else {
      DetachedAbsent(beforeNodes, before, {id});
      StrippedAbsent(beforeNodes, beforeGroups, {id});
    }
  }

  /**
   * Moves every node of the collection by `offset`, invalidating the drawing of each moved
   * node's group, then requests a redraw. The source looks each node up and dereferences it,
   * so every id must be stored.
   */
  method DoMoveNodes(ui: NodeUIManager, nodes: NodeCollection, offset: Point)
    requires ui.Valid() && nodes.Valid()
    requires forall k | 0 <= k < |nodes.nodes| :: nodes.nodes[k] in ui.nodeManager.nodes
    modifies ui, ui.nodeManager, ui.status
    ensures ui.Valid()
    ensures ui.nodeManager.nodes == Moved(old(ui.nodeManager.nodes), Elements(nodes.nodes), offset)
    ensures ui.nodeManager.connections == old(ui.nodeManager.connections) && ui.nodeManager.groups == old(ui.nodeManager.groups)
    ensures ui.groupDrawingInvalidated == old(ui.groupDrawingInvalidated) + GroupsTouching(ui.nodeManager.groups, Elements(nodes.nodes))
    ensures ui.drawingInvalidated == old(ui.drawingInvalidated) && ui.handlerCalls == old(ui.handlerCalls)
    ensures ui.nodeManager.idGenerator == old(ui.nodeManager.idGenerator) && ui.nodeManager.updateMode == old(ui.nodeManager.updateMode)
    ensures ui.status.needToRedraw && ui.status.needToRecalculate == old(ui.status.needToRecalculate)
  {
    var ids := nodes.nodes;
    ghost var t := ui.nodeManager.nodes;
    ghost var groups := ui.nodeManager.groups;
    MovedNone(t, offset);
    var k := 0;
    while k < |ids|
      invariant 0 <= k <= |ids|
      invariant ui.Valid()
      invariant ui.nodeManager.nodes == Moved(t, Elements(ids[..k]), offset)
      invariant ui.nodeManager.connections == old(ui.nodeManager.connections) && ui.nodeManager.groups == groups
      invariant ui.groupDrawingInvalidated == old(ui.groupDrawingInvalidated) + GroupsTouching(groups, Elements(ids[..k]))
      invariant ui.drawingInvalidated == old(ui.drawingInvalidated) && ui.handlerCalls == old(ui.handlerCalls)
      invariant ui.nodeManager.idGenerator == old(ui.nodeManager.idGenerator) && ui.nodeManager.updateMode == old(ui.nodeManager.updateMode)
      invariant ui.status.needToRecalculate == old(ui.status.needToRecalculate)
    {
      var id := ids[k];
      ElementsPrefix(ids, k);
      assert id !in Elements(ids[..k]);
      MovedStep(t, Elements(ids[..k]), id, offset);
      var position := ui.nodeManager.GetNode(id).value.position;
      ui.nodeManager.SetNodePosition(id, position.Add(offset));
      ui.InvalidateNodeGroupDrawing(id);
      GroupsTouchingUnion(groups, Elements(ids[..k]), {id});
      k := k + 1;
    }
    assert ids[..k] == ids;
    ui.RequestRedraw();
  }

  /** Connects the slots through the UI manager, then requests a redraw. */
  method DoConnectSlots(ui: NodeUIManager, o: OutputSlot, i: InputSlot) returns (r: bool)
    requires ui.Valid() && i.node in ui.nodeManager.nodes
    modifies ui, ui.nodeManager, ui.status
    ensures ui.Valid()
    ensures r <==> old(ui.nodeManager.Connectable(o, i))
    ensures ui.nodeManager.connections == if r then old(ui.nodeManager.connections) + {Connection(o, i)} else old(ui.nodeManager.connections)
    ensures r ==> ui.nodeManager.nodes
                  == Invalidated(old(ui.nodeManager.nodes), {i.node} + DependentClosure(ui.nodeManager.connections, i.node))
    ensures !r ==> ui.nodeManager.nodes == old(ui.nodeManager.nodes)
    ensures ui.nodeManager.groups == old(ui.nodeManager.groups)
    ensures ui.drawingInvalidated == old(ui.drawingInvalidated) + ({i.node} + old(DependentClosure(ui.nodeManager.connections, i.node)))
    ensures ui.groupDrawingInvalidated
         == old(ui.groupDrawingInvalidated) + GroupsTouching(ui.nodeManager.groups, {i.node} + old(DependentClosure(ui.nodeManager.connections, i.node)))
    ensures ui.handlerCalls == old(ui.handlerCalls)
    ensures ui.nodeManager.idGenerator == old(ui.nodeManager.idGenerator) && ui.nodeManager.updateMode == old(ui.nodeManager.updateMode)
    ensures ui.status.needToRecalculate && ui.status.needToRedraw
  {
    r := ui.ConnectOutputSlotToInputSlot(o, i);
    ui.RequestRedraw();
  }

  /** Disconnects the slots through the UI manager, then requests a redraw. */
  method DoDisconnectSlots(ui: NodeUIManager, o: OutputSlot, i: InputSlot) returns (r: bool)
    requires ui.Valid() && i.node in ui.nodeManager.nodes
    modifies ui, ui.nodeManager, ui.status
    ensures ui.Valid()
    ensures r <==> old(ui.nodeManager.IsOutputSlotConnectedToInputSlot(o, i))
    ensures ui.nodeManager.connections == old(ui.nodeManager.connections) - {Connection(o, i)}
    ensures r ==> ui.nodeManager.nodes
                  == Invalidated(old(ui.nodeManager.nodes), {i.node} + DependentClosure(ui.nodeManager.connections, i.node))
    ensures !r ==> ui.nodeManager.nodes == old(ui.nodeManager.nodes)
    ensures ui.nodeManager.groups == old(ui.nodeManager.groups)
    ensures ui.drawingInvalidated == old(ui.drawingInvalidated) + ({i.node} + old(DependentClosure(ui.nodeManager.connections, i.node)))
    ensures ui.groupDrawingInvalidated
         == old(ui.groupDrawingInvalidated) + GroupsTouching(ui.nodeManager.groups, {i.node} + old(DependentClosure(ui.nodeManager.connections, i.node)))
    ensures ui.handlerCalls == old(ui.handlerCalls)
    ensures ui.nodeManager.idGenerator == old(ui.nodeManager.idGenerator) && ui.nodeManager.updateMode == old(ui.nodeManager.updateMode)
    ensures ui.status.needToRecalculate && ui.status.needToRedraw
  {
    r := ui.DisconnectOutputSlotFromInputSlot(o, i);
    ui.RequestRedraw();
  }

  /** Disconnects every input slot fed by the output slot, then requests a redraw. */
  method DoDisconnectAllInputSlots(ui: NodeUIManager, o: OutputSlot) returns (r: bool)
    requires ui.Valid() && o.node in ui.nodeManager.nodes
    modifies ui, ui.nodeManager, ui.status
    ensures ui.Valid()
    ensures r <==> OutputExists(old(ui.nodeManager.nodes), o)
    ensures r ==> ui.nodeManager.connections == set c | c in old(ui.nodeManager.connections) && c.output != o
    ensures r ==> !ui.nodeManager.HasConnectedInputSlots(o)
    ensures r ==> ui.nodeManager.nodes
                  == Invalidated(old(ui.nodeManager.nodes),
                                 Downstream(ui.nodeManager.connections, set c | c in old(ui.nodeManager.connections) && c.output == o :: c.input.node))
    ensures !r ==> ui.nodeManager.connections == old(ui.nodeManager.connections) && ui.nodeManager.nodes == old(ui.nodeManager.nodes)
    ensures ui.nodeManager.groups == old(ui.nodeManager.groups)
    ensures ui.drawingInvalidated == old(ui.drawingInvalidated) + ({o.node} + old(DependentClosure(ui.nodeManager.connections, o.node)))
    ensures ui.groupDrawingInvalidated
         == old(ui.groupDrawingInvalidated) + GroupsTouching(ui.nodeManager.groups, {o.node} + old(DependentClosure(ui.nodeManager.connections, o.node)))
    ensures ui.handlerCalls == old(ui.handlerCalls)
    ensures ui.nodeManager.idGenerator == old(ui.nodeManager.idGenerator) && ui.nodeManager.updateMode == old(ui.nodeManager.updateMode)
    ensures ui.status.needToRecalculate && ui.status.needToRedraw
  {
    r := ui.DisconnectAllInputSlotsFromOutputSlot(o);
    ui.RequestRedraw();
  }

  /** Disconnects every output slot feeding the input slot, then requests a redraw. */
  method DoDisconnectAllOutputSlots(ui: NodeUIManager, i: InputSlot) returns (r: bool)
    requires ui.Valid() && i.node in ui.nodeManager.nodes
    modifies ui, ui.nodeManager, ui.status
    ensures ui.Valid()
    ensures r <==> InputExists(old(ui.nodeManager.nodes), i)
    ensures r ==> ui.nodeManager.connections == set c | c in old(ui.nodeManager.connections) && c.input != i
    ensures r ==> !ui.nodeManager.HasConnectedOutputSlots(i)
    ensures r ==> ui.nodeManager.nodes
                  == Invalidated(old(ui.nodeManager.nodes), {i.node} + DependentClosure(ui.nodeManager.connections, i.node))
    ensures !r ==> ui.nodeManager.connections == old(ui.nodeManager.connections) && ui.nodeManager.nodes == old(ui.nodeManager.nodes)
    ensures ui.nodeManager.groups == old(ui.nodeManager.groups)
    ensures ui.drawingInvalidated == old(ui.drawingInvalidated) + ({i.node} + old(DependentClosure(ui.nodeManager.connections, i.node)))
    ensures ui.groupDrawingInvalidated
         == old(ui.groupDrawingInvalidated) + GroupsTouching(ui.nodeManager.groups, {i.node} + old(DependentClosure(ui.nodeManager.connections, i.node)))
    ensures ui.handlerCalls == old(ui.handlerCalls)
    ensures ui.nodeManager.idGenerator == old(ui.nodeManager.idGenerator) && ui.nodeManager.updateMode == old(ui.nodeManager.updateMode)
    ensures ui.status.needToRecalculate && ui.status.needToRedraw
  {
    r := ui.DisconnectAllOutputSlotsFromInputSlot(i);
    ui.RequestRedraw();
  }

  /** Hands the nodes to the copy-paste handler; the graph is left alone. */
  method DoCopyNodes(ui: NodeUIManager, nodes: NodeCollection, handlerResult: bool)
    requires nodes.Valid()
    modifies ui
    ensures ui.handlerCalls == old(ui.handlerCalls) + [CopyRequested(nodes.nodes)]
    ensures ui.drawingInvalidated == old(ui.drawingInvalidated) && ui.groupDrawingInvalidated == old(ui.groupDrawingInvalidated)
  {
    var ok := ui.Copy(nodes, handlerResult);
  }

  /** The ids of `order` that are not in `oldNodes`, in the order of `order`. */
  method NewNodes(order: seq<NodeId>, oldNodes: set<NodeId>) returns (r: seq<NodeId>)
    requires Distinct(order)
    ensures Distinct(r)
    ensures Elements(r) == Elements(order) - oldNodes
  {
    r := [];
    var k := 0;
    while k < |order|
      invariant 0 <= k <= |order|
      invariant Distinct(r)
      invariant Elements(r) == Elements(order[..k]) - oldNodes
    {
      ElementsPrefix(order, k);
      if order[k] !in oldNodes {
        assert order[k] !in Elements(order[..k]);
        assert order[k] !in Elements(r);
        ElementsConcat(r, [order[k]]);
        r := r + [order[k]];
      }
      k := k + 1;
    }
    assert order[..k] == order;
  }

  /** The sum of the positions of the nodes `ids`, accumulated in order. */
  method PositionSum(t: NodeTable, ids: seq<NodeId>) returns (sum: Point)
    requires forall k | 0 <= k < |ids| :: ids[k] in t
    ensures sum == Sum(Positions(t, ids))
  {
    sum := Origin;
    var k := 0;
    while k < |ids|
      invariant 0 <= k <= |ids|
      invariant sum == Sum(Positions(t, ids[..k]))
    {
      assert Positions(t, ids[..k + 1])[..k] == Positions(t, ids[..k]);
      sum := sum.Add(t[ids[k]].position);
      k := k + 1;
    }
    assert ids[..k] == ids;
  }

  /** The offset that puts the centroid of the nodes `ids` on `position`; none when there are no nodes. */
  function PasteOffset(t: NodeTable, ids: seq<NodeId>, position: Point): Point
    requires forall k | 0 <= k < |ids| :: ids[k] in t
  {
    if ids == [] then Origin else position.Sub(Centroid(Positions(t, ids)))
  }

  /**
   * Pastes what the copy-paste handler delivers (None: the paste fails), moves the pasted
   * nodes so that their centroid lands on `position` while keeping their arrangement, and
   * selects exactly them. A failed paste selects nothing.
   */
  method DoPasteNodes(ui: NodeUIManager, position: Point, pasted: Option<Clipboard>) returns (newNodes: seq<NodeId>)
    requires ui.Valid()
    requires pasted.Some? ==> PastableAt(ui.nodeManager.idGenerator, pasted.value)
    modifies ui, ui.nodeManager, ui.selectedNodes, ui.status
    ensures ui.Valid()
    ensures ui.handlerCalls == old(ui.handlerCalls) + [PasteRequested]
    ensures Distinct(newNodes) && ui.selectedNodes.nodes == newNodes
    ensures Elements(newNodes) == ui.nodeManager.nodes.Keys - old(ui.nodeManager.nodes.Keys)
    ensures pasted.None? ==> newNodes == [] && ui.nodeManager.nodes == old(ui.nodeManager.nodes)
    ensures pasted.Some? ==> Elements(newNodes) == FreshTable(old(ui.nodeManager.idGenerator), pasted.value.records).Keys
    ensures pasted.Some? ==>
              ui.nodeManager.nodes
              == Moved(old(ui.nodeManager.nodes) + FreshTable(old(ui.nodeManager.idGenerator), pasted.value.records), Elements(newNodes),
                       PasteOffset(FreshTable(old(ui.nodeManager.idGenerator), pasted.value.records), newNodes, position))
    ensures pasted.None? ==> ui.nodeManager.connections == old(ui.nodeManager.connections)
    ensures pasted.Some? ==>
              ui.nodeManager.connections == old(ui.nodeManager.connections) + Remapped(old(ui.nodeManager.idGenerator), pasted.value.links)
    ensures ui.nodeManager.groups == old(ui.nodeManager.groups) && ui.nodeManager.updateMode == old(ui.nodeManager.updateMode)
    ensures pasted.None? ==> ui.nodeManager.idGenerator == old(ui.nodeManager.idGenerator)
    ensures pasted.Some? ==> ui.nodeManager.idGenerator == old(ui.nodeManager.idGenerator) + |pasted.value.records|
    ensures newNodes != [] ==> Centroid(Positions(ui.nodeManager.nodes, newNodes)) == position
    ensures ui.drawingInvalidated == old(ui.drawingInvalidated) && ui.groupDrawingInvalidated == old(ui.groupDrawingInvalidated)
    ensures ui.status.needToRecalculate && ui.status.needToRedraw
  {
    ghost var gen := ui.nodeManager.idGenerator;
    newNodes := PasteAndCollect(ui, pasted);
    ghost var t := ui.nodeManager.nodes;
    PlacePasted(ui, newNodes, position);
    if pasted.Some? {
      assert Positions(t, newNodes) == Positions(FreshTable(gen, pasted.value.records), newNodes);
    }
  }

  /** Pastes through the UI manager and lists the ids the paste added, each once. */
  method PasteAndCollect(ui: NodeUIManager, pasted: Option<Clipboard>) returns (newNodes: seq<NodeId>)
    requires ui.Valid()
    requires pasted.Some? ==> PastableAt(ui.nodeManager.idGenerator, pasted.value)
    modifies ui, ui.nodeManager, ui.status
    ensures ui.Valid()
    ensures ui.handlerCalls == old(ui.handlerCalls) + [PasteRequested]
    ensures Distinct(newNodes) && forall k | 0 <= k < |newNodes| :: newNodes[k] in ui.nodeManager.nodes
    ensures Elements(newNodes) == ui.nodeManager.nodes.Keys - old(ui.nodeManager.nodes.Keys)
    ensures pasted.None? ==> newNodes == [] && ui.nodeManager.nodes == old(ui.nodeManager.nodes)
    ensures pasted.None? ==> ui.nodeManager.connections == old(ui.nodeManager.connections)
    ensures pasted.Some? ==> ui.nodeManager.nodes == old(ui.nodeManager.nodes) + FreshTable(old(ui.nodeManager.idGenerator), pasted.value.records)
    ensures pasted.Some? ==>
              ui.nodeManager.connections == old(ui.nodeManager.connections) + Remapped(old(ui.nodeManager.idGenerator), pasted.value.links)
    ensures ui.nodeManager.groups == old(ui.nodeManager.groups) && ui.nodeManager.updateMode == old(ui.nodeManager.updateMode)
    ensures pasted.None? ==> ui.nodeManager.idGenerator == old(ui.nodeManager.idGenerator)
    ensures pasted.Some? ==> ui.nodeManager.idGenerator == old(ui.nodeManager.idGenerator) + |pasted.value.records|
    ensures ui.drawingInvalidated == old(ui.drawingInvalidated) && ui.groupDrawingInvalidated == old(ui.groupDrawingInvalidated)
    ensures ui.status.needToRecalculate && ui.status.needToRedraw
  {
    var oldOrder := ui.nodeManager.EnumerateNodes(id => true);
    var oldNodes := set id | id in oldOrder;
    var ok := ui.Paste(pasted);
    var order := ui.nodeManager.EnumerateNodes(id => true);
    newNodes := NewNodes(order, oldNodes);
    assert forall k | 0 <= k < |newNodes| :: newNodes[k] in Elements(newNodes);
    DistinctCardinality(newNodes);
  }

  /** Moves the pasted nodes `ids` so that their centroid lands on `position`, then selects exactly them. */
  method PlacePasted(ui: NodeUIManager, ids: seq<NodeId>, position: Point)
    requires ui.Valid() && Distinct(ids)
    requires forall k | 0 <= k < |ids| :: ids[k] in ui.nodeManager.nodes
    modifies ui.nodeManager, ui.selectedNodes, ui.status
    ensures ui.Valid()
    ensures ui.selectedNodes.nodes == ids
    ensures ui.nodeManager.nodes == Moved(old(ui.nodeManager.nodes), Elements(ids), PasteOffset(old(ui.nodeManager.nodes), ids, position))
    ensures ui.nodeManager.connections == old(ui.nodeManager.connections) && ui.nodeManager.groups == old(ui.nodeManager.groups)
    ensures ui.nodeManager.idGenerator == old(ui.nodeManager.idGenerator) && ui.nodeManager.updateMode == old(ui.nodeManager.updateMode)
    ensures ids != [] ==> Centroid(Positions(ui.nodeManager.nodes, ids)) == position
    ensures ui.status.needToRecalculate == old(ui.status.needToRecalculate) && ui.status.needToRedraw
  {
    var t := ui.nodeManager.nodes;
    var center := PositionSum(t, ids);
    var offset := Origin;
    if |ids| > 0 {
      center := center.Div(|ids| as real);
      offset := position.Sub(center);
    }
    var selection := MoveAndCollect(ui.nodeManager, ids, offset);
    ui.SetSelectedNodes(selection);
    PastedPositions(t, ids, position, offset);
  }

  /** Moves the nodes `ids` by `offset` and collects them, in order, into a new collection. */
  method MoveAndCollect(manager: NodeManager, ids: seq<NodeId>, offset: Point) returns (selection: NodeCollection)
    requires manager.Valid() && Distinct(ids)
    requires forall k | 0 <= k < |ids| :: ids[k] in manager.nodes
    modifies manager
    ensures manager.Valid() && selection.Valid() && fresh(selection)
    ensures selection.nodes == ids
    ensures manager.nodes == Moved(old(manager.nodes), Elements(ids), offset)
    ensures manager.connections == old(manager.connections) && manager.groups == old(manager.groups)
    ensures manager.idGenerator == old(manager.idGenerator) && manager.updateMode == old(manager.updateMode)
  {
    ghost var t := manager.nodes;
    selection := new NodeCollection();
    MovedNone(t, offset);
    var k := 0;
    while k < |ids|
      invariant 0 <= k <= |ids|
      invariant manager.Valid() && selection.Valid() && fresh(selection)
      invariant manager.nodes == Moved(t, Elements(ids[..k]), offset)
      invariant manager.connections == old(manager.connections) && manager.groups == old(manager.groups)
      invariant manager.idGenerator == old(manager.idGenerator) && manager.updateMode == old(manager.updateMode)
      invariant selection.nodes == ids[..k]
    {
      var id := ids[k];
      ElementsPrefix(ids, k);
      assert id !in Elements(ids[..k]);
      MovedStep(t, Elements(ids[..k]), id, offset);
      var nodePosition := manager.GetNode(id).value.position;
      manager.SetNodePosition(id, nodePosition.Add(offset));
      selection.Insert(id);
      assert ids[..k + 1] == ids[..k] + [id];
      k := k + 1;
    }
    assert ids[..k] == ids;
  }

  /** The centroid and arrangement facts behind `DoPasteNodes`. */
  lemma PastedPositions(t: NodeTable, newNodes: seq<NodeId>, position: Point, offset: Point)
    requires forall k | 0 <= k < |newNodes| :: newNodes[k] in t
    requires newNodes != [] ==> offset == position.Sub(Centroid(Positions(t, newNodes)))
    ensures newNodes != [] ==> Centroid(Positions(Moved(t, Elements(newNodes), offset), newNodes)) == position
  {
    if newNodes != [] {
      MovedPositions(t, newNodes, offset);
      RecentredCentroid(Positions(t, newNodes), position);
    }
  }

  /** Adds the group through the UI manager, then requests recalculation. */
  method DoAddGroup(ui: NodeUIManager, g: GroupId, members: set<NodeId>) returns (r: bool)
    requires ui.Valid()
    modifies ui, ui.nodeManager, ui.status
    ensures ui.Valid()
    ensures r <==> g !in old(ui.nodeManager.groups) && members <= old(ui.nodeManager.nodes).Keys
                   && forall id | id in members :: !old(ui.nodeManager.IsGrouped(id))
    ensures ui.nodeManager.groups == if r then old(ui.nodeManager.groups)[g := members] else old(ui.nodeManager.groups)
    ensures ui.nodeManager.nodes == old(ui.nodeManager.nodes) && ui.nodeManager.connections == old(ui.nodeManager.connections)
    ensures ui.nodeManager.idGenerator == old(ui.nodeManager.idGenerator) && ui.nodeManager.updateMode == old(ui.nodeManager.updateMode)
    ensures ui.groupDrawingInvalidated == old(ui.groupDrawingInvalidated) + ui.nodeManager.groups.Keys
    ensures ui.drawingInvalidated == old(ui.drawingInvalidated) && ui.handlerCalls == old(ui.handlerCalls)
    ensures ui.status.needToRecalculate && ui.status.needToRedraw == old(ui.status.needToRedraw)
  {
    r := ui.AddUINodeGroup(g, members);
    ui.RequestRecalculate();
  }

  /** Deletes the group through the UI manager, then requests recalculation. */
  method DoDeleteGroup(ui: NodeUIManager, g: GroupId)
    requires ui.Valid()
    modifies ui.nodeManager, ui.status
    ensures ui.Valid()
    ensures ui.nodeManager.groups == old(ui.nodeManager.groups) - {g}
    ensures ui.nodeManager.nodes == old(ui.nodeManager.nodes) && ui.nodeManager.connections == old(ui.nodeManager.connections)
    ensures ui.nodeManager.idGenerator == old(ui.nodeManager.idGenerator) && ui.nodeManager.updateMode == old(ui.nodeManager.updateMode)
    ensures ui.status.needToRecalculate && ui.status.needToRedraw == old(ui.status.needToRedraw)
  {
    ui.DeleteUINodeGroup(g);
    ui.RequestRecalculate();
  }

  /** Takes the nodes of the collection out of their groups, then requests recalculation. */
  method DoRemoveNodesFromGroup(ui: NodeUIManager, nodes: NodeCollection)
    requires ui.Valid() && nodes.Valid()
    modifies ui, ui.nodeManager, ui.status
    ensures ui.Valid()
    ensures ui.nodeManager.groups == Stripped(old(ui.nodeManager.groups), Elements(nodes.nodes))
    ensures forall id | id in nodes.nodes :: !ui.nodeManager.IsGrouped(id)
    ensures ui.nodeManager.nodes == old(ui.nodeManager.nodes) && ui.nodeManager.connections == old(ui.nodeManager.connections)
    ensures ui.nodeManager.idGenerator == old(ui.nodeManager.idGenerator) && ui.nodeManager.updateMode == old(ui.nodeManager.updateMode)
    ensures ui.groupDrawingInvalidated == old(ui.groupDrawingInvalidated) + ui.nodeManager.groups.Keys
    ensures ui.drawingInvalidated == old(ui.drawingInvalidated) && ui.handlerCalls == old(ui.handlerCalls)
    ensures ui.status.needToRecalculate && ui.status.needToRedraw == old(ui.status.needToRedraw)
  {
    var r := ui.RemoveNodesFromGroup(nodes);
    ui.RequestRecalculate();
  }

  /** Steps back in the undo history through the UI manager. */
  method DoUndo(ui: NodeUIManager, target: Option<Graph>)
    requires ui.Valid()
    requires target.Some? ==> GraphValid(target.value.nodes, target.value.connections, target.value.groups)
    modifies ui, ui.nodeManager, ui.selectedNodes, ui.status
    ensures ui.Valid()
    ensures ui.handlerCalls == old(ui.handlerCalls) + [UndoRequested]
    ensures target.None? ==> unchanged(ui.nodeManager) && ui.selectedNodes.nodes == old(ui.selectedNodes.nodes)
    ensures target.Some? ==> ui.nodeManager.nodes == target.value.nodes && ui.nodeManager.connections == target.value.connections
    ensures target.Some? ==> ui.nodeManager.groups == target.value.groups
    ensures target.Some? ==> ui.selectedNodes.nodes
                             == WithoutAll(old(ui.selectedNodes.nodes), old(ui.nodeManager.nodes.Keys) - target.value.nodes.Keys)
    ensures ui.drawingInvalidated == old(ui.drawingInvalidated) + Downstream(ui.nodeManager.connections, Stale(ui.nodeManager.nodes))
    ensures ui.groupDrawingInvalidated
         == old(ui.groupDrawingInvalidated)
            + GroupsTouching(ui.nodeManager.groups, Downstream(ui.nodeManager.connections, Stale(ui.nodeManager.nodes)))
    ensures old(ui.SelectionStored()) ==> ui.SelectionStored()
    ensures ui.status.needToRecalculate && ui.status.needToRedraw
  {
    var ok := ui.Undo(target);
  }

  /** Steps forward in the undo history through the UI manager. */
  method DoRedo(ui: NodeUIManager, target: Option<Graph>)
    requires ui.Valid()
    requires target.Some? ==> GraphValid(target.value.nodes, target.value.connections, target.value.groups)
    modifies ui, ui.nodeManager, ui.selectedNodes, ui.status
    ensures ui.Valid()
    ensures ui.handlerCalls == old(ui.handlerCalls) + [RedoRequested]
    ensures target.None? ==> unchanged(ui.nodeManager) && ui.selectedNodes.nodes == old(ui.selectedNodes.nodes)
    ensures target.Some? ==> ui.nodeManager.nodes == target.value.nodes && ui.nodeManager.connections == target.value.connections
    ensures target.Some? ==> ui.nodeManager.groups == target.value.groups
    ensures target.Some? ==> ui.selectedNodes.nodes
                             == WithoutAll(old(ui.selectedNodes.nodes), old(ui.nodeManager.nodes.Keys) - target.value.nodes.Keys)
    ensures ui.drawingInvalidated == old(ui.drawingInvalidated) + Downstream(ui.nodeManager.connections, Stale(ui.nodeManager.nodes))
    ensures ui.groupDrawingInvalidated
         == old(ui.groupDrawingInvalidated)
            + GroupsTouching(ui.nodeManager.groups, Downstream(ui.nodeManager.connections, Stale(ui.nodeManager.nodes)))
    ensures old(ui.SelectionStored()) ==> ui.SelectionStored()
    ensures ui.status.needToRecalculate && ui.status.needToRedraw
  {
    var ok := ui.Redo(target);
  }
}
