/**
 * NodeUIManager: the editing layer over a NodeManager. It keeps the selection, two dirty
 * flags (recalculate, redraw) and the nodes and groups whose drawing was invalidated, and
 * drives evaluation and redrawing in `Update`.
 */
module NodeUIManagers {
  import opened Ids
  import opened Geometry
  import opened Graphs
  import opened NodeCollections
  import opened NodeManagers

  /** The two dirty flags. */
  class Status {
    var needToRecalculate: bool
    var needToRedraw: bool

    /** A new manager needs both a calculation and a drawing. */
    constructor ()
      ensures needToRecalculate && needToRedraw
    {
      needToRecalculate := true;
      needToRedraw := true;
    }

    method Reset()
      modifies this
      ensures !needToRecalculate && !needToRedraw
    {
      needToRecalculate := false;
      needToRedraw := false;
    }

    method RequestRecalculate()
      modifies this
      ensures needToRecalculate && needToRedraw == old(needToRedraw)
    {
      needToRecalculate := true;
    }

    method RequestRedraw()
      modifies this
      ensures needToRedraw && needToRecalculate == old(needToRecalculate)
    {
      needToRedraw := true;
    }
  }

  datatype InternalUpdateMode = Normal | Manual

  /** What an update does, in order: node-manager evaluations and calls to the environment. */
  datatype UpdateEvent = EvaluatedAll | ForceEvaluatedAll | ValuesRecalculated | RedrawRequested

  predicate IsEvaluation(e: UpdateEvent) {
    e == EvaluatedAll || e == ForceEvaluatedAll
  }

  /**
   * The events of one update given the two flags: at most one evaluation, which comes
   * first and is chosen by the mode, then the values-recalculated notice, then the redraw
   * request; nothing at all when neither flag is set.
   */
  function UpdateEvents(recalculate: bool, redraw: bool, mode: InternalUpdateMode): (r: seq<UpdateEvent>)
    ensures r == [] <==> !recalculate && !redraw
    ensures (exists k | 0 <= k < |r| :: IsEvaluation(r[k])) <==> recalculate
    ensures forall k | 1 <= k < |r| :: !IsEvaluation(r[k])
    ensures recalculate ==> r[0] == (if mode == Normal then EvaluatedAll else ForceEvaluatedAll)
    ensures recalculate ==> r[1..] == [ValuesRecalculated, RedrawRequested]
    ensures r != [] ==> r[|r| - 1] == RedrawRequested
    ensures !recalculate ==> ValuesRecalculated !in r
  {
    if recalculate then
      var r := [if mode == Normal then EvaluatedAll else ForceEvaluatedAll, ValuesRecalculated, RedrawRequested];
      assert IsEvaluation(r[0]);
      r
    else if redraw then
      [RedrawRequested]
    else
      []
  }

  /** Calls into the copy-paste and undo handlers, whose bodies are not part of this model. */
  datatype HandlerCall =
    | ClipboardCleared
    | UndoHistoryCleared
    | CopyRequested(ids: seq<NodeId>)
    | PasteRequested
    | UndoStateSaved
    | UndoRequested
    | RedoRequested

  class NodeUIManager {
    const nodeManager: NodeManager
    const selectedNodes: NodeCollection
    const status: Status
    /** The nodes whose cached drawing has been invalidated. */
    var drawingInvalidated: set<NodeId>
    /** The groups whose cached drawing has been invalidated. */
    var groupDrawingInvalidated: set<GroupId>
    /** The calls made so far into the copy-paste and undo handlers. */
    var handlerCalls: seq<HandlerCall>

    ghost predicate Valid()
      reads nodeManager, selectedNodes
    {
      nodeManager.Valid() && selectedNodes.Valid()
    }

    /** The selected ids are stored nodes. */
    ghost predicate SelectionStored()
      reads nodeManager, selectedNodes
    {
      Elements(selectedNodes.nodes) <= nodeManager.nodes.Keys
    }

    constructor ()
      ensures Valid() && fresh(nodeManager) && fresh(selectedNodes) && fresh(status)
      ensures nodeManager.nodes == map[] && selectedNodes.nodes == []
      ensures status.needToRecalculate && status.needToRedraw
      ensures drawingInvalidated == {} && groupDrawingInvalidated == {} && handlerCalls == []
    {
      nodeManager := new NodeManager();
      selectedNodes := new NodeCollection();
      status := new Status();
      drawingInvalidated := {};
      groupDrawingInvalidated := {};
      handlerCalls := [];
    }

    method RequestRecalculate()
      modifies status
      ensures status.needToRecalculate && status.needToRedraw == old(status.needToRedraw)
    {
      status.RequestRecalculate();
    }

    method RequestRedraw()
      modifies status
      ensures status.needToRedraw && status.needToRecalculate == old(status.needToRecalculate)
    {
      status.RequestRedraw();
    }

    /**
     * Adds a node (None stands for a null node). Recalculation is requested exactly when
     * the node manager accepts the node.
     */
    method AddNode(uiNode: Option<NodeRecord>) returns (r: Option<NodeId>)
      requires Valid()
      modifies nodeManager, status
      ensures Valid()
      ensures uiNode.None? ==> r.None?
      ensures r.None? ==> unchanged(nodeManager) && unchanged(status)
      ensures uiNode.Some? ==> (r.None? <==> uiNode.value.id != NullNodeId && uiNode.value.id in old(nodeManager.nodes))
      ensures r.Some? ==> Store(nodeManager.nodes, nodeManager.idGenerator)
                          == AddToStore(old(Store(nodeManager.nodes, nodeManager.idGenerator)), uiNode.value.id, uiNode.value.node)
      ensures r.Some? ==> r.value in nodeManager.nodes && r.value !in old(nodeManager.nodes)
      ensures r.Some? ==> status.needToRecalculate && status.needToRedraw == old(status.needToRedraw)
      ensures r.Some? ==> nodeManager.connections == old(nodeManager.connections) && nodeManager.groups == old(nodeManager.groups)
      ensures nodeManager.updateMode == old(nodeManager.updateMode)
    {
      if uiNode.None? {
        return None;
      }
      r := nodeManager.AddNode(uiNode.value.id, uiNode.value.node);
      if r.None? {
        assert nodeManager.nodes == old(nodeManager.nodes) && nodeManager.idGenerator == old(nodeManager.idGenerator);
        return None;
      }
      status.RequestRecalculate();
    }

    /**
     * Deletes a stored node: takes it out of the selection, invalidates its drawing and its
     * dependents' drawings, deletes it from the node manager and requests recalculation.
     * An unknown id changes nothing.
     */
    method DeleteNode(id: NodeId) returns (r: bool)
      requires Valid()
      modifies this, nodeManager, selectedNodes, status
      ensures Valid()
      ensures r <==> id in old(nodeManager.nodes)
      ensures !r ==> unchanged(this) && unchanged(nodeManager) && unchanged(selectedNodes) && unchanged(status)
      ensures r ==> selectedNodes.nodes == Without(old(selectedNodes.nodes), id)
      ensures r ==> drawingInvalidated == old(drawingInvalidated) + ({id} + old(DependentClosure(nodeManager.connections, id)))
      ensures r ==> nodeManager.nodes.Keys == old(nodeManager.nodes.Keys) - {id}
      ensures r ==> nodeManager.nodes == Invalidated(old(nodeManager.nodes) - {id}, old(DependentClosure(nodeManager.connections, id)))
      ensures r ==> nodeManager.connections == Detached(old(nodeManager.connections), {id})
      ensures r ==> nodeManager.groups == Stripped(old(nodeManager.groups), {id})
      ensures r ==> groupDrawingInvalidated
                    == old(groupDrawingInvalidated)
                       + GroupsTouching(old(nodeManager.groups), {id} + old(DependentClosure(nodeManager.connections, id)))
      ensures r ==> status.needToRecalculate && status.needToRedraw
      ensures old(SelectionStored()) ==> SelectionStored()
      ensures handlerCalls == old(handlerCalls)
      ensures nodeManager.idGenerator == old(nodeManager.idGenerator) && nodeManager.updateMode == old(nodeManager.updateMode)
    {
      if !nodeManager.ContainsNode(id) {
        return false;
      }
      selectedNodes.Erase(id);
      InvalidateNodeDrawing(id);
      r := nodeManager.DeleteNode(id);
      status.RequestRecalculate();
    }

    /** Replaces the selection by a copy of `newSelection` and requests a redraw. */
    method SetSelectedNodes(newSelection: NodeCollection)
      requires Valid() && newSelection.Valid()
      modifies selectedNodes, status
      ensures Valid()
      ensures selectedNodes.nodes == old(newSelection.nodes)
      ensures status.needToRedraw && status.needToRecalculate == old(status.needToRecalculate)
    {
      selectedNodes.Assign(newSelection);
      status.RequestRedraw();
    }

    /** Invalidates the drawing of the group that holds `id`, if any. */
    method InvalidateNodeGroupDrawing(id: NodeId)
      modifies this
      ensures groupDrawingInvalidated == old(groupDrawingInvalidated) + GroupsTouching(nodeManager.groups, {id})
      ensures drawingInvalidated == old(drawingInvalidated) && handlerCalls == old(handlerCalls)
    {
      groupDrawingInvalidated := groupDrawingInvalidated + GroupsTouching(nodeManager.groups, {id});
    }

    method InvalidateAllNodeGroupsDrawing()
      modifies this
      ensures groupDrawingInvalidated == old(groupDrawingInvalidated) + nodeManager.groups.Keys
      ensures drawingInvalidated == old(drawingInvalidated) && handlerCalls == old(handlerCalls)
    {
      groupDrawingInvalidated := groupDrawingInvalidated + nodeManager.groups.Keys;
    }

    method InvalidateAllNodesDrawing()
      modifies this
      ensures drawingInvalidated == old(drawingInvalidated) + nodeManager.nodes.Keys
      ensures groupDrawingInvalidated == old(groupDrawingInvalidated) && handlerCalls == old(handlerCalls)
    {
      drawingInvalidated := drawingInvalidated + nodeManager.nodes.Keys;
    }

    /** Invalidates the drawing of every node and of every group. */
    method InvalidateAllDrawings()
      modifies this
      ensures drawingInvalidated == old(drawingInvalidated) + nodeManager.nodes.Keys
      ensures groupDrawingInvalidated == old(groupDrawingInvalidated) + nodeManager.groups.Keys
      ensures handlerCalls == old(handlerCalls)
    {
      InvalidateAllNodesDrawing();
      InvalidateAllNodeGroupsDrawing();
    }

    /**
     * Invalidates the value of a stored node (and, through the node manager, of its
     * transitive dependents) and requests recalculation.
     */
    method InvalidateNodeValue(id: NodeId)
      requires Valid() && id in nodeManager.nodes
      modifies nodeManager, status
      ensures Valid()
      ensures nodeManager.nodes == Invalidated(old(nodeManager.nodes), {id} + DependentClosure(nodeManager.connections, id))
      ensures nodeManager.connections == old(nodeManager.connections) && nodeManager.groups == old(nodeManager.groups)
      ensures nodeManager.idGenerator == old(nodeManager.idGenerator) && nodeManager.updateMode == old(nodeManager.updateMode)
      ensures status.needToRecalculate && status.needToRedraw == old(status.needToRedraw)
    {
      nodeManager.InvalidateNodeValue(id);
      status.RequestRecalculate();
    }

    /**
     * Invalidates the drawing of `n`, of its group, and recursively of its dependents and
     * their groups; then requests a redraw. The recursion has no visited set: it ends
     * because the dependency relation is acyclic, each dependent having a strictly smaller
     * set of transitive dependents.
     */
    method InvalidateNodeDrawing(n: NodeId)
      requires Valid() && n in nodeManager.nodes
      modifies this, status
      ensures drawingInvalidated == old(drawingInvalidated) + ({n} + DependentClosure(nodeManager.connections, n))
      ensures groupDrawingInvalidated
           == old(groupDrawingInvalidated) + GroupsTouching(nodeManager.groups, {n} + DependentClosure(nodeManager.connections, n))
      ensures status.needToRedraw && status.needToRecalculate == old(status.needToRecalculate)
      ensures handlerCalls == old(handlerCalls)
      decreases |DependentClosure(nodeManager.connections, n)|, 2
    {
      drawingInvalidated := drawingInvalidated + {n};
      InvalidateNodeGroupDrawing(n);
      var deps := nodeManager.EnumerateDependentNodes(n);
      InvalidateDependentsDrawing(n, deps);
      ReachDependents(nodeManager.connections, nodeManager.groups, n, deps);
      status.RequestRedraw();
    }

    /** The loop of `InvalidateNodeDrawing` over the direct dependents `deps` of `n`. */
    method InvalidateDependentsDrawing(n: NodeId, deps: seq<NodeId>)
      requires Valid() && Elements(deps) == Dependents(nodeManager.connections, n)
      requires forall d | d in deps :: d in nodeManager.nodes
      modifies this, status
      ensures drawingInvalidated == old(drawingInvalidated) + ReachAll(nodeManager.connections, deps)
      ensures groupDrawingInvalidated == old(groupDrawingInvalidated) + GroupsTouching(nodeManager.groups, ReachAll(nodeManager.connections, deps))
      ensures status.needToRecalculate == old(status.needToRecalculate)
      ensures handlerCalls == old(handlerCalls)
      decreases |DependentClosure(nodeManager.connections, n)|, 1
    {
      ghost var conns := nodeManager.connections;
      ghost var groups := nodeManager.groups;
      var k := 0;
      while k < |deps|
        invariant 0 <= k <= |deps|
        invariant drawingInvalidated == old(drawingInvalidated) + ReachAll(conns, deps[..k])
        invariant groupDrawingInvalidated == old(groupDrawingInvalidated) + GroupsTouching(groups, ReachAll(conns, deps[..k]))
        invariant status.needToRecalculate == old(status.needToRecalculate)
        invariant handlerCalls == old(handlerCalls)
      {
        InvalidateDependentDrawing(n, deps, k);
        DrawingStep(conns, groups, deps, k);
        k := k + 1;
      }
      assert deps[..k] == deps;
    }

    /** One turn of the loop of `InvalidateDependentsDrawing`: the drawing of the k-th direct dependent. */
    method InvalidateDependentDrawing(n: NodeId, deps: seq<NodeId>, k: nat)
      requires Valid() && Elements(deps) == Dependents(nodeManager.connections, n)
      requires forall d | d in deps :: d in nodeManager.nodes
      requires k < |deps|
      modifies this, status
      ensures drawingInvalidated == old(drawingInvalidated) + ({deps[k]} + DependentClosure(nodeManager.connections, deps[k]))
      ensures groupDrawingInvalidated
           == old(groupDrawingInvalidated) + GroupsTouching(nodeManager.groups, {deps[k]} + DependentClosure(nodeManager.connections, deps[k]))
      ensures status.needToRecalculate == old(status.needToRecalculate)
      ensures handlerCalls == old(handlerCalls)
      decreases |DependentClosure(nodeManager.connections, n)|, 0
    {
      assert deps[k] in Elements(deps);
      ClosureShrinks(nodeManager.connections, n, deps[k]);
      InvalidateNodeDrawing(deps[k]);
    }

    /**
     * Invalidates the drawing of every node whose value is not up to date (and of their
     * dependents), then requests a redraw.
     */
    method InvalidateDrawingsForInvalidatedNodes()
      requires Valid()
      modifies this, status
      ensures drawingInvalidated == old(drawingInvalidated) + Downstream(nodeManager.connections, Stale(nodeManager.nodes))
      ensures groupDrawingInvalidated
           == old(groupDrawingInvalidated) + GroupsTouching(nodeManager.groups, Downstream(nodeManager.connections, Stale(nodeManager.nodes)))
      ensures status.needToRedraw && status.needToRecalculate == old(status.needToRecalculate)
      ensures handlerCalls == old(handlerCalls)
    {
      var stale := StaleNodes();
      InvalidateReachDrawing(stale);
      ReachAllDownstream(nodeManager.connections, stale);
      status.RequestRedraw();
    }

    /** The stored nodes whose value is not up to date, each once, in the table's iteration order. */
    method StaleNodes() returns (stale: seq<NodeId>)
      requires Valid()
      ensures forall j | 0 <= j < |stale| :: stale[j] in nodeManager.nodes
      ensures Elements(stale) == Stale(nodeManager.nodes)
    {
      var order := nodeManager.EnumerateNodes(id => true);
      stale := [];
      var k := 0;
      while k < |order|
        invariant 0 <= k <= |order|
        invariant forall j | 0 <= j < |stale| :: stale[j] in nodeManager.nodes
        invariant Elements(stale) == set id | id in order[..k] && nodeManager.nodes[id].status != UpToDate
      {
        var id := order[k];
        assert order[..k + 1] == order[..k] + [id];
        if nodeManager.nodes[id].status != UpToDate {
          ElementsConcat(stale, [id]);
          stale := stale + [id];
        }
        k := k + 1;
      }
      assert order[..k] == order;
    }

    /** Invalidates the drawings reached from each node of `ds` in turn, with their groups. */
    method InvalidateReachDrawing(ds: seq<NodeId>)
      requires Valid() && forall j | 0 <= j < |ds| :: ds[j] in nodeManager.nodes
      modifies this, status
      ensures drawingInvalidated == old(drawingInvalidated) + ReachAll(nodeManager.connections, ds)
      ensures groupDrawingInvalidated == old(groupDrawingInvalidated) + GroupsTouching(nodeManager.groups, ReachAll(nodeManager.connections, ds))
      ensures status.needToRecalculate == old(status.needToRecalculate)
      ensures handlerCalls == old(handlerCalls)
    {
      ghost var conns := nodeManager.connections;
      ghost var groups := nodeManager.groups;
      var k := 0;
      while k < |ds|
        invariant 0 <= k <= |ds|
        invariant drawingInvalidated == old(drawingInvalidated) + ReachAll(conns, ds[..k])
        invariant groupDrawingInvalidated == old(groupDrawingInvalidated) + GroupsTouching(groups, ReachAll(conns, ds[..k]))
        invariant status.needToRecalculate == old(status.needToRecalculate)
        invariant handlerCalls == old(handlerCalls)
      {
        InvalidateNodeDrawing(ds[k]);
        DrawingStep(conns, groups, ds, k);
        k := k + 1;
      }
      assert ds[..k] == ds;
    }

    /**
     * One update: evaluate when recalculation is pending (normally or forced, by mode),
     * notify, redraw when needed, then clear both flags. The nodes of `failing` cannot compute.
     */
    method UpdateInternal(mode: InternalUpdateMode, failing: set<NodeId>) returns (events: seq<UpdateEvent>)
      requires Valid()
      modifies nodeManager, status
      ensures Valid()
      ensures events == UpdateEvents(old(status.needToRecalculate), old(status.needToRedraw), mode)
      ensures !status.needToRecalculate && !status.needToRedraw
      ensures old(status.needToRecalculate) ==> nodeManager.nodes == Evaluated(old(nodeManager.nodes), failing, mode == InternalUpdateMode.Manual)
      ensures !old(status.needToRecalculate) ==> nodeManager.nodes == old(nodeManager.nodes)
      ensures nodeManager.connections == old(nodeManager.connections) && nodeManager.groups == old(nodeManager.groups)
      ensures nodeManager.idGenerator == old(nodeManager.idGenerator) && nodeManager.updateMode == old(nodeManager.updateMode)
    {
      events := [];
      if status.needToRecalculate {
        if mode == Normal {
          nodeManager.EvaluateAllNodes(failing);
          events := [EvaluatedAll];
        } else {
          nodeManager.ForceEvaluateAllNodes(failing);
          events := [ForceEvaluatedAll];
        }
        events := events + [ValuesRecalculated];
        status.RequestRedraw();
      }
      if status.needToRedraw {
        events := events + [RedrawRequested];
      }
      status.Reset();
    }

    method Update(failing: set<NodeId>) returns (events: seq<UpdateEvent>)
      requires Valid()
      modifies nodeManager, status
      ensures Valid()
      ensures events == UpdateEvents(old(status.needToRecalculate), old(status.needToRedraw), Normal)
      ensures !status.needToRecalculate && !status.needToRedraw
      ensures old(status.needToRecalculate) ==> nodeManager.nodes == Evaluated(old(nodeManager.nodes), failing, false)
      ensures !old(status.needToRecalculate) ==> nodeManager.nodes == old(nodeManager.nodes)
      ensures nodeManager.connections == old(nodeManager.connections) && nodeManager.groups == old(nodeManager.groups)
      ensures nodeManager.idGenerator == old(nodeManager.idGenerator) && nodeManager.updateMode == old(nodeManager.updateMode)
    {
      events := UpdateInternal(Normal, failing);
    }

    /**
     * A manual update: invalidate the drawings of the stale nodes first, then update with
     * forced evaluation. A redraw is therefore always requested.
     */
    method ManualUpdate(failing: set<NodeId>) returns (events: seq<UpdateEvent>)
      requires Valid()
      modifies this, nodeManager, status
      ensures Valid()
      ensures events == UpdateEvents(old(status.needToRecalculate), true, InternalUpdateMode.Manual)
      ensures events != [] && events[|events| - 1] == RedrawRequested
      ensures drawingInvalidated == old(drawingInvalidated) + Downstream(old(nodeManager.connections), Stale(old(nodeManager.nodes)))
      ensures groupDrawingInvalidated
           == old(groupDrawingInvalidated) + GroupsTouching(old(nodeManager.groups), Downstream(old(nodeManager.connections), Stale(old(nodeManager.nodes))))
      ensures !status.needToRecalculate && !status.needToRedraw
      ensures old(status.needToRecalculate) ==> nodeManager.nodes == Evaluated(old(nodeManager.nodes), failing, true)
      ensures !old(status.needToRecalculate) ==> nodeManager.nodes == old(nodeManager.nodes)
      ensures nodeManager.connections == old(nodeManager.connections) && nodeManager.groups == old(nodeManager.groups)
      ensures nodeManager.idGenerator == old(nodeManager.idGenerator) && nodeManager.updateMode == old(nodeManager.updateMode)
      ensures handlerCalls == old(handlerCalls)
    {
      InvalidateDrawingsForInvalidatedNodes();
      events := UpdateInternal(InternalUpdateMode.Manual, failing);
    }

    function GetUpdateMode(): (r: UpdateMode)
      reads nodeManager
    {
      nodeManager.GetUpdateMode()
    }

    method SetUpdateMode(mode: UpdateMode)
      modifies nodeManager
      ensures GetUpdateMode() == mode
      ensures nodeManager.nodes == old(nodeManager.nodes) && nodeManager.connections == old(nodeManager.connections)
      ensures nodeManager.groups == old(nodeManager.groups) && nodeManager.idGenerator == old(nodeManager.idGenerator)
    {
      nodeManager.SetUpdateMode(mode);
    }

    /** Empties the selection, the clipboard, the undo history and the graph; requests recalculation. */
    method Clear()
      requires Valid()
      modifies this, nodeManager, selectedNodes, status
      ensures Valid()
      ensures selectedNodes.nodes == []
      ensures handlerCalls == old(handlerCalls) + [ClipboardCleared, UndoHistoryCleared]
      ensures nodeManager.nodes == map[] && nodeManager.connections == {} && nodeManager.groups == map[]
      ensures nodeManager.idGenerator == old(nodeManager.idGenerator) && nodeManager.updateMode == old(nodeManager.updateMode)
      ensures status.needToRecalculate && status.needToRedraw == old(status.needToRedraw)
      ensures drawingInvalidated == old(drawingInvalidated) && groupDrawingInvalidated == old(groupDrawingInvalidated)
    {
      selectedNodes.Clear();
      handlerCalls := handlerCalls + [ClipboardCleared];
      handlerCalls := handlerCalls + [UndoHistoryCleared];
      nodeManager.Clear();
      status.RequestRecalculate();
    }

    /** Clears, then reads a saved graph; succeeds exactly when the stream reports no error. */
    method Load(stream: InputStream) returns (ok: bool)
      requires Valid()
      modifies this, nodeManager, selectedNodes, status
      ensures Valid()
      ensures ok <==> stream.status == NoError
      ensures selectedNodes.nodes == []
      ensures handlerCalls == old(handlerCalls) + [ClipboardCleared, UndoHistoryCleared]
      ensures nodeManager.nodes.Keys == ReadAll(Store(map[], old(nodeManager.idGenerator)), stream.records, KeepOriginalId).0.nodes.Keys
      ensures nodeManager.connections <= Elements(stream.connections) && nodeManager.groups == map[]
      ensures nodeManager.updateMode == old(nodeManager.updateMode)
      ensures status.needToRecalculate && status.needToRedraw == old(status.needToRedraw)
      ensures drawingInvalidated == old(drawingInvalidated) && groupDrawingInvalidated == old(groupDrawingInvalidated)
    {
      Clear();
      var readStatus := nodeManager.Read(stream);
      status.RequestRecalculate();
      ok := stream.status == NoError;
    }

    /** Hands the collection to the copy-paste handler, whose answer is `handlerResult`. */
    method Copy(nodes: NodeCollection, handlerResult: bool) returns (ok: bool)
      requires nodes.Valid()
      modifies this
      ensures ok == handlerResult
      ensures handlerCalls == old(handlerCalls) + [CopyRequested(nodes.nodes)]
      ensures drawingInvalidated == old(drawingInvalidated) && groupDrawingInvalidated == old(groupDrawingInvalidated)
    {
      handlerCalls := handlerCalls + [CopyRequested(nodes.nodes)];
      ok := handlerResult;
    }

    /**
     * Asks the copy-paste handler to paste; `pasted` is what it delivers (None: it fails).
     * Pasted nodes get generated ids, and the connections among them follow to those ids.
     * Both recalculation and redraw are requested.
     */
    method Paste(pasted: Option<Clipboard>) returns (ok: bool)
      requires Valid()
      requires pasted.Some? ==> PastableAt(nodeManager.idGenerator, pasted.value)
      modifies this, nodeManager, status
      ensures Valid()
      ensures ok <==> pasted.Some?
      ensures handlerCalls == old(handlerCalls) + [PasteRequested]
      ensures pasted.None? ==> unchanged(nodeManager)
      ensures pasted.Some? ==> nodeManager.nodes == old(nodeManager.nodes) + FreshTable(old(nodeManager.idGenerator), pasted.value.records)
      ensures pasted.Some? ==> nodeManager.idGenerator == old(nodeManager.idGenerator) + |pasted.value.records|
      ensures pasted.Some? ==>
                nodeManager.connections == old(nodeManager.connections) + Remapped(old(nodeManager.idGenerator), pasted.value.links)
      ensures nodeManager.groups == old(nodeManager.groups) && nodeManager.updateMode == old(nodeManager.updateMode)
      ensures status.needToRecalculate && status.needToRedraw
      ensures drawingInvalidated == old(drawingInvalidated) && groupDrawingInvalidated == old(groupDrawingInvalidated)
    {
      handlerCalls := handlerCalls + [PasteRequested];
      ok := pasted.Some?;
      if ok {
        nodeManager.ReadPasted(pasted.value);
      }
      status.RequestRecalculate();
      status.RequestRedraw();
    }

    method SaveUndoState()
      modifies this
      ensures handlerCalls == old(handlerCalls) + [UndoStateSaved]
      ensures drawingInvalidated == old(drawingInvalidated) && groupDrawingInvalidated == old(groupDrawingInvalidated)
    {
      handlerCalls := handlerCalls + [UndoStateSaved];
    }

    /**
     * Makes the graph hold `target`, first telling the merge event handler about every
     * stored node that `target` lacks, so the selection drops it.
     */
    method MergeFrom(target: Graph)
      requires Valid() && GraphValid(target.nodes, target.connections, target.groups)
      modifies nodeManager, selectedNodes, status
      ensures Valid()
      ensures nodeManager.nodes == target.nodes && nodeManager.connections == target.connections
      ensures nodeManager.groups == target.groups
      ensures selectedNodes.nodes == WithoutAll(old(selectedNodes.nodes), old(nodeManager.nodes.Keys) - target.nodes.Keys)
      ensures old(SelectionStored()) ==> SelectionStored()
      ensures status.needToRecalculate == old(status.needToRecalculate)
    {
      var handler := new NodeUIManagerMergeEventHandler(this);
      var order := nodeManager.EnumerateNodes(id => true);
      ghost var gone: set<NodeId> := {};
      WithoutNone(selectedNodes.nodes);
      var k := 0;
      while k < |order|
        invariant 0 <= k <= |order|
        invariant Valid()
        invariant nodeManager.nodes == old(nodeManager.nodes)
        invariant gone == set id | id in order[..k] && id !in target.nodes
        invariant selectedNodes.nodes == WithoutAll(old(selectedNodes.nodes), gone)
        invariant status.needToRecalculate == old(status.needToRecalculate)
      {
        var id := order[k];
        assert order[..k + 1] == order[..k] + [id];
        if id !in target.nodes {
          handler.BeforeNodeDelete(id);
          WithoutAllThenWithout(old(selectedNodes.nodes), gone, id);
          gone := gone + {id};
        }
        k := k + 1;
      }
      assert order[..k] == order;
      assert gone == old(nodeManager.nodes.Keys) - target.nodes.Keys;
      nodeManager.Replace(target);
    }

    /**
     * Asks the undo handler to step back; `target` is the snapshot it restores (None: it
     * fails). Then invalidates the drawings of stale nodes and requests recalculation.
     */
    method Undo(target: Option<Graph>) returns (ok: bool)
      requires Valid()
      requires target.Some? ==> GraphValid(target.value.nodes, target.value.connections, target.value.groups)
      modifies this, nodeManager, selectedNodes, status
      ensures Valid()
      ensures ok <==> target.Some?
      ensures handlerCalls == old(handlerCalls) + [UndoRequested]
      ensures target.None? ==> unchanged(nodeManager) && selectedNodes.nodes == old(selectedNodes.nodes)
      ensures target.Some? ==> nodeManager.nodes == target.value.nodes && nodeManager.connections == target.value.connections
      ensures target.Some? ==> nodeManager.groups == target.value.groups
      ensures target.Some? ==> selectedNodes.nodes == WithoutAll(old(selectedNodes.nodes), old(nodeManager.nodes.Keys) - target.value.nodes.Keys)
      ensures drawingInvalidated == old(drawingInvalidated) + Downstream(nodeManager.connections, Stale(nodeManager.nodes))
      ensures groupDrawingInvalidated
           == old(groupDrawingInvalidated) + GroupsTouching(nodeManager.groups, Downstream(nodeManager.connections, Stale(nodeManager.nodes)))
      ensures old(SelectionStored()) ==> SelectionStored()
      ensures status.needToRecalculate && status.needToRedraw
    {
      handlerCalls := handlerCalls + [UndoRequested];
      ok := target.Some?;
      if ok {
        MergeFrom(target.value);
      }
      InvalidateDrawingsForInvalidatedNodes();
      status.RequestRecalculate();
    }

    /** Like `Undo`, stepping forward in the history. */
    method Redo(target: Option<Graph>) returns (ok: bool)
      requires Valid()
      requires target.Some? ==> GraphValid(target.value.nodes, target.value.connections, target.value.groups)
      modifies this, nodeManager, selectedNodes, status
      ensures Valid()
      ensures ok <==> target.Some?
      ensures handlerCalls == old(handlerCalls) + [RedoRequested]
      ensures target.None? ==> unchanged(nodeManager) && selectedNodes.nodes == old(selectedNodes.nodes)
      ensures target.Some? ==> nodeManager.nodes == target.value.nodes && nodeManager.connections == target.value.connections
      ensures target.Some? ==> nodeManager.groups == target.value.groups
      ensures target.Some? ==> selectedNodes.nodes == WithoutAll(old(selectedNodes.nodes), old(nodeManager.nodes.Keys) - target.value.nodes.Keys)
      ensures drawingInvalidated == old(drawingInvalidated) + Downstream(nodeManager.connections, Stale(nodeManager.nodes))
      ensures groupDrawingInvalidated
           == old(groupDrawingInvalidated) + GroupsTouching(nodeManager.groups, Downstream(nodeManager.connections, Stale(nodeManager.nodes)))
      ensures old(SelectionStored()) ==> SelectionStored()
      ensures status.needToRecalculate && status.needToRedraw
    {
      handlerCalls := handlerCalls + [RedoRequested];
      ok := target.Some?;
      if ok {
        MergeFrom(target.value);
      }
      InvalidateDrawingsForInvalidatedNodes();
      status.RequestRecalculate();
    }

    /** Connects o -> i through the node manager, after requesting recalculation and invalidating drawings from i's node. */
    method ConnectOutputSlotToInputSlot(o: OutputSlot, i: InputSlot) returns (r: bool)
      requires Valid() && i.node in nodeManager.nodes
      modifies this, nodeManager, status
      ensures Valid()
      ensures r <==> old(nodeManager.Connectable(o, i))
      ensures r ==> nodeManager.connections == old(nodeManager.connections) + {Connection(o, i)}
      ensures r ==> nodeManager.nodes == Invalidated(old(nodeManager.nodes), {i.node} + DependentClosure(nodeManager.connections, i.node))
      ensures !r ==> nodeManager.connections == old(nodeManager.connections) && nodeManager.nodes == old(nodeManager.nodes)
      ensures nodeManager.idGenerator == old(nodeManager.idGenerator) && nodeManager.updateMode == old(nodeManager.updateMode)
      ensures drawingInvalidated == old(drawingInvalidated) + ({i.node} + old(DependentClosure(nodeManager.connections, i.node)))
      ensures nodeManager.groups == old(nodeManager.groups) && handlerCalls == old(handlerCalls)
      ensures groupDrawingInvalidated
           == old(groupDrawingInvalidated) + GroupsTouching(nodeManager.groups, {i.node} + old(DependentClosure(nodeManager.connections, i.node)))
      ensures status.needToRecalculate && status.needToRedraw
    {
      status.RequestRecalculate();
      InvalidateNodeDrawing(i.node);
      r := nodeManager.ConnectOutputSlotToInputSlot(o, i);
    }

    method DisconnectOutputSlotFromInputSlot(o: OutputSlot, i: InputSlot) returns (r: bool)
      requires Valid() && i.node in nodeManager.nodes
      modifies this, nodeManager, status
      ensures Valid()
      ensures r <==> old(nodeManager.IsOutputSlotConnectedToInputSlot(o, i))
      ensures nodeManager.connections == old(nodeManager.connections) - {Connection(o, i)}
      ensures r ==> nodeManager.nodes == Invalidated(old(nodeManager.nodes), {i.node} + DependentClosure(nodeManager.connections, i.node))
      ensures !r ==> nodeManager.nodes == old(nodeManager.nodes)
      ensures nodeManager.idGenerator == old(nodeManager.idGenerator) && nodeManager.updateMode == old(nodeManager.updateMode)
      ensures drawingInvalidated == old(drawingInvalidated) + ({i.node} + old(DependentClosure(nodeManager.connections, i.node)))
      ensures nodeManager.groups == old(nodeManager.groups) && handlerCalls == old(handlerCalls)
      ensures groupDrawingInvalidated
           == old(groupDrawingInvalidated) + GroupsTouching(nodeManager.groups, {i.node} + old(DependentClosure(nodeManager.connections, i.node)))
      ensures status.needToRecalculate && status.needToRedraw
    {
      status.RequestRecalculate();
      InvalidateNodeDrawing(i.node);
      r := nodeManager.DisconnectOutputSlotFromInputSlot(o, i);
    }

    method DisconnectAllInputSlotsFromOutputSlot(o: OutputSlot) returns (r: bool)
      requires Valid() && o.node in nodeManager.nodes
      modifies this, nodeManager, status
      ensures Valid()
      ensures r <==> OutputExists(old(nodeManager.nodes), o)
      ensures r ==> nodeManager.connections == set c | c in old(nodeManager.connections) && c.output != o
      ensures r ==> nodeManager.nodes
                    == Invalidated(old(nodeManager.nodes),
                                   Downstream(nodeManager.connections, set c | c in old(nodeManager.connections) && c.output == o :: c.input.node))
      ensures nodeManager.idGenerator == old(nodeManager.idGenerator) && nodeManager.updateMode == old(nodeManager.updateMode)
      ensures !r ==> nodeManager.connections == old(nodeManager.connections) && nodeManager.nodes == old(nodeManager.nodes)
      ensures !nodeManager.HasConnectedInputSlots(o) || !r
      ensures drawingInvalidated == old(drawingInvalidated) + ({o.node} + old(DependentClosure(nodeManager.connections, o.node)))
      ensures nodeManager.groups == old(nodeManager.groups) && handlerCalls == old(handlerCalls)
      ensures groupDrawingInvalidated
           == old(groupDrawingInvalidated) + GroupsTouching(nodeManager.groups, {o.node} + old(DependentClosure(nodeManager.connections, o.node)))
      ensures status.needToRecalculate && status.needToRedraw
    {
      status.RequestRecalculate();
      InvalidateNodeDrawing(o.node);
      r := nodeManager.DisconnectAllInputSlotsFromOutputSlot(o);
    }

    method DisconnectAllOutputSlotsFromInputSlot(i: InputSlot) returns (r: bool)
      requires Valid() && i.node in nodeManager.nodes
      modifies this, nodeManager, status
      ensures Valid()
      ensures r <==> InputExists(old(nodeManager.nodes), i)
      ensures r ==> nodeManager.connections == set c | c in old(nodeManager.connections) && c.input != i
      ensures r ==> nodeManager.nodes == Invalidated(old(nodeManager.nodes), {i.node} + DependentClosure(nodeManager.connections, i.node))
      ensures nodeManager.idGenerator == old(nodeManager.idGenerator) && nodeManager.updateMode == old(nodeManager.updateMode)
      ensures !r ==> nodeManager.connections == old(nodeManager.connections) && nodeManager.nodes == old(nodeManager.nodes)
      ensures !nodeManager.HasConnectedOutputSlots(i) || !r
      ensures drawingInvalidated == old(drawingInvalidated) + ({i.node} + old(DependentClosure(nodeManager.connections, i.node)))
      ensures nodeManager.groups == old(nodeManager.groups) && handlerCalls == old(handlerCalls)
      ensures groupDrawingInvalidated
           == old(groupDrawingInvalidated) + GroupsTouching(nodeManager.groups, {i.node} + old(DependentClosure(nodeManager.connections, i.node)))
      ensures status.needToRecalculate && status.needToRedraw
    {
      status.RequestRecalculate();
      InvalidateNodeDrawing(i.node);
      r := nodeManager.DisconnectAllOutputSlotsFromInputSlot(i);
    }

    /** Adds a group through the node manager, then invalidates every group drawing. */
    method AddUINodeGroup(g: GroupId, members: set<NodeId>) returns (r: bool)
      requires Valid()
      modifies this, nodeManager
      ensures Valid()
      ensures r <==> g !in old(nodeManager.groups) && members <= old(nodeManager.nodes).Keys
                     && forall id | id in members :: !old(nodeManager.IsGrouped(id))
      ensures nodeManager.groups == if r then old(nodeManager.groups)[g := members] else old(nodeManager.groups)
      ensures nodeManager.nodes == old(nodeManager.nodes) && nodeManager.connections == old(nodeManager.connections)
      ensures nodeManager.idGenerator == old(nodeManager.idGenerator) && nodeManager.updateMode == old(nodeManager.updateMode)
      ensures groupDrawingInvalidated == old(groupDrawingInvalidated) + nodeManager.groups.Keys
      ensures drawingInvalidated == old(drawingInvalidated) && handlerCalls == old(handlerCalls)
    {
      r := nodeManager.AddNodeGroup(g, members);
      InvalidateAllNodeGroupsDrawing();
    }

    method DeleteUINodeGroup(g: GroupId)
      requires Valid()
      modifies nodeManager
      ensures Valid()
      ensures nodeManager.groups == old(nodeManager.groups) - {g}
      ensures nodeManager.nodes == old(nodeManager.nodes) && nodeManager.connections == old(nodeManager.connections)
      ensures nodeManager.idGenerator == old(nodeManager.idGenerator) && nodeManager.updateMode == old(nodeManager.updateMode)
    {
      nodeManager.DeleteNodeGroup(g);
    }

    /** Takes every node of the collection out of its group, then invalidates every group drawing. */
    method RemoveNodesFromGroup(nodes: NodeCollection) returns (r: bool)
      requires Valid() && nodes.Valid()
      modifies this, nodeManager
      ensures Valid()
      ensures r
      ensures nodeManager.groups == Stripped(old(nodeManager.groups), Elements(nodes.nodes))
      ensures forall id | id in nodes.nodes :: !nodeManager.IsGrouped(id)
      ensures nodeManager.nodes == old(nodeManager.nodes) && nodeManager.connections == old(nodeManager.connections)
      ensures nodeManager.idGenerator == old(nodeManager.idGenerator) && nodeManager.updateMode == old(nodeManager.updateMode)
      ensures groupDrawingInvalidated == old(groupDrawingInvalidated) + nodeManager.groups.Keys
      ensures drawingInvalidated == old(drawingInvalidated) && handlerCalls == old(handlerCalls)
    {
      var k := 0;
      assert Elements(nodes.nodes[..0]) == {};
      StrippedNone(nodeManager.groups);
      while k < |nodes.nodes|
        invariant 0 <= k <= |nodes.nodes|
        invariant nodeManager.Valid()
        invariant nodeManager.groups == Stripped(old(nodeManager.groups), Elements(nodes.nodes[..k]))
        invariant nodeManager.nodes == old(nodeManager.nodes) && nodeManager.connections == old(nodeManager.connections)
        invariant nodeManager.idGenerator == old(nodeManager.idGenerator) && nodeManager.updateMode == old(nodeManager.updateMode)
        invariant groupDrawingInvalidated == old(groupDrawingInvalidated)
        invariant drawingInvalidated == old(drawingInvalidated) && handlerCalls == old(handlerCalls)
      {
        var id := nodes.nodes[k];
        nodeManager.RemoveNodeFromGroup(id);
        StrippedTwice(old(nodeManager.groups), Elements(nodes.nodes[..k]), {id});
        ElementsPrefix(nodes.nodes, k);
        k := k + 1;
      }
      assert nodes.nodes[..k] == nodes.nodes;
      forall id | id in nodes.nodes ensures !nodeManager.IsGrouped(id) {
        TouchingSingleton(nodeManager.groups, id);
      }
      InvalidateAllNodeGroupsDrawing();
      r := true;
    }
  }

  /** Keeps the selection in step while a merge deletes nodes. */
  class NodeUIManagerMergeEventHandler {
    const uiManager: NodeUIManager

    constructor (uiManager: NodeUIManager)
      ensures this.uiManager == uiManager
    {
      this.uiManager := uiManager;
    }

    /**
     * Before a merge deletes `id`: drops exactly `id` from the selection (which requests a
     * redraw). Nothing changes when no node has that id.
     */
    method BeforeNodeDelete(id: NodeId)
      requires uiManager.Valid()
      modifies uiManager.selectedNodes, uiManager.status
      ensures uiManager.Valid()
      ensures id !in uiManager.nodeManager.nodes ==> unchanged(uiManager.selectedNodes) && unchanged(uiManager.status)
      ensures id in uiManager.nodeManager.nodes ==> uiManager.selectedNodes.nodes == Without(old(uiManager.selectedNodes.nodes), id)
      ensures id in uiManager.nodeManager.nodes ==> uiManager.status.needToRedraw
      ensures uiManager.status.needToRecalculate == old(uiManager.status.needToRecalculate)
    {
      if uiManager.nodeManager.GetNode(id).None? {
        return;
      }
      var selection := new NodeCollection.Copy(uiManager.selectedNodes);
      selection.Erase(id);
      uiManager.SetSelectedNodes(selection);
    }
  }
}
