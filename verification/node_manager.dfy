/**
 * NodeManager: the graph store. It owns the node table (id to node), the connections, the
 * node groups, the id generator and the update mode. Node values are abstracted to each
 * node's calculation status.
 */
module NodeManagers {
  import opened Ids
  import opened Geometry
  import opened Graphs

  datatype Option<T> = None | Some(value: T)

  datatype IdHandlingPolicy = KeepOriginalId | GenerateNewId

  datatype StreamStatus = NoError | Error

  /** A node as it appears in a stream or a clipboard: the id it carries and its content. */
  datatype NodeRecord = NodeRecord(id: NodeId, node: Node)

  /**
   * A stream holding a saved graph: nodes, then connections. The byte framing is not
   * modelled; `status` is the status the stream reports after reading.
   */
  datatype InputStream = InputStream(status: StreamStatus, records: seq<NodeRecord>, connections: seq<Connection>)

  /**
   * A connection among clipboard records, by position in the clipboard: from an output
   * slot of record `from` to an input slot of record `to`.
   */
  datatype Link = Link(from: nat, output: SlotId, to: nat, input: SlotId)

  /** What a paste delivers: the copied nodes and the connections among them. */
  datatype Clipboard = Clipboard(records: seq<NodeRecord>, links: set<Link>)

  /** A whole graph, as an undo snapshot holds it. */
  datatype Graph = Graph(nodes: NodeTable, connections: set<Connection>, groups: GroupTable)

  /**
   * Decides which nodes `MergeTo` processes. `AllNodesFilter` is the one filter the store
   * defines; `IdSetFilter` stands for any other filter, which is a predicate on ids.
   */
  datatype NodeFilter = AllNodesFilter | IdSetFilter(accepted: set<NodeId>)

  function NeedToProcessNode(filter: NodeFilter, id: NodeId): (r: bool)
    ensures filter.AllNodesFilter? ==> r
    ensures filter.IdSetFilter? ==> (r <==> id in filter.accepted)
  {
    match filter
    case AllNodesFilter => true
    case IdSetFilter(accepted) => id in accepted
  }

  function Max(a: nat, b: nat): nat {
    if a < b then b else a
  }

  // ---------------------------------------------------------------- id assignment

  /** The node table with the id generator. */
  datatype Store = Store(nodes: NodeTable, gen: nat)

  /** Every stored id is a real id below the generator, so generated ids are fresh. */
  predicate StoreValid(s: Store) {
    forall id | id in s.nodes :: id.NodeId? && id.value < s.gen
  }

  /** A node as the store holds it just after it is added: it has no value yet. */
  function Stored(node: Node): Node {
    node.(status := NeedToCalculate)
  }

  /**
   * The id `AddNode` stores a node under: a generated id when the node carries none, the
   * node's own id when that is free, and NullNodeId (refusal) when it is taken.
   */
  function ChosenId(s: Store, id: NodeId): (r: NodeId)
    requires StoreValid(s)
    ensures r != NullNodeId ==> r !in s.nodes
    ensures r == NullNodeId <==> id != NullNodeId && id in s.nodes
  {
    if id == NullNodeId then NodeId(s.gen) else if id in s.nodes then NullNodeId else id
  }

  /** The store after `AddNode`. */
  function AddToStore(s: Store, id: NodeId, node: Node): (r: Store)
    requires StoreValid(s)
    ensures StoreValid(r) && s.gen <= r.gen
    ensures ChosenId(s, id) == NullNodeId ==> r == s
    ensures ChosenId(s, id) != NullNodeId ==> r.nodes == s.nodes[ChosenId(s, id) := Stored(node)]
  {
    var k := ChosenId(s, id);
    if k == NullNodeId then s else Store(s.nodes[k := Stored(node)], Max(s.gen, k.value + 1))
  }

  /** The store after reading `recs` one by one; reading stops at the first refused node. */
  function ReadAll(s: Store, recs: seq<NodeRecord>, policy: IdHandlingPolicy): (r: (Store, bool))
    requires StoreValid(s)
    ensures StoreValid(r.0)
    decreases |recs|
  {
    if recs == [] then (s, true)
    else
      var id := if policy == GenerateNewId then NullNodeId else recs[0].id;
      if ChosenId(s, id) == NullNodeId then (s, false)
      else ReadAll(AddToStore(s, id, recs[0].node), recs[1..], policy)
  }

  /** The nodes of `recs` under the consecutive ids gen, gen + 1, ... */
  function FreshTable(gen: nat, recs: seq<NodeRecord>): (r: NodeTable)
    ensures forall id :: id in r <==> id.NodeId? && gen <= id.value < gen + |recs|
    ensures forall k | 0 <= k < |recs| :: r[NodeId(gen + k)] == Stored(recs[k].node)
    decreases |recs|
  {
    if recs == [] then map[] else FreshTable(gen + 1, recs[1..])[NodeId(gen) := Stored(recs[0].node)]
  }

  /**
   * The links as connections between the ids the pasted records receive: record k gets
   * gen + k. Every end lies at or above `gen`, so no connection of the store is hit.
   */
  function Remapped(gen: nat, links: set<Link>): (r: set<Connection>)
    ensures forall c | c in r :: c.output.node.NodeId? && c.output.node.value >= gen
    ensures forall c | c in r :: c.input.node.NodeId? && c.input.node.value >= gen
    ensures forall l | l in links :: Connection(OutputSlot(NodeId(gen + l.from), l.output), InputSlot(NodeId(gen + l.to), l.input)) in r
  {
    set l | l in links :: Connection(OutputSlot(NodeId(gen + l.from), l.output), InputSlot(NodeId(gen + l.to), l.input))
  }

  /**
   * The clipboard holds a valid graph once its records take the ids gen, gen + 1, ...:
   * what copying the nodes of a valid graph with the connections among them yields.
   */
  ghost predicate PastableAt(gen: nat, clip: Clipboard) {
    GraphValid(FreshTable(gen, clip.records), Remapped(gen, clip.links), map[])
  }

  /** No two records carry the same id. */
  predicate DistinctIds(recs: seq<NodeRecord>) {
    forall i, j | 0 <= i < j < |recs| :: recs[i].id != recs[j].id
  }

  /**
   * Reading under GenerateNewId never fails, keeps every stored node and adds the records
   * under the next |recs| generated ids, in order.
   */
  lemma {:induction false} ReadAllGenerateNew(s: Store, recs: seq<NodeRecord>)
    requires StoreValid(s)
    ensures ReadAll(s, recs, GenerateNewId) == (Store(s.nodes + FreshTable(s.gen, recs), s.gen + |recs|), true)
    decreases |recs|
  {
    if recs != [] {
      var v := Stored(recs[0].node);
      var s' := Store(s.nodes[NodeId(s.gen) := v], s.gen + 1);
      assert AddToStore(s, NullNodeId, recs[0].node) == s';
      assert ReadAll(s, recs, GenerateNewId) == ReadAll(s', recs[1..], GenerateNewId);
      ReadAllGenerateNew(s', recs[1..]);
      var rest := FreshTable(s.gen + 1, recs[1..]);
      assert FreshTable(s.gen, recs) == rest[NodeId(s.gen) := v];
      UpdateThenMerge(s.nodes, NodeId(s.gen), v, rest);
    } else {
      assert s.nodes + FreshTable(s.gen, recs) == s.nodes;
    }
  }

  lemma UpdateThenMerge(m: NodeTable, k: NodeId, v: Node, rest: NodeTable)
    requires k !in rest
    ensures m + rest[k := v] == m[k := v] + rest
  {
  }

  /** `recs` lists each node of `source` that passes `filter` once, with its content. */
  ghost predicate RecordsOf(source: NodeTable, filter: NodeFilter, recs: seq<NodeRecord>) {
    && (forall j | 0 <= j < |recs| :: recs[j].id in source && recs[j].node == source[recs[j].id])
    && (forall id :: (exists j :: 0 <= j < |recs| && recs[j].id == id) <==> id in source && NeedToProcessNode(filter, id))
  }

  /**
   * `after` (with generator `gen'`) is `before` (with generator `gen`) plus a copy of the
   * nodes of `source` that pass `filter`, in some order, under the next generated ids.
   */
  ghost predicate FreshCopy(source: NodeTable, filter: NodeFilter, before: NodeTable, gen: nat, after: NodeTable, gen': nat) {
    exists recs: seq<NodeRecord> | RecordsOf(source, filter, recs) :: after == before + FreshTable(gen, recs) && gen' == gen + |recs|
  }

  /** In a fresh copy, each node that passes the filter has a copy at a newly generated id. */
  lemma FreshCopyHolds(source: NodeTable, filter: NodeFilter, before: NodeTable, gen: nat, after: NodeTable, gen': nat, id: NodeId)
    requires FreshCopy(source, filter, before, gen, after, gen')
    requires id in source && NeedToProcessNode(filter, id)
    ensures exists k: nat :: gen <= k < gen' && NodeId(k) in after && after[NodeId(k)] == Stored(source[id])
  {
    var recs: seq<NodeRecord> :| RecordsOf(source, filter, recs) && after == before + FreshTable(gen, recs) && gen' == gen + |recs|;
    var j := RecordIndex(source, filter, recs, id);
    var added := FreshTable(gen, recs);
    assert added[NodeId(gen + j)] == Stored(recs[j].node);
    assert after[NodeId(gen + j)] == Stored(source[id]);
  }

  /** Where a node that passes the filter sits among its records. */
  lemma RecordIndex(source: NodeTable, filter: NodeFilter, recs: seq<NodeRecord>, id: NodeId) returns (j: nat)
    requires RecordsOf(source, filter, recs)
    requires id in source && NeedToProcessNode(filter, id)
    ensures j < |recs| && recs[j].id == id && recs[j].node == source[id]
  {
    j :| 0 <= j < |recs| && recs[j].id == id;
  }

  /** In a fresh copy, each new id is a generated one holding a copy of a node that passes the filter. */
  lemma FreshCopyOnly(source: NodeTable, filter: NodeFilter, before: NodeTable, gen: nat, after: NodeTable, gen': nat, id: NodeId)
    requires FreshCopy(source, filter, before, gen, after, gen')
    requires id in after && id !in before
    ensures id.NodeId? && gen <= id.value < gen'
    ensures exists src | src in source && NeedToProcessNode(filter, src) :: after[id] == Stored(source[src])
  {
    var recs: seq<NodeRecord> :| RecordsOf(source, filter, recs) && after == before + FreshTable(gen, recs) && gen' == gen + |recs|;
    var added := FreshTable(gen, recs);
    assert id in added;
    var j := id.value - gen;
    assert id == NodeId(gen + j);
    assert after[id] == added[id] == Stored(recs[j].node);
    var src := recs[j].id;
    assert exists i :: 0 <= i < |recs| && recs[i].id == src;
  }

  /**
   * Reading under KeepOriginalId keeps every node already stored; on success every record
   * that carries an id is stored under exactly that id; and it succeeds whenever the records
   * carry distinct real ids that are not stored yet.
   */
  lemma {:induction false} ReadAllKeep(s: Store, recs: seq<NodeRecord>)
    requires StoreValid(s)
    ensures s.gen <= ReadAll(s, recs, KeepOriginalId).0.gen
    ensures forall id | id in s.nodes :: id in ReadAll(s, recs, KeepOriginalId).0.nodes
                                      && ReadAll(s, recs, KeepOriginalId).0.nodes[id] == s.nodes[id]
    ensures ReadAll(s, recs, KeepOriginalId).1 ==>
      forall k | 0 <= k < |recs| && recs[k].id != NullNodeId ::
        recs[k].id in ReadAll(s, recs, KeepOriginalId).0.nodes
        && ReadAll(s, recs, KeepOriginalId).0.nodes[recs[k].id] == Stored(recs[k].node)
    ensures (forall k | 0 <= k < |recs| :: recs[k].id != NullNodeId && recs[k].id !in s.nodes) && DistinctIds(recs) ==>
      ReadAll(s, recs, KeepOriginalId).1
    decreases |recs|
  {
    if recs != [] {
      var id := recs[0].id;
      if ChosenId(s, id) != NullNodeId {
        var s' := AddToStore(s, id, recs[0].node);
        var rest := recs[1..];
        ReadAllKeep(s', rest);
        assert ReadAll(s, recs, KeepOriginalId) == ReadAll(s', rest, KeepOriginalId);
        var r := ReadAll(s', rest, KeepOriginalId);
        if r.1 {
          forall k | 0 <= k < |recs| && recs[k].id != NullNodeId
            ensures recs[k].id in r.0.nodes && r.0.nodes[recs[k].id] == Stored(recs[k].node)
          {
            if k > 0 {
              assert recs[k] == rest[k - 1];
            }
          }
        }
        if (forall k | 0 <= k < |recs| :: recs[k].id != NullNodeId && recs[k].id !in s.nodes) && DistinctIds(recs) {
          forall k | 0 <= k < |rest| ensures rest[k].id != NullNodeId && rest[k].id !in s'.nodes {
            assert rest[k] == recs[k + 1];
          }
          assert DistinctIds(rest) by {
            forall i, j | 0 <= i < j < |rest| ensures rest[i].id != rest[j].id {
              assert rest[i] == recs[i + 1] && rest[j] == recs[j + 1];
            }
          }
        }
      }
    }
  }

  /** Reading under KeepOriginalId stores nothing but the old nodes and the records' own ids. */
  lemma {:induction false} ReadAllKeepOnly(s: Store, recs: seq<NodeRecord>)
    requires StoreValid(s)
    requires forall k | 0 <= k < |recs| :: recs[k].id != NullNodeId
    ensures ReadAll(s, recs, KeepOriginalId).0.nodes.Keys <= s.nodes.Keys + (set k | 0 <= k < |recs| :: recs[k].id)
    decreases |recs|
  {
    if recs != [] {
      var id := recs[0].id;
      if ChosenId(s, id) != NullNodeId {
        var s' := AddToStore(s, id, recs[0].node);
        var rest := recs[1..];
        assert s'.nodes.Keys == s.nodes.Keys + {id};
        forall k | 0 <= k < |rest| ensures rest[k].id != NullNodeId && rest[k].id in (set k | 0 <= k < |recs| :: recs[k].id) {
          assert rest[k] == recs[k + 1];
        }
        ReadAllKeepOnly(s', rest);
        assert ReadAll(s, recs, KeepOriginalId) == ReadAll(s', rest, KeepOriginalId);
      }
    }
  }

  // ---------------------------------------------------------------- connection queries

  /** The input slots an output slot feeds. */
  function InputsFedBy(conns: set<Connection>, o: OutputSlot): set<InputSlot> {
    set c | c in conns && c.output == o :: c.input
  }

  /** The output slots that feed an input slot. */
  function OutputsFeeding(conns: set<Connection>, i: InputSlot): set<OutputSlot> {
    set c | c in conns && c.input == i :: c.output
  }

  lemma FedByMeans(conns: set<Connection>, o: OutputSlot)
    ensures forall i :: i in InputsFedBy(conns, o) <==> Connection(o, i) in conns
  {
    forall i | Connection(o, i) in conns ensures i in InputsFedBy(conns, o) {
      var c := Connection(o, i);
      assert c in conns && c.output == o;
    }
  }

  lemma FeedingMeans(conns: set<Connection>, i: InputSlot)
    ensures forall o :: o in OutputsFeeding(conns, i) <==> Connection(o, i) in conns
  {
    forall o | Connection(o, i) in conns ensures o in OutputsFeeding(conns, i) {
      var c := Connection(o, i);
      assert c in conns && c.input == i;
    }
  }

  /** One more connection into `i` keeps the fan-in rule when `i` accepts several or has none yet. */
  lemma FanInAfterAdd(nodes: NodeTable, conns: set<Connection>, i: InputSlot)
    requires FanInRespected(nodes, conns) && InputExists(nodes, i)
    requires nodes[i.node].inputs[i.slot] == Multiple || OutputsFeeding(conns, i) == {}
    ensures forall o :: FanInRespected(nodes, conns + {Connection(o, i)})
  {
    FeedingMeans(conns, i);
  }

  lemma TouchingSingleton(groups: GroupTable, id: NodeId)
    ensures forall g :: g in GroupsTouching(groups, {id}) <==> g in groups && id in groups[g]
  {
    forall g | g in groups && id in groups[g] ensures g in GroupsTouching(groups, {id}) {
      assert id in groups[g] * {id};
    }
  }

  /** Invalidating two sets of nodes one after the other is invalidating their union. */
  lemma InvalidatedTwice(t: NodeTable, a: set<NodeId>, b: set<NodeId>)
    ensures Invalidated(Invalidated(t, a), b) == Invalidated(t, a + b)
  {
  }

  /** Invalidating downstream of some nodes and then of one more is invalidating downstream of all. */
  lemma InvalidatedDownstreamStep(t: NodeTable, conns: set<Connection>, ids: set<NodeId>, x: NodeId)
    ensures Invalidated(Invalidated(t, Downstream(conns, ids)), {x} + DependentClosure(conns, x))
         == Invalidated(t, Downstream(conns, ids + {x}))
  {
    DownstreamAdd(conns, ids, x);
    InvalidatedTwice(t, Downstream(conns, ids), {x} + DependentClosure(conns, x));
  }

  class NodeManager {
    var idGenerator: nat
    var nodes: NodeTable
    var connections: set<Connection>
    var groups: GroupTable
    var updateMode: UpdateMode

    ghost predicate Valid()
      reads this
    {
      GraphValid(nodes, connections, groups) && StoreValid(Store(nodes, idGenerator))
    }

    constructor ()
      ensures Valid()
      ensures nodes == map[] && connections == {} && groups == map[] && updateMode == Automatic
    {
      idGenerator := 1;
      nodes := map[];
      connections := {};
      groups := map[];
      updateMode := Automatic;
      EmptyAcyclic();
    }

    /** Removes every node, connection and group; ids already handed out stay used. */
    method Clear()
      modifies this
      ensures Valid()
      ensures nodes == map[] && connections == {} && groups == map[]
      ensures idGenerator == old(idGenerator) && updateMode == old(updateMode)
    {
      nodes := map[];
      connections := {};
      groups := map[];
      EmptyAcyclic();
    }

    function GetNodeCount(): (r: nat)
      reads this
      ensures r == |nodes.Keys|
      ensures r == 0 <==> nodes == map[]
    {
      |nodes|
    }

    function IsEmpty(): (r: bool)
      reads this
      requires Valid()
      ensures r <==> GetNodeCount() == 0
      ensures r <==> forall id :: !ContainsNode(id)
    {
      if nodes == map[] then true
      else
        var id :| id in nodes;
        assert ContainsNode(id);
        false
    }

    function GetConnectionCount(): (r: nat)
      reads this
      ensures r == |connections|
      ensures r == 0 <==> forall o, i :: !IsOutputSlotConnectedToInputSlot(o, i)
    {
      if |connections| == 0 then 0
      else
        var c :| c in connections;
        assert IsOutputSlotConnectedToInputSlot(c.output, c.input);
        |connections|
    }

    /** Whether a node with this id is stored; the null id never is. */
    function ContainsNode(id: NodeId): (r: bool)
      reads this
      requires Valid()
      ensures r <==> id in nodes
      ensures r ==> id != NullNodeId && id.value < idGenerator
    {
      id in nodes
    }

    /** The node stored under `id`, if any. */
    function GetNode(id: NodeId): (r: Option<Node>)
      reads this
      requires Valid()
      ensures r.Some? <==> ContainsNode(id)
      ensures r.Some? ==> r.value == nodes[id]
    {
      if id in nodes then Some(nodes[id]) else None
    }

    function IsOutputSlotConnectedToInputSlot(o: OutputSlot, i: InputSlot): (r: bool)
      reads this
    {
      Connection(o, i) in connections
    }

    /** Whether one more output slot may feed `i` without exceeding its fan-in. */
    function CanConnectMoreOutputSlotToInputSlot(i: InputSlot): (r: bool)
      reads this
      requires Valid()
      ensures !InputExists(nodes, i) ==> !r
      ensures r ==> forall o :: FanInRespected(nodes, connections + {Connection(o, i)})
      ensures InputExists(nodes, i) && nodes[i.node].inputs[i.slot] == Single ==> (r <==> !HasConnectedOutputSlots(i))
      ensures InputExists(nodes, i) && nodes[i.node].inputs[i.slot] == Multiple ==> r
    {
      FeedingMeans(connections, i);
      if InputExists(nodes, i) && (nodes[i.node].inputs[i.slot] == Multiple || OutputsFeeding(connections, i) == {}) then
        FanInAfterAdd(nodes, connections, i);
        true
      else
        false
    }

    function HasConnectedInputSlots(o: OutputSlot): (r: bool)
      reads this
      ensures r <==> exists i :: IsOutputSlotConnectedToInputSlot(o, i)
    {
      FedByMeans(connections, o);
      if InputsFedBy(connections, o) == {} then false
      else
        var i :| i in InputsFedBy(connections, o);
        assert IsOutputSlotConnectedToInputSlot(o, i);
        true
    }

    function HasConnectedOutputSlots(i: InputSlot): (r: bool)
      reads this
      ensures r <==> exists o :: IsOutputSlotConnectedToInputSlot(o, i)
    {
      FeedingMeans(connections, i);
      if OutputsFeeding(connections, i) == {} then false
      else
        var o :| o in OutputsFeeding(connections, i);
        assert IsOutputSlotConnectedToInputSlot(o, i);
        true
    }

    function GetConnectedInputSlotCount(o: OutputSlot): (r: nat)
      reads this
      ensures r == |InputsFedBy(connections, o)|
      ensures r == 0 <==> !HasConnectedInputSlots(o)
    {
      |InputsFedBy(connections, o)|
    }

    function GetConnectedOutputSlotCount(i: InputSlot): (r: nat)
      reads this
      ensures r == |OutputsFeeding(connections, i)|
      ensures r == 0 <==> !HasConnectedOutputSlots(i)
    {
      |OutputsFeeding(connections, i)|
    }

    /** The connection o -> i is allowed: the slots exist, it is new, fan-in and acyclicity hold. */
    ghost predicate Connectable(o: OutputSlot, i: InputSlot)
      reads this
      requires Valid()
    {
      && OutputExists(nodes, o)
      && InputExists(nodes, i)
      && !IsOutputSlotConnectedToInputSlot(o, i)
      && CanConnectMoreOutputSlotToInputSlot(i)
      && o.node != i.node
      && o.node !in DependentClosure(connections, i.node)
    }

    method CanConnectOutputSlotToInputSlot(o: OutputSlot, i: InputSlot) returns (r: bool)
      requires Valid()
      ensures r <==> Connectable(o, i)
      ensures r ==> GraphValid(nodes, connections + {Connection(o, i)}, groups)
    {
      if !OutputExists(nodes, o) || !InputExists(nodes, i) || IsOutputSlotConnectedToInputSlot(o, i)
         || !CanConnectMoreOutputSlotToInputSlot(i) || o.node == i.node {
        return false;
      }
      var above := EnumerateDependentNodesRecursive(i.node);
      r := o.node !in above;
      if r {
        ConnectKeepsAcyclic(connections, Connection(o, i));
      }
    }

    /** The node ids in the table's iteration order, stopping after the first false from `processor`. */
    method EnumerateNodes(processor: NodeId -> bool) returns (visited: seq<NodeId>)
      requires Valid()
      ensures Distinct(visited) && Elements(visited) <= nodes.Keys
      ensures nodes != map[] ==> visited != []
      ensures forall k | 0 <= k < |visited| - 1 :: processor(visited[k])
      ensures (visited == [] || processor(visited[|visited| - 1])) ==> Elements(visited) == nodes.Keys
    {
      var order := Ordered(nodes.Keys);
      visited := [];
      var i := 0;
      while i < |order|
        invariant 0 <= i <= |order|
        invariant visited == order[..i]
        invariant forall k | 0 <= k < i :: processor(order[k])
      {
        visited := visited + [order[i]];
        if !processor(order[i]) {
          return;
        }
        i := i + 1;
      }
      assert visited == order;
    }

    method EnumerateConnections() returns (r: seq<Connection>)
      ensures Distinct(r) && Elements(r) == connections
      ensures |r| == GetConnectionCount()
    {
      r := Ordered(connections);
      DistinctCardinality(r);
    }

    method EnumerateConnectedInputSlots(o: OutputSlot) returns (r: seq<InputSlot>)
      ensures Distinct(r)
      ensures forall i :: i in r <==> IsOutputSlotConnectedToInputSlot(o, i)
      ensures |r| == GetConnectedInputSlotCount(o)
      ensures |r| > 0 <==> HasConnectedInputSlots(o)
    {
      r := Ordered(InputsFedBy(connections, o));
      DistinctCardinality(r);
      FedByMeans(connections, o);
      assert forall i :: i in r <==> i in Elements(r);
    }

    method EnumerateConnectedOutputSlots(i: InputSlot) returns (r: seq<OutputSlot>)
      ensures Distinct(r)
      ensures forall o :: o in r <==> IsOutputSlotConnectedToInputSlot(o, i)
      ensures |r| == GetConnectedOutputSlotCount(i)
      ensures |r| > 0 <==> HasConnectedOutputSlots(i)
    {
      r := Ordered(OutputsFeeding(connections, i));
      DistinctCardinality(r);
      FeedingMeans(connections, i);
      assert forall o :: o in r <==> o in Elements(r);
    }

    /** The nodes fed directly by an output slot of `id`, each once. */
    method EnumerateDependentNodes(id: NodeId) returns (r: seq<NodeId>)
      requires Valid()
      ensures Distinct(r) && Elements(r) == Dependents(connections, id)
      ensures forall d :: d in r <==> exists o, i :: IsOutputSlotConnectedToInputSlot(o, i) && o.node == id && i.node == d
      ensures forall d | d in r :: d in nodes
    {
      r := Ordered(Dependents(connections, id));
      forall d ensures d in r <==> exists o, i :: IsOutputSlotConnectedToInputSlot(o, i) && o.node == id && i.node == d {
        assert d in r <==> d in Elements(r);
        if d in r {
          var c :| c in connections && c.output.node == id && c.input.node == d;
          assert IsOutputSlotConnectedToInputSlot(c.output, c.input);
        }
      }
    }

    /**
     * Every transitive dependent of `id`, each once: a worklist walk that keeps a visited
     * set, so shared dependents (diamonds) are reported once.
     */
    method EnumerateDependentNodesRecursive(id: NodeId) returns (r: seq<NodeId>)
      requires Valid()
      ensures Distinct(r) && Elements(r) == DependentClosure(connections, id)
      ensures id !in r
    {
      ghost var closure := DependentClosure(connections, id);
      ClosureClosedAbove(connections, id);
      var visited: set<NodeId> := {};
      var work := Dependents(connections, id);
      r := [];
      while work != {}
        invariant Distinct(r) && Elements(r) == visited
        invariant visited !! work
        invariant visited + work <= closure
        invariant Dependents(connections, id) <= visited + work
        invariant forall y | y in visited :: Dependents(connections, y) <= visited + work
        decreases closure - visited
      {
        var x :| x in work;
        ElementsConcat(r, [x]);
        r := r + [x];
        visited := visited + {x};
        work := (work - {x}) + (Dependents(connections, x) - visited);
      }
      assert ClosedAbove(connections, id, visited);
      ClosureLeast(connections, id, visited);
    }

    /** Invalidates the value of `id` and of every transitive dependent of it. */
    method InvalidateNodeValue(id: NodeId)
      requires Valid()
      modifies this
      ensures Valid()
      ensures nodes == Invalidated(old(nodes), {id} + DependentClosure(connections, id))
      ensures connections == old(connections) && groups == old(groups)
      ensures idGenerator == old(idGenerator) && updateMode == old(updateMode)
    {
      var above := EnumerateDependentNodesRecursive(id);
      nodes := Invalidated(nodes, {id} + Elements(above));
      SameShapesKeepValid(old(nodes), nodes, connections, groups);
    }

    /**
     * Stores `node` under its own id, or under a generated id when it carries none; refused
     * (None) when its id is already stored.
     */
    method AddNode(id: NodeId, node: Node) returns (r: Option<NodeId>)
      requires Valid()
      modifies this
      ensures Valid()
      ensures r.None? <==> id != NullNodeId && id in old(nodes)
      ensures r.None? ==> unchanged(this)
      ensures Store(nodes, idGenerator) == AddToStore(old(Store(nodes, idGenerator)), id, node)
      ensures r.Some? ==> r.value !in old(nodes) && r.value in nodes && nodes[r.value] == Stored(node)
      ensures r.Some? && id != NullNodeId ==> r.value == id
      ensures r.Some? && id == NullNodeId ==> r.value.value >= old(idGenerator)
      ensures connections == old(connections) && groups == old(groups) && updateMode == old(updateMode)
    {
      var k := ChosenId(Store(nodes, idGenerator), id);
      if k == NullNodeId {
        return None;
      }
      nodes := nodes[k := Stored(node)];
      idGenerator := Max(idGenerator, k.value + 1);
      r := Some(k);
    }

    /**
     * Removes the node, every connection touching it and its group membership, and
     * invalidates the values of its former transitive dependents. Unknown ids are refused.
     */
    method DeleteNode(id: NodeId) returns (r: bool)
      requires Valid()
      modifies this
      ensures Valid()
      ensures r <==> old(ContainsNode(id))
      ensures !ContainsNode(id)
      ensures !r ==> nodes == old(nodes) && connections == old(connections) && groups == old(groups)
      ensures r ==> connections == Detached(old(connections), {id})
      ensures r ==> nodes == Invalidated(old(nodes) - {id}, old(DependentClosure(connections, id)))
      ensures r ==> groups == Stripped(old(groups), {id})
      ensures idGenerator == old(idGenerator) && updateMode == old(updateMode)
    {
      if id !in nodes {
        return false;
      }
      var above := EnumerateDependentNodesRecursive(id);
      ghost var oldConns := connections;
      connections := Detached(connections, {id});
      AcyclicSubset(connections, oldConns);
      var remaining := nodes - {id};
      groups := Stripped(groups, {id});
      assert GraphValid(remaining, connections, groups);
      nodes := Invalidated(remaining, Elements(above));
      SameShapesKeepValid(remaining, nodes, connections, groups);
      r := true;
    }

    /** Adds o -> i when that is allowed, then invalidates the value of i's node and its dependents. */
    method ConnectOutputSlotToInputSlot(o: OutputSlot, i: InputSlot) returns (r: bool)
      requires Valid()
      modifies this
      ensures Valid()
      ensures r <==> old(Connectable(o, i))
      ensures IsOutputSlotConnectedToInputSlot(o, i) <==> r || old(IsOutputSlotConnectedToInputSlot(o, i))
      ensures r ==> connections == old(connections) + {Connection(o, i)}
      ensures r ==> nodes == Invalidated(old(nodes), {i.node} + DependentClosure(connections, i.node))
      ensures !r ==> nodes == old(nodes) && connections == old(connections)
      ensures groups == old(groups) && idGenerator == old(idGenerator) && updateMode == old(updateMode)
    {
      r := CanConnectOutputSlotToInputSlot(o, i);
      if r {
        connections := connections + {Connection(o, i)};
        InvalidateNodeValue(i.node);
      }
    }

    /** Removes exactly o -> i when present, then invalidates the value of i's node and its dependents. */
    method DisconnectOutputSlotFromInputSlot(o: OutputSlot, i: InputSlot) returns (r: bool)
      requires Valid()
      modifies this
      ensures Valid()
      ensures r <==> old(IsOutputSlotConnectedToInputSlot(o, i))
      ensures !IsOutputSlotConnectedToInputSlot(o, i)
      ensures connections == old(connections) - {Connection(o, i)}
      ensures r ==> nodes == Invalidated(old(nodes), {i.node} + DependentClosure(connections, i.node))
      ensures !r ==> nodes == old(nodes)
      ensures groups == old(groups) && idGenerator == old(idGenerator) && updateMode == old(updateMode)
    {
      r := Connection(o, i) in connections;
      if r {
        ghost var oldConns := connections;
        connections := connections - {Connection(o, i)};
        AcyclicSubset(connections, oldConns);
        InvalidateNodeValue(i.node);
      }
    }

    /** Invalidates each of `ids` with its transitive dependents. */
    method InvalidateAll(ids: set<NodeId>)
      requires Valid()
      modifies this
      ensures Valid()
      ensures nodes == Invalidated(old(nodes), Downstream(connections, ids))
      ensures connections == old(connections) && groups == old(groups)
      ensures idGenerator == old(idGenerator) && updateMode == old(updateMode)
    {
      var order := Ordered(ids);
      var k := 0;
      ghost var done: set<NodeId> := {};
      DownstreamEmpty(connections);
      InvalidatedTwice(nodes, {}, {});
      while k < |order|
        invariant 0 <= k <= |order|
        invariant Valid()
        invariant done == Elements(order[..k])
        invariant nodes == Invalidated(old(nodes), Downstream(connections, done))
        invariant connections == old(connections) && groups == old(groups)
        invariant idGenerator == old(idGenerator) && updateMode == old(updateMode)
      {
        InvalidateNodeValue(order[k]);
        InvalidatedDownstreamStep(old(nodes), connections, done, order[k]);
        assert order[..k + 1] == order[..k] + [order[k]];
        ElementsConcat(order[..k], [order[k]]);
        done := done + {order[k]};
        k := k + 1;
      }
      assert order[..k] == order;
    }

    /**
     * Removes every connection leaving `o` and invalidates the nodes it fed with their
     * dependents. Refused when `o` is not a slot of a stored node.
     */
    method DisconnectAllInputSlotsFromOutputSlot(o: OutputSlot) returns (r: bool)
      requires Valid()
      modifies this
      ensures Valid()
      ensures r <==> OutputExists(old(nodes), o)
      ensures !r ==> nodes == old(nodes) && connections == old(connections)
      ensures r ==> !HasConnectedInputSlots(o)
      ensures r ==> connections == set c | c in old(connections) && c.output != o
      ensures r ==> nodes == Invalidated(old(nodes), Downstream(connections, set c | c in old(connections) && c.output == o :: c.input.node))
      ensures groups == old(groups) && idGenerator == old(idGenerator) && updateMode == old(updateMode)
    {
      if !OutputExists(nodes, o) {
        return false;
      }
      var fed := set c | c in connections && c.output == o :: c.input.node;
      ghost var oldConns := connections;
      connections := set c | c in connections && c.output != o;
      AcyclicSubset(connections, oldConns);
      InvalidateAll(fed);
      r := true;
    }

    /**
     * Removes every connection entering `i` and invalidates the node of `i` with its
     * dependents. Refused when `i` is not a slot of a stored node.
     */
    method DisconnectAllOutputSlotsFromInputSlot(i: InputSlot) returns (r: bool)
      requires Valid()
      modifies this
      ensures Valid()
      ensures r <==> InputExists(old(nodes), i)
      ensures !r ==> nodes == old(nodes) && connections == old(connections)
      ensures r ==> !HasConnectedOutputSlots(i)
      ensures r ==> connections == set c | c in old(connections) && c.input != i
      ensures r ==> nodes == Invalidated(old(nodes), {i.node} + DependentClosure(connections, i.node))
      ensures groups == old(groups) && idGenerator == old(idGenerator) && updateMode == old(updateMode)
    {
      if !InputExists(nodes, i) {
        return false;
      }
      ghost var oldConns := connections;
      connections := set c | c in connections && c.input != i;
      AcyclicSubset(connections, oldConns);
      InvalidateNodeValue(i.node);
      r := true;
    }

    /** Computes every node that is not up to date; the nodes of `failing` cannot compute. */
    method EvaluateAllNodes(failing: set<NodeId>)
      requires Valid()
      modifies this
      ensures Valid()
      ensures nodes == Evaluated(old(nodes), failing, false)
      ensures connections == old(connections) && groups == old(groups)
      ensures idGenerator == old(idGenerator) && updateMode == old(updateMode)
    {
      nodes := Evaluated(nodes, failing, false);
      SameShapesKeepValid(old(nodes), nodes, connections, groups);
    }

    /** Recomputes every node, up to date or not; the nodes of `failing` cannot compute. */
    method ForceEvaluateAllNodes(failing: set<NodeId>)
      requires Valid()
      modifies this
      ensures Valid()
      ensures nodes == Evaluated(old(nodes), failing, true)
      ensures connections == old(connections) && groups == old(groups)
      ensures idGenerator == old(idGenerator) && updateMode == old(updateMode)
    {
      nodes := Evaluated(nodes, failing, true);
      SameShapesKeepValid(old(nodes), nodes, connections, groups);
    }

    /** Moves one stored node (the node's own position setter); nothing else changes. */
    method SetNodePosition(id: NodeId, p: Point)
      requires Valid() && id in nodes
      modifies this
      ensures Valid()
      ensures nodes == old(nodes)[id := old(nodes)[id].(position := p)]
      ensures connections == old(connections) && groups == old(groups)
      ensures idGenerator == old(idGenerator) && updateMode == old(updateMode)
    {
      nodes := nodes[id := nodes[id].(position := p)];
      SameShapesKeepValid(old(nodes), nodes, connections, groups);
    }

    function GetUpdateMode(): (r: UpdateMode)
      reads this
    {
      updateMode
    }

    method SetUpdateMode(mode: UpdateMode)
      modifies this
      ensures updateMode == mode
      ensures nodes == old(nodes) && connections == old(connections) && groups == old(groups)
      ensures idGenerator == old(idGenerator)
    {
      updateMode := mode;
    }

    // ------------------------------------------------------------ groups

    /** Whether `id` belongs to some group. */
    function IsGrouped(id: NodeId): (r: bool)
      reads this
      ensures r <==> GroupsTouching(groups, {id}) != {}
    {
      TouchingSingleton(groups, id);
      exists g | g in groups :: id in groups[g]
    }

    /**
     * Adds a group of stored nodes. Refused when the group is already present or one of
     * its members is missing or already in another group.
     */
    method AddNodeGroup(g: GroupId, members: set<NodeId>) returns (r: bool)
      requires Valid()
      modifies this
      ensures Valid()
      ensures r <==> g !in old(groups) && members <= old(nodes).Keys && forall id | id in members :: !old(IsGrouped(id))
      ensures groups == if r then old(groups)[g := members] else old(groups)
      ensures nodes == old(nodes) && connections == old(connections)
      ensures idGenerator == old(idGenerator) && updateMode == old(updateMode)
    {
      r := g !in groups && members <= nodes.Keys && forall id | id in members :: !IsGrouped(id);
      if r {
        groups := groups[g := members];
      }
    }

    method DeleteNodeGroup(g: GroupId)
      requires Valid()
      modifies this
      ensures Valid()
      ensures groups == old(groups) - {g}
      ensures nodes == old(nodes) && connections == old(connections)
      ensures idGenerator == old(idGenerator) && updateMode == old(updateMode)
    {
      groups := groups - {g};
    }

    /** Takes `id` out of the group that holds it, if any. */
    method RemoveNodeFromGroup(id: NodeId)
      requires Valid()
      modifies this
      ensures Valid()
      ensures groups == Stripped(old(groups), {id})
      ensures !IsGrouped(id)
      ensures nodes == old(nodes) && connections == old(connections)
      ensures idGenerator == old(idGenerator) && updateMode == old(updateMode)
    {
      groups := Stripped(groups, {id});
    }

    // ------------------------------------------------------------ reading and merging

    /**
     * Adds the nodes of `recs` one by one: under KeepOriginalId with the ids they carry,
     * under GenerateNewId with generated ids. Stops at the first node that is refused.
     */
    method ReadNodes(recs: seq<NodeRecord>, policy: IdHandlingPolicy) returns (ok: bool)
      requires Valid()
      modifies this
      ensures Valid()
      ensures (Store(nodes, idGenerator), ok) == ReadAll(old(Store(nodes, idGenerator)), recs, policy)
      ensures connections == old(connections) && groups == old(groups) && updateMode == old(updateMode)
    {
      var k := 0;
      while k < |recs|
        invariant 0 <= k <= |recs|
        invariant Valid()
        invariant ReadAll(Store(nodes, idGenerator), recs[k..], policy) == ReadAll(old(Store(nodes, idGenerator)), recs, policy)
        invariant connections == old(connections) && groups == old(groups) && updateMode == old(updateMode)
      {
        var id := if policy == GenerateNewId then NullNodeId else recs[k].id;
        assert recs[k..][1..] == recs[k + 1..];
        var added := AddNode(id, recs[k].node);
        if added.None? {
          return false;
        }
        k := k + 1;
      }
      ok := true;
    }

    /**
     * Pastes a clipboard: reads its records under generated ids, then adds its links as
     * connections between those ids. The store's own nodes and connections stay.
     */
    method ReadPasted(clip: Clipboard)
      requires Valid() && PastableAt(idGenerator, clip)
      modifies this
      ensures Valid()
      ensures nodes == old(nodes) + FreshTable(old(idGenerator), clip.records)
      ensures idGenerator == old(idGenerator) + |clip.records|
      ensures connections == old(connections) + Remapped(old(idGenerator), clip.links)
      ensures groups == old(groups) && updateMode == old(updateMode)
    {
      var gen := idGenerator;
      ghost var oldNodes := nodes;
      ReadAllGenerateNew(Store(nodes, idGenerator), clip.records);
      var ok := ReadNodes(clip.records, GenerateNewId);
      var pasted := Remapped(gen, clip.links);
      DisjointUnionValid(oldNodes, connections, groups, FreshTable(gen, clip.records), pasted);
      connections := connections + pasted;
    }

    /**
     * Reads a saved graph: clears the store, reads the nodes with their own ids, then the
     * connections (each one only where it is allowed). Returns the stream's status.
     */
    method Read(stream: InputStream) returns (status: StreamStatus)
      requires Valid()
      modifies this
      ensures Valid()
      ensures status == stream.status
      ensures Store(nodes, idGenerator).nodes.Keys == ReadAll(Store(map[], old(idGenerator)), stream.records, KeepOriginalId).0.nodes.Keys
      ensures connections <= Elements(stream.connections)
      ensures groups == map[] && updateMode == old(updateMode)
    {
      Clear();
      var ok := ReadNodes(stream.records, KeepOriginalId);
      ghost var readKeys := nodes.Keys;
      var k := 0;
      while k < |stream.connections|
        invariant 0 <= k <= |stream.connections|
        invariant Valid()
        invariant nodes.Keys == readKeys
        invariant connections <= Elements(stream.connections[..k])
        invariant groups == map[] && updateMode == old(updateMode)
      {
        var c := stream.connections[k];
        var connected := ConnectOutputSlotToInputSlot(c.output, c.input);
        assert stream.connections[..k + 1] == stream.connections[..k] + [c];
        ElementsConcat(stream.connections[..k], [c]);
        k := k + 1;
      }
      assert stream.connections[..k] == stream.connections;
      status := stream.status;
    }

    /** The nodes that pass `filter`, as records carrying their own ids, in the table's iteration order. */
    method FilteredRecords(filter: NodeFilter) returns (recs: seq<NodeRecord>)
      ensures forall j | 0 <= j < |recs| :: recs[j].id in nodes && recs[j].node == nodes[recs[j].id]
      ensures DistinctIds(recs)
      ensures forall id :: (exists j :: 0 <= j < |recs| && recs[j].id == id) <==> id in nodes && NeedToProcessNode(filter, id)
    {
      var order := Ordered(nodes.Keys);
      recs := [];
      var k := 0;
      while k < |order|
        invariant 0 <= k <= |order|
        invariant forall j | 0 <= j < |recs| :: recs[j].id in nodes && recs[j].node == nodes[recs[j].id]
        invariant DistinctIds(recs)
        invariant forall j | 0 <= j < |recs| :: recs[j].id in order[..k]
        invariant forall id :: (exists j :: 0 <= j < |recs| && recs[j].id == id) <==> id in order[..k] && NeedToProcessNode(filter, id)
      {
        var id := order[k];
        assert order[..k + 1] == order[..k] + [id];
        assert forall x :: x in order[..k + 1] <==> x in order[..k] || x == id;
        assert id !in order[..k];
        ghost var prev := recs;
        if NeedToProcessNode(filter, id) {
          recs := recs + [NodeRecord(id, nodes[id])];
          assert forall j | 0 <= j < |prev| :: recs[j] == prev[j];
          assert recs[|prev|].id == id;
        }
        forall x ensures (exists j :: 0 <= j < |recs| && recs[j].id == x) <==> x in order[..k + 1] && NeedToProcessNode(filter, x) {
          if x in order[..k] && NeedToProcessNode(filter, x) {
            var j :| 0 <= j < |prev| && prev[j].id == x;
            assert recs[j].id == x;
          }
          if exists j :: 0 <= j < |recs| && recs[j].id == x {
            var j :| 0 <= j < |recs| && recs[j].id == x;
            if j < |prev| {
              assert prev[j].id == x;
            }
          }
        }
        k := k + 1;
      }
      assert order[..k] == order;
    }

    /**
     * Copies the nodes that pass `filter` into `target`: under KeepOriginalId with their own
     * ids, failing when `target` already holds one of them; under GenerateNewId with the
     * target's next generated ids, which never fails.
     */
    method MergeTo(target: NodeManager, filter: NodeFilter, policy: IdHandlingPolicy) returns (ok: bool)
      requires Valid() && target.Valid() && target != this
      modifies target
      ensures target.Valid()
      ensures forall id | id in old(target.nodes) :: id in target.nodes && target.nodes[id] == old(target.nodes)[id]
      ensures policy == KeepOriginalId && ok ==>
                forall id | id in nodes && NeedToProcessNode(filter, id) :: id in target.nodes && target.nodes[id] == Stored(nodes[id])
      ensures policy == KeepOriginalId && (forall id | id in nodes && NeedToProcessNode(filter, id) :: id !in old(target.nodes)) ==> ok
      ensures policy == KeepOriginalId && ok ==>
                target.nodes.Keys == old(target.nodes.Keys) + (set id | id in nodes && NeedToProcessNode(filter, id))
      ensures policy == GenerateNewId ==> ok
      ensures policy == GenerateNewId ==>
                FreshCopy(nodes, filter, old(target.nodes), old(target.idGenerator), target.nodes, target.idGenerator)
      ensures target.connections == old(target.connections) && target.groups == old(target.groups)
      ensures target.updateMode == old(target.updateMode)
    {
      var recs := FilteredRecords(filter);
      ghost var before := Store(target.nodes, target.idGenerator);
      ok := target.ReadNodes(recs, policy);
      if policy == KeepOriginalId {
        ReadAllKeep(before, recs);
        ReadAllKeepOnly(before, recs);
        if ok {
          forall id | id in nodes && NeedToProcessNode(filter, id)
            ensures id in target.nodes && target.nodes[id] == Stored(nodes[id])
          {
            var j :| 0 <= j < |recs| && recs[j].id == id;
          }
          assert (set k | 0 <= k < |recs| :: recs[k].id) == (set id | id in nodes && NeedToProcessNode(filter, id));
        }
      } else {
        ReadAllGenerateNew(before, recs);
        assert RecordsOf(nodes, filter, recs);
      }
    }

    /** Makes the store hold `g` (an undo or redo step); generated ids stay fresh. */
    method Replace(g: Graph)
      requires Valid()
      requires GraphValid(g.nodes, g.connections, g.groups)
      modifies this
      ensures Valid()
      ensures nodes == g.nodes && connections == g.connections && groups == g.groups
      ensures idGenerator >= old(idGenerator) && updateMode == old(updateMode)
    {
      var order := Ordered(g.nodes.Keys);
      var gen := idGenerator;
      var k := 0;
      while k < |order|
        invariant 0 <= k <= |order|
        invariant gen >= idGenerator
        invariant forall j | 0 <= j < k :: order[j].NodeId? && order[j].value < gen
      {
        gen := Max(gen, order[k].value + 1);
        k := k + 1;
      }
      assert forall id | id in g.nodes :: id in order;
      nodes, connections, groups, idGenerator := g.nodes, g.connections, g.groups, gen;
    }
  }
}
