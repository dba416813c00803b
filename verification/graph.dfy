/**
 * The graph a node manager stores, as values: nodes keyed by id, connections from output
 * slots to input slots, node groups. Dependency between nodes follows the connections:
 * a node depends on every node that feeds one of its input slots.
 */
module Graphs {
  import opened Ids
  import opened Geometry

  /** How many output slots an input slot accepts. */
  datatype ConnectionMode = Single | Multiple

  datatype CalculationStatus = UpToDate | NeedToCalculate | NeedToCalculateButDisabled

  datatype UpdateMode = Automatic | Manual

  /** A node: its slots, its calculation status (standing for its cached value) and its position. */
  datatype Node = Node(
    inputs: map<SlotId, ConnectionMode>,
    outputs: set<SlotId>,
    status: CalculationStatus,
    position: Point)

  /** A directed edge from an output slot to an input slot. */
  datatype Connection = Connection(output: OutputSlot, input: InputSlot)

  type NodeTable = map<NodeId, Node>

  type GroupTable = map<GroupId, set<NodeId>>

  // ---------------------------------------------------------------- dependency

  /** The nodes fed directly by an output slot of `n`. */
  function Dependents(conns: set<Connection>, n: NodeId): set<NodeId> {
    set c | c in conns && c.output.node == n :: c.input.node
  }

  /** Every node that some connection feeds. */
  function Targets(conns: set<Connection>): set<NodeId> {
    set c | c in conns :: c.input.node
  }

  /** `s` contains the dependents of each of its members. */
  ghost predicate Closed(conns: set<Connection>, s: set<NodeId>) {
    forall y | y in s :: Dependents(conns, y) <= s
  }

  /** `s` contains the dependents of `n` and is closed. */
  ghost predicate ClosedAbove(conns: set<Connection>, n: NodeId, s: set<NodeId>) {
    Dependents(conns, n) <= s && Closed(conns, s)
  }

  /**
   * The transitive dependents of `n`: the nodes that lie in every closed set containing the
   * direct dependents of `n`.
   */
  ghost function DependentClosure(conns: set<Connection>, n: NodeId): set<NodeId> {
    set x | x in Targets(conns) && forall s: set<NodeId> {:trigger ClosedAbove(conns, n, s)} :: ClosedAbove(conns, n, s) ==> x in s
  }

  /** No node is its own transitive dependent. */
  ghost predicate Acyclic(conns: set<Connection>) {
    forall n :: n !in DependentClosure(conns, n)
  }

  /** Some nodes together with all their transitive dependents. */
  ghost function Downstream(conns: set<Connection>, ids: set<NodeId>): set<NodeId> {
    ids + set y, x | y in ids && x in DependentClosure(conns, y) :: x
  }

  lemma SubsetCardinality<T>(a: set<T>, b: set<T>)
    requires a <= b
    ensures |a| <= |b|
  {
    if a != {} {
      var x :| x in a;
      SubsetCardinality(a - {x}, b - {x});
    }
  }

  /** The closure is contained in every closed set above `n`. */
  lemma ClosureLeast(conns: set<Connection>, n: NodeId, s: set<NodeId>)
    requires ClosedAbove(conns, n, s)
    ensures DependentClosure(conns, n) <= s
  {
  }

  /** The closure holds the direct dependents and is closed. */
  lemma ClosureClosedAbove(conns: set<Connection>, n: NodeId)
    ensures ClosedAbove(conns, n, DependentClosure(conns, n))
  {
    var c := DependentClosure(conns, n);
    forall x | x in Dependents(conns, n) ensures x in c {
      forall s | ClosedAbove(conns, n, s) ensures x in s {
      }
    }
    forall y, x | y in c && x in Dependents(conns, y) ensures x in c {
      forall s | ClosedAbove(conns, n, s) ensures x in s {
        assert y in s;
      }
    }
  }

  /** A transitive dependent's own dependents are transitive dependents. */
  lemma ClosureTransitive(conns: set<Connection>, n: NodeId, m: NodeId)
    requires m in DependentClosure(conns, n)
    ensures DependentClosure(conns, m) <= DependentClosure(conns, n)
  {
    ClosureClosedAbove(conns, n);
    ClosureLeast(conns, m, DependentClosure(conns, n));
  }

  /** In an acyclic graph the closure of a direct dependent is strictly smaller. */
  lemma ClosureShrinks(conns: set<Connection>, n: NodeId, d: NodeId)
    requires Acyclic(conns) && d in Dependents(conns, n)
    ensures |DependentClosure(conns, d)| < |DependentClosure(conns, n)|
  {
    var cn := DependentClosure(conns, n);
    var cd := DependentClosure(conns, d);
    ClosureClosedAbove(conns, n);
    assert d in cn;
    ClosureTransitive(conns, n, d);
    assert d !in cd;
    SubsetCardinality(cd, cn - {d});
  }

  /** Fewer connections give fewer transitive dependents. */
  lemma ClosureMonotone(small: set<Connection>, big: set<Connection>, n: NodeId)
    requires small <= big
    ensures DependentClosure(small, n) <= DependentClosure(big, n)
  {
    var cb := DependentClosure(big, n);
    ClosureClosedAbove(big, n);
    forall y ensures Dependents(small, y) <= Dependents(big, y) {
    }
    assert ClosedAbove(small, n, cb);
    ClosureLeast(small, n, cb);
  }

  /** Removing connections keeps a graph acyclic. */
  lemma AcyclicSubset(small: set<Connection>, big: set<Connection>)
    requires small <= big && Acyclic(big)
    ensures Acyclic(small)
  {
    forall n ensures n !in DependentClosure(small, n) {
      ClosureMonotone(small, big, n);
    }
  }

  lemma EmptyAcyclic()
    ensures Acyclic({})
  {
    forall n ensures n !in DependentClosure({}, n) {
      assert Targets({}) == {};
    }
  }

  lemma DependentsAdd(conns: set<Connection>, c: Connection, y: NodeId)
    ensures Dependents(conns + {c}, y)
         == Dependents(conns, y) + (if c.output.node == y then {c.input.node} else {})
  {
  }

  /**
   * Adding an edge o -> i keeps the graph acyclic when o is neither i nor a transitive
   * dependent of i.
   */
  lemma {:induction false} ConnectKeepsAcyclic(conns: set<Connection>, c: Connection)
    requires Acyclic(conns)
    requires c.output.node != c.input.node
    requires c.output.node !in DependentClosure(conns, c.input.node)
    ensures Acyclic(conns + {c})
  {
    var o, i := c.output.node, c.input.node;
    var big := conns + {c};
    forall x ensures x !in DependentClosure(big, x) {
      ClosureClosedAbove(conns, x);
      var cx := DependentClosure(conns, x);
      if o == x || o in cx {
        ClosureClosedAbove(conns, i);
        var ci := DependentClosure(conns, i);
        var s := cx + {i} + ci;
        DependentsAdd(conns, c, x);
        forall y | y in s ensures Dependents(big, y) <= s {
          DependentsAdd(conns, c, y);
        }
        assert ClosedAbove(big, x, s);
        ClosureLeast(big, x, s);
        assert x != i;
        if x in ci {
          ClosureTransitive(conns, i, x);
          assert false;
        }
      } else {
        forall y | y in cx ensures Dependents(big, y) <= cx {
          DependentsAdd(conns, c, y);
        }
        DependentsAdd(conns, c, x);
        ClosureLeast(big, x, cx);
      }
    }
  }

  /** The transitive dependents of `n` are its direct dependents and everything downstream of them. */
  lemma DownstreamOfDependents(conns: set<Connection>, n: NodeId)
    ensures Downstream(conns, Dependents(conns, n)) == DependentClosure(conns, n)
  {
    var deps := Dependents(conns, n);
    var u := Downstream(conns, deps);
    var cn := DependentClosure(conns, n);
    ClosureClosedAbove(conns, n);
    forall x | x in u ensures x in cn {
      if x !in deps {
        var y :| y in deps && x in DependentClosure(conns, y);
        ClosureTransitive(conns, n, y);
      }
    }
    forall y | y in u ensures Dependents(conns, y) <= u {
      ClosureClosedAbove(conns, y);
      if y !in deps {
        var d :| d in deps && y in DependentClosure(conns, d);
        ClosureClosedAbove(conns, d);
        ClosureTransitive(conns, d, y);
      }
    }
    ClosureLeast(conns, n, u);
  }

  lemma DownstreamAdd(conns: set<Connection>, ids: set<NodeId>, d: NodeId)
    ensures Downstream(conns, ids + {d}) == Downstream(conns, ids) + ({d} + DependentClosure(conns, d))
  {
  }

  lemma DownstreamEmpty(conns: set<Connection>)
    ensures Downstream(conns, {}) == {}
  {
  }

  /**
   * When no connection of `other` leaves `n` or a node that `mine` feeds, adding `other`
   * gives `n` no new transitive dependent.
   */
  lemma ClosureSeparate(mine: set<Connection>, other: set<Connection>, n: NodeId)
    requires forall d | d in other :: d.output.node != n && d.output.node !in Targets(mine)
    ensures DependentClosure(mine + other, n) == DependentClosure(mine, n)
  {
    var s := DependentClosure(mine, n);
    ClosureClosedAbove(mine, n);
    assert s <= Targets(mine);
    forall y | y in s + {n} ensures Dependents(mine + other, y) == Dependents(mine, y) {
      forall x | x in Dependents(mine + other, y) ensures x in Dependents(mine, y) {
        var c :| c in mine + other && c.output.node == y && c.input.node == x;
      }
    }
    assert ClosedAbove(mine + other, n, s);
    ClosureLeast(mine + other, n, s);
    ClosureMonotone(mine, mine + other, n);
  }

  /**
   * Two acyclic connection sets side by side, one inside the nodes `part` and the other
   * outside them, form an acyclic set.
   */
  lemma AcyclicDisjointUnion(outside: set<Connection>, inside: set<Connection>, part: set<NodeId>)
    requires Acyclic(outside) && Acyclic(inside)
    requires forall c | c in outside :: c.output.node !in part && c.input.node !in part
    requires forall c | c in inside :: c.output.node in part && c.input.node in part
    ensures Acyclic(outside + inside)
  {
    forall n ensures n !in DependentClosure(outside + inside, n) {
      if n in part {
        ClosureSeparate(inside, outside, n);
        assert inside + outside == outside + inside;
      } else {
        ClosureSeparate(outside, inside, n);
      }
    }
  }

  // ---------------------------------------------------------------- validity

  predicate OutputExists(nodes: NodeTable, o: OutputSlot) {
    o.node in nodes && o.slot in nodes[o.node].outputs
  }

  predicate InputExists(nodes: NodeTable, i: InputSlot) {
    i.node in nodes && i.slot in nodes[i.node].inputs
  }

  /** Both ends of every connection are slots of stored nodes. */
  ghost predicate ConnectionsValid(nodes: NodeTable, conns: set<Connection>) {
    forall c | c in conns :: OutputExists(nodes, c.output) && InputExists(nodes, c.input)
  }

  /** An input slot in `Single` mode is fed by at most one connection. */
  ghost predicate FanInRespected(nodes: NodeTable, conns: set<Connection>) {
    forall c1, c2 | c1 in conns && c2 in conns && c1 != c2 && c1.input == c2.input && InputExists(nodes, c1.input) ::
      nodes[c1.input.node].inputs[c1.input.slot] == Multiple
  }

  /** Groups hold stored nodes, and no node is in two groups. */
  ghost predicate GroupsValid(nodes: NodeTable, groups: GroupTable) {
    && (forall g | g in groups :: groups[g] <= nodes.Keys)
    && (forall g1, g2 | g1 in groups && g2 in groups && g1 != g2 :: groups[g1] !! groups[g2])
  }

  ghost predicate GraphValid(nodes: NodeTable, conns: set<Connection>, groups: GroupTable) {
    && NullNodeId !in nodes
    && ConnectionsValid(nodes, conns)
    && FanInRespected(nodes, conns)
    && Acyclic(conns)
    && GroupsValid(nodes, groups)
  }

  /** The connections that touch none of the nodes `ids`. */
  function Detached(conns: set<Connection>, ids: set<NodeId>): (r: set<Connection>)
    ensures r <= conns
    ensures forall c | c in conns :: c in r <==> c.output.node !in ids && c.input.node !in ids
  {
    set c | c in conns && c.output.node !in ids && c.input.node !in ids
  }

  lemma DetachedTwice(conns: set<Connection>, a: set<NodeId>, b: set<NodeId>)
    ensures Detached(Detached(conns, a), b) == Detached(conns, a + b)
  {
  }

  /** Detaching nodes that are not stored removes no connection of a valid graph. */
  lemma DetachedAbsent(nodes: NodeTable, conns: set<Connection>, ids: set<NodeId>)
    requires ConnectionsValid(nodes, conns) && ids !! nodes.Keys
    ensures Detached(conns, ids) == conns
  {
  }

  /** The table with the nodes of `ids` moved by `offset`; nothing else changes. */
  function Moved(t: NodeTable, ids: set<NodeId>, offset: Point): (r: NodeTable)
    ensures SameShapes(t, r)
  {
    map id | id in t :: if id in ids then t[id].(position := t[id].position.Add(offset)) else t[id]
  }

  lemma MovedNone(t: NodeTable, offset: Point)
    ensures Moved(t, {}, offset) == t
  {
    var r := Moved(t, {}, offset);
    assert r.Keys == t.Keys;
    forall id | id in r ensures r[id] == t[id] {
    }
  }

  /** Moving one more node extends the moved set. */
  lemma MovedStep(t: NodeTable, ids: set<NodeId>, id: NodeId, offset: Point)
    requires id in t && id !in ids
    ensures Moved(t, ids, offset)[id := t[id].(position := t[id].position.Add(offset))] == Moved(t, ids + {id}, offset)
  {
    var l := Moved(t, ids, offset)[id := t[id].(position := t[id].position.Add(offset))];
    var r := Moved(t, ids + {id}, offset);
    assert l.Keys == r.Keys;
    forall k | k in l ensures l[k] == r[k] {
    }
  }

  /** Moving nodes and then moving them back by the opposite offset restores the table. */
  lemma MovedBack(t: NodeTable, ids: set<NodeId>, offset: Point)
    ensures Moved(Moved(t, ids, offset), ids, Origin.Sub(offset)) == t
  {
    var r := Moved(Moved(t, ids, offset), ids, Origin.Sub(offset));
    assert r.Keys == t.Keys;
    forall k | k in r ensures r[k] == t[k] {
      if k in ids {
        assert r[k].position == t[k].position.Add(offset).Add(Origin.Sub(offset));
      }
    }
  }

  /** The moved nodes' positions are their old positions translated by the offset. */
  lemma MovedPositions(t: NodeTable, ids: seq<NodeId>, offset: Point)
    requires forall k | 0 <= k < |ids| :: ids[k] in t
    ensures Positions(Moved(t, Elements(ids), offset), ids) == Translate(Positions(t, ids), offset)
  {
    var l := Positions(Moved(t, Elements(ids), offset), ids);
    var r := Translate(Positions(t, ids), offset);
    forall k | 0 <= k < |ids| ensures l[k] == r[k] {
      assert ids[k] in Elements(ids);
    }
  }

  /** Two valid graphs on disjoint nodes, side by side, form a valid graph; the groups stay those of the first. */
  lemma DisjointUnionValid(a: NodeTable, ca: set<Connection>, groups: GroupTable, b: NodeTable, cb: set<Connection>)
    requires GraphValid(a, ca, groups) && GraphValid(b, cb, map[])
    requires a.Keys !! b.Keys
    ensures GraphValid(a + b, ca + cb, groups)
  {
    var t := a + b;
    assert forall id | id in a :: t[id] == a[id];
    assert forall id | id in b :: t[id] == b[id];
    AcyclicDisjointUnion(ca, cb, b.Keys);
    forall c1, c2 | c1 in ca + cb && c2 in ca + cb && c1 != c2 && c1.input == c2.input && InputExists(t, c1.input)
      ensures t[c1.input.node].inputs[c1.input.slot] == Multiple
    {
      if c1 in ca {
        assert c2 in ca;
      } else {
        assert c2 in cb;
      }
    }
  }

  /** Same ids, and every node has the same slots. */
  predicate SameShapes(a: NodeTable, b: NodeTable) {
    a.Keys == b.Keys && forall k | k in a :: a[k].inputs == b[k].inputs && a[k].outputs == b[k].outputs
  }

  lemma SameShapesKeepValid(a: NodeTable, b: NodeTable, conns: set<Connection>, groups: GroupTable)
    requires GraphValid(a, conns, groups) && SameShapes(a, b)
    ensures GraphValid(b, conns, groups)
  {
  }

  /** The groups that hold at least one of `ids`. */
  function GroupsTouching(groups: GroupTable, ids: set<NodeId>): set<GroupId> {
    set g | g in groups && groups[g] * ids != {}
  }

  /** The group table with the nodes `ids` taken out of every group. */
  function Stripped(groups: GroupTable, ids: set<NodeId>): (r: GroupTable)
    ensures r.Keys == groups.Keys
    ensures forall g | g in r :: r[g] == groups[g] - ids
  {
    map g | g in groups :: groups[g] - ids
  }

  lemma StrippedTwice(groups: GroupTable, a: set<NodeId>, b: set<NodeId>)
    ensures Stripped(Stripped(groups, a), b) == Stripped(groups, a + b)
  {
    var l := Stripped(Stripped(groups, a), b);
    var r := Stripped(groups, a + b);
    assert l.Keys == r.Keys;
    forall g | g in l ensures l[g] == r[g] {
      assert l[g] == groups[g] - a - b;
    }
  }

  /** Ungrouping nodes that are not stored changes no group of a valid graph. */
  lemma StrippedAbsent(nodes: NodeTable, groups: GroupTable, ids: set<NodeId>)
    requires GroupsValid(nodes, groups) && ids !! nodes.Keys
    ensures Stripped(groups, ids) == groups
  {
    var r := Stripped(groups, ids);
    assert r.Keys == groups.Keys;
    forall g | g in r ensures r[g] == groups[g] {
      assert groups[g] <= nodes.Keys;
    }
  }

  lemma StrippedNone(groups: GroupTable)
    ensures Stripped(groups, {}) == groups
  {
    var r := Stripped(groups, {});
    assert r.Keys == groups.Keys;
    forall g | g in r ensures r[g] == groups[g] {
      assert r[g] == groups[g] - {};
    }
  }

  /**
   * The nodes reached from the sequence `ds` taken in order: each node together with its
   * transitive dependents. It equals `Downstream` of the elements (`ReachAllDownstream`).
   */
  ghost function ReachAll(conns: set<Connection>, ds: seq<NodeId>): set<NodeId> {
    if ds == [] then {}
    else ReachAll(conns, ds[..|ds| - 1]) + ({ds[|ds| - 1]} + DependentClosure(conns, ds[|ds| - 1]))
  }

  lemma {:induction false} ReachAllDownstream(conns: set<Connection>, ds: seq<NodeId>)
    ensures ReachAll(conns, ds) == Downstream(conns, Elements(ds))
  {
    if ds == [] {
      DownstreamEmpty(conns);
    } else {
      var init := ds[..|ds| - 1];
      var last := ds[|ds| - 1];
      ReachAllDownstream(conns, init);
      assert ds == init + [last];
      ElementsConcat(init, [last]);
      DownstreamAdd(conns, Elements(init), last);
    }
  }

  /** Reaching every direct dependent of `n` reaches exactly the transitive dependents of `n`. */
  lemma ReachDependents(conns: set<Connection>, groups: GroupTable, n: NodeId, deps: seq<NodeId>)
    requires Elements(deps) == Dependents(conns, n)
    ensures {n} + ReachAll(conns, deps) == {n} + DependentClosure(conns, n)
    ensures GroupsTouching(groups, {n}) + GroupsTouching(groups, ReachAll(conns, deps))
         == GroupsTouching(groups, {n} + DependentClosure(conns, n))
  {
    ReachAllDownstream(conns, deps);
    DownstreamOfDependents(conns, n);
    GroupsTouchingUnion(groups, {n}, DependentClosure(conns, n));
  }

  /**
   * Reaching one more node of the sequence adds that node and its transitive dependents,
   * and the groups touching them.
   */
  lemma DrawingStep(conns: set<Connection>, groups: GroupTable, ds: seq<NodeId>, k: nat)
    requires k < |ds|
    ensures ReachAll(conns, ds[..k + 1]) == ReachAll(conns, ds[..k]) + ({ds[k]} + DependentClosure(conns, ds[k]))
    ensures GroupsTouching(groups, ReachAll(conns, ds[..k + 1]))
         == GroupsTouching(groups, ReachAll(conns, ds[..k])) + GroupsTouching(groups, {ds[k]} + DependentClosure(conns, ds[k]))
  {
    assert ds[..k + 1][..k] == ds[..k];
    GroupsTouchingUnion(groups, ReachAll(conns, ds[..k]), {ds[k]} + DependentClosure(conns, ds[k]));
  }

  lemma GroupsTouchingUnion(groups: GroupTable, a: set<NodeId>, b: set<NodeId>)
    ensures GroupsTouching(groups, a + b) == GroupsTouching(groups, a) + GroupsTouching(groups, b)
  {
  }

  /** The positions of the nodes `ids`, in the order of `ids`. */
  function Positions(t: NodeTable, ids: seq<NodeId>): (r: seq<Point>)
    requires forall k | 0 <= k < |ids| :: ids[k] in t
    ensures |r| == |ids|
    ensures forall k | 0 <= k < |ids| :: r[k] == t[ids[k]].position
  {
    seq(|ids|, k requires 0 <= k < |ids| => t[ids[k]].position)
  }

  /** The nodes whose value is not up to date. */
  function Stale(nodes: NodeTable): set<NodeId> {
    set k | k in nodes && nodes[k].status != UpToDate
  }

  // ---------------------------------------------------------------- value state

  /** The table after the values of `ids` are invalidated; nothing else changes. */
  function Invalidated(nodes: NodeTable, ids: set<NodeId>): (r: NodeTable)
    ensures SameShapes(nodes, r)
    ensures forall k | k in r :: r[k].position == nodes[k].position
    ensures forall k | k in r && k in ids :: r[k].status == NeedToCalculate
    ensures forall k | k in r && k !in ids :: r[k] == nodes[k]
  {
    map k | k in nodes :: if k in ids then nodes[k].(status := NeedToCalculate) else nodes[k]
  }

  /**
   * `after` keeps some of the nodes of `before`; each kept node has the same slots and
   * position, and its status is either unchanged or NeedToCalculate.
   */
  predicate KeptOrInvalidated(before: NodeTable, after: NodeTable) {
    after.Keys <= before.Keys
    && forall k | k in after :: after[k] == before[k] || after[k] == before[k].(status := NeedToCalculate)
  }

  lemma KeptOrInvalidatedStep(before: NodeTable, mid: NodeTable, id: NodeId, ids: set<NodeId>)
    requires KeptOrInvalidated(before, mid)
    ensures KeptOrInvalidated(before, Invalidated(mid - {id}, ids))
  {
  }

  /**
   * The table after an evaluation pass in which the nodes of `failing` cannot compute.
   * A normal pass computes the nodes that are not up to date; a forced pass computes all.
   */
  function Evaluated(nodes: NodeTable, failing: set<NodeId>, force: bool): (r: NodeTable)
    ensures SameShapes(nodes, r)
    ensures forall k | k in r :: r[k].position == nodes[k].position
    ensures Stale(r) <= failing
    ensures forall k | k in Stale(r) :: r[k].status == NeedToCalculateButDisabled
    ensures !force ==> forall k | k in nodes && nodes[k].status == UpToDate :: r[k] == nodes[k]
    ensures force ==> Stale(r) == failing * nodes.Keys
  {
    map k | k in nodes ::
      if !force && nodes[k].status == UpToDate then nodes[k]
      else if k in failing then nodes[k].(status := NeedToCalculateButDisabled)
      else nodes[k].(status := UpToDate)
  }
}
