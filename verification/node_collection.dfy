/**
 * NodeCollection: node ids in insertion order, without duplicates. The collection keeps
 * the ids twice, as a sequence for the order and as a set for membership.
 */
module NodeCollections {
  import opened Ids

  /** `s` with every occurrence of `x` removed; the other elements keep their order. */
  function Without<T(==)>(s: seq<T>, x: T): (r: seq<T>)
    ensures Elements(r) == Elements(s) - {x}
    ensures x !in r
    ensures |r| <= |s|
  {
    if s == [] then []
    else
      var rest := Without(s[1..], x);
      assert s == [s[0]] + s[1..];
      ElementsConcat([s[0]], s[1..]);
      ElementsConcat([s[0]], rest);
      if s[0] == x then rest else [s[0]] + rest
  }

  /** `s` with every element of `xs` removed; the other elements keep their order. */
  function WithoutAll<T(==)>(s: seq<T>, xs: set<T>): (r: seq<T>)
    ensures Elements(r) == Elements(s) - xs
    ensures |r| <= |s|
  {
    if s == [] then []
    else
      var rest := WithoutAll(s[1..], xs);
      assert s == [s[0]] + s[1..];
      ElementsConcat([s[0]], s[1..]);
      ElementsConcat([s[0]], rest);
      if s[0] in xs then rest else [s[0]] + rest
  }

  /** In a duplicate-free sequence, removing `x` cuts out exactly its one position. */
  lemma {:induction false} WithoutAt<T>(s: seq<T>, x: T, k: nat)
    requires Distinct(s) && k < |s| && s[k] == x
    ensures Without(s, x) == s[..k] + s[k + 1..]
  {
    if k == 0 {
      WithoutAbsent(s[1..], x);
    } else {
      WithoutAt(s[1..], x, k - 1);
      assert s[1..][..k - 1] == s[1..k];
      assert s[1..][k..] == s[k + 1..];
      assert [s[0]] + s[1..k] == s[..k];
    }
  }

  /** Removing an absent element changes nothing. */
  lemma {:induction false} WithoutAbsent<T>(s: seq<T>, x: T)
    requires x !in s
    ensures Without(s, x) == s
  {
    if s != [] {
      WithoutAbsent(s[1..], x);
      assert s == [s[0]] + s[1..];
    }
  }

  /** Removing an element keeps a sequence duplicate-free. */
  lemma {:induction false} WithoutDistinct<T>(s: seq<T>, x: T)
    requires Distinct(s)
    ensures Distinct(Without(s, x))
  {
    if s != [] {
      WithoutDistinct(s[1..], x);
      var rest := Without(s[1..], x);
      if s[0] != x {
        assert s[0] !in Elements(s[1..]) by {
          forall k | 0 <= k < |s| - 1 ensures s[1..][k] != s[0] {
            assert s[1..][k] == s[k + 1];
          }
        }
        assert s[0] !in Elements(rest);
        var r := [s[0]] + rest;
        forall i, j | 0 <= i < j < |r| ensures r[i] != r[j] {
          if i == 0 {
            assert r[j] == rest[j - 1];
          } else {
            assert r[i] == rest[i - 1] && r[j] == rest[j - 1];
          }
        }
      }
    }
  }

  /** Removing the elements of `xs` and then `x` is removing the elements of `xs + {x}`. */
  lemma {:induction false} WithoutAllThenWithout<T>(s: seq<T>, xs: set<T>, x: T)
    ensures Without(WithoutAll(s, xs), x) == WithoutAll(s, xs + {x})
  {
    if s != [] {
      WithoutAllThenWithout(s[1..], xs, x);
    }
  }

  /** Removing the empty set changes nothing. */
  lemma {:induction false} WithoutNone<T>(s: seq<T>)
    ensures WithoutAll(s, {}) == s
  {
    if s != [] {
      WithoutNone(s[1..]);
      assert s == [s[0]] + s[1..];
    }
  }

  /** Removing the elements of `xs` keeps a sequence duplicate-free. */
  lemma {:induction false} WithoutAllDistinct<T>(s: seq<T>, xs: set<T>)
    requires Distinct(s)
    ensures Distinct(WithoutAll(s, xs))
  {
    if s != [] {
      WithoutAllDistinct(s[1..], xs);
      var rest := WithoutAll(s[1..], xs);
      if s[0] !in xs {
        assert s[0] !in Elements(s[1..]) by {
          forall k | 0 <= k < |s| - 1 ensures s[1..][k] != s[0] {
            assert s[1..][k] == s[k + 1];
          }
        }
        assert s[0] !in Elements(rest);
        var r := [s[0]] + rest;
        forall i, j | 0 <= i < j < |r| ensures r[i] != r[j] {
          if i == 0 {
            assert r[j] == rest[j - 1];
          } else {
            assert r[i] == rest[i - 1] && r[j] == rest[j - 1];
          }
        }
      }
    }
  }

  class NodeCollection {
    var nodes: seq<NodeId>
    var nodeSet: set<NodeId>

    /** The sequence and the set hold the same ids, and the sequence holds each id once. */
    ghost predicate Valid()
      reads this
    {
      Distinct(nodes) && nodeSet == Elements(nodes)
    }

    constructor ()
      ensures Valid() && nodes == []
    {
      nodes := [];
      nodeSet := {};
    }

    /** Builds a collection from a set; the order is the set's (unspecified) iteration order. */
    constructor FromSet(ids: set<NodeId>)
      ensures Valid() && nodeSet == ids && |nodes| == |ids|
    {
      var order := Ordered(ids);
      DistinctCardinality(order);
      nodes := order;
      nodeSet := ids;
    }

    /** Copy construction (the collection is a value in the source). */
    constructor Copy(other: NodeCollection)
      requires other.Valid()
      ensures Valid() && nodes == other.nodes && nodeSet == other.nodeSet
    {
      nodes := other.nodes;
      nodeSet := other.nodeSet;
    }

    function Count(): (r: nat)
      reads this
      requires Valid()
      ensures r == |nodeSet|
    {
      DistinctCardinality(nodes);
      |nodes|
    }

    function IsEmpty(): (r: bool)
      reads this
      requires Valid()
      ensures r <==> Count() == 0
      ensures r <==> nodeSet == {}
    {
      |nodes| == 0
    }

    function Contains(id: NodeId): (r: bool)
      reads this
      requires Valid()
      ensures r <==> id in nodes
    {
      id in nodeSet
    }

    /** The last id in insertion order; the invalid id for an empty collection. */
    function GetLast(): (r: NodeId)
      reads this
      requires Valid()
      ensures nodes != [] ==> r == nodes[|nodes| - 1] && Contains(r)
      ensures nodes != [] ==> forall k | 0 <= k < |nodes| - 1 :: nodes[k] != r
      ensures nodes == [] ==> r == NullNodeId
    {
      if |nodes| == 0 then NullNodeId else nodes[|nodes| - 1]
    }

    /**
     * Calls `processor` on the ids in insertion order and stops after the first call that
     * returns false. Returns the ids the processor was called on.
     */
    method Enumerate(processor: NodeId -> bool) returns (visited: seq<NodeId>)
      requires Valid()
      ensures visited <= nodes
      ensures nodes != [] ==> visited != []
      ensures forall k | 0 <= k < |visited| - 1 :: processor(visited[k])
      ensures |visited| < |nodes| ==> !processor(visited[|visited| - 1])
    {
      visited := [];
      var i := 0;
      while i < |nodes|
        invariant 0 <= i <= |nodes|
        invariant visited == nodes[..i]
        invariant forall k | 0 <= k < i :: processor(nodes[k])
      {
        visited := visited + [nodes[i]];
        if !processor(nodes[i]) {
          return;
        }
        i := i + 1;
      }
      assert visited == nodes;
    }

    /** Appends `id` unless it is already present. */
    method Insert(id: NodeId)
      requires Valid()
      modifies this
      ensures Valid()
      ensures nodes == if id in old(nodes) then old(nodes) else old(nodes) + [id]
      ensures Contains(id)
      ensures old(Contains(id)) ==> Count() == old(Count())
    {
      if id !in nodeSet {
        nodes := nodes + [id];
        nodeSet := nodeSet + {id};
      }
    }

    /** Removes `id` if present; the other ids keep their order. */
    method Erase(id: NodeId)
      requires Valid()
      modifies this
      ensures Valid()
      ensures nodes == Without(old(nodes), id)
      ensures !Contains(id)
    {
      if id in nodeSet {
        var i := 0;
        while nodes[i] != id
          invariant 0 <= i < |nodes|
          invariant id !in nodes[..i]
          decreases |nodes| - i
        {
          assert nodes[..i + 1] == nodes[..i] + [nodes[i]];
          i := i + 1;
        }
        WithoutAt(nodes, id, i);
        WithoutDistinct(nodes, id);
        nodes := nodes[..i] + nodes[i + 1..];
        nodeSet := nodeSet - {id};
      } else {
        WithoutAbsent(nodes, id);
      }
    }

    method Clear()
      modifies this
      ensures Valid() && nodes == []
    {
      nodes := [];
      nodeSet := {};
    }

    /** Assignment from another collection (the source copies the value). */
    method Assign(other: NodeCollection)
      requires other.Valid()
      modifies this
      ensures Valid() && nodes == old(other.nodes)
    {
      nodes := other.nodes;
      nodeSet := other.nodeSet;
    }

    /** Equality is order-sensitive: the same ids in the same order. */
    function Equals(rhs: NodeCollection): (r: bool)
      reads this, rhs
      requires Valid() && rhs.Valid()
      ensures r <==> nodes == rhs.nodes
      ensures r ==> Count() == rhs.Count() && forall id :: Contains(id) <==> rhs.Contains(id)
    {
      nodes == rhs.nodes
    }

    function NotEquals(rhs: NodeCollection): (r: bool)
      reads this, rhs
      requires Valid() && rhs.Valid()
      ensures r <==> nodes != rhs.nodes
    {
      !Equals(rhs)
    }
  }
}
