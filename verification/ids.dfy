/** Identifiers of the node engine and two sequence helpers shared by every module. */
module Ids {

  /** A node identifier; `NullNodeId` is the invalid sentinel, every stored node has a `NodeId(value)`. */
  datatype NodeId = NullNodeId | NodeId(value: nat)

  /** A slot identifier, scoped to the node that owns the slot. */
  datatype SlotId = SlotId(name: string)

  /** Identity of a node group (the source refers to a group by its object). */
  datatype GroupId = GroupId(value: nat)

  /** An output slot, named by its owner node and its slot id. */
  datatype OutputSlot = OutputSlot(node: NodeId, slot: SlotId)

  /** An input slot, named by its owner node and its slot id. */
  datatype InputSlot = InputSlot(node: NodeId, slot: SlotId)

  /** No element occurs twice. */
  predicate Distinct<T(==)>(s: seq<T>) {
    forall i, j | 0 <= i < j < |s| :: s[i] != s[j]
  }

  /** The set of elements of a sequence. */
  function Elements<T>(s: seq<T>): set<T> {
    set x | x in s
  }

  /** The elements of a concatenation are the elements of both parts. */
  lemma ElementsConcat<T>(a: seq<T>, b: seq<T>)
    ensures Elements(a + b) == Elements(a) + Elements(b)
  {
    forall x | x in Elements(a + b) ensures x in Elements(a) + Elements(b) {
      var i :| 0 <= i < |a + b| && (a + b)[i] == x;
      if i < |a| { assert a[i] == x; } else { assert b[i - |a|] == x; }
    }
  }

  /** The elements of a set in some order, as iterating an unordered container yields them. */
  method Ordered<T>(s: set<T>) returns (r: seq<T>)
    ensures Distinct(r) && Elements(r) == s
  {
    r := [];
    var rest := s;
    while rest != {}
      invariant rest <= s
      invariant Distinct(r)
      invariant Elements(r) == s - rest
      decreases rest
    {
      var x :| x in rest;
      ElementsConcat(r, [x]);
      r := r + [x];
      rest := rest - {x};
    }
  }

  /** Extending a prefix by one element adds that element. */
  lemma ElementsPrefix<T>(s: seq<T>, k: nat)
    requires k < |s|
    ensures Elements(s[..k + 1]) == Elements(s[..k]) + {s[k]}
  {
    assert s[..k + 1] == s[..k] + [s[k]];
    ElementsConcat(s[..k], [s[k]]);
  }

  /** A duplicate-free sequence has as many elements as its set. */
  lemma {:induction false} DistinctCardinality<T>(s: seq<T>)
    requires Distinct(s)
    ensures |Elements(s)| == |s|
  {
    if s != [] {
      var t := s[1..];
      assert Distinct(t);
      DistinctCardinality(t);
      assert s[0] !in t by {
        forall k | 0 <= k < |t| ensures t[k] != s[0] {
          assert t[k] == s[k + 1];
        }
      }
      assert Elements(s) == {s[0]} + Elements(t) by {
        assert s == [s[0]] + t;
      }
      assert Elements(s) - {s[0]} == Elements(t);
    }
  }
}
