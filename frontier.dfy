/**
 * The search frontier: `std::priority_queue<Node, std::vector<Node>, SumCmp>`,
 * seen as a multiset of nodes with insertion and removal of a top element.
 * Among nodes of equal sum the queue may hand out any of them.
 */
module Frontier {

  /** One row `a` of the staircase at column `b`, with its precomputed sum a^N + b^N. */
  datatype Node = Node(a: nat, b: nat, sum: nat)

  /** `SumCmp`: `x` ranks below `y` when its sum is larger, so the top is a node of smallest sum. */
  predicate SumCmp(x: Node, y: Node)
  {
    x.sum > y.sum
  }

  /**
   * `SumCmp` is a strict weak order, as `std::priority_queue` requires: irreflexive,
   * transitive, and two nodes are unordered exactly when their sums are equal.
   */
  lemma SumCmpOrder(x: Node, y: Node, z: Node)
    ensures !SumCmp(x, x)
    ensures SumCmp(x, y) && SumCmp(y, z) ==> SumCmp(x, z)
    ensures !SumCmp(x, y) && !SumCmp(y, x) <==> x.sum == y.sum
  {
  }

  /** Under `SumCmp`, the top of a queue is exactly a node of smallest sum. */
  lemma TopIsMinimum(m: Node, nodes: multiset<Node>)
    ensures IsTop(m, nodes) <==> m in nodes && forall x :: x in nodes ==> m.sum <= x.sum
  {
  }

  /** `m` may be the top of `nodes`: no node of `nodes` ranks above it. */
  predicate IsTop(m: Node, nodes: multiset<Node>)
  {
    m in nodes && forall x :: x in nodes ==> !SumCmp(m, x)
  }

  /** Every non-empty multiset of nodes has a top. */
  lemma {:induction false} TopExists(nodes: multiset<Node>)
    requires nodes != multiset{}
    ensures exists m :: IsTop(m, nodes)
    decreases |nodes|
  {
    var y :| y in nodes;
    var rest := nodes - multiset{y};
    forall x | x in nodes && x != y
      ensures x in rest
    {
      assert rest[x] == nodes[x];
    }
    if rest == multiset{} {
      assert IsTop(y, nodes);
    } else {
      TopExists(rest);
      var m :| IsTop(m, rest);
      if m.sum <= y.sum {
        assert IsTop(m, nodes);
      } else {
        assert IsTop(y, nodes);
      }
    }
  }

  class MinHeap {
    var nodes: multiset<Node>

    /** An empty queue. */
    constructor ()
      ensures nodes == multiset{}
    {
      nodes := multiset{};
    }

    /** `pq.emplace(n)`. */
    method Push(n: Node)
      modifies this
      ensures nodes == old(nodes) + multiset{n}
    {
      nodes := nodes + multiset{n};
    }

    /** `pq.top()` followed by `pq.pop()`: removes and returns a node of smallest sum. */
    method Pop() returns (top: Node)
      requires nodes != multiset{}
      modifies this
      ensures IsTop(top, old(nodes))
      ensures forall x :: x in old(nodes) ==> top.sum <= x.sum
      ensures nodes == old(nodes) - multiset{top}
    {
      TopExists(nodes);
      top :| IsTop(top, nodes);
      TopIsMinimum(top, nodes);
      nodes := nodes - multiset{top};
    }
  }
}
