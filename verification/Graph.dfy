/**
 The symbolic graph and its depth-first topological order.  A node is an identity; `producers` gives, for
 each node, the producers of its inputs in order.
 */
module Graph {
  import opened Sequences

  type NodeId = nat

  type Producers = map<NodeId, seq<NodeId>>

  /** Every input is produced by a node of the graph. */
  ghost predicate Closed(g: Producers) {
    forall n, q :: n in g && q in g[n] ==> q in g
  }

  /** A walk follows inputs to their producers. */
  ghost predicate Walk(g: Producers, w: seq<NodeId>) {
    w != [] && (forall i :: 0 <= i < |w| ==> w[i] in g) && (forall i :: 0 <= i < |w| - 1 ==> w[i + 1] in g[w[i]])
  }

  ghost predicate Reaches(g: Producers, from: NodeId, to: NodeId) {
    exists w :: Walk(g, w) && w[0] == from && w[|w| - 1] == to
  }

  ghost predicate ReachedFrom(g: Producers, outputs: seq<NodeId>, n: NodeId) {
    exists o :: o in outputs && Reaches(g, o, n)
  }

  ghost predicate Cycle(g: Producers, w: seq<NodeId>) {
    Walk(g, w) && |w| >= 2 && w[0] == w[|w| - 1]
  }

  /** No cycle can be reached from the outputs. */
  ghost predicate Acyclic(g: Producers, outputs: seq<NodeId>) {
    forall w :: Cycle(g, w) ==> !ReachedFrom(g, outputs, w[0])
  }

  /** Every node comes after the producers of all its inputs, and only once. */
  ghost predicate Ordered(g: Producers, order: seq<NodeId>) {
    && (forall i :: 0 <= i < |order| ==> order[i] in g && forall q :: q in g[order[i]] ==> q in order[..i])
    && Distinct(order)
  }

  lemma WalkSlice(g: Producers, w: seq<NodeId>, i: nat, j: nat)
    requires Walk(g, w) && i < j <= |w|
    ensures Walk(g, w[i..j])
  {
  }

  lemma WalkPush(g: Producers, path: seq<NodeId>, node: NodeId, producer: NodeId)
    requires Closed(g) && node in g && producer in g[node] && (path != [] ==> Walk(g, path + [node]))
    ensures Walk(g, path + [node] + [producer])
  {
  }

  lemma OrderedAppend(g: Producers, order: seq<NodeId>, n: NodeId)
    requires Ordered(g, order) && n in g && n !in order && forall q :: q in g[n] ==> q in order
    ensures Ordered(g, order + [n])
  {
    var longer := order + [n];
    forall i | 0 <= i < |longer| ensures longer[i] in g && forall q :: q in g[longer[i]] ==> q in longer[..i] {
      assert i < |order| ==> longer[..i] == order[..i];
      assert longer[..|order|] == order;
    }
  }

  lemma ReachesEdge(g: Producers, a: NodeId, b: NodeId, c: NodeId)
    requires Closed(g) && a in g && b in g[a] && Reaches(g, b, c)
    ensures Reaches(g, a, c)
  {
    var w :| Walk(g, w) && w[0] == b && w[|w| - 1] == c;
    assert Walk(g, [a] + w) by {
      assert forall i :: 0 <= i < |w| ==> ([a] + w)[i + 1] == w[i];
    }
    assert ([a] + w)[|w|] == c;
  }

  lemma ReachesSelf(g: Producers, a: NodeId)
    requires a in g
    ensures Reaches(g, a, a)
  {
    assert Walk(g, [a]);
  }

  class Sorter {
    const g: Producers
    var ordered: seq<NodeId>
    var active: set<NodeId>
    var complete: set<NodeId>

    ghost predicate Valid()
      reads this
    {
      && Closed(g) && Ordered(g, ordered) && active <= g.Keys
      && (forall n :: n in complete <==> n in ordered)
      && active !! complete
    }

    constructor (g: Producers)
      requires Closed(g)
      ensures Valid() && this.g == g && ordered == [] && active == {}
    {
      this.g := g;
      ordered, active, complete := [], {}, {};
    }

    /**
     `path` is the stack of active nodes.  Success appends what was missing below `node`, in order; failure
     exhibits a cycle that the bottom of the stack, or `node` itself, reaches.
     */
    method Visit(node: NodeId, ghost path: seq<NodeId>) returns (ok: bool, ghost cycle: seq<NodeId>)
      requires Valid() && node in g
      requires forall n :: n in active <==> n in path
      requires path != [] ==> Walk(g, path + [node])
      modifies this
      ensures ok ==> Valid() && active == old(active) && node in complete && old(ordered) <= ordered
      ensures ok ==> old(complete) <= complete
      ensures ok ==> forall n :: n in ordered && n !in old(ordered) ==> Reaches(g, node, n)
      ensures !ok ==> Cycle(g, cycle) && Reaches(g, (path + [node])[0], cycle[0])
      decreases g.Keys - active
    {
      cycle := [];
      if node in complete {
        return true, [];
      }
      if node in active {
        ghost var i :| 0 <= i < |path| && path[i] == node;
        ghost var w := path + [node];
        WalkSlice(g, w, i, |w|);
        WalkSlice(g, w, 0, i + 1);
        assert w[0..i + 1][i] == w[i..][0] == node;
        return false, w[i..];
      }
      active := active + {node};
      ghost var deeper := path + [node];
      ReachesSelf(g, node);
      var inputs := g[node];
      for i := 0 to |inputs|
        invariant Valid() && active == old(active) + {node} && old(ordered) <= ordered && old(complete) <= complete
        invariant forall n :: n in ordered && n !in old(ordered) ==> Reaches(g, node, n)
        invariant forall q :: q in inputs[..i] ==> q in complete
      {
        var producer := inputs[i];
        WalkPush(g, path, node, producer);
        ghost var before := ordered;
        ok, cycle := Visit(producer, deeper);
        if !ok {
          return false, cycle;
        }
        forall n | n in ordered && n !in old(ordered) ensures Reaches(g, node, n) {
          if n !in before {
            ReachesEdge(g, node, producer, n);
          }
        }
      }
      assert inputs[..|inputs|] == inputs;
      OrderedAppend(g, ordered, node);
      active := active - {node};
      complete := complete + {node};
      ordered := ordered + [node];
      return true, [];
    }
  }

  /** Position of a node in an order. */
  ghost function Rank(order: seq<NodeId>, n: NodeId): nat
    requires n in order
    ensures Rank(order, n) < |order| && order[Rank(order, n)] == n
  {
    var i :| 0 <= i < |order| && order[i] == n; i
  }

  /** Along a walk inside an ordered list the rank falls, and the walk stays inside. */
  lemma {:induction false} WalkDescends(g: Producers, order: seq<NodeId>, w: seq<NodeId>)
    requires Ordered(g, order) && Walk(g, w) && w[0] in order
    ensures w[|w| - 1] in order && Rank(order, w[|w| - 1]) <= Rank(order, w[0]) - (|w| - 1)
    decreases |w|
  {
    if |w| > 1 {
      var front := w[..|w| - 1];
      WalkDescends(g, order, front);
      var n, q := front[|front| - 1], w[|w| - 1];
      assert q in g[n];
      assert q in order[..Rank(order, n)];
      var j :| 0 <= j < Rank(order, n) && order[j] == q;
      assert order[Rank(order, q)] == order[j];
    }
  }

  /**
   The order exists exactly when no cycle is reachable from the outputs; it then lists every reachable node
   once, after the producers of all its inputs, and nothing else.
   */
  method TopologicalNodes(g: Producers, outputs: seq<NodeId>) returns (ok: bool, order: seq<NodeId>)
    requires Closed(g) && forall o :: o in outputs ==> o in g
    ensures ok <==> Acyclic(g, outputs)
    ensures ok ==> Ordered(g, order) && forall n :: n in order <==> ReachedFrom(g, outputs, n)
  {
    var sorter := new Sorter(g);
    ghost var cycle;
    for i := 0 to |outputs|
      invariant sorter.Valid() && sorter.active == {} && sorter.g == g && fresh(sorter)
      invariant forall o :: o in outputs[..i] ==> o in sorter.complete
      invariant forall n :: n in sorter.ordered ==> ReachedFrom(g, outputs, n)
    {
      ghost var before := sorter.ordered;
      ok, cycle := sorter.Visit(outputs[i], []);
      if !ok {
        assert ReachedFrom(g, outputs, cycle[0]);
        return false, [];
      }
      assert outputs[i] in outputs;
    }
    ok, order := true, sorter.ordered;
    forall n | ReachedFrom(g, outputs, n) ensures n in order {
      var o :| o in outputs && Reaches(g, o, n);
      assert o in outputs[..|outputs|];
      var w :| Walk(g, w) && w[0] == o && w[|w| - 1] == n;
      WalkDescends(g, order, w);
    }
    forall w | Cycle(g, w) ensures !ReachedFrom(g, outputs, w[0]) {
      if ReachedFrom(g, outputs, w[0]) {
        WalkDescends(g, order, w);
      }
    }
  }
}
