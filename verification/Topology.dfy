/**
 The native topology proposal: injective assignments of custom nodes to candidate ACT groups in which every
 dependency between custom nodes is matched by a native path between their groups.
 */
module Topology {
  import opened Sequences
  import opened Graph

  datatype Endpoint = Group(index: nat) | GraphInput(index: nat, table: nat) | GraphOutput(index: nat)

  type Relations = map<Endpoint, seq<Endpoint>>

  function Successors(adjacency: Relations, e: Endpoint): seq<Endpoint> {
    if e in adjacency then adjacency[e] else []
  }

  /** A native path: at least one exact relation. */
  ghost predicate Path(adjacency: Relations, w: seq<Endpoint>) {
    |w| >= 2 && forall i :: 0 <= i < |w| - 1 ==> w[i + 1] in Successors(adjacency, w[i])
  }

  ghost predicate Connected(adjacency: Relations, from: Endpoint, to: Endpoint) {
    exists w :: Path(adjacency, w) && w[0] == from && w[|w| - 1] == to
  }

  /** The set of everything some relation leads to; it bounds the worklist. */
  ghost function Destinations(adjacency: Relations): set<Endpoint> {
    set e, x | e in adjacency && x in adjacency[e] :: x
  }

  lemma ConnectedStep(adjacency: Relations, from: Endpoint, via: Endpoint, to: Endpoint)
    requires to in Successors(adjacency, via)
    requires via == from || Connected(adjacency, from, via)
    ensures Connected(adjacency, from, to)
  {
    if via == from {
      assert Path(adjacency, [from, to]);
    } else {
      var w :| Path(adjacency, w) && w[0] == from && w[|w| - 1] == via;
      var longer := w + [to];
      forall i | 0 <= i < |longer| - 1 ensures longer[i + 1] in Successors(adjacency, longer[i]) {
        assert longer[i] == w[i];
      }
      assert Path(adjacency, longer) && longer[|longer| - 1] == to;
    }
  }

  lemma {:induction false} ClosedHoldsPath(adjacency: Relations, closed: set<Endpoint>, w: seq<Endpoint>)
    requires Path(adjacency, w)
    requires forall x :: x in Successors(adjacency, w[0]) ==> x in closed
    requires forall e, x :: e in closed && x in Successors(adjacency, e) ==> x in closed
    ensures w[|w| - 1] in closed
    decreases |w|
  {
    if |w| > 2 {
      assert w[..|w| - 1][..|w| - 1] == w[..|w| - 1];
      ClosedHoldsPath(adjacency, closed, w[..|w| - 1]);
    }
    assert w[|w| - 1] in Successors(adjacency, w[|w| - 2]);
  }

  class Reachability {
    const adjacency: Relations
    var memo: map<Endpoint, set<Endpoint>>

    ghost predicate Valid()
      reads this
    {
      forall e :: e in memo ==> forall x :: x in memo[e] <==> Connected(adjacency, e, x)
    }

    constructor (adjacency: Relations)
      ensures Valid() && this.adjacency == adjacency
    {
      this.adjacency := adjacency;
      memo := map[];
    }

    /** A worklist over the relations, remembered per starting point. */
    method From(start: Endpoint) returns (reached: set<Endpoint>)
      requires Valid()
      modifies this
      ensures Valid()
      ensures forall x :: x in reached <==> Connected(adjacency, start, x)
    {
      if start in memo {
        return memo[start];
      }
      reached := {};
      var pending := Successors(adjacency, start);
      forall x | x in pending ensures Connected(adjacency, start, x) {
        ConnectedStep(adjacency, start, start, x);
      }
      while pending != []
        invariant Valid()
        invariant reached <= Destinations(adjacency)
        invariant forall x :: x in pending ==> x in Destinations(adjacency)
        invariant forall x :: x in pending || x in reached ==> Connected(adjacency, start, x)
        invariant forall x :: x in Successors(adjacency, start) ==> x in reached || x in pending
        invariant forall e, x :: e in reached && x in Successors(adjacency, e) ==> x in reached || x in pending
        decreases Destinations(adjacency) - reached, |pending|
      {
        var endpoint := pending[|pending| - 1];
        ghost var before := pending;
        pending := pending[..|pending| - 1];
        assert forall x :: x in before ==> x in pending || x == endpoint;
        if endpoint !in reached {
          assert endpoint in before;
          reached := reached + {endpoint};
          forall x | x in Successors(adjacency, endpoint) ensures Connected(adjacency, start, x) {
            ConnectedStep(adjacency, start, endpoint, x);
          }
          pending := pending + Successors(adjacency, endpoint);
        }
      }
      forall x | Connected(adjacency, start, x) ensures x in reached {
        var w :| Path(adjacency, w) && w[0] == start && w[|w| - 1] == x;
        ClosedHoldsPath(adjacency, reached, w);
      }
      memo := memo[start := reached];
    }
  }

  // ---------------------------------------------------------------------------------------------
  // Ancestors of a node in the symbolic graph.

  ghost predicate Ancestor(g: Producers, n: NodeId, a: NodeId) {
    exists w :: Walk(g, w) && |w| >= 2 && w[0] == n && w[|w| - 1] == a
  }

  /** `a` is one of the nodes `qs` or an ancestor of one. */
  ghost predicate AncestorOfAny(g: Producers, qs: seq<NodeId>, a: NodeId) {
    exists q :: q in qs && (a == q || Ancestor(g, q, a))
  }

  lemma AncestorOfAnySnoc(g: Producers, qs: seq<NodeId>, q: NodeId, a: NodeId)
    ensures AncestorOfAny(g, qs + [q], a) <==> AncestorOfAny(g, qs, a) || a == q || Ancestor(g, q, a)
  {
    assert q in qs + [q] && forall x :: x in qs ==> x in qs + [q];
  }

  lemma AncestorStep(g: Producers, n: NodeId, a: NodeId)
    requires Closed(g) && n in g
    ensures Ancestor(g, n, a) <==> AncestorOfAny(g, g[n], a)
  {
    hide Closed, AncestorOfAny, Ancestor;
    if Ancestor(g, n, a) {
      AncestorThroughInput(g, n, a);
    }
    if AncestorOfAny(g, g[n], a) {
      InputsAncestor(g, n, a);
    }
  }

  lemma AncestorThroughInput(g: Producers, n: NodeId, a: NodeId)
    requires n in g && Ancestor(g, n, a)
    ensures AncestorOfAny(g, g[n], a)
  {
    var w :| Walk(g, w) && |w| >= 2 && w[0] == n && w[|w| - 1] == a;
    assert w[1] in g[n];
    if |w| > 2 {
      WalkSlice(g, w, 1, |w|);
      assert w[1..|w|][|w| - 2] == a;
    }
  }

  lemma WalkBefore(g: Producers, n: NodeId, tail: seq<NodeId>)
    requires n in g && Walk(g, tail) && tail[0] in g[n]
    ensures Walk(g, [n] + tail)
  {
    var w := [n] + tail;
    forall i | 0 <= i < |w| - 1 ensures w[i + 1] in g[w[i]] {
      if i > 0 {
        assert tail[i] in g[tail[i - 1]];
      }
    }
  }

  lemma InputsAncestor(g: Producers, n: NodeId, a: NodeId)
    requires Closed(g) && n in g && AncestorOfAny(g, g[n], a)
    ensures Ancestor(g, n, a)
  {
    var q :| q in g[n] && (a == q || Ancestor(g, q, a));
    if a == q {
      assert Walk(g, [n, q]);
    } else {
      var tail :| Walk(g, tail) && |tail| >= 2 && tail[0] == q && tail[|tail| - 1] == a;
      WalkBefore(g, n, tail);
    }
  }

  /** One pass in topological order: what a producer has is complete before it is used. */
  method Ancestors(g: Producers, order: seq<NodeId>) returns (ancestors: map<NodeId, set<NodeId>>)
    requires Closed(g) && Ordered(g, order)
    ensures forall n :: n in order <==> n in ancestors
    ensures forall n, a :: n in ancestors ==> (a in ancestors[n] <==> Ancestor(g, n, a))
  {
    ancestors := map[];
    for i := 0 to |order|
      invariant forall n :: n in order[..i] <==> n in ancestors
      invariant forall n, a :: n in ancestors ==> (a in ancestors[n] <==> Ancestor(g, n, a))
    {
      var node := order[i];
      var values: set<NodeId> := {};
      var inputs := g[node];
      for j := 0 to |inputs|
        invariant forall a :: a in values <==> AncestorOfAny(g, inputs[..j], a)
      {
        var producer := inputs[j];
        assert producer in order[..i];
        assert inputs[..j + 1] == inputs[..j] + [producer];
        values := values + {producer} + ancestors[producer];
        forall a ensures a in values <==> AncestorOfAny(g, inputs[..j + 1], a) {
          AncestorOfAnySnoc(g, inputs[..j], producer, a);
        }
      }
      assert inputs[..|inputs|] == inputs;
      forall a ensures a in values <==> Ancestor(g, node, a) {
        AncestorStep(g, node, a);
      }
      ancestors := ancestors[node := values];
    }
    assert order[..|order|] == order;
  }

  /** In a topological order an ancestor always comes first. */
  lemma AncestorComesFirst(g: Producers, order: seq<NodeId>, i: nat, j: nat)
    requires Ordered(g, order) && i < |order| && j < |order| && Ancestor(g, order[j], order[i])
    ensures i < j
  {
    var w :| Walk(g, w) && |w| >= 2 && w[0] == order[j] && w[|w| - 1] == order[i];
    WalkDescends(g, order, w);
    assert order[Rank(order, order[i])] == order[i] && order[Rank(order, order[j])] == order[j];
  }

  // ---------------------------------------------------------------------------------------------
  // Assignments.

  const MAXIMUM_ASSIGNMENTS: nat := 256

  /**
   `viable[i]` are the candidate groups of the i-th custom node, `depends[i][j]` that the j-th custom node is
   an ancestor of the i-th, and `adjacency` the exact native relations.
   */
  datatype Problem = Problem(viable: seq<seq<nat>>, depends: seq<seq<bool>>, adjacency: Relations)

  /** Dependencies point to earlier custom nodes, and no candidate is listed twice. */
  ghost predicate WellFormed(p: Problem) {
    && |p.depends| == |p.viable| && (forall i :: 0 <= i < |p.depends| ==> |p.depends[i]| == |p.viable|)
    && (forall i, j :: 0 <= i < |p.viable| && 0 <= j < |p.viable| && p.depends[i][j] ==> j < i)
    && (forall i :: 0 <= i < |p.viable| ==> Distinct(p.viable[i]))
  }

  ghost predicate Linked(p: Problem, from: nat, to: nat) {
    Connected(p.adjacency, Group(from), Group(to))
  }

  /** One viable group per custom node, all different, with a native path for every dependency. */
  ghost predicate Assignment(p: Problem, a: seq<nat>)
    requires WellFormed(p)
  {
    && |a| == |p.viable| && Distinct(a)
    && (forall i :: 0 <= i < |a| ==> a[i] in p.viable[i])
    && (forall i, j :: 0 <= i < |a| && 0 <= j < |a| && p.depends[i][j] ==> Linked(p, a[j], a[i]))
  }

  /** The test of one more candidate against the nodes already placed. */
  ghost predicate Compatible(p: Problem, selected: seq<nat>, c: nat)
    requires |selected| < |p.depends| && |p.depends[|selected|]| == |p.depends|
  {
    c !in selected
    && forall j :: 0 <= j < |selected| && p.depends[|selected|][j] ==> Linked(p, selected[j], c)
  }

  /** Placed so far: a prefix every one of whose entries passed the test. */
  ghost predicate Partial(p: Problem, a: seq<nat>)
    requires WellFormed(p)
  {
    |a| <= |p.viable| && forall i :: 0 <= i < |a| ==> a[i] in p.viable[i] && Compatible(p, a[..i], a[i])
  }

  /** Testing against earlier nodes only is enough, because dependencies point to earlier nodes. */
  lemma FullPartialIsAssignment(p: Problem, a: seq<nat>)
    requires WellFormed(p) && |a| == |p.viable|
    ensures Partial(p, a) <==> Assignment(p, a)
  {
    if Partial(p, a) {
      forall i, j | 0 <= i < j < |a| ensures a[i] != a[j] {
        assert Compatible(p, a[..j], a[j]) && a[i] in a[..j];
      }
      forall i, j | 0 <= i < |a| && 0 <= j < |a| && p.depends[i][j] ensures Linked(p, a[j], a[i]) {
        assert Compatible(p, a[..i], a[i]) && a[..i][j] == a[j];
      }
    }
  }

  /** All assignments that start with `selected`, in the order of the candidates, with no cap. */
  ghost function Extensions(p: Problem, selected: seq<nat>): seq<seq<nat>>
    requires |selected| <= |p.viable| == |p.depends| && forall i :: 0 <= i < |p.depends| ==>
      |p.depends[i]| == |p.depends|
    decreases |p.viable| - |selected|, |p.viable| + 1
  {
    if |selected| == |p.viable| then [selected] else ExtensionsFrom(p, selected, 0)
  }

  ghost function ExtensionsFrom(p: Problem, selected: seq<nat>, next: nat): seq<seq<nat>>
    requires |selected| < |p.viable| == |p.depends| && forall i :: 0 <= i < |p.depends| ==>
      |p.depends[i]| == |p.depends|
    requires next <= |p.viable[|selected|]|
    decreases |p.viable| - |selected|, 0, |p.viable[|selected|]| - next
  {
    var candidates := p.viable[|selected|];
    if next == |candidates| then []
    else (if Compatible(p, selected, candidates[next]) then Extensions(p, selected + [candidates[next]]) else [])
         + ExtensionsFrom(p, selected, next + 1)
  }

  /** `a` comes before `b`: where they first differ, its candidate is listed first. */
  ghost predicate Earlier(p: Problem, a: seq<nat>, b: seq<nat>) {
    exists k :: EarlierAt(p, a, b, k)
  }

  ghost predicate EarlierAt(p: Problem, a: seq<nat>, b: seq<nat>, k: nat) {
    && k < |a| && k < |b| && k < |p.viable| && a[..k] == b[..k]
    && ListedBefore(p.viable[k], a[k], b[k])
  }

  ghost predicate InOrder(p: Problem, s: seq<seq<nat>>) {
    forall i, j :: 0 <= i < j < |s| ==> Earlier(p, s[i], s[j])
  }

  ghost predicate Completes(p: Problem, selected: seq<nat>, a: seq<nat>)
    requires WellFormed(p)
  {
    Partial(p, a) && |a| == |p.viable| && selected <= a
  }

  lemma PartialSnoc(p: Problem, selected: seq<nat>, c: nat)
    requires WellFormed(p) && |selected| < |p.viable|
    ensures Partial(p, selected + [c]) <==>
      Partial(p, selected) && c in p.viable[|selected|] && Compatible(p, selected, c)
  {
    var longer := selected + [c];
    assert longer[..|selected|] == selected;
    assert forall i :: 0 <= i < |selected| ==> longer[..i] == selected[..i] && longer[i] == selected[i];
    if Partial(p, longer) {
      forall i | 0 <= i < |selected| ensures selected[i] in p.viable[i] && Compatible(p, selected[..i], selected[i]) {
        assert longer[i] in p.viable[i] && Compatible(p, longer[..i], longer[i]);
      }
    }
  }

  lemma PartialPrefix(p: Problem, a: seq<nat>, k: nat)
    requires WellFormed(p) && Partial(p, a) && k <= |a|
    ensures Partial(p, a[..k])
  {
    forall i | 0 <= i < k ensures a[..k][i] in p.viable[i] && Compatible(p, a[..k][..i], a[..k][i]) {
      assert a[..k][..i] == a[..i];
    }
  }

  /** The enumeration lists exactly the completions, in candidate order. */
  lemma {:induction false} ExtensionsAreAll(p: Problem, selected: seq<nat>)
    requires WellFormed(p) && Partial(p, selected)
    ensures forall a :: a in Extensions(p, selected) <==> Completes(p, selected, a)
    ensures InOrder(p, Extensions(p, selected))
    decreases |p.viable| - |selected|, |p.viable| + 1
  {
    if |selected| < |p.viable| {
      hide Partial, Compatible;
      ExtensionsFromAreAll(p, selected, 0);
      forall a | Completes(p, selected, a) ensures StartsAt(p, selected, a, 0) {
        CandidateListed(p, selected, a);
      }
    } else {
      forall a | Completes(p, selected, a) ensures a == selected {
        assert a[..|selected|] == selected;
      }
    }
  }

  /** The next entry of `a` is listed at position `next` or later. */
  ghost predicate StartsAt(p: Problem, selected: seq<nat>, a: seq<nat>, next: nat) {
    |selected| < |a| && |selected| < |p.viable|
    && exists x :: next <= x < |p.viable[|selected|]| && p.viable[|selected|][x] == a[|selected|]
  }

  lemma CandidateListed(p: Problem, selected: seq<nat>, a: seq<nat>)
    requires WellFormed(p) && |selected| < |p.viable| && Completes(p, selected, a)
    ensures StartsAt(p, selected, a, 0)
  {
    assert a[|selected|] in p.viable[|selected|];
  }

  lemma {:induction false} ExtensionsFromAreAll(p: Problem, selected: seq<nat>, next: nat)
    requires WellFormed(p) && Partial(p, selected) && |selected| < |p.viable| && next <= |p.viable[|selected|]|
    ensures forall a ::
      a in ExtensionsFrom(p, selected, next) <==> Completes(p, selected, a) && StartsAt(p, selected, a, next)
    ensures InOrder(p, ExtensionsFrom(p, selected, next))
    decreases |p.viable| - |selected|, 0, |p.viable[|selected|]| - next
  {
    var candidates := p.viable[|selected|];
    if next < |candidates| {
      var c := candidates[next];
      var longer := selected + [c];
      var head := if Compatible(p, selected, c) then Extensions(p, longer) else [];
      assert ExtensionsFrom(p, selected, next) == head + ExtensionsFrom(p, selected, next + 1);
      hide Partial, Compatible, Completes, Extensions, ExtensionsFrom;
      ExtensionsFromAreAll(p, selected, next + 1);
      PartialSnoc(p, selected, c);
      if Compatible(p, selected, c) {
        ExtensionsAreAll(p, longer);
      }
      forall a ensures a in head <==> Completes(p, selected, a) && a[|selected|] == c {
        CompletesLonger(p, selected, c, a);
      }
      forall a | Completes(p, selected, a) ensures |selected| < |a| && selected < a {
        CompletesExtends(p, selected, a);
      }
      HeadBeforeTail(p, selected, next, head, ExtensionsFrom(p, selected, next + 1));
    }
  }

  lemma CompletesExtends(p: Problem, selected: seq<nat>, a: seq<nat>)
    requires WellFormed(p) && |selected| < |p.viable| && Completes(p, selected, a)
    ensures |selected| < |a| && selected < a
  {
  }

  lemma CompletesLonger(p: Problem, selected: seq<nat>, c: nat, a: seq<nat>)
    requires WellFormed(p) && Partial(p, selected) && |selected| < |p.viable|
    ensures Compatible(p, selected, c) && c in p.viable[|selected|] ==>
      (Completes(p, selected + [c], a) <==> Completes(p, selected, a) && a[|selected|] == c)
    ensures Completes(p, selected, a) && a[|selected|] == c ==> Compatible(p, selected, c)
  {
    hide Compatible;
    var longer := selected + [c];
    PartialSnoc(p, selected, c);
    if Completes(p, selected, a) && a[|selected|] == c {
      PartialPrefix(p, a, |longer|);
      assert a[..|longer|] == longer;
    }
  }

  lemma HeadBeforeTail(p: Problem, selected: seq<nat>, next: nat, head: seq<seq<nat>>, tail: seq<seq<nat>>)
    requires |selected| < |p.viable| && next < |p.viable[|selected|]|
    requires InOrder(p, head) && InOrder(p, tail)
    requires forall a :: a in head ==> selected < a && a[|selected|] == p.viable[|selected|][next]
    requires forall a :: a in tail ==> selected < a && StartsAt(p, selected, a, next + 1)
    ensures InOrder(p, head + tail)
  {
    forall i, j | 0 <= i < j < |head + tail| ensures Earlier(p, (head + tail)[i], (head + tail)[j]) {
      if i < |head| <= j {
        var a, b := head[i], tail[j - |head|];
        assert a in head && b in tail;
        assert EarlierAt(p, a, b, |selected|);
      }
    }
  }

  // ---------------------------------------------------------------------------------------------
  // The search, with its cap.

  function Capped(s: seq<seq<nat>>): seq<seq<nat>> {
    if |s| <= MAXIMUM_ASSIGNMENTS then s else s[..MAXIMUM_ASSIGNMENTS]
  }

  class AssignmentSearch {
    const p: Problem
    const reachability: Reachability
    var assignments: seq<seq<nat>>
    var truncated: bool

    ghost predicate Valid()
      reads this, reachability
    {
      WellFormed(p) && reachability.Valid() && reachability.adjacency == p.adjacency
    }

    constructor (p: Problem)
      requires WellFormed(p)
      ensures Valid() && this.p == p && assignments == [] && !truncated && fresh(reachability)
    {
      this.p := p;
      assignments, truncated := [], false;
      reachability := new Reachability(p.adjacency);
    }

    /** Whether every earlier node this one depends on has a native path to the candidate. */
    method HasPaths(selected: seq<nat>, c: nat) returns (ok: bool)
      requires Valid() && |selected| < |p.viable|
      modifies reachability
      ensures Valid()
      ensures ok <==> forall j :: 0 <= j < |selected| && p.depends[|selected|][j] ==> Linked(p, selected[j], c)
    {
      for j := 0 to |selected|
        invariant Valid()
        invariant forall i :: 0 <= i < j && p.depends[|selected|][i] ==> Linked(p, selected[i], c)
      {
        if p.depends[|selected|][j] {
          var reached := reachability.From(Group(selected[j]));
          if Group(c) !in reached {
            return false;
          }
        }
      }
      ok := true;
    }

    /** The state after everything in `total` has been offered to the list. */
    ghost predicate Holds(total: seq<seq<nat>>)
      reads this
    {
      assignments == Capped(total) && truncated == (|total| > MAXIMUM_ASSIGNMENTS)
    }

    /** Adds the completions of `selected`, up to the cap; one more than the cap sets `truncated`. */
    method Visit(selected: seq<nat>, used: set<nat>)
      requires Valid() && Partial(p, selected) && used == (set x | x in selected)
      requires |assignments| <= MAXIMUM_ASSIGNMENTS
      modifies this`assignments, this`truncated, reachability
      ensures Valid()
      ensures old(truncated) ==> truncated && assignments == old(assignments)
      ensures !old(truncated) ==> Holds(old(assignments) + Extensions(p, selected))
      decreases |p.viable| - |selected|, 1
    {
      hide Partial, Extensions, ExtensionsFrom;
      if truncated {
        return;
      }
      assert |selected| <= |p.viable| by { PartialPrefix(p, selected, 0); PartialLength(p, selected); }
      ghost var all := Extensions(p, selected);
      if |selected| == |p.viable| {
        LastExtension(p, selected);
        if |assignments| == MAXIMUM_ASSIGNMENTS {
          truncated := true;
        } else {
          assignments := assignments + [selected];
        }
        return;
      }
      var candidates := p.viable[|selected|];
      FirstExtension(p, selected);
      for next := 0 to |candidates|
        invariant Valid() && |assignments| <= MAXIMUM_ASSIGNMENTS
        invariant if truncated then Holds(old(assignments) + all)
                  else assignments + ExtensionsFrom(p, selected, next) == old(assignments) + all
      {
        ghost var before, below := assignments, Below(p, selected, candidates[next]);
        ghost var rest := ExtensionsFrom(p, selected, next + 1);
        ExtensionStep(p, selected, next);
        assert !truncated ==> before + below + rest == old(assignments) + all;
        TryCandidate(selected, used, candidates[next]);
        if |before + below| > MAXIMUM_ASSIGNMENTS {
          CapAbsorbs(before + below, rest);
        }
      }
      assert ExtensionsFrom(p, selected, |candidates|) == [] by { ExtensionsEnd(p, selected); }
    }

    /** One turn of the loop: the completions that place the next node on group `c`, if it is compatible. */
    method TryCandidate(selected: seq<nat>, used: set<nat>, c: nat)
      requires Valid() && Partial(p, selected) && used == (set x | x in selected)
      requires |selected| < |p.viable| && c in p.viable[|selected|] && |assignments| <= MAXIMUM_ASSIGNMENTS
      modifies this`assignments, this`truncated, reachability
      ensures Valid()
      ensures old(truncated) ==> truncated && assignments == old(assignments)
      ensures !old(truncated) ==> Holds(old(assignments) + Below(p, selected, c))
      decreases |p.viable| - |selected|, 0
    {
      hide Partial, Extensions, Compatible;
      if c in used {
        UsedIsIncompatible(p, selected, c);
        assert assignments + [] == assignments;
        return;
      }
      var ok := HasPaths(selected, c);
      PathsDecide(p, selected, c, ok);
      if ok {
        PartialSnoc(p, selected, c);
        assert used + {c} == (set x | x in selected + [c]);
        Visit(selected + [c], used + {c});
      } else {
        assert assignments + [] == assignments;
      }
    }
  }

  /** What placing the next node on `c` adds. */
  ghost function Below(p: Problem, selected: seq<nat>, c: nat): seq<seq<nat>>
    requires WellFormed(p) && |selected| < |p.viable|
  {
    if Compatible(p, selected, c) then Extensions(p, selected + [c]) else []
  }

  lemma PathsDecide(p: Problem, selected: seq<nat>, c: nat, ok: bool)
    requires WellFormed(p) && |selected| < |p.viable| && c !in selected
    requires ok <==> forall j :: 0 <= j < |selected| && p.depends[|selected|][j] ==> Linked(p, selected[j], c)
    ensures ok <==> Compatible(p, selected, c)
  {
  }

  lemma UsedIsIncompatible(p: Problem, selected: seq<nat>, c: nat)
    requires WellFormed(p) && |selected| < |p.viable| && c in selected
    ensures !Compatible(p, selected, c)
  {
  }

  lemma PartialLength(p: Problem, selected: seq<nat>)
    requires WellFormed(p) && Partial(p, selected)
    ensures |selected| <= |p.viable|
  {
  }

  lemma CapAbsorbs(a: seq<seq<nat>>, b: seq<seq<nat>>)
    requires |a| > MAXIMUM_ASSIGNMENTS
    ensures Capped(a) == Capped(a + b) && |a + b| > MAXIMUM_ASSIGNMENTS
  {
  }

  lemma LastExtension(p: Problem, selected: seq<nat>)
    requires WellFormed(p) && |selected| == |p.viable|
    ensures Extensions(p, selected) == [selected]
  {
  }

  lemma FirstExtension(p: Problem, selected: seq<nat>)
    requires WellFormed(p) && |selected| < |p.viable|
    ensures Extensions(p, selected) == ExtensionsFrom(p, selected, 0)
  {
  }

  lemma ExtensionsEnd(p: Problem, selected: seq<nat>)
    requires WellFormed(p) && |selected| < |p.viable|
    ensures ExtensionsFrom(p, selected, |p.viable[|selected|]|) == []
  {
  }

  lemma ExtensionStep(p: Problem, selected: seq<nat>, next: nat)
    requires WellFormed(p) && |selected| < |p.viable| && next < |p.viable[|selected|]|
    ensures ExtensionsFrom(p, selected, next)
         == Below(p, selected, p.viable[|selected|][next]) + ExtensionsFrom(p, selected, next + 1)
  {
  }

  // ---------------------------------------------------------------------------------------------
  // The whole proposal.

  /** The custom nodes, as increasing positions in the topological order. */
  ghost predicate Ascending(customs: seq<nat>, bound: nat) {
    && (forall i :: 0 <= i < |customs| ==> customs[i] < bound)
    && (forall i, j :: 0 <= i < j < |customs| ==> customs[i] < customs[j])
  }

  ghost predicate LeadsToOutput(adjacency: Relations, c: nat) {
    exists o :: Connected(adjacency, Group(c), o) && o.GraphOutput?
  }

  // ---------------------------------------------------------------------------------------------
  // Named inputs and outputs as evidence.

  /** A native input or output and its name. */
  datatype Symbol = Symbol(endpoint: Endpoint, name: string)

  datatype NamedOutput = NamedOutput(producer: NodeId, name: string)

  /** What carries a name: graph inputs and outputs, parameter nodes and native symbols; unnamed is empty. */
  datatype Names = Names(
    inputs: seq<string>, outputs: seq<NamedOutput>, parameters: map<NodeId, string>, symbols: seq<Symbol>)

  function Occurrences(names: seq<string>, name: string): nat {
    if names == [] then 0
    else Occurrences(names[..|names| - 1], name) + if names[|names| - 1] == name then 1 else 0
  }

  function Known(names: seq<string>): set<string> {
    set x | x in names && x != "" && Occurrences(names, x) == 1
  }

  lemma {:induction false} OccursSomewhere(names: seq<string>, name: string)
    ensures Occurrences(names, name) > 0 <==> name in names
  {
    if names != [] {
      OccursSomewhere(names[..|names| - 1], name);
      assert names == names[..|names| - 1] + [names[|names| - 1]];
    }
  }

  ghost predicate OnlyAt(names: seq<string>, name: string, i: int) {
    0 <= i < |names| && names[i] == name && forall j :: 0 <= j < |names| && names[j] == name ==> j == i
  }

  ghost predicate BorneByOne(names: seq<string>, name: string) {
    exists i :: OnlyAt(names, name, i)
  }

  lemma OneMoreName(front: seq<string>, last: string, name: string)
    ensures BorneByOne(front + [last], name) <==> if last == name then name !in front else BorneByOne(front, name)
  {
    var names := front + [last];
    if i :| OnlyAt(names, name, i) {
      assert names[|front|] == last && forall j :: 0 <= j < |front| ==> names[j] == front[j];
      assert last != name ==> OnlyAt(front, name, i);
    }
    if last == name && name !in front {
      assert forall j :: 0 <= j < |front| ==> names[j] == front[j];
      assert OnlyAt(names, name, |front|);
    }
    if i :| OnlyAt(front, name, i) {
      assert forall j :: 0 <= j < |front| ==> names[j] == front[j];
      assert last != name ==> OnlyAt(names, name, i);
    }
  }

  /** A name is known exactly when one and only one bears it. */
  lemma {:induction false} KnownIsUnique(names: seq<string>, name: string)
    ensures Occurrences(names, name) == 1 <==> BorneByOne(names, name)
  {
    hide BorneByOne;
    if names == [] {
      NoBearer(name);
    } else {
      var n := |names| - 1;
      KnownIsUnique(names[..n], name);
      OccursSomewhere(names[..n], name);
      OneMoreName(names[..n], names[n], name);
      assert names == names[..n] + [names[n]];
    }
  }

  lemma NoBearer(name: string)
    ensures !BorneByOne([], name)
  {
  }

  /** The names of the symbols of one kind. */
  function NamesOfKind(symbols: seq<Symbol>, inputs: bool): seq<string> {
    if symbols == [] then []
    else
      var last := symbols[|symbols| - 1];
      NamesOfKind(symbols[..|symbols| - 1], inputs) + if last.endpoint.GraphInput? == inputs then [last.name] else []
  }

  function NativeNames(symbols: seq<Symbol>, n: nat): map<Endpoint, string>
    requires n <= |symbols|
  {
    if n == 0 then map[]
    else
      var s := symbols[n - 1];
      if Occurrences(NamesOfKind(symbols, s.endpoint.GraphInput?), s.name) == 1
      then NativeNames(symbols, n - 1)[s.endpoint := s.name]
      else NativeNames(symbols, n - 1)
  }

  function OutputNames(outputs: seq<NamedOutput>): seq<string> {
    seq(|outputs|, i requires 0 <= i < |outputs| => outputs[i].name)
  }

  datatype Evidence = Evidence(native: map<Endpoint, string>, inputs: set<string>, outputs: set<string>)

  function EvidenceOf(names: Names): Evidence {
    Evidence(NativeNames(names.symbols, |names.symbols|), Known(names.inputs), Known(OutputNames(names.outputs)))
  }

  /** The symbol's name is its own: no other symbol of its kind bears it. */
  ghost predicate OwnName(symbols: seq<Symbol>, i: nat) {
    && i < |symbols|
    && forall j :: 0 <= j < |symbols| && j != i ==>
         symbols[j].endpoint.GraphInput? != symbols[i].endpoint.GraphInput? || symbols[j].name != symbols[i].name
  }

  /** Symbol `i` is the last that gives the endpoint a name of its own. */
  ghost predicate NamedBy(symbols: seq<Symbol>, e: Endpoint, name: string, i: nat) {
    && i < |symbols| && OwnName(symbols, i) && symbols[i] == Symbol(e, name)
    && forall j :: i < j < |symbols| && symbols[j].endpoint == e ==> !OwnName(symbols, j)
  }

  ghost predicate BearsName(symbols: seq<Symbol>, e: Endpoint, name: string) {
    exists i :: NamedBy(symbols, e, name, i)
  }

  ghost predicate NamedBefore(symbols: seq<Symbol>, n: nat, e: Endpoint, name: string, i: nat)
    requires n <= |symbols|
  {
    && i < n && OwnName(symbols, i) && symbols[i] == Symbol(e, name)
    && forall j :: i < j < n && symbols[j].endpoint == e ==> !OwnName(symbols, j)
  }

  function Bearers(symbols: seq<Symbol>, inputs: bool, name: string, n: nat): set<nat>
    requires n <= |symbols|
  {
    set i: nat | i < n && symbols[i].endpoint.GraphInput? == inputs && symbols[i].name == name
  }

  lemma BearersNext(symbols: seq<Symbol>, inputs: bool, name: string, n: nat)
    requires 0 < n <= |symbols|
    ensures
      var s := symbols[n - 1];
      |Bearers(symbols, inputs, name, n)| == |Bearers(symbols, inputs, name, n - 1)|
        + if s.endpoint.GraphInput? == inputs && s.name == name then 1 else 0
  {
    var s := symbols[n - 1];
    GrowsByLast(Bearers(symbols, inputs, name, n - 1), Bearers(symbols, inputs, name, n), n - 1,
                s.endpoint.GraphInput? == inputs && s.name == name);
  }

  lemma GrowsByLast(before: set<nat>, after: set<nat>, last: nat, included: bool)
    requires last !in before && forall x :: x in after <==> x in before || (x == last && included)
    ensures |after| == |before| + if included then 1 else 0
  {
    assert after == if included then before + {last} else before;
  }

  lemma NamesNext(symbols: seq<Symbol>, inputs: bool, n: nat)
    requires 0 < n <= |symbols|
    ensures NamesOfKind(symbols[..n], inputs)
         == NamesOfKind(symbols[..n - 1], inputs)
            + if symbols[n - 1].endpoint.GraphInput? == inputs then [symbols[n - 1].name] else []
  {
    assert symbols[..n][..n - 1] == symbols[..n - 1] && symbols[..n][n - 1] == symbols[n - 1];
  }

  lemma {:induction false} KindCounts(symbols: seq<Symbol>, inputs: bool, name: string, n: nat)
    requires n <= |symbols|
    ensures Occurrences(NamesOfKind(symbols[..n], inputs), name) == |Bearers(symbols, inputs, name, n)|
  {
    if n > 0 {
      hide Occurrences, NamesOfKind, Bearers;
      KindCounts(symbols, inputs, name, n - 1);
      NamesNext(symbols, inputs, n);
      BearersNext(symbols, inputs, name, n);
      var names := NamesOfKind(symbols[..n - 1], inputs);
      OccursLast(names, symbols[n - 1].name, name);
      assert names + [] == names;
    } else {
      assert symbols[..0] == [] && Bearers(symbols, inputs, name, 0) == {};
    }
  }

  lemma OccursLast(names: seq<string>, last: string, name: string)
    ensures Occurrences(names + [last], name) == Occurrences(names, name) + if last == name then 1 else 0
  {
    assert (names + [last])[..|names|] == names;
  }

  lemma OwnNameCounts(symbols: seq<Symbol>, i: nat)
    requires i < |symbols|
    ensures OwnName(symbols, i)
       <==> Occurrences(NamesOfKind(symbols, symbols[i].endpoint.GraphInput?), symbols[i].name) == 1
  {
    var kind, name := symbols[i].endpoint.GraphInput?, symbols[i].name;
    KindCounts(symbols, kind, name, |symbols|);
    assert symbols[..|symbols|] == symbols;
    hide Occurrences, NamesOfKind;
    var bearers := Bearers(symbols, kind, name, |symbols|);
    assert i in bearers;
    if OwnName(symbols, i) {
      assert bearers == {i};
    } else {
      var j: nat :| j < |symbols| && j != i && symbols[j].endpoint.GraphInput? == kind && symbols[j].name == name;
      assert {i, j} <= bearers;
      SubsetSize({i, j}, bearers);
    }
  }

  lemma SubsetSize(a: set<nat>, b: set<nat>)
    requires a <= b
    ensures |a| <= |b|
  {
    assert b == a + (b - a);
  }

  ghost predicate NamedSoFar(symbols: seq<Symbol>, n: nat, e: Endpoint, name: string)
    requires n <= |symbols|
  {
    exists i :: NamedBefore(symbols, n, e, name, i)
  }

  /** The native names are exactly those the symbols' own names give, the last one winning. */
  lemma {:induction false} NativeNamesMeaning(symbols: seq<Symbol>, n: nat, e: Endpoint, x: string)
    requires n <= |symbols|
    ensures e in NativeNames(symbols, n) && NativeNames(symbols, n)[e] == x <==> NamedSoFar(symbols, n, e, x)
  {
    hide *;
    if n == 0 {
      NothingNamed(symbols, e, x);
    } else {
      NativeNamesMeaning(symbols, n - 1, e, x);
      NamedNext(symbols, n, e, x);
      NativeNamesNext(symbols, n);
      var s, before := symbols[n - 1], NativeNames(symbols, n - 1);
      if OwnName(symbols, n - 1) {
        UpdatedAt(before, s.endpoint, s.name, e, x);
      }
    }
  }

  lemma NothingNamed(symbols: seq<Symbol>, e: Endpoint, x: string)
    ensures NativeNames(symbols, 0) == map[] && !NamedSoFar(symbols, 0, e, x)
  {
  }

  lemma UpdatedAt(names: map<Endpoint, string>, key: Endpoint, value: string, e: Endpoint, x: string)
    ensures
      var updated := names[key := value];
      e in updated && updated[e] == x <==> if key == e then value == x else e in names && names[e] == x
  {
  }

  lemma NativeNamesNext(symbols: seq<Symbol>, n: nat)
    requires 0 < n <= |symbols|
    ensures
      var s := symbols[n - 1];
      NativeNames(symbols, n)
        == if OwnName(symbols, n - 1) then NativeNames(symbols, n - 1)[s.endpoint := s.name]
           else NativeNames(symbols, n - 1)
  {
    OwnNameCounts(symbols, n - 1);
    hide OwnName, Occurrences, NamesOfKind;
  }

  lemma NamedNext(symbols: seq<Symbol>, n: nat, e: Endpoint, name: string)
    requires 0 < n <= |symbols|
    ensures NamedSoFar(symbols, n, e, name) <==>
      if OwnName(symbols, n - 1) && symbols[n - 1].endpoint == e then symbols[n - 1].name == name
      else NamedSoFar(symbols, n - 1, e, name)
  {
    hide OwnName;
    if NamedSoFar(symbols, n, e, name) {
      var i: nat :| NamedBefore(symbols, n, e, name, i);
      assert i < n - 1 ==> NamedBefore(symbols, n - 1, e, name, i);
    }
    if OwnName(symbols, n - 1) && symbols[n - 1] == Symbol(e, name) {
      assert NamedBefore(symbols, n, e, name, n - 1);
    }
    if NamedSoFar(symbols, n - 1, e, name) {
      var i: nat :| NamedBefore(symbols, n - 1, e, name, i);
      assert !(OwnName(symbols, n - 1) && symbols[n - 1].endpoint == e) ==> NamedBefore(symbols, n, e, name, i);
    }
  }

  lemma NamedByMeans(symbols: seq<Symbol>, e: Endpoint, name: string)
    ensures NamedSoFar(symbols, |symbols|, e, name) <==> BearsName(symbols, e, name)
  {
    hide OwnName;
    if NamedSoFar(symbols, |symbols|, e, name) {
      var i: nat :| NamedBefore(symbols, |symbols|, e, name, i);
      assert NamedBy(symbols, e, name, i);
    }
    if BearsName(symbols, e, name) {
      var i: nat :| NamedBy(symbols, e, name, i);
      assert NamedBefore(symbols, |symbols|, e, name, i);
    }
  }

  /** A graph output is known by a name that no other output has. */
  ghost predicate KnownOutput(names: Names, x: string) {
    x != "" && exists i :: OnlyOutputAt(names, x, i)
  }

  ghost predicate OnlyOutputAt(names: Names, x: string, i: int) {
    && 0 <= i < |names.outputs| && names.outputs[i].name == x
    && forall j :: 0 <= j < |names.outputs| && names.outputs[j].name == x ==> j == i
  }

  ghost predicate KnownInput(names: Names, x: string) {
    x != "" && BorneByOne(names.inputs, x)
  }

  /** The node feeds, or is, the producer of the output with this name. */
  ghost predicate FeedsOutput(g: Producers, names: Names, n: NodeId, x: string) {
    exists k :: 0 <= k < |names.outputs| && names.outputs[k].name == x
      && (names.outputs[k].producer == n || Ancestor(g, names.outputs[k].producer, n))
  }

  /** The node depends on the parameter with this name. */
  ghost predicate DependsOnInput(g: Producers, names: Names, n: NodeId, x: string) {
    exists a :: a in names.parameters && names.parameters[a] == x && Ancestor(g, n, a)
  }

  /**
   No named evidence against running node `n` on group `c`: every known output the group leads to is one the
   node feeds, and every known input that leads to the group is one the node depends on.
   */
  ghost predicate NotContradicted(g: Producers, names: Names, adjacency: Relations, n: NodeId, c: nat) {
    && (forall o, x | BearsName(names.symbols, o, x) && o.GraphOutput? && KnownOutput(names, x) ::
          Connected(adjacency, Group(c), o) ==> FeedsOutput(g, names, n, x))
    && (forall e, x | BearsName(names.symbols, e, x) && e.GraphInput? && KnownInput(names, x) ::
          Connected(adjacency, e, Group(c)) ==> DependsOnInput(g, names, n, x))
  }

  lemma KnownMeans(names: Names, x: string)
    ensures x in Known(OutputNames(names.outputs)) <==> KnownOutput(names, x)
    ensures x in Known(names.inputs) <==> KnownInput(names, x)
  {
    var outputs := OutputNames(names.outputs);
    KnownIsUnique(outputs, x);
    KnownIsUnique(names.inputs, x);
    OccursSomewhere(outputs, x);
    OccursSomewhere(names.inputs, x);
    hide Occurrences;
    if KnownOutput(names, x) {
      var i :| OnlyOutputAt(names, x, i);
      assert OnlyAt(outputs, x, i);
      assert outputs[i] in outputs;
    }
    if BorneByOne(outputs, x) {
      var i :| OnlyAt(outputs, x, i);
      assert forall j :: 0 <= j < |outputs| ==> outputs[j] == names.outputs[j].name;
      assert OnlyOutputAt(names, x, i);
    }
    if i :| OnlyAt(names.inputs, x, i) {
      assert names.inputs[i] in names.inputs;
    }
  }

  lemma OutputsMean(g: Producers, names: Names, n: NodeId, x: string)
    requires x in Known(OutputNames(names.outputs))
    ensures x in OutputsOf(g, names, n) <==> FeedsOutput(g, names, n, x)
  {
    hide Ancestor, Known;
    if FeedsOutput(g, names, n, x) {
      var k :| 0 <= k < |names.outputs| && names.outputs[k].name == x
        && (names.outputs[k].producer == n || Ancestor(g, names.outputs[k].producer, n));
      assert names.outputs[k].name in OutputsOf(g, names, n);
    }
  }

  lemma InputsMean(g: Producers, names: Names, n: NodeId, x: string)
    requires x in Known(names.inputs)
    ensures x in InputsOf(g, names, n) <==> DependsOnInput(g, names, n, x)
  {
    hide Ancestor, Known;
  }

  /** The computed evidence test is the declarative one. */
  lemma ConsistentMeans(g: Producers, names: Names, adjacency: Relations, n: NodeId, c: nat)
    ensures Consistent(adjacency, EvidenceOf(names), InputsOf(g, names, n), OutputsOf(g, names, n), c)
       <==> NotContradicted(g, names, adjacency, n, c)
  {
    hide Ancestor, Connected, Known, KnownOutput, KnownInput, NativeNames, BearsName;
    var evidence := EvidenceOf(names);
    forall e, x ensures e in evidence.native && evidence.native[e] == x <==> BearsName(names.symbols, e, x) {
      NativeNamesMeaning(names.symbols, |names.symbols|, e, x);
      NamedByMeans(names.symbols, e, x);
    }
    forall x ensures x in evidence.outputs <==> KnownOutput(names, x) {
      KnownMeans(names, x);
    }
    forall x ensures x in evidence.inputs <==> KnownInput(names, x) {
      KnownMeans(names, x);
    }
    forall x | KnownOutput(names, x) ensures x in OutputsOf(g, names, n) <==> FeedsOutput(g, names, n, x) {
      OutputsMean(g, names, n, x);
    }
    forall x | KnownInput(names, x) ensures x in InputsOf(g, names, n) <==> DependsOnInput(g, names, n, x) {
      InputsMean(g, names, n, x);
    }
    hide FeedsOutput, DependsOnInput, InputsOf, OutputsOf;
    var inputs, outputs := InputsOf(g, names, n), OutputsOf(g, names, n);
    if NotContradicted(g, names, adjacency, n, c) {
      forall o | o in evidence.native ensures OutputAgrees(adjacency, evidence, outputs, c, o) {
        assert BearsName(names.symbols, o, evidence.native[o]);
      }
      forall e | e in evidence.native ensures InputAgrees(adjacency, evidence, inputs, c, e) {
        assert BearsName(names.symbols, e, evidence.native[e]);
      }
    }
    if Consistent(adjacency, evidence, inputs, outputs, c) {
      forall o, x | BearsName(names.symbols, o, x) && o.GraphOutput? && KnownOutput(names, x)
        && Connected(adjacency, Group(c), o) ensures FeedsOutput(g, names, n, x)
      {
        assert o in evidence.native && OutputAgrees(adjacency, evidence, outputs, c, o);
      }
      forall e, x | BearsName(names.symbols, e, x) && e.GraphInput? && KnownInput(names, x)
        && Connected(adjacency, e, Group(c)) ensures DependsOnInput(g, names, n, x)
      {
        assert e in evidence.native && InputAgrees(adjacency, evidence, inputs, c, e);
      }
    }
  }

  /** The known graph inputs a node depends on. */
  ghost function InputsOf(g: Producers, names: Names, n: NodeId): set<string> {
    set a | a in names.parameters && Ancestor(g, n, a) && names.parameters[a] in Known(names.inputs)
      :: names.parameters[a]
  }

  /** The known graph outputs that depend on a node. */
  ghost function OutputsOf(g: Producers, names: Names, n: NodeId): set<string> {
    set k | 0 <= k < |names.outputs| && (names.outputs[k].producer == n || Ancestor(g, names.outputs[k].producer, n))
            && names.outputs[k].name in Known(OutputNames(names.outputs)) :: names.outputs[k].name
  }

  /** Every known output a group reaches, and every known input that reaches it, is one of the node's. */
  ghost predicate Consistent(adjacency: Relations, evidence: Evidence, inputs: set<string>, outputs: set<string>,
                             c: nat) {
    && (forall o :: o in evidence.native ==> OutputAgrees(adjacency, evidence, outputs, c, o))
    && (forall e :: e in evidence.native ==> InputAgrees(adjacency, evidence, inputs, c, e))
  }

  ghost predicate OutputAgrees(adjacency: Relations, evidence: Evidence, outputs: set<string>, c: nat, o: Endpoint)
    requires o in evidence.native
  {
    var name := evidence.native[o];
    o.GraphOutput? && name in evidence.outputs && Connected(adjacency, Group(c), o) ==> name in outputs
  }

  ghost predicate InputAgrees(adjacency: Relations, evidence: Evidence, inputs: set<string>, c: nat, e: Endpoint)
    requires e in evidence.native
  {
    var name := evidence.native[e];
    e.GraphInput? && name in evidence.inputs && Connected(adjacency, e, Group(c)) ==> name in inputs
  }

  /** The candidates that lead to an output and are consistent, in the same order. */
  ghost predicate Filtered(candidates: seq<nat>, kept: seq<nat>, adjacency: Relations, evidence: Evidence,
                           inputs: set<string>, outputs: set<string>)
  {
    && (forall c :: c in kept <==>
          c in candidates && LeadsToOutput(adjacency, c) && Consistent(adjacency, evidence, inputs, outputs, c))
    && (Distinct(candidates) ==> Distinct(kept))
    && forall x, y :: 0 <= x < y < |kept| ==> ListedBefore(candidates, kept[x], kept[y])
  }

  ghost predicate ListedBefore(candidates: seq<nat>, a: nat, b: nat) {
    exists i, j :: 0 <= i < j < |candidates| && candidates[i] == a && candidates[j] == b
  }

  /** Whether every known native input that leads to the group is among `inputs`. */
  method InputsAgree(reachability: Reachability, evidence: Evidence, inputs: set<string>, c: nat) returns (agree: bool)
    requires reachability.Valid()
    modifies reachability
    ensures reachability.Valid()
    ensures agree <==> forall e :: e in evidence.native ==> InputAgrees(reachability.adjacency, evidence, inputs, c, e)
  {
    agree := true;
    var pending := set e | e in evidence.native && e.GraphInput?;
    while pending != {}
      invariant reachability.Valid() && forall e :: e in pending ==> e in evidence.native && e.GraphInput?
      invariant agree <==> forall e :: e in evidence.native && e !in pending ==>
        InputAgrees(reachability.adjacency, evidence, inputs, c, e)
      decreases pending
    {
      var e :| e in pending;
      pending := pending - {e};
      var reached := reachability.From(e);
      if evidence.native[e] in evidence.inputs && Group(c) in reached && evidence.native[e] !in inputs {
        agree := false;
      }
    }
  }

  method IsViable(reachability: Reachability, evidence: Evidence, inputs: set<string>, outputs: set<string>, c: nat)
    returns (viable: bool)
    requires reachability.Valid()
    modifies reachability
    ensures reachability.Valid()
    ensures viable <==>
      LeadsToOutput(reachability.adjacency, c) && Consistent(reachability.adjacency, evidence, inputs, outputs, c)
  {
    var reached := reachability.From(Group(c));
    if !exists o :: o in reached && o.GraphOutput? {
      return false;
    }
    var agree := InputsAgree(reachability, evidence, inputs, c);
    var observed := set o | o in reached && o.GraphOutput? && o in evidence.native
      && evidence.native[o] in evidence.outputs :: evidence.native[o];
    assert observed <= outputs
       <==> forall o :: o in evidence.native ==> OutputAgrees(reachability.adjacency, evidence, outputs, c, o) by {
      forall o | o in evidence.native
        && !OutputAgrees(reachability.adjacency, evidence, outputs, c, o) ensures !(observed <= outputs) {
        assert evidence.native[o] in observed;
      }
    }
    viable := agree && observed <= outputs;
  }

  /** Candidates with a complete native path to a graph output and no contrary named input or output. */
  method FilterViable(reachability: Reachability, candidates: seq<nat>, evidence: Evidence,
                      inputs: set<string>, outputs: set<string>) returns (kept: seq<nat>)
    requires reachability.Valid()
    modifies reachability
    ensures reachability.Valid() && Filtered(candidates, kept, reachability.adjacency, evidence, inputs, outputs)
  {
    hide Consistent, LeadsToOutput;
    kept := [];
    ghost var from: seq<nat> := [];
    for k := 0 to |candidates|
      invariant reachability.Valid()
      invariant forall c :: c in kept <==>
        c in candidates[..k] && LeadsToOutput(reachability.adjacency, c)
        && Consistent(reachability.adjacency, evidence, inputs, outputs, c)
      invariant |from| == |kept| && forall x :: 0 <= x < |from| ==> from[x] < k && candidates[from[x]] == kept[x]
      invariant forall x, y :: 0 <= x < y < |from| ==> from[x] < from[y]
    {
      var c := candidates[k];
      assert candidates[..k + 1] == candidates[..k] + [c];
      var viable := IsViable(reachability, evidence, inputs, outputs, c);
      if viable {
        kept := kept + [c];
        from := from + [k];
      }
    }
    assert candidates[..|candidates|] == candidates;
    forall x, y | 0 <= x < y < |kept| ensures ListedBefore(candidates, kept[x], kept[y]) {
      ghost var i, j := from[x], from[y];
      assert i < j && candidates[i] == kept[x] && candidates[j] == kept[y];
    }
  }

  /** All assignments of the problem, each once, in candidate order. */
  ghost predicate Enumerates(p: Problem, all: seq<seq<nat>>)
    requires WellFormed(p)
  {
    (forall a :: a in all <==> Assignment(p, a)) && InOrder(p, all)
  }

  lemma ExtensionsEnumerate(p: Problem)
    requires WellFormed(p)
    ensures Enumerates(p, Extensions(p, []))
  {
    var none: seq<nat> := [];
    assert Partial(p, none);
    ExtensionsAreAll(p, none);
    hide Extensions;
    forall a ensures Completes(p, none, a) <==> Assignment(p, a) {
      if |a| == |p.viable| {
        FullPartialIsAssignment(p, a);
      }
    }
  }

  lemma EarlierDiffers(p: Problem, a: seq<nat>, b: seq<nat>)
    requires WellFormed(p) && Earlier(p, a, b)
    ensures a != b
  {
  }

  ghost predicate ExactlyOne(p: Problem)
    requires WellFormed(p)
  {
    exists a :: Assignment(p, a) && forall b :: Assignment(p, b) ==> b == a
  }

  /** Exactly one entry means exactly one assignment. */
  lemma OneMeansUnique(p: Problem, all: seq<seq<nat>>)
    requires WellFormed(p) && Enumerates(p, all)
    ensures |all| == 1 <==> ExactlyOne(p)
  {
    hide Assignment;
    if |all| == 1 {
      assert all[0] in all;
      assert forall b :: b in all ==> b == all[0];
    } else if |all| > 1 {
      assert Earlier(p, all[0], all[1]);
      EarlierDiffers(p, all[0], all[1]);
      assert all[0] in all && all[1] in all;
    }
  }

  method DependencyTable(g: Producers, order: seq<NodeId>, ancestors: map<NodeId, set<NodeId>>, customs: seq<nat>)
    returns (depends: seq<seq<bool>>)
    requires Ascending(customs, |order|) && forall n :: n in order <==> n in ancestors
    requires forall n, a :: n in ancestors ==> (a in ancestors[n] <==> Ancestor(g, n, a))
    ensures |depends| == |customs|
    ensures forall i :: 0 <= i < |customs| ==> |depends[i]| == |customs|
    ensures forall i, j :: 0 <= i < |customs| && 0 <= j < |customs| ==>
      (depends[i][j] <==> Ancestor(g, order[customs[i]], order[customs[j]]))
  {
    assert forall i :: 0 <= i < |order| ==> order[i] in ancestors;
    depends := seq(|customs|, i requires 0 <= i < |customs| =>
      seq(|customs|, j requires 0 <= j < |customs| => order[customs[j]] in ancestors[order[customs[i]]]));
  }

  /** Without any graph output among the relations no candidate is viable. */
  lemma NoOutputsNoAssignments(p: Problem, all: seq<seq<nat>>)
    requires WellFormed(p) && Enumerates(p, all) && p.viable != []
    requires forall c :: c in p.viable[0] ==> LeadsToOutput(p.adjacency, c)
    requires forall e, x :: e in p.adjacency && x in p.adjacency[e] ==> !x.GraphOutput?
    ensures all == []
  {
    if all != [] {
      assert all[0] in all && all[0][0] in p.viable[0];
      OutputIsDestination(p.adjacency, all[0][0]);
    }
  }

  lemma OutputIsDestination(adjacency: Relations, c: nat)
    requires LeadsToOutput(adjacency, c)
    ensures exists e, x :: e in adjacency && x in adjacency[e] && x.GraphOutput?
  {
    var o :| Connected(adjacency, Group(c), o) && o.GraphOutput?;
    var w :| Path(adjacency, w) && w[0] == Group(c) && w[|w| - 1] == o;
    var last := |w| - 2;
    assert w[last + 1] in Successors(adjacency, w[last]);
  }

  /** The candidates with a native path to an output and no named evidence against them, in the same order. */
  ghost predicate KeepsViable(g: Producers, names: Names, adjacency: Relations, n: NodeId, candidates: seq<nat>,
                              kept: seq<nat>) {
    && (forall c :: c in kept <==>
          c in candidates && LeadsToOutput(adjacency, c) && NotContradicted(g, names, adjacency, n, c))
    && (Distinct(candidates) ==> Distinct(kept))
    && forall x, y :: 0 <= x < y < |kept| ==> ListedBefore(candidates, kept[x], kept[y])
  }

  lemma FilteredMeans(g: Producers, names: Names, adjacency: Relations, n: NodeId, candidates: seq<nat>, kept: seq<nat>)
    requires Filtered(candidates, kept, adjacency, EvidenceOf(names), InputsOf(g, names, n), OutputsOf(g, names, n))
    ensures KeepsViable(g, names, adjacency, n, candidates, kept)
  {
    hide Consistent, NotContradicted, EvidenceOf, InputsOf, OutputsOf, LeadsToOutput, ListedBefore;
    forall c ensures c in kept <==>
      c in candidates && LeadsToOutput(adjacency, c) && NotContradicted(g, names, adjacency, n, c)
    {
      ConsistentMeans(g, names, adjacency, n, c);
    }
  }

  /** The viable candidates of every custom node, in candidate order. */
  ghost predicate AllFiltered(g: Producers, nodes: seq<NodeId>, contract: seq<seq<nat>>, viable: seq<seq<nat>>,
                              names: Names, adjacency: Relations)
    requires |nodes| == |contract|
  {
    |viable| == |contract|
    && forall i :: 0 <= i < |contract| ==>
      KeepsViable(g, names, adjacency, nodes[i], contract[i], viable[i])
  }

  method FilterAll(g: Producers, ancestors: map<NodeId, set<NodeId>>, nodes: seq<NodeId>, contract: seq<seq<nat>>,
                   names: Names, adjacency: Relations) returns (viable: seq<seq<nat>>)
    requires |nodes| == |contract| && forall i :: 0 <= i < |nodes| ==> nodes[i] in ancestors
    requires forall k :: 0 <= k < |names.outputs| ==> names.outputs[k].producer in ancestors
    requires forall n, a :: n in ancestors ==> (a in ancestors[n] <==> Ancestor(g, n, a))
    ensures AllFiltered(g, nodes, contract, viable, names, adjacency)
  {
    hide Filtered, Ancestor, Known, EvidenceOf, KeepsViable;
    var evidence := EvidenceOf(names);
    var inputNames, outputNames := Known(names.inputs), Known(OutputNames(names.outputs));
    var reachability := new Reachability(adjacency);
    viable := [];
    for i := 0 to |contract|
      invariant |viable| == i && reachability.Valid() && reachability.adjacency == adjacency && fresh(reachability)
      invariant forall k :: 0 <= k < i ==>
        KeepsViable(g, names, adjacency, nodes[k], contract[k], viable[k])
    {
      var n := nodes[i];
      var inputs := set a | a in ancestors[n] && a in names.parameters && names.parameters[a] in inputNames
        :: names.parameters[a];
      var outputs := set k | 0 <= k < |names.outputs|
        && (names.outputs[k].producer == n || n in ancestors[names.outputs[k].producer])
        && names.outputs[k].name in outputNames :: names.outputs[k].name;
      assert inputs == InputsOf(g, names, n);
      assert outputs == OutputsOf(g, names, n);
      var kept := FilterViable(reachability, contract[i], evidence, inputs, outputs);
      FilteredMeans(g, names, adjacency, n, contract[i], kept);
      viable := viable + [kept];
    }
  }

  datatype Status = Nothing | Unique | Ambiguous

  function StatusOf(assignments: seq<seq<nat>>, truncated: bool): Status {
    if assignments == [] then Nothing else if |assignments| == 1 && !truncated then Unique else Ambiguous
  }

  lemma NothingMeaning(p: Problem, all: seq<seq<nat>>)
    requires WellFormed(p) && Enumerates(p, all)
    ensures all == [] <==> forall a :: !Assignment(p, a)
  {
    hide Assignment, InOrder;
    if all != [] {
      assert all[0] in all;
    }
  }

  /** The status reads the whole enumeration, although only the capped list is kept. */
  lemma StatusMeaning(p: Problem, all: seq<seq<nat>>)
    requires WellFormed(p) && Enumerates(p, all)
    ensures
      var status := StatusOf(Capped(all), |all| > MAXIMUM_ASSIGNMENTS);
      && (status == Unique <==> ExactlyOne(p))
      && (status == Nothing <==> forall a :: !Assignment(p, a))
  {
    hide WellFormed, Assignment, Enumerates, ExactlyOne;
    OneMeansUnique(p, all);
    NothingMeaning(p, all);
  }

  /** The problem the search solves: dependencies from the graph, candidates from contracts and evidence. */
  method BuildProblem(g: Producers, order: seq<NodeId>, customs: seq<nat>, contract: seq<seq<nat>>,
                      names: Names, adjacency: Relations) returns (p: Problem)
    requires Closed(g) && Ordered(g, order) && Ascending(customs, |order|)
    requires |contract| == |customs| && forall i :: 0 <= i < |contract| ==> Distinct(contract[i])
    requires forall k :: 0 <= k < |names.outputs| ==> names.outputs[k].producer in order
    ensures WellFormed(p) && |p.viable| == |customs| && p.adjacency == adjacency
    ensures forall i, j :: 0 <= i < |customs| && 0 <= j < |customs| ==>
      (p.depends[i][j] <==> Ancestor(g, order[customs[i]], order[customs[j]]))
    ensures AllFiltered(g, CustomNodes(order, customs), contract, p.viable, names, adjacency)
  {
    hide Ordered, Closed, Walk, Ancestor, KeepsViable;
    var ancestors := Ancestors(g, order);
    var depends := DependencyTable(g, order, ancestors, customs);
    forall i, j | 0 <= i < |customs| && 0 <= j < |customs| && depends[i][j] ensures j < i {
      AncestorComesFirst(g, order, customs[j], customs[i]);
    }
    var nodes := CustomNodes(order, customs);
    assert forall i :: 0 <= i < |order| ==> order[i] in ancestors;
    var viable := FilterAll(g, ancestors, nodes, contract, names, adjacency);
    forall i | 0 <= i < |viable| ensures Distinct(viable[i]) {
      KeptAreDistinct(g, names, adjacency, nodes[i], contract[i], viable[i]);
    }
    p := Problem(viable, depends, adjacency);
  }

  /**
   The proposal: the first 256 assignments in candidate order, `truncated` exactly when there are more, and
   a status that says whether there is none, exactly one, or more than one.
   */
  method ProposeMapping(g: Producers, order: seq<NodeId>, customs: seq<nat>, contract: seq<seq<nat>>,
                        names: Names, adjacency: Relations)
    returns (assignments: seq<seq<nat>>, truncated: bool, status: Status, ghost p: Problem, ghost all: seq<seq<nat>>)
    requires Closed(g) && Ordered(g, order) && Ascending(customs, |order|)
    requires |contract| == |customs| && forall i :: 0 <= i < |contract| ==> Distinct(contract[i])
    requires forall k :: 0 <= k < |names.outputs| ==> names.outputs[k].producer in order
    ensures WellFormed(p) && |p.viable| == |customs| && p.adjacency == adjacency
    ensures forall i, j :: 0 <= i < |customs| && 0 <= j < |customs| ==>
      (p.depends[i][j] <==> Ancestor(g, order[customs[i]], order[customs[j]]))
    ensures AllFiltered(g, CustomNodes(order, customs), contract, p.viable, names, adjacency)
    ensures Enumerates(p, all)
    ensures customs != [] ==> assignments == (if |all| <= 256 then all else all[..256]) && truncated == (|all| > 256)
    ensures customs != [] ==> (status == Unique <==> ExactlyOne(p))
    ensures customs != [] ==> (status == Nothing <==> forall a :: !Assignment(p, a))
    ensures customs == [] ==> assignments == [] && !truncated && status == Nothing
  {
    hide Ordered, Closed, Ancestor, Assignment, AllFiltered, Enumerates, Extensions, ExactlyOne;
    var problem := BuildProblem(g, order, customs, contract, names, adjacency);
    p := problem;
    all := Extensions(p, []);
    ExtensionsEnumerate(p);
    StatusMeaning(p, all);
    var hasOutputs := exists e, x :: e in adjacency && x in adjacency[e] && x.GraphOutput?;
    if customs != [] && !hasOutputs {
      NoneWithoutOutputs(g, CustomNodes(order, customs), contract, names, p, all);
    }
    if customs == [] || !hasOutputs {
      return [], false, Nothing, p, all;
    }
    assignments, truncated := Enumerate(problem);
    status := StatusOf(assignments, truncated);
  }

  function CustomNodes(order: seq<NodeId>, customs: seq<nat>): (nodes: seq<NodeId>)
    requires forall i :: 0 <= i < |customs| ==> customs[i] < |order|
    ensures |nodes| == |customs| && forall i :: 0 <= i < |nodes| ==> nodes[i] == order[customs[i]]
  {
    seq(|customs|, i requires 0 <= i < |customs| => order[customs[i]])
  }

  lemma KeptAreDistinct(g: Producers, names: Names, adjacency: Relations, n: NodeId, candidates: seq<nat>,
                        kept: seq<nat>)
    requires KeepsViable(g, names, adjacency, n, candidates, kept) && Distinct(candidates)
    ensures Distinct(kept)
    ensures forall c :: c in kept ==> LeadsToOutput(adjacency, c)
  {
  }

  lemma NoneWithoutOutputs(g: Producers, nodes: seq<NodeId>, contract: seq<seq<nat>>, names: Names, p: Problem,
                           all: seq<seq<nat>>)
    requires |nodes| == |contract| > 0 && AllFiltered(g, nodes, contract, p.viable, names, p.adjacency)
    requires Distinct(contract[0]) && WellFormed(p) && Enumerates(p, all)
    requires forall e, x :: e in p.adjacency && x in p.adjacency[e] ==> !x.GraphOutput?
    ensures all == []
  {
    hide KeepsViable, Enumerates, LeadsToOutput;
    KeptAreDistinct(g, names, p.adjacency, nodes[0], contract[0], p.viable[0]);
    NoOutputsNoAssignments(p, all);
  }

  method Enumerate(p: Problem) returns (assignments: seq<seq<nat>>, truncated: bool)
    requires WellFormed(p)
    ensures
      var all := Extensions(p, []);
      assignments == Capped(all) && truncated == (|all| > MAXIMUM_ASSIGNMENTS)
  {
    hide Extensions;
    var search := new AssignmentSearch(p);
    search.Visit([], {});
    assignments, truncated := search.assignments, search.truncated;
    assert [] + Extensions(p, []) == Extensions(p, []);
  }
}
