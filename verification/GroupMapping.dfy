/**
 Automatic mapping of custom nodes to native ACT groups: a search over the ways to hand the discovered
 groups, in order, to the computational nodes, at least one group each.
 */
module GroupMapping {
  import opened Wrappers
  import opened Sequences
  import opened Targets

  /** The computational nodes in topological order, and the discovered groups in native order. */
  datatype Problem = Problem(nodes: seq<Node>, groups: seq<seq<Target>>)

  function Flatten(groups: seq<seq<Target>>): seq<Target> {
    if groups == [] then [] else groups[0] + Flatten(groups[1..])
  }

  predicate Consecutive(values: seq<nat>) {
    forall i :: 0 <= i < |values| ==> values[i] == values[0] + i
  }

  function Invocations(targets: seq<Target>): seq<nat> {
    seq(|targets|, i requires 0 <= i < |targets| => targets[i].invocation)
  }

  function RangeIndices(targets: seq<Target>): seq<nat> {
    seq(|targets|, i requires 0 <= i < |targets| => targets[i].range)
  }

  predicate PartOf(node: Node, t: Target, flags: bv32)
    requires t.Legacy? && node.outputs != []
  {
    t.inputCount == |node.inputs| && t.span == t.elements * ElementSize(node.outputs[0].dtype) && t.flags == flags
  }

  /** Several version 1 groups that together are one partitioned custom operation. */
  function CombineLegacy(node: Node, groups: seq<seq<Target>>): Option<seq<Target>>
    requires forall t :: t in Flatten(groups) ==> t.Legacy?
  {
    var targets := Flatten(groups);
    if |groups| < 2 || |node.outputs| != 1 || node.outputs[0].dtype !in {F16, F32} || targets == [] then None
    else if exists t :: t in targets && !PartOf(node, t, targets[0].flags) then None
    else if !Consecutive(Invocations(targets)) || !Consecutive(RangeIndices(targets)) then None
    else if !Accepts(node, targets, true) then None
    else Some(targets)
  }

  const HYBRID_TENSORS: seq<Tensor> := [
    Tensor(Input, 0, F16, 4, 8, 0x07), Tensor(Input, 1, F16, 4, 8, 0x07), Tensor(Input, 2, F16, 1, 2, 0x07),
    Tensor(Input, 3, F16, 1, 2, 0x07), Tensor(Input, 4, F16, 1, 2, 0x07), Tensor(Output, 0, F16, 4, 8, 0x0F)]

  const HYBRID_INPUTS: seq<Spec> :=
    [Spec([4, 8], F16), Spec([4, 8], F16), Spec([4, 1], F16), Spec([4, 1], F16), Spec([4, 1], F16)]

  /** The one validated four-row layout of version 2 groups. */
  function CombineHybrid(node: Node, groups: seq<seq<Target>>): Option<seq<Target>>
    requires forall t :: t in Flatten(groups) ==> t.Versioned?
  {
    var targets := Flatten(groups);
    if |groups| != 4 || node.outputs != [Spec([4, 8], F16)] || node.inputs != HYBRID_INPUTS
      || exists g :: g in groups && |g| != 4 then None
    else if exists t :: t in targets && (t.targetFlags != 0 || t.tensors != HYBRID_TENSORS) then None
    else if !Consecutive(Invocations(targets)) then None
    else Some(targets)
  }

  function Combine(node: Node, groups: seq<seq<Target>>): Option<seq<Target>> {
    if forall t :: t in Flatten(groups) ==> t.Legacy? then CombineLegacy(node, groups)
    else if forall t :: t in Flatten(groups) ==> t.Versioned? then CombineHybrid(node, groups)
    else None
  }

  /** One target after another, invocation and range counting up, all with the first one's flags. */
  ghost predicate Partitions(node: Node, targets: seq<Target>) {
    && targets != [] && |node.outputs| == 1 && (node.outputs[0].dtype == F16 || node.outputs[0].dtype == F32)
    && targets[0].Legacy?
    && forall i :: 0 <= i < |targets| ==>
      && targets[i].Legacy? && targets[i].flags == targets[0].flags && targets[i].inputCount == |node.inputs|
      && targets[i].invocation == targets[0].invocation + i && targets[i].range == targets[0].range + i
      && targets[i].span == targets[i].elements * (if node.outputs[0].dtype == F16 then 2 else 4)
  }

  /** Version 1 groups combine exactly when together they partition an operation the node accepts in full. */
  lemma LegacyGroupsCombine(node: Node, groups: seq<seq<Target>>)
    requires forall t :: t in Flatten(groups) ==> t.Legacy?
    ensures
      var targets := Flatten(groups);
      Combine(node, groups)
        == if |groups| >= 2 && Partitions(node, targets) && Accepts(node, targets, true) then Some(targets) else None
  {
    hide Check, Flatten;
    var targets := Flatten(groups);
    if targets != [] && |node.outputs| == 1 {
      PartsByIndex(node, targets);
      var invocations, ranges := Invocations(targets), RangeIndices(targets);
      assert Consecutive(invocations) <==>
        forall i :: 0 <= i < |targets| ==> targets[i].invocation == targets[0].invocation + i by {
        assert forall i :: 0 <= i < |targets| ==> invocations[i] == targets[i].invocation;
      }
      assert Consecutive(ranges) <==>
        forall i :: 0 <= i < |targets| ==> targets[i].range == targets[0].range + i by {
        assert forall i :: 0 <= i < |targets| ==> ranges[i] == targets[i].range;
      }
      hide Consecutive, Invocations, RangeIndices;
    }
  }

  lemma PartsByIndex(node: Node, targets: seq<Target>)
    requires targets != [] && node.outputs != [] && forall t :: t in targets ==> t.Legacy?
    ensures (forall t :: t in targets ==> PartOf(node, t, targets[0].flags))
       <==> forall i :: 0 <= i < |targets| ==> PartOf(node, targets[i], targets[0].flags)
  {
    hide PartOf;
  }

  /** One version 2 target after another, invocation counting up, each in the validated layout. */
  ghost predicate FourRows(targets: seq<Target>) {
    forall i :: 0 <= i < |targets| ==>
      && targets[i].Versioned? && targets[i].targetFlags == 0
      && targets[i].tensors == [
           Tensor(Input, 0, F16, 4, 8, 0x07), Tensor(Input, 1, F16, 4, 8, 0x07), Tensor(Input, 2, F16, 1, 2, 0x07),
           Tensor(Input, 3, F16, 1, 2, 0x07), Tensor(Input, 4, F16, 1, 2, 0x07), Tensor(Output, 0, F16, 4, 8, 0x0F)]
      && (i > 0 ==> targets[i].invocation == targets[i - 1].invocation + 1)
  }

  /** Four groups of four such targets combine for the node that layout is for. */
  lemma HybridGroupsCombine(groups: seq<seq<Target>>, custom: bool)
    requires |groups| == 4 && (forall g :: 0 <= g < 4 ==> |groups[g]| == 4) && FourRows(Flatten(groups))
    ensures
      var node := Node(custom,
        [Spec([4, 8], F16), Spec([4, 8], F16), Spec([4, 1], F16), Spec([4, 1], F16), Spec([4, 1], F16)],
        [Spec([4, 8], F16)]);
      Combine(node, groups) == Some(Flatten(groups))
  {
    var targets := Flatten(groups);
    assert targets != [] by { FirstOfFlatten(groups); }
    RowsAreConsecutive(targets);
    assert exists t :: t in targets && !t.Legacy? by {
      var first := targets[0];
      assert first in targets;
    }
  }

  lemma RowsAreConsecutive(targets: seq<Target>)
    requires FourRows(targets)
    ensures forall t :: t in targets ==> t.Versioned? && t.targetFlags == 0 && t.tensors == HYBRID_TENSORS
    ensures Consecutive(Invocations(targets))
  {
    forall i | 0 <= i < |targets| ensures targets[i].invocation == targets[0].invocation + i {
      CountsUp(targets, i);
    }
  }

  lemma {:induction false} CountsUp(targets: seq<Target>, i: nat)
    requires FourRows(targets) && i < |targets|
    ensures targets[i].invocation == targets[0].invocation + i
  {
    if i > 0 {
      CountsUp(targets, i - 1);
    }
  }

  lemma FirstOfFlatten(groups: seq<seq<Target>>)
    requires groups != [] && groups[0] != []
    ensures Flatten(groups) != []
  {
  }

  /** Node `n` may run on the `take` groups from `g` on. */
  predicate Fits(p: Problem, n: nat, g: nat, take: nat)
    requires n < |p.nodes| && 1 <= take && g + take <= |p.groups|
  {
    var node := p.nodes[n];
    if take == 1 then p.groups[g] != [] && (node.custom ==> Accepts(node, p.groups[g], false))
    else node.custom && Combine(node, p.groups[g..g + take]).Some?
  }

  /** The check of a custom node against one group raises instead of answering. */
  predicate Raising(p: Problem, n: nat, g: nat)
    requires n < |p.nodes| && g < |p.groups|
  {
    p.nodes[n].custom && Check(p.nodes[n], p.groups[g], false) == Raises
  }

  // ---------------------------------------------------------------------------------------------
  // The declarative problem.

  /** `takes` hands all groups from `g` on to the nodes from `n` on. */
  ghost predicate Composition(p: Problem, n: nat, g: nat, takes: seq<nat>)
    requires n <= |p.nodes|
  {
    && |takes| == |p.nodes| - n && g + Sum(takes) == |p.groups|
    && forall k :: 0 <= k < |takes| ==> FitsAt(p, n, g, takes, k)
  }

  ghost predicate FitsAt(p: Problem, n: nat, g: nat, takes: seq<nat>, k: nat)
    requires k < |takes| <= |p.nodes| - n
  {
    var start := g + Sum(takes[..k]);
    takes[k] >= 1 && start + takes[k] <= |p.groups| && Fits(p, n + k, start, takes[k])
  }

  function Interval(start: nat, take: nat): seq<nat> {
    seq(take, i => start + i)
  }

  /** The group indices of each custom node, in node order. */
  function CustomRanges(p: Problem, n: nat, g: nat, takes: seq<nat>): seq<seq<nat>>
    requires |takes| == |p.nodes| - n && n <= |p.nodes|
    decreases |takes|
  {
    if takes == [] then []
    else (if p.nodes[n].custom then [Interval(g, takes[0])] else [])
         + CustomRanges(p, n + 1, g + takes[0], takes[1..])
  }

  // ---------------------------------------------------------------------------------------------
  // All compositions, in search order but without pruning or early exit.

  function Compositions(p: Problem, n: nat, g: nat): seq<seq<nat>>
    requires n <= |p.nodes| && g <= |p.groups|
    decreases |p.nodes| - n, |p.groups| + 1
  {
    if n == |p.nodes| then (if g == |p.groups| then [[]] else []) else CompositionsFrom(p, n, g, 1)
  }

  function CompositionsFrom(p: Problem, n: nat, g: nat, take: nat): seq<seq<nat>>
    requires n < |p.nodes| && g <= |p.groups| && 1 <= take
    decreases |p.nodes| - n, |p.groups| + 1 - take
  {
    if g + take > |p.groups| then []
    else TakeExactly(p, n, g, take) + CompositionsFrom(p, n, g, take + 1)
  }

  /** Those whose first node takes exactly `take` groups. */
  function TakeExactly(p: Problem, n: nat, g: nat, take: nat): seq<seq<nat>>
    requires n < |p.nodes| && 1 <= take && g + take <= |p.groups|
    decreases |p.nodes| - n, 0
  {
    if Fits(p, n, g, take) then Prepend(take, Compositions(p, n + 1, g + take)) else []
  }

  function Prepend(take: nat, rest: seq<seq<nat>>): seq<seq<nat>> {
    seq(|rest|, i requires 0 <= i < |rest| => [take] + rest[i])
  }

  lemma CompositionCons(p: Problem, n: nat, g: nat, takes: seq<nat>)
    requires n < |p.nodes| && takes != []
    ensures Composition(p, n, g, takes) <==>
      && takes[0] >= 1 && g + takes[0] <= |p.groups| && Fits(p, n, g, takes[0])
      && Composition(p, n + 1, g + takes[0], takes[1..])
  {
    hide Fits;
    var rest, n', g' := takes[1..], n + 1, g + takes[0];
    if |takes| == |p.nodes| - n {
      forall k | 0 <= k < |rest| ensures FitsAt(p, n', g', rest, k) <==> FitsAt(p, n, g, takes, k + 1) {
        assert takes[..k + 1][1..] == rest[..k];
      }
      if Composition(p, n', g', rest) {
        forall k | 1 <= k < |takes| ensures FitsAt(p, n, g, takes, k) {
          assert FitsAt(p, n', g', rest, k - 1);
        }
      }
      assert FitsAt(p, n, g, takes, 0) <==> takes[0] >= 1 && g' <= |p.groups| && Fits(p, n, g, takes[0]);
    }
  }

  /** The enumeration lists exactly the compositions, each once. */
  lemma {:induction false} CompositionsAreAll(p: Problem, n: nat, g: nat)
    requires n <= |p.nodes| && g <= |p.groups|
    ensures forall t :: t in Compositions(p, n, g) <==> Composition(p, n, g, t)
    ensures Distinct(Compositions(p, n, g))
    decreases |p.nodes| - n, |p.groups| + 1
  {
    if n == |p.nodes| {
      forall t ensures t in Compositions(p, n, g) <==> Composition(p, n, g, t) {
      }
    } else {
      CompositionsFromAreAll(p, n, g, 1);
      forall t ensures t in Compositions(p, n, g) <==> Composition(p, n, g, t) {
        if Composition(p, n, g, t) {
          CompositionCons(p, n, g, t);
        }
      }
    }
  }

  lemma {:induction false} CompositionsFromAreAll(p: Problem, n: nat, g: nat, take: nat)
    requires n < |p.nodes| && g <= |p.groups| && 1 <= take
    ensures forall t :: t in CompositionsFrom(p, n, g, take) <==> Composition(p, n, g, t) && t[0] >= take
    ensures Distinct(CompositionsFrom(p, n, g, take))
    decreases |p.nodes| - n, |p.groups| + 1 - take
  {
    if g + take > |p.groups| {
      forall t | Composition(p, n, g, t) ensures t[0] < take {
        CompositionCons(p, n, g, t);
      }
    } else {
      CompositionsAreAll(p, n + 1, g + take);
      CompositionsFromAreAll(p, n, g, take + 1);
      TakeAreAll(p, n, g, take);
      JoinDistinct(TakeExactly(p, n, g, take), CompositionsFrom(p, n, g, take + 1), take);
    }
  }

  lemma TakeAreAll(p: Problem, n: nat, g: nat, take: nat)
    requires n < |p.nodes| && 1 <= take && g + take <= |p.groups|
    requires
      var rest := Compositions(p, n + 1, g + take);
      Distinct(rest) && forall t :: t in rest <==> Composition(p, n + 1, g + take, t)
    ensures forall t :: t in TakeExactly(p, n, g, take) <==> Composition(p, n, g, t) && t[0] == take
    ensures Distinct(TakeExactly(p, n, g, take))
  {
    hide Fits, Compositions;
    forall t ensures t in TakeExactly(p, n, g, take) <==> Composition(p, n, g, t) && t[0] == take {
      if t != [] {
        CompositionCons(p, n, g, t);
        PrependMembers(take, Compositions(p, n + 1, g + take), t);
      }
    }
    PrependDistinct(take, Compositions(p, n + 1, g + take));
  }

  lemma JoinDistinct(head: seq<seq<nat>>, tail: seq<seq<nat>>, take: nat)
    requires Distinct(head) && Distinct(tail)
    requires forall t :: t in head ==> t != [] && t[0] == take
    requires forall t :: t in tail ==> t != [] && t[0] > take
    ensures Distinct(head + tail)
  {
    forall i, j | 0 <= i < j < |head + tail| ensures (head + tail)[i] != (head + tail)[j] {
      if i < |head| <= j {
        assert head[i] in head && tail[j - |head|] in tail;
      }
    }
  }

  lemma PrependMembers(take: nat, rest: seq<seq<nat>>, t: seq<nat>)
    requires t != []
    ensures t in Prepend(take, rest) <==> t[0] == take && t[1..] in rest
  {
    if t[0] == take && t[1..] in rest {
      var i :| 0 <= i < |rest| && rest[i] == t[1..];
      assert Prepend(take, rest)[i] == t;
    }
  }

  lemma PrependDistinct(take: nat, rest: seq<seq<nat>>)
    requires Distinct(rest)
    ensures Distinct(Prepend(take, rest))
  {
    var s := Prepend(take, rest);
    assert forall i :: 0 <= i < |s| ==> s[i][1..] == rest[i];
  }

  // ---------------------------------------------------------------------------------------------
  // Pruning: what the search skips holds no composition.

  lemma {:induction false} SumAtLeast(takes: seq<nat>)
    requires forall k :: 0 <= k < |takes| ==> takes[k] >= 1
    ensures Sum(takes) >= |takes|
  {
    if takes != [] {
      SumAtLeast(takes[1..]);
    }
  }

  /** The most groups node `n` can take when the nodes after it still need one each. */
  function MaximumTake(p: Problem, n: nat, g: nat): int {
    |p.groups| - g - (|p.nodes| - n - 1)
  }

  lemma NothingBeyond(p: Problem, n: nat, g: nat, take: nat)
    requires n < |p.nodes| && g <= |p.groups| && 1 <= take
    requires take > MaximumTake(p, n, g) || (take > 1 && !p.nodes[n].custom)
    ensures CompositionsFrom(p, n, g, take) == []
  {
    var found := CompositionsFrom(p, n, g, take);
    CompositionsFromAreAll(p, n, g, take);
    if found != [] {
      var t := found[0];
      assert t in found;
      CompositionCons(p, n, g, t);
      forall k | 0 <= k < |t[1..]| ensures t[1..][k] >= 1 {
        assert FitsAt(p, n, g, t, k + 1);
      }
      SumAtLeast(t[1..]);
      assert false;
    }
  }

  // ---------------------------------------------------------------------------------------------
  // The search.

  type Selection = map<nat, seq<nat>>

  function Extend(p: Problem, n: nat, g: nat, take: nat, selected: Selection): Selection
    requires n < |p.nodes|
  {
    if p.nodes[n].custom then selected[n := Interval(g, take)] else selected
  }

  /** The selection a composition stands for. */
  function Assigned(p: Problem, n: nat, g: nat, selected: Selection, takes: seq<nat>): Selection
    requires n + |takes| <= |p.nodes|
    decreases |takes|
  {
    if takes == [] then selected
    else Assigned(p, n + 1, g + takes[0], Extend(p, n, g, takes[0], selected), takes[1..])
  }

  ghost function AllAssigned(p: Problem, n: nat, g: nat, selected: Selection, list: seq<seq<nat>>): seq<Selection>
    requires forall t :: t in list ==> n + |t| <= |p.nodes|
  {
    seq(|list|, i requires 0 <= i < |list| => assert list[i] in list; Assigned(p, n, g, selected, list[i]))
  }

  ghost function Solved(p: Problem, n: nat, g: nat, selected: Selection): seq<Selection>
    requires n <= |p.nodes| && g <= |p.groups|
  {
    CompositionsAreAll(p, n, g);
    AllAssigned(p, n, g, selected, Compositions(p, n, g))
  }

  ghost function SolvedFrom(p: Problem, n: nat, g: nat, selected: Selection, take: nat): seq<Selection>
    requires n < |p.nodes| && g <= |p.groups| && 1 <= take
  {
    CompositionsFromAreAll(p, n, g, take);
    AllAssigned(p, n, g, selected, CompositionsFrom(p, n, g, take))
  }

  lemma AllAssignedConcat(p: Problem, n: nat, g: nat, selected: Selection, a: seq<seq<nat>>, b: seq<seq<nat>>)
    requires forall t :: t in a + b ==> n + |t| <= |p.nodes|
    ensures (forall t :: t in a ==> n + |t| <= |p.nodes|) && (forall t :: t in b ==> n + |t| <= |p.nodes|)
    ensures AllAssigned(p, n, g, selected, a + b) == AllAssigned(p, n, g, selected, a)
      + AllAssigned(p, n, g, selected, b)
  {
  }

  lemma AllAssignedPrepend(p: Problem, n: nat, g: nat, selected: Selection, take: nat, rest: seq<seq<nat>>)
    requires n < |p.nodes| && forall t :: t in rest ==> n + 1 + |t| <= |p.nodes|
    ensures forall t :: t in Prepend(take, rest) ==> n + |t| <= |p.nodes|
    ensures AllAssigned(p, n, g, selected, Prepend(take, rest))
         == AllAssigned(p, n + 1, g + take, Extend(p, n, g, take, selected), rest)
  {
  }

  lemma SolvedStep(p: Problem, n: nat, g: nat, selected: Selection, take: nat)
    requires n < |p.nodes| && 1 <= take && g + take <= |p.groups|
    ensures SolvedFrom(p, n, g, selected, take) ==
      (if Fits(p, n, g, take) then Solved(p, n + 1, g + take, Extend(p, n, g, take, selected)) else [])
      + SolvedFrom(p, n, g, selected, take + 1)
  {
    CompositionsAreAll(p, n + 1, g + take);
    CompositionsFromAreAll(p, n, g, take);
    hide Fits, Extend, AllAssigned;
    AllAssignedConcat(p, n, g, selected, TakeExactly(p, n, g, take), CompositionsFrom(p, n, g, take + 1));
    if Fits(p, n, g, take) {
      AllAssignedPrepend(p, n, g, selected, take, Compositions(p, n + 1, g + take));
    } else {
      NoneAssigned(p, n, g, selected);
    }
  }

  lemma NoneAssigned(p: Problem, n: nat, g: nat, selected: Selection)
    ensures AllAssigned(p, n, g, selected, []) == []
  {
  }

  function FirstTwo<T>(s: seq<T>): seq<T> {
    if |s| <= 2 then s else s[..2]
  }

  /** Solutions beyond the second are irrelevant, whenever they are dropped. */
  lemma FirstTwoConcat<T>(a: seq<T>, b: seq<T>)
    ensures FirstTwo(FirstTwo(a) + b) == FirstTwo(a + b)
  {
  }

  // ---------------------------------------------------------------------------------------------
  // When the search raises: it meets a raising check before it knows two solutions.

  function Limit(p: Problem, n: nat, g: nat): int
    requires n < |p.nodes|
  {
    if MaximumTake(p, n, g) < 1 then 0 else if p.nodes[n].custom then MaximumTake(p, n, g) else 1
  }

  /** The search from node `n` and group `g` raises when `found` solutions are known. */
  ghost predicate Stops(p: Problem, n: nat, g: nat, found: nat)
    requires n <= |p.nodes| && g <= |p.groups|
    decreases |p.nodes| - n, |p.groups| + 1
  {
    found <= 1 && n < |p.nodes| && StopsFrom(p, n, g, 1, found)
  }

  ghost predicate StopsFrom(p: Problem, n: nat, g: nat, take: nat, found: nat)
    requires n < |p.nodes| && g <= |p.groups| && 1 <= take
    decreases |p.nodes| - n, |p.groups| + 1 - take
  {
    && take <= Limit(p, n, g) && g + take <= |p.groups|
    && (|| (take == 1 && Raising(p, n, g))
        || (Fits(p, n, g, take) && Stops(p, n + 1, g + take, found))
        || StopsFrom(p, n, g, take + 1, found + |TakeExactly(p, n, g, take)|))
  }

  /** With two solutions known nothing more is looked at. */
  lemma {:induction false} TwoKnown(p: Problem, n: nat, g: nat, take: nat, found: nat)
    requires n < |p.nodes| && g <= |p.groups| && 2 <= take && 2 <= found
    ensures !StopsFrom(p, n, g, take, found)
    decreases |p.groups| + 1 - take
  {
    hide Fits, Raising, Stops, Limit, TakeExactly;
    if g + take <= |p.groups| {
      StopsStarts(p, n + 1, g + take, found);
      TwoKnown(p, n, g, take + 1, found + |TakeExactly(p, n, g, take)|);
    }
  }

  function AtMostTwo(n: nat): nat {
    if n < 2 then n else 2
  }

  lemma StopsStep(p: Problem, n: nat, g: nat, take: nat, found: nat)
    requires n < |p.nodes| && 1 <= take <= Limit(p, n, g) && g + take <= |p.groups|
    requires !(take == 1 && Raising(p, n, g)) && (Fits(p, n, g, take) ==> !Stops(p, n + 1, g + take, found))
    ensures StopsFrom(p, n, g, take, found)
       <==> StopsFrom(p, n, g, take + 1, AtMostTwo(found + |TakeExactly(p, n, g, take)|))
  {
    hide Fits, Raising, Limit, TakeExactly, Stops;
    var more := found + |TakeExactly(p, n, g, take)|;
    if more >= 2 {
      TwoKnown(p, n, g, take + 1, more);
      TwoKnown(p, n, g, take + 1, 2);
    }
  }

  lemma StopsHere(p: Problem, n: nat, g: nat, take: nat, found: nat)
    requires n < |p.nodes| && 1 <= take <= Limit(p, n, g) && g + take <= |p.groups|
    requires (take == 1 && Raising(p, n, g)) || (Fits(p, n, g, take) && Stops(p, n + 1, g + take, found))
    ensures StopsFrom(p, n, g, take, found)
  {
  }

  lemma StopsEnds(p: Problem, n: nat, g: nat, take: nat, found: nat)
    requires n < |p.nodes| && g <= |p.groups| && 1 <= take && take > Limit(p, n, g)
    ensures !StopsFrom(p, n, g, take, found)
  {
  }

  lemma StopsStarts(p: Problem, n: nat, g: nat, found: nat)
    requires n <= |p.nodes| && g <= |p.groups|
    ensures found > 1 || n == |p.nodes| ==> !Stops(p, n, g, found)
    ensures found <= 1 && n < |p.nodes| ==> (Stops(p, n, g, found) <==> StopsFrom(p, n, g, 1, found))
  {
  }

  lemma SolvedCount(p: Problem, n: nat, g: nat, take: nat, selected: Selection)
    requires n < |p.nodes| && 1 <= take && g + take <= |p.groups|
    ensures |TakeExactly(p, n, g, take)| == if Fits(p, n, g, take) then |Solved(p, n + 1, g + take, selected)| else 0
  {
  }

  class CompositionSearch {
    const p: Problem
    var solutions: seq<Selection>
    var raised: bool

    constructor (p: Problem)
      ensures this.p == p && solutions == [] && !raised
    {
      this.p := p;
      solutions, raised := [], false;
    }

    /** Adds what lies below this point of the search, and stops as soon as two solutions are known. */
    method Visit(n: nat, g: nat, selected: Selection)
      requires n <= |p.nodes| && g <= |p.groups| && !raised && |solutions| <= 2
      modifies this
      ensures |solutions| <= 2
      ensures raised <==> Stops(p, n, g, |old(solutions)|)
      ensures !raised ==> solutions == FirstTwo(old(solutions) + Solved(p, n, g, selected))
      decreases |p.nodes| - n, 1
    {
      hide Fits, Raising, Compositions, Extend, Check, Solved, SolvedFrom, Stops, StopsFrom;
      StopsStarts(p, n, g, |solutions|);
      if |solutions| > 1 {
        return;
      }
      if n == |p.nodes| {
        EndOfSearch(p, g, selected);
        if g == |p.groups| {
          solutions := solutions + [selected];
        }
        return;
      }
      StartOfTakes(p, n, g, selected);
      var maximum := MaximumTake(p, n, g);
      if maximum < 1 {
        NothingBeyond(p, n, g, 1);
        EmptyFrom(p, n, g, selected, 1);
        StopsEnds(p, n, g, 1, |solutions|);
        return;
      }
      var limit := if p.nodes[n].custom then maximum else 1;
      var take := 1;
      while take <= limit && !raised
        invariant 1 <= take <= limit + 1 && |solutions| <= 2
        invariant raised ==> Stops(p, n, g, |old(solutions)|)
        invariant !raised ==>
          FirstTwo(solutions + SolvedFrom(p, n, g, selected, take))
            == FirstTwo(old(solutions) + Solved(p, n, g, selected))
        invariant !raised ==> (Stops(p, n, g, |old(solutions)|) <==> StopsFrom(p, n, g, take, |solutions|))
        decreases limit - take, if raised then 0 else 1
      {
        TryTake(n, g, selected, take);
        if !raised {
          take := take + 1;
        }
      }
      if !raised {
        NothingBeyond(p, n, g, take);
        EmptyFrom(p, n, g, selected, take);
        StopsEnds(p, n, g, take, |solutions|);
        assert solutions + [] == solutions;
      }
    }

    /** One turn of the loop: node `n` takes exactly `take` groups, if they suit it. */
    method TryTake(n: nat, g: nat, selected: Selection, take: nat)
      requires n < |p.nodes| && 1 <= take <= Limit(p, n, g) && g + take <= |p.groups| && !raised && |solutions| <= 2
      modifies this
      ensures |solutions| <= 2
      ensures raised ==> StopsFrom(p, n, g, take, |old(solutions)|)
      ensures !raised ==>
        && FirstTwo(solutions + SolvedFrom(p, n, g, selected, take + 1))
           == FirstTwo(old(solutions) + SolvedFrom(p, n, g, selected, take))
        && (StopsFrom(p, n, g, take, |old(solutions)|) <==> StopsFrom(p, n, g, take + 1, |solutions|))
      decreases |p.nodes| - n, 0
    {
      hide Fits, Raising, Compositions, Extend, Check, Solved, SolvedFrom, Stops, StopsFrom, TakeExactly, Limit;
      SolvedStep(p, n, g, selected, take);
      ghost var rest := SolvedFrom(p, n, g, selected, take + 1);
      if take == 1 && Raising(p, n, g) {
        StopsHere(p, n, g, take, |solutions|);
        raised := true;
        return;
      }
      if !Fits(p, n, g, take) {
        SolvedCount(p, n, g, take, selected);
        StopsStep(p, n, g, take, |solutions|);
        assert [] + rest == rest;
        return;
      }
      ghost var before := solutions;
      var below := Extend(p, n, g, take, selected);
      ghost var found := Solved(p, n + 1, g + take, below);
      Visit(n + 1, g + take, below);
      if raised {
        StopsHere(p, n, g, take, |before|);
        return;
      }
      SolvedCount(p, n, g, take, below);
      StopsStep(p, n, g, take, |before|);
      FirstTwoConcat(before + found, rest);
      assert before + (found + rest) == before + found + rest;
    }
  }

  lemma EndOfSearch(p: Problem, g: nat, selected: Selection)
    requires g <= |p.groups|
    ensures Solved(p, |p.nodes|, g, selected) == if g == |p.groups| then [selected] else []
  {
  }

  lemma StartOfTakes(p: Problem, n: nat, g: nat, selected: Selection)
    requires n < |p.nodes| && g <= |p.groups|
    ensures Solved(p, n, g, selected) == SolvedFrom(p, n, g, selected, 1)
  {
  }

  lemma EmptyFrom(p: Problem, n: nat, g: nat, selected: Selection, take: nat)
    requires n < |p.nodes| && g <= |p.groups| && 1 <= take && CompositionsFrom(p, n, g, take) == []
    ensures SolvedFrom(p, n, g, selected, take) == []
  {
  }

  // ---------------------------------------------------------------------------------------------
  // What raising means: a reachable raising check that at most one composition precedes.

  /** After handing out `takes` from node `n` and group `g` on, the next check raises. */
  ghost predicate RaisesAfter(p: Problem, n: nat, g: nat, takes: seq<nat>) {
    && n + |takes| < |p.nodes| && (forall k :: 0 <= k < |takes| ==> FitsAt(p, n, g, takes, k))
    && MaximumTake(p, n + |takes|, g + Sum(takes)) >= 1 && Raising(p, n + |takes|, g + Sum(takes))
  }

  /** The search comes to `a` before it comes to `b`. */
  predicate Before(a: seq<nat>, b: seq<nat>) {
    a != [] && b != [] && (a[0] < b[0] || (a[0] == b[0] && Before(a[1..], b[1..])))
  }

  function CountBefore(list: seq<seq<nat>>, t: seq<nat>): nat {
    if list == [] then 0
    else CountBefore(list[..|list| - 1], t) + if Before(list[|list| - 1], t) then 1 else 0
  }

  lemma {:induction false} CountBeforeConcat(a: seq<seq<nat>>, b: seq<seq<nat>>, t: seq<nat>)
    ensures CountBefore(a + b, t) == CountBefore(a, t) + CountBefore(b, t)
  {
    if b == [] {
      assert a + b == a;
    } else {
      var last := |b| - 1;
      CountBeforeConcat(a, b[..last], t);
      assert (a + b)[..|a + b| - 1] == a + b[..last];
    }
  }

  lemma {:induction false} CountAll(list: seq<seq<nat>>, t: seq<nat>)
    requires forall a :: a in list ==> Before(a, t)
    ensures CountBefore(list, t) == |list|
  {
    if list != [] {
      CountAll(list[..|list| - 1], t);
    }
  }

  lemma {:induction false} CountNone(list: seq<seq<nat>>, t: seq<nat>)
    requires forall a :: a in list ==> !Before(a, t)
    ensures CountBefore(list, t) == 0
  {
    if list != [] {
      CountNone(list[..|list| - 1], t);
    }
  }

  lemma {:induction false} CountPrepend(take: nat, rest: seq<seq<nat>>, t: seq<nat>)
    ensures CountBefore(Prepend(take, rest), [take] + t) == CountBefore(rest, t)
  {
    if rest != [] {
      var last := |rest| - 1;
      CountPrepend(take, rest[..last], t);
      assert Prepend(take, rest)[..last] == Prepend(take, rest[..last]);
      assert ([take] + rest[last])[1..] == rest[last] && ([take] + t)[1..] == t;
    }
  }

  lemma RaisesCons(p: Problem, n: nat, g: nat, t: seq<nat>)
    requires t != [] && n + |t| < |p.nodes|
    ensures RaisesAfter(p, n, g, t) <==> FitsAt(p, n, g, t, 0) && RaisesAfter(p, n + 1, g + t[0], t[1..])
  {
    hide Fits, Raising;
    var rest, n', g' := t[1..], n + 1, g + t[0];
    forall k | 0 <= k < |rest| ensures FitsAt(p, n', g', rest, k) <==> FitsAt(p, n, g, t, k + 1) {
      assert t[..k + 1][1..] == rest[..k];
    }
    if FitsAt(p, n, g, t, 0) && RaisesAfter(p, n', g', rest) {
      forall k | 0 <= k < |t| ensures FitsAt(p, n, g, t, k) {
        if k > 0 {
          assert FitsAt(p, n', g', rest, k - 1);
        }
      }
    }
  }

  /** The first take on the way to a raising check is one the search tries. */
  lemma RaisesWithinLimit(p: Problem, n: nat, g: nat, t: seq<nat>)
    requires g <= |p.groups| && RaisesAfter(p, n, g, t)
    ensures t == [] ==> 1 <= Limit(p, n, g) && g + 1 <= |p.groups|
    ensures t != [] ==> 1 <= t[0] <= Limit(p, n, g) && g + t[0] <= |p.groups| && Fits(p, n, g, t[0])
  {
    if t != [] {
      assert FitsAt(p, n, g, t, 0);
      forall k | 0 <= k < |t[1..]| ensures t[1..][k] >= 1 {
        assert FitsAt(p, n, g, t, k + 1);
      }
      SumAtLeast(t[1..]);
    }
  }

  /** Where a search that has tried fewer than `take` groups can still go. */
  predicate StartsFrom(t: seq<nat>, take: nat) {
    if t == [] then take == 1 else t[0] >= take
  }

  ghost predicate MeetsFrom(p: Problem, n: nat, g: nat, take: nat, found: nat, t: seq<nat>)
    requires n < |p.nodes| && g <= |p.groups| && 1 <= take
  {
    RaisesAfter(p, n, g, t) && StartsFrom(t, take) && found + CountBefore(CompositionsFrom(p, n, g, take), t) <= 1
  }

  ghost predicate Meets(p: Problem, n: nat, g: nat, found: nat, t: seq<nat>)
    requires n <= |p.nodes| && g <= |p.groups|
  {
    RaisesAfter(p, n, g, t) && found + CountBefore(Compositions(p, n, g), t) <= 1
  }

  /** Where `t` takes exactly this many groups, only what follows matters. */
  lemma CountHere(p: Problem, n: nat, g: nat, take: nat, t: seq<nat>)
    requires n < |p.nodes| && 1 <= take && g + take <= |p.groups| && Fits(p, n, g, take)
    ensures CountBefore(CompositionsFrom(p, n, g, take), [take] + t) == CountBefore(Compositions(p, n + 1, g + take), t)
  {
    hide Fits, Compositions, CompositionsFrom, Before;
    assert CompositionsFrom(p, n, g, take)
        == Prepend(take, Compositions(p, n + 1, g + take))
          + CompositionsFrom(p, n, g, take + 1) by { FromStep(p, n, g, take); }
    CountBeforeConcat(Prepend(take, Compositions(p, n + 1, g + take)), CompositionsFrom(p, n, g, take + 1), [take] + t);
    CountPrepend(take, Compositions(p, n + 1, g + take), t);
    CompositionsFromAreAll(p, n, g, take + 1);
    forall a | a in CompositionsFrom(p, n, g, take + 1) ensures !Before(a, [take] + t) {
      LargerIsLater(a, [take] + t);
    }
    CountNone(CompositionsFrom(p, n, g, take + 1), [take] + t);
  }

  /** Where `t` takes more, everything with exactly this many comes before it. */
  lemma CountPast(p: Problem, n: nat, g: nat, take: nat, t: seq<nat>)
    requires n < |p.nodes| && 1 <= take && g + take <= |p.groups| && t != [] && t[0] > take
    ensures CountBefore(CompositionsFrom(p, n, g, take), t)
         == |TakeExactly(p, n, g, take)| + CountBefore(CompositionsFrom(p, n, g, take + 1), t)
  {
    hide Fits, Compositions;
    CountBeforeConcat(TakeExactly(p, n, g, take), CompositionsFrom(p, n, g, take + 1), t);
    forall a | a in TakeExactly(p, n, g, take) ensures Before(a, t) {
    }
    CountAll(TakeExactly(p, n, g, take), t);
  }

  lemma FromStep(p: Problem, n: nat, g: nat, take: nat)
    requires n < |p.nodes| && 1 <= take && g + take <= |p.groups| && Fits(p, n, g, take)
    ensures CompositionsFrom(p, n, g, take)
         == Prepend(take, Compositions(p, n + 1, g + take)) + CompositionsFrom(p, n, g, take + 1)
  {
  }

  lemma LargerIsLater(a: seq<nat>, b: seq<nat>)
    requires a != [] && b != [] && a[0] > b[0]
    ensures !Before(a, b)
  {
  }

  lemma {:induction false} StopsMeaning(p: Problem, n: nat, g: nat, found: nat)
    requires n <= |p.nodes| && g <= |p.groups|
    ensures Stops(p, n, g, found) <==> exists t :: Meets(p, n, g, found, t)
    decreases |p.nodes| - n, |p.groups| + 1
  {
    hide RaisesAfter, Before;
    if found <= 1 && n < |p.nodes| {
      StopsFromMeaning(p, n, g, 1, found);
      if t :| MeetsFrom(p, n, g, 1, found, t) {
        assert Meets(p, n, g, found, t);
      }
      if t :| Meets(p, n, g, found, t) {
        FirstIsPositive(p, n, g, t);
        assert MeetsFrom(p, n, g, 1, found, t);
      }
    } else if t :| Meets(p, n, g, found, t) {
      NeverAtEnd(p, n, g, t);
    }
  }

  lemma FirstIsPositive(p: Problem, n: nat, g: nat, t: seq<nat>)
    requires RaisesAfter(p, n, g, t)
    ensures StartsFrom(t, 1)
  {
    if t != [] {
      assert FitsAt(p, n, g, t, 0);
    }
  }

  lemma NeverAtEnd(p: Problem, n: nat, g: nat, t: seq<nat>)
    requires RaisesAfter(p, n, g, t)
    ensures n < |p.nodes|
  {
  }

  lemma {:induction false} StopsFromMeaning(p: Problem, n: nat, g: nat, take: nat, found: nat)
    requires n < |p.nodes| && g <= |p.groups| && 1 <= take && (take == 1 ==> found <= 1)
    ensures StopsFrom(p, n, g, take, found) <==> exists t :: MeetsFrom(p, n, g, take, found, t)
    decreases |p.nodes| - n, |p.groups| + 1 - take
  {
    hide Fits, Raising, RaisesAfter, Before, Limit, Compositions, CompositionsFrom, TakeExactly, Stops;
    if t :| MeetsFrom(p, n, g, take, found, t) {
      MeetingStops(p, n, g, take, found, t);
    }
    if StopsFrom(p, n, g, take, found) {
      var t := StoppingMeets(p, n, g, take, found);
    }
  }

  lemma {:induction false} MeetingStops(p: Problem, n: nat, g: nat, take: nat, found: nat, t: seq<nat>)
    requires n < |p.nodes| && g <= |p.groups| && 1 <= take && (take == 1 ==> found <= 1)
    requires MeetsFrom(p, n, g, take, found, t)
    ensures StopsFrom(p, n, g, take, found)
    decreases |p.nodes| - n, |p.groups| + 1 - take, 0
  {
    hide Fits, Raising, Limit, CountBefore, CompositionsFrom, TakeExactly, Stops, Meets, RaisesAfter, Compositions;
    RaisesWithinLimit(p, n, g, t);
    if t == [] {
      RaisesHere(p, n, g);
    } else if t[0] == take {
      MeetsAfterTake(p, n, g, take, found, t);
      StopsMeaning(p, n + 1, g + take, found);
    } else {
      CountPast(p, n, g, take, t);
      MeetingStops(p, n, g, take + 1, found + |TakeExactly(p, n, g, take)|, t);
    }
  }

  lemma RaisesHere(p: Problem, n: nat, g: nat)
    requires n < |p.nodes| && g < |p.groups| && RaisesAfter(p, n, g, [])
    ensures Raising(p, n, g)
  {
  }

  lemma MeetsAfterTake(p: Problem, n: nat, g: nat, take: nat, found: nat, t: seq<nat>)
    requires n < |p.nodes| && 1 <= take && g + take <= |p.groups| && Fits(p, n, g, take)
    requires t != [] && t[0] == take && MeetsFrom(p, n, g, take, found, t)
    ensures Meets(p, n + 1, g + take, found, t[1..])
  {
    hide Fits, CountBefore, Compositions, CompositionsFrom, RaisesAfter, FitsAt;
    NeverPast(p, n, g, t);
    RaisesCons(p, n, g, t);
    CountHere(p, n, g, take, t[1..]);
    assert [take] + t[1..] == t;
  }

  lemma {:induction false} StoppingMeets(p: Problem, n: nat, g: nat, take: nat, found: nat) returns (t: seq<nat>)
    requires n < |p.nodes| && g <= |p.groups| && 1 <= take && (take == 1 ==> found <= 1)
    requires StopsFrom(p, n, g, take, found)
    ensures MeetsFrom(p, n, g, take, found, t)
    decreases |p.nodes| - n, |p.groups| + 1 - take, 0
  {
    hide Fits, Raising, Limit, MeetsFrom, Meets, TakeExactly, Stops;
    if take == 1 && Raising(p, n, g) {
      t := [];
      MeetsNow(p, n, g, found);
    } else if Fits(p, n, g, take) && Stops(p, n + 1, g + take, found) {
      StopsMeaning(p, n + 1, g + take, found);
      var rest: seq<nat> :| Meets(p, n + 1, g + take, found, rest);
      t := [take] + rest;
      MeetsBelow(p, n, g, take, found, rest);
    } else {
      t := StoppingMeets(p, n, g, take + 1, found + |TakeExactly(p, n, g, take)|);
      MeetsLater(p, n, g, take, found, t);
    }
  }

  lemma MeetsNow(p: Problem, n: nat, g: nat, found: nat)
    requires n < |p.nodes| && g < |p.groups| && found <= 1 && 1 <= Limit(p, n, g) && Raising(p, n, g)
    ensures MeetsFrom(p, n, g, 1, found, [])
  {
    hide Raising, CompositionsFrom;
    CountNone(CompositionsFrom(p, n, g, 1), []);
  }

  lemma MeetsBelow(p: Problem, n: nat, g: nat, take: nat, found: nat, rest: seq<nat>)
    requires n < |p.nodes| && 1 <= take && g + take <= |p.groups| && Fits(p, n, g, take)
    requires Meets(p, n + 1, g + take, found, rest)
    ensures MeetsFrom(p, n, g, take, found, [take] + rest)
  {
    hide CountBefore, Compositions, CompositionsFrom, Fits, RaisesAfter;
    var t := [take] + rest;
    assert t[1..] == rest && t[..0] == [];
    assert n + |t| < |p.nodes| by { NeverPast(p, n + 1, g + take, rest); }
    RaisesCons(p, n, g, t);
    CountHere(p, n, g, take, rest);
  }

  lemma NeverPast(p: Problem, n: nat, g: nat, t: seq<nat>)
    requires RaisesAfter(p, n, g, t)
    ensures n + |t| < |p.nodes|
  {
  }

  lemma MeetsLater(p: Problem, n: nat, g: nat, take: nat, found: nat, t: seq<nat>)
    requires n < |p.nodes| && 1 <= take && g + take <= |p.groups|
    requires MeetsFrom(p, n, g, take + 1, found + |TakeExactly(p, n, g, take)|, t)
    ensures MeetsFrom(p, n, g, take, found, t)
  {
    hide CountBefore, CompositionsFrom, TakeExactly, RaisesAfter;
    CountPast(p, n, g, take, t);
  }

  /** The search raises: some reachable check does, and at most one composition comes before it. */
  ghost predicate SearchRaises(p: Problem) {
    exists t :: RaisesAfter(p, 0, 0, t) && AtMostOneBefore(p, t)
  }

  ghost predicate AtMostOneBefore(p: Problem, t: seq<nat>) {
    forall a, b :: Composition(p, 0, 0, a) && Composition(p, 0, 0, b) && Before(a, t) && Before(b, t) ==> a == b
  }

  ghost predicate NoneBefore(list: seq<seq<nat>>, t: seq<nat>) {
    forall a :: a in list ==> !Before(a, t)
  }

  ghost predicate OneBefore(list: seq<seq<nat>>, t: seq<nat>) {
    forall a, b :: a in list && b in list && Before(a, t) && Before(b, t) ==> a == b
  }

  lemma OneMoreBefore(front: seq<seq<nat>>, last: seq<nat>, t: seq<nat>)
    requires last !in front
    ensures NoneBefore(front + [last], t) <==> NoneBefore(front, t) && !Before(last, t)
    ensures OneBefore(front + [last], t) <==> if Before(last, t) then NoneBefore(front, t) else OneBefore(front, t)
  {
    hide Before;
    var list := front + [last];
    assert last in list && forall a :: a in list <==> a in front || a == last;
  }

  lemma {:induction false} CountAtMostOne(list: seq<seq<nat>>, t: seq<nat>)
    requires Distinct(list)
    ensures CountBefore(list, t) == 0 <==> NoneBefore(list, t)
    ensures CountBefore(list, t) <= 1 <==> OneBefore(list, t)
  {
    if list != [] {
      var front, last := list[..|list| - 1], list[|list| - 1];
      CountAtMostOne(front, t);
      OneMoreBefore(front, last, t);
      assert list == front + [last];
    }
  }

  lemma SearchRaisesMeaning(p: Problem)
    ensures Stops(p, 0, 0, 0) <==> SearchRaises(p)
  {
    hide RaisesAfter, Before, Compositions, Composition, Stops, CountBefore;
    StopsMeaning(p, 0, 0, 0);
    CompositionsAreAll(p, 0, 0);
    var all := Compositions(p, 0, 0);
    forall t ensures Meets(p, 0, 0, 0, t) <==> RaisesAfter(p, 0, 0, t) && AtMostOneBefore(p, t) {
      CountAtMostOne(all, t);
      assert OneBefore(all, t) <==> AtMostOneBefore(p, t);
    }
  }

  // ---------------------------------------------------------------------------------------------
  // The whole selection.

  datatype Outcome = Mapped(ranges: seq<seq<nat>>) | Unmapped | Raised

  /** `takes` is the one and only composition. */
  ghost predicate Unique(p: Problem, takes: seq<nat>) {
    Composition(p, 0, 0, takes) && forall other :: Composition(p, 0, 0, other) ==> other == takes
  }

  function Ones(n: nat): seq<nat> {
    seq(n, _ => 1)
  }

  /** Every custom node accepts the group at its own position. */
  predicate PositionsAccept(p: Problem)
    requires |p.groups| == |p.nodes|
  {
    forall k :: 0 <= k < |p.nodes| && p.nodes[k].custom ==> Accepts(p.nodes[k], p.groups[k], false)
  }

  /** The values read back from a selection, for the custom nodes from `n` on. */
  function Collect(p: Problem, n: nat, selected: Selection): seq<seq<nat>>
    requires n <= |p.nodes| && forall k :: n <= k < |p.nodes| && p.nodes[k].custom ==> k in selected
    decreases |p.nodes| - n
  {
    if n == |p.nodes| then []
    else (if p.nodes[n].custom then [selected[n]] else []) + Collect(p, n + 1, selected)
  }

  lemma {:induction false} AssignedKeeps(p: Problem, n: nat, g: nat, selected: Selection, takes: seq<nat>)
    requires n + |takes| <= |p.nodes|
    ensures forall k :: 0 <= k < n && k in selected ==>
      k in Assigned(p, n, g, selected, takes) && Assigned(p, n, g, selected, takes)[k] == selected[k]
    decreases |takes|
  {
    if takes != [] {
      AssignedKeeps(p, n + 1, g + takes[0], Extend(p, n, g, takes[0], selected), takes[1..]);
    }
  }

  lemma {:induction false} AssignedIsCustomRanges(p: Problem, n: nat, g: nat, selected: Selection, takes: seq<nat>)
    requires n <= |p.nodes| && |takes| == |p.nodes| - n
    ensures
      var solution := Assigned(p, n, g, selected, takes);
      && (forall k :: n <= k < |p.nodes| && p.nodes[k].custom ==> k in solution)
      && Collect(p, n, solution) == CustomRanges(p, n, g, takes)
    decreases |takes|
  {
    if takes != [] {
      var below := Extend(p, n, g, takes[0], selected);
      AssignedIsCustomRanges(p, n + 1, g + takes[0], below, takes[1..]);
      AssignedKeeps(p, n + 1, g + takes[0], below, takes[1..]);
    }
  }

  lemma CollectStep(p: Problem, k: nat, selected: Selection, ranges: seq<seq<nat>>)
    requires k < |p.nodes| && forall i :: 0 <= i < |p.nodes| && p.nodes[i].custom ==> i in selected
    ensures
      var now := if p.nodes[k].custom then ranges + [selected[k]] else ranges;
      ranges + Collect(p, k, selected) == now + Collect(p, k + 1, selected)
  {
  }

  lemma CollectEnds(p: Problem, selected: Selection, ranges: seq<seq<nat>>)
    ensures ranges + Collect(p, |p.nodes|, selected) == ranges
  {
  }

  method ReadBack(p: Problem, selected: Selection) returns (ranges: seq<seq<nat>>)
    requires forall k :: 0 <= k < |p.nodes| && p.nodes[k].custom ==> k in selected
    ensures ranges == Collect(p, 0, selected)
  {
    hide Collect;
    ranges := [];
    assert ranges + Collect(p, 0, selected) == Collect(p, 0, selected);
    for k := 0 to |p.nodes|
      invariant ranges + Collect(p, k, selected) == Collect(p, 0, selected)
    {
      CollectStep(p, k, selected, ranges);
      if p.nodes[k].custom {
        ranges := ranges + [selected[k]];
      }
    }
    CollectEnds(p, selected, ranges);
  }

  lemma RangesStep(p: Problem, k: nat)
    requires k < |p.nodes|
    ensures CustomRanges(p, k, k, Ones(|p.nodes| - k)) ==
      (if p.nodes[k].custom then [[k]] else []) + CustomRanges(p, k + 1, k + 1, Ones(|p.nodes| - (k + 1)))
  {
    assert Ones(|p.nodes| - k)[1..] == Ones(|p.nodes| - (k + 1));
    assert Interval(k, 1) == [k];
  }

  lemma RangesEnd(p: Problem)
    ensures CustomRanges(p, |p.nodes|, |p.nodes|, Ones(0)) == []
  {
  }

  /** A custom node's own group raises, and the custom nodes before it accept theirs. */
  ghost predicate PositionsRaise(p: Problem)
    requires |p.groups| == |p.nodes|
  {
    exists k :: 0 <= k < |p.nodes| && Raising(p, k, k)
      && forall i :: 0 <= i < k && p.nodes[i].custom ==> Accepts(p.nodes[i], p.groups[i], false)
  }

  /** With as many groups as nodes, no node that is not custom has an empty group at its position. */
  predicate OthersFilled(p: Problem) {
    |p.groups| == |p.nodes| ==> forall k :: 0 <= k < |p.nodes| && !p.nodes[k].custom ==> p.groups[k] != []
  }

  method PositionalMapping(p: Problem) returns (outcome: Outcome)
    requires |p.groups| == |p.nodes|
    ensures outcome == Raised <==> PositionsRaise(p)
    ensures outcome != Raised ==>
      outcome == if PositionsAccept(p) then Mapped(CustomRanges(p, 0, 0, Ones(|p.nodes|))) else Unmapped
  {
    hide Check, CustomRanges;
    var ranges: seq<seq<nat>> := [];
    for k := 0 to |p.nodes|
      invariant forall i :: 0 <= i < k && p.nodes[i].custom ==> Accepts(p.nodes[i], p.groups[i], false)
      invariant ranges + CustomRanges(p, k, k, Ones(|p.nodes| - k)) == CustomRanges(p, 0, 0, Ones(|p.nodes|))
    {
      RangesStep(p, k);
      if p.nodes[k].custom {
        if Raising(p, k, k) {
          return Raised;
        }
        if !Accepts(p.nodes[k], p.groups[k], false) {
          return Unmapped;
        }
        ranges := ranges + [[k]];
      }
    }
    assert CustomRanges(p, |p.nodes|, |p.nodes|, Ones(0)) == [] by { RangesEnd(p); }
    outcome := Mapped(ranges);
  }

  /**
   A mapping is returned exactly when there is one and only one composition, and it is that composition's.
   With as many groups as nodes the positional rule decides instead; it differs from the search only where a
   node that is not custom has an empty group.
   */
  method AutomaticGroupIndices(p: Problem) returns (outcome: Outcome)
    ensures outcome == Raised <==> if |p.groups| == |p.nodes| then PositionsRaise(p) else SearchRaises(p)
    ensures outcome != Raised && OthersFilled(p) ==>
      && (outcome.Mapped? <==> exists takes :: Unique(p, takes))
      && (outcome.Mapped? ==> exists takes :: Unique(p, takes) && outcome.ranges == CustomRanges(p, 0, 0, takes))
    ensures outcome != Raised && |p.groups| == |p.nodes| ==>
      outcome == if PositionsAccept(p) then Mapped(CustomRanges(p, 0, 0, Ones(|p.nodes|))) else Unmapped
    ensures !OthersFilled(p) ==> !exists takes :: Unique(p, takes)
  {
    if |p.groups| == |p.nodes| {
      outcome := PositionalMapping(p);
      PositionalRuleAgrees(p);
      return;
    }
    hide PositionsRaise, SearchRaises, Stops;
    var search := new CompositionSearch(p);
    search.Visit(0, 0, map[]);
    SearchRaisesMeaning(p);
    if search.raised {
      return Raised;
    }
    var solutions := search.solutions;
    ghost var all := Compositions(p, 0, 0);
    CompositionsAreAll(p, 0, 0);
    assert solutions == FirstTwo([] + Solved(p, 0, 0, map[])) && |Solved(p, 0, 0, map[])| == |all|;
    assert |all| == 1 <==> exists takes :: Unique(p, takes) by { SingletonIsUnique(p); }
    if |solutions| != 1 {
      return Unmapped;
    }
    ghost var takes := all[0];
    assert takes in all && Unique(p, takes);
    AssignedIsCustomRanges(p, 0, 0, map[], takes);
    assert solutions[0] == Assigned(p, 0, 0, map[], takes);
    var ranges := ReadBack(p, solutions[0]);
    outcome := Mapped(ranges);
  }

  lemma SumOfTwo(a: nat, b: nat)
    ensures Sum([]) == 0 && Sum([a]) == a && Sum([a, b]) == a + b
  {
    SumOfOne(a);
    SumOfOne(b);
    assert [a, b][1..] == [b];
  }

  lemma SumOfOne(a: nat)
    ensures Sum([a]) == a
  {
    assert [a][1..] == [];
  }

  /**
   A custom node whose operation was split over several groups, followed by one other node with its own group: the
   search gives the custom node exactly the groups of the split.
   */
  lemma SplitOperationMaps(p: Problem, node: Node, other: Node, parts: seq<seq<Target>>, group: seq<Target>)
    requires node.custom && !other.custom && |parts| >= 2 && group != []
    requires p == Problem([node, other], parts + [group]) && Combine(node, parts).Some?
    ensures Unique(p, [|parts|, 1]) && CustomRanges(p, 0, 0, [|parts|, 1]) == [Interval(0, |parts|)]
  {
    hide Combine, Check;
    var takes := [|parts|, 1];
    assert takes[1..] == [1] && takes[1..][1..] == [] && takes[..0] == [] && takes[..1] == [|parts|];
    SumOfTwo(|parts|, 1);
    assert p.groups[0..|parts|] == parts;
    assert FitsAt(p, 0, 0, takes, 0) && FitsAt(p, 0, 0, takes, 1);
    assert Composition(p, 0, 0, takes);
    forall t | Composition(p, 0, 0, t) ensures t == takes {
      assert FitsAt(p, 0, 0, t, 1);
      assert t == [t[0], t[1]];
      SumOfTwo(t[0], t[1]);
    }
    hide Fits, Composition;
    assert CustomRanges(p, 2, |parts| + 1, []) == [];
    assert CustomRanges(p, 1, |parts|, [1]) == [] by { assert [1][1..] == []; }
  }

  /** One other node and one empty group: the positional rule maps, and there is no composition. */
  lemma PositionalRuleCanDiffer(p: Problem, node: Node)
    requires !node.custom && p == Problem([node], [[]])
    ensures PositionsAccept(p) && CustomRanges(p, 0, 0, Ones(1)) == []
    ensures !exists takes :: Unique(p, takes)
  {
    PositionalRuleAgrees(p);
    assert !p.nodes[0].custom && p.groups[0] == [];
    RangesStep(p, 0);
    RangesEnd(p);
  }

  lemma TwoDiffer(s: seq<seq<nat>>, t: seq<nat>)
    requires Distinct(s) && |s| > 1
    ensures exists u :: u in s && u != t
  {
    assert s[0] != s[1] && s[0] in s && s[1] in s;
  }

  lemma SingletonIsUnique(p: Problem)
    ensures |Compositions(p, 0, 0)| == 1 <==> exists takes :: Unique(p, takes)
  {
    var all := Compositions(p, 0, 0);
    CompositionsAreAll(p, 0, 0);
    if |all| == 1 {
      assert all[0] in all;
      assert Unique(p, all[0]);
    }
    if takes :| Unique(p, takes) {
      assert takes in all;
      if |all| > 1 {
        TwoDiffer(all, takes);
      }
    }
  }

  /** With as many groups as nodes, handing out one each is the only candidate composition. */
  lemma OnlyOnesFit(p: Problem, takes: seq<nat>)
    requires |p.groups| == |p.nodes| && Composition(p, 0, 0, takes)
    ensures takes == Ones(|p.nodes|)
  {
    forall k | 0 <= k < |takes| ensures takes[k] >= 1 {
      assert FitsAt(p, 0, 0, takes, k);
    }
    SumOfOnes(takes);
  }

  lemma {:induction false} SumOfOnes(takes: seq<nat>)
    requires forall k :: 0 <= k < |takes| ==> takes[k] >= 1
    ensures Sum(takes) == |takes| ==> takes == Ones(|takes|)
    ensures takes == Ones(|takes|) ==> Sum(takes) == |takes|
  {
    if takes != [] {
      SumAtLeast(takes[1..]);
      SumOfOnes(takes[1..]);
      assert takes == [takes[0]] + takes[1..];
      assert Ones(|takes|) == [1] + Ones(|takes| - 1);
    }
  }

  /** The positional rule differs from the search exactly where a non-custom node's group is empty. */
  lemma PositionalRuleAgrees(p: Problem)
    requires |p.groups| == |p.nodes|
    ensures (exists takes :: Unique(p, takes)) <==>
      PositionsAccept(p) && forall k :: 0 <= k < |p.nodes| && !p.nodes[k].custom ==> p.groups[k] != []
    ensures forall takes :: Unique(p, takes) ==> takes == Ones(|p.nodes|)
  {
    var ones := Ones(|p.nodes|);
    forall takes | Composition(p, 0, 0, takes) ensures takes == ones {
      OnlyOnesFit(p, takes);
    }
    SumOfOnes(ones);
    forall k | 0 <= k < |ones|
      ensures FitsAt(p, 0, 0, ones, k) <==>
        p.groups[k] != [] && (p.nodes[k].custom ==> Accepts(p.nodes[k], p.groups[k], false))
    {
      assert ones[..k] == Ones(k);
      SumOfOnes(ones[..k]);
    }
    assert Composition(p, 0, 0, ones) <==> forall k :: 0 <= k < |ones| ==> FitsAt(p, 0, 0, ones, k);
    if exists takes :: Unique(p, takes) {
      assert forall k :: 0 <= k < |ones| ==> FitsAt(p, 0, 0, ones, k);
    } else {
      assert !Unique(p, ones);
    }
  }
}
