/**
 Resolution of every custom node to its native groups: explicit bindings first, then saved or automatic
 ones, no group used twice, and every choice checked against the node's contract.
 */
module Resolution {
  import opened Wrappers
  import opened Sequences
  import opened Targets
  import opened GroupMapping

  datatype Resolved = Resolved(indices: seq<seq<int>>, targets: seq<seq<Target>>)

  function CustomNodes(nodes: seq<Node>): seq<Node> {
    if nodes == [] then []
    else (if nodes[0].custom then [nodes[0]] else []) + CustomNodes(nodes[1..])
  }

  /** Indices Python accepts for a sequence: negative ones count from the end. */
  predicate InReach(indices: seq<int>, count: nat) {
    forall i :: 0 <= i < |indices| ==> 0 <= indices[i] + count < 2 * count
  }

  function Position(index: int, count: nat): int {
    if index < 0 then index + count else index
  }

  function Selected(groups: seq<seq<Target>>, indices: seq<int>): seq<seq<Target>>
    requires InReach(indices, |groups|)
  {
    seq(|indices|, i requires 0 <= i < |indices| => groups[Position(indices[i], |groups|)])
  }

  /** The targets a node runs on, if these groups can run it. */
  function Runs(node: Node, groups: seq<seq<Target>>): Option<seq<Target>> {
    if |groups| != 1 then Combine(node, groups)
    else if !Accepts(node, groups[0], false) then None
    else if (forall t :: t in groups[0] ==> t.Versioned?) && ProjectAll(groups[0]).Some? then ProjectAll(groups[0])
    else Some(groups[0])
  }

  ghost function Join(chosen: seq<seq<int>>): seq<int> {
    if chosen == [] then [] else Join(chosen[..|chosen| - 1]) + chosen[|chosen| - 1]
  }

  /** No index serves two nodes, or one node twice, and every node runs on its groups. */
  ghost predicate Resolvable(nodes: seq<Node>, groups: seq<seq<Target>>, chosen: seq<seq<int>>) {
    && |chosen| == |nodes| && Distinct(Join(chosen))
    && forall k :: 0 <= k < |chosen| ==> RunsOn(nodes[k], groups, chosen[k]).Some?
  }

  /** What a node runs on when it is given these group indices. */
  function RunsOn(node: Node, groups: seq<seq<Target>>, indices: seq<int>): Option<seq<Target>> {
    if InReach(indices, |groups|) then Runs(node, Selected(groups, indices)) else None
  }

  // ---------------------------------------------------------------------------------------------
  // What a resolved node is given.

  /** `whole` is the parts one after the other. */
  ghost predicate Concatenated(parts: seq<seq<Target>>, whole: seq<Target>) {
    if parts == [] then whole == []
    else parts[0] <= whole && Concatenated(parts[1..], whole[|parts[0]|..])
  }

  /** The version 1 record of a version 2 target: same place, and every tensor can be read back from it. */
  ghost predicate Stands(legacy: Target, target: Target) {
    && target.Versioned? && legacy.Legacy?
    && legacy.invocation == target.invocation && legacy.range == target.range && LegacyDType(legacy.flags).Some?
    && WithRole(target.tensors, Input) == RecoveredInputs(legacy)
    && WithRole(target.tensors, Output) == [RecoveredOutput(legacy)]
  }

  /**
   The targets a node is given for its groups: those of its one group, each replaced by its version 1 record when
   all of them have one; or those of its several groups, one group after the other.  They are never empty, and the
   node accepts them.
   */
  ghost predicate Delivers(node: Node, groups: seq<seq<Target>>, indices: seq<int>, targets: seq<Target>) {
    && targets != [] && Accepts(node, targets, false)
    && InReach(indices, |groups|)
    && (|indices| == 1 ==>
          var group := groups[Position(indices[0], |groups|)];
          if forall t :: t in group ==> t.Versioned? && Project(t).Some?
          then |targets| == |group| && forall i :: 0 <= i < |group| ==> Stands(targets[i], group[i])
          else targets == group)
    && (|indices| != 1 ==> Concatenated(Selected(groups, indices), targets))
  }

  lemma RunsDeliver(node: Node, groups: seq<seq<Target>>, indices: seq<int>, targets: seq<Target>)
    requires RunsOn(node, groups, indices) == Some(targets)
    ensures Delivers(node, groups, indices, targets)
  {
    hide Combine, Check, Project, ProjectAll, Concatenated;
    var selected := Selected(groups, indices);
    if |indices| == 1 {
      OneGroupDelivers(node, selected[0], targets);
    } else {
      SeveralGroupsDeliver(node, selected, targets);
    }
  }

  lemma OneGroupDelivers(node: Node, group: seq<Target>, targets: seq<Target>)
    requires Runs(node, [group]) == Some(targets)
    ensures targets != [] && Accepts(node, targets, false)
    ensures
      if forall t :: t in group ==> t.Versioned? && Project(t).Some?
      then |targets| == |group| && forall i :: 0 <= i < |group| ==> Stands(targets[i], group[i])
      else targets == group
  {
    hide Project, Check;
    AcceptedIsNotEmpty(node, group);
    if forall t :: t in group ==> t.Versioned? {
      ProjectAllExactly(group);
      if ProjectAll(group).Some? {
        ProjectionPreservesMeaning(node, group, false);
        ProjectAllPointwise(group);
        forall i | 0 <= i < |group| ensures Stands(targets[i], group[i]) {
          ProjectionIsRecoverable(group[i]);
        }
      }
    }
  }

  lemma AcceptedIsNotEmpty(node: Node, targets: seq<Target>)
    requires Accepts(node, targets, false)
    ensures targets != []
  {
  }

  lemma {:induction false} ProjectAllExactly(targets: seq<Target>)
    requires forall t :: t in targets ==> t.Versioned?
    ensures ProjectAll(targets).Some? <==> forall t :: t in targets ==> Project(t).Some?
  {
    hide Project;
    if targets != [] {
      ProjectAllExactly(targets[1..]);
      assert targets == [targets[0]] + targets[1..];
    }
  }

  lemma SeveralGroupsDeliver(node: Node, groups: seq<seq<Target>>, targets: seq<Target>)
    requires |groups| != 1 && Combine(node, groups) == Some(targets)
    ensures targets != [] && Accepts(node, targets, false) && Concatenated(groups, targets)
  {
    FlattenConcatenates(groups);
    if forall t :: t in Flatten(groups) ==> t.Legacy? {
      CoveringIsAccepted(node, targets);
    } else {
      HybridIsAccepted(node, groups);
    }
  }

  lemma CoveringIsAccepted(node: Node, targets: seq<Target>)
    requires Accepts(node, targets, true)
    ensures Accepts(node, targets, false)
  {
  }

  lemma {:induction false} FlattenConcatenates(groups: seq<seq<Target>>)
    ensures Concatenated(groups, Flatten(groups))
  {
    if groups != [] {
      FlattenConcatenates(groups[1..]);
      assert Flatten(groups)[|groups[0]|..] == Flatten(groups[1..]);
    }
  }

  lemma HybridIsAccepted(node: Node, groups: seq<seq<Target>>)
    requires forall t :: t in Flatten(groups) ==> t.Versioned?
    requires CombineHybrid(node, groups).Some?
    ensures Flatten(groups) != [] && Accepts(node, Flatten(groups), false)
  {
    var targets := Flatten(groups);
    HybridScalars();
    HybridExpected(node);
    FlattenOfFour(groups);
    forall i | 0 <= i < |targets| ensures VersionedFits(node, targets[i]) {
      assert targets[i] in targets;
    }
    VersionedAccepted(node, targets, false);
  }

  lemma FlattenOfFour(groups: seq<seq<Target>>)
    requires |groups| == 4 && forall g :: g in groups ==> |g| == 4
    ensures Flatten(groups) != []
  {
    assert groups[0] in groups;
  }

  /** The validated layout reads as five inputs, the last three scalar, and one output. */
  lemma HybridScalars()
    ensures WithRole(HYBRID_TENSORS, Output) == [Tensor(Output, 0, F16, 4, 8, 0x0F)]
    ensures DTypes(WithRole(HYBRID_TENSORS, Input)) == [F16, F16, F16, F16, F16]
    ensures ScalarIndices(WithRole(HYBRID_TENSORS, Input), 4) == [2, 3, 4]
  {
    var t := HYBRID_TENSORS;
    RolesSplit(t, 5);
    assert t[..5] + t[5..] == t;
    var inputs := t[..5];
    assert t[5..] == [Tensor(Output, 0, F16, 4, 8, 0x0F)];
    assert DTypes(inputs) == [F16, F16, F16, F16, F16];
    ScalarsSplit(inputs, 2, 4);
  }

  lemma HybridExpected(node: Node)
    requires node.inputs == HYBRID_INPUTS && node.outputs == [Spec([4, 8], F16)]
    ensures InputTypes(node) == [F16, F16, F16, F16, F16] && ExpectedScalars(node) == [2, 3, 4]
  {
    var inputs := node.inputs;
    ElementsOfTwo(4, 8);
    assert inputs[1..][0] == Spec([4, 8], F16) && inputs[1..][0] in inputs[1..];
    assert [4, 8][0] != [4, 1][1] && [4, 8] != [4, 1] by { assert [4, 8][1] != [4, 1][1]; }
    assert [4, 8][0] != [1, 32][0];
    assert inputs[..2] == [Spec([4, 8], F16), Spec([4, 8], F16)];
    assert inputs[2..] == [Spec([4, 1], F16), Spec([4, 1], F16), Spec([4, 1], F16)];
    hide Elements;
    assert |InputTypes(node)| == 5 && InputTypes(node) == [F16, F16, F16, F16, F16];
    assert !AllShaped(inputs[1..], [4, 1]);
    assert AllShaped(inputs[..2], [4, 8]);
    assert AllShaped(inputs[2..], [4, 1]);
  }

  /** Inputs first, outputs last: each role is one part. */
  lemma {:induction false} RolesSplit(tensors: seq<Tensor>, n: nat)
    requires n <= |tensors| && (forall i :: 0 <= i < n ==> tensors[i].role == Input)
    requires forall i :: n <= i < |tensors| ==> tensors[i].role == Output
    ensures WithRole(tensors, Input) == tensors[..n] && WithRole(tensors, Output) == tensors[n..]
  {
    if tensors != [] {
      var rest := tensors[1..];
      if n > 0 {
        RolesSplit(rest, n - 1);
        assert tensors[..n] == [tensors[0]] + rest[..n - 1] && tensors[n..] == rest[n - 1..];
      } else {
        RolesSplit(rest, 0);
        assert tensors == [tensors[0]] + rest && rest[0..] == rest && tensors[0..] == tensors && tensors[..0] == [];
      }
    }
  }

  /** Wide inputs first, one-element inputs last, indices as positions. */
  lemma {:induction false} ScalarsSplit(inputs: seq<Tensor>, n: nat, outputElements: nat)
    requires n <= |inputs| && outputElements > 1
    requires forall i :: 0 <= i < |inputs| ==> (inputs[i].elements == 1 <==> n <= i)
    ensures ScalarIndices(inputs, outputElements)
         == seq(|inputs| - n, i requires 0 <= i < |inputs| - n => inputs[n + i].index)
    decreases |inputs|
  {
    if inputs != [] {
      ScalarsSplit(inputs[1..], if n > 0 then n - 1 else 0, outputElements);
    }
  }

  lemma ElementsOfTwo(a: nat, b: nat)
    ensures Elements([a, b]) == a * b && Elements([a]) == a
  {
    assert [a][..0] == [] && Elements([a]) == a;
    assert [a, b][..1] == [a];
  }

  /** A caller's list of group indices: not empty, in range, no repeats. */
  method Normalize(values: seq<int>, count: nat) returns (ok: bool)
    ensures ok <==> values != [] && InRange(values, count) && Distinct(values)
  {
    if values == [] {
      return false;
    }
    for i := 0 to |values|
      invariant InRange(values[..i], count) && Distinct(values[..i])
    {
      if !(0 <= values[i] < count) || values[i] in values[..i] {
        return false;
      }
    }
    assert values[..|values|] == values;
    ok := true;
  }

  /** An explicit binding is for a custom node with one output, and is a proper list of groups. */
  ghost predicate WellBound(nodes: seq<Node>, count: nat, k: nat, values: seq<int>) {
    k < |nodes| && |nodes[k].outputs| == 1 && values != [] && InRange(values, count) && Distinct(values)
  }

  /** The groups each custom node is to use: its explicit binding, or else its default. */
  ghost predicate Chooses(supplied: map<nat, seq<int>>, defaults: Option<seq<seq<int>>>, chosen: seq<seq<int>>) {
    forall k :: 0 <= k < |chosen| ==>
      if k in supplied then chosen[k] == supplied[k]
      else defaults.Some? && k < |defaults.value| && chosen[k] == defaults.value[k]
  }

  /**
   Succeeds exactly when every explicit binding is well formed, every node has a binding or a default, and
   the choice so made is resolvable.
   */
  method ResolveBindings(nodes: seq<Node>, groups: seq<seq<Target>>, supplied: map<nat, seq<int>>,
                         saved: Option<seq<seq<int>>>, automatic: Option<seq<seq<int>>>)
    returns (result: Option<Resolved>)
    ensures
      var defaults := if saved.Some? then saved else automatic;
      && (result.Some? <==>
            && (forall k :: k in supplied ==> WellBound(nodes, |groups|, k, supplied[k]))
            && exists chosen :: Chooses(supplied, defaults, chosen) && Resolvable(nodes, groups, chosen))
      && (result.Some? ==>
            && Chooses(supplied, defaults, result.value.indices) && Resolvable(nodes, groups, result.value.indices)
            && |result.value.targets| == |nodes|
            && forall k :: 0 <= k < |nodes| ==>
                 Delivers(nodes[k], groups, result.value.indices[k], result.value.targets[k]))
  {
    hide RunsOn, Join, Delivers;
    var defaults := if saved.Some? then saved else automatic;
    var ok := CheckSupplied(nodes, groups, supplied);
    if !ok {
      return None;
    }
    if exists k :: 0 <= k < |nodes| && k !in supplied && !(defaults.Some? && k < |defaults.value|) {
      forall chosen ensures !(Chooses(supplied, defaults, chosen) && Resolvable(nodes, groups, chosen)) {
      }
      return None;
    }
    var chosen: seq<seq<int>> := [];
    var targets: seq<seq<Target>> := [];
    var used: seq<int> := [];
    assert Join(chosen) == [] by { NothingJoined(); }
    for k := 0 to |nodes|
      invariant |targets| == k && used == Join(chosen)
      invariant Chooses(supplied, defaults, chosen) && Resolvable(nodes[..k], groups, chosen)
      invariant forall i :: 0 <= i < k ==> RunsOn(nodes[i], groups, chosen[i]) == Some(targets[i])
    {
      var indices := if k in supplied then supplied[k] else defaults.value[k];
      var free := UseAll(used, indices);
      var runs := if free then RunsOn(nodes[k], groups, indices) else None;
      if runs == None {
        forall other ensures !(Chooses(supplied, defaults, other) && Resolvable(nodes, groups, other)) {
          if Chooses(supplied, defaults, other) && Resolvable(nodes, groups, other) {
            ChoiceContinues(nodes, groups, supplied, defaults, chosen, other);
          }
        }
        return None;
      }
      ExtendResolvable(nodes, groups, chosen, indices);
      chosen, targets, used := chosen + [indices], targets + [runs.value], used + indices;
    }
    assert nodes[..|nodes|] == nodes;
    forall k | 0 <= k < |nodes| ensures Delivers(nodes[k], groups, chosen[k], targets[k]) {
      RunsDeliver(nodes[k], groups, chosen[k], targets[k]);
    }
    result := Some(Resolved(chosen, targets));
  }

  method CheckSupplied(nodes: seq<Node>, groups: seq<seq<Target>>, supplied: map<nat, seq<int>>) returns (ok: bool)
    ensures ok <==> forall k :: k in supplied ==> WellBound(nodes, |groups|, k, supplied[k])
  {
    var pending := supplied.Keys;
    while pending != {}
      invariant pending <= supplied.Keys
      invariant forall k :: k in supplied && k !in pending ==> WellBound(nodes, |groups|, k, supplied[k])
    {
      var k :| k in pending;
      if k >= |nodes| || |nodes[k].outputs| != 1 {
        return false;
      }
      var fine := Normalize(supplied[k], |groups|);
      if !fine {
        return false;
      }
      pending := pending - {k};
    }
    ok := true;
  }

  /** Marks a node's groups one by one; a group already in use, by any node, is an error. */
  method UseAll(used: seq<int>, indices: seq<int>) returns (free: bool)
    requires Distinct(used)
    ensures free <==> Distinct(used + indices)
  {
    hide Distinct;
    var now := used;
    for i := 0 to |indices|
      invariant now == used + indices[..i] && Distinct(now)
    {
      if indices[i] in now {
        RepeatsLater(used, indices, i);
        return false;
      }
      DistinctGrows(now, indices[i]);
      now := now + [indices[i]];
    }
    assert indices[..|indices|] == indices;
    free := true;
  }

  lemma RepeatsLater(used: seq<int>, indices: seq<int>, i: nat)
    requires i < |indices| && indices[i] in used + indices[..i]
    ensures !Distinct(used + indices)
  {
    var now, all := used + indices[..i], used + indices;
    var j :| 0 <= j < |now| && now[j] == indices[i];
    assert all[j] == all[|used| + i];
  }

  lemma DistinctGrows(now: seq<int>, x: int)
    requires Distinct(now) && x !in now
    ensures Distinct(now + [x])
  {
  }

  lemma ChoiceContinues(nodes: seq<Node>, groups: seq<seq<Target>>, supplied: map<nat, seq<int>>,
                        defaults: Option<seq<seq<int>>>, chosen: seq<seq<int>>, other: seq<seq<int>>)
    requires |chosen| < |nodes| && Chooses(supplied, defaults, chosen)
    requires Chooses(supplied, defaults, other) && Resolvable(nodes, groups, other)
    ensures chosen == other[..|chosen|]
    ensures RunsOn(nodes[|chosen|], groups, other[|chosen|]).Some? && Distinct(Join(chosen) + other[|chosen|])
  {
    hide RunsOn, Join, Distinct, Chooses;
    var k := |chosen|;
    SameChoices(supplied, defaults, chosen, other);
    JoinPrefix(other, k + 1);
    assert other[..k + 1] == chosen + [other[k]];
    JoinLast(chosen, other[k]);
  }

  lemma SameChoices(supplied: map<nat, seq<int>>, defaults: Option<seq<seq<int>>>, chosen: seq<seq<int>>,
                    other: seq<seq<int>>)
    requires Chooses(supplied, defaults, chosen) && Chooses(supplied, defaults, other) && |chosen| <= |other|
    ensures chosen == other[..|chosen|]
  {
  }

  lemma NothingJoined()
    ensures Join([]) == []
  {
  }

  lemma ExtendResolvable(nodes: seq<Node>, groups: seq<seq<Target>>, chosen: seq<seq<int>>, indices: seq<int>)
    requires |chosen| < |nodes| && Resolvable(nodes[..|chosen|], groups, chosen)
    requires Distinct(Join(chosen) + indices) && RunsOn(nodes[|chosen|], groups, indices).Some?
    ensures Resolvable(nodes[..|chosen| + 1], groups, chosen + [indices])
    ensures Join(chosen + [indices]) == Join(chosen) + indices
  {
    hide RunsOn, Distinct, Join;
    JoinLast(chosen, indices);
    var longer, now := chosen + [indices], nodes[..|chosen| + 1];
    assert now[..|chosen|] == nodes[..|chosen|] && now[|chosen|] == nodes[|chosen|];
    OneMoreRuns(now, groups, chosen, indices);
  }

  lemma OneMoreRuns(nodes: seq<Node>, groups: seq<seq<Target>>, chosen: seq<seq<int>>, indices: seq<int>)
    requires |nodes| == |chosen| + 1 && RunsOn(nodes[|chosen|], groups, indices).Some?
    requires forall k :: 0 <= k < |chosen| ==> RunsOn(nodes[..|chosen|][k], groups, chosen[k]).Some?
    ensures forall k :: 0 <= k < |nodes| ==> RunsOn(nodes[k], groups, (chosen + [indices])[k]).Some?
  {
    hide RunsOn;
    forall k | 0 <= k < |chosen| ensures RunsOn(nodes[k], groups, chosen[k]).Some? {
      assert nodes[..|chosen|][k] == nodes[k];
    }
  }

  lemma JoinLast(chosen: seq<seq<int>>, indices: seq<int>)
    ensures Join(chosen + [indices]) == Join(chosen) + indices
  {
  }

  lemma {:induction false} JoinPrefix(chosen: seq<seq<int>>, k: nat)
    requires k <= |chosen|
    ensures Join(chosen[..k]) <= Join(chosen)
    ensures Distinct(Join(chosen)) ==> Distinct(Join(chosen[..k]))
  {
    if k == |chosen| {
      assert chosen[..k] == chosen;
    } else {
      var last := |chosen| - 1;
      JoinPrefix(chosen[..last], k);
      assert chosen[..last][..k] == chosen[..k];
    }
  }

  // ---------------------------------------------------------------------------------------------
  // Different indices are different groups, unless one counts from the end.

  lemma {:induction false} JoinInReach(nodes: seq<Node>, groups: seq<seq<Target>>, chosen: seq<seq<int>>)
    requires |chosen| == |nodes| && forall k :: 0 <= k < |chosen| ==> RunsOn(nodes[k], groups, chosen[k]).Some?
    ensures InReach(Join(chosen), |groups|)
  {
    if chosen != [] {
      var last := |chosen| - 1;
      JoinInReach(nodes[..last], groups, chosen[..last]);
      assert InReach(chosen[last], |groups|);
    }
  }

  function Positions(indices: seq<int>, count: nat): seq<int> {
    seq(|indices|, i requires 0 <= i < |indices| => Position(indices[i], count))
  }

  /** No two indices name the same group, once from each end. */
  ghost predicate NoneFromBothEnds(indices: seq<int>, count: nat) {
    forall i, j :: 0 <= i < |indices| && 0 <= j < |indices| ==> indices[i] - indices[j] != count
  }

  /** A resolved choice gives no group to two nodes exactly when no group is named from both ends. */
  lemma DisjointExactly(nodes: seq<Node>, groups: seq<seq<Target>>, chosen: seq<seq<int>>)
    requires Resolvable(nodes, groups, chosen)
    ensures Distinct(Positions(Join(chosen), |groups|)) <==> NoneFromBothEnds(Join(chosen), |groups|)
  {
    hide RunsOn, Join;
    JoinInReach(nodes, groups, chosen);
    var all, at := Join(chosen), Positions(Join(chosen), |groups|);
    if NoneFromBothEnds(all, |groups|) {
      forall i, j | 0 <= i < j < |at| ensures at[i] != at[j] {
        assert all[i] != all[j] && all[i] - all[j] != |groups| && all[j] - all[i] != |groups|;
      }
    } else {
      var i, j :| 0 <= i < |all| && 0 <= j < |all| && all[i] - all[j] == |groups|;
      assert at[i] == at[j];
    }
  }

  lemma {:induction false} JoinNatural(chosen: seq<seq<int>>)
    requires forall k, i :: 0 <= k < |chosen| && 0 <= i < |chosen[k]| ==> chosen[k][i] >= 0
    ensures forall i :: 0 <= i < |Join(chosen)| ==> Join(chosen)[i] >= 0
  {
    if chosen != [] {
      JoinNatural(chosen[..|chosen| - 1]);
    }
  }

  /** Explicit bindings are never negative; if the defaults are not either, every group serves at most one node. */
  lemma ResolvedGroupsAreDisjoint(nodes: seq<Node>, groups: seq<seq<Target>>, supplied: map<nat, seq<int>>,
                                  defaults: Option<seq<seq<int>>>, chosen: seq<seq<int>>)
    requires Resolvable(nodes, groups, chosen) && Chooses(supplied, defaults, chosen)
    requires forall k :: k in supplied ==> WellBound(nodes, |groups|, k, supplied[k])
    requires defaults.Some? ==>
      forall k, i :: 0 <= k < |defaults.value| && 0 <= i < |defaults.value[k]| ==> defaults.value[k][i] >= 0
    ensures Distinct(Positions(Join(chosen), |groups|))
  {
    hide RunsOn, Join;
    JoinNatural(chosen);
    JoinInReach(nodes, groups, chosen);
    DisjointExactly(nodes, groups, chosen);
  }

  /** The other case: two nodes that accept the only group both resolve to it, as index 0 and as index -1. */
  lemma SharedFromBothEnds(node: Node, group: seq<Target>)
    requires Accepts(node, group, false)
    ensures Resolvable([node, node], [group], [[0], [-1]])
    ensures !Distinct(Positions(Join([[0], [-1]]), 1))
  {
    hide Check;
    var chosen := [[0], [-1]];
    assert Join(chosen) == [0, -1] by {
      assert chosen[..1] == [[0]] && [[0]][..0] == [] && Join([[0]]) == [0];
    }
    assert Selected([group], [0]) == [group] && Selected([group], [-1]) == [group];
    var at := Positions(Join(chosen), 1);
    assert at[0] == at[1];
  }

  // ---------------------------------------------------------------------------------------------
  // The automatic mapping always resolves.

  /** `takes` hands out all the groups, and every custom node fits what it gets. */
  ghost predicate CustomsFit(p: Problem, n: nat, g: nat, takes: seq<nat>)
    requires n <= |p.nodes|
  {
    && |takes| == |p.nodes| - n && g + Sum(takes) == |p.groups|
    && forall k :: 0 <= k < |takes| && p.nodes[n + k].custom ==> FitsAt(p, n, g, takes, k)
  }

  lemma CustomsFitTail(p: Problem, n: nat, g: nat, takes: seq<nat>)
    requires n < |p.nodes| && CustomsFit(p, n, g, takes)
    ensures CustomsFit(p, n + 1, g + takes[0], takes[1..])
    ensures p.nodes[n].custom ==> takes[0] >= 1 && g + takes[0] <= |p.groups| && Fits(p, n, g, takes[0])
  {
    hide Fits;
    var rest, n', g' := takes[1..], n + 1, g + takes[0];
    forall k | 0 <= k < |rest| && p.nodes[n' + k].custom ensures FitsAt(p, n', g', rest, k) {
      assert FitsAt(p, n, g, takes, k + 1);
      assert takes[..k + 1][1..] == rest[..k];
    }
    assert p.nodes[n].custom ==> FitsAt(p, n, g, takes, 0);
  }

  /** A fitting interval of groups is one the resolution accepts for that node. */
  lemma FittingRuns(p: Problem, n: nat, g: nat, take: nat)
    requires n < |p.nodes| && p.nodes[n].custom && 1 <= take && g + take <= |p.groups| && Fits(p, n, g, take)
    ensures RunsOn(p.nodes[n], p.groups, Interval(g, take)).Some?
  {
    hide Check, Combine;
    assert Selected(p.groups, Interval(g, take)) == p.groups[g..g + take];
  }

  ghost predicate Increasing(indices: seq<int>, low: int) {
    && (forall i, j :: 0 <= i < j < |indices| ==> indices[i] < indices[j])
    && (forall i :: 0 <= i < |indices| ==> low <= indices[i])
  }

  ghost function JoinFront(chosen: seq<seq<int>>): seq<int> {
    if chosen == [] then [] else chosen[0] + JoinFront(chosen[1..])
  }

  lemma {:induction false} JoinsAgree(chosen: seq<seq<int>>)
    ensures Join(chosen) == JoinFront(chosen)
  {
    if |chosen| == 1 {
      assert chosen[..0] == [] && chosen[1..] == [];
    } else if |chosen| > 1 {
      var last := |chosen| - 1;
      JoinsAgree(chosen[..last]);
      JoinsAgree(chosen[1..]);
      JoinsAgree(chosen[1..][..last - 1]);
      assert chosen[..last][1..] == chosen[1..][..last - 1] && chosen[1..][last - 1] == chosen[last];
    }
  }

  lemma {:induction false} RangesResolve(p: Problem, n: nat, g: nat, takes: seq<nat>)
    requires n <= |p.nodes| && CustomsFit(p, n, g, takes)
    ensures
      var ranges := CustomRanges(p, n, g, takes);
      var customs := CustomNodes(p.nodes[n..]);
      && |ranges| == |customs| && Increasing(JoinFront(ranges), g)
      && forall k :: 0 <= k < |ranges| ==> RunsOn(customs[k], p.groups, ranges[k]).Some?
    decreases |takes|
  {
    if takes != [] {
      CustomsFitTail(p, n, g, takes);
      hide RunsOn, Fits, FitsAt, Increasing, CustomsFit, Interval, JoinFront;
      RangesResolve(p, n + 1, g + takes[0], takes[1..]);
      assert p.nodes[n..][1..] == p.nodes[n + 1..];
      var rest: seq<seq<int>> := CustomRanges(p, n + 1, g + takes[0], takes[1..]);
      IncreasingFrom(g, takes[0], JoinFront(rest));
      if p.nodes[n].custom {
        FittingRuns(p, n, g, takes[0]);
        assert CustomRanges(p, n, g, takes) == [Interval(g, takes[0])] + rest;
        JoinFirst(Interval(g, takes[0]), rest);
      } else {
        assert CustomRanges(p, n, g, takes) == rest;
      }
    } else {
      assert JoinFront([]) == [];
    }
  }

  lemma JoinFirst(first: seq<int>, rest: seq<seq<int>>)
    ensures JoinFront([first] + rest) == first + JoinFront(rest)
  {
  }

  lemma IncreasingFrom(g: nat, take: nat, rest: seq<int>)
    requires Increasing(rest, g + take)
    ensures Increasing(rest, g) && Increasing(Interval(g, take) + rest, g)
  {
  }

  /** Whatever the automatic selection maps, the resolution accepts as it is, with nothing else supplied. */
  lemma AutomaticMappingResolves(p: Problem, takes: seq<nat>)
    requires Unique(p, takes) || (|p.groups| == |p.nodes| && PositionsAccept(p) && takes == Ones(|p.nodes|))
    ensures |takes| == |p.nodes| && Resolvable(CustomNodes(p.nodes), p.groups, CustomRanges(p, 0, 0, takes))
  {
    if !Unique(p, takes) {
      SumOfOnes(takes);
      forall k | 0 <= k < |takes| && p.nodes[k].custom ensures FitsAt(p, 0, 0, takes, k) {
        assert takes[..k] == Ones(k);
        SumOfOnes(takes[..k]);
      }
    }
    assert CustomsFit(p, 0, 0, takes);
    RangesResolve(p, 0, 0, takes);
    assert p.nodes[0..] == p.nodes;
    JoinsAgree(CustomRanges(p, 0, 0, takes));
  }

  /** With nothing supplied or saved, an automatic mapping is accepted without error and used unchanged. */
  method ResolveAutomatically(p: Problem) returns (outcome: Outcome, result: Option<Resolved>)
    ensures outcome == Raised <==> if |p.groups| == |p.nodes| then PositionsRaise(p) else SearchRaises(p)
    ensures outcome != Raised && OthersFilled(p) ==>
      && (outcome.Mapped? <==> exists takes :: Unique(p, takes))
      && (outcome.Mapped? ==> exists takes :: Unique(p, takes) && outcome.ranges == CustomRanges(p, 0, 0, takes))
    ensures outcome != Raised && |p.groups| == |p.nodes| ==>
      outcome == if PositionsAccept(p) then Mapped(CustomRanges(p, 0, 0, Ones(|p.nodes|))) else Unmapped
    ensures outcome.Mapped? ==> result.Some? && result.value.indices == outcome.ranges
    ensures !outcome.Mapped? ==> result == None
  {
    result := None;
    outcome := AutomaticGroupIndices(p);
    if outcome.Mapped? {
      ghost var takes := if |p.groups| == |p.nodes| then Ones(|p.nodes|)
                         else var t :| Unique(p, t) && outcome.ranges == CustomRanges(p, 0, 0, t); t;
      AutomaticMappingResolves(p, takes);
      hide Resolvable, Unique, PositionsAccept, CustomRanges, CustomNodes;
      var customs, defaults: seq<seq<int>> := CustomNodes(p.nodes), outcome.ranges;
      assert Chooses(map[], Some(defaults), defaults);
      result := ResolveBindings(customs, p.groups, map[], None, Some(defaults));
      assert |result.value.indices| == |customs| == |defaults| by {
        ResolvableLength(customs, p.groups, defaults);
        ResolvableLength(customs, p.groups, result.value.indices);
      }
    }
  }

  lemma ResolvableLength(nodes: seq<Node>, groups: seq<seq<Target>>, chosen: seq<seq<int>>)
    requires Resolvable(nodes, groups, chosen)
    ensures |chosen| == |nodes|
  {
  }
}
