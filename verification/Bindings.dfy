/**
 Tensor bindings of one inference: which graph argument each caller tensor selects, and why a successful
 pair of passes over inputs and outputs leaves no argument unbound.
 */
module Bindings {
  import opened Wrappers
  import opened Bytes
  import opened Sequences
  import opened Driver

  datatype Kind = Input | Output
  datatype Argument = Argument(kind: Kind, name: seq<Byte>, size: nat)

  /** A shared buffer names the session that owns it; the caller sees a copy of its address and size. */
  datatype Implementation = Implementation(owner: nat, allocation: Address, size: nat)
  datatype Buffer = Buffer(data: Address, size: nat, implementation: Option<Implementation>)

  /** `wellFormed`: the structure is large enough and its name view is valid.  No index means "by name". */
  datatype Binding = Binding(wellFormed: bool, buffer: Option<Buffer>, index: Option<nat>, name: seq<Byte>)

  predicate Matches(index: Option<nat>, name: seq<Byte>, argument: Argument, k: nat) {
    if index.Some? then index.value == k else name == argument.name
  }

  /** `k` is the only candidate argument the selector matches. */
  ghost predicate Selects(arguments: seq<Argument>, kinds: set<Kind>, index: Option<nat>, name: seq<Byte>, k: nat) {
    && k < |arguments| && arguments[k].kind in kinds && Matches(index, name, arguments[k], k)
    && forall i :: 0 <= i < |arguments| && i != k && arguments[i].kind in kinds ==>
      !Matches(index, name, arguments[i], i)
  }

  predicate OwnedBy(buffer: Option<Buffer>, owner: nat, size: nat) {
    && buffer.Some? && buffer.value.implementation.Some?
    && var implementation := buffer.value.implementation.value;
       && implementation.owner == owner && buffer.value.data == implementation.allocation
       && buffer.value.size == implementation.size == size
  }

  /** The binding is acceptable and selects argument `k`, of the required kind and exact byte size. */
  ghost predicate Bindable(arguments: seq<Argument>, owner: nat, kind: Kind, b: Binding, k: nat) {
    && b.wellFormed && 0 !in b.name && (b.index.Some? != (b.name != []))
    && Selects(arguments, {Input, Output}, b.index, b.name, k)
    && arguments[k].kind == kind && OwnedBy(b.buffer, owner, arguments[k].size)
  }

  /** One argument per binding, all different and none taken before. */
  ghost predicate Assigns(arguments: seq<Argument>, owner: nat, kind: Kind, bindings: seq<Binding>,
                          taken: seq<bool>, chosen: seq<nat>)
    requires |taken| == |arguments|
  {
    && |chosen| == |bindings| && Distinct(chosen)
    && forall j :: 0 <= j < |chosen| ==> Bindable(arguments, owner, kind, bindings[j], chosen[j]) && !taken[chosen[j]]
  }

  ghost function Allocation(b: Binding): Address {
    if b.buffer.Some? && b.buffer.value.implementation.Some? then
      b.buffer.value.implementation.value.allocation
    else NULL
  }

  /** The scan over all arguments: the single match, if there is one. */
  method FindArgument(arguments: seq<Argument>, kinds: set<Kind>, index: Option<nat>, name: seq<Byte>)
    returns (found: Option<nat>)
    ensures found.Some? ==> Selects(arguments, kinds, index, name, found.value)
    ensures found == None ==> forall k: nat :: !Selects(arguments, kinds, index, name, k)
  {
    found := None;
    for k := 0 to |arguments|
      invariant found == None ==>
        forall i :: 0 <= i < k && arguments[i].kind in kinds ==> !Matches(index, name, arguments[i], i)
      invariant found.Some? ==> Selects(arguments[..k], kinds, index, name, found.value)
    {
      if arguments[k].kind in kinds && Matches(index, name, arguments[k], k) {
        if found.Some? {
          var first := found.value;
          assert Matches(index, name, arguments[first], first);
          return None;
        }
        found := Some(k);
      }
    }
    assert arguments[..|arguments|] == arguments;
  }

  /** The argument a binding is for, if the binding and its buffer are acceptable. */
  method FindBindable(arguments: seq<Argument>, owner: nat, kind: Kind, b: Binding) returns (found: Option<nat>)
    ensures found.Some? ==> Bindable(arguments, owner, kind, b, found.value) && found.value < |arguments|
    ensures found.Some? ==> OwnedBy(b.buffer, owner, arguments[found.value].size)
    ensures found == None ==> forall k: nat :: !Bindable(arguments, owner, kind, b, k)
    ensures forall k: nat :: Bindable(arguments, owner, kind, b, k) ==> found == Some(k)
  {
    if !b.wellFormed || 0 in b.name || b.index.Some? == (b.name != []) {
      return None;
    }
    found := FindArgument(arguments, {Input, Output}, b.index, b.name);
    if found.Some? && (arguments[found.value].kind != kind || !OwnedBy(b.buffer, owner, arguments[found.value].size)) {
      found := None;
    }
  }

  /**
   One pass over the caller's bindings.  It succeeds exactly when an assignment exists (there is never more
   than one), records that assignment's allocations and marks its arguments.
   */
  method CollectBindings(arguments: seq<Argument>, owner: nat, bindings: seq<Binding>, kind: Kind,
                         allocations: array<Address>, matched: array<bool>)
    returns (ok: bool, ghost chosen: seq<nat>)
    requires allocations.Length == matched.Length == |arguments|
    modifies allocations, matched
    ensures ok ==> Assigns(arguments, owner, kind, bindings, old(matched[..]), chosen)
    ensures !ok ==> forall c :: !Assigns(arguments, owner, kind, bindings, old(matched[..]), c)
    ensures ok ==> forall k :: 0 <= k < |arguments| ==> matched[k] == (old(matched[k]) || k in chosen)
    ensures ok ==> forall j :: 0 <= j < |chosen| ==> allocations[chosen[j]] == Allocation(bindings[j])
    ensures ok ==> forall k :: 0 <= k < |arguments| && k !in chosen ==> allocations[k] == old(allocations[k])
  {
    hide Assigns, Bindable, OwnedBy;
    chosen := [];
    ghost var taken := matched[..];
    NothingAssigned(arguments, owner, kind, taken);
    for j := 0 to |bindings|
      invariant Assigns(arguments, owner, kind, bindings[..j], taken, chosen)
      invariant |chosen| == j && forall i :: 0 <= i < j ==> chosen[i] < |arguments|
      invariant forall k :: 0 <= k < |arguments| ==> matched[k] == (taken[k] || k in chosen)
      invariant forall i :: 0 <= i < j ==> allocations[chosen[i]] == Allocation(bindings[i])
      invariant forall k :: 0 <= k < |arguments| && k !in chosen ==> allocations[k] == old(allocations[k])
    {
      var b := bindings[j];
      var found := FindBindable(arguments, owner, kind, b);
      if found == None || matched[found.value] {
        forall c ensures !Assigns(arguments, owner, kind, bindings, taken, c) {
          if Assigns(arguments, owner, kind, bindings, taken, c) {
            AssignmentContinues(arguments, owner, kind, bindings, taken, chosen, c);
          }
        }
        return false, chosen;
      }
      AssignOneMore(arguments, owner, kind, bindings[..j], b, taken, chosen, found.value);
      assert bindings[..j + 1] == bindings[..j] + [b];
      OwnedHasAllocation(b, owner, arguments[found.value].size);
      allocations[found.value] := b.buffer.value.implementation.value.allocation;
      matched[found.value] := true;
      chosen := chosen + [found.value];
    }
    assert bindings[..|bindings|] == bindings;
    ok := true;
  }

  lemma NothingAssigned(arguments: seq<Argument>, owner: nat, kind: Kind, taken: seq<bool>)
    requires |taken| == |arguments|
    ensures Assigns(arguments, owner, kind, [], taken, [])
  {
  }

  lemma AssignOneMore(arguments: seq<Argument>, owner: nat, kind: Kind, bindings: seq<Binding>, b: Binding,
                      taken: seq<bool>, chosen: seq<nat>, k: nat)
    requires |taken| == |arguments| && Assigns(arguments, owner, kind, bindings, taken, chosen)
    requires k < |arguments| && Bindable(arguments, owner, kind, b, k) && !taken[k] && k !in chosen
    ensures Assigns(arguments, owner, kind, bindings + [b], taken, chosen + [k])
  {
    hide Bindable;
  }

  lemma OwnedHasAllocation(b: Binding, owner: nat, size: nat)
    requires OwnedBy(b.buffer, owner, size)
    ensures b.buffer.Some? && b.buffer.value.implementation.Some?
    ensures Allocation(b) == b.buffer.value.implementation.value.allocation
  {
  }

  /** Every full assignment continues the assignment of a prefix; in particular there is at most one. */
  lemma AssignmentContinues(arguments: seq<Argument>, owner: nat, kind: Kind, bindings: seq<Binding>,
                            taken: seq<bool>, prefix: seq<nat>, c: seq<nat>)
    requires |taken| == |arguments| && |prefix| <= |bindings|
    requires Assigns(arguments, owner, kind, bindings[..|prefix|], taken, prefix)
    requires Assigns(arguments, owner, kind, bindings, taken, c)
    ensures |c| == |bindings| && prefix == c[..|prefix|]
    ensures |prefix| < |bindings| ==>
      var k := c[|prefix|];
      Bindable(arguments, owner, kind, bindings[|prefix|], k) && !taken[k] && k !in prefix
  {
  }

  // ---------------------------------------------------------------------------------------------
  // Counting: as many different arguments of a kind as there are leaves none of that kind out.

  ghost function OfKind(arguments: seq<Argument>, kind: Kind, n: nat := |arguments|): set<nat>
    requires n <= |arguments|
  {
    set k: nat | k < n && arguments[k].kind == kind
  }

  lemma {:induction false} Pigeonhole(chosen: seq<nat>, candidates: set<nat>)
    requires Distinct(chosen) && |chosen| == |candidates|
    requires forall j :: 0 <= j < |chosen| ==> chosen[j] in candidates
    ensures forall k :: k in candidates ==> k in chosen
  {
    if chosen != [] {
      var last := |chosen| - 1;
      var rest := candidates - {chosen[last]};
      Pigeonhole(chosen[..last], rest);
      forall k | k in candidates ensures k in chosen {
        if k != chosen[last] {
          assert k in rest && k in chosen[..last];
        }
      }
    }
  }

  /** Two successful passes with the graph's own input and output counts bind every argument exactly once. */
  lemma ExactCover(arguments: seq<Argument>, owner: nat, inputs: seq<Binding>, outputs: seq<Binding>,
                   free: seq<bool>, taken: seq<bool>, ins: seq<nat>, outs: seq<nat>)
    requires |free| == |taken| == |arguments|
    requires |inputs| == |OfKind(arguments, Input)| && |outputs| == |OfKind(arguments, Output)|
    requires Assigns(arguments, owner, Input, inputs, free, ins)
    requires Assigns(arguments, owner, Output, outputs, taken, outs)
    ensures Distinct(ins + outs) && |ins + outs| == |arguments|
    ensures forall k: nat :: k < |arguments| <==> k in ins + outs
  {
    forall j | 0 <= j < |ins| ensures ins[j] in OfKind(arguments, Input) {
      assert Bindable(arguments, owner, Input, inputs[j], ins[j]);
    }
    forall j | 0 <= j < |outs| ensures outs[j] in OfKind(arguments, Output) {
      assert Bindable(arguments, owner, Output, outputs[j], outs[j]);
    }
    Pigeonhole(ins, OfKind(arguments, Input));
    Pigeonhole(outs, OfKind(arguments, Output));
    forall k: nat ensures k < |arguments| <==> k in ins + outs {
      assert k < |arguments| ==> k in OfKind(arguments, Input) || k in OfKind(arguments, Output);
    }
    KindsPartition(arguments, |arguments|);
  }

  lemma {:induction false} KindsPartition(arguments: seq<Argument>, n: nat)
    requires n <= |arguments|
    ensures |OfKind(arguments, Input, n)| + |OfKind(arguments, Output, n)| == n
  {
    if n > 0 {
      KindsPartition(arguments, n - 1);
      var kind := arguments[n - 1].kind;
      var other := if kind == Input then Output else Input;
      assert OfKind(arguments, kind, n) == OfKind(arguments, kind, n - 1) + {n - 1};
      assert OfKind(arguments, other, n) == OfKind(arguments, other, n - 1);
    }
  }
}
