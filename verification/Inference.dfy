/**
 The two public inference calls: with caller-owned shared buffers, and with copied tensors.  Both end in
 the session's execution of one allocation per graph argument.
 */
module Inference {
  import opened Wrappers
  import opened Bytes
  import opened Sequences
  import opened Driver
  import opened Bindings
  import S = Session

  datatype Outcome =
    | CountMismatch
    | SessionClosed
    | BadBinding
    | ArgumentNotBound
    | OutOfDeviceMemory
    | Executed(status: S.Status)

  /** A copied input: bytes and a selector; no index means "by name". */
  datatype CopiedInput = CopiedInput(index: Option<nat>, name: seq<Byte>, data: seq<Byte>)

  /** The i-th input is for argument chosen[i], of that argument's exact byte size, and no two agree. */
  ghost predicate Feeds(arguments: seq<Argument>, inputs: seq<CopiedInput>, chosen: seq<nat>) {
    && |chosen| == |inputs| && Distinct(chosen)
    && forall i :: 0 <= i < |inputs| ==> FeedsOne(arguments, inputs[i], chosen[i])
  }

  ghost predicate FeedsOne(arguments: seq<Argument>, input: CopiedInput, k: nat) {
    Selects(arguments, {Input}, input.index, input.name, k) && |input.data| == arguments[k].size
  }

  /** The first arguments have live allocations of their own, each of its argument's size. */
  ghost predicate Allocated(arguments: seq<Argument>, memory: map<Address, seq<Byte>>, addresses: seq<Address>) {
    && |addresses| <= |arguments| && Distinct(addresses)
    && forall k :: 0 <= k < |addresses| ==>
         var a := addresses[k]; a in memory && |memory[a]| == arguments[k].size
  }

  lemma LayoutKeepsAllocations(arguments: seq<Argument>, before: map<Address, seq<Byte>>,
                               after: map<Address, seq<Byte>>, addresses: seq<Address>)
    requires SameLayout(before, after) && Allocated(arguments, before, addresses)
    ensures Allocated(arguments, after, addresses)
  {
  }

  class GraphSession {
    const identity: nat
    const arguments: seq<Argument>
    const execution: S.Session
    var active: bool
    // One host allocation per argument, made on the first copied inference.
    var copied: Option<seq<Address>>

    ghost predicate Valid()
      reads this, execution, execution.device
    {
      && execution.Valid() && execution.argumentCount == |arguments|
      && (copied.Some? ==>
            |copied.value| == |arguments| && Allocated(arguments, execution.device.state.memory, copied.value))
    }

    constructor (identity: nat, arguments: seq<Argument>, execution: S.Session)
      requires execution.Valid() && execution.argumentCount == |arguments|
      ensures Valid() && active && copied == None
      ensures this.identity == identity && this.arguments == arguments && this.execution == execution
    {
      this.identity, this.arguments, this.execution := identity, arguments, execution;
      active, copied := true, None;
    }

    method Count(kind: Kind) returns (count: nat)
      ensures count == |OfKind(arguments, kind)|
    {
      count := 0;
      for k := 0 to |arguments|
        invariant count == |OfKind(arguments, kind, k)|
      {
        if arguments[k].kind == kind {
          assert OfKind(arguments, kind, k + 1) == OfKind(arguments, kind, k) + {k};
          count := count + 1;
        } else {
          assert OfKind(arguments, kind, k + 1) == OfKind(arguments, kind, k);
        }
      }
    }

    /** Every argument has the allocation of the one binding that selects it. */
    ghost predicate BoundBy(inputs: seq<Binding>, outputs: seq<Binding>, chosen: seq<nat>, vector: seq<Address>) {
      && |chosen| == |vector| == |arguments| == |inputs| + |outputs|
      && Distinct(chosen) && (forall k: nat :: k < |arguments| <==> k in chosen)
      && (forall j :: 0 <= j < |inputs| ==>
            Bindable(arguments, identity, Input, inputs[j], chosen[j]) && vector[chosen[j]] == Allocation(inputs[j]))
      && (forall j :: 0 <= j < |outputs| ==>
            var k := chosen[|inputs| + j];
            Bindable(arguments, identity, Output, outputs[j], k) && vector[k] == Allocation(outputs[j]))
    }

    /** No choice of arguments for the inputs and the outputs exists. */
    ghost predicate Unbindable(inputs: seq<Binding>, outputs: seq<Binding>) {
      var free := seq(|arguments|, _ => false);
      forall ins, outs :: !(&& Assigns(arguments, identity, Input, inputs, free, ins)
                            && Assigns(arguments, identity, Output, outputs, free, outs))
    }

    ghost predicate CountsMatch(inputs: seq<Binding>, outputs: seq<Binding>) {
      |inputs| == |OfKind(arguments, Input)| && |outputs| == |OfKind(arguments, Output)|
    }

    lemma BoundIsBindable(inputs: seq<Binding>, outputs: seq<Binding>, chosen: seq<nat>, vector: seq<Address>)
      requires BoundBy(inputs, outputs, chosen, vector)
      ensures !Unbindable(inputs, outputs)
    {
      var free := seq(|arguments|, _ => false);
      var ins, outs := chosen[..|inputs|], chosen[|inputs|..];
      forall i, j | 0 <= i < j < |outs| ensures outs[i] != outs[j] {
        assert chosen[|inputs| + i] != chosen[|inputs| + j];
      }
      assert Assigns(arguments, identity, Input, inputs, free, ins);
      assert Assigns(arguments, identity, Output, outputs, free, outs);
    }

    method AllMatched(matched: array<bool>) returns (all: bool)
      ensures all <==> forall k :: 0 <= k < matched.Length ==> matched[k]
    {
      for k := 0 to matched.Length
        invariant forall i :: 0 <= i < k ==> matched[i]
      {
        if !matched[k] {
          return false;
        }
      }
      all := true;
    }

    /** Both passes and the final scan for an unbound argument, which can never find one. */
    method BindShared(inputs: seq<Binding>, outputs: seq<Binding>)
      returns (failure: Option<Outcome>, vector: seq<Address>, ghost chosen: seq<nat>)
      requires |inputs| == |OfKind(arguments, Input)| && |outputs| == |OfKind(arguments, Output)|
      ensures failure == None ==> BoundBy(inputs, outputs, chosen, vector)
      ensures failure.Some? ==> failure.value == BadBinding && Unbindable(inputs, outputs)
    {
      vector, chosen := [], [];
      var allocations := new Address[|arguments|](_ => NULL);
      var matched := new bool[|arguments|](_ => false);
      ghost var free := matched[..];
      assert free == seq(|arguments|, _ => false);
      var ok, ins := CollectBindings(arguments, identity, inputs, Input, allocations, matched);
      if !ok {
        failure := Some(BadBinding);
        return;
      }
      ghost var taken := matched[..];
      ghost var outs;
      ok, outs := CollectBindings(arguments, identity, outputs, Output, allocations, matched);
      forall o { OutputsAvoidInputs(arguments, identity, inputs, outputs, free, taken, ins, o); }
      if !ok {
        SameInputs(inputs, outputs, free, ins);
        failure := Some(BadBinding);
        return;
      }
      ExactCover(arguments, identity, inputs, outputs, free, taken, ins, outs);
      forall k: nat | k < |arguments| ensures matched[k] {
        assert k in ins + outs;
        assert k in ins || k in outs;
      }
      var all := AllMatched(matched);
      failure := if all then None else Some(ArgumentNotBound);
      chosen, vector := ins + outs, allocations[..];
      assert forall j :: 0 <= j < |inputs| ==> chosen[j] == ins[j];
      assert forall j :: 0 <= j < |outputs| ==> chosen[|inputs| + j] == outs[j];
    }

    lemma SameInputs(inputs: seq<Binding>, outputs: seq<Binding>, free: seq<bool>, ins: seq<nat>)
      requires free == seq(|arguments|, _ => false)
      requires forall o :: !Assigns(arguments, identity, Output, outputs, free, o)
      ensures Unbindable(inputs, outputs)
    {
    }

    /**
     Runs exactly when the session is open, the counts are right and both passes have an assignment; then
     every argument is bound exactly once.  The branch for an argument left unbound is never taken.
     */
    method InferShared(inputs: seq<Binding>, outputs: seq<Binding>)
      returns (outcome: Outcome, ghost chosen: seq<nat>, ghost vector: seq<Address>, ghost fault: Option<S.Point>)
      requires Valid()
      modifies execution, execution.device
      ensures Valid() && outcome != ArgumentNotBound && outcome != OutOfDeviceMemory
      ensures !outcome.Executed? ==>
        execution.Observed() == old(execution.Observed()) && execution.device.state == old(execution.device.state)
      ensures outcome.Executed? ==>
        && active && BoundBy(inputs, outputs, chosen, vector)
        && (execution.Observed(), outcome.status)
           == S.Infer(old(execution.Observed()), execution.stages, vector, fault)
      ensures outcome.Executed? ==>
        execution.device.state.refused == old(execution.device.state).refused + S.Refusals(fault)
      ensures outcome == CountMismatch <==>
        |inputs| != |OfKind(arguments, Input)| || |outputs| != |OfKind(arguments, Output)|
      ensures outcome.Executed? ==> (outcome.status.DriverFailed? <==> fault.Some?)
      ensures outcome == SessionClosed <==> !active && CountsMatch(inputs, outputs)
      ensures outcome == BadBinding <==> active && CountsMatch(inputs, outputs) && Unbindable(inputs, outputs)
      ensures outcome.Executed? <==> active && CountsMatch(inputs, outputs) && !Unbindable(inputs, outputs)
    {
      hide S.Infer, BoundBy, Unbindable, S.Session.ValidWith, S.Session.ObservedWith;
      chosen, vector, fault := [], [], None;
      var inputCount := Count(Input);
      var outputCount := Count(Output);
      if |inputs| != inputCount || |outputs| != outputCount {
        outcome := CountMismatch;
        return;
      }
      if !active {
        outcome := SessionClosed;
        return;
      }
      var failure, allocations;
      failure, allocations, chosen := BindShared(inputs, outputs);
      vector := allocations;
      if failure.Some? {
        outcome := failure.value;
        return;
      }
      assert |allocations| == |arguments| by { BoundLength(inputs, outputs, chosen, vector); }
      BoundIsBindable(inputs, outputs, chosen, vector);
      var status;
      ghost var before := execution.device.state.memory;
      status, fault := execution.ExecuteAllocations(allocations);
      if copied.Some? {
        LayoutKeepsAllocations(arguments, before, execution.device.state.memory, copied.value);
      }
      outcome := Executed(status);
    }

    /** Validation of the selectors: it passes exactly when the inputs can feed different arguments. */
    method MatchCopied(inputs: seq<CopiedInput>) returns (ok: bool, ghost chosen: seq<nat>)
      ensures ok ==> Feeds(arguments, inputs, chosen)
      ensures !ok ==> forall c :: !Feeds(arguments, inputs, c)
    {
      chosen := [];
      var matched := new bool[|arguments|](_ => false);
      for i := 0 to |inputs|
        invariant Feeds(arguments, inputs[..i], chosen)
        invariant forall k :: 0 <= k < |arguments| ==> matched[k] == (k in chosen)
      {
        var input := inputs[i];
        var found := FindArgument(arguments, {Input}, input.index, input.name);
        if found == None || matched[found.value] || |input.data| != arguments[found.value].size {
          forall c ensures !Feeds(arguments, inputs, c) {
            if Feeds(arguments, inputs, c) {
              FeedContinues(arguments, inputs, chosen, c);
            }
          }
          return false, chosen;
        }
        matched[found.value] := true;
        chosen := chosen + [found.value];
      }
      assert inputs[..|inputs|] == inputs;
      ok := true;
    }

    /** Frees the allocations made so far, each exactly once. */
    method ReleaseCopied(addresses: seq<Address>)
      requires Distinct(addresses) && forall a :: a in addresses ==> a in execution.device.state.memory
      modifies execution.device
      ensures execution.device.state ==
        old(execution.device.state).(memory := old(execution.device.state.memory) - Elements(addresses))
    {
      var device := execution.device;
      ghost var memory := device.state.memory;
      for j := 0 to |addresses|
        invariant device.state == old(device.state).(memory := memory - Elements(addresses[..j]))
      {
        var address := addresses[j];
        assert address !in Elements(addresses[..j]);
        assert Elements(addresses[..j + 1]) == Elements(addresses[..j]) + {address};
        device.Free(address);
      }
      assert addresses[..|addresses|] == addresses;
    }

    /** All the copied allocations exist afterwards, or none of the new ones is left behind. */
    method EnsureCopied() returns (ok: bool)
      requires Valid()
      modifies this`copied, execution.device
      ensures Valid() && execution.Observed() == old(execution.Observed())
      ensures ok == copied.Some? && (old(copied).Some? ==> copied == old(copied))
      ensures !ok ==> execution.device.state == old(execution.device.state).Answered(false)
      ensures ok ==> execution.device.state.refused == old(execution.device.state).refused
    {
      hide S.Session.ValidWith, S.Session.ObservedWith;
      if copied.Some? {
        return true;
      }
      var device := execution.device;
      var addresses: seq<Address> := [];
      ghost var memory := device.state.memory;
      for k := 0 to |arguments|
        invariant |addresses| == k && Allocated(arguments, device.state.memory, addresses) && copied == None
        invariant device.state == old(device.state).(memory := device.state.memory)
        invariant forall a :: a in addresses ==> a !in memory && a in device.state.memory
        invariant device.state.memory - Elements(addresses) == memory
      {
        var granted, address := device.AllocateHost(arguments[k].size);
        if !granted {
          ReleaseCopied(addresses);
          execution.MemoryDoesNotMatter(old(device.state), device.state.memory, device.state.refused);
          return false;
        }
        addresses := addresses + [address];
      }
      copied := Some(addresses);
      execution.MemoryDoesNotMatter(old(device.state), device.state.memory, device.state.refused);
      ok := true;
    }

    /** The host fills one argument's copied allocation. */
    method WriteTensor(k: nat, bytes: seq<Byte>)
      requires Valid() && copied.Some? && k < |arguments| && |bytes| == arguments[k].size
      modifies execution.device
      ensures Valid() && execution.Observed() == old(execution.Observed())
      ensures execution.device.state.memory == old(execution.device.state.memory)[copied.value[k] := bytes]
      ensures execution.device.state.refused == old(execution.device.state).refused
    {
      hide S.Session.ValidWith, S.Session.ObservedWith;
      var device := execution.device;
      ghost var before := device.state;
      var address := copied.value[k];
      device.Write(address, bytes);
      assert SameLayout(before.memory, device.state.memory);
      LayoutKeepsAllocations(arguments, before.memory, device.state.memory, copied.value);
      execution.MemoryDoesNotMatter(before, device.state.memory, device.state.refused);
    }

    /** The search for the input to copy; validation has made sure that one exists. */
    method FirstMatch(inputs: seq<CopiedInput>, k: nat) returns (first: nat)
      requires k < |arguments|
      requires exists i :: 0 <= i < |inputs| && Matches(inputs[i].index, inputs[i].name, arguments[k], k)
      ensures first < |inputs| && Matches(inputs[first].index, inputs[first].name, arguments[k], k)
    {
      first := 0;
      while !Matches(inputs[first].index, inputs[first].name, arguments[k], k)
        invariant first < |inputs|
        invariant forall j :: 0 <= j < first ==> !Matches(inputs[j].index, inputs[j].name, arguments[k], k)
        decreases |inputs| - first
      {
        first := first + 1;
      }
    }

    /** Each input allocation receives the bytes of the input that selects it; outputs are cleared. */
    method FillCopied(inputs: seq<CopiedInput>, ghost chosen: seq<nat>)
      requires Valid() && copied.Some? && Feeds(arguments, inputs, chosen) && |inputs| == |OfKind(arguments, Input)|
      modifies execution.device
      ensures Valid() && execution.Observed() == old(execution.Observed())
      ensures Loaded(arguments, inputs, chosen, execution.device.state.memory, copied.value, |arguments|)
      ensures execution.device.state.refused == old(execution.device.state).refused
    {
      var device := execution.device;
      hide Loaded, Feeds, Matches, S.Session.ValidWith, S.Session.ObservedWith;
      NothingLoaded(arguments, inputs, chosen, execution.device.state.memory, copied.value);
      FeedsEvery(arguments, inputs, chosen);
      for k := 0 to |arguments|
        invariant Valid() && execution.Observed() == old(execution.Observed())
        invariant Loaded(arguments, inputs, chosen, device.state.memory, copied.value, k)
        invariant device.state.refused == old(execution.device.state).refused
      {
        if arguments[k].kind == Input {
          SomeInputFeeds(arguments, inputs, chosen, k);
          var first := FirstMatch(inputs, k);
          OnlyInputFor(arguments, inputs, chosen, k, first);
          LoadOne(arguments, inputs, chosen, device.state.memory, copied.value, k, inputs[first].data);
          WriteTensor(k, inputs[first].data);
        } else {
          assert k !in chosen;
          LoadOne(arguments, inputs, chosen, device.state.memory, copied.value, k, seq(arguments[k].size, _ => 0));
          WriteTensor(k, seq(arguments[k].size, _ => 0));
        }
      }
    }

    /** Some choice of different arguments takes the inputs. */
    ghost predicate Feedable(inputs: seq<CopiedInput>) {
      exists c :: Feeds(arguments, inputs, c)
    }

    /**
     The copied path.  It runs exactly when the session is open, the count is right, the selectors are valid
     and the allocations exist; what the device then sees is each caller's bytes at the argument they select,
     and the returned outputs are the device's memory of the output arguments, in argument order.
     */
    method InferCopied(inputs: seq<CopiedInput>)
      returns (outcome: Outcome, outputs: seq<seq<Byte>>, ghost chosen: seq<nat>, ghost fault: Option<S.Point>)
      requires Valid()
      modifies this`copied, execution, execution.device
      ensures Valid() && outcome != ArgumentNotBound
      ensures !outcome.Executed? ==> execution.Observed() == old(execution.Observed()) && outputs == []
      ensures outcome == CountMismatch <==> |inputs| != |OfKind(arguments, Input)|
      ensures outcome.Executed? ==> (outcome.status.DriverFailed? <==> fault.Some?)
      ensures outcome == SessionClosed <==> !active && |inputs| == |OfKind(arguments, Input)|
      ensures outcome == BadBinding <==> active && |inputs| == |OfKind(arguments, Input)| && !Feedable(inputs)
      ensures outcome.Executed? || outcome == OutOfDeviceMemory <==>
        active && |inputs| == |OfKind(arguments, Input)| && Feedable(inputs)
      ensures outcome.Executed? ==>
        && active && copied.Some? && Feeds(arguments, inputs, chosen)
        && (forall k: nat :: k in chosen <==> k < |arguments| && arguments[k].kind == Input)
        && (execution.Observed(), outcome.status)
           == S.Infer(old(execution.Observed()), execution.stages, copied.value, fault)
      ensures execution.device.state.refused == old(execution.device.state).refused
        + (if outcome == OutOfDeviceMemory then 1 else if outcome.Executed? then S.Refusals(fault) else 0)
      ensures outcome == Executed(S.Ok) ==>
        && Loaded(arguments, inputs, chosen, execution.device.state.launched, copied.value, |arguments|)
        && |outputs| == |OfKind(arguments, Output)|
      ensures outcome == Executed(S.Ok) ==> forall k :: 0 <= k < |arguments| && arguments[k].kind == Output ==>
        && |OfKind(arguments, Output, k)| < |outputs| && copied.value[k] in execution.device.state.memory
        && outputs[|OfKind(arguments, Output, k)|] == execution.device.state.memory[copied.value[k]]
      ensures outcome == Executed(S.Ok) ==> forall j :: 0 <= j < |inputs| ==>
        && |chosen| == |inputs| && chosen[j] < |arguments| && arguments[chosen[j]].kind == Input
        && (if inputs[j].index.Some? then inputs[j].index.value == chosen[j]
            else inputs[j].name == arguments[chosen[j]].name)
        && copied.value[chosen[j]] in execution.device.state.launched
        && execution.device.state.launched[copied.value[chosen[j]]] == inputs[j].data
    {
      hide S.Infer, Loaded, Feeds, Returned, OfKind, S.Session.ValidWith, S.Session.ObservedWith;
      outputs, chosen, fault := [], [], None;
      var inputCount := Count(Input);
      if |inputs| != inputCount {
        outcome := CountMismatch;
        return;
      }
      if !active {
        outcome := SessionClosed;
        return;
      }
      var ok;
      ok, chosen := MatchCopied(inputs);
      if !ok {
        outcome := BadBinding;
        return;
      }
      assert Feedable(inputs);
      ok := EnsureCopied();
      if !ok {
        outcome := OutOfDeviceMemory;
        return;
      }
      FillCopied(inputs, chosen);
      FeedsEvery(arguments, inputs, chosen);
      ghost var before := execution.device.state.memory;
      var status;
      status, fault := execution.ExecuteAllocations(copied.value);
      LayoutKeepsAllocations(arguments, before, execution.device.state.memory, copied.value);
      outcome := Executed(status);
      if status == S.Ok {
        outputs := ReadOutputs();
        ReturnedMeans(outputs, execution.device.state.memory, copied.value);
        LoadedMeans(inputs, chosen, execution.device.state.launched, copied.value);
      }
    }

    lemma ReturnedMeans(outputs: seq<seq<Byte>>, memory: map<Address, seq<Byte>>, addresses: seq<Address>)
      requires Returned(outputs, memory, addresses)
      ensures |outputs| == |OfKind(arguments, Output)| && |addresses| == |arguments|
      ensures forall k :: 0 <= k < |arguments| && arguments[k].kind == Output ==>
        && |OfKind(arguments, Output, k)| < |outputs| && addresses[k] in memory
        && outputs[|OfKind(arguments, Output, k)|] == memory[addresses[k]]
    {
      hide OfKind;
      forall k | 0 <= k < |arguments| ensures addresses[k] in memory {
        var a := addresses[k];
        assert a in addresses;
      }
    }

    lemma LoadedMeans(inputs: seq<CopiedInput>, chosen: seq<nat>, memory: map<Address, seq<Byte>>,
                      addresses: seq<Address>)
      requires Feeds(arguments, inputs, chosen) && |addresses| == |arguments|
      requires Loaded(arguments, inputs, chosen, memory, addresses, |arguments|)
      ensures forall j :: 0 <= j < |inputs| ==>
        && |chosen| == |inputs| && chosen[j] < |arguments| && arguments[chosen[j]].kind == Input
        && (if inputs[j].index.Some? then inputs[j].index.value == chosen[j]
            else inputs[j].name == arguments[chosen[j]].name)
        && addresses[chosen[j]] in memory && memory[addresses[chosen[j]]] == inputs[j].data
    {
      forall j | 0 <= j < |inputs|
        ensures chosen[j] < |arguments| && FeedsOne(arguments, inputs[j], chosen[j])
        ensures addresses[chosen[j]] in memory && memory[addresses[chosen[j]]] == inputs[j].data
      {
        assert FeedsOne(arguments, inputs[j], chosen[j]);
      }
    }

    /** One tensor per output argument, in argument order, holding what the device left in its allocation. */
    ghost predicate Returned(outputs: seq<seq<Byte>>, memory: map<Address, seq<Byte>>, addresses: seq<Address>) {
      && |outputs| == |OfKind(arguments, Output)|
      && |addresses| == |arguments| && (forall a :: a in addresses ==> a in memory)
      && forall k :: 0 <= k < |arguments| && arguments[k].kind == Output ==>
           var rank := |OfKind(arguments, Output, k)|;
           rank < |outputs| && outputs[rank] == memory[addresses[k]]
    }

    method ReadOutputs() returns (outputs: seq<seq<Byte>>)
      requires Valid() && copied.Some?
      ensures Returned(outputs, execution.device.state.memory, copied.value)
    {
      hide OfKind;
      NoneOfKind(arguments, Output);
      outputs := [];
      for k := 0 to |arguments|
        invariant |outputs| == |OfKind(arguments, Output, k)|
        invariant forall i :: 0 <= i < k && arguments[i].kind == Output ==>
          var rank := |OfKind(arguments, Output, i)|;
          rank < |outputs| && outputs[rank] == execution.device.state.memory[copied.value[i]]
      {
        OfKindNext(arguments, Output, k);
        if arguments[k].kind == Output {
          outputs := outputs + [execution.device.state.memory[copied.value[k]]];
        }
      }
    }

    lemma BoundLength(inputs: seq<Binding>, outputs: seq<Binding>, chosen: seq<nat>, vector: seq<Address>)
      requires BoundBy(inputs, outputs, chosen, vector)
      ensures |vector| == |arguments|
    {
    }
  }

  ghost function Elements(addresses: seq<Address>): set<Address> {
    set a | a in addresses
  }

  lemma FeedContinues(arguments: seq<Argument>, inputs: seq<CopiedInput>, prefix: seq<nat>, c: seq<nat>)
    requires |prefix| <= |inputs| && Feeds(arguments, inputs[..|prefix|], prefix) && Feeds(arguments, inputs, c)
    ensures prefix == c[..|prefix|]
    ensures |prefix| < |inputs| ==>
      FeedsOne(arguments, inputs[|prefix|], c[|prefix|]) && c[|prefix|] !in prefix
  {
  }

  /** The memory of the first `n` arguments is what the caller passed: input bytes, and zeros for outputs. */
  ghost predicate Loaded(arguments: seq<Argument>, inputs: seq<CopiedInput>, chosen: seq<nat>,
                         memory: map<Address, seq<Byte>>, addresses: seq<Address>, n: nat)
    requires Feeds(arguments, inputs, chosen) && n <= |arguments| == |addresses|
  {
    && (forall j :: 0 <= j < |chosen| && chosen[j] < n ==>
          addresses[chosen[j]] in memory && memory[addresses[chosen[j]]] == inputs[j].data)
    && (forall k :: 0 <= k < n && arguments[k].kind == Output ==>
          addresses[k] in memory && memory[addresses[k]] == seq(arguments[k].size, _ => 0))
  }

  lemma NothingLoaded(arguments: seq<Argument>, inputs: seq<CopiedInput>, chosen: seq<nat>,
                      memory: map<Address, seq<Byte>>, addresses: seq<Address>)
    requires Feeds(arguments, inputs, chosen) && |arguments| == |addresses|
    ensures Loaded(arguments, inputs, chosen, memory, addresses, 0)
  {
  }

  lemma LoadOne(arguments: seq<Argument>, inputs: seq<CopiedInput>, chosen: seq<nat>,
                memory: map<Address, seq<Byte>>, addresses: seq<Address>, k: nat, bytes: seq<Byte>)
    requires Feeds(arguments, inputs, chosen) && k < |arguments| == |addresses| && Distinct(addresses)
    requires Loaded(arguments, inputs, chosen, memory, addresses, k)
    requires forall j :: 0 <= j < |chosen| && chosen[j] == k ==> bytes == inputs[j].data
    requires arguments[k].kind == Output ==> bytes == seq(arguments[k].size, _ => 0)
    ensures Loaded(arguments, inputs, chosen, memory[addresses[k] := bytes], addresses, k + 1)
  {
  }

  lemma NoneOfKind(arguments: seq<Argument>, kind: Kind)
    ensures OfKind(arguments, kind, 0) == {}
  {
  }

  lemma OfKindNext(arguments: seq<Argument>, kind: Kind, k: nat)
    requires k < |arguments|
    ensures |OfKind(arguments, kind, k + 1)|
         == |OfKind(arguments, kind, k)| + if arguments[k].kind == kind then 1 else 0
  {
    var before, after := OfKind(arguments, kind, k), OfKind(arguments, kind, k + 1);
    assert k !in before;
    forall x ensures x in after <==> x in before || (x == k && arguments[k].kind == kind) {
    }
    hide OfKind;
    assert after == if arguments[k].kind == kind then before + {k} else before;
  }

  /** With as many inputs as the graph has, the selectors are a bijection onto its input arguments. */
  lemma FeedsEvery(arguments: seq<Argument>, inputs: seq<CopiedInput>, chosen: seq<nat>)
    requires Feeds(arguments, inputs, chosen) && |inputs| == |OfKind(arguments, Input)|
    ensures forall k: nat :: k in chosen <==> k < |arguments| && arguments[k].kind == Input
  {
    forall j | 0 <= j < |chosen| ensures chosen[j] in OfKind(arguments, Input) {
      assert FeedsOne(arguments, inputs[j], chosen[j]);
    }
    Pigeonhole(chosen, OfKind(arguments, Input));
  }

  lemma SomeInputFeeds(arguments: seq<Argument>, inputs: seq<CopiedInput>, chosen: seq<nat>, k: nat)
    requires Feeds(arguments, inputs, chosen) && k in chosen
    ensures k < |arguments|
    ensures exists i :: 0 <= i < |inputs| && Matches(inputs[i].index, inputs[i].name, arguments[k], k)
  {
  }

  lemma OnlyInputFor(arguments: seq<Argument>, inputs: seq<CopiedInput>, chosen: seq<nat>, k: nat, i: nat)
    requires Feeds(arguments, inputs, chosen) && k < |arguments| && arguments[k].kind == Input && i < |inputs|
    requires Matches(inputs[i].index, inputs[i].name, arguments[k], k)
    ensures |chosen| == |inputs| && |inputs[i].data| == arguments[k].size
    ensures forall j :: 0 <= j < |chosen| && chosen[j] == k ==> j == i
  {
  }

  /** What the input pass marked cannot be what stopped the output pass: the kinds differ. */
  lemma OutputsAvoidInputs(arguments: seq<Argument>, owner: nat, inputs: seq<Binding>, outputs: seq<Binding>,
                           free: seq<bool>, taken: seq<bool>, ins: seq<nat>, outs: seq<nat>)
    requires |free| == |taken| == |arguments|
    requires Assigns(arguments, owner, Input, inputs, free, ins)
    requires forall k :: 0 <= k < |arguments| ==> taken[k] == (free[k] || k in ins)
    ensures Assigns(arguments, owner, Output, outputs, free, outs)
       <==> Assigns(arguments, owner, Output, outputs, taken, outs)
  {
  }
}
