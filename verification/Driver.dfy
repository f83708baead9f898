/**
 The Level Zero driver as the inference session sees it.

 Every call may fail.  What a call demands of the queue, the command list and the fence is its
 precondition, so a caller that verifies obeys the driver protocol in every state it can reach.  A failed
 call on a list, fence or queue that already exists leaves the resources unusable.
 */
module Driver {
  import opened Bytes

  type Address = int

  const NULL: Address := 0

  /** A recorded graph command.  Appending captures the arguments bound at that moment. */
  datatype Command = Initialize(arguments: seq<Address>) | Execute(arguments: seq<Address>)

  datatype CommandList = NoList | Open(recorded: seq<Command>) | Closed(recorded: seq<Command>)

  datatype Fence = NoFence | Idle | Pending | Signaled

  /**
   `direct` lists the arguments bound at each direct initialization of the graph, in order;
   `submissionCalls` counts the calls issued on queue, list and fence, `refused` the calls that failed;
   `completed` lists the commands that ran and were waited for, in order; `launched` is the memory seen by the
   last submission.
   */
  datatype State = State(
    arguments: seq<Address>, direct: seq<seq<Address>>,
    queue: bool, list: CommandList, fence: Fence, unusable: bool,
    submissionCalls: nat, refused: nat, completed: seq<Command>,
    memory: map<Address, seq<Byte>>, launched: map<Address, seq<Byte>>)
  {
    function Answered(ok: bool): State {
      if ok then this else this.(refused := refused + 1)
    }

    function Called(ok: bool): State {
      Answered(ok).(submissionCalls := submissionCalls + 1)
    }
  }

  predicate SameLayout(before: map<Address, seq<Byte>>, after: map<Address, seq<Byte>>) {
    before.Keys == after.Keys && forall a :: a in before ==> |after[a]| == |before[a]|
  }

  predicate OnlyInitializes(commands: seq<Command>) {
    forall i :: 0 <= i < |commands| ==> commands[i].Initialize?
  }

  class Device {
    var state: State

    constructor (argumentCount: nat)
      ensures state == State(seq(argumentCount, _ => NULL), [], false, NoList, NoFence, false, 0, 0, [], map[], map[])
    {
      state := State(seq(argumentCount, _ => NULL), [], false, NoList, NoFence, false, 0, 0, [], map[], map[]);
    }

    /** A failed bind may or may not have changed that one argument. */
    method SetArgument(index: nat, value: Address) returns (ok: bool)
      requires index < |state.arguments|
      modifies this
      ensures |state.arguments| == old(|state.arguments|) && (ok ==> state.arguments[index] == value)
      ensures state == old(state).Answered(ok).(arguments := old(state.arguments)[index := state.arguments[index]])
    {
      ok := *;
      var bound: Address := *;
      state := state.Answered(ok).(arguments := state.arguments[index := if ok then value else bound]);
    }

    method InitializeGraph() returns (ok: bool)
      modifies this
      ensures
        state == if ok then old(state).(direct := old(state).direct + [old(state).arguments])
                 else old(state).Answered(false)
    {
      ok := *;
      state := if ok then state.(direct := state.direct + [state.arguments]) else state.Answered(false);
    }

    method CreateQueue() returns (ok: bool)
      requires !state.unusable && !state.queue
      modifies this
      ensures state == old(state).Called(ok).(queue := ok)
    {
      ok := *;
      state := state.Called(ok).(queue := ok);
    }

    method CreateList() returns (ok: bool)
      requires !state.unusable && state.list == NoList
      modifies this
      ensures state == old(state).Called(ok).(list := if ok then Open([]) else NoList)
    {
      ok := *;
      state := state.Called(ok).(list := if ok then Open([]) else NoList);
    }

    method CreateFence() returns (ok: bool)
      requires !state.unusable && state.queue && state.fence == NoFence
      modifies this
      ensures state == old(state).Called(ok).(fence := if ok then Idle else NoFence)
    {
      ok := *;
      state := state.Called(ok).(fence := if ok then Idle else NoFence);
    }

    /** A list may be reset only while nothing submitted from it can still be running. */
    method ResetList() returns (ok: bool)
      requires !state.unusable && state.list.Closed? && state.fence != Pending
      modifies this
      ensures state == old(state).Called(ok).(list := state.list, unusable := !ok)
      ensures ok ==> state.list == Open([])
    {
      ok := *;
      var left: CommandList := *;
      state := state.Called(ok).(list := if ok then Open([]) else left, unusable := !ok);
    }

    method ResetFence() returns (ok: bool)
      requires !state.unusable && state.fence == Signaled
      modifies this
      ensures state == old(state).Called(ok).(fence := state.fence, unusable := !ok)
      ensures ok ==> state.fence == Idle
    {
      ok := *;
      var left: Fence := *;
      state := state.Called(ok).(fence := if ok then Idle else left, unusable := !ok);
    }

    /** Appending is allowed only to an open, empty list. */
    method Append(initialize: bool) returns (ok: bool)
      requires !state.unusable && state.list == Open([])
      modifies this
      ensures state == old(state).Called(ok).(list := state.list, unusable := !ok)
      ensures ok ==> state.list == Open([if initialize then Initialize(state.arguments) else Execute(state.arguments)])
    {
      ok := *;
      var left: CommandList := *;
      var command := if initialize then Initialize(state.arguments) else Execute(state.arguments);
      state := state.Called(ok).(list := if ok then Open([command]) else left, unusable := !ok);
    }

    method CloseList() returns (ok: bool)
      requires !state.unusable && state.list.Open? && state.list.recorded != []
      modifies this
      ensures state == old(state).Called(ok).(list := state.list, unusable := !ok)
      ensures ok ==> state.list == Closed(old(state).list.recorded)
    {
      ok := *;
      var left: CommandList := *;
      state := state.Called(ok).(list := if ok then Closed(state.list.recorded) else left, unusable := !ok);
    }

    /** Only a closed list may be submitted, and only with a fence that is not already in use. */
    method ExecuteList() returns (ok: bool)
      requires !state.unusable && state.queue && state.list.Closed? && state.fence == Idle
      modifies this
      ensures state == old(state).Called(ok).(fence := state.fence, launched := old(state).memory, unusable := !ok)
      ensures ok ==> state.fence == Pending
    {
      ok := *;
      var left: Fence := *;
      state := state.Called(ok).(fence := if ok then Pending else left, launched := state.memory, unusable := !ok);
    }

    /**
     On success the submitted commands have completed.  An execute may have rewritten any tensor in place;
     an initialize touches no tensor.
     */
    method Wait() returns (ok: bool)
      requires !state.unusable && state.list.Closed? && state.fence == Pending
      modifies this
      ensures state == old(state).Called(ok).(
        fence := state.fence, unusable := !ok, memory := state.memory,
        completed := if ok then old(state).completed + old(state).list.recorded else old(state).completed)
      ensures ok ==> state.fence == Signaled
      ensures SameLayout(old(state).memory, state.memory)
      ensures OnlyInitializes(state.list.recorded) ==> state.memory == old(state).memory
    {
      ok := *;
      var left: Fence := *;
      var after: map<Address, seq<Byte>> := *;
      if OnlyInitializes(state.list.recorded) || !SameLayout(state.memory, after) {
        after := state.memory;
      }
      state := state.Called(ok).(
        fence := if ok then Signaled else left, unusable := !ok, memory := after,
        completed := if ok then state.completed + state.list.recorded else state.completed);
    }

    /** A successful allocation is a non-null address that nothing live occupies. */
    method AllocateHost(size: nat) returns (ok: bool, address: Address)
      modifies this
      ensures !ok ==> state == old(state).Answered(false)
      ensures ok ==> address !in old(state).memory && address != NULL
      ensures ok ==> state == old(state).(memory := old(state).memory[address := seq(size, _ => 0)])
    {
      ok := *;
      address := *;
      ok := ok && address !in state.memory && address != NULL;
      state := if ok then state.(memory := state.memory[address := seq(size, _ => 0)]) else state.Answered(false);
    }

    method Free(address: Address)
      requires address in state.memory
      modifies this
      ensures state == old(state).(memory := old(state).memory - {address})
    {
      state := state.(memory := state.memory - {address});
    }

    /** The host writes a whole tensor through its mapped address. */
    method Write(address: Address, bytes: seq<Byte>)
      requires address in state.memory && |state.memory[address]| == |bytes|
      modifies this
      ensures state == old(state).(memory := old(state).memory[address := bytes])
    {
      state := state.(memory := state.memory[address := bytes]);
    }
  }
}
