/**
 The inference session: lazy queue, list and fence, one recorded execute list that is replayed while the
 bound allocations do not change, and poisoning after a driver failure.
 */
module Session {
  import opened Wrappers
  import opened Bytes
  import opened Driver

  /** The driver call at which one inference can first fail. */
  datatype Phase = Setup | Run
  datatype Operation =
    QueueCreate | ListCreate | FenceCreate | ListReset | FenceReset | ListAppend | ListClose | QueueExecute | FenceWait
  datatype Point =
    | BindArgument(phase: Phase, index: nat)
    | DirectInitialize
    | Submission(phase: Phase, operation: Operation)

  datatype Status =
    | Ok
    | DriverFailed(point: Point)
    | Unusable
    | InitializeUnavailable
    | ListInitializeUnavailable
    | RecordingUnavailable

  /** What the graph demands before its first execution, and which entry points the driver offers. */
  datatype Stages = Stages(direct: bool, commandList: bool, hasInitialize: bool, hasAppendInitialize: bool)

  // ---------------------------------------------------------------------------------------------
  // The reference machine: it rebinds every argument and records a new list on every call.

  datatype Reference =
    | Poisoned(initialized: bool, direct: seq<seq<Address>>, completed: seq<Command>)
    | Usable(initialized: bool, direct: seq<seq<Address>>, completed: seq<Command>,
             queue: bool, list: bool, fence: bool, closed: bool, submitted: bool)

  function Poison(r: Reference): Reference {
    Poisoned(r.initialized, r.direct, r.completed)
  }

  function FreshReference(): Reference {
    Usable(false, [], [], false, false, false, false, false)
  }

  predicate Fails(fault: Option<Point>, phase: Phase, operation: Operation) {
    fault == Some(Submission(phase, operation))
  }

  function RecordAndRun(r: Reference, phase: Phase, command: Command,
                        fault: Option<Point>): (result: (Reference, Status))
    ensures r.Poisoned? ==> result == (r, Unusable)
    ensures result.0.initialized == r.initialized && result.0.direct == r.direct
    ensures result.0.completed == r.completed + if result.1 == Ok then [command] else []
    ensures result.1 == Ok ==> result.0.Usable? && result.0.fence
    ensures result.1 != RecordingUnavailable
  {
    if r.Poisoned? then (r, Unusable)
    else if !r.queue && Fails(fault, phase, QueueCreate) then (r, DriverFailed(fault.value))
    else if !r.list && Fails(fault, phase, ListCreate) then (r.(queue := true), DriverFailed(fault.value))
    else if !r.fence && Fails(fault, phase, FenceCreate) then
      (r.(queue := true, list := true), DriverFailed(fault.value))
    else if (r.closed && Fails(fault, phase, ListReset)) || (r.submitted && Fails(fault, phase, FenceReset))
      || Fails(fault, phase, ListAppend)
      || Fails(fault, phase, ListClose) || Fails(fault, phase, QueueExecute) || Fails(fault, phase, FenceWait) then
      (Poison(r), DriverFailed(fault.value))
    else
      (Usable(r.initialized, r.direct, r.completed + [command], true, true, true, true, true), Ok)
  }

  /** Where each fault leaves the reference machine. */
  lemma FaultOutcome(r: Reference, phase: Phase, command: Command, operation: Operation)
    requires r.Usable?
    requires match operation
      case QueueCreate => !r.queue
      case ListCreate => !r.list
      case FenceCreate => !r.fence
      case ListReset => r.closed
      case FenceReset => r.submitted
      case _ => true
    ensures RecordAndRun(r, phase, command, Some(Submission(phase, operation))) ==
      (match operation
       case QueueCreate => r
       case ListCreate => r.(queue := true)
       case FenceCreate => r.(queue := true, list := true)
       case _ => Poison(r),
       DriverFailed(Submission(phase, operation)))
  {
  }

  lemma FaultlessOutcome(r: Reference, phase: Phase, command: Command)
    requires r.Usable?
    ensures RecordAndRun(r, phase, command, None) ==
      (Usable(r.initialized, r.direct, r.completed + [command], true, true, true, true, true), Ok)
  {
  }

  /** Only a fault of their own creation tells whether queue, list and fence existed before. */
  lemma ExistingResources(r: Reference, phase: Phase, command: Command, fault: Option<Point>)
    requires r.Usable?
    requires fault.Some? && fault.value.Submission? ==> fault.value.operation !in {QueueCreate, ListCreate, FenceCreate}
    ensures RecordAndRun(r.(queue := true, list := true, fence := true), phase, command, fault)
         == RecordAndRun(r, phase, command, fault)
  {
  }

  function BindAll(phase: Phase, count: nat, fault: Option<Point>): Status {
    if fault.Some? && fault.value.BindArgument? && fault.value.phase == phase && fault.value.index < count
    then DriverFailed(fault.value) else Ok
  }

  function Prepare(r: Reference, stages: Stages, allocations: seq<Address>,
                   fault: Option<Point>): (result: (Reference, Status))
    ensures r.initialized ==> result == (r, Ok)
    ensures result.1 == Ok ==> result.0.initialized
    ensures r.Poisoned? ==> result.0.Poisoned?
    ensures result.1 != RecordingUnavailable
  {
    if r.initialized then (r, Ok)
    else if BindAll(Setup, |allocations|, fault) != Ok then (r, BindAll(Setup, |allocations|, fault))
    else if stages.direct && !stages.hasInitialize then (r, InitializeUnavailable)
    else if stages.direct && fault == Some(DirectInitialize) then (r, DriverFailed(DirectInitialize))
    else
      InitializeList(if stages.direct then r.(direct := r.direct + [allocations]) else r, stages, allocations, fault)
  }

  /** The second stage of preparation; it ends with an initialized graph if it succeeds. */
  function InitializeList(r: Reference, stages: Stages, allocations: seq<Address>,
                          fault: Option<Point>): (result: (Reference, Status))
    ensures result.1 == Ok ==> result.0.initialized
    ensures r.Poisoned? ==> result.0.Poisoned?
    ensures result.1 != RecordingUnavailable
  {
    if !stages.commandList then (r.(initialized := true), Ok)
    else if !stages.hasAppendInitialize then (r, ListInitializeUnavailable)
    else
      var (r', status) := RecordAndRun(r, Setup, Initialize(allocations), fault);
      if status == Ok then (r'.(initialized := true), Ok) else (r', status)
  }

  lemma PrepareIgnoresRunFaults(r: Reference, stages: Stages, allocations: seq<Address>, fault: Option<Point>)
    requires fault.Some? ==> fault.value != DirectInitialize && fault.value.phase == Run
    ensures Prepare(r, stages, allocations, fault) == Prepare(r, stages, allocations, None)
  {
  }

  /** One inference by the machine that never reuses a recording; `fault` is its first failing call. */
  function Infer(r: Reference, stages: Stages, allocations: seq<Address>, fault: Option<Point>): (Reference, Status) {
    var (r1, status) := Prepare(r, stages, allocations, fault);
    if status != Ok then (r1, status) else BindAndRun(r1, allocations, fault)
  }

  function BindAndRun(r: Reference, allocations: seq<Address>, fault: Option<Point>): (Reference, Status) {
    if BindAll(Run, |allocations|, fault) != Ok then (r, BindAll(Run, |allocations|, fault))
    else RecordAndRun(r, Run, Execute(allocations), fault)
  }

  /** A whole run of the reference machine: one status per request, each with its own first fault. */
  function InferAll(stages: Stages, requests: seq<seq<Address>>,
                    faults: seq<Option<Point>>): (run: (Reference, seq<Status>))
    requires |faults| == |requests|
    ensures |run.1| == |requests|
  {
    if requests == [] then (FreshReference(), [])
    else
      var last := |requests| - 1;
      var (r, statuses) := InferAll(stages, requests[..last], faults[..last]);
      var (r', status) := Infer(r, stages, requests[last], faults[last]);
      (r', statuses + [status])
  }

  lemma InferNone(stages: Stages)
    ensures InferAll(stages, [], []) == (FreshReference(), [])
  {
  }

  lemma InferOneMore(stages: Stages, requests: seq<seq<Address>>, faults: seq<Option<Point>>,
                     allocations: seq<Address>, fault: Option<Point>)
    requires |faults| == |requests|
    ensures
      var (r, statuses) := InferAll(stages, requests, faults);
      var (r', status) := Infer(r, stages, allocations, fault);
      InferAll(stages, requests + [allocations], faults + [fault]) == (r', statuses + [status])
  {
  }

  /** The requests that were answered with success, in order. */
  function Served(requests: seq<seq<Address>>, statuses: seq<Status>): seq<Command>
    requires |statuses| == |requests|
  {
    if requests == [] then []
    else
      var last := |requests| - 1;
      Served(requests[..last], statuses[..last]) + if statuses[last] == Ok then [Execute(requests[last])] else []
  }

  lemma PrepareCompletes(r: Reference, stages: Stages, allocations: seq<Address>, fault: Option<Point>)
    requires r.Poisoned? && !r.initialized ==> stages.commandList
    ensures
      var (r', status) := Prepare(r, stages, allocations, fault);
      && (status == Ok <==> r'.initialized) && (r.Poisoned? ==> r'.Poisoned?) && status != RecordingUnavailable
      && (r'.Poisoned? && !r'.initialized ==> stages.commandList)
      && (status == Ok && !r.initialized ==> r'.Usable?) && (status != Ok ==> !Prepared(status))
      && r'.completed == r.completed
         + (if !r.initialized && r'.initialized && stages.commandList then [Initialize(allocations)] else [])
      && r'.direct == r.direct
         + (if !r.initialized && stages.direct && stages.hasInitialize && !StoppedEarly(status) then [allocations]
            else [])
      && (!r.initialized && r'.initialized && stages.direct ==> r'.direct != [])
  {
    hide RecordAndRun;
    if !r.initialized && stages.commandList {
      var ready := if stages.direct then r.(direct := r.direct + [allocations]) else r;
      RecordShows(ready, Setup, Initialize(allocations), fault);
    }
  }

  lemma BindAndRunCompletes(r: Reference, allocations: seq<Address>, fault: Option<Point>)
    ensures
      var (r', status) := BindAndRun(r, allocations, fault);
      && r'.initialized == r.initialized && r'.direct == r.direct
      && (status == Ok ==> r'.Usable?) && (r.Poisoned? ==> r'.Poisoned? && status != Ok)
      && status != RecordingUnavailable
      && r'.completed == r.completed + if status == Ok then [Execute(allocations)] else []
  {
    hide RecordAndRun;
  }

  /** How a submission can end. */
  lemma RecordShows(r: Reference, phase: Phase, command: Command, fault: Option<Point>)
    ensures
      var (r', status) := RecordAndRun(r, phase, command, fault);
      || status == Ok || status == Unusable
      || (status.DriverFailed? && status.point.Submission? && status.point.phase == phase)
  {
  }

  /** After preparation a session that is not poisoned answers as one that got past it. */
  lemma RunShows(r: Reference, allocations: seq<Address>, fault: Option<Point>)
    ensures
      var (r', status) := BindAndRun(r, allocations, fault);
      && (r.Usable? ==> Prepared(status)) && !StoppedEarly(status)
  {
  }

  /**
   One step: what has completed grows by the request itself exactly when the answer is success, and each
   initialization in between saw this request's allocations.
   */
  lemma InferCompletes(r: Reference, stages: Stages, allocations: seq<Address>, fault: Option<Point>)
    requires r.Poisoned? && !r.initialized ==> stages.commandList
    ensures
      var (r', status) := Infer(r, stages, allocations, fault);
      && (r.initialized ==> r'.initialized) && (!r.initialized ==> (r'.initialized <==> Prepared(status)))
      && (status == Ok ==> r'.initialized && r'.Usable?) && (r.Poisoned? ==> r'.Poisoned? && status != Ok)
      && (r'.Poisoned? && !r'.initialized ==> stages.commandList) && status != RecordingUnavailable
      && r'.completed == r.completed
         + (if !r.initialized && r'.initialized && stages.commandList then [Initialize(allocations)] else [])
         + (if status == Ok then [Execute(allocations)] else [])
      && r'.direct == r.direct
         + (if !r.initialized && stages.direct && stages.hasInitialize && !StoppedEarly(status) then [allocations]
            else [])
      && (!r.initialized && r'.initialized && stages.direct ==> r'.direct != [])
  {
    hide Prepare, BindAndRun;
    PrepareCompletes(r, stages, allocations, fault);
    var ready := Prepare(r, stages, allocations, fault).0;
    BindAndRunCompletes(ready, allocations, fault);
    RunShows(ready, allocations, fault);
  }

  // ---------------------------------------------------------------------------------------------
  // What the answers of a run tell.

  /** Answers of a request that got past preparation. */
  predicate Prepared(status: Status) {
    status == Ok || (status.DriverFailed? && status.point != DirectInitialize && status.point.phase == Run)
  }

  /** Answers of a request that stopped before direct initialization was done. */
  predicate StoppedEarly(status: Status) {
    && status.DriverFailed?
    && (status.point == DirectInitialize || (status.point.BindArgument? && status.point.phase == Setup))
  }

  ghost predicate AnyPrepared(statuses: seq<Status>) {
    exists i :: 0 <= i < |statuses| && Prepared(statuses[i])
  }

  /** The request that got the graph past preparation. */
  ghost function FirstPrepared(statuses: seq<Status>): (first: nat)
    requires AnyPrepared(statuses)
    ensures first < |statuses| && Prepared(statuses[first]) && forall i :: 0 <= i < first ==> !Prepared(statuses[i])
  {
    var last := |statuses| - 1;
    if AnyPrepared(statuses[..last]) then FirstPrepared(statuses[..last]) else last
  }

  /** The list initialization, with the arguments of the request that got past preparation. */
  ghost function Prologue(stages: Stages, requests: seq<seq<Address>>, statuses: seq<Status>): seq<Command>
    requires |statuses| == |requests|
  {
    if stages.commandList && AnyPrepared(statuses) then [Initialize(requests[FirstPrepared(statuses)])] else []
  }

  /** The requests, up to the first that got past preparation, that did not stop early. */
  ghost function DirectRequests(requests: seq<seq<Address>>, statuses: seq<Status>): seq<seq<Address>>
    requires |statuses| == |requests|
  {
    if statuses == [] then []
    else
      var last := |statuses| - 1;
      DirectRequests(requests[..last], statuses[..last])
      + if AnyPrepared(statuses[..last]) || StoppedEarly(statuses[last]) then [] else [requests[last]]
  }

  /**
   Initialization came first and saw the arguments of the request that performed it, and what completed since
   is exactly what was answered with success.
   */
  ghost predicate Accounted(stages: Stages, r: Reference, requests: seq<seq<Address>>, statuses: seq<Status>)
    requires |statuses| == |requests|
  {
    && RecordingUnavailable !in statuses
    && (r.initialized <==> AnyPrepared(statuses)) && (r.Poisoned? && !r.initialized ==> stages.commandList)
    && (r.initialized && stages.direct ==> r.direct != [])
    && r.completed == Prologue(stages, requests, statuses) + Served(requests, statuses)
    && r.direct == if stages.direct && stages.hasInitialize then DirectRequests(requests, statuses) else []
  }

  lemma PreparedLast(statuses: seq<Status>, status: Status)
    ensures AnyPrepared(statuses + [status]) <==> AnyPrepared(statuses) || Prepared(status)
  {
    var longer := statuses + [status];
    assert longer[|statuses|] == status && forall i :: 0 <= i < |statuses| ==> longer[i] == statuses[i];
  }

  lemma PrologueLast(stages: Stages, requests: seq<seq<Address>>, statuses: seq<Status>, allocations: seq<Address>,
                     status: Status)
    requires |statuses| == |requests|
    ensures Prologue(stages, requests + [allocations], statuses + [status])
         == if stages.commandList && !AnyPrepared(statuses) && Prepared(status) then [Initialize(allocations)]
            else Prologue(stages, requests, statuses)
  {
    PreparedLast(statuses, status);
    assert (statuses + [status])[..|statuses|] == statuses;
  }

  lemma DirectLast(requests: seq<seq<Address>>, statuses: seq<Status>, allocations: seq<Address>, status: Status)
    requires |statuses| == |requests|
    ensures DirectRequests(requests + [allocations], statuses + [status])
         == DirectRequests(requests, statuses)
            + if AnyPrepared(statuses) || StoppedEarly(status) then [] else [allocations]
  {
    assert (statuses + [status])[..|statuses|] == statuses && (requests + [allocations])[..|requests|] == requests;
  }

  lemma ServedLast(requests: seq<seq<Address>>, statuses: seq<Status>, allocations: seq<Address>, status: Status)
    requires |statuses| == |requests|
    ensures Served(requests + [allocations], statuses + [status])
         == Served(requests, statuses) + if status == Ok then [Execute(allocations)] else []
  {
  }

  lemma AccountedStep(stages: Stages, r: Reference, requests: seq<seq<Address>>, statuses: seq<Status>,
                      allocations: seq<Address>, fault: Option<Point>)
    requires |statuses| == |requests| && Accounted(stages, r, requests, statuses)
    ensures
      var (r', status) := Infer(r, stages, allocations, fault);
      Accounted(stages, r', requests + [allocations], statuses + [status])
  {
    hide Infer, Served, Prologue, DirectRequests, AnyPrepared, Prepared, StoppedEarly;
    InferCompletes(r, stages, allocations, fault);
    var (r', status) := Infer(r, stages, allocations, fault);
    ServedLast(requests, statuses, allocations, status);
    PrologueLast(stages, requests, statuses, allocations, status);
    DirectLast(requests, statuses, allocations, status);
    PreparedLast(statuses, status);
    if !r.initialized {
      NothingBefore(stages, requests, statuses);
    }
  }

  /** Before any request got past preparation nothing was completed. */
  lemma NothingBefore(stages: Stages, requests: seq<seq<Address>>, statuses: seq<Status>)
    requires |statuses| == |requests| && !AnyPrepared(statuses)
    ensures Prologue(stages, requests, statuses) == [] && Served(requests, statuses) == []
  {
    hide Served;
    assert forall i :: 0 <= i < |statuses| ==> !Prepared(statuses[i]);
    NothingServed(requests, statuses);
  }

  /**
   Over every run and every pattern of failures, the device completes the graph's initialization first, with the
   arguments of the request that performed it, and then exactly the requests answered with success, in order; no
   run answers with an unavailable recording.
   */
  lemma {:induction false} RunCompletesExactlyWhatItAnswers(
      stages: Stages, requests: seq<seq<Address>>, faults: seq<Option<Point>>)
    requires |faults| == |requests|
    ensures
      var (r, statuses) := InferAll(stages, requests, faults);
      Accounted(stages, r, requests, statuses)
  {
    if requests != [] {
      hide Accounted, Infer;
      var last := |requests| - 1;
      RunCompletesExactlyWhatItAnswers(stages, requests[..last], faults[..last]);
      var (r, statuses) := InferAll(stages, requests[..last], faults[..last]);
      AccountedStep(stages, r, requests[..last], statuses, requests[last], faults[last]);
      assert requests[..last] + [requests[last]] == requests;
    }
  }

  lemma {:induction false} NothingServed(requests: seq<seq<Address>>, statuses: seq<Status>)
    requires |statuses| == |requests| && Ok !in statuses
    ensures Served(requests, statuses) == []
  {
    if requests != [] {
      var last := |requests| - 1;
      NothingServed(requests[..last], statuses[..last]);
    }
  }

  /** Once poisoned, always poisoned: every later request is refused and nothing more completes. */
  lemma {:induction false} PoisonIsFinal(stages: Stages, requests: seq<seq<Address>>, faults: seq<Option<Point>>,
                                         n: nat)
    requires |faults| == |requests| && n <= |requests|
    requires InferAll(stages, requests[..n], faults[..n]).0.Poisoned?
    ensures
      var (r, statuses) := InferAll(stages, requests, faults);
      && r.Poisoned? && (forall i :: n <= i < |requests| ==> statuses[i] != Ok)
      && Served(requests, statuses) == Served(requests[..n], InferAll(stages, requests[..n], faults[..n]).1)
    decreases |requests|
  {
    hide Infer, InferAll, Served;
    if n == |requests| {
      assert requests[..n] == requests && faults[..n] == faults;
    } else {
      var last := |requests| - 1;
      var earlier, before := requests[..last], faults[..last];
      assert earlier[..n] == requests[..n] && before[..n] == faults[..n];
      PoisonIsFinal(stages, earlier, before, n);
      var (r, statuses) := InferAll(stages, earlier, before);
      var (r', status) := Infer(r, stages, requests[last], faults[last]);
      RunCompletesExactlyWhatItAnswers(stages, earlier, before);
      InferCompletes(r, stages, requests[last], faults[last]);
      InferOneMore(stages, earlier, before, requests[last], faults[last]);
      ServedLast(earlier, statuses, requests[last], status);
      assert earlier + [requests[last]] == requests && before + [faults[last]] == faults;
    }
  }

  // ---------------------------------------------------------------------------------------------
  // How often the graph is initialized directly.

  /** Without a command-list stage the first direct initialization is the last. */
  lemma {:induction false} DirectOnceWithoutList(stages: Stages, requests: seq<seq<Address>>,
                                                 faults: seq<Option<Point>>)
    requires |faults| == |requests| && !(stages.direct && stages.hasInitialize && stages.commandList)
    ensures
      var r := InferAll(stages, requests, faults).0;
      |r.direct| <= (if r.initialized then 1 else 0)
  {
    if requests != [] {
      hide RecordAndRun;
      var last := |requests| - 1;
      DirectOnceWithoutList(stages, requests[..last], faults[..last]);
    }
  }

  /** With one, failing to create the queue in the list stage is enough to repeat it. */
  lemma DirectInitializationCanRepeat(hasAppendInitialize: bool)
    ensures
      var stages := Stages(true, true, true, hasAppendInitialize);
      InferAll(stages, [[], []], [Some(Submission(Setup, QueueCreate)), None]).0.direct == [[], []]
  {
    var stages := Stages(true, true, true, hasAppendInitialize);
    var fault := Some(Submission(Setup, QueueCreate));
    var none: seq<seq<Address>>, unfaulted: seq<Option<Point>> := [], [];
    InferNone(stages);
    InferOneMore(stages, none, unfaulted, [], fault);
    InferOneMore(stages, none + [[]], unfaulted + [fault], [], None);
    assert none + [[]] + [[]] == [[], []] && unfaulted + [fault] + [None] == [fault, None];
  }

  /**
   Direct initialization runs at most once in every run of a graph exactly when the graph does not have both
   stages: a list stage after a direct one can fail, with or without poisoning the session, or be unavailable,
   and the next request then starts over.
   */
  lemma DirectInitializationOnce(stages: Stages)
    ensures (forall requests, faults | |faults| == |requests| :: |InferAll(stages, requests, faults).0.direct| <= 1)
       <==> !(stages.direct && stages.hasInitialize && stages.commandList)
  {
    hide InferAll;
    if stages.direct && stages.hasInitialize && stages.commandList {
      DirectInitializationCanRepeat(stages.hasAppendInitialize);
      assert |InferAll(stages, [[], []], [Some(Submission(Setup, QueueCreate)), None]).0.direct| > 1;
    } else {
      forall requests, faults | |faults| == |requests| ensures |InferAll(stages, requests, faults).0.direct| <= 1 {
        DirectOnceWithoutList(stages, requests, faults);
      }
    }
  }

  // ---------------------------------------------------------------------------------------------
  // The session itself.

  /** Nothing was run, bound or written between two device states. */
  ghost predicate SameRun(before: State, after: State) {
    && after.arguments == before.arguments && after.direct == before.direct
    && after.completed == before.completed && after.memory == before.memory
  }

  const MAX_ARGUMENTS: nat := 64

  /** The refused calls that failing here accounts for. */
  function Refusals<T>(failed: Option<T>): nat {
    if failed == None then 0 else 1
  }

  function AllRefusals(faults: seq<Option<Point>>): nat {
    if faults == [] then 0 else AllRefusals(faults[..|faults| - 1]) + Refusals(faults[|faults| - 1])
  }

  class Session {
    const device: Device
    const argumentCount: nat
    const stages: Stages
    var initialized: bool
    var queue: bool
    var list: bool
    var fence: bool
    var listClosed: bool
    var fenceSubmitted: bool
    var listRecorded: bool
    var executeAllocations: seq<Address>
    var submissionFailed: bool

    ghost predicate Valid()
      reads this, device
    {
      ValidWith(device.state)
    }

    ghost predicate ValidWith(state: State)
      reads this
    {
      && |state.arguments| == argumentCount == |executeAllocations| <= MAX_ARGUMENTS
      && submissionFailed == state.unusable
      && (listRecorded ==> initialized)
      && (!submissionFailed ==>
        && queue == state.queue && list == (state.list != NoList) && fence == (state.fence != NoFence)
        && (fence ==> queue && list) && (list ==> queue)
        && listClosed == state.list.Closed?
        && (state.list.Open? ==> state.list.recorded == [])
        && fenceSubmitted == (state.fence == Signaled) && state.fence != Pending
        && (listRecorded ==> fence && state.list == Closed([Execute(executeAllocations)])))
    }

    /** The session as the reference machine sees it: the recording itself is not observable. */
    ghost function Observed(): Reference
      reads this, device
    {
      ObservedWith(device.state)
    }

    ghost function ObservedWith(state: State): Reference
      reads this
    {
      if submissionFailed then Poisoned(initialized, state.direct, state.completed)
      else Usable(initialized, state.direct, state.completed, queue, list, fence, listClosed, fenceSubmitted)
    }

    /** Tensor contents and the number of refused calls are no part of the session's own state. */
    lemma MemoryDoesNotMatter(state: State, memory: map<Address, seq<Byte>>, refused: nat)
      ensures ValidWith(state.(memory := memory, refused := refused)) == ValidWith(state)
      ensures ObservedWith(state.(memory := memory, refused := refused)) == ObservedWith(state)
    {
    }

    constructor (device: Device, argumentCount: nat, stages: Stages)
      requires |device.state.arguments| == argumentCount <= MAX_ARGUMENTS
      requires !device.state.queue && device.state.list == NoList && device.state.fence == NoFence
      requires !device.state.unusable
      ensures Valid() && this.device == device && this.argumentCount == argumentCount && this.stages == stages
      ensures Observed()
        == FreshReference().(direct := device.state.direct, completed := device.state.completed)
    {
      this.device, this.argumentCount, this.stages := device, argumentCount, stages;
      executeAllocations := seq(argumentCount, _ => 0);
      initialized, queue, list, fence := false, false, false, false;
      listClosed, fenceSubmitted, listRecorded, submissionFailed := false, false, false, false;
    }

    // The parts of one submission.  Each names the call that failed.

    method CreateResources() returns (failed: Option<Operation>)
      requires Valid() && !submissionFailed
      modifies this`queue, this`list, this`fence, device
      ensures Valid() && SameRun(old(device.state), device.state)
      ensures failed == None ==> queue && list && fence
      ensures failed == Some(QueueCreate) ==> !old(queue) && !queue && list == old(list) && fence == old(fence)
      ensures failed == Some(ListCreate) ==> !old(list) && queue && !list && fence == old(fence)
      ensures failed == Some(FenceCreate) ==> !old(fence) && queue && list && !fence
      ensures failed.Some? ==> failed.value.QueueCreate? || failed.value.ListCreate? || failed.value.FenceCreate?
      ensures device.state.refused == old(device.state).refused + Refusals(failed)
    {
      var ok: bool;
      if !queue {
        ok := device.CreateQueue();
        queue := ok;
        if !ok {
          return Some(QueueCreate);
        }
      }
      if !list {
        ok := device.CreateList();
        list := ok;
        if !ok {
          return Some(ListCreate);
        }
      }
      if !fence {
        ok := device.CreateFence();
        fence := ok;
        if !ok {
          return Some(FenceCreate);
        }
      }
      failed := None;
    }

    method Reset(reuse: bool) returns (failed: Option<Operation>)
      requires Valid() && !submissionFailed && fence
      modifies this`listClosed, this`fenceSubmitted, this`submissionFailed, device
      ensures SameRun(old(device.state), device.state) && device.state.queue
      ensures submissionFailed == device.state.unusable == (failed != None)
      ensures failed == None ==> device.state.fence == Idle && !fenceSubmitted
      ensures failed == None ==> device.state.list == (if reuse then old(device.state).list else Open([]))
      ensures failed == None ==> listClosed == (reuse && old(listClosed))
      ensures failed == Some(ListReset) ==> !reuse && old(listClosed)
      ensures failed == Some(FenceReset) ==> old(fenceSubmitted)
      ensures failed.Some? ==> failed.value.ListReset? || failed.value.FenceReset?
      ensures device.state.refused == old(device.state).refused + Refusals(failed)
    {
      var ok: bool;
      if !reuse && listClosed {
        ok := device.ResetList();
        if !ok {
          submissionFailed := true;
          return Some(ListReset);
        }
        listClosed := false;
      }
      if fenceSubmitted {
        ok := device.ResetFence();
        if !ok {
          submissionFailed := true;
          return Some(FenceReset);
        }
        fenceSubmitted := false;
      }
      failed := None;
    }

    method Record(initialize: bool) returns (failed: Option<Operation>)
      requires !submissionFailed && !device.state.unusable && device.state.list == Open([]) && !listClosed
      modifies this`listClosed, this`submissionFailed, device
      ensures SameRun(old(device.state), device.state)
      ensures device.state.queue == old(device.state).queue && device.state.fence == old(device.state).fence
      ensures submissionFailed == device.state.unusable == (failed != None)
      ensures failed == None ==>
        && listClosed
        && device.state.list
           == Closed([if initialize then Initialize(device.state.arguments) else Execute(device.state.arguments)])
      ensures failed.Some? ==> failed.value.ListAppend? || failed.value.ListClose?
      ensures device.state.refused == old(device.state).refused + Refusals(failed)
    {
      var ok := device.Append(initialize);
      if !ok {
        submissionFailed := true;
        return Some(ListAppend);
      }
      ok := device.CloseList();
      if !ok {
        submissionFailed := true;
        return Some(ListClose);
      }
      listClosed := true;
      failed := None;
    }

    method Launch() returns (failed: Option<Operation>)
      requires !submissionFailed && !device.state.unusable && device.state.queue
      requires device.state.list.Closed? && device.state.fence == Idle
      modifies this`fenceSubmitted, this`submissionFailed, device
      ensures device.state.arguments == old(device.state).arguments
      ensures device.state.direct == old(device.state).direct
      ensures submissionFailed == device.state.unusable == (failed != None)
      ensures device.state.queue && device.state.list == old(device.state).list
      ensures failed == None ==> fenceSubmitted && device.state.fence == Signaled
      ensures failed == None ==> device.state.launched == old(device.state).memory
      ensures device.state.completed == old(device.state).completed + if failed == None then
        device.state.list.recorded
        else []
      ensures SameLayout(old(device.state).memory, device.state.memory)
      ensures OnlyInitializes(device.state.list.recorded) ==> device.state.memory == old(device.state).memory
      ensures failed.Some? ==> failed.value.QueueExecute? || failed.value.FenceWait?
      ensures device.state.refused == old(device.state).refused + Refusals(failed)
    {
      var ok := device.ExecuteList();
      if !ok {
        submissionFailed := true;
        return Some(QueueExecute);
      }
      fenceSubmitted := true;
      ok := device.Wait();
      if !ok {
        submissionFailed := true;
        return Some(FenceWait);
      }
      failed := None;
    }

    /** Once the resources exist: reset, record unless reusing, run and wait.  Any failure poisons. */
    method RunList(initialize: bool, reuse: bool) returns (failed: Option<Operation>)
      requires Valid() && !submissionFailed && fence
      requires if reuse then !initialize && listRecorded else !listRecorded
      modifies this`listClosed, this`fenceSubmitted, this`submissionFailed, device
      ensures Valid() && submissionFailed == (failed != None)
      ensures device.state.arguments == old(device.state).arguments
      ensures failed.Some? ==>
        && !failed.value.QueueCreate? && !failed.value.ListCreate? && !failed.value.FenceCreate?
        && (failed.value == ListReset ==> old(listClosed)) && (failed.value == FenceReset ==> old(fenceSubmitted))
        && Observed() == Poison(old(Observed()))
      ensures failed == None ==>
        var command := if initialize then Initialize(device.state.arguments)
                       else if reuse then Execute(executeAllocations) else Execute(device.state.arguments);
        && Observed() == Usable(initialized, old(device.state).direct, old(device.state).completed + [command],
                                true, true, true, true, true)
        && device.state.list == Closed([command])
        && device.state.launched == old(device.state).memory
      ensures SameLayout(old(device.state).memory, device.state.memory)
      ensures initialize ==> device.state.memory == old(device.state).memory
      ensures device.state.refused == old(device.state).refused + Refusals(failed)
    {
      failed := Reset(reuse);
      if failed == None && !reuse {
        failed := Record(initialize);
      }
      if failed == None {
        failed := Launch();
      }
    }

    /**
     Lazily creates the resources, records the list unless a recording is reused, runs it and waits.
     `fault` names the call that failed, if any.
     */
    method Submit(initialize: bool, reuse: bool) returns (status: Status, ghost fault: Option<Point>)
      requires Valid()
      requires !reuse ==> !listRecorded
      modifies this`queue, this`list, this`fence, this`listClosed, this`fenceSubmitted, this`submissionFailed, device
      ensures Valid() && device.state.arguments == old(device.state).arguments
      ensures (reuse ==> !initialize && listRecorded) ==>
        (Observed(), status) == RecordAndRun(old(Observed()), if initialize then Setup else Run,
                                             if initialize then Initialize(device.state.arguments)
                                             else if reuse then Execute(executeAllocations)
                                             else Execute(device.state.arguments), fault)
      ensures status == Ok && !reuse && !initialize ==> device.state.list == Closed([Execute(device.state.arguments)])
      ensures old(submissionFailed) ==> device.state == old(device.state)
      ensures fault.Some? ==> fault.value.Submission? && fault.value.phase == if initialize then Setup else Run
      ensures status == Ok ==> fault == None && device.state.launched == old(device.state).memory
      ensures SameLayout(old(device.state).memory, device.state.memory)
      ensures initialize && !reuse ==> device.state.memory == old(device.state).memory
      ensures device.state.refused == old(device.state).refused + Refusals(fault)
      ensures status.DriverFailed? <==> fault.Some?
    {
      hide RecordAndRun;
      if submissionFailed {
        return Unusable, None;
      }
      var phase := if initialize then Setup else Run;
      ghost var command := if initialize then Initialize(device.state.arguments)
                           else if reuse then Execute(executeAllocations) else Execute(device.state.arguments);
      var failed := CreateResources();
      if failed.Some? {
        FaultOutcome(old(Observed()), phase, command, failed.value);
        return DriverFailed(Submission(phase, failed.value)), Some(Submission(phase, failed.value));
      }
      if reuse && (initialize || !listRecorded || !listClosed) {
        return RecordingUnavailable, None;
      }
      status, fault := SubmitList(initialize, reuse);
      ExistingResources(old(Observed()), phase, command, fault);
    }

    /** The submission once queue, list and fence exist. */
    method SubmitList(initialize: bool, reuse: bool) returns (status: Status, ghost fault: Option<Point>)
      requires Valid() && !submissionFailed && fence
      requires if reuse then !initialize && listRecorded else !listRecorded
      modifies this`listClosed, this`fenceSubmitted, this`submissionFailed, device
      ensures Valid() && device.state.arguments == old(device.state).arguments
      ensures (Observed(), status) == RecordAndRun(old(Observed()), if initialize then Setup else Run,
                                                   if initialize then Initialize(device.state.arguments)
                                                   else if reuse then Execute(executeAllocations)
                                                   else Execute(device.state.arguments), fault)
      ensures status == Ok && !reuse && !initialize ==> device.state.list == Closed([Execute(device.state.arguments)])
      ensures fault.Some? ==> fault.value.Submission? && fault.value.phase == if initialize then Setup else Run
      ensures fault.Some? ==> fault.value.operation !in {QueueCreate, ListCreate, FenceCreate}
      ensures status == Ok ==> fault == None && device.state.launched == old(device.state).memory
      ensures SameLayout(old(device.state).memory, device.state.memory)
      ensures initialize ==> device.state.memory == old(device.state).memory
      ensures device.state.refused == old(device.state).refused + Refusals(fault)
      ensures status.DriverFailed? <==> fault.Some?
    {
      hide RecordAndRun;
      var phase := if initialize then Setup else Run;
      ghost var command := if initialize then Initialize(device.state.arguments)
                           else if reuse then Execute(executeAllocations) else Execute(device.state.arguments);
      var failed := RunList(initialize, reuse);
      if failed.Some? {
        FaultOutcome(old(Observed()), phase, command, failed.value);
        return DriverFailed(Submission(phase, failed.value)), Some(Submission(phase, failed.value));
      }
      FaultlessOutcome(old(Observed()), phase, command);
      status, fault := Ok, None;
    }

    /** Binds every argument in order, stopping at the first refusal. */
    method BindArguments(phase: Phase, allocations: seq<Address>) returns (status: Status, ghost fault: Option<Point>)
      requires |device.state.arguments| == |allocations|
      modifies device
      ensures device.state == old(device.state).(arguments := device.state.arguments, refused := device.state.refused)
      ensures |device.state.arguments| == |allocations|
      ensures status == BindAll(phase, |allocations|, fault)
      ensures status == Ok ==> fault == None && device.state.arguments == allocations
      ensures fault.Some? ==> fault.value.BindArgument? && fault.value.phase == phase
      ensures device.state.refused == old(device.state).refused + Refusals(fault)
      ensures status.DriverFailed? <==> fault.Some?
    {
      for index := 0 to |allocations|
        invariant device.state == old(device.state).(arguments := device.state.arguments)
        invariant |device.state.arguments| == |allocations|
        invariant device.state.arguments[..index] == allocations[..index]
      {
        var ok := device.SetArgument(index, allocations[index]);
        if !ok {
          return DriverFailed(BindArgument(phase, index)), Some(BindArgument(phase, index));
        }
      }
      status, fault := Ok, None;
    }

    /** The work before the first execution; it is repeated on later calls until it succeeds once. */
    method PrepareGraph(allocations: seq<Address>) returns (status: Status, ghost fault: Option<Point>)
      requires Valid() && !listRecorded && !initialized && |allocations| == argumentCount
      modifies this, device
      ensures Valid() && !listRecorded
      ensures (Observed(), status) == Prepare(old(Observed()), stages, allocations, fault)
      ensures status == Ok ==> fault == None
      ensures device.state.memory == old(device.state).memory
      ensures old(submissionFailed) ==>
        submissionFailed && device.state.submissionCalls == old(device.state).submissionCalls
      ensures device.state.refused == old(device.state).refused + Refusals(fault)
      ensures status.DriverFailed? <==> fault.Some?
    {
      hide InitializeList;
      status, fault := BindArguments(Setup, allocations);
      if status != Ok {
        return;
      }
      if stages.direct {
        if !stages.hasInitialize {
          return InitializeUnavailable, None;
        }
        var ok := device.InitializeGraph();
        if !ok {
          return DriverFailed(DirectInitialize), Some(DirectInitialize);
        }
      }
      status, fault := PrepareList();
    }

    /** The list stage, with the arguments as they are bound. */
    method PrepareList() returns (status: Status, ghost fault: Option<Point>)
      requires Valid() && !listRecorded && !initialized
      modifies this, device
      ensures Valid() && !listRecorded
      ensures (Observed(), status) == InitializeList(old(Observed()), stages, device.state.arguments, fault)
      ensures device.state.arguments == old(device.state).arguments
      ensures status == Ok ==> fault == None
      ensures fault.Some? ==> fault.value.Submission? && fault.value.phase == Setup
      ensures device.state.memory == old(device.state).memory
      ensures old(submissionFailed) ==>
        submissionFailed && device.state.submissionCalls == old(device.state).submissionCalls
      ensures device.state.refused == old(device.state).refused + Refusals(fault)
      ensures status.DriverFailed? <==> fault.Some?
    {
      hide RecordAndRun;
      if stages.commandList {
        if !stages.hasAppendInitialize {
          return ListInitializeUnavailable, None;
        }
        status, fault := Submit(true, false);
        if status != Ok {
          return;
        }
      }
      initialized := true;
      status, fault := Ok, None;
    }

    /** The recording may be replayed only for the very allocations it was recorded with. */
    method CanReuse(allocations: seq<Address>) returns (reuse: bool)
      requires Valid() && |allocations| == argumentCount
      ensures reuse <==> initialized && listRecorded && executeAllocations == allocations
    {
      reuse := initialized && listRecorded;
      if reuse {
        for index := 0 to argumentCount
          invariant executeAllocations[..index] == allocations[..index]
        {
          if executeAllocations[index] != allocations[index] {
            return false;
          }
        }
      }
    }

    /**
     One inference.  Whatever the session has recorded, it behaves as the reference machine does when the
     same call is the first to fail; and a poisoned session issues no queue, list or fence call at all.
     */
    method ExecuteAllocations(allocations: seq<Address>) returns (status: Status, ghost fault: Option<Point>)
      requires Valid() && |allocations| == argumentCount
      modifies this, device
      ensures Valid()
      ensures (Observed(), status) == Infer(old(Observed()), stages, allocations, fault)
      ensures status == Ok ==> device.state.launched == old(device.state).memory
      ensures SameLayout(old(device.state).memory, device.state.memory)
      ensures old(submissionFailed) ==>
        submissionFailed && device.state.submissionCalls == old(device.state).submissionCalls
      ensures device.state.refused == old(device.state).refused + Refusals(fault)
      ensures status.DriverFailed? <==> fault.Some?
    {
      hide RecordAndRun, Prepare, BindAndRun;
      var reuse := CanReuse(allocations);
      if !initialized {
        status, fault := PrepareGraph(allocations);
        if status != Ok {
          return;
        }
      }
      status, fault := ExecutePrepared(allocations, reuse);
      PrepareIgnoresRunFaults(old(Observed()), stages, allocations, fault);
    }

    /** The inference proper: bind and record unless the recording can be replayed, then run the list. */
    method ExecutePrepared(allocations: seq<Address>, reuse: bool) returns (status: Status, ghost fault: Option<Point>)
      requires Valid() && initialized && |allocations| == argumentCount
      requires reuse ==> listRecorded && executeAllocations == allocations
      modifies this, device
      ensures Valid()
      ensures (Observed(), status) == BindAndRun(old(Observed()), allocations, fault)
      ensures fault.Some? ==> fault.value != DirectInitialize && fault.value.phase == Run
      ensures status == Ok ==> device.state.launched == old(device.state).memory
      ensures SameLayout(old(device.state).memory, device.state.memory)
      ensures old(submissionFailed) ==>
        submissionFailed && device.state.submissionCalls == old(device.state).submissionCalls
      ensures device.state.refused == old(device.state).refused + Refusals(fault)
      ensures status.DriverFailed? <==> fault.Some?
    {
      hide RecordAndRun;
      if !reuse {
        listRecorded := false;
        status, fault := BindArguments(Run, allocations);
        if status != Ok {
          return;
        }
      }
      status, fault := Submit(false, reuse);
      if status == Ok && !reuse {
        executeAllocations := allocations;
        listRecorded := true;
      }
    }

    lemma ObservedProgress()
      requires Valid()
      ensures Observed().initialized == initialized && Observed().completed == device.state.completed
      ensures Observed().direct == device.state.direct
    {
    }

    /**
     Any sequence of requests on a new session: the answers, and everything the device completed, are those
     of the reference machine under the same faults.  The device's own record shows that every initialization,
     direct or through the list, saw exactly the allocations of the request that performed it.
     */
    method Serve(requests: seq<seq<Address>>) returns (statuses: seq<Status>, ghost faults: seq<Option<Point>>)
      requires Valid() && Observed() == FreshReference()
      requires forall i :: 0 <= i < |requests| ==> |requests[i]| == argumentCount
      modifies this, device
      ensures Valid() && |statuses| == |faults| == |requests|
      ensures (Observed(), statuses) == InferAll(stages, requests, faults)
      ensures device.state.completed == Prologue(stages, requests, statuses) + Served(requests, statuses)
      ensures device.state.direct
        == if stages.direct && stages.hasInitialize then DirectRequests(requests, statuses) else []
      ensures device.state.refused == old(device.state).refused + AllRefusals(faults)
      ensures forall i :: 0 <= i < |requests| ==> (statuses[i].DriverFailed? <==> faults[i].Some?)
    {
      hide Infer, InferAll, Valid, ValidWith, Observed, FreshReference, Served, Prologue, DirectRequests;
      statuses, faults := [], [];
      InferNone(stages);
      for index := 0 to |requests|
        invariant Valid() && |statuses| == |faults| == index
        invariant (Observed(), statuses) == InferAll(stages, requests[..index], faults)
        invariant device.state.refused == old(device.state).refused + AllRefusals(faults)
        invariant forall i :: 0 <= i < index ==> (statuses[i].DriverFailed? <==> faults[i].Some?)
      {
        var status, fault := ExecuteAllocations(requests[index]);
        InferOneMore(stages, requests[..index], faults, requests[index], fault);
        assert requests[..index + 1] == requests[..index] + [requests[index]];
        assert (faults + [fault])[..index] == faults;
        statuses, faults := statuses + [status], faults + [fault];
      }
      assert requests[..|requests|] == requests;
      ObservedProgress();
      RunCompletesExactlyWhatItAnswers(stages, requests, faults);
    }
  }
}
