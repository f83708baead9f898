/**
 The on-disk program cache.  A store writes a temporary file and renames it into place, first the program
 under its digest, then the metadata under the request; other stores may run in between and a process may
 die or fail after any step, in the middle of a write too.
 */
module ProgramCache {
  import opened Wrappers
  import opened Bytes
  import opened Sequences
  import opened Targets

  datatype Request = Request(key: nat, provenance: Option<nat>)

  /** A named tensor at the program's boundary. */
  datatype TensorContract = TensorContract(name: string, spec: Spec)

  datatype Program = Program(
    blob: seq<Byte>, reports: seq<seq<Byte>>, provenance: Option<nat>,
    inputs: seq<TensorContract>, outputs: seq<TensorContract>)

  datatype File =
    | Torn(written: nat)
    | Bundle(program: Program)
    | Record(request: Request, digest: nat, size: nat)

  datatype Path = Temporary(id: nat) | ProgramFile(digest: nat) | RequestFile(hash: nat)

  type Directory = map<Path, File>

  /** File hash and size, the size of a bundle's manifest, and the hash that names a request's metadata. */
  datatype Hashing = Hashing(digest: File -> nat, size: File -> nat, manifest: Program -> nat, request: Request -> nat)

  /** Different contents have different digests.  Request hashes may collide. */
  ghost predicate Injective(h: Hashing) {
    forall a, b :: h.digest(a) == h.digest(b) ==> a == b
  }

  const METADATA_LIMIT: nat := 1024 * 1024

  /** How far a store has come, and its temporary file. */
  datatype Stage =
    | Started
    | WritingProgram(id: nat)
    | WroteProgram(id: nat)
    | Published
    | WritingRecord(id: nat)
    | WroteRecord(id: nat)

  datatype Store = Store(request: Request, program: Program, stage: Stage)

  /** `history` holds every request and program some store was called with. */
  datatype State = State(directory: Directory, stores: map<nat, Store>, next: nat, history: set<(Request, Program)>)

  datatype Action =
    | Begin(pid: nat, request: Request, program: Program)
    | Advance(pid: nat)
    | WritePart(pid: nat, written: nat)
    | Fail(pid: nat)
    | Crash(pid: nat)

  function Empty(): State {
    State(map[], map[], 0, {})
  }

  function Entry(h: Hashing, store: Store): File {
    Record(store.request, h.digest(Bundle(store.program)), h.size(Bundle(store.program)))
  }

  predicate Enabled(s: State, action: Action) {
    match action
    case Begin(pid, _, _) => pid !in s.stores
    case WritePart(pid, _) => pid in s.stores
      && (s.stores[pid].stage.WritingProgram? || s.stores[pid].stage.WritingRecord?)
    case _ => action.pid in s.stores
  }

  predicate HasTemporary(stage: Stage) {
    !stage.Started? && !stage.Published?
  }

  function Apply(h: Hashing, s: State, action: Action): State
    requires Enabled(s, action)
  {
    match action
    case Begin(pid, request, program) =>
      s.(stores := s.stores[pid := Store(request, program, Started)], history := s.history + {(request, program)})
    case WritePart(pid, written) =>
      s.(directory := s.directory[Temporary(s.stores[pid].stage.id) := Torn(written)])
    case Crash(pid) =>
      s.(stores := s.stores - {pid})
    case Fail(pid) =>
      var stage := s.stores[pid].stage;
      s.(stores := s.stores - {pid},
         directory := if HasTemporary(stage) then s.directory - {Temporary(stage.id)} else s.directory)
    case Advance(pid) =>
      var store := s.stores[pid];
      match store.stage
      case Started =>
        s.(directory := s.directory[Temporary(s.next) := Torn(0)], next := s.next + 1,
           stores := s.stores[pid := store.(stage := WritingProgram(s.next))])
      case WritingProgram(id) =>
        s.(directory := s.directory[Temporary(id) := Bundle(store.program)],
           stores := s.stores[pid := store.(stage := WroteProgram(id))])
      case WroteProgram(id) =>
        var file := if Temporary(id) in s.directory then s.directory[Temporary(id)] else Torn(0);
        s.(directory := s.directory[ProgramFile(h.digest(file)) := file] - {Temporary(id)},
           stores := s.stores[pid := store.(stage := Published)])
      case Published =>
        s.(directory := s.directory[Temporary(s.next) := Torn(0)], next := s.next + 1,
           stores := s.stores[pid := store.(stage := WritingRecord(s.next))])
      case WritingRecord(id) =>
        s.(directory := s.directory[Temporary(id) := Entry(h, store)],
           stores := s.stores[pid := store.(stage := WroteRecord(id))])
      case WroteRecord(id) =>
        var file := if Temporary(id) in s.directory then s.directory[Temporary(id)] else Torn(0);
        s.(directory := s.directory[RequestFile(h.request(store.request)) := file] - {Temporary(id)},
           stores := s.stores - {pid})
  }

  predicate Schedule(h: Hashing, s: State, actions: seq<Action>)
    decreases |actions|
  {
    actions == [] || (Enabled(s, actions[0]) && Schedule(h, Apply(h, s, actions[0]), actions[1..]))
  }

  function Run(h: Hashing, s: State, actions: seq<Action>): State
    requires Schedule(h, s, actions)
    decreases |actions|
  {
    if actions == [] then s else Run(h, Apply(h, s, actions[0]), actions[1..])
  }

  // ---------------------------------------------------------------------------------------------
  // What every step keeps.

  ghost predicate Stored(s: State, request: Request, program: Program) {
    (request, program) in s.history
  }

  ghost predicate ProgramsSound(h: Hashing, s: State) {
    forall d :: ProgramFile(d) in s.directory ==>
      var file := s.directory[ProgramFile(d)]; file.Bundle? && h.digest(file) == d
  }

  ghost predicate RecordsSound(h: Hashing, s: State) {
    forall x :: RequestFile(x) in s.directory ==> RecordSound(h, s, s.directory[RequestFile(x)])
  }

  /** Metadata describes a program stored for its own request, and that program is already in place. */
  ghost predicate RecordSound(h: Hashing, s: State, file: File) {
    && file.Record?
    && exists p :: Stored(s, file.request, p) && file.digest == h.digest(Bundle(p)) && file.size == h.size(Bundle(p))
                && ProgramFile(file.digest) in s.directory
  }

  ghost predicate StoreSound(h: Hashing, s: State, store: Store) {
    && Stored(s, store.request, store.program)
    && (HasTemporary(store.stage) ==> store.stage.id < s.next && Temporary(store.stage.id) in s.directory)
    && (store.stage.WroteProgram? ==> s.directory[Temporary(store.stage.id)] == Bundle(store.program))
    && (store.stage.WroteRecord? ==> s.directory[Temporary(store.stage.id)] == Entry(h, store))
    && (store.stage.Published? || store.stage.WritingRecord? || store.stage.WroteRecord? ==>
          ProgramFile(h.digest(Bundle(store.program))) in s.directory)
  }

  /** Temporary files belong to one store each. */
  ghost predicate OwnTemporaries(s: State) {
    forall a, b | a in s.stores && b in s.stores && a != b ::
      HasTemporary(s.stores[a].stage) && HasTemporary(s.stores[b].stage) ==>
        s.stores[a].stage.id != s.stores[b].stage.id
  }

  ghost predicate Invariant(h: Hashing, s: State) {
    && ProgramsSound(h, s) && RecordsSound(h, s) && OwnTemporaries(s)
    && (forall pid :: pid in s.stores ==> StoreSound(h, s, s.stores[pid]))
  }

  /** Published programs are never lost or altered, and what was stored stays known. */
  ghost predicate Grows(s: State, t: State) {
    && s.history <= t.history && s.next <= t.next
    && forall d :: ProgramFile(d) in s.directory ==>
         ProgramFile(d) in t.directory && t.directory[ProgramFile(d)] == s.directory[ProgramFile(d)]
  }

  /** The temporary file of store `pid`, if it has one. */
  predicate Owns(s: State, pid: nat, id: nat) {
    pid in s.stores && HasTemporary(s.stores[pid].stage) && s.stores[pid].stage.id == id
  }

  /** The step of store `pid` touches no other store and no other store's temporary file. */
  ghost predicate Minds(s: State, t: State, pid: nat) {
    && (forall b :: b in t.stores && b != pid ==> b in s.stores && t.stores[b] == s.stores[b])
    && (forall id: nat :: id < s.next && !Owns(s, pid, id) && Temporary(id) in s.directory ==>
          Temporary(id) in t.directory && t.directory[Temporary(id)] == s.directory[Temporary(id)])
    && (forall id: nat :: Owns(t, pid, id) ==> Owns(s, pid, id) || id >= s.next)
  }

  lemma OthersStaySound(h: Hashing, s: State, t: State, pid: nat, b: nat)
    requires Invariant(h, s) && Grows(s, t) && Minds(s, t, pid) && b in t.stores && b != pid
    ensures StoreSound(h, t, t.stores[b])
  {
  }

  lemma RecordStaysSound(h: Hashing, s: State, t: State, file: File)
    requires Grows(s, t) && RecordSound(h, s, file)
    ensures RecordSound(h, t, file)
  {
  }

  /** A well-behaved step keeps the invariant. */
  lemma Preserved(h: Hashing, s: State, t: State, pid: nat)
    requires Invariant(h, s) && Grows(s, t) && Minds(s, t, pid) && ProgramsSound(h, t)
    requires forall x :: RequestFile(x) in t.directory ==>
      || (RequestFile(x) in s.directory && t.directory[RequestFile(x)] == s.directory[RequestFile(x)])
      || RecordSound(h, t, t.directory[RequestFile(x)])
    requires pid in t.stores ==> StoreSound(h, t, t.stores[pid])
    ensures Invariant(h, t)
  {
    hide RecordSound, StoreSound;
    forall b | b in t.stores ensures StoreSound(h, t, t.stores[b]) {
      if b != pid {
        OthersStaySound(h, s, t, pid, b);
      }
    }
    forall x | RequestFile(x) in t.directory ensures RecordSound(h, t, t.directory[RequestFile(x)]) {
      if !RecordSound(h, t, t.directory[RequestFile(x)]) {
        RecordStaysSound(h, s, t, s.directory[RequestFile(x)]);
      }
    }
    forall a, b | a in t.stores && b in t.stores && a != b && HasTemporary(t.stores[a].stage)
      && HasTemporary(t.stores[b].stage)
      ensures t.stores[a].stage.id != t.stores[b].stage.id
    {
      DifferentTemporaries(h, s, t, pid, a, b);
    }
  }

  lemma DifferentTemporaries(h: Hashing, s: State, t: State, pid: nat, a: nat, b: nat)
    requires Invariant(h, s) && Minds(s, t, pid) && a in t.stores && b in t.stores && a != b
    requires HasTemporary(t.stores[a].stage) && HasTemporary(t.stores[b].stage)
    ensures t.stores[a].stage.id != t.stores[b].stage.id
  {
    assert a == pid ==> Owns(t, pid, t.stores[a].stage.id);
    assert b == pid ==> Owns(t, pid, t.stores[b].stage.id);
    assert a != pid ==> StoreSound(h, s, s.stores[a]);
    assert b != pid ==> StoreSound(h, s, s.stores[b]);
  }

  /** The rename of a written program: the file has exactly the digest it is named by. */
  lemma PublishKeeps(h: Hashing, s: State, pid: nat)
    requires Injective(h) && Invariant(h, s) && pid in s.stores && s.stores[pid].stage.WroteProgram?
    ensures Invariant(h, Apply(h, s, Advance(pid))) && Grows(s, Apply(h, s, Advance(pid)))
  {
    var t := Apply(h, s, Advance(pid));
    var store := s.stores[pid];
    assert StoreSound(h, s, store);
    var file := Bundle(store.program);
    forall d | ProgramFile(d) in t.directory
      ensures t.directory[ProgramFile(d)].Bundle? && h.digest(t.directory[ProgramFile(d)]) == d
    {
    }
    forall d | ProgramFile(d) in s.directory
      ensures ProgramFile(d) in t.directory && t.directory[ProgramFile(d)] == s.directory[ProgramFile(d)]
    {
      assert d == h.digest(file) ==> h.digest(s.directory[ProgramFile(d)]) == h.digest(file);
    }
    Preserved(h, s, t, pid);
  }

  lemma CompleteKeeps(h: Hashing, s: State, pid: nat)
    requires Invariant(h, s) && pid in s.stores && s.stores[pid].stage.WroteRecord?
    ensures
      var t := Apply(h, s, Advance(pid));
      && Invariant(h, t) && Grows(s, t)
      && RequestFile(h.request(s.stores[pid].request)) in t.directory
      && t.directory[RequestFile(h.request(s.stores[pid].request))] == Entry(h, s.stores[pid])
  {
    var t := Apply(h, s, Advance(pid));
    var store := s.stores[pid];
    assert StoreSound(h, s, store);
    assert Stored(t, store.request, store.program);
    assert RecordSound(h, t, Entry(h, store));
    Preserved(h, s, t, pid);
  }

  /** A step that publishes nothing changes temporary files only. */
  ghost predicate Quiet(s: State, t: State) {
    && s.history <= t.history && s.next <= t.next
    && forall path: Path :: !path.Temporary? ==>
         (path in t.directory <==> path in s.directory)
           && (path in s.directory ==> t.directory[path] == s.directory[path])
  }

  lemma QuietKeeps(h: Hashing, s: State, t: State, pid: nat)
    requires Invariant(h, s) && Quiet(s, t) && Minds(s, t, pid)
    requires pid in t.stores ==> StoreSound(h, t, t.stores[pid])
    ensures Invariant(h, t) && Grows(s, t)
  {
    hide RecordSound, StoreSound, Minds;
    forall d | ProgramFile(d) in s.directory || ProgramFile(d) in t.directory
      ensures ProgramFile(d) in s.directory && ProgramFile(d) in t.directory
      ensures t.directory[ProgramFile(d)] == s.directory[ProgramFile(d)]
    {
      var path := ProgramFile(d);
      assert !path.Temporary?;
    }
    forall x | RequestFile(x) in t.directory
      ensures RequestFile(x) in s.directory && t.directory[RequestFile(x)] == s.directory[RequestFile(x)]
    {
      var path := RequestFile(x);
      assert !path.Temporary?;
    }
    Preserved(h, s, t, pid);
  }

  /** The step changes at most the temporary file `id`, which is its own or new. */
  ghost predicate TouchesOnly(s: State, t: State, pid: nat, id: nat) {
    && s.history <= t.history && s.next <= t.next && (Owns(s, pid, id) || id >= s.next)
    && t.directory - {Temporary(id)} == s.directory - {Temporary(id)}
    && (forall b :: b in t.stores && b != pid ==> b in s.stores && t.stores[b] == s.stores[b])
    && (forall x: nat :: Owns(t, pid, x) ==> x == id)
  }

  lemma TouchesOnlyIsQuiet(s: State, t: State, pid: nat, id: nat)
    requires TouchesOnly(s, t, pid, id)
    ensures Quiet(s, t) && Minds(s, t, pid)
  {
    forall path: Path | path != Temporary(id)
      ensures (path in t.directory <==> path in s.directory)
        && (path in s.directory ==> t.directory[path] == s.directory[path])
    {
      assert path in t.directory <==> path in t.directory - {Temporary(id)};
      assert path in s.directory <==> path in s.directory - {Temporary(id)};
      if path in s.directory {
        assert (s.directory - {Temporary(id)})[path] == s.directory[path];
        assert (t.directory - {Temporary(id)})[path] == t.directory[path];
      }
    }
  }

  lemma OpenOrWrite(h: Hashing, s: State, action: Action)
    requires Invariant(h, s) && Enabled(s, action) && (action.Advance? || action.WritePart?)
    requires action.Advance? ==> !s.stores[action.pid].stage.WroteProgram? && !s.stores[action.pid].stage.WroteRecord?
    ensures
      var t := Apply(h, s, action);
      && (exists id: nat :: TouchesOnly(s, t, action.pid, id)) && StoreSound(h, t, t.stores[action.pid])
  {
    var store := s.stores[action.pid];
    assert StoreSound(h, s, store);
    hide Invariant;
    var t := Apply(h, s, action);
    var id := if store.stage.Started? || store.stage.Published? then s.next else store.stage.id;
    var file := t.directory[Temporary(id)];
    assert t.directory == s.directory[Temporary(id) := file];
    assert t.directory - {Temporary(id)} == s.directory - {Temporary(id)};
    assert TouchesOnly(s, t, action.pid, id);
  }

  lemma BeginOrEnd(h: Hashing, s: State, action: Action)
    requires Invariant(h, s) && Enabled(s, action) && !action.Advance? && !action.WritePart?
    ensures
      var t := Apply(h, s, action);
      && (exists id: nat :: TouchesOnly(s, t, action.pid, id))
      && (action.pid in t.stores ==> StoreSound(h, t, t.stores[action.pid]))
  {
    if action.pid in s.stores {
      assert StoreSound(h, s, s.stores[action.pid]);
    }
    hide Invariant;
    var t := Apply(h, s, action);
    var id := if action.Fail? && HasTemporary(s.stores[action.pid].stage) then
      s.stores[action.pid].stage.id
      else s.next;
    assert t.directory - {Temporary(id)} == s.directory - {Temporary(id)};
    assert TouchesOnly(s, t, action.pid, id);
  }

  lemma QuietStep(h: Hashing, s: State, action: Action)
    requires Invariant(h, s) && Enabled(s, action)
    requires action.Advance? ==> !s.stores[action.pid].stage.WroteProgram? && !s.stores[action.pid].stage.WroteRecord?
    ensures
      var t := Apply(h, s, action);
      && Quiet(s, t) && Minds(s, t, action.pid)
      && (action.pid in t.stores ==> StoreSound(h, t, t.stores[action.pid]))
  {
    if action.Advance? || action.WritePart? {
      OpenOrWrite(h, s, action);
    } else {
      BeginOrEnd(h, s, action);
    }
    hide *;
    var t := Apply(h, s, action);
    var id: nat :| TouchesOnly(s, t, action.pid, id);
    TouchesOnlyIsQuiet(s, t, action.pid, id);
  }

  lemma StepKeeps(h: Hashing, s: State, action: Action)
    requires Injective(h) && Invariant(h, s) && Enabled(s, action)
    ensures Invariant(h, Apply(h, s, action)) && Grows(s, Apply(h, s, action))
  {
    if action.Advance? && s.stores[action.pid].stage.WroteProgram? {
      PublishKeeps(h, s, action.pid);
    } else if action.Advance? && s.stores[action.pid].stage.WroteRecord? {
      CompleteKeeps(h, s, action.pid);
    } else {
      hide *;
      QuietStep(h, s, action);
      QuietKeeps(h, s, Apply(h, s, action), action.pid);
    }
  }

  lemma {:induction false} RunKeeps(h: Hashing, s: State, actions: seq<Action>)
    requires Injective(h) && Invariant(h, s) && Schedule(h, s, actions)
    ensures Invariant(h, Run(h, s, actions)) && Grows(s, Run(h, s, actions))
    decreases |actions|
  {
    if actions != [] {
      hide Invariant, Apply, Enabled;
      StepKeeps(h, s, actions[0]);
      RunKeeps(h, Apply(h, s, actions[0]), actions[1..]);
    }
  }

  // ---------------------------------------------------------------------------------------------
  // Loading.

  const MANIFEST_LIMIT: nat := 1024 * 1024
  const GRAPH_LIMIT: nat := 2 * 1024 * 1024 * 1024
  const REPORT_LIMIT: nat := 16 * 1024 * 1024
  const REPORTS_LIMIT: nat := 64 * 1024 * 1024
  const REPORT_COUNT_LIMIT: nat := 1024

  const EXECUTION_DTYPES: set<DType> := {F16, F32, U8, I8, U16, I16, U32, I32, I64}

  predicate Executable(t: TensorContract) {
    t.name != "" && t.spec.dtype in EXECUTION_DTYPES && |t.spec.shape| <= 5
    && forall i :: 0 <= i < |t.spec.shape| ==> t.spec.shape[i] > 0
  }

  /** The tensors a bundle may declare on one side: at least one, executable, with different names. */
  ghost predicate WithinContract(tensors: seq<TensorContract>) {
    && tensors != [] && (forall i :: 0 <= i < |tensors| ==> Executable(tensors[i]))
    && (forall i, j :: 0 <= i < j < |tensors| ==> tensors[i].name != tensors[j].name)
  }

  /** Reads one side of a manifest, remembering the names it has seen. */
  method ManifestContracts(tensors: seq<TensorContract>) returns (ok: bool)
    ensures ok <==> WithinContract(tensors)
  {
    if tensors == [] {
      return false;
    }
    var names: set<string> := {};
    for k := 0 to |tensors|
      invariant forall x :: x in names <==> exists i :: 0 <= i < k && tensors[i].name == x
      invariant forall i :: 0 <= i < k ==> Executable(tensors[i])
      invariant forall i, j :: 0 <= i < j < k ==> tensors[i].name != tensors[j].name
    {
      if tensors[k].name in names || !Executable(tensors[k]) {
        return false;
      }
      names := names + {tensors[k].name};
    }
    ok := true;
  }

  function TotalSize(reports: seq<seq<Byte>>): nat {
    if reports == [] then 0 else TotalSize(reports[..|reports| - 1]) + |reports[|reports| - 1]|
  }

  ghost predicate ReportsWithinLimits(reports: seq<seq<Byte>>) {
    && |reports| <= REPORT_COUNT_LIMIT && TotalSize(reports) <= REPORTS_LIMIT
    && forall i :: 0 <= i < |reports| ==> |reports[i]| <= REPORT_LIMIT
  }

  lemma {:induction false} TotalGrows(reports: seq<seq<Byte>>, k: nat)
    requires k <= |reports|
    ensures TotalSize(reports[..k]) <= TotalSize(reports)
  {
    if k == |reports| {
      assert reports[..k] == reports;
    } else {
      var last := |reports| - 1;
      TotalGrows(reports[..last], k);
      assert reports[..last][..k] == reports[..k];
    }
  }

  /** Checks the size of each report and their running total. */
  method CheckReports(reports: seq<seq<Byte>>) returns (ok: bool)
    ensures ok <==> ReportsWithinLimits(reports)
  {
    if |reports| > REPORT_COUNT_LIMIT {
      return false;
    }
    var total := 0;
    for k := 0 to |reports|
      invariant total == TotalSize(reports[..k]) <= REPORTS_LIMIT
      invariant forall i :: 0 <= i < k ==> |reports[i]| <= REPORT_LIMIT
    {
      assert reports[..k + 1][..k] == reports[..k];
      total := total + |reports[k]|;
      TotalGrows(reports, k + 1);
      if |reports[k]| > REPORT_LIMIT || total > REPORTS_LIMIT {
        return false;
      }
    }
    assert reports[..|reports|] == reports;
    ok := true;
  }

  /** The bundles that can be read back: sizes within limits, and boundary tensors within the contract. */
  ghost predicate Loadable(h: Hashing, program: Program) {
    && h.manifest(program) <= MANIFEST_LIMIT && 0 < |program.blob| <= GRAPH_LIMIT
    && WithinContract(program.inputs) && WithinContract(program.outputs) && ReportsWithinLimits(program.reports)
  }

  method LoadBundle(h: Hashing, program: Program) returns (ok: bool)
    ensures ok <==> Loadable(h, program)
  {
    if h.manifest(program) > MANIFEST_LIMIT || |program.blob| == 0 || |program.blob| > GRAPH_LIMIT {
      return false;
    }
    var inputs := ManifestContracts(program.inputs);
    var outputs := ManifestContracts(program.outputs);
    var reports := CheckReports(program.reports);
    ok := inputs && outputs && reports;
  }

  datatype Outcome = Miss | Invalid | Hit(program: Program)

  /**
   A load looks at the directory seven times: for the metadata's presence, size and content, for the
   program's presence, size and digest, and to open it.
   */
  const LOOKS: nat := 7

  /** What a load answers for what it saw at each look; stores may run between any two. */
  ghost function Load(h: Hashing, looks: seq<Directory>, request: Request, contract: Program -> bool): Outcome
    requires |looks| == LOOKS
  {
    var name := RequestFile(h.request(request));
    if name !in looks[0] then Miss
    else if name !in looks[1] || h.size(looks[1][name]) > METADATA_LIMIT || name !in looks[2] then Invalid
    else
      var record := looks[2][name];
      if !record.Record? || record.request != request || record.size == 0 then Invalid
      else
        var path := ProgramFile(record.digest);
        if path !in looks[3] || path !in looks[4] || h.size(looks[4][path]) != record.size then Invalid
        else if path !in looks[5] || h.digest(looks[5][path]) != record.digest then Invalid
        else if path !in looks[6] || !looks[6][path].Bundle? || !Loadable(h, looks[6][path].program) then Invalid
        else
          var program := looks[6][path].program;
          if program.provenance == None || program.provenance != request.provenance || !contract(program) then Invalid
          else Hit(program)
  }

  method LoadProgram(h: Hashing, looks: seq<Directory>, request: Request, contract: Program -> bool)
    returns (outcome: Outcome)
    requires |looks| == LOOKS
    ensures outcome == Load(h, looks, request, contract)
  {
    var name := RequestFile(h.request(request));
    if name !in looks[0] {
      return Miss;
    }
    if name !in looks[1] || h.size(looks[1][name]) > METADATA_LIMIT || name !in looks[2] {
      return Invalid;
    }
    var record := looks[2][name];
    if !record.Record? || record.request != request || record.size == 0 {
      return Invalid;
    }
    var path := ProgramFile(record.digest);
    if path !in looks[3] || path !in looks[4] || h.size(looks[4][path]) != record.size {
      return Invalid;
    }
    if path !in looks[5] || h.digest(looks[5][path]) != record.digest || path !in looks[6] || !looks[6][path].Bundle? {
      return Invalid;
    }
    var program := looks[6][path].program;
    var loaded := LoadBundle(h, program);
    if !loaded || program.provenance == None || program.provenance != request.provenance || !contract(program) {
      return Invalid;
    }
    outcome := Hit(program);
  }

  lemma {:induction false} PrefixRuns(h: Hashing, s: State, actions: seq<Action>, n: nat)
    requires Schedule(h, s, actions) && n <= |actions|
    ensures Schedule(h, s, actions[..n])
    decreases |actions|
  {
    if n > 0 {
      hide Apply, Enabled;
      PrefixRuns(h, Apply(h, s, actions[0]), actions[1..], n - 1);
      assert actions[..n][1..] == actions[1..][..n - 1];
    }
  }

  /** The state after the first `n` actions of a run. */
  ghost function After(h: Hashing, s: State, actions: seq<Action>, n: nat): State
    requires Schedule(h, s, actions) && n <= |actions|
  {
    PrefixRuns(h, s, actions, n);
    Run(h, s, actions[..n])
  }

  lemma AfterIsSound(h: Hashing, s: State, actions: seq<Action>, n: nat)
    requires Injective(h) && Invariant(h, s) && Schedule(h, s, actions) && n <= |actions|
    ensures Invariant(h, After(h, s, actions, n)) && Grows(s, After(h, s, actions, n))
  {
    PrefixRuns(h, s, actions, n);
    RunKeeps(h, s, actions[..n]);
  }

  /** The times of the looks of one load during a run. */
  ghost predicate Times(times: seq<nat>, end: nat) {
    |times| == LOOKS && (forall i, j :: 0 <= i < j < LOOKS ==> times[i] <= times[j]) && times[LOOKS - 1] <= end
  }

  ghost function Seen(h: Hashing, s: State, actions: seq<Action>, times: seq<nat>): seq<Directory>
    requires Schedule(h, s, actions) && Times(times, |actions|)
  {
    seq(LOOKS, i requires 0 <= i < LOOKS => After(h, s, actions, times[i]).directory)
  }

  /**
   In any interleaving of stores, crashes and failures, and however the looks of a load fall between their
   steps, a hit is a program that some store was given for an equal request, with that request's
   provenance, within the loadable contract and satisfying the caller's contract.
   */
  lemma HitsAreStored(h: Hashing, actions: seq<Action>, times: seq<nat>, request: Request, contract: Program -> bool)
    requires Injective(h) && Schedule(h, Empty(), actions) && Times(times, |actions|)
    ensures
      var outcome := Load(h, Seen(h, Empty(), actions, times), request, contract);
      outcome.Hit? ==>
        && Stored(After(h, Empty(), actions, times[2]), request, outcome.program)
        && outcome.program.provenance.Some? && outcome.program.provenance == request.provenance
        && Loadable(h, outcome.program) && contract(outcome.program)
  {
    AfterIsSound(h, Empty(), actions, times[2]);
    AfterIsSound(h, Empty(), actions, times[6]);
    var early, late := After(h, Empty(), actions, times[2]), After(h, Empty(), actions, times[6]);
    hide After, Loadable;
    var outcome := Load(h, Seen(h, Empty(), actions, times), request, contract);
    if outcome.Hit? {
      var record := early.directory[RequestFile(h.request(request))];
      assert RecordSound(h, early, record);
      var p :| Stored(early, record.request, p) && record.digest == h.digest(Bundle(p));
      assert h.digest(late.directory[ProgramFile(record.digest)]) == record.digest;
      assert late.directory[ProgramFile(record.digest)] == Bundle(p);
    }
  }

  /** What a load needs besides the files themselves. */
  ghost predicate Usable(h: Hashing, request: Request, program: Program, contract: Program -> bool) {
    && h.size(Record(request, h.digest(Bundle(program)), h.size(Bundle(program)))) <= METADATA_LIMIT
    && h.size(Bundle(program)) > 0 && Loadable(h, program)
    && program.provenance.Some? && program.provenance == request.provenance && contract(program)
  }

  /** The metadata is unreplaced at the looks that concern it. */
  ghost predicate Unreplaced(looks: seq<Directory>, name: Path, file: File)
    requires |looks| == LOOKS
  {
    forall i :: 0 <= i <= 2 ==> name in looks[i] && looks[i][name] == file
  }

  /** Once its metadata is in place, a store is complete: what later looks can rely on. */
  lemma CompleteIsSound(h: Hashing, s: State, pid: nat)
    requires Injective(h) && Invariant(h, s) && pid in s.stores && s.stores[pid].stage.WroteRecord?
    ensures
      var t := Apply(h, s, Advance(pid));
      var Store(request, program, _) := s.stores[pid];
      && Invariant(h, t) && ProgramFile(h.digest(Bundle(program))) in t.directory
      && RequestFile(h.request(request)) in t.directory
      && t.directory[RequestFile(h.request(request))]
           == Record(request, h.digest(Bundle(program)), h.size(Bundle(program)))
  {
    CompleteKeeps(h, s, pid);
  }

  /** A published program is found, unaltered, at any later time. */
  lemma ProgramStays(h: Hashing, t: State, u: State, program: Program)
    requires Injective(h) && Invariant(h, u) && Grows(t, u) && ProgramFile(h.digest(Bundle(program))) in t.directory
    ensures
      var path := ProgramFile(h.digest(Bundle(program)));
      path in u.directory && u.directory[path] == Bundle(program)
  {
  }

  /**
   After a store completes, a load of that request hits with that program exactly when the program is usable
   for the request, wherever its looks fall between the steps of later stores, as long as the looks at the
   metadata come before another store replaces it.
   */
  lemma CompletedStoresHit(h: Hashing, before: seq<Action>, pid: nat, after: seq<Action>, times: seq<nat>,
                           contract: Program -> bool)
    requires Injective(h) && Schedule(h, Empty(), before) && Times(times, |after|)
    requires
      var s := Run(h, Empty(), before);
      && pid in s.stores && s.stores[pid].stage.WroteRecord?
      && var t := Apply(h, s, Advance(pid));
         && Schedule(h, t, after)
         && var name := RequestFile(h.request(s.stores[pid].request));
            name in t.directory && Unreplaced(Seen(h, t, after, times), name, t.directory[name])
    ensures
      var s := Run(h, Empty(), before);
      var Store(request, program, _) := s.stores[pid];
      && (Load(h, Seen(h, Apply(h, s, Advance(pid)), after, times), request, contract)
          == if Usable(h, request, program, contract) then Hit(program) else Invalid)
  {
    hide Run, Schedule, Apply, Loadable, After, Grows, Invariant;
    var s := Run(h, Empty(), before);
    EmptyIsSound(h);
    RunKeeps(h, Empty(), before);
    CompleteIsSound(h, s, pid);
    var t := Apply(h, s, Advance(pid));
    var Store(request, program, _) := s.stores[pid];
    forall i | 0 <= i < LOOKS
      ensures
        var path := ProgramFile(h.digest(Bundle(program)));
        path in Seen(h, t, after, times)[i] && Seen(h, t, after, times)[i][path] == Bundle(program)
    {
      AfterIsSound(h, t, after, times[i]);
      ProgramStays(h, t, After(h, t, after, times[i]), program);
    }
  }

  lemma EmptyIsSound(h: Hashing)
    ensures Invariant(h, Empty())
  {
  }

  /** An output of a dtype that bundles cannot declare: such a program can be stored but is never loaded. */
  lemma UnloadableProgram(h: Hashing, program: Program, k: nat)
    requires k < |program.outputs| && program.outputs[k].spec.dtype !in EXECUTION_DTYPES
    ensures !Loadable(h, program)
  {
    assert !Executable(program.outputs[k]);
  }

  lemma RunCons(h: Hashing, s: State, action: Action, rest: seq<Action>)
    requires Enabled(s, action) && Schedule(h, Apply(h, s, action), rest)
    ensures Schedule(h, s, [action] + rest) && Run(h, s, [action] + rest) == Run(h, Apply(h, s, action), rest)
  {
    assert ([action] + rest)[1..] == rest;
  }

  /** A store on its own: begin, and the five steps up to the rename of the metadata. */
  function Steps(request: Request, program: Program): seq<Action> {
    [Begin(0, request, program)]
      + ([Advance(0)] + ([Advance(0)] + ([Advance(0)] + ([Advance(0)] + ([Advance(0)] + [])))))
  }

  lemma StoreRuns(h: Hashing, request: Request, program: Program)
    ensures
      && Schedule(h, Empty(), Steps(request, program))
      && var s := Run(h, Empty(), Steps(request, program));
         0 in s.stores && s.stores[0] == Store(request, program, WroteRecord(1))
  {
    var a := Advance(0);
    var s0 := Apply(h, Empty(), Begin(0, request, program));
    var s1 := Apply(h, s0, a);
    var s2 := Apply(h, s1, a);
    var s3 := Apply(h, s2, a);
    var s4 := Apply(h, s3, a);
    var s5 := Apply(h, s4, a);
    assert s5.stores[0] == Store(request, program, WroteRecord(1));
    hide Apply, Schedule, Run;
    assert Schedule(h, s5, []) && Run(h, s5, []) == s5 by { RunNone(h, s5); }
    RunCons(h, s4, a, []);
    RunCons(h, s3, a, [a] + []);
    RunCons(h, s2, a, [a] + ([a] + []));
    RunCons(h, s1, a, [a] + ([a] + ([a] + [])));
    RunCons(h, s0, a, [a] + ([a] + ([a] + ([a] + []))));
    RunCons(h, Empty(), Begin(0, request, program), [a] + ([a] + ([a] + ([a] + ([a] + [])))));
  }

  lemma RunNone(h: Hashing, s: State)
    ensures Schedule(h, s, []) && Run(h, s, []) == s
  {
  }

  /** A tensor that a bundle may declare: nine of the twelve dtypes, at most five dimensions, none of them zero. */
  ghost predicate Declarable(t: TensorContract) {
    && t.name != "" && |t.spec.shape| <= 5 && (forall i :: 0 <= i < |t.spec.shape| ==> t.spec.shape[i] != 0)
    && t.spec.dtype != Boolean && t.spec.dtype != F64 && t.spec.dtype != U64
  }

  ghost predicate DeclarableSide(tensors: seq<TensorContract>) {
    && tensors != [] && (forall i :: 0 <= i < |tensors| ==> Declarable(tensors[i]))
    && forall i, j :: 0 <= i < |tensors| && 0 <= j < |tensors| && tensors[i].name == tensors[j].name ==> i == j
  }

  lemma SideMeans(tensors: seq<TensorContract>)
    ensures WithinContract(tensors) <==> DeclarableSide(tensors)
  {
    forall t: TensorContract ensures Executable(t) <==> Declarable(t) {
      assert t.spec.dtype in EXECUTION_DTYPES <==>
        t.spec.dtype != Boolean && t.spec.dtype != F64 && t.spec.dtype != U64;
    }
    hide Executable, Declarable;
  }

  lemma {:induction false} TotalIsSum(reports: seq<seq<Byte>>)
    ensures TotalSize(reports) == Sum(seq(|reports|, i requires 0 <= i < |reports| => |reports[i]|))
  {
    var sizes := seq(|reports|, i requires 0 <= i < |reports| => |reports[i]|);
    if reports != [] {
      var front := reports[..|reports| - 1];
      TotalIsSum(front);
      assert sizes[..|reports| - 1] == seq(|front|, i requires 0 <= i < |front| => |front[i]|);
      SumLast(sizes);
    }
  }

  /**
   The bundles that can be read back: a manifest of at most a mebibyte, a graph of one byte to two gibibytes,
   at most 1024 reports of at most sixteen mebibytes and 64 together, and declarable tensors on both sides.
   */
  ghost predicate Readable(h: Hashing, program: Program) {
    var reports := program.reports;
    && h.manifest(program) <= 1048576 && 1 <= |program.blob| <= 2147483648
    && |reports| <= 1024 && (forall i :: 0 <= i < |reports| ==> |reports[i]| <= 16777216)
    && Sum(seq(|reports|, i requires 0 <= i < |reports| => |reports[i]|)) <= 67108864
    && DeclarableSide(program.inputs) && DeclarableSide(program.outputs)
  }

  lemma LoadableMeans(h: Hashing, program: Program)
    ensures Loadable(h, program) <==> Readable(h, program)
  {
    SideMeans(program.inputs);
    SideMeans(program.outputs);
    TotalIsSum(program.reports);
    hide WithinContract, DeclarableSide, TotalSize;
  }

  /**
   A load of any directories, damaged ones too: it misses exactly when there is no metadata, and hits exactly
   when the metadata is small enough, for this very request, and names by digest and size the program that is
   found there, readable, with the request's provenance and within the caller's contract.
   */
  lemma LoadMeans(h: Hashing, looks: seq<Directory>, request: Request, contract: Program -> bool, program: Program)
    requires |looks| == LOOKS
    ensures
      var name, outcome := RequestFile(h.request(request)), Load(h, looks, request, contract);
      && (outcome == Miss <==> name !in looks[0])
      && (outcome == Hit(program) <==>
            && name in looks[0] && name in looks[1] && name in looks[2] && h.size(looks[1][name]) <= 1048576
            && looks[2][name].Record? && looks[2][name].request == request
            && var path := ProgramFile(looks[2][name].digest);
               && (forall i :: 3 <= i <= 6 ==> path in looks[i])
               && h.size(looks[4][path]) == looks[2][name].size != 0
               && h.digest(looks[5][path]) == looks[2][name].digest && looks[6][path] == Bundle(program)
               && Readable(h, program) && contract(program)
               && program.provenance.Some? && program.provenance == request.provenance)
  {
    LoadableMeans(h, program);
    hide Loadable, Readable;
  }

  /**
   One store from the empty cache runs to its end, and a load of its request then hits with the program stored,
   however other stores go on meanwhile, until one replaces the metadata: exactly when the program is readable,
   has the request's provenance, and satisfies the caller's contract, and the metadata file is not too large.
   */
  lemma StoredIsFound(h: Hashing, request: Request, program: Program, after: seq<Action>, times: seq<nat>,
                      contract: Program -> bool)
    requires Injective(h)
    ensures
      && Schedule(h, Empty(), Steps(request, program))
      && var s := Run(h, Empty(), Steps(request, program));
         && Enabled(s, Advance(0))
         && var t := Apply(h, s, Advance(0));
            && var name := RequestFile(h.request(request));
               name in t.directory
               && (Schedule(h, t, after) && Times(times, |after|)
                   && Unreplaced(Seen(h, t, after, times), name, t.directory[name]) ==>
                     Load(h, Seen(h, t, after, times), request, contract)
                     == if Readable(h, program) && program.provenance.Some? && program.provenance == request.provenance
                          && contract(program) && h.size(t.directory[name]) <= 1048576
                          && h.size(Bundle(program)) > 0
                        then Hit(program) else Invalid)
  {
    StoreRuns(h, request, program);
    LoadableMeans(h, program);
    var s := Run(h, Empty(), Steps(request, program));
    EmptyIsSound(h);
    RunKeeps(h, Empty(), Steps(request, program));
    CompleteIsSound(h, s, 0);
    hide Steps, Loadable, Readable, Load, Run, Schedule, Apply, Invariant, Seen, Times, Unreplaced;
    var t := Apply(h, s, Advance(0));
    var name := RequestFile(h.request(request));
    if Schedule(h, t, after) && Times(times, |after|) && Unreplaced(Seen(h, t, after, times), name, t.directory[name]) {
      CompletedStoresHit(h, Steps(request, program), 0, after, times, contract);
    }
  }

  /**
   A program outside the loadable contract can be stored completely, and until its metadata is replaced no load
   of its request hits.
   */
  lemma StoredButNeverHit(h: Hashing, request: Request, program: Program, after: seq<Action>, times: seq<nat>,
                          contract: Program -> bool)
    requires Injective(h) && !Loadable(h, program)
    ensures
      && Schedule(h, Empty(), Steps(request, program))
      && var s := Run(h, Empty(), Steps(request, program));
         && Enabled(s, Advance(0))
         && var t := Apply(h, s, Advance(0));
            && var name := RequestFile(h.request(request));
               name in t.directory
               && (Schedule(h, t, after) && Times(times, |after|)
                   && Unreplaced(Seen(h, t, after, times), name, t.directory[name]) ==>
                     Load(h, Seen(h, t, after, times), request, contract) == Invalid)
  {
    LoadableMeans(h, program);
    hide *;
    StoredIsFound(h, request, program, after, times, contract);
  }

  /** Such a program: one f64 output. */
  lemma DoubleOutputIsUnloadable(h: Hashing)
    ensures
      var x, y := TensorContract("x", Spec([1], F32)), TensorContract("y", Spec([1], F64));
      !Loadable(h, Program([1], [], Some(0), [x], [y]))
  {
    var x, y := TensorContract("x", Spec([1], F32)), TensorContract("y", Spec([1], F64));
    UnloadableProgram(h, Program([1], [], Some(0), [x], [y]), 0);
  }
}
