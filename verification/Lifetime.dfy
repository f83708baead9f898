/**
 Who keeps an inference session alive: its public handle and every shared buffer.

 Closing the session and releasing a buffer each take two atomic steps, one under the session lock and one
 interlocked decrement, so other callers may run in between.  Allocations carry the order in which they
 were made, since the driver may hand out a freed address again.
 */
module Lifetime {
  datatype Phase = Held | Letting | Gone

  datatype Event = Allocate(id: nat) | Free(id: nat) | DestroyContext

  /** `buffers[i]` is the i-th shared buffer, with the allocation it owns. */
  datatype Buffer = Buffer(allocation: nat, phase: Phase)

  datatype State = State(
    references: int, active: bool, handle: Phase, buffers: seq<Buffer>, copied: set<nat>,
    next: nat, destroyed: nat, log: seq<Event>)

  function Created(): State {
    State(1, true, Held, [], {}, 0, 0, [])
  }

  datatype Action =
    | CreateBuffer(granted: bool)
    | CopyTensor(granted: bool)
    | ReleaseCopied
    | FreeBuffer(buffer: nat)
    | UnrefBuffer(buffer: nat)
    | CloseLocked
    | UnrefHandle

  /** A caller may act on the session while it holds the handle or a buffer it has not begun to release. */
  predicate Holds(s: State) {
    s.handle == Held || exists i :: 0 <= i < |s.buffers| && s.buffers[i].phase == Held
  }

  /** What callers may do next: nobody releases twice, and the second half of a release follows its first. */
  predicate Enabled(s: State, action: Action) {
    match action
    case CreateBuffer(_) => Holds(s)
    case CopyTensor(_) => Holds(s)
    case ReleaseCopied => Holds(s)
    case FreeBuffer(i) => i < |s.buffers| && s.buffers[i].phase == Held
    case UnrefBuffer(i) => i < |s.buffers| && s.buffers[i].phase == Letting
    case CloseLocked => s.handle == Held
    case UnrefHandle => s.handle == Letting
  }

  /** The frees a destruction performs, in any fixed order, before it gives up the context. */
  function FreeAll(ids: set<nat>, bound: nat): seq<Event> {
    if bound == 0 then []
    else FreeAll(ids, bound - 1) + if bound - 1 in ids then [Free(bound - 1)] else []
  }

  /** Gives back the copied tensors: when one of them cannot be allocated, and on destruction. */
  function DropCopied(s: State): State {
    s.(copied := {}, log := s.log + FreeAll(s.copied, s.next))
  }

  function Unref(s: State): State {
    var t := s.(references := s.references - 1);
    if t.references != 0 then t
    else
      var u := DropCopied(t);
      u.(destroyed := u.destroyed + 1, log := u.log + [DestroyContext])
  }

  function Apply(s: State, action: Action): State
    requires Enabled(s, action)
  {
    match action
    case CreateBuffer(granted) =>
      if !s.active || !granted then s
      else s.(references := s.references + 1, buffers := s.buffers + [Buffer(s.next, Held)],
              next := s.next + 1, log := s.log + [Allocate(s.next)])
    case CopyTensor(granted) =>
      if !s.active || !granted then s
      else s.(copied := s.copied + {s.next}, next := s.next + 1, log := s.log + [Allocate(s.next)])
    case ReleaseCopied => if s.active then DropCopied(s) else s
    case FreeBuffer(i) =>
      s.(buffers := s.buffers[i := s.buffers[i].(phase := Letting)], log := s.log + [Free(s.buffers[i].allocation)])
    case UnrefBuffer(i) => Unref(s.(buffers := s.buffers[i := s.buffers[i].(phase := Gone)]))
    case CloseLocked => s.(active := false, handle := Letting)
    case UnrefHandle => Unref(s.(handle := Gone))
  }

  /** An interleaving the callers may produce from state `s`. */
  predicate Schedule(s: State, actions: seq<Action>)
    decreases |actions|
  {
    actions == [] || (Enabled(s, actions[0]) && Schedule(Apply(s, actions[0]), actions[1..]))
  }

  function Run(s: State, actions: seq<Action>): State
    requires Schedule(s, actions)
    decreases |actions|
  {
    if actions == [] then s else Run(Apply(s, actions[0]), actions[1..])
  }

  // ---------------------------------------------------------------------------------------------
  // The invariant.

  function One(condition: bool): nat {
    if condition then 1 else 0
  }

  /** Buffers whose release has not finished. */
  function Unreleased(buffers: seq<Buffer>): nat {
    if buffers == [] then 0
    else Unreleased(buffers[..|buffers| - 1]) + One(buffers[|buffers| - 1].phase != Gone)
  }

  /** Device memory some caller still uses, or that the destruction will free. */
  ghost predicate Live(s: State, id: nat) {
    id in s.copied || exists i :: 0 <= i < |s.buffers| && s.buffers[i] == Buffer(id, Held)
  }

  function Count(log: seq<Event>, e: Event): nat {
    if log == [] then 0 else Count(log[..|log| - 1], e) + One(log[|log| - 1] == e)
  }

  lemma {:induction false} CountConcat(a: seq<Event>, b: seq<Event>, e: Event)
    ensures Count(a + b, e) == Count(a, e) + Count(b, e)
  {
    if b == [] {
      assert a + b == a;
    } else {
      var last := |b| - 1;
      assert (a + b)[..|a| + last] == a + b[..last];
      CountConcat(a, b[..last], e);
    }
  }

  ghost predicate Counted(s: State) {
    && s.references == One(s.handle != Gone) + Unreleased(s.buffers)
    && s.destroyed == One(s.references == 0)
    && s.active == (s.handle == Held)
  }

  ghost predicate Owned(s: State) {
    && (forall i :: 0 <= i < |s.buffers| ==> s.buffers[i].allocation < s.next && s.buffers[i].allocation !in s.copied)
    && (forall i, j :: 0 <= i < j < |s.buffers| ==> s.buffers[i].allocation != s.buffers[j].allocation)
    && (forall id :: id in s.copied ==> id < s.next)
    && (s.destroyed != 0 ==> s.copied == {})
  }

  /** Every allocation is either live or freed once, and nothing follows the end of the context. */
  ghost predicate Accounted(s: State) {
    && (forall id: nat :: Count(s.log, Allocate(id)) == One(id < s.next))
    && (forall id: nat :: Count(s.log, Free(id)) == One(id < s.next && !Live(s, id)))
    && Count(s.log, DestroyContext) == s.destroyed
    && (s.destroyed != 0 ==> s.log != [] && s.log[|s.log| - 1] == DestroyContext)
  }

  ghost predicate Invariant(s: State) {
    Counted(s) && Owned(s) && Accounted(s)
  }

  lemma {:induction false} UnreleasedUpdate(buffers: seq<Buffer>, i: nat, b: Buffer)
    requires i < |buffers|
    ensures Unreleased(buffers[i := b]) == Unreleased(buffers) - One(buffers[i].phase != Gone) + One(b.phase != Gone)
    ensures buffers[i].phase != Gone ==> Unreleased(buffers) > 0
  {
    var last := |buffers| - 1;
    if i == last {
      assert buffers[i := b][..last] == buffers[..last];
    } else {
      UnreleasedUpdate(buffers[..last], i, b);
      assert buffers[i := b][..last] == buffers[..last][i := b];
    }
  }

  lemma {:induction false} FreeAllCounts(ids: set<nat>, bound: nat, e: Event)
    ensures Count(FreeAll(ids, bound), e) == One(e.Free? && e.id in ids && e.id < bound)
  {
    if bound > 0 {
      FreeAllCounts(ids, bound - 1, e);
      var tail := if bound - 1 in ids then [Free(bound - 1)] else [];
      CountConcat(FreeAll(ids, bound - 1), tail, e);
      assert Count([], e) == 0 && Count([Free(bound - 1)], e) == One(e == Free(bound - 1));
    }
  }

  /** Whoever may act keeps the session alive: no caller ever reaches a destroyed session. */
  lemma HolderKeepsAlive(s: State, action: Action)
    requires Invariant(s) && Enabled(s, action)
    ensures s.destroyed == 0 && s.references > 0
  {
    forall i | 0 <= i < |s.buffers| && s.buffers[i].phase != Gone ensures Unreleased(s.buffers) > 0 {
      UnreleasedUpdate(s.buffers, i, s.buffers[i]);
    }
  }

  /** One more event in the log. */
  lemma Logged(s: State, t: State, e: Event)
    requires t.log == s.log + [e]
    ensures forall x :: Count(t.log, x) == Count(s.log, x) + One(x == e)
  {
  }

  lemma DropCopiedKeeps(s: State)
    requires Owned(s) && Accounted(s) && s.destroyed == 0
    ensures Owned(DropCopied(s)) && Accounted(DropCopied(s))
  {
    var t := DropCopied(s);
    forall x ensures Count(t.log, x) == Count(s.log, x) + One(x.Free? && x.id in s.copied && x.id < s.next) {
      CountConcat(s.log, FreeAll(s.copied, s.next), x);
      FreeAllCounts(s.copied, s.next, x);
    }
    hide Count, FreeAll;
    forall id: nat ensures Live(t, id) == (Live(s, id) && id !in s.copied) {
    }
  }

  /** Dropping one reference, after the handle or the buffer that held it has been marked. */
  lemma UnrefKeeps(s: State)
    requires s.references == One(s.handle != Gone) + Unreleased(s.buffers) + 1
    requires s.destroyed == 0 && s.active == (s.handle == Held)
    requires Owned(s) && Accounted(s)
    ensures Invariant(Unref(s))
  {
    hide Count, FreeAll;
    var t := Unref(s);
    if t.references == 0 {
      var dropped := DropCopied(s.(references := 0));
      DropCopiedKeeps(s);
      Logged(dropped, t, DestroyContext);
    }
  }

  lemma AllocateKeeps(s: State, t: State)
    requires Invariant(s) && s.active && s.destroyed == 0
    requires t == Apply(s, CreateBuffer(true)) || t == Apply(s, CopyTensor(true))
    ensures Invariant(t)
  {
    hide Count, Live, FreeAll;
    if |t.buffers| > |s.buffers| {
      assert t.buffers[..|s.buffers|] == s.buffers && t.buffers[|s.buffers|] == Buffer(s.next, Held);
    }
    Logged(s, t, Allocate(s.next));
    SameLiveness(s, t, s.next, true);
  }

  lemma FreeKeeps(s: State, i: nat)
    requires Invariant(s) && s.destroyed == 0 && Enabled(s, FreeBuffer(i))
    ensures Invariant(Apply(s, FreeBuffer(i)))
  {
    var t := Apply(s, FreeBuffer(i));
    var id := s.buffers[i].allocation;
    assert Live(s, id);
    hide Count, Live, FreeAll;
    UnreleasedUpdate(s.buffers, i, t.buffers[i]);
    Logged(s, t, Free(id));
    SameLiveness(s, t, id, false);
  }

  lemma UnrefBufferKeeps(s: State, i: nat)
    requires Invariant(s) && s.destroyed == 0 && Enabled(s, UnrefBuffer(i))
    ensures Invariant(Apply(s, UnrefBuffer(i)))
  {
    hide Count, Live, FreeAll;
    var marked := s.(buffers := s.buffers[i := s.buffers[i].(phase := Gone)]);
    UnreleasedUpdate(s.buffers, i, marked.buffers[i]);
    SameLiveness(s, marked, s.next, false);
    UnrefKeeps(marked);
  }

  lemma CloseKeeps(s: State, action: Action)
    requires Invariant(s) && s.destroyed == 0 && Enabled(s, action) && (action == CloseLocked || action == UnrefHandle)
    ensures Invariant(Apply(s, action))
  {
    hide Count, Live, FreeAll;
    var closing := if action == CloseLocked then Apply(s, action) else s.(handle := Gone);
    SameLiveness(s, closing, s.next, false);
    if action == UnrefHandle {
      UnrefKeeps(closing);
    }
  }

  lemma StepKeeps(s: State, action: Action)
    requires Invariant(s) && Enabled(s, action)
    ensures Invariant(Apply(s, action))
  {
    hide Count, Live, FreeAll, Owned, Accounted;
    HolderKeepsAlive(s, action);
    match action
    case CreateBuffer(granted) =>
      if s.active && granted {
        AllocateKeeps(s, Apply(s, action));
      }
    case CopyTensor(granted) =>
      if s.active && granted {
        AllocateKeeps(s, Apply(s, action));
      }
    case ReleaseCopied =>
      DropCopiedKeeps(s);
    case FreeBuffer(i) =>
      FreeKeeps(s, i);
    case UnrefBuffer(i) =>
      UnrefBufferKeeps(s, i);
    case CloseLocked =>
      CloseKeeps(s, action);
    case UnrefHandle =>
      CloseKeeps(s, action);
  }

  /** Only allocation `id` changes its liveness between the two states. */
  lemma SameLiveness(s: State, t: State, id: nat, now: bool)
    requires Owned(s)
    requires forall x :: x != id ==> (x in t.copied <==> x in s.copied)
    requires |s.buffers| <= |t.buffers|
    requires forall i :: 0 <= i < |t.buffers| ==>
      if i < |s.buffers| then t.buffers[i] == s.buffers[i] || (t.buffers[i].phase != Held
        && (s.buffers[i].allocation == id || s.buffers[i].phase != Held))
      else t.buffers[i] == Buffer(id, Held)
    requires if now then id in t.copied || (|t.buffers| > |s.buffers|)
             else id !in t.copied && |t.buffers| == |s.buffers| && forall i :: 0 <= i < |t.buffers| ==>
               t.buffers[i] != Buffer(id, Held)
    ensures forall x: nat :: Live(t, x) <==> if x == id then now else Live(s, x)
  {
    forall x: nat | x != id && Live(s, x) ensures Live(t, x) {
      if x !in s.copied {
        var i :| 0 <= i < |s.buffers| && s.buffers[i] == Buffer(x, Held);
        assert t.buffers[i] == Buffer(x, Held);
      }
    }
    if now && id !in t.copied {
      assert t.buffers[|s.buffers|] == Buffer(id, Held);
    }
  }

  lemma {:induction false} RunKeeps(s: State, actions: seq<Action>)
    requires Invariant(s) && Schedule(s, actions)
    ensures Invariant(Run(s, actions))
    decreases |actions|
  {
    if actions != [] {
      StepKeeps(s, actions[0]);
      RunKeeps(Apply(s, actions[0]), actions[1..]);
    }
  }

  /**
   Over every interleaving: the count is the open handle plus the buffers still being used, the session is
   destroyed once, exactly when both are gone, and then every allocation ever made has been freed exactly
   once, before the context.  Until then nothing live has been freed.
   */
  lemma EveryInterleavingReleasesOnce(actions: seq<Action>)
    requires Schedule(Created(), actions)
    ensures
      var s := Run(Created(), actions);
      && s.references == One(s.handle != Gone) + Unreleased(s.buffers)
      && s.destroyed <= 1
      && (s.destroyed == 1 <==> s.handle == Gone && forall i :: 0 <= i < |s.buffers| ==> s.buffers[i].phase == Gone)
      && (s.destroyed == 1 ==>
            && s.log != [] && s.log[|s.log| - 1] == DestroyContext && Count(s.log, DestroyContext) == 1
            && forall id: nat :: id < s.next ==> Count(s.log, Allocate(id)) == Count(s.log, Free(id)) == 1)
      && (forall id: nat :: Live(s, id) ==> Count(s.log, Free(id)) == 0)
  {
    var s := Run(Created(), actions);
    RunKeeps(Created(), actions);
    forall i | 0 <= i < |s.buffers| && s.buffers[i].phase != Gone ensures Unreleased(s.buffers) > 0 {
      UnreleasedUpdate(s.buffers, i, s.buffers[i]);
    }
    if forall i :: 0 <= i < |s.buffers| ==> s.buffers[i].phase == Gone {
      AllGone(s.buffers);
    }
  }

  lemma {:induction false} AllGone(buffers: seq<Buffer>)
    requires forall i :: 0 <= i < |buffers| ==> buffers[i].phase == Gone
    ensures Unreleased(buffers) == 0
  {
    if buffers != [] {
      AllGone(buffers[..|buffers| - 1]);
    }
  }
}
