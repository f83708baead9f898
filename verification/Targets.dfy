/**
 The contract between a custom node and the native ACT targets that would run it, in both record versions,
 and the projection of version 2 records to version 1.
 */
module Targets {
  import opened Wrappers

  datatype DType = Boolean | F16 | F32 | F64 | I8 | I16 | I32 | I64 | U8 | U16 | U32 | U64

  datatype Spec = Spec(shape: seq<nat>, dtype: DType)

  /** A node as the mapping sees it: whether it is custom, and its tensors. */
  datatype Node = Node(custom: bool, inputs: seq<Spec>, outputs: seq<Spec>)

  datatype Role = Input | Output
  datatype Tensor = Tensor(role: Role, index: nat, dtype: DType, elements: nat, span: nat, observed: bv32)

  datatype Target =
    | Legacy(invocation: nat, range: nat, inputCount: nat, elements: nat, span: nat, flags: bv32)
    | Versioned(invocation: nat, range: nat, tensors: seq<Tensor>, targetFlags: bv32)

  function Elements(shape: seq<nat>): nat {
    if shape == [] then 1 else Elements(shape[..|shape| - 1]) * shape[|shape| - 1]
  }

  function WithRole(tensors: seq<Tensor>, role: Role): seq<Tensor> {
    if tensors == [] then []
    else (if tensors[0].role == role then [tensors[0]] else []) + WithRole(tensors[1..], role)
  }

  function DTypes(tensors: seq<Tensor>): seq<DType> {
    seq(|tensors|, i requires 0 <= i < |tensors| => tensors[i].dtype)
  }

  /** The inputs that are one element wide under a wider output, by their recorded index. */
  function ScalarIndices(inputs: seq<Tensor>, outputElements: nat): seq<nat> {
    if inputs == [] then []
    else (if inputs[0].elements == 1 && outputElements > 1 then [inputs[0].index] else [])
         + ScalarIndices(inputs[1..], outputElements)
  }

  /** The scalar positions established for this symbolic shape. */
  function ExpectedScalars(node: Node): seq<nat>
    requires node.outputs != []
  {
    var output := node.outputs[0].shape;
    var inputs := node.inputs;
    if Elements(output) <= 1 then []
    else if |inputs| == 5 then
      if (output == [1, 32] && inputs[0].shape == [1, 32] && AllShaped(inputs[1..], [1, 1]))
        || (output == [4, 8] && inputs[0].shape == [4, 8] && AllShaped(inputs[1..], [4, 1])) then [1, 2, 3, 4]
      else if (output == [4, 8] && AllShaped(inputs[..2], [4, 8]) && AllShaped(inputs[2..], [4, 1]))
        || (output == [1, 32] && AllShaped(inputs[..2], [1, 32]) && AllShaped(inputs[2..], [1, 1])) then [2, 3, 4]
      else []
    else if |inputs| == 2 then
      (if NarrowInput(output, inputs[0].shape) then [0]
    else [])
        + (if NarrowInput(output, inputs[1].shape) then [1] else [])
    else []
  }

  predicate AllShaped(specs: seq<Spec>, shape: seq<nat>) {
    forall s :: s in specs ==> s.shape == shape
  }

  predicate NarrowInput(output: seq<nat>, input: seq<nat>) {
    Elements(input) == 1 || (output == [4, 8] && input == [4, 1])
  }

  function LegacyDType(flags: bv32): Option<DType> {
    if (flags & 0x04 != 0) == (flags & 0x20 != 0) then None
    else if flags & 0x04 != 0 then Some(F16) else Some(F32)
  }

  function LegacyScalars(flags: bv32): seq<nat> {
    if flags & 0x40 != 0 then [1] else []
  }

  /** Raises: a version 2 target without exactly one output record. */
  datatype Verdict = Match | Shapeless | Arity | Flags | Precision | Scalars | Mixed | Coverage | Raises

  function SumElements(targets: seq<Target>): nat {
    if targets == [] then 0
    else SumElements(targets[1..]) + match targets[0]
         case Legacy(_, _, _, elements, _, _) => elements
         case Versioned(_, _, tensors, _) =>
           if |WithRole(tensors, Output)| == 1 then WithRole(tensors, Output)[0].elements else 0
  }

  function Uniform(dtype: DType, count: nat): seq<DType> {
    seq(count, _ => dtype)
  }

  function InputTypes(node: Node): seq<DType> {
    seq(|node.inputs|, i requires 0 <= i < |node.inputs| => node.inputs[i].dtype)
  }

  function LegacyVerdict(node: Node, targets: seq<Target>): Verdict
    requires node.outputs != [] && targets != [] && forall t :: t in targets ==> t.Legacy?
  {
    var dtype := LegacyDType(targets[0].flags);
    if exists t :: t in targets && t.inputCount != |node.inputs| then Arity
    else if dtype == None || exists t :: t in targets && LegacyDType(t.flags) != dtype then Flags
    else if InputTypes(node) != Uniform(dtype.value, |node.inputs|) || node.outputs[0].dtype != dtype.value then
      Precision
    else if exists t :: t in targets && LegacyScalars(t.flags) != ExpectedScalars(node) then Scalars
    else Match
  }

  function VersionedVerdict(node: Node, targets: seq<Target>): Verdict
    requires node.outputs != [] && forall t :: t in targets ==> t.Versioned?
  {
    if targets == [] then Match
    else
      var inputs, outputs := WithRole(targets[0].tensors, Input), WithRole(targets[0].tensors, Output);
      if DTypes(inputs) != InputTypes(node) then Precision
      else if |outputs| != 1 then Raises
      else if outputs[0].dtype != node.outputs[0].dtype then Precision
      else if ScalarIndices(inputs, outputs[0].elements) != ExpectedScalars(node) then Scalars
      else VersionedVerdict(node, targets[1..])
  }

  /** Whether the targets can run the node; with `cover`, also whether they make up its whole output. */
  function Check(node: Node, targets: seq<Target>, cover: bool): Verdict {
    if |node.outputs| != 1 || targets == [] then Shapeless
    else
      var verdict :=
        if forall t :: t in targets ==> t.Legacy? then LegacyVerdict(node, targets)
        else if forall t :: t in targets ==> t.Versioned? then VersionedVerdict(node, targets)
        else Mixed;
      if verdict == Match && cover && SumElements(targets) != Elements(node.outputs[0].shape) then Coverage else verdict
  }

  predicate Accepts(node: Node, targets: seq<Target>, cover: bool) {
    Check(node, targets, cover) == Match
  }

  // ---------------------------------------------------------------------------------------------
  // Version 2 to version 1.

  function ElementSize(dtype: DType): nat {
    if dtype == F16 then 2 else 4
  }

  function ProjectedFlags(dtype: DType, scalar: bool): bv32 {
    0x1B | (if dtype == F16 then 0x04 else 0x20) | (if scalar then 0x40 else 0)
  }

  function Project(target: Target): Option<Target>
    requires target.Versioned?
  {
    var inputs, outputs := WithRole(target.tensors, Input), WithRole(target.tensors, Output);
    if target.targetFlags != 0 || |inputs| !in {1, 2} then None
    else if (exists i :: 0 <= i < |inputs| && inputs[i].index != i) || |outputs| != 1 || outputs[0].index != 0
      || (exists i :: 0 <= i < |inputs| && inputs[i].observed != 0x07) || outputs[0].observed != 0x0F then None
    else
      var output := outputs[0];
      var size := ElementSize(output.dtype);
      if output.dtype !in {F16, F32} || (exists i :: 0 <= i < |inputs| && inputs[i].dtype != output.dtype) then None
      else if output.span != output.elements * size || inputs[0].elements != output.elements
        || inputs[0].span != output.span
      then None
      else
        var scalar := |inputs| == 2 && inputs[1].elements == 1 && output.elements > 1;
        if scalar && inputs[1].span != size then None
        else if |inputs| == 2 && !scalar
          && (inputs[1].elements != output.elements || inputs[1].span != output.span) then None
        else
          Some(Legacy(target.invocation, target.range, |inputs|, output.elements, output.span,
                      ProjectedFlags(output.dtype, scalar)))
  }

  function ProjectAll(targets: seq<Target>): Option<seq<Target>>
    requires forall t :: t in targets ==> t.Versioned?
  {
    if targets == [] then Some([])
    else
      var first, rest := Project(targets[0]), ProjectAll(targets[1..]);
      if first == None || rest == None then None else Some([first.value] + rest.value)
  }

  /** The tensor records a version 1 target stands for. */
  function RecoveredInputs(target: Target): seq<Tensor>
    requires target.Legacy? && LegacyDType(target.flags).Some?
  {
    var dtype := LegacyDType(target.flags).value;
    var first := Tensor(Input, 0, dtype, target.elements, target.span, 0x07);
    if target.inputCount == 1 then [first]
    else if LegacyScalars(target.flags) == [1] then [first, Tensor(Input, 1, dtype, 1, ElementSize(dtype), 0x07)]
    else [first, first.(index := 1)]
  }

  function RecoveredOutput(target: Target): Tensor
    requires target.Legacy? && LegacyDType(target.flags).Some?
  {
    Tensor(Output, 0, LegacyDType(target.flags).value, target.elements, target.span, 0x0F)
  }

  lemma FlagsSayTypeAndScalar(dtype: DType, scalar: bool)
    requires dtype == F16 || dtype == F32
    ensures LegacyDType(ProjectedFlags(dtype, scalar)) == Some(dtype)
    ensures LegacyScalars(ProjectedFlags(dtype, scalar)) == if scalar then [1] else []
  {
  }

  /** Every tensor of a projectable record can be read back from its projection. */
  lemma ProjectionIsRecoverable(target: Target)
    requires target.Versioned? && Project(target).Some?
    ensures
      var p := Project(target).value;
      && p.Legacy? && p.invocation == target.invocation && p.range == target.range && LegacyDType(p.flags).Some?
      && WithRole(target.tensors, Input) == RecoveredInputs(p)
      && WithRole(target.tensors, Output) == [RecoveredOutput(p)]
      && ScalarIndices(WithRole(target.tensors, Input), p.elements) == LegacyScalars(p.flags)
  {
    var p := Project(target).value;
    var inputs, outputs := WithRole(target.tensors, Input), WithRole(target.tensors, Output);
    RoleIsRight(target.tensors, Input);
    RoleIsRight(target.tensors, Output);
    var output := outputs[0];
    var scalar := |inputs| == 2 && inputs[1].elements == 1 && output.elements > 1;
    FlagsSayTypeAndScalar(output.dtype, scalar);
    assert inputs[0] == Tensor(Input, 0, output.dtype, output.elements, output.span, 0x07);
    assert outputs == [RecoveredOutput(p)];
    if |inputs| == 2 {
      assert inputs[1].role == Input && inputs[1].index == 1 && inputs[1].dtype == output.dtype;
      assert inputs == [inputs[0], inputs[1]];
      assert ScalarIndices(inputs[1..][1..], p.elements) == [];
    } else {
      assert inputs == [inputs[0]];
    }
  }

  /**
   The three layouts that have a version 1 record, and that record: one input, two equal inputs, or a second input
   of one element.  By `ProjectionIsRecoverable` there are no others.
   */
  lemma LayoutsThatProject(target: Target, half: bool, n: nat)
    requires target.Versioned? && target.targetFlags == 0
    requires
      var dtype, size := if half then F16 else F32, if half then 2 else 4;
      WithRole(target.tensors, Output) == [Tensor(Output, 0, dtype, n, n * size, 0x0F)]
    ensures
      var dtype, size := if half then F16 else F32, if half then 2 else 4;
      var inputs, first := WithRole(target.tensors, Input), Tensor(Input, 0, dtype, n, n * size, 0x07);
      && (inputs == [first] ==>
            Project(target)
              == Some(Legacy(target.invocation, target.range, 1, n, n * size, if half then 0x1F else 0x3B)))
      && (inputs == [first, Tensor(Input, 1, dtype, n, n * size, 0x07)] ==>
            Project(target)
              == Some(Legacy(target.invocation, target.range, 2, n, n * size, if half then 0x1F else 0x3B)))
      && (n > 1 && inputs == [first, Tensor(Input, 1, dtype, 1, size, 0x07)] ==>
            Project(target)
              == Some(Legacy(target.invocation, target.range, 2, n, n * size, if half then 0x5F else 0x7B)))
  {
    hide WithRole;
    FlagValues();
  }

  lemma FlagValues()
    ensures ProjectedFlags(F16, false) == 0x1F && ProjectedFlags(F32, false) == 0x3B
    ensures ProjectedFlags(F16, true) == 0x5F && ProjectedFlags(F32, true) == 0x7B
  {
  }

  /** What the flags of a version 1 record say, by value. */
  lemma FlagsByValue()
    ensures LegacyDType(0x1F) == LegacyDType(0x5F) == Some(F16) && LegacyDType(0x3B) == LegacyDType(0x7B) == Some(F32)
    ensures LegacyDType(0x1B) == LegacyDType(0x3F) == None
    ensures LegacyScalars(0x1F) == LegacyScalars(0x3B) == [] && LegacyScalars(0x5F) == LegacyScalars(0x7B) == [1]
  {
  }

  /** The positions of a node's scalar inputs, by position: two-input nodes, and four layouts of five inputs. */
  lemma ScalarPositions(node: Node, i: nat)
    requires node.outputs != []
    ensures
      var output, inputs := node.outputs[0].shape, node.inputs;
      i in ExpectedScalars(node) <==>
        && Elements(output) > 1
        && (|| (|inputs| == 2 && i < 2
                && (Elements(inputs[i].shape) == 1 || (output == [4, 8] && inputs[i].shape == [4, 1])))
            || (|inputs| == 5 && 1 <= i <= 4 && (FiveInputs(node, 1, 1, 32, 1) || FiveInputs(node, 1, 4, 8, 4)))
            || (|inputs| == 5 && 2 <= i <= 4 && (FiveInputs(node, 2, 1, 32, 1) || FiveInputs(node, 2, 4, 8, 4))))
  {
    var output, inputs := node.outputs[0].shape, node.inputs;
    hide Elements;
    if |inputs| == 5 {
      ShapedFrom(node, 1, 1, 32, 1);
      ShapedFrom(node, 1, 4, 8, 4);
      ShapedFrom(node, 2, 1, 32, 1);
      ShapedFrom(node, 2, 4, 8, 4);
      hide AllShaped, FiveInputs;
      assert inputs[..1] == [inputs[0]];
      FirstShaped(inputs[0], [1, 32]);
      FirstShaped(inputs[0], [4, 8]);
    }
  }

  /** Output and the first `wide` inputs are `rows` by `columns`; the other inputs are `rest` by one. */
  ghost predicate FiveInputs(node: Node, wide: nat, rows: nat, columns: nat, rest: nat)
    requires node.outputs != [] && |node.inputs| == 5
  {
    && node.outputs[0].shape == [rows, columns]
    && (forall k :: 0 <= k < wide && k < 5 ==> node.inputs[k].shape == [rows, columns])
    && (forall k :: wide <= k < 5 ==> node.inputs[k].shape == [rest, 1])
  }

  lemma FirstShaped(spec: Spec, shape: seq<nat>)
    ensures AllShaped([spec], shape) <==> spec.shape == shape
  {
    assert spec in [spec];
  }

  lemma ShapedFrom(node: Node, wide: nat, rows: nat, columns: nat, rest: nat)
    requires node.outputs != [] && |node.inputs| == 5 && wide <= 5
    ensures FiveInputs(node, wide, rows, columns, rest) <==>
      && node.outputs[0].shape == [rows, columns] && AllShaped(node.inputs[..wide], [rows, columns])
      && AllShaped(node.inputs[wide..], [rest, 1])
  {
    var front, back := node.inputs[..wide], node.inputs[wide..];
    if AllShaped(front, [rows, columns]) && AllShaped(back, [rest, 1]) {
      forall k | 0 <= k < wide ensures node.inputs[k].shape == [rows, columns] {
        assert front[k] in front;
      }
      forall k | wide <= k < 5 ensures node.inputs[k].shape == [rest, 1] {
        assert back[k - wide] in back;
      }
    }
  }

  lemma {:induction false} RoleIsRight(tensors: seq<Tensor>, role: Role)
    ensures forall i :: 0 <= i < |WithRole(tensors, role)| ==> WithRole(tensors, role)[i].role == role
  {
    if tensors != [] {
      RoleIsRight(tensors[1..], role);
    }
  }

  ghost predicate VersionedFits(node: Node, target: Target)
    requires node.outputs != [] && target.Versioned?
  {
    var inputs, outputs := WithRole(target.tensors, Input), WithRole(target.tensors, Output);
    && DTypes(inputs) == InputTypes(node) && |outputs| == 1 && outputs[0].dtype == node.outputs[0].dtype
    && ScalarIndices(inputs, outputs[0].elements) == ExpectedScalars(node)
  }

  ghost predicate LegacyFits(node: Node, target: Target)
    requires node.outputs != [] && target.Legacy?
  {
    && target.inputCount == |node.inputs| && LegacyDType(target.flags) == Some(node.outputs[0].dtype)
    && InputTypes(node) == Uniform(node.outputs[0].dtype, |node.inputs|)
    && LegacyScalars(target.flags) == ExpectedScalars(node)
  }

  lemma {:induction false} VersionedVerdictMeaning(node: Node, targets: seq<Target>)
    requires node.outputs != [] && forall t :: t in targets ==> t.Versioned?
    ensures VersionedVerdict(node, targets) == Match
       <==> forall i :: 0 <= i < |targets| ==> VersionedFits(node, targets[i])
  {
    if targets != [] {
      VersionedVerdictMeaning(node, targets[1..]);
      hide WithRole, ScalarIndices, ExpectedScalars;
      assert VersionedFits(node, targets[0]) ==>
        VersionedVerdict(node, targets) == VersionedVerdict(node, targets[1..]);
      assert !VersionedFits(node, targets[0]) ==> VersionedVerdict(node, targets) != Match;
      assert forall i :: 1 <= i < |targets| ==> targets[i] == targets[1..][i - 1];
    }
  }

  lemma FitIsProjected(node: Node, target: Target)
    requires node.outputs != [] && target.Versioned? && Project(target).Some?
    ensures VersionedFits(node, target) <==> LegacyFits(node, Project(target).value)
  {
    ProjectionIsRecoverable(target);
    hide Project, WithRole, ScalarIndices, ExpectedScalars;
    var p := Project(target).value;
    var inputs := WithRole(target.tensors, Input);
    var dtype := LegacyDType(p.flags).value;
    assert |inputs| == p.inputCount && DTypes(inputs) == Uniform(dtype, |inputs|) by { assert 1 <= p.inputCount <= 2; }
    assert VersionedFits(node, target) ==> |DTypes(inputs)| == |InputTypes(node)|;
  }

  lemma {:induction false} ProjectAllPointwise(targets: seq<Target>)
    requires (forall t :: t in targets ==> t.Versioned?) && ProjectAll(targets).Some?
    ensures
      var p := ProjectAll(targets).value;
      && |p| == |targets| && SumElements(p) == SumElements(targets)
      && forall i :: 0 <= i < |p| ==> Project(targets[i]) == Some(p[i]) && p[i].Legacy?
  {
    if targets != [] {
      ProjectAllPointwise(targets[1..]);
      ProjectionIsRecoverable(targets[0]);
      hide Project;
      var p := ProjectAll(targets).value;
      assert p[1..] == ProjectAll(targets[1..]).value;
    }
  }

  ghost predicate Covers(node: Node, targets: seq<Target>, cover: bool)
    requires |node.outputs| == 1
  {
    cover ==> SumElements(targets) == Elements(node.outputs[0].shape)
  }

  lemma VersionedAccepted(node: Node, targets: seq<Target>, cover: bool)
    requires |node.outputs| == 1 && targets != [] && forall t :: t in targets ==> t.Versioned?
    ensures Accepts(node, targets, cover) <==>
      (forall i :: 0 <= i < |targets| ==> VersionedFits(node, targets[i])) && Covers(node, targets, cover)
  {
    VersionedVerdictMeaning(node, targets);
    hide VersionedVerdict, LegacyVerdict, VersionedFits, SumElements;
    assert targets[0] in targets && !targets[0].Legacy?;
  }

  lemma LegacyAccepted(node: Node, targets: seq<Target>, cover: bool)
    requires |node.outputs| == 1 && targets != [] && forall t :: t in targets ==> t.Legacy?
    ensures Accepts(node, targets, cover) <==>
      (forall i :: 0 <= i < |targets| ==> LegacyFits(node, targets[i])) && Covers(node, targets, cover)
  {
  }

  /** For every node and every fully projectable tuple, the projection is accepted iff the original is. */
  lemma ProjectionPreservesMeaning(node: Node, targets: seq<Target>, cover: bool)
    requires (forall t :: t in targets ==> t.Versioned?) && ProjectAll(targets).Some?
    ensures Accepts(node, ProjectAll(targets).value, cover) <==> Accepts(node, targets, cover)
  {
    ProjectAllPointwise(targets);
    var p := ProjectAll(targets).value;
    if |node.outputs| == 1 && targets != [] {
      hide *;
      VersionedAccepted(node, targets, cover);
      LegacyAccepted(node, p, cover);
      forall i | 0 <= i < |p| ensures VersionedFits(node, targets[i]) <==> LegacyFits(node, p[i]) {
        FitIsProjected(node, targets[i]);
      }
      assert Covers(node, p, cover) <==> Covers(node, targets, cover) by { SameCover(node, targets, p, cover); }
    }
  }

  lemma SameCover(node: Node, targets: seq<Target>, projected: seq<Target>, cover: bool)
    requires |node.outputs| == 1 && SumElements(projected) == SumElements(targets)
    ensures Covers(node, projected, cover) <==> Covers(node, targets, cover)
  {
  }
}
