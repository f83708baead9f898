/**
 Static shape inference: the operators that rearrange a tensor's dimensions, as an algebra with inverses.
 */
module Shapes {
  import opened Wrappers
  import opened Sequences
  import opened Targets

  type Shape = seq<nat>

  /** Tensor specs only ever hold positive dimensions. */
  ghost predicate Static(shape: seq<int>) {
    forall i :: 0 <= i < |shape| ==> shape[i] > 0
  }

  // ---------------------------------------------------------------------------------------------
  // Element counts.

  lemma Swap(x: nat, y: nat, z: nat)
    ensures x * y * z == x * z * y
  {
  }

  lemma ElementsLast(s: Shape, d: nat)
    ensures Elements(s + [d]) == Elements(s) * d
  {
  }

  /** One dimension is one factor, wherever it stands. */
  lemma {:induction false} ElementsInsert(a: Shape, d: nat, b: Shape)
    ensures Elements(a + [d] + b) == Elements(a + b) * d
  {
    hide Elements;
    if b == [] {
      assert a + [d] + b == a + [d] && a + b == a;
      ElementsLast(a, d);
    } else {
      var front, last := b[..|b| - 1], b[|b| - 1];
      ElementsInsert(a, d, front);
      assert a + [d] + b == (a + [d] + front) + [last] && a + b == (a + front) + [last];
      ElementsLast(a + [d] + front, last);
      ElementsLast(a + front, last);
      Swap(Elements(a + front), d, last);
    }
  }

  lemma ElementsUpdate(s: Shape, i: nat, d: nat)
    requires i < |s|
    ensures Elements(s[i := d]) == Elements(s[i := 1]) * d
  {
    hide Elements;
    var a, b := s[..i], s[i + 1..];
    assert s[i := d] == a + [d] + b && s[i := 1] == a + [1] + b;
    ElementsInsert(a, d, b);
    ElementsInsert(a, 1, b);
  }

  /** A shape has elements exactly when all its dimensions are positive, so keeping the count keeps that. */
  lemma {:induction false} ElementsPositive(s: Shape)
    ensures Elements(s) > 0 <==> Static(s)
  {
    if s != [] {
      var n := |s| - 1;
      ElementsPositive(s[..n]);
      assert Static(s) <==> Static(s[..n]) && s[n] > 0;
      if Elements(s[..n]) > 0 && s[n] > 0 {
        assert Elements(s[..n]) * s[n] > 0;
      }
    }
  }

  // ---------------------------------------------------------------------------------------------
  // Broadcasting.

  /** The dimension at an offset from the right; missing dimensions are one. */
  function At(s: Shape, offset: nat): nat
    requires offset > 0
  {
    if offset <= |s| then s[|s| - offset] else 1
  }

  function Max(a: nat, b: nat): nat {
    if a < b then b else a
  }

  predicate Compatible(left: Shape, right: Shape, offset: nat)
    requires offset > 0
  {
    At(left, offset) == At(right, offset) || At(left, offset) == 1 || At(right, offset) == 1
  }

  ghost predicate AllCompatible(left: Shape, right: Shape) {
    forall offset :: 1 <= offset <= Max(|left|, |right|) ==> Compatible(left, right, offset)
  }

  /** The larger dimension at every offset. */
  function Stretched(left: Shape, right: Shape, rank: nat): Shape {
    seq(rank, i requires 0 <= i < rank => Larger(left, right, rank - i))
  }

  function Larger(left: Shape, right: Shape, offset: nat): nat
    requires offset > 0
  {
    Max(At(left, offset), At(right, offset))
  }

  ghost function Broadcast(left: Shape, right: Shape): Option<Shape> {
    if AllCompatible(left, right) then Some(Stretched(left, right, Max(|left|, |right|))) else None
  }

  /** The broadcast shape is built from the right and reversed; the first clash refuses. */
  method BroadcastShape(left: Shape, right: Shape) returns (result: Option<Shape>)
    ensures result == Broadcast(left, right)
  {
    var rank := Max(|left|, |right|);
    var reversed: seq<nat> := [];
    for offset := 1 to rank + 1
      invariant |reversed| == offset - 1
      invariant forall o :: 1 <= o < offset ==> Compatible(left, right, o)
      invariant forall i :: 0 <= i < |reversed| ==> reversed[i] == Max(At(left, i + 1), At(right, i + 1))
    {
      var l, r := At(left, offset), At(right, offset);
      if l != r && l != 1 && r != 1 {
        assert !Compatible(left, right, offset);
        return None;
      }
      reversed := reversed + [Max(l, r)];
    }
    var shape := seq(rank, i requires 0 <= i < rank => reversed[rank - 1 - i]);
    forall o | 1 <= o <= rank ensures At(shape, o) == At(Broadcast(left, right).value, o) {
      BroadcastAt(left, right, o);
      assert At(shape, o) == reversed[o - 1];
    }
    SameShape(shape, Broadcast(left, right).value);
    result := Some(shape);
  }

  /** `s` stretches to `t` by repeating dimensions of size one and adding leading ones. */
  ghost predicate Stretches(s: Shape, t: Shape) {
    |s| <= |t| && forall offset :: 1 <= offset <= |t| ==> At(s, offset) == 1 || At(s, offset) == At(t, offset)
  }

  lemma BroadcastAt(left: Shape, right: Shape, offset: nat)
    requires Broadcast(left, right).Some? && offset > 0
    ensures At(Broadcast(left, right).value, offset) == Max(At(left, offset), At(right, offset))
    ensures Compatible(left, right, offset)
  {
    var rank := Max(|left|, |right|);
    if offset <= rank {
      assert Stretched(left, right, rank)[rank - offset] == Larger(left, right, rank - (rank - offset));
    }
  }

  /**
   Broadcasting is the least upper bound of stretching: both shapes stretch to the result, the result stretches
   to every shape both stretch to, and there is no such shape where it is undefined.
   */
  lemma BroadcastIsLeastUpperBound(left: Shape, right: Shape)
    requires Static(left) && Static(right)
    ensures
      var result := Broadcast(left, right);
      && (result.Some? ==> Static(result.value) && Stretches(left, result.value) && Stretches(right, result.value))
      && (forall t :: Stretches(left, t) && Stretches(right, t) ==> result.Some? && Stretches(result.value, t))
  {
    var result := Broadcast(left, right);
    if result.Some? {
      forall offset | 1 <= offset <= |result.value|
        ensures At(left, offset) == 1 || At(left, offset) == At(result.value, offset)
        ensures At(right, offset) == 1 || At(right, offset) == At(result.value, offset)
      {
        BroadcastAt(left, right, offset);
      }
      forall i | 0 <= i < |result.value| ensures result.value[i] > 0 {
        var offset := |result.value| - i;
        StaticAt(left, offset);
        StaticAt(right, offset);
        BroadcastAt(left, right, offset);
        assert result.value[i] == At(result.value, offset);
      }
    }
    forall t | Stretches(left, t) && Stretches(right, t) ensures result.Some? && Stretches(result.value, t) {
      UpperBound(left, right, t);
    }
  }

  lemma UpperBound(left: Shape, right: Shape, t: Shape)
    requires Static(left) && Static(right) && Stretches(left, t) && Stretches(right, t)
    ensures Broadcast(left, right).Some? && Stretches(Broadcast(left, right).value, t)
  {
    forall offset | 1 <= offset <= Max(|left|, |right|) ensures Compatible(left, right, offset) {
      assert offset <= |t|;
    }
    forall offset | 1 <= offset <= |t|
      ensures var d := At(Broadcast(left, right).value, offset); d == 1 || d == At(t, offset)
    {
      BroadcastAt(left, right, offset);
    }
  }

  lemma BroadcastIdempotent(s: Shape)
    ensures Broadcast(s, s) == Some(s)
  {
    assert forall offset :: 1 <= offset <= |s| ==> Compatible(s, s, offset);
    forall o | 1 <= o <= |s| ensures At(Broadcast(s, s).value, o) == At(s, o) {
      BroadcastAt(s, s, o);
    }
    SameShape(Broadcast(s, s).value, s);
  }

  lemma BroadcastCommutative(left: Shape, right: Shape)
    ensures Broadcast(left, right) == Broadcast(right, left)
  {
    if Broadcast(left, right).Some? {
      forall offset | 1 <= offset <= Max(|left|, |right|) ensures Compatible(right, left, offset) {
        assert Compatible(left, right, offset);
      }
      forall o | 1 <= o <= Max(|left|, |right|) ensures At(Broadcast(left, right).value, o)
        == At(Broadcast(right, left).value, o) {
        BroadcastAt(left, right, o);
        BroadcastAt(right, left, o);
      }
      SameShape(Broadcast(left, right).value, Broadcast(right, left).value);
    } else {
      var offset :| 1 <= offset <= Max(|left|, |right|) && !Compatible(left, right, offset);
      assert !Compatible(right, left, offset);
    }
  }

  ghost function BroadcastLeft(left: Option<Shape>, right: Shape): Option<Shape> {
    if left.Some? then Broadcast(left.value, right) else None
  }

  lemma StaticAt(s: Shape, offset: nat)
    requires Static(s) && offset > 0
    ensures At(s, offset) >= 1
  {
  }

  /** Three shapes agree at an offset when no two of them clash there. */
  ghost predicate Agree(a: Shape, b: Shape, c: Shape, offset: nat)
    requires offset > 0
  {
    Compatible(a, b, offset) && Compatible(b, c, offset) && Compatible(a, c, offset)
  }

  /** Broadcasting three shapes one after the other is defined where no two clash, and takes the largest. */
  lemma BroadcastThree(a: Shape, b: Shape, c: Shape)
    requires Static(a) && Static(b) && Static(c)
    ensures
      var rank := Max(Max(|a|, |b|), |c|);
      var result := BroadcastLeft(Broadcast(a, b), c);
      && (result.Some? <==> forall offset :: 1 <= offset <= rank ==> Agree(a, b, c, offset))
      && (result.Some? ==>
            && |result.value| == rank
            && (forall o :: 1 <= o <= rank ==> At(result.value, o) == Max(Max(At(a, o), At(b, o)), At(c, o))))
  {
    var rank := Max(Max(|a|, |b|), |c|);
    var result := BroadcastLeft(Broadcast(a, b), c);
    if result.Some? {
      forall o | 1 <= o <= rank
        ensures Agree(a, b, c, o) && At(result.value, o) == Max(Max(At(a, o), At(b, o)), At(c, o))
      {
        ThreeAgree(a, b, c, o);
      }
    } else if forall offset :: 1 <= offset <= rank ==> Agree(a, b, c, offset) {
      AgreementIsEnough(a, b, c);
    }
  }

  lemma ThreeAgree(a: Shape, b: Shape, c: Shape, o: nat)
    requires Static(a) && Static(b) && Static(c) && o > 0
    requires BroadcastLeft(Broadcast(a, b), c).Some?
    ensures Agree(a, b, c, o)
    ensures At(BroadcastLeft(Broadcast(a, b), c).value, o) == Max(Max(At(a, o), At(b, o)), At(c, o))
  {
    StaticAt(a, o);
    StaticAt(b, o);
    StaticAt(c, o);
    BroadcastAt(a, b, o);
    BroadcastAt(Broadcast(a, b).value, c, o);
  }

  lemma AgreementIsEnough(a: Shape, b: Shape, c: Shape)
    requires Static(a) && Static(b) && Static(c)
    requires forall offset :: 1 <= offset <= Max(Max(|a|, |b|), |c|) ==> Agree(a, b, c, offset)
    ensures BroadcastLeft(Broadcast(a, b), c).Some?
  {
    forall o | 1 <= o <= Max(|a|, |b|) ensures Compatible(a, b, o) {
      assert Agree(a, b, c, o);
    }
    var ab := Broadcast(a, b).value;
    forall o | 1 <= o <= Max(|ab|, |c|) ensures Compatible(ab, c, o) {
      assert Agree(a, b, c, o);
      BroadcastAt(a, b, o);
    }
  }

  lemma SameShape(s: Shape, t: Shape)
    requires |s| == |t| && forall o :: 1 <= o <= |s| ==> At(s, o) == At(t, o)
    ensures s == t
  {
    forall i | 0 <= i < |s| ensures s[i] == t[i] {
      assert At(s, |s| - i) == At(t, |s| - i);
    }
  }

  /** Grouping does not matter, neither for the result nor for whether there is one. */
  lemma BroadcastAssociative(a: Shape, b: Shape, c: Shape)
    requires Static(a) && Static(b) && Static(c)
    ensures BroadcastLeft(Broadcast(a, b), c) == if Broadcast(b, c).Some? then
      Broadcast(a, Broadcast(b, c).value)
      else None
  {
    hide Broadcast, At, Compatible, Static;
    var one, other := BroadcastLeft(Broadcast(a, b), c), BroadcastLeft(Broadcast(b, c), a);
    BroadcastThree(a, b, c);
    BroadcastThree(b, c, a);
    if Broadcast(b, c).Some? {
      BroadcastCommutative(a, Broadcast(b, c).value);
    }
    var rank := Max(Max(|a|, |b|), |c|);
    forall o | 1 <= o <= rank ensures Agree(a, b, c, o) == Agree(b, c, a, o) {
      AgreeRotates(a, b, c, o);
    }
    if one.Some? {
      forall o | 1 <= o <= rank ensures Agree(b, c, a, o) {
        assert Agree(a, b, c, o);
      }
      SameShape(one.value, other.value);
    } else if other.Some? {
      forall o | 1 <= o <= rank ensures Agree(a, b, c, o) {
        assert Agree(b, c, a, o);
      }
    }
  }

  lemma AgreeRotates(a: Shape, b: Shape, c: Shape, offset: nat)
    requires offset > 0
    ensures Agree(a, b, c, offset) == Agree(b, c, a, offset)
  {
  }

  // ---------------------------------------------------------------------------------------------
  // Axes.

  /** An axis counted from the end becomes one counted from the start. */
  function Axis(axis: int, rank: nat): int {
    if axis < 0 then axis + rank else axis
  }

  function AxesOf(axes: seq<int>, rank: nat): seq<int> {
    seq(|axes|, i requires 0 <= i < |axes| => Axis(axes[i], rank))
  }

  function SetOf(axes: seq<int>): set<int> {
    set a | a in axes
  }

  lemma {:induction false} SetSize(axes: seq<int>)
    ensures |SetOf(axes)| <= |axes|
    ensures |SetOf(axes)| == |axes| ==> forall i, j :: 0 <= i < j < |axes| ==> axes[i] != axes[j]
  {
    if axes != [] {
      var n := |axes| - 1;
      var front, last := axes[..n], axes[n];
      SetSize(front);
      assert axes == front + [last];
      assert SetOf(axes) == SetOf(front) + {last};
    }
  }

  // ---------------------------------------------------------------------------------------------
  // Transpose.

  function Range(rank: nat): set<int> {
    if rank == 0 then {} else Range(rank - 1) + {rank - 1}
  }

  function Select(shape: Shape, order: seq<int>): Shape
    requires InRange(order, |shape|)
  {
    seq(|order|, i requires 0 <= i < |order| => shape[order[i]])
  }

  /** Every axis occurs, and there are no more entries than axes. */
  predicate Permutation(order: seq<int>, rank: nat) {
    |order| == rank && InRange(order, rank) && forall a :: 0 <= a < rank ==> a in order
  }

  function Transpose(data: Spec, order: seq<int>): (result: Option<Spec>) {
    if Permutation(order, |data.shape|) then Some(Spec(Select(data.shape, order), data.dtype)) else None
  }

  lemma {:induction false} RangeSize(rank: nat)
    ensures |Range(rank)| == rank && forall a :: a in Range(rank) <==> 0 <= a < rank
  {
    if rank > 0 {
      RangeSize(rank - 1);
    }
  }

  lemma PermutationIsInjective(order: seq<int>, rank: nat)
    requires Permutation(order, rank)
    ensures forall i, j :: 0 <= i < j < rank ==> order[i] != order[j]
  {
    RangeSize(rank);
    forall a | a in SetOf(order) ensures a in Range(rank) {
      var i :| 0 <= i < |order| && order[i] == a;
    }
    forall a | a in Range(rank) ensures a in SetOf(order) {
      assert a in order;
    }
    assert SetOf(order) == Range(rank);
    SetSize(order);
  }

  function Without(order: seq<int>, j: nat): seq<int>
    requires j < |order|
  {
    order[..j] + order[j + 1..]
  }

  /** Leaving out the place of the last axis leaves a permutation of the others. */
  lemma WithoutLast(order: seq<int>, rank: nat, j: nat)
    requires Permutation(order, rank) && j < rank && order[j] == rank - 1
    ensures Permutation(Without(order, j), rank - 1)
  {
    PermutationIsInjective(order, rank);
    var rest := Without(order, j);
    forall a | 0 <= a < rank - 1 ensures a in rest {
      assert a in order;
      var i :| 0 <= i < |order| && order[i] == a;
      assert rest[if i < j then i else i - 1] == a;
    }
    forall i | 0 <= i < |rest| ensures 0 <= rest[i] < rank - 1 {
      var k := if i < j then i else i + 1;
      assert rest[i] == order[k] && order[k] != order[j];
    }
  }

  lemma {:induction false} SelectKeepsElements(shape: Shape, order: seq<int>)
    requires Permutation(order, |shape|)
    ensures InRange(order, |shape|) && Elements(Select(shape, order)) == Elements(shape)
  {
    if shape != [] {
      var n := |shape| - 1;
      assert n in order;
      var j :| 0 <= j < |order| && order[j] == n;
      WithoutLast(order, |shape|, j);
      SelectKeepsElements(shape[..n], Without(order, j));
      SelectWithout(shape, order, j);
      hide Elements, Permutation, Without;
      ElementsRemove(Select(shape, order), j);
      ElementsLast(shape[..n], shape[n]);
      assert shape[..n] + [shape[n]] == shape;
    }
  }

  lemma SelectWithout(shape: Shape, order: seq<int>, j: nat)
    requires Permutation(order, |shape|) && j < |order| && order[j] == |shape| - 1
    requires InRange(Without(order, j), |shape| - 1)
    ensures
      var selected := Select(shape, order);
      Select(shape[..|shape| - 1], Without(order, j)) == selected[..j] + selected[j + 1..]
  {
  }

  /** Taking one dimension out divides by it. */
  lemma ElementsRemove(s: Shape, j: nat)
    requires j < |s|
    ensures Elements(s) == Elements(s[..j] + s[j + 1..]) * s[j]
  {
    hide Elements;
    var a, b := s[..j], s[j + 1..];
    assert s == a + [s[j]] + b;
    ElementsInsert(a, s[j], b);
  }

  lemma TransposeKeepsElements(data: Spec, order: seq<int>)
    requires Transpose(data, order).Some?
    ensures
      var result := Transpose(data, order).value;
      Elements(result.shape) == Elements(data.shape) && |result.shape| == |data.shape| && result.dtype == data.dtype
  {
    SelectKeepsElements(data.shape, order);
  }

  /** Where an axis occurs in an order. */
  function PlaceOf(order: seq<int>, axis: int): (place: nat)
    requires axis in order
    ensures place < |order| && order[place] == axis
  {
    if order[0] == axis then 0 else PlaceOf(order[1..], axis) + 1
  }

  /** The order that undoes a permutation: each axis goes back to its place. */
  function InverseOrder(order: seq<int>, rank: nat): (inverse: seq<int>)
    requires Permutation(order, rank)
    ensures |inverse| == rank && forall a :: 0 <= a < rank ==> 0 <= inverse[a] < rank && order[inverse[a]] == a
  {
    seq(rank, a requires 0 <= a < rank => PlaceOf(order, a))
  }

  lemma InverseIsPermutation(order: seq<int>, rank: nat)
    requires Permutation(order, rank)
    ensures Permutation(InverseOrder(order, rank), rank)
  {
    var inverse := InverseOrder(order, rank);
    PermutationIsInjective(order, rank);
    forall i | 0 <= i < rank ensures i in inverse {
      assert order[inverse[order[i]]] == order[i];
      assert inverse[order[i]] == i;
    }
  }

  /** Every accepted transpose has an inverse order, and transposing with it gives the tensor back. */
  lemma TransposeInverse(data: Spec, order: seq<int>)
    requires Transpose(data, order).Some?
    ensures
      var inverse := InverseOrder(order, |data.shape|);
      Transpose(Transpose(data, order).value, inverse) == Some(data)
  {
    var inverse := InverseOrder(order, |data.shape|);
    InverseIsPermutation(order, |data.shape|);
    assert Select(Select(data.shape, order), inverse) == data.shape;
  }

  // ---------------------------------------------------------------------------------------------
  // Squeeze and Unsqueeze.

  /** The dimensions whose axis is not dropped. */
  function Dropped(shape: Shape, axes: set<int>): Shape {
    if shape == [] then []
    else
      var n := |shape| - 1;
      Dropped(shape[..n], axes) + if n in axes then [] else [shape[n]]
  }

  /** Axes are present, in range and different once counted from the start. */
  predicate ProperAxes(axes: seq<int>, rank: nat) {
    axes != [] && InRange(AxesOf(axes, rank), rank) && |AxisSet(axes, rank)| == |axes|
  }

  function AxisSet(axes: seq<int>, rank: nat): set<int> {
    SetOf(AxesOf(axes, rank))
  }

  function Squeeze(data: Spec, axes: seq<int>): Option<Spec> {
    var rank := |data.shape|;
    if !ProperAxes(axes, rank) then None
    else if exists a :: a in AxisSet(axes, rank) && 0 <= a < rank && data.shape[a] != 1 then None
    else
      var shape := Dropped(data.shape, AxisSet(axes, rank));
      if shape == [] then None else Some(Spec(shape, data.dtype))
  }

  /** The number of axes below `k` that take a dimension from the source. */
  function Taken(inserted: set<int>, k: nat): nat {
    if k == 0 then 0 else Taken(inserted, k - 1) + if k - 1 in inserted then 0 else 1
  }

  /** Ones at the inserted axes, the source's dimensions in order elsewhere. */
  function Filled(shape: Shape, inserted: set<int>, rank: nat): Shape {
    seq(rank, axis requires 0 <= axis < rank =>
      if axis in inserted then 1 else if Taken(inserted, axis) < |shape| then shape[Taken(inserted, axis)] else 0)
  }

  function Unsqueeze(data: Spec, axes: seq<int>): Option<Spec> {
    var rank := |data.shape| + |axes|;
    if ProperAxes(axes, rank) then Some(Spec(Filled(data.shape, AxisSet(axes, rank), rank), data.dtype)) else None
  }

  function Below(axes: set<int>, k: nat): set<int> {
    set a | a in axes && 0 <= a < k
  }

  lemma {:induction false} TakenCounts(axes: set<int>, k: nat)
    ensures Taken(axes, k) + |Below(axes, k)| == k
  {
    if k > 0 {
      TakenCounts(axes, k - 1);
      if k - 1 in axes {
        assert Below(axes, k) == Below(axes, k - 1) + {k - 1};
      } else {
        assert Below(axes, k) == Below(axes, k - 1);
      }
    }
  }

  /** The source is consumed exactly: every dimension is taken and none is missing. */
  lemma TakesAll(axes: seq<int>, rank: nat)
    requires ProperAxes(axes, rank)
    ensures Taken(AxisSet(axes, rank), rank) == rank - |axes|
  {
    var inserted := AxisSet(axes, rank);
    TakenCounts(inserted, rank);
    assert Below(inserted, rank) == inserted;
  }

  lemma {:induction false} TakenGrows(axes: set<int>, j: nat, k: nat)
    requires j < k && j !in axes
    ensures Taken(axes, j) < Taken(axes, k)
  {
    if j < k - 1 {
      TakenGrows(axes, j, k - 1);
    }
  }

  lemma {:induction false} DroppedSize(shape: Shape, axes: set<int>)
    ensures |Dropped(shape, axes)| == Taken(axes, |shape|)
  {
    if shape != [] {
      DroppedSize(shape[..|shape| - 1], axes);
    }
  }

  lemma {:induction false} DroppedAt(shape: Shape, axes: set<int>, k: nat)
    requires k < |shape| && k !in axes
    ensures Taken(axes, k) < |Dropped(shape, axes)| && Dropped(shape, axes)[Taken(axes, k)] == shape[k]
  {
    var n := |shape| - 1;
    if k == n {
      DroppedSize(shape[..n], axes);
    } else {
      DroppedAt(shape[..n], axes, k);
    }
  }

  lemma {:induction false} DroppedKeepsElements(shape: Shape, axes: set<int>)
    requires forall a :: a in axes && 0 <= a < |shape| ==> shape[a] == 1
    ensures Elements(Dropped(shape, axes)) == Elements(shape)
  {
    if shape != [] {
      var n := |shape| - 1;
      DroppedKeepsElements(shape[..n], axes);
      if n !in axes {
        ElementsLast(Dropped(shape[..n], axes), shape[n]);
      } else {
        assert Dropped(shape, axes) == Dropped(shape[..n], axes);
      }
    }
  }

  lemma FilledDropped(shape: Shape, axes: set<int>)
    requires forall a :: a in axes && 0 <= a < |shape| ==> shape[a] == 1
    ensures Filled(Dropped(shape, axes), axes, |shape|) == shape
  {
    var filled := Filled(Dropped(shape, axes), axes, |shape|);
    forall k | 0 <= k < |shape| ensures filled[k] == shape[k] {
      if k !in axes {
        DroppedAt(shape, axes, k);
      }
    }
  }

  lemma TakenLast(axes: set<int>, rank: nat)
    requires rank > 0
    ensures Taken(axes, rank) == Taken(axes, rank - 1) + if rank - 1 in axes then 0 else 1
  {
  }

  lemma FilledLast(shape: Shape, axes: set<int>, rank: nat)
    requires rank > 0 && Taken(axes, rank) <= |shape|
    ensures |Filled(shape, axes, rank - 1)| == rank - 1
    ensures rank - 1 !in axes ==> Taken(axes, rank - 1) < |shape|
    ensures Filled(shape, axes, rank)
      == Filled(shape, axes, rank - 1) + [if rank - 1 in axes then 1 else shape[Taken(axes, rank - 1)]]
  {
    TakenLast(axes, rank);
    hide Taken;
  }

  lemma DroppedLast(front: Shape, last: nat, axes: set<int>)
    ensures Dropped(front + [last], axes) == Dropped(front, axes) + if |front| in axes then [] else [last]
  {
    assert (front + [last])[..|front|] == front;
  }

  lemma {:induction false} DroppedFilled(shape: Shape, axes: set<int>, rank: nat)
    requires Taken(axes, rank) <= |shape|
    ensures Dropped(Filled(shape, axes, rank), axes) == shape[..Taken(axes, rank)]
  {
    if rank > 0 {
      hide Filled, Dropped, Taken;
      TakenLast(axes, rank);
      DroppedFilled(shape, axes, rank - 1);
      FilledLast(shape, axes, rank);
      var t := Taken(axes, rank - 1);
      if rank - 1 in axes {
        DroppedLast(Filled(shape, axes, rank - 1), 1, axes);
      } else {
        DroppedLast(Filled(shape, axes, rank - 1), shape[t], axes);
        assert shape[..t] + [shape[t]] == shape[..t + 1];
      }
    } else {
      assert shape[..0] == [];
    }
  }

  lemma SqueezeKeepsElements(data: Spec, axes: seq<int>)
    requires Squeeze(data, axes).Some?
    ensures
      var result := Squeeze(data, axes).value;
      && Elements(result.shape) == Elements(data.shape) && result.dtype == data.dtype
      && |result.shape| + |axes| == |data.shape|
  {
    hide ProperAxes, AxisSet, Elements, Dropped;
    var inserted := AxisSet(axes, |data.shape|);
    DroppedKeepsElements(data.shape, inserted);
    DroppedSize(data.shape, inserted);
    TakesAll(axes, |data.shape|);
  }

  /** Unsqueezing with the axes of an accepted squeeze gives the tensor back. */
  lemma UnsqueezeSqueeze(data: Spec, axes: seq<int>)
    requires Squeeze(data, axes).Some?
    ensures Unsqueeze(Squeeze(data, axes).value, axes) == Some(data)
  {
    hide ProperAxes, AxisSet, Elements, Dropped, Filled;
    SqueezeKeepsElements(data, axes);
    FilledDropped(data.shape, AxisSet(axes, |data.shape|));
  }

  /** Squeezing an accepted unsqueeze gives the tensor back, unless it was a scalar: that the squeeze refuses. */
  lemma SqueezeUnsqueeze(data: Spec, axes: seq<int>)
    requires Unsqueeze(data, axes).Some?
    ensures Squeeze(Unsqueeze(data, axes).value, axes) == if data.shape == [] then None else Some(data)
  {
    hide ProperAxes, AxisSet, Dropped, Filled, Taken;
    var rank := |data.shape| + |axes|;
    var inserted := AxisSet(axes, rank);
    TakesAll(axes, rank);
    DroppedFilled(data.shape, inserted, rank);
    FilledOnes(data.shape, inserted, rank);
    assert data.shape[..|data.shape|] == data.shape;
  }

  lemma FilledOnes(shape: Shape, inserted: set<int>, rank: nat)
    ensures |Filled(shape, inserted, rank)| == rank
    ensures forall a :: a in inserted && 0 <= a < rank ==> Filled(shape, inserted, rank)[a] == 1
  {
  }

  /** An accepted unsqueeze keeps the element count and only has positive dimensions. */
  lemma UnsqueezeKeepsElements(data: Spec, axes: seq<int>)
    requires Static(data.shape) && Unsqueeze(data, axes).Some?
    ensures
      var result := Unsqueeze(data, axes).value;
      Elements(result.shape) == Elements(data.shape) && Static(result.shape) && result.dtype == data.dtype
  {
    hide ProperAxes, AxisSet, Dropped, Elements, Static, Taken;
    var rank := |data.shape| + |axes|;
    var inserted := AxisSet(axes, rank);
    TakesAll(axes, rank);
    FilledKeepsElements(data.shape, inserted, rank);
    FilledIsStatic(data.shape, inserted, rank);
  }

  lemma FilledKeepsElements(shape: Shape, inserted: set<int>, rank: nat)
    requires Taken(inserted, rank) == |shape|
    ensures Elements(Filled(shape, inserted, rank)) == Elements(shape)
  {
    hide Dropped, Elements, Taken;
    DroppedFilled(shape, inserted, rank);
    DroppedKeepsElements(Filled(shape, inserted, rank), inserted);
    assert shape[..|shape|] == shape;
  }

  lemma FilledIsStatic(shape: Shape, inserted: set<int>, rank: nat)
    requires Static(shape) && Taken(inserted, rank) == |shape|
    ensures Static(Filled(shape, inserted, rank))
  {
    hide Taken;
    forall k | 0 <= k < rank ensures Filled(shape, inserted, rank)[k] > 0 {
      if k !in inserted {
        TakenGrows(inserted, k, rank);
      }
    }
  }

  // ---------------------------------------------------------------------------------------------
  // Reshape.

  /** What one pattern entry asks of the output: a size, the input's own size, or anything. */
  predicate Entry(data: Shape, pattern: seq<int>, specialZero: bool, i: nat)
    requires i < |pattern|
  {
    pattern[i] >= -1 && (pattern[i] == 0 ==> specialZero && i < |data|)
  }

  predicate EntryMatches(data: Shape, pattern: seq<int>, i: nat, dimension: nat)
    requires i < |pattern|
  {
    (pattern[i] == 0 ==> i < |data| && dimension == data[i]) && (pattern[i] > 0 ==> dimension == pattern[i])
  }

  ghost predicate ProperPattern(data: Shape, pattern: seq<int>, specialZero: bool) {
    && (forall i :: 0 <= i < |pattern| ==> Entry(data, pattern, specialZero, i))
    && (forall i, j :: 0 <= i < j < |pattern| ==> pattern[i] != -1 || pattern[j] != -1)
  }

  ghost predicate Matches(data: Shape, pattern: seq<int>, shape: Shape) {
    |shape| == |pattern| && forall i :: 0 <= i < |pattern| ==> EntryMatches(data, pattern, i, shape[i])
  }

  /** The fixed entries with one in the place of the inferred dimension. */
  ghost predicate Resolved(data: Shape, pattern: seq<int>, shape: Shape, inferred: Option<nat>) {
    && Matches(data, pattern, shape)
    && (forall i :: 0 <= i < |pattern| ==> (pattern[i] == -1 <==> inferred == Some(i)))
    && (inferred.Some? ==> inferred.value < |shape| && shape[inferred.value] == 1)
  }

  /** A shape that matches the pattern differs from the resolved one at most in the inferred dimension. */
  lemma MatchingElements(data: Shape, pattern: seq<int>, resolved: Shape, inferred: Option<nat>, shape: Shape)
    requires Resolved(data, pattern, resolved, inferred) && Matches(data, pattern, shape)
    requires forall i :: 0 <= i < |pattern| ==> pattern[i] >= -1
    ensures inferred.None? ==> shape == resolved
    ensures inferred.Some? ==> Elements(shape) == Elements(resolved) * shape[inferred.value]
    ensures inferred.Some? ==> shape == resolved[inferred.value := shape[inferred.value]]
  {
    forall i | 0 <= i < |pattern| && inferred != Some(i) ensures shape[i] == resolved[i] {
      assert EntryMatches(data, pattern, i, shape[i]) && EntryMatches(data, pattern, i, resolved[i]);
    }
    if inferred.Some? {
      var i := inferred.value;
      assert shape == resolved[i := shape[i]] && resolved[i := 1] == resolved;
      ElementsUpdate(resolved, i, shape[i]);
    } else {
      assert shape == resolved;
    }
  }

  /** A shape fits the request when it matches the pattern and holds as many elements as the input. */
  ghost predicate Fits(data: Shape, pattern: seq<int>, specialZero: bool, shape: Shape) {
    ProperPattern(data, pattern, specialZero) && Matches(data, pattern, shape) && Elements(shape) == Elements(data)
  }

  /** Reads the pattern from left to right; `None` for a pattern that is not proper. */
  method ResolvePattern(data: Shape, pattern: seq<int>, specialZero: bool)
      returns (resolved: Option<Shape>, inferred: Option<nat>, known: nat)
    ensures resolved.Some? <==> ProperPattern(data, pattern, specialZero)
    ensures resolved.Some? ==> Resolved(data, pattern, resolved.value, inferred) && known == Elements(resolved.value)
  {
    var shape: Shape := [];
    inferred, known := None, 1;
    for index := 0 to |pattern|
      invariant |shape| == index && known == Elements(shape)
      invariant forall i :: 0 <= i < index ==>
        Entry(data, pattern, specialZero, i) && EntryMatches(data, pattern, i, shape[i])
      invariant forall i :: 0 <= i < index ==> (pattern[i] == -1 <==> inferred == Some(i))
      invariant inferred.Some? ==> inferred.value < index && shape[inferred.value] == 1
    {
      var dimension := pattern[index];
      if dimension == -1 {
        if inferred.Some? {
          return None, inferred, known;
        }
        inferred := Some(index);
        shape := Appended(shape, 1);
      } else {
        if dimension == 0 {
          if !specialZero || index >= |data| {
            assert !Entry(data, pattern, specialZero, index);
            return None, inferred, known;
          }
          dimension := data[index];
        } else if dimension < 0 {
          assert !Entry(data, pattern, specialZero, index);
          return None, inferred, known;
        }
        shape := Appended(shape, dimension);
        known := known * dimension;
      }
    }
    resolved := Some(shape);
  }

  function Appended(shape: Shape, d: nat): (result: Shape)
    ensures |result| == |shape| + 1 && Elements(result) == Elements(shape) * d
  {
    shape + [d]
  }

  /** Answers exactly the requests some shape fits, with the only shape that does. */
  method Reshape(data: Spec, pattern: seq<int>, specialZero: bool) returns (result: Option<Spec>)
    requires Static(data.shape)
    ensures result.Some? ==>
      result.value.dtype == data.dtype && Fits(data.shape, pattern, specialZero, result.value.shape)
    ensures forall shape :: Fits(data.shape, pattern, specialZero, shape) ==> result == Some(Spec(shape, data.dtype))
  {
    hide Elements, Matches;
    var resolved, inferred, known := ResolvePattern(data.shape, pattern, specialZero);
    if resolved.None? {
      return None;
    }
    var shape := resolved.value;
    ElementsPositive(data.shape);
    var elements := Elements(data.shape);
    forall i | 0 <= i < |pattern| ensures pattern[i] >= -1 {
      assert Entry(data.shape, pattern, specialZero, i);
    }
    forall other | Matches(data.shape, pattern, other)
      ensures inferred.None? ==> other == shape
      ensures |other| == |shape|
      ensures inferred.Some? ==> Elements(other) == known * other[inferred.value]
      ensures inferred.Some? ==> other == shape[inferred.value := other[inferred.value]]
    {
      MatchingElements(data.shape, pattern, shape, inferred, other);
      assert |other| == |shape| by { MatchingLength(data.shape, pattern, shape, other); }
    }
    if inferred.Some? {
      if known == 0 || elements % known != 0 {
        forall other | Matches(data.shape, pattern, other) ensures Elements(other) != elements {
          NoQuotient(elements, known, other[inferred.value]);
        }
        return None;
      }
      InferredFits(data.shape, pattern, shape, inferred.value, elements / known);
      forall other | Matches(data.shape, pattern, other) && Elements(other) == elements
        ensures other[inferred.value] == elements / known
      {
        Quotient(elements, known, other[inferred.value]);
      }
      shape := shape[inferred.value := elements / known];
    } else if known != elements {
      return None;
    }
    result := Some(Spec(shape, data.dtype));
  }

  lemma MatchingLength(data: Shape, pattern: seq<int>, shape: Shape, other: Shape)
    requires Matches(data, pattern, shape) && Matches(data, pattern, other)
    ensures |shape| == |other|
  {
  }

  lemma NoQuotient(elements: nat, known: nat, d: nat)
    requires elements > 0 && (known == 0 || elements % known != 0)
    ensures known * d != elements
  {
    if known > 0 && known * d == elements {
      Quotient(elements, known, d);
    }
  }

  lemma Quotient(elements: nat, known: nat, d: nat)
    requires known > 0 && known * d == elements
    ensures elements % known == 0 && elements / known == d
  {
    QuotientIsUnique(known, d, elements / known, elements % known);
  }

  lemma QuotientIsUnique(known: nat, d: nat, quotient: nat, remainder: nat)
    requires known * d == quotient * known + remainder && remainder < known
    ensures d == quotient && remainder == 0
  {
    if d < quotient {
      OneMore(known, d, quotient);
    } else if quotient < d {
      OneMore(known, quotient, d);
    }
  }

  lemma OneMore(known: nat, a: nat, b: nat)
    requires a < b
    ensures known * a + known <= known * b
  {
    var c := b - a - 1;
    assert b == a + 1 + c;
    assert known * (a + 1 + c) == known * a + known + known * c;
  }

  lemma InferredFits(data: Shape, pattern: seq<int>, resolved: Shape, i: nat, d: nat)
    requires Resolved(data, pattern, resolved, Some(i))
    ensures Matches(data, pattern, resolved[i := d]) && Elements(resolved[i := d]) == Elements(resolved) * d
  {
    assert resolved[i := 1] == resolved;
    ElementsUpdate(resolved, i, d);
  }

  // ---------------------------------------------------------------------------------------------
  // Concat, Split and VariadicSplit.

  /** Inputs that may be joined along an axis: equal dtype, rank and other dimensions. */
  predicate Joins(first: Spec, value: Spec, axis: nat) {
    && value.dtype == first.dtype && |value.shape| == |first.shape|
    && forall i :: 0 <= i < |first.shape| && i != axis ==> value.shape[i] == first.shape[i]
  }

  predicate Joinable(inputs: seq<Spec>, axis: int) {
    && inputs != [] && 0 <= Axis(axis, |inputs[0].shape|) < |inputs[0].shape|
    && forall k :: 0 <= k < |inputs| ==> Joins(inputs[0], inputs[k], Axis(axis, |inputs[0].shape|))
  }

  function Total(inputs: seq<Spec>, axis: nat): nat {
    if inputs == [] then 0 else Total(inputs[..|inputs| - 1], axis) + SizeAt(inputs[|inputs| - 1].shape, axis)
  }

  function SizeAt(shape: Shape, axis: nat): nat {
    if axis < |shape| then shape[axis] else 0
  }

  function Joined(inputs: seq<Spec>, axis: int): Option<Spec> {
    if Joinable(inputs, axis) then
      var a := Axis(axis, |inputs[0].shape|);
      Some(inputs[0].(shape := inputs[0].shape[a := Total(inputs, a)]))
    else None
  }

  method SameOthers(value: Shape, first: Shape, axis: nat) returns (same: bool)
    requires |value| == |first|
    ensures same <==> forall i :: 0 <= i < |first| && i != axis ==> value[i] == first[i]
  {
    for dimension := 0 to |first|
      invariant forall i :: 0 <= i < dimension && i != axis ==> value[i] == first[i]
    {
      if dimension != axis && value[dimension] != first[dimension] {
        return false;
      }
    }
    same := true;
  }

  /** Adds up the axis while comparing every other dimension with the first input's. */
  method Concat(inputs: seq<Spec>, axis: int) returns (result: Option<Spec>)
    ensures result == Joined(inputs, axis)
  {
    if inputs == [] {
      return None;
    }
    var first := inputs[0];
    var rank := |first.shape|;
    var a := Axis(axis, rank);
    if !(0 <= a < rank) {
      return None;
    }
    for k := 1 to |inputs|
      invariant forall i :: 0 <= i < k ==> inputs[i].dtype == first.dtype && |inputs[i].shape| == rank
    {
      if inputs[k].dtype != first.dtype || |inputs[k].shape| != rank {
        assert !Joins(first, inputs[k], a);
        return None;
      }
    }
    var shape := first.shape[a := 0];
    for k := 0 to |inputs|
      invariant forall i :: 0 <= i < k ==> Joins(first, inputs[i], a)
      invariant shape == first.shape[a := Total(inputs[..k], a)]
    {
      var same := SameOthers(inputs[k].shape, first.shape, a);
      if !same {
        assert !Joins(first, inputs[k], a);
        return None;
      }
      assert inputs[..k + 1][..k] == inputs[..k];
      shape := shape[a := shape[a] + inputs[k].shape[a]];
    }
    assert inputs[..|inputs|] == inputs;
    result := Some(Spec(shape, first.dtype));
  }

  function Counts(inputs: seq<Spec>): nat {
    if inputs == [] then 0 else Counts(inputs[..|inputs| - 1]) + Elements(inputs[|inputs| - 1].shape)
  }

  lemma {:induction false} TotalCounts(first: Spec, inputs: seq<Spec>, axis: nat)
    requires axis < |first.shape| && forall k :: 0 <= k < |inputs| ==> Joins(first, inputs[k], axis)
    ensures Counts(inputs) == Elements(first.shape[axis := 1]) * Total(inputs, axis)
  {
    if inputs != [] {
      var n := |inputs| - 1;
      TotalCounts(first, inputs[..n], axis);
      var d := inputs[n].shape[axis];
      assert Joins(first, inputs[n], axis);
      assert inputs[n].shape == first.shape[axis := d];
      ElementsUpdate(first.shape, axis, d);
      Distribute(Elements(first.shape[axis := 1]), Total(inputs[..n], axis), d);
    }
  }

  lemma Distribute(x: nat, y: nat, z: nat)
    ensures x * (y + z) == x * y + x * z
  {
  }

  /** Joining loses and invents no element. */
  lemma ConcatKeepsElements(inputs: seq<Spec>, axis: int)
    requires Joined(inputs, axis).Some?
    ensures Elements(Joined(inputs, axis).value.shape) == Counts(inputs)
  {
    var first := inputs[0];
    var a := Axis(axis, |first.shape|);
    TotalCounts(first, inputs, a);
    ElementsUpdate(first.shape, a, Total(inputs, a));
  }

  function Part(data: Spec, axis: nat, length: nat): Spec
    requires axis < |data.shape|
  {
    data.(shape := data.shape[axis := length])
  }

  function Parts(data: Spec, axis: nat, lengths: seq<nat>): seq<Spec>
    requires axis < |data.shape|
  {
    seq(|lengths|, i requires 0 <= i < |lengths| => Part(data, axis, lengths[i]))
  }

  function Split(data: Spec, axis: int, count: int): Option<seq<Spec>> {
    var a := Axis(axis, |data.shape|);
    if a < 0 || a >= |data.shape| || count <= 0 || data.shape[a] % count != 0 then None
    else Some(seq(count, _ => Part(data, a, data.shape[a] / count)))
  }

  function Known(lengths: seq<int>): nat {
    if lengths == [] then 0
    else Known(lengths[..|lengths| - 1]) + if lengths[|lengths| - 1] > 0 then lengths[|lengths| - 1] else 0
  }

  function Holes(lengths: seq<int>): nat {
    if lengths == [] then 0
    else Holes(lengths[..|lengths| - 1]) + if lengths[|lengths| - 1] == -1 then 1 else 0
  }

  /** The lengths with the inferred one filled in. */
  function Completed(lengths: seq<int>, remainder: nat): seq<nat>
    requires forall i :: 0 <= i < |lengths| ==> lengths[i] >= -1
  {
    seq(|lengths|, i requires 0 <= i < |lengths| => if lengths[i] == -1 then remainder else lengths[i])
  }

  function VariadicSplit(data: Spec, axis: int, lengths: seq<int>): Option<seq<Spec>> {
    var a := Axis(axis, |data.shape|);
    if a < 0 || a >= |data.shape| || lengths == [] || Holes(lengths) > 1 then None
    else if exists i :: 0 <= i < |lengths| && (lengths[i] == 0 || lengths[i] < -1) then None
    else if Holes(lengths) == 1 then
      if data.shape[a] - Known(lengths) <= 0 then None
      else Some(Parts(data, a, Completed(lengths, data.shape[a] - Known(lengths))))
    else if Known(lengths) != data.shape[a] then None
    else Some(Parts(data, a, Completed(lengths, 0)))
  }

  lemma {:induction false} TotalOfParts(data: Spec, axis: nat, lengths: seq<nat>)
    requires axis < |data.shape|
    ensures Total(Parts(data, axis, lengths), axis) == Sum(lengths)
  {
    if lengths != [] {
      var n := |lengths| - 1;
      TotalOfParts(data, axis, lengths[..n]);
      SumLast(lengths);
      assert Parts(data, axis, lengths)[..n] == Parts(data, axis, lengths[..n]);
    }
  }

  /** Parts whose lengths add up to the axis join to the whole. */
  lemma JoinParts(data: Spec, axis: int, lengths: seq<nat>)
    requires 0 <= Axis(axis, |data.shape|) < |data.shape| && lengths != []
    requires Sum(lengths) == data.shape[Axis(axis, |data.shape|)]
    ensures Joined(Parts(data, Axis(axis, |data.shape|), lengths), axis) == Some(data)
  {
    var a := Axis(axis, |data.shape|);
    var parts := Parts(data, a, lengths);
    TotalOfParts(data, a, lengths);
    assert forall k :: 0 <= k < |parts| ==> Joins(parts[0], parts[k], a);
    assert parts[0].shape[a := Sum(lengths)] == data.shape;
  }

  lemma {:induction false} SumCompleted(lengths: seq<int>, remainder: nat)
    requires forall i :: 0 <= i < |lengths| ==> lengths[i] >= -1
    ensures Sum(Completed(lengths, remainder)) == Known(lengths) + Holes(lengths) * remainder
  {
    if lengths != [] {
      var n := |lengths| - 1;
      SumCompleted(lengths[..n], remainder);
      SumLast(Completed(lengths, remainder));
      assert Completed(lengths, remainder)[..n] == Completed(lengths[..n], remainder);
      assert (Holes(lengths[..n]) + 1) * remainder == Holes(lengths[..n]) * remainder + remainder;
    }
  }

  /** Joining the parts of an accepted variadic split gives the tensor back. */
  lemma ConcatVariadicSplit(data: Spec, axis: int, lengths: seq<int>)
    requires VariadicSplit(data, axis, lengths).Some?
    ensures Joined(VariadicSplit(data, axis, lengths).value, axis) == Some(data)
  {
    var a := Axis(axis, |data.shape|);
    var remainder := if Holes(lengths) == 1 then data.shape[a] - Known(lengths) else 0;
    SumCompleted(lengths, remainder);
    JoinParts(data, axis, Completed(lengths, remainder));
  }

  lemma {:induction false} SumRepeated(count: nat, length: nat)
    ensures Sum(seq(count, _ => length)) == count * length
  {
    if count > 0 {
      SumRepeated(count - 1, length);
      SumLast(seq(count, _ => length));
      assert seq(count, _ => length)[..count - 1] == seq(count - 1, _ => length);
      assert (count - 1) * length + length == count * length;
    }
  }

  /** An even split gives positive parts, and joining them gives the tensor back. */
  lemma ConcatSplit(data: Spec, axis: int, count: int)
    requires Split(data, axis, count).Some?
    ensures Joined(Split(data, axis, count).value, axis) == Some(data)
    ensures Static(data.shape) ==> forall k :: 0 <= k < count ==> Static(Split(data, axis, count).value[k].shape)
  {
    var a := Axis(axis, |data.shape|);
    var length := data.shape[a] / count;
    Divides(data.shape[a], count);
    SumRepeated(count, length);
    var lengths := seq(count, _ => length);
    assert Split(data, axis, count).value == Parts(data, a, lengths);
    JoinParts(data, axis, lengths);
  }

  lemma Divides(n: nat, count: nat)
    requires count > 0 && n % count == 0
    ensures count * (n / count) == n && (n > 0 ==> n / count > 0)
  {
  }
}
