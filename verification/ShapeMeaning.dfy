/**
 What the shape operators accept, and which dimension goes where.
 */
module ShapeMeaning {
  import opened Wrappers
  import opened Sequences
  import opened Targets
  import opened Shapes

  // ---------------------------------------------------------------------------------------------
  // Axes.

  /** An axis names dimension `k` from the start or from the end. */
  predicate NamesOne(axis: int, rank: nat, k: nat) {
    axis == k || axis + rank == k
  }

  ghost predicate Names(axes: seq<int>, rank: nat, k: nat) {
    exists i :: 0 <= i < |axes| && NamesOne(axes[i], rank, k)
  }

  ghost function NamedBelow(axes: seq<int>, rank: nat, k: nat): set<int>
    requires k <= rank
  {
    set j | 0 <= j < k && Names(axes, rank, j)
  }

  /** At least one axis, each in range, and no dimension named twice. */
  ghost predicate GoodAxes(axes: seq<int>, rank: nat) {
    && axes != [] && (forall i :: 0 <= i < |axes| ==> 0 <= axes[i] + rank && axes[i] < rank)
    && forall i, j :: 0 <= i < j < |axes| ==> !SameDimension(axes[i], axes[j], rank)
  }

  ghost predicate SameDimension(a: int, b: int, rank: nat) {
    exists k: nat :: k < rank && NamesOne(a, rank, k) && NamesOne(b, rank, k)
  }

  lemma AxisNames(axis: int, rank: nat, k: nat)
    requires k < rank
    ensures Axis(axis, rank) == k <==> NamesOne(axis, rank, k)
    ensures 0 <= Axis(axis, rank) < rank <==> 0 <= axis + rank && axis < rank
  {
  }

  lemma AxisSetNames(axes: seq<int>, rank: nat, k: nat)
    requires k < rank
    ensures k in AxisSet(axes, rank) <==> Names(axes, rank, k)
  {
    var named := AxesOf(axes, rank);
    if k in AxisSet(axes, rank) {
      var i :| 0 <= i < |named| && named[i] == k;
      AxisNames(axes[i], rank, k);
    }
    if Names(axes, rank, k) {
      var i :| 0 <= i < |axes| && NamesOne(axes[i], rank, k);
      AxisNames(axes[i], rank, k);
      assert named[i] in named;
    }
  }

  lemma {:induction false} DistinctSetSize(axes: seq<int>)
    requires Distinct(axes)
    ensures |SetOf(axes)| == |axes|
  {
    if axes != [] {
      var n := |axes| - 1;
      DistinctSetSize(axes[..n]);
      assert SetOf(axes) == SetOf(axes[..n]) + {axes[n]};
    }
  }

  lemma ProperMeansGood(axes: seq<int>, rank: nat)
    ensures ProperAxes(axes, rank) <==> GoodAxes(axes, rank)
  {
    var named := AxesOf(axes, rank);
    SetSize(named);
    if Distinct(named) {
      DistinctSetSize(named);
    }
    if InRange(named, rank) {
      forall i, j | 0 <= i < j < |axes| ensures named[i] == named[j] <==> SameDimension(axes[i], axes[j], rank) {
        AxisNames(axes[i], rank, named[i]);
        AxisNames(axes[j], rank, named[i]);
      }
    }
  }

  lemma BelowNames(axes: seq<int>, rank: nat, k: nat)
    requires k <= rank
    ensures |Below(AxisSet(axes, rank), k)| == |NamedBelow(axes, rank, k)|
    ensures Taken(AxisSet(axes, rank), k) == k - |NamedBelow(axes, rank, k)|
  {
    forall j: int ensures j in Below(AxisSet(axes, rank), k) <==> 0 <= j < k && Names(axes, rank, j) {
      if 0 <= j < k {
        AxisSetNames(axes, rank, j);
      }
    }
    TakenCounts(AxisSet(axes, rank), k);
    assert Below(AxisSet(axes, rank), k) == NamedBelow(axes, rank, k);
  }

  // ---------------------------------------------------------------------------------------------
  // Squeeze and Unsqueeze.

  ghost predicate NamedAreOne(whole: Shape, axes: seq<int>) {
    forall k: nat :: k < |whole| && Names(axes, |whole|, k) ==> whole[k] == 1
  }

  /** The dimensions not named stand in order, each in its place less the number of named ones before it. */
  ghost predicate KeepsOthers(whole: Shape, axes: seq<int>, kept: Shape) {
    forall k: nat :: k < |whole| && !Names(axes, |whole|, k) ==>
      && 0 <= k - |NamedBelow(axes, |whole|, k)| < |kept|
      && kept[k - |NamedBelow(axes, |whole|, k)|] == whole[k]
  }

  /** A squeeze is accepted exactly when the axes are good, name only dimensions of one, and leave a dimension. */
  lemma SqueezeMeans(data: Spec, axes: seq<int>)
    ensures
      var rank, result := |data.shape|, Squeeze(data, axes);
      && (result.Some? <==> GoodAxes(axes, rank) && |axes| < rank && NamedAreOne(data.shape, axes))
      && (result.Some? ==>
            && result.value.dtype == data.dtype && |result.value.shape| == rank - |axes|
            && KeepsOthers(data.shape, axes, result.value.shape))
  {
    hide *;
    var rank := |data.shape|;
    ProperMeansGood(axes, rank);
    SqueezeIs(data, axes);
    DroppedKeeps(data.shape, axes);
    if ProperAxes(axes, rank) {
      TakesAll(axes, rank);
      DroppedSize(data.shape, AxisSet(axes, rank));
    }
  }

  lemma SqueezeIs(data: Spec, axes: seq<int>)
    ensures
      var kept := Dropped(data.shape, AxisSet(axes, |data.shape|));
      Squeeze(data, axes)
        == if ProperAxes(axes, |data.shape|) && kept != [] && NamedAreOne(data.shape, axes)
           then Some(Spec(kept, data.dtype)) else None
  {
    hide ProperAxes, AxisSet, Dropped, Names;
    forall k: nat | k < |data.shape| ensures k in AxisSet(axes, |data.shape|) <==> Names(axes, |data.shape|, k) {
      AxisSetNames(axes, |data.shape|, k);
    }
  }

  lemma DroppedKeeps(shape: Shape, axes: seq<int>)
    ensures KeepsOthers(shape, axes, Dropped(shape, AxisSet(axes, |shape|)))
  {
    hide Names, NamedBelow, AxisSet, Dropped;
    forall k: nat | k < |shape| && !Names(axes, |shape|, k)
      ensures
        var kept, place := Dropped(shape, AxisSet(axes, |shape|)), k - |NamedBelow(axes, |shape|, k)|;
        0 <= place < |kept| && kept[place] == shape[k]
    {
      DroppedKeepsOne(shape, axes, k);
    }
  }

  lemma DroppedKeepsOne(shape: Shape, axes: seq<int>, k: nat)
    requires k < |shape| && !Names(axes, |shape|, k)
    ensures
      var kept, place := Dropped(shape, AxisSet(axes, |shape|)), k - |NamedBelow(axes, |shape|, k)|;
      0 <= place < |kept| && kept[place] == shape[k]
  {
    hide *;
    AxisSetNames(axes, |shape|, k);
    DroppedAt(shape, AxisSet(axes, |shape|), k);
    BelowNames(axes, |shape|, k);
  }

  /**
   An unsqueeze is accepted exactly when the axes are good in the new rank; it puts ones at just those axes and
   keeps the other dimensions.
   */
  lemma UnsqueezeMeans(data: Spec, axes: seq<int>)
    ensures
      var rank, result := |data.shape| + |axes|, Unsqueeze(data, axes);
      && (result.Some? <==> GoodAxes(axes, rank))
      && (result.Some? ==>
            && result.value.dtype == data.dtype && |result.value.shape| == rank
            && NamedAreOne(result.value.shape, axes) && KeepsOthers(result.value.shape, axes, data.shape))
  {
    var rank := |data.shape| + |axes|;
    ProperMeansGood(axes, rank);
    hide GoodAxes, NamedAreOne, KeepsOthers, ProperAxes, Taken;
    if ProperAxes(axes, rank) {
      TakesAll(axes, rank);
      FilledKeeps(data.shape, axes, rank);
    }
  }

  lemma FilledKeeps(shape: Shape, axes: seq<int>, rank: nat)
    requires Taken(AxisSet(axes, rank), rank) == |shape|
    ensures
      var filled := Filled(shape, AxisSet(axes, rank), rank);
      |filled| == rank && NamedAreOne(filled, axes) && KeepsOthers(filled, axes, shape)
  {
    var inserted := AxisSet(axes, rank);
    forall k: nat | k < rank
      ensures k in inserted <==> Names(axes, rank, k)
      ensures k !in inserted ==> 0 <= k - |NamedBelow(axes, rank, k)| == Taken(inserted, k) < |shape|
    {
      hide Names, AxisSet, Taken, NamedBelow;
      AxisSetNames(axes, rank, k);
      BelowNames(axes, rank, k);
      if k !in inserted {
        TakenGrows(inserted, k, rank);
      }
    }
    hide Names, AxisSet, Taken, NamedBelow;
  }

  // ---------------------------------------------------------------------------------------------
  // Transpose.

  lemma DistinctIsPermutation(order: seq<int>, rank: nat)
    requires |order| == rank && InRange(order, rank) && Distinct(order)
    ensures Permutation(order, rank)
  {
    DistinctSetSize(order);
    RangeSize(rank);
    forall a | a in SetOf(order) ensures a in Range(rank) {
      var i :| 0 <= i < |order| && order[i] == a;
    }
    EqualSubset(SetOf(order), Range(rank));
    forall a | 0 <= a < rank ensures a in order {
      assert a in Range(rank);
    }
  }

  lemma EqualSubset(a: set<int>, b: set<int>)
    requires a <= b && |a| == |b|
    ensures a == b
  {
    assert b == a + (b - a);
  }

  /** An order is accepted exactly when it lists every axis once, and puts axis `order[i]` in place `i`. */
  lemma TransposeMeans(data: Spec, order: seq<int>)
    ensures
      var rank, result := |data.shape|, Transpose(data, order);
      && (result.Some? <==> |order| == rank && InRange(order, rank) && Distinct(order))
      && (result.Some? ==>
            && result.value.dtype == data.dtype && |result.value.shape| == rank
            && forall i :: 0 <= i < rank ==> result.value.shape[i] == data.shape[order[i]])
  {
    if Permutation(order, |data.shape|) {
      PermutationIsInjective(order, |data.shape|);
    } else if |order| == |data.shape| && InRange(order, |data.shape|) && Distinct(order) {
      DistinctIsPermutation(order, |data.shape|);
    }
  }

  // ---------------------------------------------------------------------------------------------
  // Concat, Split and VariadicSplit.

  lemma {:induction false} TotalIsSum(inputs: seq<Spec>, axis: nat)
    requires forall k :: 0 <= k < |inputs| ==> axis < |inputs[k].shape|
    ensures Total(inputs, axis) == Sum(seq(|inputs|, k requires 0 <= k < |inputs| => inputs[k].shape[axis]))
  {
    if inputs != [] {
      var n := |inputs| - 1;
      var sizes := seq(|inputs|, k requires 0 <= k < |inputs| => inputs[k].shape[axis]);
      TotalIsSum(inputs[..n], axis);
      SumLast(sizes);
      assert sizes[..n] == seq(n, k requires 0 <= k < n => inputs[..n][k].shape[axis]);
    }
  }

  /** Two tensors agree in dtype, rank and every dimension but the one named. */
  ghost predicate AgreeBut(a: Spec, b: Spec, axis: int) {
    && a.dtype == b.dtype && |a.shape| == |b.shape|
    && forall i: nat :: i < |a.shape| && !NamesOne(axis, |a.shape|, i) ==> a.shape[i] == b.shape[i]
  }

  /**
   A join is accepted exactly when all inputs agree but for the named dimension; the result agrees with them too,
   and that dimension is their sum.
   */
  lemma JoinedMeans(inputs: seq<Spec>, axis: int, k: nat)
    requires inputs != [] && k < |inputs[0].shape| && NamesOne(axis, |inputs[0].shape|, k)
    ensures
      var result := Joined(inputs, axis);
      && (result.Some? <==> forall i :: 0 <= i < |inputs| ==> AgreeBut(inputs[0], inputs[i], axis))
      && (result.Some? ==>
            && AgreeBut(inputs[0], result.value, axis)
            && (forall i :: 0 <= i < |inputs| ==> k < |inputs[i].shape|)
            && result.value.shape[k] == Sum(seq(|inputs|, i requires 0 <= i < |inputs| => inputs[i].shape[k])))
  {
    var first := inputs[0];
    AxisNames(axis, |first.shape|, k);
    forall i | 0 <= i < |inputs| ensures AgreeBut(first, inputs[i], axis) <==> Joins(first, inputs[i], k) {
      if AgreeBut(first, inputs[i], axis) {
        forall j: nat | j < |first.shape| && j != k ensures inputs[i].shape[j] == first.shape[j] {
          assert !NamesOne(axis, |first.shape|, j);
        }
      }
    }
    hide AgreeBut;
    if Joinable(inputs, axis) {
      assert forall i :: 0 <= i < |inputs| ==> Joins(first, inputs[i], k);
      TotalIsSum(inputs, k);
      assert Joins(first, Joined(inputs, axis).value, k);
      JoinsAgree(first, Joined(inputs, axis).value, axis, k);
    }
  }

  lemma JoinsAgree(a: Spec, b: Spec, axis: int, k: nat)
    requires k < |a.shape| && NamesOne(axis, |a.shape|, k) && Joins(a, b, k)
    ensures AgreeBut(a, b, axis)
  {
  }

  /** An axis that names no dimension of the first input is refused. */
  lemma JoinedNowhere(inputs: seq<Spec>, axis: int)
    requires inputs == [] || forall k: nat :: k < |inputs[0].shape| ==> !NamesOne(axis, |inputs[0].shape|, k)
    ensures Joined(inputs, axis) == None
  {
    if inputs != [] && 0 <= Axis(axis, |inputs[0].shape|) < |inputs[0].shape| {
      AxisNames(axis, |inputs[0].shape|, Axis(axis, |inputs[0].shape|));
    }
  }

  lemma SplitNowhere(data: Spec, axis: int, count: int, lengths: seq<int>)
    requires forall k: nat :: k < |data.shape| ==> !NamesOne(axis, |data.shape|, k)
    ensures Split(data, axis, count) == None && VariadicSplit(data, axis, lengths) == None
  {
    if 0 <= Axis(axis, |data.shape|) < |data.shape| {
      AxisNames(axis, |data.shape|, Axis(axis, |data.shape|));
    }
  }

  /** An even split is accepted exactly when the count divides the dimension, and every part has an equal share. */
  lemma SplitMeans(data: Spec, axis: int, count: int, k: nat)
    requires k < |data.shape| && NamesOne(axis, |data.shape|, k)
    ensures
      var result := Split(data, axis, count);
      && (result.Some? <==> count > 0 && exists share: nat :: Shares(data.shape[k], count, share))
      && (result.Some? ==>
            && |result.value| == count
            && forall i :: 0 <= i < count ==>
                 AgreeBut(data, result.value[i], axis) && Shares(data.shape[k], count, result.value[i].shape[k]))
  {
    AxisNames(axis, |data.shape|, k);
    var size := data.shape[k];
    if count > 0 {
      if size % count == 0 {
        Divides(size, count);
        assert Shares(size, count, size / count);
      } else {
        forall share: nat ensures !Shares(size, count, share) {
          NoQuotient(size, count, share);
        }
      }
    }
  }

  ghost predicate Shares(size: nat, count: int, share: nat) {
    count * share == size
  }

  /** The lengths with the one left open filled in: positive, and adding up to the dimension. */
  ghost predicate Fills(lengths: seq<int>, full: seq<nat>, size: nat) {
    && lengths != [] && |full| == |lengths| && Sum(full) == size
    && (forall i :: 0 <= i < |full| ==> full[i] > 0 && (lengths[i] == full[i] || lengths[i] == -1))
    && forall i, j :: 0 <= i < j < |lengths| ==> lengths[i] != -1 || lengths[j] != -1
  }

  lemma {:induction false} HolesMean(lengths: seq<int>)
    ensures Holes(lengths) == 0 <==> forall i :: 0 <= i < |lengths| ==> lengths[i] != -1
    ensures Holes(lengths) <= 1 <==> forall i, j :: 0 <= i < j < |lengths| ==> lengths[i] != -1 || lengths[j] != -1
  {
    if lengths != [] {
      HolesMean(lengths[..|lengths| - 1]);
    }
  }

  lemma NoneOpen(lengths: seq<int>, full: seq<nat>, size: nat)
    requires Fills(lengths, full, size) && forall i :: 0 <= i < |lengths| ==> lengths[i] != -1
    ensures Holes(lengths) == 0 && Known(lengths) == size && full == Completed(lengths, 0)
  {
    HolesMean(lengths);
    SumCompleted(lengths, 0);
    assert full == Completed(lengths, 0);
  }

  lemma OneOpen(lengths: seq<int>, full: seq<nat>, size: nat, h: nat)
    requires Fills(lengths, full, size) && h < |lengths| && lengths[h] == -1
    ensures Holes(lengths) == 1 && Known(lengths) < size && full == Completed(lengths, size - Known(lengths))
  {
    hide Sum, Holes, Known, Completed;
    HolesMean(lengths);
    FilledByRest(lengths, full, size, h);
    SumCompleted(lengths, full[h]);
  }

  lemma FilledByRest(lengths: seq<int>, full: seq<nat>, size: nat, h: nat)
    requires Fills(lengths, full, size) && h < |lengths| && lengths[h] == -1
    ensures full == Completed(lengths, full[h])
  {
    hide Sum;
    var completed := Completed(lengths, full[h]);
    forall i | 0 <= i < |full| ensures full[i] == completed[i] {
      assert i != h ==> lengths[i] != -1;
    }
  }

  ghost predicate HaveLengths(data: Spec, parts: seq<Spec>, axis: int, k: nat, full: seq<nat>) {
    && |parts| == |full|
    && forall i :: 0 <= i < |parts| ==>
         AgreeBut(data, parts[i], axis) && k < |parts[i].shape| && parts[i].shape[k] == full[i]
  }

  /** What the split makes of the one length left open. */
  function Remainder(lengths: seq<int>, size: nat): int {
    if Holes(lengths) == 1 then size - Known(lengths) else 0
  }

  lemma SplitCompletes(data: Spec, axis: int, lengths: seq<int>, k: nat)
    requires k < |data.shape| && NamesOne(axis, |data.shape|, k) && VariadicSplit(data, axis, lengths).Some?
    ensures
      var size, rest := data.shape[k], Remainder(lengths, data.shape[k]);
      && lengths != [] && Holes(lengths) <= 1 && (forall i :: 0 <= i < |lengths| ==> lengths[i] == -1 || lengths[i] > 0)
      && (if Holes(lengths) == 1 then rest > 0 else Known(lengths) == size && rest == 0)
      && VariadicSplit(data, axis, lengths).value == Parts(data, k, Completed(lengths, rest))
  {
    AxisNames(axis, |data.shape|, k);
    hide Holes, Known, Completed, Parts;
  }

  lemma CompletedFills(lengths: seq<int>, size: nat)
    requires lengths != [] && Holes(lengths) <= 1
    requires forall i :: 0 <= i < |lengths| ==> lengths[i] == -1 || lengths[i] > 0
    requires if Holes(lengths) == 1 then Known(lengths) < size else Known(lengths) == size
    ensures Fills(lengths, Completed(lengths, Remainder(lengths, size)), size)
  {
    HolesMean(lengths);
    SumCompleted(lengths, Remainder(lengths, size));
    hide Holes, Known, Sum;
  }

  lemma PartsHaveLengths(data: Spec, axis: int, k: nat, full: seq<nat>)
    requires k < |data.shape| && NamesOne(axis, |data.shape|, k)
    ensures HaveLengths(data, Parts(data, k, full), axis, k, full)
  {
  }

  lemma VariadicParts(data: Spec, axis: int, lengths: seq<int>, k: nat)
    requires k < |data.shape| && NamesOne(axis, |data.shape|, k) && VariadicSplit(data, axis, lengths).Some?
    ensures exists full :: Fills(lengths, full, data.shape[k])
                        && HaveLengths(data, VariadicSplit(data, axis, lengths).value, axis, k, full)
  {
    hide VariadicSplit, Fills, HaveLengths, Parts, Completed, Holes, Known;
    SplitCompletes(data, axis, lengths, k);
    CompletedFills(lengths, data.shape[k]);
    PartsHaveLengths(data, axis, k, Completed(lengths, Remainder(lengths, data.shape[k])));
  }

  lemma VariadicAccepts(data: Spec, axis: int, lengths: seq<int>, k: nat, full: seq<nat>)
    requires k < |data.shape| && NamesOne(axis, |data.shape|, k) && Fills(lengths, full, data.shape[k])
    ensures VariadicSplit(data, axis, lengths).Some?
  {
    AxisNames(axis, |data.shape|, k);
    forall i | 0 <= i < |lengths| ensures lengths[i] == -1 || lengths[i] > 0 {
      assert full[i] > 0;
    }
    if h: nat :| h < |lengths| && lengths[h] == -1 {
      OneOpen(lengths, full, data.shape[k], h);
    } else {
      NoneOpen(lengths, full, data.shape[k]);
    }
    hide Fills, Holes, Known, Completed, Parts;
  }

  /** A variadic split is accepted exactly when the lengths can be filled in, and its parts have those lengths. */
  lemma VariadicSplitMeans(data: Spec, axis: int, lengths: seq<int>, k: nat)
    requires k < |data.shape| && NamesOne(axis, |data.shape|, k)
    ensures
      var result := VariadicSplit(data, axis, lengths);
      && (result.Some? <==> exists full :: Fills(lengths, full, data.shape[k]))
      && (result.Some? ==>
            exists full :: Fills(lengths, full, data.shape[k]) && HaveLengths(data, result.value, axis, k, full))
  {
    hide VariadicSplit, Fills, HaveLengths;
    if VariadicSplit(data, axis, lengths).Some? {
      VariadicParts(data, axis, lengths, k);
    }
    if full :| Fills(lengths, full, data.shape[k]) {
      VariadicAccepts(data, axis, lengths, k, full);
    }
  }
}
