/** The sorter's operations on an `int` vector, modelled as an array updated in
    place: the sequential sort, the parallel sort, and the order check. */
module Sorter {
  import opened Order
  import opened Variant
  import opened OddEven

  datatype Option<T> = None | Some(value: T)

  /** 2^64: `std::vector::size()` is an unsigned 64-bit `size_t`. */
  const SizeMax: nat := 0x1_0000_0000_0000_0000

  /** One phase of the sequential sort: the stride-2 loop from `start`. It
      clears the caller's `sorted` flag when it swaps a pair and otherwise
      leaves it as it was. */
  method SequentialPhase(a: array<int>, start: nat, sorted: bool) returns (stillSorted: bool)
    modifies a
    ensures a[..] == PhaseFrom(old(a[..]), start).s
    ensures stillSorted == (sorted && !PhaseFrom(old(a[..]), start).swapped)
  {
    ghost var s0 := a[..];
    ghost var whole := PhaseFrom(s0, start);
    stillSorted := sorted;
    var size := a.Length;
    var i := start;
    while i < size - 1
      invariant whole.s == PhaseFrom(a[..], i).s
      invariant (sorted && !whole.swapped) == (stillSorted && !PhaseFrom(a[..], i).swapped)
    {
      ghost var here := a[..];
      if a[i] < a[i + 1] {
        a[i], a[i + 1] := a[i + 1], a[i];
        stillSorted := false;
      }
      assert PhaseFrom(here, i).s == PhaseFrom(a[..], i + 2).s
          && PhaseFrom(here, i).swapped == (here[i] < here[i + 1] || PhaseFrom(a[..], i + 2).swapped)
      by {
        assert a[..] == CompareSwap(here, i);
        PhaseFromFirstPair(here, i);
      }
      i := i + 2;
    }
    assert PhaseFrom(a[..], i) == Step(a[..], false);
  }

  /** The sequential odd-even transposition sort: passes of an odd phase and an
      even phase, sharing one `sorted` flag, until a pass clears no pair. */
  method Sort(a: array<int>)
    modifies a
    ensures a[..] == SortFrom(old(a[..]))
    ensures NonIncreasing(a[..]) && multiset(a[..]) == multiset(old(a[..]))
  {
    var sorted := false;
    while !sorted
      invariant sorted ==> a[..] == SortFrom(old(a[..]))
      invariant !sorted ==> SortFrom(a[..]) == SortFrom(old(a[..]))
      decreases Inversions(a[..]), if sorted then 0 else 1
    {
      ghost var before := a[..];
      sorted := true;
      sorted := SequentialPhase(a, OddStart, sorted);
      sorted := SequentialPhase(a, EvenStart, sorted);
      assert Pass(before) == Step(a[..], !sorted);
      PassRemovesInversions(before);
      SortFromAfterPass(before);
    }
  }

  /** One phase of the parallel sort. The OpenMP loop hands the pairs of the
      phase to worker threads; since the pairs are disjoint, every pair is
      compared and swapped from the values the phase started with, which a
      `forall` statement states without fixing an order. The returned flag is
      the OR-reduction of the per-pair swap flags. */
  method ParallelPhase(a: array<int>, start: nat) returns (swapped: bool)
    modifies a
    ensures a[..] == SimultaneousPhase(old(a[..]), start)
    ensures swapped == AnyAscent(old(a[..]), start)
  {
    var s := a[..];
    swapped := AnyAscent(s, start);
    forall k | 0 <= k < a.Length {
      a[k] := PairValue(s, start, k);
    }
  }

  /** The parallel sort: the same passes, each phase run by ParallelPhase, and
      the loop stops once neither phase swapped. It leaves exactly the array
      Sort leaves. */
  method SortParallel(a: array<int>)
    modifies a
    ensures a[..] == SortFrom(old(a[..]))
    ensures NonIncreasing(a[..]) && multiset(a[..]) == multiset(old(a[..]))
  {
    var sorted := false;
    while !sorted
      invariant sorted ==> a[..] == SortFrom(old(a[..]))
      invariant !sorted ==> SortFrom(a[..]) == SortFrom(old(a[..]))
      decreases Inversions(a[..]), if sorted then 0 else 1
    {
      ghost var before := a[..];
      var swappedOdd := ParallelPhase(a, OddStart);
      ghost var afterOdd := a[..];
      var swappedEven := ParallelPhase(a, EvenStart);
      sorted := !(swappedOdd || swappedEven);
      PhaseOrderIndependent(before, OddStart);
      PhaseOrderIndependent(afterOdd, EvenStart);
      PassRemovesInversions(before);
      SortFromAfterPass(before);
    }
  }

  /** The order check: true exactly when no neighbour pair is strictly
      ascending. An empty array passes. */
  method Check(a: array<int>) returns (sorted: bool)
    ensures sorted == NonIncreasing(a[..])
  {
    sorted := true;
    var i := 0;
    while i < a.Length - 1
      invariant 0 <= i && (a.Length > 0 ==> i <= a.Length - 1)
      invariant a.Length == 0 ==> i == 0
      invariant sorted == forall j :: 0 <= j < i ==> a[j] >= a[j + 1]
    {
      if a[i] < a[i + 1] {
        sorted := false;
      }
      i := i + 1;
    }
  }

  /** The order check as written, read as plain C++: the loop bound
      `a.size() - 1` is computed in unsigned 64-bit arithmetic, so for an empty
      vector it wraps to 2^64 - 1 and the first iteration reads past the end.
      `None` marks that read. Under the OpenMP pragma on this loop the trip
      count for an empty vector depends on the implementation. */
  method CheckAsWritten(a: array<int>) returns (r: Option<bool>)
    requires a.Length <= SizeMax
    ensures r == None <==> a.Length == 0
    ensures r.Some? ==> r.value == NonIncreasing(a[..])
  {
    var bound := (a.Length - 1) % SizeMax;
    var sorted := true;
    var i := 0;
    while i < bound
      invariant a.Length == 0 ==> i == 0 && bound == SizeMax - 1
      invariant a.Length > 0 ==> bound == a.Length - 1 && 0 <= i <= bound
      invariant sorted == forall j :: 0 <= j < i ==> a[j] >= a[j + 1]
    {
      if i + 1 >= a.Length {
        return None;
      }
      if a[i] < a[i + 1] {
        sorted := false;
      }
      i := i + 1;
    }
    return Some(sorted);
  }
}
