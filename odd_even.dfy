/** The odd-even transposition sort as functions on values.

    A phase starting at `start` compares the pairs (i, i + 1) for
    i = start, start + 2, ... while i < n - 1, and swaps a pair whose left
    element is strictly smaller. A pass is the odd phase (start 1) followed by
    the even phase (start 0). The sort repeats passes until one makes no swap. */
module OddEven {
  import opened Order
  import opened Variant

  /** A sequence after some compare-and-swap steps, and whether any of them swapped. */
  datatype Step = Step(s: seq<int>, swapped: bool)

  const OddStart: nat := 1
  const EvenStart: nat := 0

  /** `i` is the left index of one of the pairs of the phase starting at `start`. */
  predicate IsPairStart(start: nat, n: nat, i: int) {
    start <= i < n - 1 && (i - start) % 2 == 0
  }

  /** The stride-2 loop of one phase, run from index `i` in increasing order. */
  function PhaseFrom(s: seq<int>, i: nat): (r: Step)
    ensures |r.s| == |s| && multiset(r.s) == multiset(s)
    ensures !r.swapped ==> r.s == s
    decreases |s| - i
  {
    if i < |s| - 1 then
      var rest := PhaseFrom(CompareSwap(s, i), i + 2);
      Step(rest.s, s[i] < s[i + 1] || rest.swapped)
    else
      Step(s, false)
  }

  /** The first iteration of a phase's loop, and the rest of the loop after it. */
  lemma PhaseFromFirstPair(s: seq<int>, i: nat)
    requires i + 1 < |s|
    ensures PhaseFrom(s, i)
         == Step(PhaseFrom(CompareSwap(s, i), i + 2).s,
                 s[i] < s[i + 1] || PhaseFrom(CompareSwap(s, i), i + 2).swapped)
  {
  }

  /** One pass: the odd phase, then the even phase on its result. */
  function Pass(s: seq<int>): (r: Step)
    ensures |r.s| == |s| && multiset(r.s) == multiset(s)
    ensures !r.swapped ==> r.s == s
  {
    var odd := PhaseFrom(s, OddStart);
    var even := PhaseFrom(odd.s, EvenStart);
    Step(even.s, odd.swapped || even.swapped)
  }

  /** Passes until one makes no swap: the array both sorters leave behind. */
  function SortFrom(s: seq<int>): (r: seq<int>)
    ensures NonIncreasing(r)
    ensures |r| == |s| && multiset(r) == multiset(s)
    decreases Inversions(s)
  {
    var p := Pass(s);
    if p.swapped then
      PassRemovesInversions(s);
      SortFrom(p.s)
    else
      PassSwapsIffUnsorted(s);
      p.s
  }

  /** One turn of the outer loop: after a pass that swapped, sorting what is
      left gives the same result; after one that did not, the loop is done. */
  lemma SortFromAfterPass(s: seq<int>)
    ensures Pass(s).swapped ==> SortFrom(Pass(s).s) == SortFrom(s)
    ensures !Pass(s).swapped ==> SortFrom(s) == s
  {
  }

  // ---------------------------------------------------------------------------
  // The phase without an order: all pairs compared and swapped at once.

  /** Some pair of the phase starting at `start` is strictly ascending: the
      OR-reduction of the per-pair swap flags. */
  predicate AnyAscent(s: seq<int>, start: nat) {
    exists i :: start <= i < |s| - 1 && IsPairStart(start, |s|, i) && s[i] < s[i + 1]
  }

  /** The value position `k` holds after its own pair, and only its own pair,
      has been compared and swapped. */
  function PairValue(s: seq<int>, start: nat, k: nat): int
    requires k < |s|
  {
    if IsPairStart(start, |s|, k) then
      (if s[k] < s[k + 1] then s[k + 1] else s[k])
    else if IsPairStart(start, |s|, k - 1) then
      (if s[k - 1] < s[k] then s[k - 1] else s[k])
    else
      s[k]
  }

  /** Every pair of the phase compared and swapped simultaneously. */
  function SimultaneousPhase(s: seq<int>, start: nat): (t: seq<int>)
    ensures |t| == |s|
  {
    seq(|s|, k requires 0 <= k < |s| => PairValue(s, start, k))
  }

  /** The compare-and-swap of the pair (i, i + 1). */
  function CompareSwap(s: seq<int>, i: nat): (t: seq<int>)
    requires i + 1 < |s|
    ensures |t| == |s|
  {
    if s[i] < s[i + 1] then SwapAdjacent(s, i) else s
  }

  lemma SimultaneousAfterFirstPair(s: seq<int>, i: nat)
    requires i + 1 < |s|
    ensures SimultaneousPhase(CompareSwap(s, i), i + 2) == SimultaneousPhase(s, i)
  {
    var n, c := |s|, CompareSwap(s, i);
    forall k | 0 <= k < n
      ensures SimultaneousPhase(c, i + 2)[k] == SimultaneousPhase(s, i)[k]
    {
      if k >= i + 2 {
        assert IsPairStart(i + 2, n, k) == IsPairStart(i, n, k);
        assert k - 1 >= i + 2 ==> IsPairStart(i + 2, n, k - 1) == IsPairStart(i, n, k - 1);
        assert k - 1 == i + 1 ==> !IsPairStart(i, n, k - 1);
      } else {
        assert IsPairStart(i, n, i);
      }
    }
  }

  /** The pairs of the phase from `i` are its first pair and the pairs of
      the phase from `i + 2`. */
  lemma PairStartsAfterFirst(i: nat, n: nat, j: int)
    ensures IsPairStart(i, n, j) <==> (j == i && i < n - 1) || IsPairStart(i + 2, n, j)
  {
    if j >= i + 2 {
      assert (j - i) % 2 == (j - (i + 2)) % 2;
    }
  }

  lemma AscentAfterFirstPair(s: seq<int>, i: nat)
    requires i + 1 < |s|
    ensures AnyAscent(s, i) == (s[i] < s[i + 1] || AnyAscent(CompareSwap(s, i), i + 2))
  {
    var n, c := |s|, CompareSwap(s, i);
    if AnyAscent(c, i + 2) {
      var j :| i + 2 <= j < n - 1 && IsPairStart(i + 2, n, j) && c[j] < c[j + 1];
      PairStartsAfterFirst(i, n, j);
      assert c[j] == s[j] && c[j + 1] == s[j + 1];
    }
    if AnyAscent(s, i) && !(s[i] < s[i + 1]) {
      var j :| i <= j < n - 1 && IsPairStart(i, n, j) && s[j] < s[j + 1];
      PairStartsAfterFirst(i, n, j);
      assert c[j] == s[j] && c[j + 1] == s[j + 1];
    }
    if s[i] < s[i + 1] {
      assert IsPairStart(i, n, i);
    }
  }

  /** The pairs of a phase are disjoint, so running its loop in increasing
      order gives the same array and the same swap flag as the order-free
      simultaneous update of all its pairs. */
  lemma {:induction false} PhaseOrderIndependent(s: seq<int>, i: nat)
    ensures PhaseFrom(s, i) == Step(SimultaneousPhase(s, i), AnyAscent(s, i))
    decreases |s| - i
  {
    if i < |s| - 1 {
      PhaseOrderIndependent(CompareSwap(s, i), i + 2);
      SimultaneousAfterFirstPair(s, i);
      AscentAfterFirstPair(s, i);
    } else {
      assert SimultaneousPhase(s, i) == s;
    }
  }

  // ---------------------------------------------------------------------------
  // Termination, order and fixed points.

  lemma {:induction false} PhaseRemovesInversions(s: seq<int>, i: nat)
    ensures Inversions(PhaseFrom(s, i).s) <= Inversions(s)
    ensures PhaseFrom(s, i).swapped ==> Inversions(PhaseFrom(s, i).s) < Inversions(s)
    decreases |s| - i
  {
    if i < |s| - 1 {
      if s[i] < s[i + 1] {
        SwapRemovesOneInversion(s, i);
      }
      PhaseRemovesInversions(CompareSwap(s, i), i + 2);
    }
  }

  /** A pass that swaps removes at least one inversion: the outer loop's variant. */
  lemma PassRemovesInversions(s: seq<int>)
    ensures Pass(s).swapped ==> Inversions(Pass(s).s) < Inversions(s)
  {
    var odd := PhaseFrom(s, OddStart);
    PhaseRemovesInversions(s, OddStart);
    PhaseRemovesInversions(odd.s, EvenStart);
  }

  /** The odd and even pairs together are all the neighbour pairs. */
  lemma AscentIffUnsorted(s: seq<int>)
    ensures AnyAscent(s, OddStart) || AnyAscent(s, EvenStart) <==> !NonIncreasing(s)
  {
    if !NonIncreasing(s) {
      var i :| 0 <= i < |s| - 1 && s[i] < s[i + 1];
      if i % 2 == 0 {
        assert IsPairStart(EvenStart, |s|, i);
      } else {
        assert IsPairStart(OddStart, |s|, i);
      }
    }
  }

  /** A pass swaps exactly when the sequence is not yet in non-increasing
      order, so the loop stops precisely on sorted arrays. */
  lemma PassSwapsIffUnsorted(s: seq<int>)
    ensures Pass(s).swapped <==> !NonIncreasing(s)
  {
    var odd := PhaseFrom(s, OddStart);
    PhaseOrderIndependent(s, OddStart);
    PhaseOrderIndependent(odd.s, EvenStart);
    AscentIffUnsorted(s);
  }

  /** An input already in order leaves the loop after one pass that swaps
      nothing, so it comes back unchanged. */
  lemma SortedInputUnchanged(s: seq<int>)
    requires NonIncreasing(s)
    ensures Pass(s) == Step(s, false)
    ensures SortFrom(s) == s
  {
    PassSwapsIffUnsorted(s);
  }

  /** Arrays of length 0 or 1 come back unchanged. */
  lemma ShortInputUnchanged(s: seq<int>)
    requires |s| <= 1
    ensures SortFrom(s) == s
  {
    SortedInputUnchanged(s);
  }

  /** Sorting is determined by the multiset of values alone. */
  lemma SortFromIsUniqueSortedPermutation(s: seq<int>, t: seq<int>)
    requires NonIncreasing(t) && multiset(t) == multiset(s)
    ensures SortFrom(s) == t
  {
    SortedPermutationUnique(SortFrom(s), t);
  }

  /** Sorting twice gives the same array as sorting once. */
  lemma SortIdempotent(s: seq<int>)
    ensures SortFrom(SortFrom(s)) == SortFrom(s)
  {
    SortedInputUnchanged(SortFrom(s));
  }

  /** Worked example: [5, 3, 8, 1] sorts to [8, 5, 3, 1]. */
  lemma ExampleFourValues()
    ensures SortFrom([5, 3, 8, 1]) == [8, 5, 3, 1]
  {
    var s, t := [5, 3, 8, 1], [8, 5, 3, 1];
    assert multiset(t) == multiset(s);
    SortFromIsUniqueSortedPermutation(s, t);
  }

  /** Worked example: [1, 1, 1] is left as it is by a pass that swaps nothing. */
  lemma ExampleAllEqual()
    ensures Pass([1, 1, 1]) == Step([1, 1, 1], false)
  {
    SortedInputUnchanged([1, 1, 1]);
  }
}
