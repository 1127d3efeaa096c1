/** The order the sorter produces and the one step it uses to get there.

    The sorter swaps a pair when its left element is strictly smaller than its
    right one, so the order it establishes is NON-INCREASING (largest first). */
module Order {

  /** The sorter's order check: no adjacent pair is strictly ascending. */
  predicate NonIncreasing(s: seq<int>) {
    forall i :: 0 <= i < |s| - 1 ==> s[i] >= s[i + 1]
  }

  /** Every element is at least as large as every element after it. */
  ghost predicate GloballyNonIncreasing(s: seq<int>) {
    forall i, j :: 0 <= i <= j < |s| ==> s[i] >= s[j]
  }

  /** `std::swap(array[i], array[i + 1])`: exchange two neighbours and nothing else. */
  function SwapAdjacent(s: seq<int>, i: nat): (t: seq<int>)
    requires i + 1 < |s|
    ensures |t| == |s| && t[i] == s[i + 1] && t[i + 1] == s[i]
    ensures forall k :: 0 <= k < |s| && k != i && k != i + 1 ==> t[k] == s[k]
    ensures multiset(t) == multiset(s)
  {
    s[i := s[i + 1]][i + 1 := s[i]]
  }

  lemma {:induction false} ChainOfNeighbours(s: seq<int>, i: nat, j: nat)
    requires NonIncreasing(s) && i <= j < |s|
    ensures s[i] >= s[j]
    decreases j - i
  {
    if i < j {
      ChainOfNeighbours(s, i + 1, j);
    }
  }

  /** Checking neighbours is enough: the adjacent order is the global order. */
  lemma NonIncreasingIsGlobal(s: seq<int>)
    ensures NonIncreasing(s) <==> GloballyNonIncreasing(s)
  {
    if NonIncreasing(s) {
      forall i, j | 0 <= i <= j < |s|
        ensures s[i] >= s[j]
      {
        ChainOfNeighbours(s, i, j);
      }
    }
  }

  /** The first element of a non-increasing sequence is its largest value. */
  lemma HeadIsMaximum(s: seq<int>, x: int)
    requires NonIncreasing(s) && x in multiset(s)
    ensures s[0] >= x
  {
    var k :| 0 <= k < |s| && s[k] == x;
    ChainOfNeighbours(s, 0, k);
  }

  lemma TailNonIncreasing(s: seq<int>)
    requires NonIncreasing(s) && s != []
    ensures NonIncreasing(s[1..])
  {
    forall i | 0 <= i < |s[1..]| - 1
      ensures s[1..][i] >= s[1..][i + 1]
    {
      assert s[1..][i] == s[i + 1] && s[1..][i + 1] == s[i + 2];
    }
  }

  lemma TailMultiset(s: seq<int>)
    requires s != []
    ensures multiset(s[1..]) == multiset(s) - multiset{s[0]}
  {
    assert s == [s[0]] + s[1..];
  }

  /** There is only one non-increasing arrangement of a multiset of values, so
      any two correct sorters agree on every input. */
  lemma {:induction false} SortedPermutationUnique(s: seq<int>, t: seq<int>)
    requires NonIncreasing(s) && NonIncreasing(t)
    requires multiset(s) == multiset(t)
    ensures s == t
    decreases |s|
  {
    assert |s| == |t| by {
      assert |s| == |multiset(s)| && |t| == |multiset(t)|;
    }
    if s != [] {
      assert s[0] == t[0] by {
        assert t[0] in multiset(s) && s[0] in multiset(t);
        HeadIsMaximum(s, t[0]);
        HeadIsMaximum(t, s[0]);
      }
      assert multiset(s[1..]) == multiset(t[1..]) by {
        TailMultiset(s);
        TailMultiset(t);
      }
      TailNonIncreasing(s);
      TailNonIncreasing(t);
      SortedPermutationUnique(s[1..], t[1..]);
      assert s == [s[0]] + s[1..] && t == [t[0]] + t[1..];
    }
  }
}
