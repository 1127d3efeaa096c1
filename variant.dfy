/** The number of pairs still out of non-increasing order. Every swap the sorter
    makes removes exactly one of them, which is why the sorter terminates. */
module Variant {
  import opened Order

  /** How many elements of `s` are strictly greater than `x`. */
  function CountAbove(x: int, s: seq<int>): nat
  {
    if s == [] then 0 else (if x < s[0] then 1 else 0) + CountAbove(x, s[1..])
  }

  /** How many index pairs i < j have s[i] < s[j]. */
  function Inversions(s: seq<int>): nat
  {
    if s == [] then 0 else CountAbove(s[0], s[1..]) + Inversions(s[1..])
  }

  lemma {:induction false} CountAboveSwap(x: int, s: seq<int>, k: nat)
    requires k + 1 < |s|
    ensures CountAbove(x, SwapAdjacent(s, k)) == CountAbove(x, s)
    decreases k
  {
    var t := SwapAdjacent(s, k);
    if k == 0 {
      assert t[2..] == s[2..];
      assert t[1..][1..] == t[2..] && s[1..][1..] == s[2..];
    } else {
      assert t[1..] == SwapAdjacent(s[1..], k - 1);
      CountAboveSwap(x, s[1..], k - 1);
    }
  }

  /** Swapping a strictly ascending neighbour pair removes exactly one inversion. */
  lemma {:induction false} SwapRemovesOneInversion(s: seq<int>, k: nat)
    requires k + 1 < |s| && s[k] < s[k + 1]
    ensures Inversions(SwapAdjacent(s, k)) == Inversions(s) - 1
    decreases k
  {
    var t := SwapAdjacent(s, k);
    if k == 0 {
      assert t[2..] == s[2..];
      assert t[1..][1..] == t[2..] && s[1..][1..] == s[2..];
    } else {
      assert t[0] == s[0];
      assert t[1..] == SwapAdjacent(s[1..], k - 1);
      CountAboveSwap(s[0], s[1..], k - 1);
      SwapRemovesOneInversion(s[1..], k - 1);
    }
  }

  lemma {:induction false} CountAboveZero(x: int, s: seq<int>)
    ensures CountAbove(x, s) == 0 <==> forall j :: 0 <= j < |s| ==> s[j] <= x
  {
    if s != [] {
      CountAboveZero(x, s[1..]);
      assert forall j :: 1 <= j < |s| ==> s[j] == s[1..][j - 1];
    }
  }

  /** The variant reaches zero exactly on the sequences the sorter accepts. */
  lemma {:induction false} NoInversionsIffNonIncreasing(s: seq<int>)
    ensures Inversions(s) == 0 <==> NonIncreasing(s)
  {
    NonIncreasingIsGlobal(s);
    if s != [] {
      NoInversionsIffNonIncreasing(s[1..]);
      NonIncreasingIsGlobal(s[1..]);
      CountAboveZero(s[0], s[1..]);
      if Inversions(s) == 0 {
        forall i, j | 0 <= i <= j < |s|
          ensures s[i] >= s[j]
        {
          if 0 < i {
            assert s[i] == s[1..][i - 1] && s[j] == s[1..][j - 1];
          } else if 0 < j {
            assert s[j] == s[1..][j - 1];
          }
        }
      }
      if GloballyNonIncreasing(s) {
        assert forall j :: 0 <= j < |s[1..]| ==> s[1..][j] <= s[0] by {
          forall j | 0 <= j < |s[1..]| ensures s[1..][j] <= s[0] {
            assert s[1..][j] == s[j + 1];
          }
        }
        assert GloballyNonIncreasing(s[1..]) by {
          forall i, j | 0 <= i <= j < |s[1..]| ensures s[1..][i] >= s[1..][j] {
            assert s[1..][i] == s[i + 1] && s[1..][j] == s[j + 1];
          }
        }
      }
    }
  }
}
