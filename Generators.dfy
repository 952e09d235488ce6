/** The deterministic data generators of the benchmark (hometask3.py:89-107)
    and what sorting their output gives. */
module Generators {
  import opened Sorting

  /** gen_sorted: `list(range(n))`, which is empty when `n <= 0`. */
  function GenSorted(n: int): (r: seq<int>)
    ensures |r| == if n > 0 then n else 0
    ensures forall i :: 0 <= i < |r| ==> r[i] == i
    decreases n
  {
    if n <= 0 then [] else GenSorted(n - 1) + [n - 1]
  }

  /** gen_reversed: `list(range(n, 0, -1))`, counting down from `n` to 1. */
  function GenReversed(n: int): (r: seq<int>)
    ensures |r| == if n > 0 then n else 0
    ensures forall i :: 0 <= i < |r| ==> r[i] == n - i
    decreases n
  {
    if n <= 0 then [] else [n] + GenReversed(n - 1)
  }

  /** `[lo, lo + 1, ..., hi - 1]`, i.e. Python's `list(range(lo, hi))`. */
  function Range(lo: int, hi: int): (r: seq<int>)
    ensures |r| == if lo < hi then hi - lo else 0
    ensures forall i :: 0 <= i < |r| ==> r[i] == lo + i
    decreases hi - lo
  {
    if hi <= lo then [] else [lo] + Range(lo + 1, hi)
  }

  lemma GenSortedStrictlyIncreasing(n: int)
    ensures forall i, j :: 0 <= i < j < |GenSorted(n)| ==> GenSorted(n)[i] < GenSorted(n)[j]
  {}

  lemma GenReversedStrictlyDecreasing(n: int)
    ensures forall i, j :: 0 <= i < j < |GenReversed(n)| ==> GenReversed(n)[i] > GenReversed(n)[j]
  {}

  /** In a list without repeated values, the elements equal to `x` are `x`
      itself if it occurs, and nothing otherwise. */
  lemma {:induction false} TiesOfDistinct(s: seq<int>, x: int)
    requires forall i, j :: 0 <= i < j < |s| ==> s[i] != s[j]
    ensures Ties(IntLe, s, x) == if x in s then [x] else []
  {
    if s != [] {
      TiesOfDistinct(s[1..], x);
      if s[0] == x {
        assert x !in s[1..];
      }
    }
  }

  /** The "sorted" case is already in order: every sort returns it unchanged. */
  lemma SortingGenSortedIsIdentity(n: int)
    ensures InsertionSorted(IntLe, GenSorted(n)) == GenSorted(n)
    ensures MergeSorted(IntLe, GenSorted(n)) == GenSorted(n)
    ensures LibrarySorted(IntLe, GenSorted(n)) == GenSorted(n)
  {
    IntLeIsTotalPreorder();
    SortingSortedIsIdentity(IntLe, GenSorted(n));
  }

  /** Sorting the "reversed" case gives `1, 2, ..., n`. */
  lemma SortingGenReversed(n: int)
    ensures MergeSorted(IntLe, GenReversed(n)) == Range(1, n + 1)
    ensures InsertionSorted(IntLe, GenReversed(n)) == Range(1, n + 1)
  {
    IntLeIsTotalPreorder();
    var s, r := GenReversed(n), Range(1, n + 1);
    forall x ensures Ties(IntLe, r, x) == Ties(IntLe, s, x) {
      TiesOfDistinct(s, x);
      TiesOfDistinct(r, x);
      assert x in s <==> x in r by {
        if x in r {
          assert s[|s| - x] == x;
        }
        if x in s {
          assert r[x - 1] == x;
        }
      }
    }
    MergeSortedIsStableSort(IntLe, s);
    InsertionSortedIsStableSort(IntLe, s);
    StableSortUnique(IntLe, s, MergeSorted(IntLe, s), r);
    StableSortUnique(IntLe, s, InsertionSorted(IntLe, s), r);
  }
}
