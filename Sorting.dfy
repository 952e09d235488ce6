/** The sorting algorithms of the benchmark (hometask3.py, lines 5-73).

    Every sort compares elements through `le`, the `<=` of the element type:
    the source's `a[j] > key` is `!le(a[j], key)` and its `left[i] <= right[j]`
    is `le(left[i], right[j])`. For the integer data of the benchmark `le` is
    `IntLe`; main's final sort of the result rows uses the same library sort
    with a lexicographic `le` (see module Benchmark). */
module Sorting {

  /** `le` is total and transitive, as Python's `<=` is on ints and on tuples
      of strings and ints. */
  ghost predicate TotalPreorder<T(!new)>(le: (T, T) -> bool) {
    && (forall x, y :: le(x, y) || le(y, x))
    && (forall x, y, z :: le(x, y) && le(y, z) ==> le(x, z))
  }

  /** Python's `<=` on ints. */
  function IntLe(a: int, b: int): bool { a <= b }

  lemma IntLeIsTotalPreorder()
    ensures TotalPreorder(IntLe)
  {}

  lemma Reflexive<T(!new)>(le: (T, T) -> bool, x: T)
    requires TotalPreorder(le)
    ensures le(x, x)
  {}

  /** Non-decreasing under `le`. */
  ghost predicate Sorted<T>(le: (T, T) -> bool, s: seq<T>) {
    forall i, j :: 0 <= i < j < |s| ==> le(s[i], s[j])
  }

  /** `a` and `b` compare equal: neither is greater than the other. */
  predicate Equiv<T>(le: (T, T) -> bool, a: T, b: T) {
    le(a, b) && le(b, a)
  }

  /** The elements of `s` that compare equal to `x`, in their order in `s`. */
  function Ties<T>(le: (T, T) -> bool, s: seq<T>, x: T): (r: seq<T>)
    ensures |r| <= |s|
  {
    if s == [] then []
    else (if Equiv(le, s[0], x) then [s[0]] else []) + Ties(le, s[1..], x)
  }

  /** `r` keeps every run of equal elements of `s` in its original order:
      equal keys never pass each other. */
  ghost predicate Stable<T(!new)>(le: (T, T) -> bool, s: seq<T>, r: seq<T>) {
    forall x :: Ties(le, r, x) == Ties(le, s, x)
  }

  /** What a stable sort promises: a sorted permutation that keeps ties in order. */
  ghost predicate StablySorts<T(!new)>(le: (T, T) -> bool, s: seq<T>, r: seq<T>) {
    && Sorted(le, r)
    && multiset(r) == multiset(s)
    && Stable(le, s, r)
  }

  lemma {:induction false} TiesAppend<T>(le: (T, T) -> bool, a: seq<T>, b: seq<T>, x: T)
    ensures Ties(le, a + b, x) == Ties(le, a, x) + Ties(le, b, x)
  {
    if a != [] {
      assert (a + b)[0] == a[0];
      assert (a + b)[1..] == a[1..] + b;
      TiesAppend(le, a[1..], b, x);
    } else {
      assert a + b == b;
    }
  }

  /** No element of a sorted list that starts above `w` ties with `w`. */
  lemma {:induction false} TiesAboveEmpty<T(!new)>(le: (T, T) -> bool, s: seq<T>, w: T, z: T)
    requires TotalPreorder(le)
    requires Sorted(le, s)
    requires s != [] ==> !le(s[0], w)
    requires Equiv(le, w, z)
    ensures Ties(le, s, z) == []
  {
    if s != [] {
      assert |s| > 1 ==> le(s[0], s[1]);
      TiesAboveEmpty(le, s[1..], w, z);
    }
  }

  // ---------------------------------------------------------------------------
  // Insertion sort (hometask3.py:5-21)
  // ---------------------------------------------------------------------------

  /** One pass of the inner loop: `x` is placed after `s` and moved left past
      every element greater than it, stopping at the first that is not. */
  function Insert<T>(le: (T, T) -> bool, s: seq<T>, x: T): (r: seq<T>)
    ensures |r| == |s| + 1
  {
    if s == [] || le(s[|s| - 1], x) then s + [x]
    else Insert(le, s[..|s| - 1], x) + [s[|s| - 1]]
  }

  /** The list insertion_sort returns: each element in turn inserted into the
      already sorted prefix. */
  function InsertionSorted<T>(le: (T, T) -> bool, s: seq<T>): (r: seq<T>)
    ensures |r| == |s|
  {
    if s == [] then [] else Insert(le, InsertionSorted(le, s[..|s| - 1]), s[|s| - 1])
  }

  lemma {:induction false} InsertPermutes<T>(le: (T, T) -> bool, s: seq<T>, x: T)
    ensures multiset(Insert(le, s, x)) == multiset(s) + multiset{x}
  {
    if s != [] && !le(s[|s| - 1], x) {
      var init, last := s[..|s| - 1], s[|s| - 1];
      assert s == init + [last];
      InsertPermutes(le, init, x);
    }
  }

  lemma {:induction false} InsertSorts<T(!new)>(le: (T, T) -> bool, s: seq<T>, x: T)
    requires TotalPreorder(le)
    requires Sorted(le, s)
    ensures Sorted(le, Insert(le, s, x))
  {
    if s != [] && !le(s[|s| - 1], x) {
      var init, last := s[..|s| - 1], s[|s| - 1];
      InsertSorts(le, init, x);
      InsertPermutes(le, init, x);
      var r := Insert(le, init, x);
      assert le(x, last);
      forall k | 0 <= k < |r| ensures le(r[k], last) {
        assert r[k] in multiset(r);
        if r[k] != x {
          assert r[k] in multiset(init);
          var m :| 0 <= m < |init| && init[m] == r[k];
          assert s[m] == init[m];
        }
      }
    }
  }

  /** Equal elements keep their order: `x` stops before passing an element
      equal to it. */
  lemma {:induction false} InsertKeepsTies<T(!new)>(le: (T, T) -> bool, s: seq<T>, x: T, z: T)
    requires TotalPreorder(le)
    ensures Ties(le, Insert(le, s, x), z) == Ties(le, s + [x], z)
  {
    if s != [] && !le(s[|s| - 1], x) {
      var init, last := s[..|s| - 1], s[|s| - 1];
      assert s == init + [last];
      InsertKeepsTies(le, init, x, z);
      TiesAppend(le, Insert(le, init, x), [last], z);
      TiesAppend(le, init, [x], z);
      TiesAppend(le, init + [last], [x], z);
      TiesAppend(le, init, [last], z);
      assert !(Equiv(le, last, z) && Equiv(le, x, z));
    }
  }

  lemma {:induction false} InsertionSortedIsStableSort<T(!new)>(le: (T, T) -> bool, s: seq<T>)
    requires TotalPreorder(le)
    ensures StablySorts(le, s, InsertionSorted(le, s))
  {
    if s != [] {
      var init, last := s[..|s| - 1], s[|s| - 1];
      assert s == init + [last];
      InsertionSortedIsStableSort(le, init);
      var p := InsertionSorted(le, init);
      InsertSorts(le, p, last);
      InsertPermutes(le, p, last);
      forall z ensures Ties(le, InsertionSorted(le, s), z) == Ties(le, s, z) {
        InsertKeepsTies(le, p, last, z);
        TiesAppend(le, p, [last], z);
        TiesAppend(le, init, [last], z);
      }
    }
  }

  /** insertion_sort: sorts a copy of `arr` by shifting greater elements right;
      the caller's array is not modified (the method modifies nothing that
      existed before the call) and the result is a new array. */
  method InsertionSort<T>(le: (T, T) -> bool, arr: array<T>) returns (a: array<T>)
    ensures fresh(a)
    ensures a[..] == InsertionSorted(le, arr[..])
  {
    a := new T[arr.Length](k requires 0 <= k < arr.Length reads arr => arr[k]);
    var i := 1;
    while i < a.Length
      invariant a.Length == arr.Length
      invariant a.Length > 0 ==> 1 <= i <= a.Length
      invariant a.Length > 0 ==> a[..i] == InsertionSorted(le, arr[..i])
      invariant a.Length > 0 ==> a[i..] == arr[i..]
    {
      InsertAt(le, a, i);
      assert arr[..i + 1] == arr[..i] + [arr[i]];
      i := i + 1;
    }
    if a.Length > 0 {
      assert a[..] == a[..i] && arr[..] == arr[..i];
    }
  }

  /** The body of insertion_sort's outer loop for index `i`: `key = a[i]` is
      moved left while the element before it is greater (lines 15-20). */
  method InsertAt<T>(le: (T, T) -> bool, a: array<T>, i: nat)
    requires i < a.Length
    modifies a
    ensures a[..i + 1] == Insert(le, old(a[..i]), old(a[i]))
    ensures a[i + 1..] == old(a[i + 1..])
  {
    ghost var p := a[..i];
    ghost var tail := a[i + 1..];
    var key := a[i];
    var j := ShiftGreater(le, a, i, key);
    a[j + 1] := key;
    InsertPlaces(le, p, key, j);
    ghost var r := p[..j + 1] + [key] + p[j + 1..];
    assert forall k :: 0 <= k <= i ==> a[k] == r[k] by {
      forall k | 0 <= k <= i
        ensures a[k] == r[k]
      {
        if k > j + 1 {
          assert r[k] == p[k - 1];
        }
      }
    }
    assert a[..i + 1] == r;
    assert a[i + 1..] == tail;
  }

  /** The `while` loop of lines 17-19: shifts every element of `a[..i]` that
      is greater than `key`, from the right, one place right, and returns the
      index `j` it stopped at (-1 when it ran off the front). */
  method ShiftGreater<T>(le: (T, T) -> bool, a: array<T>, i: nat, key: T) returns (j: int)
    requires i < a.Length
    modifies a
    ensures -1 <= j < i
    ensures forall k :: 0 <= k <= j ==> a[k] == old(a[k])
    ensures forall k :: j + 2 <= k <= i ==> a[k] == old(a[k - 1])
    ensures forall k :: i < k < a.Length ==> a[k] == old(a[k])
    ensures forall k :: j < k < i ==> !le(old(a[k]), key)
    ensures j >= 0 ==> le(old(a[j]), key)
  {
    j := i - 1;
    while j >= 0 && !le(a[j], key)
      invariant -1 <= j < i
      invariant forall k :: 0 <= k <= j ==> a[k] == old(a[k])
      invariant forall k :: j + 2 <= k <= i ==> a[k] == old(a[k - 1])
      invariant forall k :: i < k < a.Length ==> a[k] == old(a[k])
      invariant forall k :: j < k < i ==> !le(old(a[k]), key)
      decreases j
    {
      a[j + 1] := a[j];
      j := j - 1;
    }
  }

  /** Where the inner loop leaves `x`: right after the last element of `s`
      that is not greater than it, the greater ones after it. */
  lemma {:induction false} InsertPlaces<T>(le: (T, T) -> bool, s: seq<T>, x: T, j: int)
    requires -1 <= j < |s|
    requires forall k :: j < k < |s| ==> !le(s[k], x)
    requires j >= 0 ==> le(s[j], x)
    ensures Insert(le, s, x) == s[..j + 1] + [x] + s[j + 1..]
    decreases |s|
  {
    if j == |s| - 1 {
      assert s[..j + 1] == s && s[j + 1..] == [];
    } else {
      var init := s[..|s| - 1];
      InsertPlaces(le, init, x, j);
      assert init[..j + 1] == s[..j + 1];
      assert s[j + 1..] == init[j + 1..] + [s[|s| - 1]];
    }
  }

  // ---------------------------------------------------------------------------
  // Merge and merge sort (hometask3.py:23-52)
  // ---------------------------------------------------------------------------

  /** The list merge returns: repeatedly the smaller head, the left one on a tie,
      then whatever remains. */
  function Merged<T>(le: (T, T) -> bool, left: seq<T>, right: seq<T>): (r: seq<T>)
    ensures |r| == |left| + |right|
    decreases |left| + |right|
  {
    if left == [] then right
    else if right == [] then left
    else if le(left[0], right[0]) then [left[0]] + Merged(le, left[1..], right)
    else [right[0]] + Merged(le, left, right[1..])
  }

  lemma {:induction false} MergedPermutes<T>(le: (T, T) -> bool, left: seq<T>, right: seq<T>)
    ensures multiset(Merged(le, left, right)) == multiset(left) + multiset(right)
    decreases |left| + |right|
  {
    if left != [] && right != [] {
      if le(left[0], right[0]) {
        assert left == [left[0]] + left[1..];
        MergedPermutes(le, left[1..], right);
      } else {
        assert right == [right[0]] + right[1..];
        MergedPermutes(le, left, right[1..]);
      }
    }
  }

  /** Every element of `s` is at least `x`. */
  ghost predicate Below<T>(le: (T, T) -> bool, x: T, s: seq<T>) {
    forall k :: 0 <= k < |s| ==> le(x, s[k])
  }

  lemma BelowByMultiset<T>(le: (T, T) -> bool, x: T, s: seq<T>, t: seq<T>, u: seq<T>)
    requires Below(le, x, t) && Below(le, x, u)
    requires multiset(s) == multiset(t) + multiset(u)
    ensures Below(le, x, s)
  {
    forall k | 0 <= k < |s| ensures le(x, s[k]) {
      assert s[k] in multiset(s);
      if s[k] in multiset(t) {
        var m :| 0 <= m < |t| && t[m] == s[k];
      } else {
        var m :| 0 <= m < |u| && u[m] == s[k];
      }
    }
  }

  lemma {:induction false} MergedSorts<T(!new)>(le: (T, T) -> bool, left: seq<T>, right: seq<T>)
    requires TotalPreorder(le)
    requires Sorted(le, left) && Sorted(le, right)
    ensures Sorted(le, Merged(le, left, right))
    decreases |left| + |right|
  {
    if left != [] && right != [] {
      var h, l, r;
      if le(left[0], right[0]) {
        h, l, r := left[0], left[1..], right;
        assert Below(le, h, r);
      } else {
        h, l, r := right[0], left, right[1..];
        assert Below(le, h, l);
      }
      MergedSorts(le, l, r);
      MergedPermutes(le, l, r);
      BelowByMultiset(le, h, Merged(le, l, r), l, r);
    }
  }

  /** Ties go to the left list: among equal elements, those of `left` come
      first, each list's in its own order. */
  lemma {:induction false} MergedKeepsTies<T(!new)>(le: (T, T) -> bool, left: seq<T>, right: seq<T>, z: T)
    requires TotalPreorder(le)
    requires Sorted(le, left) && Sorted(le, right)
    ensures Ties(le, Merged(le, left, right), z) == Ties(le, left, z) + Ties(le, right, z)
    decreases |left| + |right|
  {
    if left != [] && right != [] {
      if le(left[0], right[0]) {
        var m := Merged(le, left[1..], right);
        assert Merged(le, left, right) == [left[0]] + m;
        MergedKeepsTies(le, left[1..], right, z);
        TiesAppend(le, [left[0]], m, z);
        TiesAppend(le, [left[0]], left[1..], z);
        assert left == [left[0]] + left[1..];
      } else {
        var m := Merged(le, left, right[1..]);
        assert Merged(le, left, right) == [right[0]] + m;
        MergedKeepsTies(le, left, right[1..], z);
        TiesAppend(le, [right[0]], m, z);
        TiesAppend(le, [right[0]], right[1..], z);
        assert right == [right[0]] + right[1..];
        if Equiv(le, right[0], z) {
          TiesAboveEmpty(le, left, right[0], z);
        }
      }
    }
  }

  /** merge: the two-pointer loop appends to `res` until one list runs out,
      then extends with the rest of both. */
  method Merge<T>(le: (T, T) -> bool, left: seq<T>, right: seq<T>) returns (res: seq<T>)
    ensures res == Merged(le, left, right)
    ensures |res| == |left| + |right|
    ensures multiset(res) == multiset(left) + multiset(right)
  {
    res := [];
    var i, j := 0, 0;
    while i < |left| && j < |right|
      invariant 0 <= i <= |left| && 0 <= j <= |right|
      invariant res + Merged(le, left[i..], right[j..]) == Merged(le, left, right)
    {
      MergeAdvance(le, left, right, i, j, res);
      if le(left[i], right[j]) {
        res := res + [left[i]];
        i := i + 1;
      } else {
        res := res + [right[j]];
        j := j + 1;
      }
    }
    MergeFinish(le, left, right, i, j, res);
    res := res + left[i..];
    res := res + right[j..];
    MergedPermutes(le, left, right);
  }

  /** One step of merge's loop keeps its invariant: the smaller head (the
      left one on a tie) is the next element of the merged list. */
  lemma MergeAdvance<T>(le: (T, T) -> bool, left: seq<T>, right: seq<T>, i: nat, j: nat, res: seq<T>)
    requires i < |left| && j < |right|
    requires res + Merged(le, left[i..], right[j..]) == Merged(le, left, right)
    ensures le(left[i], right[j]) ==>
      (res + [left[i]]) + Merged(le, left[i + 1..], right[j..]) == Merged(le, left, right)
    ensures !le(left[i], right[j]) ==>
      (res + [right[j]]) + Merged(le, left[i..], right[j + 1..]) == Merged(le, left, right)
  {
    assert left[i..][1..] == left[i + 1..] && right[j..][1..] == right[j + 1..];
    assert left[i..][0] == left[i] && right[j..][0] == right[j];
  }

  /** Once one list is used up, merge's two `extend` calls complete the
      merged list. */
  lemma MergeFinish<T>(le: (T, T) -> bool, left: seq<T>, right: seq<T>, i: nat, j: nat, res: seq<T>)
    requires i <= |left| && j <= |right|
    requires i == |left| || j == |right|
    requires res + Merged(le, left[i..], right[j..]) == Merged(le, left, right)
    ensures res + left[i..] + right[j..] == Merged(le, left, right)
  {
    assert right[j..] == [] || left[i..] == [];
  }

  /** The list merge_sort returns: a copy when there is at most one element,
      otherwise the merge of the sorted halves split at `len // 2`. */
  function MergeSorted<T>(le: (T, T) -> bool, s: seq<T>): (r: seq<T>)
    ensures |r| == |s|
    ensures multiset(r) == multiset(s)
  {
    if |s| <= 1 then s
    else
      var mid := |s| / 2;
      assert s == s[..mid] + s[mid..];
      MergedPermutes(le, MergeSorted(le, s[..mid]), MergeSorted(le, s[mid..]));
      Merged(le, MergeSorted(le, s[..mid]), MergeSorted(le, s[mid..]))
  }

  lemma {:induction false} MergeSortedIsStableSort<T(!new)>(le: (T, T) -> bool, s: seq<T>)
    requires TotalPreorder(le)
    ensures StablySorts(le, s, MergeSorted(le, s))
  {
    if |s| > 1 {
      var mid := |s| / 2;
      var a, b := s[..mid], s[mid..];
      assert s == a + b;
      MergeSortedIsStableSort(le, a);
      MergeSortedIsStableSort(le, b);
      var sa, sb := MergeSorted(le, a), MergeSorted(le, b);
      MergedSorts(le, sa, sb);
      forall z ensures Ties(le, MergeSorted(le, s), z) == Ties(le, s, z) {
        MergedKeepsTies(le, sa, sb, z);
        TiesAppend(le, a, b, z);
      }
    }
  }

  // ---------------------------------------------------------------------------
  // Uniqueness of stable sorting
  // ---------------------------------------------------------------------------

  /** A sorted, stable rearrangement is unique: any two stable sorts of the same
      input return the same list. */
  lemma {:induction false} StableSortUnique<T(!new)>(le: (T, T) -> bool, s: seq<T>, r1: seq<T>, r2: seq<T>)
    requires TotalPreorder(le)
    requires Sorted(le, r1) && Stable(le, s, r1)
    requires Sorted(le, r2) && Stable(le, s, r2)
    ensures r1 == r2
  {
    SortedStableUnique(le, r1, r2);
  }

  lemma {:induction false} SortedStableUnique<T(!new)>(le: (T, T) -> bool, r1: seq<T>, r2: seq<T>)
    requires TotalPreorder(le)
    requires Sorted(le, r1) && Sorted(le, r2)
    requires forall x :: Ties(le, r1, x) == Ties(le, r2, x)
    ensures r1 == r2
    decreases |r1| + |r2|
  {
    assert r1 != [] ==> NonEmptyTies(le, r1);
    assert r2 != [] ==> NonEmptyTies(le, r2);
    if r1 != [] && r2 != [] {
      var a, b := r1[0], r2[0];
      assert le(a, b) by {
        var t := Ties(le, r1, b);
        assert t == Ties(le, r2, b) && t != [];
        TiesFrom(le, r1, b, t[0]);
      }
      assert le(b, a) by {
        var t := Ties(le, r2, a);
        assert t == Ties(le, r1, a) && t != [];
        TiesFrom(le, r2, a, t[0]);
      }
      Reflexive(le, a);
      assert Equiv(le, a, a) && Equiv(le, b, a);
      assert Ties(le, r1, a) == [a] + Ties(le, r1[1..], a);
      assert Ties(le, r2, a) == [b] + Ties(le, r2[1..], a);
      assert a == b;
      forall x ensures Ties(le, r1[1..], x) == Ties(le, r2[1..], x) {
        var h := if Equiv(le, a, x) then [a] else [];
        var t1, t2 := Ties(le, r1[1..], x), Ties(le, r2[1..], x);
        assert Ties(le, r1, x) == h + t1;
        assert Ties(le, r2, x) == h + t2;
        assert t1 == (h + t1)[|h|..] && t2 == (h + t2)[|h|..];
      }
      SortedStableUnique(le, r1[1..], r2[1..]);
      assert r1 == [a] + r1[1..] && r2 == [b] + r2[1..];
    }
  }

  /** The first element of `r` ties with itself. */
  ghost predicate NonEmptyTies<T(!new)>(le: (T, T) -> bool, r: seq<T>)
    requires TotalPreorder(le)
    requires r != []
  {
    Reflexive(le, r[0]);
    Ties(le, r, r[0]) != []
  }

  /** Every element of `Ties(le, r, x)` is an element of `r`. */
  lemma {:induction false} TiesFrom<T>(le: (T, T) -> bool, r: seq<T>, x: T, y: T)
    requires y in Ties(le, r, x)
    ensures y in r && Equiv(le, y, x)
  {
    if r[0] != y || !Equiv(le, r[0], x) {
      TiesFrom(le, r[1..], x, y);
    }
  }

  /** The two copying sorts of the benchmark return the same list. */
  lemma InsertionSortedIsMergeSorted<T(!new)>(le: (T, T) -> bool, s: seq<T>)
    requires TotalPreorder(le)
    ensures InsertionSorted(le, s) == MergeSorted(le, s)
  {
    InsertionSortedIsStableSort(le, s);
    MergeSortedIsStableSort(le, s);
    StableSortUnique(le, s, InsertionSorted(le, s), MergeSorted(le, s));
  }

  /** Sorting a list that is already sorted returns it unchanged. */
  lemma SortingSortedIsIdentity<T(!new)>(le: (T, T) -> bool, s: seq<T>)
    requires TotalPreorder(le)
    requires Sorted(le, s)
    ensures InsertionSorted(le, s) == s
    ensures MergeSorted(le, s) == s
  {
    InsertionSortedIsStableSort(le, s);
    MergeSortedIsStableSort(le, s);
    StableSortUnique(le, s, InsertionSorted(le, s), s);
    StableSortUnique(le, s, MergeSorted(le, s), s);
  }

  // ---------------------------------------------------------------------------
  // The library sorts (hometask3.py:54-73)
  // ---------------------------------------------------------------------------

  /** The result of Python's built-in sort (`sorted`, `list.sort`): a stable sort.
      Its algorithm (Timsort) is not modelled; by StableSortUnique every stable
      sort returns this same list, so it is defined through the merge sort. */
  function LibrarySorted<T>(le: (T, T) -> bool, s: seq<T>): (r: seq<T>)
    ensures |r| == |s|
    ensures multiset(r) == multiset(s)
  {
    MergeSorted(le, s)
  }

  lemma LibrarySortedIsStableSort<T(!new)>(le: (T, T) -> bool, s: seq<T>)
    requires TotalPreorder(le)
    ensures StablySorts(le, s, LibrarySorted(le, s))
  {
    MergeSortedIsStableSort(le, s);
  }

  /** timsort_sorted: `sorted(arr)` builds a new list and leaves `arr` alone. */
  method TimsortSorted<T>(le: (T, T) -> bool, arr: array<T>) returns (r: array<T>)
    ensures fresh(r)
    ensures r[..] == LibrarySorted(le, arr[..])
  {
    var s := LibrarySorted(le, arr[..]);
    r := new T[|s|](k requires 0 <= k < |s| => s[k]);
  }

  /** timsort_sort: `arr.sort()` sorts the caller's list in place and returns
      that same list, not a copy. */
  method TimsortSort<T>(le: (T, T) -> bool, arr: array<T>) returns (r: array<T>)
    modifies arr
    ensures r == arr
    ensures arr[..] == LibrarySorted(le, old(arr[..]))
  {
    var s := LibrarySorted(le, arr[..]);
    forall k | 0 <= k < arr.Length {
      arr[k] := s[k];
    }
    r := arr;
  }
}
