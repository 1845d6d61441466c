/**
 * Recursive merge sort over index ranges of one shared array (merge2.go).
 * The program's global array `S` is passed explicitly. Each merge builds the
 * merged range in a scratch array `U` and copies it back; ties go to the
 * left run. The space estimate charges 4 bytes per key of each scratch array.
 */
module MergeRange {
  import opened SortSpec

  /**
   * Space estimate of `MergeSort2` for a range of `n` keys: nothing for
   * `n <= 1`, otherwise the estimates of the left part (`n - n / 2` keys,
   * `low..mid`) and the right part (`n / 2` keys) plus `4 * n` for `U`.
   */
  function Cost(n: int): (c: int)
    decreases n, 1
  {
    if n <= 1 then 0 else SplitCost(n, n / 2)
  }

  /** Estimate of one splitting level with `r` keys on the right: sort both parts, then merge all `n` through a scratch array. */
  function SplitCost(n: int, r: int): (c: int)
    requires 0 < r < n
    decreases n, 0
  {
    Cost(n - r) + Cost(r) + 4 * n
  }

  /**
   * The first loop of `merge2`: while both runs `S[low..mid]` and
   * `S[mid + 1..high]` have keys left, writes the smaller head (the left one
   * on ties, `S[i] <= S[j]`) to `U[k]`. Stops with one run exhausted;
   * `U[..k]` is then what the merge has emitted so far.
   */
  method MergeHeads(S: array<int>, U: array<int>, low: int, mid: int, high: int)
    returns (i: int, j: int, k: int, ghost out: seq<int>)
    requires S != U
    requires 0 <= low <= mid + 1 <= high + 1 <= S.Length && U.Length == high - low + 1
    modifies U
    ensures low <= i <= mid + 1 && mid + 1 <= j <= high + 1 && (i == mid + 1 || j == high + 1)
    ensures k == (i - low) + (j - mid - 1)
    ensures MergeFrom(LeftFirst, S[low..mid + 1], S[mid + 1..high + 1], i - low, j - mid - 1, out)
         == SortSpec.Merge(LeftFirst, S[low..mid + 1], S[mid + 1..high + 1])
    ensures |out| == k && forall t :: 0 <= t < k ==> U[t] == out[t]
  {
    ghost var u, v := S[low..mid + 1], S[mid + 1..high + 1];
    ghost var whole := SortSpec.Merge(LeftFirst, u, v);
    out := [];
    i, j, k := low, mid + 1, 0;
    ghost var a, b := 0, 0;
    while i <= mid && j <= high
      invariant low <= i <= mid + 1 && mid + 1 <= j <= high + 1 && a == i - low && b == j - mid - 1 && k == a + b
      invariant MergeFrom(LeftFirst, u, v, a, b, out) == whole
      invariant |out| == k && forall t :: 0 <= t < k ==> U[t] == out[t]
    {
      if S[i] <= S[j] {
        MergeStepLeft(LeftFirst, u, v, a, b, out);
        U[k] := S[i];
        out := out + [u[a]];
        i, a := i + 1, a + 1;
      } else {
        MergeStepRight(LeftFirst, u, v, a, b, out);
        U[k] := S[j];
        out := out + [v[b]];
        j, b := j + 1, b + 1;
      }
      k := k + 1;
    }
  }

  /**
   * The second loop of `merge2`: once the right run is exhausted, copies the
   * rest of the left run `S[i..mid]` to `U[k..]`.
   */
  method DrainLeft(S: array<int>, U: array<int>, low: int, mid: int, high: int, i0: int, j: int, k0: int, ghost out0: seq<int>)
    returns (i: int, k: int, ghost out: seq<int>)
    requires S != U
    requires 0 <= low <= mid + 1 <= high + 1 <= S.Length && U.Length == high - low + 1
    requires low <= i0 <= mid + 1 && mid + 1 <= j <= high + 1 && (i0 == mid + 1 || j == high + 1)
    requires k0 == (i0 - low) + (j - mid - 1)
    requires MergeFrom(LeftFirst, S[low..mid + 1], S[mid + 1..high + 1], i0 - low, j - mid - 1, out0)
          == SortSpec.Merge(LeftFirst, S[low..mid + 1], S[mid + 1..high + 1])
    requires |out0| == k0 && forall t :: 0 <= t < k0 ==> U[t] == out0[t]
    modifies U
    ensures i == mid + 1 && k == (i - low) + (j - mid - 1)
    ensures MergeFrom(LeftFirst, S[low..mid + 1], S[mid + 1..high + 1], i - low, j - mid - 1, out)
         == SortSpec.Merge(LeftFirst, S[low..mid + 1], S[mid + 1..high + 1])
    ensures |out| == k && forall t :: 0 <= t < k ==> U[t] == out[t]
  {
    ghost var u, v := S[low..mid + 1], S[mid + 1..high + 1];
    ghost var whole := SortSpec.Merge(LeftFirst, u, v);
    i, k, out := i0, k0, out0;
    ghost var a, b := i - low, j - mid - 1;
    while i <= mid
      invariant low <= i <= mid + 1 && a == i - low && b == j - mid - 1 && k == a + b
      invariant i == mid + 1 || j == high + 1
      invariant MergeFrom(LeftFirst, u, v, a, b, out) == whole
      invariant |out| == k && forall t :: 0 <= t < k ==> U[t] == out[t]
    {
      MergeStepLeft(LeftFirst, u, v, a, b, out);
      U[k] := S[i];
      out := out + [u[a]];
      i, a := i + 1, a + 1;
      k := k + 1;
    }
  }

  /**
   * The third loop of `merge2`: once the left run is exhausted, copies the
   * rest of the right run `S[j..high]` to `U[k..]`.
   */
  method DrainRight(S: array<int>, U: array<int>, low: int, mid: int, high: int, i: int, j0: int, k0: int, ghost out0: seq<int>)
    returns (j: int, k: int, ghost out: seq<int>)
    requires S != U
    requires 0 <= low <= mid + 1 <= high + 1 <= S.Length && U.Length == high - low + 1
    requires i == mid + 1 && mid + 1 <= j0 <= high + 1
    requires k0 == (i - low) + (j0 - mid - 1)
    requires MergeFrom(LeftFirst, S[low..mid + 1], S[mid + 1..high + 1], i - low, j0 - mid - 1, out0)
          == SortSpec.Merge(LeftFirst, S[low..mid + 1], S[mid + 1..high + 1])
    requires |out0| == k0 && forall t :: 0 <= t < k0 ==> U[t] == out0[t]
    modifies U
    ensures j == high + 1 && k == U.Length
    ensures out == SortSpec.Merge(LeftFirst, S[low..mid + 1], S[mid + 1..high + 1])
    ensures |out| == k && forall t :: 0 <= t < k ==> U[t] == out[t]
  {
    ghost var u, v := S[low..mid + 1], S[mid + 1..high + 1];
    ghost var whole := SortSpec.Merge(LeftFirst, u, v);
    j, k, out := j0, k0, out0;
    ghost var a, b := i - low, j - mid - 1;
    while j <= high
      invariant mid + 1 <= j <= high + 1 && a == i - low && b == j - mid - 1 && k == a + b
      invariant MergeFrom(LeftFirst, u, v, a, b, out) == whole
      invariant |out| == k && forall t :: 0 <= t < k ==> U[t] == out[t]
    {
      MergeStepRight(LeftFirst, u, v, a, b, out);
      U[k] := S[j];
      out := out + [v[b]];
      j, b := j + 1, b + 1;
      k := k + 1;
    }
  }

  /**
   * `merge2` without the copy back: merges the runs `S[low..mid]` and
   * `S[mid + 1..high]` (inclusive bounds, either run may be empty) into a
   * fresh scratch array `U` of `high - low + 1` keys, comparing with
   * `S[i] <= S[j]`, so on equal keys the key of the left run goes first;
   * after the first loop the rest of whichever run is left over is copied.
   * `S` is only read.
   */
  method MergeIntoScratch(S: array<int>, low: int, mid: int, high: int) returns (U: array<int>)
    requires 0 <= low <= mid + 1 <= high + 1 <= S.Length
    ensures fresh(U) && U.Length == high - low + 1
    ensures U[..] == SortSpec.Merge(LeftFirst, S[low..mid + 1], S[mid + 1..high + 1])
  {
    U := new int[high - low + 1];
    var i, j, k, out := MergeHeads(S, U, low, mid, high);
    i, k, out := DrainLeft(S, U, low, mid, high, i, j, k, out);
    j, k, out := DrainRight(S, U, low, mid, high, i, j, k, out);
    assert U[..] == out;
  }

  /**
   * `merge2`: merges the runs `S[low..mid]` and `S[mid + 1..high]` through
   * the scratch array `U`, copies `U` back over `S[low..high]` and returns
   * `4 * (high - low + 1)`, the bytes of `U`.
   */
  method Merge2(S: array<int>, low: int, mid: int, high: int) returns (memoryUsage: int)
    requires 0 <= low <= mid + 1 <= high + 1 <= S.Length
    modifies S
    ensures S[low..high + 1] == SortSpec.Merge(LeftFirst, old(S[low..mid + 1]), old(S[mid + 1..high + 1]))
    ensures S[..low] == old(S[..low]) && S[high + 1..] == old(S[high + 1..])
    ensures memoryUsage == 4 * (high - low + 1)
  {
    memoryUsage := (high - low + 1) * 4;
    var U := MergeIntoScratch(S, low, mid, high);
    ghost var s1 := S[..];
    var k, i := 0, low;
    while i <= high
      invariant low <= i <= high + 1 && k == i - low
      invariant S[low..i] == U[..k]
      invariant forall t :: 0 <= t < S.Length && !(low <= t < i) ==> S[t] == s1[t]
      modifies S
    {
      S[i] := U[k];
      i, k := i + 1, k + 1;
    }
    CopiedBack(S[..], U[..], low, high, i, k);
  }

  /** When the copy-back loop of `merge2` stops, all of `U` is in `S[low..high]`. */
  lemma CopiedBack(s: seq<int>, u: seq<int>, low: int, high: int, i: int, k: int)
    requires 0 <= low <= i <= |s| && i == high + 1 && k == i - low && k == |u|
    requires s[low..i] == u[..k]
    ensures s[low..high + 1] == u
  {
  }

  /**
   * What `MergeSort2` computes on the keys of a range: split so that the left
   * part holds `|s| - |s| / 2` keys (the range `low..mid` with
   * `mid = (low + high) / 2`), sort both parts, merge with ties to the left.
   */
  function Ranged(s: seq<int>): (r: seq<int>)
    ensures |r| == |s|
    decreases |s|
  {
    if |s| <= 1 then s
    else SortSpec.Merge(LeftFirst, Ranged(s[..|s| - |s| / 2]), Ranged(s[|s| - |s| / 2..]))
  }

  /** `Ranged` sorts: its result is non-decreasing and a permutation of its input. */
  lemma {:induction false} RangedSorts(s: seq<int>)
    ensures Sorted(Ranged(s)) && multiset(Ranged(s)) == multiset(s)
    decreases |s|
  {
    if |s| > 1 {
      var l := |s| - |s| / 2;
      var left, right := s[..l], s[l..];
      RangedSorts(left);
      RangedSorts(right);
      MergeOfSortedParts(LeftFirst, Ranged(left), Ranged(right), s, l);
      assert Ranged(s) == SortSpec.Merge(LeftFirst, Ranged(left), Ranged(right));
    }
  }

  /** Sorting keys that are already in order gives them back unchanged. */
  lemma RangedOfSorted(s: seq<int>)
    requires Sorted(s)
    ensures Ranged(s) == s
  {
    RangedSorts(s);
    SortedPermutationUnique(Ranged(s), s);
  }

  /** Sorting twice is sorting once. */
  lemma RangedIdempotent(s: seq<int>)
    ensures Ranged(Ranged(s)) == Ranged(s)
  {
    RangedSorts(s);
    RangedOfSorted(Ranged(s));
  }

  /**
   * For `0 <= low < high`, `mid = (low + high) / 2` satisfies
   * `low <= mid < high`, and the left range `low..mid` holds `n - n / 2` of the
   * `n = high - low + 1` keys. (Go's `/` truncates towards zero; the operands
   * here are non-negative, so it agrees with Dafny's.)
   */
  lemma MidSplits(low: int, high: int)
    requires 0 <= low < high
    ensures low <= (low + high) / 2 < high
    ensures low + high == 2 * ((low + high) / 2) || low + high == 2 * ((low + high) / 2) + 1
    ensures (low + high) / 2 - low + 1 == (high - low + 1) - (high - low + 1) / 2
  {
  }

  /**
   * What a call `mergesort2(low, high)` does to the contents of `S`, `s`
   * before and `t` after: for `low < high` the range `low..high` (inclusive)
   * holds `Ranged` of its old keys and every other position keeps its key;
   * for `low >= high` nothing changes.
   */
  ghost predicate SortsRange(s: seq<int>, t: seq<int>, low: int, high: int) {
    |t| == |s| &&
    (low >= high ==> t == s) &&
    (low < high ==> 0 <= low && high < |s| && t[low..high + 1] == Ranged(s[low..high + 1])) &&
    (forall k :: 0 <= k < |s| && !(low <= k <= high) ==> t[k] == s[k])
  }

  /**
   * Sorts `S[low..high]` (inclusive) in place, leaving the rest of `S` as it
   * was, and returns the space estimate `Cost(high - low + 1)`. A range of at
   * most one key (`low >= high`) is left alone and costs nothing.
   */
  method MergeSort2(S: array<int>, low: int, high: int) returns (memoryUsage: int)
    requires low < high ==> 0 <= low && high < S.Length
    modifies S
    ensures SortsRange(old(S[..]), S[..], low, high)
    ensures memoryUsage == Cost(high - low + 1)
    decreases high - low
  {
    if low < high {
      var mid := (low + high) / 2;
      MidSplits(low, high);
      ghost var s0 := S[..];
      memoryUsage := MergeSort2(S, low, mid);
      ghost var s1 := S[..];
      var rightUsage := MergeSort2(S, mid + 1, high);
      memoryUsage := memoryUsage + rightUsage;
      ghost var s2 := S[..];
      var mergeUsage := Merge2(S, low, mid, high);
      memoryUsage := memoryUsage + mergeUsage;
      RangeCost(low, mid, high);
      SortedFromParts(s0, s1, s2, S[..], low, mid, high);
    } else {
      memoryUsage := 0;
    }
  }

  /**
   * The three steps of `MergeSort2` on the contents of `S`: `s0` before,
   * `s1` after sorting the left part, `s2` after sorting the right part,
   * `s3` after the merge.
   */
  lemma SortedFromParts(s0: seq<int>, s1: seq<int>, s2: seq<int>, s3: seq<int>, low: int, mid: int, high: int)
    requires 0 <= low < high < |s0| && mid == (low + high) / 2
    requires SortsRange(s0, s1, low, mid) && SortsRange(s1, s2, mid + 1, high) && |s3| == |s2|
    requires s3[low..high + 1] == SortSpec.Merge(LeftFirst, s2[low..mid + 1], s2[mid + 1..high + 1])
    requires s3[..low] == s2[..low] && s3[high + 1..] == s2[high + 1..]
    ensures SortsRange(s0, s3, low, high)
  {
    MidSplits(low, high);
    MergedRange(s0, s1, s2, s3, low, mid, high);
    FrameOutside(s2, s3, low, high);
  }

  /** The range part of `SortedFromParts`: the merge of the two sorted parts is `Ranged` of the range. */
  lemma MergedRange(s0: seq<int>, s1: seq<int>, s2: seq<int>, s3: seq<int>, low: int, mid: int, high: int)
    requires 0 <= low <= mid < high < |s0| == |s1| == |s2| == |s3| && mid == (low + high) / 2
    requires s1[low..mid + 1] == Ranged(s0[low..mid + 1])
    requires forall k :: 0 <= k < |s0| && !(low <= k <= mid) ==> s1[k] == s0[k]
    requires s2[mid + 1..high + 1] == Ranged(s1[mid + 1..high + 1])
    requires forall k :: 0 <= k < |s1| && !(mid + 1 <= k <= high) ==> s2[k] == s1[k]
    requires s3[low..high + 1] == SortSpec.Merge(LeftFirst, s2[low..mid + 1], s2[mid + 1..high + 1])
    ensures s3[low..high + 1] == Ranged(s0[low..high + 1])
  {
    Untouched(s0, s1, low, mid, mid + 1, high + 1);
    Untouched(s1, s2, mid + 1, high, low, mid + 1);
    RangedSplit(s0, low, mid, high);
  }

  /** `Ranged` on a range splits it exactly where `MergeSort2` does. */
  lemma RangedSplit(s: seq<int>, low: int, mid: int, high: int)
    requires 0 <= low < high < |s| && mid == (low + high) / 2
    ensures Ranged(s[low..high + 1]) == SortSpec.Merge(LeftFirst, Ranged(s[low..mid + 1]), Ranged(s[mid + 1..high + 1]))
  {
    MidSplits(low, high);
    var x := s[low..high + 1];
    assert x[..mid + 1 - low] == s[low..mid + 1];
    assert x[mid + 1 - low..] == s[mid + 1..high + 1];
  }

  /**
   * A call that changes only positions `a..b` leaves every slice `s[lo..hi]`
   * outside that range as it was.
   */
  lemma Untouched(s: seq<int>, t: seq<int>, a: int, b: int, lo: int, hi: int)
    requires |s| == |t| && 0 <= lo <= hi <= |s|
    requires hi <= a || b < lo
    requires forall k :: 0 <= k < |s| && !(a <= k <= b) ==> t[k] == s[k]
    ensures t[lo..hi] == s[lo..hi]
  {
  }

  lemma CostOfSplit(n: int, l: int, r: int)
    requires n > 1 && r == n / 2 && l == n - r
    ensures Cost(n) == Cost(l) + Cost(r) + 4 * (l + r)
  {
    assert Cost(n) == SplitCost(n, r);
  }

  /** The estimate of a range is that of its two parts plus the merge's scratch array. */
  lemma RangeCost(low: int, mid: int, high: int)
    requires 0 <= low < high && (low + high == 2 * mid || low + high == 2 * mid + 1)
    ensures Cost(high - low + 1) == Cost(mid - low + 1) + Cost(high - (mid + 1) + 1) + 4 * (high - low + 1)
  {
    var n, l, r := high - low + 1, mid - low + 1, high - (mid + 1) + 1;
    RangeSizes(low, mid, high, n, l, r);
    CostOfSplit(n, l, r);
  }

  /** The two parts `MergeSort2` splits a range into have `n - n / 2` and `n / 2` keys. */
  lemma RangeSizes(low: int, mid: int, high: int, n: int, l: int, r: int)
    requires 0 <= low < high && (low + high == 2 * mid || low + high == 2 * mid + 1)
    requires n == high - low + 1 && l == mid - low + 1 && r == high - (mid + 1) + 1
    ensures n > 1 && r == n / 2 && l == n - r
  {
  }

  lemma FrameOutside(s: seq<int>, t: seq<int>, low: int, high: int)
    requires 0 <= low <= high < |s| == |t|
    requires t[..low] == s[..low] && t[high + 1..] == s[high + 1..]
    ensures forall k :: 0 <= k < |t| && !(low <= k <= high) ==> t[k] == s[k]
  {
    forall k | 0 <= k < |t| && !(low <= k <= high) ensures t[k] == s[k] {
      if k < low {
        assert t[k] == t[..low][k];
      } else {
        assert t[k] == t[high + 1..][k - high - 1];
      }
    }
  }

  /** The estimate is never negative. */
  lemma {:induction false} CostNonNegative(n: int)
    ensures Cost(n) >= 0
    decreases n
  {
    if n > 1 {
      var r := n / 2;
      var l := n - r;
      CostNonNegative(l);
      CostNonNegative(r);
      CostOfSplit(n, l, r);
    }
  }

  /** The estimate never decreases as the range grows. */
  lemma {:induction false} CostMonotone(a: int, b: int)
    requires a <= b
    ensures Cost(a) <= Cost(b)
    decreases b
  {
    if a <= 1 {
      CostNonNegative(b);
    } else {
      var ra, rb := a / 2, b / 2;
      var la, lb := a - ra, b - rb;
      assert ra <= rb && la <= lb;
      CostMonotone(la, lb);
      CostMonotone(ra, rb);
      CostOfSplit(a, la, ra);
      CostOfSplit(b, lb, rb);
    }
  }
}
