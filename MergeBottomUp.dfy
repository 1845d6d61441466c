/**
 * Iterative bottom-up merge sort (merge3.go). Runs of width `size` = 1, 2,
 * 4, ... are merged pairwise through a caller-supplied scratch array `temp`;
 * ties go to the left run. The program's global `totalMemory` accumulator
 * is threaded through as a parameter and returned.
 */
module MergeBottomUp {
  import opened SortSpec

  /**
   * The first loop of `merge3`: while both runs `S[low..mid]` and
   * `S[mid + 1..high]` have keys left, writes the smaller head (the left one
   * on ties, `S[i] <= S[j]`) to `temp[k]`. Stops with one run exhausted;
   * `temp[low..k)` is then what the merge has emitted so far.
   */
  method MergeHeads(S: array<int>, temp: array<int>, low: int, mid: int, high: int)
    returns (i: int, j: int, k: int, ghost out: seq<int>)
    requires S != temp
    requires 0 <= low <= mid + 1 <= high + 1 <= S.Length && high + 1 <= temp.Length
    modifies temp
    ensures low <= i <= mid + 1 && mid + 1 <= j <= high + 1 && (i == mid + 1 || j == high + 1)
    ensures k == low + (i - low) + (j - mid - 1)
    ensures MergeFrom(LeftFirst, S[low..mid + 1], S[mid + 1..high + 1], i - low, j - mid - 1, out)
         == SortSpec.Merge(LeftFirst, S[low..mid + 1], S[mid + 1..high + 1])
    ensures |out| == k - low && forall t :: low <= t < k ==> temp[t] == out[t - low]
    ensures forall t :: 0 <= t < temp.Length && !(low <= t < k) ==> temp[t] == old(temp[t])
  {
    ghost var u, v := S[low..mid + 1], S[mid + 1..high + 1];
    ghost var whole := SortSpec.Merge(LeftFirst, u, v);
    out := [];
    i, j, k := low, mid + 1, low;
    ghost var a, b := 0, 0;
    while i <= mid && j <= high
      invariant low <= i <= mid + 1 && mid + 1 <= j <= high + 1
      invariant a == i - low && b == j - mid - 1 && k == low + a + b
      invariant MergeFrom(LeftFirst, u, v, a, b, out) == whole
      invariant |out| == k - low && forall t :: low <= t < k ==> temp[t] == out[t - low]
      invariant forall t :: 0 <= t < temp.Length && !(low <= t < k) ==> temp[t] == old(temp[t])
    {
      if S[i] <= S[j] {
        MergeStepLeft(LeftFirst, u, v, a, b, out);
        temp[k] := S[i];
        out := out + [u[a]];
        i, a := i + 1, a + 1;
      } else {
        MergeStepRight(LeftFirst, u, v, a, b, out);
        temp[k] := S[j];
        out := out + [v[b]];
        j, b := j + 1, b + 1;
      }
      k := k + 1;
    }
  }

  /**
   * The second loop of `merge3`: once the right run is exhausted, copies the
   * rest of the left run `S[i..mid]` to `temp[k..]`.
   */
  method DrainLeft(S: array<int>, temp: array<int>, low: int, mid: int, high: int, i0: int, j: int, k0: int, ghost out0: seq<int>)
    returns (i: int, k: int, ghost out: seq<int>)
    requires S != temp
    requires 0 <= low <= mid + 1 <= high + 1 <= S.Length && high + 1 <= temp.Length
    requires low <= i0 <= mid + 1 && mid + 1 <= j <= high + 1 && (i0 == mid + 1 || j == high + 1)
    requires k0 == low + (i0 - low) + (j - mid - 1)
    requires MergeFrom(LeftFirst, S[low..mid + 1], S[mid + 1..high + 1], i0 - low, j - mid - 1, out0)
          == SortSpec.Merge(LeftFirst, S[low..mid + 1], S[mid + 1..high + 1])
    requires |out0| == k0 - low && forall t :: low <= t < k0 ==> temp[t] == out0[t - low]
    modifies temp
    ensures i == mid + 1 && k == low + (i - low) + (j - mid - 1)
    ensures MergeFrom(LeftFirst, S[low..mid + 1], S[mid + 1..high + 1], i - low, j - mid - 1, out)
         == SortSpec.Merge(LeftFirst, S[low..mid + 1], S[mid + 1..high + 1])
    ensures |out| == k - low && forall t :: low <= t < k ==> temp[t] == out[t - low]
    ensures forall t :: 0 <= t < temp.Length && !(k0 <= t < k) ==> temp[t] == old(temp[t])
  {
    ghost var u, v := S[low..mid + 1], S[mid + 1..high + 1];
    ghost var whole := SortSpec.Merge(LeftFirst, u, v);
    i, k, out := i0, k0, out0;
    ghost var a, b := i - low, j - mid - 1;
    while i <= mid
      invariant low <= i <= mid + 1 && (i == mid + 1 || j == high + 1)
      invariant a == i - low && b == j - mid - 1 && k == low + a + b
      invariant MergeFrom(LeftFirst, u, v, a, b, out) == whole
      invariant |out| == k - low && forall t :: low <= t < k ==> temp[t] == out[t - low]
      invariant forall t :: 0 <= t < temp.Length && !(k0 <= t < k) ==> temp[t] == old(temp[t])
    {
      MergeStepLeft(LeftFirst, u, v, a, b, out);
      temp[k] := S[i];
      out := out + [u[a]];
      i, a := i + 1, a + 1;
      k := k + 1;
    }
  }

  /**
   * The third loop of `merge3`: once the left run is exhausted, copies the
   * rest of the right run `S[j..high]` to `temp[k..]`.
   */
  method DrainRight(S: array<int>, temp: array<int>, low: int, mid: int, high: int, i: int, j0: int, k0: int, ghost out0: seq<int>)
    returns (j: int, k: int, ghost out: seq<int>)
    requires S != temp
    requires 0 <= low <= mid + 1 <= high + 1 <= S.Length && high + 1 <= temp.Length
    requires i == mid + 1 && mid + 1 <= j0 <= high + 1
    requires k0 == low + (i - low) + (j0 - mid - 1)
    requires MergeFrom(LeftFirst, S[low..mid + 1], S[mid + 1..high + 1], i - low, j0 - mid - 1, out0)
          == SortSpec.Merge(LeftFirst, S[low..mid + 1], S[mid + 1..high + 1])
    requires |out0| == k0 - low && forall t :: low <= t < k0 ==> temp[t] == out0[t - low]
    modifies temp
    ensures j == high + 1 && k == high + 1
    ensures out == SortSpec.Merge(LeftFirst, S[low..mid + 1], S[mid + 1..high + 1])
    ensures |out| == k - low && forall t :: low <= t < k ==> temp[t] == out[t - low]
    ensures forall t :: 0 <= t < temp.Length && !(k0 <= t < k) ==> temp[t] == old(temp[t])
  {
    ghost var u, v := S[low..mid + 1], S[mid + 1..high + 1];
    ghost var whole := SortSpec.Merge(LeftFirst, u, v);
    j, k, out := j0, k0, out0;
    ghost var a, b := i - low, j - mid - 1;
    while j <= high
      invariant mid + 1 <= j <= high + 1
      invariant a == i - low && b == j - mid - 1 && k == low + a + b
      invariant MergeFrom(LeftFirst, u, v, a, b, out) == whole
      invariant |out| == k - low && forall t :: low <= t < k ==> temp[t] == out[t - low]
      invariant forall t :: 0 <= t < temp.Length && !(k0 <= t < k) ==> temp[t] == old(temp[t])
    {
      MergeStepRight(LeftFirst, u, v, a, b, out);
      temp[k] := S[j];
      out := out + [v[b]];
      j, b := j + 1, b + 1;
      k := k + 1;
    }
  }

  /**
   * `merge3` without the copy back: merges the runs `S[low..mid]` and
   * `S[mid + 1..high]` (inclusive bounds) into `temp[low..high]`; after the
   * first loop the rest of whichever run is left over is copied. `temp` is
   * written only in `low..high` because the output index `k` starts at `low`.
   */
  method MergeIntoTemp(S: array<int>, temp: array<int>, low: int, mid: int, high: int)
    requires S != temp
    requires 0 <= low <= mid + 1 <= high + 1 <= S.Length && high + 1 <= temp.Length
    modifies temp
    ensures temp[low..high + 1] == SortSpec.Merge(LeftFirst, S[low..mid + 1], S[mid + 1..high + 1])
    ensures forall t :: 0 <= t < temp.Length && !(low <= t <= high) ==> temp[t] == old(temp[t])
  {
    var i, j, k, out := MergeHeads(S, temp, low, mid, high);
    var k1;
    i, k1, out := DrainLeft(S, temp, low, mid, high, i, j, k, out);
    j, k1, out := DrainRight(S, temp, low, mid, high, i, j, k1, out);
    assert temp[low..high + 1] == out;
  }

  /**
   * `merge3`: merges the runs `S[low..mid]` and `S[mid + 1..high]` into
   * `temp[low..high]`, copies that range back into `S`, and returns the
   * accumulator `totalMemory` increased by `4 * (high - low + 1)`. Outside
   * `low..high` neither array changes.
   */
  method Merge3(S: array<int>, temp: array<int>, low: int, mid: int, high: int, totalMemory: int) returns (total: int)
    requires S != temp
    requires 0 <= low <= mid + 1 <= high + 1 <= S.Length && high + 1 <= temp.Length
    modifies S, temp
    ensures S[low..high + 1] == SortSpec.Merge(LeftFirst, old(S[low..mid + 1]), old(S[mid + 1..high + 1]))
    ensures temp[low..high + 1] == S[low..high + 1]
    ensures forall t :: 0 <= t < S.Length && !(low <= t <= high) ==> S[t] == old(S[t])
    ensures forall t :: 0 <= t < temp.Length && !(low <= t <= high) ==> temp[t] == old(temp[t])
    ensures total == totalMemory + 4 * (high - low + 1)
  {
    var memoryAllocated := (high - low + 1) * 4;
    total := totalMemory + memoryAllocated;
    MergeIntoTemp(S, temp, low, mid, high);
    ghost var s1 := S[..];
    var i := low;
    while i <= high
      invariant low <= i <= high + 1
      invariant forall t :: low <= t < i ==> S[t] == temp[t]
      invariant forall t :: 0 <= t < S.Length && !(low <= t < i) ==> S[t] == s1[t]
      modifies S
    {
      S[i] := temp[i];
      i := i + 1;
    }
    assert S[low..high + 1] == temp[low..high + 1];
  }

  /**
   * One pass of `mergesort3` with run width `w` over the keys `s`: the first
   * two runs `s[..w]` and `s[w..min(2w, |s|)]` are merged (only when a
   * second run exists), then the pass goes on after them.
   */
  function Pass(s: seq<int>, w: int): (r: seq<int>)
    requires w >= 1
    ensures |r| == |s|
    decreases |s|
  {
    if |s| <= w then s
    else SortSpec.Merge(LeftFirst, s[..w], s[w..Min(2 * w, |s|)]) + Pass(s[Min(2 * w, |s|)..], w)
  }

  /** What `mergesort3` computes: passes of width `w`, `2w`, ... while the width is below the length. */
  function BottomUp(s: seq<int>, w: int): (r: seq<int>)
    requires w >= 1
    ensures |r| == |s|
    decreases |s| - w
  {
    if w >= |s| then s else BottomUp(Pass(s, w), 2 * w)
  }

  /** Bytes that one pass of width `w` adds to `totalMemory` over `m` keys: `4 * (high - low + 1)` per merge. */
  function PassMemory(m: int, w: int): (bytes: int)
    requires w >= 1
    decreases m
  {
    if m <= w then 0 else 4 * Min(2 * w, m) + PassMemory(m - Min(2 * w, m), w)
  }

  /** Bytes that all passes from width `w` on add to `totalMemory` for `n` keys. */
  function TotalMemory(n: int, w: int): (bytes: int)
    requires w >= 1
    decreases n - w
  {
    if w >= n then 0 else PassMemory(n, w) + TotalMemory(n, 2 * w)
  }

  /** The number of passes `mergesort3` makes from width `w` on. */
  function Passes(n: int, w: int): (p: nat)
    requires w >= 1
    decreases n - w
  {
    if w >= n then 0 else 1 + Passes(n, 2 * w)
  }

  /**
   * `s` consists of sorted runs of width `w` starting at `0, w, 2w, ...`
   * (the last run may be shorter).
   */
  predicate BlocksSorted(s: seq<int>, w: int)
    requires w >= 1
    decreases |s|
  {
    if |s| <= w then Sorted(s) else Sorted(s[..w]) && BlocksSorted(s[w..], w)
  }

  /** A pass rearranges keys and loses none. */
  lemma {:induction false} PassPermutation(s: seq<int>, w: int)
    requires w >= 1
    ensures multiset(Pass(s, w)) == multiset(s)
    decreases |s|
  {
    if |s| > w {
      var e := Min(2 * w, |s|);
      var x, y, z := s[..w], s[w..e], s[e..];
      PassPermutation(z, w);
      MergePermutation(LeftFirst, x, y);
      ThreeParts(s, w, e);
      assert Pass(s, w) == SortSpec.Merge(LeftFirst, x, y) + Pass(z, w);
    }
  }

  // Proof helper: a sequence is its three consecutive slices.
  lemma ThreeParts(s: seq<int>, w: int, e: int)
    requires 0 <= w <= e <= |s|
    ensures s == s[..w] + s[w..e] + s[e..]
  {
  }

  /**
   * The pass invariant: when the runs of width `w` are sorted before a
   * pass, the runs of width `2w` are sorted after it.
   */
  lemma {:induction false} PassDoublesRuns(s: seq<int>, w: int)
    requires w >= 1 && BlocksSorted(s, w)
    ensures BlocksSorted(Pass(s, w), 2 * w)
    decreases |s|
  {
    if |s| > w {
      var e := Min(2 * w, |s|);
      var rest := s[w..];
      if |rest| <= w {
        assert s[w..e] == rest;
      } else {
        assert s[w..e] == rest[..w];
        assert rest[w..] == s[e..];
      }
      var m := SortSpec.Merge(LeftFirst, s[..w], s[w..e]);
      MergeSorted(LeftFirst, s[..w], s[w..e]);
      MergePermutation(LeftFirst, s[..w], s[w..e]);
      if e == |s| {
        assert s[e..] == [];
        assert Pass(s, w) == m;
      } else {
        PassDoublesRuns(s[e..], w);
        var r := Pass(s, w);
        assert r[..2 * w] == m;
        assert r[2 * w..] == Pass(s[e..], w);
      }
    }
  }

  /** Runs of width 1 are always sorted: where `mergesort3` starts. */
  lemma {:induction false} SingletonRuns(s: seq<int>)
    ensures BlocksSorted(s, 1)
    decreases |s|
  {
    if |s| > 1 {
      SingletonRuns(s[1..]);
    }
  }

  /** Sorted runs of width `w` become, after the remaining passes, one sorted permutation. */
  lemma {:induction false} BottomUpFromRuns(s: seq<int>, w: int)
    requires w >= 1 && BlocksSorted(s, w)
    ensures Sorted(BottomUp(s, w)) && multiset(BottomUp(s, w)) == multiset(s)
    decreases |s| - w
  {
    if w < |s| {
      PassDoublesRuns(s, w);
      PassPermutation(s, w);
      BottomUpFromRuns(Pass(s, w), 2 * w);
    }
  }

  /** `BottomUp` from width 1 sorts: its result is non-decreasing and a permutation of its input. */
  lemma BottomUpSorts(s: seq<int>)
    ensures Sorted(BottomUp(s, 1)) && multiset(BottomUp(s, 1)) == multiset(s)
  {
    SingletonRuns(s);
    BottomUpFromRuns(s, 1);
  }

  /** Sorting keys that are already in order gives them back unchanged. */
  lemma BottomUpOfSorted(s: seq<int>)
    requires Sorted(s)
    ensures BottomUp(s, 1) == s
  {
    BottomUpSorts(s);
    SortedPermutationUnique(BottomUp(s, 1), s);
  }

  /** Sorting twice is sorting once. */
  lemma BottomUpIdempotent(s: seq<int>)
    ensures BottomUp(BottomUp(s, 1), 1) == BottomUp(s, 1)
  {
    BottomUpSorts(s);
    BottomUpOfSorted(BottomUp(s, 1));
  }

  /** Within one pass the merged ranges are disjoint, so a pass adds at most `4 * m` bytes. */
  lemma {:induction false} PassMemoryBound(m: int, w: int)
    requires w >= 1 && m >= 0
    ensures 0 <= PassMemory(m, w) <= 4 * m
    decreases m
  {
    if m > w {
      PassMemoryBound(m - Min(2 * w, m), w);
    }
  }

  /** All passes together add at most `4 * n` bytes per pass. */
  lemma {:induction false} TotalMemoryBound(n: int, w: int)
    requires w >= 1 && n >= 0
    ensures 0 <= TotalMemory(n, w) <= 4 * (n * Passes(n, w))
    decreases n - w
  {
    if w < n {
      PassMemoryBound(n, w);
      TotalMemoryBound(n, 2 * w);
      assert n * Passes(n, w) == n + n * Passes(n, 2 * w);
    }
  }

  /** More keys never make one pass of width `w` charge less. */
  lemma {:induction false} PassMemoryMonotone(a: int, b: int, w: int)
    requires w >= 1 && a <= b
    ensures PassMemory(a, w) <= PassMemory(b, w)
    decreases b
  {
    if a <= w {
      if b > w {
        PassMemoryBound(b, w);
      }
    } else if a >= 2 * w {
      PassMemoryMonotone(a - 2 * w, b - 2 * w, w);
      assert PassMemory(a, w) == 8 * w + PassMemory(a - 2 * w, w);
      assert PassMemory(b, w) == 8 * w + PassMemory(b - 2 * w, w);
    } else if b >= 2 * w {
      PassMemoryBound(b - 2 * w, w);
      assert PassMemory(b, w) == 8 * w + PassMemory(b - 2 * w, w);
    }
  }

  /** More keys never make `mergesort3` charge less, from any starting width. */
  lemma {:induction false} TotalMemoryMonotone(a: int, b: int, w: int)
    requires w >= 1 && a <= b
    ensures TotalMemory(a, w) <= TotalMemory(b, w)
    decreases b - w
  {
    if w >= a {
      if w < b {
        TotalMemoryBound(b, w);
      }
    } else {
      PassMemoryMonotone(a, b, w);
      TotalMemoryMonotone(a, b, 2 * w);
    }
  }

  /**
   * The state of `S` (as `s`) inside a pass of width `w` over `s[0..n)`:
   * the runs before `done` are merged, and passing over the rest yields `target`.
   */
  ghost predicate PassedUpTo(s: seq<int>, done: int, n: int, w: int, target: seq<int>) {
    0 <= done <= n <= |s| && 1 <= w && s[..done] + Pass(s[done..n], w) == target
  }

  /** Before the first merge of a pass nothing is done yet. */
  lemma PassStart(s: seq<int>, n: int, w: int)
    requires 0 <= n <= |s| && 1 <= w
    ensures PassedUpTo(s, 0, n, w, Pass(s[..n], w))
  {
    assert s[0..n] == s[..n];
  }

  /** After the last merge of a pass `s[0..n)` is the pass's result. */
  lemma PassEnd(s: seq<int>, n: int, w: int, target: seq<int>)
    requires PassedUpTo(s, n, n, w, target)
    ensures s[..n] == target
  {
    assert s[n..n] == [];
  }

  /**
   * One iteration of `mergesort3`'s inner loop that merges: `a` is `S`
   * before and `b` after `merge3(low, mid, high)`.
   */
  lemma PassStep(a: seq<int>, b: seq<int>, n: int, low: int, mid: int, high: int, w: int, target: seq<int>)
    requires PassedUpTo(a, low, n, w, target) && |a| == |b|
    requires mid == low + w - 1 && high == Min(low + 2 * w - 1, n - 1) && mid < n - 1
    requires b[low..high + 1] == SortSpec.Merge(LeftFirst, a[low..mid + 1], a[mid + 1..high + 1])
    requires forall t :: 0 <= t < |a| && !(low <= t <= high) ==> b[t] == a[t]
    ensures high + 1 == Min(low + 2 * w, n)
    ensures PassedUpTo(b, high + 1, n, w, target)
  {
    MergedPrefix(a, b, n, low, mid, high, w);
  }

  /** The prefix of `b` through `high` is the prefix of `a` before `low` followed by the merge at `low`. */
  lemma MergedPrefix(a: seq<int>, b: seq<int>, n: int, low: int, mid: int, high: int, w: int)
    requires 1 <= w && 0 <= low && n <= |a| == |b|
    requires mid == low + w - 1 && high == Min(low + 2 * w - 1, n - 1) && mid < n - 1
    requires b[low..high + 1] == SortSpec.Merge(LeftFirst, a[low..mid + 1], a[mid + 1..high + 1])
    requires forall t :: 0 <= t < |a| && !(low <= t <= high) ==> b[t] == a[t]
    ensures high + 1 == Min(low + 2 * w, n)
    ensures b[..high + 1] + Pass(b[high + 1..n], w) == a[..low] + Pass(a[low..n], w)
  {
    var mid1, e := mid + 1, high + 1;
    assert e == Min(low + 2 * w, n);
    PassAt(a, n, low, w, mid1, e);
    var m, rest := b[low..e], Pass(a[e..n], w);
    UnchangedOutside(a, b, low, high, e, n);
    SplitPrefix(b, low, e);
    AppendAssociates(a[..low], m, rest);
  }

  // Proof helper: appending associates, stated once so the solver need not search for it.
  lemma AppendAssociates(x: seq<int>, y: seq<int>, z: seq<int>)
    ensures (x + y) + z == x + (y + z)
  {
  }

  /** A merge of `low..high` leaves the keys before `low` and from `e = high + 1` to `n` as they were. */
  lemma UnchangedOutside(a: seq<int>, b: seq<int>, low: int, high: int, e: int, n: int)
    requires 0 <= low <= e <= n <= |a| == |b| && e == high + 1
    requires forall t :: 0 <= t < |a| && !(low <= t <= high) ==> b[t] == a[t]
    ensures b[..low] == a[..low] && b[e..n] == a[e..n]
  {
    assert forall t :: 0 <= t < low ==> b[..low][t] == a[..low][t];
    assert forall t :: 0 <= t < n - e ==> b[e..n][t] == a[e..n][t];
  }

  // Proof helper: a prefix splits into a shorter prefix and a slice.
  lemma SplitPrefix(s: seq<int>, low: int, e: int)
    requires 0 <= low <= e <= |s|
    ensures s[..e] == s[..low] + s[low..e]
  {
  }

  /** The pass over `a[low..n]` merges its first two runs, then goes on at `min(low + 2w, n)`. */
  lemma PassAt(a: seq<int>, n: int, low: int, w: int, mid1: int, e: int)
    requires 1 <= w && 0 <= low && low + w < n <= |a|
    requires mid1 == low + w && e == Min(low + 2 * w, n)
    ensures Pass(a[low..n], w) == SortSpec.Merge(LeftFirst, a[low..mid1], a[mid1..e]) + Pass(a[e..n], w)
  {
    var x := a[low..n];
    var c := Min(2 * w, |x|);
    assert c == e - low;
    assert Pass(x, w) == SortSpec.Merge(LeftFirst, x[..w], x[w..c]) + Pass(x[c..], w);
    SubSlices(a, low, n, w, c, mid1, e);
  }

  /** The three parts of `a[low..n]` that a merge at `low` touches, as slices of `a`. */
  lemma SubSlices(a: seq<int>, low: int, n: int, w: int, c: int, mid1: int, e: int)
    requires 0 <= low <= n <= |a| && 0 <= w <= c <= n - low && mid1 == low + w && e == low + c
    ensures a[low..n][..w] == a[low..mid1] && a[low..n][w..c] == a[mid1..e] && a[low..n][c..] == a[e..n]
  {
    var x := a[low..n];
    assert forall t :: 0 <= t < w ==> x[..w][t] == a[low..mid1][t];
    assert forall t :: 0 <= t < c - w ==> x[w..c][t] == a[mid1..e][t];
    assert forall t :: 0 <= t < n - e ==> x[c..][t] == a[e..n][t];
  }

  /** The merge at `low` is charged as the first term of the pass's memory over `S[low..n)`. */
  lemma MergeCharge(n: int, low: int, high: int, w: int)
    requires 1 <= w && 0 <= low && low + w < n && high == Min(low + 2 * w - 1, n - 1)
    ensures PassMemory(n - low, w) == 4 * (high - low + 1) + PassMemory(n - (high + 1), w)
  {
  }

  /** An iteration of the inner loop that finds no second run completes the pass. */
  lemma PassSkip(a: seq<int>, n: int, low: int, w: int, target: seq<int>)
    requires PassedUpTo(a, low, n, w, target) && n - low <= w
    ensures Min(low + 2 * w, n) == n && PassMemory(n - low, w) == PassMemory(n - n, w)
    ensures PassedUpTo(a, n, n, w, target)
  {
    assert a[..low] + a[low..n] == a[..n];
    assert a[n..n] == [];
  }

  /**
   * One iteration of the inner loop of `mergesort3` at `low`: merges
   * `S[low..mid]` with `S[mid + 1..high]` when the second run exists
   * (`mid < n - 1`) and otherwise leaves `S` alone. Either way the pass is
   * done up to `Min(low + 2 * size, n)` and the merged bytes are charged.
   */
  method MergeNextPair(n: int, size: int, low: int, S: array<int>, temp: array<int>, ghost target: seq<int>, totalMemory: int)
    returns (total: int, ghost done: int)
    requires S != temp && 1 <= size && low < n <= temp.Length
    requires PassedUpTo(S[..], low, n, size, target)
    modifies S, temp
    ensures done == Min(low + 2 * size, n)
    ensures PassedUpTo(S[..], done, n, size, target)
    ensures forall t :: 0 <= t < S.Length && n <= t ==> S[t] == old(S[t])
    ensures forall t :: 0 <= t < temp.Length && n <= t ==> temp[t] == old(temp[t])
    ensures total + PassMemory(n - done, size) == totalMemory + PassMemory(n - low, size)
  {
    var mid := low + size - 1;
    var high := Min(low + 2 * size - 1, n - 1);
    if mid < n - 1 {
      ghost var before := S[..];
      total := Merge3(S, temp, low, mid, high, totalMemory);
      PassStep(before, S[..], n, low, mid, high, size, target);
      MergeCharge(n, low, high, size);
      done := high + 1;
    } else {
      total := totalMemory;
      PassSkip(S[..], n, low, size, target);
      done := n;
    }
  }

  /**
   * The inner loop of `mergesort3` for one run width `size`: for `low = 0,
   * 2 * size, ...` below `n`, merges the pair of runs at `low`. Turns
   * `S[0..n)` into `Pass` of it and adds `PassMemory(n, size)` to the
   * accumulator.
   */
  method MergePass(n: int, size: int, S: array<int>, temp: array<int>, totalMemory: int) returns (total: int)
    requires S != temp && 1 <= size && 0 <= n <= S.Length && n <= temp.Length
    modifies S, temp
    ensures S[..n] == Pass(old(S[..n]), size)
    ensures forall t :: 0 <= t < S.Length && n <= t ==> S[t] == old(S[t])
    ensures forall t :: 0 <= t < temp.Length && n <= t ==> temp[t] == old(temp[t])
    ensures total == totalMemory + PassMemory(n, size)
  {
    total := totalMemory;
    ghost var target := Pass(S[..n], size);
    var low := 0;
    ghost var done := 0;
    PassStart(S[..], n, size);
    while low < n
      invariant 0 <= low && done == Min(low, n)
      invariant PassedUpTo(S[..], done, n, size, target)
      invariant forall t :: 0 <= t < S.Length && n <= t ==> S[t] == old(S[t])
      invariant forall t :: 0 <= t < temp.Length && n <= t ==> temp[t] == old(temp[t])
      invariant total + PassMemory(n - done, size) == totalMemory + PassMemory(n, size)
      decreases n - low
    {
      total, done := MergeNextPair(n, size, low, S, temp, target, total);
      low := low + 2 * size;
    }
    PassEnd(S[..], n, size, target);
  }

  /**
   * `mergesort3`: sorts `S[0..n)` bottom-up through `temp` and returns the
   * accumulator `totalMemory` increased by `TotalMemory(n, 1)`. With
   * `n <= 1` nothing changes. Outside `0..n` neither array changes.
   */
  method MergeSort3(n: int, S: array<int>, temp: array<int>, totalMemory: int) returns (total: int)
    requires S != temp
    requires 1 < n ==> n <= S.Length && n <= temp.Length
    modifies S, temp
    ensures n <= 1 ==> S[..] == old(S[..]) && temp[..] == old(temp[..])
    ensures 1 < n ==> S[..n] == BottomUp(old(S[..n]), 1)
    ensures forall t :: 0 <= t < S.Length && n <= t ==> S[t] == old(S[t])
    ensures forall t :: 0 <= t < temp.Length && n <= t ==> temp[t] == old(temp[t])
    ensures total == totalMemory + TotalMemory(n, 1)
  {
    total := totalMemory;
    var size := 1;
    ghost var result := if 1 < n then BottomUp(old(S[..n]), 1) else [];
    while size < n
      invariant 1 <= size && (n <= 1 ==> size == 1)
      invariant size == 1 ==> S[..] == old(S[..]) && temp[..] == old(temp[..])
      invariant 1 < n ==> BottomUp(S[..n], size) == result
      invariant forall t :: 0 <= t < S.Length && n <= t ==> S[t] == old(S[t])
      invariant forall t :: 0 <= t < temp.Length && n <= t ==> temp[t] == old(temp[t])
      invariant total + TotalMemory(n, size) == totalMemory + TotalMemory(n, 1)
      decreases n - size
    {
      total := MergePass(n, size, S, temp, total);
      size := size * 2;
    }
  }
}
