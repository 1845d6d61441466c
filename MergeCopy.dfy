/**
 * Recursive merge sort that copies each half into freshly allocated arrays
 * (merge1.go). The space estimate charges 4 bytes per key for the two half
 * buffers at every level of the recursion.
 */
module MergeCopy {
  import opened SortSpec

  /**
   * Space estimate of `MyMergeSort` for `n` keys, in bytes: nothing for
   * `n <= 1`, otherwise the estimates of both halves plus the merge's
   * `4 * (h + m)` with `h = n / 2` and `m = n - h`, that is `4 * n`.
   */
  function Cost(n: int): (c: int)
    decreases n, 1
  {
    if n <= 1 then 0 else SplitCost(n, n / 2)
  }

  /** Estimate of one splitting level at `h`: sort `h` and `n - h` keys, then merge all `n` at 4 bytes each. */
  function SplitCost(n: int, h: int): (c: int)
    requires 0 < h < n
    decreases n, 0
  {
    Cost(h) + Cost(n - h) + 4 * n
  }

  /**
   * The first loop of `merge`: while both runs `U[..h]` and `V[..m]` have
   * keys left, writes the smaller head to `S[k]`, the head of `V` on equal
   * keys (`U[i] < V[j]` fails). Stops with one run exhausted; `S[..k]` is
   * then what the merge has emitted so far.
   */
  method MergeHeads(h: int, m: int, U: array<int>, V: array<int>, S: array<int>)
    returns (i: int, j: int, k: int, ghost out: seq<int>)
    requires 0 <= h <= U.Length && 0 <= m <= V.Length && h + m <= S.Length
    requires S != U && S != V
    modifies S
    ensures 0 <= i <= h && 0 <= j <= m && (i == h || j == m) && k == i + j
    ensures MergeFrom(RightFirst, U[..h], V[..m], i, j, out) == SortSpec.Merge(RightFirst, U[..h], V[..m])
    ensures |out| == k && forall t :: 0 <= t < k ==> S[t] == out[t]
    ensures forall t :: h + m <= t < S.Length ==> S[t] == old(S[t])
  {
    ghost var u, v := U[..h], V[..m];
    ghost var whole := SortSpec.Merge(RightFirst, u, v);
    out := [];
    i, j, k := 0, 0, 0;
    while i < h && j < m
      invariant 0 <= i <= h && 0 <= j <= m && k == i + j
      invariant MergeFrom(RightFirst, u, v, i, j, out) == whole
      invariant |out| == k && forall t :: 0 <= t < k ==> S[t] == out[t]
      invariant forall t :: h + m <= t < S.Length ==> S[t] == old(S[t])
    {
      if U[i] < V[j] {
        MergeStepLeft(RightFirst, u, v, i, j, out);
        S[k] := U[i];
        out := out + [u[i]];
        i := i + 1;
      } else {
        MergeStepRight(RightFirst, u, v, i, j, out);
        S[k] := V[j];
        out := out + [v[j]];
        j := j + 1;
      }
      k := k + 1;
    }
  }

  /**
   * The second loop of `merge`: once `V` is exhausted, copies the rest of
   * `U[i..h]` to `S[k..]`.
   */
  method DrainLeft(h: int, m: int, U: array<int>, V: array<int>, S: array<int>, i0: int, j: int, k0: int, ghost out0: seq<int>)
    returns (i: int, k: int, ghost out: seq<int>)
    requires 0 <= h <= U.Length && 0 <= m <= V.Length && h + m <= S.Length
    requires S != U && S != V
    requires 0 <= i0 <= h && 0 <= j <= m && (i0 == h || j == m) && k0 == i0 + j
    requires MergeFrom(RightFirst, U[..h], V[..m], i0, j, out0) == SortSpec.Merge(RightFirst, U[..h], V[..m])
    requires |out0| == k0 && forall t :: 0 <= t < k0 ==> S[t] == out0[t]
    modifies S
    ensures i == h && k == i + j
    ensures MergeFrom(RightFirst, U[..h], V[..m], i, j, out) == SortSpec.Merge(RightFirst, U[..h], V[..m])
    ensures |out| == k && forall t :: 0 <= t < k ==> S[t] == out[t]
    ensures forall t :: h + m <= t < S.Length ==> S[t] == old(S[t])
  {
    ghost var u, v := U[..h], V[..m];
    ghost var whole := SortSpec.Merge(RightFirst, u, v);
    i, k, out := i0, k0, out0;
    while i < h
      invariant 0 <= i <= h && k == i + j
      invariant i == h || j == m
      invariant MergeFrom(RightFirst, u, v, i, j, out) == whole
      invariant |out| == k && forall t :: 0 <= t < k ==> S[t] == out[t]
      invariant forall t :: h + m <= t < S.Length ==> S[t] == old(S[t])
    {
      MergeStepLeft(RightFirst, u, v, i, j, out);
      S[k] := U[i];
      out := out + [u[i]];
      i := i + 1;
      k := k + 1;
    }
  }

  /**
   * The third loop of `merge`: once `U` is exhausted, copies the rest of
   * `V[j..m]` to `S[k..]`.
   */
  method DrainRight(h: int, m: int, U: array<int>, V: array<int>, S: array<int>, i: int, j0: int, k0: int, ghost out0: seq<int>)
    returns (j: int, k: int, ghost out: seq<int>)
    requires 0 <= h <= U.Length && 0 <= m <= V.Length && h + m <= S.Length
    requires S != U && S != V
    requires i == h && 0 <= j0 <= m && k0 == i + j0
    requires MergeFrom(RightFirst, U[..h], V[..m], i, j0, out0) == SortSpec.Merge(RightFirst, U[..h], V[..m])
    requires |out0| == k0 && forall t :: 0 <= t < k0 ==> S[t] == out0[t]
    modifies S
    ensures j == m && k == h + m
    ensures out == SortSpec.Merge(RightFirst, U[..h], V[..m])
    ensures |out| == k && forall t :: 0 <= t < k ==> S[t] == out[t]
    ensures forall t :: h + m <= t < S.Length ==> S[t] == old(S[t])
  {
    ghost var u, v := U[..h], V[..m];
    ghost var whole := SortSpec.Merge(RightFirst, u, v);
    j, k, out := j0, k0, out0;
    while j < m
      invariant 0 <= j <= m && k == i + j
      invariant MergeFrom(RightFirst, u, v, i, j, out) == whole
      invariant |out| == k && forall t :: 0 <= t < k ==> S[t] == out[t]
      invariant forall t :: h + m <= t < S.Length ==> S[t] == old(S[t])
    {
      MergeStepRight(RightFirst, u, v, i, j, out);
      S[k] := V[j];
      out := out + [v[j]];
      j := j + 1;
      k := k + 1;
    }
  }

  /**
   * `merge`: merges the runs `U[..h]` and `V[..m]` into `S[..h + m]` with
   * the strict comparison `U[i] < V[j]`, so on equal keys the key of `V`
   * goes first; after the first loop the rest of whichever run is left over
   * is copied. Returns `4 * (h + m)` bytes whatever the keys are.
   */
  method Merge(h: int, m: int, U: array<int>, V: array<int>, S: array<int>) returns (memoryUsage: int)
    requires 0 <= h <= U.Length && 0 <= m <= V.Length && h + m <= S.Length
    requires S != U && S != V
    modifies S
    ensures S[..h + m] == SortSpec.Merge(RightFirst, U[..h], V[..m])
    ensures S[h + m..] == old(S[h + m..])
    ensures memoryUsage == 4 * (h + m)
  {
    memoryUsage := h * 4 + m * 4;
    var i, j, k, out := MergeHeads(h, m, U, V, S);
    i, k, out := DrainLeft(h, m, U, V, S, i, j, k, out);
    j, k, out := DrainRight(h, m, U, V, S, i, j, k, out);
    assert S[..k] == out;
  }

  /**
   * What `MyMergeSort` computes: split at `|s| / 2`, sort both halves, merge
   * them with ties to the right half. Sequences of at most one key are left
   * as they are.
   */
  function TopDown(s: seq<int>): (r: seq<int>)
    ensures |r| == |s|
    decreases |s|
  {
    if |s| <= 1 then s else SortSpec.Merge(RightFirst, TopDown(s[..|s| / 2]), TopDown(s[|s| / 2..]))
  }

  /** `TopDown` sorts: its result is non-decreasing and a permutation of its input. */
  lemma {:induction false} TopDownSorts(s: seq<int>)
    ensures Sorted(TopDown(s)) && multiset(TopDown(s)) == multiset(s)
    decreases |s|
  {
    if |s| > 1 {
      var h := |s| / 2;
      var left, right := s[..h], s[h..];
      TopDownSorts(left);
      TopDownSorts(right);
      MergeOfSortedParts(RightFirst, TopDown(left), TopDown(right), s, h);
      assert TopDown(s) == SortSpec.Merge(RightFirst, TopDown(left), TopDown(right));
    }
  }

  /** Sorting keys that are already in order gives them back unchanged. */
  lemma TopDownOfSorted(s: seq<int>)
    requires Sorted(s)
    ensures TopDown(s) == s
  {
    TopDownSorts(s);
    SortedPermutationUnique(TopDown(s), s);
  }

  /** Sorting twice is sorting once. */
  lemma TopDownIdempotent(s: seq<int>)
    ensures TopDown(TopDown(s)) == TopDown(s)
  {
    TopDownSorts(s);
    TopDownOfSorted(TopDown(s));
  }

  /**
   * Sorts `S[..n]`: copies `S[..h]` and `S[h..n]` (with `h = n / 2`) into
   * fresh arrays, sorts both recursively and merges them back into `S`.
   * Returns the space estimate `Cost(n)`. For `n <= 1` nothing happens.
   */
  method MyMergeSort(n: int, S: array<int>) returns (memoryUsage: int)
    requires n <= S.Length
    modifies S
    ensures n <= 1 ==> S[..] == old(S[..])
    ensures 0 <= n ==> S[..n] == TopDown(old(S[..n]))
    ensures forall k :: 0 <= n <= k < S.Length ==> S[k] == old(S[k])
    ensures memoryUsage == Cost(n)
    decreases n
  {
    if n > 1 {
      var h := n / 2;
      var m := n - h;
      var U, V := CopyHalves(n, h, m, S);
      ghost var s0 := S[..];
      assert U[..h] == s0[..h] && V[..m] == s0[h..n];
      memoryUsage := MyMergeSort(h, U);
      var rightUsage := MyMergeSort(m, V);
      memoryUsage := memoryUsage + rightUsage;
      ghost var u1, v1 := U[..h], V[..m];
      assert S[..] == s0;
      var mergeUsage := Merge(h, m, U, V, S);
      memoryUsage := memoryUsage + mergeUsage;
      CostOfSplit(n, h, m);
      assert U[..h] == u1 && V[..m] == v1;
      MergedHalves(s0, u1, v1, S[..], n, h);
    } else {
      memoryUsage := 0;
    }
  }

  /**
   * The allocation and the two `copy` calls of `myMergeSort`: fresh arrays
   * `U` of `h` keys and `V` of `m` keys holding `S[..h]` and `S[h..n]`.
   */
  method CopyHalves(n: int, h: int, m: int, S: array<int>) returns (U: array<int>, V: array<int>)
    requires 0 <= h <= n <= S.Length && m == n - h
    ensures fresh(U) && fresh(V) && U != V && U.Length == h && V.Length == m
    ensures U[..] == S[..h] && V[..] == S[h..n]
  {
    U := new int[h];
    V := new int[m];
    forall i | 0 <= i < h {
      U[i] := S[i];
    }
    forall i | 0 <= i < m {
      V[i] := S[h + i];
    }
  }

  /**
   * The last step of `MyMergeSort`: once the sorted halves of `s0[..n]` are
   * merged into the front of the array and the rest is untouched, the front
   * holds `TopDown` of the old front.
   */
  lemma MergedHalves(s0: seq<int>, u: seq<int>, v: seq<int>, s: seq<int>, n: int, h: int)
    requires 1 < n <= |s0| == |s| && h == n / 2
    requires u == TopDown(s0[..h]) && v == TopDown(s0[h..n])
    requires s[..n] == SortSpec.Merge(RightFirst, u, v) && s[n..] == s0[n..]
    ensures s[..n] == TopDown(s0[..n])
    ensures forall k :: n <= k < |s| ==> s[k] == s0[k]
  {
    PrefixHalves(s0, n, h);
    assert TopDown(s0[..n]) == SortSpec.Merge(RightFirst, TopDown(s0[..n][..h]), TopDown(s0[..n][h..]));
    forall k | n <= k < |s|
      ensures s[k] == s0[k]
    {
      assert s[k] == s[n..][k - n];
    }
  }

  // Proof helper: slicing a prefix again, as the two `copy` calls do.
  lemma PrefixHalves(s: seq<int>, n: int, h: int)
    requires 0 <= h <= n <= |s|
    ensures s[..n][..h] == s[..h] && s[..n][h..] == s[h..n]
  {
  }

  lemma CostOfSplit(n: int, h: int, m: int)
    requires n > 1 && h == n / 2 && m == n - h
    ensures Cost(n) == Cost(h) + Cost(m) + 4 * (h + m)
  {
    assert Cost(n) == SplitCost(n, h);
  }

  /** The estimate is never negative. */
  lemma {:induction false} CostNonNegative(n: int)
    ensures Cost(n) >= 0
    decreases n
  {
    if n > 1 {
      var h := n / 2;
      var m := n - h;
      CostNonNegative(h);
      CostNonNegative(m);
      CostOfSplit(n, h, m);
    }
  }

  /** The estimate never decreases as the input grows. */
  lemma {:induction false} CostMonotone(a: int, b: int)
    requires a <= b
    ensures Cost(a) <= Cost(b)
    decreases b
  {
    if a <= 1 {
      CostNonNegative(b);
    } else {
      var ha, hb := a / 2, b / 2;
      var ma, mb := a - ha, b - hb;
      assert ha <= hb && ma <= mb;
      CostMonotone(ha, hb);
      CostMonotone(ma, mb);
      CostOfSplit(a, ha, ma);
      CostOfSplit(b, hb, mb);
    }
  }

  // Proof helper: a rearrangement of a product the solver does not find by itself.
  lemma MulAssociates(a: int, b: int, c: int)
    ensures a * (b * c) == b * (a * c)
  {
  }

  /** For `n = 2^k` keys the estimate is exactly `4 * k * 2^k` bytes: 4n bytes on each of k levels. */
  lemma {:induction false} CostOfPowerOfTwo(k: nat)
    ensures Cost(Pow2(k)) == 4 * (k * Pow2(k))
  {
    if k > 0 {
      CostOfPowerOfTwo(k - 1);
      var p := Pow2(k - 1);
      var n := Pow2(k);
      assert n == 2 * p;
      CostOfSplit(n, p, p);
      assert (k - 1) * p == k * p - p;
      calc {
        k * n;
        k * (2 * p);
        { MulAssociates(k, 2, p); }
        2 * (k * p);
      }
    }
  }
}
