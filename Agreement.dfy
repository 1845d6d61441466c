/**
 * Facts relating the four engines, which are separate programs: they put
 * every input in the same final order (the keys along the linked engine's
 * chain included), and the three array engines report the same space
 * estimate whenever the input length is a power of two.
 */
module Agreement {
  import opened SortSpec
  import MergeCopy
  import MergeRange
  import MergeBottomUp
  import MergeLinked

  /**
   * `myMergeSort`, `mergesort2` and `mergesort3` leave any input in the same
   * final order, although they split differently and break ties differently.
   */
  lemma EnginesAgree(s: seq<int>)
    ensures MergeCopy.TopDown(s) == MergeRange.Ranged(s)
    ensures MergeRange.Ranged(s) == MergeBottomUp.BottomUp(s, 1)
  {
    MergeCopy.TopDownSorts(s);
    MergeRange.RangedSorts(s);
    MergeBottomUp.BottomUpSorts(s);
    SortedPermutationUnique(MergeCopy.TopDown(s), MergeRange.Ranged(s));
    SortedPermutationUnique(MergeRange.Ranged(s), MergeBottomUp.BottomUp(s, 1));
  }

  /**
   * The keys met along the chain `mergesort4(0, n - 1)` threads through the
   * records are the keys `myMergeSort` leaves in its array.
   */
  lemma LinkedAgrees(keys: seq<int>)
    requires keys != []
    ensures MergeLinked.InBounds(MergeLinked.Linked(keys, 0, |keys| - 1), |keys|)
    ensures MergeLinked.KeysAlong(keys, MergeLinked.Linked(keys, 0, |keys| - 1)) == MergeCopy.TopDown(keys)
  {
    MergeLinked.LinkedSortsAll(keys);
    MergeCopy.TopDownSorts(keys);
    SortedPermutationUnique(MergeLinked.KeysAlong(keys, MergeLinked.Linked(keys, 0, |keys| - 1)), MergeCopy.TopDown(keys));
  }

  /**
   * `myMergeSort` and `mergesort2` report the same estimate for every
   * length: they split into the same two sizes, only in the other order.
   */
  lemma {:induction false} CostsAgree(n: int)
    ensures MergeCopy.Cost(n) == MergeRange.Cost(n)
    decreases n
  {
    if n > 1 {
      var h := n / 2;
      var m := n - h;
      CostsAgree(h);
      CostsAgree(m);
      MergeCopy.CostOfSplit(n, h, m);
      MergeRange.CostOfSplit(n, m, h);
    }
  }

  /** A pass of width `w` over `m = q * 2w` keys, `q` whole pairs of runs, merges every key: `4` bytes per key. */
  lemma {:induction false} FullPassMemory(q: nat, w: int, m: int)
    requires w >= 1 && m == q * (2 * w)
    ensures MergeBottomUp.PassMemory(m, w) == 4 * m
    decreases q
  {
    if q > 0 {
      PairsStep(q, w, m);
      var m1 := m - Min(2 * w, m);
      FullPassMemory(q - 1, w, m1);
    }
  }

  // Proof helper: peeling one pair of runs off `q` whole pairs (a product the solver does not expand).
  lemma PairsStep(q: nat, w: int, m: int)
    requires q > 0 && w >= 1 && m == q * (2 * w)
    ensures m >= 2 * w && m - 2 * w == (q - 1) * (2 * w)
  {
    var x := 2 * w;
    assert q * x == (q - 1) * x + x;
    var p: nat := q - 1;
    assert p * x >= 0;
  }

  /**
   * For `n = w * 2^d` keys the passes of width `w`, `2w`, ..., `n / 2` each
   * merge every key, so `mergesort3` adds `4` bytes per key on each of `d` passes.
   */
  lemma {:induction false} TotalMemoryOfRuns(n: int, w: int, d: nat)
    requires w >= 1 && n == w * Pow2(d)
    ensures MergeBottomUp.TotalMemory(n, w) == 4 * (d * n)
    decreases d
  {
    if d > 0 {
      var q := Pow2(d - 1);
      assert Pow2(d) == 2 * q;
      var w2 := 2 * w;
      RunsDouble(n, w, q);
      FullPassMemory(q, w, n);
      TotalMemoryOfRuns(n, w2, d - 1);
      OneMorePass(d, n);
    }
  }

  // Proof helper: regrouping `w * (2q)` as the next width times `q`.
  lemma RunsDouble(n: int, w: int, q: int)
    requires w >= 1 && q >= 1 && n == w * (2 * q)
    ensures n == (2 * w) * q && n == q * (2 * w) && n > w
  {
  }

  // Proof helper: distributing a product over `d - 1 + 1`.
  lemma OneMorePass(d: int, n: int)
    ensures d * n == (d - 1) * n + n
  {
  }

  /** For `n = 2^k` keys all three array engines report `4 * k * 2^k` bytes. */
  lemma ArrayCostsAgreeOnPowersOfTwo(k: nat)
    ensures MergeCopy.Cost(Pow2(k)) == 4 * (k * Pow2(k))
    ensures MergeRange.Cost(Pow2(k)) == 4 * (k * Pow2(k))
    ensures MergeBottomUp.TotalMemory(Pow2(k), 1) == 4 * (k * Pow2(k))
  {
    MergeCopy.CostOfPowerOfTwo(k);
    CostsAgree(Pow2(k));
    TotalMemoryOfRuns(Pow2(k), 1, k);
  }
}
