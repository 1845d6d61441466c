/**
 * Specification shared by the four merge-sort engines: what "sorted" means,
 * the two-index merge that every engine performs (with the tie rule as a
 * parameter: merge1.go and merge4.go compare with `<`, merge2.go and
 * merge3.go with `<=`), its two defining properties (a permutation, sorted
 * when its inputs are), and the uniqueness of a sorted permutation, from
 * which it follows that all engines agree on the final order.
 */
module SortSpec {

  /** Non-decreasing order. */
  predicate Sorted(s: seq<int>) {
    forall i, j :: 0 <= i < j < |s| ==> s[i] <= s[j]
  }

  /**
   * The smaller of two integers: merge3.go's `min`, which clips the last
   * run of a pass, and the shorter of two chains in merge4.go's bounds.
   */
  function Min(a: int, b: int): (m: int)
    ensures m <= a && m <= b && (m == a || m == b)
  {
    if a < b then a else b
  }

  /** `2^k`, the input lengths at which the engines' estimates have a closed form. */
  function Pow2(k: nat): (p: nat)
    ensures p >= 1
  {
    if k == 0 then 1 else 2 * Pow2(k - 1)
  }

  /** Every element of `s` is at least `b`. */
  predicate AtLeast(b: int, s: seq<int>) {
    forall k :: 0 <= k < |s| ==> b <= s[k]
  }

  /**
   * Which run wins a tie. `RightFirst` is the strict comparison `U[i] < V[j]`
   * (the head of the right run goes first on equal keys); `LeftFirst` is
   * `S[i] <= S[j]` (the head of the left run goes first).
   */
  datatype TieRule = LeftFirst | RightFirst

  /** Whether the head `a` of the left run is emitted before the head `b` of the right run. */
  predicate TakesLeft(rule: TieRule, a: int, b: int) {
    if rule == LeftFirst then a <= b else a < b
  }

  /**
   * The two-index merge from the state reached after `i` elements of `u`
   * and `j` elements of `v` have been emitted into `acc`: while both runs
   * have elements, the comparison picks the head; once one run is exhausted
   * the rest of the other follows.
   */
  function MergeFrom(rule: TieRule, u: seq<int>, v: seq<int>, i: nat, j: nat, acc: seq<int>): (r: seq<int>)
    requires i <= |u| && j <= |v|
    ensures |r| == |acc| + (|u| - i) + (|v| - j)
    decreases |u| - i + |v| - j
  {
    if i < |u| && (j == |v| || TakesLeft(rule, u[i], v[j])) then MergeFrom(rule, u, v, i + 1, j, acc + [u[i]])
    else if j < |v| then MergeFrom(rule, u, v, i, j + 1, acc + [v[j]])
    else acc
  }

  /** One step of the merge that emits the head of the left run. */
  lemma MergeStepLeft(rule: TieRule, u: seq<int>, v: seq<int>, i: nat, j: nat, acc: seq<int>)
    requires i < |u| && j <= |v| && (j == |v| || TakesLeft(rule, u[i], v[j]))
    ensures MergeFrom(rule, u, v, i, j, acc) == MergeFrom(rule, u, v, i + 1, j, acc + [u[i]])
  {
  }

  /** One step of the merge that emits the head of the right run. */
  lemma MergeStepRight(rule: TieRule, u: seq<int>, v: seq<int>, i: nat, j: nat, acc: seq<int>)
    requires i <= |u| && j < |v| && (i == |u| || !TakesLeft(rule, u[i], v[j]))
    ensures MergeFrom(rule, u, v, i, j, acc) == MergeFrom(rule, u, v, i, j + 1, acc + [v[j]])
  {
  }

  /** The merge of the runs `u` and `v` under the given tie rule. */
  function Merge(rule: TieRule, u: seq<int>, v: seq<int>): (r: seq<int>)
    ensures |r| == |u| + |v|
  {
    MergeFrom(rule, u, v, 0, 0, [])
  }

  /** From any intermediate state the merge emits exactly the keys not yet emitted. */
  lemma {:induction false} MergeFromPermutation(rule: TieRule, u: seq<int>, v: seq<int>, i: nat, j: nat, acc: seq<int>)
    requires i <= |u| && j <= |v|
    ensures multiset(MergeFrom(rule, u, v, i, j, acc)) == multiset(acc) + multiset(u[i..]) + multiset(v[j..])
    decreases |u| - i + |v| - j
  {
    if i < |u| && (j == |v| || TakesLeft(rule, u[i], v[j])) {
      MergeFromPermutation(rule, u, v, i + 1, j, acc + [u[i]]);
      TakeLeftOne(acc, u, i, multiset(v[j..]));
    } else if j < |v| {
      MergeFromPermutation(rule, u, v, i, j + 1, acc + [v[j]]);
      TakeRightOne(acc, multiset(u[i..]), v, j);
    } else {
      assert u[i..] == [] && v[j..] == [];
    }
  }

  /** Moving the head of the left run to the output keeps the multiset of all keys. */
  lemma TakeLeftOne(acc: seq<int>, u: seq<int>, i: nat, w: multiset<int>)
    requires i < |u|
    ensures multiset(acc + [u[i]]) + multiset(u[i + 1..]) + w == multiset(acc) + multiset(u[i..]) + w
  {
    assert u[i..] == [u[i]] + u[i + 1..];
  }

  /** Moving the head of the right run to the output keeps the multiset of all keys. */
  lemma TakeRightOne(acc: seq<int>, w: multiset<int>, v: seq<int>, j: nat)
    requires j < |v|
    ensures multiset(acc + [v[j]]) + w + multiset(v[j + 1..]) == multiset(acc) + w + multiset(v[j..])
  {
    assert v[j..] == [v[j]] + v[j + 1..];
  }

  /** The merge is a permutation of the concatenation of its runs. */
  lemma MergePermutation(rule: TieRule, u: seq<int>, v: seq<int>)
    ensures multiset(Merge(rule, u, v)) == multiset(u) + multiset(v)
  {
    MergeFromPermutation(rule, u, v, 0, 0, []);
    assert u[0..] == u && v[0..] == v;
  }

  /** Appending a value no smaller than the last element keeps a sequence sorted. */
  lemma SortedSnoc(s: seq<int>, x: int)
    requires Sorted(s) && (s != [] ==> s[|s| - 1] <= x)
    ensures Sorted(s + [x])
  {
    var r := s + [x];
    forall a, b | 0 <= a < b < |r| ensures r[a] <= r[b] {
      if b == |s| && a < |s| - 1 {
        assert s[a] <= s[|s| - 1];
      }
    }
  }

  /** A sorted run is bounded below by each of its elements from that element onwards. */
  lemma SortedSuffixBound(s: seq<int>, i: nat)
    requires Sorted(s) && i < |s|
    ensures AtLeast(s[i], s[i..]) && AtLeast(s[i], s[i + 1..])
  {
    assert forall k :: 0 <= k < |s[i..]| ==> s[i..][k] == s[i + k];
  }

  /**
   * From a sorted prefix whose last element bounds both remaining runs, the
   * merge of sorted runs stays sorted.
   */
  lemma {:induction false} MergeFromSorted(rule: TieRule, u: seq<int>, v: seq<int>, i: nat, j: nat, acc: seq<int>)
    requires i <= |u| && j <= |v|
    requires Sorted(u) && Sorted(v) && Sorted(acc)
    requires acc != [] ==> AtLeast(acc[|acc| - 1], u[i..]) && AtLeast(acc[|acc| - 1], v[j..])
    ensures Sorted(MergeFrom(rule, u, v, i, j, acc))
    decreases |u| - i + |v| - j
  {
    if i < |u| && (j == |v| || TakesLeft(rule, u[i], v[j])) {
      var x := u[i];
      if acc != [] {
        assert u[i..][0] == x;
      }
      SortedSnoc(acc, x);
      SortedSuffixBound(u, i);
      if j < |v| {
        SortedSuffixBound(v, j);
      }
      MergeFromSorted(rule, u, v, i + 1, j, acc + [x]);
    } else if j < |v| {
      var x := v[j];
      if acc != [] {
        assert v[j..][0] == x;
      }
      SortedSnoc(acc, x);
      SortedSuffixBound(v, j);
      if i < |u| {
        SortedSuffixBound(u, i);
      }
      MergeFromSorted(rule, u, v, i, j + 1, acc + [x]);
    }
  }

  /** Merging two sorted runs yields a sorted run, whichever the tie rule. */
  lemma MergeSorted(rule: TieRule, u: seq<int>, v: seq<int>)
    requires Sorted(u) && Sorted(v)
    ensures Sorted(Merge(rule, u, v))
  {
    MergeFromSorted(rule, u, v, 0, 0, []);
  }

  /**
   * Merging sorted rearrangements of two runs gives a sorted rearrangement
   * of their concatenation: the step that closes every merge sort.
   */
  lemma MergeOfSortedRuns(rule: TieRule, a: seq<int>, b: seq<int>, left: seq<int>, right: seq<int>)
    requires Sorted(a) && multiset(a) == multiset(left)
    requires Sorted(b) && multiset(b) == multiset(right)
    ensures Sorted(Merge(rule, a, b)) && multiset(Merge(rule, a, b)) == multiset(left + right)
  {
    MergeSorted(rule, a, b);
    MergePermutation(rule, a, b);
  }

  /** `MergeOfSortedRuns` for the two parts `s[..h]` and `s[h..]` of one sequence. */
  lemma MergeOfSortedParts(rule: TieRule, a: seq<int>, b: seq<int>, s: seq<int>, h: int)
    requires 0 <= h <= |s|
    requires Sorted(a) && multiset(a) == multiset(s[..h])
    requires Sorted(b) && multiset(b) == multiset(s[h..])
    ensures Sorted(Merge(rule, a, b)) && multiset(Merge(rule, a, b)) == multiset(s)
  {
    MergeOfSortedRuns(rule, a, b, s[..h], s[h..]);
    assert s[..h] + s[h..] == s;
  }

  /**
   * Over plain integers the two tie rules cannot be told apart: a tie emits
   * two equal values, so both merges produce the same sequence.
   */
  lemma TieRulesAgreeOnValues(u: seq<int>, v: seq<int>)
    requires Sorted(u) && Sorted(v)
    ensures Merge(LeftFirst, u, v) == Merge(RightFirst, u, v)
  {
    MergeSorted(LeftFirst, u, v);
    MergeSorted(RightFirst, u, v);
    MergePermutation(LeftFirst, u, v);
    MergePermutation(RightFirst, u, v);
    SortedPermutationUnique(Merge(LeftFirst, u, v), Merge(RightFirst, u, v));
  }

  /** The tail of a sorted sequence is sorted and bounded below by its head. */
  lemma SortedTail(s: seq<int>)
    requires Sorted(s) && s != []
    ensures Sorted(s[1..]) && AtLeast(s[0], s[1..])
  {
  }

  /** The first element of a non-empty sorted sequence is its minimum. */
  lemma SortedHeadIsMin(s: seq<int>, x: int)
    requires Sorted(s) && x in multiset(s)
    ensures s != [] && s[0] <= x
  {
    var i :| 0 <= i < |s| && s[i] == x;
  }

  /** A sorted permutation of a multiset is unique. */
  lemma {:induction false} SortedPermutationUnique(a: seq<int>, b: seq<int>)
    requires Sorted(a) && Sorted(b) && multiset(a) == multiset(b)
    ensures a == b
    decreases |a|
  {
    if a == [] {
      assert |multiset(b)| == 0;
    } else {
      assert a[0] in multiset(a);
      SortedHeadIsMin(b, a[0]);
      assert b[0] in multiset(b);
      SortedHeadIsMin(a, b[0]);
      assert a[0] == b[0];
      assert a == [a[0]] + a[1..];
      assert b == [b[0]] + b[1..];
      assert multiset(a[1..]) == multiset(a) - multiset{a[0]};
      assert multiset(b[1..]) == multiset(b) - multiset{b[0]};
      assert multiset(a[1..]) == multiset(b[1..]);
      SortedTail(a);
      SortedTail(b);
      SortedPermutationUnique(a[1..], b[1..]);
    }
  }
}
