/**
 * Linked-list merge sort over a record arena (merge4.go). Records stay where
 * they are; sorting threads their `link` fields into one chain that ends in
 * the sentinel `-1`. A chain is described by the ghost sequence of the
 * indices it visits. Only `link` fields are ever written.
 */
module MergeLinked {
  import opened SortSpec

  /** An arena slot: a key and the index of the next record (`Nil` for none). */
  datatype Record = Record(key: int, link: int)

  /** The end-of-chain sentinel. */
  const Nil: int := -1

  /** `unsafe.Sizeof` of a link field (a Go `int`, 8 bytes on 64-bit platforms). */
  const LinkSize: int := 8

  /** The key of every arena slot, by index. */
  function KeyTable(s: seq<Record>): (keys: seq<int>)
    ensures SameKeys(s, keys)
  {
    seq(|s|, i requires 0 <= i < |s| => s[i].key)
  }

  /** `s` has the keys `keys`, slot by slot. */
  predicate SameKeys(s: seq<Record>, keys: seq<int>) {
    |s| == |keys| && forall i :: 0 <= i < |s| ==> s[i].key == keys[i]
  }

  predicate InBounds(c: seq<int>, n: int) {
    forall t :: 0 <= t < |c| ==> 0 <= c[t] < n
  }

  predicate InRange(c: seq<int>, lo: int, hi: int) {
    forall t :: 0 <= t < |c| ==> lo <= c[t] <= hi
  }

  predicate Distinct(c: seq<int>) {
    forall p, q :: 0 <= p < q < |c| ==> c[p] != c[q]
  }

  predicate Disjoint(c: seq<int>, d: seq<int>) {
    forall p, q :: 0 <= p < |c| && 0 <= q < |d| ==> c[p] != d[q]
  }

  /** The head index of a chain visiting `c`. */
  function HeadOf(c: seq<int>): (head: int)
  {
    if c == [] then Nil else c[0]
  }

  /** Each index of `c` is an arena slot whose link is the next index of `c`. */
  ghost predicate Path(s: seq<Record>, c: seq<int>) {
    InBounds(c, |s|) && forall t :: 0 <= t < |c| - 1 ==> s[c[t]].link == c[t + 1]
  }

  /**
   * Following `link` from `head` visits the distinct slots `c` in order and
   * then reaches `Nil`.
   */
  ghost predicate Chain(s: seq<Record>, head: int, c: seq<int>) {
    Path(s, c) && Distinct(c) && head == HeadOf(c) && (c != [] ==> s[c[|c| - 1]].link == Nil)
  }

  /** The keys met along `c`. */
  function KeysAlong(keys: seq<int>, c: seq<int>): (r: seq<int>)
    requires InBounds(c, |keys|)
    ensures |r| == |c|
  {
    seq(|c|, t requires 0 <= t < |c| => keys[c[t]])
  }

  /**
   * The order in which `merge4` links the records of two chains, from the
   * state where the first `i` records of `c1` and the first `j` of `c2` are
   * linked (`acc`): the record with the smaller key goes next, the one of
   * `c2` on equal keys (the test is `S[list1].Key < S[list2].Key`); once a
   * chain is exhausted the rest of the other follows.
   */
  function MergeChainsFrom(keys: seq<int>, c1: seq<int>, c2: seq<int>, i: nat, j: nat, acc: seq<int>): (r: seq<int>)
    requires InBounds(c1, |keys|) && InBounds(c2, |keys|) && i <= |c1| && j <= |c2|
    ensures |r| == |acc| + (|c1| - i) + (|c2| - j)
    decreases |c1| - i + |c2| - j
  {
    if i < |c1| && (j == |c2| || keys[c1[i]] < keys[c2[j]]) then MergeChainsFrom(keys, c1, c2, i + 1, j, acc + [c1[i]])
    else if j < |c2| then MergeChainsFrom(keys, c1, c2, i, j + 1, acc + [c2[j]])
    else acc
  }

  /** The chain `merge4` builds from the chains `c1` and `c2`. */
  function MergeChains(keys: seq<int>, c1: seq<int>, c2: seq<int>): (r: seq<int>)
    requires InBounds(c1, |keys|) && InBounds(c2, |keys|)
    ensures |r| == |c1| + |c2|
  {
    MergeChainsFrom(keys, c1, c2, 0, 0, [])
  }

  /**
   * How many records `merge4` links while both chains still have records,
   * from the state after `i` records of `c1` and `j` of `c2`.
   */
  function HeadStepsFrom(keys: seq<int>, c1: seq<int>, c2: seq<int>, i: nat, j: nat): (steps: nat)
    requires InBounds(c1, |keys|) && InBounds(c2, |keys|) && i <= |c1| && j <= |c2|
    decreases |c1| - i + |c2| - j
  {
    if i == |c1| || j == |c2| then 0
    else if keys[c1[i]] < keys[c2[j]] then 1 + HeadStepsFrom(keys, c1, c2, i + 1, j)
    else 1 + HeadStepsFrom(keys, c1, c2, i, j + 1)
  }

  /** How many records `merge4` links while both chains have records: the head and one per loop step. */
  function HeadSteps(keys: seq<int>, c1: seq<int>, c2: seq<int>): (steps: nat)
    requires InBounds(c1, |keys|) && InBounds(c2, |keys|)
  {
    HeadStepsFrom(keys, c1, c2, 0, 0)
  }

  // ---------------------------------------------------------------------
  // What the merge of two chains is

  /** From any intermediate state the merge links exactly the records not yet linked. */
  lemma {:induction false} MergeChainsFromPermutation(keys: seq<int>, c1: seq<int>, c2: seq<int>, i: nat, j: nat, acc: seq<int>)
    requires InBounds(c1, |keys|) && InBounds(c2, |keys|) && i <= |c1| && j <= |c2|
    ensures multiset(MergeChainsFrom(keys, c1, c2, i, j, acc)) == multiset(acc) + multiset(c1[i..]) + multiset(c2[j..])
    decreases |c1| - i + |c2| - j
  {
    if i < |c1| && (j == |c2| || keys[c1[i]] < keys[c2[j]]) {
      MergeChainsFromPermutation(keys, c1, c2, i + 1, j, acc + [c1[i]]);
      TakeLeftOne(acc, c1, i, multiset(c2[j..]));
    } else if j < |c2| {
      MergeChainsFromPermutation(keys, c1, c2, i, j + 1, acc + [c2[j]]);
      TakeRightOne(acc, multiset(c1[i..]), c2, j);
    } else {
      assert c1[i..] == [] && c2[j..] == [];
    }
  }

  /** Records already linked stay where they are: the merge only appends to `acc`. */
  lemma {:induction false} MergeChainsFromKeepsLinked(keys: seq<int>, c1: seq<int>, c2: seq<int>, i: nat, j: nat, acc: seq<int>)
    requires InBounds(c1, |keys|) && InBounds(c2, |keys|) && i <= |c1| && j <= |c2|
    ensures MergeChainsFrom(keys, c1, c2, i, j, acc)[..|acc|] == acc
    decreases |c1| - i + |c2| - j
  {
    if i < |c1| && (j == |c2| || keys[c1[i]] < keys[c2[j]]) {
      MergeChainsFromKeepsLinked(keys, c1, c2, i + 1, j, acc + [c1[i]]);
    } else if j < |c2| {
      MergeChainsFromKeepsLinked(keys, c1, c2, i, j + 1, acc + [c2[j]]);
    }
  }

  /**
   * While both chains have records, the next record linked is the head of
   * `c1` exactly when its key is strictly smaller than the head key of `c2`:
   * on equal keys the record of the second chain goes first.
   */
  lemma NextLinked(keys: seq<int>, c1: seq<int>, c2: seq<int>, i: nat, j: nat, acc: seq<int>)
    requires InBounds(c1, |keys|) && InBounds(c2, |keys|) && i < |c1| && j < |c2| && Disjoint(c1, c2)
    ensures MergeChainsFrom(keys, c1, c2, i, j, acc)[|acc|] == c1[i] <==> keys[c1[i]] < keys[c2[j]]
    ensures keys[c1[i]] == keys[c2[j]] ==> MergeChainsFrom(keys, c1, c2, i, j, acc)[|acc|] == c2[j]
  {
    var x := if keys[c1[i]] < keys[c2[j]] then c1[i] else c2[j];
    if keys[c1[i]] < keys[c2[j]] {
      MergeChainsFromKeepsLinked(keys, c1, c2, i + 1, j, acc + [x]);
    } else {
      MergeChainsFromKeepsLinked(keys, c1, c2, i, j + 1, acc + [x]);
    }
    assert (acc + [x])[|acc|] == x;
  }

  /** The merged chain visits exactly the records of both chains. */
  lemma MergeChainsPermutation(keys: seq<int>, c1: seq<int>, c2: seq<int>)
    requires InBounds(c1, |keys|) && InBounds(c2, |keys|)
    ensures multiset(MergeChains(keys, c1, c2)) == multiset(c1) + multiset(c2)
  {
    MergeChainsFromPermutation(keys, c1, c2, 0, 0, []);
    assert c1[0..] == c1 && c2[0..] == c2;
  }

  /** A merged chain stays inside any index range that holds both of its inputs. */
  lemma MergeInRange(keys: seq<int>, c1: seq<int>, c2: seq<int>, lo: int, hi: int)
    requires InBounds(c1, |keys|) && InBounds(c2, |keys|)
    requires InRange(c1, lo, hi) && InRange(c2, lo, hi)
    ensures InRange(MergeChains(keys, c1, c2), lo, hi)
  {
    var r := MergeChains(keys, c1, c2);
    MergeChainsPermutation(keys, c1, c2);
    forall t | 0 <= t < |r|
      ensures lo <= r[t] <= hi
    {
      assert r[t] in multiset(r);
    }
  }

  /** The keys along a chain with one more record. */
  lemma KeysAlongSnoc(keys: seq<int>, c: seq<int>, x: int)
    requires InBounds(c, |keys|) && 0 <= x < |keys|
    ensures InBounds(c + [x], |keys|)
    ensures KeysAlong(keys, c + [x]) == KeysAlong(keys, c) + [keys[x]]
  {
  }

  /**
   * The keys along the merged chain are what the two-index merge with
   * ties to the right run makes of the keys along the two chains.
   */
  lemma {:induction false} KeysOfMergeFrom(keys: seq<int>, c1: seq<int>, c2: seq<int>, i: nat, j: nat, acc: seq<int>)
    requires InBounds(c1, |keys|) && InBounds(c2, |keys|) && InBounds(acc, |keys|) && i <= |c1| && j <= |c2|
    ensures InBounds(MergeChainsFrom(keys, c1, c2, i, j, acc), |keys|)
    ensures KeysAlong(keys, MergeChainsFrom(keys, c1, c2, i, j, acc))
         == MergeFrom(RightFirst, KeysAlong(keys, c1), KeysAlong(keys, c2), i, j, KeysAlong(keys, acc))
    decreases |c1| - i + |c2| - j
  {
    var u, v := KeysAlong(keys, c1), KeysAlong(keys, c2);
    if i < |c1| && (j == |c2| || keys[c1[i]] < keys[c2[j]]) {
      KeysAlongSnoc(keys, acc, c1[i]);
      KeysOfMergeFrom(keys, c1, c2, i + 1, j, acc + [c1[i]]);
      assert MergeFrom(RightFirst, u, v, i, j, KeysAlong(keys, acc))
          == MergeFrom(RightFirst, u, v, i + 1, j, KeysAlong(keys, acc) + [u[i]]);
    } else if j < |c2| {
      KeysAlongSnoc(keys, acc, c2[j]);
      KeysOfMergeFrom(keys, c1, c2, i, j + 1, acc + [c2[j]]);
      assert MergeFrom(RightFirst, u, v, i, j, KeysAlong(keys, acc))
          == MergeFrom(RightFirst, u, v, i, j + 1, KeysAlong(keys, acc) + [v[j]]);
    }
  }

  /** The keys along `MergeChains` are the merge (ties to the second run) of the keys along both chains. */
  lemma MergeChainsKeys(keys: seq<int>, c1: seq<int>, c2: seq<int>)
    requires InBounds(c1, |keys|) && InBounds(c2, |keys|)
    ensures InBounds(MergeChains(keys, c1, c2), |keys|)
    ensures KeysAlong(keys, MergeChains(keys, c1, c2)) == SortSpec.Merge(RightFirst, KeysAlong(keys, c1), KeysAlong(keys, c2))
  {
    KeysOfMergeFrom(keys, c1, c2, 0, 0, []);
    assert KeysAlong(keys, []) == [];
  }

  /** Once the first chain is exhausted, the rest of the second is linked on whole. */
  lemma {:induction false} DrainSecond(keys: seq<int>, c1: seq<int>, c2: seq<int>, j: nat, acc: seq<int>)
    requires InBounds(c1, |keys|) && InBounds(c2, |keys|) && j <= |c2|
    ensures MergeChainsFrom(keys, c1, c2, |c1|, j, acc) == acc + c2[j..]
    decreases |c2| - j
  {
    if j < |c2| {
      DrainSecond(keys, c1, c2, j + 1, acc + [c2[j]]);
      assert c2[j..] == [c2[j]] + c2[j + 1..];
    }
  }

  /** Once the second chain is exhausted, the rest of the first is linked on whole. */
  lemma {:induction false} DrainFirst(keys: seq<int>, c1: seq<int>, c2: seq<int>, i: nat, acc: seq<int>)
    requires InBounds(c1, |keys|) && InBounds(c2, |keys|) && i <= |c1|
    ensures MergeChainsFrom(keys, c1, c2, i, |c2|, acc) == acc + c1[i..]
    decreases |c1| - i
  {
    if i < |c1| {
      DrainFirst(keys, c1, c2, i + 1, acc + [c1[i]]);
      assert c1[i..] == [c1[i]] + c1[i + 1..];
    }
  }

  /**
   * From a state where both chains still have records, at least all of the
   * shorter remainder and at most all but one of the records are linked
   * before one chain runs out.
   */
  lemma {:induction false} HeadStepsFromBounds(keys: seq<int>, c1: seq<int>, c2: seq<int>, i: nat, j: nat)
    requires InBounds(c1, |keys|) && InBounds(c2, |keys|) && i < |c1| && j < |c2|
    ensures Min(|c1| - i, |c2| - j) <= HeadStepsFrom(keys, c1, c2, i, j) <= (|c1| - i) + (|c2| - j) - 1
    decreases |c1| - i + |c2| - j
  {
    if keys[c1[i]] < keys[c2[j]] {
      if i + 1 < |c1| {
        HeadStepsFromBounds(keys, c1, c2, i + 1, j);
      }
    } else {
      if j + 1 < |c2| {
        HeadStepsFromBounds(keys, c1, c2, i, j + 1);
      }
    }
  }

  /**
   * One `merge4` of non-empty chains of `n1` and `n2` records charges
   * between `min(n1, n2)` and `n1 + n2 - 1` units of `LinkSize`.
   */
  lemma HeadStepsBounds(keys: seq<int>, c1: seq<int>, c2: seq<int>)
    requires InBounds(c1, |keys|) && InBounds(c2, |keys|) && c1 != [] && c2 != []
    ensures Min(|c1|, |c2|) <= HeadSteps(keys, c1, c2) <= |c1| + |c2| - 1
  {
    HeadStepsFromBounds(keys, c1, c2, 0, 0);
  }

  // ---------------------------------------------------------------------
  // What mergesort4 builds

  /** The split point `mid = (low + high) / 2` of `mergesort4`: the last index of the left half. */
  function LeftEnd(low: int, high: int): (mid: int)
    ensures low <= high ==> low <= mid <= high
    ensures low < high ==> mid < high
  {
    (low + high) / 2
  }

  /** The first index `mid + 1` of the right half. */
  function RightStart(low: int, high: int): (mid1: int)
    ensures low < high ==> low < mid1 <= high
  {
    LeftEnd(low, high) + 1
  }

  /** Where `mergesort4` splits `low..high`, for `low < high`: two non-empty halves. */
  lemma SplitPoints(low: int, mid: int, mid1: int, high: int)
    requires low < high && mid == (low + high) / 2 && mid1 == mid + 1
    ensures LeftEnd(low, high) == mid && RightStart(low, high) == mid1 && low <= mid < mid1 <= high
  {
  }

  /**
   * The chain `mergesort4(low, high)` builds: a single record for
   * `low == high`, otherwise the merge of the chains of `low..mid` and
   * `mid + 1..high` with `mid = (low + high) / 2`.
   */
  ghost function Linked(keys: seq<int>, low: int, high: int): (c: seq<int>)
    requires 0 <= low <= high < |keys|
    ensures |c| == high - low + 1 && InRange(c, low, high)
    decreases high - low
  {
    if low == high then [low]
    else
      var c1, c2 := Linked(keys, low, LeftEnd(low, high)), Linked(keys, RightStart(low, high), high);
      MergeInRange(keys, c1, c2, low, high);
      MergeChains(keys, c1, c2)
  }

  /** Space units (of `LinkSize` bytes) that `mergesort4(low, high)` adds to `*spaceUsed`. */
  ghost function Units(keys: seq<int>, low: int, high: int): (units: nat)
    requires 0 <= low <= high < |keys|
    decreases high - low
  {
    if low == high then 0
    else
      Units(keys, low, LeftEnd(low, high)) + Units(keys, RightStart(low, high), high)
        + HeadSteps(keys, Linked(keys, low, LeftEnd(low, high)), Linked(keys, RightStart(low, high), high))
  }

  /** The indices `low..high`. */
  function Range(low: int, high: int): (r: seq<int>)
    requires low <= high + 1
    ensures |r| == high - low + 1 && forall t :: 0 <= t < |r| ==> r[t] == low + t
  {
    seq(high - low + 1, i requires 0 <= i < high - low + 1 => low + i)
  }

  /** The chain of `mergesort4(low, high)` visits every index of `low..high` exactly once. */
  lemma {:induction false} LinkedPermutation(keys: seq<int>, low: int, high: int)
    requires 0 <= low <= high < |keys|
    ensures multiset(Linked(keys, low, high)) == multiset(Range(low, high))
    decreases high - low
  {
    if low == high {
      assert Range(low, high) == [low];
    } else {
      var mid := (low + high) / 2;
      var mid1 := mid + 1;
      HalvesChain(keys, low, mid, mid1, high);
      LinkedPermutation(keys, low, mid);
      LinkedPermutation(keys, mid1, high);
      MergeChainsPermutation(keys, Linked(keys, low, mid), Linked(keys, mid1, high));
      RangeSplit(low, mid, mid1, high);
    }
  }

  // Proof helper: the indices of a range are those of its two halves.
  lemma RangeSplit(low: int, mid: int, mid1: int, high: int)
    requires low <= mid < high && mid1 == mid + 1
    ensures Range(low, high) == Range(low, mid) + Range(mid1, high)
  {
  }

  /**
   * The keys along the chain of `mergesort4(low, high)` are non-decreasing
   * and are the keys of `low..high` rearranged.
   */
  lemma {:induction false} LinkedSorts(keys: seq<int>, low: int, high: int)
    requires 0 <= low <= high < |keys|
    ensures InBounds(Linked(keys, low, high), |keys|)
    ensures Sorted(KeysAlong(keys, Linked(keys, low, high)))
    ensures multiset(KeysAlong(keys, Linked(keys, low, high))) == multiset(keys[low..high + 1])
    decreases high - low
  {
    if low == high {
      assert KeysAlong(keys, [low]) == keys[low..high + 1];
    } else {
      var mid := (low + high) / 2;
      var mid1 := mid + 1;
      HalvesChain(keys, low, mid, mid1, high);
      var c1, c2 := Linked(keys, low, mid), Linked(keys, mid1, high);
      LinkedSorts(keys, low, mid);
      LinkedSorts(keys, mid1, high);
      MergeChainsKeys(keys, c1, c2);
      MergeOfSortedRuns(RightFirst, KeysAlong(keys, c1), KeysAlong(keys, c2), keys[low..mid + 1], keys[mid1..high + 1]);
      SliceSplit(keys, low, mid, mid1, high);
    }
  }

  /** Over the whole arena, the keys along the chain are all the keys, sorted. */
  lemma LinkedSortsAll(keys: seq<int>)
    requires keys != []
    ensures InBounds(Linked(keys, 0, |keys| - 1), |keys|)
    ensures Sorted(KeysAlong(keys, Linked(keys, 0, |keys| - 1)))
    ensures multiset(KeysAlong(keys, Linked(keys, 0, |keys| - 1))) == multiset(keys)
  {
    var high := |keys| - 1;
    LinkedSorts(keys, 0, high);
    WholeSlice(keys, high);
  }

  // Proof helper: the slice `0..high + 1` of all keys is all the keys.
  lemma WholeSlice(keys: seq<int>, high: int)
    requires high == |keys| - 1
    ensures keys[0..high + 1] == keys
  {
  }

  // Proof helper: the keys of a range are those of its two halves.
  lemma SliceSplit(keys: seq<int>, low: int, mid: int, mid1: int, high: int)
    requires 0 <= low <= mid < high < |keys| && mid1 == mid + 1
    ensures keys[low..mid + 1] + keys[mid1..high + 1] == keys[low..high + 1]
  {
  }


  /**
   * Equal keys: `merge4` compares with `<`, so the record of the second
   * chain is linked first and two records with the same key come out in
   * the opposite of their index order.
   */
  lemma EqualKeysSecondFirst(keys: seq<int>)
    requires |keys| == 2 && keys[0] == keys[1]
    ensures Linked(keys, 0, 1) == [1, 0]
    ensures KeysAlong(keys, Linked(keys, 0, 1)) == [keys[1], keys[0]]
  {
    SplitPoints(0, 0, 1, 1);
    assert MergeChains(keys, [0], [1]) == [1, 0];
  }
  /**
   * Data-independent upper bound on `Units(keys, low, high)`, split the
   * way `mergesort4` splits: `len1 + len2 - 1` per merge.
   */
  function UnitsUpper(low: int, high: int): (units: int)
    requires low <= high
    ensures units >= 0
    decreases high - low
  {
    if low == high then 0
    else UnitsUpper(low, LeftEnd(low, high)) + UnitsUpper(RightStart(low, high), high) + (high - low)
  }

  /** Data-independent lower bound on `Units(keys, low, high)`: the shorter run per merge. */
  function UnitsLower(low: int, high: int): (units: int)
    requires low <= high
    ensures units >= 0
    decreases high - low
  {
    if low == high then 0
    else UnitsLower(low, LeftEnd(low, high)) + UnitsLower(RightStart(low, high), high)
         + Min(LeftEnd(low, high) - low + 1, high - RightStart(low, high) + 1)
  }

  /**
   * The sizes of the two halves of `low..high` depend only on its length
   * `d + 1`: the left half has `d / 2 + 1` records, the right half the rest.
   */
  lemma HalfSizes(low: int, high: int)
    requires low < high
    ensures LeftEnd(low, high) - low == (high - low) / 2
    ensures high - RightStart(low, high) == (high - low) - (high - low) / 2 - 1
  {
    var d := high - low;
    assert low + high == 2 * low + d;
    assert (2 * low + d) / 2 == low + d / 2;
  }

  /** A longer range never has a smaller upper bound on `mergesort4`'s space units. */
  lemma {:induction false} UnitsUpperMonotone(l1: int, h1: int, l2: int, h2: int)
    requires l1 <= h1 && l2 <= h2 && h1 - l1 <= h2 - l2
    ensures UnitsUpper(l1, h1) <= UnitsUpper(l2, h2)
    decreases h2 - l2
  {
    if l1 < h1 {
      HalfSizes(l1, h1);
      HalfSizes(l2, h2);
      UnitsUpperMonotone(l1, LeftEnd(l1, h1), l2, LeftEnd(l2, h2));
      UnitsUpperMonotone(RightStart(l1, h1), h1, RightStart(l2, h2), h2);
    }
  }

  /** A longer range never has a smaller lower bound on `mergesort4`'s space units. */
  lemma {:induction false} UnitsLowerMonotone(l1: int, h1: int, l2: int, h2: int)
    requires l1 <= h1 && l2 <= h2 && h1 - l1 <= h2 - l2
    ensures UnitsLower(l1, h1) <= UnitsLower(l2, h2)
    decreases h2 - l2
  {
    if l1 < h1 {
      HalfSizes(l1, h1);
      HalfSizes(l2, h2);
      UnitsLowerMonotone(l1, LeftEnd(l1, h1), l2, LeftEnd(l2, h2));
      UnitsLowerMonotone(RightStart(l1, h1), h1, RightStart(l2, h2), h2);
    }
  }

  /** The space `mergesort4` charges depends on the keys, but only within these bounds. */
  lemma {:induction false} UnitsBounds(keys: seq<int>, low: int, high: int)
    requires 0 <= low <= high < |keys|
    ensures UnitsLower(low, high) <= Units(keys, low, high) <= UnitsUpper(low, high)
    decreases high - low
  {
    if low < high {
      var mid := (low + high) / 2;
      var mid1 := mid + 1;
      SplitPoints(low, mid, mid1, high);
      HalvesChain(keys, low, mid, mid1, high);
      HalvesUnits(keys, low, mid, mid1, high);
      UnitsBounds(keys, low, mid);
      UnitsBounds(keys, mid1, high);
      HeadStepsBounds(keys, Linked(keys, low, mid), Linked(keys, mid1, high));
    }
  }

  // ---------------------------------------------------------------------
  // Chains

  /** A chain starting at `head` is empty exactly when `head` is the sentinel. */
  lemma ChainHead(s: seq<Record>, head: int, c: seq<int>)
    requires Chain(s, head, c)
    ensures head == Nil <==> c == []
    ensures head != Nil ==> 0 <= head < |s| && head == c[0]
  {
  }

  /** Past its head a chain continues as the chain of the head's link. */
  lemma ChainTail(s: seq<Record>, c: seq<int>)
    requires Chain(s, HeadOf(c), c) && c != []
    ensures Chain(s, s[c[0]].link, c[1..])
  {
    var d := c[1..];
    assert forall t :: 0 <= t < |d| ==> d[t] == c[t + 1];
  }

  /** A chain survives any change to slots it does not visit. */
  lemma ChainFrame(s: seq<Record>, s2: seq<Record>, head: int, c: seq<int>)
    requires Chain(s, head, c) && |s2| == |s|
    requires forall t :: 0 <= t < |c| ==> s2[c[t]] == s[c[t]]
    ensures Chain(s2, head, c)
  {
  }

  /** The indices visited from a head are determined by the links: a chain is unique. */
  lemma {:induction false} ChainUnique(s: seq<Record>, head: int, c: seq<int>, d: seq<int>)
    requires Chain(s, head, c) && Chain(s, head, d)
    ensures c == d
    decreases |c|
  {
    ChainHead(s, head, c);
    ChainHead(s, head, d);
    if c != [] {
      ChainTail(s, c);
      ChainTail(s, d);
      ChainUnique(s, s[head].link, c[1..], d[1..]);
      assert c == [c[0]] + c[1..];
      assert d == [d[0]] + d[1..];
    }
  }

  // ---------------------------------------------------------------------
  // The state of merge4's loop

  /**
   * The bookkeeping inside `merge4`, on indices alone: the first `a` records
   * of `c1` and `b` of `c2` are linked, in the order `out`, which repeats no
   * record and shares none with what is left of either chain; linking the
   * rest in merge order completes the merge of `c1` and `c2`.
   */
  ghost predicate Order(keys: seq<int>, c1: seq<int>, c2: seq<int>, out: seq<int>, a: nat, b: nat) {
    InBounds(c1, |keys|) && InBounds(c2, |keys|) && a <= |c1| && b <= |c2|
    && Distinct(c1) && Distinct(c2) && Disjoint(c1, c2)
    && out != [] && Distinct(out) && Disjoint(out, c1[a..]) && Disjoint(out, c2[b..])
    && MergeChainsFrom(keys, c1, c2, a, b, out) == MergeChains(keys, c1, c2)
    && |out| + HeadStepsFrom(keys, c1, c2, a, b) == HeadSteps(keys, c1, c2)
  }

  /**
   * The arena inside `merge4`: the keys are unchanged, `list1` and `list2`
   * head the chains `r1` and `r2`, and `out` is linked up to its last record.
   */
  ghost predicate Links(s: seq<Record>, keys: seq<int>, out: seq<int>, r1: seq<int>, r2: seq<int>, list1: int, list2: int) {
    SameKeys(s, keys) && Chain(s, list1, r1) && Chain(s, list2, r2) && Path(s, out)
  }

  /** The state of `merge4` between two steps. */
  ghost predicate Merging(s: seq<Record>, keys: seq<int>, c1: seq<int>, c2: seq<int>,
                          out: seq<int>, a: nat, b: nat, list1: int, list2: int)
  {
    Order(keys, c1, c2, out, a, b) && Links(s, keys, out, c1[a..], c2[b..], list1, list2)
  }

  /** What the loop of `merge4` reads in a state: the heads, in bounds, with their keys. */
  lemma MergingFacts(s: seq<Record>, keys: seq<int>, c1: seq<int>, c2: seq<int>,
                     out: seq<int>, a: nat, b: nat, list1: int, list2: int)
    requires Merging(s, keys, c1, c2, out, a, b, list1, list2)
    ensures a <= |c1| && b <= |c2|
    ensures list1 == Nil <==> a == |c1|
    ensures list2 == Nil <==> b == |c2|
    ensures list1 != Nil ==> list1 == c1[a] && 0 <= list1 < |s| && s[list1].key == keys[list1]
    ensures list2 != Nil ==> list2 == c2[b] && 0 <= list2 < |s| && s[list2].key == keys[list2]
    ensures 0 <= out[|out| - 1] < |s|
  {
    ChainHead(s, list1, c1[a..]);
    ChainHead(s, list2, c2[b..]);
  }

  /** The first comparison of `merge4` starts the merged chain with the head it picks. */
  lemma MergeStart(s: seq<Record>, keys: seq<int>, c1: seq<int>, c2: seq<int>)
    requires SameKeys(s, keys) && Chain(s, HeadOf(c1), c1) && Chain(s, HeadOf(c2), c2)
    requires c1 != [] && c2 != [] && Disjoint(c1, c2)
    ensures keys[c1[0]] < keys[c2[0]] ==> Merging(s, keys, c1, c2, [c1[0]], 1, 0, s[c1[0]].link, c2[0])
    ensures !(keys[c1[0]] < keys[c2[0]]) ==> Merging(s, keys, c1, c2, [c2[0]], 0, 1, c1[0], s[c2[0]].link)
  {
    OrderStart(keys, c1, c2);
    ChainTail(s, c1);
    ChainTail(s, c2);
    assert c1[0..] == c1 && c2[0..] == c2;
  }

  /** The bookkeeping after the first comparison of `merge4`. */
  lemma OrderStart(keys: seq<int>, c1: seq<int>, c2: seq<int>)
    requires InBounds(c1, |keys|) && InBounds(c2, |keys|) && Distinct(c1) && Distinct(c2) && Disjoint(c1, c2)
    requires c1 != [] && c2 != []
    ensures keys[c1[0]] < keys[c2[0]] ==> Order(keys, c1, c2, [c1[0]], 1, 0)
    ensures !(keys[c1[0]] < keys[c2[0]]) ==> Order(keys, c1, c2, [c2[0]], 0, 1)
  {
    assert c1[0..] == c1 && c2[0..] == c2;
    OrderMove([], c1, 0, c2, 0);
    DisjointSymmetric(c1, c2);
    OrderMove([], c2, 0, c1, 0);
    assert [] + [c1[0]] == [c1[0]] && [] + [c2[0]] == [c2[0]];
  }

  /** Linking `x` after the last record of `out` extends the path, provided no other slot of `out` changes. */
  lemma PathExtend(s: seq<Record>, s2: seq<Record>, out: seq<int>, x: int)
    requires out != [] && Path(s, out) && Distinct(out) && 0 <= x < |s| == |s2|
    requires s2[out[|out| - 1]].link == x
    requires forall i :: 0 <= i < |s| && i != out[|out| - 1] ==> s2[i] == s[i]
    ensures Path(s2, out + [x])
  {
    var o := out + [x];
    forall t | 0 <= t < |o| - 1
      ensures s2[o[t]].link == o[t + 1]
    {
      if t < |out| - 1 {
        assert out[t] != out[|out| - 1];
      }
    }
  }

  /** Moving the next record of `c` to the end of `out` keeps `out` free of repeats and of what is left. */
  lemma OrderMove(out: seq<int>, c: seq<int>, a: nat, d: seq<int>, b: nat)
    requires a < |c| && b <= |d| && Distinct(c) && Disjoint(c, d)
    requires Distinct(out) && Disjoint(out, c[a..]) && Disjoint(out, d[b..])
    ensures Distinct(out + [c[a]]) && Disjoint(out + [c[a]], c[a + 1..]) && Disjoint(out + [c[a]], d[b..])
  {
    assert c[a..] == [c[a]] + c[a + 1..];
  }

  /** Linking the head of the first chain keeps the bookkeeping when its key is the smaller one. */
  lemma OrderFirst(keys: seq<int>, c1: seq<int>, c2: seq<int>, out: seq<int>, a: nat, b: nat)
    requires Order(keys, c1, c2, out, a, b) && a < |c1| && b < |c2| && keys[c1[a]] < keys[c2[b]]
    ensures Order(keys, c1, c2, out + [c1[a]], a + 1, b)
  {
    OrderMove(out, c1, a, c2, b);
  }

  /** Linking the head of the second chain keeps the bookkeeping when its key is not larger. */
  lemma OrderSecond(keys: seq<int>, c1: seq<int>, c2: seq<int>, out: seq<int>, a: nat, b: nat)
    requires Order(keys, c1, c2, out, a, b) && a < |c1| && b < |c2| && !(keys[c1[a]] < keys[c2[b]])
    ensures Order(keys, c1, c2, out + [c2[b]], a, b + 1)
  {
    DisjointSymmetric(c1, c2);
    OrderMove(out, c2, b, c1, a);
  }

  lemma DisjointSymmetric(c: seq<int>, d: seq<int>)
    requires Disjoint(c, d)
    ensures Disjoint(d, c)
  {
  }

  /** Re-pointing the last record of `out` at the head of `r1` moves that head to `out` in the arena. */
  lemma LinksFirst(s: seq<Record>, s2: seq<Record>, keys: seq<int>, out: seq<int>, r1: seq<int>, r2: seq<int>, list1: int, list2: int)
    requires Links(s, keys, out, r1, r2, list1, list2) && list1 != Nil
    requires out != [] && Distinct(out) && Disjoint(out, r1) && Disjoint(out, r2)
    requires |s2| == |s| && s2[out[|out| - 1]] == s[out[|out| - 1]].(link := list1)
    requires forall i :: 0 <= i < |s| && i != out[|out| - 1] ==> s2[i] == s[i]
    ensures r1 != [] && r1[0] == list1 && 0 <= list1 < |s2|
    ensures Links(s2, keys, out + [list1], r1[1..], r2, s2[list1].link, list2)
  {
    ChainHead(s, list1, r1);
    ChainFrame(s, s2, list1, r1);
    ChainFrame(s, s2, list2, r2);
    ChainTail(s2, r1);
    PathExtend(s, s2, out, list1);
  }

  /** Re-pointing the last record of `out` at the head of `r2` moves that head to `out` in the arena. */
  lemma LinksSecond(s: seq<Record>, s2: seq<Record>, keys: seq<int>, out: seq<int>, r1: seq<int>, r2: seq<int>, list1: int, list2: int)
    requires Links(s, keys, out, r1, r2, list1, list2) && list2 != Nil
    requires out != [] && Distinct(out) && Disjoint(out, r1) && Disjoint(out, r2)
    requires |s2| == |s| && s2[out[|out| - 1]] == s[out[|out| - 1]].(link := list2)
    requires forall i :: 0 <= i < |s| && i != out[|out| - 1] ==> s2[i] == s[i]
    ensures r2 != [] && r2[0] == list2 && 0 <= list2 < |s2|
    ensures Links(s2, keys, out + [list2], r1, r2[1..], list1, s2[list2].link)
  {
    ChainHead(s, list2, r2);
    ChainFrame(s, s2, list1, r1);
    ChainFrame(s, s2, list2, r2);
    ChainTail(s2, r2);
    PathExtend(s, s2, out, list2);
  }

  /** One step of `merge4`'s loop that links the head of the first chain. */
  lemma LinkFirst(s: seq<Record>, s2: seq<Record>, keys: seq<int>, c1: seq<int>, c2: seq<int>,
                  out: seq<int>, a: nat, b: nat, list1: int, list2: int)
    requires Merging(s, keys, c1, c2, out, a, b, list1, list2)
    requires list1 != Nil && list2 != Nil && keys[list1] < keys[list2]
    requires |s2| == |s| && s2[out[|out| - 1]] == s[out[|out| - 1]].(link := list1)
    requires forall i :: 0 <= i < |s| && i != out[|out| - 1] ==> s2[i] == s[i]
    ensures a < |c1| && list1 == c1[a] && 0 <= list1 < |s2|
    ensures Merging(s2, keys, c1, c2, out + [list1], a + 1, b, s2[list1].link, list2)
  {
    MergingFacts(s, keys, c1, c2, out, a, b, list1, list2);
    LinksFirst(s, s2, keys, out, c1[a..], c2[b..], list1, list2);
    assert c1[a..][1..] == c1[a + 1..];
    OrderFirst(keys, c1, c2, out, a, b);
  }

  /** One step of `merge4`'s loop that links the head of the second chain. */
  lemma LinkSecond(s: seq<Record>, s2: seq<Record>, keys: seq<int>, c1: seq<int>, c2: seq<int>,
                   out: seq<int>, a: nat, b: nat, list1: int, list2: int)
    requires Merging(s, keys, c1, c2, out, a, b, list1, list2)
    requires list1 != Nil && list2 != Nil && !(keys[list1] < keys[list2])
    requires |s2| == |s| && s2[out[|out| - 1]] == s[out[|out| - 1]].(link := list2)
    requires forall i :: 0 <= i < |s| && i != out[|out| - 1] ==> s2[i] == s[i]
    ensures b < |c2| && list2 == c2[b] && 0 <= list2 < |s2|
    ensures Merging(s2, keys, c1, c2, out + [list2], a, b + 1, list1, s2[list2].link)
  {
    MergingFacts(s, keys, c1, c2, out, a, b, list1, list2);
    LinksSecond(s, s2, keys, out, c1[a..], c2[b..], list1, list2);
    assert c2[b..][1..] == c2[b + 1..];
    OrderSecond(keys, c1, c2, out, a, b);
  }

  /** Pointing the last record of `out` at the head of the disjoint chain `r` joins them into one chain. */
  lemma ChainJoin(s: seq<Record>, s2: seq<Record>, out: seq<int>, r: seq<int>)
    requires out != [] && Path(s, out) && Distinct(out) && Chain(s, HeadOf(r), r) && Disjoint(out, r)
    requires |s2| == |s| && s2[out[|out| - 1]] == s[out[|out| - 1]].(link := HeadOf(r))
    requires forall i :: 0 <= i < |s| && i != out[|out| - 1] ==> s2[i] == s[i]
    ensures Chain(s2, out[0], out + r)
  {
    var last := out[|out| - 1];
    var o := out + r;
    forall t | 0 <= t < |out| - 1
      ensures s2[o[t]].link == o[t + 1]
    {
      assert out[t] != last;
    }
    forall t | |out| <= t < |o| - 1
      ensures s2[o[t]].link == o[t + 1]
    {
      assert r[t - |out|] != last;
    }
    if r != [] {
      assert r[|r| - 1] != last;
    }
    forall p, q | 0 <= p < q < |o|
      ensures o[p] != o[q]
    {
      if p < |out| && |out| <= q {
        assert o[q] == r[q - |out|];
      }
    }
  }

  /** The splice after `merge4`'s loop: the leftover chain is linked on whole and the merge is complete. */
  lemma Splice(s: seq<Record>, s2: seq<Record>, keys: seq<int>, c1: seq<int>, c2: seq<int>,
               out: seq<int>, a: nat, b: nat, list1: int, list2: int)
    requires Merging(s, keys, c1, c2, out, a, b, list1, list2) && (list1 == Nil || list2 == Nil)
    requires |s2| == |s| && s2[out[|out| - 1]] == s[out[|out| - 1]].(link := if list1 == Nil then list2 else list1)
    requires forall i :: 0 <= i < |s| && i != out[|out| - 1] ==> s2[i] == s[i]
    ensures Chain(s2, out[0], MergeChains(keys, c1, c2))
    ensures |out| == HeadSteps(keys, c1, c2)
  {
    MergingFacts(s, keys, c1, c2, out, a, b, list1, list2);
    if list1 == Nil {
      DrainSecond(keys, c1, c2, b, out);
      ChainJoin(s, s2, out, c2[b..]);
    } else {
      DrainFirst(keys, c1, c2, a, out);
      ChainJoin(s, s2, out, c1[a..]);
    }
  }

  // ---------------------------------------------------------------------
  // The operations

  /**
   * `merge4`: relinks the non-empty disjoint chains with heads `list1` and
   * `list2` into one chain in `MergeChains` order without moving any record,
   * returns its head (`*mergedList`), and adds `LinkSize` to the space
   * counter for the head and for every loop step.
   */
  method Merge4(S: array<Record>, list1: int, list2: int, ghost c1: seq<int>, ghost c2: seq<int>, spaceUsed: int, ghost keys: seq<int>)
    returns (mergedList: int, space: int)
    requires KeyTable(S[..]) == keys && Chain(S[..], list1, c1) && Chain(S[..], list2, c2)
    requires c1 != [] && c2 != [] && Disjoint(c1, c2)
    modifies S
    ensures Chain(S[..], mergedList, MergeChains(keys, c1, c2))
    ensures KeyTable(S[..]) == keys
    ensures Untouched(old(S[..]), S[..], c1, c2)
    ensures space == spaceUsed + LinkSize * HeadSteps(keys, c1, c2)
  {
    var l1, l2, lastSorted;
    ghost var out, a, b;
    mergedList, l1, l2, out, a, b := MergeHead(S, list1, list2, c1, c2);
    space := spaceUsed + LinkSize;
    out, a, b, l1, l2, lastSorted, space := LinkLoop(S, keys, c1, c2, out, a, b, l1, l2, mergedList, space);
    LinkRest(S, old(S[..]), keys, c1, c2, out, a, b, l1, l2, mergedList, lastSorted);
  }

  /**
   * The state of `merge4`'s loop: `Merging`, the merged chain still starts
   * at `first` and ends at `lastSorted`, a record of either chain, and no
   * record outside the two chains differs from the arena `s0`.
   */
  ghost predicate Linking(s0: seq<Record>, s: seq<Record>, keys: seq<int>, c1: seq<int>, c2: seq<int>,
                          out: seq<int>, a: nat, b: nat, list1: int, list2: int, first: int, lastSorted: int)
  {
    Merging(s, keys, c1, c2, out, a, b, list1, list2) && out != [] && out[0] == first
    && lastSorted == out[|out| - 1] && (lastSorted in c1 || lastSorted in c2) && Untouched(s0, s, c1, c2)
  }

  /**
   * The loop of `merge4`: while both chains have records left, links the
   * smaller head after `lastSorted` and charges `LinkSize` per step.
   */
  method LinkLoop(S: array<Record>, ghost keys: seq<int>, ghost c1: seq<int>, ghost c2: seq<int>,
                  ghost out0: seq<int>, ghost a0: nat, ghost b0: nat, list1: int, list2: int, lastSorted0: int, space0: int)
    returns (ghost out: seq<int>, ghost a: nat, ghost b: nat, l1: int, l2: int, lastSorted: int, space: int)
    requires Merging(S[..], keys, c1, c2, out0, a0, b0, list1, list2) && out0 == [lastSorted0]
    requires lastSorted0 in c1 || lastSorted0 in c2
    modifies S
    ensures Linking(old(S[..]), S[..], keys, c1, c2, out, a, b, l1, l2, lastSorted0, lastSorted)
    ensures l1 == Nil || l2 == Nil
    ensures space == space0 + LinkSize * (|out| - 1)
  {
    out, a, b, l1, l2, lastSorted, space := out0, a0, b0, list1, list2, lastSorted0, space0;
    MergingFacts(S[..], keys, c1, c2, out, a, b, l1, l2);
    while l1 != Nil && l2 != Nil
      invariant Linking(old(S[..]), S[..], keys, c1, c2, out, a, b, l1, l2, lastSorted0, lastSorted)
      invariant a <= |c1| && b <= |c2|
      invariant space == space0 + LinkSize * (|out| - 1)
      decreases |c1| - a + |c2| - b
    {
      out, a, b, l1, l2, lastSorted := LinkNext(S, old(S[..]), keys, c1, c2, out, a, b, l1, l2, lastSorted0, lastSorted);
      space := space + LinkSize;
    }
  }

  /**
   * The end of `merge4`: once one chain is exhausted, the other is linked
   * after `lastSorted` on whole (`S[lastSorted].Link = list2` when `list1`
   * is `-1`, else `list1`), which completes the merged chain.
   */
  method LinkRest(S: array<Record>, ghost s0: seq<Record>, ghost keys: seq<int>, ghost c1: seq<int>, ghost c2: seq<int>,
                  ghost out: seq<int>, ghost a: nat, ghost b: nat, list1: int, list2: int, ghost first: int, lastSorted: int)
    requires Linking(s0, S[..], keys, c1, c2, out, a, b, list1, list2, first, lastSorted)
    requires list1 == Nil || list2 == Nil
    modifies S
    ensures Chain(S[..], first, MergeChains(keys, c1, c2)) && |out| == HeadSteps(keys, c1, c2)
    ensures KeyTable(S[..]) == keys
    ensures Untouched(s0, S[..], c1, c2)
    ensures 0 <= lastSorted < S.Length
    ensures S[..] == old(S[..])[lastSorted := old(S[lastSorted]).(link := if list1 == Nil then list2 else list1)]
  {
    MergingFacts(S[..], keys, c1, c2, out, a, b, list1, list2);
    ghost var before := S[..];
    if list1 == Nil {
      S[lastSorted] := S[lastSorted].(link := list2);
    } else {
      S[lastSorted] := S[lastSorted].(link := list1);
    }
    Splice(before, S[..], keys, c1, c2, out, a, b, list1, list2);
    KeyTableOf(S[..], keys);
    UntouchedStep(s0, before, S[..], lastSorted, c1, c2);
  }

  /**
   * The first comparison of `merge4`: the head with the smaller key (the
   * head of `list2` on equal keys) becomes the head of the merged chain and
   * its chain advances. Nothing is written yet.
   */
  method MergeHead(S: array<Record>, list1: int, list2: int, ghost c1: seq<int>, ghost c2: seq<int>)
    returns (mergedList: int, next1: int, next2: int, ghost out: seq<int>, ghost a: nat, ghost b: nat)
    requires Chain(S[..], list1, c1) && Chain(S[..], list2, c2)
    requires c1 != [] && c2 != [] && Disjoint(c1, c2)
    ensures Merging(S[..], KeyTable(S[..]), c1, c2, out, a, b, next1, next2)
    ensures out == [mergedList] && (mergedList in c1 || mergedList in c2)
  {
    MergeStart(S[..], KeyTable(S[..]), c1, c2);
    if S[list1].key < S[list2].key {
      mergedList := list1;
      next1, next2 := S[list1].link, list2;
      out, a, b := [list1], 1, 0;
    } else {
      mergedList := list2;
      next1, next2 := list1, S[list2].link;
      out, a, b := [list2], 0, 1;
    }
  }

  /**
   * One step of `merge4`'s loop: links the head with the smaller key (the
   * head of the second chain on equal keys) after `lastSorted`, which
   * becomes that head, and advances its chain. Only `lastSorted` changes.
   */
  method LinkNext(S: array<Record>, ghost s0: seq<Record>, ghost keys: seq<int>, ghost c1: seq<int>, ghost c2: seq<int>,
                  ghost out: seq<int>, ghost a: nat, ghost b: nat, list1: int, list2: int, ghost first: int, lastSorted: int)
    returns (ghost out1: seq<int>, ghost a1: nat, ghost b1: nat, next1: int, next2: int, last: int)
    requires Linking(s0, S[..], keys, c1, c2, out, a, b, list1, list2, first, lastSorted)
    requires list1 != Nil && list2 != Nil
    modifies S
    ensures Linking(s0, S[..], keys, c1, c2, out1, a1, b1, next1, next2, first, last)
    ensures out1 == out + [last] && a1 + b1 == a + b + 1 && a1 <= |c1| && b1 <= |c2|
    ensures 0 <= lastSorted < S.Length && S[..] == old(S[..])[lastSorted := old(S[lastSorted]).(link := last)]
  {
    StepFacts(s0, S[..], keys, c1, c2, out, a, b, list1, list2, first, lastSorted);
    ghost var before := S[..];
    if S[list1].key < S[list2].key {
      S[lastSorted] := S[lastSorted].(link := list1);
      out1, a1, b1 := out + [list1], a + 1, b;
      last := list1;
      next1, next2 := S[list1].link, list2;
      StepFirst(s0, before, S[..], keys, c1, c2, out, a, b, list1, list2, first, lastSorted, a1, next1);
    } else {
      S[lastSorted] := S[lastSorted].(link := list2);
      out1, a1, b1 := out + [list2], a, b + 1;
      last := list2;
      next1, next2 := list1, S[list2].link;
      StepSecond(s0, before, S[..], keys, c1, c2, out, a, b, list1, list2, first, lastSorted, b1, next2);
    }
  }

  /** What a step of `merge4`'s loop reads: both heads and `lastSorted` are arena slots holding their keys. */
  lemma StepFacts(s0: seq<Record>, s: seq<Record>, keys: seq<int>, c1: seq<int>, c2: seq<int>,
                  out: seq<int>, a: nat, b: nat, list1: int, list2: int, first: int, lastSorted: int)
    requires Linking(s0, s, keys, c1, c2, out, a, b, list1, list2, first, lastSorted)
    requires list1 != Nil && list2 != Nil
    ensures 0 <= list1 < |s| && 0 <= list2 < |s| && 0 <= lastSorted < |s|
    ensures s[list1].key == keys[list1] && s[list2].key == keys[list2] && |keys| == |s|
  {
    MergingFacts(s, keys, c1, c2, out, a, b, list1, list2);
  }

  /** Linking the head of the first chain after `lastSorted` keeps the loop state. */
  lemma StepFirst(s0: seq<Record>, s: seq<Record>, s2: seq<Record>, keys: seq<int>, c1: seq<int>, c2: seq<int>,
                  out: seq<int>, a: nat, b: nat, list1: int, list2: int, first: int, lastSorted: int, a1: nat, next1: int)
    requires Linking(s0, s, keys, c1, c2, out, a, b, list1, list2, first, lastSorted)
    requires list1 != Nil && list2 != Nil && 0 <= list1 < |keys| && 0 <= list2 < |keys| && keys[list1] < keys[list2]
    requires |s2| == |s| && 0 <= lastSorted < |s| && s2[lastSorted] == s[lastSorted].(link := list1)
    requires forall i :: 0 <= i < |s| && i != lastSorted ==> s2[i] == s[i]
    requires a1 == a + 1 && 0 <= list1 < |s2| && next1 == s2[list1].link
    ensures a1 <= |c1| && b <= |c2|
    ensures Linking(s0, s2, keys, c1, c2, out + [list1], a1, b, next1, list2, first, list1)
  {
    MergingFacts(s, keys, c1, c2, out, a, b, list1, list2);
    LinkFirst(s, s2, keys, c1, c2, out, a, b, list1, list2);
    assert list1 in c1;
    UntouchedStep(s0, s, s2, lastSorted, c1, c2);
  }

  /** Linking the head of the second chain after `lastSorted` keeps the loop state. */
  lemma StepSecond(s0: seq<Record>, s: seq<Record>, s2: seq<Record>, keys: seq<int>, c1: seq<int>, c2: seq<int>,
                   out: seq<int>, a: nat, b: nat, list1: int, list2: int, first: int, lastSorted: int, b1: nat, next2: int)
    requires Linking(s0, s, keys, c1, c2, out, a, b, list1, list2, first, lastSorted)
    requires list1 != Nil && list2 != Nil && 0 <= list1 < |keys| && 0 <= list2 < |keys| && !(keys[list1] < keys[list2])
    requires |s2| == |s| && 0 <= lastSorted < |s| && s2[lastSorted] == s[lastSorted].(link := list2)
    requires forall i :: 0 <= i < |s| && i != lastSorted ==> s2[i] == s[i]
    requires b1 == b + 1 && 0 <= list2 < |s2| && next2 == s2[list2].link
    ensures a <= |c1| && b1 <= |c2|
    ensures Linking(s0, s2, keys, c1, c2, out + [list2], a, b1, list1, next2, first, list2)
  {
    MergingFacts(s, keys, c1, c2, out, a, b, list1, list2);
    LinkSecond(s, s2, keys, c1, c2, out, a, b, list1, list2);
    assert list2 in c2;
    UntouchedStep(s0, s, s2, lastSorted, c1, c2);
  }

  /** The key table of an arena with the keys `keys` is `keys`. */
  lemma KeyTableOf(s: seq<Record>, keys: seq<int>)
    requires SameKeys(s, keys)
    ensures KeyTable(s) == keys
  {
  }

  /** No slot of `t` outside `lo..hi` differs from the slot of `s`. */
  ghost predicate SameOutside(s: seq<Record>, t: seq<Record>, lo: int, hi: int) {
    |s| == |t| && forall i :: 0 <= i < |s| && !(lo <= i <= hi) ==> t[i] == s[i]
  }

  /** No slot of `t` outside the chains `c1` and `c2` differs from the slot of `s`. */
  ghost predicate Untouched(s: seq<Record>, t: seq<Record>, c1: seq<int>, c2: seq<int>) {
    |s| == |t| && forall i :: 0 <= i < |s| && i !in c1 && i !in c2 ==> t[i] == s[i]
  }

  /** Rewriting one record of either chain keeps everything outside the chains as it was. */
  lemma UntouchedStep(s0: seq<Record>, s: seq<Record>, t: seq<Record>, x: int, c1: seq<int>, c2: seq<int>)
    requires Untouched(s0, s, c1, c2) && 0 <= x < |s| == |t| && (x in c1 || x in c2)
    requires forall i :: 0 <= i < |s| && i != x ==> t[i] == s[i]
    ensures Untouched(s0, t, c1, c2)
  {
  }

  /** The split of `mergesort4`: the chain of `low..high` is the merge of the chains of its halves. */
  lemma HalvesChain(keys: seq<int>, low: int, mid: int, mid1: int, high: int)
    requires 0 <= low < high < |keys| && mid == (low + high) / 2 && mid1 == mid + 1
    ensures InBounds(Linked(keys, low, mid), |keys|) && InBounds(Linked(keys, mid1, high), |keys|)
    ensures Disjoint(Linked(keys, low, mid), Linked(keys, mid1, high))
    ensures Linked(keys, low, high) == MergeChains(keys, Linked(keys, low, mid), Linked(keys, mid1, high))
  {
    SplitPoints(low, mid, mid1, high);
  }

  /** The split of `mergesort4`: the charge of `low..high` is the charges of its halves and of their merge. */
  lemma HalvesUnits(keys: seq<int>, low: int, mid: int, mid1: int, high: int)
    requires 0 <= low < high < |keys| && mid == (low + high) / 2 && mid1 == mid + 1
    ensures Units(keys, low, high)
         == Units(keys, low, mid) + Units(keys, mid1, high) + HeadSteps(keys, Linked(keys, low, mid), Linked(keys, mid1, high))
  {
    SplitPoints(low, mid, mid1, high);
  }

  /** A single record whose link is set to `Nil` is a chain of one. */
  lemma Singleton(s0: seq<Record>, s: seq<Record>, low: int)
    requires 0 <= low < |s0| && SameOutside(s0, s, low, low) && s[low] == s0[low].(link := Nil)
    ensures Chain(s, low, [low]) && KeyTable(s) == KeyTable(s0)
  {
  }

  /** The second recursive call of `mergesort4` leaves the chain of the first half intact. */
  lemma KeepLeft(s1: seq<Record>, s2: seq<Record>, list1: int, c1: seq<int>, low: int, mid: int, high: int)
    requires Chain(s1, list1, c1) && InRange(c1, low, mid) && SameOutside(s1, s2, mid + 1, high)
    ensures Chain(s2, list1, c1)
  {
    ChainFrame(s1, s2, list1, c1);
  }

  /** Relinking the records of two chains inside `lo..hi` changes nothing outside `lo..hi`. */
  lemma MergeFrame(s2: seq<Record>, s3: seq<Record>, c1: seq<int>, c2: seq<int>, lo: int, mid: int, hi: int)
    requires lo <= mid < hi && InRange(c1, lo, mid) && InRange(c2, mid + 1, hi)
    requires Untouched(s2, s3, c1, c2)
    ensures SameOutside(s2, s3, lo, hi)
  {
    forall i | 0 <= i < |s2| && !(lo <= i <= hi)
      ensures s3[i] == s2[i]
    {
      assert i !in c1 && i !in c2;
    }
  }

  /** What `mergesort4` has changed: the records of `low..high` at most, since each step changed only its own part. */
  lemma SortFrame(s0: seq<Record>, s1: seq<Record>, s2: seq<Record>, s3: seq<Record>, low: int, mid: int, high: int)
    requires SameOutside(s0, s1, low, mid) && SameOutside(s1, s2, mid + 1, high) && SameOutside(s2, s3, low, high)
    requires low <= mid < high
    ensures SameOutside(s0, s3, low, high)
  {
  }

  /** The space charged for a split is the sum of the charges of its parts. */
  lemma ChargeSum(space0: int, space1: int, space2: int, space3: int, u1: int, u2: int, h: int)
    requires space1 == space0 + LinkSize * u1 && space2 == space1 + LinkSize * u2 && space3 == space2 + LinkSize * h
    ensures space3 == space0 + LinkSize * (u1 + u2 + h)
  {
  }

  /**
   * `mergesort4(low, high)`: threads the records `S[low..high]` into the
   * chain `Linked` of them and returns its head (`*mergedList`); a single
   * record becomes a chain of one with link `Nil`. Keys are never written and
   * no record outside `low..high` changes. The space counter grows by
   * `LinkSize * Units`.
   */
  method MergeSort4(S: array<Record>, low: int, high: int, spaceUsed: int, ghost keys: seq<int>)
    returns (mergedList: int, space: int, ghost c: seq<int>)
    requires 0 <= low <= high < S.Length && KeyTable(S[..]) == keys
    modifies S
    ensures c == Linked(keys, low, high) && Chain(S[..], mergedList, c)
    ensures KeyTable(S[..]) == keys
    ensures SameOutside(old(S[..]), S[..], low, high)
    ensures space == spaceUsed + LinkSize * Units(keys, low, high)
    decreases high - low
  {
    if low == high {
      mergedList := low;
      S[low] := S[low].(link := Nil);
      space := spaceUsed;
      c := [low];
      Singleton(old(S[..]), S[..], low);
      assert Units(keys, low, high) == 0;
      assert Linked(keys, low, high) == [low];
    } else {
      var mid := (low + high) / 2;
      var mid1 := mid + 1;
      HalvesChain(keys, low, mid, mid1, high);
      HalvesUnits(keys, low, mid, mid1, high);
      var list1, list2;
      ghost var c1, c2;
      list1, space, c1 := MergeSort4(S, low, mid, spaceUsed, keys);
      ghost var s1, space1 := S[..], space;
      list2, space, c2 := MergeSort4(S, mid1, high, space, keys);
      ghost var s2, space2 := S[..], space;
      KeepLeft(s1, s2, list1, c1, low, mid, high);
      mergedList, space := Merge4(S, list1, list2, c1, c2, space, keys);
      c := MergeChains(keys, c1, c2);
      ChargeSum(spaceUsed, space1, space2, space, Units(keys, low, mid), Units(keys, mid1, high), HeadSteps(keys, c1, c2));
      MergeFrame(s2, S[..], c1, c2, low, mid, high);
      SortFrame(old(S[..]), s1, s2, S[..], low, mid, high);
    }
  }
}
