/** Randomized quickselect over the per-query list of store distances (`randSelect`,
    `randomPartition` and `swap` in Main.java). The list is an array that the selection
    reorders in place; the random source is a nondeterministic choice, so every property
    below holds for every sequence of pivot draws. */
module Selection {
  import opened Records
  import opened OrderStatistics

  /** s[lo..hi) is partitioned around index q: the entries before q are strictly closer than
      s[q], the entries after it are no closer. */
  ghost predicate PartitionedAt(s: seq<StoreDistance>, lo: int, q: int, hi: int) {
    && 0 <= lo <= q < hi <= |s|
    && (forall m :: lo <= m < q ==> s[m].distance < s[q].distance)
    && (forall m :: q < m < hi ==> s[q].distance <= s[m].distance)
  }

  /** `after` is `before` with the entries of [lo, hi) permuted among themselves and every
      other entry in place. */
  ghost predicate PermutedWithin(before: seq<StoreDistance>, after: seq<StoreDistance>, lo: int, hi: int) {
    && 0 <= lo <= hi <= |before| == |after|
    && (forall m :: 0 <= m < |before| && !(lo <= m < hi) ==> after[m] == before[m])
    && multiset(after) == multiset(before)
  }

  /** What the selection promises for a range and the rank k: an answer whenever k is a
      valid rank or the range has one entry, and an answer that is one of the range's entries
      at the k-th smallest distance (the smallest, for k <= 0). */
  ghost predicate SelectsKth(range: seq<StoreDistance>, k: int, r: Result<StoreDistance>) {
    && (1 <= k || |range| == 1 ==> r.Ok?)
    && (r.Ok? ==> r.value in multiset(range)
                  && IsKthSmallest(range, if k < 1 then 1 else k, r.value.distance))
  }

  /** In s, every entry in [a, b) is at most as far as every entry in [b, c). */
  ghost predicate SplitAt(s: seq<StoreDistance>, a: int, b: int, c: int) {
    && 0 <= a <= b <= c <= |s|
    && (forall i, j :: a <= i < b <= j < c ==> s[i].distance <= s[j].distance)
  }

  /** The state of the selection loop over a[left..right]: the range is a permutation of the
      one on entry; the remaining range [lo, hi] sits between a part no farther than it and a
      part no closer than it; and the remaining rank, shifted by the part before it, is the
      rank asked for. A rank below 1 only ever narrows towards the front, and a one-entry
      range is never narrowed. */
  ghost predicate Narrowed(s0: seq<StoreDistance>, s: seq<StoreDistance>, left: int, right: int, k: int,
                           lo: int, hi: int, rank: int) {
    && PermutedWithin(s0, s, left, right + 1)
    && left <= lo <= hi + 1 <= right + 1
    && rank <= hi - lo + 1
    && k == rank + (lo - left)
    && (rank < 1 ==> lo == left)
    && (left == right ==> lo == hi)
    && SplitAt(s, left, lo, hi + 1)
    && SplitAt(s, lo, hi + 1, right + 1)
  }

  /** Exchanges the entries at `i` and `j` (which may be the same index). */
  method Swap(a: array<StoreDistance>, i: int, j: int)
    requires 0 <= i < a.Length && 0 <= j < a.Length
    modifies a
    ensures a[i] == old(a[j]) && a[j] == old(a[i])
    ensures forall m :: 0 <= m < a.Length && m != i && m != j ==> a[m] == old(a[m])
    ensures multiset(a[..]) == multiset(old(a[..]))
  {
    var temp := a[i];
    a[i] := a[j];
    a[j] := temp;
  }

  /** `new Random().nextInt(bound)`: throws when the bound is not positive, and otherwise
      draws any value in [0, bound). */
  method NextInt(bound: int) returns (r: Result<int>)
    ensures r.Ok? <==> 0 < bound
    ensures r.Ok? ==> 0 <= r.value < bound
  {
    if bound <= 0 {
      return Err(IllegalArgument);
    }
    var draw :| 0 <= draw < bound;
    r := Ok(draw);
  }

  /** Lomuto partition of a[left..right] around a randomly drawn pivot, with a strict `<`
      test. It fails (as `nextInt` does) on an empty range; otherwise it returns the pivot's
      final index, the pivot being the entry drawn, and leaves the range partitioned around
      it. Only the range is permuted. */
  method RandomPartition(a: array<StoreDistance>, left: int, right: int)
      returns (r: Result<int>, ghost pivotIndex: int)
    requires 0 <= left <= right + 1 <= a.Length
    modifies a
    ensures r.Ok? <==> left <= right
    ensures PermutedWithin(old(a[..]), a[..], left, right + 1)
    ensures r.Ok? ==> left <= r.value <= right && left <= pivotIndex <= right && a[r.value] == old(a[pivotIndex])
    ensures r.Ok? ==> PartitionedAt(a[..], left, r.value, right + 1)
  {
    var draw := NextInt(right - left + 1);
    if draw.Err? {
      return Err(draw.error), left;
    }
    var index := draw.value + left;
    pivotIndex := index;
    var pivotValue := a[index];
    Swap(a, index, right);
    var storeIndex := left;
    for i := left to right
      invariant left <= storeIndex <= i
      invariant a[right] == pivotValue
      invariant forall m :: left <= m < storeIndex ==> a[m].distance < pivotValue.distance
      invariant forall m :: storeIndex <= m < i ==> pivotValue.distance <= a[m].distance
      invariant PermutedWithin(old(a[..]), a[..], left, right + 1)
    {
      if a[i].distance < pivotValue.distance {
        Swap(a, i, storeIndex);
        storeIndex := storeIndex + 1;
      }
    }
    Swap(a, storeIndex, right);
    r := Ok(storeIndex);
  }

  /** The k-th smallest distance of a[left..right], 1 <= k <= right-left+1: the entry it
      returns is one of the range's entries, and its distance is the k-th smallest of the
      range as it was on entry. Only the range is permuted. A rank k <= 0 (which the query
      code can pass) is not rejected: it then either fails, when a pivot draw leaves an
      empty range, or returns an entry at the least distance. The tail recursion over
      (left, right, k) is the loop over (lo, hi, rank). */
  method RandSelect(a: array<StoreDistance>, left: int, right: int, k: int) returns (r: Result<StoreDistance>)
    requires 0 <= left <= right + 1 <= a.Length
    requires k <= right - left + 1
    modifies a
    ensures PermutedWithin(old(a[..]), a[..], left, right + 1)
    ensures SelectsKth(old(a[left..right + 1]), k, r)
  {
    ghost var s0 := a[..];
    var lo, hi, rank := left, right, k;
    while lo != hi
      invariant Narrowed(s0, a[..], left, right, k, lo, hi, rank)
      decreases hi - lo + 1
    {
      ghost var s := a[..];
      var partition, pivot := RandomPartition(a, lo, hi);
      if partition.Err? {
        r := Err(partition.error);
        EmptyRound(s0, s, a[..], left, right, k, lo, hi, rank, r);
        return;
      }
      var pivotIndex := partition.value;
      var pivotDist := pivotIndex - lo + 1;
      if rank == pivotDist {
        r := Ok(a[pivotIndex]);
        PivotRound(s0, s, a[..], left, right, k, lo, hi, rank, pivotIndex);
        return;
      } else if rank < pivotDist {
        BelowRound(s0, s, a[..], left, right, k, lo, hi, rank, pivotIndex);
        hi := pivotIndex - 1;
      } else {
        AboveRound(s0, s, a[..], left, right, k, lo, hi, rank, pivotIndex);
        lo, rank := pivotIndex + 1, rank - pivotDist;
      }
    }
    r := Ok(a[lo]);
    LastRound(s0, a[..], left, right, k, lo, hi, rank);
  }

  /** A round that draws the pivot at the rank asked for: the pivot is the answer. */
  lemma PivotRound(s0: seq<StoreDistance>, s: seq<StoreDistance>, s1: seq<StoreDistance>,
                   left: int, right: int, k: int, lo: int, hi: int, rank: int, q: int)
    requires Narrowed(s0, s, left, right, k, lo, hi, rank) && lo < hi
    requires PermutedWithin(s, s1, lo, hi + 1) && PartitionedAt(s1, lo, q, hi + 1)
    requires rank == q - lo + 1
    ensures PermutedWithin(s0, s1, left, right + 1) && SelectsKth(s0[left..right + 1], k, Ok(s1[q]))
  {
    NarrowedPermuted(s0, s, s1, left, right, k, lo, hi, rank);
    PivotAnswers(s1, lo, q, hi + 1);
    Answered(s0, s1, left, right, k, lo, hi, rank, Ok(s1[q]));
  }

  /** A round whose pivot lies past the rank asked for: the search goes on before the pivot,
      at the same rank. */
  lemma BelowRound(s0: seq<StoreDistance>, s: seq<StoreDistance>, s1: seq<StoreDistance>,
                   left: int, right: int, k: int, lo: int, hi: int, rank: int, q: int)
    requires Narrowed(s0, s, left, right, k, lo, hi, rank) && lo < hi
    requires PermutedWithin(s, s1, lo, hi + 1) && PartitionedAt(s1, lo, q, hi + 1)
    requires rank < q - lo + 1
    ensures Narrowed(s0, s1, left, right, k, lo, q - 1, rank)
  {
    NarrowedPermuted(s0, s, s1, left, right, k, lo, hi, rank);
    NarrowBelow(s0, s1, left, right, k, lo, hi, rank, q);
  }

  /** A round whose pivot lies before the rank asked for: the search goes on after the pivot,
      at the rank less the pivot's. */
  lemma AboveRound(s0: seq<StoreDistance>, s: seq<StoreDistance>, s1: seq<StoreDistance>,
                   left: int, right: int, k: int, lo: int, hi: int, rank: int, q: int)
    requires Narrowed(s0, s, left, right, k, lo, hi, rank) && lo < hi
    requires PermutedWithin(s, s1, lo, hi + 1) && PartitionedAt(s1, lo, q, hi + 1)
    requires q - lo + 1 < rank
    ensures Narrowed(s0, s1, left, right, k, q + 1, hi, rank - (q - lo + 1))
  {
    NarrowedPermuted(s0, s, s1, left, right, k, lo, hi, rank);
    NarrowAbove(s0, s1, left, right, k, lo, hi, rank, q);
  }

  /** A round on an empty range fails, and failing is what the selection promises there. */
  lemma EmptyRound(s0: seq<StoreDistance>, s: seq<StoreDistance>, s1: seq<StoreDistance>,
                   left: int, right: int, k: int, lo: int, hi: int, rank: int, r: Result<StoreDistance>)
    requires Narrowed(s0, s, left, right, k, lo, hi, rank) && hi < lo
    requires PermutedWithin(s, s1, lo, hi + 1) && r.Err?
    ensures PermutedWithin(s0, s1, left, right + 1) && SelectsKth(s0[left..right + 1], k, r)
  {
  }

  /** A one-entry range: its entry is the answer. */
  lemma LastRound(s0: seq<StoreDistance>, s: seq<StoreDistance>, left: int, right: int, k: int,
                  lo: int, hi: int, rank: int)
    requires Narrowed(s0, s, left, right, k, lo, hi, rank) && lo == hi
    ensures PermutedWithin(s0, s, left, right + 1) && SelectsKth(s0[left..right + 1], k, Ok(s[lo]))
  {
    SingleEntry(s[lo..hi + 1], rank);
    Answered(s0, s, left, right, k, lo, hi, rank, Ok(s[lo]));
  }

  /** A permutation within [lo, hi) permutes the slice [lo, hi). */
  lemma SlicePermuted(s: seq<StoreDistance>, t: seq<StoreDistance>, lo: int, hi: int)
    requires PermutedWithin(s, t, lo, hi)
    ensures multiset(s[lo..hi]) == multiset(t[lo..hi])
  {
    var front, back := s[..lo], s[hi..];
    assert t[..lo] == front && t[hi..] == back;
    assert s == front + s[lo..hi] + back;
    assert t == front + t[lo..hi] + back;
    assert multiset(s) == multiset(front) + multiset(s[lo..hi]) + multiset(back);
    assert multiset(t) == multiset(front) + multiset(t[lo..hi]) + multiset(back);
    forall e ensures multiset(s[lo..hi])[e] == multiset(t[lo..hi])[e] {
      assert multiset(s)[e] == multiset(t)[e];
    }
  }

  /** Permuting [lo2, hi2) after permuting [lo, hi) around it is a permutation of [lo, hi). */
  lemma PermutedWithinNested(s0: seq<StoreDistance>, s1: seq<StoreDistance>, s2: seq<StoreDistance>,
                             lo: int, hi: int, lo2: int, hi2: int)
    requires lo <= lo2 <= hi2 <= hi
    requires PermutedWithin(s0, s1, lo, hi) && PermutedWithin(s1, s2, lo2, hi2)
    ensures PermutedWithin(s0, s2, lo, hi)
  {
  }

  /** An entry of a range permuted within [lo, hi) came from somewhere in [lo, hi). */
  lemma MovedWithin(s: seq<StoreDistance>, t: seq<StoreDistance>, lo: int, hi: int, j: int) returns (i: int)
    requires PermutedWithin(s, t, lo, hi) && lo <= j < hi
    ensures lo <= i < hi && s[i] == t[j]
  {
    SlicePermuted(s, t, lo, hi);
    assert t[j] == t[lo..hi][j - lo];
    assert t[j] in multiset(s[lo..hi]);
    var m :| 0 <= m < |s[lo..hi]| && s[lo..hi][m] == t[j];
    i := lo + m;
  }

  /** Partitioning the remaining range keeps the loop state. */
  lemma NarrowedPermuted(s0: seq<StoreDistance>, s: seq<StoreDistance>, s1: seq<StoreDistance>,
                         left: int, right: int, k: int, lo: int, hi: int, rank: int)
    requires Narrowed(s0, s, left, right, k, lo, hi, rank) && PermutedWithin(s, s1, lo, hi + 1)
    ensures Narrowed(s0, s1, left, right, k, lo, hi, rank)
  {
    PermutedWithinNested(s0, s, s1, left, right + 1, lo, hi + 1);
    forall i, j | left <= i < lo <= j < hi + 1 ensures s1[i].distance <= s1[j].distance {
      var from := MovedWithin(s, s1, lo, hi + 1, j);
      assert s1[i] == s[i];
    }
    forall i, j | lo <= i < hi + 1 <= j < right + 1 ensures s1[i].distance <= s1[j].distance {
      var from := MovedWithin(s, s1, lo, hi + 1, i);
      assert s1[j] == s[j];
    }
  }

  /** Two neighbouring slices are ordered when every pair of positions across them is. */
  lemma NoFartherSlices(s: seq<StoreDistance>, a: int, b: int, c: int)
    requires SplitAt(s, a, b, c)
    ensures NoFarther(s[a..b], s[b..c])
  {
  }

  /** Going on in the part before the pivot keeps the loop state. */
  lemma NarrowBelow(s0: seq<StoreDistance>, s: seq<StoreDistance>, left: int, right: int, k: int,
                    lo: int, hi: int, rank: int, q: int)
    requires Narrowed(s0, s, left, right, k, lo, hi, rank) && lo < hi && PartitionedAt(s, lo, q, hi + 1)
    requires rank < q - lo + 1
    ensures Narrowed(s0, s, left, right, k, lo, q - 1, rank)
  {
  }

  /** Going on in the part after the pivot, at the rank less the pivot's, keeps the loop
      state. */
  lemma NarrowAbove(s0: seq<StoreDistance>, s: seq<StoreDistance>, left: int, right: int, k: int,
                    lo: int, hi: int, rank: int, q: int)
    requires Narrowed(s0, s, left, right, k, lo, hi, rank) && lo < hi && PartitionedAt(s, lo, q, hi + 1)
    requires q - lo + 1 < rank
    ensures Narrowed(s0, s, left, right, k, q + 1, hi, rank - (q - lo + 1))
  {
  }

  /** The pivot answers for its own rank in a range partitioned around it. */
  lemma PivotAnswers(s: seq<StoreDistance>, lo: int, q: int, hi: int)
    requires PartitionedAt(s, lo, q, hi)
    ensures SelectsKth(s[lo..hi], q - lo + 1, Ok(s[q]))
  {
    var lower, upper := s[lo..q], s[q + 1..hi];
    assert s[lo..hi] == lower + [s[q]] + upper;
    PivotRank(lower, s[q], upper);
  }

  /** A one-entry range: its entry is the answer for every rank up to 1. */
  lemma SingleEntry(range: seq<StoreDistance>, k: int)
    requires |range| == 1 && k <= 1
    ensures SelectsKth(range, k, Ok(range[0]))
  {
  }

  /** An answer for the remaining range and rank is the answer for the range and rank on
      entry. */
  lemma Answered(s0: seq<StoreDistance>, s: seq<StoreDistance>, left: int, right: int, k: int,
                 lo: int, hi: int, rank: int, r: Result<StoreDistance>)
    requires Narrowed(s0, s, left, right, k, lo, hi, rank) && SelectsKth(s[lo..hi + 1], rank, r)
    ensures SelectsKth(s0[left..right + 1], k, r)
  {
    if r.Ok? {
      AnsweredInRange(s0, s, left, lo, hi + 1, right + 1, if rank < 1 then 1 else rank, r.value);
    }
  }

  /** The slice form of `Answered`: an entry at the j-th smallest distance of s[b..c], with
      s[a..b] before it no farther and s[c..d] after it no closer, is at the (b-a+j)-th
      smallest distance of the range s[a..d] and of any rearrangement of it. */
  lemma AnsweredInRange(s0: seq<StoreDistance>, s: seq<StoreDistance>, a: int, b: int, c: int, d: int,
                        j: int, e: StoreDistance)
    requires PermutedWithin(s0, s, a, d) && SplitAt(s, a, b, c) && SplitAt(s, b, c, d)
    requires e in multiset(s[b..c]) && IsKthSmallest(s[b..c], j, e.distance)
    ensures e in multiset(s0[a..d]) && IsKthSmallest(s0[a..d], b - a + j, e.distance)
  {
    NoFartherSlices(s, a, b, c);
    NoFartherSlices(s, b, c, d);
    SlicePermuted(s0, s, a, d);
    SliceThirds(s, a, b, c, d);
    KthAcrossParts(s0[a..d], s[a..b], s[b..c], s[c..d], j, e);
  }

  lemma SliceThirds(s: seq<StoreDistance>, a: int, b: int, c: int, d: int)
    requires 0 <= a <= b <= c <= d <= |s|
    ensures s[a..d] == s[a..b] + s[b..c] + s[c..d]
  {
  }

  /** A rank in the middle part of a rearranged range, shifted by the first part's length. */
  lemma KthAcrossParts(whole: seq<StoreDistance>, lower: seq<StoreDistance>, middle: seq<StoreDistance>,
                       upper: seq<StoreDistance>, j: int, e: StoreDistance)
    requires multiset(whole) == multiset(lower + middle + upper)
    requires NoFarther(lower, middle) && NoFarther(middle, upper)
    requires e in multiset(middle) && IsKthSmallest(middle, j, e.distance)
    ensures e in multiset(whole) && IsKthSmallest(whole, |lower| + j, e.distance)
  {
    KthInMiddle(lower, middle, upper, j, e);
    KthPermutation(whole, lower + middle + upper, |lower| + j, e.distance);
    assert e in lower + middle + upper;
  }
}
