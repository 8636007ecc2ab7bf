/** What "the k-th smallest distance" and "every store within a boundary" mean, stated on
    sequences of store distances, and the facts about them that the selection and the query
    evaluation rely on. */
module OrderStatistics {
  import opened Records

  /** A distance test: strictly closer than a bound (the partition's test) or at most a
      bound away (the rescan's test). */
  datatype Bound = Under(limit: int) | AtMost(limit: int) {
    predicate Admits(e: StoreDistance) {
      match this
      case Under(limit) => e.distance < limit
      case AtMost(limit) => e.distance <= limit
    }
  }

  /** The entries of `s` that `keep` admits, in their order in `s`. */
  function Filter(s: seq<StoreDistance>, keep: Bound): (r: seq<StoreDistance>)
    ensures |r| <= |s|
  {
    if s == [] then []
    else Filter(s[..|s| - 1], keep) + (if keep.Admits(s[|s| - 1]) then [s[|s| - 1]] else [])
  }

  /** `d` is the k-th smallest distance (1-based) of `s`: fewer than k entries are closer
      than `d` and at least k are at most `d` away. */
  predicate IsKthSmallest(s: seq<StoreDistance>, k: int, d: int) {
    |Filter(s, Under(d))| < k <= |Filter(s, AtMost(d))|
  }

  predicate SortedByDistance(s: seq<StoreDistance>) {
    forall i, j :: 0 <= i < j < |s| ==> s[i].distance <= s[j].distance
  }

  /** How often an entry occurs in the filtered sequence. */
  lemma {:induction false} FilterMultiplicity(s: seq<StoreDistance>, keep: Bound, e: StoreDistance)
    ensures multiset(Filter(s, keep))[e] == if keep.Admits(e) then multiset(s)[e] else 0
  {
    if s != [] {
      var n := |s| - 1;
      FilterMultiplicity(s[..n], keep, e);
      assert s == s[..n] + [s[n]];
    }
  }

  /** An entry is kept exactly when it occurs in `s` and `keep` admits it. */
  lemma FilterMembership(s: seq<StoreDistance>, keep: Bound, e: StoreDistance)
    ensures e in Filter(s, keep) <==> e in s && keep.Admits(e)
  {
  }

  /** Filtering two permutations of each other gives permutations of each other. */
  lemma FilterPermutation(s: seq<StoreDistance>, t: seq<StoreDistance>, keep: Bound)
    requires multiset(s) == multiset(t)
    ensures multiset(Filter(s, keep)) == multiset(Filter(t, keep))
    ensures |Filter(s, keep)| == |Filter(t, keep)|
  {
    forall e ensures multiset(Filter(s, keep))[e] == multiset(Filter(t, keep))[e] {
      FilterMultiplicity(s, keep, e);
      FilterMultiplicity(t, keep, e);
    }
    assert multiset(Filter(s, keep)) == multiset(Filter(t, keep));
    assert |multiset(Filter(s, keep))| == |multiset(Filter(t, keep))|;
  }

  lemma {:induction false} FilterAppend(s: seq<StoreDistance>, t: seq<StoreDistance>, keep: Bound)
    ensures Filter(s + t, keep) == Filter(s, keep) + Filter(t, keep)
  {
    if t == [] {
      assert s + t == s;
    } else {
      var n := |t| - 1;
      FilterAppend(s, t[..n], keep);
      assert (s + t)[..|s + t| - 1] == s + t[..n];
    }
  }

  lemma {:induction false} FilterNone(s: seq<StoreDistance>, keep: Bound)
    requires forall i :: 0 <= i < |s| ==> !keep.Admits(s[i])
    ensures Filter(s, keep) == []
  {
    if s != [] {
      FilterNone(s[..|s| - 1], keep);
    }
  }

  lemma {:induction false} FilterAll(s: seq<StoreDistance>, keep: Bound)
    requires forall i :: 0 <= i < |s| ==> keep.Admits(s[i])
    ensures Filter(s, keep) == s
  {
    if s != [] {
      FilterAll(s[..|s| - 1], keep);
    }
  }

  /** A filter that keeps as many entries as there are admits every entry. */
  lemma {:induction false} FilterKeepsAll(s: seq<StoreDistance>, keep: Bound)
    requires |Filter(s, keep)| == |s|
    ensures forall i :: 0 <= i < |s| ==> keep.Admits(s[i])
  {
    if s != [] {
      var n := |s| - 1;
      assert |Filter(s, keep)| == |Filter(s[..n], keep)| + (if keep.Admits(s[n]) then 1 else 0);
      FilterKeepsAll(s[..n], keep);
      assert forall i :: 0 <= i < n ==> s[i] == s[..n][i];
    }
  }

  /** Rank is a property of the multiset of entries, not of their order. */
  lemma KthPermutation(s: seq<StoreDistance>, t: seq<StoreDistance>, k: int, d: int)
    requires multiset(s) == multiset(t)
    ensures IsKthSmallest(s, k, d) <==> IsKthSmallest(t, k, d)
  {
    FilterPermutation(s, t, Under(d));
    FilterPermutation(s, t, AtMost(d));
  }

  /** Everything at most `d1` away is strictly closer than any larger `d2`. */
  lemma {:induction false} CountMonotone(s: seq<StoreDistance>, d1: int, d2: int)
    requires d1 < d2
    ensures |Filter(s, AtMost(d1))| <= |Filter(s, Under(d2))|
  {
    if s != [] {
      CountMonotone(s[..|s| - 1], d1, d2);
    }
  }

  /** At most one distance is the k-th smallest. */
  lemma KthUnique(s: seq<StoreDistance>, k: int, d1: int, d2: int)
    requires IsKthSmallest(s, k, d1) && IsKthSmallest(s, k, d2)
    ensures d1 == d2
  {
    if d1 < d2 {
      CountMonotone(s, d1, d2);
    } else if d2 < d1 {
      CountMonotone(s, d2, d1);
    }
  }

  /** When no entry from index m on is admitted, at most m entries are. */
  lemma FilterBelowPrefix(t: seq<StoreDistance>, m: int, keep: Bound)
    requires 0 <= m <= |t|
    requires forall i :: m <= i < |t| ==> !keep.Admits(t[i])
    ensures |Filter(t, keep)| <= m
  {
  }

  /** When every entry before index m is admitted, at least m entries are. */
  lemma FilterCoversPrefix(t: seq<StoreDistance>, m: int, keep: Bound)
    requires 0 <= m <= |t|
    requires forall i :: 0 <= i < m ==> keep.Admits(t[i])
    ensures m <= |Filter(t, keep)|
  {
    assert t == t[..m] + t[m..];
    FilterAppend(t[..m], t[m..], keep);
    assert forall i :: 0 <= i < m ==> t[..m][i] == t[i];
    FilterAll(t[..m], keep);
  }

  /** Index k-1 of any ascending arrangement of the entries holds the k-th smallest distance. */
  lemma KthOfSorted(s: seq<StoreDistance>, t: seq<StoreDistance>, k: int)
    requires SortedByDistance(t) && multiset(s) == multiset(t)
    requires 1 <= k <= |t|
    ensures IsKthSmallest(s, k, t[k - 1].distance)
  {
    var d := t[k - 1].distance;
    assert forall i :: k - 1 <= i < |t| ==> !Under(d).Admits(t[i]);
    FilterBelowPrefix(t, k - 1, Under(d));
    assert forall i :: 0 <= i < k ==> AtMost(d).Admits(t[i]);
    FilterCoversPrefix(t, k, AtMost(d));
    KthPermutation(s, t, k, d);
  }

  /** The selection's answer agrees with sorting: whatever the k-th smallest distance is, it
      is the distance at index k-1 of the sorted entries. */
  lemma KthIsSortedIndex(s: seq<StoreDistance>, t: seq<StoreDistance>, k: int, d: int)
    requires IsKthSmallest(s, k, d)
    requires SortedByDistance(t) && multiset(s) == multiset(t)
    requires 1 <= k <= |t|
    ensures d == t[k - 1].distance
  {
    KthOfSorted(s, t, k);
    KthUnique(s, k, d, t[k - 1].distance);
  }

  /** Rank of a pivot: with every entry before index q closer than `s[q]` and every entry after
      it no closer, `s[q]`'s distance is the (q+1)-th smallest. */
  lemma PivotRank(lower: seq<StoreDistance>, pivot: StoreDistance, upper: seq<StoreDistance>)
    requires forall e :: e in lower ==> e.distance < pivot.distance
    requires forall e :: e in upper ==> pivot.distance <= e.distance
    ensures IsKthSmallest(lower + [pivot] + upper, |lower| + 1, pivot.distance)
  {
    var d := pivot.distance;
    var front := lower + [pivot];
    assert forall i :: 0 <= i < |lower| ==> Under(d).Admits(lower[i]);
    FilterAll(lower, Under(d));
    assert Filter(front, Under(d)) == lower;
    assert forall i :: 0 <= i < |upper| ==> !Under(d).Admits(upper[i]);
    FilterNone(upper, Under(d));
    FilterAppend(front, upper, Under(d));
    assert forall i :: 0 <= i < |front| ==> AtMost(d).Admits(front[i]);
    FilterAll(front, AtMost(d));
    FilterAppend(front, upper, AtMost(d));
  }

  /** Every entry of `lower` is at most as far as every entry of `upper`. */
  predicate NoFarther(lower: seq<StoreDistance>, upper: seq<StoreDistance>) {
    forall x, y {:trigger x in lower, y in upper} :: x in lower && y in upper ==> x.distance <= y.distance
  }

  /** A range split into a part no farther than the middle, the middle, and a part no closer
      than the middle: a rank inside the middle, at the distance of one of its entries, is
      the same rank shifted by the first part's length in the whole range. */
  lemma KthInMiddle(lower: seq<StoreDistance>, middle: seq<StoreDistance>, upper: seq<StoreDistance>,
                    j: int, e: StoreDistance)
    requires NoFarther(lower, middle) && NoFarther(middle, upper)
    requires e in middle && IsKthSmallest(middle, j, e.distance)
    ensures IsKthSmallest(lower + middle + upper, |lower| + j, e.distance)
  {
    var d := e.distance;
    assert forall i :: 0 <= i < |lower| ==> AtMost(d).Admits(lower[i]) by {
      forall i | 0 <= i < |lower| ensures lower[i].distance <= d {
        assert lower[i] in lower;
      }
    }
    FilterAll(lower, AtMost(d));
    assert forall i :: 0 <= i < |upper| ==> !Under(d).Admits(upper[i]) by {
      forall i | 0 <= i < |upper| ensures d <= upper[i].distance {
        assert upper[i] in upper;
      }
    }
    FilterNone(upper, Under(d));
    FilterAppend(lower + middle, upper, Under(d));
    FilterAppend(lower, middle, Under(d));
    FilterAppend(lower + middle, upper, AtMost(d));
    FilterAppend(lower, middle, AtMost(d));
  }

  /** The rescan keeps at least k entries around the k-th smallest distance, and every entry
      when k is the number of entries. */
  lemma WithinKthHasAll(s: seq<StoreDistance>, d: int)
    requires IsKthSmallest(s, |s|, d)
    ensures Filter(s, AtMost(d)) == s
  {
    FilterKeepsAll(s, AtMost(d));
    FilterAll(s, AtMost(d));
  }

  /** With the smallest rank the boundary is the least distance and the rescan is never empty. */
  lemma FirstSmallestIsNearest(s: seq<StoreDistance>, d: int)
    requires IsKthSmallest(s, 1, d)
    ensures Filter(s, AtMost(d)) != []
    ensures forall i :: 0 <= i < |s| ==> d <= s[i].distance
  {
    forall i | 0 <= i < |s| ensures d <= s[i].distance {
      FilterMembership(s, Under(d), s[i]);
    }
  }
}
