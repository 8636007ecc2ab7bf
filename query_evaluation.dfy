/** The per-query block of Main.java's main loop: clamp the requested count to the number of
    store distances, select the k-th smallest distance, rescan the list for every store at
    most that far away, and sort those stores nearest first. Distances are computed before
    the block (their Haversine computation is not part of this model), so the block works on
    an array of store distances, which the selection reorders in place. */
module QueryEvaluation {
  import opened Records
  import opened OrderStatistics
  import opened Selection

  /** What a query's result list must be for the entries and a rank k: sorted nearest first,
      and exactly the entries at most `boundary` away, where `boundary` is the k-th smallest
      distance (any boundary will do for no entries, which give an empty list). */
  ghost predicate QueryAnswer(entries: seq<StoreDistance>, k: int, boundary: int, result: seq<StoreDistance>) {
    && (entries != [] ==> IsKthSmallest(entries, k, boundary))
    && SortedByDistance(result)
    && multiset(result) == multiset(Filter(entries, AtMost(boundary)))
  }

  /** The requested count capped at the number of distances `n`. There is no lower cap: a
      count of zero or below stays as it is. */
  function ClampRank(numStores: int, n: int): (k: int)
    ensures k <= n && k <= numStores
    ensures k == numStores || k == n
  {
    if numStores > n then n else numStores
  }

  /** The rank the code as written answers for, when it answers: the clamped count, or the
      least distance's rank 1 when the clamped count is zero or below. */
  function RankAsWritten(numStores: int, n: int): (k: int)
    ensures 1 <= k
    ensures 1 <= numStores && 1 <= n ==> k == ClampRank(numStores, n)
  {
    var clamped := ClampRank(numStores, n);
    if clamped < 1 then 1 else clamped
  }

  /** The rescan: every entry at most `bound` away, in the array's current order. */
  method CollectWithin(a: array<StoreDistance>, bound: int) returns (close: seq<StoreDistance>)
    ensures close == Filter(a[..], AtMost(bound))
  {
    close := [];
    for i := 0 to a.Length
      invariant close == Filter(a[..i], AtMost(bound))
    {
      assert a[..i + 1][..i] == a[..i];
      if a[i].distance <= bound {
        close := close + [a[i]];
      }
    }
    assert a[..a.Length] == a[..];
  }

  /** Sorts the array nearest first, in place (an insertion sort that moves an entry only
      past strictly farther ones). */
  method SortByDistance(a: array<StoreDistance>)
    modifies a
    ensures SortedByDistance(a[..])
    ensures multiset(a[..]) == multiset(old(a[..]))
  {
    for i := 0 to a.Length
      invariant SortedByDistance(a[..i])
      invariant multiset(a[..]) == multiset(old(a[..]))
    {
      var j := i;
      while 0 < j && a[j].distance < a[j - 1].distance
        invariant 0 <= j <= i
        invariant forall p, q :: 0 <= p < q <= i && p != j && q != j ==> a[p].distance <= a[q].distance
        invariant forall q :: j < q <= i ==> a[j].distance < a[q].distance
        invariant multiset(a[..]) == multiset(old(a[..]))
      {
        Swap(a, j - 1, j);
        j := j - 1;
      }
    }
  }

  /** The rescan of the selected boundary followed by the sort. */
  method RescanAndSort(a: array<StoreDistance>, boundary: int) returns (result: seq<StoreDistance>)
    ensures SortedByDistance(result)
    ensures multiset(result) == multiset(Filter(a[..], AtMost(boundary)))
  {
    var close := CollectWithin(a, boundary);
    var buffer := new StoreDistance[|close|](i requires 0 <= i < |close| => close[i]);
    assert buffer[..] == close;
    SortByDistance(buffer);
    result := buffer[..];
  }

  /** The query block as Main.java writes it. The clamped count is passed to the selection
      whatever its sign, so a count of zero or below selects the least distance when the
      selection gets to a one-entry range and fails (as `nextInt(0)` throws) when it gets to
      an empty one. An empty list selects nothing and gives an empty result. */
  method EvaluateQueryAsWritten(numStores: int, distances: array<StoreDistance>)
      returns (r: Result<seq<StoreDistance>>, boundary: int)
    modifies distances
    ensures PermutedWithin(old(distances[..]), distances[..], 0, distances.Length)
    ensures r.Err? ==> ClampRank(numStores, distances.Length) < 1 && 2 <= distances.Length
    ensures r.Ok? ==> QueryAnswer(old(distances[..]), RankAsWritten(numStores, distances.Length), boundary, r.value)
  {
    ghost var entries := distances[..];
    var k := ClampRank(numStores, distances.Length);
    boundary := 0;
    if distances.Length != 0 {
      var kthClosest := RandSelect(distances, 0, distances.Length - 1, k);
      assert old(distances[0..distances.Length]) == entries;
      if kthClosest.Err? {
        return Err(kthClosest.error), boundary;
      }
      boundary := kthClosest.value.distance;
    }
    var result := RescanAndSort(distances, boundary);
    FilterPermutation(distances[..], entries, AtMost(boundary));
    r := Ok(result);
  }

  /** The query block with the count floored at zero: a count of zero or below, like an empty
      list, gives an empty result, and otherwise the selection always succeeds. */
  method EvaluateQuery(numStores: int, distances: array<StoreDistance>)
      returns (result: seq<StoreDistance>, boundary: int)
    modifies distances
    ensures PermutedWithin(old(distances[..]), distances[..], 0, distances.Length)
    ensures ClampRank(numStores, distances.Length) < 1 ==> result == []
    ensures 1 <= ClampRank(numStores, distances.Length) ==>
              QueryAnswer(old(distances[..]), ClampRank(numStores, distances.Length), boundary, result)
  {
    ghost var entries := distances[..];
    var k := ClampRank(numStores, distances.Length);
    boundary := 0;
    if k < 1 {
      return [], boundary;
    }
    var kthClosest := RandSelect(distances, 0, distances.Length - 1, k);
    assert old(distances[0..distances.Length]) == entries;
    boundary := kthClosest.value.distance;
    result := RescanAndSort(distances, boundary);
    FilterPermutation(distances[..], entries, AtMost(boundary));
  }

  /** A query for k stores, 1 <= k <= n, lists at least k of them (more when several are at
      the boundary distance). */
  lemma AnswerHasAtLeastK(entries: seq<StoreDistance>, k: int, boundary: int, result: seq<StoreDistance>)
    requires QueryAnswer(entries, k, boundary, result) && entries != []
    ensures k <= |result|
  {
    assert |multiset(result)| == |multiset(Filter(entries, AtMost(boundary)))|;
  }

  /** A query for all n stores (any count of n or more is clamped to n) lists every store. */
  lemma AnswerHasAll(entries: seq<StoreDistance>, boundary: int, result: seq<StoreDistance>)
    requires QueryAnswer(entries, |entries|, boundary, result)
    ensures multiset(result) == multiset(entries)
  {
    if entries != [] {
      WithinKthHasAll(entries, boundary);
    }
  }

  /** Every listed store is one of the entries, and no listed store is farther than an
      unlisted one. */
  lemma AnswerIsNearest(entries: seq<StoreDistance>, k: int, boundary: int, result: seq<StoreDistance>)
    requires QueryAnswer(entries, k, boundary, result)
    ensures forall e :: e in result ==> e in entries && e.distance <= boundary
    ensures forall e :: e in entries && e !in result ==> boundary < e.distance
  {
    forall e | e in result ensures e in entries && e.distance <= boundary {
      assert e in multiset(Filter(entries, AtMost(boundary)));
      FilterMembership(entries, AtMost(boundary), e);
    }
    forall e | e in entries && e !in result ensures boundary < e.distance {
      FilterMembership(entries, AtMost(boundary), e);
      assert e !in multiset(Filter(entries, AtMost(boundary)));
    }
  }

  /** The answer does not depend on the pivot draws: any two answers for the same entries and
      rank have the same boundary and list the same stores (they can differ only in the order
      of stores at equal distances). */
  lemma AnswerIsDetermined(entries: seq<StoreDistance>, k: int, b1: int, r1: seq<StoreDistance>,
                           b2: int, r2: seq<StoreDistance>)
    requires QueryAnswer(entries, k, b1, r1) && QueryAnswer(entries, k, b2, r2)
    ensures multiset(r1) == multiset(r2)
    ensures entries != [] ==> b1 == b2
  {
    if entries != [] {
      KthUnique(entries, k, b1, b2);
    } else {
      assert Filter(entries, AtMost(b1)) == [] == Filter(entries, AtMost(b2));
    }
  }

  /** With at least one entry and a rank of at least 1, the list is never empty and starts
      with a nearest store. */
  lemma AnswerStartsNearest(entries: seq<StoreDistance>, k: int, boundary: int, result: seq<StoreDistance>)
    requires QueryAnswer(entries, k, boundary, result) && entries != [] && 1 <= k
    ensures result != []
    ensures forall e :: e in entries ==> result[0].distance <= e.distance
  {
    AnswerHasAtLeastK(entries, k, boundary, result);
    AnswerIsNearest(entries, k, boundary, result);
    forall e | e in entries ensures result[0].distance <= e.distance {
      if e in result {
        var i :| 0 <= i < |result| && result[i] == e;
        assert i == 0 || result[0].distance <= result[i].distance;
      } else {
        assert result[0] in result;
      }
    }
  }

  /** The discrepancy on two stores, 1 and 2 away, and a count of 0: when the code as
      written answers at all, it lists exactly the nearer store, where a count of 0 asks for
      no store. */
  lemma ZeroCountListsNearest(near: StoreDistance, far: StoreDistance, boundary: int, result: seq<StoreDistance>)
    requires near.distance == 1 && far.distance == 2
    requires QueryAnswer([near, far], RankAsWritten(0, 2), boundary, result)
    ensures result == [near]
  {
    var entries := [near, far];
    assert entries[..1] == [near] && [near][..0] == [];
    assert boundary == 1 by {
      assert Filter(entries, AtMost(boundary)) != [];
      assert Filter(entries, Under(boundary)) == [];
    }
    assert Filter(entries, AtMost(boundary)) == [near];
    assert |result| == |multiset(result)| == 1;
    assert result[0] in multiset(result);
  }
}
