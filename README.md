# Order-statistic store queries

A model of the query logic of the order-statistic-queries program. For each query, the
program takes every store's distance from a query point and clamps the requested count k to
the number of stores. It then finds the k-th smallest distance with randomized quickselect
(`randSelect`, `randomPartition`, `swap`). Finally it lists every store at most that far away,
nearest first. When several stores tie at the boundary distance, the list holds more than k
of them.

The model is in four modules:

- `Records` (records.dfy) holds the program's data classes as datatypes. A distance is an
  integer key. `Result` carries the one failure the core can raise, the
  `IllegalArgumentException` that `Random.nextInt` throws on a bound of 0.
- `OrderStatistics` (order_statistics.dfy) says what "the k-th smallest distance" means. It
  counts entries: fewer than k are strictly closer, and at least k are at most that far away.
  It proves the facts the rest of the model relies on. The k-th smallest distance is unique,
  is a property of the multiset of entries, and is index k-1 of any sorted arrangement.
- `Selection` (selection.dfy) is quickselect on an array, reordered in place as the
  `ArrayList` is. `swap` and `randomPartition` are methods. `randSelect` is tail-recursive
  over `(left, right, k)`, so it is written as a loop over `(lo, hi, rank)` with the same
  branches. The random draw is a nondeterministic choice, so every property holds for every
  sequence of draws.
- `QueryEvaluation` (query_evaluation.dfy) is the per-query block of `main`: clamp, select,
  rescan and sort. The model has it twice:
  - as written, where a count of 0 or below reaches the selection (see Findings);
  - corrected, where such a count lists no store.

Two things follow from the code rather than from a plain reading of the algorithm:

- The rescan walks the list after the selection has reordered it. It still collects the same
  entries, because filtering commutes with permutation (`OrderStatistics.FilterPermutation`).
  Only the order of stores at equal distances can differ from the input order.
- An empty list never reaches the selection. `kthClosest` then stays unset, but the rescan
  loop has nothing to visit, so the answer is the empty list.

## Model

| member | source | states |
|---|---|---|
| Selection.Swap | order-statistic-queries/src/Main.java:161-165 | the entries at i and j are exchanged (i = j allowed), every other slot is unchanged, and the multiset of the array is kept |
| Selection.NextInt | order-statistic-queries/src/Main.java:147 | `nextInt(bound)` fails exactly when the bound is not positive, and otherwise draws some value in [0, bound) |
| Selection.RandomPartition | order-statistic-queries/src/Main.java:146-159 | fails exactly on an empty range; otherwise returns p in [left, right] holding the drawn pivot entry, with every entry of [left, p) strictly closer than it and every entry of (p, right] no closer; only the range is permuted |
| Selection.RandSelect | order-statistic-queries/src/Main.java:131-144 | only a[left..right] is permuted; for 1 <= k <= right-left+1 (or a one-entry range) it answers, and every answer is an entry of the original range at its k-th smallest distance (rank 1 for k <= 0) |
| Selection.PivotAnswers | order-statistic-queries/src/Main.java:136-138 | in a range partitioned around index q, the pivot is the answer for rank q-left+1 |
| Selection.NarrowBelow | order-statistic-queries/src/Main.java:139-140 | for k below the pivot's rank, searching [left, pivot-1] for the same k keeps the selection's invariant |
| Selection.NarrowAbove | order-statistic-queries/src/Main.java:141-142 | for k above the pivot's rank, searching [pivot+1, right] for k minus the pivot's rank keeps the selection's invariant |
| Selection.LastRound | order-statistic-queries/src/Main.java:132-133 | a one-entry remaining range answers the original query with its entry |
| Selection.EmptyRound | order-statistic-queries/src/Main.java:147 | an empty remaining range, where `nextInt(0)` throws, is reached only for k <= 0, on a range without exactly one entry |
| Selection.Answered | order-statistic-queries/src/Main.java:140-142 | an answer for the remaining range and rank is the answer for the original range and k |
| OrderStatistics.PivotRank | order-statistic-queries/src/Main.java:150-158 | with everything before the pivot strictly closer and everything after it no closer, the pivot's distance is the (position+1)-th smallest |
| OrderStatistics.KthInMiddle | order-statistic-queries/src/Main.java:139-142 | a rank inside a middle part that is bounded by a no-farther part and a no-closer part is that rank shifted by the first part's length in the whole |
| OrderStatistics.KthPermutation | order-statistic-queries/src/Main.java:131-165 | whether d is the k-th smallest distance depends only on the multiset of entries, so reordering in place does not change it |
| OrderStatistics.KthUnique | order-statistic-queries/src/Main.java:131-144 | at most one distance is the k-th smallest |
| OrderStatistics.KthIsSortedIndex | order-statistic-queries/src/Main.java:131-144 | the k-th smallest distance is the distance at index k-1 of any sorted arrangement of the entries |
| OrderStatistics.FilterMembership | order-statistic-queries/src/Main.java:54-58 | the rescan keeps an entry exactly when it occurs in the list and is at most the boundary away |
| OrderStatistics.FilterPermutation | order-statistic-queries/src/Main.java:53-58 | rescanning a permutation of the list collects a permutation of the same entries |
| OrderStatistics.WithinKthHasAll | order-statistic-queries/src/Main.java:42-58 | with k equal to the number of entries, the rescan collects every entry |
| OrderStatistics.FirstSmallestIsNearest | order-statistic-queries/src/Main.java:53-58 | the rank-1 boundary is the least distance, and the rescan around it is never empty |
| QueryEvaluation.ClampRank | order-statistic-queries/src/Main.java:42-45 | the clamped k is at most the number of distances and at most the request, and is one of the two |
| QueryEvaluation.RankAsWritten | order-statistic-queries/src/Main.java:42-50 | the rank the code answers for is at least 1, and is the clamped k whenever the request and the list are both at least 1 |
| QueryEvaluation.CollectWithin | order-statistic-queries/src/Main.java:53-58 | the rescan loop collects exactly the entries at most the boundary away, in list order |
| QueryEvaluation.SortByDistance | order-statistic-queries/src/Main.java:59-67 | the collected stores end up ascending by distance and are a permutation of those collected |
| QueryEvaluation.RescanAndSort | order-statistic-queries/src/Main.java:53-67 | the list is sorted and holds exactly the entries at most the boundary away |
| QueryEvaluation.EvaluateQueryAsWritten | order-statistic-queries/src/Main.java:42-67 | only permutes the distances; fails only for a clamped k <= 0 with two or more stores; a result is the answer for the rank the code uses, and empty for an empty list |
| QueryEvaluation.EvaluateQuery | order-statistic-queries/src/Main.java:42-67 | a count of 0 or below, or an empty list, lists no store; otherwise the result is the answer for the clamped k: sorted, and exactly the entries within the k-th smallest distance |
| QueryEvaluation.AnswerHasAtLeastK | order-statistic-queries/src/Main.java:53-58 | an answer for rank k lists at least k stores |
| QueryEvaluation.AnswerHasAll | order-statistic-queries/src/Main.java:42-58 | a count of n or more (clamped to n) lists every store |
| QueryEvaluation.AnswerIsNearest | order-statistic-queries/src/Main.java:53-58 | every listed store is an entry at most the boundary away, and every unlisted entry is farther than the boundary |
| QueryEvaluation.AnswerIsDetermined | order-statistic-queries/src/Main.java:146-147 | the answer does not depend on the pivot draws: two answers for the same entries and rank have the same boundary and list the same stores |
| QueryEvaluation.AnswerStartsNearest | order-statistic-queries/src/Main.java:59-67 | with at least one store and k >= 1, the list is non-empty and starts with a nearest store |
| QueryEvaluation.ZeroCountListsNearest | order-statistic-queries/src/Main.java:42-50 | with stores 1 and 2 away and a count of 0, an answer from the code as written is exactly the nearer store |

## Left out

- Haversine distance (Main.java:213-228, Store.java) is floating-point trigonometry. A distance is an integer key computed before the query block, so the comparator's recomputation at lines 63-65 is the stored key.
- The outer loop over queries and the distance lists it builds (Main.java:30-40) are left out, because they only call the Haversine computation.
- Reading the CSV files (Main.java:78-129) and printing (Main.java:69-74) are left out: they are file and console I/O.
- Store.java is not part of this model. Its `Store` duplicates the class in Main.java, and its distance method is floating point.
- `java.util.Random` is replaced by a nondeterministic choice in `Selection.NextInt`. Every property is proved for every possible draw; the distribution of draws is not modelled.
- `Collections.sort` is replaced by an insertion sort on an array. The comparator is modelled as comparing the stored distances.
- SortByDistance: does not state stability, which `Collections.sort` guarantees. The tie order it would keep is the post-selection list order, which depends on the draws anyway.
- Results are store-distance pairs rather than bare stores, so that the sort can use the key the comparator recomputes. The pair is also what each printed line shows.
- EvaluateQueryAsWritten: models the exception from `nextInt(0)` as an `Err` result for that query. In the program it ends the whole run, including the remaining queries.
- Java's 32-bit `int` is modelled as an unbounded integer. No index or count arithmetic in the core can come near the limit for a list that fits in memory.
- RandSelect: does not promise which of the possible outcomes a count of 0 or below produces. It may fail or answer with rank 1, depending on the draws.

## Findings

| source | as written | input that shows it | evidently intended | confidence | as-written member | corrected member |
|---|---|---|---|---|---|---|
| order-statistic-queries/src/Main.java:42-50 | k is only capped from above, so a requested count of 0 or below reaches `randSelect`. That call either lists the nearest store and every store tied with it, or throws from `nextInt(0)` when a pivot draw leaves an empty range | two stores 1 and 2 away and a count of 0: drawing the nearer store first throws, and drawing the farther one first lists the nearer store | a count of 0 or below lists no store | not executed | QueryEvaluation.EvaluateQueryAsWritten (with QueryEvaluation.ZeroCountListsNearest) | QueryEvaluation.EvaluateQuery |
