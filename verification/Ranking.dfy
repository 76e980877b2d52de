/**
 Ranked search hits: the order every search path sorts by (score descending,
 then memory id ascending), and what it means for a hit list to be *the* top k
 of a scored corpus. `TopKUnique` shows that this meaning leaves no freedom,
 so two searches that satisfy it return the same list.
 */
module Ranking {
  type Id = nat

  datatype Hit = Hit(id: Id, score: real)

  /** `a` ranks strictly ahead of `b`. */
  predicate Before(a: Hit, b: Hit) {
    a.score > b.score || (a.score == b.score && a.id < b.id)
  }

  ghost predicate Ranked(hits: seq<Hit>) {
    forall i, j :: 0 <= i < j < |hits| ==> Before(hits[i], hits[j])
  }

  ghost predicate DistinctIds(hits: seq<Hit>) {
    forall i, j :: 0 <= i < j < |hits| ==> hits[i].id != hits[j].id
  }

  /** Every hit carries its true score. */
  ghost predicate Truthful(hits: seq<Hit>, scores: map<Id, real>) {
    forall h :: h in hits ==> h.id in scores && scores[h.id] == h.score
  }

  /** `hits` is the ranked list of the `k` best entries of `scores` (all of them when there are fewer). */
  ghost predicate IsTopK(hits: seq<Hit>, k: nat, scores: map<Id, real>) {
    && |hits| <= k
    && Ranked(hits)
    && Truthful(hits, scores)
    && forall id :: id in scores ==>
         || Hit(id, scores[id]) in hits
         || (|hits| == k && forall h :: h in hits ==> Before(h, Hit(id, scores[id])))
  }

  /**
   What the top k is, score by score: the hits stand by falling score, equal
   scores by rising id, and what is missing scores less than every one of k
   hits, or as much under a larger id.
   */
  lemma TopKByScore(hits: seq<Hit>, k: nat, scores: map<Id, real>)
    requires IsTopK(hits, k, scores)
    ensures forall i, j :: 0 <= i < j < |hits| ==> hits[i].score >= hits[j].score
    ensures forall i, j :: 0 <= i < j < |hits| && hits[i].score == hits[j].score ==> hits[i].id < hits[j].id
    ensures forall id :: id in scores && Hit(id, scores[id]) !in hits ==> |hits| == k && forall h :: h in hits ==>
              h.score > scores[id] || (h.score == scores[id] && h.id < id)
  {
    forall i, j | 0 <= i < j < |hits|
      ensures hits[i].score >= hits[j].score && (hits[i].score == hits[j].score ==> hits[i].id < hits[j].id)
    {
      assert Before(hits[i], hits[j]);
    }
  }

  lemma RankedDistinct(hits: seq<Hit>, scores: map<Id, real>)
    requires Ranked(hits) && Truthful(hits, scores)
    ensures DistinctIds(hits)
  {
  }

  /** Whatever a ranked list loses when cut at n ranks behind everything it keeps. */
  lemma CutRanksLast(sorted: seq<Hit>, n: nat, h: Hit)
    requires Ranked(sorted) && n <= |sorted| && h in sorted && h !in sorted[..n]
    ensures n < |sorted| && forall y :: y in sorted[..n] ==> Before(y, h)
  {
  }

  /** Cutting a ranked list at k yields the top k, if whatever the list lacks ranks behind its first k. */
  lemma CutIsTopK(sorted: seq<Hit>, k: nat, scores: map<Id, real>)
    requires Ranked(sorted) && Truthful(sorted, scores)
    requires forall id :: id in scores ==>
               || Hit(id, scores[id]) in sorted
               || (k <= |sorted| && forall y :: y in sorted[..k] ==> Before(y, Hit(id, scores[id])))
    ensures IsTopK(sorted[..if k < |sorted| then k else |sorted|], k, scores)
  {
  }

  lemma TopKNoLater(a: seq<Hit>, b: seq<Hit>, k: nat, scores: map<Id, real>, i: nat)
    requires IsTopK(a, k, scores) && IsTopK(b, k, scores)
    requires i < |a| && i <= |b| && a[..i] == b[..i]
    ensures i < |b| && (b[i] == a[i] || Before(b[i], a[i]))
  {
  }

  lemma {:induction false} TopKAgreeUpTo(a: seq<Hit>, b: seq<Hit>, k: nat, scores: map<Id, real>, i: nat)
    requires IsTopK(a, k, scores) && IsTopK(b, k, scores)
    requires i <= |a|
    ensures i <= |b| && a[..i] == b[..i]
  {
    if i > 0 {
      TopKAgreeUpTo(a, b, k, scores, i - 1);
      TopKNoLater(a, b, k, scores, i - 1);
      TopKNoLater(b, a, k, scores, i - 1);
      assert a[..i] == a[..i - 1] + [a[i - 1]];
      assert b[..i] == b[..i - 1] + [b[i - 1]];
    }
  }

  /** The top k of a scored corpus is unique. */
  lemma TopKUnique(a: seq<Hit>, b: seq<Hit>, k: nat, scores: map<Id, real>)
    requires IsTopK(a, k, scores) && IsTopK(b, k, scores)
    ensures a == b
  {
    TopKAgreeUpTo(a, b, k, scores, |a|);
    TopKAgreeUpTo(b, a, k, scores, |b|);
    assert a[..|a|] == a && b[..|b|] == b;
  }

  // ---- sorting -------------------------------------------------------------

  function Insert(h: Hit, sorted: seq<Hit>): (r: seq<Hit>)
    ensures |r| == |sorted| + 1
    ensures forall x :: x in r <==> x == h || x in sorted
  {
    if sorted == [] || Before(h, sorted[0]) then [h] + sorted
    else
      var rest := Insert(h, sorted[1..]);
      assert forall x :: x in sorted <==> x == sorted[0] || x in sorted[1..];
      [sorted[0]] + rest
  }

  lemma {:induction false} InsertRanked(h: Hit, sorted: seq<Hit>)
    requires Ranked(sorted)
    requires forall x :: x in sorted ==> x.id != h.id
    ensures Ranked(Insert(h, sorted))
  {
    if sorted == [] {
    } else if Before(h, sorted[0]) {
      var r := Insert(h, sorted);
      assert r == [h] + sorted;
      forall j | 0 < j < |r| ensures Before(r[0], r[j]) {
        assert j > 1 ==> Before(sorted[0], sorted[j - 1]);
      }
    } else {
      InsertRanked(h, sorted[1..]);
      var rest := Insert(h, sorted[1..]);
      forall j | 0 <= j < |rest| ensures Before(sorted[0], rest[j]) {
        assert rest[j] in rest;
        assert sorted[0] in sorted;
      }
    }
  }

  /** `sort_unstable_by` on rank. */
  function Sort(hits: seq<Hit>): (r: seq<Hit>)
    ensures |r| == |hits|
    ensures forall x :: x in r <==> x in hits
  {
    if hits == [] then []
    else
      assert forall x :: x in hits <==> x == hits[0] || x in hits[1..];
      Insert(hits[0], Sort(hits[1..]))
  }

  lemma {:induction false} InsertCounts(h: Hit, sorted: seq<Hit>)
    ensures multiset(Insert(h, sorted)) == multiset(sorted) + multiset{h}
  {
    if sorted != [] && !Before(h, sorted[0]) {
      InsertCounts(h, sorted[1..]);
      assert sorted == [sorted[0]] + sorted[1..];
    }
  }

  lemma {:induction false} SortCounts(hits: seq<Hit>)
    ensures multiset(Sort(hits)) == multiset(hits)
  {
    if hits != [] {
      SortCounts(hits[1..]);
      InsertCounts(hits[0], Sort(hits[1..]));
      assert hits == [hits[0]] + hits[1..];
    }
  }

  /** No hit ranks strictly ahead of an earlier one; repeated hits are allowed. */
  ghost predicate Ordered(hits: seq<Hit>) {
    forall i, j :: 0 <= i < j < |hits| ==> !Before(hits[j], hits[i])
  }

  lemma {:induction false} InsertOrders(h: Hit, sorted: seq<Hit>)
    requires Ordered(sorted)
    ensures Ordered(Insert(h, sorted))
  {
    if sorted != [] && !Before(h, sorted[0]) {
      InsertOrders(h, sorted[1..]);
      var rest := Insert(h, sorted[1..]);
      forall j | 0 <= j < |rest| ensures !Before(rest[j], sorted[0]) {
        assert rest[j] in rest;
      }
    }
  }

  lemma {:induction false} SortOrders(hits: seq<Hit>)
    ensures Ordered(Sort(hits))
  {
    if hits != [] {
      SortOrders(hits[1..]);
      InsertOrders(hits[0], Sort(hits[1..]));
    }
  }

  /** Hits with distinct ids come out strictly ordered. */
  lemma {:induction false} SortRanks(hits: seq<Hit>)
    requires DistinctIds(hits)
    ensures Ranked(Sort(hits))
  {
    if hits != [] {
      SortRanks(hits[1..]);
      InsertRanked(hits[0], Sort(hits[1..]));
    }
  }

  /** `push_top_k`: the bounded heap, kept as its ranked contents so that its worst hit is the last. */
  function PushTopK(heap: seq<Hit>, k: nat, h: Hit): (r: seq<Hit>)
    ensures |heap| <= k ==> |r| <= k
  {
    if k == 0 then heap
    else if |heap| < k then Insert(h, heap)
    else if heap == [] then [h]
    else if Before(h, heap[|heap| - 1]) then Insert(h, heap[..|heap| - 1])
    else heap
  }

  lemma ReplaceWorst(heap: seq<Hit>, scores: map<Id, real>, h: Hit)
    requires heap != [] && IsTopK(heap, |heap|, scores) && h.id !in scores
    requires Before(h, heap[|heap| - 1])
    ensures IsTopK(Insert(h, heap[..|heap| - 1]), |heap|, scores[h.id := h.score])
  {
    hide Insert;
    var n := |heap| - 1;
    var worst := heap[n];
    assert heap == heap[..n] + [worst];
    assert forall x :: x in heap[..n] ==> x in heap && x.id in scores && Before(x, worst);
    InsertRanked(h, heap[..n]);
    var r := Insert(h, heap[..n]);
    forall id | id in scores
      ensures Hit(id, scores[id]) in r || forall y :: y in r ==> Before(y, Hit(id, scores[id]))
    {
      assert worst in heap;
    }
  }

  /** A heap with room takes one more scored id. */
  lemma Grow(heap: seq<Hit>, k: nat, scores: map<Id, real>, h: Hit)
    requires IsTopK(heap, k, scores) && h.id !in scores && |heap| < k
    ensures IsTopK(Insert(h, heap), k, scores[h.id := h.score])
  {
    hide Insert;
    assert forall x :: x in heap ==> x.id in scores;
    InsertRanked(h, heap);
  }

  lemma KeepWorst(heap: seq<Hit>, scores: map<Id, real>, h: Hit)
    requires heap != [] && IsTopK(heap, |heap|, scores) && h.id !in scores
    requires !Before(h, heap[|heap| - 1])
    ensures IsTopK(heap, |heap|, scores[h.id := h.score])
  {
  }

  /** Offering one more scored id keeps the heap the exact top k of what was offered. */
  lemma PushKeepsTopK(heap: seq<Hit>, k: nat, scores: map<Id, real>, h: Hit)
    requires IsTopK(heap, k, scores) && h.id !in scores
    ensures IsTopK(PushTopK(heap, k, h), k, scores[h.id := h.score])
  {
    if k == 0 {
    } else if |heap| < k {
      Grow(heap, k, scores, h);
    } else if Before(h, heap[k - 1]) {
      ReplaceWorst(heap, scores, h);
    } else {
      KeepWorst(heap, scores, h);
    }
  }

  /** Every scored corpus has a complete ranking. */
  lemma {:induction false} FullRanking(scores: map<Id, real>) returns (hits: seq<Hit>)
    ensures IsTopK(hits, |hits|, scores)
    ensures forall id :: id in scores ==> Hit(id, scores[id]) in hits
    decreases |scores|
  {
    if scores == map[] {
      hits := [];
    } else {
      var id :| id in scores;
      var smaller := scores - {id};
      assert scores.Keys == smaller.Keys + {id};
      var rest := FullRanking(smaller);
      InsertRanked(Hit(id, scores[id]), rest);
      hits := Insert(Hit(id, scores[id]), rest);
    }
  }

  // ---- counting ------------------------------------------------------------

  ghost function Ids(hits: seq<Hit>): (r: set<Id>) {
    set h | h in hits :: h.id
  }

  lemma {:induction false} DistinctIdsCount(hits: seq<Hit>)
    requires DistinctIds(hits)
    ensures |Ids(hits)| == |hits|
  {
    if hits != [] {
      var n := |hits| - 1;
      DistinctIdsCount(hits[..n]);
      assert hits == hits[..n] + [hits[n]];
      assert Ids(hits) == Ids(hits[..n]) + {hits[n].id};
    }
  }
}
