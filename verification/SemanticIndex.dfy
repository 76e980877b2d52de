/**
 `SemanticIndex` as the object it is: the methods that drive the Turbo
 protocol, and the two ways a search can be answered (the published index
 patched by the overlay, or the scalar scan over every vector).
 */
module SemanticIndexModel {
  import opened Collections
  import opened Ranking
  import opened TurboProtocol
  import opened Vectors

  ghost function Scores(rows: map<Id, Vec>, q: Vec): map<Id, real> {
    map id | id in rows :: Dot(q, rows[id])
  }

  /** What the Turbo arm ranks: indexable live vectors, plus any live vector the overlay rescores. */
  ghost function TurboVisible(s: State, builtAt: nat): map<Id, Vec> {
    map id | id in s.embeddings && id !in s.deleted && (Indexable(s.embeddings[id]) || Fresh(s.changed, builtAt, id))
      :: s.embeddings[id]
  }

  /** What the scalar scan ranks: every live vector of full dimension. */
  ghost function ScanVisible(s: State): map<Id, Vec> {
    map id | id in s.embeddings && id !in s.deleted && |s.embeddings[id]| == EMBED_DIM :: s.embeddings[id]
  }

  lemma ScoresOfOneMore(rows: map<Id, Vec>, id: Id, v: Vec, q: Vec)
    ensures Scores(rows[id := v], q) == Scores(rows, q)[id := Dot(q, v)]
  {
  }

  function Min(a: nat, b: nat): nat {
    if a < b then a else b
  }

  /** How many rows search asks the index for. */
  function Fetch(k: nat, changed: nat, rows: nat): nat {
    Min(k + changed, if rows == 0 then 1 else rows)
  }

  function WithoutId(hits: seq<Hit>, id: Id): (r: seq<Hit>)
    ensures forall h :: h in r <==> h in hits && h.id != id
    ensures (forall h :: h in hits ==> h.id != id) ==> r == hits
  {
    if hits == [] then []
    else
      assert forall h :: h in hits <==> h == hits[0] || h in hits[1..];
      (if hits[0].id == id then [] else [hits[0]]) + WithoutId(hits[1..], id)
  }

  lemma {:induction false} WithoutIdKeepsDistinct(hits: seq<Hit>, id: Id)
    requires DistinctIds(hits)
    ensures DistinctIds(WithoutId(hits, id))
  {
    if hits != [] {
      WithoutIdKeepsDistinct(hits[1..], id);
      var rest := WithoutId(hits[1..], id);
      forall j | 0 <= j < |rest| ensures rest[j].id != hits[0].id {
        assert rest[j] in rest;
      }
    }
  }

  // ---- keeping the rows that did not move ----------------------------------

  /** The hits whose vectors have not moved since the index was built. */
  function Unmoved(changed: map<Id, nat>, w: nat, hits: seq<Hit>): (r: seq<Hit>)
    ensures forall h :: h in r <==> h in hits && !Fresh(changed, w, h.id)
  {
    if hits == [] then []
    else
      var n := |hits| - 1;
      assert forall h :: h in hits <==> h in hits[..n] || h == hits[n];
      Unmoved(changed, w, hits[..n]) + (if Fresh(changed, w, hits[n].id) then [] else [hits[n]])
  }

  lemma {:induction false} UnmovedRanked(changed: map<Id, nat>, w: nat, hits: seq<Hit>)
    requires Ranked(hits)
    ensures Ranked(Unmoved(changed, w, hits))
  {
    if hits != [] {
      var n := |hits| - 1;
      UnmovedRanked(changed, w, hits[..n]);
      var r := Unmoved(changed, w, hits[..n]);
      forall i | 0 <= i < |r| ensures Before(r[i], hits[n]) {
        assert r[i] in hits[..n];
      }
    }
  }

  lemma LastIdIsNew(hits: seq<Hit>)
    requires DistinctIds(hits) && hits != []
    ensures var n := |hits| - 1;
            && DistinctIds(hits[..n]) && hits[n].id !in Ids(hits[..n])
            && Ids(hits) == Ids(hits[..n]) + {hits[n].id}
  {
    assert hits == hits[..|hits| - 1] + [hits[|hits| - 1]];
  }

  /** Each dropped hit uses up one changed id. */
  lemma {:induction false} UnmovedLosesFew(changed: map<Id, nat>, w: nat, hits: seq<Hit>) returns (dropped: set<Id>)
    requires DistinctIds(hits)
    ensures dropped <= changed.Keys && dropped <= Ids(hits)
    ensures |Unmoved(changed, w, hits)| + |dropped| == |hits|
  {
    hide DistinctIds;
    hide Ids;
    dropped := {};
    if hits != [] {
      var n := |hits| - 1;
      LastIdIsNew(hits);
      dropped := UnmovedLosesFew(changed, w, hits[..n]);
      if Fresh(changed, w, hits[n].id) {
        dropped := dropped + {hits[n].id};
      }
    }
  }

  /**
   Walk the index's answer best first, skipping rows that are deleted or moved,
   until k rows are kept.
   */
  method KeepUnmoved(deleted: set<Id>, changed: map<Id, nat>, w: nat, k: nat, res: seq<Hit>)
    returns (kept: seq<Hit>, n: nat)
    requires forall h :: h in res && h.id in deleted ==> Fresh(changed, w, h.id)
    ensures n <= |res| && kept == Unmoved(changed, w, res[..n])
    ensures n == |res| || |kept| >= k
    ensures |kept| <= if k == 0 then 1 else k
  {
    kept := [];
    n := 0;
    while n < |res|
      invariant n <= |res| && kept == Unmoved(changed, w, res[..n])
      invariant |kept| <= k && (|kept| == k ==> k == 0)
    {
      var h := res[n];
      assert h in res;
      assert res[..n + 1][..n] == res[..n];
      n := n + 1;
      if h.id in deleted || (h.id in changed && changed[h.id] > w) {
        continue;
      }
      kept := kept + [h];
      if |kept| >= k {
        break;
      }
    }
  }

  // ---- the merge of index hits and overlay ---------------------------------

  /** Each unmoved row of the index is kept, or at least k rows that outrank it are. */
  ghost predicate EnoughKept(s: State, p: Published, q: Vec, k: nat, kept: seq<Hit>) {
    && DistinctIds(kept)
    && Truthful(kept, Scores(p.rows, q))
    && (forall h :: h in kept ==> !Fresh(s.changed, p.builtAt, h.id))
    && |kept| <= (if k == 0 then 1 else k)
    && forall id :: id in p.rows && !Fresh(s.changed, p.builtAt, id) ==>
         Hit(id, Dot(q, p.rows[id])) in kept || Outranked(kept, k, Hit(id, Dot(q, p.rows[id])))
  }

  ghost predicate Outranked(kept: seq<Hit>, k: nat, h: Hit) {
    |kept| >= k && forall x :: x in kept ==> Before(x, h)
  }

  /**
   The over-fetch argument. An unmoved row missing from the answer means the
   answer was cut at k + |changed| rows, and at most |changed| of those moved.
   */
  lemma OverFetchSuffices(s: State, p: Published, q: Vec, k: nat, res: seq<Hit>, n: nat, h: Hit)
    requires IsTopK(res, Fetch(k, |s.changed|, |p.rows|), Scores(p.rows, q))
    requires n <= |res| && (n == |res| || |Unmoved(s.changed, p.builtAt, res[..n])| >= k)
    requires h.id in p.rows && h.score == Dot(q, p.rows[h.id]) && !Fresh(s.changed, p.builtAt, h.id)
    ensures h in Unmoved(s.changed, p.builtAt, res[..n]) || Outranked(Unmoved(s.changed, p.builtAt, res[..n]), k, h)
  {
    var kept := Unmoved(s.changed, p.builtAt, res[..n]);
    assert forall x :: x in kept ==> x in res[..n];
    if h in res {
      if h !in res[..n] {
        CutRanksLast(res, n, h);
      }
    } else {
      assert h.id in Scores(p.rows, q);
      assert |res| == Fetch(k, |s.changed|, |p.rows|) && forall x :: x in res ==> Before(x, h);
      assert forall x :: x in res[..n] ==> x in res;
      if n == |res| {
        RankedDistinct(res, Scores(p.rows, q));
        assert res[..n] == res;
        MissingRowMeansCut(p, q, res, h);
        var dropped := UnmovedLosesFew(s.changed, p.builtAt, res);
        SubsetCount(dropped, s.changed.Keys);
      }
    }
  }

  lemma MissingRowMeansCut(p: Published, q: Vec, res: seq<Hit>, h: Hit)
    requires Ranked(res) && Truthful(res, Scores(p.rows, q)) && h !in res
    requires h.id in p.rows && h.score == Dot(q, p.rows[h.id])
    ensures |res| < |p.rows|
  {
    RankedDistinct(res, Scores(p.rows, q));
    DistinctIdsCount(res);
    assert Ids(res) <= p.rows.Keys - {h.id} by {
      forall x | x in res ensures x.id in p.rows && x.id != h.id {
        assert x.id in Scores(p.rows, q);
      }
    }
    SubsetCount(Ids(res), p.rows.Keys - {h.id});
    assert |p.rows.Keys - {h.id}| == |p.rows.Keys| - 1;
  }

  lemma KeptIsEnough(s: State, p: Published, q: Vec, k: nat, res: seq<Hit>, n: nat)
    requires IsTopK(res, Fetch(k, |s.changed|, |p.rows|), Scores(p.rows, q))
    requires n <= |res| && (n == |res| || |Unmoved(s.changed, p.builtAt, res[..n])| >= k)
    requires |Unmoved(s.changed, p.builtAt, res[..n])| <= if k == 0 then 1 else k
    ensures EnoughKept(s, p, q, k, Unmoved(s.changed, p.builtAt, res[..n]))
  {
    var kept := Unmoved(s.changed, p.builtAt, res[..n]);
    assert forall x :: x in res[..n] ==> x in res;
    UnmovedRanked(s.changed, p.builtAt, res[..n]);
    RankedDistinct(kept, Scores(p.rows, q));
    forall id | id in p.rows && !Fresh(s.changed, p.builtAt, id)
      ensures Hit(id, Dot(q, p.rows[id])) in kept || Outranked(kept, k, Hit(id, Dot(q, p.rows[id])))
    {
      OverFetchSuffices(s, p, q, k, res, n, Hit(id, Dot(q, p.rows[id])));
    }
  }

  /** The kept rows together with the rescored overlay. */
  ghost predicate IsMerged(s: State, p: Published, q: Vec, kept: seq<Hit>, all: seq<Hit>) {
    && DistinctIds(all)
    && Truthful(all, Scores(TurboVisible(s, p.builtAt), q))
    && (forall h :: h in kept ==> h in all)
    && forall id :: Fresh(s.changed, p.builtAt, id) && id in s.embeddings && id !in s.deleted ==>
         Hit(id, Dot(q, s.embeddings[id])) in all
  }

  lemma KeptPrefixWins(k: nat, kept: seq<Hit>, sorted: seq<Hit>, h: Hit)
    requires DistinctIds(kept) && |kept| == k && Outranked(kept, k, h)
    requires Ranked(sorted) && DistinctIds(sorted) && forall x :: x in kept ==> x in sorted
    ensures k <= |sorted| && forall y :: y in sorted[..k] ==> Before(y, h)
  {
    DistinctIdsCount(kept);
    DistinctIdsCount(sorted);
    SubsetCount(Ids(kept), Ids(sorted));
    var final := sorted[..k];
    DistinctIdsCount(final);
    if x :| x in kept && x !in final {
      CutRanksLast(sorted, k, x);
    } else {
      assert Ids(kept) <= Ids(final);
      SubsetCount(Ids(kept), Ids(final));
      forall y | y in final ensures Before(y, h) {
        assert y.id in Ids(kept);
        var x :| x in kept && x.id == y.id;
        assert x in final && x == y;
      }
    }
  }

  /** Sorting the merged list and cutting it at k gives the exact top k. */
  lemma MergeIsExact(s: State, p: Published, q: Vec, k: nat, kept: seq<Hit>, all: seq<Hit>)
    requires Inv(s) && s.slot == Some(p)
    requires EnoughKept(s, p, q, k, kept) && IsMerged(s, p, q, kept, all)
    ensures var sorted := Sort(all);
            IsTopK(sorted[..Min(k, |sorted|)], k, Scores(TurboVisible(s, p.builtAt), q))
  {
    var sorted := Sort(all);
    SortRanks(all);
    var scores := Scores(TurboVisible(s, p.builtAt), q);
    RankedDistinct(sorted, scores);
    forall id | id in scores && Hit(id, scores[id]) !in sorted
      ensures k <= |sorted| && forall y :: y in sorted[..k] ==> Before(y, Hit(id, scores[id]))
    {
      if k > 0 {
        KeptPrefixWins(k, kept, sorted, Hit(id, scores[id]));
      }
    }
    CutIsTopK(sorted, k, scores);
  }

  // ---- the class -----------------------------------------------------------

  class SemanticIndex {
    var embeddings: map<Id, Vec>
    var deleted: set<Id>
    var mutations: nat
    var changed: map<Id, nat>
    var epoch: nat
    var slot: Option<Published>
    ghost var base: map<Id, Vec>
    ghost var pristine: bool
    ghost var plans: set<Plan>

    ghost function St(): State
      reads this
    {
      State(embeddings, deleted, mutations, changed, epoch, slot, base, pristine, plans)
    }

    constructor ()
      ensures St() == Initial() && Inv(St())
    {
      embeddings, deleted, mutations, changed, epoch, slot := map[], {}, 0, map[], 0, None;
      base, pristine, plans := map[], true, {};
    }

    method Remove(id: Id)
      modifies this
      ensures St() == AfterRemove(old(St()), id)
      ensures old(Inv(St())) ==> Inv(St())
    {
      ghost var s := St();
      mutations := mutations + 1;
      changed := changed[id := mutations];
      deleted := deleted + {id};
      embeddings := embeddings - {id};
      if Inv(s) { StepKeepsInv(s, Step.Remove(id)); }
    }

    method Upsert(id: Id, v: Vec)
      modifies this
      ensures St() == AfterUpsert(old(St()), id, v)
      ensures old(Inv(St())) ==> Inv(St())
    {
      ghost var s := St();
      mutations := mutations + 1;
      Remove(id);
      changed := changed[id := mutations];
      deleted := deleted - {id};
      embeddings := embeddings[id := v];
      if Inv(s) { StepKeepsInv(s, Step.Upsert(id, v)); }
    }

    /** Copy every live indexable vector under the read guard. */
    method PlanTurboRebuild() returns (plan: Plan)
      modifies this`plans
      ensures plan == BuildPlan(old(St())) && St() == AfterPlan(old(St()), plan)
      ensures old(Inv(St())) ==> Inv(St())
    {
      ghost var s := St();
      var todo := embeddings.Keys;
      var rows: map<Id, Vec> := map[];
      while todo != {}
        invariant todo <= embeddings.Keys
        invariant rows == map id | id in LiveRows(s) && id !in todo :: s.embeddings[id]
        decreases todo
      {
        var id :| id in todo;
        todo := todo - {id};
        if id !in deleted && Indexable(embeddings[id]) {
          rows := rows[id := embeddings[id]];
        }
      }
      assert rows == LiveRows(s);
      plan := Plan(rows, mutations, epoch, false);
      plans := plans + {plan};
      if Inv(s) { StepKeepsInv(s, PlanBuild); }
    }

    /** The watermark a startup cache may claim: one below the oldest recorded change. */
    method CacheWatermark() returns (w: nat)
      ensures IsCacheWatermark(changed, mutations, w)
    {
      if changed == map[] {
        return mutations;
      }
      var first :| first in changed;
      w := if changed[first] == 0 then 0 else changed[first] - 1;
      var todo := changed.Keys - {first};
      while todo != {}
        invariant todo <= changed.Keys
        invariant exists id :: id in changed && w == if changed[id] == 0 then 0 else changed[id] - 1
        invariant forall id :: id in changed && id !in todo ==> w <= if changed[id] == 0 then 0 else changed[id] - 1
        decreases todo
      {
        var id :| id in todo;
        todo := todo - {id};
        var candidate := if changed[id] == 0 then 0 else changed[id] - 1;
        if candidate < w {
          w := candidate;
        }
      }
    }

    /** Capture the startup cache's identity; its rows are those of the loaded snapshot. */
    method PlanStartupTurboCache(cacheRows: map<Id, Vec>) returns (plan: Plan)
      requires cacheRows == base
      modifies this`plans
      ensures IsCacheWatermark(changed, mutations, plan.mutation)
      ensures plan == CachePlan(old(St()), plan.mutation) && St() == AfterPlan(old(St()), plan)
      ensures old(Inv(St())) ==> (Inv(St()) <==> CacheIsSafe(old(St()), plan.mutation))
      ensures old(Inv(St())) && pristine ==> Inv(St())
    {
      ghost var s := St();
      var w := CacheWatermark();
      plan := Plan(cacheRows, w, epoch, true);
      plans := plans + {plan};
      if Inv(s) {
        PlanCacheKeepsInvIff(s, w);
        if pristine {
          CacheBeforePruneIsSafe(s, w);
        }
      }
    }

    /** Publish a finished build or cache load, unless the epoch moved or a newer index got there first. */
    method Publish(plan: Plan) returns (published: bool)
      modifies this`slot
      ensures St() == AfterPublish(old(St()), plan)
      ensures published <==>
                && (plan.cached || plan.rows != map[]) && plan.epoch == old(epoch)
                && (old(slot).None? || old(slot).value.builtAt <= plan.mutation)
      ensures slot == if published then Some(Published(plan.rows, plan.mutation)) else old(slot)
      ensures old(Inv(St())) && plan in plans ==> Inv(St())
    {
      ghost var s := St();
      published := (plan.cached || plan.rows != map[])
        && epoch == plan.epoch
        && (slot.None? || slot.value.builtAt <= plan.mutation);
      if published {
        slot := Some(Published(plan.rows, plan.mutation));
      }
      if Inv(s) && plan in plans { StepKeepsInv(s, Step.Publish(plan)); }
    }

    method InvalidateTurbo()
      modifies this`epoch, this`slot
      ensures St() == AfterInvalidate(old(St()))
      ensures old(Inv(St())) ==> Inv(St())
    {
      ghost var s := St();
      epoch := epoch + 1;
      slot := None;
      if Inv(s) { StepKeepsInv(s, Invalidate); }
    }

    method PruneTurboChanges()
      modifies this`changed, this`pristine
      ensures St() == AfterPrune(old(St()))
      ensures old(Inv(St())) ==> Inv(St())
    {
      ghost var s := St();
      if slot.Some? {
        changed := map id | id in changed && changed[id] > slot.value.builtAt :: changed[id];
        pristine := false;
      }
      if Inv(s) { StepKeepsInv(s, Prune); }
    }

    /** Rescore every id that moved after the index was built. */
    method Overlay(q: Vec, k: nat, kept: seq<Hit>) returns (hits: seq<Hit>)
      requires Inv(St()) && slot.Some? && EnoughKept(St(), slot.value, q, k, kept)
      ensures IsMerged(St(), slot.value, q, kept, hits)
    {
      var p := slot.value;
      ghost var visible := TurboVisible(St(), p.builtAt);
      hits := kept;
      forall h | h in kept ensures h.id in visible && Scores(visible, q)[h.id] == h.score {
        assert SameRow(LiveRows(St()), p.rows, h.id) || Fresh(changed, p.builtAt, h.id);
        assert h.id in LiveRows(St());
      }
      var todo := changed.Keys;
      while todo != {}
        invariant todo <= changed.Keys
        invariant DistinctIds(hits) && Truthful(hits, Scores(visible, q))
        invariant forall h :: h in kept ==> h in hits
        invariant forall h :: h in hits && h.id in todo ==> h in kept
        invariant forall id :: id !in todo && Fresh(changed, p.builtAt, id) && id in embeddings && id !in deleted ==>
                    Hit(id, Dot(q, embeddings[id])) in hits
        decreases todo
      {
        var id :| id in todo;
        todo := todo - {id};
        if changed[id] > p.builtAt {
          assert Fresh(changed, p.builtAt, id);
          WithoutIdKeepsDistinct(hits, id);
          hits := WithoutId(hits, id);
          if id !in deleted && id in embeddings {
            assert Scores(visible, q)[id] == Dot(q, embeddings[id]);
            hits := hits + [Hit(id, Dot(q, embeddings[id]))];
          }
        }
      }
    }

    /**
     The Turbo arm of `search`, given what the published index answers for the
     over-fetched row count. The result is the exact top k.
     */
    method SearchTurbo(q: Vec, k: nat, res: seq<Hit>) returns (hits: seq<Hit>)
      requires Inv(St()) && slot.Some?
      requires IsTopK(res, Fetch(k, |changed|, |slot.value.rows|), Scores(slot.value.rows, q))
      ensures IsTopK(hits, k, Scores(TurboVisible(St(), slot.value.builtAt), q))
      ensures forall i, j :: 0 <= i < j < |hits| ==>
                hits[i].score > hits[j].score || (hits[i].score == hits[j].score && hits[i].id < hits[j].id)
    {
      var p := slot.value;
      forall h | h in res && h.id in deleted ensures Fresh(changed, p.builtAt, h.id) {
        assert h.id in Scores(p.rows, q);
        assert SameRow(LiveRows(St()), p.rows, h.id) || Fresh(changed, p.builtAt, h.id);
      }
      var kept, n := KeepUnmoved(deleted, changed, p.builtAt, k, res);
      KeptIsEnough(St(), p, q, k, res, n);
      var all := Overlay(q, k, kept);
      MergeIsExact(St(), slot.value, q, k, kept, all);
      var sorted := Sort(all);
      hits := sorted[..Min(k, |sorted|)];
      TopKByScore(hits, k, Scores(TurboVisible(St(), p.builtAt), q));
    }

    /** The scalar arm: score every live full-dimension vector and keep the best k. */
    method FlatScan(q: Vec, k: nat) returns (hits: seq<Hit>)
      ensures IsTopK(hits, k, Scores(ScanVisible(St()), q))
      ensures forall i, j :: 0 <= i < j < |hits| ==>
                hits[i].score > hits[j].score || (hits[i].score == hits[j].score && hits[i].id < hits[j].id)
    {
      var todo := embeddings.Keys;
      hits := [];
      while todo != {}
        invariant todo <= embeddings.Keys
        invariant IsTopK(hits, k, Scores(ScanVisible(St()) - todo, q))
        decreases todo
      {
        var id :| id in todo;
        ghost var seen := ScanVisible(St()) - todo;
        todo := todo - {id};
        if id !in deleted && |embeddings[id]| == EMBED_DIM {
          var h := Hit(id, Dot(q, embeddings[id]));
          PushKeepsTopK(hits, k, Scores(seen, q), h);
          hits := PushTopK(hits, k, h);
          assert ScanVisible(St()) - todo == seen[id := embeddings[id]];
          ScoresOfOneMore(seen, id, embeddings[id], q);
        } else {
          assert ScanVisible(St()) - todo == seen;
        }
      }
      assert ScanVisible(St()) - todo == ScanVisible(St());
      TopKByScore(hits, k, Scores(ScanVisible(St()), q));
    }
  }

  // ---- removed memories ----------------------------------------------------

  /** After any run, neither arm of `search` returns a memory that was removed and not written since. */
  lemma RemovedIsNotFound(steps: seq<Step>, i: nat, id: Id, q: Vec, k: nat, hits: seq<Hit>, builtAt: nat)
    requires Legal(Initial(), steps) && i < |steps| && steps[i] == Remove(id)
    requires forall j :: i < j < |steps| ==> !Writes(steps[j], id)
    requires var s := Run(Initial(), steps);
             IsTopK(hits, k, Scores(TurboVisible(s, builtAt), q)) || IsTopK(hits, k, Scores(ScanVisible(s), q))
    ensures forall h :: h in hits ==> h.id != id
  {
    RemovedStaysAway(steps, i, id);
    var s := Run(Initial(), steps);
    assert id !in TurboVisible(s, builtAt) && id !in ScanVisible(s);
  }

  /** A memory written last, with a vector of full dimension, is among the hits or beaten by k of them. */
  lemma WrittenIsRanked(steps: seq<Step>, i: nat, id: Id, q: Vec, k: nat, hits: seq<Hit>)
    requires Legal(Initial(), steps) && LastWord(steps, i, id) && Writes(steps[i], id)
    requires |Written(steps[i], id)| == EMBED_DIM
    requires IsTopK(hits, k, Scores(ScanVisible(Run(Initial(), steps)), q))
    ensures var h := Hit(id, Dot(q, Written(steps[i], id)));
            h in hits || (|hits| == k && forall x :: x in hits ==> Before(x, h))
  {
    ContentsFollowHistory(steps, id);
    var s := Run(Initial(), steps);
    assert id in ScanVisible(s) && ScanVisible(s)[id] == Live(s)[id];
    assert id in Scores(ScanVisible(s), q);
  }

  // ---- when the stale index answers like a scan ----------------------------

  /** The two row sets agree: they rank alike for every k. */
  ghost predicate SameAnswers(a: map<Id, Vec>, b: map<Id, Vec>, q: Vec) {
    forall k: nat, x, y :: IsTopK(x, k, Scores(a, q)) && IsTopK(y, k, Scores(b, q)) ==> x == y
  }

  lemma SameAnswersMeansSameIds(a: map<Id, Vec>, b: map<Id, Vec>, q: Vec)
    requires SameAnswers(a, b, q)
    ensures a.Keys <= b.Keys
  {
    var x := FullRanking(Scores(a, q));
    var y := FullRanking(Scores(b, q));
    var k := |x| + |y|;
    assert IsTopK(x, k, Scores(a, q)) && IsTopK(y, k, Scores(b, q));
    forall id | id in a ensures id in b {
      assert Hit(id, Scores(a, q)[id]) in x;
      assert id in Scores(b, q);
    }
  }

  /** A live vector the overlay rescores although no index would hold it. */
  ghost predicate OverlayOnly(s: State, builtAt: nat, id: Id) {
    id in s.embeddings && id !in s.deleted && Fresh(s.changed, builtAt, id) && !Indexable(s.embeddings[id])
  }

  /** A live vector only one of the two arms ranks: moved and of wrong dimension, or unmoved and zero. */
  ghost predicate OneArmOnly(s: State, builtAt: nat, id: Id) {
    && id in s.embeddings && id !in s.deleted
    && if |s.embeddings[id]| == EMBED_DIM then !NonZero(s.embeddings[id]) && !Fresh(s.changed, builtAt, id)
       else Fresh(s.changed, builtAt, id)
  }

  lemma NoOverlayOnlyMeansSame(s: State, builtAt: nat)
    requires forall id :: !OverlayOnly(s, builtAt, id)
    ensures TurboVisible(s, builtAt) == LiveRows(s)
  {
    forall id: Id | id in s.embeddings && id !in s.deleted
      ensures Indexable(s.embeddings[id]) <==> Indexable(s.embeddings[id]) || Fresh(s.changed, builtAt, id)
    {
      assert !OverlayOnly(s, builtAt, id);
    }
  }

  /**
   The patched stale index answers every k like a brute-force ranking of the
   live indexable vectors exactly when no moved vector is zero or of wrong
   dimension: the overlay scores whatever it finds.
   */
  lemma TurboMatchesBruteForceIff(s: State, builtAt: nat, q: Vec)
    ensures SameAnswers(TurboVisible(s, builtAt), LiveRows(s), q) <==> forall id :: !OverlayOnly(s, builtAt, id)
  {
    var a, b := TurboVisible(s, builtAt), LiveRows(s);
    if forall id :: !OverlayOnly(s, builtAt, id) {
      NoOverlayOnlyMeansSame(s, builtAt);
      forall k: nat, x, y | IsTopK(x, k, Scores(a, q)) && IsTopK(y, k, Scores(b, q)) ensures x == y {
        TopKUnique(x, y, k, Scores(a, q));
      }
    } else {
      var id :| OverlayOnly(s, builtAt, id);
      assert id in a && id !in b;
      if SameAnswers(a, b, q) {
        SameAnswersMeansSameIds(a, b, q);
      }
    }
  }

  lemma NoOneArmMeansSame(s: State, builtAt: nat)
    requires forall id :: !OneArmOnly(s, builtAt, id)
    ensures TurboVisible(s, builtAt) == ScanVisible(s)
  {
    forall id: Id | id in s.embeddings && id !in s.deleted
      ensures |s.embeddings[id]| == EMBED_DIM <==> Indexable(s.embeddings[id]) || Fresh(s.changed, builtAt, id)
    {
      assert !OneArmOnly(s, builtAt, id);
    }
  }

  /** The two arms of `search` answer alike for every k exactly when no live vector belongs to only one of them. */
  lemma ArmsAgreeIff(s: State, builtAt: nat, q: Vec)
    ensures SameAnswers(TurboVisible(s, builtAt), ScanVisible(s), q) <==> forall id :: !OneArmOnly(s, builtAt, id)
  {
    var a, b := TurboVisible(s, builtAt), ScanVisible(s);
    if forall id :: !OneArmOnly(s, builtAt, id) {
      NoOneArmMeansSame(s, builtAt);
      forall k: nat, x, y | IsTopK(x, k, Scores(a, q)) && IsTopK(y, k, Scores(b, q)) ensures x == y {
        TopKUnique(x, y, k, Scores(a, q));
      }
    } else {
      var id :| OneArmOnly(s, builtAt, id);
      assert id in a <==> id !in b;
      if SameAnswers(a, b, q) {
        SameAnswersMeansSameIds(a, b, q);
        assert SameAnswers(b, a, q);
        SameAnswersMeansSameIds(b, a, q);
      }
    }
  }

  /** Whatever index is published, writing a vector that no index would hold puts it before the overlay alone. */
  lemma UnindexableIsOverlayOnly(s: State, id: Id, v: Vec)
    requires Inv(s) && s.slot.Some? && !Indexable(v)
    ensures OverlayOnly(AfterUpsert(s, id, v), s.slot.value.builtAt, id)
    ensures |v| != EMBED_DIM ==> OneArmOnly(AfterUpsert(s, id, v), s.slot.value.builtAt, id)
  {
  }

  lemma StepFirst(s: State, step: Step, rest: seq<Step>)
    requires Enabled(s, step)
    ensures Run(s, [step] + rest) == Run(Next(s, step), rest)
    ensures Legal(s, [step] + rest) <==> Legal(Next(s, step), rest)
  {
    assert ([step] + rest)[1..] == rest;
  }

  /** Such a run: an index is built and published, then a memory is written without its embedding. */
  lemma PendingEmbeddingIsOverlayOnly(v: Vec)
    requires Indexable(v)
    ensures var p := Plan(map[1 := v], 2, 0, false);
            var steps := [Upsert(1, v)] + ([PlanBuild] + ([Publish(p)] + ([Upsert(7, [])] + [])));
            var s := Run(Initial(), steps);
            && Legal(Initial(), steps)
            && s.slot == Some(Published(map[1 := v], 2))
            && OverlayOnly(s, 2, 7) && OneArmOnly(s, 2, 7)
  {
    var written := AfterUpsert(Initial(), 1, v);
    var p := Plan(map[1 := v], 2, 0, false);
    assert p == BuildPlan(written);
    var planned := AfterPlan(written, p);
    var published := AfterPublish(planned, p);
    var last := AfterUpsert(published, 7, []);
    assert Legal(last, []) && Run(last, []) == last;
    PublishedIsCovered(written, p);
    UnindexableIsOverlayOnly(published, 7, []);
    hide Run;
    hide Legal;
    StepFirst(Initial(), Upsert(1, v), [PlanBuild] + ([Publish(p)] + ([Upsert(7, [])] + [])));
    StepFirst(written, PlanBuild, [Publish(p)] + ([Upsert(7, [])] + []));
    StepFirst(planned, Publish(p), [Upsert(7, [])] + []);
    StepFirst(published, Upsert(7, []), []);
  }

  lemma PublishedIsCovered(s: State, p: Plan)
    requires p == BuildPlan(s) && Inv(s)
    ensures Inv(AfterPublish(AfterPlan(s, p), p))
  {
    PlanBuildKeepsInv(s);
    PublishKeepsInv(AfterPlan(s, p), p);
  }
}
