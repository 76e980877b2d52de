/**
 The Turbo index publication protocol of `SemanticIndex` (src/hnsw.rs).

 An immutable search index over a snapshot of the vectors is built without
 holding the store lock and published later; meanwhile vectors go on changing.
 `changed` remembers the mutation at which each vector last moved, and search
 rescores exactly those ids that moved after the published snapshot was taken.

 The protocol is a state machine over values. Three fields are history that
 the code does not store: `base` (the rows of the startup cache), `pristine`
 (nothing has been pruned since those rows were loaded) and `plans` (every
 build or cache load ever handed out).
 */
module TurboProtocol {
  import opened Collections
  import opened Ranking
  import opened Vectors

  const EMBED_DIM: nat := 1024

  /** `normalize` succeeds: the norm is at least 1e-9. */
  predicate NonZero(v: Vec) {
    Dot(v, v) >= 0.000000000000000001
  }

  /** The vectors a build copies into its index. */
  predicate Indexable(v: Vec) {
    |v| == EMBED_DIM && NonZero(v)
  }

  datatype Published = Published(rows: map<Id, Vec>, builtAt: nat)

  datatype Plan = Plan(rows: map<Id, Vec>, mutation: nat, epoch: nat, cached: bool)

  datatype State = State(
    embeddings: map<Id, Vec>,
    deleted: set<Id>,
    mutations: nat,
    changed: map<Id, nat>,
    epoch: nat,
    slot: Option<Published>,
    base: map<Id, Vec>,
    pristine: bool,
    plans: set<Plan>)

  datatype Step =
    | Upsert(id: Id, v: Vec)
    | Remove(id: Id)
    | TrimDeleted(kept: set<Id>)
    | PlanBuild
    | PlanCache(watermark: nat)
    | Publish(plan: Plan)
    | Invalidate
    | Prune
    | Load(loaded: map<Id, Vec>)

  /** The live vectors an index may hold. */
  function Rows(embeddings: map<Id, Vec>, deleted: set<Id>): map<Id, Vec> {
    map id | id in embeddings && id !in deleted && Indexable(embeddings[id]) :: embeddings[id]
  }

  function LiveRows(s: State): map<Id, Vec> {
    Rows(s.embeddings, s.deleted)
  }

  // ---- the steps -----------------------------------------------------------

  function AfterRemove(s: State, id: Id): State {
    s.(mutations := s.mutations + 1,
       changed := s.changed[id := s.mutations + 1],
       deleted := s.deleted + {id},
       embeddings := s.embeddings - {id})
  }

  /** An upsert bumps the counter, removes the id, then stamps and stores it. */
  function AfterUpsert(s: State, id: Id, v: Vec): State {
    var r := AfterRemove(s.(mutations := s.mutations + 1), id);
    r.(changed := r.changed[id := r.mutations],
       deleted := r.deleted - {id},
       embeddings := r.embeddings[id := v])
  }

  function AfterPlan(s: State, p: Plan): State {
    s.(plans := s.plans + {p})
  }

  function BuildPlan(s: State): Plan {
    Plan(LiveRows(s), s.mutations, s.epoch, false)
  }

  function CachePlan(s: State, watermark: nat): Plan {
    Plan(s.base, watermark, s.epoch, true)
  }

  /** One below the oldest recorded change, or the current counter when nothing changed. */
  ghost predicate IsCacheWatermark(changed: map<Id, nat>, mutations: nat, w: nat) {
    if changed == map[] then w == mutations
    else
      && (exists id :: id in changed && w == if changed[id] == 0 then 0 else changed[id] - 1)
      && (forall id :: id in changed ==> w <= if changed[id] == 0 then 0 else changed[id] - 1)
  }

  predicate CanPublish(s: State, p: Plan) {
    && (p.cached || p.rows != map[])
    && p.epoch == s.epoch
    && (s.slot.None? || s.slot.value.builtAt <= p.mutation)
  }

  function AfterPublish(s: State, p: Plan): State {
    if CanPublish(s, p) then s.(slot := Some(Published(p.rows, p.mutation))) else s
  }

  function AfterInvalidate(s: State): State {
    s.(epoch := s.epoch + 1, slot := None)
  }

  function AfterPrune(s: State): State {
    if s.slot.None? then s
    else s.(changed := map id | id in s.changed && s.changed[id] > s.slot.value.builtAt :: s.changed[id],
            pristine := false)
  }

  /** Replacing the vectors from the snapshot sidecar forgets every change. */
  function AfterLoad(s: State, loaded: map<Id, Vec>): State {
    AfterInvalidate(s).(embeddings := loaded, changed := map[], base := Rows(loaded, s.deleted), pristine := true)
  }

  /** The cache is outdated anyway, or every row it has wrong is still recorded as changed. */
  ghost predicate CacheIsSafe(s: State, w: nat) {
    || (s.slot.Some? && s.slot.value.builtAt > w)
    || forall id: Id :: SameRow(LiveRows(s), s.base, id) || id in s.changed
  }

  ghost predicate Enabled(s: State, step: Step) {
    match step
    case TrimDeleted(kept) => kept <= s.deleted
    case PlanCache(w) => IsCacheWatermark(s.changed, s.mutations, w) && (s.pristine || CacheIsSafe(s, w))
    case Publish(p) => p in s.plans
    case Load(loaded) => loaded.Keys !! s.deleted
    case _ => true
  }

  function Next(s: State, step: Step): State {
    match step
    case Upsert(id, v) => AfterUpsert(s, id, v)
    case Remove(id) => AfterRemove(s, id)
    case TrimDeleted(kept) => s.(mutations := s.mutations + 1, deleted := kept)
    case PlanBuild => AfterPlan(s, BuildPlan(s))
    case PlanCache(w) => AfterPlan(s, CachePlan(s, w))
    case Publish(p) => AfterPublish(s, p)
    case Invalidate => AfterInvalidate(s)
    case Prune => AfterPrune(s)
    case Load(loaded) => AfterLoad(s, loaded)
  }

  function Initial(): State {
    State(map[], {}, 0, map[], 0, None, map[], true, {})
  }

  function Run(s: State, steps: seq<Step>): State
    decreases |steps|
  {
    if steps == [] then s else Run(Next(s, steps[0]), steps[1..])
  }

  /** Every step of the run is allowed where it is taken. */
  ghost predicate Legal(s: State, steps: seq<Step>)
    decreases |steps|
  {
    steps == [] || (Enabled(s, steps[0]) && Legal(Next(s, steps[0]), steps[1..]))
  }

  // ---- the invariant -------------------------------------------------------

  /** The overlay rescores `id` for an index built at `w`. */
  predicate Fresh(changed: map<Id, nat>, w: nat, id: Id) {
    id in changed && changed[id] > w
  }

  predicate SameRow(a: map<Id, Vec>, b: map<Id, Vec>, id: Id) {
    (id in a <==> id in b) && (id in a ==> a[id] == b[id])
  }

  /** Every row on which `rows` and the live vectors disagree is rescored. */
  ghost predicate Covered(s: State, rows: map<Id, Vec>, w: nat) {
    forall id: Id :: SameRow(LiveRows(s), rows, id) || Fresh(s.changed, w, id)
  }

  /** The plan could still be published. */
  predicate Viable(s: State, p: Plan) {
    p.epoch == s.epoch && (s.slot.None? || s.slot.value.builtAt <= p.mutation)
  }

  ghost predicate Inv(s: State) {
    && s.embeddings.Keys !! s.deleted
    && (forall id :: id in s.changed ==> 0 < s.changed[id] <= s.mutations)
    && (s.slot.Some? ==> s.slot.value.builtAt <= s.mutations && Covered(s, s.slot.value.rows, s.slot.value.builtAt))
    && (forall p :: p in s.plans ==> p.mutation <= s.mutations && p.epoch <= s.epoch)
    && (forall p :: p in s.plans && Viable(s, p) ==> Covered(s, p.rows, p.mutation))
    && (s.pristine ==> Covered(s, s.base, 0))
  }

  /** Touching one id, and stamping it with a mutation later than any seen, keeps every coverage claim. */
  lemma CoverageSurvivesTouch(s: State, t: State, touched: Id, rows: map<Id, Vec>, w: nat)
    requires Covered(s, rows, w) && w <= s.mutations
    requires touched in t.changed && t.changed[touched] > s.mutations
    requires forall id :: id != touched ==>
             SameRow(LiveRows(s), LiveRows(t), id) && (Fresh(s.changed, w, id) ==> Fresh(t.changed, w, id))
    ensures Covered(t, rows, w)
  {
  }

  lemma TouchKeepsInv(s: State, t: State, touched: Id)
    requires Inv(s)
    requires t.mutations > s.mutations && t.epoch == s.epoch && t.slot == s.slot && t.plans == s.plans
    requires t.base == s.base && t.pristine == s.pristine
    requires t.changed == s.changed[touched := t.mutations]
    requires t.embeddings.Keys !! t.deleted
    requires forall id :: id != touched ==> SameRow(LiveRows(s), LiveRows(t), id)
    ensures Inv(t)
  {
    if s.slot.Some? {
      CoverageSurvivesTouch(s, t, touched, s.slot.value.rows, s.slot.value.builtAt);
    }
    forall p | p in t.plans && Viable(t, p) ensures Covered(t, p.rows, p.mutation) {
      assert Viable(s, p);
      CoverageSurvivesTouch(s, t, touched, p.rows, p.mutation);
    }
    if s.pristine {
      CoverageSurvivesTouch(s, t, touched, s.base, 0);
    }
  }

  lemma CoverageSame(s: State, t: State, rows: map<Id, Vec>, w: nat)
    requires Covered(s, rows, w)
    requires LiveRows(s) == LiveRows(t) && s.changed == t.changed
    ensures Covered(t, rows, w)
  {
  }

  /** Pruning below the published watermark loses no entry that a viable claim needs. */
  lemma PruneKeepsInv(s: State)
    requires Inv(s)
    ensures Inv(AfterPrune(s))
  {
    if s.slot.Some? {
      var t := AfterPrune(s);
      var at := s.slot.value.builtAt;
      forall rows, w | w >= at && Covered(s, rows, w) ensures Covered(t, rows, w) {
        forall id: Id ensures SameRow(LiveRows(t), rows, id) || Fresh(t.changed, w, id) {
          assert SameRow(LiveRows(s), rows, id) || Fresh(s.changed, w, id);
        }
      }
      assert forall p :: p in t.plans && Viable(t, p) ==> Viable(s, p);
    }
  }

  /** A startup cache may be planned, at any time, exactly when it is safe. */
  lemma PlanCacheKeepsInvIff(s: State, w: nat)
    requires Inv(s) && IsCacheWatermark(s.changed, s.mutations, w)
    ensures Inv(AfterPlan(s, CachePlan(s, w))) <==> CacheIsSafe(s, w)
  {
    var p := CachePlan(s, w);
    var t := AfterPlan(s, p);
    assert w <= s.mutations by {
      if s.changed != map[] {
        var id :| id in s.changed;
      }
    }
    forall rows, w' | Covered(s, rows, w') ensures Covered(t, rows, w') {
      CoverageSame(s, t, rows, w');
    }
    assert forall q :: q in s.plans && Viable(t, q) ==> Viable(s, q);
    assert forall id: Id :: id in s.changed <==> Fresh(s.changed, w, id);
    assert Covered(t, s.base, w) <==> forall id: Id :: SameRow(LiveRows(s), s.base, id) || id in s.changed;
    assert p in t.plans;
  }

  /** It is the largest watermark for which every recorded change still counts as fresh. */
  lemma CacheWatermarkIsLargest(s: State, w: nat, later: nat)
    requires Inv(s) && IsCacheWatermark(s.changed, s.mutations, w) && later > w
    ensures forall id :: id in s.changed ==> Fresh(s.changed, w, id)
    ensures later > s.mutations || exists id :: id in s.changed && !Fresh(s.changed, later, id)
  {
  }

  /** Before the first prune, as at startup, a cache is always safe. */
  lemma CacheBeforePruneIsSafe(s: State, w: nat)
    requires Inv(s) && s.pristine
    ensures CacheIsSafe(s, w)
  {
    forall id: Id ensures SameRow(LiveRows(s), s.base, id) || id in s.changed {
      assert SameRow(LiveRows(s), s.base, id) || Fresh(s.changed, 0, id);
    }
  }

  lemma PlanCacheKeepsInv(s: State, w: nat)
    requires Inv(s) && Enabled(s, PlanCache(w))
    ensures Inv(Next(s, PlanCache(w)))
  {
    PlanCacheKeepsInvIff(s, w);
    if s.pristine {
      CacheBeforePruneIsSafe(s, w);
    }
  }

  lemma PlanBuildKeepsInv(s: State)
    requires Inv(s)
    ensures Inv(Next(s, PlanBuild))
  {
  }

  lemma PublishKeepsInv(s: State, p: Plan)
    requires Inv(s) && p in s.plans
    ensures Inv(AfterPublish(s, p))
  {
  }

  /** Dropping the slot and opening a new epoch retires every plan handed out so far. */
  lemma InvalidateKeepsInv(s: State)
    requires Inv(s)
    ensures Inv(AfterInvalidate(s))
  {
  }

  lemma StepKeepsInv(s: State, step: Step)
    requires Inv(s) && Enabled(s, step)
    ensures Inv(Next(s, step))
  {
    match step
    case Upsert(id, v) =>
      var t := Next(s, step);
      assert t.changed == s.changed[id := t.mutations];
      TouchKeepsInv(s, t, id);
    case Remove(id) =>
      TouchKeepsInv(s, Next(s, step), id);
    case TrimDeleted(kept) =>
      var t := Next(s, step);
      assert LiveRows(t) == LiveRows(s);
      forall rows, w | Covered(s, rows, w) ensures Covered(t, rows, w) {
        CoverageSame(s, t, rows, w);
      }
      assert forall p :: p in s.plans && Viable(t, p) ==> Viable(s, p);
    case PlanBuild => PlanBuildKeepsInv(s);
    case PlanCache(w) => PlanCacheKeepsInv(s, w);
    case Publish(p) => PublishKeepsInv(s, p);
    case Invalidate => InvalidateKeepsInv(s);
    case Prune => PruneKeepsInv(s);
    case Load(loaded) =>
      var t := Next(s, step);
      assert forall p :: p in t.plans ==> !Viable(t, p);
      assert Covered(t, t.base, 0);
  }

  // ---- whole runs ----------------------------------------------------------

  lemma {:induction false} RunKeepsInv(s: State, steps: seq<Step>)
    requires Inv(s) && Legal(s, steps)
    ensures Inv(Run(s, steps))
    decreases |steps|
  {
    if steps != [] {
      StepKeepsInv(s, steps[0]);
      RunKeepsInv(Next(s, steps[0]), steps[1..]);
    }
  }

  /**
   In every interleaving, a row on which the published snapshot and the live
   vectors disagree carries a change stamp later than that snapshot.
   */
  lemma StaleRowsAreStamped(steps: seq<Step>, id: Id)
    requires Legal(Initial(), steps)
    requires Run(Initial(), steps).slot.Some?
    ensures var s := Run(Initial(), steps);
            var p := s.slot.value;
            !SameRow(LiveRows(s), p.rows, id) ==> id in s.changed && s.changed[id] > p.builtAt
  {
    RunKeepsInv(Initial(), steps);
    var s := Run(Initial(), steps);
    assert SameRow(LiveRows(s), s.slot.value.rows, id) || Fresh(s.changed, s.slot.value.builtAt, id);
  }

  // ---- what is stored ------------------------------------------------------

  /** The vectors a search may find. */
  function Live(s: State): map<Id, Vec> {
    map id | id in s.embeddings && id !in s.deleted :: s.embeddings[id]
  }

  /** The step leaves a vector under `id`. */
  predicate Writes(step: Step, id: Id) {
    match step
    case Upsert(x, _) => x == id
    case Load(loaded) => id in loaded
    case _ => false
  }

  /** The step decides whether there is a vector under `id`; a load decides for every id. */
  predicate Settles(step: Step, id: Id) {
    match step
    case Upsert(x, _) => x == id
    case Remove(x) => x == id
    case Load(_) => true
    case _ => false
  }

  function Written(step: Step, id: Id): Vec
    requires Writes(step, id)
  {
    match step
    case Upsert(_, v) => v
    case Load(loaded) => loaded[id]
  }

  /** Step `i` is the last that settles `id`. */
  predicate LastWord(steps: seq<Step>, i: int, id: Id) {
    0 <= i < |steps| && Settles(steps[i], id) && forall j :: i < j < |steps| ==> !Settles(steps[j], id)
  }

  lemma StepContents(s: State, step: Step, id: Id)
    requires Inv(s) && Enabled(s, step)
    ensures !Settles(step, id) ==> SameRow(Live(s), Live(Next(s, step)), id)
    ensures Settles(step, id) ==> (id in Live(Next(s, step)) <==> Writes(step, id))
    ensures Writes(step, id) ==> Live(Next(s, step))[id] == Written(step, id)
  {
  }

  lemma {:induction false} RunContents(s: State, steps: seq<Step>, id: Id)
    requires Inv(s) && Legal(s, steps)
    ensures (forall j :: 0 <= j < |steps| ==> !Settles(steps[j], id)) ==> SameRow(Live(s), Live(Run(s, steps)), id)
    ensures forall i :: LastWord(steps, i, id) ==>
              && (id in Live(Run(s, steps)) <==> Writes(steps[i], id))
              && (Writes(steps[i], id) ==> Live(Run(s, steps))[id] == Written(steps[i], id))
    ensures (exists j :: 0 <= j < |steps| && Settles(steps[j], id)) ==> exists i :: LastWord(steps, i, id)
    decreases |steps|
  {
    if steps != [] {
      var rest := steps[1..];
      var next := Next(s, steps[0]);
      StepContents(s, steps[0], id);
      StepKeepsInv(s, steps[0]);
      RunContents(next, rest, id);
      hide Inv;
      hide Next;
      hide Settles;
      hide Writes;
      assert forall j :: 0 < j < |steps| ==> steps[j] == rest[j - 1];
      assert forall i :: 0 < i && LastWord(steps, i, id) ==> LastWord(rest, i - 1, id);
      assert forall i :: LastWord(rest, i, id) ==> LastWord(steps, i + 1, id);
      if Settles(steps[0], id) && forall j :: 0 <= j < |rest| ==> !Settles(rest[j], id) {
        assert LastWord(steps, 0, id);
      }
    }
  }

  /**
   What is stored follows from the history alone: an id is live exactly when
   the last step that settles it wrote it, with the vector written then.
   */
  lemma ContentsFollowHistory(steps: seq<Step>, id: Id)
    requires Legal(Initial(), steps)
    ensures id in Live(Run(Initial(), steps)) <==> exists i :: LastWord(steps, i, id) && Writes(steps[i], id)
    ensures forall i :: LastWord(steps, i, id) && Writes(steps[i], id) ==>
              Live(Run(Initial(), steps))[id] == Written(steps[i], id)
  {
    RunContents(Initial(), steps, id);
  }

  /** A removed id stays away until it is written again. */
  lemma RemovedStaysAway(steps: seq<Step>, i: nat, id: Id)
    requires Legal(Initial(), steps) && i < |steps| && steps[i] == Remove(id)
    requires forall j :: i < j < |steps| ==> !Writes(steps[j], id)
    ensures id !in Live(Run(Initial(), steps))
  {
    ContentsFollowHistory(steps, id);
    if k :| LastWord(steps, k, id) && Writes(steps[k], id) {
      assert Settles(steps[i], id);
    }
  }

  lemma {:induction false} EpochNeverFalls(s: State, steps: seq<Step>)
    ensures Run(s, steps).epoch >= s.epoch
    decreases |steps|
  {
    if steps != [] {
      StepKeepsWatermark(s, steps[0]);
      EpochNeverFalls(Next(s, steps[0]), steps[1..]);
    }
  }

  /** A plan handed out before an invalidation changes nothing when it arrives, however late. */
  lemma OldPlansNeverPublish(s: State, before: seq<Step>, after: seq<Step>, p: Plan)
    requires Inv(s) && p in s.plans
    ensures var late := Run(AfterInvalidate(Run(s, before)), after);
            Next(late, Publish(p)) == late
  {
    EpochNeverFalls(s, before);
    EpochNeverFalls(AfterInvalidate(Run(s, before)), after);
  }

  lemma StepKeepsWatermark(s: State, step: Step)
    ensures Next(s, step).epoch >= s.epoch
    ensures s.slot.Some? && Next(s, step).epoch == s.epoch ==>
              Next(s, step).slot.Some? && Next(s, step).slot.value.builtAt >= s.slot.value.builtAt
  {
  }

  /** Within one epoch a published index is only ever replaced by one at least as recent. */
  lemma {:induction false} WatermarkNeverFalls(s: State, steps: seq<Step>)
    requires s.slot.Some? && Run(s, steps).epoch == s.epoch
    ensures Run(s, steps).slot.Some?
    ensures Run(s, steps).slot.value.builtAt >= s.slot.value.builtAt
    decreases |steps|
  {
    if steps != [] {
      StepKeepsWatermark(s, steps[0]);
      EpochNeverFalls(Next(s, steps[0]), steps[1..]);
      WatermarkNeverFalls(Next(s, steps[0]), steps[1..]);
    }
  }

  /** Why a cache plan must precede the first prune: taken later, it may publish rows that nothing rescores. */
  lemma CacheAfterPruneIsStale(v: Vec, v': Vec)
    requires Indexable(v) && Indexable(v') && v != v'
    ensures var s := AfterUpsert(AfterLoad(Initial(), map[1 := v]), 1, v');
            var pruned := AfterPrune(AfterPublish(AfterPlan(s, BuildPlan(s)), BuildPlan(s)));
            var late := CachePlan(pruned, pruned.mutations);
            && IsCacheWatermark(pruned.changed, pruned.mutations, pruned.mutations)
            && CanPublish(pruned, late)
            && !Covered(AfterPublish(pruned, late), late.rows, late.mutation)
  {
    var s := AfterUpsert(AfterLoad(Initial(), map[1 := v]), 1, v');
    assert 1 in BuildPlan(s).rows;
    var pruned := AfterPrune(AfterPublish(AfterPlan(s, BuildPlan(s)), BuildPlan(s)));
    assert pruned.changed == map[];
    var late := CachePlan(pruned, pruned.mutations);
    assert LiveRows(AfterPublish(pruned, late))[1] == v' && late.rows[1] == v;
    assert !SameRow(LiveRows(AfterPublish(pruned, late)), late.rows, 1);
  }
}
