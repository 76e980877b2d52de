/**
 Following the other writers of a shared directory (src/field.rs
 `sync_foreign_collect` / `sync_foreign_apply`). Collecting reads new records
 of every foreign segment from the offset last seen and queues them; applying
 drains the queue and then extends the coverage vector that the next snapshot
 will claim. Segments are described by what they will finally hold; each
 visit sees some byte prefix of that.
 */
module ForeignSync {
  import opened Collections
  import opened Bytes
  import opened WalRecords
  import opened WalReplay
  import opened WalTail

  type Writer = nat

  datatype Path = Path(writer: Writer, first: nat)

  datatype Item = Item(path: Path, rec: Record)

  type Vector = map<Writer, nat>

  /** What a collect finds under a name: the bytes read, or a read error. */
  datatype Visit = Visit(path: Path, file: Option<bytes>)

  datatype State = State(
    seen: map<Path, nat>,
    pending: seq<Item>,
    pendingCoverage: Vector,
    applied: seq<Item>,
    walCoverage: Vector)

  // ---- coverage vectors ----------------------------------------------------

  function At(v: Vector, w: Writer): nat {
    if w in v then v[w] else 0
  }

  function Raise(v: Vector, w: Writer, n: nat): (r: Vector)
    ensures forall u :: At(r, u) == if u == w && n > At(v, u) then n else At(v, u)
  {
    if w !in v || n > v[w] then v[w := n] else v
  }

  /** Per-entry maximum. */
  function Join(a: Vector, b: Vector): (r: Vector)
    ensures forall w :: At(r, w) == if At(a, w) > At(b, w) then At(a, w) else At(b, w)
  {
    map w | w in a.Keys + b.Keys :: if At(a, w) > At(b, w) then At(a, w) else At(b, w)
  }

  function RaiseAll(v: Vector, w: Writer, rs: seq<Record>): Vector {
    if rs == [] then v else Raise(RaiseAll(v, w, rs[..|rs| - 1]), w, rs[|rs| - 1].seqno)
  }

  // ---- one collect pass ----------------------------------------------------

  datatype Pass = Pass(seen: map<Path, nat>, ops: seq<Item>, coverage: Vector, ok: bool)

  function SeenAt(seen: map<Path, nat>, p: Path): nat {
    if p in seen then seen[p] else 0
  }

  function ItemsFrom(p: Path, rs: seq<Record>): (r: seq<Item>)
    ensures |r| == |rs|
  {
    seq(|rs|, i requires 0 <= i < |rs| => Item(p, rs[i]))
  }

  /** Visit one segment: on success its offset moves at once, its records join the pass. */
  function VisitOne(c: Codec, p: Pass, v: Visit): Pass {
    if !p.ok then p
    else match v.file
      case None => p.(ok := false)
      case Some(file) =>
        match TailFrom(c, file, SeenAt(p.seen, v.path))
        case BadMagic => p.(ok := false)
        case Tail(offset, rs) =>
          Pass(p.seen[v.path := offset], p.ops + ItemsFrom(v.path, rs), RaiseAll(p.coverage, v.path.writer, rs), true)
  }

  function PassOf(c: Codec, seen: map<Path, nat>, visits: seq<Visit>): Pass {
    if visits == [] then Pass(seen, [], map[], true)
    else VisitOne(c, PassOf(c, seen, visits[..|visits| - 1]), visits[|visits| - 1])
  }

  /** A failed pass keeps the offsets it had stored but not the records it had read. */
  function AfterCollect(c: Codec, s: State, visits: seq<Visit>): State {
    var p := PassOf(c, s.seen, visits);
    if p.ok then
      s.(seen := p.seen, pending := s.pending + p.ops, pendingCoverage := Join(s.pendingCoverage, p.coverage))
    else s.(seen := p.seen)
  }

  function AfterApply(s: State): State {
    if s.pending == [] then s
    else State(s.seen, [], map[], s.applied + s.pending, Join(s.walCoverage, s.pendingCoverage))
  }

  // ---- exactly once, in order ----------------------------------------------

  /** The segments as they will finally be. */
  type World = map<Path, Segment>

  ghost predicate WorldOk(c: Codec, world: World) {
    c.Sound() && forall p :: p in world ==> WellFormed(c, world[p])
  }

  /** The visit sees a byte prefix of the segment. */
  ghost predicate SeesPrefix(c: Codec, world: World, v: Visit) {
    && v.path in world && v.file.Some?
    && WellFormed(c, world[v.path])
    && v.file.value <= SegmentBytes(c, world[v.path])
  }

  function RecordsAt(items: seq<Item>, p: Path): seq<Record> {
    if items == [] then []
    else
      var n := |items| - 1;
      RecordsAt(items[..n], p) + (if items[n].path == p then [items[n].rec] else [])
  }

  lemma {:induction false} RecordsAtAppend(a: seq<Item>, b: seq<Item>, p: Path)
    ensures RecordsAt(a + b, p) == RecordsAt(a, p) + RecordsAt(b, p)
  {
    if b == [] {
      assert a + b == a;
    } else {
      var n := |b| - 1;
      assert (a + b)[..|a| + n] == a + b[..n];
      RecordsAtAppend(a, b[..n], p);
    }
  }

  lemma {:induction false} RecordsAtFrom(q: Path, rs: seq<Record>, p: Path)
    ensures RecordsAt(ItemsFrom(q, rs), p) == if p == q then rs else []
  {
    if rs != [] {
      var n := |rs| - 1;
      assert ItemsFrom(q, rs)[..n] == ItemsFrom(q, rs[..n]);
      RecordsAtFrom(q, rs[..n], p);
    }
  }

  /** How many records of each segment have been read; segments start where `start` says. */
  type Counts = map<Path, nat>

  function CountAt(m: Counts, p: Path): nat {
    if p in m then m[p] else 0
  }

  /** `items` are exactly the records of `p` between its starting and its seen offset. */
  ghost predicate InStep(world: World, seen: map<Path, nat>, start: Counts, known: Counts, items: seq<Item>, p: Path)
    requires p in world
  {
    && CountAt(start, p) <= CountAt(known, p)
    && IsOffset(world[p], SeenAt(seen, p), CountAt(known, p))
    && RecordsAt(items, p) == world[p].records[CountAt(start, p)..CountAt(known, p)]
  }

  ghost predicate AllInStep(world: World, seen: map<Path, nat>, start: Counts, known: Counts, items: seq<Item>) {
    forall p :: p in world ==> InStep(world, seen, start, known, items, p)
  }

  ghost predicate Inv(world: World, start: Counts, known: Counts, s: State) {
    AllInStep(world, s.seen, start, known, s.applied + s.pending)
  }

  /** The record counts after a visit. */
  function KnownThen(world: World, known: Counts, v: Visit): Counts {
    if v.path in world && v.file.Some? && CountAt(known, v.path) <= |world[v.path].records| then
      known[v.path := KnownAfter(world[v.path], |v.file.value|, CountAt(known, v.path))]
    else known
  }

  /** What a visit to a well-formed segment reads. */
  lemma VisitReads(c: Codec, world: World, known: Counts, p: Pass, v: Visit)
    requires WorldOk(c, world) && SeesPrefix(c, world, v) && p.ok
    requires IsOffset(world[v.path], SeenAt(p.seen, v.path), CountAt(known, v.path))
    ensures var k, k' := CountAt(known, v.path), CountAt(KnownThen(world, known, v), v.path);
            var p' := VisitOne(c, p, v);
            && k <= k' <= |world[v.path].records|
            && (forall r :: r != v.path ==> CountAt(KnownThen(world, known, v), r) == CountAt(known, r))
            && IsOffset(world[v.path], SeenAt(p'.seen, v.path), k')
            && p'.seen == p.seen[v.path := SeenAt(p'.seen, v.path)]
            && p'.ops == p.ops + ItemsFrom(v.path, world[v.path].records[k..k'])
            && p'.coverage == RaiseAll(p.coverage, v.path.writer, world[v.path].records[k..k']) && p'.ok
  {
    hide TailFrom;
    hide SegmentBytes;
    hide KnownAfter;
    hide RaiseAll;
    hide SizeOf;
    var n := |v.file.value|;
    assert SegmentBytes(c, world[v.path])[..n] == v.file.value;
    TailStep(c, world[v.path], n, SeenAt(p.seen, v.path), CountAt(known, v.path));
  }

  /** Taking the next run of one segment's records keeps every segment in step. */
  lemma TakenKeepsStep(world: World, seen: map<Path, nat>, seen': map<Path, nat>, start: Counts, known: Counts,
                       known': Counts, items: seq<Item>, q: Path, r: Path)
    requires q in world && r in world && InStep(world, seen, start, known, items, r)
    requires CountAt(known, q) <= CountAt(known', q) <= |world[q].records|
    requires IsOffset(world[q], SeenAt(seen', q), CountAt(known', q))
    requires r != q ==> SeenAt(seen', r) == SeenAt(seen, r) && CountAt(known', r) == CountAt(known, r)
    ensures var taken := ItemsFrom(q, world[q].records[CountAt(known, q)..CountAt(known', q)]);
            InStep(world, seen', start, known', items + taken, r)
  {
    hide RecordsAt;
    hide IsOffset;
    var rs := world[q].records[CountAt(known, q)..CountAt(known', q)];
    RecordsAtAppend(items, ItemsFrom(q, rs), r);
    RecordsAtFrom(q, rs, r);
    if r == q {
      var a := CountAt(start, q);
      assert world[q].records[a..CountAt(known, q)] + rs == world[q].records[a..CountAt(known', q)];
    } else {
      assert RecordsAt(items, r) + [] == RecordsAt(items, r);
    }
  }

  lemma AllTakenKeepStep(world: World, seen: map<Path, nat>, seen': map<Path, nat>, start: Counts, known: Counts,
                         known': Counts, items: seq<Item>, q: Path)
    requires q in world && AllInStep(world, seen, start, known, items)
    requires CountAt(known, q) <= CountAt(known', q) <= |world[q].records|
    requires IsOffset(world[q], SeenAt(seen', q), CountAt(known', q))
    requires forall r :: r != q ==> SeenAt(seen', r) == SeenAt(seen, r) && CountAt(known', r) == CountAt(known, r)
    ensures var taken := ItemsFrom(q, world[q].records[CountAt(known, q)..CountAt(known', q)]);
            AllInStep(world, seen', start, known', items + taken)
  {
    hide RecordsAt;
    hide IsOffset;
    hide InStep;
    var taken := ItemsFrom(q, world[q].records[CountAt(known, q)..CountAt(known', q)]);
    forall r | r in world ensures InStep(world, seen', start, known', items + taken, r) {
      assert InStep(world, seen, start, known, items, r);
      TakenKeepsStep(world, seen, seen', start, known, known', items, q, r);
    }
  }

  function KnownAfterVisits(world: World, known: Counts, visits: seq<Visit>): Counts {
    if visits == [] then known
    else KnownThen(world, KnownAfterVisits(world, known, visits[..|visits| - 1]), visits[|visits| - 1])
  }

  lemma {:induction false} PassKeepsStep(c: Codec, world: World, start: Counts, known: Counts, base: seq<Item>,
                                         seen: map<Path, nat>, visits: seq<Visit>)
    requires WorldOk(c, world) && forall v :: v in visits ==> SeesPrefix(c, world, v)
    requires AllInStep(world, seen, start, known, base)
    ensures var p := PassOf(c, seen, visits);
            p.ok && AllInStep(world, p.seen, start, KnownAfterVisits(world, known, visits), base + p.ops)
    decreases |visits|
  {
    hide AllInStep;
    hide SeesPrefix;
    hide VisitOne;
    hide KnownThen;
    hide IsOffset;
    if visits == [] {
      assert base + [] == base;
    } else {
      var n := |visits| - 1;
      PassKeepsStep(c, world, start, known, base, seen, visits[..n]);
      var v, mid, p := visits[n], KnownAfterVisits(world, known, visits[..n]), PassOf(c, seen, visits[..n]);
      PathInWorld(c, world, v);
      CountsInRange(world, p.seen, start, mid, base + p.ops);
      VisitReads(c, world, mid, p, v);
      var p', known' := VisitOne(c, p, v), KnownThen(world, mid, v);
      AllTakenKeepStep(world, p.seen, p'.seen, start, mid, known', base + p.ops, v.path);
      assert base + p'.ops == (base + p.ops)
             + ItemsFrom(v.path, world[v.path].records[CountAt(mid, v.path)..CountAt(known', v.path)]);
    }
  }

  /**
   A successful collect extends, per segment, the run of records taken so far:
   none is skipped, repeated or reordered.
   */
  lemma CollectKeepsInv(c: Codec, world: World, start: Counts, known: Counts, s: State, visits: seq<Visit>)
    requires WorldOk(c, world) && (forall v :: v in visits ==> SeesPrefix(c, world, v)) && Inv(world, start, known, s)
    ensures Inv(world, start, KnownAfterVisits(world, known, visits), AfterCollect(c, s, visits))
  {
    PassKeepsStep(c, world, start, known, s.applied + s.pending, s.seen, visits);
    var p := PassOf(c, s.seen, visits);
    assert (s.applied + s.pending) + p.ops == s.applied + (s.pending + p.ops);
  }

  lemma ApplyKeepsInv(world: World, start: Counts, known: Counts, s: State)
    requires Inv(world, start, known, s)
    ensures Inv(world, start, known, AfterApply(s))
  {
    assert s.applied + s.pending == (s.applied + s.pending) + [];
  }

  // ---- where following starts ----------------------------------------------

  /** A fresh instance starts from the sizes the files had when it opened them; their records were replayed then. */
  function Seeded(sizes: map<Path, nat>): State {
    State(sizes, [], map[], [], map[])
  }

  /** The file was found empty, or ended with its header or a whole record. */
  predicate EndsClean(s: Segment, size: nat) {
    size == 0 || size == Boundary(s, size)
  }

  lemma CleanEndIsOffset(s: Segment, size: nat)
    ensures EndsClean(s, size) <==> exists k: nat :: IsOffset(s, size, k)
    ensures EndsClean(s, size) ==> IsOffset(s, size, |Before(s, size)|)
  {
    if size >= HeaderSize(s.version) {
      WholeWithinIsMaximal(s.records, size - HeaderSize(s.version));
    }
    if k: nat :| IsOffset(s, size, k) {
      if size > 0 {
        WholeWithinOwnSize(s.records, k);
        assert Before(s, size) == s.records[..k];
      }
    }
    if EndsClean(s, size) {
      assert size > 0 ==> Before(s, size) == s.records[..|Before(s, size)|];
      assert IsOffset(s, size, |Before(s, size)|);
    }
  }

  /**
   The seeded start is in step, with exactly the records that were whole then
   counted as read, if and only if every file ended clean: a size taken while
   a peer was writing lies inside a record or a header.
   */
  lemma SeededInStepIff(world: World, sizes: map<Path, nat>)
    ensures (exists known :: Inv(world, known, known, Seeded(sizes))) <==>
              forall p :: p in world ==> EndsClean(world[p], SeenAt(sizes, p))
    ensures (forall p :: p in world ==> EndsClean(world[p], SeenAt(sizes, p))) ==>
              Inv(world, ReplayedCounts(world, sizes), ReplayedCounts(world, sizes), Seeded(sizes))
  {
    hide IsOffset;
    hide EndsClean;
    var counts := ReplayedCounts(world, sizes);
    if forall p :: p in world ==> EndsClean(world[p], SeenAt(sizes, p)) {
      forall p | p in world ensures InStep(world, sizes, counts, counts, [], p) {
        CleanEndIsOffset(world[p], SeenAt(sizes, p));
      }
      assert Inv(world, counts, counts, Seeded(sizes));
    }
    if known :| Inv(world, known, known, Seeded(sizes)) {
      forall p | p in world ensures EndsClean(world[p], SeenAt(sizes, p)) {
        assert InStep(world, sizes, known, known, [], p);
        CleanEndIsOffset(world[p], SeenAt(sizes, p));
      }
    }
  }

  /** The records that were whole when each file had that size. */
  function ReplayedCounts(world: World, sizes: map<Path, nat>): Counts {
    map p | p in world :: |Before(world[p], SeenAt(sizes, p))|
  }

  /** Starting inside a record, tailing the finished file never delivers what is missing. */
  lemma MidRecordStartMisses(c: Codec, s: Segment, size: nat, k: nat)
    requires c.Sound() && WellFormed(c, s) && k < |s.records|
    requires HeaderSize(s.version) + SizeOf(s.records[..k]) < size <= |SegmentBytes(c, s)|
    ensures var t := TailFrom(c, SegmentBytes(c, s), size);
            t.Tail? && t.delivered != s.records[k..]
  {
    var file := SegmentBytes(c, s);
    assert file[..|file|] == file;
    AreaFromBoundary(c, s, |file|, k);
    SizeOfEncoded(c, s.records[k..]);
    MagicOfPrefix(c, s, |file|);
    ScanUsesItsRecords(c, s.version, From(file, size), false);
    hide Scan;
    hide SegmentBytes;
    assert SizeOf(Scan(c, s.version, From(file, size), false).records) < SizeOf(s.records[k..]);
  }

  // ---- runs ----------------------------------------------------------------

  datatype Step = Collect(visits: seq<Visit>) | Apply

  function Next(c: Codec, s: State, step: Step): State {
    match step
    case Collect(visits) => AfterCollect(c, s, visits)
    case Apply => AfterApply(s)
  }

  function Run(c: Codec, s: State, steps: seq<Step>): State
    decreases |steps|
  {
    if steps == [] then s else Run(c, Next(c, s, steps[0]), steps[1..])
  }

  /** Every collect sees only prefixes of the segments, hence returns Ok. */
  ghost predicate AllSee(c: Codec, world: World, steps: seq<Step>) {
    forall i, v :: 0 <= i < |steps| && steps[i].Collect? && v in steps[i].visits ==> SeesPrefix(c, world, v)
  }

  function Counted(world: World, known: Counts, steps: seq<Step>): Counts
    decreases |steps|
  {
    if steps == [] then known
    else
      var next := if steps[0].Collect? then KnownAfterVisits(world, known, steps[0].visits) else known;
      Counted(world, next, steps[1..])
  }

  /**
   In every interleaving of peer writes, collects and applies, the applied
   records followed by the pending ones are, segment by segment, exactly the
   records between its starting and its seen offset, each once and in order.
   */
  lemma {:induction false} RunDeliversExactlyOnce(c: Codec, world: World, start: Counts, known: Counts, s: State,
                                                  steps: seq<Step>)
    requires WorldOk(c, world) && AllSee(c, world, steps) && Inv(world, start, known, s)
    ensures Inv(world, start, Counted(world, known, steps), Run(c, s, steps))
    decreases |steps|
  {
    hide Inv;
    hide SeesPrefix;
    if steps != [] {
      var step := steps[0];
      var known' := if step.Collect? then KnownAfterVisits(world, known, step.visits) else known;
      match step {
        case Collect(visits) => CollectKeepsInv(c, world, start, known, s, visits);
        case Apply => ApplyKeepsInv(world, start, known, s);
      }
      forall i, v | 0 <= i < |steps[1..]| && steps[1..][i].Collect? && v in steps[1..][i].visits
        ensures SeesPrefix(c, world, v)
      {
        assert steps[i + 1] == steps[1..][i];
      }
      RunDeliversExactlyOnce(c, world, start, known', Next(c, s, step), steps[1..]);
    }
  }

  // ---- a collect that fails ------------------------------------------------

  lemma {:induction false} SizeStrictlyGrows(rs: seq<Record>, a: nat, b: nat)
    requires a < b <= |rs|
    ensures SizeOf(rs[..a]) < SizeOf(rs[..b])
    decreases b
  {
    assert rs[..b] == rs[..b - 1] + [rs[b - 1]];
    SizeOfAppend(rs[..b - 1], [rs[b - 1]]);
    if a < b - 1 {
      SizeStrictlyGrows(rs, a, b - 1);
    }
  }

  lemma OffsetDeterminesCount(s: Segment, offset: nat, a: nat, b: nat)
    requires IsOffset(s, offset, a) && IsOffset(s, offset, b)
    ensures a == b
  {
    if a < b {
      SizeStrictlyGrows(s.records, a, b);
    } else if b < a {
      SizeStrictlyGrows(s.records, b, a);
    }
  }

  lemma {:induction false} PassPathsKnown(c: Codec, world: World, seen: map<Path, nat>, visits: seq<Visit>)
    requires forall v :: v in visits ==> v.path in world
    ensures forall x :: x in PassOf(c, seen, visits).ops ==> x.path in world
    decreases |visits|
  {
    hide TailFrom;
    if visits != [] {
      var n := |visits| - 1;
      assert visits[n] in visits;
      PassPathsKnown(c, world, seen, visits[..n]);
    }
  }

  lemma {:induction false} RecordsAtPresent(items: seq<Item>, x: Item)
    requires x in items
    ensures |RecordsAt(items, x.path)| > 0
  {
    var n := |items| - 1;
    if items[n] != x {
      RecordsAtPresent(items[..n], x);
    }
  }

  /** What a visit finds ends before the first unread record does, or no record is left. */
  predicate NothingNew(world: World, known: Counts, v: Visit) {
    v.path in world && v.file.Some? && CountAt(known, v.path) <= |world[v.path].records| ==>
      var s, k := world[v.path], CountAt(known, v.path);
      k == |s.records| || |v.file.value| < HeaderSize(s.version) + SizeOf(s.records[..k + 1])
  }

  lemma NothingNewIff(s: Segment, n: nat, k: nat)
    requires k <= |s.records|
    ensures KnownAfter(s, n, k) == k <==> k == |s.records| || n < HeaderSize(s.version) + SizeOf(s.records[..k + 1])
  {
    if k < |s.records| {
      assert s.records[..k + 1] == s.records[..k] + [s.records[k]];
      SizeOfAppend(s.records[..k], [s.records[k]]);
    }
  }

  /** A pass over good visits delivers nothing exactly when no visit finds anything new. */
  lemma {:induction false} NothingReadIff(c: Codec, world: World, start: Counts, known: Counts, base: seq<Item>,
                                          seen: map<Path, nat>, visits: seq<Visit>)
    requires WorldOk(c, world) && (forall v :: v in visits ==> SeesPrefix(c, world, v))
    requires AllInStep(world, seen, start, known, base)
    ensures PassOf(c, seen, visits).ops == [] <==> forall v :: v in visits ==> NothingNew(world, known, v)
    ensures PassOf(c, seen, visits).ops == [] ==>
            forall p :: CountAt(KnownAfterVisits(world, known, visits), p) == CountAt(known, p)
    decreases |visits|
  {
    hide SeesPrefix;
    hide VisitOne;
    hide KnownAfter;
    hide IsOffset;
    hide RecordsAt;
    hide SizeOf;
    hide RaiseAll;
    if visits != [] {
      var n := |visits| - 1;
      var v := visits[n];
      assert forall x :: x in visits <==> x in visits[..n] || x == v;
      NothingReadIff(c, world, start, known, base, seen, visits[..n]);
      PassKeepsStep(c, world, start, known, base, seen, visits[..n]);
      var mid := KnownAfterVisits(world, known, visits[..n]);
      var p := PassOf(c, seen, visits[..n]);
      PathInWorld(c, world, v);
      assert InStep(world, p.seen, start, mid, base + p.ops, v.path);
      VisitReads(c, world, mid, p, v);
      if p.ops == [] {
        var k, k' := CountAt(mid, v.path), CountAt(KnownThen(world, mid, v), v.path);
        assert k == CountAt(known, v.path) && k' == KnownAfter(world[v.path], |v.file.value|, k);
        NothingNewIff(world[v.path], |v.file.value|, k);
        assert NothingNew(world, known, v) <==> k' == k;
        assert |PassOf(c, seen, visits).ops| == k' - k;
        assert v in visits;
      }
    }
  }

  /**
   A collect that hits an error after some good visits stays in step exactly
   when none of those visits found a whole new record: otherwise their offsets
   have moved past records that were thrown away with the pass.
   */
  lemma FailedCollectLosesIff(c: Codec, world: World, start: Counts, known: Counts, s: State, good: seq<Visit>,
                              bad: Visit)
    requires WorldOk(c, world) && Inv(world, start, known, s)
    requires (forall v :: v in good ==> SeesPrefix(c, world, v)) && !PassOf(c, s.seen, good + [bad]).ok
    ensures (exists known' :: Inv(world, start, known', AfterCollect(c, s, good + [bad]))) <==>
              forall v :: v in good ==> NothingNew(world, known, v)
  {
    hide SeesPrefix;
    hide NothingNew;
    NothingReadIff(c, world, start, known, s.applied + s.pending, s.seen, good);
    FailedCollectKeepsIff(c, world, start, known, s, good, bad);
  }

  lemma FailedCollectKeepsIff(c: Codec, world: World, start: Counts, known: Counts, s: State, good: seq<Visit>,
                              bad: Visit)
    requires WorldOk(c, world) && Inv(world, start, known, s)
    requires (forall v :: v in good ==> SeesPrefix(c, world, v)) && !PassOf(c, s.seen, good + [bad]).ok
    ensures (exists known' :: Inv(world, start, known', AfterCollect(c, s, good + [bad]))) <==>
            PassOf(c, s.seen, good).ops == []
  {
    hide SeesPrefix;
    hide TailFrom;
    hide RecordsAt;
    hide IsOffset;
    assert (good + [bad])[..|good|] == good;
    var base := s.applied + s.pending;
    PassKeepsStep(c, world, start, known, base, s.seen, good);
    var pass := PassOf(c, s.seen, good);
    var t := AfterCollect(c, s, good + [bad]);
    assert t.seen == pass.seen && t.applied + t.pending == base;
    var moved := KnownAfterVisits(world, known, good);
    if pass.ops == [] {
      assert base + pass.ops == base;
      assert Inv(world, start, moved, t);
    } else {
      var x := pass.ops[0];
      GoodPaths(c, world, good);
      PassPathsKnown(c, world, s.seen, good);
      var p := x.path;
      assert InStep(world, pass.seen, start, moved, base + pass.ops, p);
      RecordsAtAppend(base, pass.ops, p);
      RecordsAtPresent(pass.ops, x);
      forall known' ensures !Inv(world, start, known', t) {
        if AllInStep(world, t.seen, start, known', base) {
          assert InStep(world, t.seen, start, known', base, p);
          OffsetDeterminesCount(world[p], SeenAt(pass.seen, p), CountAt(moved, p), CountAt(known', p));
        }
      }
    }
  }

  /** Such a loss: a peer's finished segment is read, then another file cannot be; its records are never delivered. */
  lemma FailedCollectLoses(c: Codec, segment: Segment, p: Path, q: Path)
    requires c.Sound() && WellFormed(c, segment) && segment.records != []
    ensures var world := map[p := segment];
            var s := State(map[], [], map[], [], map[]);
            var visits := [Visit(p, Some(SegmentBytes(c, segment))), Visit(q, None)];
            var t := AfterCollect(c, s, visits);
            && Inv(world, map[], map[], s)
            && SeenAt(t.seen, p) == |SegmentBytes(c, segment)| && t.pending == []
            && forall known :: !Inv(world, map[], known, t)
  {
    hide SegmentBytes;
    hide TailFrom;
    var world := map[p := segment];
    var s := State(map[], [], map[], [], map[]);
    var file := SegmentBytes(c, segment);
    var good, bad := [Visit(p, Some(file))], Visit(q, None);
    assert [Visit(p, Some(file)), bad] == good + [bad];
    assert (good + [bad])[..1] == good && good[..0] == [];
    assert file[..|file|] == file;
    TailStep(c, segment, |file|, 0, 0);
    AreaFromBoundary(c, segment, |file|, |segment.records|);
    assert segment.records[..|segment.records|] == segment.records
           && EncodeAll(c, segment.records[|segment.records|..]) == [];
    WholeIsKnown(c, segment, 0);
    NothingNewIff(segment, |file|, 0);
    assert good[0] in good && !NothingNew(world, map[], good[0]);
    assert Inv(world, map[], map[], s);
    assert PassOf(c, map[], good) == VisitOne(c, PassOf(c, map[], []), good[0]);
    FailedCollectLosesIff(c, world, map[], map[], s, good, bad);
  }

  lemma GoodPaths(c: Codec, world: World, good: seq<Visit>)
    requires forall v :: v in good ==> SeesPrefix(c, world, v)
    ensures forall v :: v in good ==> v.path in world
  {
  }

  // ---- what the coverage vector claims -------------------------------------

  ghost predicate AllBefore(a: seq<Record>, b: seq<Record>) {
    forall i, j :: 0 <= i < |a| && 0 <= j < |b| ==> a[i].seqno < b[j].seqno
  }

  /** Seqnos increase within a segment, and from each segment of a writer to the next. */
  ghost predicate Numbered(world: World) {
    && (forall p, i, j :: p in world && 0 <= i < j < |world[p].records| ==>
         world[p].records[i].seqno < world[p].records[j].seqno)
    && (forall p, q :: p in world && q in world && p.writer == q.writer && p.first < q.first ==>
         AllBefore(world[p].records, world[q].records))
  }

  /** The vector says that the writer's record `n` is included. */
  predicate Claims(v: Vector, w: Writer, n: nat) {
    0 < At(v, w) && n <= At(v, w)
  }

  /** Every record the vector claims is among the first `known` of its segment. */
  ghost predicate Closed(world: World, known: Counts, v: Vector) {
    forall p, i :: p in world && 0 <= i < |world[p].records| && Claims(v, p.writer, world[p].records[i].seqno) ==>
      i < CountAt(known, p)
  }

  /** In what was read, a segment with anything new has its elders read whole. */
  ghost predicate EldersWhole(world: World, known: Counts, known': Counts) {
    forall p, q :: p in world && q in world && p.writer == q.writer && p.first < q.first ==>
      CountAt(known', q) > CountAt(known, q) ==> CountAt(known', p) == |world[p].records|
  }

  /** The visit finds the segment finished: all of its bytes are there. */
  predicate SeesAll(world: World, v: Visit) {
    v.path in world && v.file.Some?
        && |v.file.value| >= HeaderSize(world[v.path].version) + SizeOf(world[v.path].records)
  }

  /**
   A writer rotates only when a segment is finished: when a pass finds
   something new in one segment, it finds each elder of that segment finished.
   */
  ghost predicate FindsEldersFinished(world: World, known: Counts, visits: seq<Visit>) {
    forall v, p ::
      v in visits && !NothingNew(world, known, v) && p in world && p.writer == v.path.writer && p.first < v.path.first
      ==> FindsFinished(world, visits, p)
  }

  ghost predicate FindsFinished(world: World, visits: seq<Visit>, p: Path) {
    exists v :: v in visits && v.path == p && SeesAll(world, v)
  }

  lemma AllSeenIsKnown(s: Segment, n: nat, k: nat)
    requires k <= |s.records| && n >= HeaderSize(s.version) + SizeOf(s.records)
    ensures KnownAfter(s, n, k) == |s.records|
  {
    assert s.records == s.records[..k] + s.records[k..];
    SizeOfAppend(s.records[..k], s.records[k..]);
    WholeWithinIsMaximal(s.records[k..], n - HeaderSize(s.version) - SizeOf(s.records[..k]));
  }

  /** A pass leaves the count of a segment in which it finds nothing new, and completes one it finds finished. */
  lemma {:induction false} CountsAfterVisits(world: World, known: Counts, visits: seq<Visit>, p: Path)
    requires p in world && CountAt(known, p) <= |world[p].records|
    ensures CountAt(known, p) <= CountAt(KnownAfterVisits(world, known, visits), p) <= |world[p].records|
    ensures (forall v :: v in visits && v.path == p ==> NothingNew(world, known, v)) ==>
              CountAt(KnownAfterVisits(world, known, visits), p) == CountAt(known, p)
    ensures FindsFinished(world, visits, p) ==> CountAt(KnownAfterVisits(world, known, visits), p) == |world[p].records|
    decreases |visits|
  {
    hide KnownAfter;
    hide SizeOf;
    if visits != [] {
      var n := |visits| - 1;
      var v := visits[n];
      assert forall x :: x in visits <==> x in visits[..n] || x == v;
      CountsAfterVisits(world, known, visits[..n], p);
      var mid := CountAt(KnownAfterVisits(world, known, visits[..n]), p);
      if v.path == p && v.file.Some? {
        NothingNewIff(world[p], |v.file.value|, mid);
        if SeesAll(world, v) {
          AllSeenIsKnown(world[p], |v.file.value|, mid);
        }
      }
    }
  }

  lemma FinishedEldersAreWhole(world: World, known: Counts, visits: seq<Visit>)
    requires FindsEldersFinished(world, known, visits)
    requires forall p :: p in world ==> CountAt(known, p) <= |world[p].records|
    ensures EldersWhole(world, known, KnownAfterVisits(world, known, visits))
  {
    hide NothingNew;
    hide FindsFinished;
    var known' := KnownAfterVisits(world, known, visits);
    forall p, q | p in world && q in world && p.writer == q.writer && p.first < q.first
           && CountAt(known', q) > CountAt(known, q)
      ensures CountAt(known', p) == |world[p].records|
    {
      CountsAfterVisits(world, known, visits, q);
      CountsAfterVisits(world, known, visits, p);
    }
  }

  ghost predicate Fresh(world: World, known: Counts, known': Counts, w: Writer, n: nat) {
    exists p, i :: p in world && p.writer == w && CountAt(known, p) <= i < CountAt(known', p) <= |world[p].records|
      && world[p].records[i].seqno == n
  }

  lemma {:induction false} RaiseAllAt(v: Vector, w: Writer, rs: seq<Record>, u: Writer)
    ensures At(RaiseAll(v, w, rs), u) == At(v, u)
         || (u == w && exists i :: 0 <= i < |rs| && rs[i].seqno == At(RaiseAll(v, w, rs), u))
  {
    if rs != [] {
      var n := |rs| - 1;
      RaiseAllAt(v, w, rs[..n], u);
      if At(RaiseAll(v, w, rs), u) == At(RaiseAll(v, w, rs[..n]), u) {
        if i :| 0 <= i < n && rs[..n][i].seqno == At(RaiseAll(v, w, rs[..n]), u) {
          assert rs[i].seqno == At(RaiseAll(v, w, rs), u);
        }
      } else {
        assert rs[n].seqno == At(RaiseAll(v, w, rs), u);
      }
    }
  }

  ghost predicate NoSmaller(known: Counts, known': Counts) {
    forall p :: CountAt(known, p) <= CountAt(known', p)
  }

  /** What a pass claims for a writer is the seqno of a record it read. */
  lemma {:induction false} PassClaimsWhatItRead(c: Codec, world: World, start: Counts, known: Counts, base: seq<Item>,
                                                seen: map<Path, nat>, visits: seq<Visit>, w: Writer)
    requires WorldOk(c, world) && (forall v :: v in visits ==> SeesPrefix(c, world, v))
    requires AllInStep(world, seen, start, known, base)
    ensures NoSmaller(known, KnownAfterVisits(world, known, visits))
    ensures var n := At(PassOf(c, seen, visits).coverage, w);
            n == 0 || Fresh(world, known, KnownAfterVisits(world, known, visits), w, n)
    decreases |visits|
  {
    hide SeesPrefix;
    hide VisitOne;
    hide RaiseAll;
    hide KnownAfter;
    hide IsOffset;
    hide RecordsAt;
    hide ItemsFrom;
    if visits != [] {
      var n := |visits| - 1;
      var v := visits[n];
      PassClaimsWhatItRead(c, world, start, known, base, seen, visits[..n], w);
      PassKeepsStep(c, world, start, known, base, seen, visits[..n]);
      var mid := KnownAfterVisits(world, known, visits[..n]);
      var p := PassOf(c, seen, visits[..n]);
      PathInWorld(c, world, v);
      assert InStep(world, p.seen, start, mid, base + p.ops, v.path);
      VisitReads(c, world, mid, p, v);
      ClaimAfterVisit(world, known, mid, KnownThen(world, mid, v), v.path, p.coverage, w);
    }
  }

  /** One run of records more: the claim stays, or becomes the seqno of one of them. */
  lemma ClaimAfterVisit(world: World, known: Counts, mid: Counts, known': Counts, q: Path, v: Vector, w: Writer)
    requires q in world && NoSmaller(known, mid) && CountAt(mid, q) <= CountAt(known', q) <= |world[q].records|
    requires forall r :: r != q ==> CountAt(known', r) == CountAt(mid, r)
    requires At(v, w) == 0 || Fresh(world, known, mid, w, At(v, w))
    ensures NoSmaller(known, known')
    ensures var n := At(RaiseAll(v, q.writer, world[q].records[CountAt(mid, q)..CountAt(known', q)]), w);
            n == 0 || Fresh(world, known, known', w, n)
  {
    hide RaiseAll;
    var k := CountAt(mid, q);
    var rs := world[q].records[k..CountAt(known', q)];
    RaiseAllAt(v, q.writer, rs, w);
    var claim := At(RaiseAll(v, q.writer, rs), w);
    if claim == At(v, w) {
      if claim != 0 {
        FreshGrows(world, known, mid, known', w, claim);
      }
    } else {
      var i :| 0 <= i < |rs| && rs[i].seqno == claim;
      assert world[q].records[k + i].seqno == claim;
    }
  }

  lemma PathInWorld(c: Codec, world: World, v: Visit)
    requires SeesPrefix(c, world, v)
    ensures v.path in world && v.file.Some?
  {
  }

  lemma FreshGrows(world: World, known: Counts, mid: Counts, known': Counts, w: Writer, n: nat)
    requires Fresh(world, known, mid, w, n) && NoSmaller(mid, known')
    requires forall p :: p in world && CountAt(mid, p) < CountAt(known', p) ==> CountAt(known', p) <= |world[p].records|
    ensures Fresh(world, known, known', w, n)
  {
  }

  lemma FreshClaimsAreClosed(world: World, known: Counts, known': Counts, v: Vector)
    requires Numbered(world) && EldersWhole(world, known, known')
    requires forall w :: At(v, w) == 0 || Fresh(world, known, known', w, At(v, w))
    ensures Closed(world, known', v)
  {
  }

  function AppliedCounts(world: World, start: Counts, items: seq<Item>): Counts {
    map p | p in world :: CountAt(start, p) + |RecordsAt(items, p)|
  }

  /** Pending claims concern records read, applied claims records applied (or from before the start). */
  ghost predicate ClaimsOk(world: World, start: Counts, known: Counts, s: State) {
    && Closed(world, known, s.pendingCoverage)
    && Closed(world, AppliedCounts(world, start, s.applied), s.walCoverage)
  }

  lemma CollectKeepsClaims(c: Codec, world: World, start: Counts, known: Counts, s: State, visits: seq<Visit>)
    requires WorldOk(c, world) && (forall v :: v in visits ==> SeesPrefix(c, world, v)) && Inv(world, start, known, s)
    requires Numbered(world) && FindsEldersFinished(world, known, visits)
    requires ClaimsOk(world, start, known, s)
    ensures ClaimsOk(world, start, KnownAfterVisits(world, known, visits), AfterCollect(c, s, visits))
  {
    hide SeesPrefix;
    hide PassOf;
    var known' := KnownAfterVisits(world, known, visits);
    var pass := PassOf(c, s.seen, visits);
    forall w: Writer ensures At(pass.coverage, w) == 0 || Fresh(world, known, known', w, At(pass.coverage, w)) {
      PassClaimsWhatItRead(c, world, start, known, s.applied + s.pending, s.seen, visits, w);
    }
    PassClaimsWhatItRead(c, world, start, known, s.applied + s.pending, s.seen, visits, 0);
    PassKeepsStep(c, world, start, known, s.applied + s.pending, s.seen, visits);
    CountsInRange(world, s.seen, start, known, s.applied + s.pending);
    FinishedEldersAreWhole(world, known, visits);
    FreshClaimsAreClosed(world, known, known', pass.coverage);
    JoinIsClosed(world, known, known', s.pendingCoverage, pass.coverage);
  }

  lemma CountsInRange(world: World, seen: map<Path, nat>, start: Counts, known: Counts, items: seq<Item>)
    requires AllInStep(world, seen, start, known, items)
    ensures forall p :: p in world ==>
            CountAt(known, p) <= |world[p].records| && IsOffset(world[p], SeenAt(seen, p), CountAt(known, p))
  {
    hide RecordsAt;
    forall p | p in world
      ensures CountAt(known, p) <= |world[p].records| && IsOffset(world[p], SeenAt(seen, p), CountAt(known, p))
    {
      assert InStep(world, seen, start, known, items, p);
    }
  }

  lemma JoinIsClosed(world: World, known: Counts, known': Counts, a: Vector, b: Vector)
    requires Closed(world, known, a) && Closed(world, known', b)
    requires forall p :: p in world ==> CountAt(known, p) <= CountAt(known', p)
    ensures Closed(world, known', Join(a, b))
  {
  }

  /** Applying moves the claims together with the records: the coverage vector never runs ahead of the state. */
  lemma ApplyKeepsClaims(world: World, start: Counts, known: Counts, s: State)
    requires Inv(world, start, known, s) && ClaimsOk(world, start, known, s)
    ensures ClaimsOk(world, start, known, AfterApply(s))
  {
    hide RecordsAt;
    hide SizeOf;
    if s.pending != [] {
      var before := AppliedCounts(world, start, s.applied);
      var after := AppliedCounts(world, start, s.applied + s.pending);
      forall p | p in world ensures CountAt(before, p) <= CountAt(after, p) == CountAt(known, p) {
        assert InStep(world, s.seen, start, known, s.applied + s.pending, p);
        RecordsAtAppend(s.applied, s.pending, p);
      }
      assert Closed(world, after, s.pendingCoverage);
      JoinIsClosed(world, before, after, s.walCoverage, s.pendingCoverage);
    }
  }

  /** Every collect of the run finds rotated segments finished. */
  ghost predicate FindsRotatedFinished(world: World, known: Counts, steps: seq<Step>)
    decreases |steps|
  {
    if steps == [] then true
    else if steps[0].Apply? then FindsRotatedFinished(world, known, steps[1..])
    else
      && FindsEldersFinished(world, known, steps[0].visits)
      && FindsRotatedFinished(world, KnownAfterVisits(world, known, steps[0].visits), steps[1..])
  }

  /**
   Whatever the interleaving, a record whose seqno the coverage vector claims
   for its writer has been applied, or lay before the starting offset.
   */
  lemma {:induction false} CoverageClaimsOnlyApplied(c: Codec, world: World, start: Counts, known: Counts, s: State,
                                                     steps: seq<Step>)
    requires WorldOk(c, world) && AllSee(c, world, steps) && Inv(world, start, known, s)
    requires Numbered(world) && FindsRotatedFinished(world, known, steps) && ClaimsOk(world, start, known, s)
    ensures ClaimsOk(world, start, Counted(world, known, steps), Run(c, s, steps))
    decreases |steps|
  {
    hide Inv;
    hide ClaimsOk;
    hide SeesPrefix;
    hide Numbered;
    hide FindsEldersFinished;
    if steps != [] {
      var step := steps[0];
      var known' := if step.Collect? then KnownAfterVisits(world, known, step.visits) else known;
      match step {
        case Collect(visits) =>
          CollectKeepsInv(c, world, start, known, s, visits);
          CollectKeepsClaims(c, world, start, known, s, visits);
        case Apply =>
          ApplyKeepsInv(world, start, known, s);
          ApplyKeepsClaims(world, start, known, s);
      }
      forall i, v | 0 <= i < |steps[1..]| && steps[1..][i].Collect? && v in steps[1..][i].visits
        ensures SeesPrefix(c, world, v)
      {
        assert steps[i + 1] == steps[1..][i];
      }
      CoverageClaimsOnlyApplied(c, world, start, known', Next(c, s, step), steps[1..]);
    }
  }

  // ---- coverage keeps up with what was applied -----------------------------

  /** The vector says for the writer the largest seqno among these records and what `base` said. */
  ghost predicate Latest(base: Vector, items: seq<Item>, v: Vector, w: Writer) {
    && At(base, w) <= At(v, w)
    && (forall x :: x in items && x.path.writer == w ==> x.rec.seqno <= At(v, w))
    && (At(v, w) == At(base, w) || exists x :: x in items && x.path.writer == w && x.rec.seqno == At(v, w))
  }

  lemma LatestThen(base: Vector, xs: seq<Item>, v: Vector, ys: seq<Item>, v': Vector, w: Writer)
    requires Latest(base, xs, v, w) && Latest(v, ys, v', w)
    ensures Latest(base, xs + ys, v', w)
  {
    assert forall x :: x in xs + ys <==> x in xs || x in ys;
  }

  lemma LatestJoin(base: Vector, xs: seq<Item>, v: Vector, ys: seq<Item>, u: Vector, w: Writer)
    requires Latest(base, xs, v, w) && Latest(map[], ys, u, w)
    ensures Latest(base, xs + ys, Join(v, u), w)
  {
    assert forall x :: x in xs + ys <==> x in xs || x in ys;
  }

  lemma {:induction false} RaisedIsLatest(v: Vector, p: Path, rs: seq<Record>, w: Writer)
    ensures Latest(v, ItemsFrom(p, rs), RaiseAll(v, p.writer, rs), w)
  {
    if rs != [] {
      var n := |rs| - 1;
      RaisedIsLatest(v, p, rs[..n], w);
      var mid := RaiseAll(v, p.writer, rs[..n]);
      var last := Item(p, rs[n]);
      assert ItemsFrom(p, rs) == ItemsFrom(p, rs[..n]) + [last];
      assert last in [last];
      LatestThen(v, ItemsFrom(p, rs[..n]), mid, [last], Raise(mid, p.writer, rs[n].seqno), w);
    }
  }

  lemma {:induction false} PassIsLatest(c: Codec, seen: map<Path, nat>, visits: seq<Visit>, w: Writer)
    ensures var p := PassOf(c, seen, visits); Latest(map[], p.ops, p.coverage, w)
  {
    hide TailFrom;
    hide Latest;
    hide RaiseAll;
    if visits == [] {
      NothingIsLatest(w);
    } else {
      var v := visits[|visits| - 1];
      var p := PassOf(c, seen, visits[..|visits| - 1]);
      PassIsLatest(c, seen, visits[..|visits| - 1], w);
      if p.ok && v.file.Some? {
        var t := TailFrom(c, v.file.value, SeenAt(p.seen, v.path));
        if t.Tail? {
          RaisedIsLatest(p.coverage, v.path, t.delivered, w);
          LatestThen(map[], p.ops, p.coverage, ItemsFrom(v.path, t.delivered),
                     RaiseAll(p.coverage, v.path.writer, t.delivered), w);
        }
      }
    }
  }

  lemma NothingIsLatest(w: Writer)
    ensures Latest(map[], [], map[], w)
  {
  }

  /** Pending coverage is exactly that of the pending records, the vector that of the applied ones on top of `base`. */
  ghost predicate KeepsUp(base: Vector, s: State) {
    forall w :: Latest(map[], s.pending, s.pendingCoverage, w) && Latest(base, s.applied, s.walCoverage, w)
  }

  lemma StepKeepsUp(c: Codec, base: Vector, s: State, step: Step)
    requires KeepsUp(base, s)
    ensures KeepsUp(base, Next(c, s, step))
  {
    hide PassOf;
    var t := Next(c, s, step);
    forall w ensures Latest(map[], t.pending, t.pendingCoverage, w) && Latest(base, t.applied, t.walCoverage, w) {
      assert Latest(map[], s.pending, s.pendingCoverage, w) && Latest(base, s.applied, s.walCoverage, w);
      hide Latest;
      match step {
        case Collect(visits) =>
          var p := PassOf(c, s.seen, visits);
          PassIsLatest(c, s.seen, visits, w);
          LatestJoin(map[], s.pending, s.pendingCoverage, p.ops, p.coverage, w);
        case Apply =>
          NothingIsLatest(w);
          LatestJoin(base, s.applied, s.walCoverage, s.pending, s.pendingCoverage, w);
      }
    }
  }

  /**
   In every run, whatever the visits find, the coverage vector says for each
   writer exactly the largest seqno applied from it, or what it said at first.
   */
  lemma {:induction false} CoverageIsLatestApplied(c: Codec, base: Vector, s: State, steps: seq<Step>)
    requires KeepsUp(base, s)
    ensures KeepsUp(base, Run(c, s, steps))
    ensures var t := Run(c, s, steps);
            && (forall x :: x in t.applied ==> x.rec.seqno <= At(t.walCoverage, x.path.writer))
            && (forall x :: x in t.pending ==> x.rec.seqno <= At(Join(t.walCoverage, t.pendingCoverage), x.path.writer))
    decreases |steps|
  {
    if steps == [] {
      assert forall x :: x in s.applied + s.pending <==> x in s.applied || x in s.pending;
      forall x | x in s.applied + s.pending
        ensures x in s.applied ==> x.rec.seqno <= At(s.walCoverage, x.path.writer)
        ensures x in s.pending ==> x.rec.seqno <= At(Join(s.walCoverage, s.pendingCoverage), x.path.writer)
      {
        assert Latest(base, s.applied, s.walCoverage, x.path.writer);
        assert Latest(map[], s.pending, s.pendingCoverage, x.path.writer);
      }
    } else {
      StepKeepsUp(c, base, s, steps[0]);
      hide KeepsUp;
      hide Next;
      CoverageIsLatestApplied(c, base, Next(c, s, steps[0]), steps[1..]);
    }
  }

  /**
   A follower that starts with `base` claims for a writer what it claimed then,
   or the largest seqno applied since.
   */
  lemma FollowerKeepsUp(c: Codec, seen: map<Path, nat>, base: Vector, steps: seq<Step>, w: Writer)
    ensures var t := Run(c, State(seen, [], map[], [], base), steps);
            && At(base, w) <= At(t.walCoverage, w)
            && (forall x :: x in t.applied && x.path.writer == w ==> x.rec.seqno <= At(t.walCoverage, w))
            && (At(t.walCoverage, w) == At(base, w)
                || exists x :: x in t.applied && x.path.writer == w && x.rec.seqno == At(t.walCoverage, w))
  {
    var s := State(seen, [], map[], [], base);
    assert KeepsUp(base, s);
    CoverageIsLatestApplied(c, base, s, steps);
    assert Latest(base, Run(c, s, steps).applied, Run(c, s, steps).walCoverage, w);
  }

  // ---- the two phases as methods -------------------------------------------

  class PeerSync {
    var seenOffsets: map<Path, nat>
    var pendingOps: seq<Item>
    var pendingCoverage: Vector
    var walCoverage: Vector
    /** Every op handed to the store so far. */
    ghost var applied: seq<Item>

    ghost function St(): State
      reads this
    {
      State(seenOffsets, pendingOps, pendingCoverage, applied, walCoverage)
    }

    constructor (seen: map<Path, nat>, coverage: Vector)
      ensures St() == State(seen, [], map[], [], coverage)
    {
      seenOffsets, pendingOps, pendingCoverage, walCoverage, applied := seen, [], map[], coverage, [];
    }

    /** Phase 1: read what is new in each listed segment; an error abandons the pass half-way. */
    method Collect(c: Codec, visits: seq<Visit>) returns (ok: bool)
      modifies this`seenOffsets, this`pendingOps, this`pendingCoverage
      ensures St() == AfterCollect(c, old(St()), visits)
      ensures ok <==> PassOf(c, old(seenOffsets), visits).ok
    {
      hide TailFrom;
      var ops: seq<Item> := [];
      var coverage: Vector := map[];
      ghost var seen0 := seenOffsets;
      for i := 0 to |visits|
        invariant Pass(seenOffsets, ops, coverage, true) == PassOf(c, seen0, visits[..i])
        invariant pendingOps == old(pendingOps) && pendingCoverage == old(pendingCoverage)
      {
        var v := visits[i];
        assert visits[..i + 1][..i] == visits[..i];
        if v.file.None? {
          FailedStays(c, seen0, visits, i + 1);
          return false;
        }
        var t := ReplayFromOffset(c, v.file.value, if v.path in seenOffsets then seenOffsets[v.path] else 0);
        if t.BadMagic? {
          FailedStays(c, seen0, visits, i + 1);
          return false;
        }
        ops := ops + ItemsFrom(v.path, t.delivered);
        coverage := RaiseAll(coverage, v.path.writer, t.delivered);
        seenOffsets := seenOffsets[v.path := t.offset];
      }
      assert visits[..|visits|] == visits;
      pendingOps := pendingOps + ops;
      pendingCoverage := Join(pendingCoverage, coverage);
      ok := true;
    }

    /** Phase 2: apply everything pending, then extend the coverage vector. */
    method Apply() returns (count: nat)
      modifies this`pendingOps, this`pendingCoverage, this`walCoverage, this`applied
      ensures St() == AfterApply(old(St())) && count == |old(pendingOps)|
      ensures applied == old(applied) + old(pendingOps) && pendingOps == []
      ensures old(pendingOps) != [] ==> walCoverage == Join(old(walCoverage), old(pendingCoverage))
    {
      count := |pendingOps|;
      if count == 0 {
        assert applied + pendingOps == applied;
        return;
      }
      var ops, fresh' := pendingOps, pendingCoverage;
      pendingOps, pendingCoverage := [], map[];
      applied := applied + ops;
      walCoverage := Join(walCoverage, fresh');
    }
  }

  /** A pass that has failed stays as it is. */
  lemma {:induction false} FailedStays(c: Codec, seen: map<Path, nat>, visits: seq<Visit>, i: nat)
    requires i <= |visits|
    ensures !PassOf(c, seen, visits[..i]).ok ==> PassOf(c, seen, visits) == PassOf(c, seen, visits[..i])
    decreases |visits|
  {
    hide TailFrom;
    var n := |visits| - 1;
    if i > n {
      assert visits[..i] == visits;
    } else {
      assert visits[..n][..i] == visits[..i];
      FailedStays(c, seen, visits[..n], i);
    }
  }
}
