/**
 Multi-writer merge replay (src/log.rs `replay_certified`, src/ops.rs
 `op_timestamp`): the records of all writers' segments are buffered with a
 carried-forward timestamp and applied in (timestamp, writer, seqno) order.
 Writers whose every segment is certified as covered are skipped whole.
 */
module MergeReplay {
  import opened Collections
  import opened Bytes
  import opened WalRecords
  import WalReplay

  type Writer = nat

  datatype Rec = Rec(seqno: nat, op: Op)

  /** A record as the walk meets it. */
  datatype Item = Item(writer: Writer, rec: Rec)

  /** A buffered record: its effective timestamp, writer, seqno and op. */
  datatype Entry = Entry(eff: int, writer: Writer, seqno: nat, op: Op)

  // ---- the clock -----------------------------------------------------------

  function NonZero(v: int): Option<int> {
    if v > 0 then Some(v) else None
  }

  function MaxOf(xs: seq<int>): (m: int)
    requires xs != []
    ensures m in xs && forall x :: x in xs ==> x <= m
  {
    var n := |xs| - 1;
    if n == 0 then xs[0]
    else
      var m := MaxOf(xs[..n]);
      assert forall x :: x in xs <==> x in xs[..n] || x == xs[n];
      if m < xs[n] then xs[n] else m
  }

  /** Unset (non-positive) clocks count as none; a batch has the latest of its stamps. */
  function OpTimestamp(op: Op): Option<int> {
    match op
    case Timed(_, ts, _) => NonZero(ts)
    case Clockless(_, _) => None
    case StateBatch(_, stamps, _) => if stamps == [] then None else NonZero(MaxOf(stamps))
  }

  function Advance(prev: int, op: Op): int {
    var ts := if OpTimestamp(op).Some? then OpTimestamp(op).value else prev;
    if ts > prev then ts else prev
  }

  /** The effective timestamp after a writer's records: carried forward, never falling. */
  function Clock(rs: seq<Rec>): int {
    if rs == [] then 0 else Advance(Clock(rs[..|rs| - 1]), rs[|rs| - 1].op)
  }

  /** The op carries the timestamp, alone or in its batch. */
  predicate Shows(op: Op, ts: int) {
    match op
    case Timed(_, t, _) => t == ts
    case Clockless(_, _) => false
    case StateBatch(_, stamps, _) => ts in stamps
  }

  lemma LatestShown(op: Op)
    ensures OpTimestamp(op).Some? ==> OpTimestamp(op).value > 0 && Shows(op, OpTimestamp(op).value)
    ensures forall ts :: Shows(op, ts) && ts > 0 ==> OpTimestamp(op).Some? && ts <= OpTimestamp(op).value
  {
  }

  /**
   The carried clock is the latest timestamp that the writer's records have
   shown so far, and zero before the first.
   */
  lemma {:induction false} ClockIsLatest(rs: seq<Rec>)
    ensures Clock(rs) >= 0
    ensures forall r, ts :: r in rs && Shows(r.op, ts) ==> ts <= Clock(rs)
    ensures Clock(rs) == 0 || exists r :: r in rs && Shows(r.op, Clock(rs))
  {
    hide Shows;
    hide OpTimestamp;
    if rs != [] {
      var n := |rs| - 1;
      ClockIsLatest(rs[..n]);
      LatestShown(rs[n].op);
      assert forall r :: r in rs <==> r in rs[..n] || r == rs[n];
      if Clock(rs) != Clock(rs[..n]) {
        assert rs[n] in rs && Shows(rs[n].op, Clock(rs));
      } else if Clock(rs) != 0 {
        var r :| r in rs[..n] && Shows(r.op, Clock(rs[..n]));
        assert r in rs;
      }
    }
  }

  lemma {:induction false} ClockMonotone(rs: seq<Rec>, i: nat, j: nat)
    requires i <= j <= |rs|
    ensures Clock(rs[..i]) <= Clock(rs[..j])
    decreases j
  {
    if i < j {
      assert rs[..j][..j - 1] == rs[..j - 1];
      ClockMonotone(rs, i, j - 1);
    }
  }

  /** A writer's records with their effective timestamps. */
  function Stamped(w: Writer, rs: seq<Rec>): (es: seq<Entry>)
    ensures |es| == |rs|
  {
    seq(|rs|, i requires 0 <= i < |rs| => Entry(Clock(rs[..i + 1]), w, rs[i].seqno, rs[i].op))
  }

  // ---- projections ---------------------------------------------------------

  /** One writer's records, in the order walked. */
  function RecordsOf(items: seq<Item>, w: Writer): seq<Rec> {
    if items == [] then []
    else
      var n := |items| - 1;
      RecordsOf(items[..n], w) + (if items[n].writer == w then [items[n].rec] else [])
  }

  /** One writer's entries, in the order they stand. */
  function EntriesOf(es: seq<Entry>, w: Writer): (r: seq<Entry>)
    ensures forall e :: e in r <==> e in es && e.writer == w
  {
    if es == [] then []
    else
      var n := |es| - 1;
      assert forall e :: e in es <==> e in es[..n] || e == es[n];
      EntriesOf(es[..n], w) + (if es[n].writer == w then [es[n]] else [])
  }

  lemma RecordsOfSnoc(items: seq<Item>, next: Item, w: Writer)
    ensures RecordsOf(items + [next], w) == RecordsOf(items, w) + (if next.writer == w then [next.rec] else [])
  {
  }

  lemma EntriesOfSnoc(es: seq<Entry>, e: Entry, w: Writer)
    ensures EntriesOf(es + [e], w) == EntriesOf(es, w) + (if e.writer == w then [e] else [])
  {
  }

  // ---- merge order ---------------------------------------------------------

  predicate Less(a: Entry, b: Entry) {
    a.eff < b.eff || (a.eff == b.eff && (a.writer < b.writer || (a.writer == b.writer && a.seqno < b.seqno)))
  }

  ghost predicate Sorted(es: seq<Entry>) {
    forall i, j :: 0 <= i < j < |es| ==> Less(es[i], es[j])
  }

  /** Time first, whoever wrote; then the writer; then the writer's own order. */
  lemma SortedIsByTime(es: seq<Entry>)
    requires Sorted(es)
    ensures forall i, j :: 0 <= i < j < |es| ==> es[i].eff <= es[j].eff
    ensures forall i, j :: 0 <= i < j < |es| && es[i].eff == es[j].eff ==> es[i].writer <= es[j].writer
    ensures forall i, j :: 0 <= i < j < |es| && es[i].eff == es[j].eff && es[i].writer == es[j].writer ==>
              es[i].seqno < es[j].seqno
  {
    forall i, j | 0 <= i < j < |es|
      ensures es[i].eff <= es[j].eff
      ensures es[i].eff == es[j].eff ==> es[i].writer <= es[j].writer
      ensures es[i].eff == es[j].eff && es[i].writer == es[j].writer ==> es[i].seqno < es[j].seqno
    {
      assert Less(es[i], es[j]);
    }
  }

  /** Insert after everything not greater, as a stable sort does. */
  function Insert(e: Entry, es: seq<Entry>): (r: seq<Entry>)
    ensures |r| == |es| + 1 && forall x :: x in r <==> x == e || x in es
    ensures multiset(r) == multiset(es) + multiset{e}
  {
    if es == [] then [e]
    else
      var n := |es| - 1;
      assert es == es[..n] + [es[n]];
      if Less(e, es[n]) then Insert(e, es[..n]) + [es[n]] else es + [e]
  }

  function SortEntries(es: seq<Entry>): (r: seq<Entry>)
    ensures |r| == |es| && forall x :: x in r <==> x in es
    ensures multiset(r) == multiset(es)
  {
    if es == [] then []
    else
      var n := |es| - 1;
      assert es == es[..n] + [es[n]];
      Insert(es[n], SortEntries(es[..n]))
  }

  /** No two entries share writer and seqno. */
  ghost predicate Unique(es: seq<Entry>) {
    forall i, j :: 0 <= i < j < |es| ==> es[i].writer != es[j].writer || es[i].seqno != es[j].seqno
  }

  ghost predicate NewTo(e: Entry, es: seq<Entry>) {
    forall x :: x in es ==> x.writer != e.writer || x.seqno != e.seqno
  }

  lemma {:induction false} InsertSorted(e: Entry, es: seq<Entry>)
    requires Sorted(es) && NewTo(e, es)
    ensures Sorted(Insert(e, es))
  {
    if es != [] {
      var n := |es| - 1;
      if Less(e, es[n]) {
        InsertSorted(e, es[..n]);
        var r := Insert(e, es[..n]);
        forall i | 0 <= i < |r| ensures Less(r[i], es[n]) {
          assert r[i] in r;
        }
      } else {
        assert es[n] in es;
        assert forall i :: 0 <= i < n ==> Less(es[i], es[n]);
      }
    }
  }

  lemma {:induction false} SortSorts(es: seq<Entry>)
    requires Unique(es)
    ensures Sorted(SortEntries(es))
  {
    if es != [] {
      var n := |es| - 1;
      SortSorts(es[..n]);
      InsertSorted(es[n], SortEntries(es[..n]));
    }
  }

  lemma SortedNoLater(a: seq<Entry>, b: seq<Entry>, i: nat)
    requires Sorted(a) && Sorted(b) && forall e :: e in a <==> e in b
    requires i < |a| && i <= |b| && a[..i] == b[..i]
    ensures i < |b| && (b[i] == a[i] || Less(b[i], a[i]))
  {
    assert a[i] in b;
    assert forall j :: 0 <= j < i ==> a[j] == a[..i][j] == b[..i][j] == b[j];
    var j :| 0 <= j < |b| && b[j] == a[i];
    assert j >= i;
  }

  lemma {:induction false} SortedAgree(a: seq<Entry>, b: seq<Entry>, i: nat)
    requires Sorted(a) && Sorted(b) && forall e :: e in a <==> e in b
    requires i <= |a|
    ensures i <= |b| && a[..i] == b[..i]
  {
    if i > 0 {
      SortedAgree(a, b, i - 1);
      SortedNoLater(a, b, i - 1);
      SortedNoLater(b, a, i - 1);
      assert a[..i] == a[..i - 1] + [a[i - 1]] && b[..i] == b[..i - 1] + [b[i - 1]];
    }
  }

  /** A set of entries has one sorted order. */
  lemma SortedUnique(a: seq<Entry>, b: seq<Entry>)
    requires Sorted(a) && Sorted(b) && forall e :: e in a <==> e in b
    ensures a == b
  {
    SortedAgree(a, b, |a|);
    SortedAgree(b, a, |b|);
    assert a[..|a|] == a && b[..|b|] == b;
  }

  // ---- what the merge is ---------------------------------------------------

  /** Each writer's seqnos strictly increase. */
  ghost predicate Increasing(rs: seq<Rec>) {
    forall i, j :: 0 <= i < j < |rs| ==> rs[i].seqno < rs[j].seqno
  }

  ghost predicate WellNumbered(items: seq<Item>) {
    forall w :: Increasing(RecordsOf(items, w))
  }

  /** The buffer of a walk: every writer's records, stamped, in that writer's order. */
  ghost predicate IsBuffer(buf: seq<Entry>, items: seq<Item>) {
    |buf| == |items| && forall w :: EntriesOf(buf, w) == Stamped(w, RecordsOf(items, w))
  }

  /**
   The merged stream of a walk: in merge order throughout, and for each writer
   exactly its own records, in its own order, with its carried timestamps.
   */
  ghost predicate IsMerge(out: seq<Entry>, items: seq<Item>) {
    Sorted(out) && forall w :: EntriesOf(out, w) == Stamped(w, RecordsOf(items, w))
  }

  lemma StampedSorted(w: Writer, rs: seq<Rec>)
    requires Increasing(rs)
    ensures Sorted(Stamped(w, rs))
  {
    forall i, j | 0 <= i < j < |rs| ensures Less(Stamped(w, rs)[i], Stamped(w, rs)[j]) {
      ClockMonotone(rs, i + 1, j + 1);
    }
  }

  lemma {:induction false} ProjectionSorted(es: seq<Entry>, w: Writer)
    requires Sorted(es)
    ensures Sorted(EntriesOf(es, w))
  {
    if es != [] {
      var n := |es| - 1;
      ProjectionSorted(es[..n], w);
      var r := EntriesOf(es[..n], w);
      forall i | 0 <= i < |r| ensures Less(r[i], es[n]) {
        assert r[i] in es[..n];
      }
    }
  }

  lemma BufferIsUnique(buf: seq<Entry>, items: seq<Item>, e: Entry, next: Item)
    requires IsBuffer(buf, items) && WellNumbered(items + [next])
    requires e.writer == next.writer && e.seqno == next.rec.seqno
    ensures NewTo(e, buf)
  {
    hide RecordsOf;
    hide EntriesOf;
    var rs := RecordsOf(items, e.writer);
    RecordsOfSnoc(items, next, e.writer);
    assert Increasing(RecordsOf(items + [next], e.writer));
    assert EntriesOf(buf, e.writer) == Stamped(e.writer, rs);
    forall x | x in buf && x.writer == e.writer ensures x.seqno != e.seqno {
      assert x in Stamped(e.writer, rs);
      var i :| 0 <= i < |rs| && Stamped(e.writer, rs)[i] == x;
      assert (rs + [next.rec])[i].seqno < (rs + [next.rec])[|rs|].seqno;
    }
  }

  lemma WellNumberedPrefix(items: seq<Item>, next: Item)
    requires WellNumbered(items + [next])
    ensures WellNumbered(items)
  {
    hide RecordsOf;
    forall w ensures Increasing(RecordsOf(items, w)) {
      RecordsOfSnoc(items, next, w);
      var full := RecordsOf(items + [next], w);
      assert Increasing(full);
      assert forall i :: 0 <= i < |RecordsOf(items, w)| ==> full[i] == RecordsOf(items, w)[i];
    }
  }

  lemma StampedOneMore(w: Writer, rs: seq<Rec>, r: Rec)
    ensures Stamped(w, rs + [r]) == Stamped(w, rs) + [Entry(Advance(Clock(rs), r.op), w, r.seqno, r.op)]
  {
    hide Advance;
    assert (rs + [r])[..|rs| + 1] == rs + [r] && (rs + [r])[..|rs|] == rs;
    forall i | 0 <= i < |rs| ensures Stamped(w, rs + [r])[i] == Stamped(w, rs)[i] {
      assert (rs + [r])[..i + 1] == rs[..i + 1];
    }
  }

  /** One more record walked. */
  lemma WalkOne(buf: seq<Entry>, items: seq<Item>, next: Item)
    requires IsBuffer(buf, items)
    ensures var eff := Advance(Clock(RecordsOf(items, next.writer)), next.rec.op);
            IsBuffer(buf + [Entry(eff, next.writer, next.rec.seqno, next.rec.op)], items + [next])
  {
    hide RecordsOf;
    hide EntriesOf;
    hide Stamped;
    hide Advance;
    hide Clock;
    var w0 := next.writer;
    var rs0 := RecordsOf(items, w0);
    var e := Entry(Advance(Clock(rs0), next.rec.op), w0, next.rec.seqno, next.rec.op);
    forall w ensures EntriesOf(buf + [e], w) == Stamped(w, RecordsOf(items + [next], w)) {
      assert EntriesOf(buf, w) == Stamped(w, RecordsOf(items, w));
      RecordsOfSnoc(items, next, w);
      EntriesOfSnoc(buf, e, w);
      StampedOneMore(w, RecordsOf(items, w), next.rec);
      assert w != w0 ==> RecordsOf(items, w) + [] == RecordsOf(items, w) && EntriesOf(buf, w) + [] == EntriesOf(buf, w);
    }
  }

  /** Sorting the buffer of a well-numbered walk gives its merge. */
  lemma SortedBufferIsMerge(buf: seq<Entry>, items: seq<Item>)
    requires IsBuffer(buf, items) && Unique(buf) && WellNumbered(items)
    ensures IsMerge(SortEntries(buf), items)
  {
    var out := SortEntries(buf);
    SortSorts(buf);
    forall w ensures EntriesOf(out, w) == Stamped(w, RecordsOf(items, w)) {
      var rs := RecordsOf(items, w);
      assert Increasing(rs);
      StampedSorted(w, rs);
      ProjectionSorted(out, w);
      assert EntriesOf(buf, w) == Stamped(w, rs);
      SortedUnique(EntriesOf(out, w), Stamped(w, rs));
    }
  }

  /** Walks that give each writer the same records merge to the same stream, however they were cut or ordered. */
  lemma MergeDependsOnWritersOnly(a: seq<Entry>, b: seq<Entry>, items: seq<Item>, items': seq<Item>)
    requires IsMerge(a, items) && IsMerge(b, items')
    requires forall w :: RecordsOf(items, w) == RecordsOf(items', w)
    ensures a == b
  {
    forall e: Entry ensures e in a <==> e in b {
      assert EntriesOf(a, e.writer) == Stamped(e.writer, RecordsOf(items, e.writer));
      assert EntriesOf(b, e.writer) == Stamped(e.writer, RecordsOf(items', e.writer));
      assert RecordsOf(items, e.writer) == RecordsOf(items', e.writer);
      assert e in EntriesOf(a, e.writer) <==> e in a;
      assert e in EntriesOf(b, e.writer) <==> e in b;
    }
    SortedUnique(a, b);
  }

  // ---- segments, certificates and the walk ---------------------------------

  datatype Name = Name(writer: Writer, first: nat)

  /**
   A segment file: the writer and first seqno in its name, its records and
   size, the hash of its last record if it has one, the vector space stamped
   in its header if any, and whether it is being written.
   */
  datatype Seg = Seg(
    writer: Writer,
    first: nat,
    records: seq<Rec>,
    size: nat,
    tip: Option<bytes>,
    space: Option<nat>,
    open: bool)

  type Vector = map<Writer, nat>

  /** The checkpoint family: its vector space, what its two snapshots cover, and its segment certificates. */
  datatype Family = Family(
    space: Option<nat>,
    covered: Vector,
    corticalCovered: Vector,
    certificates: map<Name, WalReplay.Certificate>)

  /**
   `covered_segment`: there is a certificate for the name, it is consistent and
   fits the file, and both snapshots include its last seqno.
   */
  predicate Eligible(g: Seg, f: Family) {
    && Name(g.writer, g.first) in f.certificates
    && var cert := f.certificates[Name(g.writer, g.first)];
    && cert.first == g.first && cert.last >= (if g.first == 0 then 0 else g.first - 1)
    && g.writer in f.covered && g.writer in f.corticalCovered
    && !g.open
    && cert.last <= f.covered[g.writer] && cert.last <= f.corticalCovered[g.writer]
    && cert.size == g.size
  }

  /** Only a family of the store's own vector space certifies anything, and then whole writers only. */
  predicate Skipped(segs: seq<Seg>, family: Option<Family>, own: nat, w: Writer) {
    && family.Some? && family.value.space == Some(own)
    && (exists i :: 0 <= i < |segs| && segs[i].writer == w)
    && forall i :: 0 <= i < |segs| && segs[i].writer == w ==> Eligible(segs[i], family.value)
  }

  /** The lineage fence: a segment stamped with another vector space is not replayed. */
  predicate Foreign(g: Seg, own: nat) {
    g.space.Some? && g.space.value != own
  }

  function Fence(segs: seq<Seg>, own: nat): (r: seq<Seg>)
    ensures forall g :: g in r <==> g in segs && !Foreign(g, own)
  {
    if segs == [] then []
    else
      var n := |segs| - 1;
      assert forall g :: g in segs <==> g in segs[..n] || g == segs[n];
      Fence(segs[..n], own) + (if Foreign(segs[n], own) then [] else [segs[n]])
  }

  function ItemsOf(w: Writer, rs: seq<Rec>): (r: seq<Item>)
    ensures |r| == |rs|
  {
    seq(|rs|, i requires 0 <= i < |rs| => Item(w, rs[i]))
  }

  /** The records met when walking the segments, leaving out the writers in `skip`. */
  function Walk(segs: seq<Seg>, skip: set<Writer>): seq<Item> {
    if segs == [] then []
    else
      var n := |segs| - 1;
      Walk(segs[..n], skip) + (if segs[n].writer in skip then [] else ItemsOf(segs[n].writer, segs[n].records))
  }

  lemma {:induction false} RecordsOfAppend(a: seq<Item>, b: seq<Item>, w: Writer)
    ensures RecordsOf(a + b, w) == RecordsOf(a, w) + RecordsOf(b, w)
  {
    if b == [] {
      assert a + b == a;
    } else {
      var n := |b| - 1;
      assert (a + b)[..|a| + n] == a + b[..n];
      RecordsOfAppend(a, b[..n], w);
    }
  }

  lemma {:induction false} RecordsOfItems(w: Writer, rs: seq<Rec>, v: Writer)
    ensures RecordsOf(ItemsOf(w, rs), v) == if v == w then rs else []
  {
    if rs != [] {
      var n := |rs| - 1;
      assert ItemsOf(w, rs)[..n] == ItemsOf(w, rs[..n]);
      RecordsOfItems(w, rs[..n], v);
    }
  }

  /** One writer's records over all its segments. */
  function WriterRecords(segs: seq<Seg>, w: Writer): seq<Rec> {
    if segs == [] then []
    else
      var n := |segs| - 1;
      WriterRecords(segs[..n], w) + (if segs[n].writer == w then segs[n].records else [])
  }

  /** Walking gives every unskipped writer all its records and every skipped one none. */
  lemma {:induction false} WalkProjects(segs: seq<Seg>, skip: set<Writer>, w: Writer)
    ensures RecordsOf(Walk(segs, skip), w) == if w in skip then [] else WriterRecords(segs, w)
  {
    if segs != [] {
      var n := |segs| - 1;
      WalkProjects(segs[..n], skip, w);
      var more := if segs[n].writer in skip then [] else ItemsOf(segs[n].writer, segs[n].records);
      RecordsOfAppend(Walk(segs[..n], skip), more, w);
      RecordsOfItems(segs[n].writer, segs[n].records, w);
    }
  }

  lemma {:induction false} WriterHas(segs: seq<Seg>, w: Writer, r: Rec)
    ensures r in WriterRecords(segs, w) <==> exists g :: g in segs && g.writer == w && r in g.records
  {
    if segs != [] {
      var n := |segs| - 1;
      WriterHas(segs[..n], w, r);
      assert forall g :: g in segs <==> g in segs[..n] || g == segs[n];
    }
  }

  /**
   A merge holds exactly the records of the writers that are not skipped, out
   of the segments that carry no stamp or the store's own.
   */
  lemma MergeHoldsExactly(segs: seq<Seg>, own: nat, skip: set<Writer>, out: seq<Entry>, w: Writer, n: nat, op: Op)
    requires IsMerge(out, Walk(Fence(segs, own), skip))
    ensures (exists e :: e in out && e.writer == w && e.seqno == n && e.op == op) <==>
              && w !in skip
              && exists g :: g in segs && g.writer == w && g.space in {None, Some(own)} && Rec(n, op) in g.records
  {
    var fenced := Fence(segs, own);
    WalkProjects(fenced, skip, w);
    WriterHas(fenced, w, Rec(n, op));
    var rs := RecordsOf(Walk(fenced, skip), w);
    var es := EntriesOf(out, w);
    assert es == Stamped(w, rs);
    hide WriterRecords;
    hide RecordsOf;
    hide Walk;
    hide Clock;
    if e :| e in out && e.writer == w && e.seqno == n && e.op == op {
      assert e in es;
      var i :| 0 <= i < |es| && es[i] == e;
      assert rs[i] == Rec(n, op);
    }
    if Rec(n, op) in rs {
      var i :| 0 <= i < |rs| && rs[i] == Rec(n, op);
      assert es[i] in es;
    }
  }

  /** Keep the entries of writers outside `skip`. */
  function Erase(es: seq<Entry>, skip: set<Writer>): (r: seq<Entry>)
    ensures forall e :: e in r <==> e in es && e.writer !in skip
  {
    if es == [] then []
    else
      var n := |es| - 1;
      assert forall e :: e in es <==> e in es[..n] || e == es[n];
      Erase(es[..n], skip) + (if es[n].writer in skip then [] else [es[n]])
  }

  lemma {:induction false} EraseSorted(es: seq<Entry>, skip: set<Writer>)
    requires Sorted(es)
    ensures Sorted(Erase(es, skip))
  {
    if es != [] {
      var n := |es| - 1;
      EraseSorted(es[..n], skip);
      var r := Erase(es[..n], skip);
      forall i | 0 <= i < |r| ensures Less(r[i], es[n]) {
        assert r[i] in es[..n];
      }
    }
  }

  /**
   Certified replay delivers the full merged stream with exactly the skipped
   writers' entries erased; everyone else keeps order and timestamps.
   */
  lemma CertifiedReplayErases(segs: seq<Seg>, skip: set<Writer>, certified: seq<Entry>, all: seq<Entry>)
    requires IsMerge(certified, Walk(segs, skip)) && IsMerge(all, Walk(segs, {}))
    ensures certified == Erase(all, skip)
  {
    EraseSorted(all, skip);
    forall e: Entry ensures e in certified <==> e in Erase(all, skip) {
      var w := e.writer;
      WalkProjects(segs, skip, w);
      WalkProjects(segs, {}, w);
      assert EntriesOf(certified, w) == Stamped(w, RecordsOf(Walk(segs, skip), w));
      assert EntriesOf(all, w) == Stamped(w, RecordsOf(Walk(segs, {}), w));
      assert e in EntriesOf(certified, w) <==> e in certified;
      assert e in EntriesOf(all, w) <==> e in all;
    }
    SortedUnique(certified, Erase(all, skip));
  }

  /** The merge depends on each writer's records only, not on how they are cut into segments. */
  lemma SplitsDoNotMatter(segs: seq<Seg>, segs': seq<Seg>, skip: set<Writer>, a: seq<Entry>, b: seq<Entry>)
    requires IsMerge(a, Walk(segs, skip)) && IsMerge(b, Walk(segs', skip))
    requires forall w :: WriterRecords(segs, w) == WriterRecords(segs', w)
    ensures a == b
  {
    forall w: Writer ensures RecordsOf(Walk(segs, skip), w) == RecordsOf(Walk(segs', skip), w) {
      WalkProjects(segs, skip, w);
      WalkProjects(segs', skip, w);
      assert WriterRecords(segs, w) == WriterRecords(segs', w);
    }
    MergeDependsOnWritersOnly(a, b, Walk(segs, skip), Walk(segs', skip));
  }

  /** A certificate that fits its segment's size spans the segment's records. */
  ghost predicate Truthful(segs: seq<Seg>, f: Family) {
    forall i, r :: 0 <= i < |segs| && Name(segs[i].writer, segs[i].first) in f.certificates && r in segs[i].records ==>
      var cert := f.certificates[Name(segs[i].writer, segs[i].first)];
      cert.size == segs[i].size ==> cert.first <= r.seqno <= cert.last
  }

  /** The segment's records are what replaying its file delivers. */
  ghost predicate ReadFrom(c: Codec, g: Seg, file: bytes) {
    var replayed := WalReplay.Replay(c, file, ZERO_HASH, false).0;
    && |file| == g.size && replayed.Ok? && |g.records| == |replayed.delivered|
    && forall i :: 0 <= i < |g.records| ==>
         && g.records[i].seqno == replayed.delivered[i].seqno
         && c.decode(replayed.delivered[i].payload) == Some(g.records[i].op)
  }

  /** The certificate was issued by an earlier replay of the file, which has only been appended to since. */
  ghost predicate IssuedFor(c: Codec, cert: WalReplay.Certificate, file: bytes) {
    exists n, head :: 0 <= n <= |file| && IssuedBy(c, cert, file[..n], head)
  }

  ghost predicate IssuedBy(c: Codec, cert: WalReplay.Certificate, file: bytes, head: bytes) {
    var replayed := WalReplay.Replay(c, file, head, true).0;
    replayed.Ok? && replayed.certificate == Some(cert)
  }

  /** Certificates that replay issued are truthful: an append-only file of the certified size is the certified file. */
  lemma IssuedCertificatesAreTruthful(c: Codec, segs: seq<Seg>, f: Family, files: seq<bytes>)
    requires |files| == |segs| && forall i :: 0 <= i < |segs| ==> ReadFrom(c, segs[i], files[i])
    requires forall i :: 0 <= i < |segs| && Name(segs[i].writer, segs[i].first) in f.certificates ==>
               IssuedFor(c, f.certificates[Name(segs[i].writer, segs[i].first)], files[i])
    ensures Truthful(segs, f)
  {
    hide WalReplay.Replay;
    forall i, r | 0 <= i < |segs| && Name(segs[i].writer, segs[i].first) in f.certificates && r in segs[i].records
      ensures var cert := f.certificates[Name(segs[i].writer, segs[i].first)];
              cert.size == segs[i].size ==> cert.first <= r.seqno <= cert.last
    {
      var g, file := segs[i], files[i];
      var cert := f.certificates[Name(g.writer, g.first)];
      assert ReadFrom(c, g, file) && IssuedFor(c, cert, file);
      var n, head :| 0 <= n <= |file| && IssuedBy(c, cert, file[..n], head);
      WalReplay.CertificateIsTrue(c, file[..n], head, true);
      if cert.size == g.size {
        assert file[..n] == file;
        WalReplay.DeliveredIsTheFiles(c, file, ZERO_HASH, false, head, true);
        var k :| 0 <= k < |g.records| && g.records[k] == r;
        var delivered := WalReplay.Replay(c, file, head, true).0.delivered;
        assert delivered[k] in delivered;
      }
    }
  }

  /** With truthful certificates, every erased record is one that both loaded snapshots already include. */
  lemma {:induction false} ErasedRecordsAreCovered(segs: seq<Seg>, f: Family, w: Writer, r: Rec)
    requires Truthful(segs, f)
    requires forall i :: 0 <= i < |segs| && segs[i].writer == w ==> Eligible(segs[i], f)
    requires r in WriterRecords(segs, w)
    ensures w in f.covered && w in f.corticalCovered && r.seqno <= f.covered[w] && r.seqno <= f.corticalCovered[w]
  {
    var n := |segs| - 1;
    if segs[n].writer == w && r in segs[n].records {
      assert Eligible(segs[n], f);
    } else {
      ErasedRecordsAreCovered(segs[..n], f, w, r);
    }
  }

  // ---- chain continuity ----------------------------------------------------

  /** The walk's chain state: whose chain it is in, and that chain's head. */
  datatype ChainState = ChainState(writer: Option<Writer>, head: bytes)

  /** Crossing to another writer restarts the chain. */
  function Enter(st: ChainState, w: Writer): bytes {
    if st.writer == Some(w) then st.head else ZERO_HASH
  }

  function WalkChain(segs: seq<Seg>, skip: set<Writer>): ChainState {
    if segs == [] then ChainState(None, ZERO_HASH)
    else
      var n := |segs| - 1;
      var st := WalkChain(segs[..n], skip);
      if segs[n].writer in skip then st
      else ChainState(Some(segs[n].writer), if segs[n].tip.Some? then segs[n].tip.value else Enter(st, segs[n].writer))
  }

  /** Segment names sort by writer, so each writer's segments are adjacent. */
  ghost predicate Grouped(segs: seq<Seg>) {
    forall i, j, k :: 0 <= i < j < k < |segs| && segs[i].writer == segs[k].writer ==> segs[j].writer == segs[i].writer
  }

  lemma {:induction false} WalkChainWriter(segs: seq<Seg>, skip: set<Writer>)
    ensures WalkChain(segs, skip).writer.Some? ==>
              exists i :: 0 <= i < |segs| && segs[i].writer == WalkChain(segs, skip).writer.value
  {
    if segs != [] {
      var n := |segs| - 1;
      WalkChainWriter(segs[..n], skip);
      if segs[n].writer !in skip {
        assert segs[n].writer == WalkChain(segs, skip).writer.value;
      } else if WalkChain(segs, skip).writer.Some? {
        var i :| 0 <= i < n && segs[..n][i].writer == WalkChain(segs, skip).writer.value;
        assert segs[i].writer == segs[..n][i].writer;
      }
    }
  }

  /** Skipping whole writers changes no chain head that another writer's segment is checked against. */
  lemma {:induction false} SkippingKeepsChains(segs: seq<Seg>, skip: set<Writer>, i: nat)
    requires Grouped(segs) && i < |segs| && segs[i].writer !in skip
    ensures Enter(WalkChain(segs[..i], skip), segs[i].writer) == Enter(WalkChain(segs[..i], {}), segs[i].writer)
  {
    if i > 0 {
      assert segs[..i][..i - 1] == segs[..i - 1];
      if segs[i - 1].writer == segs[i].writer {
        SkippingKeepsChains(segs, skip, i - 1);
      } else {
        WalkChainWriter(segs[..i], skip);
        forall j | 0 <= j < i ensures segs[..i][j].writer != segs[i].writer {
          assert segs[j].writer != segs[i].writer;
        }
      }
    }
  }

  // ---- the replay itself ---------------------------------------------------

  function MaxSeqno(rs: seq<Rec>): (m: nat)
    ensures forall r :: r in rs ==> r.seqno <= m
    ensures m == 0 || exists r :: r in rs && r.seqno == m
  {
    if rs == [] then 0
    else
      var n := |rs| - 1;
      assert forall r :: r in rs <==> r in rs[..n] || r == rs[n];
      if rs[n].seqno > MaxSeqno(rs[..n]) then rs[n].seqno else MaxSeqno(rs[..n])
  }

  /** Decide which writers are wholly certified: one ineligible segment is enough to decode them. */
  method CertifiedWriters(segs: seq<Seg>, family: Option<Family>, own: nat) returns (skip: set<Writer>)
    ensures forall w :: w in skip <==> Skipped(segs, family, own, w)
    ensures skip != {} ==> family.Some? && family.value.space == Some(own)
    ensures forall g :: g in segs && g.writer in skip ==>
              && !g.open && Name(g.writer, g.first) in family.value.certificates
              && var cert := family.value.certificates[Name(g.writer, g.first)];
              && cert.first == g.first && cert.size == g.size && g.first <= cert.last + 1
              && g.writer in family.value.covered && cert.last <= family.value.covered[g.writer]
              && g.writer in family.value.corticalCovered && cert.last <= family.value.corticalCovered[g.writer]
  {
    if family.None? || family.value.space != Some(own) {
      return {};
    }
    var f := family.value;
    var writers: map<Writer, bool> := map[];
    for i := 0 to |segs|
      invariant forall w :: w in writers <==> exists j :: 0 <= j < i && segs[j].writer == w
      invariant forall w :: w in writers ==>
                (writers[w] <==> forall j :: 0 <= j < i && segs[j].writer == w ==> Eligible(segs[j], f))
    {
      var w := segs[i].writer;
      var soFar := if w in writers then writers[w] else true;
      writers := writers[w := soFar && Eligible(segs[i], f)];
    }
    skip := set w | w in writers && writers[w];
    forall g | g in segs && g.writer in skip ensures Eligible(g, f) {
      var i :| 0 <= i < |segs| && segs[i] == g;
    }
  }

  /** The buffer and the writers' clocks are those of the records walked so far. */
  ghost predicate Walked(items: seq<Item>, buf: seq<Entry>, lastTs: map<Writer, int>) {
    && IsBuffer(buf, items) && Unique(buf)
    && forall w :: Clock(RecordsOf(items, w)) == if w in lastTs then lastTs[w] else 0
  }

  /** The coverage vector has, for each writer walked, the largest seqno met. */
  ghost predicate Covering(items: seq<Item>, coverage: Vector, skip: set<Writer>) {
    && (forall w :: w in coverage && w !in skip ==> coverage[w] == MaxSeqno(RecordsOf(items, w)))
    && (forall w :: w !in coverage ==> RecordsOf(items, w) == [])
  }

  /** Stamp and buffer one record, moving its writer's clock and coverage. */
  method BufferRecord(w: Writer, r: Rec, lastTs: map<Writer, int>, coverage: Vector, buf: seq<Entry>,
                      ghost items: seq<Item>, ghost skip: set<Writer>)
    returns (lastTs': map<Writer, int>, coverage': Vector, buf': seq<Entry>)
    requires Walked(items, buf, lastTs) && Covering(items, coverage, skip) && w in coverage && w !in skip
    requires WellNumbered(items + [Item(w, r)])
    ensures Walked(items + [Item(w, r)], buf', lastTs')
    ensures Covering(items + [Item(w, r)], coverage', skip)
    ensures coverage'.Keys == coverage.Keys && forall v :: v in coverage && v != w ==> coverage'[v] == coverage[v]
  {
    hide RecordsOf;
    hide IsBuffer;
    hide WellNumbered;
    hide MaxSeqno;
    hide Clock;
    ghost var next := Item(w, r);
    var prev := if w in lastTs then lastTs[w] else 0;
    var eff := Advance(prev, r.op);
    lastTs' := lastTs[w := eff];
    coverage' := coverage;
    if r.seqno > coverage[w] {
      coverage' := coverage[w := r.seqno];
    }
    var e := Entry(eff, w, r.seqno, r.op);
    buf' := buf + [e];
    BufferIsUnique(buf, items, e, next);
    WalkOne(buf, items, next);
    ClockSnoc(items, next);
    forall v | v != w ensures RecordsOf(items + [next], v) == RecordsOf(items, v) {
      RecordsOfSnoc(items, next, v);
      assert RecordsOf(items, v) + [] == RecordsOf(items, v);
    }
  }

  /** Buffer one segment's records. */
  method BufferSegment(g: Seg, lastTs: map<Writer, int>, coverage: Vector, buf: seq<Entry>,
                       ghost items: seq<Item>, ghost skip: set<Writer>)
    returns (lastTs': map<Writer, int>, coverage': Vector, buf': seq<Entry>)
    requires Walked(items, buf, lastTs) && Covering(items, coverage, skip) && g.writer in coverage && g.writer !in skip
    requires WellNumbered(items + ItemsOf(g.writer, g.records))
    ensures Walked(items + ItemsOf(g.writer, g.records), buf', lastTs')
    ensures Covering(items + ItemsOf(g.writer, g.records), coverage', skip)
    ensures coverage'.Keys == coverage.Keys && forall v :: v in coverage && v != g.writer ==>
            coverage'[v] == coverage[v]
  {
    hide Walked;
    hide Covering;
    hide WellNumbered;
    lastTs', coverage', buf' := lastTs, coverage, buf;
    ghost var rest := ItemsOf(g.writer, g.records);
    assert items + rest[..0] == items;
    for i := 0 to |g.records|
      invariant Walked(items + rest[..i], buf', lastTs') && Covering(items + rest[..i], coverage', skip)
      invariant coverage'.Keys == coverage.Keys && forall v :: v in coverage && v != g.writer ==>
                coverage'[v] == coverage[v]
    {
      WellNumberedCut(items + rest, |items| + i + 1);
      assert (items + rest)[..|items| + i + 1] == items + rest[..i + 1] == (items + rest[..i]) + [rest[i]];
      lastTs', coverage', buf' :=
          BufferRecord(g.writer, g.records[i], lastTs', coverage', buf', items + rest[..i], skip);
    }
    assert rest[..|g.records|] == rest;
  }

  lemma ClockSnoc(items: seq<Item>, next: Item)
    ensures forall w :: Clock(RecordsOf(items + [next], w)) ==
              if w == next.writer then Advance(Clock(RecordsOf(items, w)), next.rec.op) else Clock(RecordsOf(items, w))
    ensures MaxSeqno(RecordsOf(items + [next], next.writer)) ==
              if next.rec.seqno > MaxSeqno(RecordsOf(items, next.writer)) then next.rec.seqno
              else MaxSeqno(RecordsOf(items, next.writer))
  {
    hide RecordsOf;
    forall w: Writer ensures Clock(RecordsOf(items + [next], w)) ==
              if w == next.writer then Advance(Clock(RecordsOf(items, w)), next.rec.op) else Clock(RecordsOf(items, w))
    {
      RecordsOfSnoc(items, next, w);
      var rs := RecordsOf(items, w);
      assert (rs + [next.rec])[..|rs|] == rs && rs + [] == rs;
    }
    RecordsOfSnoc(items, next, next.writer);
    var rs := RecordsOf(items, next.writer);
    assert (rs + [next.rec])[..|rs|] == rs;
  }

  lemma {:induction false} WellNumberedCut(items: seq<Item>, n: nat)
    requires WellNumbered(items) && n <= |items|
    ensures WellNumbered(items[..n])
    decreases |items|
  {
    if n == |items| {
      assert items[..n] == items;
    } else {
      var m := |items| - 1;
      assert items == items[..m] + [items[m]];
      WellNumberedPrefix(items[..m], items[m]);
      WellNumberedCut(items[..m], n);
      assert items[..m][..n] == items[..n];
    }
  }

  /** The largest certified seqno among a writer's segments. */
  function MaxCertified(segs: seq<Seg>, f: Family, w: Writer): nat {
    if segs == [] then 0
    else
      var n := |segs| - 1;
      var most := MaxCertified(segs[..n], f, w);
      var name := Name(segs[n].writer, segs[n].first);
      if segs[n].writer == w && name in f.certificates && f.certificates[name].last > most then
        f.certificates[name].last
      else most
  }

  /** A certificate of the writer ends at seqno `n`. */
  ghost predicate CertifiedTo(g: Seg, f: Family, w: Writer, n: nat) {
    g.writer == w && Name(w, g.first) in f.certificates && f.certificates[Name(w, g.first)].last == n
  }

  lemma {:induction false} MaxCertifiedIsLargest(segs: seq<Seg>, f: Family, w: Writer)
    ensures forall g, n: nat :: g in segs && CertifiedTo(g, f, w, n) ==> n <= MaxCertified(segs, f, w)
    ensures MaxCertified(segs, f, w) == 0 || exists g :: g in segs && CertifiedTo(g, f, w, MaxCertified(segs, f, w))
  {
    if segs != [] {
      var n := |segs| - 1;
      var most := MaxCertified(segs[..n], f, w);
      MaxCertifiedIsLargest(segs[..n], f, w);
      assert forall g :: g in segs <==> g in segs[..n] || g == segs[n];
      if MaxCertified(segs, f, w) != most {
        assert CertifiedTo(segs[n], f, w, MaxCertified(segs, f, w));
      } else if most != 0 {
        var g :| g in segs[..n] && CertifiedTo(g, f, w, most);
        assert g in segs;
      }
    }
  }

  /** The writers replay accounts for: those skipped, and those with a segment behind no fence. */
  function Listed(segs: seq<Seg>, skip: set<Writer>, own: nat): set<Writer> {
    set g | g in segs && (g.writer in skip || !Foreign(g, own)) :: g.writer
  }

  /** A skipped writer is covered exactly as far as its certificates go. */
  ghost predicate CertificatesCovered(segs: seq<Seg>, family: Option<Family>, coverage: Vector, skip: set<Writer>) {
    family.Some? ==> forall w :: w in coverage && w in skip ==> coverage[w] == MaxCertified(segs, family.value, w)
  }

  /** The state of a replay that has met the first `i` segments. */
  ghost predicate Met(segs: seq<Seg>, i: nat, family: Option<Family>, own: nat, skip: set<Writer>,
                      buf: seq<Entry>, lastTs: map<Writer, int>, coverage: Vector)
    requires i <= |segs|
  {
    && Walked(Walk(Fence(segs[..i], own), skip), buf, lastTs)
    && Covering(Walk(Fence(segs[..i], own), skip), coverage, skip)
    && coverage.Keys == Listed(segs[..i], skip, own) && CertificatesCovered(segs[..i], family, coverage, skip)
  }

  /** Note, fence off or buffer one more segment. */
  method MeetSegment(segs: seq<Seg>, i: nat, family: Option<Family>, own: nat, skip: set<Writer>,
                     buf: seq<Entry>, lastTs: map<Writer, int>, coverage: Vector)
    returns (buf': seq<Entry>, lastTs': map<Writer, int>, coverage': Vector)
    requires i < |segs| && WellNumbered(Walk(Fence(segs, own), skip))
    requires forall w :: w in skip <==> Skipped(segs, family, own, w)
    requires Met(segs, i, family, own, skip, buf, lastTs, coverage)
    ensures Met(segs, i + 1, family, own, skip, buf', lastTs', coverage')
  {
    hide Walked;
    hide Covering;
    hide WellNumbered;
    hide Walk;
    hide Fence;
    hide Listed;
    hide CertificatesCovered;
    hide Skipped;
    hide MaxCertified;
    buf', lastTs', coverage' := buf, lastTs, coverage;
    var g := segs[i];
    ghost var items := Walk(Fence(segs[..i], own), skip);
    FenceStep(segs, skip, own, i);
    if g.writer in skip {
      SkippedSegmentCovers(segs, i, family, coverage, skip, own);
      var last := family.value.certificates[Name(g.writer, g.first)].last;
      var most := if g.writer in coverage && coverage[g.writer] > last then coverage[g.writer] else last;
      NotedKeepsCovering(items, coverage, skip, g.writer, most);
      coverage' := coverage[g.writer := most];
    } else {
      if !Foreign(g, own) {
        if g.writer !in coverage {
          ListedKeepsCovering(items, coverage, skip, g.writer);
          coverage' := coverage[g.writer := 0];
        }
        lastTs', coverage', buf' := BufferSegment(g, lastTs, coverage', buf, items, skip);
      }
      OtherSegmentCovers(segs, i, family, coverage, skip, own, coverage');
    }
  }

  /** Replay all segments in merge order, skipping wholly certified writers and segments of another vector space. */
  method ReplayCertified(segs: seq<Seg>, family: Option<Family>, own: nat)
    returns (out: seq<Entry>, coverage: Vector, skip: set<Writer>)
    requires WellNumbered(Walk(Fence(segs, own), {}))
    ensures forall w :: w in skip <==> Skipped(segs, family, own, w)
    ensures IsMerge(out, Walk(Fence(segs, own), skip)) && |out| == |Walk(Fence(segs, own), skip)|
    ensures forall i, j :: 0 <= i < j < |out| ==> out[i].eff <= out[j].eff
    ensures forall i, j :: 0 <= i < j < |out| && out[i].eff == out[j].eff ==> out[i].writer <= out[j].writer
    ensures forall i, j :: 0 <= i < j < |out| && out[i].eff == out[j].eff && out[i].writer == out[j].writer ==>
              out[i].seqno < out[j].seqno
    ensures coverage.Keys == Listed(segs, skip, own)
    ensures forall w :: w in coverage && w !in skip ==> coverage[w] == MaxSeqno(WriterRecords(Fence(segs, own), w))
    ensures CertificatesCovered(segs, family, coverage, skip)
  {
    hide Walked;
    hide Covering;
    hide WellNumbered;
    hide Walk;
    hide IsMerge;
    skip := CertifiedWriters(segs, family, own);
    var buf: seq<Entry> := [];
    var lastTs: map<Writer, int> := map[];
    coverage := map[];
    SkippedIsWellNumbered(Fence(segs, own), skip);
    NothingWalked(skip);
    assert Fence(segs[..0], own) == [] && Listed(segs[..0], skip, own) == {};
    assert Met(segs, 0, family, own, skip, buf, lastTs, coverage);
    hide Met;
    for i := 0 to |segs|
      invariant Met(segs, i, family, own, skip, buf, lastTs, coverage)
    {
      buf, lastTs, coverage := MeetSegment(segs, i, family, own, skip, buf, lastTs, coverage);
    }
    AllMet(segs, family, own, skip, buf, lastTs, coverage);
    FinishWalk(Fence(segs, own), skip, buf, lastTs, coverage);
    out := SortEntries(buf);
    MergedByTime(out, Walk(Fence(segs, own), skip));
  }

  lemma AllMet(segs: seq<Seg>, family: Option<Family>, own: nat, skip: set<Writer>, buf: seq<Entry>,
               lastTs: map<Writer, int>, coverage: Vector)
    requires Met(segs, |segs|, family, own, skip, buf, lastTs, coverage)
    ensures Walked(Walk(Fence(segs, own), skip), buf, lastTs)
    ensures Covering(Walk(Fence(segs, own), skip), coverage, skip)
    ensures coverage.Keys == Listed(segs, skip, own) && CertificatesCovered(segs, family, coverage, skip)
  {
    assert segs[..|segs|] == segs;
  }

  lemma MergedByTime(out: seq<Entry>, items: seq<Item>)
    requires IsMerge(out, items)
    ensures forall i, j :: 0 <= i < j < |out| ==> out[i].eff <= out[j].eff
    ensures forall i, j :: 0 <= i < j < |out| && out[i].eff == out[j].eff ==> out[i].writer <= out[j].writer
    ensures forall i, j :: 0 <= i < j < |out| && out[i].eff == out[j].eff && out[i].writer == out[j].writer ==>
              out[i].seqno < out[j].seqno
  {
    SortedIsByTime(out);
  }

  lemma {:induction false} UnlistedHasNone(segs: seq<Seg>, f: Family, w: Writer, skip: set<Writer>, own: nat)
    requires w in skip && w !in Listed(segs, skip, own)
    ensures MaxCertified(segs, f, w) == 0
  {
    if segs != [] {
      var n := |segs| - 1;
      assert segs[n] in segs;
      assert forall g :: g in segs[..n] ==> g in segs;
      UnlistedHasNone(segs[..n], f, w, skip, own);
    }
  }

  /** What walking one more segment adds behind the fence. */
  lemma FencedOneMore(segs: seq<Seg>, skip: set<Writer>, own: nat, i: nat)
    requires i < |segs|
    ensures Walk(Fence(segs[..i + 1], own), skip) == Walk(Fence(segs[..i], own), skip)
              + (if segs[i].writer in skip || Foreign(segs[i], own) then []
                 else ItemsOf(segs[i].writer, segs[i].records))
  {
    hide ItemsOf;
    assert segs[..i + 1][..i] == segs[..i];
    var before, after := Fence(segs[..i], own), Fence(segs[..i + 1], own);
    if Foreign(segs[i], own) {
      assert after == before;
    } else {
      assert after == before + [segs[i]] && after[..|before|] == before;
    }
  }

  lemma {:induction false} FencedPrefix(segs: seq<Seg>, skip: set<Writer>, own: nat, n: nat)
    requires n <= |segs|
    ensures Walk(Fence(segs[..n], own), skip) <= Walk(Fence(segs, own), skip)
    decreases |segs| - n
  {
    hide Walk;
    hide Fence;
    if n < |segs| {
      FencedOneMore(segs, skip, own, n);
      FencedPrefix(segs, skip, own, n + 1);
    } else {
      assert segs[..n] == segs;
    }
  }

  lemma FenceStep(segs: seq<Seg>, skip: set<Writer>, own: nat, i: nat)
    requires i < |segs| && WellNumbered(Walk(Fence(segs, own), skip))
    ensures Walk(Fence(segs[..i + 1], own), skip) == Walk(Fence(segs[..i], own), skip)
              + (if segs[i].writer in skip || Foreign(segs[i], own) then []
                 else ItemsOf(segs[i].writer, segs[i].records))
    ensures segs[i].writer in skip || Foreign(segs[i], own) ==>
              Walk(Fence(segs[..i + 1], own), skip) == Walk(Fence(segs[..i], own), skip)
    ensures WellNumbered(Walk(Fence(segs[..i + 1], own), skip))
  {
    hide WellNumbered;
    hide Walk;
    hide Fence;
    FencedOneMore(segs, skip, own, i);
    FencedPrefix(segs, skip, own, i + 1);
    var n := |Walk(Fence(segs[..i + 1], own), skip)|;
    WellNumberedCut(Walk(Fence(segs, own), skip), n);
    assert Walk(Fence(segs, own), skip)[..n] == Walk(Fence(segs[..i + 1], own), skip);
  }

  /** A skipped segment raises its writer's coverage to its certificate. */
  lemma SkippedSegmentCovers(segs: seq<Seg>, i: nat, family: Option<Family>, coverage: Vector, skip: set<Writer>,
                             own: nat)
    requires i < |segs| && segs[i].writer in skip && Skipped(segs, family, own, segs[i].writer)
    requires coverage.Keys == Listed(segs[..i], skip, own) && CertificatesCovered(segs[..i], family, coverage, skip)
    ensures family.Some? && Name(segs[i].writer, segs[i].first) in family.value.certificates
    ensures var g := segs[i];
            var last := family.value.certificates[Name(g.writer, g.first)].last;
            var most := if g.writer in coverage && coverage[g.writer] > last then coverage[g.writer] else last;
            var raised := coverage[g.writer := most];
            raised.Keys == Listed(segs[..i + 1], skip, own) && CertificatesCovered(segs[..i + 1], family, raised, skip)
  {
    var g := segs[i];
    assert Eligible(g, family.value);
    assert segs[..i + 1][..i] == segs[..i] && segs[..i + 1] == segs[..i] + [g];
    if g.writer !in coverage {
      UnlistedHasNone(segs[..i], family.value, g.writer, skip, own);
    }
  }

  /** A segment that is read or fenced off leaves the skipped writers' coverage alone. */
  lemma OtherSegmentCovers(segs: seq<Seg>, i: nat, family: Option<Family>, coverage: Vector, skip: set<Writer>,
                           own: nat, next: Vector)
    requires i < |segs| && segs[i].writer !in skip
    requires coverage.Keys == Listed(segs[..i], skip, own) && CertificatesCovered(segs[..i], family, coverage, skip)
    requires next.Keys == coverage.Keys + (if Foreign(segs[i], own) then {} else {segs[i].writer})
    requires forall w :: w in coverage && w != segs[i].writer ==> next[w] == coverage[w]
    ensures next.Keys == Listed(segs[..i + 1], skip, own) && CertificatesCovered(segs[..i + 1], family, next, skip)
  {
    assert segs[..i + 1][..i] == segs[..i] && segs[..i + 1] == segs[..i] + [segs[i]];
  }

  lemma NothingWalked(skip: set<Writer>)
    ensures Walk([], skip) == [] && Walked([], [], map[]) && Covering([], map[], skip)
  {
  }

  lemma NotedKeepsCovering(items: seq<Item>, coverage: Vector, skip: set<Writer>, w: Writer, n: nat)
    requires Covering(items, coverage, skip) && w in skip
    ensures Covering(items, coverage[w := n], skip)
  {
  }

  lemma ListedKeepsCovering(items: seq<Item>, coverage: Vector, skip: set<Writer>, w: Writer)
    requires Covering(items, coverage, skip) && w !in coverage
    ensures Covering(items, coverage[w := 0], skip)
  {
  }

  lemma FinishWalk(segs: seq<Seg>, skip: set<Writer>, buf: seq<Entry>, lastTs: map<Writer, int>, coverage: Vector)
    requires Walked(Walk(segs, skip), buf, lastTs) && Covering(Walk(segs, skip), coverage, skip)
    requires WellNumbered(Walk(segs, skip))
    ensures IsMerge(SortEntries(buf), Walk(segs, skip)) && |buf| == |Walk(segs, skip)|
    ensures forall w :: w in coverage && w !in skip ==> coverage[w] == MaxSeqno(WriterRecords(segs, w))
  {
    SortedBufferIsMerge(buf, Walk(segs, skip));
    forall w | w in coverage && w !in skip ensures coverage[w] == MaxSeqno(WriterRecords(segs, w)) {
      WalkProjects(segs, skip, w);
    }
  }

  lemma SkippedIsWellNumbered(segs: seq<Seg>, skip: set<Writer>)
    requires WellNumbered(Walk(segs, {}))
    ensures WellNumbered(Walk(segs, skip))
  {
    forall w ensures Increasing(RecordsOf(Walk(segs, skip), w)) {
      WalkProjects(segs, skip, w);
      WalkProjects(segs, {}, w);
      assert Increasing(RecordsOf(Walk(segs, {}), w));
    }
  }
}
