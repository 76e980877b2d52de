/**
 The appending side of the write-ahead log (src/log.rs): one writer, its
 active segment, rotation, and recovery of the active segment from the bytes
 accepted so far. The directory can lose the active file between calls, a
 write can fail after part of the record has landed, and a sync can fail; the
 recovery's own rename and rewrite are taken to succeed.
 */
module OpLogModel {
  import opened Collections
  import opened Bytes
  import opened WalRecords
  import opened WalReplay

  const MAX_SEGMENT_SIZE: nat := 256 * 1024 * 1024
  const V3_HEADER_SIZE: nat := 56

  datatype Ack = Ack(seqno: nat, op: Op)

  datatype File = File(name: nat, contents: bytes)

  /**
   The writer's part of the directory is `closed`, the rotated segments in
   name order (a segment is named by its first seqno), and `active`, the file
   found under `path`; None while that file is gone. `acked` (what callers
   were told is logged), `sealed` and `current` (what each file should hold)
   are history.
   */
  datatype State = State(
    closed: seq<File>,
    path: nat,
    active: Option<bytes>,
    accepted: bytes,
    size: nat,
    nextSeqno: nat,
    chainHead: bytes,
    space: nat,
    acked: seq<Ack>,
    sealed: seq<Segment>,
    current: Segment)

  datatype Step =
    | Append(op: Op, writeFault: Option<nat>, syncFault: bool)   // the fault: how many bytes landed
    | Sync(fault: bool)
    | Vanish

  function Empty(first: nat, head: bytes, space: nat): Segment {
    Segment(3, first, head, space, [])
  }

  function Open(nextSeqno: nat, space: nat): State {
    var header := Header(Empty(nextSeqno, ZERO_HASH, space));
    State([], nextSeqno, Some(header), header, V3_HEADER_SIZE, nextSeqno, ZERO_HASH, space, [], [],
          Empty(nextSeqno, ZERO_HASH, space))
  }

  /** A fresh inode with the accepted bytes, renamed over the segment's name. */
  function Recovered(s: State): State {
    s.(active := Some(s.accepted))
  }

  function Synced(s: State, fault: bool): State {
    if s.active.None? || fault then Recovered(s) else s
  }

  /** Leave the active file where it is and start the next segment, named by the next seqno. */
  function NewSegment(s: State): State
    requires |s.chainHead| == 32 && s.active.Some?
  {
    var header := Header(Empty(s.nextSeqno, s.chainHead, s.space));
    s.(closed := s.closed + [File(s.path, s.active.value)],
       path := s.nextSeqno, active := Some(header), accepted := header, size := V3_HEADER_SIZE,
       sealed := s.sealed + [s.current], current := Empty(s.nextSeqno, s.chainHead, s.space))
  }

  function Rotated(s: State, syncFault: bool): State
    requires |s.chainHead| == 32
  {
    if s.size < MAX_SEGMENT_SIZE then s else NewSegment(Synced(s, syncFault))
  }

  function Appended(s: State, piece: bytes): State {
    s.(active := Some((if s.active.Some? then s.active.value else []) + piece))
  }

  /** Write a record; a failed attempt leaves part of it behind, is recovered from, and tried again. */
  function Written(s: State, record: bytes, fault: Option<nat>): State {
    match fault
    case None => Appended(s, record)
    case Some(n) => Appended(Recovered(Appended(s, record[..if n < |record| then n else |record|])), record)
  }

  /** Account for an accepted record. */
  function Accept(s: State, r: Record, op: Op, record: bytes, hash: bytes): State {
    s.(accepted := s.accepted + record,
       size := s.size + |record|,
       nextSeqno := s.nextSeqno + 1,
       chainHead := hash,
       acked := s.acked + [Ack(s.nextSeqno, op)],
       current := s.current.(records := s.current.records + [r]))
  }

  function Logged(c: Codec, s: State, op: Op, writeFault: Option<nat>): State {
    var r := RecordOf(c, s.nextSeqno, op, s.chainHead);
    Accept(Written(s, Encode(c, r), writeFault), r, op, Encode(c, r), RecordHash(c, r))
  }

  function AfterAppend(c: Codec, s: State, op: Op, writeFault: Option<nat>, syncFault: bool): State
    requires |s.chainHead| == 32
  {
    Logged(c, Rotated(if s.active.Some? then s else Recovered(s), syncFault), op, writeFault)
  }

  function Next(c: Codec, s: State, step: Step): State
    requires |s.chainHead| == 32
  {
    match step
    case Append(op, writeFault, syncFault) => AfterAppend(c, s, op, writeFault, syncFault)
    case Sync(fault) => Synced(s, fault)
    case Vanish => s.(active := None)
  }

  /** The op's payload fits the length field, and the seqno its own. */
  predicate Fits(c: Codec, s: State, step: Step) {
    step.Append? ==> |c.encode(step.op)| < Pow256(4) && s.nextSeqno < Pow256(8)
  }

  // ---- the invariant -------------------------------------------------------

  function Flatten(segments: seq<Segment>): seq<Record> {
    if segments == [] then []
    else Flatten(segments[..|segments| - 1]) + segments[|segments| - 1].records
  }

  /**
   The logged records are the acknowledged ops in order, with increasing
   seqnos, each carrying the hash of the one before it, up to the chain head.
   */
  ghost predicate History(c: Codec, rs: seq<Record>, acked: seq<Ack>, head: bytes, next: nat) {
    && |rs| == |acked|
    && (forall i :: 0 <= i < |rs| ==> rs[i] == RecordOf(c, acked[i].seqno, acked[i].op, rs[i].prev))
    && (forall i :: 0 <= i < |rs| ==> rs[i].prev == if i == 0 then ZERO_HASH else RecordHash(c, rs[i - 1]))
    && (forall i :: 0 <= i < |acked| ==> acked[i].seqno < next)
    && (forall i, j :: 0 <= i < j < |acked| ==> acked[i].seqno < acked[j].seqno)
    && head == ChainAfter(c, ZERO_HASH, rs)
  }

  ghost predicate SegmentOk(c: Codec, s: Segment) {
    WellFormed(c, s) && s.version == 3
  }

  /** Every rotated segment is on disk, whole, under its own name. */
  ghost predicate ClosedOk(c: Codec, closed: seq<File>, sealed: seq<Segment>, path: nat) {
    && |closed| == |sealed|
    && (forall i :: 0 <= i < |sealed| ==>
         SegmentOk(c, sealed[i]) && closed[i] == File(sealed[i].first, SegmentBytes(c, sealed[i])))
    && (forall i :: 0 <= i < |closed| ==> closed[i].name < path)
    && (forall i, j :: 0 <= i < j < |closed| ==> closed[i].name < closed[j].name)
  }

  /** The accepted bytes are the active segment, and its file is either gone or equal to them. */
  ghost predicate ActiveOk(c: Codec, s: State) {
    && SegmentOk(c, s.current)
    && s.current.first == s.path <= s.nextSeqno
    && (s.current.records != [] ==> s.path < s.nextSeqno)
    && s.accepted == SegmentBytes(c, s.current) && s.size == |s.accepted|
    && (s.active.Some? ==> s.active.value == s.accepted)
    && s.space < Pow256(8) && |s.chainHead| == 32
  }

  function AllRecords(s: State): seq<Record> {
    Flatten(s.sealed) + s.current.records
  }

  ghost predicate Inv(c: Codec, s: State) {
    && ClosedOk(c, s.closed, s.sealed, s.path)
    && ActiveOk(c, s)
    && History(c, AllRecords(s), s.acked, s.chainHead, s.nextSeqno)
  }

  lemma EmptySegmentOk(c: Codec, first: nat, head: bytes, space: nat)
    requires |head| == 32 && first < Pow256(8) && space < Pow256(8)
    ensures var blank := Empty(first, head, space);
            SegmentOk(c, blank) && SegmentBytes(c, blank) == Header(blank) && |Header(blank)| == V3_HEADER_SIZE
  {
  }

  lemma RecordOfOk(c: Codec, seqno: nat, op: Op, prev: bytes)
    requires c.Sound() && seqno < Pow256(8) && |c.encode(op)| < Pow256(4) && |prev| == 32
    ensures var r := RecordOf(c, seqno, op, prev);
            RecordOk(3, r) && Deliverable(c, r) && |RecordHash(c, r)| == 32
  {
  }

  lemma GrownSegmentBytes(c: Codec, s: Segment, r: Record)
    requires SegmentOk(c, s)
    ensures SegmentBytes(c, s.(records := s.records + [r])) == SegmentBytes(c, s) + Encode(c, r)
  {
  }

  lemma GrownSegmentOk(c: Codec, s: Segment, r: Record)
    requires SegmentOk(c, s) && RecordOk(3, r) && Deliverable(c, r)
    ensures SegmentOk(c, s.(records := s.records + [r]))
  {
  }

  lemma HistoryGrows(c: Codec, rs: seq<Record>, acked: seq<Ack>, head: bytes, next: nat, op: Op)
    requires History(c, rs, acked, head, next)
    ensures var r := RecordOf(c, next, op, head);
            History(c, rs + [r], acked + [Ack(next, op)], RecordHash(c, r), next + 1)
  {
    var grown := rs + [RecordOf(c, next, op, head)];
    assert grown[|grown| - 1] == RecordOf(c, next, op, head);
    hide RecordHash;
    hide RecordOf;
    forall i | 0 <= i < |grown| ensures grown[i].prev == if i == 0 then ZERO_HASH else RecordHash(c, grown[i - 1]) {
      assert i < |rs| ==> grown[i] == rs[i];
      assert i > 0 ==> grown[i - 1] == rs[i - 1];
    }
  }

  lemma FullSegmentHasRecords(c: Codec, s: Segment)
    requires SegmentOk(c, s) && |SegmentBytes(c, s)| >= MAX_SEGMENT_SIZE
    ensures s.records != []
  {
  }

  /** A full segment is left behind only once it is on disk, and its successor's name is new and larger. */
  lemma RotateKeepsInv(c: Codec, s: State, syncFault: bool)
    requires Inv(c, s) && s.active.Some? && s.nextSeqno < Pow256(8)
    ensures Inv(c, Rotated(s, syncFault)) && Rotated(s, syncFault).active.Some?
    ensures Rotated(s, syncFault).acked == s.acked && Rotated(s, syncFault).nextSeqno == s.nextSeqno
  {
    hide SegmentBytes;
    hide WellFormed;
    hide History;
    if s.size >= MAX_SEGMENT_SIZE {
      FullSegmentHasRecords(c, s.current);
      EmptySegmentOk(c, s.nextSeqno, s.chainHead, s.space);
      var t := Rotated(s, syncFault);
      assert (s.sealed + [s.current])[..|s.sealed|] == s.sealed;
      assert AllRecords(t) == AllRecords(s);
    }
  }

  /** Whether or not the first attempt failed part-way, the file ends up as before plus the whole record. */
  lemma WriteLandsOnce(c: Codec, s: State, record: bytes, fault: Option<nat>)
    requires ActiveOk(c, s) && s.active.Some?
    ensures Written(s, record, fault) == s.(active := Some(s.accepted + record))
  {
  }

  lemma LogKeepsInv(c: Codec, s: State, op: Op, fault: Option<nat>)
    requires c.Sound() && Inv(c, s) && s.active.Some? && s.nextSeqno < Pow256(8) && |c.encode(op)| < Pow256(4)
    ensures Inv(c, Logged(c, s, op, fault))
  {
    hide SegmentBytes;
    hide WellFormed;
    hide History;
    hide Encode;
    hide RecordHash;
    hide ClosedOk;
    hide Flatten;
    var r := RecordOf(c, s.nextSeqno, op, s.chainHead);
    RecordOfOk(c, s.nextSeqno, op, s.chainHead);
    WriteLandsOnce(c, s, Encode(c, r), fault);
    GrownSegmentBytes(c, s.current, r);
    GrownSegmentOk(c, s.current, r);
    HistoryGrows(c, AllRecords(s), s.acked, s.chainHead, s.nextSeqno, op);
    var t := Logged(c, s, op, fault);
    assert AllRecords(t) == AllRecords(s) + [r];
  }

  lemma StepKeepsInv(c: Codec, s: State, step: Step)
    requires c.Sound() && Inv(c, s) && Fits(c, s, step)
    ensures Inv(c, Next(c, s, step))
    ensures !step.Vanish? ==> Next(c, s, step).active.Some?
    ensures step.Append? ==> Next(c, s, step).acked == s.acked + [Ack(s.nextSeqno, step.op)]
    ensures !step.Append? ==> Next(c, s, step).acked == s.acked
    ensures Next(c, s, step).nextSeqno == s.nextSeqno + if step.Append? then 1 else 0
  {
    hide SegmentBytes;
    hide SegmentOk;
    hide History;
    hide Encode;
    hide RecordHash;
    hide ClosedOk;
    match step {
      case Append(op, writeFault, syncFault) =>
        var live := if s.active.Some? then s else Recovered(s);
        assert Inv(c, live);
        RotateKeepsInv(c, live, syncFault);
        LogKeepsInv(c, Rotated(live, syncFault), op, writeFault);
      case Sync(fault) =>
      case Vanish =>
    }
  }

  // ---- runs and replay -----------------------------------------------------

  lemma OpenInv(c: Codec, nextSeqno: nat, space: nat)
    requires nextSeqno < Pow256(8) && space < Pow256(8)
    ensures Inv(c, Open(nextSeqno, space))
  {
  }

  /** `to` is reached from `from` by the steps. */
  ghost predicate Reaches(c: Codec, from: State, steps: seq<Step>, to: State)
    decreases |steps|
  {
    if steps == [] then from == to
    else Fits(c, from, steps[0]) && |from.chainHead| == 32 && Reaches(c, Next(c, from, steps[0]), steps[1..], to)
  }

  lemma {:induction false} RunKeepsInv(c: Codec, from: State, steps: seq<Step>, to: State)
    requires c.Sound() && Inv(c, from) && Reaches(c, from, steps, to)
    ensures Inv(c, to)
    decreases |steps|
  {
    hide Inv;
    if steps != [] {
      StepKeepsInv(c, from, steps[0]);
      RunKeepsInv(c, Next(c, from, steps[0]), steps[1..], to);
    }
  }

  /** Names have their seqno in twelve digits; listing passes over any that needs more. */
  predicate Listed(name: nat) {
    name < 1_000_000_000_000
  }

  /** The writer's segment files, in name order. */
  function Files(s: State): (r: seq<File>)
    requires s.active.Some?
  {
    s.closed + [File(s.path, s.active.value)]
  }

  /** The contents of those files that a directory listing finds. */
  function Contents(files: seq<File>): seq<bytes> {
    if files == [] then []
    else
      var n := |files| - 1;
      Contents(files[..n]) + (if Listed(files[n].name) then [files[n].contents] else [])
  }

  /** The records of the segments that are listed. */
  function ListedRecords(segments: seq<Segment>): seq<Record> {
    if segments == [] then []
    else
      var n := |segments| - 1;
      ListedRecords(segments[..n]) + (if Listed(segments[n].first) then segments[n].records else [])
  }

  /** Every segment that holds records, not just a header, is listed. */
  ghost predicate AllListed(files: seq<File>) {
    forall f :: f in files && |f.contents| > V3_HEADER_SIZE ==> Listed(f.name)
  }

  datatype Replays = Replays(head: bytes, delivered: seq<Record>) | Stopped

  /** One more file replayed behind the others. */
  function ReplayOneMore(c: Codec, before: Replays, file: bytes): Replays {
    match before
    case Stopped => Stopped
    case Replays(head, rs) =>
      match Replay(c, file, head, true).0
      case Failed => Stopped
      case Ok(head', more, _) => Replays(head', rs + more)
  }

  /** Replay the writer's files one after the other, threading the chain head. */
  function ReplayFiles(c: Codec, files: seq<bytes>, head: bytes): Replays {
    if files == [] then Replays(head, [])
    else
      var n := |files| - 1;
      ReplayOneMore(c, ReplayFiles(c, files[..n], head), files[n])
  }

  /** The files are these segments, under their own names. */
  ghost predicate Holds(c: Codec, files: seq<File>, segments: seq<Segment>) {
    && |files| == |segments|
    && forall i :: 0 <= i < |files| ==>
         SegmentOk(c, segments[i]) && files[i] == File(segments[i].first, SegmentBytes(c, segments[i]))
  }

  lemma {:induction false} ListedFilesReplay(c: Codec, files: seq<File>, segments: seq<Segment>)
    requires c.Sound() && Holds(c, files, segments)
    ensures var rs := ListedRecords(segments);
            ReplayFiles(c, Contents(files), ZERO_HASH) == Replays(ChainAfter(c, ZERO_HASH, rs), rs)
    decreases |files|
  {
    hide Replay;
    hide SegmentBytes;
    hide WellFormed;
    hide RecordHash;
    if files != [] {
      var n := |files| - 1;
      var before := Contents(files[..n]);
      ListedFilesReplay(c, files[..n], segments[..n]);
      var rs, more := ListedRecords(segments[..n]), segments[n].records;
      assert files[n].name == segments[n].first;
      assert ListedRecords(segments) == rs + (if Listed(files[n].name) then more else []);
      assert rs + [] == rs && before + [] == before;
      if Listed(files[n].name) {
        assert Contents(files) == before + [files[n].contents];
        assert more != [] ==> (rs + more)[|rs + more| - 1] == more[|more| - 1];
        var head := ChainAfter(c, ZERO_HASH, ListedRecords(segments[..n]));
        CompleteSegmentCertified(c, segments[n], head);
        OneFileMore(c, before, files[n].contents);
      } else {
        assert Contents(files) == before;
      }
    }
  }

  lemma OneFileMore(c: Codec, files: seq<bytes>, file: bytes)
    ensures ReplayFiles(c, files + [file], ZERO_HASH) == ReplayOneMore(c, ReplayFiles(c, files, ZERO_HASH), file)
  {
    hide ReplayOneMore;
    assert (files + [file])[..|files|] == files;
  }

  lemma RecordsBeyondHeader(c: Codec, s: Segment)
    requires SegmentOk(c, s)
    ensures |SegmentBytes(c, s)| > V3_HEADER_SIZE <==> s.records != []
  {
    SizeOfEncoded(c, s.records);
  }

  /** What is listed holds every record exactly when whatever is passed over holds none. */
  lemma {:induction false} ListedHoldAllIff(c: Codec, files: seq<File>, segments: seq<Segment>)
    requires Holds(c, files, segments)
    ensures |ListedRecords(segments)| <= |Flatten(segments)|
    ensures |ListedRecords(segments)| == |Flatten(segments)| <==> AllListed(files)
    ensures AllListed(files) ==> ListedRecords(segments) == Flatten(segments)
    decreases |files|
  {
    hide SegmentBytes;
    hide SegmentOk;
    if files != [] {
      var n := |files| - 1;
      assert forall f :: f in files <==> f in files[..n] || f == files[n];
      ListedHoldAllIff(c, files[..n], segments[..n]);
      RecordsBeyondHeader(c, segments[n]);
    }
  }

  /** Replay delivers exactly the acknowledged (seqno, op) list. */
  ghost predicate Yields(c: Codec, r: Replays, acked: seq<Ack>) {
    && r.Replays? && |r.delivered| == |acked|
    && forall i :: 0 <= i < |acked| ==>
         r.delivered[i].seqno == acked[i].seqno && c.decode(r.delivered[i].payload) == Some(acked[i].op)
  }

  /**
   After any run, once the active file is in place (every append and sync
   leaves it so), the files that a listing finds replay to exactly the
   acknowledged list if and only if every segment that holds records is
   listed; then they replay to the writer's own chain head as well.
   */
  lemma ReplayYieldsAcknowledgedIff(c: Codec, first: nat, space: nat, steps: seq<Step>, s: State)
    requires c.Sound() && first < Pow256(8) && space < Pow256(8)
    requires Reaches(c, Open(first, space), steps, s) && s.active.Some?
    ensures var r := ReplayFiles(c, Contents(Files(s)), ZERO_HASH);
            && (Yields(c, r, s.acked) <==> AllListed(Files(s)))
            && (AllListed(Files(s)) ==> r.head == s.chainHead)
    ensures forall i, j :: 0 <= i < j < |s.acked| ==> s.acked[i].seqno < s.acked[j].seqno
  {
    hide SegmentBytes;
    hide WellFormed;
    hide ReplayFiles;
    hide ListedRecords;
    hide Contents;
    hide AllListed;
    OpenInv(c, first, space);
    RunKeepsInv(c, Open(first, space), steps, s);
    var segments := s.sealed + [s.current];
    assert segments[..|s.sealed|] == s.sealed;
    assert Holds(c, Files(s), segments);
    ListedFilesReplay(c, Files(s), segments);
    ListedHoldAllIff(c, Files(s), segments);
    var rs := AllRecords(s);
    assert Flatten(segments) == rs;
    forall i | 0 <= i < |s.acked|
      ensures c.decode(rs[i].payload) == Some(s.acked[i].op) && rs[i].seqno == s.acked[i].seqno
    {
      assert c.decode(c.encode(s.acked[i].op)) == Some(s.acked[i].op);
    }
  }

  /** A writer whose names stay within twelve digits is always listed whole. */
  lemma SmallSeqnosAreListed(c: Codec, first: nat, space: nat, steps: seq<Step>, s: State)
    requires c.Sound() && first < Pow256(8) && space < Pow256(8)
    requires Reaches(c, Open(first, space), steps, s) && s.active.Some? && s.nextSeqno <= 1_000_000_000_000
    ensures Yields(c, ReplayFiles(c, Contents(Files(s)), ZERO_HASH), s.acked)
  {
    hide SegmentBytes;
    hide WellFormed;
    OpenInv(c, first, space);
    RunKeepsInv(c, Open(first, space), steps, s);
    forall f | f in Files(s) && |f.contents| > V3_HEADER_SIZE ensures Listed(f.name) {
      RecordsBeyondHeader(c, s.current);
    }
    ReplayYieldsAcknowledgedIff(c, first, space, steps, s);
  }

  /** A writer that starts at a thirteen-digit seqno: its first op is acknowledged, and replay finds no file at all. */
  lemma LongNameIsLost(c: Codec, op: Op, space: nat)
    requires c.Sound() && |c.encode(op)| < Pow256(4) && space < Pow256(8)
    ensures var s := Next(c, Open(1_000_000_000_000, space), Append(op, None, false));
            && s.active.Some? && |s.acked| == 1
            && ReplayFiles(c, Contents(Files(s)), ZERO_HASH) == Replays(ZERO_HASH, [])
  {
    hide Encode;
    hide RecordHash;
    var s := Next(c, Open(1_000_000_000_000, space), Append(op, None, false));
    assert Files(s)[..0] == [];
    assert Contents(Files(s)) == [];
  }

  /** After every append and every sync, the file under the active name holds exactly what was accepted. */
  lemma FileHoldsEveryAck(c: Codec, s: State, step: Step)
    requires c.Sound() && Inv(c, s) && Fits(c, s, step) && !step.Vanish?
    ensures var t := Next(c, s, step);
            && SegmentOk(c, t.current) && t.active == Some(SegmentBytes(c, t.current))
            && t.current.records == AllRecords(t)[|Flatten(t.sealed)|..]
            && (step.Append? ==>
                 && t.current.records != []
                 && t.current.records[|t.current.records| - 1].seqno == s.nextSeqno)
  {
    hide SegmentBytes;
    hide SegmentOk;
    StepKeepsInv(c, s, step);
  }

  // ---- what the chain head vouches for -------------------------------------

  /** Each record carries the hash of the one before it. */
  ghost predicate Linked(c: Codec, rs: seq<Record>) {
    && (forall r :: r in rs ==> RecordOk(3, r))
    && forall i :: 0 <= i < |rs| ==> rs[i].prev == if i == 0 then ZERO_HASH else RecordHash(c, rs[i - 1])
  }

  /** No two byte strings have the same hash, and none has the hash the chain starts from. */
  ghost predicate Collisionless(c: Codec) {
    (forall x, y :: c.hash(x) == c.hash(y) ==> x == y) && forall x :: c.hash(x) != ZERO_HASH
  }

  lemma CoveredIsInjective(a: Record, b: Record)
    requires RecordOk(3, a) && RecordOk(3, b) && Covered(a) == Covered(b)
    ensures a == b
  {
    var x, y := Covered(a), Covered(b);
    NumOfBe(a.seqno, 8);
    NumOfBe(b.seqno, 8);
    assert x[..8] == Be(a.seqno, 8) && x[8] == a.kind && x[9..41] == a.prev && x[41..] == a.payload;
    assert y[..8] == Be(b.seqno, 8) && y[8] == b.kind && y[9..41] == b.prev && y[41..] == b.payload;
  }

  lemma LinkedPrefix(c: Codec, rs: seq<Record>)
    requires Linked(c, rs) && rs != []
    ensures var n := |rs| - 1;
            RecordOk(3, rs[n]) && Linked(c, rs[..n]) && ChainAfter(c, ZERO_HASH, rs[..n]) == rs[n].prev
  {
    hide RecordOk;
    var n := |rs| - 1;
    assert forall r :: r in rs[..n] ==> r in rs;
    forall i | 0 <= i < n ensures rs[..n][i].prev == if i == 0 then ZERO_HASH else RecordHash(c, rs[..n][i - 1]) {
      assert rs[i].prev == if i == 0 then ZERO_HASH else RecordHash(c, rs[i - 1]);
      assert rs[..n][i] == rs[i];
      assert i > 0 ==> rs[..n][i - 1] == rs[i - 1];
    }
    assert rs[n].prev == if n == 0 then ZERO_HASH else RecordHash(c, rs[n - 1]);
    assert n > 0 ==> rs[..n][|rs[..n]| - 1] == rs[n - 1];
  }

  /** The chain head tells the whole history: two logs with the same head hold the same records. */
  lemma {:induction false} HeadDeterminesRecords(c: Codec, a: seq<Record>, b: seq<Record>)
    requires Collisionless(c) && Linked(c, a) && Linked(c, b)
    requires ChainAfter(c, ZERO_HASH, a) == ChainAfter(c, ZERO_HASH, b)
    ensures a == b
    decreases |a|
  {
    hide Linked;
    hide Covered;
    hide RecordOk;
    if a != [] && b != [] {
      var m, n := |a| - 1, |b| - 1;
      LinkedPrefix(c, a);
      LinkedPrefix(c, b);
      CoveredIsInjective(a[m], b[n]);
      HeadDeterminesRecords(c, a[..m], b[..n]);
      assert a == a[..m] + [a[m]] && b == b[..n] + [b[n]];
    }
  }

  /** Every run of the log keeps its records linked up to its chain head. */
  lemma LogIsLinked(c: Codec, first: nat, space: nat, steps: seq<Step>, s: State)
    requires c.Sound() && first < Pow256(8) && space < Pow256(8)
    requires Reaches(c, Open(first, space), steps, s)
    ensures Linked(c, AllRecords(s)) && s.chainHead == ChainAfter(c, ZERO_HASH, AllRecords(s))
  {
    OpenInv(c, first, space);
    RunKeepsInv(c, Open(first, space), steps, s);
    FlattenedAreOk(c, s.sealed);
  }

  lemma {:induction false} FlattenedAreOk(c: Codec, segments: seq<Segment>)
    requires forall i :: 0 <= i < |segments| ==> SegmentOk(c, segments[i])
    ensures forall r :: r in Flatten(segments) ==> RecordOk(3, r)
  {
    if segments != [] {
      FlattenedAreOk(c, segments[..|segments| - 1]);
    }
  }

  // ---- where segments end --------------------------------------------------

  /** The first bytes of a version 3 segment. */
  function BareHeader(first: nat, head: bytes, space: nat): bytes {
    [67, 70, 76, 79, 71, 48, 48, 51] + Be(first, 8) + head + Be(space, 8)
  }

  /**
   An append goes behind what was accepted while that is below the limit; a
   full segment is closed as it is, and the next one, under the next seqno,
   holds a bare header and the record.
   */
  lemma FullSegmentIsLeft(c: Codec, s: State, op: Op, writeFault: Option<nat>, syncFault: bool)
    requires c.Sound() && Inv(c, s) && Fits(c, s, Append(op, writeFault, syncFault))
    ensures var t := Next(c, s, Append(op, writeFault, syncFault));
            var record := Encode(c, RecordOf(c, s.nextSeqno, op, s.chainHead));
            if |s.accepted| < MAX_SEGMENT_SIZE then
              t.closed == s.closed && t.path == s.path && t.active == Some(s.accepted + record)
            else
              && t.closed == s.closed + [File(s.path, s.accepted)] && t.path == s.nextSeqno
              && t.active == Some(BareHeader(s.nextSeqno, s.chainHead, s.space) + record)
  {
    hide Encode;
    hide SegmentBytes;
    hide WellFormed;
    hide History;
    hide ClosedOk;
    var live := if s.active.Some? then s else Recovered(s);
    var record := Encode(c, RecordOf(c, s.nextSeqno, op, s.chainHead));
    RotateKeepsInv(c, live, syncFault);
    WriteLandsOnce(c, Rotated(live, syncFault), record, writeFault);
  }

  /** The segment was below the limit when its last record was written. */
  ghost predicate EndsAtLimit(c: Codec, s: Segment)
    requires SegmentOk(c, s)
  {
    s.records != [] ==> |SegmentBytes(c, s)| - RecordSize(s.records[|s.records| - 1]) < MAX_SEGMENT_SIZE
  }

  /** Closed segments have reached the limit, and no segment was written to beyond it. */
  ghost predicate CutAtLimit(c: Codec, s: State) {
    && (forall i :: 0 <= i < |s.sealed| ==>
          SegmentOk(c, s.sealed[i]) && EndsAtLimit(c, s.sealed[i])
              && |SegmentBytes(c, s.sealed[i])| >= MAX_SEGMENT_SIZE)
    && SegmentOk(c, s.current) && EndsAtLimit(c, s.current)
  }

  lemma RotateKeepsCut(c: Codec, s: State, syncFault: bool)
    requires Inv(c, s) && s.active.Some? && s.nextSeqno < Pow256(8) && CutAtLimit(c, s)
    ensures CutAtLimit(c, Rotated(s, syncFault)) && Rotated(s, syncFault).size < MAX_SEGMENT_SIZE
  {
    hide SegmentBytes;
    hide WellFormed;
    hide History;
    hide ClosedOk;
    EmptySegmentOk(c, s.nextSeqno, s.chainHead, s.space);
  }

  lemma GrownEndsAtLimit(c: Codec, s: Segment, r: Record)
    requires SegmentOk(c, s) && RecordOk(3, r) && Deliverable(c, r) && |SegmentBytes(c, s)| < MAX_SEGMENT_SIZE
    ensures var grown := s.(records := s.records + [r]); SegmentOk(c, grown) && EndsAtLimit(c, grown)
  {
    GrownSegmentOk(c, s, r);
    GrownSegmentBytes(c, s, r);
    hide SegmentBytes;
    hide SegmentOk;
    hide Encode;
  }

  lemma LogKeepsCut(c: Codec, s: State, op: Op, fault: Option<nat>)
    requires c.Sound() && ActiveOk(c, s) && CutAtLimit(c, s) && s.size < MAX_SEGMENT_SIZE
    requires s.nextSeqno < Pow256(8) && |c.encode(op)| < Pow256(4)
    ensures CutAtLimit(c, Logged(c, s, op, fault))
  {
    var r := RecordOf(c, s.nextSeqno, op, s.chainHead);
    RecordOfOk(c, s.nextSeqno, op, s.chainHead);
    GrownEndsAtLimit(c, s.current, r);
    hide SegmentBytes;
    hide SegmentOk;
    hide EndsAtLimit;
    hide RecordOf;
    hide Encode;
    hide RecordHash;
    hide Written;
    LoggedSegments(c, s, op, fault);
    hide Logged;
  }

  lemma LoggedSegments(c: Codec, s: State, op: Op, fault: Option<nat>)
    ensures var t := Logged(c, s, op, fault);
            && t.sealed == s.sealed
            && t.current == s.current.(records := s.current.records + [RecordOf(c, s.nextSeqno, op, s.chainHead)])
  {
    hide Encode;
    hide RecordHash;
    hide RecordOf;
  }

  lemma StepKeepsCut(c: Codec, s: State, step: Step)
    requires c.Sound() && Inv(c, s) && Fits(c, s, step) && CutAtLimit(c, s)
    ensures CutAtLimit(c, Next(c, s, step))
  {
    hide SegmentBytes;
    hide SegmentOk;
    hide EndsAtLimit;
    hide History;
    hide ClosedOk;
    hide Logged;
    if step.Append? {
      var live := if s.active.Some? then s else Recovered(s);
      RotateKeepsInv(c, live, step.syncFault);
      RotateKeepsCut(c, live, step.syncFault);
      LogKeepsCut(c, Rotated(live, step.syncFault), step.op, step.writeFault);
      hide Rotated;
    }
  }

  /** So it is after every run of a log opened afresh. */
  lemma {:induction false} RunKeepsCut(c: Codec, from: State, steps: seq<Step>, to: State)
    requires c.Sound() && Inv(c, from) && CutAtLimit(c, from) && Reaches(c, from, steps, to)
    ensures CutAtLimit(c, to)
    decreases |steps|
  {
    hide Inv;
    hide CutAtLimit;
    if steps != [] {
      StepKeepsInv(c, from, steps[0]);
      StepKeepsCut(c, from, steps[0]);
      RunKeepsCut(c, Next(c, from, steps[0]), steps[1..], to);
    }
  }

  lemma SegmentsEndAtLimit(c: Codec, first: nat, space: nat, steps: seq<Step>, s: State)
    requires c.Sound() && first < Pow256(8) && space < Pow256(8)
    requires Reaches(c, Open(first, space), steps, s)
    ensures CutAtLimit(c, s)
    ensures forall f :: f in s.closed ==> |f.contents| >= MAX_SEGMENT_SIZE
  {
    OpenInv(c, first, space);
    RunKeepsInv(c, Open(first, space), steps, s);
    RunKeepsCut(c, Open(first, space), steps, s);
    hide SegmentBytes;
  }

  // ---- the class -----------------------------------------------------------

  /** `OpLog`: the writer's own fields, and the directory entries it works on. */
  class OpLog {
    const codec: Codec
    var closed: seq<File>
    var active: Option<bytes>
    var path: nat
    var accepted: bytes
    var size: nat
    var nextSeqno: nat
    var chainHead: bytes
    const space: nat
    ghost var acked: seq<Ack>
    ghost var sealed: seq<Segment>
    ghost var current: Segment

    ghost function St(): State
      reads this
    {
      State(closed, path, active, accepted, size, nextSeqno, chainHead, space, acked, sealed, current)
    }

    constructor (codec: Codec, nextSeqno: nat, space: nat)
      requires nextSeqno < Pow256(8) && space < Pow256(8)
      ensures this.codec == codec && St() == Open(nextSeqno, space) && Inv(codec, St())
    {
      this.codec, this.space, this.nextSeqno := codec, space, nextSeqno;
      closed, path, size, chainHead := [], nextSeqno, V3_HEADER_SIZE, ZERO_HASH;
      var header := Header(Empty(nextSeqno, ZERO_HASH, space));
      active, accepted := Some(header), header;
      acked, sealed, current := [], [], Empty(nextSeqno, ZERO_HASH, space);
      OpenInv(codec, nextSeqno, space);
    }

    method RecoverSegment()
      modifies this`active
      ensures St() == Recovered(old(St()))
    {
      active := Some(accepted);
    }

    method Sync(fault: bool)
      requires |chainHead| == 32
      modifies this`active
      ensures St() == Next(codec, old(St()), Step.Sync(fault))
    {
      if active.None? {
        RecoverSegment();
      }
      if fault {
        RecoverSegment();
      }
    }

    method RotateIfNeeded(syncFault: bool)
      requires |chainHead| == 32 && active.Some?
      modifies this
      ensures St() == Rotated(old(St()), syncFault) && nextSeqno == old(nextSeqno)
      ensures old(size) < MAX_SEGMENT_SIZE ==> St() == old(St())
      ensures old(size) >= MAX_SEGMENT_SIZE ==>
                && path == nextSeqno && active == Some(BareHeader(nextSeqno, chainHead, space))
                && closed == old(closed) + [File(old(path), if syncFault then old(accepted) else old(active).value)]
    {
      if size < MAX_SEGMENT_SIZE {
        return;
      }
      Sync(syncFault);
      var header := Header(Empty(nextSeqno, chainHead, space));
      closed := closed + [File(path, active.value)];
      sealed, current := sealed + [current], Empty(nextSeqno, chainHead, space);
      active, accepted, path, size := Some(header), header, nextSeqno, V3_HEADER_SIZE;
    }

    /** The first write attempt: all of the record, or the given part of it and an error. */
    method WriteRecord(record: bytes, fault: Option<nat>) returns (ok: bool)
      modifies this`active
      ensures ok <==> fault.None?
      ensures St() == Appended(old(St()),
                if fault.None? then record else record[..if fault.value < |record| then fault.value else |record|])
    {
      var there := if active.Some? then active.value else [];
      if fault.None? {
        active := Some(there + record);
        return true;
      }
      active := Some(there + record[..if fault.value < |record| then fault.value else |record|]);
      ok := false;
    }

    /** Write the op's record, retrying once after recovery, and account for it. */
    method LogRecord(op: Op, writeFault: Option<nat>) returns (seqno: nat)
      modifies this
      ensures St() == Logged(codec, old(St()), op, writeFault) && seqno == old(nextSeqno)
    {
      hide Encode;
      hide RecordHash;
      hide RecordOf;
      seqno := nextSeqno;
      var r := RecordOf(codec, seqno, op, chainHead);
      var record := Encode(codec, r);
      var ok := WriteRecord(record, writeFault);
      if !ok {
        RecoverSegment();
        active := Some(active.value + record);
      }
      assert St() == Written(old(St()), record, writeFault);
      accepted := accepted + record;
      size := size + |record|;
      chainHead := RecordHash(codec, r);
      nextSeqno := nextSeqno + 1;
      acked := acked + [Ack(seqno, op)];
      current := current.(records := current.records + [r]);
    }

    /** Append an op; the seqno returned is acknowledged. */
    method Append(op: Op, writeFault: Option<nat>, syncFault: bool) returns (seqno: nat)
      requires codec.Sound() && Inv(codec, St()) && Fits(codec, St(), Step.Append(op, writeFault, syncFault))
      modifies this
      ensures St() == Next(codec, old(St()), Step.Append(op, writeFault, syncFault))
      ensures seqno == old(nextSeqno) && acked == old(acked) + [Ack(seqno, op)] && nextSeqno == seqno + 1
      ensures Inv(codec, St())
    {
      StepKeepsInv(codec, St(), Step.Append(op, writeFault, syncFault));
      assert |chainHead| == 32;
      hide Inv;
      hide Logged;
      hide NewSegment;
      if active.None? {
        RecoverSegment();
      }
      RotateIfNeeded(syncFault);
      seqno := LogRecord(op, writeFault);
    }
  }
}
