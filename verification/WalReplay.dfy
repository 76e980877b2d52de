/**
 Reading segments back (src/log.rs): the recovery replay of a whole segment,
 which repairs a torn tail, and the incremental tail of a segment another
 process is still writing. Both are proved against what a byte prefix of a
 well-formed segment contains.
 */
module WalReplay {
  import opened Collections
  import opened Bytes
  import opened WalRecords

  // ---- scanning the record area --------------------------------------------

  datatype Stop = AtEof | AtTorn | AtBadCrc(final: bool) | AtRefused

  datatype Scanned = Scanned(records: seq<Record>, stop: Stop, used: nat)

  /** Recovery also requires the decoded op to have the recorded kind; tailing does not. */
  predicate Accepts(c: Codec, r: Record, recovery: bool) {
    if recovery then Deliverable(c, r) else c.decode(r.payload).Some?
  }

  /** Read records from `bs` until something is not an acceptable record. */
  function Scan(c: Codec, v: nat, bs: bytes, recovery: bool): (s: Scanned)
    ensures s.used <= |bs|
    decreases |bs|
  {
    match ReadRecord(c, v, bs)
    case Eof => Scanned([], AtEof, 0)
    case Torn => Scanned([], AtTorn, 0)
    case BadCrc(size) => Scanned([], AtBadCrc(size == |bs|), 0)
    case Good(r, size) =>
      if !Accepts(c, r, recovery) then Scanned([], AtRefused, 0)
      else
        var rest := Scan(c, v, bs[size..], recovery);
        Scanned([r] + rest.records, rest.stop, size + rest.used)
  }

  lemma ScanCons(c: Codec, v: nat, r: Record, tail: bytes, recovery: bool)
    requires c.Sound() && RecordOk(v, r) && Deliverable(c, r)
    ensures var s := Scan(c, v, tail, recovery);
            Scan(c, v, Encode(c, r) + tail, recovery) == Scanned([r] + s.records, s.stop, RecordSize(r) + s.used)
  {
    ReadWhole(c, v, r, tail);
    assert (Encode(c, r) + tail)[RecordSize(r)..] == tail;
  }

  /** Whole records in front of anything are found, and then what there is behind them. */
  lemma {:induction false} ScanThen(c: Codec, v: nat, rs: seq<Record>, tail: bytes, recovery: bool)
    requires c.Sound() && forall r :: r in rs ==> RecordOk(v, r) && Deliverable(c, r)
    ensures var s := Scan(c, v, tail, recovery);
            Scan(c, v, EncodeAll(c, rs) + tail, recovery) == Scanned(rs + s.records, s.stop, SizeOf(rs) + s.used)
    decreases |rs|
  {
    hide Scan;
    hide Encode;
    hide EncodeAll;
    if rs == [] {
      NothingEncoded(c, rs);
      assert EncodeAll(c, rs) + tail == tail;
    } else {
      EncodeAllCons(c, rs);
      assert EncodeAll(c, rs) + tail == Encode(c, rs[0]) + (EncodeAll(c, rs[1..]) + tail);
      ScanCons(c, v, rs[0], EncodeAll(c, rs[1..]) + tail, recovery);
      ScanThen(c, v, rs[1..], tail, recovery);
    }
  }

  lemma NothingEncoded(c: Codec, rs: seq<Record>)
    requires rs == []
    ensures EncodeAll(c, rs) == []
  {
  }

  /** What the scan of the first `n` bytes of encoded records finds: the records wholly inside. */
  ghost predicate FindsWhole(s: Scanned, rs: seq<Record>, n: nat) {
    && s.records == rs[..WholeWithin(rs, n)]
    && s.used == SizeOf(s.records) <= n
    && s.stop == if n - s.used < 4 then AtEof else AtTorn
  }

  lemma ScanPartial(c: Codec, v: nat, rs: seq<Record>, bs: bytes, recovery: bool)
    requires |bs| < 4 || (rs != [] && RecordOk(v, rs[0]) && |bs| < RecordSize(rs[0]) && bs == Encode(c, rs[0])[..|bs|])
    ensures Scan(c, v, bs, recovery) == Scanned([], if |bs| < 4 then AtEof else AtTorn, 0)
  {
    if |bs| >= 4 {
      ReadPartial(c, v, rs[0], |bs|);
    }
  }

  lemma {:induction false} ScanPrefix(c: Codec, v: nat, rs: seq<Record>, n: nat, recovery: bool)
    requires c.Sound() && n <= |EncodeAll(c, rs)|
    requires forall r :: r in rs ==> RecordOk(v, r) && Deliverable(c, r)
    ensures FindsWhole(Scan(c, v, EncodeAll(c, rs)[..n], recovery), rs, n)
    decreases |rs|
  {
    hide Scan;
    hide EncodeAll;
    hide Encode;
    hide ReadRecord;
    SizeOfEncoded(c, rs);
    if rs == [] {
      ScanPartial(c, v, rs, EncodeAll(c, rs)[..n], recovery);
    } else {
      EncodeAllCons(c, rs);
      var size := RecordSize(rs[0]);
      var rest := EncodeAll(c, rs[1..]);
      if n < size {
        assert EncodeAll(c, rs)[..n] == Encode(c, rs[0])[..n];
        ScanPartial(c, v, rs, EncodeAll(c, rs)[..n], recovery);
      } else {
        assert EncodeAll(c, rs)[..n] == Encode(c, rs[0]) + rest[..n - size];
        ScanCons(c, v, rs[0], rest[..n - size], recovery);
        ScanPrefix(c, v, rs[1..], n - size, recovery);
      }
    }
  }

  /** The bytes a scan uses up are those of the records it finds. */
  lemma {:induction false} ScanUsesItsRecords(c: Codec, v: nat, bs: bytes, recovery: bool)
    ensures Scan(c, v, bs, recovery).used == SizeOf(Scan(c, v, bs, recovery).records)
    decreases |bs|
  {
    match ReadRecord(c, v, bs)
    case Good(r, size) =>
      if Accepts(c, r, recovery) {
        ScanUsesItsRecords(c, v, bs[size..], recovery);
        var rest := Scan(c, v, bs[size..], recovery).records;
        assert ([r] + rest)[1..] == rest;
      }
    case _ =>
  }

  // ---- recovery replay -----------------------------------------------------

  datatype Certificate = Certificate(first: nat, last: nat, size: nat)

  datatype Replayed =
    | Ok(head: bytes, delivered: seq<Record>, certificate: Option<Certificate>)
    | Failed

  predicate Increasing(rs: seq<Record>) {
    forall i, j :: 0 <= i < j < |rs| ==> rs[i].seqno < rs[j].seqno
  }

  function NextHead(c: Codec, v: nat, head: bytes, rs: seq<Record>): bytes {
    if v >= 2 then ChainAfter(c, head, rs) else head
  }

  /** The seqno range a fully read segment may be certified for, if any. */
  function Certify(first: nat, rs: seq<Record>, size: nat): Option<Certificate> {
    if !Increasing(rs) || (rs != [] && rs[0].seqno < first) then None
    else if rs != [] then Some(Certificate(first, rs[|rs| - 1].seqno, size))
    else if first > 0 then Some(Certificate(first, first - 1, size))
    else None
  }

  /** The file after recovery: a torn or corrupt final record is cut off. */
  function Repaired(file: bytes, at: nat, stop: Stop): bytes
    requires at <= |file|
  {
    if stop == AtTorn || stop == AtBadCrc(true) then file[..at] else file
  }

  /** Replaying the record area behind an intact header. */
  function ReplayArea(c: Codec, v: nat, file: bytes, head: bytes, steady: bool): (r: (Replayed, bytes))
    requires 16 <= HeaderSize(v) <= |file|
  {
    var s := Scan(c, v, file[HeaderSize(v)..], true);
    if s.stop == AtRefused || s.stop == AtBadCrc(false) then (Failed, file)
    else
      var at := HeaderSize(v) + s.used;
      var cert := if at == |file| && steady then Certify(Num(file[8..16]), s.records, at) else None;
      (Ok(NextHead(c, v, head, s.records), s.records, cert), Repaired(file, at, s.stop))
  }

  /**
   What replaying one segment file returns and leaves on disk. `steady` says
   that the file's length and modification time did not move meanwhile.
   */
  function Replay(c: Codec, file: bytes, head: bytes, steady: bool): (r: (Replayed, bytes)) {
    if |file| < 8 then (Ok(head, [], None), file)
    else match VersionOf(file[..8])
      case None => (Failed, file)
      case Some(v) =>
        if |file| < HeaderSize(v) then (Ok(head, [], None), file) else ReplayArea(c, v, file, head, steady)
  }

  lemma HeaderFields(s: Segment)
    requires 1 <= s.version <= 3 && |s.head| == 32
    ensures |Header(s)| == HeaderSize(s.version) >= 16
    ensures VersionOf(Header(s)[..8]) == Some(s.version) && Header(s)[8..16] == Be(s.first, 8)
  {
    assert Header(s)[..8] == Magic(s.version);
    assert Magic(s.version)[7] == 48 + s.version;
  }

  lemma PrefixParts(front: bytes, rest: bytes, cut: nat)
    requires |front| >= 16 && 8 <= cut <= |front + rest|
    ensures (front + rest)[..cut][..8] == front[..8]
    ensures cut >= |front| ==>
              (front + rest)[..cut][8..16] == front[8..16] && (front + rest)[..cut][|front|..] == rest[..cut - |front|]
  {
  }

  lemma MagicOfPrefix(c: Codec, s: Segment, cut: nat)
    requires WellFormed(c, s) && 8 <= cut <= |SegmentBytes(c, s)|
    ensures var file := SegmentBytes(c, s)[..cut];
            && VersionOf(file[..8]) == Some(s.version)
            && (cut >= HeaderSize(s.version) ==>
                 file[HeaderSize(s.version)..] == EncodeAll(c, s.records)[..cut - HeaderSize(s.version)])
            && (cut >= HeaderSize(s.version) ==> Num(file[8..16]) == s.first)
  {
    hide VersionOf;
    HeaderFields(s);
    PrefixParts(Header(s), EncodeAll(c, s.records), cut);
    NumOfBe(s.first, 8);
  }

  lemma HeaderReads(s: Segment, area: bytes)
    requires 1 <= s.version <= 3 && |s.head| == 32
    ensures VersionOf((Header(s) + area)[..8]) == Some(s.version)
    ensures (Header(s) + area)[HeaderSize(s.version)..] == area
  {
    hide VersionOf;
    HeaderFields(s);
    assert (Header(s) + area)[..8] == Header(s)[..8];
  }

  /** The records wholly before byte `cut` of the segment. */
  function Before(s: Segment, cut: nat): seq<Record> {
    if cut < HeaderSize(s.version) then [] else s.records[..WholeWithin(s.records, cut - HeaderSize(s.version))]
  }

  /** Where the last whole record before `cut` ends. */
  function Boundary(s: Segment, cut: nat): nat {
    HeaderSize(s.version) + SizeOf(Before(s, cut))
  }

  lemma AreaFinds(c: Codec, v: nat, file: bytes, rs: seq<Record>, head: bytes, steady: bool)
    requires 16 <= HeaderSize(v) <= |file|
    requires FindsWhole(Scan(c, v, file[HeaderSize(v)..], true), rs, |file| - HeaderSize(v))
    ensures var (r, after) := ReplayArea(c, v, file, head, steady);
            var whole := rs[..WholeWithin(rs, |file| - HeaderSize(v))];
            var at := HeaderSize(v) + SizeOf(whole);
            && at <= |file|
            && r.Ok? && r.delivered == whole && r.head == NextHead(c, v, head, whole)
            && (r.certificate.Some? ==> at == |file|)
            && after == if |file| >= at + 4 then file[..at] else file
  {
  }

  /**
   Power loss at any byte. Replay never fails, delivers exactly the records
   wholly before the cut, and truncates a stray tail of four or more bytes.
   */
  lemma ReplayAfterCut(c: Codec, s: Segment, cut: nat, head: bytes, steady: bool)
    requires c.Sound() && WellFormed(c, s) && cut <= |SegmentBytes(c, s)|
    ensures var (r, after) := Replay(c, SegmentBytes(c, s)[..cut], head, steady);
            && r.Ok? && r.delivered == Before(s, cut)
            && r.head == NextHead(c, s.version, head, Before(s, cut))
            && (r.certificate.Some? ==> cut == Boundary(s, cut))
            && after == SegmentBytes(c, s)[..if cut >= Boundary(s, cut) + 4 then Boundary(s, cut) else cut]
  {
    hide Scan;
    hide EncodeAll;
    hide WholeWithin;
    if cut >= 8 {
      MagicOfPrefix(c, s, cut);
      if cut >= HeaderSize(s.version) {
        var hs := HeaderSize(s.version);
        ScanPrefix(c, s.version, s.records, cut - hs, true);
        AreaFinds(c, s.version, SegmentBytes(c, s)[..cut], s.records, head, steady);
      }
    }
  }

  lemma {:induction false} WholeWithinOwnSize(rs: seq<Record>, k: nat)
    requires k <= |rs|
    ensures WholeWithin(rs, SizeOf(rs[..k])) == k
    decreases |rs|
  {
    if k > 0 {
      assert rs[..k][1..] == rs[1..][..k - 1];
      WholeWithinOwnSize(rs[1..], k - 1);
    } else {
      assert rs[..k] == [];
    }
  }

  /** Replaying again after the repair delivers the same records and changes nothing more. */
  lemma ReplayTwice(c: Codec, s: Segment, cut: nat, head: bytes, steady: bool)
    requires c.Sound() && WellFormed(c, s) && cut <= |SegmentBytes(c, s)|
    ensures var (first, after) := Replay(c, SegmentBytes(c, s)[..cut], head, steady);
            var (second, again) := Replay(c, after, head, steady);
            && first.Ok? && second.Ok?
            && second.delivered == first.delivered && second.head == first.head && again == after
  {
    hide Replay;
    ReplayAfterCut(c, s, cut, head, steady);
    if cut >= Boundary(s, cut) + 4 {
      var cut' := Boundary(s, cut);
      WholeWithinOwnSize(s.records, |Before(s, cut)|);
      ReplayAfterCut(c, s, cut', head, steady);
    }
  }

  lemma ScanAll(c: Codec, v: nat, rs: seq<Record>, recovery: bool)
    requires c.Sound()
    requires forall r :: r in rs ==> RecordOk(v, r) && Deliverable(c, r)
    ensures Scan(c, v, EncodeAll(c, rs), recovery) == Scanned(rs, AtEof, |EncodeAll(c, rs)|)
  {
    var area := EncodeAll(c, rs);
    SizeOfEncoded(c, rs);
    WholeWithinIsMaximal(rs, |area|);
    assert area[..|area|] == area && rs[..|rs|] == rs;
    ScanPrefix(c, v, rs, |area|, recovery);
  }

  /** A segment read to its end certifies its true range whenever its seqnos allow one. */
  lemma CompleteSegmentCertified(c: Codec, s: Segment, head: bytes)
    requires c.Sound() && WellFormed(c, s)
    ensures Replay(c, SegmentBytes(c, s), head, true).0 ==
              Ok(NextHead(c, s.version, head, s.records), s.records, Certify(s.first, s.records, |SegmentBytes(c, s)|))
    ensures Replay(c, SegmentBytes(c, s), head, true).0.certificate.Some? <==>
              Increasing(s.records) && if s.records == [] then s.first > 0 else s.records[0].seqno >= s.first
  {
    hide Scan;
    hide EncodeAll;
    var file := SegmentBytes(c, s);
    assert file[..|file|] == file;
    MagicOfPrefix(c, s, |file|);
    var area := EncodeAll(c, s.records);
    assert area[..|area|] == area;
    ScanAll(c, s.version, s.records, true);
  }

  /**
   What a certificate vouches for: the whole file was read, and every record in
   it lies in the certified range, the last one at its end.
   */
  lemma CertificateIsTrue(c: Codec, file: bytes, head: bytes, steady: bool)
    ensures var r := Replay(c, file, head, steady).0;
            r.Ok? && r.certificate.Some? ==>
              var cert := r.certificate.value;
              && steady && cert.size == |file| && |file| >= 16 && cert.first == Num(file[8..16])
              && cert.first <= cert.last + 1 && Increasing(r.delivered)
              && (forall x :: x in r.delivered ==> cert.first <= x.seqno <= cert.last)
              && (r.delivered == [] <==> cert.last + 1 == cert.first)
  {
    hide Scan;
    hide VersionOf;
    hide Repaired;
    hide NextHead;
    var r := Replay(c, file, head, steady).0;
    if r.Ok? && r.certificate.Some? {
      CertifiedRange(Num(file[8..16]), r.delivered, |file|);
    }
  }

  lemma CertifiedRange(first: nat, rs: seq<Record>, size: nat)
    requires Certify(first, rs, size).Some?
    ensures var cert := Certify(first, rs, size).value;
            && cert.first == first && cert.size == size && first <= cert.last + 1 && Increasing(rs)
            && (forall x :: x in rs ==> first <= x.seqno <= cert.last)
            && (rs == [] <==> cert.last + 1 == first)
  {
    forall x | x in rs ensures first <= x.seqno <= rs[|rs| - 1].seqno {
      var i :| 0 <= i < |rs| && rs[i] == x;
      assert i > 0 ==> rs[0].seqno < rs[i].seqno;
      assert i < |rs| - 1 ==> rs[i].seqno < rs[|rs| - 1].seqno;
    }
  }

  /** What is delivered depends on the file alone. */
  lemma DeliveredIsTheFiles(c: Codec, file: bytes, head: bytes, steady: bool, head': bytes, steady': bool)
    ensures var r, r' := Replay(c, file, head, steady).0, Replay(c, file, head', steady').0;
            (r.Ok? <==> r'.Ok?) && (r.Ok? ==> r.delivered == r'.delivered)
  {
    hide Scan;
  }

  // ---- field-by-field reading ----------------------------------------------

  /** `read_exact`: on a short file the rest is consumed and the read fails. */
  method ReadExact(file: bytes, pos: nat, n: nat) returns (ok: bool, field: bytes, next: nat)
    requires pos <= |file|
    ensures ok <==> pos + n <= |file|
    ensures ok ==> field == file[pos..pos + n] && next == pos + n
    ensures !ok ==> next == |file|
  {
    ok := pos + n <= |file|;
    if ok {
      field, next := file[pos..pos + n], pos + n;
    } else {
      field, next := [], |file|;
    }
  }

  method ReadRecordAt(c: Codec, v: nat, file: bytes, start: nat) returns (r: Read)
    requires start <= |file|
    ensures r == ReadRecord(c, v, file[start..])
  {
    ghost var bs := file[start..];
    var ok, lenField, pos := ReadExact(file, start, 4);
    if !ok { return Eof; }
    assert lenField == bs[..4];
    var len := Num(lenField);
    var seqField: bytes;
    ok, seqField, pos := ReadExact(file, pos, 8);
    if !ok { return Torn; }
    assert seqField == bs[4..12];
    var kindField: bytes;
    ok, kindField, pos := ReadExact(file, pos, 1);
    if !ok { return Torn; }
    assert kindField == [bs[12]];
    var prev: bytes := [];
    if v >= 2 {
      ok, prev, pos := ReadExact(file, pos, 32);
      if !ok { return Torn; }
    }
    assert prev == bs[13..13 + PrevLen(v)];
    var payload: bytes;
    ok, payload, pos := ReadExact(file, pos, len);
    if !ok { return Torn; }
    var crcField: bytes;
    ok, crcField, pos := ReadExact(file, pos, 4);
    if !ok { return Torn; }
    assert payload == bs[13 + PrevLen(v)..13 + PrevLen(v) + len];
    assert crcField == bs[13 + PrevLen(v) + len..17 + PrevLen(v) + len];
    if c.crc(seqField + kindField + prev + payload) == Num(crcField) {
      r := Good(Record(Num(seqField), kindField[0], prev, payload), pos - start);
    } else {
      r := BadCrc(pos - start);
    }
  }

  class SegmentFile {
    var contents: bytes

    constructor (contents: bytes)
      ensures this.contents == contents
    {
      this.contents := contents;
    }

    method Truncate(len: nat)
      requires len <= |contents|
      modifies this
      ensures contents == old(contents)[..len]
    {
      contents := contents[..len];
    }
  }

  /** The header: which version it declares, and whether all of it is there. */
  method ReadHeader(file: bytes) returns (version: Option<nat>, complete: bool, first: nat, pos: nat)
    requires |file| >= 8
    ensures version == VersionOf(file[..8])
    ensures version.Some? ==> (complete <==> |file| >= HeaderSize(version.value))
    ensures version.Some? && complete ==> pos == HeaderSize(version.value) && first == Num(file[8..16])
  {
    var ok, magic, firstField, rest;
    complete, first := false, 0;
    ok, magic, pos := ReadExact(file, 0, 8);
    version := VersionOf(magic);
    if version.None? { return; }
    ok, firstField, pos := ReadExact(file, pos, 8);
    if !ok { return; }
    first := Num(firstField);
    if version.value >= 2 {
      ok, rest, pos := ReadExact(file, pos, 32);
      if !ok { return; }
      if version.value == 3 {
        ok, rest, pos := ReadExact(file, pos, 8);
        if !ok { return; }
      }
    }
    complete := true;
  }

  function Prepend(delivered: seq<Record>, used: nat, s: Scanned): Scanned {
    Scanned(delivered + s.records, s.stop, used + s.used)
  }

  /** One turn of the record loop: either a reason to stop, or a record to deliver. */
  method NextRecord(c: Codec, v: nat, area: bytes, pos: nat, recovery: bool)
    returns (stop: Option<Stop>, rec: Record, size: nat)
    requires pos <= |area|
    ensures stop.Some? ==> Scan(c, v, area[pos..], recovery) == Scanned([], stop.value, 0)
    ensures stop.None? ==>
              && 17 <= size <= |area| - pos
              && Scan(c, v, area[pos..], recovery) == Prepend([rec], size, Scan(c, v, area[pos + size..], recovery))
  {
    hide ReadRecord;
    rec, size := Record(0, 0, [], []), 0;
    var read := ReadRecordAt(c, v, area, pos);
    match read {
      case Eof => stop := Some(AtEof);
      case Torn => stop := Some(AtTorn);
      case BadCrc(n) => stop := Some(AtBadCrc(pos + n >= |area|));
      case Good(r, n) =>
        var op := c.decode(r.payload);
        if op.None? || (recovery && op.value.kind != r.kind) {
          stop := Some(AtRefused);
        } else {
          assert area[pos..][n..] == area[pos + n..];
          stop, rec, size := None, r, n;
        }
    }
  }

  /** The record loop shared by recovery and tailing, over the bytes after the starting point. */
  method ReadRecords(c: Codec, v: nat, area: bytes, head: bytes, recovery: bool) returns (chain: bytes, s: Scanned)
    ensures s == Scan(c, v, area, recovery)
    ensures chain == NextHead(c, v, head, s.records)
  {
    hide Scan;
    chain := head;
    var delivered, pos := [], 0;
    assert area[0..] == area && [] + Scan(c, v, area, recovery).records == Scan(c, v, area, recovery).records;
    while true
      invariant pos <= |area|
      invariant chain == NextHead(c, v, head, delivered)
      invariant Scan(c, v, area, recovery) == Prepend(delivered, pos, Scan(c, v, area[pos..], recovery))
      decreases |area| - pos
    {
      var stop, rec, size := NextRecord(c, v, area, pos, recovery);
      if stop.Some? {
        return chain, Scanned(delivered, stop.value, pos);
      }
      if v >= 2 {
        chain := RecordHash(c, rec);
      }
      delivered := delivered + [rec];
      pos := pos + size;
    }
  }

  /** Recovery replay of one segment file, with torn-tail repair in place. */
  method ReplaySegment(c: Codec, f: SegmentFile, head: bytes, steady: bool) returns (r: Replayed)
    modifies f
    ensures (r, f.contents) == Replay(c, old(f.contents), head, steady)
  {
    hide Scan;
    var file := f.contents;
    if |file| < 8 { return Ok(head, [], None); }
    var version, complete, first, start := ReadHeader(file);
    if version.None? { return Failed; }
    if !complete { return Ok(head, [], None); }
    var chain, s := ReadRecords(c, version.value, file[start..], head, true);
    var at := start + s.used;
    match s.stop {
      case AtRefused => return Failed;
      case AtBadCrc(final) =>
        if !final { return Failed; }
        f.Truncate(at);
      case AtTorn => f.Truncate(at);
      case AtEof =>
    }
    var certificate := if at == |file| && steady then Certify(first, s.records, at) else None;
    r := Ok(chain, s.records, certificate);
  }
}
