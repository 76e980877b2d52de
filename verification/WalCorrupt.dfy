/**
 Reading files that are not what any writer wrote (src/log.rs). Checksums are
 compared, not just skipped: whatever the bytes, what is delivered re-encodes
 to the bytes it came from, and a record whose checksum is wrong ends the
 reading. Behind it recovery fails, unless it is the last of the file.
 */
module WalCorrupt {
  import opened Collections
  import opened Bytes
  import opened WalRecords
  import opened WalReplay
  import opened WalTail

  // ---- any bytes -----------------------------------------------------------

  lemma GoodFields(c: Codec, v: nat, bs: bytes)
    requires ReadRecord(c, v, bs).Good?
    ensures var r, size, at := ReadRecord(c, v, bs).rec, ReadRecord(c, v, bs).size, 13 + PrevLen(v);
            && at + |r.payload| + 4 == size <= |bs| && |r.payload| == Num(bs[..4])
            && r == Record(Num(bs[4..12]), bs[12], bs[13..at], bs[at..size - 4])
            && c.crc(bs[4..12] + [bs[12]] + r.prev + r.payload) == Num(bs[size - 4..size])
  {
  }

  lemma FieldsRejoin(bs: bytes, at: nat, end: nat)
    requires 13 <= at <= end && end + 4 <= |bs|
    ensures bs[..end + 4] == bs[..4] + (bs[4..12] + [bs[12]] + bs[13..at] + bs[at..end]) + bs[end..end + 4]
  {
  }

  /** A record that reads well is the encoding of its fields. */
  lemma GoodReencodes(c: Codec, v: nat, bs: bytes)
    requires ReadRecord(c, v, bs).Good?
    ensures var read := ReadRecord(c, v, bs);
            RecordOk(v, read.rec) && read.size == RecordSize(read.rec) && bs[..read.size] == Encode(c, read.rec)
  {
    hide ReadRecord;
    var r, size := ReadRecord(c, v, bs).rec, ReadRecord(c, v, bs).size;
    GoodFields(c, v, bs);
    FieldsRejoin(bs, 13 + PrevLen(v), size - 4);
    BeOfNum(bs[..4]);
    BeOfNum(bs[4..12]);
    BeOfNum(bs[size - 4..size]);
    assert Covered(r) == bs[4..12] + [bs[12]] + r.prev + r.payload;
  }

  lemma ScanOfGood(c: Codec, v: nat, bs: bytes, recovery: bool)
    ensures var read, s := ReadRecord(c, v, bs), Scan(c, v, bs, recovery);
            if read.Good? && Accepts(c, read.rec, recovery) then
              s.records == [read.rec] + Scan(c, v, bs[read.size..], recovery).records
              && s.used == read.size + Scan(c, v, bs[read.size..], recovery).used
            else s.records == [] && s.used == 0
  {
    hide ReadRecord;
    hide Accepts;
  }

  lemma OneMoreEncoded(c: Codec, r: Record, rest: seq<Record>, bs: bytes, size: nat, used: nat)
    requires size + used <= |bs| && bs[..size] == Encode(c, r) && bs[size..][..used] == EncodeAll(c, rest)
    ensures bs[..size + used] == EncodeAll(c, [r] + rest)
  {
    hide EncodeAll;
    hide Encode;
    EncodeAllCons(c, [r] + rest);
    assert ([r] + rest)[1..] == rest;
    assert bs[..size + used] == bs[..size] + bs[size..][..used];
  }

  /** Whatever the bytes, the records a scan finds are those whose encodings it used up. */
  lemma {:induction false} ScanReencodes(c: Codec, v: nat, bs: bytes, recovery: bool)
    ensures var s := Scan(c, v, bs, recovery);
            && bs[..s.used] == EncodeAll(c, s.records)
            && forall r :: r in s.records ==> RecordOk(v, r) && Accepts(c, r, recovery)
    decreases |bs|
  {
    hide Scan;
    hide ReadRecord;
    hide RecordOk;
    hide Accepts;
    var read := ReadRecord(c, v, bs);
    ScanOfGood(c, v, bs, recovery);
    if read.Good? && Accepts(c, read.rec, recovery) {
      var rest := Scan(c, v, bs[read.size..], recovery);
      GoodReencodes(c, v, bs);
      ScanReencodes(c, v, bs[read.size..], recovery);
      OneMoreEncoded(c, read.rec, rest.records, bs, read.size, rest.used);
    }
  }

  /**
   Replay of any file at all: what it delivers stands in the file, encoded
   record by record behind the header. It cuts the file at most where those
   records end, and a replay that fails leaves it alone.
   */
  lemma ReplayDeliversWhatIsThere(c: Codec, file: bytes, head: bytes, steady: bool)
    ensures var (r, after) := Replay(c, file, head, steady);
            && (r.Failed? ==> after == file)
            && (r.Ok? && r.delivered != [] ==>
                  && |file| >= 8 && VersionOf(file[..8]).Some?
                  && var v := VersionOf(file[..8]).value;
                  && var at := HeaderSize(v) + SizeOf(r.delivered);
                  && at <= |file| && file[HeaderSize(v)..at] == EncodeAll(c, r.delivered)
                  && (forall x :: x in r.delivered ==> RecordOk(v, x) && Deliverable(c, x))
                  && (after == file || after == file[..at]))
  {
    hide Scan;
    hide VersionOf;
    if |file| >= 8 && VersionOf(file[..8]).Some? {
      var v := VersionOf(file[..8]).value;
      if |file| >= HeaderSize(v) {
        var area := file[HeaderSize(v)..];
        var s := Scan(c, v, area, true);
        ScanReencodes(c, v, area, true);
        ScanUsesItsRecords(c, v, area, true);
        assert area[..s.used] == file[HeaderSize(v)..HeaderSize(v) + s.used];
      }
    }
  }

  // ---- a record that was damaged -------------------------------------------

  /** The record with these four bytes where its checksum belongs. */
  function WithSum(r: Record, sum: bytes): (bs: bytes)
    ensures |bs| == 13 + |r.prev| + |r.payload| + |sum|
  {
    Be(|r.payload|, 4) + (Be(r.seqno, 8) + [r.kind] + r.prev + r.payload) + sum
  }

  /** The checksum stored is not that of seqno, kind, previous hash and payload. */
  predicate Damaged(c: Codec, r: Record, sum: bytes) {
    |sum| == 4 && Num(sum) != c.crc(Be(r.seqno, 8) + [r.kind] + r.prev + r.payload)
  }

  lemma DamagedRecordReads(c: Codec, v: nat, r: Record, sum: bytes, more: bytes)
    requires RecordOk(v, r) && Damaged(c, r, sum)
    ensures ReadRecord(c, v, WithSum(r, sum) + more) == BadCrc(RecordSize(r))
  {
    RecordFields(Be(|r.payload|, 4), Be(r.seqno, 8), r.kind, r.prev, r.payload, sum, more);
    NumOfBe(|r.payload|, 4);
    NumOfBe(r.seqno, 8);
    var bs := WithSum(r, sum) + more;
    var at := 13 + PrevLen(v);
    var len := |r.payload|;
    assert bs[4..12] + [bs[12]] + bs[13..at] + bs[at..at + len] == Be(r.seqno, 8) + [r.kind] + r.prev + r.payload;
  }

  lemma DamagedScan(c: Codec, v: nat, rs: seq<Record>, r: Record, sum: bytes, more: bytes, recovery: bool)
    requires c.Sound() && (forall x :: x in rs ==> RecordOk(v, x) && Deliverable(c, x))
    requires RecordOk(v, r) && Damaged(c, r, sum)
    ensures Scan(c, v, EncodeAll(c, rs) + (WithSum(r, sum) + more), recovery) ==
              Scanned(rs, AtBadCrc(more == []), SizeOf(rs))
  {
    hide EncodeAll;
    hide ReadRecord;
    DamagedRecordReads(c, v, r, sum, more);
    ScanThen(c, v, rs, WithSum(r, sum) + more, recovery);
    assert Scan(c, v, WithSum(r, sum) + more, recovery) == Scanned([], AtBadCrc(more == []), 0);
    assert rs + [] == rs;
  }

  lemma BehindTheHeader(c: Codec, s: Segment, area: bytes)
    requires WellFormed(c, s)
    ensures var file := SegmentBytes(c, s) + area;
            && |file| >= HeaderSize(s.version) && VersionOf(file[..8]) == Some(s.version)
            && file[HeaderSize(s.version)..] == EncodeAll(c, s.records) + area
            && |SegmentBytes(c, s)| == HeaderSize(s.version) + SizeOf(s.records)
            && file[..|SegmentBytes(c, s)|] == SegmentBytes(c, s)
  {
    HeaderReads(s, EncodeAll(c, s.records) + area);
    SizeOfEncoded(c, s.records);
    assert SegmentBytes(c, s) + area == Header(s) + (EncodeAll(c, s.records) + area);
  }

  /**
   A damaged record behind good ones. With anything behind it, replay fails
   and touches nothing; as the last of the file, replay delivers the records
   before it and cuts the file there.
   */
  lemma DamagedRecordEndsReplay(c: Codec, s: Segment, r: Record, sum: bytes, more: bytes, head: bytes, steady: bool)
    requires c.Sound() && WellFormed(c, s) && RecordOk(s.version, r) && Damaged(c, r, sum)
    ensures var good := SegmentBytes(c, s);
            var file := good + (WithSum(r, sum) + more);
            Replay(c, file, head, steady) ==
              if more != [] then (Failed, file)
              else (Ok(NextHead(c, s.version, head, s.records), s.records, None), good)
  {
    hide Scan;
    hide SegmentBytes;
    hide VersionOf;
    hide SizeOf;
    hide EncodeAll;
    hide WithSum;
    hide Damaged;
    hide RecordOk;
    hide NextHead;
    DamagedScan(c, s.version, s.records, r, sum, more, true);
    BehindTheHeader(c, s, WithSum(r, sum) + more);
  }

  /** An intact record whose payload does not decode, or to an op of another kind: replay fails, whatever follows. */
  lemma UndeliverableRecordFailsReplay(c: Codec, s: Segment, r: Record, more: bytes, head: bytes, steady: bool)
    requires c.Sound() && WellFormed(c, s) && RecordOk(s.version, r) && !Deliverable(c, r)
    ensures var file := SegmentBytes(c, s) + (Encode(c, r) + more);
            Replay(c, file, head, steady) == (Failed, file)
  {
    ReadWhole(c, s.version, r, more);
    ScanThen(c, s.version, s.records, Encode(c, r) + more, true);
    assert Scan(c, s.version, Encode(c, r) + more, true).stop == AtRefused;
    BehindTheHeader(c, s, Encode(c, r) + more);
    hide Scan;
    hide SegmentBytes;
    hide VersionOf;
    hide SizeOf;
    hide EncodeAll;
  }

  // ---- following a damaged file --------------------------------------------

  /** The bytes behind `k` records, with more behind the segment. */
  lemma RestBehind(c: Codec, s: Segment, k: nat, area: bytes)
    requires WellFormed(c, s) && k <= |s.records|
    ensures From(SegmentBytes(c, s) + area, HeaderSize(s.version) + SizeOf(s.records[..k])) ==
              EncodeAll(c, s.records[k..]) + area
  {
    var whole := SegmentBytes(c, s);
    var start := HeaderSize(s.version) + SizeOf(s.records[..k]);
    var rest := EncodeAll(c, s.records[k..]);
    AreaFromBoundary(c, s, |whole|, k);
    hide SegmentBytes;
    hide EncodeAll;
    assert whole[..|whole|] == whole && rest[..|rest|] == rest;
    assert (whole + area)[start..] == whole[start..] + area;
  }

  lemma TailScans(c: Codec, file: bytes, v: nat, offset: nat, start: nat)
    requires |file| >= 8 && VersionOf(file[..8]) == Some(v) && start == if offset == 0 then HeaderSize(v) else offset
    ensures var rest := Scan(c, v, From(file, start), false);
            TailFrom(c, file, offset) == Tail(start + rest.used, rest.records)
  {
    hide Scan;
  }

  lemma TailScansRest(c: Codec, s: Segment, offset: nat, k: nat, area: bytes)
    requires WellFormed(c, s) && IsOffset(s, offset, k)
    ensures var start := HeaderSize(s.version) + SizeOf(s.records[..k]);
            var rest := Scan(c, s.version, EncodeAll(c, s.records[k..]) + area, false);
            TailFrom(c, SegmentBytes(c, s) + area, offset) == Tail(start + rest.used, rest.records)
  {
    hide Scan;
    hide TailFrom;
    hide SegmentBytes;
    hide EncodeAll;
    BehindTheHeader(c, s, area);
    RestBehind(c, s, k, area);
    assert s.records[..0] == [];
    TailScans(c, SegmentBytes(c, s) + area, s.version, offset, HeaderSize(s.version) + SizeOf(s.records[..k]));
  }

  /** Following stops in front of a damaged record, at whatever boundary it started, and stays there. */
  lemma DamagedRecordStopsTail(c: Codec, s: Segment, r: Record, sum: bytes, more: bytes, offset: nat, k: nat)
    requires c.Sound() && WellFormed(c, s) && RecordOk(s.version, r) && Damaged(c, r, sum) && IsOffset(s, offset, k)
    ensures TailFrom(c, SegmentBytes(c, s) + (WithSum(r, sum) + more), offset) ==
              Tail(|SegmentBytes(c, s)|, s.records[k..])
  {
    hide TailFrom;
    hide Scan;
    hide SegmentBytes;
    hide EncodeAll;
    hide SizeOf;
    hide WithSum;
    hide Damaged;
    hide RecordOk;
    TailScansRest(c, s, offset, k, WithSum(r, sum) + more);
    DamagedScan(c, s.version, s.records[k..], r, sum, more, false);
    BehindTheHeader(c, s, []);
    assert s.records == s.records[..k] + s.records[k..];
    SizeOfAppend(s.records[..k], s.records[k..]);
  }

  /** Following stops in front of an intact record exactly if its payload does not decode; the kind is not compared. */
  lemma IntactRecordStopsTailIff(c: Codec, s: Segment, r: Record, more: bytes, offset: nat, k: nat)
    requires c.Sound() && WellFormed(c, s) && RecordOk(s.version, r) && IsOffset(s, offset, k)
    ensures var t := TailFrom(c, SegmentBytes(c, s) + (Encode(c, r) + more), offset);
            && t.Tail?
            && (t.delivered == s.records[k..] <==> c.decode(r.payload).None?)
            && (c.decode(r.payload).Some? ==> s.records[k..] + [r] <= t.delivered)
  {
    TailScansRest(c, s, offset, k, Encode(c, r) + more);
    ReadWhole(c, s.version, r, more);
    ScanThen(c, s.version, s.records[k..], Encode(c, r) + more, false);
    ScanOfGood(c, s.version, Encode(c, r) + more, false);
    hide TailFrom;
    hide Scan;
    hide ReadRecord;
    hide SegmentBytes;
    hide EncodeAll;
    hide Encode;
    hide SizeOf;
  }
}
