/**
 Going on after a crash (src/log.rs `open_with_chain`): a writer that finds
 its last segment chained and not full appends behind whatever bytes replay
 has left there. Replay cuts a stray tail of four or more bytes off, but
 leaves one to three, and an incomplete header.
 */
module WalReopen {
  import opened Bytes
  import opened WalRecords
  import opened WalReplay

  // ---- numbers and their bytes ---------------------------------------------

  lemma {:induction false} LeadingZeros(n: nat, width: nat, small: nat, i: nat)
    requires n < Pow256(small) && i + small < width
    ensures Be(n, width)[i] == 0
    decreases width
  {
    if small > 0 {
      assert n / 256 < Pow256(small - 1);
      LeadingZeros(n / 256, width - 1, small - 1, i);
    } else if i < width - 1 {
      LeadingZeros(n / 256, width - 1, 0, i);
    }
  }

  lemma {:induction false} NumOfZeros(bs: bytes)
    requires forall i :: 0 <= i < |bs| ==> bs[i] == 0
    ensures Num(bs) == 0
  {
    if bs != [] {
      NumOfZeros(bs[..|bs| - 1]);
    }
  }

  /**
   A small number that reads the same from eight bytes and from the same bytes
   a little further on is zero.
   */
  lemma ShiftedNumber(bs: bytes, n: nat, shift: nat)
    requires n < Pow256(5) && 1 <= shift <= 3 && |bs| >= 8 + shift && bs[shift..8 + shift] == Be(n, 8)
    ensures Num(bs[..8]) == n ==> n == 0
  {
    if Num(bs[..8]) == n {
      BeOfNum(bs[..8]);
      var be := Be(n, 8);
      assert bs[..8] == be;
      forall i | 0 <= i < 3 ensures be[i] == 0 {
        LeadingZeros(n, 8, 5, i);
      }
      forall i, j | 0 <= i < j < 8 && j == i + shift ensures be[j] == be[i] {
        assert be[j] == bs[j] == bs[shift..8 + shift][i];
      }
      assert be[3] == be[3 - shift];
      assert be[4] == be[4 - shift];
      assert be[5] == be[5 - shift];
      assert be[6] == be[6 - shift];
      assert be[7] == be[7 - shift];
      NumOfZeros(be);
      NumOfBe(n, 8);
    }
  }

  // ---- what a scan finds ---------------------------------------------------

  /** One to three stray bytes in front of a record: it is not found. */
  lemma StrayHidesRecord(c: Codec, v: nat, stray: bytes, r: Record, more: bytes, recovery: bool)
    requires 1 <= |stray| <= 3 && 0 < r.seqno < Pow256(5)
    ensures var rs := Scan(c, v, stray + (Encode(c, r) + more), recovery).records;
            rs == [] || rs[0] != r
  {
    var bs := stray + (Encode(c, r) + more);
    var at := bs[4..];
    var n := |stray|;
    assert Encode(c, r)[4..12] == Be(r.seqno, 8);
    assert at[n..8 + n] == bs[4 + n..12 + n] == Encode(c, r)[4..12];
    ShiftedNumber(at, r.seqno, n);
    assert at[..8] == bs[4..12];
  }

  // ---- appending behind a repaired file ------------------------------------

  /** What recovery replay leaves of the first `cut` bytes of a segment. */
  function LeftBehind(c: Codec, s: Segment, cut: nat, steady: bool): bytes
    requires 1 <= s.version <= 3 && |s.head| == 32 && cut <= |SegmentBytes(c, s)|
  {
    Replay(c, SegmentBytes(c, s)[..cut], ZERO_HASH, steady).1
  }

  /** Replay of the file after the writer reopened it and appended the records. */
  function ReplayedAgain(c: Codec, s: Segment, cut: nat, steady: bool, more: seq<Record>): Replayed
    requires 1 <= s.version <= 3 && |s.head| == 32 && cut <= |SegmentBytes(c, s)|
  {
    Replay(c, LeftBehind(c, s, cut, steady) + EncodeAll(c, more), ZERO_HASH, steady).0
  }

  ghost predicate Yields(r: Replayed, rs: seq<Record>) {
    r.Ok? && r.delivered == rs
  }

  /** Behind an intact header, replay delivers what the scan of the rest finds. */
  lemma DeliveredIsScanned(c: Codec, s: Segment, area: bytes, steady: bool)
    requires 1 <= s.version <= 3 && |s.head| == 32
    ensures var r := Replay(c, Header(s) + area, ZERO_HASH, steady).0;
            r.Ok? ==> r.delivered == Scan(c, s.version, area, true).records
  {
    hide Scan;
    HeaderReads(s, area);
    hide Header;
    hide VersionOf;
  }

  lemma UpToBoundary(c: Codec, s: Segment, cut: nat)
    requires WellFormed(c, s) && HeaderSize(s.version) <= cut <= |SegmentBytes(c, s)|
    ensures Boundary(s, cut) <= cut
    ensures SegmentBytes(c, s)[..Boundary(s, cut)] == Header(s) + EncodeAll(c, Before(s, cut))
  {
    hide Header;
    hide EncodeAll;
    hide SizeOf;
    hide WholeWithin;
    var k := WholeWithin(s.records, cut - HeaderSize(s.version));
    WholeWithinIsMaximal(s.records, cut - HeaderSize(s.version));
    assert s.records == s.records[..k] + s.records[k..];
    EncodeAllAppend(c, s.records[..k], s.records[k..]);
    SizeOfEncoded(c, s.records[..k]);
    var front := Header(s) + EncodeAll(c, s.records[..k]);
    assert SegmentBytes(c, s) == front + EncodeAll(c, s.records[k..]);
    assert Boundary(s, cut) == |front|;
  }

  lemma CleanCutGoesOn(c: Codec, s: Segment, rs: seq<Record>, more: seq<Record>, steady: bool)
    requires c.Sound() && WellFormed(c, s)
    requires forall r :: r in rs + more ==> RecordOk(s.version, r) && Deliverable(c, r)
    ensures Yields(Replay(c, (Header(s) + EncodeAll(c, rs)) + EncodeAll(c, more), ZERO_HASH, steady).0, rs + more)
  {
    hide Replay;
    hide Header;
    var t := s.(records := rs + more);
    EncodeAllAppend(c, rs, more);
    assert Header(t) == Header(s) by {
      SameHeader(s, t);
    }
    assert SegmentBytes(c, t) == (Header(s) + EncodeAll(c, rs)) + EncodeAll(c, more);
    CompleteSegmentCertified(c, t, ZERO_HASH);
    DeliveredIsTheFiles(c, SegmentBytes(c, t), ZERO_HASH, true, ZERO_HASH, steady);
  }

  lemma SameHeader(s: Segment, t: Segment)
    requires 1 <= s.version <= 3 && |s.head| == 32 && t == s.(records := t.records)
    ensures Header(t) == Header(s)
  {
  }

  lemma StrayTailScans(c: Codec, v: nat, rs: seq<Record>, stray: bytes, more: seq<Record>)
    requires c.Sound() && 1 <= |stray| <= 3 && more != [] && 0 < more[0].seqno < Pow256(5)
    requires forall r :: r in rs ==> RecordOk(v, r) && Deliverable(c, r)
    ensures Scan(c, v, EncodeAll(c, rs) + (stray + EncodeAll(c, more)), true).records != rs + more
  {
    hide Scan;
    var tail := stray + EncodeAll(c, more);
    EncodeAllCons(c, more);
    hide EncodeAll;
    hide Encode;
    StrayHidesRecord(c, v, stray, more[0], EncodeAll(c, more[1..]), true);
    ScanThen(c, v, rs, tail, true);
    var found := Scan(c, v, tail, true).records;
    assert found != more;
    assert (rs + found)[|rs|..] == found && (rs + more)[|rs|..] == more;
  }

  lemma StrayTailMisreads(c: Codec, s: Segment, rs: seq<Record>, stray: bytes, more: seq<Record>, steady: bool)
    requires c.Sound() && WellFormed(c, s) && 1 <= |stray| <= 3 && more != [] && 0 < more[0].seqno < Pow256(5)
    requires forall r :: r in rs ==> RecordOk(s.version, r) && Deliverable(c, r)
    ensures var file := (Header(s) + EncodeAll(c, rs)) + stray + EncodeAll(c, more);
            !Yields(Replay(c, file, ZERO_HASH, steady).0, rs + more)
  {
    hide Replay;
    hide Scan;
    hide Header;
    hide EncodeAll;
    StrayTailScans(c, s.version, rs, stray, more);
    var area := EncodeAll(c, rs) + (stray + EncodeAll(c, more));
    DeliveredIsScanned(c, s, area, steady);
    assert (Header(s) + EncodeAll(c, rs)) + stray + EncodeAll(c, more) == Header(s) + area;
  }

  lemma ShortHeaderMisreads(c: Codec, s: Segment, cut: nat, more: seq<Record>, steady: bool)
    requires WellFormed(c, s) && 8 <= cut < HeaderSize(s.version) && more != []
    ensures !Yields(Replay(c, Header(s)[..cut] + EncodeAll(c, more), ZERO_HASH, steady).0, more)
  {
    var file := Header(s)[..cut] + EncodeAll(c, more);
    SizeOfEncoded(c, more);
    HeaderReads(s, []);
    assert file[..8] == (Header(s) + [])[..8];
    hide Header;
    hide VersionOf;
    hide EncodeAll;
    if |file| >= HeaderSize(s.version) {
      ScanUsesItsRecords(c, s.version, file[HeaderSize(s.version)..], true);
      hide Scan;
      assert SizeOf(Scan(c, s.version, file[HeaderSize(s.version)..], true).records) < SizeOf(more);
    }
  }

  /**
   A writer that reopens its last segment after a crash and goes on writes
   what replay will read, if and only if nothing is left behind the last whole
   record. Seqnos below 256^5 cover every segment name that replay lists.
   */
  lemma ReopenedLogReplaysIff(c: Codec, s: Segment, cut: nat, steady: bool, more: seq<Record>)
    requires c.Sound() && WellFormed(c, s) && 8 <= cut <= |SegmentBytes(c, s)|
    requires more != [] && 0 < more[0].seqno < Pow256(5)
    requires forall r :: r in more ==> RecordOk(s.version, r) && Deliverable(c, r)
    ensures Yields(ReplayedAgain(c, s, cut, steady, more), Before(s, cut) + more) <==>
              |LeftBehind(c, s, cut, steady)| == Boundary(s, cut)
  {
    hide Replay;
    hide SegmentBytes;
    hide Before;
    ReplayAfterCut(c, s, cut, ZERO_HASH, steady);
    BeforeIsOk(c, s, cut);
    var whole := SegmentBytes(c, s);
    if cut < HeaderSize(s.version) {
      HeaderFirst(c, s, cut);
      ShortHeaderMisreads(c, s, cut, more, steady);
      assert [] + more == more;
    } else {
      UpToBoundary(c, s, cut);
      var at := Boundary(s, cut);
      if at == cut || cut >= at + 4 {
        CleanCutGoesOn(c, s, Before(s, cut), more, steady);
      } else {
        assert whole[..cut] == whole[..at] + whole[at..cut];
        StrayTailMisreads(c, s, Before(s, cut), whole[at..cut], more, steady);
      }
    }
  }

  /**
   A loss: power fails one byte into the first record, replay leaves that byte,
   and what is then acknowledged is misread.
   */
  lemma OneStrayByteLoses(c: Codec, s: Segment, steady: bool, more: seq<Record>)
    requires c.Sound() && WellFormed(c, s) && s.records != []
    requires more != [] && 0 < more[0].seqno < Pow256(5)
    requires forall r :: r in more ==> RecordOk(s.version, r) && Deliverable(c, r)
    ensures HeaderSize(s.version) + 1 <= |SegmentBytes(c, s)|
    ensures !Yields(ReplayedAgain(c, s, HeaderSize(s.version) + 1, steady, more), more)
  {
    var cut := HeaderSize(s.version) + 1;
    EncodeAllCons(c, s.records);
    assert Before(s, cut) == [];
    assert [] + more == more;
    hide Replay;
    hide SegmentBytes;
    ReplayAfterCut(c, s, cut, ZERO_HASH, steady);
    ReopenedLogReplaysIff(c, s, cut, steady, more);
  }

  lemma BeforeIsOk(c: Codec, s: Segment, cut: nat)
    requires WellFormed(c, s)
    ensures forall r :: r in Before(s, cut) ==> RecordOk(s.version, r) && Deliverable(c, r)
    ensures cut < HeaderSize(s.version) ==> Before(s, cut) == []
  {
  }

  lemma HeaderFirst(c: Codec, s: Segment, cut: nat)
    requires WellFormed(c, s) && cut <= HeaderSize(s.version) && cut <= |SegmentBytes(c, s)|
    ensures SegmentBytes(c, s)[..cut] == Header(s)[..cut] && (cut < HeaderSize(s.version) ==> cut < Boundary(s, cut))
  {
  }
}
