/**
 `replay_from_offset` (src/log.rs): following a segment that another process
 is appending to, by byte offset. Each call may see any byte prefix of the
 file; together the calls must deliver every record once, in order.
 */
module WalTail {
  import opened Bytes
  import opened WalRecords
  import opened WalReplay

  datatype Tail = Tail(offset: nat, delivered: seq<Record>) | BadMagic

  function From(file: bytes, pos: nat): bytes {
    if pos <= |file| then file[pos..] else []
  }

  /** One call. A zero offset reads the header first, and may find it still incomplete. */
  function TailFrom(c: Codec, file: bytes, offset: nat): Tail {
    if |file| < 8 then Tail(offset, [])
    else
      var version := VersionOf(file[..8]);
      if offset == 0 && version.None? then BadMagic
      else
        var v := if version.Some? then version.value else 1;
        var start := if offset == 0 then HeaderSize(v) else offset;
        var s := Scan(c, v, From(file, start), false);
        Tail(start + s.used, s.records)
  }

  /** The offset a reader holds after `k` records: zero before any call got past the magic, else a record boundary. */
  predicate IsOffset(s: Segment, offset: nat, k: nat) {
    && k <= |s.records|
    && (offset == 0 ==> k == 0)
    && (offset != 0 ==> offset == HeaderSize(s.version) + SizeOf(s.records[..k]))
  }

  /** How many records a reader that had `k` knows after seeing the first `n` bytes. */
  function KnownAfter(s: Segment, n: nat, k: nat): (k': nat)
    requires k <= |s.records|
    ensures k <= k' <= |s.records|
  {
    var start := HeaderSize(s.version) + SizeOf(s.records[..k]);
    if n < 8 || n < start then k else k + WholeWithin(s.records[k..], n - start)
  }

  lemma {:induction false} SizeOfAppend(a: seq<Record>, b: seq<Record>)
    ensures SizeOf(a + b) == SizeOf(a) + SizeOf(b)
  {
    if a == [] {
      assert a + b == b;
    } else {
      assert (a + b)[1..] == a[1..] + b;
      SizeOfAppend(a[1..], b);
    }
  }

  /** The bytes between a record boundary and a cut are a prefix of the remaining records. */
  lemma AreaFromBoundary(c: Codec, s: Segment, n: nat, k: nat)
    requires WellFormed(c, s) && n <= |SegmentBytes(c, s)| && k <= |s.records|
    ensures var start := HeaderSize(s.version) + SizeOf(s.records[..k]);
            var rest := EncodeAll(c, s.records[k..]);
            && start + |rest| == |SegmentBytes(c, s)|
            && From(SegmentBytes(c, s)[..n], start) == rest[..if n < start then 0 else n - start]
  {
    hide Encode;
    hide EncodeAll;
    hide SizeOf;
    assert s.records == s.records[..k] + s.records[k..];
    EncodeAllAppend(c, s.records[..k], s.records[k..]);
    SizeOfEncoded(c, s.records[..k]);
    var front := Header(s) + EncodeAll(c, s.records[..k]);
    var rest := EncodeAll(c, s.records[k..]);
    assert SegmentBytes(c, s) == front + rest;
  }

  /** Scanning from a record boundary finds the records that became whole since. */
  lemma ScanFromBoundary(c: Codec, s: Segment, n: nat, k: nat)
    requires c.Sound() && WellFormed(c, s) && 8 <= n <= |SegmentBytes(c, s)| && k <= |s.records|
    ensures var start := HeaderSize(s.version) + SizeOf(s.records[..k]);
            var found := Scan(c, s.version, From(SegmentBytes(c, s)[..n], start), false);
            var k' := KnownAfter(s, n, k);
            found.records == s.records[k..k'] && start + found.used == HeaderSize(s.version) + SizeOf(s.records[..k'])
  {
    hide Scan;
    hide EncodeAll;
    hide SegmentBytes;
    hide WholeWithin;
    AreaFromBoundary(c, s, n, k);
    var start := HeaderSize(s.version) + SizeOf(s.records[..k]);
    var m := if n < start then 0 else n - start;
    var rest := s.records[k..];
    ScanPrefix(c, s.version, rest, m, false);
    var k' := KnownAfter(s, n, k);
    assert k' - k == WholeWithin(rest, m);
    assert s.records[..k'] == s.records[..k] + rest[..k' - k];
    SizeOfAppend(s.records[..k], rest[..k' - k]);
    assert s.records[k..k'] == rest[..k' - k];
  }

  lemma TailFromBoundary(c: Codec, s: Segment, n: nat, offset: nat, k: nat)
    requires c.Sound() && WellFormed(c, s) && 8 <= n <= |SegmentBytes(c, s)| && IsOffset(s, offset, k) && offset > 0
    ensures var t := TailFrom(c, SegmentBytes(c, s)[..n], offset);
            t.Tail? && t.delivered == s.records[k..KnownAfter(s, n, k)] && IsOffset(s, t.offset, KnownAfter(s, n, k))
  {
    hide SegmentBytes;
    hide WellFormed;
    hide Scan;
    hide From;
    hide VersionOf;
    hide SizeOf;
    hide KnownAfter;
    MagicOfPrefix(c, s, n);
    ScanFromBoundary(c, s, n, k);
  }

  lemma TailFromZero(c: Codec, s: Segment, n: nat)
    requires c.Sound() && WellFormed(c, s) && 8 <= n <= |SegmentBytes(c, s)|
    ensures var t := TailFrom(c, SegmentBytes(c, s)[..n], 0);
            t.Tail? && t.delivered == s.records[0..KnownAfter(s, n, 0)] && IsOffset(s, t.offset, KnownAfter(s, n, 0))
  {
    assert s.records[..0] == [] && SizeOf([]) == 0;
    hide SegmentBytes;
    hide WellFormed;
    hide Scan;
    hide From;
    hide VersionOf;
    hide SizeOf;
    hide KnownAfter;
    MagicOfPrefix(c, s, n);
    ScanFromBoundary(c, s, n, 0);
  }

  /** One call on any prefix delivers the next run of whole records and lands on a boundary. */
  lemma TailStep(c: Codec, s: Segment, n: nat, offset: nat, k: nat)
    requires c.Sound() && WellFormed(c, s) && n <= |SegmentBytes(c, s)| && IsOffset(s, offset, k)
    ensures var t := TailFrom(c, SegmentBytes(c, s)[..n], offset);
            && t.Tail?
            && t.delivered == s.records[k..KnownAfter(s, n, k)]
            && IsOffset(s, t.offset, KnownAfter(s, n, k))
  {
    if n < 8 {
      hide SegmentBytes;
      hide WellFormed;
      hide SizeOf;
      assert |SegmentBytes(c, s)[..n]| == n;
    } else {
      hide TailFrom;
      hide IsOffset;
      if offset == 0 {
        ZeroKnowsNothing(s, k);
        TailFromZero(c, s, n);
      } else {
        TailFromBoundary(c, s, n, offset, k);
      }
    }
  }

  lemma ZeroKnowsNothing(s: Segment, k: nat)
    requires IsOffset(s, 0, k)
    ensures k == 0
  {
  }

  /** Every call sees a prefix of the segment. */
  ghost predicate Prefixes(c: Codec, s: Segment, cuts: seq<nat>)
    requires 1 <= s.version <= 3 && |s.head| == 32
  {
    forall i :: 0 <= i < |cuts| ==> cuts[i] <= |SegmentBytes(c, s)|
  }

  /** A run of calls, each seeing the first `cuts[i]` bytes. */
  ghost function TailRun(c: Codec, s: Segment, cuts: seq<nat>, offset: nat): Tail
    requires 1 <= s.version <= 3 && |s.head| == 32 && Prefixes(c, s, cuts)
    decreases |cuts|
  {
    if cuts == [] then Tail(offset, [])
    else
      match TailFrom(c, SegmentBytes(c, s)[..cuts[0]], offset)
      case BadMagic => BadMagic
      case Tail(next, delivered) =>
        match TailRun(c, s, cuts[1..], next)
        case BadMagic => BadMagic
        case Tail(last, more) => Tail(last, delivered + more)
  }

  function KnownAfterAll(s: Segment, cuts: seq<nat>, k: nat): (k': nat)
    requires k <= |s.records|
    ensures k <= k' <= |s.records|
    decreases |cuts|
  {
    if cuts == [] then k else KnownAfterAll(s, cuts[1..], KnownAfter(s, cuts[0], k))
  }

  /**
   Whatever prefixes the calls saw, in whatever order, together they delivered
   a run of consecutive records, each once, ending at the offset returned.
   */
  lemma {:induction false} TailDeliversOnceInOrder(c: Codec, s: Segment, cuts: seq<nat>, offset: nat, k: nat)
    requires c.Sound() && WellFormed(c, s) && IsOffset(s, offset, k)
    requires Prefixes(c, s, cuts)
    ensures var t := TailRun(c, s, cuts, offset);
            && t.Tail?
            && t.delivered == s.records[k..KnownAfterAll(s, cuts, k)]
            && IsOffset(s, t.offset, KnownAfterAll(s, cuts, k))
    decreases |cuts|
  {
    hide TailFrom;
    hide SegmentBytes;
    hide KnownAfter;
    if cuts != [] {
      var k1 := KnownAfter(s, cuts[0], k);
      TailStep(c, s, cuts[0], offset, k);
      var t := TailFrom(c, SegmentBytes(c, s)[..cuts[0]], offset);
      TailDeliversOnceInOrder(c, s, cuts[1..], t.offset, k1);
      var k2 := KnownAfterAll(s, cuts[1..], k1);
      assert s.records[k..k1] + s.records[k1..k2] == s.records[k..k2];
    }
  }

  /** Once a call has seen the finished file, nothing is missing. */
  lemma TailReachesTheEnd(c: Codec, s: Segment, cuts: seq<nat>)
    requires c.Sound() && WellFormed(c, s)
    requires Prefixes(c, s, cuts)
    requires |SegmentBytes(c, s)| in cuts
    ensures TailRun(c, s, cuts, 0) == Tail(|SegmentBytes(c, s)|, s.records)
  {
    hide Scan;
    TailDeliversOnceInOrder(c, s, cuts, 0, 0);
    EverythingKnown(c, s, cuts, 0);
    AreaFromBoundary(c, s, 0, |s.records|);
    assert s.records[|s.records|..] == [] && s.records[..|s.records|] == s.records == s.records[0..|s.records|];
    OffsetMovesPastZero(c, s, cuts, 0, 0);
  }

  /** Seeing the whole file means knowing every record. */
  lemma WholeIsKnown(c: Codec, s: Segment, k: nat)
    requires WellFormed(c, s) && k <= |s.records|
    ensures KnownAfter(s, |SegmentBytes(c, s)|, k) == |s.records|
  {
    AreaFromBoundary(c, s, |SegmentBytes(c, s)|, k);
    SizeOfEncoded(c, s.records[k..]);
    WholeWithinIsMaximal(s.records[k..], SizeOf(s.records[k..]));
  }

  lemma {:induction false} EverythingKnown(c: Codec, s: Segment, cuts: seq<nat>, k: nat)
    requires WellFormed(c, s) && k <= |s.records| && |SegmentBytes(c, s)| in cuts
    ensures KnownAfterAll(s, cuts, k) == |s.records|
    decreases |cuts|
  {
    var n := |SegmentBytes(c, s)|;
    var k1 := KnownAfter(s, cuts[0], k);
    if cuts[0] == n {
      WholeIsKnown(c, s, k);
    } else {
      EverythingKnown(c, s, cuts[1..], k1);
    }
  }

  lemma {:induction false} OffsetMovesPastZero(c: Codec, s: Segment, cuts: seq<nat>, offset: nat, k: nat)
    requires c.Sound() && WellFormed(c, s) && IsOffset(s, offset, k)
    requires Prefixes(c, s, cuts)
    requires offset > 0 || |SegmentBytes(c, s)| in cuts
    ensures TailRun(c, s, cuts, offset).Tail? && TailRun(c, s, cuts, offset).offset > 0
    decreases |cuts|
  {
    hide Scan;
    if cuts != [] {
      TailStep(c, s, cuts[0], offset, k);
      var t := TailFrom(c, SegmentBytes(c, s)[..cuts[0]], offset);
      OffsetMovesPastZero(c, s, cuts[1..], t.offset, KnownAfter(s, cuts[0], k));
    }
  }

  /** The call itself, reading the header field by field when it starts at zero. */
  method ReplayFromOffset(c: Codec, file: bytes, offset: nat) returns (t: Tail)
    ensures t == TailFrom(c, file, offset)
  {
    hide Scan;
    var ok, magic, pos := ReadExact(file, 0, 8);
    if !ok { return Tail(offset, []); }
    var version := VersionOf(magic);
    if offset == 0 && version.None? { return BadMagic; }
    var v := if version.Some? then version.value else 1;
    var start := offset;
    if offset == 0 {
      var ignored;
      ok, ignored, pos := ReadExact(file, pos, 8);
      if v == 2 {
        ok, ignored, pos := ReadExact(file, pos, 32);
      } else if v == 3 {
        ok, ignored, pos := ReadExact(file, pos, 40);
      }
      start := HeaderSize(v);
    } else {
      pos := if offset <= |file| then offset else |file|;
    }
    assert file[pos..] == From(file, start);
    var chain, s := ReadRecords(c, v, file[pos..], ZERO_HASH, false);
    t := Tail(start + s.used, s.records);
  }
}
