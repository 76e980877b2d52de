/**
 The write-ahead log's record and segment format (src/log.rs), and what one
 read of a record can come to.

 A record is [payload length:4][seqno:8][kind:1][previous hash:32][payload][crc:4];
 version 1 segments have no hash chain. CRC32, SHA-256 and the payload codec
 are parameters: `Codec.Sound` lists all that is required of them.
 */
module WalRecords {
  import opened Collections
  import opened Bytes

  /** Ops by what their clock looks like (src/ops.rs): one timestamp field, none, or a batch of them. */
  datatype Op =
    | Timed(kind: byte, ts: int, body: bytes)
    | Clockless(kind: byte, body: bytes)
    | StateBatch(kind: byte, stamps: seq<int>, body: bytes)

  datatype Codec = Codec(
    crc: bytes -> nat,
    hash: bytes -> bytes,
    encode: Op -> bytes,
    decode: bytes -> Option<Op>)
  {
    ghost predicate Sound() {
      && (forall x :: crc(x) < Pow256(4))
      && (forall x :: |hash(x)| == 32)
      && (forall op :: decode(encode(op)) == Some(op))
    }
  }

  const ZERO_HASH: bytes := Zeros(32)

  datatype Record = Record(seqno: nat, kind: byte, prev: bytes, payload: bytes)

  // ---- encoding ------------------------------------------------------------

  function PrevLen(v: nat): nat {
    if v >= 2 then 32 else 0
  }

  predicate RecordOk(v: nat, r: Record) {
    r.seqno < Pow256(8) && |r.prev| == PrevLen(v) && |r.payload| < Pow256(4)
  }

  /** What the CRC covers. */
  function Covered(r: Record): bytes {
    Be(r.seqno, 8) + [r.kind] + r.prev + r.payload
  }

  function RecordSize(r: Record): nat {
    4 + 8 + 1 + |r.prev| + |r.payload| + 4
  }

  function Encode(c: Codec, r: Record): (bs: bytes)
    ensures |bs| == RecordSize(r)
  {
    Be(|r.payload|, 4) + Covered(r) + Be(c.crc(Covered(r)), 4)
  }

  function EncodeAll(c: Codec, rs: seq<Record>): bytes {
    if rs == [] then [] else EncodeAll(c, rs[..|rs| - 1]) + Encode(c, rs[|rs| - 1])
  }

  /** The link a record adds to the hash chain. */
  function RecordHash(c: Codec, r: Record): bytes {
    c.hash(Covered(r))
  }

  function ChainAfter(c: Codec, head: bytes, rs: seq<Record>): bytes {
    if rs == [] then head else RecordHash(c, rs[|rs| - 1])
  }

  // ---- reading one record --------------------------------------------------

  datatype Read =
    | Eof                                // not even a length field
    | Torn                               // the file ends inside the record
    | BadCrc(size: nat)
    | Good(rec: Record, size: nat)

  /** The record at the start of `bs`, reading field by field. */
  function ReadRecord(c: Codec, v: nat, bs: bytes): (r: Read)
    ensures r.Good? ==> 17 <= r.size <= |bs|
    ensures r.BadCrc? ==> 17 <= r.size <= |bs|
  {
    if |bs| < 4 then Eof
    else
      var len := Num(bs[..4]);
      var size := 4 + 8 + 1 + PrevLen(v) + len + 4;
      if |bs| < size then Torn
      else
        var at := 13 + PrevLen(v);
        var r := Record(Num(bs[4..12]), bs[12], bs[13..at], bs[at..at + len]);
        if c.crc(bs[4..12] + [bs[12]] + r.prev + r.payload) == Num(bs[at + len..size]) then Good(r, size)
        else BadCrc(size)
  }

  /** The fields of a record sit where reading looks for them. */
  lemma RecordFields(len: bytes, seqno: bytes, kind: byte, prev: bytes, payload: bytes, crc: bytes, tail: bytes)
    requires |len| == 4 && |seqno| == 8 && |crc| == 4
    ensures var bs := len + (seqno + [kind] + prev + payload) + crc + tail;
            var at := 13 + |prev|;
            && bs[..4] == len && bs[4..12] == seqno && bs[12] == kind
            && bs[13..at] == prev && bs[at..at + |payload|] == payload
            && bs[at + |payload|..at + |payload| + 4] == crc
  {
  }

  /** A whole record reads back, whatever follows it. */
  lemma ReadWhole(c: Codec, v: nat, r: Record, tail: bytes)
    requires c.Sound() && RecordOk(v, r)
    ensures ReadRecord(c, v, Encode(c, r) + tail) == Good(r, RecordSize(r))
  {
    var bs := Encode(c, r) + tail;
    var at := 13 + PrevLen(v);
    var len := |r.payload|;
    RecordFields(Be(len, 4), Be(r.seqno, 8), r.kind, r.prev, r.payload, Be(c.crc(Covered(r)), 4), tail);
    NumOfBe(len, 4);
    NumOfBe(r.seqno, 8);
    NumOfBe(c.crc(Covered(r)), 4);
  }

  /** A proper prefix of a record reads as the end of the file or as a torn record. */
  lemma ReadPartial(c: Codec, v: nat, r: Record, n: nat)
    requires RecordOk(v, r) && n < RecordSize(r)
    ensures ReadRecord(c, v, Encode(c, r)[..n]) == if n < 4 then Eof else Torn
  {
    if n >= 4 {
      NumOfBe(|r.payload|, 4);
      assert Encode(c, r)[..n][..4] == Be(|r.payload|, 4);
    }
  }

  // ---- segments ------------------------------------------------------------

  /** Magic "CFLOG00v". */
  function Magic(v: nat): bytes
    requires 1 <= v <= 3
  {
    [67, 70, 76, 79, 71, 48, 48, 48 + v]
  }

  function VersionOf(magic: bytes): Option<nat> {
    if magic == Magic(1) then Some(1)
    else if magic == Magic(2) then Some(2)
    else if magic == Magic(3) then Some(3)
    else None
  }

  function HeaderSize(v: nat): nat {
    if v == 1 then 16 else if v == 2 then 48 else 56
  }

  datatype Segment = Segment(version: nat, first: nat, head: bytes, space: nat, records: seq<Record>)

  function Header(s: Segment): (bs: bytes)
    requires 1 <= s.version <= 3 && |s.head| == 32
    ensures |bs| == HeaderSize(s.version)
  {
    Magic(s.version) + Be(s.first, 8)
      + (if s.version >= 2 then s.head else [])
      + (if s.version == 3 then Be(s.space, 8) else [])
  }

  function SegmentBytes(c: Codec, s: Segment): bytes
    requires 1 <= s.version <= 3 && |s.head| == 32
  {
    Header(s) + EncodeAll(c, s.records)
  }

  /** Replay can hand the record to its consumer: it decodes, to an op of the recorded kind. */
  predicate Deliverable(c: Codec, r: Record) {
    c.decode(r.payload).Some? && c.decode(r.payload).value.kind == r.kind
  }

  predicate WellFormed(c: Codec, s: Segment) {
    && 1 <= s.version <= 3 && |s.head| == 32 && s.first < Pow256(8) && s.space < Pow256(8)
    && forall r :: r in s.records ==> RecordOk(s.version, r) && Deliverable(c, r)
  }

  /** The record an op becomes. */
  function RecordOf(c: Codec, seqno: nat, op: Op, prev: bytes): Record {
    Record(seqno, op.kind, prev, c.encode(op))
  }

  // ---- concatenated records ------------------------------------------------

  lemma {:induction false} EncodeAllAppend(c: Codec, a: seq<Record>, b: seq<Record>)
    ensures EncodeAll(c, a + b) == EncodeAll(c, a) + EncodeAll(c, b)
  {
    if b == [] {
      assert a + b == a;
    } else {
      var n := |b| - 1;
      assert (a + b)[..|a| + n] == a + b[..n];
      EncodeAllAppend(c, a, b[..n]);
    }
  }

  lemma EncodeAllCons(c: Codec, rs: seq<Record>)
    requires rs != []
    ensures EncodeAll(c, rs) == Encode(c, rs[0]) + EncodeAll(c, rs[1..])
  {
    assert rs == [rs[0]] + rs[1..];
    EncodeAllAppend(c, [rs[0]], rs[1..]);
    assert [rs[0]][..0] == [];
  }

  /** How many records lie wholly within the first `n` bytes of the record area. */
  function WholeWithin(rs: seq<Record>, n: nat): (k: nat)
    ensures k <= |rs|
  {
    if rs == [] || n < RecordSize(rs[0]) then 0 else 1 + WholeWithin(rs[1..], n - RecordSize(rs[0]))
  }

  /** The byte length of a run of records. */
  function SizeOf(rs: seq<Record>): nat {
    if rs == [] then 0 else RecordSize(rs[0]) + SizeOf(rs[1..])
  }

  lemma {:induction false} SizeOfEncoded(c: Codec, rs: seq<Record>)
    ensures |EncodeAll(c, rs)| == SizeOf(rs)
  {
    if rs != [] {
      EncodeAllCons(c, rs);
      SizeOfEncoded(c, rs[1..]);
    }
  }

  /** `WholeWithin` is the largest count whose bytes fit. */
  lemma {:induction false} WholeWithinIsMaximal(rs: seq<Record>, n: nat)
    ensures var k := WholeWithin(rs, n);
            && SizeOf(rs[..k]) <= n
            && (k < |rs| ==> n < SizeOf(rs[..k + 1]))
            && (n >= SizeOf(rs) ==> k == |rs|)
    decreases |rs|
  {
    if rs == [] {
    } else if n < RecordSize(rs[0]) {
      assert rs[..1][1..] == [];
    } else {
      var k := WholeWithin(rs, n);
      WholeWithinIsMaximal(rs[1..], n - RecordSize(rs[0]));
      assert rs[..k][1..] == rs[1..][..k - 1];
      if k < |rs| {
        assert rs[..k + 1][1..] == rs[1..][..k];
      }
    }
  }
}
