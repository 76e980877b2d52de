/**
 `EpBundle` (src/hdc.rs): 8192 saturating 16-bit counters held as bit planes.
 Plane p stores bit p of every counter, so one word of each plane is a column
 of 64 counters; adding a vector ripples carries up the columns, and the
 majority test compares all 64 counters of a column with the threshold at once.
 */
module BitSliced {
  import opened HdcVectors

  // ---- columns -------------------------------------------------------------

  function Pow2(n: nat): (p: nat)
    ensures p >= 1
  {
    if n == 0 then 1 else 2 * Pow2(n - 1)
  }

  /** The counter in lane `b` of a column, lowest plane first. */
  function Value(col: seq<Word>, b: nat): nat
    requires b < 64
  {
    if col == [] then 0 else (if col[0][b] then 1 else 0) + 2 * Value(col[1..], b)
  }

  function Column(planes: seq<HdcVec>, wi: nat): (col: seq<Word>)
    requires wi < D
    ensures |col| == |planes|
  {
    seq(|planes|, p requires 0 <= p < |planes| => planes[p][wi])
  }

  lemma {:induction false} ValueAppend(col: seq<Word>, x: Word, b: nat)
    requires b < 64
    ensures Value(col + [x], b) == Value(col, b) + if x[b] then Pow2(|col|) else 0
  {
    if col == [] {
      assert (col + [x])[1..] == [];
    } else {
      assert (col + [x])[1..] == col[1..] + [x];
      ValueAppend(col[1..], x, b);
    }
  }

  lemma {:induction false} ValueBound(col: seq<Word>, b: nat)
    requires b < 64
    ensures Value(col, b) < Pow2(|col|)
  {
    if col != [] {
      ValueBound(col[1..], b);
    }
  }

  lemma {:induction false} ValueOfEqualLanes(x: seq<Word>, y: seq<Word>, b: nat)
    requires b < 64 && |x| == |y|
    requires forall p :: 0 <= p < |x| ==> x[p][b] == y[p][b]
    ensures Value(x, b) == Value(y, b)
  {
    if x != [] {
      ValueOfEqualLanes(x[1..], y[1..], b);
    }
  }

  lemma {:induction false} ValueOfOnes(x: seq<Word>, b: nat)
    requires b < 64
    requires forall p :: 0 <= p < |x| ==> x[p][b]
    ensures Value(x, b) == Pow2(|x|) - 1
  {
    if x != [] {
      ValueOfOnes(x[1..], b);
    }
  }

  // ---- ripple-carry addition -----------------------------------------------

  /** Add a word of carries to a column: the new column and the carries out of its top plane. */
  function Ripple(col: seq<Word>, word: Word): (r: (seq<Word>, Word))
    ensures |r.0| == |col|
  {
    if col == [] then ([], word)
    else
      var n := |col| - 1;
      var (low, carry) := Ripple(col[..n], word);
      (low + [Xor(col[n], carry)], And(carry, col[n]))
  }

  lemma {:induction false} RippleAdds(col: seq<Word>, word: Word, b: nat)
    requires b < 64
    ensures var (r, carry) := Ripple(col, word);
            Value(r, b) + (if carry[b] then Pow2(|col|) else 0) == Value(col, b) + if word[b] then 1 else 0
  {
    if col != [] {
      var n := |col| - 1;
      RippleAdds(col[..n], word, b);
      var (low, carry) := Ripple(col[..n], word);
      assert col == col[..n] + [col[n]];
      ValueAppend(col[..n], col[n], b);
      ValueAppend(low, Xor(col[n], carry), b);
    }
  }

  /** Once no carries are left, the planes above stay as they are. */
  lemma {:induction false} RippleStopsEarly(col: seq<Word>, word: Word, p: nat)
    requires p <= |col| && Ripple(col[..p], word).1 == ZERO
    ensures Ripple(col, word).0 == Ripple(col[..p], word).0 + col[p..]
    ensures Ripple(col, word).1 == ZERO
    decreases |col|
  {
    if p == |col| {
      assert col[..p] == col;
    } else {
      var n := |col| - 1;
      assert col[..n][..p] == col[..p];
      RippleStopsEarly(col[..n], word, p);
      assert Xor(col[n], ZERO) == col[n] && And(ZERO, col[n]) == ZERO;
      assert col[..n][p..] + [col[n]] == col[p..];
    }
  }

  /** Adding with saturation: lanes that carry out of the top plane become all ones. */
  function AddColumn(col: seq<Word>, word: Word): (r: seq<Word>)
    ensures |r| == |col|
  {
    var (sum, carry) := Ripple(col, word);
    seq(|col|, p requires 0 <= p < |col| => Or(sum[p], carry))
  }

  lemma AddColumnSaturates(col: seq<Word>, word: Word, b: nat)
    requires b < 64
    ensures var sum := Value(col, b) + if word[b] then 1 else 0;
            Value(AddColumn(col, word), b) == if sum < Pow2(|col|) then sum else Pow2(|col|) - 1
  {
    hide Ripple;
    hide Value;
    hide Pow2;
    var (sum, carry) := Ripple(col, word);
    RippleAdds(col, word, b);
    ValueBound(sum, b);
    ValueBound(col, b);
    if carry[b] {
      ValueOfOnes(AddColumn(col, word), b);
    } else {
      ValueOfEqualLanes(AddColumn(col, word), sum, b);
    }
  }

  lemma RippleStep(col: seq<Word>, word: Word, p: nat)
    requires p < |col|
    ensures var (low, carry) := Ripple(col[..p], word);
            && Ripple(col[..p + 1], word).1 == And(carry, col[p])
            && (low + col[p..])[p := Xor(col[p], carry)] == Ripple(col[..p + 1], word).0 + col[p + 1..]
  {
    assert col[..p + 1][..p] == col[..p] && col[..p + 1][p] == col[p];
    var (low, carry) := Ripple(col[..p], word);
    assert (low + col[p..])[p := Xor(col[p], carry)] == (low + [Xor(col[p], carry)]) + col[p + 1..];
  }

  function SetWord(planes: seq<HdcVec>, p: nat, wi: nat, x: Word): (r: seq<HdcVec>)
    requires p < |planes| && wi < D
    ensures |r| == |planes|
    ensures Column(r, wi) == Column(planes, wi)[p := x]
    ensures forall w :: 0 <= w < D && w != wi ==> Column(r, w) == Column(planes, w)
  {
    planes[p := planes[p][wi := x]]
  }

  /** Saturation: set the carried-out lanes in every plane. */
  method OrIntoColumn(planes: seq<HdcVec>, wi: nat, carry: Word) returns (r: seq<HdcVec>)
    requires wi < D
    ensures |r| == |planes|
    ensures Column(r, wi) == seq(|r|, p requires 0 <= p < |r| => Or(Column(planes, wi)[p], carry))
    ensures forall w :: 0 <= w < D && w != wi ==> Column(r, w) == Column(planes, w)
  {
    r := planes;
    for q := 0 to |r|
      invariant |r| == |planes|
      invariant forall j :: 0 <= j < |r| ==>
                  r[j] == if j < q then planes[j][wi := Or(planes[j][wi], carry)] else planes[j]
    {
      r := r[q := r[q][wi := Or(r[q][wi], carry)]];
    }
  }

  /** The body of the word loop in `add`: ripple one word up its column, stopping when the carries run out. */
  method AddWord(planes: seq<HdcVec>, wi: nat, word: Word) returns (r: seq<HdcVec>)
    requires wi < D
    ensures |r| == |planes|
    ensures Column(r, wi) == AddColumn(Column(planes, wi), word)
    ensures forall w :: 0 <= w < D && w != wi ==> Column(r, w) == Column(planes, w)
  {
    ghost var col := Column(planes, wi);
    r := planes;
    var carry := word;
    var p := 0;
    while p < |r|
      invariant p <= |r| == |planes|
      invariant Column(r, wi) == Ripple(col[..p], word).0 + col[p..]
      invariant carry == Ripple(col[..p], word).1
      invariant forall w :: 0 <= w < D && w != wi ==> Column(r, w) == Column(planes, w)
    {
      var prior := r[p][wi];
      assert prior == Column(r, wi)[p] == col[p];
      RippleStep(col, word, p);
      r := SetWord(r, p, wi, Xor(prior, carry));
      carry := And(carry, prior);
      p := p + 1;
      if carry == ZERO {
        break;
      }
    }
    if p < |col| {
      RippleStopsEarly(col, word, p);
    } else {
      assert col[..p] == col && col[p..] == [];
    }
    ghost var sum := Column(r, wi);
    assert Ripple(col, word).0 == sum && Ripple(col, word).1 == carry;
    if carry != ZERO {
      r := OrIntoColumn(r, wi, carry);
    } else {
      assert forall x :: Or(x, ZERO) == x;
    }
  }

  // ---- bit-parallel comparison ---------------------------------------------

  function Shr(t: nat, k: nat): nat {
    if k == 0 then t else Shr(t, k - 1) / 2
  }

  lemma {:induction false} ShrSmall(t: nat, k: nat)
    requires t < Pow2(k)
    ensures Shr(t, k) == 0
  {
    if k > 0 {
      ShrHalves(t, k);
      ShrSmall(t / 2, k - 1);
    }
  }

  lemma {:induction false} ShrHalves(t: nat, k: nat)
    requires k > 0
    ensures Shr(t, k) == Shr(t / 2, k - 1)
  {
    if k > 1 {
      ShrHalves(t, k - 1);
    }
  }

  /** The body of the word loop in `to_hv`: from the top plane down, which lanes meet the threshold. */
  method CompareColumn(col: seq<Word>, threshold: nat) returns (out: Word)
    requires threshold < Pow2(|col|)
    ensures forall b :: 0 <= b < 64 ==> (out[b] <==> Value(col, b) >= threshold)
  {
    var equal, greater := ONES, ZERO;
    var bit := |col|;
    ShrSmall(threshold, |col|);
    while bit > 0
      invariant 0 <= bit <= |col|
      invariant forall b :: 0 <= b < 64 ==> (greater[b] <==> Value(col[bit..], b) > Shr(threshold, bit))
      invariant forall b :: 0 <= b < 64 ==> (equal[b] <==> Value(col[bit..], b) == Shr(threshold, bit))
    {
      assert col[bit - 1..][1..] == col[bit..];
      bit := bit - 1;
      assert Shr(threshold, bit + 1) == Shr(threshold, bit) / 2;
      if Shr(threshold, bit) % 2 == 0 {
        greater := Or(greater, And(equal, col[bit]));
        equal := And(equal, Not(col[bit]));
      } else {
        equal := And(equal, col[bit]);
      }
    }
    assert col[0..] == col;
    out := Or(greater, equal);
  }

  // ---- the bundle ----------------------------------------------------------

  /** 32 minus the leading zeros. */
  function BitLength(n: nat): nat {
    if n == 0 then 0 else 1 + BitLength(n / 2)
  }

  lemma {:induction false} BitLengthBounds(n: nat)
    ensures n < Pow2(BitLength(n))
    ensures n > 0 ==> Pow2(BitLength(n)) <= 2 * n
  {
    if n > 0 {
      BitLengthBounds(n / 2);
    }
  }

  lemma {:induction false} BitLengthMonotone(m: nat, n: nat)
    requires m <= n
    ensures BitLength(m) <= BitLength(n)
  {
    if m > 0 {
      BitLengthMonotone(m / 2, n / 2);
    }
  }

  function PlanesFor(n: nat): nat {
    if BitLength(n) < 16 then BitLength(n) else 16
  }

  /** The counter of a lane. */
  function LaneCount(planes: seq<HdcVec>, lane: nat): nat
    requires lane < LANES
  {
    Value(Column(planes, lane / 64), lane % 64)
  }

  /** The planes hold, in every lane, the saturating count of the vectors added so far. */
  ghost predicate Represents(planes: seq<HdcVec>, vecs: seq<HdcVec>) {
    && |planes| == PlanesFor(|vecs|)
    && forall lane :: 0 <= lane < LANES ==> LaneCount(planes, lane) == SatCount(vecs, lane)
  }

  /** A fresh top plane changes no counter. */
  lemma GrowKeepsCounts(planes: seq<HdcVec>, lane: nat)
    requires lane < LANES
    ensures LaneCount(planes + [Blank()], lane) == LaneCount(planes, lane)
  {
    var wi := lane / 64;
    assert Column(planes + [Blank()], wi) == Column(planes, wi) + [ZERO];
    ValueAppend(Column(planes, wi), ZERO, lane % 64);
  }

  lemma {:induction false} Pow2Monotone(m: nat, n: nat)
    requires m <= n
    ensures Pow2(m) <= Pow2(n)
  {
    if m > 0 {
      Pow2Monotone(m - 1, n - 1);
    }
  }

  lemma SixteenPlanes()
    ensures Pow2(16) == COUNT_MAX + 1
  {
    assert Pow2(8) == 256;
    assert Pow2(12) == 4096;
  }

  /** The planes allotted to n vectors either reach past n or are all sixteen. */
  lemma PlanesReach(n: nat)
    ensures n < Pow2(PlanesFor(n)) <= COUNT_MAX + 1 || Pow2(PlanesFor(n)) == COUNT_MAX + 1
  {
    BitLengthBounds(n);
    SixteenPlanes();
    Pow2Monotone(PlanesFor(n), 16);
  }

  /** With enough planes for the new total, saturating column addition is the scalar saturating increment. */
  lemma AddLane(planes: seq<HdcVec>, grown: seq<HdcVec>, vecs: seq<HdcVec>, hv: HdcVec, lane: nat)
    requires lane < LANES && |grown| == PlanesFor(|vecs| + 1)
    requires LaneCount(grown, lane) == SatCount(vecs, lane)
    ensures Value(AddColumn(Column(grown, lane / 64), hv[lane / 64]), lane % 64) == SatCount(vecs + [hv], lane)
  {
    SatCountIsCappedCount(vecs, lane);
    PlanesReach(|vecs| + 1);
    AddColumnSaturates(Column(grown, lane / 64), hv[lane / 64], lane % 64);
    assert (vecs + [hv])[..|vecs|] == vecs;
  }

  /** Below sixteen planes no carry ever leaves the top plane. */
  lemma NoOverflowBelowSixteen(planes: seq<HdcVec>, vecs: seq<HdcVec>, hv: HdcVec, wi: nat)
    requires wi < D && |planes| == PlanesFor(|vecs| + 1) < 16
    requires forall lane :: 0 <= lane < LANES ==> LaneCount(planes, lane) == SatCount(vecs, lane)
    ensures Ripple(Column(planes, wi), hv[wi]).1 == ZERO
  {
    var (sum, carry) := Ripple(Column(planes, wi), hv[wi]);
    forall b | 0 <= b < 64 ensures !carry[b] {
      var lane := wi * 64 + b;
      assert lane / 64 == wi && lane % 64 == b;
      assert LaneCount(planes, lane) == SatCount(vecs, lane);
      RippleAdds(Column(planes, wi), hv[wi], b);
      SatCountIsCappedCount(vecs, lane);
      BitLengthBounds(|vecs| + 1);
    }
  }

  class EpBundle {
    var planes: seq<HdcVec>
    var n: nat
    /** The vectors added so far. */
    ghost var vecs: seq<HdcVec>

    ghost predicate Valid()
      reads this
    {
      n == |vecs| && Represents(planes, vecs)
    }

    constructor ()
      ensures Valid() && vecs == []
    {
      planes, n, vecs := [], 0, [];
    }

    /** Count one more vector; the u32 member count must have room. */
    method Add(hv: HdcVec)
      requires Valid() && n < 0xFFFF_FFFF
      modifies this
      ensures Valid() && vecs == old(vecs) + [hv]
    {
      var needed := PlanesFor(n + 1);
      BitLengthMonotone(n, n + 1);
      while |planes| < needed
        invariant |planes| <= needed && n == old(n) && vecs == old(vecs)
        invariant forall lane :: 0 <= lane < LANES ==> LaneCount(planes, lane) == SatCount(vecs, lane)
      {
        forall lane | 0 <= lane < LANES ensures LaneCount(planes + [Blank()], lane) == SatCount(vecs, lane) {
          GrowKeepsCounts(planes, lane);
        }
        planes := planes + [Blank()];
      }
      ghost var grown := planes;
      for wi := 0 to D
        invariant |planes| == |grown| && n == old(n) && vecs == old(vecs)
        invariant forall w :: 0 <= w < D ==>
                    Column(planes, w) == if w < wi then AddColumn(Column(grown, w), hv[w]) else Column(grown, w)
      {
        planes := AddWord(planes, wi, hv[wi]);
      }
      forall lane | 0 <= lane < LANES ensures LaneCount(planes, lane) == SatCount(vecs + [hv], lane) {
        AddLane(planes, grown, vecs, hv, lane);
      }
      n := n + 1;
      vecs := vecs + [hv];
    }

    /** The majority vector, compared bit-parallel; exactly the vote of the scalar counters. */
    method ToHv() returns (out: HdcVec)
      requires Valid()
      ensures IsVote(out, vecs)
    {
      var threshold := n / 2 + 1;
      out := Blank();
      forall lane | 0 <= lane < LANES ensures LaneCount(planes, lane) < Pow2(|planes|) {
        ValueBound(Column(planes, lane / 64), lane % 64);
      }
      if n == 0 || threshold >= Pow2(|planes|) {
        return;
      }
      for wi := 0 to D
        invariant forall lane :: 0 <= lane < wi * 64 ==> (Bit(out, lane) <==> LaneCount(planes, lane) >= threshold)
      {
        var word := CompareColumn(Column(planes, wi), threshold);
        out := out[wi := word];
      }
    }
  }

  /** The bit-plane bundle and the scalar `bundle` give the same vector for every list of vectors. */
  method EpBundleRefinesBundle(vecs: seq<HdcVec>) returns (sliced: HdcVec, scalar: HdcVec)
    requires |vecs| < 0x1_0000_0000
    ensures sliced == scalar && IsVote(sliced, vecs)
  {
    var b := new EpBundle();
    for i := 0 to |vecs|
      invariant b.Valid() && b.vecs == vecs[..i] && fresh(b)
    {
      b.Add(vecs[i]);
    }
    assert vecs[..|vecs|] == vecs;
    sliced := b.ToHv();
    scalar := Bundle(vecs);
    VoteUnique(sliced, scalar, vecs);
  }
}
