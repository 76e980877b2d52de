/**
 Hyperdimensional vectors (src/hdc.rs): 128 words of 64 bits. A `u64` is
 modelled as its 64 bits, least significant first, so that the bitwise
 operators act lane by lane. A lane is a flat bit index, as in the source's
 `counts[wi * 64 + bit]`.
 */
module HdcVectors {
  const D: nat := 128
  const LANES: nat := D * 64

  type Word = w: seq<bool> | |w| == 64 witness seq(64, _ => false)
  type HdcVec = v: seq<Word> | |v| == D witness seq(D, _ => ZERO)

  const ZERO: Word := seq(64, _ => false)
  const ONES: Word := seq(64, _ => true)

  function And(a: Word, b: Word): (r: Word) { seq(64, i requires 0 <= i < 64 => a[i] && b[i]) }
  function Or(a: Word, b: Word): (r: Word) { seq(64, i requires 0 <= i < 64 => a[i] || b[i]) }
  function Xor(a: Word, b: Word): (r: Word) { seq(64, i requires 0 <= i < 64 => a[i] != b[i]) }
  function Not(a: Word): (r: Word) { seq(64, i requires 0 <= i < 64 => !a[i]) }

  function Blank(): HdcVec { seq(D, _ => ZERO) }

  function Bit(hv: HdcVec, lane: nat): bool
    requires lane < LANES
  {
    hv[lane / 64][lane % 64]
  }

  /** Vectors that agree on every lane are equal. */
  lemma SameLanes(a: HdcVec, b: HdcVec)
    requires forall lane :: 0 <= lane < LANES ==> Bit(a, lane) == Bit(b, lane)
    ensures a == b
  {
    forall wi | 0 <= wi < D ensures a[wi] == b[wi] {
      forall bit | 0 <= bit < 64 ensures a[wi][bit] == b[wi][bit] {
        var lane := wi * 64 + bit;
        assert lane / 64 == wi && lane % 64 == bit;
        assert Bit(a, lane) == Bit(b, lane);
      }
    }
  }

  // ---- scalar saturating counters ------------------------------------------

  const COUNT_MAX: nat := 65535

  type U16 = c: nat | c <= 65535

  function SatInc(count: U16, bit: bool): U16 {
    if bit && count < COUNT_MAX then count + 1 else count
  }

  function SatDec(count: U16, bit: bool): U16 {
    if bit && count > 0 then count - 1 else count
  }

  /** The saturating count of `lane` over `vecs`, added in order. */
  function SatCount(vecs: seq<HdcVec>, lane: nat): (c: U16)
    requires lane < LANES
  {
    if vecs == [] then 0
    else SatInc(SatCount(vecs[..|vecs| - 1], lane), Bit(vecs[|vecs| - 1], lane))
  }

  /** How many of `vecs` have `lane` set. */
  function Count(vecs: seq<HdcVec>, lane: nat): nat
    requires lane < LANES
  {
    if vecs == [] then 0
    else Count(vecs[..|vecs| - 1], lane) + if Bit(vecs[|vecs| - 1], lane) then 1 else 0
  }

  lemma {:induction false} SatCountIsCappedCount(vecs: seq<HdcVec>, lane: nat)
    requires lane < LANES
    ensures Count(vecs, lane) <= |vecs|
    ensures SatCount(vecs, lane) == if Count(vecs, lane) < COUNT_MAX then Count(vecs, lane) else COUNT_MAX
  {
    if vecs != [] {
      SatCountIsCappedCount(vecs[..|vecs| - 1], lane);
    }
  }

  /** The lane reaches the threshold that `n` bundled vectors set. */
  predicate Reaches(count: nat, n: nat) {
    count >= n / 2 + 1
  }

  /** `out` is the majority vote that counting with saturation produces. */
  ghost predicate IsVote(out: HdcVec, vecs: seq<HdcVec>) {
    forall lane :: 0 <= lane < LANES ==> (Bit(out, lane) <==> Reaches(SatCount(vecs, lane), |vecs|))
  }

  /** `out` is the strict majority of `vecs`, lane by lane. */
  ghost predicate IsMajority(out: HdcVec, vecs: seq<HdcVec>) {
    forall lane :: 0 <= lane < LANES ==> (Bit(out, lane) <==> 2 * Count(vecs, lane) > |vecs|)
  }

  lemma VoteUnique(a: HdcVec, b: HdcVec, vecs: seq<HdcVec>)
    requires IsVote(a, vecs) && IsVote(b, vecs)
    ensures a == b
  {
    SameLanes(a, b);
  }

  /**
   The counted vote is the strict majority exactly when the threshold is still
   reachable by a 16-bit counter, or no lane has a majority to lose.
   */
  lemma VoteIsMajorityIff(out: HdcVec, vecs: seq<HdcVec>)
    requires IsVote(out, vecs)
    ensures IsMajority(out, vecs) <==>
              |vecs| < 2 * COUNT_MAX || forall lane :: 0 <= lane < LANES ==> 2 * Count(vecs, lane) <= |vecs|
  {
    forall lane | 0 <= lane < LANES
      ensures Reaches(SatCount(vecs, lane), |vecs|) <==> 2 * Count(vecs, lane) > |vecs| && |vecs| < 2 * COUNT_MAX
    {
      SatCountIsCappedCount(vecs, lane);
    }
    if |vecs| >= 2 * COUNT_MAX {
      assert forall lane :: 0 <= lane < LANES ==> !Bit(out, lane);
      if lane :| 0 <= lane < LANES && 2 * Count(vecs, lane) > |vecs| {
        assert !(Bit(out, lane) <==> 2 * Count(vecs, lane) > |vecs|);
        assert !IsMajority(out, vecs);
      } else {
        assert IsMajority(out, vecs);
      }
    } else {
      assert IsMajority(out, vecs);
    }
  }

  function Full(): HdcVec { seq(D, _ => ONES) }

  function Copies(hv: HdcVec, n: nat): (r: seq<HdcVec>)
    ensures |r| == n
  {
    seq(n, _ => hv)
  }

  lemma {:induction false} CountOfCopies(hv: HdcVec, n: nat, lane: nat)
    requires lane < LANES
    ensures Count(Copies(hv, n), lane) == if Bit(hv, lane) then n else 0
  {
    if n > 0 {
      assert Copies(hv, n)[..n - 1] == Copies(hv, n - 1);
      CountOfCopies(hv, n - 1, lane);
    }
  }

  /** Unanimous, and yet voted down: from 131070 copies of the all-ones vector on, the counted vote is blank. */
  lemma UnanimousVoteIsLost(n: nat)
    requires n >= 2 * COUNT_MAX
    ensures IsVote(Blank(), Copies(Full(), n)) && IsMajority(Full(), Copies(Full(), n))
    ensures !IsMajority(Blank(), Copies(Full(), n))
  {
    forall lane | 0 <= lane < LANES
      ensures Count(Copies(Full(), n), lane) == n && SatCount(Copies(Full(), n), lane) == COUNT_MAX
      ensures Bit(Full(), lane) && !Bit(Blank(), lane)
    {
      CountOfCopies(Full(), n, lane);
      SatCountIsCappedCount(Copies(Full(), n), lane);
    }
    assert !Bit(Blank(), 0) && 2 * Count(Copies(Full(), n), 0) > n;
  }

  /** The inner loops of `bundle` and `RealmBundle::add`: saturating add of one vector's bits. */
  method AddBits(counts: seq<U16>, hv: HdcVec) returns (r: seq<U16>)
    requires |counts| == LANES
    ensures |r| == LANES
    ensures forall lane :: 0 <= lane < LANES ==> r[lane] == SatInc(counts[lane], Bit(hv, lane))
  {
    r := counts;
    for wi := 0 to D
      invariant |r| == LANES
      invariant forall lane :: 0 <= lane < wi * 64 ==> r[lane] == SatInc(counts[lane], Bit(hv, lane))
      invariant forall lane :: wi * 64 <= lane < LANES ==> r[lane] == counts[lane]
    {
      for bit := 0 to 64
        invariant |r| == LANES
        invariant forall lane :: 0 <= lane < wi * 64 + bit ==> r[lane] == SatInc(counts[lane], Bit(hv, lane))
        invariant forall lane :: wi * 64 + bit <= lane < LANES ==> r[lane] == counts[lane]
      {
        var lane := wi * 64 + bit;
        assert lane / 64 == wi && lane % 64 == bit;
        if hv[wi][bit] {
          r := r[lane := if r[lane] < COUNT_MAX then r[lane] + 1 else COUNT_MAX];
        }
      }
    }
  }

  method SubtractBits(counts: seq<U16>, hv: HdcVec) returns (r: seq<U16>)
    requires |counts| == LANES
    ensures |r| == LANES
    ensures forall lane :: 0 <= lane < LANES ==> r[lane] == SatDec(counts[lane], Bit(hv, lane))
  {
    r := counts;
    for wi := 0 to D
      invariant |r| == LANES
      invariant forall lane :: 0 <= lane < wi * 64 ==> r[lane] == SatDec(counts[lane], Bit(hv, lane))
      invariant forall lane :: wi * 64 <= lane < LANES ==> r[lane] == counts[lane]
    {
      for bit := 0 to 64
        invariant |r| == LANES
        invariant forall lane :: 0 <= lane < wi * 64 + bit ==> r[lane] == SatDec(counts[lane], Bit(hv, lane))
        invariant forall lane :: wi * 64 + bit <= lane < LANES ==> r[lane] == counts[lane]
      {
        var lane := wi * 64 + bit;
        assert lane / 64 == wi && lane % 64 == bit;
        if hv[wi][bit] {
          r := r[lane := if r[lane] > 0 then r[lane] - 1 else 0];
        }
      }
    }
  }

  /** The output loops of `bundle` and `RealmBundle::to_hv`: set each lane whose count meets the threshold. */
  method Threshold(counts: seq<U16>, threshold: nat) returns (out: HdcVec)
    requires |counts| == LANES
    ensures forall lane :: 0 <= lane < LANES ==> (Bit(out, lane) <==> counts[lane] >= threshold)
  {
    out := Blank();
    for wi := 0 to D
      invariant forall lane :: 0 <= lane < wi * 64 ==> (Bit(out, lane) <==> counts[lane] >= threshold)
      invariant forall w :: wi <= w < D ==> out[w] == ZERO
    {
      for bit := 0 to 64
        invariant forall lane :: 0 <= lane < wi * 64 + bit ==> (Bit(out, lane) <==> counts[lane] >= threshold)
        invariant forall b :: bit <= b < 64 ==> !out[wi][b]
        invariant forall w :: wi < w < D ==> out[w] == ZERO
      {
        var lane := wi * 64 + bit;
        assert lane / 64 == wi && lane % 64 == bit;
        if counts[lane] >= threshold {
          out := out[wi := out[wi][bit := true]];
        }
      }
    }
  }

  /** Majority vote of a list of vectors, counted from scratch. */
  method Bundle(vecs: seq<HdcVec>) returns (out: HdcVec)
    ensures IsVote(out, vecs)
  {
    if vecs == [] {
      return Blank();
    }
    var counts: seq<U16> := seq(LANES, _ => 0);
    for i := 0 to |vecs|
      invariant |counts| == LANES
      invariant forall lane :: 0 <= lane < LANES ==> counts[lane] == SatCount(vecs[..i], lane)
    {
      counts := AddBits(counts, vecs[i]);
      assert vecs[..i + 1][..i] == vecs[..i];
    }
    assert vecs[..|vecs|] == vecs;
    out := Threshold(counts, |vecs| / 2 + 1);
  }
}
