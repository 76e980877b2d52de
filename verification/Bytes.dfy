/** Byte strings and big-endian integers. */
module Bytes {
  type byte = b: nat | b < 256
  type bytes = seq<byte>

  function Pow256(n: nat): (p: nat)
    ensures p >= 1
  {
    if n == 0 then 1 else 256 * Pow256(n - 1)
  }

  function Zeros(n: nat): (r: bytes)
    ensures |r| == n
  {
    if n == 0 then [] else Zeros(n - 1) + [0]
  }

  /** `to_be_bytes` in `width` bytes; higher bits are cut off, as a narrowing cast does. */
  function Be(n: nat, width: nat): (r: bytes)
    ensures |r| == width
  {
    if width == 0 then [] else Be(n / 256, width - 1) + [(n % 256) as byte]
  }

  /** `from_be_bytes`. */
  function Num(bs: bytes): nat {
    if bs == [] then 0 else 256 * Num(bs[..|bs| - 1]) + bs[|bs| - 1]
  }

  lemma {:induction false} NumOfBe(n: nat, width: nat)
    requires n < Pow256(width)
    ensures Num(Be(n, width)) == n
  {
    if width > 0 {
      NumOfBe(n / 256, width - 1);
      assert Be(n, width)[..width - 1] == Be(n / 256, width - 1);
    }
  }

  lemma {:induction false} BeOfNum(bs: bytes)
    ensures Num(bs) < Pow256(|bs|) && Be(Num(bs), |bs|) == bs
  {
    if bs != [] {
      var n := |bs| - 1;
      BeOfNum(bs[..n]);
      assert Num(bs) / 256 == Num(bs[..n]) && Num(bs) % 256 == bs[n];
      assert bs == bs[..n] + [bs[n]];
    }
  }
}
