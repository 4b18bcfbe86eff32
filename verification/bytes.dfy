/**
 * Python's big-endian integer/byte conversions and slicing on byte strings.
 * A byte string is a `seq<byte>`; the integers are unbounded, so every
 * width limit of `int.to_bytes` is written out.
 */
module Bytes {

  /** One element of a Python `bytes` value. */
  type byte = x: int | 0 <= x < 256

  /** 256 to the power k: the number of values that fit in k bytes. */
  function Pow256(k: nat): (r: nat)
    ensures r >= 1
  {
    if k == 0 then 1 else 256 * Pow256(k - 1)
  }

  /** `n.to_bytes(k, "big")`; Python raises OverflowError when n does not fit. */
  function ToBytes(n: nat, k: nat): (r: seq<byte>)
    requires n < Pow256(k)
    ensures |r| == k
  {
    if k == 0 then [] else ToBytes(n / 256, k - 1) + [n % 256]
  }

  /** `int.from_bytes(s, "big")`; the empty string reads as 0. */
  function FromBytes(s: seq<byte>): (r: nat)
    ensures r < Pow256(|s|)
  {
    if |s| == 0 then 0 else FromBytes(s[..|s| - 1]) * 256 + s[|s| - 1]
  }

  /** Reading back what `to_bytes` wrote gives the number. */
  lemma {:induction false} FromToBytes(n: nat, k: nat)
    requires n < Pow256(k)
    ensures FromBytes(ToBytes(n, k)) == n
  {
    if k > 0 {
      var t := ToBytes(n / 256, k - 1);
      assert ToBytes(n, k) == t + [n % 256];
      assert (t + [n % 256])[..k - 1] == t;
      FromToBytes(n / 256, k - 1);
    }
  }

  /** Writing back what `from_bytes` read gives the same bytes. */
  lemma {:induction false} ToFromBytes(s: seq<byte>)
    ensures ToBytes(FromBytes(s), |s|) == s
  {
    if |s| > 0 {
      var p := s[..|s| - 1];
      ToFromBytes(p);
      var v := FromBytes(s);
      assert v / 256 == FromBytes(p) && v % 256 == s[|s| - 1];
      assert s == p + [s[|s| - 1]];
    }
  }

  /** A number that fits in k bytes, written in k + 1 bytes, has a leading zero byte. */
  lemma {:induction false} ToBytesLeadingZero(n: nat, k: nat)
    requires n < Pow256(k)
    ensures ToBytes(n, k + 1) == [0] + ToBytes(n, k)
  {
    if k > 0 {
      ToBytesLeadingZero(n / 256, k - 1);
      assert ToBytes(n, k + 1) == ToBytes(n / 256, k) + [n % 256];
    }
  }

  /** The last three bytes of a four-byte big-endian number below 2^24 read back as it. */
  lemma LowThreeBytes(n: nat)
    requires n < Pow256(3)
    ensures FromBytes(ToBytes(n, 4)[1..]) == n
  {
    ToBytesLeadingZero(n, 3);
    assert ToBytes(n, 4)[1..] == ToBytes(n, 3);
    FromToBytes(n, 3);
  }

  function Min(a: int, b: int): int { if a < b then a else b }

  /** Python's `s[lo:hi]` for non-negative bounds: out-of-range bounds are clipped. */
  function Slice(s: seq<byte>, lo: nat, hi: nat): (r: seq<byte>)
    ensures |r| == if lo < Min(hi, |s|) then Min(hi, |s|) - lo else 0
    ensures lo <= hi <= |s| ==> r == s[lo..hi]
    ensures |s| <= lo ==> r == []
  {
    if lo < Min(hi, |s|) then s[lo..Min(hi, |s|)] else []
  }
}
