/** Bytes and fixed-width integers in little- and big-endian order. */
module Bytes {

  type byte = b: int | 0 <= b < 256

  function Pow256(n: nat): (p: nat)
    ensures p > 0
  {
    if n == 0 then 1 else 256 * Pow256(n - 1)
  }

  lemma PowValues()
    ensures Pow256(1) == 0x100 && Pow256(2) == 0x1_0000
    ensures Pow256(4) == 0x1_0000_0000 && Pow256(8) == 0x1_0000_0000_0000_0000
  {
    assert Pow256(2) == 0x1_0000;
    assert Pow256(3) == 0x100_0000;
    assert Pow256(4) == 0x1_0000_0000;
    assert Pow256(5) == 0x100_0000_0000;
    assert Pow256(6) == 0x1_0000_0000_0000;
    assert Pow256(7) == 0x100_0000_0000_0000;
  }

  /** The n low bytes of x, least significant first. */
  function LeBytes(n: nat, x: nat): (bs: seq<byte>)
    ensures |bs| == n
  {
    if n == 0 then [] else [x % 256] + LeBytes(n - 1, x / 256)
  }

  function FromLe(bs: seq<byte>): nat {
    if bs == [] then 0 else bs[0] + 256 * FromLe(bs[1..])
  }

  lemma {:induction false} FromLeBound(bs: seq<byte>)
    ensures FromLe(bs) < Pow256(|bs|)
  {
    if bs != [] {
      FromLeBound(bs[1..]);
    }
  }

  lemma {:induction false} LeRoundTrip(n: nat, x: nat)
    requires x < Pow256(n)
    ensures FromLe(LeBytes(n, x)) == x
  {
    if n > 0 {
      assert x / 256 < Pow256(n - 1);
      LeRoundTrip(n - 1, x / 256);
      assert LeBytes(n, x)[1..] == LeBytes(n - 1, x / 256);
    }
  }

  lemma {:induction false} FromLeRoundTrip(bs: seq<byte>)
    ensures LeBytes(|bs|, FromLe(bs)) == bs
  {
    if bs != [] {
      FromLeRoundTrip(bs[1..]);
      var x := FromLe(bs);
      assert x % 256 == bs[0] && x / 256 == FromLe(bs[1..]);
      assert bs == [bs[0]] + bs[1..];
    }
  }

  function Reverse(bs: seq<byte>): (r: seq<byte>)
    ensures |r| == |bs| && forall i :: 0 <= i < |bs| ==> r[i] == bs[|bs| - 1 - i]
  {
    seq(|bs|, i requires 0 <= i < |bs| => bs[|bs| - 1 - i])
  }

  lemma ReverseTwice(bs: seq<byte>)
    ensures Reverse(Reverse(bs)) == bs
  {
  }

  /** An integer read in either byte order. */
  function FromBytes(bs: seq<byte>, bigEndian: bool): nat {
    FromLe(if bigEndian then Reverse(bs) else bs)
  }

  /** Well-formed UTF-8 (Unicode 15, Table 3-7). */
  predicate IsUtf8(bs: seq<byte>) {
    IsUtf8From(bs, 0)
  }

  predicate IsUtf8From(bs: seq<byte>, i: nat)
    requires i <= |bs|
    decreases |bs| - i
  {
    i == |bs| || (CharWidth(bs, i) > 0 && IsUtf8From(bs, i + CharWidth(bs, i)))
  }

  /** The length of the well-formed character at i, or zero. */
  function CharWidth(bs: seq<byte>, i: nat): (w: nat)
    requires i < |bs|
    ensures i + w <= |bs|
  {
    var b := bs[i];
    if b < 0x80 then 1
    else if 0xC2 <= b <= 0xDF && i + 2 <= |bs| && IsTail(bs[i + 1]) then 2
    else if 0xE0 <= b <= 0xEF && i + 3 <= |bs| && IsTail(bs[i + 1]) && IsTail(bs[i + 2])
      && (b == 0xE0 ==> bs[i + 1] >= 0xA0) && (b == 0xED ==> bs[i + 1] <= 0x9F) then 3
    else if 0xF0 <= b <= 0xF4 && i + 4 <= |bs| && IsTail(bs[i + 1]) && IsTail(bs[i + 2]) && IsTail(bs[i + 3])
      && (b == 0xF0 ==> bs[i + 1] >= 0x90) && (b == 0xF4 ==> bs[i + 1] <= 0x8F) then 4
    else 0
  }

  predicate IsTail(b: byte) {
    0x80 <= b <= 0xBF
  }
}
