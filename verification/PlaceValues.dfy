/** The bytes of a number, and the number of some bytes, by place value. */
module PlaceValues {
  import opened Bytes

  predicate IsSize(n: nat) {
    n == 1 || n == 2 || n == 4 || n == 8
  }

  /** The k-th byte of a number, counted from the least significant. */
  function Octet(bits: nat, k: nat): byte {
    match k
    case 0 => bits % 256
    case 1 => bits / 0x100 % 256
    case 2 => bits / 0x1_0000 % 256
    case 3 => bits / 0x100_0000 % 256
    case 4 => bits / 0x1_0000_0000 % 256
    case 5 => bits / 0x100_0000_0000 % 256
    case 6 => bits / 0x1_0000_0000_0000 % 256
    case 7 => bits / 0x100_0000_0000_0000 % 256
    case _ => 0
  }

  lemma LeBytesStep(n: nat, x: nat, k: nat)
    requires k < n
    ensures LeBytes(n, x)[k] == if k == 0 then x % 256 else LeBytes(n - 1, x / 256)[k - 1]
  {
  }

  lemma OctetShiftLow(x: nat, k: nat)
    requires k < 3
    ensures Octet(x / 256, k) == Octet(x, k + 1)
  {
  }

  lemma OctetShift3(x: nat)
    ensures Octet(x / 256, 3) == Octet(x, 4)
  {
  }

  lemma OctetShift4(x: nat)
    ensures Octet(x / 256, 4) == Octet(x, 5)
  {
  }

  lemma OctetShift5(x: nat)
    ensures Octet(x / 256, 5) == Octet(x, 6)
  {
  }

  lemma OctetShift6(x: nat)
    ensures Octet(x / 256, 6) == Octet(x, 7)
  {
  }

  lemma OctetShift(x: nat, k: nat)
    requires k < 7
    ensures Octet(x / 256, k) == Octet(x, k + 1)
  {
    if k < 3 {
      OctetShiftLow(x, k);
    } else if k == 3 {
      OctetShift3(x);
    } else if k == 4 {
      OctetShift4(x);
    } else if k == 5 {
      OctetShift5(x);
    } else {
      OctetShift6(x);
    }
  }

  lemma {:induction false} LeBytesAre(n: nat, x: nat, k: nat)
    requires k < n <= 8
    ensures LeBytes(n, x)[k] == Octet(x, k)
  {
    LeBytesStep(n, x, k);
    if k > 0 {
      LeBytesAre(n - 1, x / 256, k - 1);
      OctetShift(x, k - 1);
    }
  }

  /** Byte k of the n at a position, counted from the least significant. */
  function ByteAt(bs: seq<byte>, at: nat, n: nat, be: bool, k: nat): nat
    requires at + n <= |bs| && k < n
  {
    if be then bs[at + n - 1 - k] else bs[at + k]
  }

  /** The number in the n bytes at a position. */
  function NumberAt(bs: seq<byte>, at: nat, n: nat, be: bool): nat
    requires IsSize(n) && at + n <= |bs|
  {
    ByteAt(bs, at, n, be, 0)
    + (if n >= 2 then 0x100 * ByteAt(bs, at, n, be, 1) else 0)
    + (if n >= 4 then 0x1_0000 * ByteAt(bs, at, n, be, 2) + 0x100_0000 * ByteAt(bs, at, n, be, 3) else 0)
    + if n >= 8 then
        0x1_0000_0000 * ByteAt(bs, at, n, be, 4) + 0x100_0000_0000 * ByteAt(bs, at, n, be, 5)
        + 0x1_0000_0000_0000 * ByteAt(bs, at, n, be, 6) + 0x100_0000_0000_0000 * ByteAt(bs, at, n, be, 7)
      else 0
  }

  lemma {:induction false} FromLeStep(bs: seq<byte>, k: nat)
    requires k < |bs|
    ensures FromLe(bs[k..]) == bs[k] + 256 * FromLe(bs[k + 1..])
  {
    assert bs[k..][1..] == bs[k + 1..];
  }

  lemma {:induction false} FromLe1(bs: seq<byte>)
    requires |bs| == 1
    ensures FromLe(bs) == NumberAt(bs, 0, 1, false)
  {
    assert bs[0..] == bs && bs[1..] == [];
    FromLeStep(bs, 0);
  }

  lemma {:induction false} FromLe2(bs: seq<byte>)
    requires |bs| == 2
    ensures FromLe(bs) == NumberAt(bs, 0, 2, false)
  {
    assert bs[0..] == bs;
    FromLeStep(bs, 0);
    FromLe1(bs[1..]);
  }

  lemma {:induction false} FromLe4(bs: seq<byte>)
    requires |bs| == 4
    ensures FromLe(bs) == NumberAt(bs, 0, 4, false)
  {
    assert bs[0..] == bs;
    FromLeStep(bs, 0);
    FromLeStep(bs, 1);
    FromLe2(bs[2..]);
  }

  lemma {:induction false} FromLe8(bs: seq<byte>)
    requires |bs| == 8
    ensures FromLe(bs) == NumberAt(bs, 0, 8, false)
  {
    assert bs[0..] == bs;
    FromLeStep(bs, 0);
    FromLeStep(bs, 1);
    FromLeStep(bs, 2);
    FromLeStep(bs, 3);
    FromLe4(bs[4..]);
  }

  lemma NumberIs(bs: seq<byte>, at: nat, n: nat, be: bool)
    requires IsSize(n) && at + n <= |bs|
    ensures FromBytes(bs[at..at + n], be) == NumberAt(bs, at, n, be)
  {
    var part := if be then Reverse(bs[at..at + n]) else bs[at..at + n];
    forall k | 0 <= k < n
      ensures part[k] == ByteAt(bs, at, n, be, k)
    {
    }
    if n == 1 {
      FromLe1(part);
    } else if n == 2 {
      FromLe2(part);
    } else if n == 4 {
      FromLe4(part);
    } else {
      FromLe8(part);
    }
  }
}
