/** Well-formed UTF-8 is what encoding Unicode scalar values gives (Unicode 15, Table 3-6). */
module Utf8 {
  import opened Bytes

  predicate IsScalar(c: nat) {
    c < 0xD800 || 0xE000 <= c < 0x11_0000
  }

  type ScalarValue = c: nat | IsScalar(c)

  /** The bytes of one scalar value. */
  function Scalar(c: ScalarValue): (bs: seq<byte>)
    ensures |bs| > 0
  {
    assert IsScalar(c);
    if c < 0x80 then [c]
    else if c < 0x800 then [0xC0 + c / 0x40, 0x80 + c % 0x40]
    else if c < 0x1_0000 then [0xE0 + c / 0x1000, 0x80 + c / 0x40 % 0x40, 0x80 + c % 0x40]
    else [0xF0 + c / 0x4_0000, 0x80 + c / 0x1000 % 0x40, 0x80 + c / 0x40 % 0x40, 0x80 + c % 0x40]
  }

  /** The bytes of some scalar values. */
  function Text(cs: seq<ScalarValue>): seq<byte> {
    if cs == [] then [] else Scalar(cs[0]) + Text(cs[1..])
  }

  // ----- A character of the well-formed table is a scalar value -----

  lemma Char1(bs: seq<byte>, i: nat) returns (c: nat)
    requires i < |bs| && CharWidth(bs, i) == 1
    ensures IsScalar(c) && bs[i..i + 1] == Scalar(c)
  {
    c := bs[i];
  }

  lemma Char2(bs: seq<byte>, i: nat) returns (c: nat)
    requires i < |bs| && CharWidth(bs, i) == 2
    ensures IsScalar(c) && bs[i..i + 2] == Scalar(c)
  {
    var x: int, y: int := bs[i], bs[i + 1];
    c := (x - 0xC0) * 0x40 + (y - 0x80);
    assert c / 0x40 == x - 0xC0 && c % 0x40 == y - 0x80;
  }

  lemma Char3(bs: seq<byte>, i: nat) returns (c: nat)
    requires i < |bs| && CharWidth(bs, i) == 3
    ensures IsScalar(c) && bs[i..i + 3] == Scalar(c)
  {
    var x: int, y: int, z: int := bs[i], bs[i + 1], bs[i + 2];
    c := ((x - 0xE0) * 0x40 + (y - 0x80)) * 0x40 + (z - 0x80);
    Digits3(x - 0xE0, y - 0x80, z - 0x80);
    assert 0x800 <= c < 0x1_0000;
  }

  lemma Digits3(x: nat, y: nat, z: nat)
    requires y < 0x40 && z < 0x40
    ensures var c := (x * 0x40 + y) * 0x40 + z; c / 0x1000 == x && c / 0x40 % 0x40 == y && c % 0x40 == z
  {
    var c := (x * 0x40 + y) * 0x40 + z;
    assert c / 0x40 == x * 0x40 + y;
  }

  lemma Char4(bs: seq<byte>, i: nat) returns (c: nat)
    requires i < |bs| && CharWidth(bs, i) == 4
    ensures IsScalar(c) && bs[i..i + 4] == Scalar(c)
  {
    var w: int, x: int, y: int, z: int := bs[i], bs[i + 1], bs[i + 2], bs[i + 3];
    c := (((w - 0xF0) * 0x40 + (x - 0x80)) * 0x40 + (y - 0x80)) * 0x40 + (z - 0x80);
    Digits4(w - 0xF0, x - 0x80, y - 0x80, z - 0x80);
    assert 0x1_0000 <= c < 0x11_0000;
  }

  lemma Digits4(w: nat, x: nat, y: nat, z: nat)
    requires x < 0x40 && y < 0x40 && z < 0x40
    ensures var c := ((w * 0x40 + x) * 0x40 + y) * 0x40 + z;
      c / 0x4_0000 == w && c / 0x1000 % 0x40 == x && c / 0x40 % 0x40 == y && c % 0x40 == z
  {
    Digits3(w * 0x40 + x, y, z);
    assert (w * 0x40 + x) / 0x40 == w && (w * 0x40 + x) % 0x40 == x;
  }

  lemma CharIs(bs: seq<byte>, i: nat) returns (c: nat)
    requires i < |bs| && CharWidth(bs, i) > 0
    ensures IsScalar(c) && bs[i..i + CharWidth(bs, i)] == Scalar(c)
  {
    var w := CharWidth(bs, i);
    if w == 1 {
      c := Char1(bs, i);
    } else if w == 2 {
      c := Char2(bs, i);
    } else if w == 3 {
      c := Char3(bs, i);
    } else {
      c := Char4(bs, i);
    }
  }

  // ----- And the other way round -----

  lemma ScalarWidth(bs: seq<byte>, i: nat, c: nat)
    requires IsScalar(c) && i + |Scalar(c)| <= |bs| && bs[i..i + |Scalar(c)|] == Scalar(c)
    ensures CharWidth(bs, i) == |Scalar(c)|
  {
    forall k | 0 <= k < |Scalar(c)|
      ensures bs[i + k] == Scalar(c)[k]
    {
      assert bs[i..i + |Scalar(c)|][k] == bs[i + k];
    }
    ScalarBytes(c);
  }

  /** The bytes of a scalar value lie in the ranges of the well-formed table. */
  lemma ScalarBytes(c: nat)
    requires IsScalar(c)
    ensures var s := Scalar(c);
      && (|s| == 1 ==> s[0] < 0x80)
      && (|s| == 2 ==> 0xC2 <= s[0] <= 0xDF && IsTail(s[1]))
      && (|s| == 3 ==> 0xE0 <= s[0] <= 0xEF && IsTail(s[1]) && IsTail(s[2]))
      && (|s| == 3 ==> (s[0] == 0xE0 ==> s[1] >= 0xA0) && (s[0] == 0xED ==> s[1] <= 0x9F))
      && (|s| == 4 ==> 0xF0 <= s[0] <= 0xF4 && IsTail(s[1]) && IsTail(s[2]) && IsTail(s[3]))
      && (|s| == 4 ==> (s[0] == 0xF0 ==> s[1] >= 0x90) && (s[0] == 0xF4 ==> s[1] <= 0x8F))
      && |s| <= 4
  {
  }

  lemma Cut(bs: seq<byte>, i: nat, s: seq<byte>, rest: seq<byte>)
    requires i <= |bs| && bs[i..] == s + rest
    ensures i + |s| <= |bs| && bs[i..i + |s|] == s && bs[i + |s|..] == rest
  {
    assert bs[i..i + |s|] == bs[i..][..|s|];
    assert bs[i + |s|..] == bs[i..][|s|..];
  }

  lemma {:induction false} TextIsUtf8(cs: seq<ScalarValue>, bs: seq<byte>, i: nat)
    requires i <= |bs| && bs[i..] == Text(cs)
    ensures IsUtf8From(bs, i)
    decreases |cs|
  {
    if cs != [] {
      Cut(bs, i, Scalar(cs[0]), Text(cs[1..]));
      ScalarWidth(bs, i, cs[0]);
      TextIsUtf8(cs[1..], bs, i + |Scalar(cs[0])|);
    }
  }

  lemma {:induction false} MoreText(c: ScalarValue, cs: seq<ScalarValue>)
    ensures Text([c] + cs) == Scalar(c) + Text(cs)
  {
    assert ([c] + cs)[1..] == cs;
  }

  lemma {:induction false} Utf8IsText(bs: seq<byte>, i: nat) returns (cs: seq<ScalarValue>)
    requires i <= |bs| && IsUtf8From(bs, i)
    ensures bs[i..] == Text(cs)
    decreases |bs| - i
  {
    cs := [];
    if i < |bs| {
      var w := CharWidth(bs, i);
      var c := CharIs(bs, i);
      var rest := Utf8IsText(bs, i + w);
      cs := [c] + rest;
      MoreText(c, rest);
      assert bs[i..] == bs[i..i + w] + bs[i + w..];
    }
  }

  /** Bytes are well-formed exactly when they are the bytes of some scalar values. */
  lemma Utf8Iff(bs: seq<byte>)
    ensures IsUtf8(bs) <==> exists cs: seq<ScalarValue> :: bs == Text(cs)
  {
    assert bs[0..] == bs;
    if IsUtf8(bs) {
      var cs := Utf8IsText(bs, 0);
    }
    if cs: seq<ScalarValue> :| bs == Text(cs) {
      TextIsUtf8(cs, bs, 0);
    }
  }
}
