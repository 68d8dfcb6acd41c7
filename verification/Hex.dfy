/** Hex digits: written in lower case, read in either case. */
module Hex {
  import opened Wrappers
  import opened Bytes

  datatype HexError = OddLength | NotHex

  function Digit(n: nat): (c: char)
    requires n < 16
    ensures Nibble(c) == Some(n)
  {
    "0123456789abcdef"[n]
  }

  function Nibble(c: char): (n: Option<nat>)
    ensures n.Some? ==> n.value < 16
  {
    if '0' <= c <= '9' then Some(c as int - '0' as int)
    else if 'a' <= c <= 'f' then Some(c as int - 'a' as int + 10)
    else if 'A' <= c <= 'F' then Some(c as int - 'A' as int + 10)
    else None
  }

  /** The digits of the first n bytes. */
  function Digits(bs: seq<byte>, n: nat): (h: string)
    requires n <= |bs|
    ensures |h| == 2 * n
  {
    if n == 0 then "" else Digits(bs, n - 1) + [Digit(bs[n - 1] / 16), Digit(bs[n - 1] % 16)]
  }

  function Encode(bs: seq<byte>): (h: string)
    ensures |h| == 2 * |bs|
  {
    Digits(bs, |bs|)
  }

  /** The bytes of the first n digit pairs, if they are all digits. */
  function Pairs(hex: string, n: nat): (bs: Option<seq<byte>>)
    requires 2 * n <= |hex|
    ensures bs.Some? ==> |bs.value| == n
  {
    if n == 0 then Some([])
    else
      var front, hi, lo := Pairs(hex, n - 1), Nibble(hex[2 * n - 2]), Nibble(hex[2 * n - 1]);
      if front.Some? && hi.Some? && lo.Some? then Some(front.value + [16 * hi.value + lo.value]) else None
  }

  function Decode(hex: string): Result<seq<byte>, HexError> {
    if |hex| % 2 != 0 then Failure(OddLength)
    else
      var bs := Pairs(hex, |hex| / 2);
      if bs.Some? then Success(bs.value) else Failure(NotHex)
  }

  lemma {:induction false} PairsIff(hex: string, n: nat)
    requires 2 * n <= |hex|
    ensures Pairs(hex, n).Some? <==> forall i :: 0 <= i < 2 * n ==> Nibble(hex[i]).Some?
  {
    if n > 0 {
      PairsIff(hex, n - 1);
    }
  }

  /** Text decodes exactly when it is an even number of hex digits, to half as many bytes. */
  lemma DecodesIff(hex: string)
    ensures Decode(hex).Success? <==> |hex| % 2 == 0 && forall i :: 0 <= i < |hex| ==> Nibble(hex[i]).Some?
    ensures Decode(hex).Success? ==> 2 * |Decode(hex).value| == |hex|
  {
    PairsIff(hex, |hex| / 2);
  }

  lemma {:induction false} DigitsAt(bs: seq<byte>, n: nat, i: nat)
    requires i < n <= |bs|
    ensures Digits(bs, n)[2 * i] == Digit(bs[i] / 16) && Digits(bs, n)[2 * i + 1] == Digit(bs[i] % 16)
  {
    var front := Digits(bs, n - 1);
    TwoMore(front, Digit(bs[n - 1] / 16), Digit(bs[n - 1] % 16));
    if i < n - 1 {
      DigitsAt(bs, n - 1, i);
      assert 2 * i + 1 < |front|;
    }
  }

  lemma TwoMore(front: string, x: char, y: char)
    ensures var s := front + [x, y];
      s[|front|] == x && s[|front| + 1] == y && forall k :: 0 <= k < |front| ==> s[k] == front[k]
  {
  }

  lemma {:induction false} PairsAt(hex: string, n: nat, i: nat)
    requires 2 * n <= |hex| && i < n && Pairs(hex, n).Some?
    ensures var hi, lo := Nibble(hex[2 * i]), Nibble(hex[2 * i + 1]);
      hi.Some? && lo.Some? && Pairs(hex, n).value[i] == 16 * hi.value + lo.value
  {
    if i < n - 1 {
      PairsAt(hex, n - 1, i);
      assert i < |Pairs(hex, n - 1).value|;
    }
  }

  lemma DecodeEncode(bs: seq<byte>)
    ensures Decode(Encode(bs)) == Success(bs)
  {
    var hex, n := Encode(bs), |bs|;
    forall j | 0 <= j < 2 * n
      ensures Nibble(hex[j]).Some?
    {
      DigitsAt(bs, n, j / 2);
      assert j == 2 * (j / 2) || j == 2 * (j / 2) + 1;
    }
    PairsIff(hex, n);
    forall i | 0 <= i < n
      ensures Pairs(hex, n).value[i] == bs[i]
    {
      DigitsAt(bs, n, i);
      PairsAt(hex, n, i);
    }
    assert |hex| / 2 == n && Pairs(hex, n).value == bs;
  }

  function Lower(c: char): char {
    if 'A' <= c <= 'F' then (c as int + 32) as char else c
  }

  lemma DigitOfNibble(c: char)
    requires Nibble(c).Some?
    ensures Digit(Nibble(c).value) == Lower(c)
  {
  }

  lemma DigitsOfByte(x: char, y: char, b: byte)
    requires Nibble(x).Some? && Nibble(y).Some? && b == 16 * Nibble(x).value + Nibble(y).value
    ensures Digit(b / 16) == Lower(x) && Digit(b % 16) == Lower(y)
  {
    DigitOfNibble(x);
    DigitOfNibble(y);
    assert b / 16 == Nibble(x).value && b % 16 == Nibble(y).value;
  }

  /** The two digits of a byte are those it was decoded from, in lower case. */
  lemma {:induction false} EncodeDecode(hex: string, i: nat)
    requires Decode(hex).Success? && 2 * i < |hex|
    ensures |Encode(Decode(hex).value)| == |hex|
    ensures Encode(Decode(hex).value)[2 * i] == Lower(hex[2 * i])
    ensures Encode(Decode(hex).value)[2 * i + 1] == Lower(hex[2 * i + 1])
  {
    DecodesIff(hex);
    var bs := Decode(hex).value;
    PairsAt(hex, |bs|, i);
    DigitsAt(bs, |bs|, i);
    DigitsOfByte(hex[2 * i], hex[2 * i + 1], bs[i]);
  }

  // ----- The digits -----

  /** Sixteen digits in lower case; six of them also in upper case; nothing else is one. */
  lemma DigitValues(n: nat, c: char)
    requires n < 16
    ensures Nibble("0123456789abcdef"[n]) == Some(n) && Nibble("0123456789ABCDEF"[n]) == Some(n)
    ensures Nibble(c).Some? <==> '0' <= c <= '9' || 'a' <= c <= 'f' || 'A' <= c <= 'F'
  {
  }

  /** Each byte is written as two digits, the high half first. */
  lemma EncodeAt(bs: seq<byte>, i: nat)
    requires i < |bs|
    ensures |Encode(bs)| == 2 * |bs|
    ensures Encode(bs)[2 * i] == "0123456789abcdef"[bs[i] / 16] && Encode(bs)[2 * i + 1] == "0123456789abcdef"[bs[i] % 16]
  {
    DigitsAt(bs, |bs|, i);
  }

  /** An odd number of characters is told from one that is no digit. */
  lemma DecodeFails(hex: string)
    ensures Decode(hex) == Failure(OddLength) <==> |hex| % 2 == 1
    ensures Decode(hex) == Failure(NotHex) <==> |hex| % 2 == 0 && exists i :: 0 <= i < |hex| && Nibble(hex[i]).None?
  {
    PairsIff(hex, |hex| / 2);
  }
}
