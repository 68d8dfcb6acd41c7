/**
 XCDR1 encoding (CORBA 3.3 Part 2 section 9.3, OMG DDS-XTypes 1.3 section 7.4.1 encoding
 version 1): the values and schemas of aimdb-cdr, and what a value encodes to and decodes from.
 Positions count from the end of the four-byte header.
 */
module Cdr {
  import opened Wrappers
  import opened Bytes

  datatype Prim = I8 | I16 | I32 | I64 | U8 | U16 | U32 | U64 | F32 | F64

  predicate IsWidth(n: nat) {
    n == 1 || n == 2 || n == 4 || n == 8
  }

  function Width(p: Prim): (w: nat)
    ensures IsWidth(w)
  {
    match p
    case I8 => 1 case U8 => 1
    case I16 => 2 case U16 => 2
    case I32 => 4 case U32 => 4 case F32 => 4
    case I64 => 8 case U64 => 8 case F64 => 8
  }

  /** The bit patterns of a primitive type: two's complement for integers, IEEE 754 for floats. */
  predicate InRange(p: Prim, bits: nat) {
    bits < Pow256(Width(p))
  }

  /** A value as it presents itself to the serializer. */
  datatype Value =
    | VBool(b: bool)
    | VPrim(p: Prim, bits: nat)
    | VStr(text: seq<byte>)
    | VBytes(data: seq<byte>)
    | VUnit
    | VNewtype(inner: Value)
    | VSeq(announced: Option<nat>, elems: seq<Value>)
    | VTuple(fields: seq<Value>)
    | VUnsupported(what: string)

  /** A type as it drives the deserializer. */
  datatype Schema =
    | SBool
    | SPrim(p: Prim)
    | SStr
    | SBytes
    | SUnit
    | SNewtype(inner: Schema)
    | SSeq(elem: Schema)
    | STuple(fields: seq<Schema>)
    | SUnsupported(what: string)

  datatype Error =
    | BufferTooSmall
    | UnexpectedEof
    | InvalidHeader(b0: byte, b1: byte)
    | InvalidBool(b: byte)
    | InvalidUtf8
    | MissingNul
    | LengthOverflow
    | UnknownLength
    | Unsupported(what: string)

  /** The type of element i of a sequence, or of field i of a tuple. */
  function ItemType(s: Schema, i: nat): Schema
    requires s.SSeq? || (s.STuple? && i < |s.fields|)
  {
    if s.SSeq? then s.elem else s.fields[i]
  }

  /** s has at least n items: a sequence any number, a tuple as many as fields. */
  predicate HasItems(s: Schema, n: nat) {
    s.SSeq? || (s.STuple? && n <= |s.fields|)
  }

  /** v is a value of the type s. */
  ghost predicate Has(s: Schema, v: Value)
    decreases s, 1, 0
  {
    match s
    case SBool => v.VBool?
    case SPrim(p) => v.VPrim? && v.p == p && InRange(p, v.bits)
    case SStr => v.VStr? && IsUtf8(v.text)
    case SBytes => v.VBytes?
    case SUnit => v.VUnit?
    case SNewtype(inner) => v.VNewtype? && Has(inner, v.inner)
    case SSeq(_) => v.VSeq? && v.announced == Some(|v.elems|) && HasAll(s, v.elems, |v.elems|)
    case STuple(fields) => v.VTuple? && |v.fields| == |fields| && HasAll(s, v.fields, |fields|)
    case SUnsupported(_) => false
  }

  /** The first n values are of the types of the first n items. */
  ghost predicate HasAll(s: Schema, vs: seq<Value>, n: nat)
    requires n <= |vs| && HasItems(s, n)
    decreases s, 0, n
  {
    n == 0 || (HasAll(s, vs, n - 1) && Has(ItemType(s, n - 1), vs[n - 1]))
  }

  lemma {:induction false} HasAllAt(s: Schema, vs: seq<Value>, n: nat, i: nat)
    requires n <= |vs| && HasItems(s, n) && HasAll(s, vs, n) && i < n
    ensures Has(ItemType(s, i), vs[i])
  {
    if i < n - 1 {
      HasAllAt(s, vs, n - 1, i);
    }
  }

  const U32_END: nat := 0x1_0000_0000

  /** Padding from pos to the next multiple of n. */
  function Pad(pos: nat, n: nat): (k: nat)
    requires IsWidth(n)
    ensures k < n
  {
    if pos >= n then Pad(pos - n, n) else if pos == 0 then 0 else n - pos
  }

  lemma {:induction false} Pad2(pos: nat)
    ensures Pad(pos, 2) == (2 - pos % 2) % 2
  {
    if pos >= 2 {
      Pad2(pos - 2);
      assert (pos - 2) % 2 == pos % 2;
    }
  }

  lemma {:induction false} Pad4(pos: nat)
    ensures Pad(pos, 4) == (4 - pos % 4) % 4
  {
    if pos >= 4 {
      Pad4(pos - 4);
      assert (pos - 4) % 4 == pos % 4;
    }
  }

  lemma {:induction false} Pad8(pos: nat)
    ensures Pad(pos, 8) == (8 - pos % 8) % 8
  {
    if pos >= 8 {
      Pad8(pos - 8);
      assert (pos - 8) % 8 == pos % 8;
    }
  }

  lemma Reaches2(pos: nat)
    ensures (pos + (2 - pos % 2) % 2) % 2 == 0
  {
  }

  lemma Reaches4(pos: nat)
    ensures (pos + (4 - pos % 4) % 4) % 4 == 0
  {
  }

  lemma Reaches8(pos: nat)
    ensures (pos + (8 - pos % 8) % 8) % 8 == 0
  {
  }

  /** For every width the padding is what the code computes, and reaches the next multiple. */
  lemma PadAligns(pos: nat)
    ensures Pad(pos, 1) == 0
    ensures Pad(pos, 2) == (2 - pos % 2) % 2 && (pos + Pad(pos, 2)) % 2 == 0
    ensures Pad(pos, 4) == (4 - pos % 4) % 4 && (pos + Pad(pos, 4)) % 4 == 0
    ensures Pad(pos, 8) == (8 - pos % 8) % 8 && (pos + Pad(pos, 8)) % 8 == 0
  {
    Pad2(pos);
    Pad4(pos);
    Pad8(pos);
    Reaches2(pos);
    Reaches4(pos);
    Reaches8(pos);
  }

  function Zeros(k: nat): (z: seq<byte>)
    ensures |z| == k && forall i :: 0 <= i < k ==> z[i] == 0
  {
    seq(k, _ => 0)
  }

  // ----- Encoding -----

  function EncodePrim(n: nat, bits: nat, pos: nat): (bs: seq<byte>)
    requires IsWidth(n)
    ensures |bs| == Pad(pos, n) + n
  {
    Zeros(Pad(pos, n)) + LeBytes(n, bits)
  }

  function EncodeLength(len: nat, pos: nat): Result<seq<byte>, Error> {
    if len < U32_END then Success(EncodePrim(4, len, pos)) else Failure(LengthOverflow)
  }

  /** The bytes v adds at position pos. */
  function Encode(v: Value, pos: nat): Result<seq<byte>, Error>
    decreases v, 0
  {
    match v
    case VBool(b) => Success([if b then 1 else 0])
    case VPrim(p, bits) => Success(EncodePrim(Width(p), bits, pos))
    case VStr(text) =>
      var len :- EncodeLength(|text| + 1, pos);
      Success(len + text + [0])
    case VBytes(data) =>
      var len :- EncodeLength(|data|, pos);
      Success(len + data)
    case VUnit => Success([])
    case VNewtype(inner) => Encode(inner, pos)
    case VSeq(announced, elems) =>
      if announced.None? then Failure(UnknownLength)
      else
        var len :- EncodeLength(announced.value, pos);
        var body :- EncodeAll(elems, |elems|, pos + |len|);
        Success(len + body)
    case VTuple(fields) => EncodeAll(fields, |fields|, pos)
    case VUnsupported(what) => Failure(Unsupported(what))
  }

  /** The bytes of the first n values, one after another. */
  function EncodeAll(vs: seq<Value>, n: nat, pos: nat): Result<seq<byte>, Error>
    requires n <= |vs|
    decreases vs, n
  {
    if n == 0 then Success([])
    else
      var before :- EncodeAll(vs, n - 1, pos);
      var last :- Encode(vs[n - 1], pos + |before|);
      Success(before + last)
  }

  // ----- Decoding -----

  /** An n-byte integer at the next multiple of n, and the position after it. */
  function DecodePrim(input: seq<byte>, pos: nat, n: nat, be: bool): (r: Result<(nat, nat), Error>)
    requires IsWidth(n)
    ensures r.Success? ==> pos < r.value.1 <= |input| && r.value.0 < Pow256(n)
  {
    var at := pos + Pad(pos, n);
    if at + n <= |input| then
      FromLeBound(if be then Reverse(input[at..at + n]) else input[at..at + n]);
      Success((FromBytes(input[at..at + n], be), at + n))
    else Failure(UnexpectedEof)
  }

  /** A length prefix, refused when it exceeds the bytes that remain. */
  function DecodeLength(input: seq<byte>, pos: nat, be: bool): (r: Result<(nat, nat), Error>)
    ensures r.Success? ==> pos < r.value.1 && r.value.1 + r.value.0 <= |input| && r.value.0 < Pow256(4)
  {
    var (len, at) :- DecodePrim(input, pos, 4, be);
    if len > |input| - at then Failure(UnexpectedEof) else Success((len, at))
  }

  function DecodeStr(input: seq<byte>, pos: nat, be: bool): (r: Result<(seq<byte>, nat), Error>)
    ensures r.Success? ==> pos < r.value.1 <= |input| && IsUtf8(r.value.0)
  {
    var (len, at) :- DecodeLength(input, pos, be);
    if len == 0 then Success(([], at))
    else
      var text := input[at..at + len - 1];
      if input[at + len - 1] != 0 then Failure(MissingNul)
      else if !IsUtf8(text) then Failure(InvalidUtf8)
      else Success((text, at + len))
  }

  /** The value of type s at pos and the position after it. */
  function Decode(s: Schema, input: seq<byte>, pos: nat, be: bool): (r: Result<(Value, nat), Error>)
    requires pos <= |input|
    ensures r.Success? ==> pos <= r.value.1 <= |input|
    decreases s, 1, 0
  {
    match s
    case SBool =>
      if pos == |input| then Failure(UnexpectedEof)
      else if input[pos] == 0 then Success((VBool(false), pos + 1))
      else if input[pos] == 1 then Success((VBool(true), pos + 1))
      else Failure(InvalidBool(input[pos]))
    case SPrim(p) =>
      var (bits, at) :- DecodePrim(input, pos, Width(p), be);
      Success((VPrim(p, bits), at))
    case SStr =>
      var (text, at) :- DecodeStr(input, pos, be);
      Success((VStr(text), at))
    case SBytes =>
      var (len, at) :- DecodeLength(input, pos, be);
      Success((VBytes(input[at..at + len]), at + len))
    case SUnit => Success((VUnit, pos))
    case SNewtype(inner) =>
      var (v, at) :- Decode(inner, input, pos, be);
      Success((VNewtype(v), at))
    case SSeq(_) =>
      var (len, at) :- DecodeLength(input, pos, be);
      var (vs, end) :- DecodeItems(s, len, input, at, be);
      Success((VSeq(Some(len), vs), end))
    case STuple(fields) =>
      var (vs, end) :- DecodeItems(s, |fields|, input, pos, be);
      Success((VTuple(vs), end))
    case SUnsupported(what) => Failure(Unsupported(what))
  }

  /** The first n items of a sequence or tuple, one after another. */
  function DecodeItems(s: Schema, n: nat, input: seq<byte>, pos: nat, be: bool): (r: Result<(seq<Value>, nat), Error>)
    requires pos <= |input| && HasItems(s, n)
    ensures r.Success? ==> |r.value.0| == n && pos <= r.value.1 <= |input|
    decreases s, 0, n
  {
    if n == 0 then Success(([], pos))
    else
      var (vs, at) :- DecodeItems(s, n - 1, input, pos, be);
      var (v, end) :- Decode(ItemType(s, n - 1), input, at, be);
      Success((vs + [v], end))
  }

  // ----- The encapsulated payload -----

  const HEADER_LEN: nat := 4
  const HEADER_LE: seq<byte> := [0x00, 0x01, 0x00, 0x00]

  /** The payload of v: the little-endian header and the body. */
  function ToVec(v: Value): Result<seq<byte>, Error> {
    var body :- Encode(v, 0);
    Success(HEADER_LE + body)
  }

  /** The value of type s in a payload; the header gives the byte order, trailing bytes are ignored. */
  function FromPayload(s: Schema, payload: seq<byte>): Result<Value, Error> {
    if |payload| < HEADER_LEN then Failure(UnexpectedEof)
    else if payload[0] != 0 || payload[1] > 1 then Failure(InvalidHeader(payload[0], payload[1]))
    else
      var (v, _) :- Decode(s, payload[HEADER_LEN..], 0, payload[1] == 0);
      Success(v)
  }
}
