/**
 The bytes on the wire, written out: what values encode to and decode from, in terms of byte
 positions and place values alone.
 */
module CdrWire {
  import opened Wrappers
  import opened Lists
  import opened Bytes
  import opened PlaceValues
  import opened Cdr

  // ----- Integers -----

  predicate Aligned(pos: nat, n: nat) {
    (n == 2 ==> pos % 2 == 0) && (n == 4 ==> pos % 4 == 0) && (n == 8 ==> pos % 8 == 0)
  }

  /** Fewer than n zeros up to a multiple of n, then the n bytes of the number, least significant first. */
  predicate IsNumber(bs: seq<byte>, pos: nat, n: nat, bits: nat) {
    && n <= |bs| < 2 * n && Aligned(pos + |bs| - n, n)
    && (forall k :: 0 <= k < |bs| - n ==> bs[k] == 0)
    && (forall k :: 0 <= k < n ==> bs[|bs| - n + k] == Octet(bits, k))
  }

  lemma PadIs(pos: nat, n: nat)
    requires IsWidth(n)
    ensures Pad(pos, n) < n && Aligned(pos + Pad(pos, n), n)
  {
    PadAligns(pos);
  }

  lemma NumberWire(n: nat, bits: nat, pos: nat)
    requires IsWidth(n)
    ensures IsNumber(EncodePrim(n, bits, pos), pos, n, bits)
  {
    PadIs(pos, n);
    forall k | 0 <= k < n
      ensures LeBytes(n, bits)[k] == Octet(bits, k)
    {
      LeBytesAre(n, bits, k);
    }
  }

  /** The value of a bool or a number, in the bytes its type has. */
  lemma PrimWire(p: Prim, bits: nat, pos: nat)
    ensures Encode(VPrim(p, bits), pos).Success?
    ensures var bs := Encode(VPrim(p, bits), pos).value;
      && (p == I8 || p == U8 ==> IsNumber(bs, pos, 1, bits))
      && (p == I16 || p == U16 ==> IsNumber(bs, pos, 2, bits))
      && (p == I32 || p == U32 || p == F32 ==> IsNumber(bs, pos, 4, bits))
      && (p == I64 || p == U64 || p == F64 ==> IsNumber(bs, pos, 8, bits))
  {
    NumberWire(Width(p), bits, pos);
  }

  /** Every bit pattern of a type's size is a value of it, and no other one is. */
  lemma PrimRange(p: Prim, q: Prim, bits: nat)
    ensures Has(SPrim(p), VPrim(q, bits)) ==> p == q
    ensures p == I8 || p == U8 ==> (Has(SPrim(p), VPrim(p, bits)) <==> bits < 0x100)
    ensures p == I16 || p == U16 ==> (Has(SPrim(p), VPrim(p, bits)) <==> bits < 0x1_0000)
    ensures p == I32 || p == U32 || p == F32 ==> (Has(SPrim(p), VPrim(p, bits)) <==> bits < 0x1_0000_0000)
    ensures p == I64 || p == U64 || p == F64 ==> (Has(SPrim(p), VPrim(p, bits)) <==> bits < 0x1_0000_0000_0000_0000)
  {
    PowValues();
  }

  // ----- Texts, bytes and lists -----

  /** A length in four bytes, then the tail; or no encoding, if the length needs more. */
  ghost predicate IsBlock(r: Result<seq<byte>, Error>, pos: nat, len: nat, tail: seq<byte>) {
    if len >= 0x1_0000_0000 then r == Failure(LengthOverflow)
    else
      && r.Success? && |r.value| >= |tail|
      && IsNumber(r.value[..|r.value| - |tail|], pos, 4, len) && r.value[|r.value| - |tail|..] == tail
  }

  lemma BlockWire(pos: nat, len: nat, tail: seq<byte>)
    ensures var prefix := EncodeLength(len, pos);
      IsBlock(if prefix.Success? then Success(prefix.value + tail) else prefix, pos, len, tail)
  {
    NumberWire(4, len, pos);
    var prefix := EncodePrim(4, len, pos);
    assert (prefix + tail)[..|prefix|] == prefix && (prefix + tail)[|prefix|..] == tail;
  }

  /** What values that are no list encode to. */
  lemma LeafWire(v: Value, pos: nat)
    ensures v.VBool? ==> Encode(v, pos) == Success([if v.b then 1 else 0])
    ensures v.VStr? ==> IsBlock(Encode(v, pos), pos, |v.text| + 1, v.text + [0])
    ensures v.VBytes? ==> IsBlock(Encode(v, pos), pos, |v.data|, v.data)
    ensures v.VUnit? ==> Encode(v, pos) == Success([])
    ensures v.VNewtype? ==> Encode(v, pos) == Encode(v.inner, pos)
    ensures v.VUnsupported? ==> Encode(v, pos) == Failure(Unsupported(v.what))
  {
    match v
    case VStr(text) =>
      BlockWire(pos, |text| + 1, text + [0]);
      if |text| + 1 < 0x1_0000_0000 {
        var prefix := EncodePrim(4, |text| + 1, pos);
        assert prefix + text + [0] == prefix + (text + [0]);
      }
    case VBytes(data) =>
      BlockWire(pos, |data|, data);
    case _ =>
  }

  /** Part i is the encoding of value i, where the part before it ends. */
  ghost predicate IsPart(vs: seq<Value>, pos: nat, parts: seq<seq<byte>>, i: nat)
    requires i < |parts| <= |vs|
  {
    Encode(vs[i], pos + |Flatten(parts, i)|) == Success(parts[i])
  }

  ghost predicate AreParts(vs: seq<Value>, pos: nat, parts: seq<seq<byte>>) {
    |parts| <= |vs| && forall i :: 0 <= i < |parts| ==> IsPart(vs, pos, parts, i)
  }

  /** The first n values encode to r, one after another; or the first that fails gives the error. */
  ghost predicate ListWire(r: Result<seq<byte>, Error>, vs: seq<Value>, n: nat, pos: nat, parts: seq<seq<byte>>) {
    && |parts| <= n <= |vs| && AreParts(vs, pos, parts)
    && if |parts| == n then r == Success(Flatten(parts, n))
      else r.Failure? && r == Encode(vs[|parts|], pos + |Flatten(parts, |parts|)|)
  }

  lemma {:induction false} ItemsWire(vs: seq<Value>, n: nat, pos: nat) returns (parts: seq<seq<byte>>)
    requires n <= |vs|
    ensures ListWire(EncodeAll(vs, n, pos), vs, n, pos, parts)
  {
    parts := [];
    if n > 0 {
      parts := ItemsWire(vs, n - 1, pos);
      var last := Encode(vs[n - 1], pos + |Flatten(parts, |parts|)|);
      if |parts| == n - 1 && last.Success? {
        MoreParts(vs, pos, parts, last.value);
        parts := parts + [last.value];
      }
    }
  }

  lemma {:induction false} MoreParts(vs: seq<Value>, pos: nat, parts: seq<seq<byte>>, last: seq<byte>)
    requires |parts| < |vs| && AreParts(vs, pos, parts)
    requires Encode(vs[|parts|], pos + |Flatten(parts, |parts|)|) == Success(last)
    ensures AreParts(vs, pos, parts + [last])
    ensures Flatten(parts + [last], |parts| + 1) == Flatten(parts, |parts|) + last
  {
    var all := parts + [last];
    FlattenPrefix(all, parts, |parts|);
    forall i | 0 <= i < |parts|
      ensures IsPart(vs, pos, all, i)
    {
      FlattenPrefix(all, parts, i);
      assert IsPart(vs, pos, parts, i);
    }
  }

  /** A tuple is its fields one after another. */
  lemma {:induction false} TupleWire(fields: seq<Value>, pos: nat) returns (parts: seq<seq<byte>>)
    ensures ListWire(Encode(VTuple(fields), pos), fields, |fields|, pos, parts)
  {
    parts := ItemsWire(fields, |fields|, pos);
  }

  /** r is the prefix and then the list. */
  ghost predicate PrefixedList(r: Result<seq<byte>, Error>, prefix: seq<byte>, vs: seq<Value>, pos: nat, parts: seq<seq<byte>>) {
    exists body :: r == Behind(prefix, body) && ListWire(body, vs, |vs|, pos, parts)
  }

  /** The bytes behind a prefix, if there are any. */
  function Behind(prefix: seq<byte>, body: Result<seq<byte>, Error>): Result<seq<byte>, Error> {
    if body.Success? then Success(prefix + body.value) else body
  }

  /** A sequence is its announced length in four bytes, then its elements one after another. */
  lemma {:induction false} SeqWire(announced: Option<nat>, elems: seq<Value>, pos: nat)
      returns (prefix: seq<byte>, parts: seq<seq<byte>>)
    ensures var r := Encode(VSeq(announced, elems), pos);
      if announced.None? then r == Failure(UnknownLength)
      else if announced.value >= 0x1_0000_0000 then r == Failure(LengthOverflow)
      else IsNumber(prefix, pos, 4, announced.value) && PrefixedList(r, prefix, elems, pos + |prefix|, parts)
  {
    prefix, parts := [], [];
    if announced.Some? && announced.value < 0x1_0000_0000 {
      prefix := EncodePrim(4, announced.value, pos);
      NumberWire(4, announced.value, pos);
      parts := ItemsWire(elems, |elems|, pos + |prefix|);
      SeqIs(announced.value, elems, pos, EncodeAll(elems, |elems|, pos + |prefix|));
    }
  }

  lemma {:induction false} SeqIs(len: nat, elems: seq<Value>, pos: nat, body: Result<seq<byte>, Error>)
    requires len < U32_END && body == EncodeAll(elems, |elems|, pos + |EncodePrim(4, len, pos)|)
    ensures Encode(VSeq(Some(len), elems), pos) == Behind(EncodePrim(4, len, pos), body)
  {
  }

  // ----- Reading -----

  /** at is the first multiple of n at or after pos. */
  predicate IsNext(pos: nat, n: nat, at: nat) {
    pos <= at < pos + n && Aligned(at, n)
  }

  /** What reading n bytes at pos comes to: their number and where they end, or the end of the input. */
  predicate ReadsNumber(r: Result<(nat, nat), Error>, bs: seq<byte>, pos: nat, n: nat, be: bool, at: nat)
    requires IsWidth(n)
  {
    && IsNext(pos, n, at)
    && r == if at + n <= |bs| then Success((NumberAt(bs, at, n, be), at + n)) else Failure(UnexpectedEof)
  }

  lemma NumberRead(bs: seq<byte>, pos: nat, n: nat, be: bool)
    requires IsWidth(n)
    ensures ReadsNumber(DecodePrim(bs, pos, n, be), bs, pos, n, be, pos + Pad(pos, n))
  {
    PadIs(pos, n);
    if pos + Pad(pos, n) + n <= |bs| {
      NumberIs(bs, pos + Pad(pos, n), n, be);
    }
  }

  /** How many bytes a type has. */
  ghost predicate HasSize(p: Prim, n: nat) {
    && (p == I8 || p == U8 ==> n == 1) && (p == I16 || p == U16 ==> n == 2)
    && (p == I32 || p == U32 || p == F32 ==> n == 4) && (p == I64 || p == U64 || p == F64 ==> n == 8)
  }

  /** A number is read from the bytes its type has, at the next multiple of their number. */
  lemma PrimRead(p: Prim, bs: seq<byte>, pos: nat, be: bool, n: nat) returns (at: nat)
    requires HasSize(p, n) && pos <= |bs|
    ensures IsWidth(n) && IsNext(pos, n, at)
    ensures Decode(SPrim(p), bs, pos, be) ==
      if at + n <= |bs| then Success((VPrim(p, NumberAt(bs, at, n, be)), at + n)) else Failure(UnexpectedEof)
  {
    NumberRead(bs, pos, n, be);
    at := pos + Pad(pos, n);
  }

  /** A bool is a byte zero or one. */
  lemma BoolRead(bs: seq<byte>, pos: nat, be: bool)
    requires pos <= |bs|
    ensures Decode(SBool, bs, pos, be) ==
      if pos == |bs| then Failure(UnexpectedEof)
      else if bs[pos] == 0 then Success((VBool(false), pos + 1))
      else if bs[pos] == 1 then Success((VBool(true), pos + 1))
      else Failure(InvalidBool(bs[pos]))
  {
  }

  /** What reading a text comes to, when its length is read up to at: a NUL ends it, and it is UTF-8. */
  predicate ReadsText(r: Result<(Value, nat), Error>, bs: seq<byte>, at: nat, len: nat) {
    if at + len > |bs| then r == Failure(UnexpectedEof)
    else if len == 0 then r == Success((VStr([]), at))
    else if bs[at + len - 1] != 0 then r == Failure(MissingNul)
    else if !IsUtf8(bs[at..at + len - 1]) then r == Failure(InvalidUtf8)
    else r == Success((VStr(bs[at..at + len - 1]), at + len))
  }

  /** A length: four bytes, and no more than the bytes behind them. */
  predicate ReadsLength(r: Result<(nat, nat), Error>, bs: seq<byte>, pos: nat, be: bool, at: nat) {
    && IsNext(pos, 4, at)
    && r == if at + 4 <= |bs| && NumberAt(bs, at, 4, be) <= |bs| - at - 4 then Success((NumberAt(bs, at, 4, be), at + 4))
      else Failure(UnexpectedEof)
  }

  lemma LengthRead(bs: seq<byte>, pos: nat, be: bool)
    ensures ReadsLength(DecodeLength(bs, pos, be), bs, pos, be, pos + Pad(pos, 4))
  {
    NumberRead(bs, pos, 4, be);
  }

  /** Without a length there is no text, no byte string and no sequence. */
  lemma NoLength(elem: Schema, bs: seq<byte>, pos: nat, be: bool)
    requires pos <= |bs| && DecodeLength(bs, pos, be) == Failure(UnexpectedEof)
    ensures Decode(SStr, bs, pos, be) == Failure(UnexpectedEof)
    ensures Decode(SBytes, bs, pos, be) == Failure(UnexpectedEof)
    ensures Decode(SSeq(elem), bs, pos, be) == Failure(UnexpectedEof)
  {
  }

  lemma TextFrom(bs: seq<byte>, pos: nat, be: bool, len: nat, at: nat)
    requires pos <= |bs| && DecodeLength(bs, pos, be) == Success((len, at))
    ensures ReadsText(Decode(SStr, bs, pos, be), bs, at, len)
  {
  }

  lemma SeqFrom(elem: Schema, bs: seq<byte>, pos: nat, be: bool, len: nat, at: nat)
    requires pos <= |bs| && DecodeLength(bs, pos, be) == Success((len, at))
    ensures Decode(SSeq(elem), bs, pos, be) == AsSeq(len, DecodeItems(SSeq(elem), len, bs, at, be))
  {
  }

  function AsSeq(n: nat, items: Result<(seq<Value>, nat), Error>): Result<(Value, nat), Error> {
    if items.Success? then Success((VSeq(Some(n), items.value.0), items.value.1)) else Failure(items.error)
  }

  function AsTuple(items: Result<(seq<Value>, nat), Error>): Result<(Value, nat), Error> {
    if items.Success? then Success((VTuple(items.value.0), items.value.1)) else Failure(items.error)
  }

  /** A text: a length in four bytes, then as many bytes, of which the last is NUL. */
  lemma TextRead(bs: seq<byte>, pos: nat, be: bool) returns (at: nat)
    requires pos <= |bs|
    ensures IsNext(pos, 4, at)
    ensures if at + 4 > |bs| then Decode(SStr, bs, pos, be) == Failure(UnexpectedEof)
      else ReadsText(Decode(SStr, bs, pos, be), bs, at + 4, NumberAt(bs, at, 4, be))
  {
    LengthRead(bs, pos, be);
    at := pos + Pad(pos, 4);
    var len := DecodeLength(bs, pos, be);
    if len.Success? {
      TextFrom(bs, pos, be, len.value.0, len.value.1);
    } else {
      NoLength(SUnit, bs, pos, be);
    }
  }

  /** A byte string: a length in four bytes, then as many bytes. */
  lemma BytesRead(bs: seq<byte>, pos: nat, be: bool) returns (at: nat)
    requires pos <= |bs|
    ensures IsNext(pos, 4, at)
    ensures at + 4 > |bs| || at + 4 + NumberAt(bs, at, 4, be) > |bs| ==> Decode(SBytes, bs, pos, be) == Failure(UnexpectedEof)
    ensures at + 4 <= |bs| && at + 4 + NumberAt(bs, at, 4, be) <= |bs| ==>
      var end := at + 4 + NumberAt(bs, at, 4, be);
      Decode(SBytes, bs, pos, be) == Success((VBytes(bs[at + 4..end]), end))
  {
    LengthRead(bs, pos, be);
    at := pos + Pad(pos, 4);
  }

  /** Units and newtypes take no bytes of their own; what has no form is refused. */
  lemma WrapRead(inner: Schema, what: string, bs: seq<byte>, pos: nat, be: bool)
    requires pos <= |bs|
    ensures Decode(SUnit, bs, pos, be) == Success((VUnit, pos))
    ensures Decode(SUnsupported(what), bs, pos, be) == Failure(Unsupported(what))
    ensures var r := Decode(inner, bs, pos, be);
      Decode(SNewtype(inner), bs, pos, be) == if r.Success? then Success((VNewtype(r.value.0), r.value.1)) else Failure(r.error)
  {
  }

  /** Item i is read where the one before it ends. */
  ghost predicate ItemRead(s: Schema, bs: seq<byte>, be: bool, vs: seq<Value>, ends: seq<nat>, i: nat)
    requires HasItems(s, |vs|) && i < |vs| && |ends| == |vs| + 1
  {
    ends[i] <= |bs| && Decode(ItemType(s, i), bs, ends[i], be) == Success((vs[i], ends[i + 1]))
  }

  /** The first n items are read one after another; or the first that fails gives the error. */
  ghost predicate ItemsRead(r: Result<(seq<Value>, nat), Error>, s: Schema, n: nat, bs: seq<byte>, pos: nat, be: bool,
      vs: seq<Value>, ends: seq<nat>) {
    && HasItems(s, n) && |vs| <= n && |ends| == |vs| + 1 && ends[0] == pos && ends[|vs|] <= |bs|
    && (forall i :: 0 <= i < |vs| ==> ItemRead(s, bs, be, vs, ends, i))
    && if |vs| == n then r == Success((vs, ends[n]))
      else
        var item := Decode(ItemType(s, |vs|), bs, ends[|vs|], be);
        item.Failure? && r == Failure(item.error)
  }

  lemma {:induction false} ItemsAre(s: Schema, n: nat, bs: seq<byte>, pos: nat, be: bool)
      returns (vs: seq<Value>, ends: seq<nat>)
    requires HasItems(s, n) && pos <= |bs|
    ensures ItemsRead(DecodeItems(s, n, bs, pos, be), s, n, bs, pos, be, vs, ends)
  {
    vs, ends := [], [pos];
    if n > 0 {
      vs, ends := ItemsAre(s, n - 1, bs, pos, be);
      if |vs| == n - 1 {
        var item := Decode(ItemType(s, n - 1), bs, ends[n - 1], be);
        if item.Success? {
          MoreItems(s, bs, be, vs, ends, item.value.0, item.value.1);
          vs, ends := vs + [item.value.0], ends + [item.value.1];
        }
      }
    }
  }

  lemma {:induction false} MoreItems(s: Schema, bs: seq<byte>, be: bool, vs: seq<Value>, ends: seq<nat>, v: Value, end: nat)
    requires HasItems(s, |vs| + 1) && |ends| == |vs| + 1 && ends[|vs|] <= |bs|
    requires forall i :: 0 <= i < |vs| ==> ItemRead(s, bs, be, vs, ends, i)
    requires Decode(ItemType(s, |vs|), bs, ends[|vs|], be) == Success((v, end))
    ensures forall i :: 0 <= i <= |vs| ==> ItemRead(s, bs, be, vs + [v], ends + [end], i)
  {
    forall i | 0 <= i <= |vs|
      ensures ItemRead(s, bs, be, vs + [v], ends + [end], i)
    {
      assert i < |vs| ==> ItemRead(s, bs, be, vs, ends, i);
    }
  }

  /** A tuple's fields are read one after another. */
  lemma {:induction false} TupleRead(fields: seq<Schema>, bs: seq<byte>, pos: nat, be: bool)
      returns (vs: seq<Value>, ends: seq<nat>)
    requires pos <= |bs|
    ensures exists items ::
      && ItemsRead(items, STuple(fields), |fields|, bs, pos, be, vs, ends)
      && Decode(STuple(fields), bs, pos, be) == AsTuple(items)
  {
    vs, ends := ItemsAre(STuple(fields), |fields|, bs, pos, be);
    assert ItemsRead(DecodeItems(STuple(fields), |fields|, bs, pos, be), STuple(fields), |fields|, bs, pos, be, vs, ends);
  }

  /** A sequence's count is read from four bytes and must not exceed the bytes left; then its elements. */
  lemma {:induction false} SeqRead(elem: Schema, bs: seq<byte>, pos: nat, be: bool)
      returns (at: nat, vs: seq<Value>, ends: seq<nat>)
    requires pos <= |bs|
    ensures IsNext(pos, 4, at)
    ensures at + 4 > |bs| || at + 4 + NumberAt(bs, at, 4, be) > |bs| ==>
      Decode(SSeq(elem), bs, pos, be) == Failure(UnexpectedEof)
    ensures at + 4 <= |bs| && at + 4 + NumberAt(bs, at, 4, be) <= |bs| ==>
      SeqIsRead(elem, bs, pos, be, at + 4, NumberAt(bs, at, 4, be), vs, ends)
  {
    LengthRead(bs, pos, be);
    at := pos + Pad(pos, 4);
    vs, ends := [], [];
    var len := DecodeLength(bs, pos, be);
    if len.Success? {
      var n := len.value.0;
      vs, ends := ItemsAre(SSeq(elem), n, bs, at + 4, be);
      SeqFrom(elem, bs, pos, be, n, at + 4);
      assert ItemsRead(DecodeItems(SSeq(elem), n, bs, at + 4, be), SSeq(elem), n, bs, at + 4, be, vs, ends);
    } else {
      NoLength(elem, bs, pos, be);
    }
  }

  /** n elements are read one after another from at on. */
  ghost predicate SeqIsRead(elem: Schema, bs: seq<byte>, pos: nat, be: bool, at: nat, n: nat, vs: seq<Value>, ends: seq<nat>)
    requires pos <= |bs|
  {
    exists items ::
      && ItemsRead(items, SSeq(elem), n, bs, at, be, vs, ends)
      && Decode(SSeq(elem), bs, pos, be) == AsSeq(n, items)
  }

  // ----- Payloads -----

  /** A payload is four bytes, 00 01 00 00, and the body encoded from position zero. */
  lemma PayloadWire(v: Value)
    ensures ToVec(v) == Behind([0, 1, 0, 0], Encode(v, 0))
  {
  }

  /** The first two bytes give the byte order: 00 01 little-endian, 00 00 big-endian; four bytes are skipped. */
  lemma PayloadRead(s: Schema, payload: seq<byte>)
    ensures FromPayload(s, payload) ==
      if |payload| < 4 then Failure(UnexpectedEof)
      else if payload[..2] == [0, 1] || payload[..2] == [0, 0] then
        var r := Decode(s, payload[4..], 0, payload[..2] == [0, 0]);
        if r.Success? then Success(r.value.0) else Failure(r.error)
      else Failure(InvalidHeader(payload[0], payload[1]))
  {
    if |payload| >= 4 {
      assert payload[..2] == [payload[0], payload[1]];
    }
  }

}
