/**
 Decoding what was encoded. The decoder refuses a count larger than the bytes that remain, so a
 sequence of elements that take no bytes may not come back; CountsFit says exactly when it does.
 */
module CdrRoundTrip {
  import opened Wrappers
  import opened Bytes
  import opened Cdr

  /** part stands in input at pos. */
  ghost predicate At(input: seq<byte>, pos: nat, part: seq<byte>) {
    pos + |part| <= |input| && input[pos..pos + |part|] == part
  }

  lemma AtSplit(input: seq<byte>, pos: nat, a: seq<byte>, b: seq<byte>)
    requires At(input, pos, a + b)
    ensures At(input, pos, a) && At(input, pos + |a|, b)
  {
    var ab := input[pos..pos + |a| + |b|];
    assert ab[..|a|] == a && ab[|a|..] == b;
    assert input[pos..pos + |a|] == ab[..|a|];
    assert input[pos + |a|..pos + |a| + |b|] == ab[|a|..];
  }

  /** Every sequence in v has at most as many elements as bytes remain after its count, up to end. */
  ghost predicate CountsFit(v: Value, pos: nat, end: nat)
    requires Encode(v, pos).Success?
    decreases v, 0
  {
    match v
    case VNewtype(inner) => CountsFit(inner, pos, end)
    case VSeq(announced, elems) =>
      var at := pos + |EncodeLength(announced.value, pos).value|;
      at + |elems| <= end && AllFit(elems, |elems|, at, end)
    case VTuple(fields) => AllFit(fields, |fields|, pos, end)
    case _ => true
  }

  ghost predicate AllFit(vs: seq<Value>, n: nat, pos: nat, end: nat)
    requires n <= |vs| && EncodeAll(vs, n, pos).Success?
    decreases vs, n
  {
    n == 0 || (AllFit(vs, n - 1, pos, end) && CountsFit(vs[n - 1], pos + |EncodeAll(vs, n - 1, pos).value|, end))
  }

  /** The first n values are decoded from pos up to end, or else the input ends too soon. */
  ghost predicate ItemsBack(s: Schema, vs: seq<Value>, n: nat, input: seq<byte>, pos: nat, end: nat, fit: bool)
    requires n <= |vs| && HasItems(s, n) && pos <= |input|
  {
    DecodeItems(s, n, input, pos, false) == if fit then Success((vs[..n], end)) else Failure(UnexpectedEof)
  }

  /** v is decoded from at up to end, or else the input ends too soon. */
  ghost predicate Back(s: Schema, v: Value, input: seq<byte>, at: nat, end: nat, fit: bool)
    requires at <= |input|
  {
    Decode(s, input, at, false) == if fit then Success((v, end)) else Failure(UnexpectedEof)
  }

  /** What is decoded where v was encoded. */
  ghost predicate ItemBack(s: Schema, v: Value, input: seq<byte>, at: nat)
    requires Encode(v, at).Success? && at <= |input|
  {
    Back(s, v, input, at, at + |Encode(v, at).value|, CountsFit(v, at, |input|))
  }

  lemma PrimAt(n: nat, bits: nat, input: seq<byte>, pos: nat)
    requires IsWidth(n) && bits < Pow256(n) && At(input, pos, EncodePrim(n, bits, pos))
    ensures DecodePrim(input, pos, n, false) == Success((bits, pos + |EncodePrim(n, bits, pos)|))
  {
    AtSplit(input, pos, Zeros(Pad(pos, n)), LeBytes(n, bits));
    LeRoundTrip(n, bits);
  }

  lemma LengthAt(len: nat, input: seq<byte>, pos: nat)
    requires EncodeLength(len, pos).Success? && At(input, pos, EncodeLength(len, pos).value)
    ensures var at := pos + |EncodeLength(len, pos).value|;
      DecodeLength(input, pos, false) == if at + len <= |input| then Success((len, at)) else Failure(UnexpectedEof)
  {
    PowValues();
    PrimAt(4, len, input, pos);
  }

  /** A length prefix and the bytes it announces. */
  lemma PrefixedAt(len: nat, body: seq<byte>, input: seq<byte>, pos: nat)
    requires EncodeLength(len, pos).Success? && At(input, pos, EncodeLength(len, pos).value + body)
    ensures var at := pos + |EncodeLength(len, pos).value|;
      && At(input, at, body)
      && DecodeLength(input, pos, false) == if at + len <= |input| then Success((len, at)) else Failure(UnexpectedEof)
  {
    AtSplit(input, pos, EncodeLength(len, pos).value, body);
    LengthAt(len, input, pos);
  }

  lemma StrEncoding(text: seq<byte>, pos: nat)
    requires Encode(VStr(text), pos).Success?
    ensures EncodeLength(|text| + 1, pos).Success?
    ensures Encode(VStr(text), pos).value == EncodeLength(|text| + 1, pos).value + (text + [0])
  {
    var len := EncodeLength(|text| + 1, pos).value;
    assert len + text + [0] == len + (text + [0]);
  }

  lemma StrRoundTrip(text: seq<byte>, input: seq<byte>, pos: nat)
    requires IsUtf8(text) && Encode(VStr(text), pos).Success? && At(input, pos, Encode(VStr(text), pos).value)
    ensures Decode(SStr, input, pos, false) == Success((VStr(text), pos + |Encode(VStr(text), pos).value|))
  {
    StrEncoding(text, pos);
    PrefixedAt(|text| + 1, text + [0], input, pos);
    TextAt(text, input, pos, pos + |EncodeLength(|text| + 1, pos).value|);
  }

  lemma TextAt(text: seq<byte>, input: seq<byte>, pos: nat, at: nat)
    requires IsUtf8(text) && DecodeLength(input, pos, false) == Success((|text| + 1, at)) && At(input, at, text + [0])
    ensures DecodeStr(input, pos, false) == Success((text, at + |text| + 1))
  {
    AtSplit(input, at, text, [0]);
    var nul := input[at + |text|..at + |text| + 1];
    assert nul == [0] && nul[0] == input[at + |text|];
  }

  lemma BytesRoundTrip(data: seq<byte>, input: seq<byte>, pos: nat)
    requires Encode(VBytes(data), pos).Success? && At(input, pos, Encode(VBytes(data), pos).value)
    ensures Decode(SBytes, input, pos, false) == Success((VBytes(data), pos + |Encode(VBytes(data), pos).value|))
  {
    PrefixedAt(|data|, data, input, pos);
  }

  lemma BoolRoundTrip(b: bool, input: seq<byte>, pos: nat)
    requires At(input, pos, [if b then 1 else 0])
    ensures ItemBack(SBool, VBool(b), input, pos)
  {
    assert input[pos..pos + 1][0] == input[pos];
  }

  lemma PrimRoundTrip(p: Prim, bits: nat, input: seq<byte>, pos: nat)
    requires InRange(p, bits) && At(input, pos, EncodePrim(Width(p), bits, pos))
    ensures ItemBack(SPrim(p), VPrim(p, bits), input, pos)
  {
    PrimAt(Width(p), bits, input, pos);
  }

  lemma LeafRoundTrip(s: Schema, v: Value, input: seq<byte>, pos: nat)
    requires !v.VNewtype? && !v.VSeq? && !v.VTuple?
    requires Has(s, v) && Encode(v, pos).Success? && At(input, pos, Encode(v, pos).value)
    ensures ItemBack(s, v, input, pos)
  {
    match v
    case VBool(b) =>
      BoolRoundTrip(b, input, pos);
    case VPrim(p, bits) =>
      PrimRoundTrip(p, bits, input, pos);
    case VStr(text) =>
      StrRoundTrip(text, input, pos);
    case VBytes(data) =>
      BytesRoundTrip(data, input, pos);
    case VUnit =>
  }

  /**
   What is decoded where v was encoded: v itself if the counts fit, the end-of-input error
   otherwise.
   */
  lemma {:induction false} RoundTripAt(s: Schema, v: Value, input: seq<byte>, pos: nat)
    requires Has(s, v) && Encode(v, pos).Success? && At(input, pos, Encode(v, pos).value)
    ensures ItemBack(s, v, input, pos)
    decreases v, 0
  {
    if v.VNewtype? {
      RoundTripAt(s.inner, v.inner, input, pos);
    } else if v.VSeq? {
      RoundTripSeq(s, v.elems, input, pos);
    } else if v.VTuple? {
      RoundTripItems(s, v.fields, |v.fields|, input, pos);
      assert v.fields[..|v.fields|] == v.fields;
    } else {
      LeafRoundTrip(s, v, input, pos);
    }
  }

  lemma {:induction false} RoundTripSeq(s: Schema, elems: seq<Value>, input: seq<byte>, pos: nat)
    requires s.SSeq? && HasAll(s, elems, |elems|)
    requires var v := VSeq(Some(|elems|), elems); Encode(v, pos).Success? && At(input, pos, Encode(v, pos).value)
    ensures ItemBack(s, VSeq(Some(|elems|), elems), input, pos)
    decreases elems, |elems| + 1
  {
    SeqEncoding(elems, pos);
    var at := pos + |EncodeLength(|elems|, pos).value|;
    var body := EncodeAll(elems, |elems|, at).value;
    PrefixedAt(|elems|, body, input, pos);
    RoundTripItems(s, elems, |elems|, input, at);
    assert elems[..|elems|] == elems;
    DecodeSeq(s, elems, input, pos, at, at + |body|, AllFit(elems, |elems|, at, |input|));
  }

  /** The bytes of a sequence: its count, then its elements. */
  lemma {:induction false} SeqEncoding(elems: seq<Value>, pos: nat)
    requires Encode(VSeq(Some(|elems|), elems), pos).Success?
    ensures EncodeLength(|elems|, pos).Success?
    ensures var len := EncodeLength(|elems|, pos).value;
      && EncodeAll(elems, |elems|, pos + |len|).Success?
      && Encode(VSeq(Some(|elems|), elems), pos).value == len + EncodeAll(elems, |elems|, pos + |len|).value
  {
  }

  /** A sequence decodes once its count is accepted and its elements do. */
  lemma {:induction false} DecodeSeq(s: Schema, elems: seq<Value>, input: seq<byte>, pos: nat, at: nat, end: nat, fits: bool)
    requires s.SSeq? && pos <= |input| && at <= |input|
    requires DecodeLength(input, pos, false) ==
      if at + |elems| <= |input| then Success((|elems|, at)) else Failure(UnexpectedEof)
    requires DecodeItems(s, |elems|, input, at, false) == if fits then Success((elems, end)) else Failure(UnexpectedEof)
    ensures Decode(s, input, pos, false) ==
      if at + |elems| <= |input| && fits then Success((VSeq(Some(|elems|), elems), end)) else Failure(UnexpectedEof)
  {
  }

  /** The last item after the ones before it. */
  lemma {:induction false} DecodeItemsLast(s: Schema, vs: seq<Value>, n: nat, input: seq<byte>, pos: nat,
      at: nat, end: nat, fitsBefore: bool, fitsLast: bool)
    requires 0 < n <= |vs| && HasItems(s, n) && pos <= at <= |input|
    requires ItemsBack(s, vs, n - 1, input, pos, at, fitsBefore)
    requires Back(ItemType(s, n - 1), vs[n - 1], input, at, end, fitsLast)
    ensures ItemsBack(s, vs, n, input, pos, end, fitsBefore && fitsLast)
  {
    assert vs[..n] == vs[..n - 1] + [vs[n - 1]];
  }

  /** The bytes of a list: those of its first values, then the last one's. */
  lemma {:induction false} ItemsEncoding(vs: seq<Value>, n: nat, pos: nat)
    requires 0 < n <= |vs| && EncodeAll(vs, n, pos).Success?
    ensures EncodeAll(vs, n - 1, pos).Success?
    ensures var at := pos + |EncodeAll(vs, n - 1, pos).value|;
      && Encode(vs[n - 1], at).Success?
      && EncodeAll(vs, n, pos).value == EncodeAll(vs, n - 1, pos).value + Encode(vs[n - 1], at).value
  {
  }

  lemma {:induction false} AllFitStep(vs: seq<Value>, n: nat, pos: nat, at: nat, end: nat)
    requires 0 < n <= |vs| && EncodeAll(vs, n, pos).Success? && at == pos + |EncodeAll(vs, n - 1, pos).value|
    ensures AllFit(vs, n, pos, end) == (AllFit(vs, n - 1, pos, end) && CountsFit(vs[n - 1], at, end))
  {
  }

  lemma {:induction false} RoundTripItems(s: Schema, vs: seq<Value>, n: nat, input: seq<byte>, pos: nat)
    requires n <= |vs| && HasItems(s, n) && HasAll(s, vs, n)
    requires EncodeAll(vs, n, pos).Success? && At(input, pos, EncodeAll(vs, n, pos).value)
    ensures ItemsBack(s, vs, n, input, pos, pos + |EncodeAll(vs, n, pos).value|, AllFit(vs, n, pos, |input|))
    decreases vs, n
  {
    if n == 0 {
      assert vs[..0] == [];
    } else {
      ItemsEncoding(vs, n, pos);
      var before := EncodeAll(vs, n - 1, pos).value;
      var at := pos + |before|;
      var item := Encode(vs[n - 1], at).value;
      AtSplit(input, pos, before, item);
      RoundTripItems(s, vs, n - 1, input, pos);
      RoundTripAt(ItemType(s, n - 1), vs[n - 1], input, at);
      AllFitStep(vs, n, pos, at, |input|);
      DecodeItemsLast(s, vs, n, input, pos, at, at + |item|,
        AllFit(vs, n - 1, pos, |input|), CountsFit(vs[n - 1], at, |input|));
    }
  }

  // ----- Which types always come back -----

  /** Every value of the type takes at least one byte. */
  predicate TakesBytes(s: Schema)
    decreases s
  {
    match s
    case SUnit => false
    case SNewtype(inner) => TakesBytes(inner)
    case STuple(fields) => exists i :: 0 <= i < |fields| && TakesBytes(fields[i])
    case SUnsupported(_) => false
    case _ => true
  }

  /** Every sequence in the type has elements that take at least one byte. */
  predicate ElementsTakeBytes(s: Schema)
    decreases s
  {
    match s
    case SNewtype(inner) => ElementsTakeBytes(inner)
    case SSeq(elem) => TakesBytes(elem) && ElementsTakeBytes(elem)
    case STuple(fields) => forall i :: 0 <= i < |fields| ==> ElementsTakeBytes(fields[i])
    case _ => true
  }

  lemma {:induction false} TakesBytesGrows(s: Schema, v: Value, pos: nat)
    requires TakesBytes(s) && Has(s, v) && Encode(v, pos).Success?
    ensures |Encode(v, pos).value| >= 1
    decreases s
  {
    match v
    case VNewtype(inner) =>
      TakesBytesGrows(s.inner, inner, pos);
    case VTuple(fields) =>
      var i :| 0 <= i < |fields| && TakesBytes(s.fields[i]);
      PartLength(fields, i, |fields|, pos);
      HasAllAt(s, fields, |fields|, i);
      TakesBytesGrows(s.fields[i], fields[i], pos + |EncodeAll(fields, i, pos).value|);
    case _ =>
  }

  /** The encoding of a list is at least as long as that of its first values and the next one. */
  lemma {:induction false} PartLength(vs: seq<Value>, i: nat, n: nat, pos: nat)
    requires i < n <= |vs| && EncodeAll(vs, n, pos).Success?
    ensures EncodeAll(vs, i, pos).Success?
    ensures Encode(vs[i], pos + |EncodeAll(vs, i, pos).value|).Success?
    ensures |EncodeAll(vs, i, pos).value| + |Encode(vs[i], pos + |EncodeAll(vs, i, pos).value|).value|
      <= |EncodeAll(vs, n, pos).value|
    decreases n
  {
    if i < n - 1 {
      PartLength(vs, i, n - 1, pos);
    }
  }

  /** With such elements every count fits, whatever follows the encoding. */
  lemma {:induction false} ElementsTakeBytesFit(s: Schema, v: Value, pos: nat, end: nat)
    requires ElementsTakeBytes(s) && Has(s, v) && Encode(v, pos).Success? && pos + |Encode(v, pos).value| <= end
    ensures CountsFit(v, pos, end)
    decreases v, 0
  {
    match v
    case VNewtype(inner) =>
      ElementsTakeBytesFit(s.inner, inner, pos, end);
    case VSeq(announced, elems) =>
      var at := pos + |EncodeLength(announced.value, pos).value|;
      AllTakeBytesFit(s, elems, |elems|, at, end);
      CountBelowLength(s, elems, |elems|, at);
    case VTuple(fields) =>
      AllTakeBytesFit(s, fields, |fields|, pos, end);
    case _ =>
  }

  lemma {:induction false} AllTakeBytesFit(s: Schema, vs: seq<Value>, n: nat, pos: nat, end: nat)
    requires n <= |vs| && HasItems(s, n) && HasAll(s, vs, n) && ElementsTakeBytes(s)
    requires EncodeAll(vs, n, pos).Success? && pos + |EncodeAll(vs, n, pos).value| <= end
    ensures AllFit(vs, n, pos, end)
    decreases vs, n
  {
    if n > 0 {
      AllTakeBytesFit(s, vs, n - 1, pos, end);
      ElementsTakeBytesFit(ItemType(s, n - 1), vs[n - 1], pos + |EncodeAll(vs, n - 1, pos).value|, end);
    }
  }

  lemma {:induction false} CountBelowLength(s: Schema, vs: seq<Value>, n: nat, pos: nat)
    requires s.SSeq? && TakesBytes(s.elem) && n <= |vs| && HasAll(s, vs, n)
    requires EncodeAll(vs, n, pos).Success?
    ensures n <= |EncodeAll(vs, n, pos).value|
    decreases n
  {
    if n > 0 {
      CountBelowLength(s, vs, n - 1, pos);
      TakesBytesGrows(s.elem, vs[n - 1], pos + |EncodeAll(vs, n - 1, pos).value|);
    }
  }

  // ----- The payload laws -----

  /** A payload followed by any bytes decodes to its value exactly when the counts fit. */
  lemma PayloadRoundTripIff(s: Schema, v: Value, trailing: seq<byte>)
    requires Has(s, v) && ToVec(v).Success?
    ensures FromPayload(s, ToVec(v).value + trailing) ==
      if CountsFit(v, 0, |ToVec(v).value + trailing| - HEADER_LEN) then Success(v) else Failure(UnexpectedEof)
  {
    var body := Encode(v, 0).value;
    var payload := ToVec(v).value + trailing;
    assert payload[HEADER_LEN..] == body + trailing;
    assert (body + trailing)[0..|body|] == body;
    RoundTripAt(s, v, body + trailing, 0);
  }

  /** When no sequence has elements without bytes, every value comes back. */
  lemma PayloadRoundTrip(s: Schema, v: Value, trailing: seq<byte>)
    requires ElementsTakeBytes(s) && Has(s, v) && ToVec(v).Success?
    ensures FromPayload(s, ToVec(v).value + trailing) == Success(v)
  {
    PayloadRoundTripIff(s, v, trailing);
    ElementsTakeBytesFit(s, v, 0, |ToVec(v).value + trailing| - HEADER_LEN);
  }

  /** A list of five unit values is encoded but refused on the way back. */
  lemma UnitListIsLost()
    ensures var v := VSeq(Some(5), [VUnit, VUnit, VUnit, VUnit, VUnit]);
      Has(SSeq(SUnit), v) && ToVec(v).Success? && FromPayload(SSeq(SUnit), ToVec(v).value) == Failure(UnexpectedEof)
  {
    var elems := [VUnit, VUnit, VUnit, VUnit, VUnit];
    var v := VSeq(Some(5), elems);
    UnitsTakeNothing(elems, 5, 4);
    assert Pad(0, 4) == 0;
    assert |EncodeLength(5, 0).value| == 4;
    assert ToVec(v).value + [] == ToVec(v).value;
    PayloadRoundTripIff(SSeq(SUnit), v, []);
  }

  lemma {:induction false} UnitsTakeNothing(vs: seq<Value>, n: nat, pos: nat)
    requires n <= |vs| && forall i :: 0 <= i < |vs| ==> vs[i] == VUnit
    ensures EncodeAll(vs, n, pos).Success? && EncodeAll(vs, n, pos).value == []
  {
    if n > 0 {
      UnitsTakeNothing(vs, n - 1, pos);
    }
  }

  // ----- Where encodings end -----

  lemma {:induction false} FitsEventually(v: Value, pos: nat) returns (end: nat)
    requires Encode(v, pos).Success?
    ensures forall e :: e >= end ==> CountsFit(v, pos, e)
    decreases v, 0
  {
    end := 0;
    match v
    case VNewtype(inner) =>
      end := FitsEventually(inner, pos);
    case VSeq(announced, elems) =>
      var at := pos + |EncodeLength(announced.value, pos).value|;
      end := AllFitEventually(elems, |elems|, at);
      end := if end > at + |elems| then end else at + |elems|;
    case VTuple(fields) =>
      end := AllFitEventually(fields, |fields|, pos);
    case _ =>
  }

  lemma {:induction false} AllFitEventually(vs: seq<Value>, n: nat, pos: nat) returns (end: nat)
    requires n <= |vs| && EncodeAll(vs, n, pos).Success?
    ensures forall e :: e >= end ==> AllFit(vs, n, pos, e)
    decreases vs, n
  {
    if n == 0 {
      end := 0;
    } else {
      var a := AllFitEventually(vs, n - 1, pos);
      var b := FitsEventually(vs[n - 1], pos + |EncodeAll(vs, n - 1, pos).value|);
      end := if a > b then a else b;
    }
  }

  /** No value's encoding is a prefix of another's, for values of one type. */
  lemma PrefixFree(s: Schema, v: Value, w: Value, pos: nat, more: seq<byte>)
    requires Has(s, v) && Has(s, w) && Encode(v, pos).Success? && Encode(w, pos).Success?
    requires Encode(w, pos).value == Encode(v, pos).value + more
    ensures v == w && more == []
  {
    var a := FitsEventually(v, pos);
    var b := FitsEventually(w, pos);
    var enc := Encode(w, pos).value;
    var input := Zeros(pos) + enc + Zeros(a + b);
    assert input[pos..pos + |enc|] == enc;
    AtSplit(input, pos, Encode(v, pos).value, more);
    RoundTripAt(s, v, input, pos);
    RoundTripAt(s, w, input, pos);
  }

  lemma LengthShift(len: nat, p: nat, q: nat)
    requires SamePads(p, q)
    ensures EncodeLength(len, p) == EncodeLength(len, q)
  {
  }

  lemma PrimShift(prim: Prim, bits: nat, p: nat, q: nat)
    requires SamePads(p, q)
    ensures EncodePrim(Width(prim), bits, p) == EncodePrim(Width(prim), bits, q)
  {
  }

  lemma {:induction false} EncodeFurther(v: Value, p: nat, k: nat)
    ensures Encode(v, p + 8 * k) == Encode(v, p)
    decreases v, 0
  {
    PadPeriod(p, k);
    match v
    case VPrim(prim, bits) =>
      PrimShift(prim, bits, p + 8 * k, p);
    case VStr(text) =>
      LengthShift(|text| + 1, p + 8 * k, p);
    case VBytes(data) =>
      LengthShift(|data|, p + 8 * k, p);
    case VNewtype(inner) =>
      EncodeFurther(inner, p, k);
    case VSeq(announced, elems) =>
      if announced.Some? && EncodeLength(announced.value, p).Success? {
        LengthShift(announced.value, p + 8 * k, p);
        EncodeAllFurther(elems, |elems|, p + |EncodeLength(announced.value, p).value|, k);
      }
    case VTuple(fields) =>
      EncodeAllFurther(fields, |fields|, p, k);
    case _ =>
  }

  lemma {:induction false} EncodeAllFurther(vs: seq<Value>, n: nat, p: nat, k: nat)
    requires n <= |vs|
    ensures EncodeAll(vs, n, p + 8 * k) == EncodeAll(vs, n, p)
    decreases vs, n
  {
    if n > 0 {
      EncodeAllFurther(vs, n - 1, p, k);
      if EncodeAll(vs, n - 1, p).Success? {
        EncodeFurther(vs[n - 1], p + |EncodeAll(vs, n - 1, p).value|, k);
      }
    }
  }

  /** A value's encoding depends on the position only modulo eight. */
  lemma {:induction false} EncodeShift(v: Value, p: nat, q: nat)
    requires p % 8 == q % 8
    ensures Encode(v, p) == Encode(v, q)
  {
    EncodeFurther(v, p % 8, p / 8);
    EncodeFurther(v, q % 8, q / 8);
  }

  predicate SamePads(p: nat, q: nat) {
    Pad(p, 1) == Pad(q, 1) && Pad(p, 2) == Pad(q, 2) && Pad(p, 4) == Pad(q, 4) && Pad(p, 8) == Pad(q, 8)
  }

  lemma {:induction false} PadPeriod(p: nat, k: nat)
    ensures SamePads(p + 8 * k, p)
  {
    if k > 0 {
      PadPeriod(p, k - 1);
      PadStep(p + 8 * (k - 1));
    }
  }

  lemma {:induction false} PadStep(p: nat)
    ensures SamePads(p + 8, p)
  {
    assert Pad(p + 4, 4) == Pad(p, 4) && Pad(p + 8, 4) == Pad(p + 4, 4);
    assert Pad(p + 2, 2) == Pad(p, 2) && Pad(p + 4, 2) == Pad(p + 2, 2);
    assert Pad(p + 6, 2) == Pad(p + 4, 2) && Pad(p + 8, 2) == Pad(p + 6, 2);
  }
}
