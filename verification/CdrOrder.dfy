/**
 Byte order. Mirror reverses every integer that decoding a type walks over; a mirrored body under
 the big-endian header decodes exactly like the original under the little-endian one, whether it
 decodes or fails.
 */
module CdrOrder {
  import opened Wrappers
  import opened Bytes
  import opened Cdr

  /** a and b have the same length, and the same bytes from i up to j. */
  ghost predicate Same(a: seq<byte>, b: seq<byte>, i: nat, j: nat) {
    |a| == |b| && i <= j <= |a| && forall k :: i <= k < j ==> a[k] == b[k]
  }

  lemma SameSlice(a: seq<byte>, b: seq<byte>, i: nat, j: nat)
    requires Same(a, b, i, j)
    ensures a[i..j] == b[i..j]
  {
  }

  // ----- Decoding reads only up to where it ends -----

  /** How far a decode looks: to where it ends, or anywhere if it fails. */
  function Reach<T>(r: Result<(T, nat), Error>, input: seq<byte>): nat {
    if r.Success? then r.value.1 else |input|
  }

  lemma PrimLocal(a: seq<byte>, b: seq<byte>, pos: nat, n: nat, be: bool)
    requires IsWidth(n) && Same(a, b, pos, Reach(DecodePrim(a, pos, n, be), a))
    ensures DecodePrim(b, pos, n, be) == DecodePrim(a, pos, n, be)
  {
    var at := pos + Pad(pos, n);
    if at + n <= |a| {
      SameSlice(a, b, at, at + n);
    }
  }

  lemma LengthLocal(a: seq<byte>, b: seq<byte>, pos: nat, be: bool)
    requires Same(a, b, pos, Reach(DecodeLength(a, pos, be), a))
    ensures DecodeLength(b, pos, be) == DecodeLength(a, pos, be)
  {
    PrimLocal(a, b, pos, 4, be);
  }

  lemma StrLocal(a: seq<byte>, b: seq<byte>, pos: nat, be: bool)
    requires Same(a, b, pos, Reach(DecodeStr(a, pos, be), a))
    ensures DecodeStr(b, pos, be) == DecodeStr(a, pos, be)
  {
    LengthLocal(a, b, pos, be);
    if DecodeLength(a, pos, be).Success? {
      var (len, at) := DecodeLength(a, pos, be).value;
      if len > 0 {
        SameSlice(a, b, at, at + len - 1);
      }
    }
  }

  lemma BytesLocal(a: seq<byte>, b: seq<byte>, pos: nat, len: nat, at: nat, be: bool)
    requires DecodeLength(a, pos, be) == Success((len, at)) && Same(a, b, pos, at + len)
    ensures DecodeLength(b, pos, be) == Success((len, at)) && a[at..at + len] == b[at..at + len]
  {
    LengthLocal(a, b, pos, be);
    SameSlice(a, b, at, at + len);
  }

  lemma {:induction false} LongLocal(s: Schema, a: seq<byte>, b: seq<byte>, pos: nat, be: bool)
    requires s == SBytes && pos <= |a| && Same(a, b, pos, Reach(Decode(s, a, pos, be), a))
    ensures Decode(s, b, pos, be) == Decode(s, a, pos, be)
  {
    var r := DecodeLength(a, pos, be);
    if r.Success? {
      BytesLocal(a, b, pos, r.value.0, r.value.1, be);
    } else {
      LengthLocal(a, b, pos, be);
    }
  }

  /** The types that are decoded without decoding others. */
  predicate IsLeaf(s: Schema) {
    !s.SNewtype? && !s.SSeq? && !s.STuple?
  }

  lemma LeafLocal(s: Schema, a: seq<byte>, b: seq<byte>, pos: nat, be: bool)
    requires IsLeaf(s) && pos <= |a| && Same(a, b, pos, Reach(Decode(s, a, pos, be), a))
    ensures Decode(s, b, pos, be) == Decode(s, a, pos, be)
  {
    if s.SPrim? {
      PrimLocal(a, b, pos, Width(s.p), be);
    } else if s.SStr? {
      StrLocal(a, b, pos, be);
    } else if s.SBytes? {
      LongLocal(s, a, b, pos, be);
    }
  }

  /** A successful decode depends only on the bytes it consumed and on the input's length. */
  lemma {:induction false} DecodeLocal(s: Schema, a: seq<byte>, b: seq<byte>, pos: nat, be: bool)
    requires pos <= |a| && Same(a, b, pos, Reach(Decode(s, a, pos, be), a))
    ensures Decode(s, b, pos, be) == Decode(s, a, pos, be)
    decreases s, 1, 0
  {
    if s.SNewtype? {
      DecodeLocal(s.inner, a, b, pos, be);
    } else if s.SSeq? {
      LengthLocal(a, b, pos, be);
      var r := DecodeLength(a, pos, be);
      if r.Success? {
        DecodeItemsLocal(s, r.value.0, a, b, r.value.1, be);
      }
    } else if s.STuple? {
      DecodeItemsLocal(s, |s.fields|, a, b, pos, be);
    } else {
      LeafLocal(s, a, b, pos, be);
    }
  }

  /** Items decode alike once all but the last do, and the last one where they end. */
  lemma {:induction false} LastItemAlike(s: Schema, n: nat, a: seq<byte>, be: bool, b: seq<byte>, be': bool, pos: nat)
    requires n > 0 && pos <= |a| && pos <= |b| && HasItems(s, n)
    requires DecodeItems(s, n - 1, b, pos, be') == DecodeItems(s, n - 1, a, pos, be)
    requires var r := DecodeItems(s, n - 1, a, pos, be);
      r.Success? && r.value.1 <= |b| ==>
        Decode(ItemType(s, n - 1), b, r.value.1, be') == Decode(ItemType(s, n - 1), a, r.value.1, be)
    ensures DecodeItems(s, n, b, pos, be') == DecodeItems(s, n, a, pos, be)
  {
  }

  /** How far the items but the last, and then the last, look. */
  lemma {:induction false} ReachOfItems(s: Schema, n: nat, a: seq<byte>, b: seq<byte>, pos: nat, be: bool)
    requires n > 0 && pos <= |a| && HasItems(s, n) && Same(a, b, pos, Reach(DecodeItems(s, n, a, pos, be), a))
    ensures var r := DecodeItems(s, n - 1, a, pos, be);
      && Same(a, b, pos, Reach(r, a))
      && (r.Success? ==> Same(a, b, r.value.1, Reach(Decode(ItemType(s, n - 1), a, r.value.1, be), a)))
  {
  }

  lemma {:induction false} DecodeItemsLocal(s: Schema, n: nat, a: seq<byte>, b: seq<byte>, pos: nat, be: bool)
    requires pos <= |a| && HasItems(s, n) && Same(a, b, pos, Reach(DecodeItems(s, n, a, pos, be), a))
    ensures DecodeItems(s, n, b, pos, be) == DecodeItems(s, n, a, pos, be)
    decreases s, 0, n
  {
    if n > 0 {
      ReachOfItems(s, n, a, b, pos, be);
      DecodeItemsLocal(s, n - 1, a, b, pos, be);
      var r := DecodeItems(s, n - 1, a, pos, be);
      if r.Success? {
        DecodeLocal(ItemType(s, n - 1), a, b, r.value.1, be);
      }
      LastItemAlike(s, n, a, be, b, be, pos);
    }
  }

  // ----- Mirrored bodies -----

  /** input with the n-byte integer at the next multiple of n reversed, if there is room for one. */
  function MirrorPrim(input: seq<byte>, pos: nat, n: nat): (m: seq<byte>)
    requires IsWidth(n)
    ensures |m| == |input|
  {
    var at := pos + Pad(pos, n);
    if at + n <= |input| then input[..at] + Reverse(input[at..at + n]) + input[at + n..] else input
  }

  /** input with every integer reversed that decoding s at pos in little-endian order reads. */
  function Mirror(s: Schema, input: seq<byte>, pos: nat): (m: seq<byte>)
    requires pos <= |input|
    ensures |m| == |input|
    decreases s, 1, 0
  {
    match s
    case SPrim(p) => MirrorPrim(input, pos, Width(p))
    case SStr => MirrorPrim(input, pos, 4)
    case SBytes => MirrorPrim(input, pos, 4)
    case SNewtype(inner) => Mirror(inner, input, pos)
    case SSeq(_) =>
      var r := DecodeLength(input, pos, false);
      var m := MirrorPrim(input, pos, 4);
      if r.Success? then MirrorItems(s, r.value.0, m, r.value.1) else m
    case STuple(fields) => MirrorItems(s, |fields|, input, pos)
    case _ => input
  }

  function MirrorItems(s: Schema, n: nat, input: seq<byte>, pos: nat): (m: seq<byte>)
    requires pos <= |input| && HasItems(s, n)
    ensures |m| == |input|
    decreases s, 0, n
  {
    if n == 0 then input
    else
      var r := DecodeItems(s, n - 1, input, pos, false);
      var m := MirrorItems(s, n - 1, input, pos);
      if r.Success? then Mirror(ItemType(s, n - 1), m, r.value.1) else m
  }

  /** m differs from input only from pos up to where the decode r ends. */
  ghost predicate Framed<T>(input: seq<byte>, m: seq<byte>, pos: nat, r: Result<(T, nat), Error>) {
    && Same(input, m, 0, pos)
    && (r.Success? ==> Same(input, m, r.value.1, |input|))
  }

  /** Only the integer itself is reversed. */
  lemma MirrorPrimShape(input: seq<byte>, at: nat, n: nat, m: seq<byte>)
    requires at + n <= |input| && m == input[..at] + Reverse(input[at..at + n]) + input[at + n..]
    ensures m[at..at + n] == Reverse(input[at..at + n])
    ensures Same(input, m, 0, at) && Same(input, m, at + n, |input|)
  {
  }

  lemma PrimRead(input: seq<byte>, pos: nat, n: nat, be: bool, at: nat, w: seq<byte>)
    requires IsWidth(n) && at == pos + Pad(pos, n) && at + n <= |input| && input[at..at + n] == w
    ensures DecodePrim(input, pos, n, be) == Success((FromBytes(w, be), at + n))
  {
  }

  lemma ReadSwapped(w: seq<byte>)
    ensures FromBytes(Reverse(w), true) == FromBytes(w, false)
  {
    ReverseTwice(w);
  }

  lemma PrimSwapped(input: seq<byte>, pos: nat, n: nat)
    requires IsWidth(n) && pos <= |input|
    ensures DecodePrim(MirrorPrim(input, pos, n), pos, n, true) == DecodePrim(input, pos, n, false)
  {
    var at, m := pos + Pad(pos, n), MirrorPrim(input, pos, n);
    if at + n <= |input| {
      var w := input[at..at + n];
      MirrorPrimShape(input, at, n, m);
      PrimRead(input, pos, n, false, at, w);
      PrimRead(m, pos, n, true, at, Reverse(w));
      ReadSwapped(w);
    }
  }

  lemma SameShorter(a: seq<byte>, b: seq<byte>, i: nat, j: nat)
    requires Same(a, b, 0, j) && i <= j
    ensures Same(a, b, 0, i)
  {
  }

  lemma PrimMirror(input: seq<byte>, pos: nat, n: nat)
    requires IsWidth(n) && pos <= |input|
    ensures DecodePrim(MirrorPrim(input, pos, n), pos, n, true) == DecodePrim(input, pos, n, false)
    ensures Framed(input, MirrorPrim(input, pos, n), pos, DecodePrim(input, pos, n, false))
  {
    PrimSwapped(input, pos, n);
    var at, m := pos + Pad(pos, n), MirrorPrim(input, pos, n);
    if at + n <= |input| {
      MirrorPrimShape(input, at, n, m);
      PrimRead(input, pos, n, false, at, input[at..at + n]);
      SameShorter(input, m, pos, at);
    }
  }

  lemma LengthMirror(input: seq<byte>, pos: nat)
    requires pos <= |input|
    ensures DecodeLength(MirrorPrim(input, pos, 4), pos, true) == DecodeLength(input, pos, false)
    ensures Framed(input, MirrorPrim(input, pos, 4), pos, DecodeLength(input, pos, false))
  {
    PrimMirror(input, pos, 4);
  }

  lemma StrMirror(input: seq<byte>, pos: nat)
    requires pos <= |input|
    ensures DecodeStr(MirrorPrim(input, pos, 4), pos, true) == DecodeStr(input, pos, false)
    ensures Framed(input, MirrorPrim(input, pos, 4), pos, DecodeStr(input, pos, false))
  {
    LengthMirror(input, pos);
    if DecodeLength(input, pos, false).Success? {
      var (len, at) := DecodeLength(input, pos, false).value;
      if len > 0 {
        SameSlice(input, MirrorPrim(input, pos, 4), at, at + len - 1);
      }
    }
  }

  lemma BytesMirror(input: seq<byte>, pos: nat)
    requires pos <= |input|
    ensures Decode(SBytes, MirrorPrim(input, pos, 4), pos, true) == Decode(SBytes, input, pos, false)
    ensures Framed(input, MirrorPrim(input, pos, 4), pos, Decode(SBytes, input, pos, false))
  {
    LengthMirror(input, pos);
    if DecodeLength(input, pos, false).Success? {
      var (len, at) := DecodeLength(input, pos, false).value;
      SameSlice(input, MirrorPrim(input, pos, 4), at, at + len);
    }
  }

  /** The mirrored body decodes in big-endian order as the original does in little-endian order. */
  lemma {:induction false} MirrorDecodes(s: Schema, input: seq<byte>, pos: nat)
    requires pos <= |input|
    ensures Decode(s, Mirror(s, input, pos), pos, true) == Decode(s, input, pos, false)
    ensures Framed(input, Mirror(s, input, pos), pos, Decode(s, input, pos, false))
    decreases s, 1, 0
  {
    match s
    case SPrim(p) =>
      PrimMirror(input, pos, Width(p));
    case SStr =>
      StrMirror(input, pos);
    case SBytes =>
      BytesMirror(input, pos);
    case SNewtype(inner) =>
      MirrorDecodes(inner, input, pos);
    case SSeq(_) =>
      LengthMirror(input, pos);
      var r := DecodeLength(input, pos, false);
      if r.Success? {
        var m := MirrorPrim(input, pos, 4);
        ItemsMirror(s, r.value.0, m, r.value.1);
        DecodeItemsLocal(s, r.value.0, input, m, r.value.1, false);
        LengthLocal(m, MirrorItems(s, r.value.0, m, r.value.1), pos, true);
      }
    case STuple(fields) =>
      ItemsMirror(s, |fields|, input, pos);
    case _ =>
  }

  lemma {:induction false} ItemsMirror(s: Schema, n: nat, input: seq<byte>, pos: nat)
    requires pos <= |input| && HasItems(s, n)
    ensures DecodeItems(s, n, MirrorItems(s, n, input, pos), pos, true) == DecodeItems(s, n, input, pos, false)
    ensures Framed(input, MirrorItems(s, n, input, pos), pos, DecodeItems(s, n, input, pos, false))
    decreases s, 0, n
  {
    if n > 0 {
      ItemsMirror(s, n - 1, input, pos);
      var r, item := DecodeItems(s, n - 1, input, pos, false), ItemType(s, n - 1);
      var m, all := MirrorItems(s, n - 1, input, pos), MirrorItems(s, n, input, pos);
      if r.Success? {
        DecodeLocal(item, input, m, r.value.1, false);
        MirrorDecodes(item, m, r.value.1);
        DecodeItemsLocal(s, n - 1, m, all, pos, true);
      }
      LastItemAlike(s, n, input, false, all, true, pos);
      FramedLast(s, n, input, m, all, pos);
    }
  }

  /** Framing carries over from the items but the last to all of them. */
  lemma {:induction false} FramedLast(s: Schema, n: nat, input: seq<byte>, m: seq<byte>, all: seq<byte>, pos: nat)
    requires 0 < n && pos <= |input| == |m| == |all| && HasItems(s, n)
    requires Framed(input, m, pos, DecodeItems(s, n - 1, input, pos, false))
    requires var r := DecodeItems(s, n - 1, input, pos, false);
      if r.Failure? then all == m
      else Framed(m, all, r.value.1, Decode(ItemType(s, n - 1), input, r.value.1, false))
    ensures Framed(input, all, pos, DecodeItems(s, n, input, pos, false))
  {
  }

  /** Any body means the same under CDR_LE as its mirror image does under CDR_BE. */
  lemma PayloadByteOrder(s: Schema, body: seq<byte>, le: seq<byte>, be: seq<byte>)
    requires |le| == HEADER_LEN && le[0] == 0 && le[1] == 1
    requires |be| == HEADER_LEN && be[0] == 0 && be[1] == 0
    ensures FromPayload(s, be + Mirror(s, body, 0)) == FromPayload(s, le + body)
  {
    MirrorDecodes(s, body, 0);
    assert (le + body)[HEADER_LEN..] == body;
    assert (be + Mirror(s, body, 0))[HEADER_LEN..] == Mirror(s, body, 0);
  }

  // ----- What decoding can produce -----

  /** v can be encoded: every length fits its prefix, and nothing in it is unsupported. */
  ghost predicate Encodable(v: Value)
    decreases v, 0
  {
    match v
    case VStr(text) => |text| + 1 < U32_END
    case VBytes(data) => |data| < U32_END
    case VNewtype(inner) => Encodable(inner)
    case VSeq(announced, elems) => announced.Some? && announced.value < U32_END && AllEncodable(elems, |elems|)
    case VTuple(fields) => AllEncodable(fields, |fields|)
    case VUnsupported(_) => false
    case _ => true
  }

  ghost predicate AllEncodable(vs: seq<Value>, n: nat)
    requires n <= |vs|
    decreases vs, n
  {
    n == 0 || (AllEncodable(vs, n - 1) && Encodable(vs[n - 1]))
  }

  lemma {:induction false} EncodableIff(v: Value, pos: nat)
    ensures Encode(v, pos).Success? <==> Encodable(v)
    decreases v, 0
  {
    match v
    case VNewtype(inner) =>
      EncodableIff(inner, pos);
    case VSeq(announced, elems) =>
      if announced.Some? && EncodeLength(announced.value, pos).Success? {
        AllEncodableIff(elems, |elems|, pos + |EncodeLength(announced.value, pos).value|);
      }
    case VTuple(fields) =>
      AllEncodableIff(fields, |fields|, pos);
    case _ =>
  }

  lemma {:induction false} AllEncodableIff(vs: seq<Value>, n: nat, pos: nat)
    requires n <= |vs|
    ensures EncodeAll(vs, n, pos).Success? <==> AllEncodable(vs, n)
    decreases vs, n
  {
    if n > 0 {
      AllEncodableIff(vs, n - 1, pos);
      if EncodeAll(vs, n - 1, pos).Success? {
        EncodableIff(vs[n - 1], pos + |EncodeAll(vs, n - 1, pos).value|);
      }
    }
  }

  /** Whatever is decoded is a value of the type, and can be encoded again at any position. */
  lemma {:induction false} DecodedHas(s: Schema, input: seq<byte>, pos: nat, be: bool)
    requires pos <= |input| && Decode(s, input, pos, be).Success?
    ensures Has(s, Decode(s, input, pos, be).value.0) && Encodable(Decode(s, input, pos, be).value.0)
    decreases s, 1, 0
  {
    PowValues();
    match s
    case SNewtype(inner) =>
      DecodedHas(inner, input, pos, be);
    case SSeq(_) =>
      var (len, at) := DecodeLength(input, pos, be).value;
      DecodedItems(s, len, input, at, be);
    case STuple(fields) =>
      DecodedItems(s, |fields|, input, pos, be);
    case _ =>
  }

  lemma {:induction false} DecodedItems(s: Schema, n: nat, input: seq<byte>, pos: nat, be: bool)
    requires pos <= |input| && HasItems(s, n) && DecodeItems(s, n, input, pos, be).Success?
    ensures HasAll(s, DecodeItems(s, n, input, pos, be).value.0, n)
    ensures AllEncodable(DecodeItems(s, n, input, pos, be).value.0, n)
    decreases s, 0, n
  {
    if n > 0 {
      DecodedItems(s, n - 1, input, pos, be);
      var (vs, at) := DecodeItems(s, n - 1, input, pos, be).value;
      DecodedHas(ItemType(s, n - 1), input, at, be);
      ItemsPrefix(s, vs, DecodeItems(s, n, input, pos, be).value.0, n - 1);
    }
  }

  lemma {:induction false} ItemsPrefix(s: Schema, vs: seq<Value>, ws: seq<Value>, n: nat)
    requires n <= |vs| && n <= |ws| && HasItems(s, n) && forall i :: 0 <= i < n ==> vs[i] == ws[i]
    ensures HasAll(s, vs, n) == HasAll(s, ws, n) && AllEncodable(vs, n) == AllEncodable(ws, n)
  {
    if n > 0 {
      ItemsPrefix(s, vs, ws, n - 1);
    }
  }
}
