/**
 The cursors of aimdb-cdr: a serializer over a growing vector or a fixed slice, and a
 deserializer over bytes. Each method is proved against Encode and Decode.
 */
module CdrCodec {
  import opened Wrappers
  import opened Bytes
  import opened Cdr

  /** Where a serializer writes: a vector that grows, or what is left of a slice. */
  class Writer {
    const growing: bool
    var out: seq<byte>
    const buf: array<byte>
    const off: nat
    var len: nat

    ghost predicate Valid()
      reads this
    {
      off + len <= buf.Length
    }

    /** What has been written. */
    ghost function Written(): (bytes: seq<byte>)
      requires Valid()
      reads this, buf
      ensures !growing ==> |bytes| == len
    {
      if growing then out else buf[off..off + len]
    }

    /** How much more fits; nothing limits a vector. */
    ghost function Room(): Option<nat>
      requires Valid()
      reads this
    {
      if growing then None else Some(buf.Length - off - len)
    }

    /** The bytes of the slice behind the written ones. */
    ghost function Ahead(): (bytes: seq<byte>)
      requires Valid()
      reads this, buf
      ensures |bytes| == buf.Length - off - len
    {
      buf[off + len..]
    }

    constructor Vector(init: seq<byte>)
      ensures Valid() && growing && Written() == init && fresh(buf)
    {
      growing, out := true, init;
      buf := new byte[0];
      off, len := 0, 0;
    }

    constructor Slice(slice: array<byte>, start: nat)
      requires start <= slice.Length
      ensures Valid() && !growing && buf == slice && off == start && len == 0
    {
      growing, out := false, [];
      buf := slice;
      off, len := start, 0;
    }

    /** Appends the bytes, or reports that they do not fit and writes nothing. */
    method WriteAll(bytes: seq<byte>) returns (r: Result<(), Error>)
      requires Valid()
      modifies this, buf
      ensures Valid()
      ensures r == if Fits(old(Room()), |bytes|) then Success(()) else Failure(BufferTooSmall)
      ensures Written() == if r.Success? then old(Written()) + bytes else old(Written())
      ensures !growing ==> buf[..off] == old(buf[..off]) && len == old(len) + if r.Success? then |bytes| else 0
      ensures !growing ==> Ahead() == old(Ahead())[len - old(len)..]
    {
      if growing {
        out := out + bytes;
        return Success(());
      }
      var end := off + len + |bytes|;
      if end > buf.Length {
        return Failure(BufferTooSmall);
      }
      ghost var before := buf[..];
      forall i | 0 <= i < |bytes| {
        buf[off + len + i] := bytes[i];
      }
      len := len + |bytes|;
      assert buf[..] == before[..off + old(len)] + bytes + before[end..];
      Spliced(buf[..], before, off, off + old(len), bytes);
      return Success(());
    }
  }

  /** Bytes put over others: what was before and behind stays, and they join what was just before. */
  lemma Spliced(now: seq<byte>, before: seq<byte>, off: nat, at: nat, bytes: seq<byte>)
    requires off <= at && at + |bytes| <= |before| && now == before[..at] + bytes + before[at + |bytes|..]
    ensures now[off..at + |bytes|] == before[off..at] + bytes && now[..off] == before[..off]
    ensures now[at + |bytes|..] == before[at + |bytes|..]
  {
  }

  predicate Fits(room: Option<nat>, n: nat) {
    room.None? || n <= room.value
  }

  /** What a serializer's state means: its position, what is written, and the slice around it. */
  datatype View = View(pos: nat, written: seq<byte>, room: Option<nat>, head: seq<byte>, ahead: seq<byte>)

  /**
   From a to b the bytes enc were to be written. It succeeds exactly when enc is defined and
   fits; a failure leaves a part of it written. Bytes before and behind are not touched.
   */
  ghost predicate Advance(a: View, b: View, enc: Result<seq<byte>, Error>, r: Result<(), Error>) {
    && (r.Success? <==> enc.Success? && Fits(a.room, |enc.value|))
    && (r.Success? ==> b.written == a.written + enc.value && b.pos == a.pos + |enc.value|)
    && (r.Failure? && enc.Success? ==> r.error == BufferTooSmall)
    && (enc.Failure? ==> r.Failure? && (r.error == enc.error || (a.room.Some? && r.error == BufferTooSmall)))
    && a.written <= b.written
    && b.head == a.head
    && (a.room.None? ==> b.room.None?)
    && (a.room.Some? ==>
      && |a.ahead| == a.room.value && |b.written| - |a.written| <= a.room.value
      && b.ahead == a.ahead[|b.written| - |a.written|..]
      && b.room == Some(a.room.value - (|b.written| - |a.written|)))
  }

  lemma AdvanceNothing(a: View)
    requires a.room.Some? ==> |a.ahead| == a.room.value
    ensures Advance(a, a, Success([]), Success(()))
  {
    assert a.written == a.written + [];
  }

  /** Two writes in a row write the two parts in a row. */
  lemma AdvanceBoth(a: View, b: View, c: View, x: seq<byte>, y: Result<seq<byte>, Error>, r: Result<(), Error>)
    requires Advance(a, b, Success(x), Success(())) && Advance(b, c, y, r)
    ensures Advance(a, c, if y.Success? then Success(x + y.value) else Failure(y.error), r)
  {
    if y.Success? {
      assert a.written + x + y.value == a.written + (x + y.value);
    }
  }

  /** If the first of two writes fails, so do both. */
  lemma AdvanceFails(a: View, b: View, x: Result<seq<byte>, Error>, e: Error, y: Result<seq<byte>, Error>)
    requires Advance(a, b, x, Failure(e))
    ensures Advance(a, b,
      if x.Failure? then Failure(x.error) else if y.Success? then Success(x.value + y.value) else Failure(y.error),
      Failure(e))
  {
  }

  /** The bytes behind a prefix, if there is one. */
  function Prefixed(prefix: Result<seq<byte>, Error>, bytes: seq<byte>): Result<seq<byte>, Error> {
    if prefix.Success? then Success(prefix.value + bytes) else prefix
  }

  lemma StrIs(text: seq<byte>, pos: nat)
    ensures Encode(VStr(text), pos) == Prefixed(Prefixed(EncodeLength(|text| + 1, pos), text), [0])
  {
  }

  class Serializer {
    const w: Writer
    var pos: nat

    ghost predicate Valid()
      reads this, w
    {
      w.Valid()
    }

    ghost function Now(): View
      requires Valid()
      reads this, w, w.buf
    {
      View(pos, w.Written(), w.Room(), if w.growing then [] else w.buf[..w.off], if w.growing then [] else w.Ahead())
    }

    constructor (writer: Writer)
      requires writer.Valid()
      ensures w == writer && pos == 0
    {
      w, pos := writer, 0;
    }

    method Write(bytes: seq<byte>) returns (r: Result<(), Error>)
      requires Valid()
      modifies this, w, w.buf
      ensures Valid() && Advance(old(Now()), Now(), Success(bytes), r)
    {
      ghost var a := Now();
      r := w.WriteAll(bytes);
      if r.Success? {
        pos := pos + |bytes|;
      }
      assert w.growing || w.Room() == Some(a.room.value - (w.len - |a.written|));
    }

    method Align(n: nat) returns (r: Result<(), Error>)
      requires Valid() && IsWidth(n)
      modifies this, w, w.buf
      ensures Valid() && Advance(old(Now()), Now(), Success(Zeros(Pad(old(pos), n))), r)
    {
      var padding := Pad(pos, n);
      r := Write(Zeros(padding));
    }

    method Primitive(n: nat, bits: nat) returns (r: Result<(), Error>)
      requires Valid() && IsWidth(n)
      modifies this, w, w.buf
      ensures Valid() && Advance(old(Now()), Now(), Success(EncodePrim(n, bits, old(pos))), r)
    {
      ghost var a := Now();
      r := Align(n);
      ghost var b := Now();
      if r.Failure? {
        AdvanceFails(a, b, Success(Zeros(Pad(a.pos, n))), r.error, Success(LeBytes(n, bits)));
        return;
      }
      r := Write(LeBytes(n, bits));
      AdvanceBoth(a, b, Now(), Zeros(Pad(a.pos, n)), Success(LeBytes(n, bits)), r);
    }

    method Length(len: nat) returns (r: Result<(), Error>)
      requires Valid()
      modifies this, w, w.buf
      ensures Valid() && Advance(old(Now()), Now(), EncodeLength(len, old(pos)), r)
    {
      if len >= U32_END {
        return Failure(LengthOverflow);
      }
      r := Primitive(4, len);
    }

    /** A length prefix and the bytes it announces. */
    method Block(len: nat, bytes: seq<byte>) returns (r: Result<(), Error>)
      requires Valid()
      modifies this, w, w.buf
      ensures Valid() && Advance(old(Now()), Now(), Prefixed(EncodeLength(len, old(pos)), bytes), r)
    {
      ghost var a := Now();
      r := Length(len);
      ghost var b := Now();
      if r.Failure? {
        AdvanceFails(a, b, EncodeLength(len, a.pos), r.error, Success(bytes));
        return;
      }
      r := Write(bytes);
      AdvanceBoth(a, b, Now(), EncodeLength(len, a.pos).value, Success(bytes), r);
    }

    method SerializeStr(text: seq<byte>) returns (r: Result<(), Error>)
      requires Valid()
      modifies this, w, w.buf
      ensures Valid() && Advance(old(Now()), Now(), Encode(VStr(text), old(pos)), r)
    {
      ghost var a := Now();
      r := Block(|text| + 1, text);
      ghost var b := Now();
      ghost var first := Prefixed(EncodeLength(|text| + 1, a.pos), text);
      StrIs(text, a.pos);
      if r.Failure? {
        AdvanceFails(a, b, first, r.error, Success([0]));
        return;
      }
      r := Write([0]);
      AdvanceBoth(a, b, Now(), first.value, Success([0]), r);
    }

    /** Writes the value's encoding at the current position. */
    method Serialize(v: Value) returns (r: Result<(), Error>)
      requires Valid()
      modifies this, w, w.buf
      ensures Valid() && Advance(old(Now()), Now(), Encode(v, old(pos)), r)
      decreases v, 0
    {
      match v {
        case VBool(b) =>
          r := Write([if b then 1 else 0]);
        case VPrim(p, bits) =>
          r := Primitive(Width(p), bits);
        case VStr(text) =>
          r := SerializeStr(text);
        case VBytes(data) =>
          r := Block(|data|, data);
        case VUnit =>
          r := Success(());
          assert Now().written == old(Now()).written + [];
        case VNewtype(inner) =>
          r := Serialize(inner);
        case VSeq(announced, elems) =>
          r := SerializeSeq(announced, elems);
        case VTuple(fields) =>
          r := SerializeAll(fields);
        case VUnsupported(what) =>
          r := Failure(Unsupported(what));
      }
    }

    method SerializeSeq(announced: Option<nat>, elems: seq<Value>) returns (r: Result<(), Error>)
      requires Valid()
      modifies this, w, w.buf
      ensures Valid() && Advance(old(Now()), Now(), Encode(VSeq(announced, elems), old(pos)), r)
      decreases elems, |elems| + 1
    {
      if announced.None? {
        return Failure(UnknownLength);
      }
      ghost var a := Now();
      ghost var len := EncodeLength(announced.value, a.pos);
      r := Length(announced.value);
      ghost var b := Now();
      if r.Failure? {
        AdvanceFails(a, b, len, r.error,
          if len.Success? then EncodeAll(elems, |elems|, a.pos + |len.value|) else Success([]));
        return;
      }
      r := SerializeAll(elems);
      AdvanceBoth(a, b, Now(), len.value, EncodeAll(elems, |elems|, b.pos), r);
    }

    method SerializeAll(elems: seq<Value>) returns (r: Result<(), Error>)
      requires Valid()
      modifies this, w, w.buf
      ensures Valid() && Advance(old(Now()), Now(), EncodeAll(elems, |elems|, old(pos)), r)
      decreases elems, |elems|, 1
    {
      ghost var a := Now();
      r := Success(());
      AdvanceNothing(a);
      for i := 0 to |elems|
        invariant Valid() && r.Success? && Advance(a, Now(), EncodeAll(elems, i, a.pos), Success(()))
      {
        r := SerializeElement(elems, i, a);
        if r.Failure? {
          return;
        }
      }
    }

    /** One more element; if it cannot be written, neither can the list. */
    method SerializeElement(elems: seq<Value>, i: nat, ghost a: View) returns (r: Result<(), Error>)
      requires Valid() && i < |elems|
      requires Advance(a, Now(), EncodeAll(elems, i, a.pos), Success(()))
      modifies this, w, w.buf
      ensures Valid()
      ensures Advance(a, Now(), EncodeAll(elems, if r.Success? then i + 1 else |elems|, a.pos), r)
      decreases elems, |elems|, 0
    {
      ghost var b := Now();
      r := Serialize(elems[i]);
      ElementAdvance(a, b, Now(), elems, i, r);
    }
  }

  /** An element that cannot be written makes the whole list fail the same way. */
  lemma FailStays(a: View, b: View, c: View, x: seq<byte>, item: Result<seq<byte>, Error>,
        all: Result<seq<byte>, Error>, e: Error)
    requires Advance(a, b, Success(x), Success(())) && Advance(b, c, item, Failure(e))
    requires item.Failure? ==> all == Failure(item.error)
    requires all.Success? ==> item.Success? && |x| + |item.value| <= |all.value|
    ensures Advance(a, c, all, Failure(e))
  {
  }

  lemma ElementAdvance(a: View, b: View, c: View, elems: seq<Value>, i: nat, r: Result<(), Error>)
    requires i < |elems| && Advance(a, b, EncodeAll(elems, i, a.pos), Success(()))
    requires Advance(b, c, Encode(elems[i], b.pos), r)
    ensures Advance(a, c, EncodeAll(elems, if r.Success? then i + 1 else |elems|, a.pos), r)
  {
    var before, item := EncodeAll(elems, i, a.pos).value, Encode(elems[i], b.pos);
    if r.Success? {
      AdvanceBoth(a, b, c, before, item, r);
    } else {
      EncodeAllGrows(elems, i + 1, |elems|, a.pos);
      FailStays(a, b, c, before, item, EncodeAll(elems, |elems|, a.pos), r.error);
    }
  }

  lemma {:induction false} EncodeAllGrows(elems: seq<Value>, i: nat, n: nat, pos: nat)
    requires i <= n <= |elems|
    ensures EncodeAll(elems, i, pos).Failure? ==> EncodeAll(elems, n, pos) == Failure(EncodeAll(elems, i, pos).error)
    ensures EncodeAll(elems, n, pos).Success? ==>
      EncodeAll(elems, i, pos).Success? && |EncodeAll(elems, i, pos).value| <= |EncodeAll(elems, n, pos).value|
    decreases n
  {
    if i < n {
      EncodeAllGrows(elems, i, n - 1, pos);
    }
  }

  /**
   Encodes into caller storage. It succeeds exactly when there is room for the payload ToVec
   gives, writes that payload and leaves the rest of the slice as it was.
   */
  method ToSlice(v: Value, out: array<byte>) returns (r: Result<nat, Error>)
    modifies out
    ensures r.Success? <==> ToVec(v).Success? && |ToVec(v).value| <= out.Length
    ensures r.Success? ==>
      r.value == |ToVec(v).value| && out[..] == ToVec(v).value + old(out[..])[r.value..]
    ensures r.Failure? && ToVec(v).Success? ==> r.error == BufferTooSmall
    ensures ToVec(v).Failure? ==> r.Failure? && (r.error == ToVec(v).error || r.error == BufferTooSmall)
  {
    if out.Length < HEADER_LEN {
      return Failure(BufferTooSmall);
    }
    ghost var before := out[..];
    out[0], out[1], out[2], out[3] := HEADER_LE[0], HEADER_LE[1], HEADER_LE[2], HEADER_LE[3];
    assert out[..HEADER_LEN] == HEADER_LE && out[HEADER_LEN..] == before[HEADER_LEN..];
    r := ToBody(v, out);
    if r.Success? {
      Assemble(out[..], before, Encode(v, 0).value);
    }
  }

  lemma Assemble(now: seq<byte>, before: seq<byte>, body: seq<byte>)
    requires |now| == |before| >= HEADER_LEN + |body| && now[..HEADER_LEN] == HEADER_LE
    requires now[HEADER_LEN..] == body + before[HEADER_LEN..][|body|..]
    ensures now == HEADER_LE + body + before[HEADER_LEN + |body|..]
  {
    assert before[HEADER_LEN..][|body|..] == before[HEADER_LEN + |body|..];
    assert now == now[..HEADER_LEN] + now[HEADER_LEN..];
  }

  /** What serializing into a slice from the start of its body comes to. */
  ghost predicate BodyOutcome(enc: Result<seq<byte>, Error>, before: seq<byte>, now: seq<byte>, r: Result<nat, Error>) {
    && (r.Success? <==> enc.Success? && |enc.value| <= |before|)
    && (r.Success? ==> r.value == HEADER_LEN + |enc.value| && now == enc.value + before[|enc.value|..])
    && (r.Failure? && enc.Success? ==> r.error == BufferTooSmall)
    && (enc.Failure? ==> r.Failure? && (r.error == enc.error || r.error == BufferTooSmall))
  }

  lemma BodyFromViews(a: View, b: View, enc: Result<seq<byte>, Error>, done: Result<(), Error>, r: Result<nat, Error>)
    requires Advance(a, b, enc, done) && a.written == [] && a.pos == 0 && a.room == Some(|a.ahead|)
    requires r == if done.Success? then Success(HEADER_LEN + b.pos) else Failure(done.error)
    ensures BodyOutcome(enc, a.ahead, b.written + b.ahead, r)
  {
  }

  lemma WholeSlice(w: Writer)
    requires w.Valid() && !w.growing
    ensures w.buf[w.off..] == w.Written() + w.Ahead()
  {
  }

  /** Encodes behind the header. */
  method ToBody(v: Value, out: array<byte>) returns (r: Result<nat, Error>)
    requires out.Length >= HEADER_LEN
    modifies out
    ensures BodyOutcome(Encode(v, 0), old(out[HEADER_LEN..]), out[HEADER_LEN..], r)
    ensures out[..HEADER_LEN] == old(out[..HEADER_LEN])
  {
    var writer := new Writer.Slice(out, HEADER_LEN);
    var serializer := new Serializer(writer);
    ghost var a := serializer.Now();
    assert a.ahead == out[HEADER_LEN..] && a.head == out[..HEADER_LEN];
    var done := serializer.Serialize(v);
    r := if done.Success? then Success(HEADER_LEN + serializer.pos) else Failure(done.error);
    ghost var b := serializer.Now();
    BodyFromViews(a, b, Encode(v, 0), done, r);
    WholeSlice(writer);
  }

  /** Encodes into a new vector. */
  method ToNewVec(v: Value) returns (r: Result<seq<byte>, Error>)
    ensures r == ToVec(v)
  {
    var writer := new Writer.Vector(HEADER_LE);
    var serializer := new Serializer(writer);
    var done := serializer.Serialize(v);
    if done.Failure? {
      return Failure(done.error);
    }
    return Success(writer.out);
  }

  // ----- Decoding -----

  lemma TextTaken(input: seq<byte>, at: nat, len: nat, taken: seq<byte>)
    requires 0 < len && at + len <= |input| && taken == input[at..at + len]
    ensures taken[..len - 1] == input[at..at + len - 1] && taken[len - 1] == input[at + len - 1]
  {
  }

  class Deserializer {
    const input: seq<byte>
    var pos: nat
    const bigEndian: bool

    ghost predicate Valid()
      reads this
    {
      pos <= |input|
    }

    constructor (body: seq<byte>, be: bool)
      ensures Valid() && input == body && pos == 0 && bigEndian == be
    {
      input, pos, bigEndian := body, 0, be;
    }

    function Remaining(): nat
      requires Valid()
      reads this
    {
      |input| - pos
    }

    method Take(len: nat) returns (r: Result<seq<byte>, Error>)
      requires Valid()
      modifies this
      ensures Valid() && old(pos) <= pos
      ensures r == if old(pos) + len <= |input| then Success(input[old(pos)..old(pos) + len]) else Failure(UnexpectedEof)
      ensures pos == if r.Success? then old(pos) + len else old(pos)
    {
      var end := pos + len;
      if end > |input| {
        return Failure(UnexpectedEof);
      }
      r := Success(input[pos..end]);
      pos := end;
    }

    method Align(n: nat) returns (r: Result<(), Error>)
      requires Valid() && IsWidth(n)
      modifies this
      ensures Valid() && old(pos) <= pos
      ensures r.Success? <==> old(pos) + Pad(old(pos), n) <= |input|
      ensures r.Success? ==> pos == old(pos) + Pad(old(pos), n)
      ensures r.Failure? ==> r.error == UnexpectedEof
    {
      var taken := Take(Pad(pos, n));
      r := if taken.Success? then Success(()) else Failure(taken.error);
    }

    /** An n-byte integer in the cursor's byte order. */
    method Primitive(n: nat) returns (r: Result<nat, Error>)
      requires Valid() && IsWidth(n)
      modifies this
      ensures Valid() && old(pos) <= pos
      ensures Matches(r, DecodePrim(input, old(pos), n, bigEndian), pos)
    {
      var aligned := Align(n);
      if aligned.Failure? {
        return Failure(aligned.error);
      }
      var bytes := Take(n);
      if bytes.Failure? {
        return Failure(bytes.error);
      }
      return Success(FromBytes(bytes.value, bigEndian));
    }

    method ReadLength() returns (r: Result<nat, Error>)
      requires Valid()
      modifies this
      ensures Valid() && old(pos) <= pos
      ensures Matches(r, DecodeLength(input, old(pos), bigEndian), pos)
    {
      r := Primitive(4);
      if r.Success? && r.value > Remaining() {
        return Failure(UnexpectedEof);
      }
    }

    method ReadStr() returns (r: Result<seq<byte>, Error>)
      requires Valid()
      modifies this
      ensures Valid() && old(pos) <= pos
      ensures Matches(r, DecodeStr(input, old(pos), bigEndian), pos)
    {
      var len := ReadLength();
      if len.Failure? {
        return Failure(len.error);
      }
      if len.value == 0 {
        return Success([]);
      }
      ghost var at := pos;
      var taken := Take(len.value);
      var text, nul := taken.value[..len.value - 1], taken.value[len.value - 1];
      TextTaken(input, at, len.value, taken.value);
      if nul != 0 {
        return Failure(MissingNul);
      }
      if !IsUtf8(text) {
        return Failure(InvalidUtf8);
      }
      return Success(text);
    }

    method ReadBool() returns (r: Result<Value, Error>)
      requires Valid()
      modifies this
      ensures Valid() && old(pos) <= pos
      ensures Matches(r, Decode(SBool, input, old(pos), bigEndian), pos)
    {
      var b := Take(1);
      if b.Failure? {
        return Failure(b.error);
      }
      match b.value[0] {
        case 0 => r := Success(VBool(false));
        case 1 => r := Success(VBool(true));
        case other => r := Failure(InvalidBool(other));
      }
    }

    /**
     Decodes a value of type s. On every input it ends, the cursor never goes back and never
     passes the end, and the outcome is the one Decode gives.
     */
    method Deserialize(s: Schema) returns (r: Result<Value, Error>)
      requires Valid()
      modifies this
      ensures Valid() && old(pos) <= pos
      ensures Matches(r, Decode(s, input, old(pos), bigEndian), pos)
      decreases s, 1, 0
    {
      match s {
        case SBool =>
          r := ReadBool();
        case SPrim(p) =>
          var bits := Primitive(Width(p));
          r := if bits.Success? then Success(VPrim(p, bits.value)) else Failure(bits.error);
        case SStr =>
          var text := ReadStr();
          r := if text.Success? then Success(VStr(text.value)) else Failure(text.error);
        case SBytes =>
          var len := ReadLength();
          if len.Failure? {
            return Failure(len.error);
          }
          var data := Take(len.value);
          r := Success(VBytes(data.value));
        case SUnit =>
          r := Success(VUnit);
        case SNewtype(inner) =>
          var v := Deserialize(inner);
          r := if v.Success? then Success(VNewtype(v.value)) else v;
        case SSeq(_) =>
          var len := ReadLength();
          if len.Failure? {
            return Failure(len.error);
          }
          var elems := Elements(s, len.value);
          r := if elems.Success? then Success(VSeq(Some(len.value), elems.value)) else Failure(elems.error);
        case STuple(fields) =>
          var elems := Elements(s, |fields|);
          r := if elems.Success? then Success(VTuple(elems.value)) else Failure(elems.error);
        case SUnsupported(what) =>
          r := Failure(Unsupported(what));
      }
    }

    /** Fixed-count access for sequences, arrays and struct fields: left counts down to zero. */
    method Elements(s: Schema, count: nat) returns (r: Result<seq<Value>, Error>)
      requires Valid() && HasItems(s, count)
      modifies this
      ensures Valid() && old(pos) <= pos
      ensures Matches(r, DecodeItems(s, count, input, old(pos), bigEndian), pos)
      decreases s, 0, count
    {
      var left := count;
      var elems := [];
      while left > 0
        invariant 0 <= left <= count && Valid() && old(pos) <= pos
        invariant DecodeItems(s, count - left, input, old(pos), bigEndian) == Success((elems, pos))
      {
        var done := count - left;
        left := left - 1;
        var v := Deserialize(ItemType(s, done));
        if v.Failure? {
          ItemsFail(s, done + 1, count, input, old(pos), bigEndian);
          return Failure(v.error);
        }
        elems := elems + [v.value];
      }
      return Success(elems);
    }
  }

  /** The method's result is the function's, and the cursor stands where it ended. */
  ghost predicate Matches<T(!new)>(r: Result<T, Error>, d: Result<(T, nat), Error>, pos: nat) {
    if d.Success? then r == Success(d.value.0) && pos == d.value.1 else r == Failure(d.error)
  }

  lemma {:induction false} ItemsFail(s: Schema, i: nat, n: nat, input: seq<byte>, pos: nat, be: bool)
    requires i <= n && HasItems(s, n) && pos <= |input| && DecodeItems(s, i, input, pos, be).Failure?
    ensures DecodeItems(s, n, input, pos, be) == Failure(DecodeItems(s, i, input, pos, be).error)
  {
    if i < n {
      ItemsFail(s, i, n - 1, input, pos, be);
    }
  }

  method FromBytesPayload(s: Schema, bytes: seq<byte>) returns (r: Result<Value, Error>)
    ensures r == FromPayload(s, bytes)
  {
    if |bytes| < HEADER_LEN {
      return Failure(UnexpectedEof);
    }
    var bigEndian;
    match (bytes[0], bytes[1]) {
      case (0, 1) => bigEndian := false;
      case (0, 0) => bigEndian := true;
      case (b0, b1) => return Failure(InvalidHeader(b0, b1));
    }
    var de := new Deserializer(bytes[HEADER_LEN..], bigEndian);
    r := de.Deserialize(s);
  }
}
