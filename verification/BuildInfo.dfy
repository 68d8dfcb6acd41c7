/**
 The build-info section (aimdb-build-info): a header, a payload and a post-link region another
 tool may write after linking.
 */
module BuildInfo {
  import opened Wrappers
  import opened Bytes

  const MAGIC: seq<byte> := [0x41, 0x49, 0x4D, 0x44, 0x42, 0x2D, 0x42, 0x49]
  const FORMAT := 1
  const HEADER_LEN := 32
  const SECTION_MAX := 65536
  const PAYLOAD_MAX := 4096
  const ERASED: byte := 0xFF

  datatype ParseError = NoMagic | UnknownFormat(version: nat) | Truncated | Inconsistent

  datatype EncodeError = PayloadTooLong(len: nat) | SectionTooLarge(postLinkLen: nat)

  datatype Section = Section(format: nat, payload: seq<byte>, region: seq<byte>)

  datatype PostLink = NoRegion | Erased | Written(data: seq<byte>) | Malformed

  // ----- Reading -----

  /** The little-endian integer of n bytes at a position. */
  function Field(bytes: seq<byte>, at: nat, n: nat): nat
    requires at + n <= |bytes|
  {
    FromLe(bytes[at..at + n])
  }

  /** What the header of a section says. */
  datatype Header = Header(headerLen: nat, payloadLen: nat, regionOff: nat, regionLen: nat, totalLen: nat) {
    predicate Consistent() {
      && HEADER_LEN <= headerLen
      && headerLen + payloadLen <= regionOff
      && regionOff % 8 == 0
      && regionOff + regionLen == totalLen
      && totalLen <= SECTION_MAX
    }
  }

  function HeaderOf(bytes: seq<byte>): Header
    requires |bytes| >= HEADER_LEN
  {
    Header(Field(bytes, 10, 2), Field(bytes, 12, 4), Field(bytes, 16, 4), Field(bytes, 20, 4), Field(bytes, 24, 4))
  }

  /** Whether the bytes start like a section of the known format, and hold its whole header. */
  predicate Starts(bytes: seq<byte>) {
    |bytes| >= HEADER_LEN && bytes[..8] == MAGIC && Field(bytes, 8, 2) == FORMAT
  }

  /** The section at the start of bytes, which may extend past its end. */
  function Parse(bytes: seq<byte>): (r: Result<Section, ParseError>)
    ensures r.Success? <==> Starts(bytes) && HeaderOf(bytes).Consistent() && HeaderOf(bytes).totalLen <= |bytes|
    ensures r == Failure(NoMagic) <==> !(MAGIC <= bytes)
    ensures r.Failure? && r.error.UnknownFormat? <==>
      MAGIC <= bytes && |bytes| >= HEADER_LEN && r == Failure(UnknownFormat(Field(bytes, 8, 2))) && !Starts(bytes)
    ensures r == Failure(Inconsistent) <==> Starts(bytes) && !HeaderOf(bytes).Consistent()
    ensures r == Failure(Truncated) <==>
      || (MAGIC <= bytes && |bytes| < HEADER_LEN)
      || (Starts(bytes) && HeaderOf(bytes).Consistent() && HeaderOf(bytes).totalLen > |bytes|)
  {
    if |bytes| < 8 || bytes[..8] != MAGIC then Failure(NoMagic)
    else if |bytes| < HEADER_LEN then Failure(Truncated)
    else if Field(bytes, 8, 2) != FORMAT then Failure(UnknownFormat(Field(bytes, 8, 2)))
    else
      var h := HeaderOf(bytes);
      if h.headerLen < HEADER_LEN || h.headerLen + h.payloadLen > h.regionOff || h.regionOff % 8 != 0
        || h.regionOff + h.regionLen != h.totalLen || h.totalLen > SECTION_MAX then Failure(Inconsistent)
      else if h.totalLen > |bytes| then Failure(Truncated)
      else Success(Section(FORMAT, bytes[h.headerLen..h.headerLen + h.payloadLen], bytes[h.regionOff..h.totalLen]))
  }

  function PostLinkOf(region: seq<byte>): PostLink {
    if region == [] then NoRegion
    else if |region| < 4 then Malformed
    else if region[..4] == [ERASED, ERASED, ERASED, ERASED] then Erased
    else
      var len := Field(region, 0, 4);
      if len <= |region| - 4 then Written(region[4..][..len]) else Malformed
  }

  // ----- Writing -----

  function Filled(n: nat, b: byte): (s: seq<byte>)
    ensures |s| == n && forall i :: 0 <= i < n ==> s[i] == b
  {
    seq(n, _ => b)
  }

  function RegionOff(payloadLen: nat): (r: nat)
    ensures r % 8 == 0 && HEADER_LEN + payloadLen <= r < HEADER_LEN + payloadLen + 8
  {
    (HEADER_LEN + payloadLen + 7) / 8 * 8
  }

  /** The 28 bytes of header fields. */
  function Fields(payloadLen: nat, postLinkLen: nat): (s: seq<byte>)
    ensures |s| == 28
  {
    MAGIC + LeBytes(2, FORMAT) + LeBytes(2, HEADER_LEN) + LeBytes(4, payloadLen) + LeBytes(4, RegionOff(payloadLen))
    + LeBytes(4, postLinkLen) + LeBytes(4, RegionOff(payloadLen) + postLinkLen)
  }

  /** Header and payload, zero-padded up to the region. */
  function Front(payload: seq<byte>, postLinkLen: nat): (s: seq<byte>)
    ensures |s| == RegionOff(|payload|)
  {
    Fields(|payload|, postLinkLen) + Filled(4, 0) + payload + Filled(RegionOff(|payload|) - HEADER_LEN - |payload|, 0)
  }

  /** The section image with an erased region. */
  function Image(payload: seq<byte>, postLinkLen: nat): seq<byte> {
    Front(payload, postLinkLen) + Filled(postLinkLen, ERASED)
  }

  predicate Fits(payload: seq<byte>, postLinkLen: nat) {
    |payload| <= PAYLOAD_MAX && RegionOff(|payload|) + postLinkLen <= SECTION_MAX
  }

  /** Copies bs into out from at on. */
  method Put(out: array<byte>, at: nat, bs: seq<byte>)
    requires at + |bs| <= out.Length
    modifies out
    ensures out[..] == old(out[..])[..at] + bs + old(out[..])[at + |bs|..]
  {
    for i := 0 to |bs|
      invariant out[..] == old(out[..])[..at] + bs[..i] + old(out[..])[at + i..]
    {
      out[at + i] := bs[i];
    }
  }

  /** Putting the next piece after what is there already, over zeros. */
  lemma PutNext(was: seq<byte>, now: seq<byte>, front: seq<byte>, bs: seq<byte>, m: nat)
    requires |bs| <= m && was == front + Filled(m, 0)
    requires now == was[..|front|] + bs + was[|front| + |bs|..]
    ensures now == (front + bs) + Filled(m - |bs|, 0)
  {
  }

  lemma SplitZeros(front: seq<byte>, m: nat, n: nat)
    requires n <= m
    ensures front + Filled(m, 0) == (front + Filled(n, 0)) + Filled(m - n, 0)
  {
  }

  /** Puts the next piece behind front in a buffer that is zero from there on. */
  method Append(out: array<byte>, ghost front: seq<byte>, at: nat, bs: seq<byte>)
    requires at == |front| && at + |bs| <= out.Length && out[..] == front + Filled(out.Length - at, 0)
    modifies out
    ensures out[..] == front + bs + Filled(out.Length - at - |bs|, 0)
  {
    ghost var was := out[..];
    Put(out, at, bs);
    PutNext(was, out[..], front, bs, out.Length - at);
  }

  method Encode(payload: seq<byte>, postLinkLen: nat) returns (r: Result<seq<byte>, EncodeError>)
    ensures r.Success? <==> Fits(payload, postLinkLen)
    ensures r.Success? ==> r.value == Image(payload, postLinkLen)
    ensures |payload| > PAYLOAD_MAX ==> r == Failure(PayloadTooLong(|payload|))
    ensures |payload| <= PAYLOAD_MAX && r.Failure? ==> r.error == SectionTooLarge(postLinkLen)
  {
    if |payload| > PAYLOAD_MAX {
      return Failure(PayloadTooLong(|payload|));
    }
    var regionOff := RegionOff(|payload|);
    var total := regionOff + postLinkLen;
    if total > SECTION_MAX {
      return Failure(SectionTooLarge(postLinkLen));
    }
    var out := new byte[total](_ => 0);
    assert out[..] == [] + Filled(total, 0);
    EncodeFields(out, |payload|, postLinkLen);
    ghost var front := Fields(|payload|, postLinkLen);
    SplitZeros(front, total - 28, 4);
    Append(out, front + Filled(4, 0), HEADER_LEN, payload);
    front := front + Filled(4, 0) + payload;
    SplitZeros(front, total - |front|, regionOff - |front|);
    front := front + Filled(regionOff - |front|, 0);
    Append(out, front, regionOff, Filled(postLinkLen, ERASED));
    assert front == Front(payload, postLinkLen);
    assert Filled(0, 0) == [];
    r := Success(out[..]);
  }

  method EncodeFields(out: array<byte>, payloadLen: nat, postLinkLen: nat)
    requires out.Length == RegionOff(payloadLen) + postLinkLen && out[..] == [] + Filled(out.Length, 0)
    modifies out
    ensures out[..] == Fields(payloadLen, postLinkLen) + Filled(out.Length - 28, 0)
  {
    var regionOff := RegionOff(payloadLen);
    ghost var front: seq<byte> := [];
    Append(out, front, 0, MAGIC);
    front := front + MAGIC;
    Append(out, front, 8, LeBytes(2, FORMAT));
    front := front + LeBytes(2, FORMAT);
    Append(out, front, 10, LeBytes(2, HEADER_LEN));
    front := front + LeBytes(2, HEADER_LEN);
    Append(out, front, 12, LeBytes(4, payloadLen));
    front := front + LeBytes(4, payloadLen);
    Append(out, front, 16, LeBytes(4, regionOff));
    front := front + LeBytes(4, regionOff);
    Append(out, front, 20, LeBytes(4, postLinkLen));
    front := front + LeBytes(4, postLinkLen);
    Append(out, front, 24, LeBytes(4, regionOff + postLinkLen));
    assert [] + MAGIC == MAGIC;
  }

  // ----- Round trip -----

  lemma SixFields(m: seq<byte>, a: seq<byte>, b: seq<byte>, c: seq<byte>, d: seq<byte>, e: seq<byte>, f: seq<byte>,
        s: seq<byte>)
    requires |m| == 8 && |a| == 2 && |b| == 2 && |c| == 4 && |d| == 4 && |e| == 4 && |f| == 4
    requires m + a + b + c + d + e + f <= s
    ensures s[..8] == m && s[8..10] == a && s[10..12] == b
    ensures s[12..16] == c && s[16..20] == d && s[20..24] == e && s[24..28] == f
  {
    var t := m + a + b + c + d + e + f;
    assert t[..8] == m && t[8..10] == a && t[10..12] == b;
    assert t[12..16] == c && t[16..20] == d && t[20..24] == e && t[24..28] == f;
    assert s[..28] == t;
  }

  /** The header read back from anything that starts with the encoded fields. */
  lemma FieldsRead(payload: seq<byte>, postLinkLen: nat, s: seq<byte>)
    requires Fits(payload, postLinkLen) && Fields(|payload|, postLinkLen) <= s && |s| >= HEADER_LEN
    ensures Starts(s)
    ensures var off := RegionOff(|payload|);
      HeaderOf(s) == Header(HEADER_LEN, |payload|, off, postLinkLen, off + postLinkLen)
  {
    var off := RegionOff(|payload|);
    SixFields(MAGIC, LeBytes(2, FORMAT), LeBytes(2, HEADER_LEN), LeBytes(4, |payload|), LeBytes(4, off),
      LeBytes(4, postLinkLen), LeBytes(4, off + postLinkLen), s);
    PowValues();
    LeRoundTrip(2, FORMAT);
    LeRoundTrip(2, HEADER_LEN);
    LeRoundTrip(4, |payload|);
    LeRoundTrip(4, off);
    LeRoundTrip(4, postLinkLen);
    LeRoundTrip(4, off + postLinkLen);
  }

  /** Whatever region and further bytes follow the front, the section is read back. */
  lemma {:induction false} ParsesFront(payload: seq<byte>, region: seq<byte>, rest: seq<byte>)
    requires Fits(payload, |region|)
    ensures Parse(Front(payload, |region|) + region + rest) == Success(Section(FORMAT, payload, region))
  {
    var front := Front(payload, |region|);
    var s := front + region + rest;
    assert Fields(|payload|, |region|) <= front <= s;
    FieldsRead(payload, |region|, s);
    assert s[HEADER_LEN..HEADER_LEN + |payload|] == front[HEADER_LEN..HEADER_LEN + |payload|] == payload;
    assert s[|front|..|front| + |region|] == region;
  }

  /** An image parses back to its payload and an erased region, whatever follows it. */
  lemma {:induction false} ImageRoundTrip(payload: seq<byte>, postLinkLen: nat, rest: seq<byte>)
    requires Fits(payload, postLinkLen)
    ensures Parse(Image(payload, postLinkLen) + rest)
      == Success(Section(FORMAT, payload, Filled(postLinkLen, ERASED)))
    ensures PostLinkOf(Filled(postLinkLen, ERASED))
      == if postLinkLen == 0 then NoRegion else if postLinkLen < 4 then Malformed else Erased
  {
    ParsesFront(payload, Filled(postLinkLen, ERASED), rest);
    var region := Filled(postLinkLen, ERASED);
    if postLinkLen >= 4 {
      assert region[..4] == [ERASED, ERASED, ERASED, ERASED];
    }
  }

  // ----- Prefix stability -----

  lemma SamePrefixSameHeader(bytes: seq<byte>, other: seq<byte>)
    requires |bytes| >= HEADER_LEN && |other| >= HEADER_LEN && bytes[..HEADER_LEN] == other[..HEADER_LEN]
    ensures Starts(bytes) <==> Starts(other)
    ensures HeaderOf(bytes) == HeaderOf(other)
  {
    SameField(bytes, other, 0, 8);
    SameField(bytes, other, 8, 2);
    SameField(bytes, other, 10, 2);
    SameField(bytes, other, 12, 4);
    SameField(bytes, other, 16, 4);
    SameField(bytes, other, 20, 4);
    SameField(bytes, other, 24, 4);
    assert bytes[..8] == bytes[0..8] && other[..8] == other[0..8];
  }

  lemma SameField(a: seq<byte>, b: seq<byte>, at: nat, n: nat)
    requires |a| >= HEADER_LEN && |b| >= HEADER_LEN && a[..HEADER_LEN] == b[..HEADER_LEN] && at + n <= HEADER_LEN
    ensures a[at..at + n] == b[at..at + n]
  {
    forall i | at <= i < at + n
      ensures a[i] == b[i]
    {
      assert a[i] == a[..HEADER_LEN][i] && b[i] == b[..HEADER_LEN][i];
    }
  }

  /** A parsed section does not depend on the bytes after its total length. */
  lemma {:induction false} RestDoesNotMatter(bytes: seq<byte>, rest: seq<byte>)
    requires Parse(bytes).Success?
    ensures Parse(bytes[..HeaderOf(bytes).totalLen] + rest) == Parse(bytes)
  {
    var h := HeaderOf(bytes);
    var s := bytes[..h.totalLen] + rest;
    assert s[..HEADER_LEN] == bytes[..HEADER_LEN];
    SamePrefixSameHeader(bytes, s);
    assert s[h.headerLen..h.headerLen + h.payloadLen] == bytes[h.headerLen..h.headerLen + h.payloadLen];
    assert s[h.regionOff..h.totalLen] == bytes[h.regionOff..h.totalLen];
  }

  /** Every shorter prefix of a section fails, and how depends only on its length. */
  lemma {:induction false} PrefixFails(bytes: seq<byte>, k: nat)
    requires Parse(bytes).Success? && k < HeaderOf(bytes).totalLen
    ensures Parse(bytes[..k]) == Failure(if k < 8 then NoMagic else Truncated)
  {
    var s := bytes[..k];
    if k >= 8 {
      assert s[..8] == bytes[..8];
      if k >= HEADER_LEN {
        assert s[..HEADER_LEN] == bytes[..HEADER_LEN];
        SamePrefixSameHeader(bytes, s);
      }
    }
  }

  // ----- The post-link region -----

  /** The envelope a tool writes: the length, then the data. */
  function Envelope(data: seq<byte>): seq<byte> {
    LeBytes(4, |data|) + data
  }

  lemma AllOnes()
    ensures FromLe([ERASED, ERASED, ERASED, ERASED]) == 0xFFFF_FFFF
  {
    assert FromLe([]) == 0;
    assert [ERASED][1..] == [] && FromLe([ERASED]) == 0xFF;
    assert [ERASED, ERASED][1..] == [ERASED] && FromLe([ERASED, ERASED]) == 0xFFFF;
    assert [ERASED, ERASED, ERASED][1..] == [ERASED, ERASED] && FromLe([ERASED, ERASED, ERASED]) == 0xFF_FFFF;
    assert [ERASED, ERASED, ERASED, ERASED][1..] == [ERASED, ERASED, ERASED];
  }

  /** A region counts as written with data exactly when it starts with that data's envelope. */
  lemma WrittenIff(region: seq<byte>, data: seq<byte>)
    requires |data| < 0xFFFF_FFFF
    ensures PostLinkOf(region) == Written(data) <==> Envelope(data) <= region
  {
    PowValues();
    AllOnes();
    LeRoundTrip(4, |data|);
    if |region| >= 4 {
      var head := region[..4];
      assert region[0..4] == head;
      FromLeRoundTrip(head);
      if Envelope(data) <= region {
        assert head == Envelope(data)[..4] == LeBytes(4, |data|);
        assert region[4..][..|data|] == region[4..4 + |data|] == Envelope(data)[4..] == data;
      }
      if PostLinkOf(region) == Written(data) {
        var n := |data|;
        assert FromLe(head) == n && head == LeBytes(4, n);
        assert region[..4 + n] == head + region[4..][..n];
      }
    }
  }

  /** Bytes put over others at a position. */
  function Patched(image: seq<byte>, at: nat, bs: seq<byte>): seq<byte>
    requires at + |bs| <= |image|
  {
    image[..at] + bs + image[at + |bs|..]
  }

  lemma PatchedRegion(front: seq<byte>, region: seq<byte>, bs: seq<byte>, rest: seq<byte>)
    requires |bs| <= |region|
    ensures Patched(front + region, |front|, bs) + rest == front + (bs + region[|bs|..]) + rest
  {
  }

  /** Data written over the start of an image's region is read back, and the payload stays. */
  lemma PatchedImage(payload: seq<byte>, postLinkLen: nat, data: seq<byte>, rest: seq<byte>)
    requires Fits(payload, postLinkLen) && |Envelope(data)| <= postLinkLen
    ensures var r := Parse(Patched(Image(payload, postLinkLen), RegionOff(|payload|), Envelope(data)) + rest);
      r.Success? && r.value.payload == payload && PostLinkOf(r.value.region) == Written(data)
  {
    var erased := Filled(postLinkLen, ERASED);
    var region := Envelope(data) + erased[|Envelope(data)|..];
    PatchedRegion(Front(payload, postLinkLen), erased, Envelope(data), rest);
    ParsesFront(payload, region, rest);
    WrittenIff(region, data);
  }
}
