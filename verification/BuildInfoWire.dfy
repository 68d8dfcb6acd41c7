/** The section's bytes, written out: which byte is what, and what is read from which. */
module BuildInfoWire {
  import opened Wrappers
  import opened Bytes
  import opened PlaceValues
  import opened BuildInfo

  lemma FieldIs(bs: seq<byte>, at: nat, n: nat)
    requires IsSize(n) && at + n <= |bs|
    ensures Field(bs, at, n) == NumberAt(bs, at, n, false)
  {
    NumberIs(bs, at, n, false);
  }

  // ----- Reading -----

  /** "AIMDB-BI", then the format, one, and the whole header. */
  predicate HasHeader(bs: seq<byte>) {
    && |bs| >= 32
    && bs[..8] == [0x41, 0x49, 0x4D, 0x44, 0x42, 0x2D, 0x42, 0x49]
    && NumberAt(bs, 8, 2, false) == 1
  }

  /** What the header's numbers must satisfy. */
  predicate Agrees(bs: seq<byte>)
    requires |bs| >= 32
  {
    var header, payload := NumberAt(bs, 10, 2, false), NumberAt(bs, 12, 4, false);
    var off, region, total := NumberAt(bs, 16, 4, false), NumberAt(bs, 20, 4, false), NumberAt(bs, 24, 4, false);
    32 <= header && header + payload <= off && off % 8 == 0 && off + region == total <= 65536
  }

  lemma HeaderIs(bs: seq<byte>)
    requires |bs| >= 32
    ensures Starts(bs) <==> HasHeader(bs)
    ensures HeaderOf(bs).Consistent() <==> Agrees(bs)
    ensures HeaderOf(bs) == Header(NumberAt(bs, 10, 2, false), NumberAt(bs, 12, 4, false), NumberAt(bs, 16, 4, false),
      NumberAt(bs, 20, 4, false), NumberAt(bs, 24, 4, false))
  {
    FieldIs(bs, 8, 2);
    FieldIs(bs, 10, 2);
    FieldIs(bs, 12, 4);
    FieldIs(bs, 16, 4);
    FieldIs(bs, 20, 4);
    FieldIs(bs, 24, 4);
  }

  /** Parsing succeeds exactly on a header whose numbers agree and a whole section, and cuts out payload and region by them. */
  lemma ParseReads(bs: seq<byte>)
    ensures Parse(bs).Success? <==> HasHeader(bs) && Agrees(bs) && NumberAt(bs, 24, 4, false) <= |bs|
    ensures Parse(bs).Success? ==>
      var header, payload := NumberAt(bs, 10, 2, false), NumberAt(bs, 12, 4, false);
      var off, total := NumberAt(bs, 16, 4, false), NumberAt(bs, 24, 4, false);
      Parse(bs).value == Section(1, bs[header..header + payload], bs[off..total])
  {
    if |bs| >= 32 {
      HeaderIs(bs);
    }
  }

  // ----- Writing -----

  /** The four bytes from at on are a number's, least significant first. */
  predicate IsWord(bs: seq<byte>, at: nat, x: nat)
    requires at + 4 <= |bs|
  {
    bs[at] == Octet(x, 0) && bs[at + 1] == Octet(x, 1) && bs[at + 2] == Octet(x, 2) && bs[at + 3] == Octet(x, 3)
  }

  /** The header: magic, format one, its length 32, the four lengths and offsets, and zeros. */
  predicate IsHeader(bs: seq<byte>, payload: nat, off: nat, region: nat)
    requires |bs| >= 32
  {
    && bs[..12] == [0x41, 0x49, 0x4D, 0x44, 0x42, 0x2D, 0x42, 0x49, 1, 0, 32, 0]
    && IsWord(bs, 12, payload) && IsWord(bs, 16, off) && IsWord(bs, 20, region) && IsWord(bs, 24, off + region)
    && bs[28..32] == [0, 0, 0, 0]
  }

  lemma WordIs(x: nat)
    ensures IsWord(LeBytes(4, x), 0, x)
  {
    LeBytesAre(4, x, 0);
    LeBytesAre(4, x, 1);
    LeBytesAre(4, x, 2);
    LeBytesAre(4, x, 3);
  }

  lemma WordAt(bs: seq<byte>, at: nat, x: nat)
    requires at + 4 <= |bs| && bs[at..at + 4] == LeBytes(4, x)
    ensures IsWord(bs, at, x)
  {
    WordIs(x);
    forall k | 0 <= k < 4
      ensures bs[at + k] == LeBytes(4, x)[k]
    {
      assert bs[at..at + 4][k] == bs[at + k];
    }
  }

  lemma TwoBytes(x: byte)
    ensures LeBytes(2, x) == [x, 0]
  {
    LeBytesAre(2, x, 0);
    LeBytesAre(2, x, 1);
  }

  lemma HeaderWire(payload: seq<byte>, postLinkLen: nat, bs: seq<byte>)
    requires |bs| >= 32 && Fields(|payload|, postLinkLen) <= bs && bs[28..32] == [0, 0, 0, 0]
    ensures IsHeader(bs, |payload|, RegionOff(|payload|), postLinkLen)
  {
    var off := RegionOff(|payload|);
    SixFields(MAGIC, LeBytes(2, FORMAT), LeBytes(2, HEADER_LEN), LeBytes(4, |payload|), LeBytes(4, off),
      LeBytes(4, postLinkLen), LeBytes(4, off + postLinkLen), bs);
    FirstTwelve(bs);
    Words(bs, |payload|, off, postLinkLen);
  }

  lemma Words(bs: seq<byte>, payload: nat, off: nat, region: nat)
    requires |bs| >= 32 && bs[12..16] == LeBytes(4, payload) && bs[16..20] == LeBytes(4, off)
    requires bs[20..24] == LeBytes(4, region) && bs[24..28] == LeBytes(4, off + region)
    ensures IsWord(bs, 12, payload) && IsWord(bs, 16, off) && IsWord(bs, 20, region) && IsWord(bs, 24, off + region)
  {
    WordAt(bs, 12, payload);
    WordAt(bs, 16, off);
    WordAt(bs, 20, region);
    WordAt(bs, 24, off + region);
  }

  lemma FirstTwelve(bs: seq<byte>)
    requires |bs| >= 32 && bs[..8] == MAGIC && bs[8..10] == LeBytes(2, FORMAT) && bs[10..12] == LeBytes(2, HEADER_LEN)
    ensures bs[..12] == [0x41, 0x49, 0x4D, 0x44, 0x42, 0x2D, 0x42, 0x49, 1, 0, 32, 0]
  {
    TwoBytes(1);
    TwoBytes(32);
    assert bs[..12] == bs[..8] + bs[8..10] + bs[10..12];
  }

  /** Where the region starts: the first multiple of eight behind header and payload. */
  predicate IsRegionOff(payload: nat, off: nat) {
    off % 8 == 0 && 32 + payload <= off < 40 + payload
  }

  /** An image is the header, the payload, zeros up to the region and a region of ones. */
  lemma ImageBytes(payload: seq<byte>, postLinkLen: nat)
    ensures var image, off := Image(payload, postLinkLen), RegionOff(|payload|);
      && IsRegionOff(|payload|, off) && |image| == off + postLinkLen
      && IsHeader(image, |payload|, off, postLinkLen)
      && image[32..32 + |payload|] == payload
      && (forall i :: 32 + |payload| <= i < off ==> image[i] == 0)
      && (forall i :: off <= i < |image| ==> image[i] == 0xFF)
  {
    var head := Fields(|payload|, postLinkLen) + Filled(4, 0);
    var zeros := Filled(RegionOff(|payload|) - HEADER_LEN - |payload|, 0);
    var image := Image(payload, postLinkLen);
    assert image == head + (payload + (zeros + Filled(postLinkLen, ERASED)));
    assert image[28..32] == Filled(4, 0) == [0, 0, 0, 0];
    HeaderWire(payload, postLinkLen, image);
  }

  /** What fits: a payload of 4096 bytes, and a section of 65536. */
  lemma FitsIs(payload: seq<byte>, postLinkLen: nat, off: nat)
    requires IsRegionOff(|payload|, off)
    ensures Fits(payload, postLinkLen) <==> |payload| <= 4096 && off + postLinkLen <= 65536
  {
  }

  // ----- The post-link region -----

  /** The four states of a region, by its first bytes. */
  lemma RegionIs(region: seq<byte>)
    ensures PostLinkOf(region) == NoRegion <==> region == []
    ensures PostLinkOf(region) == Erased <==> |region| >= 4 && region[..4] == [0xFF, 0xFF, 0xFF, 0xFF]
    ensures forall data :: PostLinkOf(region) == Written(data) <==>
      && |region| >= 4 && region[..4] != [0xFF, 0xFF, 0xFF, 0xFF]
      && NumberAt(region, 0, 4, false) == |data| <= |region| - 4 && region[4..4 + |data|] == data
    ensures PostLinkOf(region) == Malformed <==>
      || 0 < |region| < 4
      || (|region| >= 4 && region[..4] != [0xFF, 0xFF, 0xFF, 0xFF] && NumberAt(region, 0, 4, false) > |region| - 4)
  {
    if |region| >= 4 {
      FieldIs(region, 0, 4);
      var len := NumberAt(region, 0, 4, false);
      if len <= |region| - 4 {
        assert region[4..][..len] == region[4..4 + len];
      }
    }
  }

  /** The envelope around data is its length in four bytes. */
  lemma EnvelopeIs(data: seq<byte>)
    ensures |Envelope(data)| == 4 + |data| && IsWord(Envelope(data), 0, |data|) && Envelope(data)[4..] == data
  {
    WordIs(|data|);
  }
}
