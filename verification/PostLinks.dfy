/**
 Reading the post-link bytes over a connection: the client's download loop (engine.rs) against
 any peer, and the server's chunks (instance.rs).
 */
module PostLinks {
  import opened Wrappers
  import opened Bytes
  import opened Lists
  import BuildInfo
  import Hex

  const CHUNK_MAX: nat := 1024

  datatype Chunk = Chunk(offset: nat, total: nat, data: string)

  /** What a call comes back with. */
  datatype Reply = NotFound | Refused | Undecodable | Answer(chunk: Chunk)

  /** How a peer answers call number k for len bytes at an offset. */
  type Peer = (nat, nat, nat) -> Reply

  datatype ClientError =
    | Rpc
    | BadJson
    | TotalTooLarge(total: nat)
    | TotalChanged
    | WrongOffset
    | TooManyDigits
    | BadHex(error: Hex.HexError)
    | PastTotal
    | EmptyChunk

  /** The bytes of a chunk read at offset, if it fits a download of total bytes. */
  function CheckChunk(chunk: Chunk, offset: nat, total: nat): (r: Result<seq<byte>, ClientError>)
    requires offset <= total
    ensures r.Success? <==>
      && total < BuildInfo.SECTION_MAX && chunk.total == total && chunk.offset == offset
      && |chunk.data| <= 2 * CHUNK_MAX && Hex.Decode(chunk.data).Success?
      && |Hex.Decode(chunk.data).value| <= total - offset
      && (|Hex.Decode(chunk.data).value| == 0 ==> offset == total)
    ensures r.Success? ==> r.value == Hex.Decode(chunk.data).value
  {
    if total >= BuildInfo.SECTION_MAX then Failure(TotalTooLarge(total))
    else if chunk.total != total then Failure(TotalChanged)
    else if chunk.offset != offset then Failure(WrongOffset)
    else if |chunk.data| > 2 * CHUNK_MAX then Failure(TooManyDigits)
    else
      var bytes := Hex.Decode(chunk.data);
      if bytes.Failure? then Failure(BadHex(bytes.error))
      else if |bytes.value| > total - offset then Failure(PastTotal)
      else if bytes.value == [] && total - offset > 0 then Failure(EmptyChunk)
      else Success(bytes.value)
  }

  type Outcome = Result<Option<seq<byte>>, ClientError>

  /** Between two calls: nothing read yet, or less than the total. */
  predicate Partway(data: seq<byte>, total: Option<nat>) {
    match total
    case None => data == []
    case Some(t) => |data| < t < BuildInfo.SECTION_MAX
  }

  function Left(data: seq<byte>, total: Option<nat>): nat
    requires Partway(data, total)
  {
    if total.Some? then total.value - |data| else BuildInfo.SECTION_MAX
  }

  /** The result of a download that has data after k calls, and how many calls it makes in all. */
  function Download(peer: Peer, k: nat, data: seq<byte>, total: Option<nat>): (Outcome, nat)
    requires Partway(data, total)
    decreases Left(data, total)
  {
    match peer(k, |data|, CHUNK_MAX)
    case NotFound => (Success(None), k + 1)
    case Refused => (Failure(Rpc), k + 1)
    case Undecodable => (Failure(BadJson), k + 1)
    case Answer(chunk) =>
      var t := if total.Some? then total.value else chunk.total;
      var bytes := CheckChunk(chunk, |data|, t);
      if bytes.Failure? then (Failure(bytes.error), k + 1)
      else if |data + bytes.value| == t then (Success(Some(data + bytes.value)), k + 1)
      else Download(peer, k + 1, data + bytes.value, Some(t))
  }

  method PostLink(peer: Peer) returns (r: Outcome, calls: nat)
    ensures (r, calls) == Download(peer, 0, [], None)
  {
    var data: seq<byte>, total: Option<nat> := [], None;
    calls := 0;
    while true
      invariant Partway(data, total)
      invariant Download(peer, 0, [], None) == Download(peer, calls, data, total)
      decreases Left(data, total)
    {
      var offset := |data|;
      var reply := peer(calls, offset, CHUNK_MAX);
      calls := calls + 1;
      match reply {
        case NotFound => return Success(None), calls;
        case Refused => return Failure(Rpc), calls;
        case Undecodable => return Failure(BadJson), calls;
        case Answer(chunk) =>
          var t := if total.Some? then total.value else chunk.total;
          var bytes := CheckChunk(chunk, offset, t);
          if bytes.Failure? {
            return Failure(bytes.error), calls;
          }
          data := data + bytes.value;
          if |data| == t {
            return Success(Some(data)), calls;
          }
          total := Some(t);
      }
    }
  }

  // ----- Against any peer -----

  /** The total of the peer's first answer, if it gives one a section could hold. */
  function FirstTotal(peer: Peer): Option<nat> {
    match peer(0, 0, CHUNK_MAX)
    case Answer(chunk) => if chunk.total < BuildInfo.SECTION_MAX then Some(chunk.total) else None
    case _ => None
  }

  lemma {:induction false} CallsBound(peer: Peer, k: nat, data: seq<byte>, total: nat)
    requires Partway(data, Some(total))
    ensures k < Download(peer, k, data, Some(total)).1 <= k + total - |data|
    decreases Left(data, Some(total))
  {
    if peer(k, |data|, CHUNK_MAX).Answer? {
      var bytes := CheckChunk(peer(k, |data|, CHUNK_MAX).chunk, |data|, total);
      if bytes.Success? && |data + bytes.value| != total {
        CallsBound(peer, k + 1, data + bytes.value, total);
      }
    }
  }

  /** Whatever the peer answers, a download ends after as many calls as bytes it was promised. */
  lemma FewCalls(peer: Peer)
    ensures var calls := Download(peer, 0, [], None).1;
      1 <= calls <= match FirstTotal(peer) case None => 1 case Some(t) => if t == 0 then 1 else t
  {
    if peer(0, 0, CHUNK_MAX).Answer? {
      var chunk := peer(0, 0, CHUNK_MAX).chunk;
      var bytes := CheckChunk(chunk, 0, chunk.total);
      if bytes.Success? && |[] + bytes.value| != chunk.total {
        CallsBound(peer, 1, [] + bytes.value, chunk.total);
      }
    }
  }

  /**
   The bytes parts[k] were the peer's answer to call k for what was missing then: at that offset,
   of that total, not more than was asked for, and none empty before the end.
   */
  ghost predicate Answered(peer: Peer, parts: seq<seq<byte>>, total: nat, k: nat)
    requires k < |parts|
  {
    var offset := |Flatten(parts, k)|;
    && peer(k, offset, CHUNK_MAX).Answer?
    && var chunk := peer(k, offset, CHUNK_MAX).chunk;
      && chunk.offset == offset && chunk.total == total && |chunk.data| <= 2 * CHUNK_MAX
      && Hex.Decode(chunk.data) == Success(parts[k])
      && (parts[k] == [] ==> total == 0)
  }

  /** The parts are answers, each to a call made while bytes were missing. */
  ghost predicate AllAnswered(peer: Peer, parts: seq<seq<byte>>, total: nat) {
    forall k :: 0 <= k < |parts| ==>
      Answered(peer, parts, total, k) && (|Flatten(parts, k)| < total || k == 0)
  }

  /** A complete download: answers that together have exactly the promised length. */
  ghost predicate Complete(peer: Peer, parts: seq<seq<byte>>, total: nat) {
    && total < BuildInfo.SECTION_MAX && |parts| > 0
    && AllAnswered(peer, parts, total)
    && |Flatten(parts, |parts|)| == total
  }

  /** The bytes call k brings, if its answer is one to go on with. */
  ghost function NextBytes(peer: Peer, k: nat, offset: nat, total: nat): Option<seq<byte>> {
    if offset <= total && peer(k, offset, CHUNK_MAX).Answer? then
      var bytes := CheckChunk(peer(k, offset, CHUNK_MAX).chunk, offset, total);
      if bytes.Success? then Some(bytes.value) else None
    else None
  }

  lemma {:induction false} FlattenExtends(parts: seq<seq<byte>>, last: seq<byte>, n: nat)
    requires n <= |parts|
    ensures Flatten(parts + [last], n) == Flatten(parts, n)
  {
    FlattenPrefix(parts + [last], parts, n);
  }

  lemma DownloadStep(peer: Peer, k: nat, data: seq<byte>, total: nat)
    requires Partway(data, Some(total))
    ensures var next, r := NextBytes(peer, k, |data|, total), Download(peer, k, data, Some(total));
      if next.None? then !(r.0.Success? && r.0.value.Some?)
      else if |data + next.value| == total then r == (Success(Some(data + next.value)), k + 1)
      else (
        && Partway(data + next.value, Some(total)) && |next.value| > 0
        && r == Download(peer, k + 1, data + next.value, Some(total))
      )
  {
  }

  lemma {:induction false} ResultIsComplete(peer: Peer, parts: seq<seq<byte>>, total: nat) returns (all: seq<seq<byte>>)
    requires parts != [] && Partway(Flatten(parts, |parts|), Some(total)) && AllAnswered(peer, parts, total)
    ensures var r := Download(peer, |parts|, Flatten(parts, |parts|), Some(total)).0;
      r.Success? && r.value.Some? ==> Complete(peer, all, total) && r.value.value == Flatten(all, |all|)
    decreases Left(Flatten(parts, |parts|), Some(total))
  {
    var data := Flatten(parts, |parts|);
    var next := NextBytes(peer, |parts|, |data|, total);
    DownloadStep(peer, |parts|, data, total);
    all := parts;
    if next.Some? {
      all := parts + [next.value];
      Extended(peer, parts, total, next.value);
      if |data + next.value| != total {
        all := ResultIsComplete(peer, all, total);
      }
    }
  }

  lemma Extended(peer: Peer, parts: seq<seq<byte>>, total: nat, last: seq<byte>)
    requires AllAnswered(peer, parts, total) && (|Flatten(parts, |parts|)| < total || parts == [])
    requires NextBytes(peer, |parts|, |Flatten(parts, |parts|)|, total) == Some(last)
    ensures AllAnswered(peer, parts + [last], total)
    ensures Flatten(parts + [last], |parts| + 1) == Flatten(parts, |parts|) + last
  {
    var all := parts + [last];
    FlattenExtends(parts, last, |parts|);
    forall k | 0 <= k < |all|
      ensures Answered(peer, all, total, k) && (|Flatten(all, k)| < total || k == 0)
    {
      FlattenExtends(parts, last, k);
      assert k < |parts| ==> Answered(peer, parts, total, k);
    }
  }

  lemma {:induction false} CompleteIsResult(peer: Peer, parts: seq<seq<byte>>, total: nat, k: nat)
    requires Complete(peer, parts, total) && 0 < k < |parts|
    ensures Download(peer, k, Flatten(parts, k), Some(total)) == (Success(Some(Flatten(parts, |parts|))), |parts|)
    decreases |parts| - k
  {
    assert Answered(peer, parts, total, k);
    Shorter(parts, k + 1, |parts|);
    if k + 1 < |parts| {
      CompleteIsResult(peer, parts, total, k + 1);
    }
  }

  lemma {:induction false} Shorter(parts: seq<seq<byte>>, k: nat, n: nat)
    requires k <= n <= |parts|
    ensures |Flatten(parts, k)| <= |Flatten(parts, n)|
  {
    if k < n {
      Shorter(parts, k, n - 1);
    }
  }

  lemma {:induction false} DataIsComplete(peer: Peer, data: seq<byte>) returns (parts: seq<seq<byte>>)
    requires Download(peer, 0, [], None).0 == Success(Some(data))
    ensures Complete(peer, parts, |data|) && Flatten(parts, |parts|) == data && FirstTotal(peer) == Some(|data|)
  {
    var chunk := peer(0, 0, CHUNK_MAX).chunk;
    var first := CheckChunk(chunk, 0, chunk.total).value;
    assert Flatten<byte>([], 0) == [] && [] + first == first;
    Extended(peer, [], chunk.total, first);
    parts := [] + [first];
    if |first| != chunk.total {
      parts := ResultIsComplete(peer, parts, chunk.total);
    }
  }

  lemma {:induction false} CompleteIsData(peer: Peer, parts: seq<seq<byte>>, total: nat)
    requires Complete(peer, parts, total)
    ensures Download(peer, 0, [], None).0 == Success(Some(Flatten(parts, |parts|)))
  {
    assert Answered(peer, parts, total, 0);
    assert Flatten(parts, 1) == [] + parts[0] == parts[0];
    Shorter(parts, 1, |parts|);
    if |parts| > 1 {
      CompleteIsResult(peer, parts, total, 1);
    }
  }

  /**
   Data comes back exactly when the peer's answers make a complete download, and then it is those
   answers' bytes: as many as the first answer promised, fewer than a section holds.
   */
  lemma {:induction false} DownloadIff(peer: Peer, data: seq<byte>)
    ensures Download(peer, 0, [], None).0 == Success(Some(data)) <==>
      exists parts: seq<seq<byte>> :: Complete(peer, parts, |data|) && Flatten(parts, |parts|) == data
    ensures Download(peer, 0, [], None).0 == Success(Some(data)) ==> FirstTotal(peer) == Some(|data|)
  {
    if Download(peer, 0, [], None).0 == Success(Some(data)) {
      var parts := DataIsComplete(peer, data);
    }
    if parts: seq<seq<byte>> :| Complete(peer, parts, |data|) && Flatten(parts, |parts|) == data {
      CompleteIsData(peer, parts, |data|);
    }
  }

  // ----- How else a download ends -----

  /** The first rule a chunk read at offset breaks, in a download of total bytes. */
  predicate Breaks(chunk: Chunk, offset: nat, total: nat, e: ClientError) {
    var hex := Hex.Decode(chunk.data);
    match e
    case TotalTooLarge(t) => t == total >= 65536
    case TotalChanged => total < 65536 && chunk.total != total
    case WrongOffset => total < 65536 && chunk.total == total && chunk.offset != offset
    case TooManyDigits => Addressed(chunk, offset, total) && |chunk.data| > 2048
    case BadHex(h) => Addressed(chunk, offset, total) && |chunk.data| <= 2048 && hex == Failure(h)
    case PastTotal => Addressed(chunk, offset, total) && |chunk.data| <= 2048 && hex.Success? && offset + |hex.value| > total
    case EmptyChunk => Addressed(chunk, offset, total) && hex == Success([]) && offset < total
    case _ => false
  }

  predicate Addressed(chunk: Chunk, offset: nat, total: nat) {
    total < 65536 && chunk.total == total && chunk.offset == offset
  }

  lemma CheckChunkErrors(chunk: Chunk, offset: nat, total: nat, e: ClientError)
    requires offset <= total
    ensures CheckChunk(chunk, offset, total) == Failure(e) <==> Breaks(chunk, offset, total, e)
  {
    Hex.DecodesIff(chunk.data);
  }

  /** Between two calls: the answers so far were all accepted, and bytes are missing. */
  ghost predicate Underway(peer: Peer, parts: seq<seq<byte>>, total: Option<nat>) {
    match total
    case None => parts == []
    case Some(t) => parts != [] && t < 65536 && AllAnswered(peer, parts, t) && |Flatten(parts, |parts|)| < t
  }

  /** What the next call comes back with. */
  function NextReply(peer: Peer, parts: seq<seq<byte>>): Reply {
    peer(|parts|, |Flatten(parts, |parts|)|, 1024)
  }

  function TotalOf(chunk: Chunk, total: Option<nat>): nat {
    if total.Some? then total.value else chunk.total
  }

  /** A download that has come so far goes on from there. */
  lemma {:induction false} RunFrom(peer: Peer, parts: seq<seq<byte>>, t: nat, k: nat)
    requires Underway(peer, parts, Some(t)) && 0 < k <= |parts|
    ensures Partway(Flatten(parts, k), Some(t))
    ensures Download(peer, k, Flatten(parts, k), Some(t)) == Download(peer, |parts|, Flatten(parts, |parts|), Some(t))
    decreases |parts| - k
  {
    Shorter(parts, k, |parts|);
    if k < |parts| {
      assert Answered(peer, parts, t, k);
      Shorter(parts, k + 1, |parts|);
      RunFrom(peer, parts, t, k + 1);
    }
  }

  lemma UnderwayIsRun(peer: Peer, parts: seq<seq<byte>>, total: Option<nat>)
    requires Underway(peer, parts, total)
    ensures Partway(Flatten(parts, |parts|), total)
    ensures Download(peer, 0, [], None) == Download(peer, |parts|, Flatten(parts, |parts|), total)
  {
    if total.Some? {
      assert Answered(peer, parts, total.value, 0);
      assert Flatten(parts, 1) == [] + parts[0] == parts[0];
      Shorter(parts, 1, |parts|);
      RunFrom(peer, parts, total.value, 1);
    }
  }

  /** The reply ends the download like this. */
  ghost predicate EndsWith(peer: Peer, parts: seq<seq<byte>>, total: Option<nat>, r: Outcome) {
    var offset := |Flatten(parts, |parts|)|;
    match NextReply(peer, parts)
    case NotFound => r == Success(None)
    case Refused => r == Failure(Rpc)
    case Undecodable => r == Failure(BadJson)
    case Answer(chunk) =>
      (r.Failure? && Breaks(chunk, offset, TotalOf(chunk, total), r.error)) || (r.Success? && r.value.Some?)
  }

  /** Every download ends with the reply to some call made while bytes were missing. */
  lemma {:induction false} EndFrom(peer: Peer, parts: seq<seq<byte>>, total: Option<nat>)
      returns (all: seq<seq<byte>>, t: Option<nat>)
    requires Underway(peer, parts, total) && Partway(Flatten(parts, |parts|), total)
    ensures Underway(peer, all, t)
    ensures EndsWith(peer, all, t, Download(peer, |parts|, Flatten(parts, |parts|), total).0)
    decreases Left(Flatten(parts, |parts|), total)
  {
    all, t := parts, total;
    var data := Flatten(parts, |parts|);
    if NextReply(peer, parts).Answer? {
      var chunk := NextReply(peer, parts).chunk;
      var n := TotalOf(chunk, total);
      var bytes := CheckChunk(chunk, |data|, n);
      if bytes.Failure? {
        CheckChunkErrors(chunk, |data|, n, bytes.error);
      } else if |data + bytes.value| != n {
        Extended(peer, parts, n, bytes.value);
        all, t := EndFrom(peer, parts + [bytes.value], Some(n));
      }
    }
  }

  lemma {:induction false} DownloadEnds(peer: Peer) returns (parts: seq<seq<byte>>, total: Option<nat>)
    ensures Underway(peer, parts, total) && EndsWith(peer, parts, total, Download(peer, 0, [], None).0)
  {
    parts, total := EndFrom(peer, [], None);
  }

  /** Nothing comes back if and only if some call is answered so, after accepted answers that left bytes missing. */
  lemma {:induction false} NoneIff(peer: Peer)
    ensures Download(peer, 0, [], None).0 == Success(None) <==>
      exists parts, total :: Underway(peer, parts, total) && NextReply(peer, parts).NotFound?
  {
    var parts, total := DownloadEnds(peer);
    if parts, total :| Underway(peer, parts, total) && NextReply(peer, parts).NotFound? {
      UnderwayIsRun(peer, parts, total);
    }
  }

  /** A download fails as refused or undecodable if and only if such a call is. */
  lemma {:induction false} CallFailsIff(peer: Peer)
    ensures Download(peer, 0, [], None).0 == Failure(Rpc) <==>
      exists parts, total :: Underway(peer, parts, total) && NextReply(peer, parts).Refused?
    ensures Download(peer, 0, [], None).0 == Failure(BadJson) <==>
      exists parts, total :: Underway(peer, parts, total) && NextReply(peer, parts).Undecodable?
  {
    var parts, total := DownloadEnds(peer);
    if parts, total :| Underway(peer, parts, total) && NextReply(peer, parts).Refused? {
      UnderwayIsRun(peer, parts, total);
    }
    if parts, total :| Underway(peer, parts, total) && NextReply(peer, parts).Undecodable? {
      UnderwayIsRun(peer, parts, total);
    }
  }

  /** The chunk that ends a download breaks this rule first. */
  ghost predicate BreaksAt(peer: Peer, parts: seq<seq<byte>>, total: Option<nat>, e: ClientError) {
    && Underway(peer, parts, total) && NextReply(peer, parts).Answer?
    && var chunk := NextReply(peer, parts).chunk;
      Breaks(chunk, |Flatten(parts, |parts|)|, TotalOf(chunk, total), e)
  }

  /** Any other failure is that of the first chunk that breaks a rule: the first rule it breaks. */
  lemma {:induction false} ChunkFailsIff(peer: Peer, e: ClientError)
    requires !e.Rpc? && !e.BadJson?
    ensures Download(peer, 0, [], None).0 == Failure(e) <==> exists parts, total :: BreaksAt(peer, parts, total, e)
  {
    var parts, total := DownloadEnds(peer);
    if Download(peer, 0, [], None).0 == Failure(e) {
      assert BreaksAt(peer, parts, total, e);
    }
    if parts, total :| BreaksAt(peer, parts, total, e) {
      UnderwayIsRun(peer, parts, total);
      var chunk, offset := NextReply(peer, parts).chunk, |Flatten(parts, |parts|)|;
      CheckChunkErrors(chunk, offset, TotalOf(chunk, total), e);
    }
  }

  // ----- Against an honest peer -----

  /** Serves s in chunks of its own choice: never empty before the end, never more than asked for. */
  ghost predicate Honest(peer: Peer, s: seq<byte>) {
    forall k: nat, offset: nat, len: nat {:trigger peer(k, offset, len)} :: offset <= |s| ==> Serves(peer(k, offset, len), s, offset, len)
  }

  ghost predicate Serves(reply: Reply, s: seq<byte>, offset: nat, len: nat)
    requires offset <= |s|
  {
    && reply.Answer? && reply.chunk.offset == offset && reply.chunk.total == |s|
    && var bytes := Hex.Decode(reply.chunk.data);
      && bytes.Success? && |bytes.value| <= len && bytes.value <= s[offset..]
      && (bytes.value == [] && len > 0 ==> offset == |s|)
  }

  lemma {:induction false} HonestStep(peer: Peer, s: seq<byte>, k: nat, data: seq<byte>, total: Option<nat>)
    requires Honest(peer, s) && |s| < BuildInfo.SECTION_MAX && data <= s && Partway(data, total)
    requires total.Some? ==> total.value == |s|
    ensures Download(peer, k, data, total).0 == Success(Some(s))
    decreases Left(data, total)
  {
    var reply := peer(k, |data|, CHUNK_MAX);
    assert Serves(reply, s, |data|, CHUNK_MAX);
    Hex.DecodesIff(reply.chunk.data);
    var bytes := CheckChunk(reply.chunk, |data|, |s|);
    assert data + bytes.value <= s by {
      assert s == data + s[|data|..];
    }
    if |data + bytes.value| == |s| {
      assert data + bytes.value == s;
    } else {
      HonestStep(peer, s, k + 1, data + bytes.value, Some(|s|));
    }
  }

  /** An honest peer's bytes are downloaded, however it cuts them. */
  lemma HonestDownload(peer: Peer, s: seq<byte>)
    requires Honest(peer, s) && |s| < BuildInfo.SECTION_MAX
    ensures Download(peer, 0, [], None).0 == Success(Some(s))
  {
    HonestStep(peer, s, 0, [], None);
  }

  // ----- The server -----

  function Min(a: nat, b: nat): nat {
    if a <= b then a else b
  }

  /** The server's reply for the written bytes of its region, or that there are none. */
  function ChunkReply(region: BuildInfo.PostLink, offset: nat, len: Option<nat>): Reply {
    match region
    case Written(data) =>
      var n := Min(if len.Some? then len.value else CHUNK_MAX, CHUNK_MAX);
      var start := Min(offset, |data|);
      var end := Min(start + n, |data|);
      Answer(Chunk(offset, |data|, Hex.Encode(data[start..end])))
    case _ => NotFound
  }

  /** What is served of some bytes: from the offset on, as many as asked for, at most 1024. */
  predicate IsServed(data: seq<byte>, offset: nat, len: Option<nat>, bytes: seq<byte>) {
    if offset >= |data| then bytes == []
    else
      && bytes <= data[offset..] && |bytes| <= 1024 && (len.Some? ==> |bytes| <= len.value)
      && (|bytes| == 1024 || len == Some(|bytes|) || |bytes| == |data| - offset)
  }

  lemma ServedIs(data: seq<byte>, offset: nat, len: Option<nat>)
    ensures var start := Min(offset, |data|);
      var end := Min(start + Min(if len.Some? then len.value else CHUNK_MAX, CHUNK_MAX), |data|);
      start <= end <= |data| && IsServed(data, offset, len, data[start..end])
  {
    if offset < |data| {
      var end := Min(offset + Min(if len.Some? then len.value else CHUNK_MAX, CHUNK_MAX), |data|);
      assert data[offset..end] == data[offset..][..end - offset];
    }
  }

  /** The server's reply: those bytes, the offset asked for and the total; or that nothing was written. */
  lemma ReplyIs(region: BuildInfo.PostLink, offset: nat, len: Option<nat>)
    ensures !region.Written? ==> ChunkReply(region, offset, len) == NotFound
    ensures region.Written? ==> IsReply(region.data, offset, len, ChunkReply(region, offset, len))
  {
    if region.Written? {
      ServedIs(region.data, offset, len);
      var start := Min(offset, |region.data|);
      var end := Min(start + Min(if len.Some? then len.value else CHUNK_MAX, CHUNK_MAX), |region.data|);
      Hex.DecodeEncode(region.data[start..end]);
    }
  }

  predicate IsReply(data: seq<byte>, offset: nat, len: Option<nat>, reply: Reply) {
    && reply.Answer? && reply.chunk.offset == offset && reply.chunk.total == |data|
    && Hex.Decode(reply.chunk.data).Success? && IsServed(data, offset, len, Hex.Decode(reply.chunk.data).value)
  }

  function Server(region: BuildInfo.PostLink): Peer {
    (k: nat, offset: nat, len: nat) => ChunkReply(region, offset, Some(len))
  }

  lemma ServerServes(data: seq<byte>, k: nat, offset: nat, len: nat)
    requires offset <= |data|
    ensures Serves(Server(BuildInfo.Written(data))(k, offset, len), data, offset, len)
  {
    ReplyIs(BuildInfo.Written(data), offset, Some(len));
  }

  /**
   End to end: data written into an image's region is what the client downloads from a server
   holding that image, and an image nobody wrote to gives nothing.
   */
  lemma WrittenIsDownloaded(payload: seq<byte>, postLinkLen: nat, data: seq<byte>, rest: seq<byte>)
    requires BuildInfo.Fits(payload, postLinkLen) && |BuildInfo.Envelope(data)| <= postLinkLen
    ensures var image := BuildInfo.Image(payload, postLinkLen);
      var patched := BuildInfo.Patched(image, BuildInfo.RegionOff(|payload|), BuildInfo.Envelope(data));
      var parsed := BuildInfo.Parse(patched + rest);
      && parsed.Success?
      && Download(Server(BuildInfo.PostLinkOf(parsed.value.region)), 0, [], None).0 == Success(Some(data))
  {
    BuildInfo.PatchedImage(payload, postLinkLen, data, rest);
    forall k: nat, offset: nat, len: nat | offset <= |data|
      ensures Serves(Server(BuildInfo.Written(data))(k, offset, len), data, offset, len)
    {
      ServerServes(data, k, offset, len);
    }
    HonestDownload(Server(BuildInfo.Written(data)), data);
  }

  lemma {:induction false} UnwrittenIsNone(payload: seq<byte>, postLinkLen: nat, rest: seq<byte>)
    requires BuildInfo.Fits(payload, postLinkLen)
    ensures var parsed := BuildInfo.Parse(BuildInfo.Image(payload, postLinkLen) + rest);
      && parsed.Success?
      && Download(Server(BuildInfo.PostLinkOf(parsed.value.region)), 0, [], None).0 == Success(None)
  {
    BuildInfo.ImageRoundTrip(payload, postLinkLen, rest);
  }
}
