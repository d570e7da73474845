/** The stop-and-wait transfer protocol. It has control frames and reply
    tokens. What the sender writes and whether it reports success are stated
    as functions of the file and the replies it reads. The receiver's
    acknowledgements and its completion verdict are stated as functions of
    what it decoded, wrote and read back. */
module Protocol {
  import opened Base
  import opened Chunking
  import opened FileHandling

  /** A JSON control frame, sent as json.dumps(frame) followed by a newline.
      OtherJson is any JSON document that is neither of the two objects the
      protocol uses. */
  datatype ControlFrame =
    | Handshake(action: string, filename: string, filesize: int, chunks: int,
                checksum: string, chunkSize: int, encrypted: bool)
    | ChunkHeader(index: int, size: int, final: bool)
    | OtherJson

  /** One send on the sender's socket. */
  datatype Outgoing =
    | Control(frame: ControlFrame)  // a frame and its newline
    | Raw(data: Bytes)              // a chunk payload, unframed
    | Token(text: string)           // a bare token and its newline

  const SendFileAction: string := "send_file"
  const Ready: string := "READY"
  const TransferComplete: string := "TRANSFER_COMPLETE"
  const Success: string := "SUCCESS"
  const ChecksumMismatch: string := "CHECKSUM_MISMATCH"
  const TransferIncomplete: string := "TRANSFER_INCOMPLETE"

  /** f'CHUNK_{i}_OK' */
  function AckToken(i: int): string
  {
    "CHUNK_" + IntToString(i) + "_OK"
  }

  /** f'CHUNK_{i}_FAIL' */
  function FailToken(i: int): string
  {
    "CHUNK_" + IntToString(i) + "_FAIL"
  }

  /** An acknowledgement names exactly one chunk index. */
  lemma AckTokenInjective(i: int, j: int)
    requires AckToken(i) == AckToken(j)
    ensures i == j
  {
    var s, t := AckToken(i), AckToken(j);
    assert s[6..|s| - 3] == IntToString(i);
    assert t[6..|t| - 3] == IntToString(j);
    IntToStringInjective(i, j);
  }

  /** A failure report names exactly one chunk index, and it is never
      mistaken for an acknowledgement. */
  lemma FailTokenDistinct(i: int, j: int)
    ensures FailToken(i) != AckToken(j)
    ensures FailToken(i) == FailToken(j) ==> i == j
  {
    var s, t := FailToken(i), FailToken(j);
    assert s[|s| - 1] == 'L' && AckToken(j)[|AckToken(j)| - 1] == 'K';
    if s == t {
      assert s[6..|s| - 5] == IntToString(i);
      assert t[6..|t| - 5] == IntToString(j);
      IntToStringInjective(i, j);
    }
  }

  /** Every reply the receiver sends is its token and a newline, and the
      sender's strip() gives back the token exactly. */
  lemma ChunkRepliesSurviveStrip(i: int)
    ensures Strip(AckToken(i) + "\n") == AckToken(i)
    ensures Strip(FailToken(i) + "\n") == FailToken(i)
  {
    var a, b := AckToken(i), FailToken(i);
    assert a[0] == 'C' && a[|a| - 1] == 'K';
    assert b[0] == 'C' && b[|b| - 1] == 'L';
    StripNewlineTerminated(a);
    StripNewlineTerminated(b);
  }

  /** Upper-case letters, digits and underscores: what every token is
      made of. */
  predicate TokenText(t: string)
  {
    forall k :: 0 <= k < |t| ==> ('A' <= t[k] <= 'Z') || ('0' <= t[k] <= '9') || t[k] == '_'
  }

  /** The same holds for the fixed tokens of both sides. */
  lemma FixedTokenSurvivesStrip(t: string)
    requires t in {Ready, Success, ChecksumMismatch, TransferIncomplete, TransferComplete}
    ensures Strip(t + "\n") == t
  {
    assert TokenText(t);
    StripNewlineTerminated(t);
  }

  // ---------------------------------------------------------------------------
  // The sender. Its socket gives one stripped reply token per read; after
  // the peer has closed, every read gives "".

  function TokenAt(replies: seq<string>, i: nat): string
  {
    if i < |replies| then replies[i] else ""
  }

  /** The replies left after k reads. */
  function Drop(replies: seq<string>, k: nat): seq<string>
  {
    if k <= |replies| then replies[k..] else []
  }

  /** The j-th reply after the first b is reply b + j. */
  lemma TokenAtDrop(replies: seq<string>, b: nat, j: nat)
    ensures TokenAt(Drop(replies, b), j) == TokenAt(replies, b + j)
  {
  }

  /** The handshake announces the file's metadata. encrypted is True when
      a password was given. */
  function HandshakeFrame(m: FileMetadata, encrypted: bool): (r: ControlFrame)
    ensures r.Handshake? && r.action == SendFileAction
  {
    Handshake(SendFileAction, m.filename, m.filesize, m.chunks, m.checksum, m.chunkSize, encrypted)
  }

  /** The header announcing chunk i of n: its index, its length and whether
      it is the last one. */
  function HeaderFor(f: Bytes, c: nat, n: nat, i: nat): ControlFrame
  {
    ChunkHeader(i, |Chunk(f, c, i)|, i == n - 1)
  }

  /** Chunk i goes through: its read is not empty and the reply after its
      payload acknowledges it. */
  predicate ChunkAccepted(f: Bytes, c: nat, replies: seq<string>, i: nat)
  {
    Chunk(f, c, i) != [] && TokenAt(replies, i + 1) == AckToken(i)
  }

  /** The first chunk index in [i, n) that does not go through, or n. */
  function FirstStop(f: Bytes, c: nat, n: nat, replies: seq<string>, i: nat): (k: nat)
    requires i <= n
    ensures i <= k <= n
    decreases n - i
  {
    if i == n then n
    else if !ChunkAccepted(f, c, replies, i) then i
    else FirstStop(f, c, n, replies, i + 1)
  }

  /** Every chunk before the first stop goes through, and the stop itself,
      unless it is the chunk count, does not. */
  lemma {:induction false} FirstStopIsFirst(f: Bytes, c: nat, n: nat, replies: seq<string>, i: nat)
    requires i <= n
    ensures forall j :: i <= j < FirstStop(f, c, n, replies, i) ==> ChunkAccepted(f, c, replies, j)
    ensures FirstStop(f, c, n, replies, i) < n ==> !ChunkAccepted(f, c, replies, FirstStop(f, c, n, replies, i))
    decreases n - i
  {
    if i < n && ChunkAccepted(f, c, replies, i) {
      FirstStopIsFirst(f, c, n, replies, i + 1);
      var k := FirstStop(f, c, n, replies, i + 1);
      assert FirstStop(f, c, n, replies, i) == k;
      forall j | i <= j < k
        ensures ChunkAccepted(f, c, replies, j)
      {
        if j > i {
          assert i + 1 <= j < k;
        }
      }
    }
  }

  /** Header and payload of chunks 0 .. k-1, in order. */
  function ChunkFrames(f: Bytes, c: nat, n: nat, k: nat): (r: seq<Outgoing>)
    ensures |r| == 2 * k
  {
    if k == 0 then []
    else ChunkFrames(f, c, n, k - 1) + [Control(HeaderFor(f, c, n, k - 1)), Raw(Chunk(f, c, k - 1))]
  }

  /** The frames of k + 1 chunks are those of k chunks and then chunk k's
      header and payload. */
  lemma ChunkFramesStep(f: Bytes, c: nat, n: nat, k: nat)
    ensures ChunkFrames(f, c, n, k + 1) == ChunkFrames(f, c, n, k) + [Control(HeaderFor(f, c, n, k)), Raw(Chunk(f, c, k))]
  {
  }

  /** The chunks that reach the wire: every accepted one, and the one whose
      acknowledgement failed, but not one whose read came back empty. */
  function ChunksSent(f: Bytes, c: nat, n: nat, replies: seq<string>): (k: nat)
    ensures k <= n
  {
    var k := FirstStop(f, c, n, replies, 0);
    if k < n && Chunk(f, c, k) != [] then k + 1 else k
  }

  /** Everything the sender writes after connecting, in order. */
  function SenderLog(m: FileMetadata, f: Bytes, encrypted: bool, replies: seq<string>): seq<Outgoing>
  {
    var hs := [Control(HandshakeFrame(m, encrypted))];
    if TokenAt(replies, 0) != Ready then hs
    else
      var complete := if FirstStop(f, m.chunkSize, m.chunks, replies, 0) == m.chunks then [Token(TransferComplete)] else [];
      hs + ChunkFrames(f, m.chunkSize, m.chunks, ChunksSent(f, m.chunkSize, m.chunks, replies)) + complete
  }

  /** The number of replies the sender reads. */
  function RepliesRead(m: FileMetadata, f: Bytes, replies: seq<string>): nat
  {
    if TokenAt(replies, 0) != Ready then 1
    else
      1 + ChunksSent(f, m.chunkSize, m.chunks, replies)
      + (if FirstStop(f, m.chunkSize, m.chunks, replies, 0) == m.chunks then 1 else 0)
  }

  /** The sender's result. */
  predicate SenderVerdict(m: FileMetadata, f: Bytes, replies: seq<string>)
  {
    && TokenAt(replies, 0) == Ready
    && FirstStop(f, m.chunkSize, m.chunks, replies, 0) == m.chunks
    && TokenAt(replies, m.chunks + 1) == Success
  }

  /** What the sender does is bounded by the chunk count: it sends the
      handshake first, then at most a header and a payload per chunk and
      TRANSFER_COMPLETE; it reads READY's reply, at most one per chunk and
      the final answer; and it reports success only after reading every
      one of them. */
  lemma SenderBounds(m: FileMetadata, f: Bytes, encrypted: bool, replies: seq<string>)
    ensures var log := SenderLog(m, f, encrypted, replies);
      |log| >= 1 && log[0] == Control(HandshakeFrame(m, encrypted)) && |log| <= 2 * m.chunks + 2
    ensures 1 <= RepliesRead(m, f, replies) <= m.chunks + 2
    ensures SenderVerdict(m, f, replies) ==> RepliesRead(m, f, replies) == m.chunks + 2
  {
  }

  /** Where the sender stops, case by case: what it has sent and read by
      then, and its result. */
  lemma SenderStopsWithoutReady(m: FileMetadata, f: Bytes, encrypted: bool, replies: seq<string>)
    requires TokenAt(replies, 0) != Ready
    ensures SenderLog(m, f, encrypted, replies) == [Control(HandshakeFrame(m, encrypted))]
    ensures RepliesRead(m, f, replies) == 1 && !SenderVerdict(m, f, replies)
  {
  }

  /** Once READY has arrived, the sender sends the chunks that go out
      and, when every chunk went through, TRANSFER_COMPLETE; it succeeds
      exactly when that is answered with SUCCESS. */
  lemma SenderAfterReady(m: FileMetadata, f: Bytes, encrypted: bool, replies: seq<string>)
    requires TokenAt(replies, 0) == Ready
    ensures
      var c, n := m.chunkSize, m.chunks;
      var k, sent := FirstStop(f, c, n, replies, 0), ChunksSent(f, c, n, replies);
      && SenderLog(m, f, encrypted, replies) == [Control(HandshakeFrame(m, encrypted))]
           + ChunkFrames(f, c, n, sent) + (if k == n then [Token(TransferComplete)] else [])
      && RepliesRead(m, f, replies) == 1 + sent + (if k == n then 1 else 0)
      && (SenderVerdict(m, f, replies) <==> k == n && TokenAt(replies, n + 1) == Success)
  {
  }

  /** Where the chunk loop stops, case by case: at a chunk whose read is
      empty, nothing of it is sent; at a chunk that is refused, its header
      and payload went out before the refusal. */
  lemma ChunkLoopStopsAtEmptyRead(f: Bytes, c: nat, n: nat, replies: seq<string>, i: nat)
    requires i < n && FirstStop(f, c, n, replies, 0) == FirstStop(f, c, n, replies, i)
    requires Chunk(f, c, i) == []
    ensures FirstStop(f, c, n, replies, 0) == i && ChunksSent(f, c, n, replies) == i
  {
  }

  /** A search that has reached the chunk count stops there, with every
      chunk sent. */
  lemma ChunkLoopCompletes(f: Bytes, c: nat, n: nat, replies: seq<string>)
    requires FirstStop(f, c, n, replies, 0) == FirstStop(f, c, n, replies, n)
    ensures FirstStop(f, c, n, replies, 0) == n && ChunksSent(f, c, n, replies) == n
  {
  }

  lemma ChunkLoopStopsAtRefusal(f: Bytes, c: nat, n: nat, replies: seq<string>, i: nat)
    requires i < n && FirstStop(f, c, n, replies, 0) == FirstStop(f, c, n, replies, i)
    requires Chunk(f, c, i) != [] && TokenAt(replies, i + 1) != AckToken(i)
    ensures FirstStop(f, c, n, replies, 0) == i && ChunksSent(f, c, n, replies) == i + 1
  {
  }

  /** Chunk i's header sits at position 2i and its payload right after it.
      The header's size is the payload's length, and final is set exactly
      for the last chunk. */
  lemma {:induction false} ChunkFramesLayout(f: Bytes, c: nat, n: nat, k: nat, i: nat)
    requires i < k
    ensures ChunkFrames(f, c, n, k)[2 * i] == Control(ChunkHeader(i, |Chunk(f, c, i)|, i == n - 1))
    ensures ChunkFrames(f, c, n, k)[2 * i + 1] == Raw(Chunk(f, c, i))
  {
    var prev := ChunkFrames(f, c, n, k - 1);
    var pair := [Control(HeaderFor(f, c, n, k - 1)), Raw(Chunk(f, c, k - 1))];
    assert ChunkFrames(f, c, n, k) == prev + pair;
    if i < k - 1 {
      ChunkFramesLayout(f, c, n, k - 1, i);
      assert (prev + pair)[2 * i] == prev[2 * i] && (prev + pair)[2 * i + 1] == prev[2 * i + 1];
    } else {
      assert |prev| == 2 * i;
      assert (prev + pair)[2 * i] == pair[0] && (prev + pair)[2 * i + 1] == pair[1];
    }
  }

  /** The handshake goes first. Without READY nothing else is sent. */
  lemma HandshakeFirst(m: FileMetadata, f: Bytes, encrypted: bool, replies: seq<string>)
    ensures SenderLog(m, f, encrypted, replies)[0] == Control(Handshake(SendFileAction, m.filename,
      m.filesize, m.chunks, m.checksum, m.chunkSize, encrypted))
    ensures TokenAt(replies, 0) != Ready ==> |SenderLog(m, f, encrypted, replies)| == 1
  {
  }

  /** Every element of ChunkFrames is a payload or the header of a chunk
      below k. */
  lemma {:induction false} FrameKinds(f: Bytes, c: nat, n: nat, k: nat, j: nat)
    requires j < 2 * k
    ensures var o := ChunkFrames(f, c, n, k)[j];
      o.Raw? || (o.Control? && o.frame.ChunkHeader? && o.frame.index < k)
  {
    if j < 2 * (k - 1) {
      FrameKinds(f, c, n, k - 1, j);
    }
  }

  /** Chunk headers go out for 0, 1, 2, ... in order, each right after the
      handshake or the previous payload and right before its own payload. */
  lemma ChunksInOrder(m: FileMetadata, f: Bytes, encrypted: bool, replies: seq<string>, i: nat)
    requires TokenAt(replies, 0) == Ready
    requires i < ChunksSent(f, m.chunkSize, m.chunks, replies)
    ensures var log := SenderLog(m, f, encrypted, replies);
      && 2 * i + 2 < |log|
      && log[2 * i + 1] == Control(ChunkHeader(i, |Chunk(f, m.chunkSize, i)|, i == m.chunks - 1))
      && log[2 * i + 2] == Raw(Chunk(f, m.chunkSize, i))
  {
    var c, n := m.chunkSize, m.chunks;
    var s := ChunksSent(f, c, n, replies);
    var frames := ChunkFrames(f, c, n, s);
    var complete := if FirstStop(f, c, n, replies, 0) == n then [Token(TransferComplete)] else [];
    var log := [Control(HandshakeFrame(m, encrypted))] + frames + complete;
    assert SenderLog(m, f, encrypted, replies) == log;
    ChunkFramesLayout(f, c, n, s, i);
    assert log[2 * i + 1] == frames[2 * i] && log[2 * i + 2] == frames[2 * i + 1];
  }

  /** Once chunk k does not go through, no later chunk and no
      TRANSFER_COMPLETE is ever sent. */
  lemma NoChunkAfterFailure(m: FileMetadata, f: Bytes, encrypted: bool, replies: seq<string>, k: nat)
    requires k < m.chunks && !ChunkAccepted(f, m.chunkSize, replies, k)
    ensures var log := SenderLog(m, f, encrypted, replies);
      && Token(TransferComplete) !in log
      && forall j :: 0 <= j < |log| && log[j].Control? && log[j].frame.ChunkHeader? ==> log[j].frame.index <= k
  {
    var c, n := m.chunkSize, m.chunks;
    var log := SenderLog(m, f, encrypted, replies);
    var hs := Control(HandshakeFrame(m, encrypted));
    if TokenAt(replies, 0) == Ready {
      var s := ChunksSent(f, c, n, replies);
      FirstStopIsFirst(f, c, n, replies, 0);
      assert s <= k + 1;
      var frames := ChunkFrames(f, c, n, s);
      assert log == [hs] + frames;
      forall j | 0 <= j < |log|
        ensures log[j] != Token(TransferComplete)
        ensures log[j].Control? && log[j].frame.ChunkHeader? ==> log[j].frame.index <= k
      {
        if j > 0 {
          FrameKinds(f, c, n, s, j - 1);
          assert log[j] == frames[j - 1];
        }
      }
    }
  }


  /** TRANSFER_COMPLETE is sent only after READY and an acknowledgement for
      every chunk, and it is the last thing sent. */
  lemma CompleteOnlyAfterEveryAck(m: FileMetadata, f: Bytes, encrypted: bool, replies: seq<string>)
    requires Token(TransferComplete) in SenderLog(m, f, encrypted, replies)
    ensures TokenAt(replies, 0) == Ready
    ensures forall i :: 0 <= i < m.chunks ==> TokenAt(replies, i + 1) == AckToken(i)
    ensures var log := SenderLog(m, f, encrypted, replies); log[|log| - 1] == Token(TransferComplete)
  {
    var c, n := m.chunkSize, m.chunks;
    var log := SenderLog(m, f, encrypted, replies);
    if TokenAt(replies, 0) != Ready {
      assert false;
    }
    var stop := FirstStop(f, c, n, replies, 0);
    FirstStopIsFirst(f, c, n, replies, 0);
    if stop < n {
      NoChunkAfterFailure(m, f, encrypted, replies, stop);
      assert false;
    }
    forall i | 0 <= i < n ensures TokenAt(replies, i + 1) == AckToken(i) {
      assert ChunkAccepted(f, c, replies, i);
    }
  }


  /** The sender reports success exactly when it sent TRANSFER_COMPLETE
      and the reply to it was SUCCESS. */
  lemma VerdictIffSuccessReply(m: FileMetadata, f: Bytes, encrypted: bool, replies: seq<string>)
    ensures SenderVerdict(m, f, replies) <==>
      Token(TransferComplete) in SenderLog(m, f, encrypted, replies) && TokenAt(replies, m.chunks + 1) == Success
  {
    var log := SenderLog(m, f, encrypted, replies);
    if SenderVerdict(m, f, replies) {
      assert log[|log| - 1] == Token(TransferComplete);
    }
    if Token(TransferComplete) in log {
      CompleteOnlyAfterEveryAck(m, f, encrypted, replies);
      var stop := FirstStop(f, m.chunkSize, m.chunks, replies, 0);
      if stop < m.chunks {
        NoChunkAfterFailure(m, f, encrypted, replies, stop);
      }
    }
  }

  /** The chunks of the file the metadata describes are never empty, so
      the sender never stops on an empty read. */
  lemma MetadataChunksNonEmpty(m: FileMetadata, f: Bytes, i: nat)
    requires m.chunkSize > 0 && m.chunks == ChunkCount(|f|, m.chunkSize)
    requires i < m.chunks
    ensures Chunk(f, m.chunkSize, i) != []
  {
    ChunksCover(f, m.chunkSize);
  }

  /** The replies of a receiver that accepts everything: READY, an
      acknowledgement per chunk, then SUCCESS. */
  function CleanReplies(n: nat): (r: seq<string>)
    ensures |r| == n + 2
    ensures r[0] == Ready && r[n + 1] == Success
    ensures forall i :: 0 <= i < n ==> r[i + 1] == AckToken(i)
  {
    [Ready] + AckTokens(n) + [Success]
  }

  function AckTokens(n: nat): (r: seq<string>)
    ensures |r| == n
    ensures forall i :: 0 <= i < n ==> r[i] == AckToken(i)
  {
    if n == 0 then [] else AckTokens(n - 1) + [AckToken(n - 1)]
  }

  /** Against such a receiver the sender sends the handshake, every chunk
      with its header, then TRANSFER_COMPLETE, and it reports success. */
  lemma CleanRepliesSucceed(m: FileMetadata, f: Bytes, encrypted: bool)
    requires m.chunkSize > 0 && m.chunks == ChunkCount(|f|, m.chunkSize)
    ensures SenderVerdict(m, f, CleanReplies(m.chunks))
    ensures SenderLog(m, f, encrypted, CleanReplies(m.chunks)) ==
      [Control(HandshakeFrame(m, encrypted))] + ChunkFrames(f, m.chunkSize, m.chunks, m.chunks) + [Token(TransferComplete)]
  {
    var c, n := m.chunkSize, m.chunks;
    var r := CleanReplies(n);
    CleanRepliesAccept(m, f);
    AllAcceptedRunsToEnd(f, c, n, r, 0);
    assert ChunksSent(f, c, n, r) == n;
    assert TokenAt(r, 0) == Ready && TokenAt(r, n + 1) == Success;
  }

  /** Every chunk the metadata announces goes through against such a
      receiver. */
  lemma CleanRepliesAccept(m: FileMetadata, f: Bytes)
    requires m.chunkSize > 0 && m.chunks == ChunkCount(|f|, m.chunkSize)
    ensures forall i :: 0 <= i < m.chunks ==> ChunkAccepted(f, m.chunkSize, CleanReplies(m.chunks), i)
  {
    var r := CleanReplies(m.chunks);
    forall i | 0 <= i < m.chunks ensures ChunkAccepted(f, m.chunkSize, r, i) {
      MetadataChunksNonEmpty(m, f, i);
      assert TokenAt(r, i + 1) == r[i + 1];
    }
  }

  lemma {:induction false} AllAcceptedRunsToEnd(f: Bytes, c: nat, n: nat, replies: seq<string>, i: nat)
    requires i <= n
    requires forall j :: i <= j < n ==> ChunkAccepted(f, c, replies, j)
    ensures FirstStop(f, c, n, replies, i) == n
    decreases n - i
  {
    if i < n {
      AllAcceptedRunsToEnd(f, c, n, replies, i + 1);
    }
  }

  /** The payloads of all chunks, in the order they are sent. */
  function SentPayloads(log: seq<Outgoing>): (r: Bytes)
  {
    if log == [] then []
    else SentPayloads(log[..|log| - 1]) + if log[|log| - 1].Raw? then log[|log| - 1].data else []
  }

  lemma {:induction false} SentPayloadsOfFrames(f: Bytes, c: nat, n: nat, k: nat)
    ensures SentPayloads(ChunkFrames(f, c, n, k)) == Concat(Chunks(f, c, k))
  {
    if k > 0 {
      SentPayloadsOfFrames(f, c, n, k - 1);
      SentPayloadsOfPair(ChunkFrames(f, c, n, k - 1), HeaderFor(f, c, n, k - 1), Chunk(f, c, k - 1));
      ConcatAppend(Chunks(f, c, k - 1), Chunk(f, c, k - 1));
    }
  }

  /** A header and its payload add the payload to what was sent. */
  lemma SentPayloadsOfPair(prev: seq<Outgoing>, header: ControlFrame, data: Bytes)
    ensures SentPayloads(prev + [Control(header), Raw(data)]) == SentPayloads(prev) + data
  {
    var log := prev + [Control(header), Raw(data)];
    assert log[..|log| - 1] == prev + [Control(header)];
    assert (prev + [Control(header)])[..|prev|] == prev;
  }

  /** Whenever the sender gets as far as TRANSFER_COMPLETE, the payloads it
      sent, in order, are exactly the file. */
  lemma CompletedTransferCarriesFile(m: FileMetadata, f: Bytes, encrypted: bool, replies: seq<string>)
    requires m.chunkSize > 0 && m.chunks == ChunkCount(|f|, m.chunkSize)
    requires Token(TransferComplete) in SenderLog(m, f, encrypted, replies)
    ensures SentPayloads(SenderLog(m, f, encrypted, replies)) == f
  {
    var c, n := m.chunkSize, m.chunks;
    CompleteOnlyAfterEveryAck(m, f, encrypted, replies);
    forall i | 0 <= i < n ensures ChunkAccepted(f, c, replies, i) {
      MetadataChunksNonEmpty(m, f, i);
    }
    AllAcceptedRunsToEnd(f, c, n, replies, 0);
    var hs := [Control(HandshakeFrame(m, encrypted))];
    var frames := ChunkFrames(f, c, n, n);
    var log := hs + frames + [Token(TransferComplete)];
    assert SenderLog(m, f, encrypted, replies) == log;
    assert log[..|log| - 1] == hs + frames;
    SentPayloadsPrefix(hs, frames);
    SentPayloadsOfFrames(f, c, n, n);
    ChunksCover(f, c);
  }

  lemma {:induction false} SentPayloadsPrefix(hs: seq<Outgoing>, rest: seq<Outgoing>)
    requires forall j :: 0 <= j < |hs| ==> !hs[j].Raw?
    ensures SentPayloads(hs + rest) == SentPayloads(rest)
    decreases |rest|
  {
    if rest == [] {
      assert hs + rest == hs;
      NoRawNoPayload(hs);
    } else {
      var s := hs + rest;
      assert s[..|s| - 1] == hs + rest[..|rest| - 1];
      SentPayloadsPrefix(hs, rest[..|rest| - 1]);
    }
  }

  lemma {:induction false} NoRawNoPayload(log: seq<Outgoing>)
    requires forall j :: 0 <= j < |log| ==> !log[j].Raw?
    ensures SentPayloads(log) == []
  {
    if log != [] {
      NoRawNoPayload(log[..|log| - 1]);
    }
  }

  // ---------------------------------------------------------------------------
  // The receiver.

  /** How a receiving session ends: with one last reply, or with an
      exception that the handler swallows, so that no reply follows. */
  datatype SessionEnd = Aborted | Replied(token: string)

  /** The replies for a series of chunk writes: an acknowledgement for each
      write that worked, then a failure report when the last one failed. */
  function ChunkReplies(writes: seq<ChunkWrite>, failed: bool): (r: seq<string>)
    requires failed ==> |writes| > 0
    ensures |r| == |writes|
  {
    if writes == [] then []
    else if failed then ChunkReplies(writes[..|writes| - 1], false) + [FailToken(writes[|writes| - 1].index)]
    else ChunkReplies(writes[..|writes| - 1], false) + [AckToken(writes[|writes| - 1].index)]
  }

  /** One more write adds its reply after the replies already sent. */
  lemma ChunkRepliesStep(sent: seq<string>, writes: seq<ChunkWrite>, w: ChunkWrite, failed: bool)
    ensures sent + ChunkReplies(writes + [w], failed) ==
      (sent + ChunkReplies(writes, false)) + [if failed then FailToken(w.index) else AckToken(w.index)]
  {
    assert (writes + [w])[..|writes|] == writes;
  }

  lemma {:induction false} ChunkRepliesNames(writes: seq<ChunkWrite>, failed: bool, k: nat)
    requires failed ==> |writes| > 0
    requires k < |writes|
    ensures ChunkReplies(writes, failed)[k] ==
      if failed && k == |writes| - 1 then FailToken(writes[k].index) else AckToken(writes[k].index)
  {
    if k < |writes| - 1 {
      ChunkRepliesNames(writes[..|writes| - 1], false, k);
    }
  }

  /** The reply to the completion message. A completion message that does
      not decode raises. Anything but TRANSFER_COMPLETE is an incomplete
      transfer. Otherwise an output that does not exist raises when its
      checksum is taken, and the checksum decides between SUCCESS and
      CHECKSUM_MISMATCH. */
  function CompletionVerdict(text: Option<string>, stored: Option<Bytes>, expected: string,
                             sha256: Bytes -> string): (r: SessionEnd)
    ensures r.Replied? ==> r.token in {Success, ChecksumMismatch, TransferIncomplete}
  {
    if text.None? then Aborted
    else if Strip(text.value) != TransferComplete then Replied(TransferIncomplete)
    else if stored.None? then Aborted
    else if sha256(stored.value) == expected then Replied(Success)
    else Replied(ChecksumMismatch)
  }

  /** SUCCESS exactly when the completion token is TRANSFER_COMPLETE and
      the stored output hashes to the announced checksum. */
  lemma SuccessIffChecksumMatches(text: Option<string>, stored: Option<Bytes>, expected: string,
                                   sha256: Bytes -> string)
    ensures CompletionVerdict(text, stored, expected, sha256) == Replied(Success) <==>
      && text.Some? && Strip(text.value) == TransferComplete
      && stored.Some? && sha256(stored.value) == expected
    ensures CompletionVerdict(text, stored, expected, sha256) == Replied(ChecksumMismatch) <==>
      && text.Some? && Strip(text.value) == TransferComplete
      && stored.Some? && sha256(stored.value) != expected
    ensures CompletionVerdict(text, stored, expected, sha256) == Replied(TransferIncomplete) <==>
      text.Some? && Strip(text.value) != TransferComplete
  {
  }

  /** A receiver that writes every chunk of f, in order, to a writable
      output ends with exactly f there, so a TRANSFER_COMPLETE then gets
      SUCCESS when the announced checksum is f's. */
  lemma EveryChunkWrittenGivesSuccess(files: map<Path, Bytes>, out: Path, f: Bytes, c: nat,
                                      writes: seq<ChunkWrite>, sha256: Bytes -> string)
    requires c > 0 && |f| > 0
    requires |writes| == ChunkCount(|f|, c)
    requires forall k :: 0 <= k < |writes| ==> writes[k] == ChunkWrite(k, Chunk(f, c, k))
    ensures var after := ApplyWrites(files, out, writes);
      && out in after && after[out] == f
      && CompletionVerdict(Some(TransferComplete + "\n"), Some(after[out]), sha256(f), sha256) == Replied(Success)
  {
    WritingEveryChunkRebuildsFile(files, out, f, c, writes);
    FixedTokenSurvivesStrip(TransferComplete);
  }
}
