/** The peer-to-peer transfer object. It holds the sending side (send_file)
    and the receiving side (_handle_client, which hands a send_file
    handshake to _receive_file). JSON parsing of a received line and
    decoding of received bytes as text are uninterpreted functions given at
    construction. Every call of the on_file_received callback is recorded
    in a log. */
module Transfer {
  import opened Base
  import opened Paths
  import opened Chunking
  import opened FileHandling
  import opened Protocol
  import opened Channels
  import opened Receiving

  /** One call on_file_received(output_path, metadata). */
  datatype Delivery = Delivery(path: Path, metadata: ControlFrame)

  /** The receiver's line reader: recv(1024) until the buffer holds a
      newline, or until a read comes back empty (eof). Bytes after the
      newline that arrived in the same read stay in the buffer. */
  method ReadLine(sock: ReceiverChannel) returns (buf: Bytes, eof: bool, ghost lastRead: nat)
    modifies sock
    ensures Stream(old(sock.incoming)) == buf + Stream(sock.incoming)
    ensures eof <==> NewLine !in buf
    ensures eof ==> Stream(sock.incoming) == []
    ensures lastRead <= |buf| && |buf| - lastRead <= 1024 && NewLine !in buf[..lastRead]
    ensures Read(buf, sock.incoming) == LineRead(old(sock.incoming), [])
    ensures sock.sent == old(sock.sent) && sock.closed == old(sock.closed)
  {
    buf, eof, lastRead := [], false, 0;
    while NewLine !in buf
      invariant Stream(old(sock.incoming)) == buf + Stream(sock.incoming)
      invariant LineRead(old(sock.incoming), []) == LineRead(sock.incoming, buf)
      invariant lastRead <= |buf| && |buf| - lastRead <= 1024 && NewLine !in buf[..lastRead]
      invariant sock.sent == old(sock.sent) && sock.closed == old(sock.closed)
      decreases |Stream(sock.incoming)|
    {
      var data := sock.Recv(1024);
      if data == [] {
        eof := true;
        break;
      }
      assert (buf + data)[..|buf|] == buf;
      lastRead, buf := |buf|, buf + data;
    }
  }

  /** The payload reader: recv(min(4096, remaining)) until size bytes have
      arrived or a read comes back empty. It starts from an empty buffer. */
  method ReadPayload(sock: ReceiverChannel, size: int) returns (data: Bytes)
    modifies sock
    ensures Stream(old(sock.incoming)) == data + Stream(sock.incoming)
    ensures |data| <= Max0(size)
    ensures |data| == Max0(size) || Stream(sock.incoming) == []
    ensures Read(data, sock.incoming) == PayloadRead(old(sock.incoming), size, [])
    ensures sock.sent == old(sock.sent) && sock.closed == old(sock.closed)
  {
    data := [];
    while |data| < size
      invariant |data| <= Max0(size)
      invariant PayloadRead(old(sock.incoming), size, []) == PayloadRead(sock.incoming, size, data)
      invariant Stream(old(sock.incoming)) == data + Stream(sock.incoming)
      invariant sock.sent == old(sock.sent) && sock.closed == old(sock.closed)
      decreases size - |data|
    {
      var remaining := size - |data|;
      var d := sock.Recv(Min(4096, remaining));
      if d == [] {
        break;
      }
      data := data + d;
    }
  }

  /** The names transfer.py binds at module level: its imports. */
  const TransferModuleNames: set<string> :=
    {"socket", "json", "time", "threading", "Optional", "Callable", "tqdm",
     "FileHandler", "FileMetadata", "TorClient"}

  /** Evaluating an expression that starts with a global name. */
  datatype Evaluation<T> = Value(value: T) | NameError(name: string)

  /** os.path.join(download_dir, filename) as the receiver writes it: os
      is looked up among the module's names, where it is missing. */
  function OutputPathAsWritten(downloadDir: Path, filename: string): (r: Evaluation<Path>)
    ensures r == NameError("os")
  {
    if "os" in TransferModuleNames then Value(Join(downloadDir, filename)) else NameError("os")
  }

  class P2PTransfer {
    const fileHandler: FileHandler
    var isListening: bool
    var currentTransfers: map<string, ControlFrame>
    var delivered: seq<Delivery>
    const decodeFrame: Bytes -> Option<ControlFrame>
    const decodeText: Bytes -> Option<string>

    /** A transfer object over a file handler with the default chunk size,
        not listening, with no transfers. */
    constructor (disk: Disk, sha256: Bytes -> string,
                 decodeFrame: Bytes -> Option<ControlFrame>, decodeText: Bytes -> Option<string>)
      ensures fileHandler.chunkSize == DefaultChunkSize
      ensures fileHandler.disk == disk && fileHandler.sha256 == sha256
      ensures this.decodeFrame == decodeFrame && this.decodeText == decodeText
      ensures !isListening && currentTransfers == map[] && delivered == []
    {
      fileHandler := new FileHandler(DefaultChunkSize, disk, sha256);
      this.decodeFrame := decodeFrame;
      this.decodeText := decodeText;
      isListening := false;
      currentTransfers := map[];
      delivered := [];
    }

    /** send_file over the socket sock that the Tor client created (null
        when it could not create one). It fails without using the socket
        when there is no metadata, and without sending when the connection
        cannot be made. Otherwise it sends what SenderLog says, reads the
        replies RepliesRead counts, closes the socket and returns
        SenderVerdict. */
    method SendFile(filePath: Path, sock: SenderChannel?, password: Option<string>) returns (ok: bool)
      modifies sock
      ensures fileHandler.GetFileMetadata(filePath).None? || sock == null || !sock.reachable ==>
        && !ok
        && (sock != null ==> sock.sent == old(sock.sent) && sock.read == old(sock.read)
                             && sock.closed == old(sock.closed))
      ensures fileHandler.GetFileMetadata(filePath).Some? && sock != null && sock.reachable ==>
        var m, f, r := fileHandler.GetFileMetadata(filePath).value, fileHandler.disk.files[filePath], Drop(sock.replies, old(sock.read));
        && sock.sent == old(sock.sent) + SenderLog(m, f, password.Some?, r)
        && sock.read == old(sock.read) + RepliesRead(m, f, r)
        && sock.closed
        && ok == SenderVerdict(m, f, r)
    {
      var meta := fileHandler.GetFileMetadata(filePath);
      if meta.None? || sock == null {
        return false;
      }
      var connected := sock.Connect();
      if !connected {
        return false;
      }
      ok := Exchange(filePath, meta.value, sock, password.Some?);
    }

    /** The conversation send_file holds once connected: the handshake,
        READY, the chunks with their acknowledgements, TRANSFER_COMPLETE and
        its answer. Whatever way it ends, the socket is closed. */
    method Exchange(filePath: Path, m: FileMetadata, sock: SenderChannel, encrypted: bool) returns (ok: bool)
      requires filePath in fileHandler.disk.files && m.chunkSize == fileHandler.chunkSize
      requires sock.connected
      modifies sock
      ensures
        var f, r := fileHandler.disk.files[filePath], Drop(sock.replies, old(sock.read));
        && sock.sent == old(sock.sent) + SenderLog(m, f, encrypted, r)
        && sock.read == old(sock.read) + RepliesRead(m, f, r)
        && sock.closed
        && ok == SenderVerdict(m, f, r)
    {
      ghost var f, b, sent0 := fileHandler.disk.files[filePath], sock.read, sock.sent;
      ghost var r0 := Drop(sock.replies, b);
      var handshake := HandshakeFrame(m, encrypted);
      sock.Send(Control(handshake));
      TokenAtDrop(sock.replies, b, 0);
      var ack := sock.Recv();
      ok := false;
      if ack != Ready {
        SenderStopsWithoutReady(m, f, encrypted, r0);
      } else {
        SenderAfterReady(m, f, encrypted, r0);
        var completed, k := SendChunks(filePath, m, sock, f, r0, b);
        ghost var frames := ChunkFrames(f, m.chunkSize, m.chunks, k);
        AppendAssoc(sent0, [Control(handshake)], frames);
        if completed {
          AppendAssoc(sent0, [Control(handshake)] + frames, [Token(TransferComplete)]);
          sock.Send(Token(TransferComplete));
          TokenAtDrop(sock.replies, b, m.chunks + 1);
          var finalAck := sock.Recv();
          ok := finalAck == Success;
        }
      }
      sock.Close();
    }

    /** The chunk loop of send_file: chunk after chunk, the header, the
        payload and the acknowledgement, until a read comes back empty, a
        reply is not the chunk's ACK, or every chunk went through. It sends
        the frames of ChunksSent chunks, reads one reply per chunk sent,
        and completes exactly when FirstStop reaches the chunk count. */
    method SendChunks(filePath: Path, m: FileMetadata, sock: SenderChannel, ghost f: Bytes, ghost r0: seq<string>, ghost b: nat)
      returns (completed: bool, ghost k: nat)
      requires filePath in fileHandler.disk.files && fileHandler.disk.files[filePath] == f
      requires m.chunkSize == fileHandler.chunkSize
      requires sock.connected && r0 == Drop(sock.replies, b) && sock.read == b + 1
      modifies sock
      ensures k == ChunksSent(f, m.chunkSize, m.chunks, r0)
      ensures completed == (FirstStop(f, m.chunkSize, m.chunks, r0, 0) == m.chunks)
      ensures sock.sent == old(sock.sent) + ChunkFrames(f, m.chunkSize, m.chunks, k)
      ensures sock.read == b + 1 + k
      ensures sock.connected && sock.closed == old(sock.closed)
    {
      ghost var sent0, c, n := sock.sent, m.chunkSize, m.chunks;
      var i, stop := 0, false;
      k := 0;
      while i < m.chunks && !stop
        invariant 0 <= i <= n
        invariant !stop ==> k == i && FirstStop(f, c, n, r0, 0) == FirstStop(f, c, n, r0, i)
        invariant stop ==> FirstStop(f, c, n, r0, 0) < n && k == ChunksSent(f, c, n, r0)
        invariant sock.sent == sent0 + ChunkFrames(f, c, n, k) && sock.read == b + k + 1
        invariant sock.connected && sock.closed == old(sock.closed)
        decreases n - i
      {
        stop, k := ChunkRound(filePath, m, sock, f, r0, b, sent0, i);
        i := i + 1;
      }
      if !stop {
        ChunkLoopCompletes(f, c, n, r0);
      }
      completed := !stop;
    }

    /** One round of the chunk loop, placed in the sender's specification:
        started at chunk i with FirstStop not yet reached, it either ends the
        loop at FirstStop with the frames of ChunksSent chunks on the wire, or
        moves the loop on to chunk i + 1. Either way one reply was read per
        chunk sent. */
    method ChunkRound(filePath: Path, m: FileMetadata, sock: SenderChannel, ghost f: Bytes, ghost r0: seq<string>,
                      ghost b: nat, ghost sent0: seq<Outgoing>, i: nat)
      returns (stop: bool, ghost k: nat)
      requires filePath in fileHandler.disk.files && fileHandler.disk.files[filePath] == f
      requires m.chunkSize == fileHandler.chunkSize && i < m.chunks
      requires FirstStop(f, m.chunkSize, m.chunks, r0, 0) == FirstStop(f, m.chunkSize, m.chunks, r0, i)
      requires sock.connected && sock.sent == sent0 + ChunkFrames(f, m.chunkSize, m.chunks, i)
      requires r0 == Drop(sock.replies, b) && sock.read == b + i + 1
      modifies sock
      ensures stop ==> FirstStop(f, m.chunkSize, m.chunks, r0, 0) == i && k == ChunksSent(f, m.chunkSize, m.chunks, r0)
      ensures !stop ==> k == i + 1 && FirstStop(f, m.chunkSize, m.chunks, r0, 0) == FirstStop(f, m.chunkSize, m.chunks, r0, k)
      ensures sock.sent == sent0 + ChunkFrames(f, m.chunkSize, m.chunks, k) && sock.read == b + k + 1
      ensures sock.connected && sock.closed == old(sock.closed)
    {
      ghost var c, n := m.chunkSize, m.chunks;
      var wrote, accepted := SendChunk(filePath, m, sock, f, r0, b, i);
      if !wrote {
        ChunkLoopStopsAtEmptyRead(f, c, n, r0, i);
        return true, i;
      }
      AppendAssoc(sent0, ChunkFrames(f, c, n, i), [Control(HeaderFor(f, c, n, i)), Raw(Chunk(f, c, i))]);
      ChunkFramesStep(f, c, n, i);
      if !accepted {
        ChunkLoopStopsAtRefusal(f, c, n, r0, i);
        return true, i + 1;
      }
      return false, i + 1;
    }

    /** One round of the chunk loop: read chunk i; unless the read is empty,
        send its header and payload and read the reply. */
    method SendChunk(filePath: Path, m: FileMetadata, sock: SenderChannel, ghost f: Bytes, ghost r0: seq<string>, ghost b: nat,
                     i: nat)
      returns (wrote: bool, accepted: bool)
      requires filePath in fileHandler.disk.files && fileHandler.disk.files[filePath] == f
      requires m.chunkSize == fileHandler.chunkSize && i < m.chunks
      requires sock.connected && r0 == Drop(sock.replies, b) && sock.read == b + i + 1
      modifies sock
      ensures
        var c, n := m.chunkSize, m.chunks;
        && (wrote <==> Chunk(f, c, i) != [])
        && (accepted <==> ChunkAccepted(f, c, r0, i))
        && (!wrote ==> sock.sent == old(sock.sent) && sock.read == old(sock.read))
        && (wrote ==> sock.sent == old(sock.sent) + [Control(HeaderFor(f, c, n, i)), Raw(Chunk(f, c, i))]
                      && sock.read == b + i + 2)
      ensures sock.connected && sock.closed == old(sock.closed)
    {
      var data := fileHandler.ReadChunk(filePath, i);
      if data.None? || data.value == [] {
        return false, false;
      }
      ghost var before := sock.sent;
      sock.Send(Control(ChunkHeader(i, |data.value|, i == m.chunks - 1)));
      sock.Send(Raw(data.value));
      AppendTwo(before, Control(HeaderFor(f, m.chunkSize, m.chunks, i)), Raw(Chunk(f, m.chunkSize, i)));
      TokenAtDrop(sock.replies, b, i + 1);
      var reply := sock.Recv();
      return true, reply == AckToken(i);
    }

    /** _receive_file with the output path os.path.join(download_dir,
        filename) computed as intended: ReceiveSession of the segments that
        follow the handshake line. It replies READY, then takes chunk after
        chunk: a header line, a payload of at most the declared size, a
        write and its acknowledgement, until total_chunks writes worked, a
        write failed, the stream ended before a header, or a header did not
        parse (which raises). Then it reads one completion message and
        answers it as CompletionVerdict says, calling on_file_received
        after a SUCCESS. */
    method ReceiveFile(sock: ReceiverChannel, meta: ControlFrame, downloadDir: Path, notify: bool)
      returns (ghost writes: seq<ChunkWrite>, ghost declared: seq<int>, ghost failed: bool,
               ghost completion: Option<Bytes>, ghost end: SessionEnd)
      requires meta.Handshake?
      modifies sock, fileHandler.disk, this`delivered
      ensures var s := ReceiveSession(old(sock.incoming), decodeFrame, decodeText,
                                      Writable(fileHandler.disk.readOnly, OutputPath(downloadDir, meta)),
                                      old(fileHandler.disk.files), OutputPath(downloadDir, meta), meta, fileHandler.sha256);
        && writes == s.writes && declared == s.declared && failed == s.failed
        && completion == s.completion && end == s.end
        && fileHandler.disk.files == s.files && sock.sent == old(sock.sent) + s.replies
        && sock.incoming == s.rest
      ensures |writes| <= Max0(meta.chunks)
      ensures failed <==> (writes != [] && !Writable(fileHandler.disk.readOnly, OutputPath(downloadDir, meta)))
      ensures failed ==> |writes| == 1
      ensures WithinDeclared(writes, declared)
      ensures fileHandler.disk.files ==
        ApplyWrites(old(fileHandler.disk.files), OutputPath(downloadDir, meta), if failed then [] else writes)
      ensures completion.None? ==> end == Aborted
      ensures completion.Some? ==>
        end == CompletionVerdict(decodeText(completion.value),
          FileAt(fileHandler.disk.files, OutputPath(downloadDir, meta)), meta.checksum, fileHandler.sha256)
      ensures sock.sent == old(sock.sent) + [Ready] + ChunkReplies(writes, failed)
        + (if end.Replied? then [end.token] else [])
      ensures delivered == old(delivered)
        + (if notify && end == Replied(Success) then [Delivery(OutputPath(downloadDir, meta), meta)] else [])
      ensures sock.closed == old(sock.closed)
    {
      var out := Join(downloadDir, meta.filename);
      ghost var sent0 := sock.sent;
      sock.Send(Ready);
      var raised;
      raised, writes, declared, failed := ReceiveChunks(sock, meta.chunks, out);
      ghost var replies := ChunkReplies(writes, failed);
      AppendAssoc(sent0, [Ready], replies);
      if raised {
        completion, end := None, Aborted;
        return;
      }
      var reply;
      reply, end := AnswerCompletion(sock, out, meta, notify);
      completion := Some(reply);
      AppendAssoc(sent0, [Ready] + replies, if end.Replied? then [end.token] else []);
    }

    /** The chunk loop of _receive_file: ReceiveLoop of the segments it
        starts from. A header line, a payload of at most the declared size,
        a write and its acknowledgement, until total writes worked, a write
        failed, the stream ended before a header, or a header did not parse
        (raised, which ends the session). */
    method ReceiveChunks(sock: ReceiverChannel, total: int, out: Path)
      returns (raised: bool, ghost writes: seq<ChunkWrite>, ghost declared: seq<int>, ghost failed: bool)
      modifies sock, fileHandler.disk
      ensures Finished(ReceiveLoop(old(sock.incoming), decodeFrame, Writable(fileHandler.disk.readOnly, out), total, 0),
                       sock.incoming, decodeFrame, Writable(fileHandler.disk.readOnly, out), total,
                       raised, writes, declared, failed, old(fileHandler.disk.files), fileHandler.disk.files,
                       old(sock.sent), sock.sent, out)
      ensures sock.closed == old(sock.closed)
    {
      ghost var files0, sent0, segs0 := fileHandler.disk.files, sock.sent, sock.incoming;
      ghost var ok := Writable(fileHandler.disk.readOnly, out);
      ghost var whole := ReceiveLoop(segs0, decodeFrame, ok, total, 0);
      raised, writes, declared, failed := false, [], [], false;
      var received, going := 0, true;
      MidwayStart(segs0, decodeFrame, ok, total, files0, sent0, out);
      while going && received < total
        invariant Progress(whole, sock.incoming, decodeFrame, ok, total, going, received, raised, writes, declared, failed,
                           files0, fileHandler.disk.files, sent0, sock.sent, out)
        invariant sock.closed == old(sock.closed) && ok == Writable(fileHandler.disk.readOnly, out)
        decreases total - received, going
      {
        going, raised, writes, declared, failed := NextChunk(sock, out, total, received, whole, files0, sent0, writes, declared, ok);
        if going {
          received := received + 1;
        }
      }
      if going {
        MidwayAtTotal(whole, sock.incoming, decodeFrame, ok, total, received, writes, declared,
                      files0, fileHandler.disk.files, sent0, sock.sent, out);
      }
    }

    /** The body of the chunk loop: one round, and the loop's writes,
        files and replies after it. An acknowledged write joins the writes
        and the loop goes on; any other round ends it (the loop's `break`s),
        a header that did not parse raising. */
    method NextChunk(sock: ReceiverChannel, out: Path, total: int, received: nat, ghost whole: LoopOf,
                     ghost files0: map<Path, Bytes>, ghost sent0: seq<string>,
                     ghost writes: seq<ChunkWrite>, ghost declared: seq<int>, ghost ok: bool)
      returns (going: bool, raised: bool, ghost writes': seq<ChunkWrite>, ghost declared': seq<int>, ghost failed: bool)
      requires received < total && ok == Writable(fileHandler.disk.readOnly, out)
      requires Midway(whole, sock.incoming, decodeFrame, ok, total, received, writes, declared,
                      files0, fileHandler.disk.files, sent0, sock.sent, out)
      modifies sock, fileHandler.disk
      ensures Progress(whole, sock.incoming, decodeFrame, ok, total, going, received + 1, raised, writes', declared', failed,
                       files0, fileHandler.disk.files, sent0, sock.sent, out)
      ensures sock.closed == old(sock.closed)
    {
      ghost var before, filesBefore, sentBefore := sock.incoming, fileHandler.disk.files, sock.sent;
      var line, round;
      ghost var w, size;
      round, line, w, size := ReceiveChunk(sock, out);
      RoundAdvances(whole, before, decodeFrame, ok, total, received, writes, declared, files0, filesBefore,
                    fileHandler.disk.files, sent0, sentBefore, sock.sent, out, RoundOf(round, line, w, size, sock.incoming));
      going, raised, failed := round == Acked, round == HeaderRaised, round == Refused;
      writes', declared' := writes, declared;
      if round in {Acked, Refused} {
        writes', declared' := writes + [w], declared + [size];
      }
    }

    /** One round of the chunk loop, ReceiveRound of the segments it starts
        from: the header line, then the payload, the write and its reply.
        The round ends the loop early when the stream ends before a header,
        and raises when the header does not parse as a chunk header. */
    method ReceiveChunk(sock: ReceiverChannel, out: Path)
      returns (round: Round, line: Bytes, ghost w: ChunkWrite, ghost size: int)
      modifies sock, fileHandler.disk
      ensures ReceiveRound(old(sock.incoming), decodeFrame, Writable(fileHandler.disk.readOnly, out))
           == RoundOf(round, line, w, size, sock.incoming)
      ensures round in {StreamEnded, HeaderRaised} ==>
        fileHandler.disk.files == old(fileHandler.disk.files) && sock.sent == old(sock.sent)
      ensures round == Acked ==>
        && fileHandler.disk.files == AfterWrite(old(fileHandler.disk.files), out, w.index, w.data)
        && sock.sent == old(sock.sent) + [AckToken(w.index)]
      ensures round == Refused ==>
        fileHandler.disk.files == old(fileHandler.disk.files) && sock.sent == old(sock.sent) + [FailToken(w.index)]
      ensures sock.closed == old(sock.closed)
    {
      w, size := ChunkWrite(0, []), 0;
      var eof;
      ghost var lastRead;
      line, eof, lastRead := ReadLine(sock);
      if line == [] {
        return StreamEnded, line, w, size;
      }
      var header := decodeFrame(line);
      if header.None? || !header.value.ChunkHeader? {
        return HeaderRaised, line, w, size;
      }
      var index, chunkSize := header.value.index, header.value.size;
      size := chunkSize;
      var data := ReadPayload(sock, chunkSize);
      w := ChunkWrite(index, data);
      var written := fileHandler.WriteChunk(out, index, data);
      if written {
        sock.Send(AckToken(index));
        round := Acked;
      } else {
        sock.Send(FailToken(index));
        round := Refused;
      }
    }

    /** The end of _receive_file: one recv(1024) for the completion message,
        decoded and stripped. TRANSFER_COMPLETE is answered with SUCCESS when
        the stored output hashes to the announced checksum, then
        on_file_received is called; with CHECKSUM_MISMATCH otherwise; any
        other text with TRANSFER_INCOMPLETE. Bytes that do not decode, or
        an output that does not exist when it is hashed, raise: no reply. */
    method AnswerCompletion(sock: ReceiverChannel, out: Path, meta: ControlFrame, notify: bool)
      returns (reply: Bytes, ghost end: SessionEnd)
      requires meta.Handshake?
      modifies sock, this`delivered
      ensures reply == RecvData(old(sock.incoming), 1024) && sock.incoming == RecvRest(old(sock.incoming), 1024)
      ensures end == CompletionVerdict(decodeText(reply), FileAt(fileHandler.disk.files, out), meta.checksum, fileHandler.sha256)
      ensures sock.sent == old(sock.sent) + (if end.Replied? then [end.token] else [])
      ensures delivered == old(delivered) + (if notify && end == Replied(Success) then [Delivery(out, meta)] else [])
      ensures sock.closed == old(sock.closed)
    {
      reply := sock.Recv(1024);
      end := Aborted;
      var text := decodeText(reply);
      if text.None? {
        return;
      }
      if Strip(text.value) == TransferComplete {
        var actual := fileHandler.CalculateChecksum(out);
        if actual.None? {
          return;
        }
        if actual.value == meta.checksum {
          sock.Send(Success);
          end := Replied(Success);
          if notify {
            delivered := delivered + [Delivery(out, meta)];
          }
        } else {
          sock.Send(ChecksumMismatch);
          end := Replied(ChecksumMismatch);
        }
      } else {
        sock.Send(TransferIncomplete);
        end := Replied(TransferIncomplete);
      }
    }

    /** _handle_client: reads the first line, and when it parses as a
        send_file handshake hands the connection to ReceiveFile, whose
        session runs on the segments after that line. A stream that ends
        before a newline, a line that does not parse, and any other action
        get no reply. The socket is closed in every case. */
    method HandleClient(sock: ReceiverChannel, downloadDir: Path, notify: bool)
      returns (ghost accepted: Option<ControlFrame>)
      modifies sock, fileHandler.disk, this`delivered
      ensures sock.closed
      ensures accepted == AcceptedHandshake(LineRead(old(sock.incoming), []).got, decodeFrame)
      ensures accepted.Some? ==>
        var meta, out := accepted.value, OutputPath(downloadDir, accepted.value);
        var s := ReceiveSession(LineRead(old(sock.incoming), []).rest, decodeFrame, decodeText,
                                Writable(fileHandler.disk.readOnly, out), old(fileHandler.disk.files), out, meta,
                                fileHandler.sha256);
        && fileHandler.disk.files == s.files && sock.sent == old(sock.sent) + s.replies
        && delivered == old(delivered) + (if notify && s.end == Replied(Success) then [Delivery(out, meta)] else [])
      ensures accepted.Some? ==> accepted.value.Handshake? && accepted.value.action == SendFileAction
      ensures accepted.None? <==> sock.sent == old(sock.sent)
      ensures accepted.Some? ==> |sock.sent| > |old(sock.sent)| && sock.sent[|old(sock.sent)|] == Ready
      ensures accepted.None? ==>
        fileHandler.disk.files == old(fileHandler.disk.files) && delivered == old(delivered)
    {
      accepted := None;
      var line, eof, _ := ReadLine(sock);
      if eof {
        sock.Close();
        return;
      }
      var meta := decodeFrame(line);
      if meta.Some? && meta.value.Handshake? && meta.value.action == SendFileAction {
        accepted := meta;
        var _, _, _, _, _ := ReceiveFile(sock, meta.value, downloadDir, notify);
      }
      sock.Close();
    }

    /** _handle_client as the source stands: _receive_file evaluates
        os.path.join before anything else, the name os is not bound, and
        its exception handler swallows the NameError. No send_file
        handshake is ever answered. */
    method HandleClientAsWritten(sock: ReceiverChannel, downloadDir: Path, notify: bool)
      modifies sock
      ensures sock.closed
      ensures sock.sent == old(sock.sent)
    {
      var line, eof, _ := ReadLine(sock);
      if eof {
        sock.Close();
        return;
      }
      var meta := decodeFrame(line);
      if meta.Some? && meta.value.Handshake? && meta.value.action == SendFileAction {
        match OutputPathAsWritten(downloadDir, meta.value.filename)
        case NameError(_) =>
        case Value(_) => assert false;
      }
      sock.Close();
    }
  }

  /** What the missing import costs the sender: the receiver never
      answers the handshake, the sender reads "" where READY should be,
      sends nothing after the handshake and reports failure. */
  lemma MissingImportFailsEverySend(m: FileMetadata, f: Bytes, encrypted: bool)
    ensures !SenderVerdict(m, f, [])
    ensures SenderLog(m, f, encrypted, []) == [Control(HandshakeFrame(m, encrypted))]
  {
  }
}
