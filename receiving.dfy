/** The receiving side of a transfer (_handle_client and _receive_file) as
    functions of the segments its socket delivers: what each reader returns
    and leaves unread, how one round of the chunk loop ends, what the loop
    writes, and the whole session with its replies and its effect on the
    disk. The receiver methods of Transfer.P2PTransfer are proved to compute
    exactly these. The last part feeds the receiver the bytes the sender
    writes. */
module Receiving {
  import opened Base
  import opened Paths
  import opened Chunking
  import opened FileHandling
  import opened Protocol
  import opened Channels

  /** What a reader returns, and the segments it leaves unread. */
  datatype Read = Read(got: Bytes, rest: seq<Bytes>)

  /** The line reader, from the bytes already in its buffer: recv(1024)
      until the buffer holds a newline or a read comes back empty. It loses
      and invents nothing, and it stops without a newline only at end of
      stream. Bytes after the newline that came in the same read stay in
      the buffer. */
  function LineRead(segs: seq<Bytes>, buf: Bytes): (r: Read)
    ensures buf + Stream(segs) == r.got + Stream(r.rest)
    ensures |buf| <= |r.got|
    ensures NewLine !in r.got ==> Stream(r.rest) == []
    decreases |Stream(segs)|
  {
    if NewLine in buf then Read(buf, segs)
    else
      RecvSplitsStream(segs, 1024);
      var d := RecvData(segs, 1024);
      if d == [] then Read(buf, segs)
      else
        AppendAssoc(buf, d, Stream(RecvRest(segs, 1024)));
        LineRead(RecvRest(segs, 1024), buf + d)
  }

  /** The payload reader, from the bytes already read: recv(min(4096,
      remaining)) until size bytes have arrived or a read comes back empty.
      It loses and invents nothing, never reads past size, and returns
      fewer bytes only at end of stream. */
  function PayloadRead(segs: seq<Bytes>, size: int, data: Bytes): (r: Read)
    requires |data| <= Max0(size)
    ensures data + Stream(segs) == r.got + Stream(r.rest)
    ensures |data| <= |r.got| <= Max0(size)
    ensures |r.got| == Max0(size) || Stream(r.rest) == []
    decreases Max0(size) - |data|
  {
    if |data| >= size then Read(data, segs)
    else
      var max := Min(4096, size - |data|);
      RecvSplitsStream(segs, max);
      var d := RecvData(segs, max);
      if d == [] then Read(data, segs)
      else
        AppendAssoc(data, d, Stream(RecvRest(segs, max)));
        PayloadRead(RecvRest(segs, max), size, data + d)
  }

  // ---------------------------------------------------------------------------
  // The chunk loop of _receive_file.

  /** How one round of the chunk loop ends. */
  datatype Round = StreamEnded | HeaderRaised | Acked | Refused

  /** One round: the header line read, and for a chunk header the write
      it made and the size it declared; the segments left. */
  datatype RoundOf = RoundOf(round: Round, line: Bytes, w: ChunkWrite, size: int, rest: seq<Bytes>)

  predicate IsChunkHeader(h: Option<ControlFrame>)
  {
    h.Some? && h.value.ChunkHeader?
  }

  /** One round of the chunk loop. An empty header read ends the loop; a
      line that does not parse as a chunk header raises; otherwise the
      payload of at most the declared size is read and written under the
      header's index, which works exactly when the output is writable. */
  function ReceiveRound(segs: seq<Bytes>, decode: Bytes -> Option<ControlFrame>, writable: bool): (r: RoundOf)
    ensures r.round == StreamEnded <==> Stream(segs) == []
    ensures r.round == HeaderRaised <==> Stream(segs) != [] && !IsChunkHeader(decode(r.line))
    ensures r.round in {StreamEnded, HeaderRaised} ==> Stream(segs) == r.line + Stream(r.rest)
    ensures r.round in {Acked, Refused} ==>
      && IsChunkHeader(decode(r.line))
      && decode(r.line).value.index == r.w.index && decode(r.line).value.size == r.size
      && Stream(segs) == r.line + r.w.data + Stream(r.rest)
      && |r.w.data| <= Max0(r.size)
      && (|r.w.data| == Max0(r.size) || Stream(r.rest) == [])
      && (r.round == Acked <==> writable)
  {
    var line := LineRead(segs, []);
    var header := decode(line.got);
    if line.got == [] then RoundOf(StreamEnded, line.got, ChunkWrite(0, []), 0, line.rest)
    else if !IsChunkHeader(header) then RoundOf(HeaderRaised, line.got, ChunkWrite(0, []), 0, line.rest)
    else
      var payload := PayloadRead(line.rest, header.value.size, []);
      assert [] + Stream(segs) == Stream(segs) && [] + Stream(line.rest) == Stream(line.rest);
      AppendAssoc(line.got, payload.got, Stream(payload.rest));
      RoundOf(if writable then Acked else Refused, line.got, ChunkWrite(header.value.index, payload.got),
              header.value.size, payload.rest)
  }

  /** Every payload is at most its declared size. */
  predicate WithinDeclared(writes: seq<ChunkWrite>, declared: seq<int>)
  {
    && |declared| == |writes|
    && forall k :: 0 <= k < |writes| ==> |writes[k].data| <= Max0(declared[k])
  }

  lemma WithinDeclaredPrepend(w: ChunkWrite, size: int, writes: seq<ChunkWrite>, declared: seq<int>)
    requires |w.data| <= Max0(size) && WithinDeclared(writes, declared)
    ensures WithinDeclared([w] + writes, [size] + declared)
  {
    assert forall k :: 1 <= k <= |writes| ==>
      ([w] + writes)[k] == writes[k - 1] && ([size] + declared)[k] == declared[k - 1];
  }

  /** How the chunk loop ends: whether a header raised, the writes it made
      and the sizes their headers declared, whether the last write failed,
      and the segments left. */
  datatype LoopOf = LoopOf(raised: bool, writes: seq<ChunkWrite>, declared: seq<int>, failed: bool, rest: seq<Bytes>)

  /** The chunk loop from received_chunks == received: rounds until total
      writes worked, the stream ended before a header, a header raised, or
      a write failed. The loop never makes more writes than remain to
      total_chunks; a write fails exactly where the output is not
      writable, and then it is the only write. */
  function ReceiveLoop(segs: seq<Bytes>, decode: Bytes -> Option<ControlFrame>, writable: bool,
                       total: int, received: nat): (r: LoopOf)
    ensures |r.writes| <= Max0(total - received) && WithinDeclared(r.writes, r.declared)
    ensures r.failed <==> r.writes != [] && !writable
    ensures r.failed ==> |r.writes| == 1 && !r.raised
    decreases total - received
  {
    if received >= total then LoopOf(false, [], [], false, segs)
    else
      var o := ReceiveRound(segs, decode, writable);
      match o.round
      case StreamEnded => LoopOf(false, [], [], false, o.rest)
      case HeaderRaised => LoopOf(true, [], [], false, o.rest)
      case Refused => LoopOf(false, [o.w], [o.size], true, o.rest)
      case Acked =>
        var t := ReceiveLoop(o.rest, decode, writable, total, received + 1);
        WithinDeclaredPrepend(o.w, o.size, t.writes, t.declared);
        LoopOf(t.raised, [o.w] + t.writes, [o.size] + t.declared, t.failed, t.rest)
  }

  /** The chunk loop as the receiver runs it, carrying the writes made so
      far (and the sizes their headers declared) from round to round. */
  function LoopFrom(segs: seq<Bytes>, decode: Bytes -> Option<ControlFrame>, writable: bool,
                    total: int, received: nat, writes: seq<ChunkWrite>, declared: seq<int>): LoopOf
    decreases total - received
  {
    if received >= total then LoopOf(false, writes, declared, false, segs)
    else
      var o := ReceiveRound(segs, decode, writable);
      match o.round
      case StreamEnded => LoopOf(false, writes, declared, false, o.rest)
      case HeaderRaised => LoopOf(true, writes, declared, false, o.rest)
      case Refused => LoopOf(false, writes + [o.w], declared + [o.size], true, o.rest)
      case Acked => LoopFrom(o.rest, decode, writable, total, received + 1, writes + [o.w], declared + [o.size])
  }

  /** Writes made before a part of the loop, put in front of it. */
  function Prepend(writes: seq<ChunkWrite>, declared: seq<int>, o: LoopOf): LoopOf
  {
    o.(writes := writes + o.writes, declared := declared + o.declared)
  }

  lemma PrependAcked(writes: seq<ChunkWrite>, declared: seq<int>, w: ChunkWrite, size: int, t: LoopOf)
    ensures Prepend(writes, declared, LoopOf(t.raised, [w] + t.writes, [size] + t.declared, t.failed, t.rest))
         == Prepend(writes + [w], declared + [size], t)
  {
    AppendAssoc(writes, [w], t.writes);
    AppendAssoc(declared, [size], t.declared);
  }

  /** Carrying the writes along is the same as putting them in front of
      the rest of the loop. */
  lemma {:induction false} LoopFromPrepends(segs: seq<Bytes>, decode: Bytes -> Option<ControlFrame>, writable: bool,
                                            total: int, received: nat, writes: seq<ChunkWrite>, declared: seq<int>)
    ensures LoopFrom(segs, decode, writable, total, received, writes, declared)
         == Prepend(writes, declared, ReceiveLoop(segs, decode, writable, total, received))
    decreases total - received
  {
    if received >= total {
      assert writes + [] == writes && declared + [] == declared;
    } else {
      var o := ReceiveRound(segs, decode, writable);
      if o.round == Acked {
        LoopFromPrepends(o.rest, decode, writable, total, received + 1, writes + [o.w], declared + [o.size]);
        PrependAcked(writes, declared, o.w, o.size, ReceiveLoop(o.rest, decode, writable, total, received + 1));
      } else {
        assert writes + [] == writes && declared + [] == declared;
      }
    }
  }

  /** The chunk loop part-way: `received` rounds worked, making `writes`
      (so the output is writable if there are any); the files and the
      replies are those of these writes; and the loop from here, carrying
      them, is the whole loop. */
  predicate Midway(whole: LoopOf, cur: seq<Bytes>, decode: Bytes -> Option<ControlFrame>, writable: bool,
                   total: int, received: nat, writes: seq<ChunkWrite>, declared: seq<int>,
                   files0: map<Path, Bytes>, files: map<Path, Bytes>, sent0: seq<string>, sent: seq<string>, out: Path)
  {
    && whole == LoopFrom(cur, decode, writable, total, received, writes, declared)
    && (writes != [] ==> writable)
    && files == ApplyWrites(files0, out, writes)
    && sent == sent0 + ChunkReplies(writes, false)
  }

  /** Before the first round nothing is written and nothing is sent. */
  lemma MidwayStart(segs: seq<Bytes>, decode: Bytes -> Option<ControlFrame>, writable: bool, total: int,
                    files: map<Path, Bytes>, sent: seq<string>, out: Path)
    ensures Midway(ReceiveLoop(segs, decode, writable, total, 0), segs, decode, writable, total, 0, [], [],
                   files, files, sent, sent, out)
  {
    var t := ReceiveLoop(segs, decode, writable, total, 0);
    LoopFromPrepends(segs, decode, writable, total, 0, [], []);
    assert [] + t.writes == t.writes && [] + t.declared == t.declared;
    assert sent + [] == sent;
  }

  /** The chunk loop over: it is the whole loop, and the files and the
      replies are those of its writes. */
  predicate Finished(whole: LoopOf, cur: seq<Bytes>, decode: Bytes -> Option<ControlFrame>, writable: bool,
                     total: int, raised: bool, writes: seq<ChunkWrite>, declared: seq<int>, failed: bool,
                     files0: map<Path, Bytes>, files: map<Path, Bytes>, sent0: seq<string>, sent: seq<string>, out: Path)
  {
    && whole == LoopOf(raised, writes, declared, failed, cur)
    && (failed ==> writes != [])
    && files == ApplyWrites(files0, out, if failed then [] else writes)
    && sent == sent0 + ChunkReplies(writes, failed)
  }

  /** The chunk loop between rounds: still going and part-way through it,
      or over. */
  predicate Progress(whole: LoopOf, cur: seq<Bytes>, decode: Bytes -> Option<ControlFrame>, writable: bool,
                     total: int, going: bool, received: nat, raised: bool, writes: seq<ChunkWrite>, declared: seq<int>, failed: bool,
                     files0: map<Path, Bytes>, files: map<Path, Bytes>, sent0: seq<string>, sent: seq<string>, out: Path)
  {
    if going then !raised && !failed && Midway(whole, cur, decode, writable, total, received, writes, declared, files0, files, sent0, sent, out)
    else Finished(whole, cur, decode, writable, total, raised, writes, declared, failed, files0, files, sent0, sent, out)
  }

  /** Once total_chunks writes worked the loop is over, with exactly those
      writes and none failed. */
  lemma MidwayAtTotal(whole: LoopOf, cur: seq<Bytes>, decode: Bytes -> Option<ControlFrame>, writable: bool,
                      total: int, received: nat, writes: seq<ChunkWrite>, declared: seq<int>,
                      files0: map<Path, Bytes>, files: map<Path, Bytes>, sent0: seq<string>, sent: seq<string>, out: Path)
    requires received >= total
    requires Midway(whole, cur, decode, writable, total, received, writes, declared, files0, files, sent0, sent, out)
    ensures Finished(whole, cur, decode, writable, total, false, writes, declared, false, files0, files, sent0, sent, out)
  {
  }

  /** A round that writes and is acknowledged is followed by the rest of
      the loop, one chunk further on. */
  lemma LoopAfterAck(segs: seq<Bytes>, decode: Bytes -> Option<ControlFrame>, writable: bool,
                     total: int, received: nat)
    requires received < total && ReceiveRound(segs, decode, writable).round == Acked
    ensures var o := ReceiveRound(segs, decode, writable);
      var t := ReceiveLoop(o.rest, decode, writable, total, received + 1);
      ReceiveLoop(segs, decode, writable, total, received) == LoopOf(t.raised, [o.w] + t.writes, [o.size] + t.declared, t.failed, t.rest)
  {
  }

  /** The files and the replies after one more round, given that they
      were those of the writes so far: an acknowledged write is applied
      and acknowledged, a refused one (only ever the first) changes no
      file and gets FAIL. */
  lemma RoundRecorded(files0: map<Path, Bytes>, sent0: seq<string>, out: Path, writes: seq<ChunkWrite>,
                      round: Round, w: ChunkWrite, filesBefore: map<Path, Bytes>, filesAfter: map<Path, Bytes>,
                      sentBefore: seq<string>, sentAfter: seq<string>)
    requires filesBefore == ApplyWrites(files0, out, writes) && sentBefore == sent0 + ChunkReplies(writes, false)
    requires round in {StreamEnded, HeaderRaised} ==> filesAfter == filesBefore && sentAfter == sentBefore
    requires round == Acked ==>
      filesAfter == AfterWrite(filesBefore, out, w.index, w.data) && sentAfter == sentBefore + [AckToken(w.index)]
    requires round == Refused ==>
      writes == [] && filesAfter == filesBefore && sentAfter == sentBefore + [FailToken(w.index)]
    ensures var now := if round in {Acked, Refused} then writes + [w] else writes;
      && filesAfter == ApplyWrites(files0, out, if round == Refused then [] else now)
      && sentAfter == sent0 + ChunkReplies(now, round == Refused)
  {
    if round in {Acked, Refused} {
      ChunkRepliesStep(sent0, writes, w, round == Refused);
      ApplyWritesStep(files0, out, writes, w);
    }
  }

  /** One round of the chunk loop from part-way through it: an
      acknowledged write joins the writes and the loop goes on; any other
      round ends the loop, a refused write being the only write. */
  lemma RoundAdvances(whole: LoopOf, before: seq<Bytes>, decode: Bytes -> Option<ControlFrame>, writable: bool,
                      total: int, received: nat, writes: seq<ChunkWrite>, declared: seq<int>,
                      files0: map<Path, Bytes>, filesBefore: map<Path, Bytes>, filesAfter: map<Path, Bytes>,
                      sent0: seq<string>, sentBefore: seq<string>, sentAfter: seq<string>, out: Path, r: RoundOf)
    requires received < total && ReceiveRound(before, decode, writable) == r
    requires Midway(whole, before, decode, writable, total, received, writes, declared, files0, filesBefore, sent0, sentBefore, out)
    requires r.round in {StreamEnded, HeaderRaised} ==> filesAfter == filesBefore && sentAfter == sentBefore
    requires r.round == Acked ==>
      filesAfter == AfterWrite(filesBefore, out, r.w.index, r.w.data) && sentAfter == sentBefore + [AckToken(r.w.index)]
    requires r.round == Refused ==> filesAfter == filesBefore && sentAfter == sentBefore + [FailToken(r.w.index)]
    ensures var grown := r.round in {Acked, Refused};
      var writes' := if grown then writes + [r.w] else writes;
      var declared' := if grown then declared + [r.size] else declared;
      && (r.round == Acked ==>
            Midway(whole, r.rest, decode, writable, total, received + 1, writes', declared',
                   files0, filesAfter, sent0, sentAfter, out))
      && (r.round != Acked ==>
            Finished(whole, r.rest, decode, writable, total, r.round == HeaderRaised, writes', declared',
                     r.round == Refused, files0, filesAfter, sent0, sentAfter, out))
  {
    RoundRecorded(files0, sent0, out, writes, r.round, r.w, filesBefore, filesAfter, sentBefore, sentAfter);
  }

  // ---------------------------------------------------------------------------
  // The session after the handshake.

  /** Where the receiver stores an incoming file. */
  function OutputPath(downloadDir: Path, meta: ControlFrame): Path
    requires meta.Handshake?
  {
    Join(downloadDir, meta.filename)
  }

  /** The first line, when it is a send_file handshake. A stream that ends
      before a newline, a line that does not parse and any other action
      are not. */
  function AcceptedHandshake(line: Bytes, decode: Bytes -> Option<ControlFrame>): Option<ControlFrame>
  {
    var m := decode(line);
    if NewLine in line && m.Some? && m.value.Handshake? && m.value.action == SendFileAction then m else None
  }

  /** A whole _receive_file, and the segments it leaves. */
  datatype Session = Session(writes: seq<ChunkWrite>, declared: seq<int>, failed: bool,
                             completion: Option<Bytes>, end: SessionEnd, files: map<Path, Bytes>,
                             replies: seq<string>, rest: seq<Bytes>)

  /** _receive_file on the segments after the handshake line: READY, the
      chunk loop over total_chunks, and, unless a header raised, one
      recv(1024) for the completion message, answered as CompletionVerdict
      says against the output the loop left. The replies start with READY
      and end with the verdict's token when there is one; SUCCESS is only
      ever sent for a stored output with the announced digest. */
  function ReceiveSession(segs: seq<Bytes>, decodeFrame: Bytes -> Option<ControlFrame>,
                          decodeText: Bytes -> Option<string>, writable: bool, files: map<Path, Bytes>,
                          out: Path, meta: ControlFrame, sha256: Bytes -> string): (s: Session)
    requires meta.Handshake?
    ensures |s.replies| >= 1 && s.replies[0] == Ready
    ensures s.end.Replied? ==> s.completion.Some? && s.replies[|s.replies| - 1] == s.end.token
    ensures s.end == Replied(Success) ==> out in s.files && sha256(s.files[out]) == meta.checksum
  {
    var o := ReceiveLoop(segs, decodeFrame, writable, meta.chunks, 0);
    var stored := ApplyWrites(files, out, if o.failed then [] else o.writes);
    var completion := if o.raised then None else Some(RecvData(o.rest, 1024));
    var end := if completion.None? then Aborted
               else CompletionVerdict(decodeText(completion.value), FileAt(stored, out), meta.checksum, sha256);
    Session(o.writes, o.declared, o.failed, completion, end, stored,
            [Ready] + ChunkReplies(o.writes, o.failed) + (if end.Replied? then [end.token] else []),
            if o.raised then o.rest else RecvRest(o.rest, 1024))
  }

  /** A file of zero chunks is never written on the receiving side, so,
      unless an older file of that name exists, TRANSFER_COMPLETE gets no
      reply after READY: hashing the missing output raises. */
  lemma EmptyTransferGetsNoReply(segs: seq<Bytes>, decodeFrame: Bytes -> Option<ControlFrame>,
                                 decodeText: Bytes -> Option<string>, writable: bool,
                                 files: map<Path, Bytes>, out: Path, meta: ControlFrame, sha256: Bytes -> string)
    requires meta.Handshake? && meta.chunks <= 0 && out !in files
    requires var text := decodeText(RecvData(segs, 1024)); text.Some? && Strip(text.value) == TransferComplete
    ensures var s := ReceiveSession(segs, decodeFrame, decodeText, writable, files, out, meta, sha256);
      && s.writes == [] && s.files == files
      && s.completion == Some(RecvData(segs, 1024)) && s.end == Aborted && s.replies == [Ready]
  {
  }

  // ---------------------------------------------------------------------------
  // The receiver fed what the sender writes, each send arriving on its own.

  /** The bytes of one send: a frame as its JSON line, a payload as it is,
      a token with its newline. */
  function Segment(o: Outgoing, encodeFrame: ControlFrame -> Bytes, encodeText: string -> Bytes): Bytes
  {
    match o
    case Control(fr) => encodeFrame(fr)
    case Raw(d) => d
    case Token(t) => encodeText(t + "\n")
  }

  function Wire(log: seq<Outgoing>, encodeFrame: ControlFrame -> Bytes, encodeText: string -> Bytes): seq<Bytes>
  {
    seq(|log|, i requires 0 <= i < |log| => Segment(log[i], encodeFrame, encodeText))
  }

  lemma WireAppend(a: seq<Outgoing>, b: seq<Outgoing>, encodeFrame: ControlFrame -> Bytes, encodeText: string -> Bytes)
    ensures Wire(a + b, encodeFrame, encodeText) == Wire(a, encodeFrame, encodeText) + Wire(b, encodeFrame, encodeText)
  {
    var l, r := Wire(a + b, encodeFrame, encodeText), Wire(a, encodeFrame, encodeText) + Wire(b, encodeFrame, encodeText);
    forall i | 0 <= i < |l|
      ensures l[i] == r[i]
    {
      if i < |a| {
        assert (a + b)[i] == a[i];
      } else {
        assert (a + b)[i] == b[i - |a|];
      }
    }
  }

  lemma TokenSegment(t: string, encodeFrame: ControlFrame -> Bytes, encodeText: string -> Bytes)
    ensures Segment(Token(t), encodeFrame, encodeText) == encodeText(t + "\n")
  {
  }

  lemma WireSingle(o: Outgoing, encodeFrame: ControlFrame -> Bytes, encodeText: string -> Bytes)
    ensures Wire([o], encodeFrame, encodeText) == [Segment(o, encodeFrame, encodeText)]
  {
  }

  /** A line that ends at its newline and holds no other, as json.dumps
      output followed by b'\n' does. */
  predicate LineTerminated(x: Bytes)
  {
    |x| > 0 && x[|x| - 1] == NewLine && NewLine !in x[..|x| - 1]
  }

  /** A frame's line that parses back to the frame. */
  predicate FrameArrives(x: Bytes, decode: Bytes -> Option<ControlFrame>, fr: ControlFrame)
  {
    LineTerminated(x) && decode(x) == Some(fr)
  }

  /** A line arriving on its own is read whole, however many reads of 1024
      it takes, and nothing after it is touched. */
  lemma {:induction false} LineOfSegment(x: Bytes, rest: seq<Bytes>, buf: Bytes)
    requires LineTerminated(x) && NewLine !in buf
    ensures LineRead([x] + rest, buf) == Read(buf + x, rest)
    decreases |x|
  {
    var segs := [x] + rest;
    assert segs[0] == x && segs[1..] == rest;
    if |x| <= 1024 {
      assert RecvData(segs, 1024) == x && RecvRest(segs, 1024) == rest;
      assert (buf + x)[|buf| + |x| - 1] == NewLine;
      assert LineRead(rest, buf + x) == Read(buf + x, rest);
    } else {
      var d, tail := x[..1024], x[1024..];
      assert d == x[..|x| - 1][..1024];
      assert tail[..|tail| - 1] == x[..|x| - 1][1024..];
      assert RecvData(segs, 1024) == d && RecvRest(segs, 1024) == [tail] + rest;
      LineOfSegment(tail, rest, buf + d);
      assert x == d + tail;
      AppendAssoc(buf, d, tail);
    }
  }

  /** A payload arriving on its own is read whole, however many reads of
      4096 it takes, when its size is what remains to be read. */
  lemma {:induction false} PayloadOfSegment(y: Bytes, rest: seq<Bytes>, size: int, data: Bytes)
    requires y != [] && |data| + |y| == size
    ensures PayloadRead([y] + rest, size, data) == Read(data + y, rest)
    decreases |y|
  {
    var segs := [y] + rest;
    assert segs[0] == y && segs[1..] == rest;
    var max := Min(4096, size - |data|);
    if |y| <= 4096 {
      assert RecvData(segs, max) == y && RecvRest(segs, max) == rest;
      assert PayloadRead(rest, size, data + y) == Read(data + y, rest);
    } else {
      var d, tail := y[..4096], y[4096..];
      assert RecvData(segs, max) == d && RecvRest(segs, max) == [tail] + rest;
      PayloadOfSegment(tail, rest, size, data + d);
      assert y == d + tail;
      AppendAssoc(data, d, tail);
    }
  }

  /** A chunk header line and its payload, each arriving on its own, make
      one round that writes the payload under the header's index. */
  lemma CleanRound(x: Bytes, y: Bytes, rest: seq<Bytes>, decode: Bytes -> Option<ControlFrame>,
                   writable: bool, header: ControlFrame)
    requires FrameArrives(x, decode, header) && header.ChunkHeader? && header.size == |y| && y != []
    ensures ReceiveRound([x, y] + rest, decode, writable) ==
      RoundOf(if writable then Acked else Refused, x, ChunkWrite(header.index, y), |y|, rest)
  {
    assert [x, y] + rest == [x] + ([y] + rest);
    LineOfSegment(x, [y] + rest, []);
    assert [] + x == x;
    PayloadOfSegment(y, rest, |y|, []);
    assert [] + y == y;
  }

  /** The segments of chunks i .. n-1 of f, as the sender writes them: each
      header line and each payload on its own. */
  function ChunkSegments(f: Bytes, c: nat, n: nat, i: nat, encodeFrame: ControlFrame -> Bytes): seq<Bytes>
    decreases n - i
  {
    if i >= n then [] else [encodeFrame(HeaderFor(f, c, n, i)), Chunk(f, c, i)] + ChunkSegments(f, c, n, i + 1, encodeFrame)
  }

  /** The sender's chunk frames on the wire are these segments. */
  lemma {:induction false} WireOfChunkFrames(f: Bytes, c: nat, n: nat, k: nat,
                                             encodeFrame: ControlFrame -> Bytes, encodeText: string -> Bytes)
    requires k <= n
    ensures Wire(ChunkFrames(f, c, n, k), encodeFrame, encodeText) + ChunkSegments(f, c, n, k, encodeFrame)
         == ChunkSegments(f, c, n, 0, encodeFrame)
    decreases k
  {
    if k > 0 {
      WireOfChunkFrames(f, c, n, k - 1, encodeFrame, encodeText);
      var prev := Wire(ChunkFrames(f, c, n, k - 1), encodeFrame, encodeText);
      var frames := [Control(HeaderFor(f, c, n, k - 1)), Raw(Chunk(f, c, k - 1))];
      var pair := [encodeFrame(HeaderFor(f, c, n, k - 1)), Chunk(f, c, k - 1)];
      WireAppend(ChunkFrames(f, c, n, k - 1), frames, encodeFrame, encodeText);
      assert Wire(frames, encodeFrame, encodeText) == pair;
      assert ChunkSegments(f, c, n, k - 1, encodeFrame) == pair + ChunkSegments(f, c, n, k, encodeFrame);
      AppendAssoc(prev, pair, ChunkSegments(f, c, n, k, encodeFrame));
    }
  }

  /** The writes of chunks i .. n-1 of f, each under its own index. */
  function ChunkWrites(f: Bytes, c: nat, n: nat, i: nat): (r: seq<ChunkWrite>)
    ensures |r| == if i <= n then n - i else 0
    decreases n - i
  {
    if i >= n then [] else [ChunkWrite(i, Chunk(f, c, i))] + ChunkWrites(f, c, n, i + 1)
  }

  lemma {:induction false} ChunkWritesIndexed(f: Bytes, c: nat, n: nat, i: nat)
    requires i <= n
    ensures forall k :: 0 <= k < n - i ==> ChunkWrites(f, c, n, i)[k] == ChunkWrite(i + k, Chunk(f, c, i + k))
    decreases n - i
  {
    if i < n {
      ChunkWritesIndexed(f, c, n, i + 1);
      var t := ChunkWrites(f, c, n, i + 1);
      assert forall k :: 1 <= k < n - i ==> ([ChunkWrite(i, Chunk(f, c, i))] + t)[k] == t[k - 1];
    }
  }

  /** Chunk i of f, header and payload each arriving on its own, is
      written under index i and acknowledged; the loop goes on with the
      chunks after it. */
  lemma CleanLoopStep(f: Bytes, c: nat, n: nat, i: nat, encodeFrame: ControlFrame -> Bytes,
                      rest: seq<Bytes>, decode: Bytes -> Option<ControlFrame>)
    requires c > 0 && n == ChunkCount(|f|, c) && i < n
    requires FrameArrives(encodeFrame(HeaderFor(f, c, n, i)), decode, HeaderFor(f, c, n, i))
    ensures var t := ReceiveLoop(ChunkSegments(f, c, n, i + 1, encodeFrame) + rest, decode, true, n, i + 1);
      ReceiveLoop(ChunkSegments(f, c, n, i, encodeFrame) + rest, decode, true, n, i)
        == LoopOf(t.raised, [ChunkWrite(i, Chunk(f, c, i))] + t.writes, [|Chunk(f, c, i)|] + t.declared, t.failed, t.rest)
  {
    var x, y := encodeFrame(HeaderFor(f, c, n, i)), Chunk(f, c, i);
    var later := ChunkSegments(f, c, n, i + 1, encodeFrame) + rest;
    AppendAssoc([x, y], ChunkSegments(f, c, n, i + 1, encodeFrame), rest);
    ChunkPresent(f, c, i);
    CleanRound(x, y, later, decode, true, HeaderFor(f, c, n, i));
    LoopAfterAck([x, y] + later, decode, true, n, i);
  }

  /** What the loop does from chunk i of a clean stream of chunks. */
  predicate CleanFrom(f: Bytes, c: nat, n: nat, i: nat, encodeFrame: ControlFrame -> Bytes,
                      rest: seq<Bytes>, decode: Bytes -> Option<ControlFrame>)
  {
    var o := ReceiveLoop(ChunkSegments(f, c, n, i, encodeFrame) + rest, decode, true, n, i);
    !o.raised && !o.failed && o.rest == rest && o.writes == ChunkWrites(f, c, n, i)
  }

  lemma CleanLoopEnd(f: Bytes, c: nat, n: nat, encodeFrame: ControlFrame -> Bytes,
                     rest: seq<Bytes>, decode: Bytes -> Option<ControlFrame>)
    ensures CleanFrom(f, c, n, n, encodeFrame, rest, decode)
  {
    assert ChunkSegments(f, c, n, n, encodeFrame) + rest == rest;
  }

  lemma CleanLoopNext(f: Bytes, c: nat, n: nat, i: nat, encodeFrame: ControlFrame -> Bytes,
                      rest: seq<Bytes>, decode: Bytes -> Option<ControlFrame>)
    requires c > 0 && n == ChunkCount(|f|, c) && i < n
    requires FrameArrives(encodeFrame(HeaderFor(f, c, n, i)), decode, HeaderFor(f, c, n, i))
    requires CleanFrom(f, c, n, i + 1, encodeFrame, rest, decode)
    ensures CleanFrom(f, c, n, i, encodeFrame, rest, decode)
  {
    CleanLoopStep(f, c, n, i, encodeFrame, rest, decode);
  }

  /** The header lines of chunks i .. n-1 each parse back to their header. */
  predicate HeadersArrive(f: Bytes, c: nat, n: nat, i: nat, encodeFrame: ControlFrame -> Bytes,
                          decode: Bytes -> Option<ControlFrame>)
    decreases n - i
  {
    i < n ==> FrameArrives(encodeFrame(HeaderFor(f, c, n, i)), decode, HeaderFor(f, c, n, i))
              && HeadersArrive(f, c, n, i + 1, encodeFrame, decode)
  }

  lemma {:induction false} HeadersArriveFrom(f: Bytes, c: nat, n: nat, i: nat, encodeFrame: ControlFrame -> Bytes,
                                             decode: Bytes -> Option<ControlFrame>)
    requires forall j :: i <= j < n ==> FrameArrives(encodeFrame(HeaderFor(f, c, n, j)), decode, HeaderFor(f, c, n, j))
    ensures HeadersArrive(f, c, n, i, encodeFrame, decode)
    decreases n - i
  {
    if i < n {
      HeadersArriveFrom(f, c, n, i + 1, encodeFrame, decode);
    }
  }

  /** Fed chunks i .. n-1 of f with headers that parse, a writable
      receiver writes each of them, in order, under its own index, and
      leaves what follows. */
  lemma {:induction false} CleanLoop(f: Bytes, c: nat, n: nat, i: nat, encodeFrame: ControlFrame -> Bytes,
                                     rest: seq<Bytes>, decode: Bytes -> Option<ControlFrame>)
    requires c > 0 && n == ChunkCount(|f|, c) && i <= n
    requires HeadersArrive(f, c, n, i, encodeFrame, decode)
    ensures CleanFrom(f, c, n, i, encodeFrame, rest, decode)
    decreases n - i
  {
    if i < n {
      CleanLoop(f, c, n, i + 1, encodeFrame, rest, decode);
      CleanLoopNext(f, c, n, i, encodeFrame, rest, decode);
    } else {
      CleanLoopEnd(f, c, n, encodeFrame, rest, decode);
    }
  }

  /** Every write of chunk k under index k is acknowledged by CHUNK_<k>_OK. */
  lemma CleanWritesAreAcked(writes: seq<ChunkWrite>)
    requires forall k :: 0 <= k < |writes| ==> writes[k].index == k
    ensures ChunkReplies(writes, false) == AckTokens(|writes|)
  {
    forall k | 0 <= k < |writes|
      ensures ChunkReplies(writes, false)[k] == AckTokens(|writes|)[k]
    {
      ChunkRepliesNames(writes, false, k);
    }
  }

  /** Writing every chunk of f under its own index stores f, gets each
      chunk acknowledged, and makes TRANSFER_COMPLETE succeed. */
  lemma ChunkWritesComplete(f: Bytes, c: nat, files: map<Path, Bytes>, out: Path, sha256: Bytes -> string)
    requires c > 0 && |f| > 0
    ensures var writes := ChunkWrites(f, c, ChunkCount(|f|, c), 0);
      var after := ApplyWrites(files, out, writes);
      && out in after && after[out] == f
      && CompletionVerdict(Some(TransferComplete + "\n"), Some(after[out]), sha256(f), sha256) == Replied(Success)
      && ChunkReplies(writes, false) == AckTokens(ChunkCount(|f|, c))
  {
    var n := ChunkCount(|f|, c);
    ChunkWritesIndexed(f, c, n, 0);
    var writes := ChunkWrites(f, c, n, 0);
    assert forall k :: 0 <= k < |writes| ==> writes[k] == ChunkWrite(k, Chunk(f, c, k));
    EveryChunkWrittenGivesSuccess(files, out, f, c, writes, sha256);
    CleanWritesAreAcked(writes);
  }

  /** The session after the handshake, fed every chunk of f and then
      TRANSFER_COMPLETE: it stores f, acknowledges every chunk and answers
      SUCCESS. */
  lemma {:induction false} CleanSession(f: Bytes, c: nat, n: nat, encodeFrame: ControlFrame -> Bytes,
                                        done: Bytes, more: seq<Bytes>,
                                        decodeFrame: Bytes -> Option<ControlFrame>, decodeText: Bytes -> Option<string>,
                                        files: map<Path, Bytes>, out: Path, meta: ControlFrame, sha256: Bytes -> string)
    requires c > 0 && |f| > 0 && n == ChunkCount(|f|, c)
    requires meta.Handshake? && meta.chunks == n && meta.checksum == sha256(f)
    requires HeadersArrive(f, c, n, 0, encodeFrame, decodeFrame)
    requires 0 < |done| <= 1024 && decodeText(done) == Some(TransferComplete + "\n")
    ensures var s := ReceiveSession(ChunkSegments(f, c, n, 0, encodeFrame) + ([done] + more),
                                    decodeFrame, decodeText, true, files, out, meta, sha256);
      && out in s.files && s.files[out] == f
      && s.end == Replied(Success)
      && s.replies == CleanReplies(n)
  {
    var rest := [done] + more;
    CleanLoop(f, c, n, 0, encodeFrame, rest, decodeFrame);
    ChunkWritesComplete(f, c, files, out, sha256);
    assert rest[0] == done;
    assert RecvData(rest, 1024) == done;
  }

  /** What send_file writes against READY, every ACK and SUCCESS, one
      segment per send: the handshake line, the chunk segments, the
      completion token. */
  lemma SenderWire(m: FileMetadata, f: Bytes, encrypted: bool,
                   encodeFrame: ControlFrame -> Bytes, encodeText: string -> Bytes, more: seq<Bytes>)
    requires m.chunkSize > 0 && m.chunks == ChunkCount(|f|, m.chunkSize)
    ensures Wire(SenderLog(m, f, encrypted, CleanReplies(m.chunks)), encodeFrame, encodeText) + more
         == [encodeFrame(HandshakeFrame(m, encrypted))]
            + (ChunkSegments(f, m.chunkSize, m.chunks, 0, encodeFrame) + ([encodeText(TransferComplete + "\n")] + more))
  {
    var c, n := m.chunkSize, m.chunks;
    var meta := HandshakeFrame(m, encrypted);
    var hs, done := encodeFrame(meta), encodeText(TransferComplete + "\n");
    CleanRepliesSucceed(m, f, encrypted);
    var frames := ChunkFrames(f, c, n, n);
    var body := ChunkSegments(f, c, n, 0, encodeFrame);
    WireOfChunkFrames(f, c, n, n, encodeFrame, encodeText);
    assert Wire(frames, encodeFrame, encodeText) == body;
    WireSingle(Control(meta), encodeFrame, encodeText);
    WireSingle(Token(TransferComplete), encodeFrame, encodeText);
    WireAppend([Control(meta)], frames, encodeFrame, encodeText);
    var head := Wire([Control(meta)] + frames, encodeFrame, encodeText);
    assert head == [hs] + body;
    WireAppend([Control(meta)] + frames, [Token(TransferComplete)], encodeFrame, encodeText);
    var log := SenderLog(m, f, encrypted, CleanReplies(n));
    assert log == [Control(meta)] + frames + [Token(TransferComplete)];
    assert Wire(log, encodeFrame, encodeText) == head + Wire([Token(TransferComplete)], encodeFrame, encodeText);
    TokenSegment(TransferComplete, encodeFrame, encodeText);
    assert Wire([Token(TransferComplete)], encodeFrame, encodeText) == [done];
    AppendAssoc([hs] + body, [done], more);
    AppendAssoc([hs], body, [done] + more);
  }

  /** The sender and the receiver agree. Fed what send_file writes against
      a receiver that answers READY, every ACK and SUCCESS, each send
      arriving on its own, the receiver accepts the handshake, stores the
      file, and answers exactly READY, every ACK and SUCCESS: the replies
      on which the sender writes that and reports success. */
  lemma CleanTransferSucceeds(m: FileMetadata, f: Bytes, encrypted: bool,
                              encodeFrame: ControlFrame -> Bytes, encodeText: string -> Bytes, more: seq<Bytes>,
                              decodeFrame: Bytes -> Option<ControlFrame>, decodeText: Bytes -> Option<string>,
                              files: map<Path, Bytes>, downloadDir: Path, readOnly: set<Path>,
                              sha256: Bytes -> string)
    requires m.chunkSize > 0 && |f| > 0 && m.chunks == ChunkCount(|f|, m.chunkSize) && m.checksum == sha256(f)
    requires FrameArrives(encodeFrame(HandshakeFrame(m, encrypted)), decodeFrame, HandshakeFrame(m, encrypted))
    requires HeadersArrive(f, m.chunkSize, m.chunks, 0, encodeFrame, decodeFrame)
    requires 0 < |encodeText(TransferComplete + "\n")| <= 1024
    requires decodeText(encodeText(TransferComplete + "\n")) == Some(TransferComplete + "\n")
    requires Writable(readOnly, OutputPath(downloadDir, HandshakeFrame(m, encrypted)))
    ensures
      var stream := Wire(SenderLog(m, f, encrypted, CleanReplies(m.chunks)), encodeFrame, encodeText) + more;
      var first := LineRead(stream, []);
      var meta := HandshakeFrame(m, encrypted);
      var out := OutputPath(downloadDir, meta);
      var s := ReceiveSession(first.rest, decodeFrame, decodeText, Writable(readOnly, out), files, out, meta, sha256);
      && AcceptedHandshake(first.got, decodeFrame) == Some(meta)
      && out in s.files && s.files[out] == f
      && s.end == Replied(Success)
      && s.replies == CleanReplies(m.chunks)
      && SenderVerdict(m, f, s.replies)
  {
    var c, n := m.chunkSize, m.chunks;
    var meta := HandshakeFrame(m, encrypted);
    var hs, done := encodeFrame(meta), encodeText(TransferComplete + "\n");
    CleanRepliesSucceed(m, f, encrypted);
    var after := ChunkSegments(f, c, n, 0, encodeFrame) + ([done] + more);
    SenderWire(m, f, encrypted, encodeFrame, encodeText, more);
    LineOfSegment(hs, after, []);
    assert [] + hs == hs;
    assert hs[|hs| - 1] == NewLine;
    CleanSession(f, c, n, encodeFrame, done, more, decodeFrame, decodeText, files, OutputPath(downloadDir, meta), meta, sha256);
  }
}
