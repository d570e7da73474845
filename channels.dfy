/** Stand-ins for the two ends of a connection.

    The sender's socket is fixed when it is created. It records whether the
    connection can be made and the reply tokens the peer will send, and
    counts the tokens read so far. Each recv(1024).decode().strip() gives
    the next token, and "" once the peer has closed. Every send is appended
    to a log.

    The receiver's socket holds the segments the peer's bytes arrive in. An
    empty segment is end of stream, and so is running out of segments. A
    recv(max) returns at most max bytes and leaves the rest of a longer
    segment for the next read. Every reply the receiver sends is appended
    to a log. */
module Channels {
  import opened Base
  import opened Protocol

  class SenderChannel {
    const reachable: bool
    const replies: seq<string>
    var read: nat
    var connected: bool
    var sent: seq<Outgoing>
    var closed: bool

    constructor (reachable: bool, replies: seq<string>)
      ensures this.reachable == reachable && this.replies == replies
      ensures read == 0 && !connected && sent == [] && !closed
    {
      this.reachable := reachable;
      this.replies := replies;
      read := 0;
      connected := false;
      sent := [];
      closed := false;
    }

    /** connect() returns when the target can be reached, and raises
        otherwise. */
    method Connect() returns (ok: bool)
      modifies this
      ensures ok == reachable && connected == reachable
      ensures read == old(read) && sent == old(sent) && closed == old(closed)
    {
      connected := reachable;
      ok := reachable;
    }

    method Send(o: Outgoing)
      requires connected
      modifies this
      ensures sent == old(sent) + [o]
      ensures connected && read == old(read) && closed == old(closed)
    {
      sent := sent + [o];
    }

    /** The next reply token, or "" when the peer has closed. */
    method Recv() returns (t: string)
      requires connected
      modifies this
      ensures t == TokenAt(replies, old(read)) && read == old(read) + 1
      ensures connected && sent == old(sent) && closed == old(closed)
    {
      if read < |replies| {
        t := replies[read];
      } else {
        t := "";
      }
      read := read + 1;
    }

    method Close()
      modifies this
      ensures closed
      ensures connected == old(connected) && read == old(read) && sent == old(sent)
    {
      closed := true;
    }
  }

  /** The bytes that arrive before end of stream. Nothing arrives exactly
      when the stream ends before its first segment. */
  function Stream(segments: seq<Bytes>): (r: Bytes)
    ensures r == [] <==> segments == [] || segments[0] == []
  {
    if segments == [] || segments[0] == [] then [] else segments[0] + Stream(segments[1..])
  }

  /** What recv(max) returns. */
  function RecvData(segments: seq<Bytes>, max: nat): (r: Bytes)
    ensures |r| <= max
  {
    if segments == [] then []
    else if |segments[0]| <= max then segments[0]
    else segments[0][..max]
  }

  /** What recv(max) leaves. End of stream persists; a segment longer than
      max keeps its tail for the next read. */
  function RecvRest(segments: seq<Bytes>, max: nat): (r: seq<Bytes>)
    ensures Stream(segments) == [] ==> r == segments
    ensures |r| <= |segments|
  {
    if segments == [] || segments[0] == [] then segments
    else if |segments[0]| <= max then segments[1..]
    else [segments[0][max..]] + segments[1..]
  }

  /** A read loses and invents nothing: the stream is the data read
      followed by the stream left. The read is empty only at end of
      stream. */
  lemma RecvSplitsStream(segments: seq<Bytes>, max: nat)
    requires max > 0
    ensures Stream(segments) == RecvData(segments, max) + Stream(RecvRest(segments, max))
    ensures RecvData(segments, max) == [] <==> Stream(segments) == []
  {
    if segments != [] && segments[0] != [] {
      var s0, tail := segments[0], Stream(segments[1..]);
      assert Stream(segments) == s0 + tail;
      if |s0| > max {
        var rest := [s0[max..]] + segments[1..];
        assert rest[0] == s0[max..] && rest[1..] == segments[1..];
        assert Stream(rest) == s0[max..] + tail;
        assert s0 == s0[..max] + s0[max..];
        AppendAssoc(s0[..max], s0[max..], tail);
      }
    }
  }

  class ReceiverChannel {
    var incoming: seq<Bytes>
    var sent: seq<string>
    var closed: bool

    constructor (incoming: seq<Bytes>)
      ensures this.incoming == incoming && sent == [] && !closed
    {
      this.incoming := incoming;
      sent := [];
      closed := false;
    }

    method Recv(max: nat) returns (data: Bytes)
      requires max > 0
      modifies this
      ensures data == RecvData(old(incoming), max)
      ensures incoming == RecvRest(old(incoming), max)
      ensures Stream(old(incoming)) == data + Stream(incoming)
      ensures |data| <= max
      ensures data == [] <==> Stream(old(incoming)) == []
      ensures data == [] ==> incoming == old(incoming)
      ensures sent == old(sent) && closed == old(closed)
    {
      RecvSplitsStream(incoming, max);
      data := RecvData(incoming, max);
      incoming := RecvRest(incoming, max);
    }

    /** Sends a token and its newline. */
    method Send(t: string)
      modifies this
      ensures sent == old(sent) + [t]
      ensures incoming == old(incoming) && closed == old(closed)
    {
      sent := sent + [t];
    }

    method Close()
      modifies this
      ensures closed
      ensures incoming == old(incoming) && sent == old(sent)
    {
      closed := true;
    }
  }
}
