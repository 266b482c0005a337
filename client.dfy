/**
 * DefaultDockerClient over its socket channel: the request goes out through
 * a write loop that tolerates partial writes, and the response comes in
 * read by read.
 */
module DockerClient {
  import opened Outcomes
  import opened JavaText
  import opened Transport
  import opened RequestEncoder
  import opened StatusLineParser
  import opened HeaderParser
  import opened ChunkedBody
  import opened ResponseReader

  /** The socket channel as the client sees it: whether it is connected,
    * what has been written to it so far, and the reads the peer has yet to
    * deliver. */
  class Channel {
    var connected: bool
    var sent: string
    var incoming: seq<ReadEvent>

    constructor (connected: bool, incoming: seq<ReadEvent>)
      ensures this.connected == connected && sent == [] && this.incoming == incoming
    {
      this.connected := connected;
      sent := [];
      this.incoming := incoming;
    }

    /** SocketChannel.write: takes some of `data` from the front, at least
      * one character when there is any, or fails with an IOException and
      * takes nothing. How much it takes is up to the channel. */
    method Write(data: string) returns (r: Result<nat, string>)
      modifies this`sent
      ensures r.Ok? ==> r.value <= |data| && (data != [] ==> r.value >= 1)
      ensures r.Ok? ==> sent == old(sent) + data[..r.value]
      ensures r.Err? ==> sent == old(sent)
    {
      var fails: bool :| true;
      if fails {
        var cause: string :| true;
        r := Err(cause);
      } else {
        var n: nat :| n <= |data| && (data != [] ==> n >= 1);
        sent := sent + data[..n];
        r := Ok(n);
      }
    }

    /** SocketChannel.read: the next read the peer delivers, or None (the
      * -1 of a closed stream) once there are no more. */
    method Read() returns (e: Option<ReadEvent>)
      modifies this`incoming
      ensures old(incoming) == [] ==> e == None && incoming == []
      ensures old(incoming) != [] ==> e == Some(old(incoming)[0]) && incoming == old(incoming)[1..]
    {
      if incoming == [] {
        e := None;
      } else {
        e := Some(incoming[0]);
        incoming := incoming[1..];
      }
    }
  }

  class DefaultDockerClient {
    const chan: Channel
    /** System.lineSeparator() of the platform the client runs on. */
    const lineSeparator: Separator

    constructor (chan: Channel, lineSeparator: Separator)
      ensures this.chan == chan && this.lineSeparator == lineSeparator
    {
      this.chan := chan;
      this.lineSeparator := lineSeparator;
    }

    /** send: write the request, then read the response. */
    method Send<T>(req: HttpRequest, decode: Option<string> -> Result<T, string>) returns (r: Result<Response<T>, Failure>)
      modifies chan`sent, chan`incoming
      ensures !old(chan.connected) ==> r == Err(NotConnected) && unchanged(chan)
      ensures r.Ok? ==> chan.sent == old(chan.sent) + EncodeRequest(req)
      ensures r.Ok? ==> Exchange(req, old(chan.incoming), lineSeparator, decode) == Ok((r.value, chan.incoming))
      ensures r.Err? && old(chan.connected) ==>
        || (&& r.error.WriteFailed? && chan.incoming == old(chan.incoming)
            && exists n :: 0 <= n <= |EncodeRequest(req)| && chan.sent == old(chan.sent) + EncodeRequest(req)[..n])
        || (&& chan.sent == old(chan.sent) + EncodeRequest(req)
            && Exchange(req, old(chan.incoming), lineSeparator, decode).Err?
            && r.error == Exchange(req, old(chan.incoming), lineSeparator, decode).error)
      ensures Unread(chan.incoming, old(chan.incoming))
    {
      var sent := SendRequest(req);
      if sent.Err? {
        return Err(sent.error);
      }
      r := ReadResponse(req, decode);
    }

    /** sendRequest: a disconnected channel fails before anything is
      * written; otherwise the whole request is written, or the first failed
      * write ends the attempt. */
    method SendRequest(req: HttpRequest) returns (r: Result<(), Failure>)
      modifies chan`sent
      ensures !old(chan.connected) ==> r == Err(NotConnected) && chan.sent == old(chan.sent)
      ensures r.Ok? ==> chan.sent == old(chan.sent) + EncodeRequest(req)
      ensures r.Err? ==> r.error == NotConnected || r.error.WriteFailed?
      ensures old(chan.connected) ==> r.Ok? || r.error.WriteFailed?
      ensures r.Err? ==> exists n :: 0 <= n <= |EncodeRequest(req)| && chan.sent == old(chan.sent) + EncodeRequest(req)[..n]
    {
      var raw := EncodeRequest(req);
      if !chan.connected {
        assert chan.sent == old(chan.sent) + raw[..0];
        return Err(NotConnected);
      }
      r := WriteAll(raw);
    }

    /** The write loop of sendRequest: writes until every character of `raw`
      * is out, in order and once, however the channel splits the writes, or
      * stops at the first failed write. */
    method WriteAll(raw: string) returns (r: Result<(), Failure>)
      modifies chan`sent
      ensures r.Ok? ==> chan.sent == old(chan.sent) + raw
      ensures r.Err? ==> r.error.WriteFailed?
      ensures r.Err? ==> exists n :: 0 <= n <= |raw| && chan.sent == old(chan.sent) + raw[..n]
    {
      var pos := 0;
      while pos < |raw|
        invariant 0 <= pos <= |raw|
        invariant chan.sent == old(chan.sent) + raw[..pos]
        decreases |raw| - pos
      {
        var w := chan.Write(raw[pos..]);
        match w
        case Err(cause) =>
          return Err(WriteFailed(cause));
        case Ok(n) =>
          assert raw[..pos] + raw[pos..][..n] == raw[..pos + n];
          pos := pos + n;
      }
      assert raw[..pos] == raw;
      r := Ok(());
    }

    /** readChunk: one read; a failed read is wrapped, the end of the
      * stream escapes. */
    method ReadChunk() returns (r: Result<string, Failure>)
      modifies chan`incoming
      ensures (r, chan.incoming) == NextRead(old(chan.incoming), cause => ReadFailed(cause))
    {
      var e := chan.Read();
      match e
      case None => r := Err(EndOfStream);
      case Some(Delivered(text)) => r := Ok(text);
      case Some(ReadFault(cause)) => r := Err(ReadFailed(cause));
    }

    /** readRemainingChunks, with its recursion turned into a loop that
      * gathers the data read so far. */
    method ReadRemainingChunks() returns (r: Result<string, Failure>)
      modifies chan`incoming
      ensures DecodeChunks(old(chan.incoming), lineSeparator).Ok? ==>
        var (body, later) := DecodeChunks(old(chan.incoming), lineSeparator).value;
        r == Ok(body) && chan.incoming == later
      ensures DecodeChunks(old(chan.incoming), lineSeparator).Err? ==>
        r == Err(DecodeChunks(old(chan.incoming), lineSeparator).error)
      ensures Unread(chan.incoming, old(chan.incoming))
    {
      var body := "";
      match DecodeChunks(chan.incoming, lineSeparator) {
        case Ok((all, _)) => assert body + all == all;
        case Err(_) =>
      }
      while true
        invariant DecodeChunks(old(chan.incoming), lineSeparator) == Prefixed(body, DecodeChunks(chan.incoming, lineSeparator))
        invariant Unread(chan.incoming, old(chan.incoming))
        decreases |chan.incoming|
      {
        var e := chan.Read();
        match e
        case None =>
          return Err(EndOfStream);
        case Some(ReadFault(cause)) =>
          return Err(ChunkReadFailed(cause));
        case Some(Delivered(text)) =>
          match ParseChunkRead(text, lineSeparator)
          case Err(failure) =>
            return Err(failure);
          case Ok(frame) =>
            if frame.remaining == 0 {
              return Ok(body + frame.data);
            }
            PrefixedStep(body, frame.data, DecodeChunks(chan.incoming, lineSeparator));
            body := body + frame.data;
      }
    }

    /** readResponse: the first read gives the status line and the
      * headers; only a chunked response reads on, for its body; the body,
      * or null, goes to the decoder. */
    method ReadResponse<T>(req: HttpRequest, decode: Option<string> -> Result<T, string>) returns (r: Result<Response<T>, Failure>)
      modifies chan`incoming
      ensures Exchange(req, old(chan.incoming), lineSeparator, decode).Ok? ==>
        r == Ok(Exchange(req, old(chan.incoming), lineSeparator, decode).value.0)
        && chan.incoming == Exchange(req, old(chan.incoming), lineSeparator, decode).value.1
      ensures Exchange(req, old(chan.incoming), lineSeparator, decode).Err? ==>
        r == Err(Exchange(req, old(chan.incoming), lineSeparator, decode).error)
      ensures Unread(chan.incoming, old(chan.incoming))
    {
      ghost var pending := chan.incoming;
      var first := ReadChunk();
      assert Unread(chan.incoming, pending);
      if first.Err? {
        return Err(first.error);
      }
      var text := first.value;
      var status := ParseStatusLine(text, lineSeparator);
      if status.Err? {
        return Err(status.error);
      }
      var headers := ParseHeaders(text);
      if headers.Err? {
        return Err(headers.error);
      }
      var chunked := IsChunked(headers.value);
      var body: Option<string> := None;
      if chunked {
        ghost var rest := chan.incoming;
        var chunks := ReadRemainingChunks();
        UnreadTrans(chan.incoming, rest, pending);
        if chunks.Err? {
          return Err(chunks.error);
        }
        body := Some(chunks.value);
      }
      match decode(body)
      case Err(cause) =>
        r := Err(BodyDecodeFailed(cause));
      case Ok(value) =>
        r := Ok(Response(status.value.code, req, headers.value, value, status.value.version));
    }
  }
}
