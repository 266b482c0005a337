/**
 * What readResponse makes of the reads that follow a request: the status
 * line and the headers from the first read, then, for a chunked response
 * only, the body from the reads after it, and finally the decoded value.
 */
module ResponseReader {
  import opened Outcomes
  import opened JavaText
  import opened JavaInt
  import opened Transport
  import opened RequestEncoder
  import opened StatusLineParser
  import opened HeaderParser
  import opened ChunkedBody

  /** DockerClientHttpResponse: the parts of the response the client fills
    * in (the URI is the request's). */
  datatype Response<T> = Response(statusCode: int, request: HttpRequest, headers: HeaderMap, body: T, version: HttpVersion)

  /** The body to hand to the decoder: the reassembled chunks when the
    * headers say chunked, and otherwise nothing at all (null), without
    * another read. */
  function ReadBody(headers: HeaderMap, events: seq<ReadEvent>, sep: Separator): (r: Result<(Option<string>, seq<ReadEvent>), Failure>)
    ensures r.Ok? ==> Unread(r.value.1, events)
    ensures r.Ok? ==> (r.value.0.Some? <==> IsChunked(headers))
    ensures !IsChunked(headers) ==> r == Ok((None, events))
    ensures IsChunked(headers) ==> (r.Ok? <==> DecodeChunks(events, sep).Ok?)
    ensures IsChunked(headers) && r.Ok? ==>
      r.value == (Some(DecodeChunks(events, sep).value.0), DecodeChunks(events, sep).value.1)
    ensures IsChunked(headers) && r.Err? ==> r.error == DecodeChunks(events, sep).error
  {
    if IsChunked(headers) then
      match DecodeChunks(events, sep)
      case Err(e) => Err(e)
      case Ok((body, later)) => Ok((Some(body), later))
    else Ok((None, events))
  }

  /** readResponse over the reads still to come. `decode` stands for the
    * JSON reader of the requested type: it gets the body, or None for a
    * null body, and its failure is wrapped. */
  function Exchange<T>(req: HttpRequest, events: seq<ReadEvent>, sep: Separator, decode: Option<string> -> Result<T, string>)
    : (r: Result<(Response<T>, seq<ReadEvent>), Failure>)
    ensures r.Ok? ==> Unread(r.value.1, events) && |r.value.1| < |events|
    ensures r.Ok? ==> r.value.0.request == req && INT_MIN <= r.value.0.statusCode <= INT_MAX
  {
    if events == [] then Err(EndOfStream)
    else match events[0]
    case ReadFault(cause) => Err(ReadFailed(cause))
    case Delivered(first) =>
      var r := Respond(req, first, events[1..], sep, decode);
      if r.Ok? then UnreadAfterFirst(events, r.value.1); r else r
  }

  /** The response to a first read `first`, with `tail` the reads after it:
    * its status line and headers, then the body when there is one to read. */
  function Respond<T>(req: HttpRequest, first: string, tail: seq<ReadEvent>, sep: Separator,
                      decode: Option<string> -> Result<T, string>)
    : (r: Result<(Response<T>, seq<ReadEvent>), Failure>)
    ensures r.Ok? ==> Unread(r.value.1, tail)
    ensures r.Ok? ==> r.value.0.request == req && INT_MIN <= r.value.0.statusCode <= INT_MAX
  {
    match ParseStatusLine(first, sep)
    case Err(e) => Err(e)
    case Ok(status) =>
      match ParseHeaders(first)
      case Err(e) => Err(e)
      case Ok(headers) =>
        match ReadBody(headers, tail, sep)
        case Err(e) => Err(e)
        case Ok((body, later)) =>
          match decode(body)
          case Err(cause) => Err(BodyDecodeFailed(cause))
          case Ok(value) => Ok((Response(status.code, req, headers, value, status.version), later))
  }

  // ---------------------------------------------------------------------
  // Properties
  // ---------------------------------------------------------------------

  /** A response without "Transfer-Encoding: chunked" is read in one read:
    * the decoder gets no body, and every later read stays unread. */
  lemma NotChunkedReadsOnce<T>(req: HttpRequest, first: string, later: seq<ReadEvent>, sep: Separator,
                               decode: Option<string> -> Result<T, string>)
    requires ParseStatusLine(first, sep).Ok? && ParseHeaders(first).Ok?
    requires !IsChunked(ParseHeaders(first).value)
    ensures var status, headers := ParseStatusLine(first, sep).value, ParseHeaders(first).value;
      Exchange(req, [Delivered(first)] + later, sep, decode)
        == match decode(None)
           case Err(cause) => Err(BodyDecodeFailed(cause))
           case Ok(value) => Ok((Response(status.code, req, headers, value, status.version), later))
  {
    FirstRead(req, first, later, sep, decode);
  }

  /** A status line that does not parse ends the exchange after the first
    * read: no response, and the error is the status line's. */
  lemma StatusFailureStops<T>(req: HttpRequest, first: string, later: seq<ReadEvent>, sep: Separator,
                              decode: Option<string> -> Result<T, string>)
    requires ParseStatusLine(first, sep).Err?
    ensures Exchange(req, [Delivered(first)] + later, sep, decode) == Err(ParseStatusLine(first, sep).error)
  {
    FirstRead(req, first, later, sep, decode);
  }

  /** A whole chunked exchange: a first read with a status line and a
    * "Transfer-Encoding: chunked" header, then one read per frame. The
    * response carries the status line's code and version and the decoded
    * data of all frames, and the reads after the last frame stay unread. */
  lemma ChunkedExchange<T>(req: HttpRequest, version: string, gap: string, code: nat, gap': string, reason: string, rest: string,
                           frames: seq<ChunkFrame>, later: seq<ReadEvent>, sep: Separator,
                           decode: Option<string> -> Result<T, string>)
    requires IsToken(version) && IsGap(gap) && AfterCode(gap', reason) && code <= INT_MAX && '\n' !in reason
    requires var first := FormatStatusLine(version, gap, code, gap', reason) + sep + rest;
      ParseHeaders(first).Ok? && IsChunked(ParseHeaders(first).value)
    requires WellFormed(frames, sep)
    ensures var first := FormatStatusLine(version, gap, code, gap', reason) + sep + rest;
      var headers := ParseHeaders(first).value;
      Exchange(req, [Delivered(first)] + (Reads(frames, sep) + later), sep, decode)
        == match decode(Some(Data(frames)))
           case Err(cause) => Err(BodyDecodeFailed(cause))
           case Ok(value) => Ok((Response(code, req, headers, value, VersionOf(version)), later))
  {
    var first := FormatStatusLine(version, gap, code, gap', reason) + sep + rest;
    ParseFormattedStatusLine(version, gap, code, gap', reason, sep, rest);
    DecodeReads(frames, sep, later);
    FirstRead(req, first, Reads(frames, sep) + later, sep, decode);
  }

  /** After a delivered first read, the exchange is the response to it
    * over the reads that follow. */
  lemma FirstRead<T>(req: HttpRequest, first: string, tail: seq<ReadEvent>, sep: Separator,
                     decode: Option<string> -> Result<T, string>)
    ensures Exchange(req, [Delivered(first)] + tail, sep, decode) == Respond(req, first, tail, sep, decode)
  {
    assert ([Delivered(first)] + tail)[1..] == tail;
  }
}
