/**
 * What the transport exchanges with the daemon's socket, and what it can
 * raise: HTTP versions, read results and the failure kinds.
 */
module Transport {
  import opened Outcomes

  /** HttpClient.Version */
  datatype HttpVersion = HTTP_1_1 | HTTP_2

  /** The version named by a protocol token of a status line: exactly
    * "HTTP/1.1" is HTTP_1_1, anything else is taken for HTTP_2. */
  function VersionOf(token: string): (v: HttpVersion)
    ensures v == HTTP_1_1 <==> token == "HTTP/1.1"
  {
    if token == "HTTP/1.1" then HTTP_1_1 else HTTP_2
  }

  /** What a failed send raises. */
  datatype Failure =
    // DockerClientException, by the situation it reports
    | NotConnected                       // the channel is not connected
    | WriteFailed(cause: string)         // an IOException while writing
    | ReadFailed(cause: string)          // an IOException on the first read
    | StatusLineMalformed(line: string)  // fewer than two tokens on the status line
    | ChunkLineCount(count: nat)         // a chunk read that is not three lines
    | ChunkReadFailed(cause: string)     // an IOException on a chunk read
    | BodyDecodeFailed(cause: string)    // the JSON decoder rejected the body
    // unchecked exceptions that escape unwrapped
    | NumberFormat(input: string)        // NumberFormatException from Integer.parseInt
    | EndOfStream                        // a read returned -1 and new String(buf, 0, -1) threw
    | DuplicateKey(name: string)         // IllegalStateException from Collectors.toMap
    | IllegalHeaders                     // IllegalArgumentException from HttpHeaders.of

  /** One call of SocketChannel.read, as the peer's side delivers it: the
    * decoded text of the bytes read, or an IOException. The end of the
    * stream is the end of the sequence of events. */
  datatype ReadEvent = Delivered(text: string) | ReadFault(cause: string)

  /** `later` is what remains of `events` once some of its first reads
    * have been taken. */
  predicate Unread(later: seq<ReadEvent>, events: seq<ReadEvent>) {
    |later| <= |events| && later == events[|events| - |later|..]
  }

  /** What is left unread of the reads after the first is left unread of
    * all of them, and at least the first was taken. */
  lemma UnreadAfterFirst(events: seq<ReadEvent>, later: seq<ReadEvent>)
    requires |events| >= 1 && Unread(later, events[1..])
    ensures Unread(later, events) && |later| < |events|
  {
  }

  /** Reads left unread after reads left unread. */
  lemma UnreadTrans(a: seq<ReadEvent>, b: seq<ReadEvent>, c: seq<ReadEvent>)
    requires Unread(a, b) && Unread(b, c)
    ensures Unread(a, c)
  {
  }

  /** What the next read returns: the text, the IOException (wrapped by
    * `fault`), or EndOfStream when the peer has closed. */
  function NextRead(events: seq<ReadEvent>, fault: string -> Failure): (r: (Result<string, Failure>, seq<ReadEvent>))
    ensures events == [] ==> r == (Err(EndOfStream), [])
    ensures events != [] ==> r.1 == events[1..] && (r.0.Ok? <==> events[0].Delivered?)
    ensures events != [] && r.0.Ok? ==> r.0.value == events[0].text
    ensures events != [] && r.0.Err? ==> r.0.error == fault(events[0].cause)
  {
    if events == [] then (Err(EndOfStream), [])
    else match events[0]
      case Delivered(text) => (Ok(text), events[1..])
      case ReadFault(cause) => (Err(fault(cause)), events[1..])
  }
}
