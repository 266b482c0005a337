/** The request text sendRequest writes: request line, Host and Accept headers, blank line. */
module RequestEncoder {
  import opened Outcomes
  import opened JavaText
  import opened Transport

  /** The parts of an HttpRequest that the transport reads: method(),
    * uri().getPath(), uri().getHost() and version(). */
  datatype HttpRequest = HttpRequest(httpMethod: string, path: string, host: string, version: Option<HttpVersion>)

  /** The protocol token of the request line; a request without a version
    * goes out as HTTP/1.1. Read back by the status-line rule, it names the
    * version that was asked for. */
  function VersionToken(v: Option<HttpVersion>): (token: string)
    ensures VersionOf(token) == (if v.Some? then v.value else HTTP_1_1)
    ensures v == Some(HTTP_2) ==> token == "HTTP/2"
  {
    match v
    case Some(HTTP_2) => "HTTP/2"
    case _ => "HTTP/1.1"
  }

  /** "METHOD PATH VERSION" */
  function RequestLine(req: HttpRequest): string {
    req.httpMethod + " " + req.path + " " + VersionToken(req.version)
  }

  /** The formatted text block: each line ends in a bare "\n", and only the
    * closing blank line carries the "\r" escape. There is no body. */
  function EncodeRequest(req: HttpRequest): (raw: string)
    ensures |RequestLine(req)| < |raw| && raw[..|RequestLine(req)| + 1] == RequestLine(req) + "\n"
    ensures |raw| >= 3 && raw[|raw| - 3..] == "\n\r\n"
  {
    RequestLine(req) + "\n" + HostLine(req) + "\n" + ACCEPT_LINE + "\n" + "\r\n"
  }

  /** "Host: HOST" */
  function HostLine(req: HttpRequest): string {
    "Host: " + req.host
  }

  /** The fixed Accept header. */
  const ACCEPT_LINE: string := "Accept: application/json"

  /** Fields without line terminators of their own. */
  predicate SingleLineFields(req: HttpRequest) {
    && '\n' !in req.httpMethod && '\r' !in req.httpMethod
    && '\n' !in req.path && '\r' !in req.path
    && '\n' !in req.host && '\r' !in req.host
  }

  /** Read back line by line, the request is the request line, the Host
    * header, the Accept header and one blank line. */
  lemma EncodedLines(req: HttpRequest)
    requires SingleLineFields(req)
    ensures Lines(EncodeRequest(req)) == [RequestLine(req), "Host: " + req.host, ACCEPT_LINE, ""]
  {
    var l1, l2, l3 := RequestLine(req), HostLine(req), ACCEPT_LINE;
    RequestLineSingle(req);
    Regroup(l1, l2, l3, "\r\n", "\n");
    ThreeLinesAndBlank(l1, l2, l3);
  }

  /** Three lines, each ended by LF, then a CRLF blank line. */
  lemma ThreeLinesAndBlank(l1: string, l2: string, l3: string)
    requires '\n' !in l1 && '\r' !in l1
    requires '\n' !in l2 && '\r' !in l2
    requires '\n' !in l3 && '\r' !in l3
    ensures Lines(l1 + "\n" + (l2 + "\n" + (l3 + "\n" + "\r\n"))) == [l1, l2, l3, ""]
  {
    LinesCons(l1, "\n", l2 + "\n" + (l3 + "\n" + "\r\n"));
    LinesCons(l2, "\n", l3 + "\n" + "\r\n");
    LastLineAndBlank(l3);
  }

  /** A last line ended by LF, then the CRLF blank line. */
  lemma LastLineAndBlank(l3: string)
    requires '\n' !in l3 && '\r' !in l3
    ensures Lines(l3 + "\n" + "\r\n") == [l3, ""]
  {
    LinesCons(l3, "\n", "\r\n");
    assert "\r\n" == [] + "\r\n" + [];
    LinesCons([], "\r\n", []);
  }

  /** Regrouping a text of lines so that each line is followed by the rest. */
  lemma Regroup(a: string, b: string, c: string, d: string, n: string)
    ensures a + n + b + n + c + n + d == a + n + (b + n + (c + n + d))
  {
    assert a + n + b + n + c + n + d == (a + n + b + n + c + n) + d;
    assert a + n + b + n + c + n == (a + n + b + n) + (c + n);
    assert a + n + b + n == a + n + (b + n);
  }

  /** The request line is a single line. */
  lemma RequestLineSingle(req: HttpRequest)
    requires SingleLineFields(req)
    ensures '\n' !in RequestLine(req) && '\r' !in RequestLine(req)
  {
    var token := VersionToken(req.version);
    assert '\n' !in token && '\r' !in token;
  }

  /** The only carriage return in the request is the one before the final
    * line feed: every other line ends in a bare LF. */
  lemma OnlyFinalCarriageReturn(req: HttpRequest)
    requires '\r' !in req.httpMethod && '\r' !in req.path && '\r' !in req.host
    ensures var raw := EncodeRequest(req);
      && raw[|raw| - 2..] == "\r\n"
      && forall i :: 0 <= i < |raw| ==> (raw[i] == '\r' <==> i == |raw| - 2)
  {
    var raw := EncodeRequest(req);
    var head := RequestLine(req) + "\n" + HostLine(req) + "\n" + ACCEPT_LINE + "\n";
    assert raw == head + "\r\n";
    assert '\r' !in VersionToken(req.version);
    assert '\r' !in head;
    forall i | 0 <= i < |head| ensures raw[i] != '\r' {
      assert raw[i] == head[i] && head[i] in head;
    }
  }

  /** With a method and a path free of whitespace, the request line splits
    * back into exactly the method, the path and the version token. */
  lemma RequestLineTokens(req: HttpRequest)
    requires req.httpMethod != [] && req.path != []
    requires forall c :: c in req.httpMethod ==> !IsRegexSpace(c)
    requires forall c :: c in req.path ==> !IsRegexSpace(c)
    requires !IsRegexSpace(req.path[0])
    ensures SplitWs(RequestLine(req), 3) == [req.httpMethod, req.path, VersionToken(req.version)]
  {
    var token := VersionToken(req.version);
    assert forall c :: c in token ==> !IsRegexSpace(c);
    assert RequestLine(req) == req.httpMethod + " " + (req.path + " " + token);
    SplitWsRun(req.httpMethod, " ", req.path + " " + token, 3);
    SplitWsRun(req.path, " ", token, 2);
    SplitWsSingle(token, 1);
  }
}
