# HTTP/1.1 over a Docker socket, modelled in Dafny

`DefaultDockerClient` speaks HTTP/1.1 to the Docker daemon over a raw
`SocketChannel`, without an HTTP client library. Its `send` writes one
request and reads one response:

- `sendRequest` formats the request line, the `Host` and `Accept` headers
  and a blank line. It refuses a channel that is not connected. It writes
  in a loop until every byte is out.
- `readResponse` reads once. From that text it takes the status line (the
  first line, split on whitespace into version and decimal code) and the
  headers (every line that splits on `:` into exactly two parts). Only when
  `Transfer-Encoding` is `chunked` does it read on, with
  `readRemainingChunks`. Each further read is split at its first two line
  separators into three parts: the size of its data in hexadecimal, the
  data, and the size still to come (which may itself span further lines).
  A read with fewer than two separators is a failure. Reading stops when
  the last size is zero. The body, or `null`,
  goes to the JSON reader.

The model keeps this structure:

| file | module | what it holds |
|---|---|---|
| `outcomes.dfy` | `Outcomes` | `Option`, `Result` |
| `java_text.dfy` | `JavaText` | `strip`, `trim`, `split` with and without a limit, `split("\\s+", n)`, `lines()` |
| `java_int.dfy` | `JavaInt` | `Integer.parseInt` with a radix and its 32-bit range; `Integer.toString`, which the lemmas use to write sizes and codes |
| `transport.dfy` | `Transport` | HTTP versions, the failures a send can raise, the reads a channel delivers |
| `request.dfy` | `RequestEncoder` | the request text |
| `status_line.dfy` | `StatusLineParser` | the status line |
| `headers.dfy` | `HeaderParser` | `parseHeaders`, `HttpHeaders.of`, `firstValue` and chunked detection |
| `chunked.dfy` | `ChunkedBody` | one chunk read, and the chunk loop as a function over the reads to come |
| `exchange.dfy` | `ResponseReader` | `readResponse` as a function over the reads to come |
| `client.dfy` | `DockerClient` | the channel and the client as classes; the write loop and the read loop as methods proved against those functions |

The channel is a class with three fields:

- `connected`;
- `sent`, what has been written so far;
- `incoming`, the reads the peer has yet to deliver.

Each read is `Delivered(text)` or `ReadFault(cause)`, and the end of the
sequence is the end of the stream. A write takes a channel-chosen
non-empty prefix of what is left, or fails.

Every exception is a `Failure`. The client's own `DockerClientException`s
are told apart by the situation they report. The unchecked exceptions the
code lets through are listed separately: a `NumberFormatException`, the
`StringIndexOutOfBoundsException` that a read of -1 causes, and the
`IllegalStateException` and `IllegalArgumentException` from header
collection.

Where the code departs from usual HTTP/1.1 message framing (RFC 9112), the
model follows the code:

- The request is a Java text block. Its lines end in a bare LF; only the
  closing blank line carries `\r`. A CRLF-terminated request is not what
  is written (`RequestEncoder.OnlyFinalCarriageReturn`).
- The last chunk of standard chunked coding, `0\r\n\r\n`, is not accepted
  as an empty body. Split at `\n` its third part is empty, and
  `Integer.parseInt("")` throws (`ChunkedBody.TerminalChunkFails`). An empty
  body comes only from a read such as `0\n\n0`.
- A chunk written with CRLF line ends and read where the line separator is
  LF still parses: `strip()` removes the CR after each size. The data,
  however, keeps its trailing `\r` (`ChunkedBody.CrlfReadWithLf`).

## Model

| member | source | states |
|---|---|---|
| RequestEncoder.VersionToken | src/main/java/dev/kwirz/crun/docker/DefaultDockerClient.java:61-64 | HTTP_2 is written `HTTP/2`, and HTTP_1_1 or no version `HTTP/1.1`; read back by the status-line rule, the token names the version that was asked for |
| RequestEncoder.EncodeRequest | src/main/java/dev/kwirz/crun/docker/DefaultDockerClient.java:66-71 | the request starts with the request line and an LF, and ends with an LF followed by the CRLF of the blank line |
| RequestEncoder.EncodedLines | src/main/java/dev/kwirz/crun/docker/DefaultDockerClient.java:66-71 | read back with `lines()`, the request is the request line, `Host: host`, the fixed Accept header and one blank line |
| RequestEncoder.OnlyFinalCarriageReturn | src/main/java/dev/kwirz/crun/docker/DefaultDockerClient.java:66-71 | the request ends in CRLF, and that CR is the only one in it: every other line ends in a bare LF |
| RequestEncoder.RequestLineTokens | src/main/java/dev/kwirz/crun/docker/DefaultDockerClient.java:67 | a method and a path without whitespace split back into method, path and version token |
| Transport.VersionOf | src/main/java/dev/kwirz/crun/docker/DefaultDockerClient.java:165 | exactly `HTTP/1.1` is HTTP_1_1; every other token, `HTTP/1.0` or `HTTP/3` included, is taken for HTTP_2 |
| Transport.NextRead | src/main/java/dev/kwirz/crun/docker/DefaultDockerClient.java:89-101 | with no reads left the result is the end of the stream; otherwise the first read is consumed, and it gives its text or its IOException wrapped by the caller |
| StatusLineParser.FirstLine | src/main/java/dev/kwirz/crun/docker/DefaultDockerClient.java:156-160 | the first line is a prefix of the read with no separator in it, ending at the first separator or at the end |
| StatusLineParser.ParseStatusLine | src/main/java/dev/kwirz/crun/docker/DefaultDockerClient.java:156-166 | a parsed code lies in the int range; a failure is a malformed status line or a NumberFormatException (what the tokens are is stated by ParseFormattedStatusLine, NonDecimalCodeFails and MalformedIffOneToken) |
| StatusLineParser.MalformedIffOneToken | src/main/java/dev/kwirz/crun/docker/DefaultDockerClient.java:160-164 | the status line is rejected as malformed exactly when the stripped first line has no whitespace |
| StatusLineParser.GarbageRejected | src/main/java/dev/kwirz/crun/docker/DefaultDockerClient.java:160-164 | a one-word first line such as `GARBAGE` is rejected with that line |
| StatusLineParser.ParseFormattedStatusLine | src/main/java/dev/kwirz/crun/docker/DefaultDockerClient.java:156-166 | a status line `version code reason`, its fields separated by any runs of `\s` characters, the reason phrase possibly absent, and followed by anything, parses to that version and code |
| StatusLineParser.ParseCodedStatusLine | src/main/java/dev/kwirz/crun/docker/DefaultDockerClient.java:156-166 | a status line whose code token is any text `Integer.parseInt` accepts, such as `0200` or `+200`, with or without a reason phrase, parses to the value of that token |
| StatusLineParser.NonDecimalCodeFails | src/main/java/dev/kwirz/crun/docker/DefaultDockerClient.java:156-166 | a status line whose second token is not a decimal int, such as `HTTP/1.1 OK`, fails with a NumberFormatException on that token |
| StatusLineParser.StatusTokens | src/main/java/dev/kwirz/crun/docker/DefaultDockerClient.java:156-162 | the first two whitespace tokens of such a status line's stripped first line are its version and its code token |
| HeaderParser.HeaderLine | src/main/java/dev/kwirz/crun/docker/DefaultDockerClient.java:138-139 | a kept line holds a colon, and its name and value hold none; the value is not empty |
| HeaderParser.HeaderLineOf | src/main/java/dev/kwirz/crun/docker/DefaultDockerClient.java:138-139 | `name:value` followed by any number of colons is kept as that name and value |
| HeaderParser.HeaderLineShape | src/main/java/dev/kwirz/crun/docker/DefaultDockerClient.java:138-139 | every kept line has exactly that shape |
| HeaderParser.SecondColonDropped | src/main/java/dev/kwirz/crun/docker/DefaultDockerClient.java:138-139 | a line whose value holds a further colon, such as a time of day, is dropped |
| HeaderParser.FilterMap | src/main/java/dev/kwirz/crun/docker/DefaultDockerClient.java:137-139 | every kept result comes from some line, and every line that passes the filter contributes its result; there are no more results than lines |
| HeaderParser.FilterMapSnoc | src/main/java/dev/kwirz/crun/docker/DefaultDockerClient.java:137-139 | appending a line appends its result when it passes the filter and nothing otherwise, so the stream keeps the order and the multiplicity of the lines |
| HeaderParser.CollectToMap | src/main/java/dev/kwirz/crun/docker/DefaultDockerClient.java:140 | collection succeeds exactly when no name repeats, and then maps each name to its value and nothing else; otherwise it fails with a name that occurs twice |
| HeaderParser.HeadersOfEntries | src/main/java/dev/kwirz/crun/docker/DefaultDockerClient.java:141 | each name's trimmed value is listed alone under its case-folded trimmed key, and there are no other keys |
| HeaderParser.HeadersOfFails | src/main/java/dev/kwirz/crun/docker/DefaultDockerClient.java:141 | `HttpHeaders.of` fails exactly when a trimmed name is empty or two names are equal up to case and surrounding blanks |
| HeaderParser.HttpHeadersOf | src/main/java/dev/kwirz/crun/docker/DefaultDockerClient.java:141 | `HttpHeaders.of` fails only with an IllegalArgumentException; on success there is one key per collected pair |
| HeaderParser.ParseHeaders | src/main/java/dev/kwirz/crun/docker/DefaultDockerClient.java:136-142 | header parsing fails only with a duplicate name or with headers `HttpHeaders.of` refuses |
| HeaderParser.RepeatedNameFails | src/main/java/dev/kwirz/crun/docker/DefaultDockerClient.java:140 | two header lines with the same name make parsing fail, whatever their values |
| HeaderParser.LookupIff | src/main/java/dev/kwirz/crun/docker/DefaultDockerClient.java:136-142 | a lookup finds a value for a name exactly when some line declares that value for that name, up to case |
| HeaderParser.FirstValue | src/main/java/dev/kwirz/crun/docker/DefaultDockerClient.java:172 | a value is found exactly when the case-folded name is a key with a non-empty list, and it is that list's first value |
| HeaderParser.IsChunked | src/main/java/dev/kwirz/crun/docker/DefaultDockerClient.java:172 | chunked exactly when the first value under the key `transfer-encoding` is `chunked` |
| HeaderParser.ChunkedIff | src/main/java/dev/kwirz/crun/docker/DefaultDockerClient.java:172 | the response counts as chunked exactly when some line declares `Transfer-Encoding` with the trimmed value `chunked` |
| ChunkedBody.ParseChunkRead | src/main/java/dev/kwirz/crun/docker/DefaultDockerClient.java:110-122 | a parsed read has data without a separator and sizes in the int range; a failure is a line count of 1 or 2, or a NumberFormatException (what is parsed, and when it fails, is stated by ThreePartRead, TwoPartsFail, OnePartIff, ParsePaddedFrameText and CrlfReadWithLf) |
| ChunkedBody.OnePartIff | src/main/java/dev/kwirz/crun/docker/DefaultDockerClient.java:111-118 | a read fails as one line exactly when it holds no separator |
| ChunkedBody.TwoPartsFail | src/main/java/dev/kwirz/crun/docker/DefaultDockerClient.java:111-117 | a read with exactly one separator fails as two lines |
| ChunkedBody.ThreePartRead | src/main/java/dev/kwirz/crun/docker/DefaultDockerClient.java:111-122 | a read with two separators fails on its stripped first part when that is not a hexadecimal int, then on its stripped third part, and otherwise gives both sizes and the middle part as data |
| ChunkedBody.NonHexSizeFails | src/main/java/dev/kwirz/crun/docker/DefaultDockerClient.java:120 | a first part holding a character that is not a hexadecimal digit, after an optional sign, fails with a NumberFormatException on that part |
| ChunkedBody.ParseFrameText | src/main/java/dev/kwirz/crun/docker/DefaultDockerClient.java:110-122 | a read written as size, data and remaining size parses back to them, whatever size it declares |
| ChunkedBody.ParsePaddedFrameText | src/main/java/dev/kwirz/crun/docker/DefaultDockerClient.java:110-122 | sizes followed by blanks that `strip()` removes (on the first size's line, or over any number of lines after the last size) parse back to the same frame |
| ChunkedBody.CrlfReadWithLf | src/main/java/dev/kwirz/crun/docker/DefaultDockerClient.java:110-122 | a chunk with CRLF line ends, and any blank lines after it, read with an LF separator gives its sizes, and its data with the CR left at its end |
| ChunkedBody.CrlfReadWithCrlf | src/main/java/dev/kwirz/crun/docker/DefaultDockerClient.java:110-122 | the same chunk read with a CRLF separator gives its sizes and its data as sent |
| ChunkedBody.DecodeChunks | src/main/java/dev/kwirz/crun/docker/DefaultDockerClient.java:104-134 | a decoded body consumes at least one read and leaves the later reads unread; with no reads left it fails at the end of the stream |
| ChunkedBody.DecodeCarried | src/main/java/dev/kwirz/crun/docker/DefaultDockerClient.java:104-134 | reads, however spelled, that parse to frames of which only the last announces zero decode to the frames' data in order, and every read after them is left unread |
| ChunkedBody.DecodeThrough | src/main/java/dev/kwirz/crun/docker/DefaultDockerClient.java:126-130 | reads that parse to frames announcing more put their data in front of whatever the later reads decode to, and pass a failure of the later reads through unchanged |
| ChunkedBody.FailureAfterFrames | src/main/java/dev/kwirz/crun/docker/DefaultDockerClient.java:104-134 | after such reads, the end of the stream, a failed read or a read that does not parse fails the whole body with that failure, and no partial body is returned |
| ChunkedBody.DecodeReads | src/main/java/dev/kwirz/crun/docker/DefaultDockerClient.java:104-134 | reads written as frames, the last announcing zero, decode to the frames' data in order, and every read after them is left unread |
| ChunkedBody.OneReadExample | src/main/java/dev/kwirz/crun/docker/DefaultDockerClient.java:104-134 | the read `5`, `hello`, `0` gives the body `hello` |
| ChunkedBody.TwoReadsExample | src/main/java/dev/kwirz/crun/docker/DefaultDockerClient.java:104-134 | the reads `3`, `abc`, `2` and `2`, `de`, `0` give the body `abcde` |
| ChunkedBody.CrlfTwoReads | src/main/java/dev/kwirz/crun/docker/DefaultDockerClient.java:104-134 | two CRLF-ended reads, the first announcing more and the second zero, give both data in order with a CRLF separator, and each data followed by its CR with an LF separator |
| ChunkedBody.CrlfReadsWithCrlf | src/main/java/dev/kwirz/crun/docker/DefaultDockerClient.java:104-134 | the reads `3\r\nabc\r\n2\r\n` and `2\r\nde\r\n0\r\n\r\n` give `abcde` with a CRLF separator |
| ChunkedBody.CrlfReadsWithLf | src/main/java/dev/kwirz/crun/docker/DefaultDockerClient.java:104-134 | the same reads give `abc\rde\r` with an LF separator |
| ChunkedBody.TerminalChunkFails | src/main/java/dev/kwirz/crun/docker/DefaultDockerClient.java:111-122 | `0\r\n\r\n` read with an LF separator fails with a NumberFormatException on an empty string |
| JavaInt.DigitsValue | src/main/java/dev/kwirz/crun/docker/DefaultDockerClient.java:166 | digits have a value exactly when each is a digit of the radix |
| JavaInt.ParseInt | src/main/java/dev/kwirz/crun/docker/DefaultDockerClient.java:166 | a parsed value fits an int, the text is not empty and not a bare sign, and every character after an optional sign is a digit of the radix |
| JavaInt.ParseFormat | src/main/java/dev/kwirz/crun/docker/DefaultDockerClient.java:120-122 | parsing reads back every non-negative int as written in any radix |
| JavaInt.ParseSigned | src/main/java/dev/kwirz/crun/docker/DefaultDockerClient.java:120-122 | a number written with an optional `+` or `-` sign and any leading zeros parses to its signed value when that value lies in the int range, and fails otherwise (so `80000000` in radix 16 fails, and `-80000000` gives the int minimum) |
| JavaInt.ParseDigits | src/main/java/dev/kwirz/crun/docker/DefaultDockerClient.java:166 | a sign followed by unsigned digits parses to the signed value of the digits when it fits an int, and fails otherwise |
| JavaInt.ZerosPrefix | src/main/java/dev/kwirz/crun/docker/DefaultDockerClient.java:120-122 | leading zeros do not change the value of a digit string |
| JavaInt.ZerosValue | src/main/java/dev/kwirz/crun/docker/DefaultDockerClient.java:120-122 | a string of zeros has the value 0 |
| JavaText.SplitLimit | src/main/java/dev/kwirz/crun/docker/DefaultDockerClient.java:111 | a split with a limit has between one part and the limit, its parts join back to the input, and no part but the last holds the separator |
| JavaText.SplitFree | src/main/java/dev/kwirz/crun/docker/DefaultDockerClient.java:111 | a text without the separator is split into itself alone |
| JavaText.SplitJoin | src/main/java/dev/kwirz/crun/docker/DefaultDockerClient.java:111 | splitting with a limit gives back parts that were joined, when no part before the last holds the separator |
| JavaText.StripBounds | src/main/java/dev/kwirz/crun/docker/DefaultDockerClient.java:160 | a stripped string is a slice of the input with only whitespace outside it, and it is empty exactly for an all-whitespace input |
| JavaText.Strip | src/main/java/dev/kwirz/crun/docker/DefaultDockerClient.java:160 | a stripped string is no longer than the input and neither starts nor ends with whitespace |
| JavaText.SplitWsCount | src/main/java/dev/kwirz/crun/docker/DefaultDockerClient.java:161-162 | a whitespace split gives at least two parts exactly when the text holds whitespace |
| JavaText.SplitWs | src/main/java/dev/kwirz/crun/docker/DefaultDockerClient.java:161 | a whitespace split has one part up to the limit; the first part is a prefix of the text, and no part before the last holds `\s` |
| JavaText.SplitWsRun | src/main/java/dev/kwirz/crun/docker/DefaultDockerClient.java:161 | after a token, a run of `\s` characters of any length is one delimiter: the split goes on at the next token |
| JavaText.LinesCons | src/main/java/dev/kwirz/crun/docker/DefaultDockerClient.java:137 | a line without terminators followed by a separator is the first line of the text |
| JavaText.LinesCr | src/main/java/dev/kwirz/crun/docker/DefaultDockerClient.java:137 | a line followed by a carriage return that is not followed by a line feed is the first line of the text |
| JavaText.Lines | src/main/java/dev/kwirz/crun/docker/DefaultDockerClient.java:137 | no line holds a line terminator |
| JavaText.SplitOnColon | src/main/java/dev/kwirz/crun/docker/DefaultDockerClient.java:138 | the parts hold no colon; a line without one comes back whole, and otherwise the parts are the colon-split pieces in order less the trailing empty ones |
| ResponseReader.ReadBody | src/main/java/dev/kwirz/crun/docker/DefaultDockerClient.java:178-181 | a response that is not chunked takes no read and gives the decoder null; a chunked one gives exactly what the chunk decoding of the later reads gives, body, unread reads or failure |
| ResponseReader.Exchange | src/main/java/dev/kwirz/crun/docker/DefaultDockerClient.java:144-196 | a response uses at least one read and leaves the later ones unread; it carries the request and a code in the int range |
| ResponseReader.Respond | src/main/java/dev/kwirz/crun/docker/DefaultDockerClient.java:156-196 | after the first read, a response leaves a suffix of the later reads unread and carries the request |
| ResponseReader.NotChunkedReadsOnce | src/main/java/dev/kwirz/crun/docker/DefaultDockerClient.java:178-189 | a response that is not chunked is read in one read; the decoder gets null and every later read is left unread |
| ResponseReader.StatusFailureStops | src/main/java/dev/kwirz/crun/docker/DefaultDockerClient.java:160-166 | a status line that does not parse ends the exchange with its error |
| ResponseReader.ChunkedExchange | src/main/java/dev/kwirz/crun/docker/DefaultDockerClient.java:144-196 | a status line, a chunked header and frame reads give the line's code and version, the headers, and the decoded data of all frames; the reads after them are left unread |
| DockerClient.Channel.Write | src/main/java/dev/kwirz/crun/docker/DefaultDockerClient.java:81 | a write appends a prefix of the data, at least one character when there is any, or fails and appends nothing |
| DockerClient.Channel.Read | src/main/java/dev/kwirz/crun/docker/DefaultDockerClient.java:92 | a read takes the next delivered read, or reports the end of the stream when there is none |
| DockerClient.DefaultDockerClient.constructor | src/main/java/dev/kwirz/crun/docker/DefaultDockerClient.java:29-31 | the client holds the channel it was given |
| DockerClient.DefaultDockerClient.SendRequest | src/main/java/dev/kwirz/crun/docker/DefaultDockerClient.java:57-87 | a disconnected channel fails with nothing written; a connected one either writes the whole request or fails with a write error after a prefix of it |
| DockerClient.DefaultDockerClient.WriteAll | src/main/java/dev/kwirz/crun/docker/DefaultDockerClient.java:78-86 | the loop writes the whole text once and in order, however the channel splits the writes, or stops at the first failed write after a prefix of it |
| DockerClient.DefaultDockerClient.ReadChunk | src/main/java/dev/kwirz/crun/docker/DefaultDockerClient.java:89-102 | one read: its text, a wrapped IOException, or the end of the stream |
| DockerClient.DefaultDockerClient.ReadRemainingChunks | src/main/java/dev/kwirz/crun/docker/DefaultDockerClient.java:104-134 | the loop returns what the chunk decoding of the pending reads returns, and leaves exactly the reads it leaves; whatever the outcome, it only takes reads from the front |
| DockerClient.DefaultDockerClient.ReadResponse | src/main/java/dev/kwirz/crun/docker/DefaultDockerClient.java:144-196 | the method returns the exchange's response or failure, and on success leaves exactly its unread reads; whatever the outcome, it only takes reads from the front |
| DockerClient.DefaultDockerClient.Send | src/main/java/dev/kwirz/crun/docker/DefaultDockerClient.java:43-46 | a disconnected channel fails with nothing changed; a send that succeeds has written the whole request and returns the exchange's response; a failed send is a write error after a prefix of the request with no read taken, or the exchange's own failure after the whole request was written; reads are only taken from the front |

## Left out

- Bytes and UTF-8: the request and every read are text. `getBytes()` and `new String(..., UTF_8)` are identities here, so the model does not capture a multi-byte character split across two reads.
- The 1024-byte read buffer: a read is whatever one `read` call delivered, and its size is not bounded.
- A read that delivers 0 bytes behaves like any other delivered text (an empty one); only the end of the sequence stands for -1.
- Opening and closing the socket (`fromUnixDomainSocket`, `close`) and logging are not modelled.
- The JSON reader is a parameter, `decode`, and only its `JsonProcessingException` is wrapped. The program's `readResponse` hands it a `null` body for every response that is not chunked (DefaultDockerClient.java:177-187). Jackson's `readValue` rejects a `null` text with an unchecked exception that the `catch` does not catch, so the program's `send` throws for every such response. The model gives `decode` the value `None` there; its `Ok` outcomes for responses that are not chunked come only from what `decode(None)` returns.
- Case folding is ASCII only, and digits are ASCII only (`Character.digit` also accepts other scripts' digits).
- The headers are a map from the case-folded name. The original casing of names and the order of keys are not kept.
- `HttpHeaders.of` is modelled as the library documents its behaviour. The library itself is not part of this model.
- DockerClient.Channel.Write: an IOException in the middle of a write is modelled as nothing written by that call.
- DockerClient.DefaultDockerClient.ReadResponse: after a failure, the reads left unread are stated to be a suffix of the pending ones, not which suffix.
- DockerClient.DefaultDockerClient.ReadRemainingChunks: after a failure, the reads left unread are stated to be a suffix of the pending ones, not which suffix.
- DockerClient.DefaultDockerClient.Send: after a failed exchange, the reads left unread are stated to be a suffix of the pending ones, not which suffix.
