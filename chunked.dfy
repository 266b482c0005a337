/**
 * The chunked body as readRemainingChunks reassembles it: every read is
 * split at its first two line separators into three parts (the size of its
 * data, the data, and the size still to come), and reading stops after the
 * read that announces nothing more.
 */
module ChunkedBody {
  import opened Outcomes
  import opened JavaText
  import opened JavaInt
  import opened Transport

  /** One read of the chunk loop, taken apart: the size it declares for its
    * data, the data, and the size it announces for what follows. */
  datatype ChunkFrame = ChunkFrame(declared: int, data: string, remaining: int)

  /** Take one read apart: split it into at most three parts at the line
    * separator; anything but three parts is a failure reporting the count;
    * the first and the third part, stripped, are hexadecimal ints (the
    * first is parsed first). The declared size is not compared with the
    * data. */
  function ParseChunkRead(text: string, sep: Separator): (r: Result<ChunkFrame, Failure>)
    ensures r.Ok? ==> Free(r.value.data, sep)
    ensures r.Ok? ==> INT_MIN <= r.value.declared <= INT_MAX && INT_MIN <= r.value.remaining <= INT_MAX
    ensures r.Err? ==> (r.error.ChunkLineCount? && 1 <= r.error.count <= 2) || r.error.NumberFormat?
  {
    var parts := SplitLimit(text, sep, 3);
    if |parts| != 3 then Err(ChunkLineCount(|parts|))
    else
      match ParseInt(Strip(parts[0]), 16)
      case None => Err(NumberFormat(Strip(parts[0])))
      case Some(declared) =>
        match ParseInt(Strip(parts[2]), 16)
        case None => Err(NumberFormat(Strip(parts[2])))
        case Some(remaining) => Ok(ChunkFrame(declared, parts[1], remaining))
  }

  /** readRemainingChunks over the reads still to come: the body is the data
    * of consecutive reads up to and including the first whose remaining
    * size is zero; the reads after that one are left unread. A failed read
    * is wrapped, a read at the end of the stream escapes as EndOfStream. */
  function DecodeChunks(events: seq<ReadEvent>, sep: Separator): (r: Result<(string, seq<ReadEvent>), Failure>)
    ensures r.Ok? ==> Unread(r.value.1, events) && |r.value.1| < |events|
    ensures r.Err? && events == [] ==> r.error == EndOfStream
    decreases |events|
  {
    if events == [] then Err(EndOfStream)
    else match events[0]
    case ReadFault(cause) => Err(ChunkReadFailed(cause))
    case Delivered(text) =>
      var rest := events[1..];
      match ParseChunkRead(text, sep)
      case Err(e) => Err(e)
      case Ok(frame) =>
        if frame.remaining == 0 then Ok((frame.data, rest))
        else
          match DecodeChunks(rest, sep)
          case Err(e) => Err(e)
          case Ok((body, later)) =>
            UnreadAfterFirst(events, later);
            Ok((frame.data + body, later))
  }

  // ---------------------------------------------------------------------
  // A sender of such reads
  // ---------------------------------------------------------------------

  /** The text of a read that carries `f`: its sizes in lower-case
    * hexadecimal, one part per line. */
  function FrameText(f: ChunkFrame, sep: Separator): string
    requires f.declared >= 0 && f.remaining >= 0
  {
    Join([Format(f.declared, 16), f.data, Format(f.remaining, 16)], sep)
  }

  /** Blanks that strip() removes. */
  predicate IsPadding(p: string) {
    forall k :: 0 <= k < |p| ==> IsWhitespace(p[k])
  }

  /** The text of a read that carries `f` with blanks after each size: the
    * first size's blanks stay on its line, the last size's may run over
    * further lines. */
  function PaddedFrameText(f: ChunkFrame, pad: string, pad': string, sep: Separator): string
    requires f.declared >= 0 && f.remaining >= 0
  {
    Join([Format(f.declared, 16) + pad, f.data, Format(f.remaining, 16) + pad'], sep)
  }

  /** A frame the reader can take back: sizes that fit an int, and data on
    * one line. */
  predicate Sendable(f: ChunkFrame, sep: Separator) {
    0 <= f.declared <= INT_MAX && 0 <= f.remaining <= INT_MAX && Free(f.data, sep)
  }

  /** A stream of frames in which only the last announces nothing more. */
  predicate WellFormed(frames: seq<ChunkFrame>, sep: Separator) {
    && frames != []
    && (forall k :: 0 <= k < |frames| ==> Sendable(frames[k], sep))
    && (forall k :: 0 <= k < |frames| - 1 ==> frames[k].remaining != 0)
    && frames[|frames| - 1].remaining == 0
  }

  /** One read per frame. */
  function Reads(frames: seq<ChunkFrame>, sep: Separator): (events: seq<ReadEvent>)
    requires forall k :: 0 <= k < |frames| ==> Sendable(frames[k], sep)
    ensures |events| == |frames|
    ensures forall k :: 0 <= k < |frames| ==>
      frames[k].declared >= 0 && frames[k].remaining >= 0 && events[k] == Delivered(FrameText(frames[k], sep))
  {
    if frames == [] then []
    else
      assert Sendable(frames[0], sep);
      assert forall k :: 0 <= k < |frames| - 1 ==> frames[1..][k] == frames[k + 1];
      [Delivered(FrameText(frames[0], sep))] + Reads(frames[1..], sep)
  }

  /** The data of the frames, in order. */
  function Data(frames: seq<ChunkFrame>): string {
    if frames == [] then [] else frames[0].data + Data(frames[1..])
  }

  // ---------------------------------------------------------------------
  // Properties
  // ---------------------------------------------------------------------

  /** A read's text gives back the frame it carries, whatever size it
    * declares. */
  lemma ParseFrameText(f: ChunkFrame, sep: Separator)
    requires Sendable(f, sep)
    ensures ParseChunkRead(FrameText(f, sep), sep) == Ok(f)
  {
    var a, b := Format(f.declared, 16), Format(f.remaining, 16);
    assert a + [] == a && b + [] == b;
    assert FrameText(f, sep) == PaddedFrameText(f, [], [], sep);
    ParsePaddedFrameText(f, [], [], sep);
  }

  /** The blanks after the sizes make no difference: they are stripped
    * before the sizes are parsed, and the data comes back as it was. */
  lemma ParsePaddedFrameText(f: ChunkFrame, pad: string, pad': string, sep: Separator)
    requires Sendable(f, sep)
    requires IsPadding(pad) && '\n' !in pad && IsPadding(pad')
    ensures ParseChunkRead(PaddedFrameText(f, pad, pad', sep), sep) == Ok(f)
  {
    var d, r := Format(f.declared, 16), Format(f.remaining, 16);
    var a, b := d + pad, r + pad';
    FormatIsToken(f.declared);
    FormatIsToken(f.remaining);
    assert '\n' !in a;
    NoNewlineFree(a, sep);
    SplitJoin([a, f.data, b], sep);
    StripPadded(d, pad);
    StripPadded(r, pad');
    ParseFormat(f.declared, 16);
    ParseFormat(f.remaining, 16);
  }

  /** A token followed by blanks strips to the token. */
  lemma StripPadded(t: string, pad: string)
    requires t != [] && forall k :: 0 <= k < |t| ==> !IsWhitespace(t[k])
    requires IsPadding(pad)
    ensures Strip(t + pad) == t
  {
    assert (t + pad)[0] == t[0];
    DropLeadingKept(t + pad, IsWhitespace);
    DropTrailingAppend(t, pad, IsWhitespace);
    DropTrailingSpec(pad, IsWhitespace);
    assert DropTrailing(pad, IsWhitespace) == [];
    assert t + [] == t;
  }

  /** A chunk as HTTP/1.1 puts it on the wire: every line ended by CRLF,
    * and `blank` after the last size. */
  function CrlfText(f: ChunkFrame, blank: string): string
    requires f.declared >= 0 && f.remaining >= 0
  {
    Format(f.declared, 16) + "\r\n" + f.data + "\r\n" + Format(f.remaining, 16) + "\r\n" + blank
  }

  /** A chunk as HTTP/1.1 puts it on the wire, every line ended by CRLF
    * and the last size followed by any blank lines, read where the line
    * separator is LF: the sizes still parse, because strip() removes the CR
    * after each of them and the blank lines after the last, but the data
    * keeps its CR. */
  lemma CrlfReadWithLf(declared: nat, data: string, remaining: nat, blank: string)
    requires declared <= INT_MAX && remaining <= INT_MAX && '\n' !in data
    requires IsPadding(blank)
    ensures ParseChunkRead(Format(declared, 16) + "\r\n" + data + "\r\n" + Format(remaining, 16) + "\r\n" + blank, "\n")
         == Ok(ChunkFrame(declared, data + "\r", remaining))
  {
    var f := ChunkFrame(declared, data + "\r", remaining);
    var a, b := Format(declared, 16), Format(remaining, 16);
    CrlfLines(a, data, b, blank);
    CrlfPadding(blank);
    assert '\n' !in data + "\r";
    NoNewlineFree(data + "\r", "\n");
    assert PaddedFrameText(f, "\r", "\r\n" + blank, "\n") == Join([a + "\r", data + "\r", b + ("\r\n" + blank)], "\n");
    ParsePaddedFrameText(f, "\r", "\r\n" + blank, "\n");
  }

  /** The same read where the line separator is CRLF: the data comes back
    * as it was sent. */
  lemma CrlfReadWithCrlf(declared: nat, data: string, remaining: nat, blank: string)
    requires declared <= INT_MAX && remaining <= INT_MAX && Free(data, "\r\n")
    requires IsPadding(blank)
    ensures ParseChunkRead(Format(declared, 16) + "\r\n" + data + "\r\n" + Format(remaining, 16) + "\r\n" + blank, "\r\n")
         == Ok(ChunkFrame(declared, data, remaining))
  {
    var f := ChunkFrame(declared, data, remaining);
    var a, b := Format(declared, 16), Format(remaining, 16);
    CrlfParts(a, data, b, blank);
    CrlfPadding(blank);
    assert PaddedFrameText(f, [], "\r\n" + blank, "\r\n") == Join([a + [], data, b + ("\r\n" + blank)], "\r\n");
    ParsePaddedFrameText(f, [], "\r\n" + blank, "\r\n");
  }

  /** CRLF-ended lines are LF-separated parts that end in CR. */
  lemma CrlfLines(a: string, data: string, b: string, blank: string)
    ensures Join([a + "\r", data + "\r", b + ("\r\n" + blank)], "\n") == a + "\r\n" + data + "\r\n" + b + "\r\n" + blank
  {
    JoinThree(a + "\r", data + "\r", b + ("\r\n" + blank), "\n");
  }

  /** CRLF-ended lines are CRLF-separated parts. */
  lemma CrlfParts(a: string, data: string, b: string, blank: string)
    ensures Join([a + [], data, b + ("\r\n" + blank)], "\r\n") == a + "\r\n" + data + "\r\n" + b + "\r\n" + blank
  {
    assert a + [] == a;
    JoinThree(a, data, b + ("\r\n" + blank), "\r\n");
  }

  /** The CR and the CRLF and blanks after the sizes are blanks, and the CR
    * does not end the line. */
  lemma CrlfPadding(blank: string)
    requires IsPadding(blank)
    ensures IsPadding("\r") && '\n' !in "\r" && IsPadding("\r\n" + blank)
  {
  }

  /** A formatted number has no line break and no whitespace. */
  lemma FormatIsToken(n: nat)
    ensures '\n' !in Format(n, 16)
    ensures forall k :: 0 <= k < |Format(n, 16)| ==> !IsWhitespace(Format(n, 16)[k])
  {
  }

  /** The outcome of decoding the rest of the reads, with `body` read
    * before it. */
  function Prefixed(body: string, rest: Result<(string, seq<ReadEvent>), Failure>): (r: Result<(string, seq<ReadEvent>), Failure>)
    ensures r.Ok? <==> rest.Ok?
    ensures r.Ok? ==> r.value.0 == body + rest.value.0 && r.value.1 == rest.value.1
    ensures r.Err? ==> r.error == rest.error
  {
    match rest
    case Err(e) => Err(e)
    case Ok((more, later)) => Ok((body + more, later))
  }

  /** Moving data from what is still to be decoded into what was read. */
  lemma PrefixedStep(body: string, data: string, rest: Result<(string, seq<ReadEvent>), Failure>)
    ensures Prefixed(body, Prefixed(data, rest)) == Prefixed(body + data, rest)
  {
    if rest.Ok? {
      assert body + (data + rest.value.0) == (body + data) + rest.value.0;
    }
  }

  /** Each of `events` is a delivered read whose text parses to the frame
    * at the same place, whatever its exact spelling. */
  predicate Carries(events: seq<ReadEvent>, frames: seq<ChunkFrame>, sep: Separator) {
    && |events| == |frames|
    && forall k :: 0 <= k < |events| ==>
         events[k].Delivered? && ParseChunkRead(events[k].text, sep) == Ok(frames[k])
  }

  /** What the reads after the first carry. */
  lemma CarriesTail(events: seq<ReadEvent>, frames: seq<ChunkFrame>, sep: Separator)
    requires Carries(events, frames, sep) && events != []
    ensures Carries(events[1..], frames[1..], sep)
  {
    assert forall k :: 0 <= k < |events| - 1 ==> events[1..][k] == events[k + 1] && frames[1..][k] == frames[k + 1];
  }

  /** The first read decoded: the whole body when it announces nothing
    * more, otherwise its data in front of what the rest decodes to. */
  lemma DecodeHead(events: seq<ReadEvent>, f: ChunkFrame, sep: Separator)
    requires events != [] && events[0].Delivered? && ParseChunkRead(events[0].text, sep) == Ok(f)
    ensures f.remaining == 0 ==> DecodeChunks(events, sep) == Ok((f.data, events[1..]))
    ensures f.remaining != 0 ==> DecodeChunks(events, sep) == Prefixed(f.data, DecodeChunks(events[1..], sep))
  {
  }

  /** Reads that each announce more data add their data in front of
    * whatever the reads after them decode to: a body, or the failure of
    * the first read that fails, with nothing of the data kept. */
  lemma {:induction false} DecodeThrough(events: seq<ReadEvent>, frames: seq<ChunkFrame>, sep: Separator, rest: seq<ReadEvent>)
    requires Carries(events, frames, sep)
    requires forall k :: 0 <= k < |frames| ==> frames[k].remaining != 0
    ensures DecodeChunks(events + rest, sep) == Prefixed(Data(frames), DecodeChunks(rest, sep))
  {
    if events == [] {
      assert events + rest == rest;
      PrefixedNothing(DecodeChunks(rest, sep));
    } else {
      HeadAhead(events, rest);
      DecodeHead(events + rest, frames[0], sep);
      CarriesTail(events, frames, sep);
      DecodeThrough(events[1..], frames[1..], sep, rest);
      PrefixedStep(frames[0].data, Data(frames[1..]), DecodeChunks(rest, sep));
    }
  }

  /** Nothing read before leaves the outcome as it is. */
  lemma PrefixedNothing(rest: Result<(string, seq<ReadEvent>), Failure>)
    ensures Prefixed([], rest) == rest
  {
    if rest.Ok? {
      assert [] + rest.value.0 == rest.value.0;
    }
  }

  /** A non-empty sequence followed by another, taken apart at its first
    * element. */
  lemma HeadAhead<T>(xs: seq<T>, ys: seq<T>)
    requires xs != []
    ensures (xs + ys)[0] == xs[0] && (xs + ys)[1..] == xs[1..] + ys
  {
  }

  /** A read that fails after reads that each announce more data fails the
    * whole body with that read's failure: the end of the stream, the
    * wrapped IOException, or the parse failure of its text. */
  lemma FailureAfterFrames(events: seq<ReadEvent>, frames: seq<ChunkFrame>, sep: Separator, rest: seq<ReadEvent>)
    requires Carries(events, frames, sep)
    requires forall k :: 0 <= k < |frames| ==> frames[k].remaining != 0
    ensures rest == [] ==> DecodeChunks(events + rest, sep) == Err(EndOfStream)
    ensures rest != [] && rest[0].ReadFault? ==>
      DecodeChunks(events + rest, sep) == Err(ChunkReadFailed(rest[0].cause))
    ensures rest != [] && rest[0].Delivered? && ParseChunkRead(rest[0].text, sep).Err? ==>
      DecodeChunks(events + rest, sep) == Err(ParseChunkRead(rest[0].text, sep).error)
  {
    DecodeThrough(events, frames, sep, rest);
  }

  /** Reads that carry frames in which only the last announces nothing
    * more decode to the data of every frame, in order, and the reads after
    * the last frame are left untouched. */
  lemma DecodeCarried(events: seq<ReadEvent>, frames: seq<ChunkFrame>, sep: Separator, later: seq<ReadEvent>)
    requires Carries(events, frames, sep) && frames != []
    requires forall k :: 0 <= k < |frames| - 1 ==> frames[k].remaining != 0
    requires frames[|frames| - 1].remaining == 0
    ensures DecodeChunks(events + later, sep) == Ok((Data(frames), later))
  {
    var n := |frames| - 1;
    CarriesPrefix(events, frames, sep, n);
    var last := [events[n]] + later;
    SplitLast(events, later);
    DecodeThrough(events[..n], frames[..n], sep, last);
    assert last[0] == events[n] && last[1..] == later;
    DecodeHead(last, frames[n], sep);
    DataSnoc(frames);
  }

  /** A sequence followed by another, taken apart at its last element. */
  lemma SplitLast<T>(xs: seq<T>, ys: seq<T>)
    requires xs != []
    ensures xs + ys == xs[..|xs| - 1] + ([xs[|xs| - 1]] + ys)
  {
  }

  /** What the first `n` reads carry. */
  lemma CarriesPrefix(events: seq<ReadEvent>, frames: seq<ChunkFrame>, sep: Separator, n: nat)
    requires Carries(events, frames, sep) && n <= |frames|
    ensures Carries(events[..n], frames[..n], sep)
  {
  }

  /** The data of the frames, the last one's at the end. */
  lemma {:induction false} DataSnoc(frames: seq<ChunkFrame>)
    requires frames != []
    ensures Data(frames) == Data(frames[..|frames| - 1]) + frames[|frames| - 1].data
  {
    if |frames| == 1 {
      assert frames[..0] == [];
      assert Data(frames) == frames[0].data + Data(frames[1..]);
    } else {
      var tail := frames[1..];
      DataSnoc(tail);
      assert tail[..|tail| - 1] == frames[..|frames| - 1][1..];
      assert tail[|tail| - 1] == frames[|frames| - 1];
    }
  }

  /** The body is the data of every frame, in order, and the reads after
    * the last frame are left untouched. */
  lemma DecodeReads(frames: seq<ChunkFrame>, sep: Separator, later: seq<ReadEvent>)
    requires WellFormed(frames, sep)
    ensures DecodeChunks(Reads(frames, sep) + later, sep) == Ok((Data(frames), later))
  {
    forall k | 0 <= k < |frames|
      ensures ParseChunkRead(FrameText(frames[k], sep), sep) == Ok(frames[k])
    {
      ParseFrameText(frames[k], sep);
    }
    DecodeCarried(Reads(frames, sep), frames, sep, later);
  }

  /** A read with no line separator in it is one part, not three. */
  lemma OnePartIff(text: string, sep: Separator)
    ensures ParseChunkRead(text, sep) == Err(ChunkLineCount(1)) <==> Free(text, sep)
  {
    var parts := SplitLimit(text, sep, 3);
    if Free(text, sep) {
      assert Find(text, sep, 0) == |text|;
    }
    if |parts| == 1 {
      assert Join(parts, sep) == parts[0];
    }
  }

  /** A read with exactly one separator is two parts, not three. */
  lemma TwoPartsFail(a: string, b: string, sep: Separator)
    requires Free(a, sep) && Free(b, sep)
    ensures ParseChunkRead(a + sep + b, sep) == Err(ChunkLineCount(2))
  {
    SplitAfter(a, sep, b, a + sep + b, 3, 2);
    SplitFree(b, sep, 2);
  }

  /** A read of three lines gives the data of its middle line when both
    * stripped sizes are hexadecimal ints; otherwise it fails on the first
    * size that is not, with that size as stripped. */
  lemma ThreePartRead(a: string, data: string, b: string, sep: Separator)
    requires Free(a, sep) && Free(data, sep)
    ensures var r := ParseChunkRead(a + sep + data + sep + b, sep);
      && (ParseInt(Strip(a), 16).None? ==> r == Err(NumberFormat(Strip(a))))
      && (ParseInt(Strip(a), 16).Some? && ParseInt(Strip(b), 16).None? ==> r == Err(NumberFormat(Strip(b))))
      && (ParseInt(Strip(a), 16).Some? && ParseInt(Strip(b), 16).Some? ==>
            r == Ok(ChunkFrame(ParseInt(Strip(a), 16).value, data, ParseInt(Strip(b), 16).value)))
  {
    JoinThree(a, data, b, sep);
    assert a + sep + data + sep + b == a + sep + (data + sep + b);
    SplitJoin([a, data, b], sep);
  }

  /** A first size line that holds a character which is not a hexadecimal
    * digit (after an optional sign) fails the read with that line as
    * stripped. */
  lemma NonHexSizeFails(a: string, data: string, b: string, sep: Separator, k: nat)
    requires Free(a, sep) && Free(data, sep)
    requires SignLength(Strip(a)) <= k < |Strip(a)| && DigitValue(Strip(a)[k]) >= 16
    ensures ParseChunkRead(a + sep + data + sep + b, sep) == Err(NumberFormat(Strip(a)))
  {
    ThreePartRead(a, data, b, sep);
  }

  /** Reads "3\nabc\n2" and then "2\nde\n0" give the body "abcde". */
  lemma TwoReadsExample(events: seq<ReadEvent>, later: seq<ReadEvent>)
    requires events == [Delivered("3\nabc\n2"), Delivered("2\nde\n0")]
    ensures DecodeChunks(events + later, "\n") == Ok(("abcde", later))
  {
    var frames := TwoFrames();
    DecodeReads(frames, "\n", later);
  }

  /** The frames behind the reads "3\nabc\n2" and "2\nde\n0". */
  lemma TwoFrames() returns (frames: seq<ChunkFrame>)
    ensures WellFormed(frames, "\n")
    ensures Reads(frames, "\n") == [Delivered("3\nabc\n2"), Delivered("2\nde\n0")]
    ensures Data(frames) == "abcde"
  {
    var f1, f2 := ChunkFrame(3, "abc", 2), ChunkFrame(2, "de", 0);
    frames := [f1, f2];
    SingleDigitFrame(f1, "3\nabc\n2", '3', '2');
    SingleDigitFrame(f2, "2\nde\n0", '2', '0');
    assert frames[1..] == [f2];
    assert [f2][1..] == [];
    assert Data([f2]) == "de" + Data([]);
    assert Data(frames) == "abc" + Data([f2]);
  }

  /** The reads "3\r\nabc\r\n2\r\n" and "2\r\nde\r\n0\r\n\r\n", every
    * line ended by CRLF, give the body "abcde" where the line separator is
    * CRLF. */
  lemma CrlfReadsWithCrlf(events: seq<ReadEvent>, later: seq<ReadEvent>)
    requires events == [Delivered("3\r\nabc\r\n2\r\n"), Delivered("2\r\nde\r\n0\r\n\r\n")]
    ensures DecodeChunks(events + later, "\r\n") == Ok(("abcde", later))
  {
    var f1, f2 := CrlfFrames();
    CrlfTwoReads(f1, f2, [], "\r\n", later);
  }

  /** The same reads give "abc\rde\r" where the line separator is LF: each
    * read's data keeps the CR of its line end. */
  lemma CrlfReadsWithLf(events: seq<ReadEvent>, later: seq<ReadEvent>)
    requires events == [Delivered("3\r\nabc\r\n2\r\n"), Delivered("2\r\nde\r\n0\r\n\r\n")]
    ensures DecodeChunks(events + later, "\n") == Ok(("abc\rde\r", later))
  {
    var f1, f2 := CrlfFrames();
    CrlfTwoReads(f1, f2, [], "\r\n", later);
  }

  /** The frames behind the reads "3\r\nabc\r\n2\r\n" and
    * "2\r\nde\r\n0\r\n\r\n". */
  lemma CrlfFrames() returns (f1: ChunkFrame, f2: ChunkFrame)
    ensures f1 == ChunkFrame(3, "abc", 2) && f2 == ChunkFrame(2, "de", 0)
    ensures CrlfText(f1, []) == "3\r\nabc\r\n2\r\n" && CrlfText(f2, "\r\n") == "2\r\nde\r\n0\r\n\r\n"
    ensures f1.data + f2.data == "abcde" && f1.data + "\r" + (f2.data + "\r") == "abc\rde\r"
  {
    f1, f2 := ChunkFrame(3, "abc", 2), ChunkFrame(2, "de", 0);
    SmallFormat(3);
    SmallFormat(2);
    SmallFormat(0);
  }

  /** Two CRLF-ended reads, the first announcing more and the second
    * nothing more, give both data in order where the line separator is
    * CRLF, and each data with its CR where it is LF. */
  lemma CrlfTwoReads(f1: ChunkFrame, f2: ChunkFrame, blank1: string, blank2: string, later: seq<ReadEvent>)
    requires 0 <= f1.declared <= INT_MAX && 0 < f1.remaining <= INT_MAX && '\n' !in f1.data
    requires 0 <= f2.declared <= INT_MAX && f2.remaining == 0 && '\n' !in f2.data
    requires IsPadding(blank1) && IsPadding(blank2)
    ensures var events := [Delivered(CrlfText(f1, blank1)), Delivered(CrlfText(f2, blank2))];
      && DecodeChunks(events + later, "\r\n") == Ok((f1.data + f2.data, later))
      && DecodeChunks(events + later, "\n") == Ok((f1.data + "\r" + (f2.data + "\r"), later))
  {
    var events := [Delivered(CrlfText(f1, blank1)), Delivered(CrlfText(f2, blank2))];
    NoNewlineFree(f1.data, "\r\n");
    NoNewlineFree(f2.data, "\r\n");
    CrlfReadWithCrlf(f1.declared, f1.data, f1.remaining, blank1);
    CrlfReadWithCrlf(f2.declared, f2.data, f2.remaining, blank2);
    TwoCarried(events, f1, f2, "\r\n", later, f1.data + f2.data);
    CrlfReadWithLf(f1.declared, f1.data, f1.remaining, blank1);
    CrlfReadWithLf(f2.declared, f2.data, f2.remaining, blank2);
    var g1, g2 := ChunkFrame(f1.declared, f1.data + "\r", f1.remaining), ChunkFrame(f2.declared, f2.data + "\r", f2.remaining);
    TwoCarried(events, g1, g2, "\n", later, f1.data + "\r" + (f2.data + "\r"));
  }

  /** Two reads, the first announcing more and the second nothing more,
    * give both data in order. */
  lemma TwoCarried(events: seq<ReadEvent>, f1: ChunkFrame, f2: ChunkFrame, sep: Separator, later: seq<ReadEvent>, body: string)
    requires |events| == 2 && events[0].Delivered? && events[1].Delivered?
    requires ParseChunkRead(events[0].text, sep) == Ok(f1) && ParseChunkRead(events[1].text, sep) == Ok(f2)
    requires f1.remaining != 0 && f2.remaining == 0 && body == f1.data + f2.data
    ensures DecodeChunks(events + later, sep) == Ok((body, later))
  {
    var all := events + later;
    TwoAhead(events, later);
    DecodeHead(all[1..], f2, sep);
    DecodeHead(all, f1, sep);
  }

  /** Two elements followed by others, taken apart one at a time. */
  lemma TwoAhead<T>(xs: seq<T>, ys: seq<T>)
    requires |xs| == 2
    ensures (xs + ys)[0] == xs[0] && (xs + ys)[1..][0] == xs[1] && (xs + ys)[1..][1..] == ys
  {
  }


  /** The one read "5\nhello\n0" gives the body "hello". */
  lemma OneReadExample(events: seq<ReadEvent>, later: seq<ReadEvent>)
    requires events == [Delivered("5\nhello\n0")]
    ensures DecodeChunks(events + later, "\n") == Ok(("hello", later))
  {
    var frames := OneFrame();
    DecodeReads(frames, "\n", later);
  }

  /** The frame behind the read "5\nhello\n0". */
  lemma OneFrame() returns (frames: seq<ChunkFrame>)
    ensures WellFormed(frames, "\n")
    ensures Reads(frames, "\n") == [Delivered("5\nhello\n0")]
    ensures Data(frames) == "hello"
  {
    var f := ChunkFrame(5, "hello", 0);
    frames := [f];
    SingleDigitFrame(f, "5\nhello\n0", '5', '0');
    assert [f][1..] == [];
    assert Data([f]) == "hello" + "";
  }

  /** A frame with one-digit sizes and data without a line break, and its text. */
  lemma SingleDigitFrame(f: ChunkFrame, text: string, d: char, r: char)
    requires 0 <= f.declared < 10 && 0 <= f.remaining < 10
    requires d == DigitChar(f.declared) && r == DigitChar(f.remaining)
    requires '\n' !in f.data
    requires text == [d] + "\n" + (f.data + "\n" + [r])
    ensures Sendable(f, "\n") && FrameText(f, "\n") == text
  {
    NoNewlineFree(f.data, "\n");
    SmallFormat(f.declared);
    SmallFormat(f.remaining);
    JoinThree([d], f.data, [r], "\n");
  }

  /** A number below ten is written as its one decimal digit. */
  lemma SmallFormat(n: nat)
    requires n < 10
    ensures Format(n, 16) == [DigitChar(n)]
  {
  }

  /** Three parts joined. */
  lemma JoinThree(a: string, b: string, c: string, sep: string)
    ensures Join([a, b, c], sep) == a + sep + (b + sep + c)
  {
    assert [a, b, c][1..] == [b, c];
    assert [b, c][1..] == [c];
    assert Join([c], sep) == c;
    assert Join([b, c], sep) == b + sep + c;
  }

  /** The last chunk of standard chunked coding, "0" and an empty line, is
    * not three parts with a number at both ends: its third part is empty,
    * and parsing it fails. */
  lemma TerminalChunkFails()
    ensures ParseChunkRead("0\r\n\r\n", "\n") == Err(NumberFormat(""))
  {
    TerminalChunkParts();
    StripCarriageReturn();
    SmallFormat(0);
    ParseFormat(0, 16);
  }

  /** "0\r\n\r\n" splits at "\n" into "0\r", "\r" and "". */
  lemma TerminalChunkParts()
    ensures SplitLimit("0\r\n\r\n", "\n", 3) == ["0\r", "\r", ""]
  {
    NoNewlineFree("0\r", "\n");
    NoNewlineFree("\r", "\n");
    JoinThree("0\r", "\r", "", "\n");
    assert "0\r" + "\n" + ("\r" + "\n" + "") == "0\r\n\r\n";
    SplitJoin(["0\r", "\r", ""], "\n");
  }

  /** Stripping removes a trailing carriage return. */
  lemma StripCarriageReturn()
    ensures Strip("0\r") == "0"
  {
    assert DropLeading("0\r", IsWhitespace) == "0\r";
    assert ("0\r")[..1] == "0";
  }
}
