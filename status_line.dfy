/** The status line: the first line of the first read, split on whitespace. */
module StatusLineParser {
  import opened Outcomes
  import opened JavaText
  import opened JavaInt
  import opened Transport

  datatype StatusLine = StatusLine(version: HttpVersion, code: int)

  /** The text before the first line separator: split(separator, 2)[0]. The
    * split always yields a first part, so there is always a first line. */
  function FirstLine(text: string, sep: Separator): (line: string)
    ensures |line| <= |text| && text[..|line|] == line
    ensures Free(line, sep)
    ensures |line| == |text| || OccursAt(text, sep, |line|)
  {
    var parts := SplitLimit(text, sep, 2);
    if |parts| == 1 then
      assert text[..|text|] == text;
      parts[0]
    else
      assert [parts[0]] + [parts[1]] == parts;
      assert parts[1..] == [parts[1]];
      assert text == parts[0] + sep + parts[1];
      Pieces(parts[0], sep, parts[1]);
      assert text[|parts[0]|..|parts[0]| + |sep|] == sep;
      parts[0]
  }

  /** Parse the status line of the first read: strip it, split it into at most
    * three whitespace-separated tokens, read the version from the first and
    * the decimal status code from the second. */
  function ParseStatusLine(first: string, sep: Separator): (r: Result<StatusLine, Failure>)
    ensures r.Ok? ==> INT_MIN <= r.value.code <= INT_MAX
    ensures r.Err? ==> r.error.StatusLineMalformed? || r.error.NumberFormat?
  {
    var line := Strip(FirstLine(first, sep));
    var tokens := SplitWs(line, 3);
    if |tokens| < 2 then Err(StatusLineMalformed(line))
    else
      match ParseInt(tokens[1], 10)
      case None => Err(NumberFormat(tokens[1]))
      case Some(code) => Ok(StatusLine(VersionOf(tokens[0]), code))
  }

  /** The status line is rejected as malformed exactly when its stripped
    * first line holds no whitespace at all (one bare token, or nothing). */
  lemma MalformedIffOneToken(first: string, sep: Separator)
    ensures var line := Strip(FirstLine(first, sep));
      (ParseStatusLine(first, sep) == Err(StatusLineMalformed(line))
       <==> forall k :: 0 <= k < |line| ==> !IsRegexSpace(line[k]))
  {
    var line := Strip(FirstLine(first, sep));
    SplitWsCount(line, 3);
  }

  /** A one-word reply such as "GARBAGE" produces no status line. */
  lemma GarbageRejected(rest: string, sep: Separator)
    ensures ParseStatusLine("GARBAGE" + sep + rest, sep) == Err(StatusLineMalformed("GARBAGE"))
  {
    var g := "GARBAGE";
    NoNewlineFree(g, sep);
    FirstLineOf(g, sep, rest);
    StripUnchanged(g);
    SplitWsSingle(g, 3);
  }

  /** The first line of a text that starts with a line and a separator. */
  lemma FirstLineOf(line: string, sep: Separator, rest: string)
    requires Free(line, sep)
    ensures FirstLine(line + sep + rest, sep) == line
  {
    FindAfter(line, sep, rest);
    Pieces(line, sep, rest);
  }

  /** A status line as a server writes it: version, status code and reason
    * phrase, separated by runs of blanks. */
  function StatusLineText(version: string, gap: string, code: string, gap': string, reason: string): string {
    version + gap + code + gap' + reason
  }

  /** A status line with a numeric code, written in decimal. */
  function FormatStatusLine(version: string, gap: string, code: nat, gap': string, reason: string): string {
    StatusLineText(version, gap, Format(code, 10), gap', reason)
  }

  /** A protocol token fit for a status line: non-empty and without
    * whitespace. */
  predicate IsToken(t: string) {
    t != [] && forall k :: 0 <= k < |t| ==> !IsWhitespace(t[k])
  }

  /** Blanks between the fields of a status line: a run of \s characters
    * that does not end the line. */
  predicate IsGap(w: string) {
    IsSpaceRun(w) && '\n' !in w
  }

  /** What may follow the code: blanks and a reason phrase, or nothing at
    * all. */
  predicate AfterCode(gap': string, reason: string) {
    IsGap(gap') || (gap' == [] && reason == [])
  }

  /** A status line followed by anything parses back to its version and
    * code, whatever blanks separate the fields: the reason phrase, if any,
    * and everything after the separator are ignored. */
  lemma ParseFormattedStatusLine(version: string, gap: string, code: nat, gap': string, reason: string,
                                 sep: Separator, rest: string)
    requires IsToken(version) && IsGap(gap) && AfterCode(gap', reason)
    requires code <= INT_MAX
    requires '\n' !in reason
    ensures ParseStatusLine(FormatStatusLine(version, gap, code, gap', reason) + sep + rest, sep)
         == Ok(StatusLine(VersionOf(version), code))
  {
    var d := Format(code, 10);
    assert IsToken(d);
    ParseFormat(code, 10);
    ParseCodedStatusLine(version, gap, d, gap', reason, sep, rest);
  }

  /** A status line whose code is any token Integer.parseInt accepts, such
    * as "+200" or "0200", parses to the value of that token. */
  lemma ParseCodedStatusLine(version: string, gap: string, code: string, gap': string, reason: string,
                             sep: Separator, rest: string)
    requires IsToken(version) && IsGap(gap) && AfterCode(gap', reason) && IsToken(code)
    requires '\n' !in reason
    requires ParseInt(code, 10).Some?
    ensures ParseStatusLine(StatusLineText(version, gap, code, gap', reason) + sep + rest, sep)
         == Ok(StatusLine(VersionOf(version), ParseInt(code, 10).value))
  {
    StatusTokens(version, gap, code, gap', reason, sep, rest);
  }

  /** A status line whose second token is not a decimal int fails with a
    * NumberFormatException on that token, whatever the version. */
  lemma NonDecimalCodeFails(version: string, gap: string, code: string, gap': string, reason: string,
                            sep: Separator, rest: string)
    requires IsToken(version) && IsGap(gap) && AfterCode(gap', reason) && IsToken(code)
    requires '\n' !in reason
    requires ParseInt(code, 10).None?
    ensures ParseStatusLine(StatusLineText(version, gap, code, gap', reason) + sep + rest, sep)
         == Err(NumberFormat(code))
  {
    StatusTokens(version, gap, code, gap', reason, sep, rest);
  }

  /** The first two whitespace tokens of a status line's first line are
    * its version and its code. */
  lemma StatusTokens(version: string, gap: string, code: string, gap': string, reason: string,
                     sep: Separator, rest: string)
    requires IsToken(version) && IsGap(gap) && AfterCode(gap', reason) && IsToken(code)
    requires '\n' !in reason
    ensures var tokens := SplitWs(Strip(FirstLine(StatusLineText(version, gap, code, gap', reason) + sep + rest, sep)), 3);
      |tokens| >= 2 && tokens[0] == version && tokens[1] == code
  {
    var line := StatusLineText(version, gap, code, gap', reason);
    var t := StripFormatted(version, gap, code, gap', reason);
    assert '\n' !in version && '\n' !in code;
    assert '\n' !in line;
    NoNewlineFree(line, sep);
    FirstLineOf(line, sep, rest);
    TokensFormatted(version, gap, code, t);
  }

  /** Stripping a status line can only shorten what follows the code, and
    * what is left of that starts with a blank. */
  lemma StripFormatted(version: string, gap: string, code: string, gap': string, reason: string) returns (t: string)
    requires IsToken(version) && IsToken(code) && AfterCode(gap', reason)
    ensures Strip(StatusLineText(version, gap, code, gap', reason)) == version + gap + (code + t)
    ensures t == [] || IsRegexSpace(t[0])
  {
    var a := version + gap + code;
    var b := gap' + reason;
    assert StatusLineText(version, gap, code, gap', reason) == a + b;
    assert (a + b)[0] == version[0];
    DropLeadingKept(a + b, IsWhitespace);
    assert a[|a| - 1] == code[|code| - 1];
    DropTrailingAppend(a, b, IsWhitespace);
    t := DropTrailing(b, IsWhitespace);
    DropTrailingSpec(b, IsWhitespace);
    assert a + t == version + gap + (code + t);
  }

  /** The first two tokens of a stripped status line are its version and code. */
  lemma TokensFormatted(version: string, gap: string, code: string, t: string)
    requires IsToken(version) && IsSpaceRun(gap) && IsToken(code)
    requires t == [] || IsRegexSpace(t[0])
    ensures var tokens := SplitWs(version + gap + (code + t), 3);
      |tokens| >= 2 && tokens[0] == version && tokens[1] == code
  {
    assert forall c :: c in version ==> !IsRegexSpace(c);
    assert forall c :: c in code ==> !IsRegexSpace(c);
    SplitWsRun(version, gap, code + t, 3);
    if t == [] {
      assert code + t == code;
      SplitWsSingle(code, 2);
    } else {
      SplitWsToken(code, t, 2);
    }
  }
}
