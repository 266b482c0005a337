/**
 * The java.lang.String operations the transport is built from, with Java's
 * own edge cases: strip/trim, split with and without a limit, and lines().
 */
module JavaText {

  /** System.lineSeparator(): "\n" on Unix-like systems, "\r\n" on Windows.
    * Both contain no regular-expression metacharacter, so split on them is a
    * literal split. */
  type Separator = s: string | s == "\n" || s == "\r\n" witness "\n"

  /** Character.isWhitespace: the Unicode space separators other than the
    * no-break ones, and the controls \t \n \u000B \f \r \u001C-\u001F. */
  predicate IsWhitespace(c: char) {
    || c == ' '
    || ('\t' <= c <= '\r')
    || ('\U{1C}' <= c <= '\U{1F}')
    || c == '\U{1680}'
    || ('\U{2000}' <= c <= '\U{2006}')
    || ('\U{2008}' <= c <= '\U{200A}')
    || c == '\U{2028}' || c == '\U{2029}' || c == '\U{205F}' || c == '\U{3000}'
  }

  /** A character of the regular-expression class \s: [ \t\n\x0B\f\r]. */
  predicate IsRegexSpace(c: char) {
    c == ' ' || ('\t' <= c <= '\r')
  }

  /** A character String.trim() removes: any code point up to U+0020. */
  predicate IsTrimmable(c: char) {
    c <= ' '
  }

  /** A line terminator of String.lines(). */
  predicate IsLineBreak(c: char) {
    c == '\n' || c == '\r'
  }

  /** The first index at or after `from` whose character satisfies `p`, or |s|. */
  function IndexWhere(s: string, p: char -> bool, from: nat): (i: nat)
    requires from <= |s|
    ensures from <= i <= |s|
    ensures forall k :: from <= k < i ==> !p(s[k])
    ensures i < |s| ==> p(s[i])
    decreases |s| - from
  {
    if from == |s| || p(s[from]) then from else IndexWhere(s, p, from + 1)
  }

  /** `s` with its leading characters that satisfy `p` removed. */
  function DropLeading(s: string, p: char -> bool): string
    decreases |s|
  {
    if s != [] && p(s[0]) then DropLeading(s[1..], p) else s
  }

  /** `s` with its trailing characters that satisfy `p` removed. */
  function DropTrailing(s: string, p: char -> bool): string
    decreases |s|
  {
    if s != [] && p(s[|s| - 1]) then DropTrailing(s[..|s| - 1], p) else s
  }

  /** Leading removal keeps a suffix that does not start with a removable
    * character, and removes only removable ones. */
  lemma {:induction false} DropLeadingSpec(s: string, p: char -> bool)
    ensures var r := DropLeading(s, p);
      && |r| <= |s| && r == s[|s| - |r|..]
      && (r == [] || !p(r[0]))
      && forall k :: 0 <= k < |s| - |r| ==> p(s[k])
    decreases |s|
  {
    if s != [] && p(s[0]) {
      DropLeadingSpec(s[1..], p);
      var r := DropLeading(s, p);
      assert forall k :: 1 <= k < |s| - |r| ==> s[k] == s[1..][k - 1];
    } else {
      assert s[0..] == s;
    }
  }

  /** Trailing removal keeps a prefix that does not end with a removable
    * character, and removes only removable ones. */
  lemma {:induction false} DropTrailingSpec(s: string, p: char -> bool)
    ensures var r := DropTrailing(s, p);
      && |r| <= |s| && r == s[..|r|]
      && (r == [] || !p(r[|r| - 1]))
      && forall k :: |r| <= k < |s| ==> p(s[k])
    decreases |s|
  {
    if s != [] && p(s[|s| - 1]) {
      var init := s[..|s| - 1];
      DropTrailingSpec(init, p);
      var r := DropTrailing(s, p);
      assert forall k :: |r| <= k < |init| ==> s[k] == init[k];
      assert r == init[..|r|] == s[..|r|];
    } else {
      assert s[..|s|] == s;
    }
  }

  /** String.strip(): what it keeps neither starts nor ends with whitespace. */
  function Strip(s: string): (r: string)
    ensures |r| <= |s|
    ensures r == [] || (!IsWhitespace(r[0]) && !IsWhitespace(r[|r| - 1]))
  {
    var l := DropLeading(s, IsWhitespace);
    DropLeadingSpec(s, IsWhitespace);
    DropTrailingSpec(l, IsWhitespace);
    DropTrailing(l, IsWhitespace)
  }

  /** String.trim() */
  function Trim(s: string): string {
    DropTrailing(DropLeading(s, IsTrimmable), IsTrimmable)
  }

  /** Strip(s) is s[i..j], and everything outside that slice is whitespace. */
  predicate StripSlice(s: string, i: nat, j: nat) {
    && i <= j <= |s| && Strip(s) == s[i..j]
    && (forall k :: 0 <= k < i ==> IsWhitespace(s[k]))
    && (forall k :: j <= k < |s| ==> IsWhitespace(s[k]))
  }

  /** Stripping keeps exactly the stretch from the first to the last
    * non-whitespace character: it is a slice of the input with nothing but
    * whitespace outside it, and it is empty only for an all-whitespace
    * input. */
  lemma StripBounds(s: string)
    ensures exists i: nat, j: nat :: StripSlice(s, i, j)
    ensures Strip(s) == [] <==> forall k :: 0 <= k < |s| ==> IsWhitespace(s[k])
  {
    var l := DropLeading(s, IsWhitespace);
    var r := DropTrailing(l, IsWhitespace);
    DropLeadingSpec(s, IsWhitespace);
    DropTrailingSpec(l, IsWhitespace);
    assert Strip(s) == r;
    var i := |s| - |l|;
    var j := i + |r|;
    assert r == l[..|r|] && l == s[i..];
    assert r == s[i..j];
    forall k | j <= k < |s| ensures IsWhitespace(s[k]) {
      assert s[k] == l[k - i];
    }
    assert StripSlice(s, i, j);
    if r == [] {
      assert l == [];
    }
  }

  /** A string with no whitespace at either end strips to itself. */
  lemma StripUnchanged(s: string)
    requires s == [] || (!IsWhitespace(s[0]) && !IsWhitespace(s[|s| - 1]))
    ensures Strip(s) == s
  {
    if s != [] {
      DropLeadingKept(s, IsWhitespace);
    }
  }

  /** `sep` occurs in `s` starting at index k. */
  predicate OccursAt(s: string, sep: string, k: nat) {
    k + |sep| <= |s| && s[k..k + |sep|] == sep
  }

  /** No occurrence of `sep` anywhere in `s`. */
  predicate Free(s: string, sep: string) {
    forall k: nat | k < |s| :: !OccursAt(s, sep, k)
  }

  /** The index of the first occurrence of `sep` at or after `from`, or |s|. */
  function Find(s: string, sep: string, from: nat): (i: nat)
    requires 0 < |sep| && from <= |s|
    ensures from <= i <= |s|
    ensures i < |s| ==> OccursAt(s, sep, i)
    ensures forall k: nat :: from <= k < i ==> !OccursAt(s, sep, k)
    decreases |s| - from
  {
    if from + |sep| > |s| then |s|
    else if OccursAt(s, sep, from) then from
    else Find(s, sep, from + 1)
  }

  /** Before the first occurrence of `sep` there is none. */
  lemma FreeBefore(s: string, sep: string, i: nat)
    requires 0 < |sep| && i <= |s|
    requires forall k: nat :: k < i ==> !OccursAt(s, sep, k)
    ensures Free(s[..i], sep)
  {
    forall k: nat | k < i ensures !OccursAt(s[..i], sep, k) {
      assert !OccursAt(s, sep, k);
      if k + |sep| <= i {
        assert s[..i][k..k + |sep|] == s[k..k + |sep|];
      }
    }
  }

  /** The parts put back together with `sep` between them. */
  function Join(parts: seq<string>, sep: string): string
    requires |parts| >= 1
  {
    if |parts| == 1 then parts[0] else parts[0] + sep + Join(parts[1..], sep)
  }

  /** String.split(sep, limit) for a positive limit: the pattern is applied at
    * most limit - 1 times, the last part holds the rest of the input, and
    * empty parts (leading or trailing) are kept. */
  function SplitLimit(s: string, sep: Separator, limit: nat): (parts: seq<string>)
    requires limit >= 1
    ensures 1 <= |parts| <= limit
    ensures Join(parts, sep) == s
    ensures forall k :: 0 <= k < |parts| - 1 ==> Free(parts[k], sep)
    ensures |parts| < limit ==> Free(parts[|parts| - 1], sep)
    decreases |s|
  {
    var i := Find(s, sep, 0);
    FreeBefore(s, sep, i);
    if limit == 1 || i == |s| then
      assert s[..|s|] == s;
      [s]
    else
      var rest := SplitLimit(s[i + |sep|..], sep, limit - 1);
      SplitStep(s, sep, i, rest);
      [s[..i]] + rest
  }

  /** One step of SplitLimit: a separator-free head, the separator, and the
    * parts of the remainder. */
  lemma SplitStep(s: string, sep: Separator, i: nat, rest: seq<string>)
    requires OccursAt(s, sep, i)
    requires |rest| >= 1 && Join(rest, sep) == s[i + |sep|..]
    ensures Join([s[..i]] + rest, sep) == s
  {
    var parts := [s[..i]] + rest;
    assert parts[1..] == rest;
    Around(s, sep, i);
  }

  /** A string is what precedes an occurrence, the occurrence, and what follows. */
  lemma Around(s: string, sep: string, i: nat)
    requires OccursAt(s, sep, i)
    ensures s == s[..i] + sep + s[i + |sep|..]
  {
  }

  /** A string without a '\n' holds no line separator. */
  lemma NoNewlineFree(s: string, sep: Separator)
    requires '\n' !in s
    ensures Free(s, sep)
  {
    forall k: nat | k + |sep| <= |s| ensures !OccursAt(s, sep, k) {
      assert s[k + |sep| - 1] in s;
    }
  }

  /** After a separator-free prefix, the first separator is the one placed
    * right behind it. */
  lemma FindAfter(p: string, sep: Separator, rest: string)
    requires Free(p, sep)
    ensures Find(p + sep + rest, sep, 0) == |p|
  {
    var s := p + sep + rest;
    assert s[|p|..|p| + |sep|] == sep;
    forall k: nat | k < |p| ensures !OccursAt(s, sep, k) {
      if k + |sep| <= |p| {
        assert s[k..k + |sep|] == p[k..k + |sep|];
        assert !OccursAt(p, sep, k);
      } else {
        // only "\r\n" can straddle the end of p, and then its second character is '\r'
        assert sep == "\r\n" && k == |p| - 1;
        assert s[k + 1] == sep[0] == '\r';
        assert s[k..k + |sep|][1] == '\r' != sep[1];
      }
    }
    FindFirst(s, sep, |p|);
  }

  /** Find returns the first occurrence when the earlier windows all differ. */
  lemma FindFirst(s: string, sep: Separator, i: nat)
    requires OccursAt(s, sep, i)
    requires forall k: nat :: k < i ==> !OccursAt(s, sep, k)
    ensures Find(s, sep, 0) == i
  {
  }

  /** Splitting with a limit inverts joining, when every part that a
    * separator follows is free of separators. */
  lemma {:induction false} SplitJoin(parts: seq<string>, sep: Separator)
    requires |parts| >= 1
    requires forall k :: 0 <= k < |parts| - 1 ==> Free(parts[k], sep)
    ensures SplitLimit(Join(parts, sep), sep, |parts|) == parts
  {
    if |parts| == 1 {
      assert Join(parts, sep) == parts[0];
      SplitOne(parts[0], sep);
      assert SplitLimit(Join(parts, sep), sep, |parts|) == [parts[0]];
    } else {
      var tail := parts[1..];
      assert forall k :: 0 <= k < |tail| - 1 ==> tail[k] == parts[k + 1];
      SplitJoined(parts, sep);
      SplitJoin(tail, sep);
      assert SplitLimit(Join(parts, sep), sep, |parts|) == [parts[0]] + tail;
      assert [parts[0]] + tail == parts;
    }
  }

  /** A string without the separator is one part, whatever the limit. */
  lemma SplitFree(s: string, sep: Separator, limit: nat)
    requires limit >= 1 && Free(s, sep)
    ensures SplitLimit(s, sep, limit) == [s]
  {
    assert Find(s, sep, 0) == |s|;
  }

  /** A limit of one leaves the string whole. */
  lemma SplitOne(s: string, sep: Separator)
    ensures SplitLimit(s, sep, 1) == [s]
  {
  }

  /** One step of splitting what was joined: the first part, then the
    * parts of the rest. */
  lemma SplitJoined(parts: seq<string>, sep: Separator)
    requires |parts| >= 2 && Free(parts[0], sep)
    ensures SplitLimit(Join(parts, sep), sep, |parts|) == [parts[0]] + SplitLimit(Join(parts[1..], sep), sep, |parts[1..]|)
  {
    SplitAfter(parts[0], sep, Join(parts[1..], sep), Join(parts, sep), |parts|, |parts[1..]|);
  }

  /** Splitting after a separator-free first part: that part, then the parts
    * of the rest. */
  lemma SplitAfter(p: string, sep: Separator, rest: string, s: string, limit: nat, n: nat)
    requires Free(p, sep) && s == p + sep + rest && limit >= 2 && n == limit - 1
    ensures SplitLimit(s, sep, limit) == [p] + SplitLimit(rest, sep, n)
  {
    FindAfter(p, sep, rest);
    Pieces(p, sep, rest);
    var i := Find(s, sep, 0);
    assert i == |p| < |s|;
    assert s[..i] == p && s[i + |sep|..] == rest;
  }

  /** The pieces of x + sep + y, taken apart again by index. */
  lemma Pieces(x: string, sep: string, y: string)
    ensures (x + sep + y)[..|x|] == x
    ensures (x + sep + y)[|x| + |sep|..] == y
  {
  }

  /** The parts of `s` between occurrences of `c`: String.split before
    * trailing empty parts are removed. */
  function SplitAll(s: string, c: char): (parts: seq<string>)
    ensures |parts| >= 1
    ensures c !in s ==> parts == [s]
    ensures forall k :: 0 <= k < |parts| ==> c !in parts[k]
    ensures Join(parts, [c]) == s
    decreases |s|
  {
    var i := IndexWhere(s, x => x == c, 0);
    if i == |s| then [s]
    else
      assert s == s[..i] + [c] + s[i + 1..];
      [s[..i]] + SplitAll(s[i + 1..], c)
  }

  /** `parts` without its trailing empty strings. */
  function DropTrailingEmpty(parts: seq<string>): (r: seq<string>)
    ensures |r| <= |parts| && r == parts[..|r|]
    ensures r == [] || r[|r| - 1] != ""
    ensures forall k :: |r| <= k < |parts| ==> parts[k] == ""
  {
    if parts != [] && parts[|parts| - 1] == "" then DropTrailingEmpty(parts[..|parts| - 1])
    else parts
  }

  /** String.split(":") with no limit: all parts, less the trailing empty
    * ones, except that a string without ':' comes back whole (so "" gives
    * [""] while ":" gives []). */
  function SplitOnColon(s: string): (parts: seq<string>)
    ensures forall k :: 0 <= k < |parts| ==> ':' !in parts[k]
    ensures ':' !in s ==> parts == [s]
    ensures ':' in s ==> var all := SplitAll(s, ':');
      && |parts| <= |all| && parts == all[..|parts|]
      && (parts == [] || parts[|parts| - 1] != "")
      && forall k :: |parts| <= k < |all| ==> all[k] == ""
  {
    if ':' !in s then [s] else DropTrailingEmpty(SplitAll(s, ':'))
  }

  /** `m` colons. */
  function Colons(m: nat): string {
    seq(m, _ => ':')
  }

  /** String.lines(): the lines of `s`, each line ending at "\n", "\r" or
    * "\r\n" (not included); a terminator at the very end opens no further
    * line, and "" has no lines at all. */
  function Lines(s: string): (ls: seq<string>)
    ensures forall k :: 0 <= k < |ls| ==> '\n' !in ls[k] && '\r' !in ls[k]
    decreases |s|
  {
    if s == [] then []
    else
      var i := IndexWhere(s, IsLineBreak, 0);
      if i == |s| then [s]
      else
        var next := if s[i] == '\r' && i + 1 < |s| && s[i + 1] == '\n' then i + 2 else i + 1;
        [s[..i]] + Lines(s[next..])
  }

  /** A line followed by a line separator is the first line of the text. */
  lemma LinesCons(x: string, sep: Separator, rest: string)
    requires '\n' !in x && '\r' !in x
    ensures Lines(x + sep + rest) == [x] + Lines(rest)
  {
    var s := x + sep + rest;
    var i := IndexWhere(s, IsLineBreak, 0);
    assert IsLineBreak(s[|x|]);
    assert forall k :: 0 <= k < |x| ==> s[k] == x[k];
    assert i == |x|;
    assert s[..i] == x;
    if sep == "\r\n" {
      assert s[|x| + 2..] == rest;
    } else {
      assert s[|x| + 1..] == rest;
    }
  }

  /** A lone carriage return, one not followed by a line feed, also ends a
    * line. */
  lemma LinesCr(x: string, rest: string)
    requires '\n' !in x && '\r' !in x
    requires rest == [] || rest[0] != '\n'
    ensures Lines(x + "\r" + rest) == [x] + Lines(rest)
  {
    var s := x + "\r" + rest;
    var i := IndexWhere(s, IsLineBreak, 0);
    assert IsLineBreak(s[|x|]);
    assert forall k :: 0 <= k < |x| ==> s[k] == x[k];
    assert i == |x|;
    assert s[..i] == x;
    assert s[|x| + 1..] == rest;
    if |x| + 1 < |s| {
      assert s[|x| + 1] == rest[0];
    }
  }

  /** String.split("\\s+", limit) for a positive limit: a part ends at the
    * first whitespace character, and the whole run of whitespace there is
    * the delimiter. */
  function SplitWs(s: string, limit: nat): (parts: seq<string>)
    requires limit >= 1
    ensures 1 <= |parts| <= limit
    ensures forall k :: 0 <= k < |parts| - 1 ==> forall c :: c in parts[k] ==> !IsRegexSpace(c)
    ensures |parts| < limit ==> forall c :: c in parts[|parts| - 1] ==> !IsRegexSpace(c)
    ensures |parts[0]| <= |s| && parts[0] == s[..|parts[0]|]
    decreases |s|
  {
    var i := IndexWhere(s, IsRegexSpace, 0);
    if limit == 1 || i == |s| then
      assert s[..|s|] == s;
      [s]
    else
      var j := IndexWhere(s, c => !IsRegexSpace(c), i);
      [s[..i]] + SplitWs(s[j..], limit - 1)
  }

  /** A non-empty run of \s characters. */
  predicate IsSpaceRun(w: string) {
    w != [] && forall k :: 0 <= k < |w| ==> IsRegexSpace(w[k])
  }

  /** A token without whitespace splits off as the first part, and the
    * whitespace run after it is dropped. */
  lemma SplitWsToken(x: string, y: string, limit: nat)
    requires limit >= 2
    requires forall c :: c in x ==> !IsRegexSpace(c)
    requires y != [] && IsRegexSpace(y[0])
    ensures SplitWs(x + y, limit)[0] == x
    ensures |SplitWs(x + y, limit)| >= 2
  {
    var s := x + y;
    var i := IndexWhere(s, IsRegexSpace, 0);
    assert IsRegexSpace(s[|x|]);
    assert forall k :: 0 <= k < |x| ==> s[k] == x[k];
    assert i == |x|;
    assert s[..i] == x;
  }

  /** A text without whitespace is a single part. */
  lemma SplitWsSingle(x: string, limit: nat)
    requires limit >= 1
    requires forall c :: c in x ==> !IsRegexSpace(c)
    ensures SplitWs(x, limit) == [x]
  {
    var i := IndexWhere(x, IsRegexSpace, 0);
    assert forall k :: 0 <= k < |x| ==> x[k] in x;
  }

  /** After a token without whitespace and a run of whitespace, however
    * long and whatever its characters, the split goes on at the next
    * token: the whole run is one delimiter. */
  lemma SplitWsRun(x: string, w: string, z: string, limit: nat)
    requires limit >= 2
    requires forall c :: c in x ==> !IsRegexSpace(c)
    requires IsSpaceRun(w)
    requires z == [] || !IsRegexSpace(z[0])
    ensures SplitWs(x + w + z, limit) == [x] + SplitWs(z, limit - 1)
  {
    var s := x + w + z;
    var i := IndexWhere(s, IsRegexSpace, 0);
    assert forall k :: 0 <= k < |x| ==> s[k] == x[k];
    assert IsRegexSpace(s[|x|]);
    assert i == |x|;
    var j := IndexWhere(s, c => !IsRegexSpace(c), i);
    assert forall k :: |x| <= k < |x| + |w| ==> s[k] == w[k - |x|];
    assert forall k :: |x| <= k < |x| + |w| ==> IsRegexSpace(s[k]);
    if |x| + |w| < |s| {
      assert s[|x| + |w|] == z[0];
    }
    assert j == |x| + |w|;
    assert s[..i] == x;
    assert s[j..] == z;
  }

  /** A split on whitespace yields at least two parts exactly when the text
    * holds a whitespace character. */
  lemma SplitWsCount(s: string, limit: nat)
    requires limit >= 2
    ensures |SplitWs(s, limit)| >= 2 <==> exists k :: 0 <= k < |s| && IsRegexSpace(s[k])
  {
    var i := IndexWhere(s, IsRegexSpace, 0);
    if i == |s| {
      assert forall k :: 0 <= k < |s| ==> !IsRegexSpace(s[k]);
    }
  }

  /** Trailing removal stops at a kept character: what precedes it is untouched. */
  lemma {:induction false} DropTrailingAppend(a: string, b: string, p: char -> bool)
    requires a == [] || !p(a[|a| - 1])
    ensures DropTrailing(a + b, p) == a + DropTrailing(b, p)
    decreases |b|
  {
    if b == [] {
      assert a + b == a;
    } else if p(b[|b| - 1]) {
      assert (a + b)[..|a + b| - 1] == a + b[..|b| - 1];
      DropTrailingAppend(a, b[..|b| - 1], p);
    }
  }

  /** Leading removal leaves a string that starts with a kept character alone. */
  lemma DropLeadingKept(s: string, p: char -> bool)
    requires s != [] && !p(s[0])
    ensures DropLeading(s, p) == s
  {
  }

  /** Splitting at a character that the head does not contain. */
  lemma SplitAllCons(x: string, c: char, y: string)
    requires c !in x
    ensures SplitAll(x + [c] + y, c) == [x] + SplitAll(y, c)
  {
    var s := x + [c] + y;
    var i := IndexWhere(s, ch => ch == c, 0);
    assert forall k :: 0 <= k < |x| ==> s[k] == x[k] && x[k] in x;
    assert s[|x|] == c;
    assert i == |x|;
    assert s[..i] == x;
    assert s[i + 1..] == y;
  }

  /** A run of m colons splits into m + 1 empty parts. */
  lemma {:induction false} SplitAllColons(m: nat)
    ensures SplitAll(Colons(m), ':') == seq(m + 1, _ => "")
  {
    if m > 0 {
      assert Colons(m) == [] + [':'] + Colons(m - 1);
      SplitAllCons([], ':', Colons(m - 1));
      SplitAllColons(m - 1);
      assert [""] + seq(m, _ => "") == seq(m + 1, _ => "");
    } else {
      assert ':' !in Colons(0);
    }
  }

  /** Trailing empty parts after a non-empty one are all that is dropped. */
  lemma {:induction false} DropTrailingEmptyKeep(a: seq<string>, m: nat)
    requires a != [] && a[|a| - 1] != ""
    ensures DropTrailingEmpty(a + seq(m, _ => "")) == a
  {
    if m == 0 {
      assert a + seq(0, _ => "") == a;
    } else {
      var e := seq(m, _ => "");
      assert (a + e)[..|a + e| - 1] == a + seq(m - 1, _ => "");
      DropTrailingEmptyKeep(a, m - 1);
    }
  }
}
