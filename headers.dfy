/** Header parsing: the lines of the first read that split on ':' into
  * exactly a name and a value, collected into a map and handed to the
  * HttpHeaders factory. */
module HeaderParser {
  import opened Outcomes
  import opened JavaText
  import opened Transport

  /** Headers as HttpHeaders exposes them: a list of values per name, where
    * names are looked up without regard to case. The map is keyed by the
    * lower-cased (trimmed) name. */
  type HeaderMap = map<string, seq<string>>

  // ---------------------------------------------------------------------
  // One line
  // ---------------------------------------------------------------------

  /** A line is a header candidate when split(":") leaves exactly two parts;
    * the parts are its name and value, neither trimmed. */
  function HeaderLine(line: string): (r: Option<(string, string)>)
    ensures r.Some? ==> ':' in line
    ensures r.Some? ==> ':' !in r.value.0 && ':' !in r.value.1 && r.value.1 != ""
  {
    var parts := SplitOnColon(line);
    if |parts| == 2 then
      if ':' in line then
        var all := SplitAll(line, ':');
        assert parts == all[..2];
        assert all[0] == parts[0] && all[1] == parts[1];
        Some((parts[0], parts[1]))
      else
        None
    else None
  }

  /** A name, a colon, a non-empty value and any number of trailing colons is
    * a header line with that name and value. */
  lemma HeaderLineOf(n: string, v: string, m: nat)
    requires ':' !in n && ':' !in v && v != ""
    ensures HeaderLine(n + ":" + v + Colons(m)) == Some((n, v))
  {
    var line := n + ":" + v + Colons(m);
    SplitHeader(n, v, m);
    assert line[|n|] == ':';
    DropTrailingEmptyKeep([n, v], m);
  }

  /** The colon-split parts of a header line with m trailing colons. */
  lemma SplitHeader(n: string, v: string, m: nat)
    requires ':' !in n && ':' !in v
    ensures SplitAll(n + ":" + v + Colons(m), ':') == [n, v] + seq(m, _ => "")
  {
    assert n + ":" + v + Colons(m) == n + [':'] + (v + Colons(m));
    SplitAllCons(n, ':', v + Colons(m));
    SplitValue(v, m);
  }

  /** The colon-split parts of a value with m trailing colons. */
  lemma SplitValue(v: string, m: nat)
    requires ':' !in v
    ensures SplitAll(v + Colons(m), ':') == [v] + seq(m, _ => "")
  {
    if m == 0 {
      assert v + Colons(0) == v;
    } else {
      assert v + Colons(m) == v + [':'] + Colons(m - 1);
      SplitAllCons(v, ':', Colons(m - 1));
      SplitAllColons(m - 1);
    }
  }

  /** A line whose value holds a further colon, such as a Date header with
    * a time of day, is not a header line. */
  lemma SecondColonDropped(n: string, v: string, w: string)
    requires ':' !in n && ':' !in v && ':' !in w && w != ""
    ensures HeaderLine(n + ":" + v + ":" + w) == None
  {
    var line := n + ":" + v + ":" + w;
    var tail := v + [':'] + w;
    assert line == n + [':'] + tail;
    assert line[|n|] == ':';
    SplitAllCons(n, ':', tail);
    SplitAllCons(v, ':', w);
    var parts := [n, v, w];
    assert SplitAll(line, ':') == parts;
    assert DropTrailingEmpty(parts) == parts;
  }

  /** Conversely, every header line has that shape: a colon-free name, a
    * colon, a colon-free non-empty value and nothing but colons after it. */
  lemma HeaderLineShape(line: string)
    requires HeaderLine(line).Some?
    ensures var (n, v) := HeaderLine(line).value;
      exists m: nat :: line == n + ":" + v + Colons(m)
  {
    var (n, v) := HeaderLine(line).value;
    var all := SplitAll(line, ':');
    var parts := DropTrailingEmpty(all);
    assert parts == [n, v];
    var m := |all| - 2;
    assert all == [n, v] + seq(m, _ => "") by {
      assert all[..2] == [n, v];
      assert forall k :: 2 <= k < |all| ==> all[k] == "";
    }
    JoinEmpties(n, v, m);
    assert line == n + ":" + v + Colons(m);
  }

  /** Joining a name, a value and m empty parts with ':' puts m colons after
    * the value. */
  lemma JoinEmpties(n: string, v: string, m: nat)
    ensures Join([n, v] + seq(m, _ => ""), [':']) == n + ":" + v + Colons(m)
  {
    if m == 0 {
      assert [n, v] + seq(0, _ => "") == [n, v];
      assert Join([v], [':']) == v;
      assert Colons(0) == [];
    } else {
      var parts := [n, v] + seq(m, _ => "");
      assert parts[1..] == [v] + seq(m, _ => "");
      JoinTail(v, m);
      assert Colons(m) == [':'] + Colons(m - 1);
    }
  }

  /** A value followed by m empty parts joins to the value and m colons. */
  lemma {:induction false} JoinTail(v: string, m: nat)
    ensures Join([v] + seq(m, _ => ""), [':']) == v + Colons(m)
    decreases m
  {
    if m == 0 {
      assert [v] + seq(0, _ => "") == [v];
      assert Colons(0) == [];
    } else {
      var parts := [v] + seq(m, _ => "");
      assert parts[1..] == [""] + seq(m - 1, _ => "");
      JoinTail("", m - 1);
      assert Colons(m) == [':'] + Colons(m - 1);
    }
  }

  // ---------------------------------------------------------------------
  // The stream pipeline
  // ---------------------------------------------------------------------

  /** The stream's map-then-filter: the present results of `f`, in order. */
  function FilterMap<A, B>(xs: seq<A>, f: A -> Option<B>): (ys: seq<B>)
    ensures |ys| <= |xs|
    ensures forall y :: y in ys ==> exists k :: 0 <= k < |xs| && f(xs[k]) == Some(y)
    ensures forall k :: 0 <= k < |xs| && f(xs[k]).Some? ==> f(xs[k]).value in ys
  {
    if xs == [] then []
    else
      var rest := FilterMap(xs[1..], f);
      assert forall k :: 1 <= k < |xs| ==> xs[k] == xs[1..][k - 1];
      match f(xs[0])
      case None => rest
      case Some(y) => [y] + rest
  }

  /** Appending an element to the stream appends its result, if any: the
    * pipeline keeps order and multiplicity. */
  lemma {:induction false} FilterMapSnoc<A, B>(xs: seq<A>, x: A, f: A -> Option<B>)
    ensures FilterMap(xs + [x], f) == FilterMap(xs, f) + (if f(x).Some? then [f(x).value] else [])
  {
    if xs == [] {
      assert xs + [x] == [x];
      assert [x][1..] == [];
    } else {
      assert (xs + [x])[0] == xs[0];
      assert (xs + [x])[1..] == xs[1..] + [x];
      FilterMapSnoc(xs[1..], x, f);
    }
  }

  /** No two pairs share a name. */
  predicate DistinctNames(pairs: seq<(string, string)>) {
    forall i, j :: 0 <= i < j < |pairs| ==> pairs[i].0 != pairs[j].0
  }

  /** Collectors.toMap: pairs are added in order, and the first name that is
    * already present aborts the collection with that name. */
  function CollectToMap(pairs: seq<(string, string)>): (r: Result<map<string, string>, Failure>)
    ensures r.Ok? <==> DistinctNames(pairs)
    ensures r.Ok? ==> forall k :: 0 <= k < |pairs| ==> pairs[k].0 in r.value && r.value[pairs[k].0] == pairs[k].1
    ensures r.Ok? ==> forall name :: name in r.value ==> exists k :: 0 <= k < |pairs| && pairs[k].0 == name
    ensures r.Err? ==> r.error.DuplicateKey?
    ensures r.Err? ==> exists i, j :: 0 <= i < j < |pairs| && pairs[i].0 == r.error.name && pairs[j].0 == r.error.name
  {
    if pairs == [] then Ok(map[])
    else
      var init := pairs[..|pairs| - 1];
      var (name, value) := pairs[|pairs| - 1];
      assert forall k :: 0 <= k < |init| ==> init[k] == pairs[k];
      match CollectToMap(init)
      case Err(e) => Err(e)
      case Ok(m) =>
        if name in m then
          assert exists k :: 0 <= k < |init| && init[k].0 == name;
          Err(DuplicateKey(name))
        else
          Ok(m[name := value])
  }

  // ---------------------------------------------------------------------
  // HttpHeaders.of, as the library behaves
  // ---------------------------------------------------------------------

  /** ASCII case folding (Character.toLowerCase on the ASCII letters). */
  function AsciiLower(c: char): (l: char)
    ensures 'A' <= c <= 'Z' ==> l as int == c as int + 32
    ensures !('A' <= c <= 'Z') ==> l == c
  {
    if 'A' <= c <= 'Z' then (c as int + 32) as char else c
  }

  /** The key a name is looked up under. */
  function Fold(s: string): (f: string)
    ensures |f| == |s| && forall k :: 0 <= k < |s| ==> f[k] == AsciiLower(s[k])
  {
    seq(|s|, k requires 0 <= k < |s| => AsciiLower(s[k]))
  }

  /** The key a header name is stored and looked up under. */
  function HeaderKey(name: string): string {
    Fold(Trim(name))
  }

  /** Some name is empty once trimmed. */
  predicate EmptyName(pairs: seq<(string, string)>) {
    exists p :: p in pairs && Trim(p.0) == []
  }

  /** Two names that are the same up to case and surrounding blanks. */
  predicate NameClash(pairs: seq<(string, string)>) {
    exists i, j :: 0 <= i < j < |pairs| && HeaderKey(pairs[i].0) == HeaderKey(pairs[j].0)
  }

  /** HttpHeaders.of with a filter that accepts everything, applied to the
    * collected name-value pairs: names and values are trimmed; an empty
    * name, or two names that are the same up to case, is an
    * IllegalArgumentException; every value becomes a one-element list. The
    * library visits the map in no particular order; both failures are the
    * same exception, so visiting the pairs in line order gives the same
    * outcome. */
  function HttpHeadersOf(pairs: seq<(string, string)>): (r: Result<HeaderMap, Failure>)
    ensures r.Err? ==> r.error == IllegalHeaders
    ensures r.Ok? ==> |r.value| == |pairs|
  {
    if pairs == [] then Ok(map[])
    else
      match HttpHeadersOf(pairs[1..])
      case Err(e) => Err(e)
      case Ok(h) =>
        var key := HeaderKey(pairs[0].0);
        if Trim(pairs[0].0) == [] || key in h then Err(IllegalHeaders)
        else Ok(h[key := [Trim(pairs[0].1)]])
  }

  /** Each pair's trimmed value is listed, alone, under its key, and there
    * are no other keys. */
  lemma {:induction false} HeadersOfEntries(pairs: seq<(string, string)>)
    requires HttpHeadersOf(pairs).Ok?
    ensures var h := HttpHeadersOf(pairs).value;
      forall p :: p in pairs ==> HeaderKey(p.0) in h && h[HeaderKey(p.0)] == [Trim(p.1)]
    ensures var h := HttpHeadersOf(pairs).value;
      forall key :: key in h ==> exists p :: p in pairs && HeaderKey(p.0) == key
  {
    if pairs != [] {
      var rest := pairs[1..];
      HeadersOfEntries(rest);
      var h := HttpHeadersOf(pairs).value;
      var h' := HttpHeadersOf(rest).value;
      var key := HeaderKey(pairs[0].0);
      assert key !in h' && h == h'[key := [Trim(pairs[0].1)]];
      forall p | p in pairs
        ensures HeaderKey(p.0) in h && h[HeaderKey(p.0)] == [Trim(p.1)]
      {
        if p != pairs[0] {
          assert p in rest;
        }
      }
    }
  }

  /** HttpHeaders.of fails exactly when a name is empty or two names clash. */
  lemma {:induction false} HeadersOfFails(pairs: seq<(string, string)>)
    ensures HttpHeadersOf(pairs).Err? <==> EmptyName(pairs) || NameClash(pairs)
  {
    if pairs != [] {
      var rest := pairs[1..];
      HeadersOfFails(rest);
      EmptyNameStep(pairs);
      NameClashStep(pairs);
      if HttpHeadersOf(rest).Ok? {
        KeyTaken(pairs);
      }
    }
  }

  /** The first name's key is already taken by the later pairs exactly when
    * one of them has the same key. */
  lemma KeyTaken(pairs: seq<(string, string)>)
    requires pairs != [] && HttpHeadersOf(pairs[1..]).Ok?
    ensures HeaderKey(pairs[0].0) in HttpHeadersOf(pairs[1..]).value
        <==> exists j :: 1 <= j < |pairs| && HeaderKey(pairs[j].0) == HeaderKey(pairs[0].0)
  {
    var rest := pairs[1..];
    var key := HeaderKey(pairs[0].0);
    HeadersOfEntries(rest);
    if key in HttpHeadersOf(rest).value {
      var p :| p in rest && HeaderKey(p.0) == key;
      var j :| 0 <= j < |rest| && rest[j] == p;
      assert pairs[j + 1] == p;
    }
    if j :| 1 <= j < |pairs| && HeaderKey(pairs[j].0) == key {
      assert pairs[j] in rest;
    }
  }

  /** An empty name is the first one or one further on. */
  lemma EmptyNameStep(pairs: seq<(string, string)>)
    requires pairs != []
    ensures EmptyName(pairs) <==> Trim(pairs[0].0) == [] || EmptyName(pairs[1..])
  {
    if p :| p in pairs && Trim(p.0) == [] {
      if p != pairs[0] {
        assert p in pairs[1..];
      }
    }
    if EmptyName(pairs[1..]) {
      var p :| p in pairs[1..] && Trim(p.0) == [];
      assert p in pairs;
    }
  }

  /** A clash involves the first name or lies further on. */
  lemma NameClashStep(pairs: seq<(string, string)>)
    requires pairs != []
    ensures NameClash(pairs)
        <==> (NameClash(pairs[1..]) || exists j :: 1 <= j < |pairs| && HeaderKey(pairs[j].0) == HeaderKey(pairs[0].0))
  {
    var rest := pairs[1..];
    if NameClash(pairs) {
      var i, j :| 0 <= i < j < |pairs| && HeaderKey(pairs[i].0) == HeaderKey(pairs[j].0);
      if i > 0 {
        assert rest[i - 1] == pairs[i] && rest[j - 1] == pairs[j];
      }
    }
    if NameClash(rest) {
      var i, j :| 0 <= i < j < |rest| && HeaderKey(rest[i].0) == HeaderKey(rest[j].0);
      assert pairs[i + 1] == rest[i] && pairs[j + 1] == rest[j];
    }
  }

  /** parseHeaders: every line of the text, the status line included. */
  function ParseHeaders(text: string): (r: Result<HeaderMap, Failure>)
    ensures r.Err? ==> r.error.DuplicateKey? || r.error == IllegalHeaders
  {
    var pairs := FilterMap(Lines(text), HeaderLine);
    match CollectToMap(pairs)
    case Err(e) => Err(e)
    case Ok(_) => HttpHeadersOf(pairs)
  }

  /** HttpHeaders.firstValue: the first value listed under the name, looked
    * up without regard to case. */
  function FirstValue(h: HeaderMap, name: string): (r: Option<string>)
    ensures r.Some? <==> Fold(name) in h && h[Fold(name)] != []
    ensures r.Some? ==> r.value == h[Fold(name)][0]
  {
    var key := Fold(name);
    if key in h && h[key] != [] then Some(h[key][0]) else None
  }

  /** The response is chunked when the first Transfer-Encoding value is
    * exactly "chunked". */
  predicate IsChunked(h: HeaderMap): (b: bool)
    ensures b <==> "transfer-encoding" in h && h["transfer-encoding"] != [] && h["transfer-encoding"][0] == "chunked"
  {
    TransferEncodingKey();
    FirstValue(h, "Transfer-Encoding") == Some("chunked")
  }

  /** The key of Transfer-Encoding. */
  lemma TransferEncodingKey()
    ensures Fold("Transfer-Encoding") == "transfer-encoding"
  {
  }

  /** A name-value pair that gives `value` for `name` (up to case). */
  predicate Matches(p: (string, string), name: string, value: string) {
    HeaderKey(p.0) == Fold(name) && Trim(p.1) == value
  }

  /** A line that declares `value` (after trimming) for `name` (up to case). */
  predicate Declares(line: string, name: string, value: string) {
    HeaderLine(line).Some? && Matches(HeaderLine(line).value, name, value)
  }

  // ---------------------------------------------------------------------
  // Properties
  // ---------------------------------------------------------------------

  /** The parsed headers give `value` for `name` exactly when some line of
    * the text declares it. */
  lemma LookupIff(text: string, name: string, value: string)
    requires ParseHeaders(text).Ok?
    ensures FirstValue(ParseHeaders(text).value, name) == Some(value)
        <==> exists k :: 0 <= k < |Lines(text)| && Declares(Lines(text)[k], name, value)
  {
    var ls := Lines(text);
    ParsedFromCandidates(text);
    LookupPairs(FilterMap(ls, HeaderLine), name, value);
    CandidatesDeclare(ls, name, value);
  }

  /** Parsed headers are those of the candidates of the text's lines. */
  lemma ParsedFromCandidates(text: string)
    requires ParseHeaders(text).Ok?
    ensures HttpHeadersOf(FilterMap(Lines(text), HeaderLine)) == ParseHeaders(text)
  {
  }

  /** Looking a name up in the headers of some pairs finds the trimmed
    * value of the pair with that name. */
  lemma LookupPairs(pairs: seq<(string, string)>, name: string, value: string)
    requires HttpHeadersOf(pairs).Ok?
    ensures FirstValue(HttpHeadersOf(pairs).value, name) == Some(value)
        <==> exists p :: p in pairs && Matches(p, name, value)
  {
    var h := HttpHeadersOf(pairs).value;
    HeadersOfEntries(pairs);
    if FirstValue(h, name) == Some(value) {
      var p :| p in pairs && HeaderKey(p.0) == Fold(name);
      assert Matches(p, name, value);
    }
  }

  /** Some candidate matches exactly when some line declares. */
  lemma CandidatesDeclare(ls: seq<string>, name: string, value: string)
    ensures (exists p :: p in FilterMap(ls, HeaderLine) && Matches(p, name, value))
        <==> exists k :: 0 <= k < |ls| && Declares(ls[k], name, value)
  {
    var pairs := FilterMap(ls, HeaderLine);
    if p :| p in pairs && Matches(p, name, value) {
      var k :| 0 <= k < |ls| && HeaderLine(ls[k]) == Some(p);
      assert Declares(ls[k], name, value);
    }
    if k :| 0 <= k < |ls| && Declares(ls[k], name, value) {
      assert HeaderLine(ls[k]).value in pairs;
    }
  }

  /** Chunked detection looks only at Transfer-Encoding lines whose trimmed
    * value is exactly "chunked". */
  lemma ChunkedIff(text: string)
    requires ParseHeaders(text).Ok?
    ensures IsChunked(ParseHeaders(text).value)
        <==> exists k :: 0 <= k < |Lines(text)| && Declares(Lines(text)[k], "Transfer-Encoding", "chunked")
  {
    LookupIff(text, "Transfer-Encoding", "chunked");
  }

  /** A name that appears on two header lines makes the collection fail,
    * however the values differ. */
  lemma RepeatedNameFails(text: string, i: nat, j: nat)
    requires i < j < |Lines(text)|
    requires HeaderLine(Lines(text)[i]).Some? && HeaderLine(Lines(text)[j]).Some?
    requires HeaderLine(Lines(text)[i]).value.0 == HeaderLine(Lines(text)[j]).value.0
    ensures ParseHeaders(text).Err?
  {
    var pairs := FilterMap(Lines(text), HeaderLine);
    var a, b := InOrder(Lines(text), HeaderLine, i, j);
    assert pairs[a].0 == pairs[b].0;
    assert !DistinctNames(pairs);
  }

  /** Two present results give two kept elements, in the same order. */
  lemma {:induction false} InOrder<A, B>(xs: seq<A>, f: A -> Option<B>, i: nat, j: nat) returns (a: nat, b: nat)
    requires i < j < |xs|
    requires f(xs[i]).Some? && f(xs[j]).Some?
    ensures a < b < |FilterMap(xs, f)|
    ensures FilterMap(xs, f)[a] == f(xs[i]).value
    ensures FilterMap(xs, f)[b] == f(xs[j]).value
  {
    var rest := FilterMap(xs[1..], f);
    assert xs[j] == xs[1..][j - 1];
    if i == 0 {
      assert FilterMap(xs, f) == [f(xs[0]).value] + rest;
      assert f(xs[1..][j - 1]).value in rest;
      var b' :| 0 <= b' < |rest| && rest[b'] == f(xs[j]).value;
      a, b := 0, b' + 1;
    } else {
      assert xs[i] == xs[1..][i - 1];
      var a', b' := InOrder(xs[1..], f, i - 1, j - 1);
      if f(xs[0]).Some? {
        assert FilterMap(xs, f) == [f(xs[0]).value] + rest;
        a, b := a' + 1, b' + 1;
      } else {
        assert FilterMap(xs, f) == rest;
        a, b := a', b';
      }
    }
  }
}
