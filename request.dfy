/**
  The request side of the codec: the parsed request record and the one-shot
  parser from request text.

  The parser reads the request line (method, url and version separated by
  single spaces), then header lines up to the first empty line, then the body:
  every line after that empty line, joined with line feeds. Unknown method and
  version tokens fall back to `Get` and `Http1_1`. Where the Rust code panics
  (no line at all, a request line with fewer than three tokens, a header line
  without a colon) the model returns `Err` with the reason.
 */
module Requests {
  import opened Wrappers
  import opened Text
  import opened Types

  /**
    A parsed request. `contents` holds the body's bytes; the model identifies
    each character with one byte.
   */
  datatype HttpRequest = HttpRequest(
    url: string,
    version: HttpVersion,
    requestMethod: HttpMethod,
    header: Header,
    contents: seq<char>)
  {
    /** The body as text. Decoding never fails here: see `Utf8Error`. */
    function Body(): (r: Result<string, Utf8Error>)
      ensures r == Ok(contents)
    {
      Ok(contents)
    }
  }

  /** Rust's `Utf8Error`, which `body` returns on bytes that are not UTF-8. */
  datatype Utf8Error = Utf8Error

  /** The places where the Rust parser panics. */
  datatype Panic =
    | NoRequestLine                      // `lines.remove(0)` on no lines
    | RequestLineTooShort(tokens: nat)   // `http_info[1]` or `http_info[2]` out of bounds
    | HeaderWithoutColon(line: string)   // `split[1]` out of bounds

  /** `HttpRequest::new`: the empty request. */
  function NewRequest(): (r: HttpRequest)
    ensures r.url == [] && r.header == map[] && r.contents == []
    ensures r.version == Http1_1 && r.requestMethod == Get
  {
    HttpRequest([], Http1_1, Get, map[], [])
  }

  // ---------------------------------------------------------------------------
  // The specification of the parser
  // ---------------------------------------------------------------------------

  /** `lines.iter().position(|&v| v == "")`: the first empty line. */
  function FirstEmpty(ls: seq<string>): (r: Option<nat>)
    ensures r.Some? ==> r.value < |ls| && ls[r.value] == [] && forall j | 0 <= j < r.value :: ls[j] != []
    ensures r.None? ==> forall j | 0 <= j < |ls| :: ls[j] != []
  {
    if ls == [] then None
    else if ls[0] == [] then Some(0)
    else match FirstEmpty(ls[1..])
      case None => None
      case Some(i) => Some(i + 1)
  }

  /** The header name of a line: the text before its first colon, verbatim. */
  function HeaderKey(line: string): string
  {
    Split(line, ':')[0]
  }

  /** The header value of a line: the text between its first and second colon, leading whitespace trimmed. */
  function HeaderValue(line: string): string
    requires |Split(line, ':')| >= 2
  {
    TrimStart(Split(line, ':')[1])
  }

  /**
    The header map that the header lines `ls` give, inserted in order, so that
    a later line with the same name replaces an earlier one. Fails at the first
    line without a colon.
   */
  function Headers(ls: seq<string>): (r: Result<Header, Panic>)
    decreases |ls|
  {
    if ls == [] then Ok(map[]) else InsertLine(Headers(ls[..|ls| - 1]), ls[|ls| - 1])
  }

  /** One step of `Headers`: insert the name and value of `line`, or fail if it has no colon. */
  function InsertLine(acc: Result<Header, Panic>, line: string): Result<Header, Panic>
  {
    match acc
    case Err(e) => Err(e)
    case Ok(h) =>
      if |Split(line, ':')| < 2 then Err(HeaderWithoutColon(line))
      else Ok(h[HeaderKey(line) := HeaderValue(line)])
  }

  lemma InsertLineKeepsFailure(acc: Result<Header, Panic>, line: string)
    requires acc.Err?
    ensures InsertLine(acc, line) == acc
  {
  }

  lemma HeadersStep(ls: seq<string>, i: nat)
    requires i < |ls|
    ensures Headers(ls[..i + 1]) == InsertLine(Headers(ls[..i]), ls[i])
  {
    assert ls[..i + 1][..i] == ls[..i];
  }

  /** The lines after the request line that are header lines: those before the first empty line. */
  function HeaderSection(rest: seq<string>): seq<string>
  {
    match FirstEmpty(rest)
    case Some(i) => rest[..i]
    case None => rest
  }

  /** The body text: the lines after the first empty line joined with line feeds, or nothing. */
  function BodyText(rest: seq<string>): string
  {
    match FirstEmpty(rest)
    case Some(i) => JoinWith(rest[i + 1..], '\n')
    case None => []
  }

  /** What `from_request` computes for `data`. */
  function ParseRequest(data: string): Result<HttpRequest, Panic>
  {
    var lines := Lines(data);
    if lines == [] then Err(NoRequestLine)
    else
      var info := Split(lines[0], ' ');
      if |info| < 3 then Err(RequestLineTooShort(|info|))
      else
        var rest := lines[1..];
        match Headers(HeaderSection(rest))
        case Err(e) => Err(e)
        case Ok(h) =>
          Ok(HttpRequest(
               info[1],
               VersionFromStr(info[2]).GetOr(Http1_1),
               MethodFromStr(info[0]).GetOr(Get),
               h,
               BodyText(rest)))
  }

  // ---------------------------------------------------------------------------
  // The parser
  // ---------------------------------------------------------------------------

  /** `HttpRequest::from_request`. */
  method FromRequest(data: string) returns (r: Result<HttpRequest, Panic>)
    ensures r == ParseRequest(data)
  {
    var lines := Lines(data);
    if |lines| == 0 {
      return Err(NoRequestLine);
    }
    var httpInfo := lines[0];
    lines := lines[1..];

    var info := Split(httpInfo, ' ');
    var requestMethod := MethodFromStr(info[0]).GetOr(Get);
    if |info| < 3 {
      return Err(RequestLineTooShort(|info|));
    }
    var url := info[1];
    var version := VersionFromStr(info[2]).GetOr(Http1_1);

    var headers := ReadHeaders(lines);
    if headers.Err? {
      return Err(headers.error);
    }
    var header := headers.value;

    var contents: seq<char>;
    match FirstEmpty(lines) {
      case None =>
        contents := [];
      case Some(index) =>
        contents := JoinWith(lines[index + 1..], '\n');
    }
    ParseRequestParsed(data, header);
    return Ok(HttpRequest(url, version, requestMethod, header, contents));
  }

  /**
    The header loop of `from_request`: insert each line's name and value until
    the first empty line; a line without a colon panics.
   */
  method ReadHeaders(lines: seq<string>) returns (r: Result<Header, Panic>)
    ensures r == Headers(HeaderSection(lines))
  {
    var header: Header := map[];
    var i := 0;
    while i < |lines|
      invariant 0 <= i <= |lines|
      invariant forall j | 0 <= j < i :: lines[j] != []
      invariant Headers(lines[..i]) == Ok(header)
    {
      if lines[i] == [] {
        break;
      }
      var split := Split(lines[i], ':');
      HeadersStep(lines, i);
      if |split| < 2 {
        SectionFailsAt(lines, i);
        return Err(HeaderWithoutColon(lines[i]));
      }
      header := header[split[0] := TrimStart(split[1])];
      i := i + 1;
    }
    assert HeaderSection(lines) == lines[..i];
    return Ok(header);
  }

  /** A header line without a colon ends the header loop with that line's panic. */
  lemma SectionFailsAt(lines: seq<string>, i: nat)
    requires i < |lines| && forall j | 0 <= j <= i :: lines[j] != []
    requires Headers(lines[..i + 1]) == Err(HeaderWithoutColon(lines[i]))
    ensures Headers(HeaderSection(lines)) == Err(HeaderWithoutColon(lines[i]))
  {
    var m := |HeaderSection(lines)|;
    assert lines[..|lines|] == lines;
    assert m >= i + 1;
    HeadersKeepFailure(lines, i + 1, m);
    assert lines[..m] == HeaderSection(lines);
  }

  /** `ParseRequest` on a text whose request line and header lines are well formed. */
  lemma ParseRequestParsed(data: string, header: Header)
    requires Lines(data) != [] && |Split(Lines(data)[0], ' ')| >= 3
    requires Headers(HeaderSection(Lines(data)[1..])) == Ok(header)
    ensures
      var info := Split(Lines(data)[0], ' ');
      ParseRequest(data) == Ok(HttpRequest(
        info[1],
        VersionFromStr(info[2]).GetOr(Http1_1),
        MethodFromStr(info[0]).GetOr(Get),
        header,
        BodyText(Lines(data)[1..])))
  {
  }

  /**
    The fields taken from the request line `m u v tail`, where `m`, `u` and `v`
    hold no space and `tail` is empty or starts with a space: the url is `u`,
    the method and the version are read from `m` and `v` (falling back to `Get`
    and `Http1_1`), and anything after the third token is ignored. The parse
    succeeds exactly when the header lines do.
   */
  lemma RequestLineFields(data: string, m: string, u: string, v: string, tail: string)
    requires Lines(data) != [] && Lines(data)[0] == m + " " + u + " " + v + tail
    requires ' ' !in m && ' ' !in u && ' ' !in v
    requires tail == [] || tail[0] == ' '
    ensures ParseRequest(data).Ok? <==> Headers(HeaderSection(Lines(data)[1..])).Ok?
    ensures ParseRequest(data).Ok? ==>
      var req := ParseRequest(data).value;
      && req.url == u
      && req.requestMethod == MethodFromStr(m).GetOr(Get)
      && req.version == VersionFromStr(v).GetOr(Http1_1)
      && req.header == Headers(HeaderSection(Lines(data)[1..])).value
      && req.contents == BodyText(Lines(data)[1..])
  {
    var rest := Lines(data)[1..];
    RequestLineTokens(Lines(data)[0], m, u, v, tail);
    match Headers(HeaderSection(rest)) {
      case Ok(h) =>
        ParseRequestParsed(data, h);
      case Err(e) =>
        assert ParseRequest(data) == Err(e);
    }
  }

  lemma RequestLineTokens(line: string, m: string, u: string, v: string, tail: string)
    requires line == m + " " + u + " " + v + tail
    requires ' ' !in m && ' ' !in u && ' ' !in v
    requires tail == [] || tail[0] == ' '
    ensures |Split(line, ' ')| >= 3
    ensures Split(line, ' ')[0] == m && Split(line, ' ')[1] == u && Split(line, ' ')[2] == v
  {
    SplitFirstThree(m, u, v, tail, ' ');
  }

  /** Once a prefix of the header lines fails, every longer prefix fails the same way. */
  lemma {:induction false} HeadersKeepFailure(ls: seq<string>, n: nat, m: nat)
    requires n <= m <= |ls|
    requires Headers(ls[..n]).Err?
    ensures Headers(ls[..m]) == Headers(ls[..n])
    decreases m
  {
    if m > n {
      HeadersKeepFailure(ls, n, m - 1);
      HeadersStep(ls, m - 1);
      InsertLineKeepsFailure(Headers(ls[..m - 1]), ls[m - 1]);
    }
  }

  // ---------------------------------------------------------------------------
  // Properties of the parser
  // ---------------------------------------------------------------------------

  /**
    The header fold fails exactly when some line has no colon, and then with
    the first such line.
   */
  lemma {:induction false} HeadersFailure(ls: seq<string>)
    ensures Headers(ls).Err? <==> exists j | 0 <= j < |ls| :: ':' !in ls[j]
    ensures Headers(ls).Err? ==>
      exists j | 0 <= j < |ls| ::
        && ':' !in ls[j]
        && Headers(ls).error == HeaderWithoutColon(ls[j])
        && forall i | 0 <= i < j :: ':' in ls[i]
    decreases |ls|
  {
    if ls != [] {
      var n := |ls| - 1;
      var p := ls[..n];
      HeadersFailure(p);
      SplitSeveral(ls[n], ':');
      assert forall j | 0 <= j < n :: p[j] == ls[j];
    }
  }

  /** The name and value of each header line. */
  function LineEntries(ls: seq<string>): (es: seq<(string, string)>)
    requires forall j | 0 <= j < |ls| :: |Split(ls[j], ':')| >= 2
    ensures |es| == |ls|
  {
    seq(|ls|, j requires 0 <= j < |ls| => (HeaderKey(ls[j]), HeaderValue(ls[j])))
  }

  /**
    On success every header line has a colon, and the map is the one that
    inserting the lines' names and values in order builds.
   */
  lemma {:induction false} HeadersInsertInOrder(ls: seq<string>)
    requires Headers(ls).Ok?
    ensures forall j | 0 <= j < |ls| :: |Split(ls[j], ':')| >= 2
    ensures Headers(ls).value == HeaderMapOf(LineEntries(ls))
    decreases |ls|
  {
    if ls != [] {
      var n := |ls| - 1;
      var p := ls[..n];
      assert Headers(p).Ok?;
      HeadersInsertInOrder(p);
      InsertInOrderStep(ls, p);
    }
  }

  lemma InsertInOrderStep(ls: seq<string>, p: seq<string>)
    requires ls != [] && p == ls[..|ls| - 1]
    requires Headers(ls).Ok?
    requires forall j | 0 <= j < |p| :: |Split(p[j], ':')| >= 2
    requires Headers(p).Ok? && Headers(p).value == HeaderMapOf(LineEntries(p))
    ensures forall j | 0 <= j < |ls| :: |Split(ls[j], ':')| >= 2
    ensures Headers(ls).value == HeaderMapOf(LineEntries(ls))
  {
    var last := ls[|p|];
    var before := Headers(p).value;
    assert Headers(ls) == InsertLine(Headers(p), last);
    InsertLineOk(before, last, Headers(ls));
    ColonsSnoc(ls, p);
    EntriesSnoc(ls, p, LineEntries(ls));
  }

  lemma InsertLineOk(h: Header, line: string, r: Result<Header, Panic>)
    requires r == InsertLine(Ok(h), line) && r.Ok?
    ensures |Split(line, ':')| >= 2
    ensures r.value == h[HeaderKey(line) := HeaderValue(line)]
  {
  }

  lemma ColonsSnoc(ls: seq<string>, p: seq<string>)
    requires ls != [] && p == ls[..|ls| - 1]
    requires forall j | 0 <= j < |p| :: |Split(p[j], ':')| >= 2
    requires |Split(ls[|ls| - 1], ':')| >= 2
    ensures forall j | 0 <= j < |ls| :: |Split(ls[j], ':')| >= 2
  {
    forall j | 0 <= j < |ls|
      ensures |Split(ls[j], ':')| >= 2
    {
      if j < |p| { assert ls[j] == p[j]; }
    }
  }

  lemma EntriesSnoc(ls: seq<string>, p: seq<string>, es: seq<(string, string)>)
    requires ls != [] && p == ls[..|ls| - 1]
    requires forall j | 0 <= j < |ls| :: |Split(ls[j], ':')| >= 2
    requires es == LineEntries(ls)
    ensures HeaderMapOf(es) == HeaderMapOf(LineEntries(p))[HeaderKey(ls[|p|]) := HeaderValue(ls[|p|])]
  {
    var n := |p|;
    var ps := LineEntries(p);
    forall k | 0 <= k < n
      ensures es[k] == ps[k]
    {
      assert ls[k] == p[k];
    }
    assert es[..n] == ps;
    assert es[n] == (HeaderKey(ls[n]), HeaderValue(ls[n]));
  }

  /**
    Inserting pairs in order: the names in the map are exactly the pairs'
    names, and each name holds the value of its last pair, so a later duplicate
    overwrites an earlier one.
   */
  lemma HeaderMapLastWins(hs: seq<(string, string)>)
    ensures HeaderMapOf(hs).Keys == set j | 0 <= j < |hs| :: hs[j].0
    ensures forall j | 0 <= j < |hs| && (forall i | j < i < |hs| :: hs[i].0 != hs[j].0) ::
      HeaderMapOf(hs)[hs[j].0] == hs[j].1
  {
    HeaderMapKeys(hs);
    forall j | 0 <= j < |hs| && (forall i | j < i < |hs| :: hs[i].0 != hs[j].0)
      ensures HeaderMapOf(hs)[hs[j].0] == hs[j].1
    {
      HeaderMapValue(hs, j);
    }
  }

  lemma {:induction false} HeaderMapKeys(hs: seq<(string, string)>)
    ensures HeaderMapOf(hs).Keys == set j | 0 <= j < |hs| :: hs[j].0
    decreases |hs|
  {
    if hs != [] {
      var n := |hs| - 1;
      var p := hs[..n];
      HeaderMapKeys(p);
      assert forall j | 0 <= j < n :: p[j] == hs[j];
      assert (set j | 0 <= j < |hs| :: hs[j].0) == (set j | 0 <= j < n :: p[j].0) + {hs[n].0};
    }
  }

  lemma {:induction false} HeaderMapValue(hs: seq<(string, string)>, j: nat)
    requires j < |hs| && forall i | j < i < |hs| :: hs[i].0 != hs[j].0
    ensures hs[j].0 in HeaderMapOf(hs) && HeaderMapOf(hs)[hs[j].0] == hs[j].1
    decreases |hs|
  {
    var n := |hs| - 1;
    if j < n {
      var p := hs[..n];
      assert p[j] == hs[j];
      assert forall i | j < i < |p| :: p[i] == hs[i];
      HeaderMapValue(p, j);
    }
  }

  /**
    A header line `name:value...` where neither part has a colon and the rest
    is empty or starts with a colon: the name is `name` verbatim and the value is
    `value` without its leading whitespace; anything after a second colon is
    dropped.
   */
  lemma HeaderLineFields(name: string, value: string, tail: string)
    requires ':' !in name && ':' !in value
    requires tail == [] || tail[0] == ':'
    ensures |Split(name + [':'] + value + tail, ':')| >= 2
    ensures HeaderKey(name + [':'] + value + tail) == name
    ensures HeaderValue(name + [':'] + value + tail) == TrimStart(value)
  {
    SplitFirstTwo(name, value, tail, ':');
  }

  /**
    A value is cut at its first colon: `name: value:more` reads as `name` with
    the value `value`, so a port after a host (`Host: a:80`) is lost.
   */
  lemma ValueStopsAtColon(name: string, value: string, more: string)
    requires ':' !in name && ':' !in value
    requires value == [] || !IsWhitespace(value[0])
    ensures |Split(HeaderLineText(name, value + ":" + more), ':')| >= 2
    ensures HeaderKey(HeaderLineText(name, value + ":" + more)) == name
    ensures HeaderValue(HeaderLineText(name, value + ":" + more)) == value
  {
    var line := HeaderLineText(name, value + ":" + more);
    assert line == name + [':'] + (" " + value) + (":" + more);
    HeaderLineFields(name, " " + value, ":" + more);
    TrimOneSpace(value);
  }

  /**
    Exactly when the parser panics: the text has no line, or its first line has
    fewer than three space-separated tokens, or a header line (a line between
    the request line and the first empty line) has no colon.
   */
  lemma ParsePanics(data: string)
    ensures ParseRequest(data).Err? <==>
      || Lines(data) == []
      || |Split(Lines(data)[0], ' ')| < 3
      || exists j | 0 <= j < |HeaderSection(Lines(data)[1..])| :: ':' !in HeaderSection(Lines(data)[1..])[j]
  {
    if Lines(data) != [] {
      HeadersFailure(HeaderSection(Lines(data)[1..]));
    }
  }

  /**
    The body: empty when no empty line follows the request line, otherwise the
    lines after the first empty line joined with line feeds; `body` returns it
    as text.
   */
  lemma ParsedBody(data: string)
    requires ParseRequest(data).Ok?
    ensures var req := ParseRequest(data).value;
      && Lines(data) != []
      && (FirstEmpty(Lines(data)[1..]).None? ==> req.contents == [])
      && (FirstEmpty(Lines(data)[1..]).Some? ==>
            var i := FirstEmpty(Lines(data)[1..]).value;
            req.contents == JoinWith(Lines(data)[i + 2..], '\n'))
      && req.Body() == Ok(req.contents)
  {
    var rest := Lines(data)[1..];
    if FirstEmpty(rest).Some? {
      var i := FirstEmpty(rest).value;
      assert rest[i + 1..] == Lines(data)[i + 2..];
    }
  }

  // ---------------------------------------------------------------------------
  // Parsing well-formed request text
  // ---------------------------------------------------------------------------

  function HeaderLines(hs: seq<(string, string)>): seq<string>
  {
    seq(|hs|, i requires 0 <= i < |hs| => HeaderLineText(hs[i].0, hs[i].1))
  }

  /** The map that inserting the pairs `hs` in order builds: the last pair for a name wins. */
  function HeaderMapOf(hs: seq<(string, string)>): Header
  {
    if hs == [] then map[] else HeaderMapOf(hs[..|hs| - 1])[hs[|hs| - 1].0 := hs[|hs| - 1].1]
  }

  /** A request-line token: no space, no line break. */
  predicate CleanToken(t: string)
  {
    CleanLine(t) && ' ' !in t
  }

  /** A name and value that `name: value` carries unchanged through the header parser. */
  predicate CleanHeader(name: string, value: string)
  {
    && ':' !in name && '\n' !in name
    && ':' !in value && CleanLine(value)
    && (value == [] || !IsWhitespace(value[0]))
  }

  /** Body text that `lines` followed by `join("\n")` reproduces: no carriage return, no final line feed. */
  predicate CleanBody(body: string)
  {
    '\r' !in body && (body == [] || body[|body| - 1] != '\n')
  }

  lemma HeaderLineReads(name: string, value: string)
    requires CleanHeader(name, value)
    ensures CleanLine(HeaderLineText(name, value)) && HeaderLineText(name, value) != []
    ensures |Split(HeaderLineText(name, value), ':')| >= 2
    ensures HeaderKey(HeaderLineText(name, value)) == name
    ensures HeaderValue(HeaderLineText(name, value)) == value
  {
    HeaderLineTextClean(name, value);
    var line := HeaderLineText(name, value);
    assert line == name + [':'] + (" " + value) + [];
    HeaderLineFields(name, " " + value, []);
    TrimOneSpace(value);
  }

  /** The header lines of clean pairs parse to the map that inserting the pairs builds. */
  lemma {:induction false} HeadersOfHeaderLines(hs: seq<(string, string)>)
    requires forall k | 0 <= k < |hs| :: CleanHeader(hs[k].0, hs[k].1)
    ensures Headers(HeaderLines(hs)) == Ok(HeaderMapOf(hs))
    decreases |hs|
  {
    if hs != [] {
      var n := |hs| - 1;
      assert HeaderLines(hs)[..n] == HeaderLines(hs[..n]);
      HeadersOfHeaderLines(hs[..n]);
      HeaderLineReads(hs[n].0, hs[n].1);
    }
  }

  /** The lines of a request: the request line from `tokens`, then one line per header pair. */
  function RequestHead(tokens: seq<string>, hs: seq<(string, string)>): seq<string>
  {
    [JoinWith(tokens, ' ')] + HeaderLines(hs)
  }

  predicate CleanRequest(tokens: seq<string>, hs: seq<(string, string)>)
  {
    && |tokens| >= 3
    && (forall k | 0 <= k < |tokens| :: CleanToken(tokens[k]))
    && (forall k | 0 <= k < |hs| :: CleanHeader(hs[k].0, hs[k].1))
  }

  lemma RequestHeadClean(tokens: seq<string>, hs: seq<(string, string)>)
    requires CleanRequest(tokens, hs)
    ensures forall k | 0 <= k < |RequestHead(tokens, hs)| :: CleanLine(RequestHead(tokens, hs)[k])
    ensures Split(RequestHead(tokens, hs)[0], ' ') == tokens
    ensures forall k | 0 <= k < |hs| :: HeaderLines(hs)[k] != []
  {
    RequestLineClean(tokens);
    HeaderLinesClean(hs);
    var head := RequestHead(tokens, hs);
    forall k | 0 <= k < |head| ensures CleanLine(head[k]) {
      if k > 0 {
        assert head[k] == HeaderLines(hs)[k - 1];
      }
    }
  }

  lemma RequestLineClean(tokens: seq<string>)
    requires |tokens| >= 1 && forall k | 0 <= k < |tokens| :: CleanToken(tokens[k])
    ensures Split(JoinWith(tokens, ' '), ' ') == tokens && CleanLine(JoinWith(tokens, ' '))
  {
    SplitJoin(tokens, ' ');
    JoinClean(tokens, ' ');
  }

  lemma HeaderLinesClean(hs: seq<(string, string)>)
    requires forall k | 0 <= k < |hs| :: CleanHeader(hs[k].0, hs[k].1)
    ensures forall k | 0 <= k < |hs| :: CleanLine(HeaderLines(hs)[k]) && HeaderLines(hs)[k] != []
  {
    forall k | 0 <= k < |hs| ensures CleanLine(HeaderLines(hs)[k]) && HeaderLines(hs)[k] != [] {
      HeaderLineTextClean(hs[k].0, hs[k].1);
    }
  }

  /** Joining clean lines with a separator other than a line break gives a clean line. */
  lemma {:induction false} JoinClean(ls: seq<string>, sep: char)
    requires |ls| >= 1 && sep != '\n' && sep != '\r'
    requires forall k | 0 <= k < |ls| :: CleanLine(ls[k])
    ensures CleanLine(JoinWith(ls, sep))
  {
    if |ls| > 1 {
      JoinClean(ls[1..], sep);
      var rest := JoinWith(ls[1..], sep);
      assert JoinWith(ls, sep) == ls[0] + [sep] + rest;
    }
  }

  /** The parse of a text whose lines are a clean request head, an empty line and the lines of `body`. */
  lemma ParseOfLines(data: string, tokens: seq<string>, hs: seq<(string, string)>, bodyLines: seq<string>, body: string)
    requires CleanRequest(tokens, hs)
    requires Lines(data) == RequestHead(tokens, hs) + [[]] + bodyLines
    requires JoinWith(bodyLines, '\n') == body
    ensures ParseRequest(data) == Ok(HttpRequest(
      tokens[1],
      VersionFromStr(tokens[2]).GetOr(Http1_1),
      MethodFromStr(tokens[0]).GetOr(Get),
      HeaderMapOf(hs),
      body))
  {
    RequestHeadClean(tokens, hs);
    var ls := Lines(data);
    MessageSections(ls, JoinWith(tokens, ' '), HeaderLines(hs), bodyLines);
    HeadersOfHeaderLines(hs);
    ParseRequestParsed(data, HeaderMapOf(hs));
  }

  /** The sections of a message whose lines are `first`, the header lines `xs`, an empty line and `rest`. */
  lemma MessageSections(ls: seq<string>, first: string, xs: seq<string>, rest: seq<string>)
    requires ls == [first] + xs + [[]] + rest
    requires forall k | 0 <= k < |xs| :: xs[k] != []
    ensures |ls| >= 1 && ls[0] == first
    ensures HeaderSection(ls[1..]) == xs && BodyText(ls[1..]) == JoinWith(rest, '\n')
  {
    assert ls[1..] == xs + [[]] + rest;
    Sections(xs, rest);
  }

  lemma Sections(xs: seq<string>, ys: seq<string>)
    requires forall k | 0 <= k < |xs| :: xs[k] != []
    ensures HeaderSection(xs + [[]] + ys) == xs
    ensures BodyText(xs + [[]] + ys) == JoinWith(ys, '\n')
  {
    var ls := xs + [[]] + ys;
    FirstEmptyAt(ls, |xs|);
    assert ls[..|xs|] == xs;
    assert ls[|xs| + 1..] == ys;
  }

  /** Any empty line with no empty line before it is the first empty line. */
  lemma {:induction false} FirstEmptyAt(ls: seq<string>, i: nat)
    requires i < |ls| && ls[i] == [] && forall j | 0 <= j < i :: ls[j] != []
    ensures FirstEmpty(ls) == Some(i)
  {
    if i > 0 {
      FirstEmptyAt(ls[1..], i - 1);
    }
  }

  /**
    Parsing a well-formed request with a body: a request line of at least three
    clean tokens, clean header lines, an empty line, then the body. The url is
    the second token verbatim, the method and version come from the first and
    third tokens with their fallbacks, later tokens are ignored, the headers are
    the pairs inserted in order, and the body comes back exactly.
   */
  lemma ParseRequestWithBody(data: string, tokens: seq<string>, hs: seq<(string, string)>, body: string)
    requires CleanRequest(tokens, hs)
    requires CleanBody(body)
    requires data == Terminated(RequestHead(tokens, hs) + [[]]) + body
    ensures ParseRequest(data) == Ok(HttpRequest(
      tokens[1],
      VersionFromStr(tokens[2]).GetOr(Http1_1),
      MethodFromStr(tokens[0]).GetOr(Get),
      HeaderMapOf(hs),
      body))
  {
    var head := RequestHead(tokens, hs) + [[]];
    RequestHeadClean(tokens, hs);
    assert forall k | 0 <= k < |head| :: CleanLine(head[k]);
    LinesOfTerminated(head, body);
    JoinLines(body);
    ParseOfLines(data, tokens, hs, Lines(body), body);
  }

  /**
    `lines` also ends a line at `\r\n`, and a final line terminator adds no
    line: a request whose lines all end in `\r\n`, with a line feed after the
    body, parses as the same request, and the body loses that final line feed.
   */
  lemma ParseRequestCrlf(data: string, tokens: seq<string>, hs: seq<(string, string)>, body: string)
    requires CleanRequest(tokens, hs)
    requires CleanBody(body)
    requires data == CrlfTerminated(RequestHead(tokens, hs) + [[]]) + body + "\n"
    ensures ParseRequest(data) == Ok(HttpRequest(
      tokens[1],
      VersionFromStr(tokens[2]).GetOr(Http1_1),
      MethodFromStr(tokens[0]).GetOr(Get),
      HeaderMapOf(hs),
      body))
    ensures ParseRequest(data) == ParseRequest(Terminated(RequestHead(tokens, hs) + [[]]) + body)
  {
    var head := RequestHead(tokens, hs) + [[]];
    RequestHeadClean(tokens, hs);
    assert forall k | 0 <= k < |head| :: CleanLine(head[k]);
    assert data == CrlfTerminated(head) + (body + "\n");
    LinesOfCrlfTerminated(head, body + "\n");
    JoinLinesFinalFeed(body);
    ParseOfLines(data, tokens, hs, Lines(body + "\n"), body);
    ParseRequestWithBody(Terminated(head) + body, tokens, hs, body);
  }

  /**
    Parsing a well-formed request without an empty line, with or without a
    final line feed: the same fields, and an empty body.
   */
  lemma ParseRequestWithoutBody(data: string, tokens: seq<string>, hs: seq<(string, string)>, finalNewline: bool)
    requires CleanRequest(tokens, hs)
    requires data == JoinWith(RequestHead(tokens, hs), '\n') + (if finalNewline then "\n" else [])
    ensures ParseRequest(data) == Ok(HttpRequest(
        tokens[1],
        VersionFromStr(tokens[2]).GetOr(Http1_1),
        MethodFromStr(tokens[0]).GetOr(Get),
        HeaderMapOf(hs),
        []))
  {
    var head := RequestHead(tokens, hs);
    RequestHeadClean(tokens, hs);
    LinesOfJoin(head, finalNewline);
    var rest := Lines(data)[1..];
    assert rest == HeaderLines(hs);
    assert FirstEmpty(rest).None?;
    HeadersOfHeaderLines(hs);
  }

  /**
    The lines of clean lines joined with line feeds, with or without a final
    line feed, when the last line is not empty.
   */
  lemma LinesOfJoin(ls: seq<string>, finalNewline: bool)
    requires |ls| >= 1 && ls[|ls| - 1] != []
    requires forall k | 0 <= k < |ls| :: CleanLine(ls[k])
    ensures Lines(JoinWith(ls, '\n') + (if finalNewline then "\n" else [])) == ls
  {
    if finalNewline {
      LinesOfJoinNewline(ls);
    } else {
      LinesOfJoinBare(ls);
      assert JoinWith(ls, '\n') + [] == JoinWith(ls, '\n');
    }
  }

  lemma LinesOfJoinNewline(ls: seq<string>)
    requires |ls| >= 1
    requires forall k | 0 <= k < |ls| :: CleanLine(ls[k])
    ensures Lines(JoinWith(ls, '\n') + "\n") == ls
  {
    JoinThenNewline(ls);
    LinesOfTerminatedOnly(ls);
  }

  lemma LinesOfJoinBare(ls: seq<string>)
    requires |ls| >= 1 && ls[|ls| - 1] != []
    requires forall k | 0 <= k < |ls| :: CleanLine(ls[k])
    ensures Lines(JoinWith(ls, '\n')) == ls
  {
    JoinAsTerminated(ls);
    LinesOfTerminatedThenLine(JoinWith(ls, '\n'), ls);
  }

  // ---------------------------------------------------------------------------
  // Scenarios
  //
  // Each scenario text is built from its request line and header lines by
  // small lemmas (`ExampleRequestLine`, `NoBodyPairs`, `NoBodyText`, ...), and
  // joins are taken a piece at a time: comparing a long concatenation with a
  // long literal in one step is slow for the verifier.
  // ---------------------------------------------------------------------------

  /** The request line "GET / HTTP/1.1". */
  lemma ExampleRequestLine()
    ensures JoinWith(["GET", "/", "HTTP/1.1"], ' ') == "GET / HTTP/1.1"
    ensures forall k | 0 <= k < 3 :: CleanToken(["GET", "/", "HTTP/1.1"][k])
  {
  }

  lemma NoBodyPairs()
    ensures CleanRequest(["GET", "/", "HTTP/1.1"], [("Host", "example.com")])
    ensures RequestHead(["GET", "/", "HTTP/1.1"], [("Host", "example.com")])
      == ["GET / HTTP/1.1", "Host: example.com"]
    ensures HeaderMapOf([("Host", "example.com")]) == map["Host" := "example.com"]
  {
    ExampleRequestLine();
    assert CleanHeader("Host", "example.com");
    assert HeaderLineText("Host", "example.com") == "Host: example.com";
    SinglePair("Host", "example.com");
  }

  lemma SinglePair(name: string, value: string)
    ensures HeaderLines([(name, value)]) == [HeaderLineText(name, value)]
    ensures HeaderMapOf([(name, value)]) == map[name := value]
  {
    assert [(name, value)][..0] == [];
  }

  lemma NoBodyText()
    ensures JoinWith(["GET / HTTP/1.1", "Host: example.com"], '\n') == "GET / HTTP/1.1\nHost: example.com"
  {
    JoinTwo("GET / HTTP/1.1", "Host: example.com", '\n');
  }

  /** A request without an empty line has no body. */
  lemma NoBodyRequest(data: string)
    requires data == "GET / HTTP/1.1\nHost: example.com"
    ensures ParseRequest(data) == Ok(HttpRequest("/", Http1_1, Get, map["Host" := "example.com"], []))
  {
    var tokens, hs := ["GET", "/", "HTTP/1.1"], [("Host", "example.com")];
    NoBodyPairs();
    NoBodyText();
    MethodAnyCase("GET", Get);
    VersionRoundTrip(Http1_1);
    assert MethodFromStr(tokens[0]) == Ok(Get) && VersionFromStr(tokens[2]) == Ok(Http1_1);
    assert data == JoinWith(RequestHead(tokens, hs), '\n') + [];
    ParseRequestWithoutBody(data, tokens, hs, false);
  }

  /** The header pairs of `RepeatedHeaderWithBody`: the same name twice. */
  lemma RepeatedHeaderPairs()
    ensures CleanRequest(["GET", "/", "HTTP/1.1"], [("Host", "a"), ("Host", "b")])
    ensures RequestHead(["GET", "/", "HTTP/1.1"], [("Host", "a"), ("Host", "b")]) + [[]]
      == ["GET / HTTP/1.1", "Host: a", "Host: b", []]
    ensures HeaderMapOf([("Host", "a"), ("Host", "b")]) == map["Host" := "b"]
  {
    var hs := [("Host", "a"), ("Host", "b")];
    ExampleRequestLine();
    assert CleanHeader(hs[0].0, hs[0].1) && CleanHeader(hs[1].0, hs[1].1);
    assert HeaderLines(hs)[0] == "Host: a" && HeaderLines(hs)[1] == "Host: b";
  }

  lemma RepeatedHeaderText()
    ensures Terminated(["GET / HTTP/1.1", "Host: a", "Host: b", []]) + "Hi"
      == "GET / HTTP/1.1\nHost: a\nHost: b\n\nHi"
  {
    assert Terminated(["GET / HTTP/1.1", "Host: a", "Host: b", []]) == "GET / HTTP/1.1\nHost: a\nHost: b\n\n";
  }

  /**
    A request with a repeated header and a body: the later value for the name
    wins, and the body is the text after the empty line.
   */
  lemma RepeatedHeaderWithBody(data: string)
    requires data == "GET / HTTP/1.1\nHost: a\nHost: b\n\nHi"
    ensures ParseRequest(data) == Ok(HttpRequest("/", Http1_1, Get, map["Host" := "b"], "Hi"))
  {
    var tokens, hs := ["GET", "/", "HTTP/1.1"], [("Host", "a"), ("Host", "b")];
    RepeatedHeaderPairs();
    RepeatedHeaderText();
    assert CleanBody("Hi");
    MethodAnyCase("GET", Get);
    VersionRoundTrip(Http1_1);
    assert MethodFromStr(tokens[0]) == Ok(Get) && VersionFromStr(tokens[2]) == Ok(Http1_1);
    assert data == Terminated(RequestHead(tokens, hs) + [[]]) + "Hi";
    ParseRequestWithBody(data, tokens, hs, "Hi");
  }

  lemma DoubleSpaceTokens()
    ensures CleanRequest(["GET", "", "/", "HTTP/2"], [])
    ensures JoinWith(RequestHead(["GET", "", "/", "HTTP/2"], []), '\n') == "GET  / HTTP/2"
  {
    var tokens := ["GET", "", "/", "HTTP/2"];
    assert JoinWith(tokens[3..], ' ') == "HTTP/2";
    assert JoinWith(tokens[2..], ' ') == "/ HTTP/2";
    assert JoinWith(tokens[1..], ' ') == " / HTTP/2";
    assert JoinWith(tokens, ' ') == "GET  / HTTP/2";
    assert RequestHead(tokens, []) == ["GET  / HTTP/2"];
  }

  /**
    Two spaces after the method: the url is the empty token between them, and
    "/" in the version position falls back to `Http1_1`.
   */
  lemma DoubleSpaceRequestLine(data: string)
    requires data == "GET  / HTTP/2"
    ensures ParseRequest(data) == Ok(HttpRequest([], Http1_1, Get, map[], []))
  {
    var tokens := ["GET", "", "/", "HTTP/2"];
    DoubleSpaceTokens();
    MethodAnyCase("GET", Get);
    assert MethodFromStr(tokens[0]) == Ok(Get) && VersionFromStr(tokens[2]) == Err(HttpVersionError);
    assert data == JoinWith(RequestHead(tokens, []), '\n') + [];
    ParseRequestWithoutBody(data, tokens, [], false);
  }

  lemma UnknownMethodTokens()
    ensures CleanRequest(["FETCH", "/x", "HTTP/3"], [])
    ensures RequestHead(["FETCH", "/x", "HTTP/3"], []) == ["FETCH /x HTTP/3"]
  {
    var tokens := ["FETCH", "/x", "HTTP/3"];
    JoinThree("FETCH", "/x", "HTTP/3", ' ');
    assert "FETCH" + [' '] + "/x" + [' '] + "HTTP/3" == "FETCH /x HTTP/3";
    assert HeaderLines([]) == [];
    assert RequestHead(tokens, []) == [JoinWith(tokens, ' ')] + [];
  }

  /** An unknown method falls back to `Get`; a known version is kept. */
  lemma UnknownMethodRequest(data: string)
    requires data == "FETCH /x HTTP/3\n"
    ensures ParseRequest(data) == Ok(HttpRequest("/x", Http3, Get, map[], []))
  {
    var tokens := ["FETCH", "/x", "HTTP/3"];
    UnknownMethodTokens();
    MethodRejections();
    VersionRoundTrip(Http3);
    assert MethodFromStr(tokens[0]) == Err(HttpMethodError) && VersionFromStr(tokens[2]) == Ok(Http3);
    assert JoinWith(["FETCH /x HTTP/3"], '\n') + "\n" == data;
    assert data == JoinWith(RequestHead(tokens, []), '\n') + "\n";
    ParseRequestWithoutBody(data, tokens, [], true);
  }
}
