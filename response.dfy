/**
  The response side of the codec: the response record, the builder that
  assembles one field by field, and the serialiser (`Display for Response`)
  that writes a response as wire text.

  A Rust `HashMap` is iterated in an unspecified order, so the serialiser is
  given that order as a parameter: any sequence that lists every header name
  exactly once (`IsEnumeration`). Every property of the output below holds
  for each such order.
 */
module Responses {
  import opened Wrappers
  import opened Text
  import opened Types

  /** Rust's `u16`. */
  type u16 = x: int | 0 <= x < 0x1_0000

  /** A response: version, status code and reason phrase, headers, body text. */
  datatype Response = Response(
    version: HttpVersion,
    statusCode: u16,
    statusReason: string,
    header: Header,
    body: string)

  /** `Response::new`: the response with exactly the given fields. */
  function NewResponse(version: HttpVersion, statusCode: u16, statusReason: string, header: Header, body: string): (r: Response)
    ensures r.version == version && r.statusCode == statusCode && r.statusReason == statusReason
    ensures r.header == header && r.body == body
  {
    Response(version, statusCode, statusReason, header, body)
  }

  // ---------------------------------------------------------------------------
  // Status codes (the `http` crate's `StatusCode`)
  // ---------------------------------------------------------------------------

  /** `StatusCode::from_u16` succeeds exactly on the three-digit codes. */
  predicate ValidStatus(code: u16)
  {
    100 <= code < 1000
  }

  /** The message `status` fails with. */
  const InvalidStatusMessage: string := "Invalid HTTP status code"

  /**
    `StatusCode::canonical_reason`: the reason phrase of a registered code.
    Only valid codes have one, and every phrase is non-empty. The table is
    kept per class of codes.
   */
  function CanonicalReason(code: u16): (r: Option<string>)
    ensures r.Some? ==> ValidStatus(code) && r.value != []
  {
    if code < 200 then InformationalReason(code)
    else if code < 300 then SuccessReason(code)
    else if code < 400 then RedirectionReason(code)
    else if code < 500 then ClientErrorReason(code)
    else ServerErrorReason(code)
  }

  /** The registered reasons of class 1xx: informational. */
  function InformationalReason(code: u16): (r: Option<string>)
    ensures r.Some? ==> 100 <= code < 200 && r.value != []
  {
    match code
    case 100 => Some("Continue")
    case 101 => Some("Switching Protocols")
    case 102 => Some("Processing")
    case _ => None
  }

  /** The registered reasons of class 2xx: success. */
  function SuccessReason(code: u16): (r: Option<string>)
    ensures r.Some? ==> 200 <= code < 300 && r.value != []
  {
    match code
    case 200 => Some("OK")
    case 201 => Some("Created")
    case 202 => Some("Accepted")
    case 203 => Some("Non Authoritative Information")
    case 204 => Some("No Content")
    case 205 => Some("Reset Content")
    case 206 => Some("Partial Content")
    case 207 => Some("Multi-Status")
    case 208 => Some("Already Reported")
    case 226 => Some("IM Used")
    case _ => None
  }

  /** The registered reasons of class 3xx: redirection. */
  function RedirectionReason(code: u16): (r: Option<string>)
    ensures r.Some? ==> 300 <= code < 400 && r.value != []
  {
    match code
    case 300 => Some("Multiple Choices")
    case 301 => Some("Moved Permanently")
    case 302 => Some("Found")
    case 303 => Some("See Other")
    case 304 => Some("Not Modified")
    case 305 => Some("Use Proxy")
    case 307 => Some("Temporary Redirect")
    case 308 => Some("Permanent Redirect")
    case _ => None
  }

  /** The registered reasons of class 4xx: client error. */
  function ClientErrorReason(code: u16): (r: Option<string>)
    ensures r.Some? ==> 400 <= code < 500 && r.value != []
  {
    match code
    case 400 => Some("Bad Request")
    case 401 => Some("Unauthorized")
    case 402 => Some("Payment Required")
    case 403 => Some("Forbidden")
    case 404 => Some("Not Found")
    case 405 => Some("Method Not Allowed")
    case 406 => Some("Not Acceptable")
    case 407 => Some("Proxy Authentication Required")
    case 408 => Some("Request Timeout")
    case 409 => Some("Conflict")
    case 410 => Some("Gone")
    case 411 => Some("Length Required")
    case 412 => Some("Precondition Failed")
    case 413 => Some("Payload Too Large")
    case 414 => Some("URI Too Long")
    case 415 => Some("Unsupported Media Type")
    case 416 => Some("Range Not Satisfiable")
    case 417 => Some("Expectation Failed")
    case 418 => Some("I'm a teapot")
    case 421 => Some("Misdirected Request")
    case 422 => Some("Unprocessable Entity")
    case 423 => Some("Locked")
    case 424 => Some("Failed Dependency")
    case 426 => Some("Upgrade Required")
    case 428 => Some("Precondition Required")
    case 429 => Some("Too Many Requests")
    case 431 => Some("Request Header Fields Too Large")
    case 451 => Some("Unavailable For Legal Reasons")
    case _ => None
  }

  /** The registered reasons of class 5xx: server error. */
  function ServerErrorReason(code: u16): (r: Option<string>)
    ensures r.Some? ==> 500 <= code < 600 && r.value != []
  {
    match code
    case 500 => Some("Internal Server Error")
    case 501 => Some("Not Implemented")
    case 502 => Some("Bad Gateway")
    case 503 => Some("Service Unavailable")
    case 504 => Some("Gateway Timeout")
    case 505 => Some("HTTP Version Not Supported")
    case 506 => Some("Variant Also Negotiates")
    case 507 => Some("Insufficient Storage")
    case 508 => Some("Loop Detected")
    case 510 => Some("Not Extended")
    case 511 => Some("Network Authentication Required")
    case _ => None
  }

  // ---------------------------------------------------------------------------
  // The builder
  // ---------------------------------------------------------------------------

  /**
    `ResponseBuilder`: holds the response under construction. Each step takes
    the builder, overwrites one part of the response and hands the same
    builder back, so steps chain.
   */
  class ResponseBuilder {
    var response: Response

    /** `ResponseBuilder::new`: HTTP/1.1, status 0 with an empty reason, no headers, an empty body. */
    constructor ()
      ensures response == Response(Http1_1, 0, [], map[], [])
    {
      response := Response(Http1_1, 0, [], map[], []);
    }

    /** `version`: replaces the version and nothing else. */
    method Version(version: HttpVersion) returns (self: ResponseBuilder)
      modifies this
      ensures self == this
      ensures response == old(response).(version := version)
    {
      response := response.(version := version);
      self := this;
    }

    /**
      `status`: succeeds exactly on a valid code; then sets the code and its
      canonical reason (empty when the code has none) and nothing else. An
      invalid code yields the fixed message and leaves the response as it was.
     */
    method Status(code: u16) returns (result: Result<ResponseBuilder, string>)
      modifies this
      ensures result.Ok? <==> 100 <= code <= 999
      ensures result.Ok? ==> result.value == this
      ensures result.Ok? ==>
        response == old(response).(statusCode := code, statusReason := CanonicalReason(code).GetOr([]))
      ensures result.Err? ==> result.error == InvalidStatusMessage && response == old(response)
    {
      if ValidStatus(code) {
        response := response.(statusCode := code, statusReason := CanonicalReason(code).GetOr([]));
        result := Ok(this);
      } else {
        result := Err(InvalidStatusMessage);
      }
    }

    /** `header`: replaces the whole header map and nothing else. */
    method Header(header: Header) returns (self: ResponseBuilder)
      modifies this
      ensures self == this
      ensures response == old(response).(header := header)
    {
      response := response.(header := header);
      self := this;
    }

    /** `body`: replaces the body and nothing else. */
    method Body(body: string) returns (self: ResponseBuilder)
      modifies this
      ensures self == this
      ensures response == old(response).(body := body)
    {
      response := response.(body := body);
      self := this;
    }

    /** `build`: the response as assembled so far. */
    method Build() returns (r: Response)
      ensures r == response
    {
      r := response;
    }
  }

  /**
    The builder chain of the library's test: version, status 200, one header
    and a body build the response that `Response::new` makes of the same
    fields, with the reason "OK" filled in by `status`.
   */
  method BuilderChain() returns (r: Response)
    ensures r == NewResponse(Http1_1, 200, "OK", map["Content-Type" := "*/*"], "Hello World!")
  {
    var b := new ResponseBuilder();
    b := b.Version(Http1_1);
    var status := b.Status(200);
    if status.Err? {
      assert false;
    }
    b := status.value;
    b := b.Header(map["Content-Type" := "*/*"]);
    b := b.Body("Hello World!");
    r := b.Build();
  }

  /**
    The bounds of `status`: 99 and 1000 are rejected with the fixed message,
    100 and 999 are accepted; 1001 is the documented rejected example.
   */
  method StatusBounds() returns (below: Result<ResponseBuilder, string>, above: Result<ResponseBuilder, string>,
                                 documented: Result<ResponseBuilder, string>, low: bool, high: bool)
    ensures below == Err(InvalidStatusMessage) && above == Err(InvalidStatusMessage)
    ensures documented == Err(InvalidStatusMessage)
    ensures low && high
  {
    var b := new ResponseBuilder();
    below := b.Status(99);
    above := b.Status(1000);
    documented := b.Status(1001);
    var first := b.Status(100);
    var last := b.Status(999);
    low, high := first.Ok?, last.Ok?;
  }

  /** A step taken twice keeps the second value: the first is discarded. */
  method OverwriteSteps() returns (r: Response)
    ensures r == Response(Http3, 0, [], map[], "b")
  {
    var b := new ResponseBuilder();
    b := b.Version(Http2);
    b := b.Body("a");
    b := b.Version(Http3);
    b := b.Body("b");
    r := b.Build();
  }

  // ---------------------------------------------------------------------------
  // Header iteration order
  // ---------------------------------------------------------------------------

  /** `order` lists every name of `keys` exactly once and nothing else: a possible iteration order. */
  predicate IsEnumeration(order: seq<string>, keys: set<string>)
  {
    && (forall k | 0 <= k < |order| :: order[k] in keys)
    && (forall key | key in keys :: key in order)
    && (forall i, j | 0 <= i < j < |order| :: order[i] != order[j])
  }

  lemma {:induction false} DistinctCardinality(s: seq<string>)
    requires forall i, j | 0 <= i < j < |s| :: s[i] != s[j]
    ensures |set k | 0 <= k < |s| :: s[k]| == |s|
  {
    if s != [] {
      var n := |s| - 1;
      DistinctCardinality(s[..n]);
      var front := set k | 0 <= k < n :: s[..n][k];
      assert (set k | 0 <= k < |s| :: s[k]) == front + {s[n]};
      assert s[n] !in front;
    }
  }

  /** An iteration order has as many names as the map has keys. */
  lemma EnumerationSize(order: seq<string>, keys: set<string>)
    requires IsEnumeration(order, keys)
    ensures |order| == |keys|
  {
    DistinctCardinality(order);
    assert (set k | 0 <= k < |order| :: order[k]) == keys;
  }

  /** Every key set has an iteration order. */
  lemma {:induction false} EnumerationExists(keys: set<string>)
    ensures exists order :: IsEnumeration(order, keys)
    decreases |keys|
  {
    if keys == {} {
      assert IsEnumeration([], keys);
    } else {
      var key :| key in keys;
      EnumerationExists(keys - {key});
      var order :| IsEnumeration(order, keys - {key});
      var all := order + [key];
      assert forall k | 0 <= k < |order| :: all[k] == order[k];
      assert IsEnumeration(all, keys);
    }
  }

  /** A map with one key has one iteration order. */
  lemma SingleKeyOrder(order: seq<string>, key: string)
    requires IsEnumeration(order, {key})
    ensures order == [key]
  {
    EnumerationSize(order, {key});
  }

  // ---------------------------------------------------------------------------
  // The serialiser
  // ---------------------------------------------------------------------------

  /** The status line without its line feed: version token, code and reason, separated by spaces. */
  function StatusText(r: Response): string
  {
    VersionToString(r.version) + " " + DecimalString(r.statusCode) + " " + r.statusReason
  }

  /** The header lines without their line feeds, one per name of `order`, in that order. */
  function EntryLines(order: seq<string>, header: Header): (ls: seq<string>)
    requires forall k | 0 <= k < |order| :: order[k] in header
  {
    seq(|order|, k requires 0 <= k < |order| => HeaderLineText(order[k], header[order[k]]))
  }

  /**
    What `Display for Response` writes when the map yields its names in
    `order`: the status line, one line per header, an empty line, and the body
    with no line feed after it.
   */
  function Serialized(r: Response, order: seq<string>): string
    requires IsEnumeration(order, r.header.Keys)
  {
    StatusText(r) + "\n" + Terminated(EntryLines(order, r.header)) + "\n" + r.body
  }

  /** `fmt`: writes the status line, then each header entry in turn, then the separator and the body. */
  method Format(r: Response, order: seq<string>) returns (s: string)
    requires IsEnumeration(order, r.header.Keys)
    ensures s == Serialized(r, order)
  {
    ghost var lines := EntryLines(order, r.header);
    s := StatusText(r) + "\n";
    ghost var head := s;
    var i := 0;
    while i < |order|
      invariant 0 <= i <= |order|
      invariant s == head + Terminated(lines[..i])
    {
      var key := order[i];
      AppendLine(s, head, lines, i);
      s := s + HeaderLineText(key, r.header[key]) + "\n";
      i := i + 1;
    }
    assert lines[..i] == lines;
    s := s + "\n" + r.body;
  }

  lemma AppendLine(s: string, head: string, lines: seq<string>, i: nat)
    requires i < |lines| && s == head + Terminated(lines[..i])
    ensures s + lines[i] + "\n" == head + Terminated(lines[..i + 1])
  {
    TerminatedSnocLine(lines[..i], lines[i]);
    assert lines[..i] + [lines[i]] == lines[..i + 1];
  }

  lemma TerminatedSnocLine(ls: seq<string>, l: string)
    ensures Terminated(ls + [l]) == Terminated(ls) + l + "\n"
  {
    TerminatedSnoc(ls + [l]);
    assert (ls + [l])[..|ls|] == ls;
  }

  /**
    One header line per entry: as many lines as the map has entries, and each
    entry `name: value` among them.
   */
  lemma HeaderLinePerEntry(order: seq<string>, header: Header)
    requires IsEnumeration(order, header.Keys)
    ensures |EntryLines(order, header)| == |header|
    ensures forall key | key in header ::
      exists k | 0 <= k < |order| :: EntryLines(order, header)[k] == HeaderLineText(key, header[key])
  {
    EnumerationSize(order, header.Keys);
    forall key | key in header
      ensures exists k | 0 <= k < |order| :: EntryLines(order, header)[k] == HeaderLineText(key, header[key])
    {
      var k :| 0 <= k < |order| && order[k] == key;
      assert EntryLines(order, header)[k] == HeaderLineText(key, header[key]);
    }
  }

  /** With no colon in the names, no header line is written twice. */
  lemma HeaderLinesDistinct(order: seq<string>, header: Header)
    requires IsEnumeration(order, header.Keys)
    requires forall key | key in header :: ':' !in key
    ensures forall i, j | 0 <= i < j < |order| :: EntryLines(order, header)[i] != EntryLines(order, header)[j]
  {
    forall i, j | 0 <= i < j < |order|
      ensures EntryLines(order, header)[i] != EntryLines(order, header)[j]
    {
      if EntryLines(order, header)[i] == EntryLines(order, header)[j] {
        HeaderLineTextInjective(order[i], header[order[i]], order[j], header[order[j]]);
      }
    }
  }

  // ---------------------------------------------------------------------------
  // Reading the output back
  // ---------------------------------------------------------------------------

  /** The status text keeps the line structure when the reason is a clean line. */
  lemma StatusTextClean(r: Response)
    requires CleanLine(r.statusReason)
    ensures CleanLine(StatusText(r)) && StatusText(r) != []
  {
    var v, d := VersionToString(r.version), DecimalString(r.statusCode);
    VersionTokenIsWord(r.version);
    var line := StatusText(r);
    assert line == v + " " + d + " " + r.statusReason;
    assert forall k | 0 <= k < |line| :: line[k] in v || line[k] in " " || line[k] in d || line[k] in r.statusReason;
  }

  /** The written text is the terminated lines of the status line, the header lines and an empty line, then the body. */
  lemma SerializedAsTerminated(s: string, status: string, entries: seq<string>, body: string)
    requires s == status + "\n" + Terminated(entries) + "\n" + body
    ensures s == Terminated([status] + entries + [[]]) + body
  {
    TerminatedAppend([status] + entries, [[]]);
    TerminatedAppend([status], entries);
    assert Terminated([status]) == status + "\n";
    assert Terminated([[]]) == "\n";
  }

  /**
    The line structure of the output, for every iteration order: the status
    line, then exactly the header lines, then one empty line, then the lines
    of the body. It holds when no reason, name or value carries a line feed
    and no reason or value ends in a carriage return.
   */
  lemma SerializedLines(r: Response, order: seq<string>)
    requires IsEnumeration(order, r.header.Keys)
    requires CleanLine(r.statusReason)
    requires forall key | key in r.header :: '\n' !in key && CleanLine(r.header[key])
    ensures Lines(Serialized(r, order)) == [StatusText(r)] + EntryLines(order, r.header) + [[]] + Lines(r.body)
    ensures forall k | 0 <= k < |order| :: EntryLines(order, r.header)[k] != []
  {
    var entries := EntryLines(order, r.header);
    var ls := [StatusText(r)] + entries + [[]];
    StatusTextClean(r);
    forall k | 0 <= k < |order|
      ensures CleanLine(entries[k]) && entries[k] != []
    {
      HeaderLineTextClean(order[k], r.header[order[k]]);
    }
    assert forall k | 0 <= k < |ls| :: CleanLine(ls[k]);
    SerializedAsTerminated(Serialized(r, order), StatusText(r), entries, r.body);
    LinesOfTerminated(ls, r.body);
  }

  /**
    Reading the status line back: split on spaces, the first line of the
    output yields the version token, which parses to the response's version,
    and the decimal code, which denotes the response's status code. This
    holds for every reason phrase and every iteration order.
   */
  lemma StatusLineRoundTrip(r: Response, order: seq<string>)
    requires IsEnumeration(order, r.header.Keys)
    ensures Lines(Serialized(r, order)) != []
    ensures var tokens := Split(Lines(Serialized(r, order))[0], ' ');
      && |tokens| >= 2
      && VersionFromStr(tokens[0]) == Ok(r.version)
      && tokens[1] == DecimalString(r.statusCode)
      && DecimalValue(tokens[1]) == r.statusCode
  {
    var v, d := VersionToString(r.version), DecimalString(r.statusCode);
    var p := v + " " + d + " ";
    var s := Serialized(r, order);
    StatusPrefix(s, p, r, order);
    FirstLinePrefix(p, s[|p|..]);
    assert p + s[|p|..] == s;
    VersionTokenIsWord(r.version);
    StatusLineTokens(Lines(s)[0], v, d);
    VersionRoundTrip(r.version);
    DecimalRoundTrip(r.statusCode);
  }

  /** A line that starts with two space-free words, each followed by a space, splits into those words first. */
  lemma StatusLineTokens(line: string, v: string, d: string)
    requires ' ' !in v && ' ' !in d
    requires |line| >= |v + " " + d + " "| && line[..|v + " " + d + " "|] == v + " " + d + " "
    ensures |Split(line, ' ')| >= 2 && Split(line, ' ')[0] == v && Split(line, ' ')[1] == d
  {
    var n := |v + " " + d + " "|;
    var w := line[n..];
    assert line == v + [' '] + d + (" " + w);
    SplitFirstTwo(v, d, " " + w, ' ');
  }

  lemma StatusPrefix(s: string, p: string, r: Response, order: seq<string>)
    requires IsEnumeration(order, r.header.Keys)
    requires s == Serialized(r, order)
    requires p == VersionToString(r.version) + " " + DecimalString(r.statusCode) + " "
    ensures |s| >= |p| && s[..|p|] == p && CleanLine(p) && p != []
  {
    var st := StatusText(r);
    var a := st + "\n";
    var b := a + Terminated(EntryLines(order, r.header));
    var c := b + "\n";
    assert s == c + r.body;
    PrefixKept(p, r.statusReason, p);
    PrefixKept(st, "\n", p);
    PrefixKept(a, Terminated(EntryLines(order, r.header)), p);
    PrefixKept(b, "\n", p);
    PrefixKept(c, r.body, p);
    VersionTokenIsWord(r.version);
    assert '\n' !in VersionToString(r.version) && '\n' !in DecimalString(r.statusCode);
  }

  /**
    The library's serialisation example: HTTP/1.1, 200 "OK", the one header
    `Content-Type` with the any-type value and the body "Hello World!" are written, in the only
    iteration order a one-key map has, as the exact expected text.
   */
  lemma SerializedExample(r: Response, order: seq<string>)
    requires r == NewResponse(Http1_1, 200, "OK", map["Content-Type" := "*/*"], "Hello World!")
    requires IsEnumeration(order, r.header.Keys)
    ensures Serialized(r, order) == "HTTP/1.1 200 OK\nContent-Type: */*\n\nHello World!"
  {
    assert r.header.Keys == {"Content-Type"};
    SingleKeyOrder(order, "Content-Type");
    ExampleStatus(r);
    ExampleEntries(order, r.header);
    ExampleText(Serialized(r, order), StatusText(r), EntryLines(order, r.header), r.body);
  }

  // The example text is compared in pieces (status line, header lines, the two
  // halves of the whole text): comparing one long concatenation with one long
  // literal in a single step is slow for the verifier.

  lemma ExampleStatus(r: Response)
    requires r.version == Http1_1 && r.statusCode == 200 && r.statusReason == "OK"
    ensures StatusText(r) == "HTTP/1.1 200 OK"
  {
    assert DecimalString(2) == "2";
    assert DecimalString(20) == "20";
    assert DecimalString(200) == "200";
  }

  lemma ExampleEntries(order: seq<string>, header: Header)
    requires order == ["Content-Type"] && header == map["Content-Type" := "*/*"]
    ensures EntryLines(order, header) == ["Content-Type: */*"]
  {
    assert HeaderLineText("Content-Type", "*/*") == "Content-Type: */*";
  }

  lemma ExampleText(s: string, status: string, entries: seq<string>, body: string)
    requires s == status + "\n" + Terminated(entries) + "\n" + body
    requires status == "HTTP/1.1 200 OK" && entries == ["Content-Type: */*"] && body == "Hello World!"
    ensures s == "HTTP/1.1 200 OK\nContent-Type: */*\n\nHello World!"
  {
    var a, b := status + "\n", Terminated(entries);
    ExampleEntryText(entries, b);
    var head := a + b;
    ExampleHead(head, a, b);
    AppendAssoc(head, "\n", body);
    ExampleTail(s, head, "\n" + body);
  }

  lemma ExampleEntryText(entries: seq<string>, t: string)
    requires entries == ["Content-Type: */*"] && t == Terminated(entries)
    ensures t == "Content-Type: */*\n"
  {
    assert entries[1..] == [];
  }

  lemma ExampleHead(head: string, a: string, b: string)
    requires a == "HTTP/1.1 200 OK\n" && b == "Content-Type: */*\n" && head == a + b
    ensures head == "HTTP/1.1 200 OK\nContent-Type: */*\n"
  {
  }

  lemma ExampleTail(s: string, head: string, tail: string)
    requires head == "HTTP/1.1 200 OK\nContent-Type: */*\n" && tail == "\nHello World!"
    requires s == head + tail
    ensures s == "HTTP/1.1 200 OK\nContent-Type: */*\n\nHello World!"
  {
  }
}
