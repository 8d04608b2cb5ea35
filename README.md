# http_parser in Dafny

A model of the Rust crate `http_parser`, a small HTTP/1.1-style codec that
works in both directions:

- The **request parser** (`HttpRequest::from_request`) takes the text of a
  request. It splits the text into lines. The first line is cut at single
  spaces into method, url and version. Header lines follow until the first
  empty line; each is cut at its colons, and the value loses its leading
  whitespace. The body is every line after the empty line, joined with line
  feeds. An unknown method or version silently becomes `GET` or `HTTP/1.1`.
- The **response builder** (`ResponseBuilder`) fills a response record one
  field at a time. The status step checks the code and looks up the code's
  canonical reason phrase.
- The **serialiser** (`Display for Response`) writes the status line, one
  line per header entry in the map's iteration order, an empty line, and the
  body.
- The **protocol tokens** (`HttpVersion`, `HttpMethod`) convert from text.
  Versions also display as text.

The project has six modules, one per file:

| file | module | models |
|---|---|---|
| `wrappers.dfy` | `Wrappers` | Rust's `Result` and `Option` |
| `text.dfy` | `Text` | the parts of Rust's `str` the codec calls: `lines`, `split` on one character, `join`, `trim_start`, `to_lowercase`, decimal display of integers |
| `types.dfy` | `Types` | `src/types.rs`, plus the `name: value` text of a header entry |
| `request.dfy` | `Requests` | `src/request.rs` |
| `response.dfy` | `Responses` | `src/response.rs` |
| `exchange.dfy` | `Exchange` | the serialiser and the parser together: what one writes, the other reads back |

How each part is modelled:

- **The parser** is a method, `Requests.FromRequest`, written as the Rust
  code is. There is a `seq` of lines whose first line is taken off, and a
  `while` loop with a `break` that inserts into a header `map`; this loop is
  the method `ReadHeaders`. Then comes a search for the first empty line and
  a slice and join. The method is proved equal to a functional
  specification, `ParseRequest`, and the parser's properties are lemmas
  about that function.
- **Panics.** Where Rust would panic, the model returns `Err` with the
  reason (`Panic`). There are three such places: `lines.remove(0)` on no
  lines, an out-of-bounds index into the request-line tokens, and
  `split[1]` on a header line without a colon.
- **The builder** is a class holding a `Response`. Each step overwrites its
  own field in place (`status` sets both the code and the reason) and
  returns the same builder.
- **The serialiser** is the method `Responses.Format`. It loops over the
  header entries in an iteration order given as a parameter; the order may
  be any sequence naming each key once (`IsEnumeration`). The method is
  proved equal to `Serialized`, and every property of the output is proved
  for every such order.

## Model

| member | source | states |
|---|---|---|
| Types.VersionFromStr | src/types.rs:26-37 | succeeds exactly on the three wire tokens `HTTP/1.1`, `HTTP/2`, `HTTP/3`, yielding the version whose displayed token it is; every other text gives `HttpVersionError` |
| Types.VersionToString | src/types.rs:39-47 | every displayed version token starts with `HTTP/` |
| Types.VersionRoundTrip | src/types.rs:13-47 | parsing a version's displayed token gives back that version |
| Types.VersionToStringInjective | src/types.rs:39-47 | distinct versions display as distinct tokens |
| Types.VersionRejectsLowerCase | src/types.rs:28-33 | version matching is case-sensitive: any text with a lower-case ASCII letter is rejected |
| Types.VersionTokenIsWord | src/types.rs:42-44 | a version token holds no whitespace and no colon |
| Types.MatchArm | src/types.rs:83-89 | the seven match arms are all lower-case letters |
| Types.MethodFromStr | src/types.rs:78-93 | succeeds exactly when the lower-cased token equals one of the seven arms, yielding that arm's method; otherwise `HttpMethodError` |
| Types.MethodCaseInsensitive | src/types.rs:82 | two tokens with the same lower-case form convert to the same result |
| Types.MethodAnyCase | src/types.rs:82-89 | every spelling of an arm's name, in any mix of upper and lower case, yields that arm's method |
| Types.MethodRejectsWhitespace | src/types.rs:82-90 | the token is not trimmed: whitespace anywhere in it means rejection |
| Types.MethodSpellings | src/types.rs:61-93 | `GET`, `get` and `GeT` give `Get`, and `oPtIoNs` gives `Options` |
| Types.MethodRejections | src/types.rs:90 | ` GET` (with a leading space) and `FETCH` are rejected |
| Types.HeaderLineTextClean | src/response.rs:34 | a `name: value` line is a non-empty single line, with no trailing carriage return, when the name has no line feed and the value is a clean line |
| Types.HeaderLineTextInjective | src/response.rs:34 | when names have no colon, the `name: value` line determines both the name and the value |
| Text.IndexOf | src/request.rs:56 | the position found holds the character, and no earlier position does |
| Text.Split | src/request.rs:45 | `split` on one character gives at least one piece, and no piece holds the separator |
| Text.SplitCount | src/request.rs:45 | there is one more piece than there are separators |
| Text.SplitSeveral | src/request.rs:56-58 | a text splits into two or more pieces exactly when it holds the separator |
| Text.JoinSplit | src/request.rs:45 | joining the pieces with the separator gives back the text |
| Text.SplitJoin | src/request.rs:45 | splitting a join of separator-free pieces gives back the pieces |
| Text.SplitFirstThree | src/request.rs:45-48 | when `x`, `y` and `z` lack the separator and the tail is empty or starts with it, the first three pieces of `x`, separator, `y`, separator, `z`, tail are `x`, `y` and `z` |
| Text.SplitFirstTwo | src/request.rs:56-58 | when `x` and `y` lack the separator and the tail is empty or starts with it, the first two pieces of `x`, separator, `y`, tail are `x` and `y` |
| Text.Lines | src/request.rs:42 | no line holds a line feed, and a text has lines exactly when it is non-empty |
| Text.FirstLinePrefix | src/request.rs:42 | the first line of a text that starts with a clean, non-empty prefix starts with that prefix |
| Text.LinesOfTerminated | src/request.rs:42 | the lines of clean lines each ending in a line feed, then any text, are those lines and then the text's lines |
| Text.LinesOfCrlfTerminated | src/request.rs:42 | clean lines each ending in `\r\n`, then any text, read back as exactly those lines and then the text's lines: the carriage return belongs to the terminator |
| Text.JoinLinesFinalFeed | src/request.rs:69 | joining the lines of a text followed by one line feed gives back the text without it, when the text has no carriage return and no final line feed: a final terminator adds no line |
| Text.JoinWithLength | src/request.rs:69 | a join is as long as its pieces together plus one separator per gap, and starts with the first piece |
| Text.JoinLines | src/request.rs:69 | joining the lines of a text with line feeds gives back the text when it has no carriage return and no final line feed |
| Text.LeadingWhitespace | src/request.rs:58 | the count is the length of the maximal run of Unicode whitespace at the start |
| Text.TrimStartSpec | src/request.rs:58 | `trim_start` keeps a suffix of the text; everything it drops is whitespace, and what it keeps does not start with whitespace |
| Text.TrimOneSpace | src/request.rs:58 | trimming one space before text that starts with no whitespace gives that text |
| Text.ToLower | src/types.rs:82 | lower-casing keeps the length and maps each character to its lower-case form |
| Text.DecimalString | src/response.rs:31 | the decimal text of a number is non-empty, all digits, and has no leading zero |
| Text.DecimalRoundTrip | src/response.rs:31 | reading the decimal text back gives the number |
| Requests.NewRequest | src/request.rs:15-24 | the empty request: empty url, headers and contents, `HTTP/1.1` and `GET` |
| Requests.FromRequest | src/request.rs:41-73 | computes exactly `ParseRequest`: the request line, header loop, empty-line search and body join in the code's order, and `Err` at each of its three panics |
| Requests.ReadHeaders | src/request.rs:50-61 | the header loop stops at the first empty line, inserts each line's name and trimmed value, and fails on the first line without a colon |
| Requests.FirstEmpty | src/request.rs:64 | `position`: the index of the first empty line, or none when no line is empty |
| Requests.RequestLineFields | src/request.rs:45-48 | for a first line `m u v` followed by nothing or by a space and more, where `m`, `u` and `v` hold no space: the parse succeeds exactly when the header lines do, and then the url is `u`, the method is read from `m` and the version from `v` (falling back to `GET` and `HTTP/1.1`), anything after `v` is ignored, and headers and contents are the header section's map and the body text |
| Requests.HttpRequest.Body | src/request.rs:89-94 | `body` returns the contents as text and never fails |
| Requests.HeadersFailure | src/request.rs:52-61 | the header loop fails exactly when a header line has no colon, and then names the first such line |
| Requests.HeadersKeepFailure | src/request.rs:56-58 | once a header line has failed, later lines do not change the outcome |
| Requests.HeadersInsertInOrder | src/request.rs:52-61 | on success every header line has a colon, and the map is what inserting the lines' names and values in order builds |
| Requests.HeaderMapLastWins | src/request.rs:60 | inserting in order keeps exactly the pairs' names as keys, and each name holds its last value, so a later duplicate overwrites an earlier one |
| Requests.HeaderLineFields | src/request.rs:56-58 | the name is the text before the first colon, and the value is the text up to the next colon without its leading whitespace |
| Requests.ValueStopsAtColon | src/request.rs:56-58 | a header value ends at the first colon after the name's colon, so anything after a second colon is dropped: `Host: a:80` reads as the value `a` |
| Requests.ParsePanics | src/request.rs:42-61 | the parser fails exactly when the text has no line, or the first line has fewer than three space-separated tokens, or a line before the first empty line has no colon |
| Requests.ParsedBody | src/request.rs:63-94 | the contents are empty when no empty line follows the request line, and otherwise the lines after the first empty line joined with line feeds; `body` returns them as text |
| Requests.HeaderLineReads | src/request.rs:56-60 | a `name: value` line whose parts are free of colons and line breaks, and whose value does not start with whitespace, reads back as that name and value |
| Requests.HeadersOfHeaderLines | src/request.rs:52-61 | such lines read back as the map that inserting their pairs in order builds |
| Requests.Sections | src/request.rs:52-69 | for lines, an empty line and more lines, the header section is the lines before the empty line, and the body is the rest joined |
| Requests.ParseRequestWithBody | src/request.rs:41-72 | a well-formed request line, header lines, an empty line and a body parse to the tokens' url, version and method, the headers' map and exactly the body |
| Requests.ParseRequestCrlf | src/request.rs:41-72 | a request whose lines all end in `\r\n`, with a line feed after a clean body, parses to the same request as with bare line feeds and no final one: `\r\n` is a line terminator, and the body's final line feed is lost |
| Requests.ParseRequestWithoutBody | src/request.rs:63-66 | a request without an empty line, with or without a final line feed, has empty contents |
| Requests.NoBodyRequest | src/lib.rs:17-36 | `GET / HTTP/1.1` with one `Host` header and no body parses to url `/`, `HTTP/1.1`, `GET`, that header and no contents |
| Requests.RepeatedHeaderWithBody | src/request.rs:52-61 | a request with a body: the body after the empty line is kept exactly, and of two `Host` headers the later wins |
| Requests.DoubleSpaceRequestLine | src/request.rs:45-48 | splitting at single spaces keeps empty tokens: `GET  / HTTP/2` has an empty url and `/` in the version's place, which falls back to `HTTP/1.1` |
| Requests.UnknownMethodRequest | src/request.rs:46-48 | an unknown method (`FETCH`) falls back to `GET` |
| Responses.NewResponse | src/response.rs:18-26 | `Response::new` makes the response with exactly the given version, code, reason, headers and body |
| Responses.CanonicalReason | src/response.rs:84-88 | only codes in 100..999 have a reason phrase, and every phrase is non-empty |
| Responses.ResponseBuilder.constructor | src/response.rs:49-53 | a new builder holds `HTTP/1.1`, status 0, an empty reason, no headers and an empty body |
| Responses.ResponseBuilder.Version | src/response.rs:65-68 | replaces the version and no other field, and returns the same builder |
| Responses.ResponseBuilder.Status | src/response.rs:83-92 | succeeds exactly when the code is in 100..999; it then sets the code and the canonical reason, or an empty reason when there is none, and nothing else; otherwise it returns the message `Invalid HTTP status code` |
| Responses.ResponseBuilder.Header | src/response.rs:109-112 | replaces the header map and no other field |
| Responses.ResponseBuilder.Body | src/response.rs:124-127 | replaces the body and no other field |
| Responses.ResponseBuilder.Build | src/response.rs:142-144 | returns the response as assembled |
| Responses.BuilderChain | src/lib.rs:62-78 | the test's chain (version, status 200, one header, body) builds the response `Response::new` makes of the same fields, with reason `OK` |
| Responses.StatusBounds | src/response.rs:70-92 | 99, 1000 and the documented 1001 are rejected with the fixed message; 100 and 999 are accepted |
| Responses.OverwriteSteps | src/response.rs:65-127 | a step taken twice keeps only the second value |
| Responses.EnumerationSize | src/response.rs:33 | an iteration order has exactly as many names as the map has keys |
| Responses.EnumerationExists | src/response.rs:33 | every header map has an iteration order |
| Responses.SingleKeyOrder | src/response.rs:33 | a one-key map has exactly one iteration order |
| Responses.Format | src/response.rs:29-38 | writes exactly `Serialized`: the status line, each entry in the iteration order, an empty line, and the body |
| Responses.HeaderLinePerEntry | src/response.rs:33-35 | in every iteration order, there are as many header lines as entries, and each entry's `name: value` line is among them |
| Responses.HeaderLinesDistinct | src/response.rs:33-35 | when names have no colon, no header line is written twice |
| Responses.StatusTextClean | src/response.rs:31 | the status line is one non-empty clean line when the reason is a clean line |
| Responses.SerializedLines | src/response.rs:29-38 | for every iteration order, the output's lines are the status line, exactly the header lines (none empty), one empty line and the body's lines, when no reason, name or value holds a line feed and no reason or value ends in a carriage return |
| Responses.StatusLineRoundTrip | src/response.rs:31 | for every reason and order, the first line of the output split at spaces starts with the version token, which parses back to the version, and the decimal code, which reads back as the status code |
| Responses.SerializedExample | src/lib.rs:80-90 | the test's response (`HTTP/1.1`, 200 `OK`, one `Content-Type` header, body `Hello World!`) is written as exactly the expected text |
| Exchange.InsertEnumeration | src/response.rs:33 | inserting a map's entries in any iteration order rebuilds the map |
| Exchange.HeadersReadBack | src/response.rs:33-35 | for every order, the header lines the serialiser writes, read by the request parser's header loop, give back the header map, when names and values are colon-free, single-line and the values start with no whitespace |
| Exchange.ResponseReadBack | src/response.rs:29-38 | for a serialised response read with the request parser's sections, the lines after the status line up to the first empty one are exactly the header lines, they parse to the response's header map, and the rest joins back to the body |

## Left out

- Bytes and UTF-8. A character stands for one byte. `contents` is the body
  text itself, not its UTF-8 encoding. So `body` never fails, and
  `Utf8Error` is a constructor that no path produces.
- `to_lowercase` is modelled on ASCII letters only. For the seven method
  names this loses nothing. Only two non-ASCII characters lower-case to
  ASCII letters: the Kelvin sign becomes `k`, which no name holds, and the
  capital I with a dot becomes `i` followed by a combining dot, which no
  name holds either.
- `str::lines` is modelled as Rust has defined it since 1.77. A bare `\r` at the very end of an unterminated last line is
  kept. Earlier releases removed it.
- `HashMap` hashing and iteration order. The serialiser takes the order as
  a parameter. Every property holds for every order, and no order is fixed.
- The `http` crate is foreign code. `StatusCode::from_u16` is modelled by
  its range check, 100..999. `canonical_reason` is modelled as a table of
  the registered codes. A code in range that is missing from the table gets
  the empty reason, as the builder's `unwrap_or_default` gives.
- Responses.CanonicalReason: the table follows the crate's list of
  registered codes without 103 (Early Hints). A crate release that lists 103
  would give it the reason "Early Hints".
- Responses.ResponseBuilder.Status: on an invalid code, Rust drops the
  builder it consumed. The model keeps it unchanged and returns it to
  nobody, which no caller can tell apart.
- Each conversion in `src/types.rs` exists twice, for `String` and for
  `&str`, with identical arms. In Dafny both are `string`, so one function
  models both.
- `src/errors.rs` (two unit error types with fixed messages) is modelled as
  the datatypes `HttpVersionError` and `HttpMethodError`. Their `Display`
  text is not modelled.
- `fmt::Formatter` and the `?` after each `write!` are not modelled. Writing
  into a string cannot fail, so `Format` returns the text.
- The field `method` of `HttpRequest` is named `requestMethod`, because
  `method` is a Dafny keyword.
- The header loop of `from_request` is its own method, `ReadHeaders`, and
  `FromRequest` calls it.
- The tests in `src/lib.rs` use six long headers. The request scenarios
  use one or two short headers with the same structure instead. Their
  statements are the same; the general lemmas `ParseRequestWithBody` and
  `ParseRequestWithoutBody` cover any number of headers.
- The documentation comment of `status` gives the accepted range as
  "100-1000". The code rejects 1000, and the model follows the code
  (`StatusBounds`).
