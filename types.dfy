/**
  The protocol tokens of an HTTP/1.1-style message: the version and method
  enumerations, their conversions from text, the version's text form, and the
  header map.

  Rust implements each conversion twice, once for `String` and once for `&str`,
  with identical match arms. Both are `string` here, so one function models
  both overloads.
 */
module Types {
  import opened Wrappers
  import opened Text

  /** The three protocol versions the codec knows. */
  datatype HttpVersion = Http1_1 | Http2 | Http3

  /** The seven request methods the codec knows. */
  datatype HttpMethod = Get | Post | Put | Patch | Delete | Options | Head

  /** Failure of the version conversion ("Invalid HTTP version"). */
  datatype HttpVersionError = HttpVersionError

  /** Failure of the method conversion ("Invalid HTTP method"). */
  datatype HttpMethodError = HttpMethodError

  /** Header name to header value; one value per name. */
  type Header = map<string, string>

  /** The text of one header entry, `name: value`, as requests carry it and responses write it. */
  function HeaderLineText(name: string, value: string): string
  {
    name + ": " + value
  }

  /** A header line keeps the line structure when the name has no line feed and the value is a clean line. */
  lemma HeaderLineTextClean(name: string, value: string)
    requires '\n' !in name && CleanLine(value)
    ensures CleanLine(HeaderLineText(name, value)) && HeaderLineText(name, value) != []
  {
    var line := HeaderLineText(name, value);
    assert line == name + ": " + value;
    assert forall k | 0 <= k < |line| :: line[k] in name || line[k] in ": " || line[k] in value;
  }

  /** A colon-free name is recovered from its header line: the text before the first colon. */
  lemma HeaderLineTextInjective(name1: string, value1: string, name2: string, value2: string)
    requires ':' !in name1 && ':' !in name2
    requires HeaderLineText(name1, value1) == HeaderLineText(name2, value2)
    ensures name1 == name2 && value1 == value2
  {
    var line := HeaderLineText(name1, value1);
    assert line == name1 + [':'] + (" " + value1);
    assert line == name2 + [':'] + (" " + value2);
    IndexOfAfter(name1, ':', " " + value1);
    IndexOfAfter(name2, ':', " " + value2);
    assert name1 == line[..|name1|];
    assert name2 == line[..|name2|];
    assert value1 == line[|name1| + 2..];
  }

  // ---------------------------------------------------------------------------
  // Versions
  // ---------------------------------------------------------------------------

  /** `Display for HttpVersion`: the wire token of a version. */
  function VersionToString(v: HttpVersion): (s: string)
    ensures |s| >= 6 && s[..5] == "HTTP/"
  {
    match v
    case Http1_1 => "HTTP/1.1"
    case Http2 => "HTTP/2"
    case Http3 => "HTTP/3"
  }

  /** A version token is one word: no whitespace (so no space or line break) and no colon. */
  lemma VersionTokenIsWord(v: HttpVersion)
    ensures forall k | 0 <= k < |VersionToString(v)| ::
      !IsWhitespace(VersionToString(v)[k]) && VersionToString(v)[k] != ':'
  {
  }

  /**
    `HttpVersion::try_from`: exact, case-sensitive match against the three
    wire tokens. It succeeds exactly on the text forms of the versions and
    then yields the version the text is the form of.
   */
  function VersionFromStr(s: string): (r: Result<HttpVersion, HttpVersionError>)
    ensures r.Ok? ==> VersionToString(r.value) == s
    ensures r.Err? <==> forall v: HttpVersion :: VersionToString(v) != s
    ensures r.Err? ==> r.error == HttpVersionError
  {
    if s == "HTTP/1.1" then Ok(Http1_1)
    else if s == "HTTP/2" then Ok(Http2)
    else if s == "HTTP/3" then Ok(Http3)
    else Err(HttpVersionError)
  }

  /** Parsing the displayed token gives back the version. */
  lemma VersionRoundTrip(v: HttpVersion)
    ensures VersionFromStr(VersionToString(v)) == Ok(v)
  {
  }

  /** Distinct versions have distinct tokens. */
  lemma VersionToStringInjective(v: HttpVersion, w: HttpVersion)
    requires v != w
    ensures VersionToString(v) != VersionToString(w)
  {
  }

  /**
    Matching is case-sensitive: every accepted token is upper case apart from
    digits and punctuation, so any text with a lower-case ASCII letter in it is
    rejected ("http/1.1" among them).
   */
  lemma VersionRejectsLowerCase(s: string, k: nat)
    requires k < |s| && 'a' <= s[k] <= 'z'
    ensures VersionFromStr(s) == Err(HttpVersionError)
  {
  }

  // ---------------------------------------------------------------------------
  // Methods
  // ---------------------------------------------------------------------------

  /**
    The lower-case literal that the arm of the method match accepts. This is
    not a text form of the method (there is none): it names the arms.
   */
  ghost function MatchArm(m: HttpMethod): (name: string)
    ensures forall k | 0 <= k < |name| :: 'a' <= name[k] <= 'z'
  {
    match m
    case Get => "get"
    case Post => "post"
    case Put => "put"
    case Patch => "patch"
    case Delete => "delete"
    case Options => "options"
    case Head => "head"
  }

  /**
    `HttpMethod::try_from`: the token is lower-cased, then matched exactly
    against seven names. It succeeds exactly when the lower-cased token is one
    of the arms, and then yields that arm's method.
   */
  function MethodFromStr(s: string): (r: Result<HttpMethod, HttpMethodError>)
    ensures r.Ok? ==> ToLower(s) == MatchArm(r.value)
    ensures r.Err? <==> forall m: HttpMethod :: ToLower(s) != MatchArm(m)
    ensures r.Err? ==> r.error == HttpMethodError
  {
    var t := ToLower(s);
    if t == "get" then Ok(Get)
    else if t == "post" then Ok(Post)
    else if t == "put" then Ok(Put)
    else if t == "patch" then Ok(Patch)
    else if t == "delete" then Ok(Delete)
    else if t == "options" then Ok(Options)
    else if t == "head" then Ok(Head)
    else Err(HttpMethodError)
  }

  /** The result depends on the lower-cased token only. */
  lemma MethodCaseInsensitive(s: string, t: string)
    requires ToLower(s) == ToLower(t)
    ensures MethodFromStr(s) == MethodFromStr(t)
  {
  }

  /**
    Every spelling of a method name, in any mix of upper and lower case,
    yields that method.
   */
  lemma MethodAnyCase(s: string, m: HttpMethod)
    requires |s| == |MatchArm(m)|
    requires forall k | 0 <= k < |s| :: Lower(s[k]) == MatchArm(m)[k]
    ensures MethodFromStr(s) == Ok(m)
  {
    assert ToLower(s) == MatchArm(m);
  }

  /**
    No trimming: a token with whitespace anywhere in it (before, after or
    inside the name) is rejected.
   */
  lemma MethodRejectsWhitespace(s: string, k: nat)
    requires k < |s| && IsWhitespace(s[k])
    ensures MethodFromStr(s) == Err(HttpMethodError)
  {
    assert ToLower(s)[k] == s[k];
    forall m: HttpMethod
      ensures ToLower(s) != MatchArm(m)
    {
      assert |MatchArm(m)| <= k || MatchArm(m)[k] != s[k];
    }
  }

  /** The three spellings of the documentation: upper, lower and mixed case. */
  lemma MethodSpellings()
    ensures MethodFromStr("GET") == Ok(Get)
    ensures MethodFromStr("get") == Ok(Get)
    ensures MethodFromStr("GeT") == Ok(Get)
    ensures MethodFromStr("oPtIoNs") == Ok(Options)
  {
    MethodAnyCase("GET", Get);
    MethodAnyCase("get", Get);
    MethodAnyCase("GeT", Get);
    MethodAnyCase("oPtIoNs", Options);
  }

  /** A padded name and a name outside the seven are rejected. */
  lemma MethodRejections()
    ensures MethodFromStr(" GET") == Err(HttpMethodError)
    ensures MethodFromStr("FETCH") == Err(HttpMethodError)
  {
    MethodRejectsWhitespace(" GET", 0);
    assert ToLower("FETCH")[0] == 'f';
  }
}
