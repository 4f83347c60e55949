/**
  The request-text parser of `rester/parse.py`. The first line is the request line, read
  by a cascade of three patterns; the lines up to the first empty one are headers,
  comments, overrides or query parameters; everything after that empty line is the body.
  A request without a host takes it from its `Host` header or from its path.
*/
module Parse {
  import opened Wrappers
  import opened Strings
  import opened Dict
  import opened Util
  import opened Message
  import opened Decimal
  import Urllib
  import Settings

  // ---------------------------------------------------------------------------
  // The request line

  /** `[A-Z]`: the characters of a method. */
  predicate IsMethodChar(c: char) {
    'A' <= c <= 'Z'
  }

  /** The characters the request-line pattern accepts in a URI. */
  predicate IsUriChar(c: char) {
    'a' <= c <= 'z' || 'A' <= c <= 'Z' || '0' <= c <= '9' || IsUriMark(c)
  }

  /** The punctuation the URI class of the pattern admits. */
  predicate IsUriMark(c: char) {
    c == '-' || c == '/' || c == '.' || c == '_' || c == ':' || c == '?' || c == '#' || c == '['
    || c == ']' || c == '@' || c == '!' || c == '$' || c == '&' || c == '='
  }

  predicate AllMethodChars(s: string) {
    forall k :: 0 <= k < |s| ==> IsMethodChar(s[k])
  }

  predicate AllUriChars(s: string) {
    forall k :: 0 <= k < |s| ==> IsUriChar(s[k])
  }

  /** The three patterns, tried in this order: `METHOD URI PROTOCOL`, `METHOD URI`, `URI`. */
  datatype Form = MethodUriProtocol | MethodUri | UriOnly

  /** The named groups of a match; a group the pattern lacks is `None`. */
  datatype RequestLineMatch = RequestLineMatch(httpMethod: Option<string>, uri: string, protocol: Option<string>)

  /**
    The match of the pattern of `form` that starts at `p`, if there is one. Each part of a
    pattern is a maximal run: a shorter run would leave a character of its own class where
    the next part needs one of a disjoint class, so backtracking never finds another match.
    The protocol runs to the end of the line.
  */
  function FormAt(s: string, p: nat, form: Form): (r: Option<RequestLineMatch>)
    requires p <= |s|
    ensures r.Some? ==> |r.value.uri| > 0 && AllUriChars(r.value.uri)
    ensures r.Some? ==> (r.value.httpMethod.Some? <==> !form.UriOnly?)
    ensures r.Some? ==> (r.value.protocol.Some? <==> form.MethodUriProtocol?)
    ensures r.Some? && r.value.httpMethod.Some? ==> |r.value.httpMethod.value| > 0 && AllMethodChars(r.value.httpMethod.value)
    ensures form.UriOnly? ==> (r.Some? <==> p < |s| && IsUriChar(s[p]))
  {
    match form
    case UriOnly => UriAt(s, p)
    case MethodUri => MethodUriAt(s, p)
    case MethodUriProtocol => FullAt(s, p)
  }

  /** `URI` at `p`: the run of URI characters there, when it is not empty. */
  function UriAt(s: string, p: nat): (r: Option<RequestLineMatch>)
    requires p <= |s|
    ensures r.Some? <==> p < |s| && IsUriChar(s[p])
    ensures r.Some? ==> r.value.httpMethod.None? && r.value.protocol.None?
    ensures r.Some? ==> |r.value.uri| > 0 && AllUriChars(r.value.uri)
  {
    var u := RunEnd(s, p, IsUriChar);
    RunEndInClass(s, p, IsUriChar);
    if u == p then None else Some(RequestLineMatch(None, s[p..u], None))
  }

  /** `METHOD URI` at `p`: a run of method characters, whitespace, then URI characters. */
  function MethodUriAt(s: string, p: nat): (r: Option<RequestLineMatch>)
    requires p <= |s|
    ensures r.Some? ==> r.value.httpMethod.Some? && r.value.protocol.None?
    ensures r.Some? ==> |r.value.uri| > 0 && AllUriChars(r.value.uri)
    ensures r.Some? ==> |r.value.httpMethod.value| > 0 && AllMethodChars(r.value.httpMethod.value)
  {
    var m := RunEnd(s, p, IsMethodChar);
    var a := RunEnd(s, m, IsSpace);
    var u := RunEnd(s, a, IsUriChar);
    RunEndInClass(s, p, IsMethodChar);
    RunEndInClass(s, a, IsUriChar);
    if m == p || a == m || u == a then None
    else Some(RequestLineMatch(Some(s[p..m]), s[a..u], None))
  }

  /** `METHOD URI PROTOCOL` at `p`: as `METHOD URI`, then whitespace and the rest of the line. */
  function FullAt(s: string, p: nat): (r: Option<RequestLineMatch>)
    requires p <= |s|
    ensures r.Some? ==> r.value.httpMethod.Some? && r.value.protocol.Some?
    ensures r.Some? ==> |r.value.uri| > 0 && AllUriChars(r.value.uri)
    ensures r.Some? ==> |r.value.httpMethod.value| > 0 && AllMethodChars(r.value.httpMethod.value)
  {
    var m := RunEnd(s, p, IsMethodChar);
    var a := RunEnd(s, m, IsSpace);
    var u := RunEnd(s, a, IsUriChar);
    var b := RunEnd(s, u, IsSpace);
    RunEndInClass(s, p, IsMethodChar);
    RunEndInClass(s, a, IsUriChar);
    if m == p || a == m || u == a || b == u then None
    else Some(RequestLineMatch(Some(s[p..m]), s[a..u], Some(s[b..RunEnd(s, b, NotNewline)])))
  }

  /** Whether the pattern of `form` matches at each position `0..|s|`. */
  function MatchesAt(s: string, form: Form): (b: seq<bool>)
    ensures |b| == |s| + 1
    ensures forall j :: 0 <= j <= |s| ==> b[j] == FormAt(s, j, form).Some?
  {
    seq(|s| + 1, j requires 0 <= j <= |s| => FormAt(s, j, form).Some?)
  }

  /**
    The leftmost position at or after `p` where the pattern of `form` matches, as
    `re.search` scans: nothing matches before it, and nothing matches at all when there
    is no such position.
  */
  function MatchPos(s: string, p: nat, form: Form): (r: Option<nat>)
    requires p <= |s|
    ensures r.Some? ==> p <= r.value <= |s| && FormAt(s, r.value, form).Some?
    ensures r.Some? ==> forall j :: p <= j < r.value ==> FormAt(s, j, form).None?
    ensures r.None? ==> forall j :: p <= j <= |s| ==> FormAt(s, j, form).None?
  {
    FirstTrue(MatchesAt(s, form), p)
  }

  /** No character of the line can start a URI. */
  predicate NoUriChar(s: string) {
    forall k :: 0 <= k < |s| ==> !IsUriChar(s[k])
  }

  /** `re.search` with the pattern of `form`. Only the bare URI pattern matches on its first URI character. */
  function Search(s: string, form: Form): (r: Option<RequestLineMatch>)
    ensures r.Some? ==> |r.value.uri| > 0 && AllUriChars(r.value.uri)
    ensures r.Some? ==> (r.value.httpMethod.Some? <==> !form.UriOnly?)
    ensures r.Some? && r.value.httpMethod.Some? ==> |r.value.httpMethod.value| > 0 && AllMethodChars(r.value.httpMethod.value)
    ensures NoUriChar(s) ==> r.None?
    ensures form.UriOnly? && r.None? ==> NoUriChar(s)
  {
    var p := MatchPos(s, 0, form);
    assert NoUriChar(s) ==> p.None? by {
      if NoUriChar(s) && p.Some? {
        NoMatchWithoutUriChar(s, p.value, form);
      }
    }
    assert form.UriOnly? && p.None? ==> NoUriChar(s) by {
      if form.UriOnly? && p.None? {
        forall k | 0 <= k < |s|
          ensures !IsUriChar(s[k])
        {
          assert FormAt(s, k, UriOnly).None?;
        }
      }
    }
    match p
    case None => None
    case Some(i) => FormAt(s, i, form)
  }

  /** Every pattern needs a URI character somewhere after its start. */
  lemma NoMatchWithoutUriChar(s: string, p: nat, form: Form)
    requires p <= |s| && NoUriChar(s)
    ensures FormAt(s, p, form).None?
  {
    var m := RunEnd(s, p, IsMethodChar);
    var a := RunEnd(s, m, IsSpace);
    if a < |s| { assert !IsUriChar(s[a]); }
    if p < |s| { assert !IsUriChar(s[p]); }
  }

  /** The first of `forms` whose pattern is found in the line, as the cascade of `re.search` calls tries them. */
  function SearchForms(line: string, forms: seq<Form>): (r: Option<RequestLineMatch>)
    ensures r.Some? ==> |r.value.uri| > 0 && AllUriChars(r.value.uri)
    ensures r.Some? && r.value.httpMethod.Some? ==> |r.value.httpMethod.value| > 0 && AllMethodChars(r.value.httpMethod.value)
    ensures NoUriChar(line) ==> r.None?
    ensures UriOnly in forms && r.None? ==> NoUriChar(line)
  {
    if |forms| == 0 then None
    else match Search(line, forms[0])
      case Some(m) => Some(m)
      case None => SearchForms(line, forms[1..])
  }

  /**
    `_read_request_line_dict`: the first form found anywhere in the line. It finds nothing
    exactly when the line holds no URI character at all.
  */
  function ReadRequestLine(line: string): (r: Option<RequestLineMatch>)
    ensures r.None? <==> NoUriChar(line)
    ensures r.Some? ==> |r.value.uri| > 0 && AllUriChars(r.value.uri)
    ensures r.Some? && r.value.httpMethod.Some? ==> |r.value.httpMethod.value| > 0 && AllMethodChars(r.value.httpMethod.value)
  {
    SearchForms(line, [MethodUriProtocol, MethodUri, UriOnly])
  }

  lemma UriCharsAreNotSpace(c: char)
    requires IsUriChar(c) || IsMethodChar(c)
    ensures !IsSpace(c)
  {
  }

  /**
    `METHOD URI PROTOCOL` read at the start of the line, for a protocol that starts with
    a non-space and holds no line break.
  */
  lemma FullFormAtStart(verb: string, uri: string, protocol: string)
    requires |verb| > 0 && AllMethodChars(verb)
    requires |uri| > 0 && AllUriChars(uri)
    requires |protocol| > 0 && !IsSpace(protocol[0]) && '\n' !in protocol
    ensures FormAt(verb + " " + uri + " " + protocol, 0, MethodUriProtocol)
      == Some(RequestLineMatch(Some(verb), uri, Some(protocol)))
  {
    var s := verb + " " + uri + " " + protocol;
    var u := |verb| + 1 + |uri|;
    FullFormRuns(verb, uri, protocol);
    FullFormSlices(verb, uri, protocol);
    FullFormOfRuns(s, |verb|, |verb| + 1, u, u + 1, verb, uri, protocol);
  }

  lemma FullFormRuns(verb: string, uri: string, protocol: string)
    requires AllMethodChars(verb)
    requires |uri| > 0 && AllUriChars(uri)
    requires |protocol| > 0 && !IsSpace(protocol[0]) && '\n' !in protocol
    ensures var s := verb + " " + uri + " " + protocol;
      var u := |verb| + 1 + |uri|;
      RunEnd(s, 0, IsMethodChar) == |verb| && RunEnd(s, |verb|, IsSpace) == |verb| + 1
      && RunEnd(s, |verb| + 1, IsUriChar) == u && RunEnd(s, u, IsSpace) == u + 1
      && RunEnd(s, u + 1, NotNewline) == |s|
  {
    UriCharsAreNotSpace(uri[0]);
    assert forall k :: 0 <= k < |protocol| ==> NotNewline(protocol[k]);
    RunsOfSpaced(verb, uri, protocol, IsMethodChar, IsSpace, IsUriChar, NotNewline);
  }

  lemma FullFormSlices(verb: string, uri: string, protocol: string)
    ensures var s := verb + " " + uri + " " + protocol;
      var u := |verb| + 1 + |uri|;
      s[0..|verb|] == verb && s[|verb| + 1..u] == uri && s[u + 1..|s|] == protocol
  {
    var s := verb + " " + uri + " " + protocol;
    var pre := verb + " " + uri + " ";
    assert s == pre + protocol;
    assert s[|pre|..] == protocol;
    assert s[|verb| + 1..|verb| + 1 + |uri|] == uri;
  }

  /** The full form at the start, given where its runs end. */
  lemma FullFormOfRuns(s: string, m: nat, a: nat, u: nat, b: nat, verb: string, uri: string, protocol: string)
    requires 0 < m < a < u < b <= |s|
    requires RunEnd(s, 0, IsMethodChar) == m && RunEnd(s, m, IsSpace) == a
    requires RunEnd(s, a, IsUriChar) == u && RunEnd(s, u, IsSpace) == b
    requires RunEnd(s, b, NotNewline) == |s|
    requires s[0..m] == verb && s[a..u] == uri && s[b..|s|] == protocol
    ensures FormAt(s, 0, MethodUriProtocol) == Some(RequestLineMatch(Some(verb), uri, Some(protocol)))
  {
  }

  /** The request line a request prints is read back as its method, its full path and `HTTP/1.1`. */
  lemma RequestLineReadsBack(r: Request)
    requires |r.httpMethod| > 0 && AllMethodChars(r.httpMethod)
    requires |FullPath(r)| > 0 && AllUriChars(FullPath(r))
    ensures ReadRequestLine(RequestLine(r)) == Some(RequestLineMatch(Some(r.httpMethod), FullPath(r), Some("HTTP/1.1")))
  {
    var s := RequestLine(r);
    assert s == r.httpMethod + " " + FullPath(r) + " " + "HTTP/1.1";
    FullFormAtStart(r.httpMethod, FullPath(r), "HTTP/1.1");
    assert MatchPos(s, 0, MethodUriProtocol) == Some(0);
  }

  /** A line that is one run of URI characters reads as a bare URI, with no method. */
  lemma BareUriReadsBack(uri: string)
    requires |uri| > 0 && AllUriChars(uri)
    ensures ReadRequestLine(uri) == Some(RequestLineMatch(None, uri, None))
  {
    NoMethodInUri(uri);
    BareUriSearch(uri);
    var forms := [MethodUriProtocol, MethodUri, UriOnly];
    assert forms[1..] == [MethodUri, UriOnly] && forms[1..][1..] == [UriOnly];
    assert SearchForms(uri, [MethodUri, UriOnly]) == SearchForms(uri, [UriOnly]);
  }

  /** Neither pattern with a method matches a line of URI characters: no whitespace follows the method. */
  lemma NoMethodInUri(uri: string)
    requires AllUriChars(uri)
    ensures Search(uri, MethodUriProtocol).None? && Search(uri, MethodUri).None?
  {
    forall p | 0 <= p <= |uri|
      ensures FormAt(uri, p, MethodUriProtocol).None? && FormAt(uri, p, MethodUri).None?
    {
      var m := RunEnd(uri, p, IsMethodChar);
      if m < |uri| {
        UriCharsAreNotSpace(uri[m]);
      }
      RunEndIs(uri, m, m, IsSpace);
    }
  }

  /** The bare URI pattern matches the whole of such a line. */
  lemma BareUriSearch(uri: string)
    requires |uri| > 0 && AllUriChars(uri)
    ensures Search(uri, UriOnly) == Some(RequestLineMatch(None, uri, None))
  {
    RunEndIs(uri, 0, |uri|, IsUriChar);
    assert uri[0..|uri|] == uri;
    assert FormAt(uri, 0, UriOnly).Some?;
  }

  // ---------------------------------------------------------------------------
  // Copying the request line into the request

  /**
    `_parse_request_line`: the host, path and query come from the URI; the scheme and a
    truthy port only when present; the method only when the matched form has one.
    `Raised` is the `ValueError` of an unbalanced bracket or a bad port.
  */
  function ParseRequestLine(req: Request, line: string): (r: Result<Request>)
    ensures ReadRequestLine(line).None? ==> r == Ok(req)
    ensures r.Ok? ==> r.value.headers == req.headers && r.value.body == req.body
    ensures r.Ok? && ReadRequestLine(line).Some? && ReadRequestLine(line).value.httpMethod.None? ==>
      r.value.httpMethod == req.httpMethod
    ensures r.Ok? && ReadRequestLine(line).Some? && ReadRequestLine(line).value.httpMethod.Some? ==>
      r.value.httpMethod == ReadRequestLine(line).value.httpMethod.value
  {
    match ReadRequestLine(line)
    case None => Ok(req)
    case Some(m) =>
      match Urllib.UrlParse(m.uri, "")
      case Raised(e) => Raised(e)
      case Ok(uri) =>
        match Urllib.Port(uri.netloc)
        case Raised(e) => Raised(e)
        case Ok(port) =>
          var r1 := req.(host := Urllib.Hostname(uri.netloc), path := uri.path, query := Urllib.ParseQs(uri.query));
          var r2 := if uri.scheme != "" then r1.(protocol := Some(uri.scheme)) else r1;
          var r3 := if port.Some? && port.value != 0 then r2.(port := Some(PortNumber(port.value))) else r2;
          Ok(if m.httpMethod.Some? then r3.(httpMethod := m.httpMethod.value) else r3)
  }

  lemma ParseQsOfEmpty()
    ensures Urllib.ParseQs("") == []
  {
    assert Find("", "&").None?;
    assert Split("", "&") == [""];
    assert Find("", "=").None?;
    assert Urllib.QueryPairs([""]) == [];
  }

  /**
    A request line printed from a request with a plain absolute path and no query is
    read back into that method and path, with no host and no query.
  */
  lemma RequestLineParsesBack(req: Request, r: Request)
    requires |r.httpMethod| > 0 && AllMethodChars(r.httpMethod)
    requires |r.query| == 0 && AllUriChars(r.path)
    requires Urllib.IsPlain(r.path) && StartsWith(r.path, "/") && !StartsWith(r.path, "//")
    ensures ParseRequestLine(req, RequestLine(r)) ==
      Ok(req.(httpMethod := r.httpMethod, host := None, path := r.path, query := []))
  {
    RequestLineReadsBack(r);
    Urllib.PlainParse(r.path, "");
    assert Urllib.HostInfo("") == ("", "") by {
      assert RFindBefore("", "@", 0).None?;
      assert Find("", "[").None?;
      assert Find("", ":").None?;
    }
    ParseQsOfEmpty();
  }

  // ---------------------------------------------------------------------------
  // Header lines

  /** What one line before the body contributes. */
  datatype LineKind =
    | Blank                                     // nothing but whitespace
    | Ignored                                   // a comment, an override, or no field
    | QueryField(name: string, value: string)   // a `?` or `&` line
    | HeaderField(name: string, value: string)  // a `name: value` line

  /** `#` starts a comment and `@` an override line; neither adds a field. */
  predicate IsCommentMark(c: char) {
    c == '#' || c == '@'
  }

  /** `?` and `&` start a query parameter line. */
  predicate IsQueryMark(c: char) {
    c == '?' || c == '&'
  }

  /**
    The two sides of a `?`/`&` line after its first character: split at the first `=`,
    else at the first `:`. The first character is neither, so testing the whole line for
    `=` is testing this rest.
  */
  function QueryLineParts(rest: string): (r: Option<(string, string)>)
    ensures r.Some? ==> Contains(rest, "=") || Contains(rest, ":")
  {
    if Contains(rest, "=") then SplitOnce(rest, "=") else SplitOnce(rest, ":")
  }

  /**
    How `_parse_header_lines` reads one line, after `lstrip`. A line that is all whitespace
    is `Blank`, which the model skips; the code as written fails on it
    (`ClassifyLineAsWritten`).
  */
  function ClassifyLine(line: string): (k: LineKind)
    ensures k.Blank? <==> AllSpace(line)
    ensures LStrip(line) != [] && IsCommentMark(LStrip(line)[0]) ==> k.Ignored?
    ensures k.QueryField? ==> LStrip(line) != [] && IsQueryMark(LStrip(line)[0]) && Trimmed(k.name)
    ensures k.QueryField? ==> forall i :: 0 <= i < |k.value| ==> Urllib.IsQuotedChar(k.value[i])
    ensures k.HeaderField? ==> ':' !in k.name && StartsWith(LStrip(line), k.name + ":")
    ensures k.HeaderField? ==> Trimmed(k.value)
  {
    LStripEmpty(line);
    ClassifyStripped(LStrip(line))
  }

  /** A line strips to nothing exactly when it is all whitespace. */
  lemma LStripEmpty(line: string)
    ensures LStrip(line) == [] <==> AllSpace(line)
  {
    var h := LStrip(line);
    LStripDrops(line);
    if h != [] {
      assert line[|line| - |h|] == h[0];
    } else {
      assert line[..|line|] == line;
    }
  }

  /** `ClassifyLine` on the line once `lstrip` has removed its leading whitespace. */
  function ClassifyStripped(h: string): (k: LineKind)
    ensures k.Blank? <==> h == []
    ensures h != [] && IsCommentMark(h[0]) ==> k.Ignored?
    ensures k.QueryField? ==> IsQueryMark(h[0]) && Trimmed(k.name)
    ensures k.QueryField? ==> forall i :: 0 <= i < |k.value| ==> Urllib.IsQuotedChar(k.value[i])
    ensures k.HeaderField? ==> ':' !in k.name && StartsWith(h, k.name + ":")
    ensures k.HeaderField? ==> Trimmed(k.value)
  {
    if |h| == 0 then Blank
    else if IsCommentMark(h[0]) then Ignored
    else if IsQueryMark(h[0]) then
      match QueryLineParts(h[1..])
      case Some((key, value)) =>
        if |key| > 0 && |value| > 0 then
          QueryField(Strip(key), Urllib.Quote(Strip(value)))
        else Ignored
      case None => Ignored
    else match SplitOnce(h, ":")
      case Some((key, value)) =>
        HeaderNameClean(h, key, value);
        HeaderField(key, Strip(value))
      case None => Ignored
  }

  /** The name before the first `:` holds no `:`. */
  lemma HeaderNameClean(h: string, key: string, value: string)
    requires SplitOnce(h, ":") == Some((key, value))
    ensures ':' !in key && StartsWith(h, key + ":")
  {
    FirstPieceClean(h, ":", |key|);
    assert h[..|key|] == key;
    SingleCharFind(key, ':');
    assert h[..|key + ":"|] == key + ":";
  }

  /** Stripping twice is stripping once. */
  lemma StripIsStripped(s: string)
    ensures Strip(Strip(s)) == Strip(s)
  {
    if Strip(s) != [] {
      StripUnspaced(Strip(s));
    } else {
      assert AllSpace(Strip(s));
    }
  }

  const IndexOutOfRange: string := "IndexError: string index out of range"

  /**
    `_parse_header_lines` as written: `header[0]` on a line that `lstrip` emptied raises
    `IndexError`; on every other line it agrees with `ClassifyLine`.
  */
  function ClassifyLineAsWritten(line: string): (r: Result<LineKind>)
    ensures r.Raised? <==> AllSpace(line)
    ensures r.Ok? ==> r.value == ClassifyLine(line) && !r.value.Blank?
  {
    LStripEmpty(line);
    if |LStrip(line)| == 0 then Raised(IndexOutOfRange)
    else Ok(ClassifyLine(line))
  }

  /** A header line of a single space, which splitting the text can produce, crashes the code as written. */
  lemma WhitespaceLineRaisesAsWritten()
    ensures ClassifyLineAsWritten(" ").Raised?
    ensures ClassifyLine(" ") == Blank
  {
    assert AllSpace(" ");
  }

  /** A `name: value` line printed by `header_lines` is read back as that header. */
  lemma HeaderLineClassifiedBack(h: (string, string))
    requires |h.0| > 0 && !IsSpace(h.0[0]) && h.0[0] !in "#@?&" && ':' !in h.0
    requires Trimmed(h.1)
    ensures ClassifyLine(HeaderLine(h)) == HeaderField(h.0, h.1)
  {
    var line := HeaderLine(h);
    assert line[0] == h.0[0];
    assert !AllSpace(line);
    assert LStrip(line) == line;
    assert line == h.0 + ":" + (" " + h.1);
    SplitOnceAt(h.0, ":", " " + h.1);
    StripLeadingSpace(h.1);
  }

  /** A `?name=value` line adds `name` with its value percent-encoded. */
  lemma QueryLineClassified(name: string, value: string)
    requires |name| > 0 && Trimmed(name) && '=' !in name
    requires |value| > 0 && Trimmed(value)
    ensures ClassifyLine("?" + name + "=" + value) == QueryField(name, Urllib.Quote(value))
  {
    var line := "?" + name + "=" + value;
    UnspacedLineClassified(line);
    QueryStrippedClassified(name, value);
    TrimmedFieldUnchanged(name, value);
  }

  /** A line that starts with no whitespace is classified as it stands. */
  lemma UnspacedLineClassified(line: string)
    requires |line| > 0 && !IsSpace(line[0])
    ensures ClassifyLine(line) == ClassifyStripped(line)
  {
    assert LStrip(line) == line;
  }

  lemma QueryStrippedClassified(name: string, value: string)
    requires '=' !in name && |name| > 0 && |value| > 0
    ensures ClassifyStripped("?" + name + "=" + value) == QueryField(Strip(name), Urllib.Quote(Strip(value)))
  {
    var line := "?" + name + "=" + value;
    assert line[0] == '?';
    assert line[1..] == name + "=" + value;
    QueryPartsOf(name, value);
    QueryStrippedParts(line, name, value);
  }

  lemma TrimmedFieldUnchanged(name: string, value: string)
    requires Trimmed(name) && Trimmed(value)
    ensures QueryField(Strip(name), Urllib.Quote(Strip(value))) == QueryField(name, Urllib.Quote(value))
  {
    TrimmedIsStripped(name);
    TrimmedIsStripped(value);
  }

  lemma QueryStrippedParts(h: string, key: string, value: string)
    requires |h| > 0 && h[0] == '?' && QueryLineParts(h[1..]) == Some((key, value))
    requires |key| > 0 && |value| > 0
    ensures ClassifyStripped(h) == QueryField(Strip(key), Urllib.Quote(Strip(value)))
  {
  }

  /** The two sides of `name=value` when the name holds no `=`. */
  lemma QueryPartsOf(name: string, value: string)
    requires '=' !in name
    ensures QueryLineParts(name + "=" + value) == Some((name, value))
  {
    SplitOnceAt(name, "=", value);
  }

  /** The query fields of the lines, in order. */
  function QueryFields(lines: seq<string>): (r: seq<(string, string)>)
    ensures |r| <= |lines|
  {
    if |lines| == 0 then []
    else match ClassifyLine(lines[0])
      case QueryField(k, v) => [(k, v)] + QueryFields(lines[1..])
      case _ => QueryFields(lines[1..])
  }

  /** The header fields of the lines, in order. */
  function HeaderFields(lines: seq<string>): (r: seq<(string, string)>)
    ensures |r| <= |lines|
  {
    if |lines| == 0 then []
    else match ClassifyLine(lines[0])
      case HeaderField(k, v) => [(k, v)] + HeaderFields(lines[1..])
      case _ => HeaderFields(lines[1..])
  }

  lemma FieldsAppend(a: seq<string>, b: seq<string>)
    ensures QueryFields(a + b) == QueryFields(a) + QueryFields(b)
    ensures HeaderFields(a + b) == HeaderFields(a) + HeaderFields(b)
  {
    QueryFieldsAppend(a, b);
    HeaderFieldsAppend(a, b);
  }

  lemma {:induction false} QueryFieldsAppend(a: seq<string>, b: seq<string>)
    ensures QueryFields(a + b) == QueryFields(a) + QueryFields(b)
    decreases |a|
  {
    if |a| == 0 {
      assert a + b == b;
    } else {
      var ab := a + b;
      assert ab[0] == a[0] && ab[1..] == a[1..] + b;
      QueryFieldsAppend(a[1..], b);
    }
  }

  lemma {:induction false} HeaderFieldsAppend(a: seq<string>, b: seq<string>)
    ensures HeaderFields(a + b) == HeaderFields(a) + HeaderFields(b)
    decreases |a|
  {
    if |a| == 0 {
      assert a + b == b;
    } else {
      var ab := a + b;
      assert ab[0] == a[0] && ab[1..] == a[1..] + b;
      HeaderFieldsAppend(a[1..], b);
    }
  }

  /** A line that is a comment or an override changes nothing, wherever it stands. */
  lemma CommentLineIgnored(a: seq<string>, c: string, b: seq<string>)
    requires LStrip(c) != [] && IsCommentMark(LStrip(c)[0])
    ensures QueryFields(a + [c] + b) == QueryFields(a + b)
    ensures HeaderFields(a + [c] + b) == HeaderFields(a + b)
  {
    CommentHasNoFields(c);
    FieldlessLineDropped(a, c, b);
  }

  lemma FieldlessLineDropped(a: seq<string>, c: string, b: seq<string>)
    requires QueryFields([c]) == [] && HeaderFields([c]) == []
    ensures QueryFields(a + [c] + b) == QueryFields(a + b)
    ensures HeaderFields(a + [c] + b) == HeaderFields(a + b)
  {
    FieldsAppend(a + [c], b);
    FieldsAppend(a, [c]);
    FieldsAppend(a, b);
    assert QueryFields(a) + [] == QueryFields(a);
    assert HeaderFields(a) + [] == HeaderFields(a);
  }

  lemma CommentHasNoFields(c: string)
    requires LStrip(c) != [] && IsCommentMark(LStrip(c)[0])
    ensures QueryFields([c]) == [] && HeaderFields([c]) == []
  {
    assert ClassifyLine(c).Ignored?;
    assert [c][1..] == [];
  }

  /**
    `_parse_header_lines` without the merge: the query gains each `?`/`&` field's value at
    the end of its name's list, and the text's headers form a dictionary in which the last
    line for a name wins.
  */
  function ReadHeaderLines(query: QueryMap, lines: seq<string>): (r: (QueryMap, Headers))
    ensures forall k :: Get(r.0, k).GetOr([]) == Get(query, k).GetOr([]) + ValuesFor(QueryFields(lines), k)
    ensures forall k :: Get(r.1, k) == LastFor(HeaderFields(lines), k)
    ensures NoDup(Keys(r.1))
  {
    var qs := QueryFields(lines);
    var hs := HeaderFields(lines);
    var h: Headers := Update([], hs);
    assert NoDup(Keys(h)) by {
      var e: Headers := [];
      assert NoDup(Keys(e));
    }
    assert forall k :: Get(AppendAll(query, qs), k).GetOr([]) == Get(query, k).GetOr([]) + ValuesFor(qs, k) by {
      forall k
        ensures Get(AppendAll(query, qs), k).GetOr([]) == Get(query, k).GetOr([]) + ValuesFor(qs, k)
      {
        AppendAllValues(query, qs, k);
      }
    }
    (AppendAll(query, qs), h)
  }

  /**
    The merge with the default headers: `dict(defaults.items() + text.items())` when both
    are non-empty, the text's headers alone when only they are, else the defaults.
  */
  function MergeHeaders(defaults: Headers, text: Headers): (r: Headers)
    ensures |text| == 0 ==> r == defaults
  {
    if |text| > 0 && |defaults| > 0 then Update([], defaults + text)
    else if |text| > 0 then text
    else defaults
  }

  /** A header from the text replaces a default of the same name; other defaults stay. */
  lemma MergePrefersText(defaults: Headers, text: Headers, k: string)
    requires NoDup(Keys(defaults)) && NoDup(Keys(text))
    ensures Get(MergeHeaders(defaults, text), k) == if Get(text, k).Some? then Get(text, k) else Get(defaults, k)
  {
    if |text| > 0 && |defaults| > 0 {
      LastForAppend(defaults, text, k);
      LastForOfDict(defaults, k);
      LastForOfDict(text, k);
    }
  }

  // ---------------------------------------------------------------------------
  // Header lines and body

  /** The index of the first empty line at or after `from`. */
  function FirstEmptyLine(lines: seq<string>, from: nat): (r: Option<nat>)
    requires from <= |lines|
    ensures r.Some? ==> from <= r.value < |lines| && lines[r.value] == ""
    ensures r.Some? ==> forall j :: from <= j < r.value ==> lines[j] != ""
    ensures r.None? ==> forall j :: from <= j < |lines| ==> lines[j] != ""
    decreases |lines| - from
  {
    if from == |lines| then None
    else if lines[from] == "" then Some(from)
    else FirstEmptyLine(lines, from + 1)
  }

  /**
    The header lines and the body: the lines after the request line up to the first empty
    one, and the lines after it joined with `eol`; with no empty line, all the lines after
    the request line and no body.
  */
  function SplitHeadersAndBody(lines: seq<string>, eol: string): (r: (seq<string>, Option<string>))
    requires |lines| >= 1
    ensures |r.0| < |lines|
    ensures forall j :: 0 <= j < |r.0| ==> r.0[j] != "" && r.0[j] == lines[j + 1]
    ensures r.1.None? ==> r.0 == lines[1..]
    ensures r.1.Some? ==> (1 + |r.0| < |lines| && lines[1 + |r.0|] == ""
      && r.1.value == Join(eol, lines[2 + |r.0|..]))
  {
    match FirstEmptyLine(lines, 1)
    case Some(i) => (lines[1..i], Some(Join(eol, lines[i + 1..])))
    case None => (lines[1..], None)
  }

  /**
    A text made of a request line, header lines, an empty line and a body splits back into
    those header lines and that body, whatever empty lines the body holds.
  */
  lemma HeadersAndBodySplitBack(first: string, headerLines: seq<string>, body: string, eol: string)
    requires |eol| > 0 && eol[0] !in first
    requires forall i :: 0 <= i < |headerLines| ==> headerLines[i] != "" && eol[0] !in headerLines[i]
    ensures var lines := Split(Join(eol, [first] + headerLines) + eol + eol + body, eol);
      lines[0] == first && SplitHeadersAndBody(lines, eol) == (headerLines, Some(body))
  {
    TextSplitsAtBlank(first, headerLines, body, eol);
    LinesSplitBack(first, headerLines, Split(body, eol), eol);
  }

  /** The text splits into the request line, the header lines, an empty line and the body's lines. */
  lemma TextSplitsAtBlank(first: string, headerLines: seq<string>, body: string, eol: string)
    requires |eol| > 0 && eol[0] !in first
    requires forall i :: 0 <= i < |headerLines| ==> eol[0] !in headerLines[i]
    ensures Split(Join(eol, [first] + headerLines) + eol + eol + body, eol)
      == ([first] + headerLines) + ([""] + Split(body, eol))
  {
    ConsAvoids(first, headerLines, eol[0]);
    SplitAfterJoinBlank(eol, [first] + headerLines, body);
  }

  lemma ConsAvoids(first: string, more: seq<string>, c: char)
    requires c !in first
    requires forall i :: 0 <= i < |more| ==> c !in more[i]
    ensures forall i :: 0 <= i < |[first] + more| ==> c !in ([first] + more)[i]
  {
    forall i | 0 <= i < |[first] + more|
      ensures c !in ([first] + more)[i]
    {
      if i > 0 { assert ([first] + more)[i] == more[i - 1]; }
    }
  }

  /** The lines of such a text give back the header lines and the joined body lines. */
  lemma LinesSplitBack(first: string, headerLines: seq<string>, more: seq<string>, eol: string)
    requires forall i :: 0 <= i < |headerLines| ==> headerLines[i] != ""
    ensures var lines := ([first] + headerLines) + ([""] + more);
      lines[0] == first && SplitHeadersAndBody(lines, eol) == (headerLines, Some(Join(eol, more)))
  {
    var parts := [first] + headerLines;
    var lines := parts + ([""] + more);
    assert lines[|parts|] == "";
    assert forall j :: 1 <= j < |parts| ==> lines[j] == headerLines[j - 1];
    assert FirstEmptyLine(lines, 1) == Some(|parts|);
    assert lines[1..|parts|] == headerLines;
    assert lines[|parts| + 1..] == more;
  }

  // ---------------------------------------------------------------------------
  // Host recovery and the whole request

  /** Whether the request's host is truthy. */
  predicate HasHost(r: Request) {
    r.host.Some? && r.host.value != ""
  }

  /**
    The end of `get_request`: without a host, take a non-empty `Host` header; still
    without one, re-parse the path with `//` in front, which reads its first segment as
    an authority (section 3.2 of RFC 3986).
  */
  function RecoverHost(r: Request): (out: Result<Request>)
    ensures HasHost(r) ==> out == Ok(r)
    ensures out.Ok? ==> out.value.(host := r.host, path := r.path) == r
    ensures !HasHost(r) && GetHeader(r.headers, "host").Some? && GetHeader(r.headers, "host").value != "" ==>
      out == Ok(r.(host := GetHeader(r.headers, "host")))
    ensures !HasHost(r) && (GetHeader(r.headers, "host").None? || GetHeader(r.headers, "host").value == "") && r.path == "" ==>
      out == Ok(r)
  {
    var header := GetHeader(r.headers, "host");
    var r1 := if !HasHost(r) && header.Some? && header.value != "" then r.(host := header) else r;
    if !HasHost(r1) && r1.path != "" then
      match Urllib.UrlParse("//" + r1.path, "")
      case Raised(e) => Raised(e)
      case Ok(uri) => Ok(r1.(host := Urllib.Hostname(uri.netloc), path := uri.path))
    else Ok(r1)
  }

  /** A plain lower-case host name: no user part, brackets, port, zone or delimiter. */
  predicate IsPlainHost(name: string) {
    |name| > 0 && forall k :: 0 <= k < |name| ==> name[k] !in "@[]:%/?#;" && !('A' <= name[k] <= 'Z')
  }

  /** A path `myhost/api` with no host found elsewhere becomes host `myhost` and path `/api`. */
  lemma HostFromPath(r: Request, name: string, rest: string)
    requires !HasHost(r) && (GetHeader(r.headers, "host").None? || GetHeader(r.headers, "host").value == "")
    requires IsPlainHost(name) && StartsWith(rest, "/") && Urllib.IsPlain(rest)
    requires r.path == name + rest
    ensures RecoverHost(r) == Ok(r.(host := Some(name), path := rest))
  {
    assert "//" + r.path == "//" + name + rest;
    NameIsAuthority(name);
    Urllib.AuthorityPathParse(name, rest);
    Urllib.PlainHost(name);
    PathReparsed(r, Urllib.ParseResult("", name, rest, "", "", ""));
  }

  lemma NameIsAuthority(name: string)
    requires IsPlainHost(name)
    ensures forall k :: 0 <= k < |name| ==> Urllib.IsNetlocChar(name[k]) && name[k] != ':'
    ensures '[' !in name && ']' !in name
  {
  }

  /** Without a host from anywhere else, the host and path come from re-parsing the path. */
  lemma PathReparsed(r: Request, p: Urllib.ParseResult)
    requires !HasHost(r) && (GetHeader(r.headers, "host").None? || GetHeader(r.headers, "host").value == "")
    requires r.path != "" && Urllib.UrlParse("//" + r.path, "") == Ok(p)
    ensures RecoverHost(r) == Ok(r.(host := Urllib.Hostname(p.netloc), path := p.path))
  {
  }

  /** A non-empty `Host` header supplies a missing host. */
  lemma HostFromHeader(r: Request, host: string)
    requires !HasHost(r) && host != ""
    requires GetHeader(r.headers, "host") == Some(host)
    ensures RecoverHost(r) == Ok(r.(host := Some(host)))
  {
  }

  /** The defaults `get_request` reads from the settings before it reads the text. */
  datatype ParserSettings = ParserSettings(defaultHeaders: Headers, port: Option<Port>, protocol: Option<string>)

  /**
    The text a header value takes: `str()` of a string, number, boolean or `None`.
    A list or an object is not kept (see the README).
  */
  function HeaderText(v: Settings.Value): (t: Option<string>)
    ensures t.None? <==> v.List? || v.Object?
    ensures v.Str? ==> t == Some(v.s)
  {
    match v
    case Str(s) => Some(s)
    case Int(n) => Some(IntToString(n))
    case Bool(b) => Some(if b then "True" else "False")
    case Null => Some("None")
    case _ => None
  }

  /** The fields of a settings object with their header texts, in order. */
  function SettingHeaders(fields: seq<(string, Settings.Value)>): (r: Headers)
    ensures |r| <= |fields|
  {
    if |fields| == 0 then []
    else
      var rest := SettingHeaders(fields[1..]);
      match HeaderText(fields[0].1)
      case Some(t) => [(fields[0].0, t)] + rest
      case None => rest
  }

  /** `default_headers`, `port` and `protocol` from the settings, each `None` or empty when absent. */
  function ReadParserSettings(o: Settings.Overrideable): (s: ParserSettings)
    ensures NoDup(Keys(s.defaultHeaders))
  {
    var headers := match Settings.Get(o, "default_headers", Settings.Object([]))
      case Object(fields) => Update([], SettingHeaders(fields))
      case _ => [];
    var port := match Settings.Get(o, "port", Settings.Null)
      case Int(n) => Some(PortNumber(n))
      case Str(t) => Some(PortText(t))
      case _ => None;
    var protocol := match Settings.Get(o, "protocol", Settings.Null)
      case Str(p) => Some(p)
      case _ => None;
    ParserSettings(headers, port, protocol)
  }

  /**
    Each default header of a settings object (a JSON object, so its names are distinct)
    holds `str()` of its value, and no other name is a default header.
  */
  lemma DefaultHeadersOfSettings(o: Settings.Overrideable, fields: seq<(string, Settings.Value)>, name: string)
    requires Settings.Get(o, "default_headers", Settings.Object([])) == Settings.Object(fields)
    requires NoDup(Keys(fields))
    ensures Get(ReadParserSettings(o).defaultHeaders, name) ==
      if Get(fields, name).Some? then HeaderText(Get(fields, name).value) else None
  {
    LastHeaderField(fields, name);
  }

  /** The last header text for a name among distinct fields is that of its one field. */
  lemma {:induction false} LastHeaderField(fields: seq<(string, Settings.Value)>, name: string)
    requires NoDup(Keys(fields))
    ensures LastFor(SettingHeaders(fields), name) ==
      if Get(fields, name).Some? then HeaderText(Get(fields, name).value) else None
    decreases |fields|
  {
    if |fields| > 0 {
      var rest := fields[1..];
      assert Keys(rest) == Keys(fields)[1..];
      LastHeaderField(rest, name);
      var head: Headers := match HeaderText(fields[0].1) case Some(t) => [(fields[0].0, t)] case None => [];
      assert SettingHeaders(fields) == head + SettingHeaders(rest);
      LastForAppend(head, SettingHeaders(rest), name);
      if fields[0].0 == name {
        assert Keys(fields)[0] == name;
        assert name !in Keys(rest);
      }
      if |head| == 1 {
        assert head[..0] == [];
      }
    }
  }

  /**
    `RequestParser.get_request`: the text, left-stripped and with its line endings made
    `eol`, is split into lines; the first is the request line, then come the header lines
    and the body; the host is recovered and an empty path becomes `/`.
  */
  function GetRequest(settings: ParserSettings, eol: string, text: string): (r: Result<Request>)
    requires |eol| > 0
    ensures r.Ok? ==> r.value.path != ""
  {
    RequestOfLines(settings, eol, Split(NormalizeLineEndings(LStrip(text), eol), eol))
  }

  /** `get_request` once the text is split into lines. */
  function RequestOfLines(settings: ParserSettings, eol: string, lines: seq<string>): (r: Result<Request>)
    requires |lines| >= 1
    ensures r.Ok? ==> r.value.path != ""
  {
    match ParseRequestLine(StartRequest(settings), lines[0])
    case Raised(e) => Raised(e)
    case Ok(req) =>
      var (headerLines, body) := SplitHeadersAndBody(lines, eol);
      var (query, textHeaders) := ReadHeaderLines(req.query, headerLines);
      var req2 := req.(query := query, headers := MergeHeaders(req.headers, textHeaders), body := body.GetOr(req.body));
      match RecoverHost(req2)
      case Raised(e) => Raised(e)
      case Ok(req3) => Ok(if req3.path == "" then req3.(path := "/") else req3)
  }

  /**
    A request text already in `\n` form: a request line that does not start with
    whitespace, non-empty header lines, an empty line, then the body.
  */
  function RequestText(first: string, headerLines: seq<string>, body: string): string {
    Join("\n", [first] + headerLines) + "\n" + "\n" + body
  }

  /** No line of the text holds a line break of its own or a `\r`. */
  predicate PlainParts(first: string, headerLines: seq<string>, body: string) {
    |first| > 0 && !IsSpace(first[0]) && '\n' !in first && '\r' !in first
    && (forall i :: 0 <= i < |headerLines| ==> headerLines[i] != "" && '\n' !in headerLines[i] && '\r' !in headerLines[i])
    && '\r' !in body
  }

  /** For a text already in `\n` form, the body is what follows the first empty line. */
  lemma GetRequestBody(settings: ParserSettings, first: string, headerLines: seq<string>, body: string)
    requires PlainParts(first, headerLines, body)
    ensures var r := GetRequest(settings, "\n", RequestText(first, headerLines, body));
      r.Ok? ==> r.value.body == body
  {
    var more := Split(body, "\n");
    TextLines(first, headerLines, body);
    GetRequestOfLines(settings, RequestText(first, headerLines, body), ([first] + headerLines) + ([""] + more));
    LinesBody(settings, first, headerLines, more);
  }

  /**
    For a text already in `\n` form, a header holds the value of the last header line
    naming it, or else its default.
  */
  lemma GetRequestHeaders(settings: ParserSettings, first: string, headerLines: seq<string>, body: string)
    requires NoDup(Keys(settings.defaultHeaders))
    requires PlainParts(first, headerLines, body)
    ensures var r := GetRequest(settings, "\n", RequestText(first, headerLines, body));
      r.Ok? ==> forall k :: (Get(r.value.headers, k) ==
        if LastFor(HeaderFields(headerLines), k).Some? then LastFor(HeaderFields(headerLines), k)
        else Get(settings.defaultHeaders, k))
  {
    var more := Split(body, "\n");
    TextLines(first, headerLines, body);
    GetRequestOfLines(settings, RequestText(first, headerLines, body), ([first] + headerLines) + ([""] + more));
    LinesHeaders(settings, first, headerLines, more);
  }

  lemma GetRequestOfLines(settings: ParserSettings, text: string, lines: seq<string>)
    requires Split(NormalizeLineEndings(LStrip(text), "\n"), "\n") == lines
    ensures GetRequest(settings, "\n", text) == RequestOfLines(settings, "\n", lines)
  {
  }

  /** The lines of a text in `\n` form that starts with a request line. */
  lemma TextLines(first: string, headerLines: seq<string>, body: string)
    requires PlainParts(first, headerLines, body)
    ensures Split(NormalizeLineEndings(LStrip(RequestText(first, headerLines, body)), "\n"), "\n")
      == ([first] + headerLines) + ([""] + Split(body, "\n"))
  {
    var j := Join("\n", [first] + headerLines);
    var text := j + "\n" + "\n" + body;
    JoinStartsWithFirst(first, headerLines);
    assert text[0] == first[0];
    assert LStrip(text) == text;
    ConsAvoids(first, headerLines, '\r');
    JoinAvoids("\n", [first] + headerLines, '\r');
    CrAbsent(j, body);
    NormalizeUnchanged(text);
    TextSplitsAtBlank(first, headerLines, body, "\n");
  }

  lemma JoinStartsWithFirst(first: string, more: seq<string>)
    requires |first| > 0
    ensures var j := Join("\n", [first] + more); |j| > 0 && j[0] == first[0]
  {
    var parts := [first] + more;
    if |parts| > 1 {
      assert Join("\n", parts) == first + "\n" + Join("\n", parts[1..]);
    }
  }

  lemma CrAbsent(j: string, body: string)
    requires '\r' !in j && '\r' !in body
    ensures '\r' !in j + "\n" + "\n" + body
  {
  }

  /** The body of the request read from such lines. */
  lemma LinesBody(settings: ParserSettings, first: string, headerLines: seq<string>, more: seq<string>)
    requires forall i :: 0 <= i < |headerLines| ==> headerLines[i] != ""
    ensures var r := RequestOfLines(settings, "\n", ([first] + headerLines) + ([""] + more));
      r.Ok? ==> r.value.body == Join("\n", more)
  {
    var lines := ([first] + headerLines) + ([""] + more);
    LinesSplitBack(first, headerLines, more, "\n");
    RequestOfLinesKeeps(settings, "\n", lines);
  }

  /** The headers of the request read from such lines. */
  lemma LinesHeaders(settings: ParserSettings, first: string, headerLines: seq<string>, more: seq<string>)
    requires NoDup(Keys(settings.defaultHeaders))
    requires forall i :: 0 <= i < |headerLines| ==> headerLines[i] != ""
    ensures var r := RequestOfLines(settings, "\n", ([first] + headerLines) + ([""] + more));
      r.Ok? ==> forall k :: (Get(r.value.headers, k) ==
        if LastFor(HeaderFields(headerLines), k).Some? then LastFor(HeaderFields(headerLines), k)
        else Get(settings.defaultHeaders, k))
  {
    var lines := ([first] + headerLines) + ([""] + more);
    LinesSplitBack(first, headerLines, more, "\n");
    RequestOfLinesKeeps(settings, "\n", lines);
    var parsed := ParseRequestLine(StartRequest(settings), first);
    var r := RequestOfLines(settings, "\n", lines);
    if r.Ok? {
      MergeOfHeaderLines(settings.defaultHeaders, parsed.value.query, headerLines, r.value.headers);
    }
  }

  /** Merging the headers read from the lines into the defaults: the last line naming a header wins. */
  lemma MergeOfHeaderLines(defaults: Headers, query: QueryMap, headerLines: seq<string>, merged: Headers)
    requires NoDup(Keys(defaults))
    requires merged == MergeHeaders(defaults, ReadHeaderLines(query, headerLines).1)
    ensures forall k :: (Get(merged, k) ==
      if LastFor(HeaderFields(headerLines), k).Some? then LastFor(HeaderFields(headerLines), k)
      else Get(defaults, k))
  {
    var text := ReadHeaderLines(query, headerLines).1;
    forall k
      ensures Get(merged, k) ==
        if LastFor(HeaderFields(headerLines), k).Some? then LastFor(HeaderFields(headerLines), k)
        else Get(defaults, k)
    {
      MergePrefersText(defaults, text, k);
    }
  }

  /** The request `get_request` starts from: the defaults from the settings. */
  function StartRequest(settings: ParserSettings): Request {
    NewRequest().(headers := settings.defaultHeaders, port := settings.port, protocol := settings.protocol)
  }

  /** Recovering the host and defaulting the path keep the body and the headers read from the lines. */
  lemma RequestOfLinesKeeps(settings: ParserSettings, eol: string, lines: seq<string>)
    requires |lines| >= 1
    ensures var r := RequestOfLines(settings, eol, lines);
      var parsed := ParseRequestLine(StartRequest(settings), lines[0]);
      var split := SplitHeadersAndBody(lines, eol);
      r.Ok? ==> (parsed.Ok? && r.value.body == split.1.GetOr(parsed.value.body)
        && r.value.headers == MergeHeaders(parsed.value.headers, ReadHeaderLines(parsed.value.query, split.0).1))
  {
  }

  /** A text with no `\r` is already in `\n` form. */
  lemma NormalizeUnchanged(s: string)
    requires '\r' !in s
    ensures NormalizeLineEndings(s, "\n") == s
  {
    ReplaceAbsent(s, "\r\n", "\n");
    ReplaceAbsent(s, "\r", "\n");
  }

  // ---------------------------------------------------------------------------
  // Header lookup on a dictionary

  /**
    `get_header` as written, on the dictionary `get_request` stores in `headers`:
    iterating a dictionary yields its names, and unpacking a name into `(key, value)`
    raises `ValueError` unless the name has exactly two characters.
  */
  function GetHeaderOfDictAsWritten(names: seq<string>, name: string): (r: Result<Option<string>>)
    ensures (forall i :: 0 <= i < |names| ==> |names[i]| == 2) ==> r.Ok?
    ensures |names| > 0 && |names[0]| != 2 ==> r.Raised?
    ensures r.Ok? && r.value.Some? ==> |r.value.value| == 1
  {
    if |names| == 0 then Ok(None)
    else if |names[0]| != 2 then Raised(UnpackError(|names[0]|))
    else if Lower([names[0][0]]) == Lower(name) then Ok(Some([names[0][1]]))
    else GetHeaderOfDictAsWritten(names[1..], name)
  }

  /**
    A request whose text names its host only in a `Host` header fails as written, while
    the lookup over the header pairs finds the host.
  */
  lemma HostHeaderOfDictRaisesAsWritten(host: string)
    ensures GetHeaderOfDictAsWritten(Keys([("Host", host)]), "host").Raised?
    ensures GetHeader([("Host", host)], "host") == Some(host)
  {
    assert Keys([("Host", host)]) == ["Host"];
    assert NameMatches(("Host", host), "host");
  }
}
