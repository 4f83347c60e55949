/**
  HTTP messages (`rester/message.py`): a request with its derived `full_path`,
  `request_line` and `uri`, a response with its `status_line`, and the header helpers
  shared by both. Headers are a list of `(name, value)` pairs in order.
*/
module Message {
  import opened Wrappers
  import opened Strings
  import opened Decimal
  import opened Util
  import Urllib

  type Headers = seq<(string, string)>

  /**
    A request. `protocol` is `None` when the settings supply none and the request line
    names no scheme; `host` is `None` until one is found; a falsy `port` (`None`, `0` or
    an empty text) is left out of the URI.
  */
  datatype Request = Request(
    httpMethod: string,
    protocol: Option<string>,
    host: Option<string>,
    port: Option<Port>,
    path: string,
    query: QueryMap,
    headers: Headers,
    body: string)

  /** A port as the request holds it: a number from the URL or the settings, or a text the settings give. */
  datatype Port = PortNumber(n: int) | PortText(text: string)

  /** A response; `reason` is `None` until a status line is read, `body` is `None` for an empty body. */
  datatype Response = Response(
    protocol: string,
    status: int,
    reason: Option<string>,
    headers: Headers,
    body: Option<string>)

  /** A fresh `Request()`. */
  function NewRequest(): (r: Request)
    ensures r.httpMethod == "GET" && r.protocol == Some("http") && r.path == "/"
    ensures r.host.None? && r.port.None? && r.query == [] && r.headers == [] && r.body == ""
  {
    Request("GET", Some("http"), None, None, "/", [], [], "")
  }

  /** A fresh `Response()`. */
  function NewResponse(): (r: Response)
    ensures r.protocol == "HTTP/1.1" && r.status == 500 && r.reason.None?
    ensures r.headers == [] && r.body == Some("")
  {
    Response("HTTP/1.1", 500, None, [], Some(""))
  }

  // ---------------------------------------------------------------------------
  // Headers

  function HeaderLine(h: (string, string)): string {
    h.0 + ": " + h.1
  }

  /** `header_lines`: one `name: value` line per header, in order. */
  function HeaderLines(headers: Headers): (r: seq<string>)
    ensures |r| == |headers|
    ensures forall i :: 0 <= i < |headers| ==> r[i] == headers[i].0 + ": " + headers[i].1
  {
    seq(|headers|, i requires 0 <= i < |headers| => HeaderLine(headers[i]))
  }

  /** The `ValueError` of unpacking a text of `n` characters into two names, for `n` other than 2. */
  function UnpackError(n: nat): string {
    if n > 2 then "ValueError: too many values to unpack (expected 2)"
    else "ValueError: not enough values to unpack (expected 2, got " + NatToString(n) + ")"
  }

  /**
    `for key, value in headers` over the dictionary a parsed request holds: iterating it
    gives the names, and each name is unpacked as a text into its two characters. A name
    of another length raises `ValueError`, the first such name deciding the message.
  */
  function UnpackNames(headers: Headers): (r: Result<Headers>)
    ensures r.Ok? <==> forall i :: 0 <= i < |headers| ==> |headers[i].0| == 2
    ensures r.Ok? ==> |r.value| == |headers|
    ensures r.Ok? ==> forall i :: 0 <= i < |headers| ==> r.value[i] == ([headers[i].0[0]], [headers[i].0[1]])
    ensures r.Raised? ==> exists i :: (0 <= i < |headers| && |headers[i].0| != 2 &&
      r.error == UnpackError(|headers[i].0|) && forall j :: 0 <= j < i ==> |headers[j].0| == 2)
  {
    if |headers| == 0 then Ok([])
    else
      var name := headers[0].0;
      if |name| != 2 then Raised(UnpackError(|name|))
      else
        match UnpackNames(headers[1..])
        case Raised(e) =>
          ghost var i :| 0 <= i < |headers| - 1 && |headers[1..][i].0| != 2 && e == UnpackError(|headers[1..][i].0|)
            && forall j :: 0 <= j < i ==> |headers[1..][j].0| == 2;
          assert forall j :: 0 <= j < i + 1 ==> |headers[j].0| == 2 by {
            forall j | 0 <= j < i + 1 ensures |headers[j].0| == 2 {
              if j > 0 { assert headers[j] == headers[1..][j - 1]; }
            }
          }
          Raised(e)
        case Ok(rest) =>
          assert forall i :: 1 <= i < |headers| ==> headers[i] == headers[1..][i - 1];
          Ok([([name[0]], [name[1]])] + rest)
  }

  /**
    `header_lines` as written, on the dictionary every parsed request holds: each line is
    the first character of a two-character name, `: `, and its second character.
  */
  function HeaderLinesOfDictAsWritten(headers: Headers): (r: Result<seq<string>>)
    ensures r.Ok? <==> forall i :: 0 <= i < |headers| ==> |headers[i].0| == 2
    ensures r.Ok? ==> |r.value| == |headers|
    ensures r.Ok? ==> forall i :: 0 <= i < |headers| ==> r.value[i] == [headers[i].0[0]] + ": " + [headers[i].0[1]]
    ensures r.Raised? ==> r == Raised(UnpackNames(headers).error)
  {
    match UnpackNames(headers)
    case Raised(e) => Raised(e)
    case Ok(pairs) => Ok(HeaderLines(pairs))
  }

  /**
    As written, the header lines of a request with any header are never the `name: value`
    lines of its headers: a name of two characters gives `: ` one character in, where the
    name's own line has its second character.
  */
  lemma HeaderLinesOfDictNeverAgree(headers: Headers)
    requires |headers| > 0
    ensures HeaderLinesOfDictAsWritten(headers) != Ok(HeaderLines(headers))
  {
    var r := HeaderLinesOfDictAsWritten(headers);
    if r.Ok? {
      var name := headers[0].0;
      assert r.value[0][1] == ':';
      assert HeaderLines(headers)[0] == name + ": " + headers[0].1;
      assert HeaderLines(headers)[0][1] == name[1];
      assert HeaderLines(headers)[0][2] == ':';
      assert r.value[0][2] == ' ';
    }
  }

  /** Split at the first `:`, both sides trimmed: how header lines are read back. */
  function ReadHeaderLine(line: string): Option<(string, string)> {
    match SplitOnce(line, ":")
    case None => None
    case Some((name, value)) => Some((Strip(name), Strip(value)))
  }

  /**
    A header line reads back as its header when the name holds no `:` and neither part
    has whitespace at its ends.
  */
  lemma HeaderLineReadsBack(h: (string, string))
    requires ':' !in h.0
    requires Trimmed(h.0) && Trimmed(h.1)
    ensures ReadHeaderLine(HeaderLine(h)) == Some(h)
  {
    assert HeaderLine(h) == h.0 + ":" + (" " + h.1);
    SplitOnceAt(h.0, ":", " " + h.1);
    StripLeadingSpace(h.1);
  }

  /** A space in front does not survive `strip`. */
  lemma StripLeadingSpace(s: string)
    requires Trimmed(s)
    ensures Strip(" " + s) == s
  {
    assert (" " + s)[1..] == s;
    if |s| > 0 {
      StripUnspaced(s);
    }
  }

  /** Header names match without regard to ASCII case. */
  predicate NameMatches(h: (string, string), name: string) {
    Lower(h.0) == Lower(name)
  }

  /** The position of the first header whose name matches `name`. */
  function HeaderIndex(headers: Headers, name: string): (r: Option<nat>)
    ensures r.Some? ==> r.value < |headers| && NameMatches(headers[r.value], name)
    ensures r.Some? ==> forall j :: 0 <= j < r.value ==> !NameMatches(headers[j], name)
    ensures r.None? ==> forall j :: 0 <= j < |headers| ==> !NameMatches(headers[j], name)
  {
    if |headers| == 0 then None
    else if NameMatches(headers[0], name) then Some(0)
    else match HeaderIndex(headers[1..], name)
      case None => None
      case Some(i) => Some(i + 1)
  }

  /** `get_header(name)`: the value of the first header whose name matches, ignoring case. */
  function GetHeader(headers: Headers, name: string): (r: Option<string>)
    ensures r.None? <==> forall j :: 0 <= j < |headers| ==> !NameMatches(headers[j], name)
    ensures r.Some? ==> exists i :: (0 <= i < |headers| && NameMatches(headers[i], name) && r.value == headers[i].1
                                     && forall j :: 0 <= j < i ==> !NameMatches(headers[j], name))
  {
    match HeaderIndex(headers, name)
    case None => None
    case Some(i) => Some(headers[i].1)
  }

  /** The lookup ignores case in the name asked for as well. */
  lemma GetHeaderCaseInsensitive(headers: Headers, a: string, b: string)
    requires Lower(a) == Lower(b)
    ensures GetHeader(headers, a) == GetHeader(headers, b)
  {
    assert forall h :: NameMatches(h, a) == NameMatches(h, b);
    HeaderIndexSame(headers, a, b);
  }

  lemma {:induction false} HeaderIndexSame(headers: Headers, a: string, b: string)
    requires Lower(a) == Lower(b)
    ensures HeaderIndex(headers, a) == HeaderIndex(headers, b)
  {
    if |headers| > 0 {
      HeaderIndexSame(headers[1..], a, b);
    }
  }

  // ---------------------------------------------------------------------------
  // Request values

  /** `full_path`: the path, then `?` and the query string when there is a query. */
  function FullPath(r: Request): string {
    if |r.query| > 0 then r.path + "?" + QueryString(r.query).value else r.path
  }

  /** Reading a full path back at its first `?` recovers the path and the query string. */
  lemma FullPathSplitsBack(r: Request)
    requires '?' !in r.path
    ensures |r.query| == 0 ==> Find(FullPath(r), "?").None?
    ensures |r.query| > 0 ==> SplitOnce(FullPath(r), "?") == Some((r.path, QueryString(r.query).value))
  {
    if |r.query| == 0 {
      SingleCharFind(r.path, '?');
    } else {
      FindAfterCleanPrefix(r.path, "?", QueryString(r.query).value);
    }
  }

  /** `request_line`: `METHOD full_path HTTP/1.1`. */
  function RequestLine(r: Request): string {
    r.httpMethod + " " + FullPath(r) + " HTTP/1.1"
  }

  /** `str(port)` after a `:` when the port is truthy: a non-zero number or a non-empty text. */
  function PortSuffix(port: Option<Port>): string {
    match port
    case None => ""
    case Some(PortNumber(n)) => if n != 0 then ":" + IntToString(n) else ""
    case Some(PortText(text)) => if text != "" then ":" + text else ""
  }

  /** A port whose `str()` holds only characters an authority may hold: any number, or such a text. */
  predicate PlainPort(port: Option<Port>) {
    port.Some? && port.value.PortText? ==> forall k :: 0 <= k < |port.value.text| ==> IsHostChar(port.value.text[k])
  }

  /** The `TypeError` of concatenating `None` to a string. */
  const ConcatNone: string := "TypeError: can only concatenate str (not \"NoneType\") to str"

  /**
    `uri`: `protocol://host`, the port when it is truthy, then the full path.
    Python raises `TypeError` when the protocol or the host is `None`.
  */
  function Uri(r: Request): (u: Result<string>)
    ensures u.Ok? <==> r.protocol.Some? && r.host.Some?
  {
    if r.protocol.None? || r.host.None? then Raised(ConcatNone)
    else Ok(r.protocol.value + "://" + r.host.value + PortSuffix(r.port) + FullPath(r))
  }

  /** The characters an authority may hold without ending it or unbalancing its brackets. */
  predicate IsHostChar(c: char) {
    Urllib.IsNetlocChar(c) && c != '[' && c != ']'
  }

  lemma PortSuffixChars(port: Option<Port>)
    requires PlainPort(port)
    ensures forall k :: 0 <= k < |PortSuffix(port)| ==> IsHostChar(PortSuffix(port)[k])
  {
    if port.Some? && port.value.PortText? {
      var t := PortSuffix(port);
      forall k | 0 <= k < |t|
        ensures IsHostChar(t[k])
      {
        if k > 0 { assert t[k] == port.value.text[k - 1]; }
      }
    } else if port.Some? && port.value.n != 0 {
      var n := port.value.n;
      var digits := if n < 0 then NatToString(-n) else NatToString(n);
      assert forall k :: 0 <= k < |digits| ==> IsDigit(digits[k]);
      var t := IntToString(n);
      assert forall k :: 0 <= k < |t| ==> IsHostChar(t[k]) by {
        forall k | 0 <= k < |t|
          ensures IsHostChar(t[k])
        {
          if n < 0 && k > 0 { assert t[k] == digits[k - 1]; }
          else if n >= 0 { assert t[k] == digits[k]; }
        }
      }
    }
  }

  /**
    Splitting the URI of a request (section 3 of RFC 3986) gives back its protocol, its
    host with the port, its path and its query string, when the host holds no delimiter,
    the path starts with `/` and holds no `?`, and no `#` appears after the host.
  */
  lemma UriSplitsBack(r: Request)
    requires r.protocol == Some("http") || r.protocol == Some("https")
    requires r.host.Some? && forall k :: 0 <= k < |r.host.value| ==> IsHostChar(r.host.value[k])
    requires PlainPort(r.port)
    requires StartsWith(r.path, "/") && '?' !in r.path && '#' !in FullPath(r)
    ensures Uri(r).Ok?
    ensures Urllib.UrlSplit(Uri(r).value, "") == Ok(Urllib.SplitResult(r.protocol.value,
      r.host.value + PortSuffix(r.port), r.path,
      if |r.query| > 0 then QueryString(r.query).value else "", ""))
  {
    var netloc := r.host.value + PortSuffix(r.port);
    UriParts(r);
    NetlocHostChars(r.host.value, r.port);
    Urllib.SplitHttpUrl(r.protocol.value, netloc, FullPath(r));
    FullPathPartition(r);
  }

  /** The URI is the protocol, `:`, then `//`, the authority and the full path. */
  lemma UriParts(r: Request)
    requires r.protocol.Some? && r.host.Some?
    ensures Uri(r) == Ok(r.protocol.value + ":" + ("//" + (r.host.value + PortSuffix(r.port)) + FullPath(r)))
  {
    var p := r.protocol.value;
    var h := r.host.value;
    var t := PortSuffix(r.port);
    var f := FullPath(r);
    assert p + "://" + h + t + f == p + ":" + ("//" + (h + t) + f);
  }

  /** The authority of such a request holds only host characters. */
  lemma NetlocHostChars(host: string, port: Option<Port>)
    requires forall k :: 0 <= k < |host| ==> IsHostChar(host[k])
    requires PlainPort(port)
    ensures var netloc := host + PortSuffix(port);
      forall k :: 0 <= k < |netloc| ==> Urllib.IsNetlocChar(netloc[k]) && netloc[k] != '[' && netloc[k] != ']'
  {
    PortSuffixChars(port);
    var netloc := host + PortSuffix(port);
    forall k | 0 <= k < |netloc|
      ensures IsHostChar(netloc[k])
    {
      if k < |host| { assert netloc[k] == host[k]; }
      else { assert netloc[k] == PortSuffix(port)[k - |host|]; }
    }
  }

  /** The full path splits at its first `?` into the path and the query string. */
  lemma FullPathPartition(r: Request)
    requires '?' !in r.path
    ensures Urllib.Partition(FullPath(r), "?") == (r.path, if |r.query| > 0 then QueryString(r.query).value else "")
  {
    if |r.query| > 0 {
      FindAfterCleanPrefix(r.path, "?", QueryString(r.query).value);
    } else {
      SingleCharFind(r.path, '?');
    }
  }

  // ---------------------------------------------------------------------------
  // Response values

  /** `status_line`: `PROTOCOL STATUS REASON`, or `None` unless all three are truthy. */
  function StatusLine(r: Response): (s: Option<string>)
    ensures s.Some? <==> r.protocol != "" && r.status != 0 && r.reason.Some? && r.reason.value != ""
  {
    if r.protocol != "" && r.status != 0 && r.reason.Some? && r.reason.value != "" then
      Some(r.protocol + " " + IntToString(r.status) + " " + r.reason.value)
    else None
  }
}
