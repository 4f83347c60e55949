/**
  The parts of Python's `urllib.parse` the plug-in calls, written out as the Python 3.8
  library computes them: `quote` (percent-encoding, section 2.1 of RFC 3986), `unquote`,
  `urlparse` with its `hostname` and `port` attributes (the component split of section 3
  of RFC 3986), `parse_qs`, and `urljoin` (reference resolution, section 5.2 of RFC 3986,
  with the library's own dot-segment handling).
*/
module Urllib {
  import opened Wrappers
  import opened Strings
  import opened Decimal
  import opened Dict

  // ---------------------------------------------------------------------------
  // Percent-encoding

  /** The characters `quote` never escapes: letters, digits and `_.-~`. */
  predicate IsUnreserved(c: char) {
    'A' <= c <= 'Z' || 'a' <= c <= 'z' || '0' <= c <= '9' || c == '_' || c == '.' || c == '-' || c == '~'
  }

  /** `quote`'s default safe set adds `/`. */
  predicate IsQuoteSafe(c: char) {
    IsUnreserved(c) || c == '/'
  }

  predicate IsHexDigit(c: char) {
    '0' <= c <= '9' || 'A' <= c <= 'F' || 'a' <= c <= 'f'
  }

  function HexValue(c: char): (r: nat)
    requires IsHexDigit(c)
    ensures r < 16
  {
    if '0' <= c <= '9' then c as int - '0' as int
    else if 'A' <= c <= 'F' then c as int - 'A' as int + 10
    else c as int - 'a' as int + 10
  }

  /** The UTF-8 encoding of one character (a Unicode scalar value). */
  function Utf8(c: char): (r: seq<nat>)
    ensures 1 <= |r| <= 4
    ensures forall i :: 0 <= i < |r| ==> r[i] < 256
    ensures |r| == 1 <==> c as int < 0x80
    ensures |r| == 1 ==> r[0] == c as int
  {
    var n := c as int;
    if n < 0x80 then [n]
    else if n < 0x800 then [0xC0 + n / 64, 0x80 + n % 64]
    else if n < 0x10000 then [0xE0 + n / 4096, 0x80 + (n / 64) % 64, 0x80 + n % 64]
    else [0xF0 + n / 262144, 0x80 + (n / 4096) % 64, 0x80 + (n / 64) % 64, 0x80 + n % 64]
  }

  /** The upper-case hex digit for `d`. */
  function HexChar(d: nat): (c: char)
    requires d < 16
    ensures IsHexDigit(c) && HexValue(c) == d
  {
    if d < 10 then ('0' as int + d) as char else ('A' as int + d - 10) as char
  }

  /** `%XY` with upper-case hex digits. */
  function PercentByte(b: nat): (r: string)
    requires b < 256
    ensures |r| == 3 && r[0] == '%' && IsHexDigit(r[1]) && IsHexDigit(r[2])
    ensures HexValue(r[1]) * 16 + HexValue(r[2]) == b
  {
    ['%', HexChar(b / 16), HexChar(b % 16)]
  }

  function PercentBytes(bs: seq<nat>): (r: string)
    requires forall i :: 0 <= i < |bs| ==> bs[i] < 256
    ensures |r| == 3 * |bs|
  {
    if |bs| == 0 then "" else PercentByte(bs[0]) + PercentBytes(bs[1..])
  }

  function QuoteChar(c: char): string {
    if IsQuoteSafe(c) then [c] else PercentBytes(Utf8(c))
  }

  /** The characters `quote` can produce. */
  predicate IsQuotedChar(c: char) {
    IsQuoteSafe(c) || c == '%' || IsHexDigit(c)
  }

  /**
    `quote(s)`: safe characters are kept, every other character becomes the `%XY` escapes
    of its UTF-8 bytes.
  */
  function Quote(s: string): (r: string)
    ensures |r| >= |s|
    ensures forall k :: 0 <= k < |r| ==> IsQuotedChar(r[k])
    ensures (forall k :: 0 <= k < |s| ==> IsQuoteSafe(s[k])) ==> r == s
  {
    if |s| == 0 then ""
    else
      var head := QuoteChar(s[0]);
      var tail := Quote(s[1..]);
      QuoteCharAlphabet(s[0]);
      QuotedConcat(head, tail);
      head + tail
  }

  lemma QuoteCharAlphabet(c: char)
    ensures forall k :: 0 <= k < |QuoteChar(c)| ==> IsQuotedChar(QuoteChar(c)[k])
  {
    if !IsQuoteSafe(c) {
      PercentBytesAlphabet(Utf8(c));
    }
  }

  lemma QuotedConcat(a: string, b: string)
    requires forall k :: 0 <= k < |a| ==> IsQuotedChar(a[k])
    requires forall k :: 0 <= k < |b| ==> IsQuotedChar(b[k])
    ensures forall k :: 0 <= k < |a + b| ==> IsQuotedChar((a + b)[k])
  {
    forall k | 0 <= k < |a + b|
      ensures IsQuotedChar((a + b)[k])
    {
      if k >= |a| {
        assert (a + b)[k] == b[k - |a|];
      }
    }
  }

  lemma {:induction false} PercentBytesAlphabet(bs: seq<nat>)
    requires forall i :: 0 <= i < |bs| ==> bs[i] < 256
    ensures forall k :: 0 <= k < |PercentBytes(bs)| ==> IsQuotedChar(PercentBytes(bs)[k])
  {
    if |bs| > 0 {
      PercentBytesAlphabet(bs[1..]);
      var h := PercentByte(bs[0]);
      var t := PercentBytes(bs[1..]);
      forall k | 0 <= k < |h + t|
        ensures IsQuotedChar((h + t)[k])
      {
        if k >= |h| {
          assert (h + t)[k] == t[k - |h|];
        }
      }
    }
  }

  /**
    `unquote(s)`: every `%XY` escape of an ASCII byte becomes that character; anything
    else, including a `%` not followed by two hex digits, is kept as it is.
  */
  function Unquote(s: string): (r: string)
    ensures '%' !in s ==> r == s
    decreases |s|
  {
    if |s| == 0 then ""
    else if s[0] == '%' && |s| >= 3 && IsHexDigit(s[1]) && IsHexDigit(s[2])
      && HexValue(s[1]) * 16 + HexValue(s[2]) < 0x80
    then [(HexValue(s[1]) * 16 + HexValue(s[2])) as char] + Unquote(s[3..])
    else
      assert '%' !in s ==> '%' !in s[1..] by {
        forall k | 0 <= k < |s[1..]|
          ensures s[1..][k] == s[k + 1]
        {
        }
      }
      [s[0]] + Unquote(s[1..])
  }

  lemma UnquoteKeepsHead(c: char, t: string)
    requires c != '%'
    ensures Unquote([c] + t) == [c] + Unquote(t)
  {
    assert ([c] + t)[1..] == t;
  }

  lemma UnquoteDecodesHead(b: nat, t: string)
    requires b < 0x80
    ensures Unquote(PercentByte(b) + t) == [b as char] + Unquote(t)
  {
    var e := PercentByte(b);
    assert (e + t)[3..] == t;
    assert (e + t)[0] == '%' && (e + t)[1] == e[1] && (e + t)[2] == e[2];
  }

  /** `unquote` undoes `quote` on ASCII text. */
  lemma {:induction false} UnquoteQuote(s: string)
    requires forall k :: 0 <= k < |s| ==> s[k] as int < 0x80
    ensures Unquote(Quote(s)) == s
  {
    if |s| > 0 {
      var c := s[0];
      var tail := Quote(s[1..]);
      assert Quote(s) == QuoteChar(c) + tail;
      UnquoteQuote(s[1..]);
      if IsQuoteSafe(c) {
        UnquoteKeepsHead(c, tail);
      } else {
        assert Utf8(c) == [c as int];
        assert QuoteChar(c) == PercentByte(c as int);
        UnquoteDecodesHead(c as int, tail);
        assert (c as int) as char == c;
      }
      assert s == [c] + s[1..];
    }
  }

  // ---------------------------------------------------------------------------
  // `urlsplit` / `urlparse`

  /** The five components of `urlsplit`. */
  datatype SplitResult = SplitResult(scheme: string, netloc: string, path: string, query: string, fragment: string)

  /** `urlparse` adds the `;params` of the last path segment. */
  datatype ParseResult = ParseResult(scheme: string, netloc: string, path: string, params: string, query: string, fragment: string)

  predicate IsSchemeChar(c: char) {
    'a' <= c <= 'z' || 'A' <= c <= 'Z' || '0' <= c <= '9' || c == '+' || c == '-' || c == '.'
  }

  predicate AllSchemeChars(s: string) {
    forall k :: 0 <= k < |s| ==> IsSchemeChar(s[k])
  }

  /** The characters that end an authority (section 3.2 of RFC 3986). */
  predicate IsNetlocChar(c: char) {
    c != '/' && c != '?' && c != '#'
  }

  /**
    The scheme of `url` and what follows its `:`, or `default` and the whole of `url`.
    A non-empty name before the first `:` counts as a scheme when it is made of scheme
    characters, unless what follows is a non-empty run of digits, which makes the whole a
    `host:port`. The name `http` is taken without that test.
  */
  function SplitScheme(url: string, default: string): (r: (string, string))
    ensures r.1 == url || (exists i :: 0 < i < |url| && url[i] == ':' && r.1 == url[i + 1..])
  {
    match Find(url, ":")
    case None => (default, url)
    case Some(i) =>
      var name := url[..i];
      var rest := url[i + 1..];
      if i > 0 && name == "http" then ("http", rest)
      else if i > 0 && AllSchemeChars(name) && (|rest| == 0 || !AllDigits(rest)) then (Lower(name), rest)
      else (default, url)
  }

  /** A component and the rest, split at the first occurrence of `sep`; the rest is empty when there is none. */
  function Partition(s: string, sep: string): (r: (string, string))
    requires |sep| > 0
    ensures Find(s, sep).None? ==> r == (s, "")
    ensures Find(s, sep).Some? ==> s == r.0 + sep + r.1 && Find(r.0, sep).None?
  {
    match SplitOnce(s, sep)
    case Some(p) =>
      FirstPieceClean(s, sep, |p.0|);
      assert s[..|p.0|] == p.0;
      p
    case None => (s, "")
  }

  /** The messages of the `ValueError`s `urlsplit` and the `port` attribute raise. */
  const InvalidIPv6: string := "ValueError: Invalid IPv6 URL"
  const PortNotInteger: string := "ValueError: Port could not be cast to integer value"
  const PortOutOfRange: string := "ValueError: Port out of range 0-65535"

  /** `urlsplit(url, default)`; `Raised` is the `ValueError` for unbalanced brackets. */
  function UrlSplit(url: string, default: string): (r: Result<SplitResult>)
    ensures r.Ok? ==> forall k :: 0 <= k < |r.value.netloc| ==> IsNetlocChar(r.value.netloc[k])
    ensures r.Ok? ==> '?' !in r.value.path && '#' !in r.value.path && '#' !in r.value.query
    ensures r.Raised? <==> var n := SplitNetloc(SplitScheme(url, default).1).0; ('[' in n) != (']' in n)
  {
    var (scheme, rest) := SplitScheme(url, default);
    var (netloc, rest2) := SplitNetloc(rest);
    if ('[' in netloc) != (']' in netloc) then Raised(InvalidIPv6)
    else
      var (rest3, fragment) := Partition(rest2, "#");
      var (path, query) := Partition(rest3, "?");
      PathAndQueryClean(rest2);
      Ok(SplitResult(scheme, netloc, path, query, fragment))
  }

  /** After the fragment and then the query are split off, neither the path nor the query holds a `#`. */
  lemma PathAndQueryClean(rest: string)
    ensures var pq := Partition(Partition(rest, "#").0, "?");
      '?' !in pq.0 && '#' !in pq.0 && '#' !in pq.1
  {
    var rest3 := Partition(rest, "#").0;
    Partition1NoChar(rest, '#');
    Partition1NoChar(rest3, '?');
    var pq := Partition(rest3, "?");
    if Find(rest3, "?").Some? {
      assert rest3 == pq.0 + "?" + pq.1;
      assert '#' !in pq.0 && '#' !in pq.1 by {
        forall k | 0 <= k < |pq.0|
          ensures pq.0[k] != '#'
        {
          assert rest3[k] == pq.0[k];
        }
        forall k | 0 <= k < |pq.1|
          ensures pq.1[k] != '#'
        {
          assert rest3[|pq.0| + 1 + k] == pq.1[k];
        }
      }
    }
  }

  /** The piece before a one-character separator lacks it. */
  lemma Partition1NoChar(s: string, c: char)
    ensures c !in Partition(s, [c]).0
  {
    var p := Partition(s, [c]);
    if Find(s, [c]).None? {
      SingleCharFind(s, c);
    } else {
      SingleCharFind(p.0, c);
    }
  }

  /** The authority after a leading `//`, ended by the next `/`, `?` or `#`; no authority otherwise. */
  function SplitNetloc(url: string): (r: (string, string))
    ensures forall k :: 0 <= k < |r.0| ==> IsNetlocChar(r.0[k])
    ensures StartsWith(url, "//") ==> url == "//" + r.0 + r.1 && (r.1 == "" || !IsNetlocChar(r.1[0]))
    ensures !StartsWith(url, "//") ==> r == ("", url)
  {
    if StartsWith(url, "//") then
      var e := RunEnd(url, 2, IsNetlocChar);
      RunEndInClass(url, 2, IsNetlocChar);
      assert url == url[..2] + url[2..e] + url[e..];
      (url[2..e], url[e..])
    else ("", url)
  }

  /** `http` and `https` followed by `:` and a path are read as schemes. */
  lemma SplitSchemeHttp(scheme: string, rest: string)
    requires scheme == "http" || scheme == "https"
    requires StartsWith(rest, "/")
    ensures SplitScheme(scheme + ":" + rest, "") == (scheme, rest)
  {
    SplitOnceAt(scheme, ":", rest);
    var url := scheme + ":" + rest;
    assert url[..|scheme|] == scheme && url[|scheme| + 1..] == rest;
    if scheme == "https" {
      assert !AllDigits(rest) by { assert rest[0] == '/'; }
      assert AllSchemeChars(scheme);
      assert Lower(scheme) == scheme;
    }
  }

  /** After `//`, the authority is the text up to a following `/`. */
  lemma SplitNetlocOf(netloc: string, rest: string)
    requires forall k :: 0 <= k < |netloc| ==> IsNetlocChar(netloc[k])
    requires StartsWith(rest, "/")
    ensures SplitNetloc("//" + netloc + rest) == (netloc, rest)
  {
    var url := "//" + netloc + rest;
    assert url[2 + |netloc|] == '/';
    RunEndIs(url, 2, 2 + |netloc|, IsNetlocChar);
    assert url[2..2 + |netloc|] == netloc;
    assert url[2 + |netloc|..] == rest;
  }

  /** Whether `name` is one of `names`: the scheme tables are searched by name. */
  predicate Listed(name: string, names: seq<string>) {
    |names| > 0 && (names[0] == name || Listed(name, names[1..]))
  }

  /**
    An `http` or `https` URL with an authority free of delimiters and brackets, and a
    rooted path with no `#`, splits into the scheme, the authority, and the path and
    query on either side of the first `?`.
  */
  lemma SplitHttpUrl(scheme: string, netloc: string, fp: string)
    requires scheme == "http" || scheme == "https"
    requires forall k :: 0 <= k < |netloc| ==> IsNetlocChar(netloc[k]) && netloc[k] != '[' && netloc[k] != ']'
    requires StartsWith(fp, "/") && '#' !in fp
    ensures UrlSplit(scheme + ":" + ("//" + netloc + fp), "") ==
      Ok(SplitResult(scheme, netloc, Partition(fp, "?").0, Partition(fp, "?").1, ""))
  {
    var rest := "//" + netloc + fp;
    assert rest[0] == '/';
    SplitSchemeHttp(scheme, rest);
    SplitNetlocOf(netloc, fp);
    assert '[' !in netloc && ']' !in netloc;
    SingleCharFind(fp, '#');
  }

  /** The schemes for which `urlparse` splits off `;params`. */
  const UsesParams: seq<string> := ["", "ftp", "hdl", "prospero", "http", "imap", "https", "shttp",
    "rtsp", "rtspu", "sip", "sips", "mms", "sftp", "tel"]

  /** The schemes `urljoin` resolves relative references for. */
  const UsesRelative: seq<string> := ["", "ftp", "http", "gopher", "nntp", "imap", "wais", "file",
    "https", "shttp", "mms", "prospero", "rtsp", "rtspu", "sftp", "svn", "svn+ssh", "ws", "wss"]

  /** The schemes whose references carry an authority. */
  const UsesNetloc: seq<string> := ["", "ftp", "http", "gopher", "nntp", "telnet", "imap", "wais",
    "file", "mms", "https", "shttp", "snews", "prospero", "rtsp", "rtspu", "rsync", "svn",
    "svn+ssh", "sftp", "nfs", "git", "git+ssh", "ws", "wss"]

  /** `_splitparams`: the `;` that starts the parameters is the first one in the last segment. */
  function SplitParams(path: string): (r: (string, string))
    requires ';' in path
  {
    match RFindBefore(path, "/", |path|)
    case Some(slash) =>
      (match FindFrom(path, ";", slash)
       case None => (path, "")
       case Some(i) => (path[..i], path[i + 1..]))
    case None =>
      SingleCharFind(path, ';');
      var i := Find(path, ";").value;
      (path[..i], path[i + 1..])
  }

  /** `urlparse(url, default)`. */
  function UrlParse(url: string, default: string): (r: Result<ParseResult>)
    ensures r.Ok? <==> UrlSplit(url, default).Ok?
    ensures r.Ok? ==> (r.value.scheme == UrlSplit(url, default).value.scheme
                       && r.value.netloc == UrlSplit(url, default).value.netloc
                       && r.value.query == UrlSplit(url, default).value.query)
  {
    match UrlSplit(url, default)
    case Raised(e) => Raised(e)
    case Ok(p) =>
      if Listed(p.scheme, UsesParams) && ';' in p.path then
        var (path, params) := SplitParams(p.path);
        Ok(ParseResult(p.scheme, p.netloc, path, params, p.query, p.fragment))
      else Ok(ParseResult(p.scheme, p.netloc, p.path, "", p.query, p.fragment))
  }

  /** The host part of an authority and the text after its port `:`, as `_hostinfo` finds them. */
  function HostInfo(netloc: string): (r: (string, string))
  {
    var hostinfo := match RFindBefore(netloc, "@", |netloc|)
      case Some(at) => netloc[at + 1..]
      case None => netloc;
    if Find(hostinfo, "[").Some? then
      var bracketed := Partition(hostinfo, "[").1;
      var (host, after) := Partition(bracketed, "]");
      (host, Partition(after, ":").1)
    else Partition(hostinfo, ":")
  }

  /** The `hostname` attribute: `None` when empty, lower-cased before any `%` zone. */
  function Hostname(netloc: string): (r: Option<string>)
    ensures r.None? <==> HostInfo(netloc).0 == ""
  {
    var host := HostInfo(netloc).0;
    if host == "" then None
    else match SplitOnce(host, "%")
      case None => Some(Lower(host))
      case Some((name, zone)) => Some(Lower(name) + "%" + zone)
  }

  /** The `port` attribute: `None` without a port, `Raised` for text that is not a port in 0..65535. */
  function Port(netloc: string): (r: Result<Option<int>>)
    ensures r.Ok? && r.value.Some? ==> 0 <= r.value.value <= 65535
    ensures HostInfo(netloc).1 == "" ==> r == Ok(None)
  {
    PortOfText(HostInfo(netloc).1)
  }

  /** The port read from the text after the host's `:`. */
  function PortOfText(text: string): (r: Result<Option<int>>)
    ensures r.Ok? && r.value.Some? ==> 0 <= r.value.value <= 65535
    ensures text == "" ==> r == Ok(None)
  {
    if text == "" then Ok(None)
    else match ParseInt(text)
      case None => Raised(PortNotInteger)
      case Some(n) =>
        if 0 <= n <= 65535 then Ok(Some(n)) else Raised(PortOutOfRange)
  }

  /** For an authority `host:port` with a plain host, the attributes are the two parts. */
  lemma HostAndPort(host: string, port: nat)
    requires |host| > 0 && port <= 65535
    requires forall k :: 0 <= k < |host| ==> host[k] !in "@[:%" && !('A' <= host[k] <= 'Z')
    ensures Hostname(host + ":" + IntToString(port)) == Some(host)
    ensures Port(host + ":" + IntToString(port)) == Ok(Some(port))
  {
    var digits := IntToString(port);
    HostInfoOfHostPort(host, digits);
    HostnameOfPlain(host + ":" + digits, host);
    IntToStringRoundTrip(port);
    assert HostInfo(host + ":" + digits).1 == digits != "";
    PortOfNumber(digits, port);
  }

  /** The text after the `:` that ends a plain host is the port text. */
  lemma HostInfoOfHostPort(host: string, digits: string)
    requires forall k :: 0 <= k < |host| ==> host[k] !in "@[:%"
    requires forall k :: 0 <= k < |digits| ==> IsDigit(digits[k])
    ensures HostInfo(host + ":" + digits) == (host, digits)
  {
    var netloc := host + ":" + digits;
    HostPortAvoids(host, digits, '@');
    HostPortAvoids(host, digits, '[');
    SingleCharFind(netloc, '@');
    AbsentRFind(netloc, '@');
    SingleCharFind(netloc, '[');
    assert ':' !in host;
    FindAfterCleanPrefix(host, ":", digits);
  }

  lemma HostPortAvoids(host: string, digits: string, c: char)
    requires c !in host && c != ':' && !IsDigit(c)
    requires forall k :: 0 <= k < |digits| ==> IsDigit(digits[k])
    ensures c !in host + ":" + digits
  {
    var netloc := host + ":" + digits;
    forall k | 0 <= k < |netloc|
      ensures netloc[k] != c
    {
      if k < |host| { assert netloc[k] == host[k]; }
      else if k > |host| { assert netloc[k] == digits[k - |host| - 1]; }
    }
  }

  /** A host part with no `%` and no upper-case letter is the host name as it stands. */
  lemma HostnameOfPlain(netloc: string, host: string)
    requires HostInfo(netloc).0 == host && |host| > 0
    requires forall k :: 0 <= k < |host| ==> host[k] != '%' && !('A' <= host[k] <= 'Z')
    ensures Hostname(netloc) == Some(host)
  {
    assert '%' !in host;
    SingleCharFind(host, '%');
    assert Lower(host) == host;
  }

  /** Port text that reads as a number in range is the port; text that is no number is an error. */
  lemma PortOfNumber(text: string, port: int)
    requires text != ""
    ensures ParseInt(text) == Some(port) && 0 <= port <= 65535 <==> PortOfText(text) == Ok(Some(port))
    ensures ParseInt(text).None? ==> PortOfText(text).Raised?
  {
    var parsed := ParseInt(text);
    assert PortOfText(text) == if parsed.None? then Raised(PortNotInteger)
      else if 0 <= parsed.value <= 65535 then Ok(Some(parsed.value)) else Raised(PortOutOfRange);
  }

  /** An authority that is a plain lower-case host name has that name and no port. */
  lemma PlainHost(host: string)
    requires |host| > 0
    requires forall k :: 0 <= k < |host| ==> host[k] !in "@[:%" && !('A' <= host[k] <= 'Z')
    ensures Hostname(host) == Some(host)
    ensures Port(host) == Ok(None)
  {
    SingleCharFind(host, '@');
    AbsentRFind(host, '@');
    SingleCharFind(host, '[');
    SingleCharFind(host, ':');
    assert HostInfo(host) == (host, "");
    SingleCharFind(host, '%');
    assert Lower(host) == host;
  }

  /** A character that is absent has no last occurrence either. */
  lemma AbsentRFind(s: string, c: char)
    requires c !in s
    ensures RFindBefore(s, [c], |s|).None?
  {
    forall j | 0 <= j && j + 1 <= |s|
      ensures !OccursAt(s, [c], j)
    {
      assert s[j..j + 1][0] == s[j];
    }
  }

  /**
    Re-parsing a path with `//` in front, as section 3.2 of RFC 3986 reads it: the
    authority is everything up to the first `/`, `?` or `#`, and there is no scheme.
  */
  lemma AuthorityAfterSlashes(p: string)
    ensures UrlSplit("//" + p, "").Ok? ==>
      var parts := UrlSplit("//" + p, "").value;
      && parts.scheme == ""
      && p == parts.netloc + p[|parts.netloc|..]
      && (|parts.netloc| == |p| || !IsNetlocChar(p[|parts.netloc|]))
  {
    var url := "//" + p;
    assert SplitScheme(url, "") == ("", url) by {
      match Find(url, ":")
      case None =>
      case Some(i) =>
        if i > 0 {
          assert url[..i][0] == '/';
          assert !IsSchemeChar(url[..i][0]);
        }
    }
    var n := SplitNetloc(url);
    assert url[2..] == p;
  }

  // ---------------------------------------------------------------------------
  // `parse_qs`

  /** One `name=value` field with `+` read as a space and escapes decoded. */
  function DecodeComponent(s: string): string {
    Unquote(Replace(s, "+", " "))
  }

  /**
    The pairs `parse_qsl` reads from a query: fields are separated by `&`; empty fields,
    fields without `=` and fields with an empty value are dropped.
  */
  function QueryPairs(fields: seq<string>): (r: seq<(string, string)>)
    ensures |r| <= |fields|
  {
    if |fields| == 0 then []
    else
      var rest := QueryPairs(fields[1..]);
      match SplitOnce(fields[0], "=")
      case Some((name, value)) =>
        if |value| > 0 then [(DecodeComponent(name), DecodeComponent(value))] + rest else rest
      case None => rest
  }

  /** `parse_qs(query)`: each name with the list of its values, in order of first appearance. */
  function ParseQs(query: string): seq<(string, seq<string>)> {
    AppendAll([], QueryPairs(Split(query, "&")))
  }

  // ---------------------------------------------------------------------------
  // `urlunparse` and `urljoin`

  /** `urlunsplit`. */
  function UrlUnsplit(scheme: string, netloc: string, path: string, query: string, fragment: string): string {
    var withNetloc :=
      if netloc != "" || (scheme != "" && Listed(scheme, UsesNetloc) && !StartsWith(path, "//")) then
        "//" + netloc + (if path != "" && path[0] != '/' then "/" + path else path)
      else path;
    var withScheme := if scheme != "" then scheme + ":" + withNetloc else withNetloc;
    var withQuery := if query != "" then withScheme + "?" + query else withScheme;
    if fragment != "" then withQuery + "#" + fragment else withQuery
  }

  /** `urlunparse`. */
  function UrlUnparse(p: ParseResult): string {
    var path := if p.params != "" then p.path + ";" + p.params else p.path;
    UrlUnsplit(p.scheme, p.netloc, path, p.query, p.fragment)
  }

  /** `segments[1:-1] = filter(None, segments[1:-1])`: empty inner segments removed. */
  function DropInnerEmpty(segments: seq<string>): (r: seq<string>)
    requires |segments| >= 1
    ensures |r| >= 1 && r[0] == segments[0] && r[|r| - 1] == segments[|segments| - 1]
  {
    if |segments| <= 2 then segments
    else [segments[0]] + NonEmpty(segments[1..|segments| - 1]) + [segments[|segments| - 1]]
  }

  function NonEmpty(s: seq<string>): (r: seq<string>)
    ensures forall k :: 0 <= k < |r| ==> r[k] != ""
    ensures (forall k :: 0 <= k < |s| ==> s[k] != "") ==> r == s
  {
    if |s| == 0 then []
    else if s[0] == "" then NonEmpty(s[1..])
    else [s[0]] + NonEmpty(s[1..])
  }

  /** The loop of `urljoin` over the segments: `..` pops (when it can), `.` is skipped. */
  function ResolveDots(resolved: seq<string>, segments: seq<string>): (r: seq<string>)
    ensures (forall k :: 0 <= k < |segments| ==> segments[k] != "." && segments[k] != "..") ==> r == resolved + segments
    decreases |segments|
  {
    if |segments| == 0 then resolved
    else
      var seg := segments[0];
      var next :=
        if seg == ".." then (if |resolved| > 0 then resolved[..|resolved| - 1] else resolved)
        else if seg == "." then resolved
        else resolved + [seg];
      var r := ResolveDots(next, segments[1..]);
      assert seg != "." && seg != ".." ==> resolved + segments == next + segments[1..];
      r
  }

  /**
    The segments `urljoin` resolves: the reference's own segments when it starts with `/`,
    otherwise the base path's segments without the last one, then the reference's, with
    empty inner segments dropped.
  */
  function RefSegments(basePath: string, path: string): (r: seq<string>)
    ensures |r| >= 1
  {
    var baseParts := Split(basePath, "/");
    var dir := if baseParts[|baseParts| - 1] != "" then baseParts[..|baseParts| - 1] else baseParts;
    if StartsWith(path, "/") then Split(path, "/")
    else DropInnerEmpty(dir + Split(path, "/"))
  }

  /** `.` and `..` applied; a trailing dot segment leaves a trailing `/`; `/` when nothing is left. */
  function ResolvePath(segments: seq<string>): (r: string)
    requires |segments| >= 1
    ensures r != ""
  {
    var resolved := ResolveDots([], segments);
    var last := segments[|segments| - 1];
    var joined := Join("/", if last == "." || last == ".." then resolved + [""] else resolved);
    if joined == "" then "/" else joined
  }

  /** The path `urljoin` produces for a reference path against a base path. */
  function MergePath(basePath: string, path: string): string {
    ResolvePath(RefSegments(basePath, path))
  }

  /** Without dot segments the resolution only joins the segments back. */
  lemma ResolveWithoutDots(segments: seq<string>)
    requires |segments| >= 1
    requires forall k :: 0 <= k < |segments| ==> segments[k] != "." && segments[k] != ".."
    ensures ResolvePath(segments) == (if Join("/", segments) == "" then "/" else Join("/", segments))
  {
    assert ResolveDots([], segments) == segments;
  }

  /** `urljoin(base, url)`; `Raised` when either side fails to parse. */
  function UrlJoin(base: string, url: string): (r: Result<string>)
  {
    if base == "" then Ok(url)
    else if url == "" then Ok(base)
    else match UrlParse(base, "")
      case Raised(e) => Raised(e)
      case Ok(b) =>
        match UrlParse(url, b.scheme)
        case Raised(e) => Raised(e)
        case Ok(u) =>
          if u.scheme != b.scheme || !Listed(u.scheme, UsesRelative) then Ok(url)
          else if Listed(u.scheme, UsesNetloc) && u.netloc != "" then Ok(UrlUnparse(u))
          else
            var netloc := if Listed(u.scheme, UsesNetloc) then b.netloc else u.netloc;
            if u.path == "" && u.params == "" then
              Ok(UrlUnparse(ParseResult(u.scheme, netloc, b.path, b.params,
                if u.query == "" then b.query else u.query, u.fragment)))
            else
              Ok(UrlUnparse(ParseResult(u.scheme, netloc, MergePath(b.path, u.path),
                u.params, u.query, u.fragment)))
  }

  /** Text with none of the characters that delimit a scheme, a query, a fragment or parameters. */
  predicate IsPlain(s: string) {
    forall k :: 0 <= k < |s| ==> s[k] != ':' && s[k] != '?' && s[k] != '#' && s[k] != ';'
  }

  /** A path segment that `urljoin` keeps as it is. */
  predicate IsPlainSegment(seg: string) {
    |seg| > 0 && IsPlain(seg) && '/' !in seg && seg != "." && seg != ".."
  }

  /** Plain text that does not start with `//` parses as a path and nothing else. */
  lemma PlainParse(s: string, default: string)
    requires IsPlain(s) && !StartsWith(s, "//")
    ensures UrlParse(s, default) == Ok(ParseResult(default, "", s, "", "", ""))
  {
    SingleCharFind(s, ':');
    SingleCharFind(s, '#');
    SingleCharFind(s, '?');
    assert ';' !in s;
  }

  /** `//authority/path` with no scheme, query, fragment or parameters parses into its authority and path. */
  lemma AuthorityPathParse(netloc: string, rest: string)
    requires forall k :: 0 <= k < |netloc| ==> IsNetlocChar(netloc[k]) && netloc[k] != ':'
    requires '[' !in netloc && ']' !in netloc
    requires StartsWith(rest, "/") && IsPlain(rest)
    ensures UrlParse("//" + netloc + rest, "") == Ok(ParseResult("", netloc, rest, "", "", ""))
  {
    var url := "//" + netloc + rest;
    NoColonAfterSlashes(netloc, rest);
    SingleCharFind(url, ':');
    assert SplitScheme(url, "") == ("", url);
    SplitNetlocOf(netloc, rest);
    SingleCharFind(rest, '#');
    SingleCharFind(rest, '?');
    assert ';' !in rest;
  }

  lemma NoColonAfterSlashes(netloc: string, rest: string)
    requires forall k :: 0 <= k < |netloc| ==> netloc[k] != ':'
    requires IsPlain(rest)
    ensures ':' !in "//" + netloc + rest
  {
    var url := "//" + netloc + rest;
    forall k | 0 <= k < |url|
      ensures url[k] != ':'
    {
      if 2 <= k < 2 + |netloc| { assert url[k] == netloc[k - 2]; }
      else if k >= 2 + |netloc| { assert url[k] == rest[k - 2 - |netloc|]; }
    }
  }

  /** Between plain paths, `urljoin` is the path merge alone. */
  lemma PlainJoin(base: string, path: string)
    requires base != "" && IsPlain(base) && !StartsWith(base, "//")
    requires path != "" && IsPlain(path) && !StartsWith(path, "//")
    ensures UrlJoin(base, path) == Ok(MergePath(base, path))
  {
    PlainParse(base, "");
    PlainParse(path, "");
    assert Listed("", UsesRelative) && Listed("", UsesNetloc);
    var merged := MergePath(base, path);
    assert UrlUnparse(ParseResult("", "", merged, "", "", "")) == merged;
  }

  /** An absolute path without dot segments replaces the base path (section 5.2.2 of RFC 3986). */
  lemma UrlJoinAbsolutePath(base: string, path: string)
    requires base != "" && IsPlain(base) && !StartsWith(base, "//")
    requires IsPlain(path) && StartsWith(path, "/") && !StartsWith(path, "//")
    requires forall k :: 0 <= k < |Split(path, "/")| ==> Split(path, "/")[k] != "." && Split(path, "/")[k] != ".."
    ensures UrlJoin(base, path) == Ok(path)
  {
    PlainJoin(base, path);
    assert RefSegments(base, path) == Split(path, "/");
    ResolveWithoutDots(Split(path, "/"));
  }

  lemma {:induction false} NonEmptyAppend(a: seq<string>, b: seq<string>)
    ensures NonEmpty(a + b) == NonEmpty(a) + NonEmpty(b)
    decreases |a|
  {
    if |a| > 0 {
      NonEmptyAppend(a[1..], b);
      assert (a + b)[1..] == a[1..] + b;
    } else {
      assert a + b == b;
    }
  }

  /** `"/" + "/".join(parts)`, the absolute path with these segments. */
  function AbsolutePath(parts: seq<string>): string {
    Join("/", [""] + parts)
  }

  lemma AbsolutePathShape(parts: seq<string>)
    requires |parts| >= 1
    requires forall k :: 0 <= k < |parts| ==> IsPlain(parts[k]) && '/' !in parts[k]
    requires |parts[0]| > 0 || |parts| == 1
    ensures AbsolutePath(parts) == "/" + Join("/", parts)
    ensures IsPlain(AbsolutePath(parts)) && !StartsWith(AbsolutePath(parts), "//")
    ensures Split(AbsolutePath(parts), "/") == [""] + parts
  {
    AbsolutePathIs(parts);
    JoinPlain(parts);
    JoinHead(parts);
    PlainAfterSlash(Join("/", parts));
    SegmentsAvoidSlash(parts);
    SplitJoin("/", [""] + parts);
  }

  lemma AbsolutePathIs(parts: seq<string>)
    requires |parts| >= 1
    ensures AbsolutePath(parts) == "/" + Join("/", parts)
  {
    assert ([""] + parts)[1..] == parts;
    assert "" + "/" + Join("/", parts) == "/" + Join("/", parts);
  }

  lemma JoinHead(parts: seq<string>)
    requires |parts| >= 1 && '/' !in parts[0]
    requires |parts[0]| > 0 || |parts| == 1
    ensures Join("/", parts) == "" || Join("/", parts)[0] != '/'
  {
    if |parts| > 1 {
      assert Join("/", parts) == parts[0] + "/" + Join("/", parts[1..]);
      assert Join("/", parts)[0] == parts[0][0];
      assert parts[0][0] in parts[0];
    }
  }

  lemma PlainAfterSlash(j: string)
    requires IsPlain(j) && (j == "" || j[0] != '/')
    ensures IsPlain("/" + j) && !StartsWith("/" + j, "//")
  {
    var t := "/" + j;
    assert forall k :: 1 <= k < |t| ==> t[k] == j[k - 1];
    if |t| >= 2 {
      assert t[..2][1] == t[1] == j[0];
    }
  }

  lemma SegmentsAvoidSlash(parts: seq<string>)
    requires forall k :: 0 <= k < |parts| ==> '/' !in parts[k]
    ensures forall k :: 0 <= k < |[""] + parts| ==> '/' !in ([""] + parts)[k]
  {
    forall k | 0 <= k < |[""] + parts|
      ensures '/' !in ([""] + parts)[k]
    {
      if k > 0 { assert ([""] + parts)[k] == parts[k - 1]; }
    }
  }

  lemma {:induction false} JoinPlain(parts: seq<string>)
    requires forall k :: 0 <= k < |parts| ==> IsPlain(parts[k])
    ensures IsPlain(Join("/", parts))
    decreases |parts|
  {
    if |parts| > 1 {
      JoinPlain(parts[1..]);
      var a := parts[0];
      var b := Join("/", parts[1..]);
      forall k | 0 <= k < |a + "/" + b|
        ensures (a + "/" + b)[k] !in ":?#;"
      {
        if k < |a| { assert (a + "/" + b)[k] == a[k]; }
        else if k > |a| { assert (a + "/" + b)[k] == b[k - |a| - 1]; }
      }
    }
  }

  /**
    A relative reference of one plain segment replaces the last segment of the base path
    (the merge of section 5.2.3 of RFC 3986); a base ending in `/` keeps all its segments.
  */
  lemma UrlJoinRelativeSegment(dirs: seq<string>, last: string, seg: string)
    requires forall k :: 0 <= k < |dirs| ==> IsPlainSegment(dirs[k])
    requires IsPlain(last) && '/' !in last
    requires IsPlainSegment(seg)
    ensures UrlJoin(AbsolutePath(dirs + [last]), seg) == Ok(AbsolutePath(dirs + [seg]))
  {
    var base := AbsolutePath(dirs + [last]);
    BasePathPlain(dirs, last);
    SegmentNotRooted(seg);
    PlainJoin(base, seg);
    MergeRelativeSegment(dirs, last, seg);
  }

  /** The base path built from plain segments is plain text that does not start with `//`. */
  lemma BasePathPlain(dirs: seq<string>, last: string)
    requires forall k :: 0 <= k < |dirs| ==> IsPlainSegment(dirs[k])
    requires IsPlain(last) && '/' !in last
    ensures var base := AbsolutePath(dirs + [last]);
      base != "" && IsPlain(base) && !StartsWith(base, "//")
  {
    var parts := dirs + [last];
    forall k | 0 <= k < |parts|
      ensures IsPlain(parts[k]) && '/' !in parts[k]
    {
      if k < |dirs| { assert parts[k] == dirs[k]; }
    }
    AbsolutePathShape(parts);
  }

  lemma SegmentNotRooted(seg: string)
    requires IsPlainSegment(seg)
    ensures seg != "" && IsPlain(seg) && !StartsWith(seg, "//") && !StartsWith(seg, "/")
  {
    assert seg[0] in seg;
    assert seg[..1][0] == seg[0];
  }

  lemma MergeRelativeSegment(dirs: seq<string>, last: string, seg: string)
    requires forall k :: 0 <= k < |dirs| ==> IsPlainSegment(dirs[k])
    requires IsPlain(last) && '/' !in last
    requires IsPlainSegment(seg)
    ensures MergePath(AbsolutePath(dirs + [last]), seg) == AbsolutePath(dirs + [seg])
  {
    var segments := [""] + (dirs + [seg]);
    assert [""] + dirs + [seg] == segments;
    RefSegmentsRelative(dirs, last, seg);
    SegmentsHaveNoDots(dirs, seg);
    ResolveWithoutDots(segments);
    AbsolutePathIs(dirs + [seg]);
  }

  lemma SegmentsHaveNoDots(dirs: seq<string>, seg: string)
    requires forall k :: 0 <= k < |dirs| ==> IsPlainSegment(dirs[k])
    requires IsPlainSegment(seg)
    ensures var segments := [""] + (dirs + [seg]);
      forall k :: 0 <= k < |segments| ==> segments[k] != "." && segments[k] != ".."
  {
    var segments := [""] + (dirs + [seg]);
    forall k | 0 <= k < |segments|
      ensures segments[k] != "." && segments[k] != ".."
    {
      if 0 < k <= |dirs| { assert segments[k] == dirs[k - 1]; }
    }
  }

  lemma RefSegmentsRelative(dirs: seq<string>, last: string, seg: string)
    requires forall k :: 0 <= k < |dirs| ==> IsPlainSegment(dirs[k])
    requires IsPlain(last) && '/' !in last
    requires IsPlainSegment(seg)
    ensures RefSegments(AbsolutePath(dirs + [last]), seg) == [""] + dirs + [seg]
  {
    var base := AbsolutePath(dirs + [last]);
    AbsolutePathShape(dirs + [last]);
    SingleCharFind(seg, '/');
    assert Split(seg, "/") == [seg];
    var baseParts := [""] + dirs + [last];
    assert Split(base, "/") == baseParts;
    var dir := if last != "" then [""] + dirs else [""] + dirs + [""];
    assert (if baseParts[|baseParts| - 1] != "" then baseParts[..|baseParts| - 1] else baseParts) == dir;
    DropInnerEmptyOfDirs(dirs, last, seg);
  }

  lemma DropInnerEmptyOfDirs(dirs: seq<string>, last: string, seg: string)
    requires forall k :: 0 <= k < |dirs| ==> IsPlainSegment(dirs[k])
    ensures var dir := if last != "" then [""] + dirs else [""] + dirs + [""];
      DropInnerEmpty(dir + [seg]) == [""] + dirs + [seg]
  {
    var dir := if last != "" then [""] + dirs else [""] + dirs + [""];
    var all := dir + [seg];
    if |all| > 2 {
      var inner := all[1..|all| - 1];
      if last != "" {
        assert inner == dirs;
      } else {
        assert inner == dirs + [""];
        NonEmptyAppend(dirs, [""]);
      }
      assert NonEmpty(inner) == dirs;
    }
  }
}
