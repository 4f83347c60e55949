/**
  The response pipeline of `rester/http.py`: choosing and trying response encodings,
  inflating and decoding a body, validating a request, the two clients' mapping of
  network and process failures to messages, the curl argument list and the reading of
  curl's output. The calls the module makes into Python's libraries (`bytes.decode`,
  `zlib.decompress`, `json.loads`) and the network or the curl process are parameters.
*/
module Http {
  import opened Wrappers
  import opened Strings
  import opened Decimal
  import opened Util
  import opened Dict
  import opened Message
  import Settings

  // ---------------------------------------------------------------------------
  // What the plug-in asks of Python's libraries

  /** What `data.decode(name)` does: a text, `UnicodeDecodeError`, or `LookupError` for an unknown codec. */
  datatype Decoded = Text(text: string) | BadBytes | NoSuchCodec

  type Codec = (seq<byte>, string) -> Decoded

  /** `zlib.decompress(data, 15 + 32)`; `None` is `zlib.error`. */
  type Inflate = seq<byte> -> Option<seq<byte>>

  /**
    The settings a request thread reads when it is made. `timeout` is `str()` of the
    `timeout` setting when that is truthy (an integer, a float or a text) and `None` otherwise.
  */
  datatype ThreadConfig = ThreadConfig(
    encodings: seq<string>,
    timeout: Option<string>,
    eol: string,
    command: string,
    options: seq<string>)

  /** Texts of the exceptions that end a request thread. */
  const UnknownEncoding: string := "LookupError: unknown encoding: "
  const ZlibError: string := "zlib.error: Error -3 while decompressing data"
  const ListIndexNotStr: string := "TypeError: list indices must be integers or slices, not str"
  const SocketError: string := "OSError: the request could not be sent"

  // ---------------------------------------------------------------------------
  // Decoding

  /** How `decode` ends: the first text, `DecodeError` when no candidate fits, or an unknown codec's `LookupError`. */
  datatype Decoding = Decoded(text: string) | NoneFits | UnknownCodec(name: string)

  /** The loop of `decode` from the `i`-th candidate on: only `UnicodeDecodeError` moves it along. */
  function DecodeFrom(data: seq<byte>, encodings: seq<string>, i: nat, codec: Codec): Decoding
    requires i <= |encodings|
    decreases |encodings| - i
  {
    if i == |encodings| then NoneFits
    else match codec(data, encodings[i])
      case Text(t) => Decoded(t)
      case BadBytes => DecodeFrom(data, encodings, i + 1, codec)
      case NoSuchCodec => UnknownCodec(encodings[i])
  }

  /** `decode(data, encodings)`. */
  function Decode(data: seq<byte>, encodings: seq<string>, codec: Codec): Decoding {
    DecodeFrom(data, encodings, 0, codec)
  }

  /** For each candidate, whether trying it ends the loop. */
  function Stops(data: seq<byte>, encodings: seq<string>, codec: Codec): (r: seq<bool>)
    ensures |r| == |encodings|
  {
    seq(|encodings|, i requires 0 <= i < |encodings| => !codec(data, encodings[i]).BadBytes?)
  }

  /**
    `decode` is settled by the first candidate whose codec does not reject the bytes:
    its text, or its `LookupError`; with no such candidate (an empty list included) it is
    `DecodeError`.
  */
  lemma DecodeIsFirstFit(data: seq<byte>, encodings: seq<string>, codec: Codec)
    ensures var first := FirstTrue(Stops(data, encodings, codec), 0);
      (first.None? <==> Decode(data, encodings, codec) == NoneFits) &&
      (first.Some? && codec(data, encodings[first.value]).Text? ==>
         Decode(data, encodings, codec) == Decoded(codec(data, encodings[first.value]).text)) &&
      (first.Some? && codec(data, encodings[first.value]).NoSuchCodec? ==>
         Decode(data, encodings, codec) == UnknownCodec(encodings[first.value]))
  {
    DecodeFromIsFirstFit(data, encodings, 0, codec);
  }

  lemma {:induction false} DecodeFromIsFirstFit(data: seq<byte>, encodings: seq<string>, i: nat, codec: Codec)
    requires i <= |encodings|
    ensures var first := FirstTrue(Stops(data, encodings, codec), i);
      (first.None? <==> DecodeFrom(data, encodings, i, codec) == NoneFits) &&
      (first.Some? && codec(data, encodings[first.value]).Text? ==>
         DecodeFrom(data, encodings, i, codec) == Decoded(codec(data, encodings[first.value]).text)) &&
      (first.Some? && codec(data, encodings[first.value]).NoSuchCodec? ==>
         DecodeFrom(data, encodings, i, codec) == UnknownCodec(encodings[first.value]))
    decreases |encodings| - i
  {
    if i < |encodings| && codec(data, encodings[i]).BadBytes? {
      DecodeFromIsFirstFit(data, encodings, i + 1, codec);
    }
  }

  /** Append each default not yet listed, in order: the loop at the end of `_decode_body`. */
  function AddMissing(found: seq<string>, defaults: seq<string>): (r: seq<string>)
    ensures |found| <= |r| && r[..|found|] == found
    ensures forall e :: e in r <==> e in found || e in defaults
    ensures forall i :: |found| <= i < |r| ==> r[i] !in found
    ensures forall i, j :: |found| <= i < j < |r| ==> r[i] != r[j]
    decreases |defaults|
  {
    if |defaults| == 0 then found
    else if defaults[0] in found then AddMissing(found, defaults[1..])
    else
      var r := AddMissing(found + [defaults[0]], defaults[1..]);
      assert r[|found|] == (found + [defaults[0]])[|found|];
      r
  }

  /** The charset a content-type header names, when the header is truthy and names one. */
  function HeaderCharset(contentType: Option<string>): Option<string> {
    if contentType.Some? && contentType.value != "" then ScanStringForEncoding(contentType.value) else None
  }

  /** A found name, as the one-element list it contributes when it is truthy. */
  function IfTruthy(name: Option<string>): seq<string> {
    if name.Some? && name.value != "" then [name.value] else []
  }

  /** The encodings found before the defaults: the content-type's charset, then the body's own declaration. */
  function Sniffed(contentType: Option<string>, data: seq<byte>): (r: seq<string>)
    ensures |r| <= 2
  {
    IfTruthy(HeaderCharset(contentType)) + IfTruthy(ScanBytesForEncoding(data))
  }

  /**
    The candidate encodings of `_decode_body`, in order: a charset in the content-type
    comes first and the body's declaration next; every default is tried, each once, after
    them; nothing else is tried.
  */
  function Candidates(contentType: Option<string>, data: seq<byte>, defaults: seq<string>): (r: seq<string>)
    ensures var h := IfTruthy(HeaderCharset(contentType));
      var b := IfTruthy(ScanBytesForEncoding(data));
      |h + b| <= |r| && r[..|h + b|] == h + b &&
      (forall d :: d in defaults ==> d in r) &&
      (forall e :: e in r ==> e in defaults || e in h || e in b) &&
      (forall i, j :: |h + b| <= i < j < |r| ==> r[i] != r[j])
  {
    AddMissing(Sniffed(contentType, data), defaults)
  }

  const Undecodable: string := "{Unable to decode body}"

  /**
    `_decode_body`: the first candidate that fits gives the text; when none fits the body is
    the placeholder; an unknown codec name propagates.
  */
  function DecodeBody(data: seq<byte>, contentType: Option<string>, defaults: seq<string>, codec: Codec): (r: Result<string>)
    ensures var encodings := Candidates(contentType, data, defaults);
      var first := FirstTrue(Stops(data, encodings, codec), 0);
      (first.None? ==> r == Ok(Undecodable)) &&
      (first.Some? && codec(data, encodings[first.value]).Text? ==> r == Ok(codec(data, encodings[first.value]).text)) &&
      (first.Some? && codec(data, encodings[first.value]).NoSuchCodec? ==> r.Raised?)
  {
    var encodings := Candidates(contentType, data, defaults);
    DecodeIsFirstFit(data, encodings, codec);
    match Decode(data, encodings, codec)
    case Decoded(t) => Ok(t)
    case NoneFits => Ok(Undecodable)
    case UnknownCodec(name) => Raised(UnknownEncoding + name)
  }

  // ---------------------------------------------------------------------------
  // Inflating

  /** The inflated bytes, or the `zlib.error` of data that is not zlib or gzip. */
  function Inflated(data: seq<byte>, inflate: Inflate): Result<seq<byte>> {
    match inflate(data)
    case None => Raised(ZlibError)
    case Some(d) => Ok(d)
  }

  predicate Mentions(contentEncoding: Option<string>, name: string) {
    contentEncoding.Some? && contentEncoding.value != "" && Contains(Lower(contentEncoding.value), name)
  }

  /** `_unzip_body` as written: it inflates for `gzip` and for the misspelling `defalte`. */
  function UnzipBodyAsWritten(data: seq<byte>, contentEncoding: Option<string>, inflate: Inflate): (r: Result<seq<byte>>)
    ensures !Mentions(contentEncoding, "gzip") && !Mentions(contentEncoding, "defalte") ==> r == Ok(data)
  {
    if Mentions(contentEncoding, "gzip") || Mentions(contentEncoding, "defalte") then Inflated(data, inflate)
    else Ok(data)
  }

  /** `_unzip_body` with the encoding spelt `deflate`, as section 8.4.1.2 of RFC 7230 names it. */
  function UnzipBody(data: seq<byte>, contentEncoding: Option<string>, inflate: Inflate): (r: Result<seq<byte>>)
    ensures !Mentions(contentEncoding, "gzip") && !Mentions(contentEncoding, "deflate") ==> r == Ok(data)
    ensures Mentions(contentEncoding, "deflate") ==> r == Inflated(data, inflate)
  {
    if Mentions(contentEncoding, "gzip") || Mentions(contentEncoding, "deflate") then Inflated(data, inflate)
    else Ok(data)
  }

  /** A `deflate` body passes through undecompressed as written, and is inflated once the name is spelt right. */
  lemma DeflateSkippedAsWritten(data: seq<byte>, inflate: Inflate)
    ensures UnzipBodyAsWritten(data, Some("deflate"), inflate) == Ok(data)
    ensures UnzipBody(data, Some("deflate"), inflate) == Inflated(data, inflate)
  {
    LowerOfLower("deflate");
    AbsentCharNoOccurrence("deflate", "gzip", 0);
    assert "deflate"[3] != "defalte"[3];
    SameLengthFind("deflate", "defalte");
    assert OccursAt("deflate", "deflate", 0);
  }

  lemma LowerOfLower(s: string)
    requires forall i :: 0 <= i < |s| ==> 'a' <= s[i] <= 'z'
    ensures Lower(s) == s
  {
  }

  /** Apart from the two spellings the corrected trigger is the written one. */
  lemma UnzipAgrees(data: seq<byte>, contentEncoding: Option<string>, inflate: Inflate)
    requires !Mentions(contentEncoding, "deflate") && !Mentions(contentEncoding, "defalte")
    ensures UnzipBodyAsWritten(data, contentEncoding, inflate) == UnzipBody(data, contentEncoding, inflate)
  {
  }

  /** The facts normalisation gives a body. */
  lemma NormalizedBody(text: string, eol: string)
    ensures IsEol(eol) ==> NormalizeLineEndings(NormalizeLineEndings(text, eol), eol) == NormalizeLineEndings(text, eol)
    ensures eol == "\n" ==> '\r' !in NormalizeLineEndings(text, eol)
    ensures eol == "\r" ==> '\n' !in NormalizeLineEndings(text, eol)
  {
    if IsEol(eol) {
      NormalizeIdempotent(text, eol);
    }
    NormalizeLfHasNoCr(text);
    NormalizeCrHasNoLf(text);
  }

  /**
    `_read_body`, given the response's `content-type` and `content-encoding` values: an empty
    body is `None`; otherwise inflate, decode, and put the line endings in `eol` form.
  */
  function ReadBody(data: seq<byte>, contentType: Option<string>, contentEncoding: Option<string>,
                    cfg: ThreadConfig, codec: Codec, inflate: Inflate): (r: Result<Option<string>>)
    ensures r == Ok(None) <==> |data| == 0
    ensures r.Ok? && r.value.Some? && IsEol(cfg.eol) ==> NormalizeLineEndings(r.value.value, cfg.eol) == r.value.value
    ensures r.Ok? && r.value.Some? && cfg.eol == "\n" ==> '\r' !in r.value.value
    ensures r.Ok? && r.value.Some? && cfg.eol == "\r" ==> '\n' !in r.value.value
  {
    if |data| == 0 then Ok(None)
    else match UnzipBody(data, contentEncoding, inflate)
      case Raised(e) => Raised(e)
      case Ok(inflated) =>
        match DecodeBody(inflated, contentType, cfg.encodings, codec)
        case Raised(e) => Raised(e)
        case Ok(text) =>
          NormalizedBody(text, cfg.eol);
          Ok(Some(NormalizeLineEndings(text, cfg.eol)))
  }

  // ---------------------------------------------------------------------------
  // Validation

  const NoHostname: string := "Unable to make request. Please provide a hostname."

  predicate HasHost(r: Request) {
    r.host.Some? && r.host.value != ""
  }

  predicate WebProtocol(r: Request) {
    r.protocol == Some("http") || r.protocol == Some("https")
  }

  /**
    `_validate_request`: `Ok(None)` lets the request go, `Ok(Some(message))` stops it. A missing
    protocol makes the message concatenation raise `TypeError`.
  */
  function ValidateRequest(r: Request): (v: Result<Option<string>>)
    ensures !HasHost(r) ==> v == Ok(Some(NoHostname))
    ensures HasHost(r) ==> (v == Ok(None) <==> WebProtocol(r))
    ensures HasHost(r) && !WebProtocol(r) && r.protocol.Some? ==>
      v == Ok(Some("Unsupported protocol " + r.protocol.value + ". Use http of https"))
    ensures v.Raised? <==> HasHost(r) && r.protocol.None?
  {
    if !HasHost(r) then Ok(Some(NoHostname))
    else if WebProtocol(r) then Ok(None)
    else if r.protocol.None? then Raised(ConcatNone)
    else Ok(Some("Unsupported protocol " + r.protocol.value + ". Use http of https"))
  }

  /** A request that passes validation has a URI, and it starts with its protocol's name. */
  lemma ValidRequestHasUri(r: Request)
    requires ValidateRequest(r) == Ok(None)
    ensures Uri(r).Ok? && StartsWith(Uri(r).value, "http")
  {
    var u := Uri(r).value;
    assert u == r.protocol.value + "://" + r.host.value + PortSuffix(r.port) + FullPath(r);
    assert u[..4] == r.protocol.value[..4];
  }

  // ---------------------------------------------------------------------------
  // curl exit codes

  const CurlExitPrefix: string := "cURL exited with error code "
  const CannotResolve: string := "Unable to resolve host."
  const CannotConnect: string := "Unable to connect."
  const OperationTimedOut: string := "Operation timed out."

  /** `_read_curl_error`: the message for a non-zero exit code of curl. */
  function CurlErrorMessage(code: int, protocol: Option<string>): (m: Result<string>)
    ensures m.Raised? <==> code == 1 && protocol.None?
  {
    if code == 1 then
      if protocol.None? then Raised(ConcatNone) else Ok("Unsupported protocol " + protocol.value + "Use http of https")
    else if code == 6 then Ok(CannotResolve)
    else if code == 7 then Ok(CannotConnect)
    else if code == 28 then Ok(OperationTimedOut)
    else Ok(CurlExitPrefix + IntToString(code))
  }

  /** The code of an exit curl has no message for reads back from the message's tail. */
  lemma CurlErrorCodeReadsBack(code: int, protocol: Option<string>)
    requires code != 1 && code != 6 && code != 7 && code != 28
    ensures CurlErrorMessage(code, protocol).Ok?
    ensures var m := CurlErrorMessage(code, protocol).value;
      StartsWith(m, CurlExitPrefix) && ParseInt(m[|CurlExitPrefix|..]) == Some(code)
  {
    var m := CurlErrorMessage(code, protocol).value;
    assert m[|CurlExitPrefix|..] == IntToString(code);
    IntToStringRoundTrip(code);
  }

  /** Different exit codes give different messages, for a given protocol. */
  lemma CurlErrorInjective(a: int, b: int, protocol: Option<string>)
    requires CurlErrorMessage(a, protocol).Ok? && CurlErrorMessage(a, protocol) == CurlErrorMessage(b, protocol)
    ensures a == b
  {
    var m := CurlErrorMessage(a, protocol).value;
    if a != 1 && a != 6 && a != 7 && a != 28 && b != 1 && b != 6 && b != 7 && b != 28 {
      CurlErrorCodeReadsBack(a, protocol);
      CurlErrorCodeReadsBack(b, protocol);
    } else if a != b {
      CurlMessageShapes(a, protocol);
      CurlMessageShapes(b, protocol);
    }
  }

  /** The first three characters of each kind of message. */
  lemma CurlMessageShapes(code: int, protocol: Option<string>)
    requires CurlErrorMessage(code, protocol).Ok?
    ensures var m := CurlErrorMessage(code, protocol).value;
      |m| >= 3 &&
      (code == 1 ==> m[..3] == "Uns") &&
      (code == 6 ==> m == CannotResolve) &&
      (code == 7 ==> m == CannotConnect) &&
      (code == 28 ==> m == OperationTimedOut) &&
      (code != 1 && code != 6 && code != 7 && code != 28 ==> m[..3] == "cUR")
  {
  }

  // ---------------------------------------------------------------------------
  // The Python client

  /** A response as `http.client` hands it over. */
  datatype NativeResponse = NativeResponse(
    version: int,
    status: int,
    reason: string,
    headers: seq<(string, string)>,
    body: seq<byte>)

  /** The failures a socket reports. */
  datatype NetError = NameNotResolved | ConnectionRefused | TimedOut | OtherFailure

  /** What happened on the connection: sending failed, receiving failed, or a response came. */
  datatype Exchange = SendFailed(error: NetError) | ReceiveFailed(error: NetError) | Answered(response: NativeResponse)

  /** How a request thread ends when it does not raise: with a response, or with a message. */
  datatype Outcome = Completed(response: Response) | Failed(message: string)

  const HostInvalid: string := "Unable to make request. Make sure the hostname is valid."
  const Refused: string := "Connection refused."
  const RequestTimedOut: string := "Request timed out."
  const Unexpected: string := "Unexpected error making request."

  /**
    `HttpClientRequestThread._read_response` with the response headers kept as a dictionary,
    each `headers[key] = value` assignment taking effect; the body is read with the
    content-type and content-encoding found in them.
  */
  function ReadNativeResponse(resp: NativeResponse, cfg: ThreadConfig, codec: Codec, inflate: Inflate): (r: Result<Response>)
    ensures r.Ok? ==> (r.value.protocol == "HTTP/1.0" <==> resp.version == 10)
    ensures r.Ok? ==> r.value.status == resp.status && r.value.reason == Some(resp.reason)
    ensures r.Ok? ==> NoDup(Keys(r.value.headers)) && forall k :: Dict.Get(r.value.headers, k) == LastFor(resp.headers, k)
    ensures r.Ok? ==> (r.value.body.None? <==> |resp.body| == 0)
  {
    var headers := Update([], resp.headers);
    match ReadBody(resp.body, GetHeader(headers, "content-type"), GetHeader(headers, "content-encoding"), cfg, codec, inflate)
    case Raised(e) => Raised(e)
    case Ok(body) => Ok(Response(if resp.version == 10 then "HTTP/1.0" else "HTTP/1.1", resp.status, Some(resp.reason), headers, body))
  }

  /**
    `_read_response` as written: `self.response.headers` is a list, so the first
    `headers[key] = value` raises `TypeError`.
  */
  function ReadNativeResponseAsWritten(resp: NativeResponse, cfg: ThreadConfig, codec: Codec, inflate: Inflate): (r: Result<Response>) {
    if |resp.headers| > 0 then Raised(ListIndexNotStr)
    else ReadNativeResponse(resp, cfg, codec, inflate)
  }

  /** As written, any response that carries a header ends the thread; one without headers reads as intended. */
  lemma NativeHeadersRaiseAsWritten(resp: NativeResponse, cfg: ThreadConfig, codec: Codec, inflate: Inflate)
    ensures |resp.headers| > 0 ==> ReadNativeResponseAsWritten(resp, cfg, codec, inflate) == Raised(ListIndexNotStr)
    ensures |resp.headers| == 0 ==> ReadNativeResponseAsWritten(resp, cfg, codec, inflate) == ReadNativeResponse(resp, cfg, codec, inflate)
  {
  }

  /**
    `HttpClientRequestThread.run`: validation, then the message for each failure the thread
    catches. A failure it does not catch while sending ends the thread.
  */
  function ClientRun(req: Request, exchange: Exchange, cfg: ThreadConfig, codec: Codec, inflate: Inflate): (r: Result<Outcome>)
    ensures r.Ok? && r.value.Completed? ==> ValidateRequest(req) == Ok(None) && exchange.Answered?
    ensures ValidateRequest(req).Ok? && ValidateRequest(req).value.Some? ==> r == Ok(Failed(ValidateRequest(req).value.value))
    ensures ValidateRequest(req).Raised? ==> r == Raised(ValidateRequest(req).error)
    ensures ValidateRequest(req) == Ok(None) && exchange == SendFailed(NameNotResolved) ==> r == Ok(Failed(HostInvalid))
    ensures ValidateRequest(req) == Ok(None) && exchange == SendFailed(ConnectionRefused) ==> r == Ok(Failed(Refused))
    ensures ValidateRequest(req) == Ok(None) && exchange.SendFailed? && exchange.error !in {NameNotResolved, ConnectionRefused} ==> r == Raised(SocketError)
    ensures ValidateRequest(req) == Ok(None) && exchange == ReceiveFailed(TimedOut) ==> r == Ok(Failed(RequestTimedOut))
    ensures ValidateRequest(req) == Ok(None) && exchange.ReceiveFailed? && exchange.error != TimedOut ==> r == Ok(Failed(Unexpected))
    ensures (ValidateRequest(req) == Ok(None) && exchange.Answered? ==>
             var read := ReadNativeResponse(exchange.response, cfg, codec, inflate);
             r == if read.Ok? then Ok(Completed(read.value)) else Raised(read.error))
  {
    match ValidateRequest(req)
    case Raised(e) => Raised(e)
    case Ok(Some(m)) => Ok(Failed(m))
    case Ok(None) =>
      match exchange
      case SendFailed(NameNotResolved) => Ok(Failed(HostInvalid))
      case SendFailed(ConnectionRefused) => Ok(Failed(Refused))
      case SendFailed(_) => Raised(SocketError)
      case ReceiveFailed(TimedOut) => Ok(Failed(RequestTimedOut))
      case ReceiveFailed(_) => Ok(Failed(Unexpected))
      case Answered(resp) =>
        match ReadNativeResponse(resp, cfg, codec, inflate)
        case Raised(e) => Raised(e)
        case Ok(response) => Ok(Completed(response))
  }

  /**
    `HttpClientRequestThread.run` as written: the same run, but an answer is read by
    `_read_response` as written, so a reply completes only when it carries no header.
  */
  function ClientRunAsWritten(req: Request, exchange: Exchange, cfg: ThreadConfig, codec: Codec, inflate: Inflate): (r: Result<Outcome>)
    ensures r.Ok? && r.value.Completed? ==> r.value.response.headers == [] && exchange.Answered? && exchange.response.headers == []
    ensures !exchange.Answered? ==> r == ClientRun(req, exchange, cfg, codec, inflate)
  {
    if ValidateRequest(req) == Ok(None) && exchange.Answered? then
      match ReadNativeResponseAsWritten(exchange.response, cfg, codec, inflate)
      case Raised(e) => Raised(e)
      case Ok(response) => Ok(Completed(response))
    else ClientRun(req, exchange, cfg, codec, inflate)
  }

  /**
    As written, a valid request whose reply carries any header ends the thread with the
    list-assignment `TypeError`, where the corrected thread completes with the reply as read;
    a reply without headers completes the same either way.
  */
  lemma NativeClientRaisesAsWritten(req: Request, resp: NativeResponse, cfg: ThreadConfig, codec: Codec, inflate: Inflate)
    requires ValidateRequest(req) == Ok(None)
    ensures |resp.headers| > 0 ==> ClientRunAsWritten(req, Answered(resp), cfg, codec, inflate) == Raised(ListIndexNotStr)
    ensures (ReadNativeResponse(resp, cfg, codec, inflate).Ok? ==>
             ClientRun(req, Answered(resp), cfg, codec, inflate) == Ok(Completed(ReadNativeResponse(resp, cfg, codec, inflate).value)))
    ensures |resp.headers| == 0 ==> ClientRunAsWritten(req, Answered(resp), cfg, codec, inflate) == ClientRun(req, Answered(resp), cfg, codec, inflate)
  {
    NativeHeadersRaiseAsWritten(resp, cfg, codec, inflate);
  }

  // ---------------------------------------------------------------------------
  // curl's command line

  /** What `--write-out` makes curl print after the response: a blank line, then the sizes as JSON. */
  const Trailer: string := "\n\n{\"size_header\": %{size_header},\"size_download\": %{size_download}}"

  /** The options the plug-in passes that take a value: each consumes the argument after it. */
  predicate TakesValue(a: string) {
    a == "--write-out" || a == "--max-time" || a == "--connect-timeout" ||
    a == "--request" || a == "--header" || a == "--data-binary"
  }

  /** `[option, v1, option, v2, ...]`: each value after its option. */
  function OptionPairs(option: string, values: seq<string>): (r: seq<string>)
    ensures |r| == 2 * |values|
  {
    if |values| == 0 then [] else [option, values[0]] + OptionPairs(option, values[1..])
  }

  function TimeoutArgs(timeout: Option<string>): seq<string> {
    if timeout.Some? then
      OptionPairs("--max-time", [timeout.value]) + OptionPairs("--connect-timeout", [timeout.value])
    else []
  }

  function MethodArgs(m: string): seq<string> {
    if m == "HEAD" then ["--head"] else if m == "GET" then [] else OptionPairs("--request", [m])
  }

  /** Whether the request's body goes to curl: a non-empty body of a `POST`, `PUT` or `PATCH`. */
  predicate SendsBody(r: Request) {
    (r.httpMethod == "POST" || r.httpMethod == "PUT" || r.httpMethod == "PATCH") && r.body != ""
  }

  function BodyArgs(r: Request): seq<string> {
    if SendsBody(r) then OptionPairs("--data-binary", [r.body]) else []
  }

  /** `_get_args`: the command line for curl; reading the URI raises when the request has no protocol or host. */
  function CurlArgs(r: Request, cfg: ThreadConfig): (a: Result<seq<string>>)
    ensures a.Ok? <==> Uri(r).Ok?
    ensures a.Ok? ==> |a.value| >= 5 && a.value[..4] == [cfg.command, "--include", "--write-out", Trailer]
    ensures a.Ok? ==> a.value[|a.value| - 1] == Uri(r).value
  {
    match Uri(r)
    case Raised(e) => Raised(e)
    case Ok(uri) =>
      var line := CommandLine(r, cfg, uri);
      ConsPrefix(cfg.command, line, 3);
      Ok([cfg.command] + line)
  }

  /** The arguments after curl's name, for a request whose URI is `uri`. */
  function CommandLine(r: Request, cfg: ThreadConfig, uri: string): (a: seq<string>)
    ensures |a| >= 4 && a[..3] == ["--include", "--write-out", Trailer] && a[|a| - 1] == uri
  {
    ["--include"] + (OptionPairs("--write-out", [Trailer]) + (TimeoutArgs(cfg.timeout) +
    (MethodArgs(r.httpMethod) + RequestArgs(r, cfg.options, uri))))
  }

  /** An argument as curl takes it: an option with its value, or a word on its own. */
  datatype CurlArg = Setting(option: string, value: string) | Word(text: string)

  /** How curl reads the arguments after its own name, as far as the options above go. */
  function ReadArgs(args: seq<string>): seq<CurlArg>
    decreases |args|
  {
    if |args| == 0 then []
    else if TakesValue(args[0]) && |args| >= 2 then [Setting(args[0], args[1])] + ReadArgs(args[2..])
    else [Word(args[0])] + ReadArgs(args[1..])
  }

  function SettingsOf(option: string, values: seq<string>): (r: seq<CurlArg>)
    ensures |r| == |values|
  {
    seq(|values|, i requires 0 <= i < |values| => Setting(option, values[i]))
  }

  function Words(ws: seq<string>): (r: seq<CurlArg>)
    ensures |r| == |ws|
  {
    seq(|ws|, i requires 0 <= i < |ws| => Word(ws[i]))
  }

  lemma {:induction false} ReadPairs(option: string, values: seq<string>, rest: seq<string>)
    requires TakesValue(option)
    ensures ReadArgs(OptionPairs(option, values) + rest) == SettingsOf(option, values) + ReadArgs(rest)
    decreases |values|
  {
    if |values| > 0 {
      var tail := OptionPairs(option, values[1..]) + rest;
      assert OptionPairs(option, values) + rest == [option, values[0]] + tail;
      assert ([option, values[0]] + tail)[2..] == tail;
      ReadPairs(option, values[1..], rest);
      assert SettingsOf(option, values) == [Setting(option, values[0])] + SettingsOf(option, values[1..]);
    } else {
      assert OptionPairs(option, values) + rest == rest;
    }
  }

  lemma {:induction false} ReadWords(ws: seq<string>, rest: seq<string>)
    requires forall i :: 0 <= i < |ws| ==> !TakesValue(ws[i])
    ensures ReadArgs(ws + rest) == Words(ws) + ReadArgs(rest)
    decreases |ws|
  {
    if |ws| > 0 {
      assert (ws + rest)[0] == ws[0];
      assert (ws + rest)[1..] == ws[1..] + rest;
      ReadWords(ws[1..], rest);
      assert Words(ws) == [Word(ws[0])] + Words(ws[1..]);
    } else {
      assert ws + rest == rest;
    }
  }

  function TimeoutItems(timeout: Option<string>): seq<CurlArg> {
    if timeout.Some? then
      [Setting("--max-time", timeout.value), Setting("--connect-timeout", timeout.value)]
    else []
  }

  function MethodItems(m: string): seq<CurlArg> {
    if m == "HEAD" then [Word("--head")] else if m == "GET" then [] else [Setting("--request", m)]
  }

  function BodyItems(r: Request): seq<CurlArg> {
    if SendsBody(r) then [Setting("--data-binary", r.body)] else []
  }

  lemma ReadTimeout(timeout: Option<string>, rest: seq<string>)
    ensures ReadArgs(TimeoutArgs(timeout) + rest) == TimeoutItems(timeout) + ReadArgs(rest)
  {
    if timeout.Some? {
      var t := timeout.value;
      assert TimeoutArgs(timeout) + rest == OptionPairs("--max-time", [t]) + (OptionPairs("--connect-timeout", [t]) + rest);
      ReadPairs("--max-time", [t], OptionPairs("--connect-timeout", [t]) + rest);
      ReadPairs("--connect-timeout", [t], rest);
      assert SettingsOf("--max-time", [t]) == [Setting("--max-time", t)];
      assert SettingsOf("--connect-timeout", [t]) == [Setting("--connect-timeout", t)];
    } else {
      assert TimeoutArgs(timeout) + rest == rest;
    }
  }

  lemma ReadMethod(m: string, rest: seq<string>)
    ensures ReadArgs(MethodArgs(m) + rest) == MethodItems(m) + ReadArgs(rest)
  {
    if m == "HEAD" {
      ReadWords(["--head"], rest);
      assert Words(["--head"]) == [Word("--head")];
    } else if m == "GET" {
      assert MethodArgs(m) + rest == rest;
    } else {
      ReadPairs("--request", [m], rest);
      assert SettingsOf("--request", [m]) == [Setting("--request", m)];
    }
  }

  lemma ReadBodyArgs(r: Request, rest: seq<string>)
    ensures ReadArgs(BodyArgs(r) + rest) == BodyItems(r) + ReadArgs(rest)
  {
    if SendsBody(r) {
      ReadPairs("--data-binary", [r.body], rest);
      assert SettingsOf("--data-binary", [r.body]) == [Setting("--data-binary", r.body)];
    } else {
      assert BodyArgs(r) + rest == rest;
    }
  }

  /** Options the user adds that take no value of their own among those above. */
  predicate PlainOptions(options: seq<string>) {
    forall i :: 0 <= i < |options| ==> !TakesValue(options[i])
  }

  /**
    curl reads the command line back as it was built: the trailer for `--write-out`, the
    timeout twice, the method, one `--header` per header line in order, the body for a
    sending method, the user's options, and the URI as the last word.
  */
  lemma CurlArgsReadBack(r: Request, cfg: ThreadConfig)
    requires ValidateRequest(r) == Ok(None) && PlainOptions(cfg.options)
    ensures CurlArgs(r, cfg).Ok?
    ensures ReadArgs(CurlArgs(r, cfg).value[1..]) ==
      [Word("--include"), Setting("--write-out", Trailer)] + (TimeoutItems(cfg.timeout) + (MethodItems(r.httpMethod) +
      (SettingsOf("--header", HeaderLines(r.headers)) + (BodyItems(r) + (Words(cfg.options) + [Word(Uri(r).value)])))))
  {
    ValidRequestHasUri(r);
    var uri := Uri(r).value;
    assert !TakesValue(uri) by {
      assert uri[0] == 'h';
    }
    assert CurlArgs(r, cfg).value[1..] == CommandLine(r, cfg, uri);
    ReadCommandLine(r, cfg, uri);
  }

  lemma ReadCommandLine(r: Request, cfg: ThreadConfig, uri: string)
    requires !TakesValue(uri) && PlainOptions(cfg.options)
    ensures ReadArgs(CommandLine(r, cfg, uri)) ==
      [Word("--include"), Setting("--write-out", Trailer)] + (TimeoutItems(cfg.timeout) + (MethodItems(r.httpMethod) +
      (SettingsOf("--header", HeaderLines(r.headers)) + (BodyItems(r) + (Words(cfg.options) + [Word(uri)])))))
  {
    ReadRequestArgs(r, cfg.options, uri);
    ReadFront(cfg.timeout, r.httpMethod, RequestArgs(r, cfg.options, uri),
      SettingsOf("--header", HeaderLines(r.headers)) + (BodyItems(r) + (Words(cfg.options) + [Word(uri)])));
  }

  lemma ReadFront(timeout: Option<string>, m: string, a4: seq<string>, i4: seq<CurlArg>)
    requires ReadArgs(a4) == i4
    ensures ReadArgs(["--include"] + (OptionPairs("--write-out", [Trailer]) + (TimeoutArgs(timeout) + (MethodArgs(m) + a4)))) ==
      [Word("--include"), Setting("--write-out", Trailer)] + (TimeoutItems(timeout) + (MethodItems(m) + i4))
  {
    var a2 := TimeoutArgs(timeout) + (MethodArgs(m) + a4);
    ReadOptionTail(timeout, m, a4, i4);
    ReadLeading(a2, TimeoutItems(timeout) + (MethodItems(m) + i4));
  }

  lemma ReadOptionTail(timeout: Option<string>, m: string, a4: seq<string>, i4: seq<CurlArg>)
    requires ReadArgs(a4) == i4
    ensures ReadArgs(TimeoutArgs(timeout) + (MethodArgs(m) + a4)) == TimeoutItems(timeout) + (MethodItems(m) + i4)
  {
    ReadMethod(m, a4);
    ReadTimeout(timeout, MethodArgs(m) + a4);
  }

  lemma ReadLeading(a2: seq<string>, i2: seq<CurlArg>)
    requires ReadArgs(a2) == i2
    ensures ReadArgs(["--include"] + (OptionPairs("--write-out", [Trailer]) + a2)) ==
      [Word("--include"), Setting("--write-out", Trailer)] + i2
  {
    var a1 := OptionPairs("--write-out", [Trailer]) + a2;
    ReadPairs("--write-out", [Trailer], a2);
    assert SettingsOf("--write-out", [Trailer]) == [Setting("--write-out", Trailer)];
    ReadWords(["--include"], a1);
    assert Words(["--include"]) == [Word("--include")];
  }

  /** The arguments from the header lines on. */
  function RequestArgs(r: Request, options: seq<string>, uri: string): seq<string> {
    OptionPairs("--header", HeaderLines(r.headers)) + (BodyArgs(r) + (options + [uri]))
  }

  lemma ReadRequestArgs(r: Request, options: seq<string>, uri: string)
    requires !TakesValue(uri) && PlainOptions(options)
    ensures ReadArgs(RequestArgs(r, options, uri)) ==
      SettingsOf("--header", HeaderLines(r.headers)) + (BodyItems(r) + (Words(options) + [Word(uri)]))
  {
    var tail := options + [uri];
    assert PlainOptions(tail) by {
      assert forall i :: 0 <= i < |options| ==> tail[i] == options[i];
    }
    ReadWords(tail, []);
    assert Words(tail) == Words(options) + [Word(uri)];
    assert tail + [] == tail;
    ReadBodyArgs(r, tail);
    ReadPairs("--header", HeaderLines(r.headers), BodyArgs(r) + tail);
  }

  // ---------------------------------------------------------------------------
  // Reading curl's output

  const AsciiUndecodable: string := "UnicodeDecodeError: 'ascii' codec can't decode byte"
  const JsonInvalid: string := "json.decoder.JSONDecodeError: Expecting value"
  const MetaNotObject: string := "TypeError: the metadata is not a JSON object"
  const NoSizeHeader: string := "KeyError: 'size_header'"
  const NoSizeDownload: string := "KeyError: 'size_download'"
  const SliceNotInt: string := "TypeError: slice indices must be integers or None or have an __index__ method"
  const IntInvalid: string := "ValueError: invalid literal for int() with base 10"
  const ReadFailed: string := "Unable to read response. Reponse may have times out."

  /** The last index `j` below `n - 1` where `data[j]` and `data[j + 1]` are both line feeds, or -1. */
  function LastBlank(data: seq<byte>, n: nat): (r: int)
    requires n <= |data|
    ensures r == -1 || (0 <= r && r + 1 < n)
    ensures r >= 0 ==> data[r] == 10 && data[r + 1] == 10
    ensures forall j :: r < j && j + 1 < n ==> !(data[j] == 10 && data[j + 1] == 10)
    decreases n
  {
    if n < 2 then -1
    else if data[n - 2] == 10 && data[n - 1] == 10 then n - 2
    else LastBlank(data, n - 1)
  }

  /** Python's reading of a slice bound `i` against a length `n`. */
  function Bound(i: int, n: nat): (r: nat)
    ensures r <= n
    ensures 0 <= i <= n ==> r == i
  {
    if i < 0 then (if n + i < 0 then 0 else n + i) else if i > n then n else i
  }

  /** `s[lo:hi]` with Python's rules for negative and overlong bounds. */
  function Slice<T>(s: seq<T>, lo: int, hi: int): (r: seq<T>)
    ensures 0 <= lo <= hi <= |s| ==> r == s[lo..hi]
  {
    var a := Bound(lo, |s|);
    var b := Bound(hi, |s|);
    if a <= b then s[a..b] else []
  }

  /** A JSON value used as a slice bound: an integer, or a boolean as 0 or 1. */
  function AsIndex(v: Settings.Value): Option<int> {
    match v
    case Int(i) => Some(i)
    case Bool(b) => Some(if b then 1 else 0)
    case _ => None
  }

  /**
    The sizes curl reports after the last blank line of its output: `size_header` and
    `size_download` read from the JSON there.
  */
  function ReadSizes(output: seq<byte>, json: string -> Option<Settings.Value>): (r: Result<(int, int)>)
  {
    match AsciiDecode(Slice(output, LastBlank(output, |output|), |output|))
    case None => Raised(AsciiUndecodable)
    case Some(text) => SizesOfText(text, json)
  }

  /** The two sizes read from the decoded trailer text. */
  function SizesOfText(text: string, json: string -> Option<Settings.Value>): (r: Result<(int, int)>)
  {
    match json(text)
    case None => Raised(JsonInvalid)
    case Some(meta) =>
      if !meta.Object? then Raised(MetaNotObject)
      else if Dict.Get(meta.fields, "size_header").None? then Raised(NoSizeHeader)
      else if Dict.Get(meta.fields, "size_download").None? then Raised(NoSizeDownload)
      else
        var h := AsIndex(Dict.Get(meta.fields, "size_header").value);
        var d := AsIndex(Dict.Get(meta.fields, "size_download").value);
        if h.None? || d.None? then Raised(SliceNotInt) else Ok((h.value, d.value))
  }

  /** A line the header reading skips before the status line: a blank one, or an interim `100 Continue`. */
  predicate IsInterim(line: string) {
    line == "" || Contains(Upper(line), "100 CONTINUE")
  }

  /** The index of the first line from `i` on that is not interim. */
  function FirstStatus(lines: seq<string>, i: nat): (r: Option<nat>)
    requires i <= |lines|
    ensures r.Some? ==> i <= r.value < |lines| && !IsInterim(lines[r.value])
    ensures forall j :: i <= j < |lines| && (r.None? || j < r.value) ==> IsInterim(lines[j])
    decreases |lines| - i
  {
    if i == |lines| then None
    else if !IsInterim(lines[i]) then Some(i)
    else FirstStatus(lines, i + 1)
  }

  /**
    The skipping loop of `_read_response`: drop the interim lines in front of the first other
    line; when every line is interim nothing is dropped.
  */
  function SkipInterim(lines: seq<string>): (r: seq<string>)
    ensures |r| <= |lines| && r == lines[|lines| - |r|..]
    ensures |lines| > 0 ==> |r| > 0
    ensures (forall j :: 0 <= j < |lines| ==> IsInterim(lines[j])) ==> r == lines
    ensures (exists j :: 0 <= j < |lines| && !IsInterim(lines[j])) ==>
      |r| > 0 && !IsInterim(r[0]) && forall j :: 0 <= j < |lines| - |r| ==> IsInterim(lines[j])
  {
    match FirstStatus(lines, 0)
    case None => lines
    case Some(i) => lines[i..]
  }

  /** `line.split(" ", 2)` when it gives three parts: protocol, status and reason. */
  function StatusParts(line: string): (r: Option<(string, string, string)>)
    ensures r.Some? ==> line == r.value.0 + " " + r.value.1 + " " + r.value.2
    ensures r.Some? ==> ' ' !in r.value.0 && ' ' !in r.value.1
  {
    match SplitOnce(line, " ")
    case None => None
    case Some((protocol, rest)) =>
      match SplitOnce(rest, " ")
      case None => None
      case Some((status, reason)) =>
        StatusSplitFacts(line, protocol, rest, status, reason);
        Some((protocol, status, reason))
  }

  lemma StatusSplitFacts(line: string, protocol: string, rest: string, status: string, reason: string)
    requires SplitOnce(line, " ") == Some((protocol, rest)) && SplitOnce(rest, " ") == Some((status, reason))
    ensures line == protocol + " " + status + " " + reason
    ensures ' ' !in protocol && ' ' !in status
  {
    SpaceHeadClean(line);
    SpaceHeadClean(rest);
    SpliceSplits(line, protocol, rest, status, reason);
  }

  /** Splicing the second split into the first. */
  lemma SpliceSplits(line: string, protocol: string, rest: string, status: string, reason: string)
    requires line == protocol + " " + rest && rest == status + " " + reason
    ensures line == protocol + " " + status + " " + reason
  {
  }

  /** The text before the first space holds no space. */
  lemma SpaceHeadClean(s: string)
    requires SplitOnce(s, " ").Some?
    ensures ' ' !in SplitOnce(s, " ").value.0
  {
    assert " " == [' '];
    HeadLacksSeparator(s, ' ');
  }

  lemma HeadLacksSeparator(s: string, c: char)
    requires SplitOnce(s, [c]).Some?
    ensures c !in SplitOnce(s, [c]).value.0
  {
    var head := SplitOnce(s, [c]).value.0;
    FirstPieceClean(s, [c], |head|);
    assert s[..|head|] == head;
    SingleCharFind(head, c);
  }

  /** A line of a protocol and a status without spaces, and any reason, splits back into them. */
  lemma StatusPartsOf(protocol: string, status: string, reason: string)
    requires ' ' !in protocol && ' ' !in status
    ensures StatusParts(protocol + " " + status + " " + reason) == Some((protocol, status, reason))
  {
    assert protocol + " " + status + " " + reason == protocol + " " + (status + " " + reason);
    FindAfterCleanPrefix(protocol, " ", status + " " + reason);
    FindAfterCleanPrefix(status, " ", reason);
  }

  /** The response headers, each `name: value` line after the status line assigned in turn into a dictionary. */
  function CollectHeaders(lines: seq<string>): (h: Headers)
    ensures NoDup(Keys(h))
    decreases |lines|
  {
    if |lines| == 0 then []
    else
      var prev := CollectHeaders(lines[..|lines| - 1]);
      match ReadHeaderLine(lines[|lines| - 1])
      case None => prev
      case Some((k, v)) => Dict.Set(prev, k, v)
  }

  /** The header loop as written: `self.response.headers` is a list, so the first line with a `:` raises. */
  function CollectHeadersAsWritten(lines: seq<string>): (r: Result<Headers>) {
    if exists i :: 0 <= i < |lines| && ':' in lines[i] then Raised(ListIndexNotStr) else Ok([])
  }

  /** The header lines of a list of headers read back as that list assigned into a dictionary. */
  lemma {:induction false} CollectHeaderLines(pairs: Headers)
    requires forall i :: 0 <= i < |pairs| ==> ':' !in pairs[i].0 && Trimmed(pairs[i].0) && Trimmed(pairs[i].1)
    ensures CollectHeaders(HeaderLines(pairs)) == Update([], pairs)
    decreases |pairs|
  {
    if |pairs| > 0 {
      var n := |pairs| - 1;
      assert HeaderLines(pairs)[..n] == HeaderLines(pairs[..n]);
      CollectHeaderLines(pairs[..n]);
      HeaderLineReadsBack(pairs[n]);
    }
  }

  /** Lines without a `:` add no header. */
  lemma CollectSkipsBlank(lines: seq<string>)
    ensures CollectHeaders(lines + ["", ""]) == CollectHeaders(lines)
  {
    assert (lines + ["", ""])[..|lines| + 1] == lines + [""];
    assert (lines + [""])[..|lines|] == lines;
    SingleCharFind("", ':');
  }

  /** What the output's framing yields: status line parts, the header lines after it, and the body bytes. */
  datatype Framed = Framed(protocol: string, status: int, reason: string, headerLines: seq<string>, body: seq<byte>)

  /**
    The header text of curl's output, split into lines at `\r\n`: after the interim lines, the
    status line split in three with its status read as an integer, and the lines after it.
    `Ok(None)` is a status line that does not split.
  */
  function ReadStatus(text: string): (r: Result<Option<(string, int, string, seq<string>)>>)
  {
    var lines := SkipInterim(Split(text, "\r\n"));
    match StatusParts(lines[0])
    case None => Ok(None)
    case Some((protocol, status, reason)) =>
      match ParseInt(status)
      case None => Raised(IntInvalid)
      case Some(code) => Ok(Some((protocol, code, reason, lines[1..])))
  }

  /**
    The framing part of `CurlRequestThread._read_response`: the sizes from the trailer, the
    header bytes `output[0:size_header]` read as ASCII, and the body bytes
    `output[size_header:size_header + size_download]`.
  */
  function FrameCurlOutput(output: seq<byte>, json: string -> Option<Settings.Value>): (r: Result<Option<Framed>>)
  {
    match ReadSizes(output, json)
    case Raised(e) => Raised(e)
    case Ok((sh, sd)) =>
      match AsciiDecode(Slice(output, 0, sh))
      case None => Raised(AsciiUndecodable)
      case Some(text) =>
        match ReadStatus(text)
        case Raised(e) => Raised(e)
        case Ok(None) => Ok(None)
        case Ok(Some((protocol, code, reason, lines))) => Ok(Some(Framed(protocol, code, reason, lines, Slice(output, sh, sh + sd))))
  }

  /** The response, once its headers are read: the body is read with the headers' content-type and content-encoding. */
  function FinishResponse(f: Framed, headers: Headers, cfg: ThreadConfig, codec: Codec, inflate: Inflate): (r: Result<Outcome>)
    ensures r.Ok? ==> r.value.Completed? && r.value.response.headers == headers
    ensures r.Ok? ==> r.value.response.status == f.status && r.value.response.reason == Some(f.reason)
  {
    match ReadBody(f.body, GetHeader(headers, "content-type"), GetHeader(headers, "content-encoding"), cfg, codec, inflate)
    case Raised(e) => Raised(e)
    case Ok(body) => Ok(Completed(Response(f.protocol, f.status, Some(f.reason), headers, body)))
  }

  /** `CurlRequestThread._read_response`, with the header assignments taking effect. */
  function ReadCurlOutput(output: seq<byte>, json: string -> Option<Settings.Value>, cfg: ThreadConfig,
                          codec: Codec, inflate: Inflate): (r: Result<Outcome>)
    ensures FrameCurlOutput(output, json) == Ok(None) ==> r == Ok(Failed(ReadFailed))
  {
    match FrameCurlOutput(output, json)
    case Raised(e) => Raised(e)
    case Ok(None) => Ok(Failed(ReadFailed))
    case Ok(Some(f)) => FinishResponse(f, CollectHeaders(f.headerLines), cfg, codec, inflate)
  }

  /** `CurlRequestThread._read_response` as written: any header line with a `:` ends the thread. */
  function ReadCurlOutputAsWritten(output: seq<byte>, json: string -> Option<Settings.Value>, cfg: ThreadConfig,
                                   codec: Codec, inflate: Inflate): (r: Result<Outcome>)
    ensures r.Ok? && r.value.Completed? ==> r.value.response.headers == []
  {
    match FrameCurlOutput(output, json)
    case Raised(e) => Raised(e)
    case Ok(None) => Ok(Failed(ReadFailed))
    case Ok(Some(f)) =>
      match CollectHeadersAsWritten(f.headerLines)
      case Raised(e) => Raised(e)
      case Ok(headers) => FinishResponse(f, headers, cfg, codec, inflate)
  }

  /** As written, a framed response with any `name: value` header line never completes; the corrected reading keeps the header. */
  lemma CurlHeadersRaiseAsWritten(output: seq<byte>, json: string -> Option<Settings.Value>, cfg: ThreadConfig,
                                  codec: Codec, inflate: Inflate, i: nat)
    requires FrameCurlOutput(output, json).Ok? && FrameCurlOutput(output, json).value.Some?
    requires var f := FrameCurlOutput(output, json).value.value;
      i < |f.headerLines| && ':' in f.headerLines[i]
    ensures ReadCurlOutputAsWritten(output, json, cfg, codec, inflate) == Raised(ListIndexNotStr)
    ensures var f := FrameCurlOutput(output, json).value.value;
      |Keys(CollectHeaders(f.headerLines))| > 0
  {
    var f := FrameCurlOutput(output, json).value.value;
    CollectKeepsColonLine(f.headerLines, i);
  }

  /** A line with a `:` always leaves at least one header behind. */
  lemma {:induction false} CollectKeepsColonLine(lines: seq<string>, i: nat)
    requires i < |lines| && ':' in lines[i]
    ensures |Keys(CollectHeaders(lines))| > 0
    decreases |lines|
  {
    var n := |lines| - 1;
    SingleCharFind(lines[n], ':');
    if i < n {
      CollectKeepsColonLine(lines[..n], i);
    }
  }

  // ---------------------------------------------------------------------------
  // The curl client

  /** The curl process: its exit code and standard output for a command line. */
  type CurlProcess = seq<string> -> (int, seq<byte>)

  /**
    `CurlRequestThread.run`: validation, then curl run on the command line of `_get_args`;
    a non-zero exit gives its message, otherwise the output is read.
  */
  function CurlRun(req: Request, cfg: ThreadConfig, curl: CurlProcess, json: string -> Option<Settings.Value>,
                   codec: Codec, inflate: Inflate): (r: Result<Outcome>)
    ensures ValidateRequest(req).Ok? && ValidateRequest(req).value.Some? ==> r == Ok(Failed(ValidateRequest(req).value.value))
  {
    RunCurl(req, CurlArgs(req, cfg), cfg, curl, json, codec, inflate)
  }

  /** The thread's run once its command line is built: validation first, then curl. */
  function RunCurl(req: Request, args: Result<seq<string>>, cfg: ThreadConfig, curl: CurlProcess,
                   json: string -> Option<Settings.Value>, codec: Codec, inflate: Inflate): Result<Outcome>
  {
    match ValidateRequest(req)
    case Raised(e) => Raised(e)
    case Ok(Some(m)) => Ok(Failed(m))
    case Ok(None) =>
      match args
      case Raised(e) => Raised(e)
      case Ok(args) =>
        var (code, output) := curl(args);
        if code != 0 then
          match CurlErrorMessage(code, req.protocol)
          case Raised(e) => Raised(e)
          case Ok(m) => Ok(Failed(m))
        else ReadCurlOutput(output, json, cfg, codec, inflate)
  }

  /**
    `_get_args` as written: the `--header` options come from `header_lines`, which on the
    dictionary a parsed request holds unpacks each name into two characters; a name of
    another length raises `ValueError` before the URI is read.
  */
  function CurlArgsAsWritten(r: Request, cfg: ThreadConfig): (a: Result<seq<string>>)
    ensures a.Ok? <==> UnpackNames(r.headers).Ok? && Uri(r).Ok?
    ensures UnpackNames(r.headers).Raised? ==> a == Raised(UnpackNames(r.headers).error)
    ensures a.Ok? ==> |a.value| >= 5 && a.value[|a.value| - 1] == Uri(r).value
  {
    match UnpackNames(r.headers)
    case Raised(e) => Raised(e)
    case Ok(pairs) => CurlArgs(r.(headers := pairs), cfg)
  }

  /**
    The curl thread's run as written: the command line `CurlArgsAsWritten` builds, and on a
    zero exit the output read by `_read_response` as written, so a response completes only
    when it carries no header.
  */
  function CurlRunAsWritten(req: Request, cfg: ThreadConfig, curl: CurlProcess, json: string -> Option<Settings.Value>,
                            codec: Codec, inflate: Inflate): (r: Result<Outcome>)
    ensures ValidateRequest(req).Ok? && ValidateRequest(req).value.Some? ==> r == Ok(Failed(ValidateRequest(req).value.value))
    ensures r.Ok? && r.value.Completed? ==> r.value.response.headers == []
  {
    var args := CurlArgsAsWritten(req, cfg);
    if ValidateRequest(req) == Ok(None) && args.Ok? && curl(args.value).0 == 0 then
      ReadCurlOutputAsWritten(curl(args.value).1, json, cfg, codec, inflate)
    else RunCurl(req, args, cfg, curl, json, codec, inflate)
  }

  /**
    As written, a valid request with a header whose name is not two characters long never
    reaches curl: its thread raises `ValueError`, while the request's own command line is
    built. Without headers the two command lines are the same.
  */
  lemma CurlHeaderNamesRaiseAsWritten(req: Request, cfg: ThreadConfig, curl: CurlProcess,
                                      json: string -> Option<Settings.Value>, codec: Codec, inflate: Inflate, i: nat)
    requires ValidateRequest(req) == Ok(None)
    requires i < |req.headers| && |req.headers[i].0| != 2
    ensures CurlRunAsWritten(req, cfg, curl, json, codec, inflate).Raised?
    ensures CurlRunAsWritten(req, cfg, curl, json, codec, inflate).error == UnpackNames(req.headers).error
    ensures CurlArgs(req, cfg).Ok?
  {
    ValidRequestHasUri(req);
  }

  /**
    As written, curl's output with any `name: value` header line ends the thread with the
    list-assignment `TypeError`, where the corrected thread completes with that header.
  */
  lemma CurlOutputRaisesAsWritten(req: Request, cfg: ThreadConfig, curl: CurlProcess,
                                  json: string -> Option<Settings.Value>, codec: Codec, inflate: Inflate, i: nat)
    requires ValidateRequest(req) == Ok(None) && req.headers == []
    requires CurlArgs(req, cfg).Ok? && curl(CurlArgs(req, cfg).value).0 == 0
    requires (var f := FrameCurlOutput(curl(CurlArgs(req, cfg).value).1, json);
              f.Ok? && f.value.Some? && i < |f.value.value.headerLines| && ':' in f.value.value.headerLines[i])
    ensures CurlRunAsWritten(req, cfg, curl, json, codec, inflate) == Raised(ListIndexNotStr)
    ensures var r := CurlRun(req, cfg, curl, json, codec, inflate);
      r.Ok? ==> r.value.Completed? && |r.value.response.headers| > 0
  {
    CurlArgsAgreeWithoutHeaders(req, cfg);
    var output := curl(CurlArgs(req, cfg).value).1;
    CurlHeadersRaiseAsWritten(output, json, cfg, codec, inflate, i);
  }

  /** Without headers the command line as written is the request's own. */
  lemma CurlArgsAgreeWithoutHeaders(r: Request, cfg: ThreadConfig)
    requires r.headers == []
    ensures CurlArgsAsWritten(r, cfg) == CurlArgs(r, cfg)
  {
    assert r.(headers := []) == r;
  }

  /**
    For a valid request curl runs on the command line described by `CurlArgsReadBack`, and
    a non-zero exit always ends in the message for its code, never in an exception.
  */
  lemma CurlExitMessage(req: Request, cfg: ThreadConfig, curl: CurlProcess, json: string -> Option<Settings.Value>,
                        codec: Codec, inflate: Inflate)
    requires ValidateRequest(req) == Ok(None)
    ensures CurlArgs(req, cfg).Ok?
    ensures var (code, output) := curl(CurlArgs(req, cfg).value);
      code != 0 ==> CurlErrorMessage(code, req.protocol).Ok? &&
                    CurlRun(req, cfg, curl, json, codec, inflate) == Ok(Failed(CurlErrorMessage(code, req.protocol).value))
    ensures var (code, output) := curl(CurlArgs(req, cfg).value);
      code == 0 ==> CurlRun(req, cfg, curl, json, codec, inflate) == ReadCurlOutput(output, json, cfg, codec, inflate)
  {
    ValidRequestHasUri(req);
  }

  // ---------------------------------------------------------------------------
  // curl's output read back

  predicate IsAscii(s: string) {
    forall i :: 0 <= i < |s| ==> s[i] as int < 128
  }

  /** `s.encode("ascii")`. */
  function AsciiEncode(s: string): (r: seq<byte>)
    requires IsAscii(s)
    ensures |r| == |s| && forall i :: 0 <= i < |s| ==> r[i] as int == s[i] as int
  {
    seq(|s|, i requires 0 <= i < |s| => s[i] as int as byte)
  }

  lemma AsciiRoundTrip(s: string)
    requires IsAscii(s)
    ensures AsciiDecode(AsciiEncode(s)) == Some(s)
  {
    var b := AsciiEncode(s);
    assert Latin1(b) == s;
  }

  /** The status line a server sends. */
  function StatusText(protocol: string, status: nat, reason: string): string {
    protocol + " " + IntToString(status) + " " + reason
  }

  /** The header block curl prints: the status line and the header lines, each ended by `\r\n`, then an empty line. */
  function HeaderBlock(statusLine: string, pairs: Headers): string {
    Join("\r\n", [statusLine] + HeaderLines(pairs)) + "\r\n" + "\r\n"
  }

  /** Headers that read back: names without `:`, nothing with a carriage return, no space at either end. */
  predicate CleanHeaders(pairs: Headers) {
    forall i :: 0 <= i < |pairs| ==>
      ':' !in pairs[i].0 && '\r' !in pairs[i].0 && '\r' !in pairs[i].1 && Trimmed(pairs[i].0) && Trimmed(pairs[i].1)
  }

  /** A reply curl may print: a status line that reads back and is no interim `100 Continue`, and clean headers. */
  predicate PlainReply(protocol: string, status: nat, reason: string, pairs: Headers) {
    ' ' !in protocol && '\r' !in protocol && '\r' !in reason && CleanHeaders(pairs) &&
    !Contains(Upper(StatusText(protocol, status, reason)), "100 CONTINUE") &&
    IsAscii(HeaderBlock(StatusText(protocol, status, reason), pairs))
  }

  /** The `--write-out` text curl prints: a blank line, then one line of JSON giving the two sizes. */
  predicate SizeTrailer(meta: string, json: string -> Option<Settings.Value>, sh: nat, sd: nat) {
    |meta| >= 2 && meta[0] == '\n' && meta[1] == '\n' && '\n' !in meta[2..] && IsAscii(meta) &&
    json(meta).Some? && json(meta).value.Object? &&
    Dict.Get(json(meta).value.fields, "size_header") == Some(Settings.Int(sh)) &&
    Dict.Get(json(meta).value.fields, "size_download") == Some(Settings.Int(sd))
  }

  /**
    Reading what curl prints for a reply: the status line gives the protocol, status and
    reason, the header lines give the headers (a later one of the same name replacing an
    earlier one), and the bytes after the header block, as many as the trailer says, are the
    body.
  */
  lemma CurlOutputReadsBack(protocol: string, status: nat, reason: string, pairs: Headers, body: seq<byte>,
                            meta: string, json: string -> Option<Settings.Value>,
                            cfg: ThreadConfig, codec: Codec, inflate: Inflate)
    requires PlainReply(protocol, status, reason, pairs)
    requires SizeTrailer(meta, json, |HeaderBlock(StatusText(protocol, status, reason), pairs)|, |body|)
    ensures var head := AsciiEncode(HeaderBlock(StatusText(protocol, status, reason), pairs));
      ReadCurlOutput(head + body + AsciiEncode(meta), json, cfg, codec, inflate) ==
      FinishResponse(Framed(protocol, status, reason, HeaderLines(pairs) + ["", ""], body), Update([], pairs), cfg, codec, inflate)
  {
    var block := HeaderBlock(StatusText(protocol, status, reason), pairs);
    var head := AsciiEncode(block);
    var output := head + body + AsciiEncode(meta);
    SizesOfOutput(head, body, meta, json);
    FramedSlices(head, body, AsciiEncode(meta));
    AsciiRoundTrip(block);
    StatusOfBlock(protocol, status, reason, pairs);
    CollectSkipsBlank(HeaderLines(pairs));
    CollectHeaderLines(pairs);
  }

  lemma FramedSlices(head: seq<byte>, body: seq<byte>, tail: seq<byte>)
    ensures Slice(head + body + tail, 0, |head|) == head
    ensures Slice(head + body + tail, |head|, |head| + |body|) == body
  {
    var output := head + body + tail;
    assert output[..|head|] == head;
    assert output[|head|..|head| + |body|] == body;
  }

  /** The trailer is found after the body whatever the body holds, and gives the two sizes. */
  lemma SizesOfOutput(head: seq<byte>, body: seq<byte>, meta: string, json: string -> Option<Settings.Value>)
    requires SizeTrailer(meta, json, |head|, |body|)
    ensures ReadSizes(head + body + AsciiEncode(meta), json) == Ok((|head|, |body|))
  {
    var m := AsciiEncode(meta);
    var output := head + body + m;
    var k := |head| + |body|;
    LastBlankIsTrailer(head + body, meta);
    assert LastBlank(output, |output|) == k;
    assert Slice(output, k, |output|) == m;
    AsciiRoundTrip(meta);
    SizesOfTrailer(meta, json, |head|, |body|);
  }

  /** A size trailer reads as its two sizes. */
  lemma SizesOfTrailer(meta: string, json: string -> Option<Settings.Value>, sh: nat, sd: nat)
    requires SizeTrailer(meta, json, sh, sd)
    ensures SizesOfText(meta, json) == Ok((sh, sd))
  {
    var fields := json(meta).value.fields;
    assert AsIndex(Dict.Get(fields, "size_header").value) == Some(sh);
    assert AsIndex(Dict.Get(fields, "size_download").value) == Some(sd);
  }


  lemma LastBlankIsTrailer(front: seq<byte>, meta: string)
    requires |meta| >= 2 && meta[0] == '\n' && meta[1] == '\n' && '\n' !in meta[2..] && IsAscii(meta)
    ensures LastBlank(front + AsciiEncode(meta), |front| + |meta|) == |front|
  {
    var m := AsciiEncode(meta);
    var output := front + m;
    var k := |front|;
    assert output[k] == 10 && output[k + 1] == 10;
    forall j | k + 2 <= j < |output|
      ensures output[j] != 10
    {
      assert output[j] == m[j - k];
      assert meta[2..][j - 2 - k] == meta[j - k];
    }
  }

  /** A status as digits holds neither a space nor a carriage return. */
  lemma DigitsPlain(n: nat)
    ensures ' ' !in IntToString(n) && '\r' !in IntToString(n)
  {
    var digits := IntToString(n);
    assert forall i :: 0 <= i < |digits| ==> IsDigit(digits[i]);
  }

  /** The header block splits at `\r\n` into the status line, the header lines and two empty lines. */
  lemma BlockLines(line: string, pairs: Headers)
    requires '\r' !in line && CleanHeaders(pairs)
    ensures Split(HeaderBlock(line, pairs), "\r\n") == [line] + HeaderLines(pairs) + ["", ""]
  {
    var parts := [line] + HeaderLines(pairs);
    forall i | 0 <= i < |parts|
      ensures "\r\n"[0] !in parts[i]
    {
      if i > 0 {
        var h := pairs[i - 1];
        assert parts[i] == h.0 + ": " + h.1;
      }
    }
    SplitAfterJoinBlank("\r\n", parts, "");
    AbsentCharNoOccurrence("", "\r\n", 0);
    assert HeaderBlock(line, pairs) == Join("\r\n", parts) + "\r\n" + "\r\n" + "";
  }

  /** The header block reads back as its status line's three parts and the lines after it. */
  lemma StatusOfBlock(protocol: string, status: nat, reason: string, pairs: Headers)
    requires PlainReply(protocol, status, reason, pairs)
    ensures ReadStatus(HeaderBlock(StatusText(protocol, status, reason), pairs)) ==
      Ok(Some((protocol, status, reason, HeaderLines(pairs) + ["", ""])))
  {
    var line := StatusText(protocol, status, reason);
    StatusLineReads(protocol, status, reason);
    BlockLines(line, pairs);
    Regroup([line], HeaderLines(pairs), ["", ""]);
    StatusFirst(HeaderBlock(line, pairs), line, HeaderLines(pairs) + ["", ""]);
  }

  /**
    The status line of a response reads back as its protocol, status and reason when the
    protocol holds no space, so that the line's first two spaces are the separators.
  */
  lemma StatusLineReadsBack(r: Response)
    requires StatusLine(r).Some? && ' ' !in r.protocol
    ensures StatusParts(StatusLine(r).value) == Some((r.protocol, IntToString(r.status), r.reason.value))
    ensures r.status > 0 ==> ParseInt(StatusParts(StatusLine(r).value).value.1) == Some(r.status)
  {
    var digits := IntToString(r.status);
    if r.status < 0 {
      DigitsPlain(-r.status);
      assert digits == "-" + IntToString(-r.status);
      assert ' ' !in digits by {
        forall k | 0 <= k < |digits| ensures digits[k] != ' ' {
          if k > 0 { assert digits[k] == IntToString(-r.status)[k - 1]; }
        }
      }
    } else {
      DigitsPlain(r.status);
      IntToStringRoundTrip(r.status);
    }
    StatusPartsOf(r.protocol, digits, r.reason.value);
  }

  /**
    A status line printed from a status code is no interim line when it does not say
    `100 Continue`, and splits back into the protocol, that code and the reason.
  */
  lemma StatusLineReads(protocol: string, status: nat, reason: string)
    requires ' ' !in protocol && '\r' !in protocol && '\r' !in reason
    ensures var line := StatusText(protocol, status, reason);
      '\r' !in line && (!Contains(Upper(line), "100 CONTINUE") ==> !IsInterim(line))
    ensures var p := StatusParts(StatusText(protocol, status, reason));
      p == Some((protocol, IntToString(status), reason)) && ParseInt(p.value.1) == Some(status)
  {
    DigitsPlain(status);
    StatusPartsOf(protocol, IntToString(status), reason);
    IntToStringRoundTrip(status);
    assert StatusText(protocol, status, reason) != "";
  }

  /** A reply whose first line is no interim line reads its status from that line and keeps the lines after it. */
  lemma StatusFirst(text: string, line: string, rest: seq<string>)
    requires Split(text, "\r\n") == [line] + rest && !IsInterim(line)
    requires StatusParts(line).Some? && ParseInt(StatusParts(line).value.1).Some?
    ensures var p := StatusParts(line).value;
      ReadStatus(text) == Ok(Some((p.0, ParseInt(p.1).value, p.2, rest)))
  {
    var lines := [line] + rest;
    assert FirstStatus(lines, 0) == Some(0);
    assert SkipInterim(lines) == lines;
    assert lines[0] == line && lines[1..] == rest;
  }

}
