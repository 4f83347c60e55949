/**
  The older request thread of `core/http.py`, kept beside the one in `rester/http.py`. It
  checks only for a host, reads every header of the reply as a `name: value` line in the
  order received, and looks the body's headers up through the reply itself, where several
  headers of one name are joined with `, `.
*/
module LegacyHttp {
  import opened Wrappers
  import opened Strings
  import opened Util
  import opened Message
  import opened Http

  /** The reply as this thread records it: header lines in order, duplicates kept. */
  datatype LegacyResponse = LegacyResponse(
    protocol: string,
    status: int,
    reason: string,
    headers: seq<string>,
    body: Option<string>)

  datatype LegacyOutcome = Done(response: LegacyResponse) | Stopped(message: string)

  // ---------------------------------------------------------------------------
  // Header lookup on the reply

  /** The values of the headers whose name matches `name` without regard to case, in order. */
  function MatchingValues(pairs: Headers, name: string): (r: seq<string>)
    ensures |r| <= |pairs|
    ensures |r| == 0 <==> forall j :: 0 <= j < |pairs| ==> !NameMatches(pairs[j], name)
  {
    if |pairs| == 0 then []
    else (if NameMatches(pairs[0], name) then [pairs[0].1] else []) + MatchingValues(pairs[1..], name)
  }

  /** `HTTPResponse.getheader(name)`: all values of that name joined with `, `, or `None` when there is none. */
  function NativeGetHeader(pairs: Headers, name: string): (r: Option<string>)
    ensures r.None? <==> GetHeader(pairs, name).None?
  {
    var values := MatchingValues(pairs, name);
    if |values| == 0 then None else Some(Join(", ", values))
  }

  /** With one header of the name the reply's lookup and the message's lookup agree. */
  lemma {:induction false} SingleHeaderLookup(pairs: Headers, name: string, i: nat)
    requires i < |pairs| && NameMatches(pairs[i], name)
    requires forall j :: 0 <= j < |pairs| && j != i ==> !NameMatches(pairs[j], name)
    ensures MatchingValues(pairs, name) == [pairs[i].1]
    ensures NativeGetHeader(pairs, name) == GetHeader(pairs, name) == Some(pairs[i].1)
    decreases |pairs|
  {
    if i > 0 {
      SingleHeaderLookup(pairs[1..], name, i - 1);
    } else {
      assert MatchingValues(pairs[1..], name) == [];
    }
  }

  /** Several headers of one name are all kept, joined in the order they came. */
  lemma JoinedHeaderLookup(pairs: Headers, name: string, a: string, b: string)
    requires MatchingValues(pairs, name) == [a, b]
    ensures NativeGetHeader(pairs, name) == Some(a + ", " + b)
  {
    assert [a, b][1..] == [b];
    assert Join(", ", [a, b]) == a + ", " + Join(", ", [b]);
  }

  // ---------------------------------------------------------------------------
  // Reading the reply

  /** How Python's message for a missing attribute begins. */
  const AttributeErrorPrefix: string := "AttributeError: "

  /** The `AttributeError` of calling a function `core/util.py` does not define. */
  function NoAttribute(name: string): string {
    AttributeErrorPrefix + "module 'core.util' has no attribute '" + name + "'"
  }

  /**
    `_read_body` as written: after inflating (with the `defalte` spelling) it calls
    `util.scan_string_for_encoding` when there is a content type and
    `util.scan_bytes_for_encoding` otherwise, neither of which `core/util.py` defines.
  */
  function ReadLegacyBodyAsWritten(data: seq<byte>, contentType: Option<string>, contentEncoding: Option<string>,
                                   inflate: Inflate): (r: Result<Option<string>>)
  {
    if |data| == 0 then Ok(None)
    else match UnzipBodyAsWritten(data, contentEncoding, inflate)
      case Raised(e) => Raised(e)
      case Ok(_) =>
        if contentType.Some? && contentType.value != "" then Raised(NoAttribute("scan_string_for_encoding"))
        else Raised(NoAttribute("scan_bytes_for_encoding"))
  }

  /**
    As written every non-empty body ends the thread with an exception; with the scans of
    `rester/util.py` (the corrected `Http.ReadBody`) the only exceptions left are a failed
    inflate and an unknown codec name.
  */
  lemma LegacyBodyRaisesAsWritten(data: seq<byte>, contentType: Option<string>, contentEncoding: Option<string>,
                                  cfg: ThreadConfig, codec: Codec, inflate: Inflate)
    ensures ReadLegacyBodyAsWritten(data, contentType, contentEncoding, inflate).Ok? <==> |data| == 0
    ensures var r := ReadBody(data, contentType, contentEncoding, cfg, codec, inflate);
      r.Raised? ==> r.error == ZlibError || StartsWith(r.error, UnknownEncoding)
  {
    var r := ReadBody(data, contentType, contentEncoding, cfg, codec, inflate);
    if r.Raised? && r.error != ZlibError {
      var inflated := UnzipBody(data, contentEncoding, inflate).value;
      var encodings := Candidates(contentType, inflated, cfg.encodings);
      var name := Decode(inflated, encodings, codec).name;
      assert r.error == UnknownEncoding + name;
      assert (UnknownEncoding + name)[..|UnknownEncoding|] == UnknownEncoding;
    }
  }

  /**
    `_read_response`: HTTP/1.0 for version 10 and HTTP/1.1 otherwise, the status and reason,
    one `name: value` line per header in order, and the body read with the reply's own
    header lookup.
  */
  function ReadLegacyResponse(resp: NativeResponse, cfg: ThreadConfig, codec: Codec, inflate: Inflate): (r: Result<LegacyResponse>)
    ensures r.Ok? ==> (r.value.protocol == "HTTP/1.0" <==> resp.version == 10)
    ensures r.Ok? ==> r.value.status == resp.status && r.value.reason == resp.reason
    ensures r.Ok? ==> |r.value.headers| == |resp.headers|
    ensures r.Ok? ==> (r.value.body.None? <==> |resp.body| == 0)
  {
    var body := ReadBody(resp.body, NativeGetHeader(resp.headers, "content-type"),
                         NativeGetHeader(resp.headers, "content-encoding"), cfg, codec, inflate);
    match body
    case Raised(e) => Raised(e)
    case Ok(b) => Ok(LegacyResponse(if resp.version == 10 then "HTTP/1.0" else "HTTP/1.1",
                                    resp.status, resp.reason, HeaderLines(resp.headers), b))
  }

  /** Every recorded header line reads back as the header it came from, duplicates and order included. */
  lemma LegacyHeadersReadBack(resp: NativeResponse, cfg: ThreadConfig, codec: Codec, inflate: Inflate)
    requires ReadLegacyResponse(resp, cfg, codec, inflate).Ok?
    requires forall i :: 0 <= i < |resp.headers| ==>
      ':' !in resp.headers[i].0 && Trimmed(resp.headers[i].0) && Trimmed(resp.headers[i].1)
    ensures var lines := ReadLegacyResponse(resp, cfg, codec, inflate).value.headers;
      forall i :: 0 <= i < |lines| ==> ReadHeaderLine(lines[i]) == Some(resp.headers[i])
  {
    var lines := ReadLegacyResponse(resp, cfg, codec, inflate).value.headers;
    forall i | 0 <= i < |lines|
      ensures ReadHeaderLine(lines[i]) == Some(resp.headers[i])
    {
      HeaderLineReadsBack(resp.headers[i]);
    }
  }

  // ---------------------------------------------------------------------------
  // The thread

  /**
    `HttpRequestThread.run`: a request without a host stops at once; any other request is
    sent whatever its protocol, and each failure the thread catches becomes its message.
  */
  function LegacyRun(req: Request, exchange: Exchange, cfg: ThreadConfig, codec: Codec, inflate: Inflate): (r: Result<LegacyOutcome>)
    ensures !HasHost(req) ==> r == Ok(Stopped(NoHostname))
    ensures r.Ok? && r.value.Done? ==> HasHost(req) && exchange.Answered?
    ensures HasHost(req) && exchange == SendFailed(ConnectionRefused) ==> r == Ok(Stopped(Refused))
    ensures HasHost(req) && exchange == SendFailed(NameNotResolved) ==> r == Ok(Stopped(HostInvalid))
    ensures HasHost(req) && exchange.SendFailed? && exchange.error !in {NameNotResolved, ConnectionRefused} ==> r == Raised(SocketError)
    ensures HasHost(req) && exchange == ReceiveFailed(TimedOut) ==> r == Ok(Stopped(RequestTimedOut))
    ensures HasHost(req) && exchange.ReceiveFailed? && exchange.error != TimedOut ==> r == Ok(Stopped(Unexpected))
    ensures (HasHost(req) && exchange.Answered? ==>
             var read := ReadLegacyResponse(exchange.response, cfg, codec, inflate);
             r == if read.Ok? then Ok(Done(read.value)) else Raised(read.error))
  {
    if !HasHost(req) then Ok(Stopped(NoHostname))
    else match exchange
      case SendFailed(ConnectionRefused) => Ok(Stopped(Refused))
      case SendFailed(NameNotResolved) => Ok(Stopped(HostInvalid))
      case SendFailed(_) => Raised(SocketError)
      case ReceiveFailed(TimedOut) => Ok(Stopped(RequestTimedOut))
      case ReceiveFailed(_) => Ok(Stopped(Unexpected))
      case Answered(resp) =>
        match ReadLegacyResponse(resp, cfg, codec, inflate)
        case Raised(e) => Raised(e)
        case Ok(response) => Ok(Done(response))
  }

  /** The `AttributeError` of asking a request for `get_full_path()`, which no request class defines. */
  const NoFullPath: string := AttributeErrorPrefix + "'Request' object has no attribute 'get_full_path'"

  /**
    `HttpRequestThread.run` as written: the path handed to the connection comes from
    `get_full_path()`, and the two handlers around the send catch only a refused connection
    and a failed name lookup, so the `AttributeError` ends the thread for every request with
    a host, before anything is sent.
  */
  function LegacyRunAsWritten(req: Request, exchange: Exchange, cfg: ThreadConfig, codec: Codec, inflate: Inflate): (r: Result<LegacyOutcome>)
  {
    if !HasHost(req) then Ok(Stopped(NoHostname)) else Raised(NoFullPath)
  }

  /**
    As written the thread never sends: a request with a host always raises, and never with an
    error the corrected run (which asks the request for `full_path`) can raise, so the two
    agree only on requests without a host.
  */
  lemma LegacySendRaisesAsWritten(req: Request, exchange: Exchange, cfg: ThreadConfig, codec: Codec, inflate: Inflate)
    ensures HasHost(req) ==> LegacyRunAsWritten(req, exchange, cfg, codec, inflate) == Raised(NoFullPath)
    ensures (LegacyRunAsWritten(req, exchange, cfg, codec, inflate) == LegacyRun(req, exchange, cfg, codec, inflate)
             <==> !HasHost(req))
  {
    if HasHost(req) {
      LegacyRunNeverNoFullPath(req, exchange, cfg, codec, inflate);
    }
  }

  /** The corrected run raises only a send failure or what reading the reply raises, never `NoFullPath`. */
  lemma LegacyRunNeverNoFullPath(req: Request, exchange: Exchange, cfg: ThreadConfig, codec: Codec, inflate: Inflate)
    ensures LegacyRun(req, exchange, cfg, codec, inflate) != Raised(NoFullPath)
  {
    if HasHost(req) && exchange.Answered? {
      var resp := exchange.response;
      LegacyBodyRaisesAsWritten(resp.body, NativeGetHeader(resp.headers, "content-type"),
                                NativeGetHeader(resp.headers, "content-encoding"), cfg, codec, inflate);
      var read := ReadLegacyResponse(resp, cfg, codec, inflate);
      if read.Raised? {
        NoFullPathIsNoReadError();
      }
    }
  }

  /** The `AttributeError` text is neither of the errors reading a reply can raise. */
  lemma NoFullPathIsNoReadError()
    ensures NoFullPath != ZlibError && !StartsWith(NoFullPath, UnknownEncoding)
  {
    assert NoFullPath[0] == AttributeErrorPrefix[0] != UnknownEncoding[0];
    assert NoFullPath[..|UnknownEncoding|][0] == NoFullPath[0];
  }

  /**
    Unlike the newer thread, this one checks no protocol: a request with a host fares the same
    with any protocol or none, where the newer thread stops it or raises.
  */
  lemma LegacyIgnoresProtocol(req: Request, exchange: Exchange, cfg: ThreadConfig, codec: Codec, inflate: Inflate)
    requires HasHost(req) && !WebProtocol(req)
    ensures LegacyRun(req, exchange, cfg, codec, inflate) == LegacyRun(req.(protocol := Some("http")), exchange, cfg, codec, inflate)
    ensures req.protocol.Some? ==>
      ClientRun(req, exchange, cfg, codec, inflate) == Ok(Failed("Unsupported protocol " + req.protocol.value + ". Use http of https"))
    ensures req.protocol.None? ==> ClientRun(req, exchange, cfg, codec, inflate) == Raised(ConcatNone)
  {
  }
}
