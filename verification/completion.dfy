/**
  What the request command (`rester/commands/http_request_command.py`) does around a request
  thread: which client runs the request, what a finished thread leads to (a redirect, a
  message, or a response buffer), and the request that follows a redirect.
*/
module Completion {
  import opened Wrappers
  import opened Strings
  import opened Decimal
  import Dict
  import opened Util
  import opened Message
  import opened Settings
  import Urllib
  import Http
  import RequestCommand

  /** What the command does next: start the request of a redirect, stop with a message, or open a response buffer. */
  datatype Step =
    | Follow(request: Request, count: nat)
    | Finish(message: string)
    | Open(text: string, bodyOnly: bool)

  const MaxRedirects: nat := 10
  const MaxRedirectsReached: string := "Maximum redirects reached."
  const NoLocation: string := "Unable to redirect. No Location header found."
  const UnableToRequest: string := "Unable to make request."
  const InvalidClient: string := "Invalid request_client. Must be 'python' or 'curl'. Found "
  const DictPlusDict: string := "TypeError: unsupported operand type(s) for +=: 'dict' and 'dict'"
  const IntInString: string := "TypeError: 'in <string>' requires string as left operand, not int"
  const WriteNone: string := "TypeError: utf_8_encode() argument 1 must be str, not None"

  /** The Python type name of a JSON value, as exception messages give it. */
  function TypeName(v: Value): string {
    match v
    case Null => "NoneType"
    case Bool(_) => "bool"
    case Int(_) => "int"
    case Str(_) => "str"
    case List(_) => "list"
    case Object(_) => "dict"
  }

  /** Python's `v == n` for a JSON value and an integer: `True` equals 1 and `False` equals 0. */
  predicate EqualsInt(v: Value, n: int) {
    match v
    case Int(i) => i == n
    case Bool(b) => (b && n == 1) || (!b && n == 0)
    case _ => false
  }

  // ---------------------------------------------------------------------------
  // Choosing the client

  datatype Client = PythonClient | CurlClient

  /** The `http_client` setting read in `_start_request`: a client, or the message that stops the command. */
  datatype Choice = Use(client: Client) | Refuse(message: string)

  /**
    `http_client` (by default `python`) names the thread class; any other string stops the
    command with a message naming it, and a value that is not a string cannot be added to the
    message.
  */
  function ChooseClient(settings: Overrideable): (r: Result<Choice>)
    ensures r == Ok(Use(PythonClient)) <==> Get(settings, "http_client", Str("python")) == Str("python")
    ensures r == Ok(Use(CurlClient)) <==> Get(settings, "http_client", Str("python")) == Str("curl")
    ensures r.Ok? && r.value.Refuse? ==> StartsWith(r.value.message, InvalidClient)
    ensures (!Overridden(settings, "http_client") &&
             (settings.settings.None? || "http_client" !in Dict.Keys(settings.settings.value))) ==> r == Ok(Use(PythonClient))
  {
    var client := Get(settings, "http_client", Str("python"));
    if client == Str("python") then Ok(Use(PythonClient))
    else if client == Str("curl") then Ok(Use(CurlClient))
    else if client.Str? then
      assert (InvalidClient + client.s)[..|InvalidClient|] == InvalidClient;
      Ok(Refuse(InvalidClient + client.s))
    else Raised("TypeError: can only concatenate str (not \"" + TypeName(client) + "\") to str")
  }

  // ---------------------------------------------------------------------------
  // Redirects

  /** `if follow and response.status in follow_codes`. */
  function ShouldFollow(settings: Overrideable, status: int): (r: Result<bool>)
    ensures !Truthy(Get(settings, "follow_redirects", Bool(true))) ==> r == Ok(false)
    ensures Get(settings, "follow_redirect_status_codes", List([])) == List([]) ==> r == Ok(false)
    ensures r == Ok(true) ==> var codes := Get(settings, "follow_redirect_status_codes", List([]));
      codes.List? && exists i :: 0 <= i < |codes.items| && EqualsInt(codes.items[i], status)
    ensures Truthy(Get(settings, "follow_redirects", Bool(true))) ==> var codes := Get(settings, "follow_redirect_status_codes", List([]));
      (codes.List? && (exists i :: 0 <= i < |codes.items| && EqualsInt(codes.items[i], status))) ==> r == Ok(true)
    ensures Truthy(Get(settings, "follow_redirects", Bool(true))) ==> var codes := Get(settings, "follow_redirect_status_codes", List([]));
      (codes.Str? ==> r == Raised(IntInString)) && (codes.Object? ==> r == Ok(false)) &&
      (codes.Null? || codes.Bool? || codes.Int? ==> r.Raised? && StartsWith(r.error, "TypeError: argument of type"))
  {
    var follow := Get(settings, "follow_redirects", Bool(true));
    if !Truthy(follow) then Ok(false)
    else
      var codes := Get(settings, "follow_redirect_status_codes", List([]));
      match codes
      case List(items) => Ok(exists i :: 0 <= i < |items| && EqualsInt(items[i], status))
      case Object(_) => Ok(false)
      case Str(_) => Raised(IntInString)
      case _ => Raised("TypeError: argument of type '" + TypeName(codes) + "' is not iterable")
  }

  /** A status listed among the codes is followed exactly when following is switched on. */
  lemma FollowsListedStatus(settings: Overrideable, status: int)
    requires Get(settings, "follow_redirect_status_codes", List([])) == List([Int(301), Int(302)])
    ensures ShouldFollow(settings, status).Ok?
    ensures ShouldFollow(settings, status).value <==>
      Truthy(Get(settings, "follow_redirects", Bool(true))) && (status == 301 || status == 302)
  {
    var items := [Int(301), Int(302)];
    if status == 301 {
      assert EqualsInt(items[0], status);
    } else if status == 302 {
      assert EqualsInt(items[1], status);
    }
  }

  /**
    The request `_follow_redirect` builds from `location`: `GET`, or `HEAD` after a `HEAD`;
    with a network location, that host and, when given, its scheme and path; with only a
    path, the previous host and the path resolved against the previous path; the query read
    with `parse_qs`.

    With `asWritten` the code's own behaviour is kept: the blank request's `http` protocol
    and empty port stay when the location has no host, and adding a query raises `TypeError`
    (`dict += dict`). Without it, a location without a host keeps the previous request's
    protocol and port, and the query is merged into the blank request's empty one.
  */
  function BuildRedirect(location: string, request: Request, asWritten: bool): (r: Result<Request>)
    ensures r.Ok? ==> r.value.httpMethod == (if request.httpMethod == "HEAD" then "HEAD" else "GET")
    ensures r.Ok? ==> r.value.headers == [] && r.value.body == ""
    ensures r.Ok? ==> Urllib.UrlParse(location, "").Ok?
  {
    match Urllib.UrlParse(location, "")
    case Raised(e) => Raised(e)
    case Ok(uri) =>
      match RedirectTarget(uri, request, asWritten)
      case Raised(e) => Raised(e)
      case Ok(t) => AddQuery(t, uri.query, asWritten)
  }

  /** The redirect's method, host, protocol, port and path, before its query. */
  function RedirectTarget(uri: Urllib.ParseResult, request: Request, asWritten: bool): (r: Result<Request>)
    ensures r.Ok? ==> r.value.httpMethod == (if request.httpMethod == "HEAD" then "HEAD" else "GET")
    ensures r.Ok? ==> r.value.query == [] && r.value.headers == [] && r.value.body == ""
    ensures r.Ok? ==> (uri.netloc != "" ==> r.value.host == Some(uri.netloc)) && (uri.netloc == "" && uri.path != "" ==> r.value.host == request.host)
    ensures r.Raised? <==> uri.netloc == "" && uri.path != "" && Urllib.UrlJoin(request.path, uri.path).Raised?
  {
    var blank := NewRequest().(httpMethod := (if request.httpMethod == "HEAD" then "HEAD" else "GET"));
    if uri.netloc != "" then
      Ok(blank.(host := Some(uri.netloc),
                protocol := if uri.scheme != "" then Some(uri.scheme) else blank.protocol,
                path := if uri.path != "" then uri.path else blank.path))
    else if uri.path != "" then
      match Urllib.UrlJoin(request.path, uri.path)
      case Raised(e) => Raised(e)
      case Ok(path) =>
        if asWritten then Ok(blank.(host := request.host, path := path))
        else Ok(blank.(host := request.host, protocol := request.protocol, port := request.port, path := path))
    else Ok(blank)
  }

  /** The query added to the redirect: merged in, or as written the `TypeError` of adding two dictionaries. */
  function AddQuery(t: Request, query: string, asWritten: bool): (r: Result<Request>)
    ensures query == "" ==> r == Ok(t)
    ensures query != "" ==> (r.Raised? <==> asWritten)
    ensures r.Ok? ==> r.value.(query := t.query) == t
    ensures r.Ok? && query != "" ==>
      forall k :: Dict.Get(r.value.query, k) == if Dict.LastFor(Urllib.ParseQs(query), k).Some? then Dict.LastFor(Urllib.ParseQs(query), k) else Dict.Get(t.query, k)
  {
    if query == "" then Ok(t)
    else if asWritten then Raised(DictPlusDict)
    else Ok(t.(query := Dict.Update(t.query, Urllib.ParseQs(query))))
  }

  /** The `Location` header, when it is truthy. */
  function Location(response: Response): (r: Option<string>)
    ensures r.Some? ==> r.value != "" && GetHeader(response.headers, "Location") == r
    ensures r.None? ==> GetHeader(response.headers, "Location") in {None, Some("")}
  {
    match GetHeader(response.headers, "Location")
    case Some(l) => if l != "" then Some(l) else None
    case None => None
  }

  /**
    `_follow_redirect` with the bound the constant promises: at most `MaxRedirects` redirects
    are followed, each adding one to the count.
  */
  function FollowRedirect(response: Response, request: Request, count: nat): (r: Result<Step>)
    ensures count >= MaxRedirects ==> r == Ok(Finish(MaxRedirectsReached))
    ensures count < MaxRedirects && Location(response).None? ==> r == Ok(Finish(NoLocation))
    ensures r.Ok? && r.value.Follow? ==> count < MaxRedirects && r.value.count == count + 1
    ensures r.Ok? && r.value.Follow? ==>
      Location(response).Some? && BuildRedirect(Location(response).value, request, false) == Ok(r.value.request)
  {
    if count >= MaxRedirects then Ok(Finish(MaxRedirectsReached))
    else match Location(response)
      case None => Ok(Finish(NoLocation))
      case Some(location) =>
        match BuildRedirect(location, request, false)
        case Raised(e) => Raised(e)
        case Ok(next) => Ok(Follow(next, count + 1))
  }

  /** `_follow_redirect` as written: it stops only once the count is above `MAX_REDIRECTS`. */
  function FollowRedirectAsWritten(response: Response, request: Request, count: nat): (r: Result<Step>)
  {
    if count > MaxRedirects then Ok(Finish(MaxRedirectsReached))
    else match Location(response)
      case None => Ok(Finish(NoLocation))
      case Some(location) =>
        match BuildRedirect(location, request, true)
        case Raised(e) => Raised(e)
        case Ok(next) => Ok(Follow(next, count + 1))
  }

  /** A response whose `Location` names a host and carries no query. */
  predicate AbsoluteLocation(response: Response) {
    Location(response).Some? &&
    var uri := Urllib.UrlParse(Location(response).value, "");
    uri.Ok? && uri.value.netloc != "" && uri.value.query == ""
  }

  /** Such a location is followed, as written or not, whatever the previous request. */
  lemma AbsoluteRedirectBuilds(response: Response, request: Request, asWritten: bool)
    requires AbsoluteLocation(response)
    ensures BuildRedirect(Location(response).value, request, asWritten).Ok?
    ensures BuildRedirect(Location(response).value, request, asWritten).value.host
      == Some(Urllib.UrlParse(Location(response).value, "").value.netloc)
  {
  }

  /** Below the bound such a location is followed, with the count one higher. */
  lemma AbsoluteFollows(response: Response, request: Request, count: nat)
    requires AbsoluteLocation(response) && count < MaxRedirects
    ensures FollowRedirect(response, request, count)
      == Ok(Follow(BuildRedirect(Location(response).value, request, false).value, count + 1))
  {
    AbsoluteRedirectBuilds(response, request, false);
  }

  /** As written it is followed up to the bound itself. */
  lemma AbsoluteFollowsAsWritten(response: Response, request: Request, count: nat)
    requires AbsoluteLocation(response) && count <= MaxRedirects
    ensures FollowRedirectAsWritten(response, request, count)
      == Ok(Follow(BuildRedirect(Location(response).value, request, true).value, count + 1))
  {
    AbsoluteRedirectBuilds(response, request, true);
  }

  /** How many redirects `step` follows in a row from `request` and `count`, at most `fuel` of them. */
  function Chain(step: (Request, nat) -> Result<Step>, request: Request, count: nat, fuel: nat): nat
    decreases fuel
  {
    if fuel == 0 then 0
    else match step(request, count)
      case Ok(Follow(next, c)) => 1 + Chain(step, next, c, fuel - 1)
      case _ => 0
  }

  /** A step that follows below `bound`, one count at a time, and never at or above it, follows `bound - count` times. */
  lemma {:induction false} ChainLength(step: (Request, nat) -> Result<Step>, request: Request, count: nat, fuel: nat, bound: nat)
    requires count <= bound
    requires forall r: Request, c: nat :: c < bound ==> step(r, c).Ok? && step(r, c).value.Follow? && step(r, c).value.count == c + 1
    requires forall r: Request, c: nat :: c >= bound ==> !(step(r, c).Ok? && step(r, c).value.Follow?)
    ensures Chain(step, request, count, fuel) == Min(fuel, bound - count)
    decreases fuel
  {
    if fuel > 0 && count < bound {
      ChainLength(step, step(request, count).value.request, count + 1, fuel - 1, bound);
    }
  }

  function Min(a: nat, b: nat): nat {
    if a <= b then a else b
  }

  /** The redirects of `response` followed from a command at `count`, with the bound. */
  function Redirects(response: Response): (Request, nat) -> Result<Step> {
    (r: Request, c: nat) => FollowRedirect(response, r, c)
  }

  /** The same, as written. */
  function RedirectsAsWritten(response: Response): (Request, nat) -> Result<Step> {
    (r: Request, c: nat) => FollowRedirectAsWritten(response, r, c)
  }

  /** From a count of `count`, a server that keeps redirecting to a host is followed `MaxRedirects - count` more times. */
  lemma RedirectChain(response: Response, request: Request, count: nat, fuel: nat)
    requires AbsoluteLocation(response) && count <= MaxRedirects
    ensures Chain(Redirects(response), request, count, fuel) == Min(fuel, MaxRedirects - count)
  {
    forall r: Request, c: nat | c < MaxRedirects
      ensures Redirects(response)(r, c).Ok? && Redirects(response)(r, c).value.Follow? && Redirects(response)(r, c).value.count == c + 1
    {
      AbsoluteFollows(response, r, c);
    }
    ChainLength(Redirects(response), request, count, fuel, MaxRedirects);
  }

  /** As written the same server is followed one time more. */
  lemma RedirectChainAsWritten(response: Response, request: Request, count: nat, fuel: nat)
    requires AbsoluteLocation(response) && count <= MaxRedirects + 1
    ensures Chain(RedirectsAsWritten(response), request, count, fuel) == Min(fuel, MaxRedirects + 1 - count)
  {
    forall r: Request, c: nat | c < MaxRedirects + 1
      ensures RedirectsAsWritten(response)(r, c).Ok? && RedirectsAsWritten(response)(r, c).value.Follow?
        && RedirectsAsWritten(response)(r, c).value.count == c + 1
    {
      AbsoluteFollowsAsWritten(response, r, c);
    }
    ChainLength(RedirectsAsWritten(response), request, count, fuel, MaxRedirects + 1);
  }

  /** A command starts with a count of zero: ten redirects in a row with the bound, eleven as written. */
  lemma RedirectBound(response: Response, request: Request)
    requires AbsoluteLocation(response)
    ensures Chain(Redirects(response), request, 0, 100) == 10
    ensures Chain(RedirectsAsWritten(response), request, 0, 100) == 11
  {
    RedirectChain(response, request, 0, 100);
    RedirectChainAsWritten(response, request, 0, 100);
  }

  /** As written, a `Location` with a query ends the command with `TypeError`; merged instead, its fields become the redirect's query. */
  lemma QueryRaisesAsWritten(location: string, request: Request)
    requires Urllib.UrlParse(location, "").Ok? && Urllib.UrlParse(location, "").value.query != ""
    requires BuildRedirect(location, request, false).Ok?
    ensures BuildRedirect(location, request, true) == Raised(DictPlusDict)
    ensures forall k ::
      Dict.Get(BuildRedirect(location, request, false).value.query, k) == Dict.LastFor(Urllib.ParseQs(Urllib.UrlParse(location, "").value.query), k)
  {
    var uri := Urllib.UrlParse(location, "").value;
    assert RedirectTarget(uri, request, false).Ok?;
    assert RedirectTarget(uri, request, true).Ok?;
  }

  /**
    As written, a `Location` with only a path keeps the previous host but falls back to
    `http` and no port; resolved against the previous request it keeps both.
  */
  lemma RelativeRedirectAsWritten(location: string, request: Request)
    requires Urllib.UrlParse(location, "").Ok?
    requires var uri := Urllib.UrlParse(location, "").value;
      uri.netloc == "" && uri.path != "" && uri.query == "" && Urllib.UrlJoin(request.path, uri.path).Ok?
    ensures BuildRedirect(location, request, true).Ok? && BuildRedirect(location, request, false).Ok?
    ensures BuildRedirect(location, request, true).value.protocol == Some("http")
    ensures BuildRedirect(location, request, true).value.port.None?
    ensures BuildRedirect(location, request, false).value.protocol == request.protocol
    ensures BuildRedirect(location, request, false).value.port == request.port
    ensures BuildRedirect(location, request, false).value.host == BuildRedirect(location, request, true).value.host == request.host
  {
  }

  // ---------------------------------------------------------------------------
  // The response buffer

  /** Each line followed by a line break, as the buffer is written. */
  function Terminated(lines: seq<string>): string {
    if |lines| == 0 then "" else lines[0] + "\n" + Terminated(lines[1..])
  }

  predicate HasBody(response: Response) {
    response.body.Some? && response.body.value != ""
  }

  /**
    The text written to the response buffer and whether only the body was written. A
    success with `body_only` writes the body alone; anything else writes the status line and
    one line per header, then a blank line and the body when there is one. A buffer without
    a body is never body-only.
  */
  function ResponseBuffer(response: Response, bodyOnly: Value): (r: Result<(string, bool)>)
    ensures r.Ok? && r.value.1 ==> HasBody(response) && r.value.0 == response.body.value
    ensures r.Raised? <==> !(200 <= response.status <= 299 && Truthy(bodyOnly)) && StatusLine(response).None?
    ensures r.Ok? && !(200 <= response.status <= 299 && Truthy(bodyOnly)) ==> StartsWith(r.value.0, StatusLine(response).value + "\n")
  {
    var body := if HasBody(response) then response.body.value else "";
    if 200 <= response.status <= 299 && Truthy(bodyOnly) then Ok((body, HasBody(response)))
    else match StatusLine(response)
      case None => Raised(WriteNone)
      case Some(line) =>
        var text := line + "\n" + Terminated(HeaderLines(response.headers)) + (if HasBody(response) then "\n" + body else "");
        assert text[..|line + "\n"|] == line + "\n";
        Ok((text, false))
  }

  /** The written status line and header lines are the lines joined with line breaks, plus one more. */
  lemma {:induction false} TerminatedIsJoin(first: string, lines: seq<string>)
    ensures first + "\n" + Terminated(lines) == Join("\n", [first] + lines) + "\n"
    decreases |lines|
  {
    if |lines| > 0 {
      TerminatedIsJoin(lines[0], lines[1..]);
      assert [lines[0]] + lines[1..] == lines;
      assert ([first] + lines)[1..] == lines;
    }
  }

  /** A status line of parts without line breaks has none. */
  lemma StatusLineHasNoBreak(response: Response)
    requires StatusLine(response).Some? && '\n' !in response.protocol && '\n' !in response.reason.value
    ensures '\n' !in StatusLine(response).value && |StatusLine(response).value| > 0
  {
    var digits := if response.status < 0 then NatToString(-response.status) else NatToString(response.status);
    assert IntToString(response.status) == (if response.status < 0 then "-" + digits else digits);
    assert forall k :: 0 <= k < |digits| ==> IsDigit(digits[k]);
  }

  /**
    In a buffer with headers, the body starts after the first blank line, and what comes
    before it is the status line and the header lines: selecting from the first blank line
    on selects exactly the body.
  */
  lemma BufferSelectsBody(response: Response, bodyOnly: Value)
    requires !(200 <= response.status <= 299 && Truthy(bodyOnly)) && HasBody(response)
    requires StatusLine(response).Some? && '\n' !in response.protocol && '\n' !in response.reason.value
    requires forall i :: 0 <= i < |response.headers| ==> '\n' !in response.headers[i].0 && '\n' !in response.headers[i].1
    ensures ResponseBuffer(response, bodyOnly).Ok?
    ensures var text := ResponseBuffer(response, bodyOnly).value.0;
      var head := Join("\n", [StatusLine(response).value] + HeaderLines(response.headers));
      Find(text, "\n\n") == Some(|head|) && text[..|head|] == head && text[|head| + 2..] == response.body.value
  {
    var line := StatusLine(response).value;
    var lines := [line] + HeaderLines(response.headers);
    var head := Join("\n", lines);
    var body := response.body.value;
    StatusLineHasNoBreak(response);
    forall i | 0 <= i < |lines|
      ensures |lines[i]| > 0 && '\n' !in lines[i]
    {
      if i > 0 {
        var h := response.headers[i - 1];
        assert lines[i] == h.0 + ": " + h.1;
      }
    }
    TerminatedIsJoin(line, HeaderLines(response.headers));
    var text := ResponseBuffer(response, bodyOnly).value.0;
    assert text == head + "\n\n" + body;
    RequestCommand.FirstBlankAfterLines(lines, body);
    assert text[..|head|] == head;
    assert text[|head| + 2..] == body;
  }

  // ---------------------------------------------------------------------------
  // A finished thread

  /**
    `_complete_thread`: a redirect the settings ask to follow, else the message that ends
    the command when no buffer is wanted, else the response buffer (`body_only` by default off).
  */
  function CompleteThread(response: Response, request: Request, settings: Overrideable, count: nat): (r: Result<Step>)
    ensures ShouldFollow(settings, response.status) == Ok(true) ==> r == FollowRedirect(response, request, count)
    ensures r.Ok? && r.value.Follow? ==> ShouldFollow(settings, response.status) == Ok(true)
    ensures r.Ok? && r.value.Open? ==> Truthy(Get(settings, "response_buffer", Bool(true)))
  {
    match ShouldFollow(settings, response.status)
    case Raised(e) => Raised(e)
    case Ok(follow) =>
      if follow then FollowRedirect(response, request, count)
      else if !Truthy(Get(settings, "response_buffer", Bool(true))) then
        match StatusLine(response)
        case None => Raised(ConcatNone)
        case Some(line) => Ok(Finish("Request complete. " + line))
      else
        match ResponseBuffer(response, Get(settings, "body_only", Bool(false)))
        case Raised(e) => Raised(e)
        case Ok((text, bodyOnly)) => Ok(Open(text, bodyOnly))
  }

  /** The class of a thread, as its `AttributeError` names it. */
  function ThreadClass(client: Client): string {
    match client
    case PythonClient => "HttpClientRequestThread"
    case CurlClient => "CurlRequestThread"
  }

  function NoElapsed(client: Client): string {
    "AttributeError: '" + ThreadClass(client) + "' object has no attribute 'elapsed'"
  }

  /**
    `_complete_thread` as written: it reads `thread.elapsed` before printing the response
    (with either output setting on) and again when it titles the response buffer, and no
    request thread has that attribute.
  */
  function CompleteThreadAsWritten(response: Response, request: Request, settings: Overrideable, count: nat,
                                   client: Client): (r: Result<Step>)
  {
    var outputHeaders := Get(settings, "output_response_headers", Bool(true));
    var outputBody := Get(settings, "output_response_body", Bool(true));
    if Truthy(outputHeaders) || (Truthy(outputBody) && HasBody(response)) then Raised(NoElapsed(client))
    else match ShouldFollow(settings, response.status)
      case Raised(e) => Raised(e)
      case Ok(follow) =>
        if follow then FollowRedirectAsWritten(response, request, count)
        else if !Truthy(Get(settings, "response_buffer", Bool(true))) then
          match StatusLine(response)
          case None => Raised(ConcatNone)
          case Some(line) => Ok(Finish("Request complete. " + line))
        else
          match ResponseBuffer(response, Get(settings, "body_only", Bool(false)))
          case Raised(e) => Raised(e)
          case Ok(_) => Raised(NoElapsed(client))
  }

  /**
    As written no response buffer is ever opened, and with the default output settings every
    finished request ends in `AttributeError`; without the timing the buffer opens.
  */
  lemma ElapsedRaisesAsWritten(response: Response, request: Request, settings: Overrideable, count: nat, client: Client)
    ensures var r := CompleteThreadAsWritten(response, request, settings, count, client);
      !(r.Ok? && r.value.Open?)
    ensures Truthy(Get(settings, "output_response_headers", Bool(true))) ==>
      CompleteThreadAsWritten(response, request, settings, count, client) == Raised(NoElapsed(client))
    ensures (ShouldFollow(settings, response.status) == Ok(false) && Truthy(Get(settings, "response_buffer", Bool(true))) &&
             200 <= response.status <= 299 && Truthy(Get(settings, "body_only", Bool(false)))) ==>
      CompleteThread(response, request, settings, count).Ok? && CompleteThread(response, request, settings, count).value.Open?
  {
  }

  /**
    `handle_thread` once the thread has ended: a completed response goes on to
    `_complete_thread`; a failure stops with the thread's message, or a general one when the
    thread left none (as when it raised).
  */
  function HandleThread(result: Result<Http.Outcome>, request: Request, settings: Overrideable, count: nat): (r: Result<Step>)
    ensures result.Raised? ==> r == Ok(Finish(UnableToRequest))
    ensures result.Ok? && result.value.Failed? ==> r.Ok? && r.value.Finish? && r.value.message != ""
    ensures result.Ok? && result.value.Failed? && result.value.message != "" ==> r == Ok(Finish(result.value.message))
  {
    match result
    case Raised(_) => Ok(Finish(UnableToRequest))
    case Ok(Failed(m)) => Ok(Finish(if m == "" then UnableToRequest else m))
    case Ok(Completed(response)) => CompleteThread(response, request, settings, count)
  }

  /**
    `handle_thread` as written: a completed response goes on to `_complete_thread` as
    written, so no response buffer is ever opened.
  */
  function HandleThreadAsWritten(result: Result<Http.Outcome>, request: Request, settings: Overrideable, count: nat,
                                 client: Client): (r: Result<Step>)
    ensures !(r.Ok? && r.value.Open?)
    ensures !(result.Ok? && result.value.Completed?) ==> r == HandleThread(result, request, settings, count)
  {
    match result
    case Ok(Completed(response)) =>
      ElapsedRaisesAsWritten(response, request, settings, count, client);
      CompleteThreadAsWritten(response, request, settings, count, client)
    case _ => HandleThread(result, request, settings, count)
  }

  /**
    `_start_request` and the thread it starts: the chosen client runs the request (the
    connection's or curl's behaviour given as parameters) and its end is handled.
  */
  function StartRequest(request: Request, settings: Overrideable, count: nat, cfg: Http.ThreadConfig,
                        exchange: Http.Exchange, curl: Http.CurlProcess, json: string -> Option<Value>,
                        codec: Http.Codec, inflate: Http.Inflate): (r: Result<Step>)
    ensures ChooseClient(settings).Ok? && ChooseClient(settings).value.Refuse? ==> r == Ok(Finish(ChooseClient(settings).value.message))
  {
    match ChooseClient(settings)
    case Raised(e) => Raised(e)
    case Ok(Refuse(m)) => Ok(Finish(m))
    case Ok(Use(PythonClient)) => HandleThread(Http.ClientRun(request, exchange, cfg, codec, inflate), request, settings, count)
    case Ok(Use(CurlClient)) => HandleThread(Http.CurlRun(request, cfg, curl, json, codec, inflate), request, settings, count)
  }

  /**
    `_start_request` as written: with `output_request` on (the default) the request is
    echoed before any thread starts, and its `header_lines` raise `ValueError` on a header
    name that is not two characters long. Then the chosen thread runs as written and its end
    is handled as written.
  */
  function StartRequestAsWritten(request: Request, settings: Overrideable, count: nat, cfg: Http.ThreadConfig,
                                 exchange: Http.Exchange, curl: Http.CurlProcess, json: string -> Option<Value>,
                                 codec: Http.Codec, inflate: Http.Inflate): (r: Result<Step>)
    ensures Truthy(Get(settings, "output_request", Bool(true))) && UnpackNames(request.headers).Raised? ==>
      r == Raised(UnpackNames(request.headers).error)
    ensures r.Ok? ==> !Truthy(Get(settings, "output_request", Bool(true))) || UnpackNames(request.headers).Ok?
    ensures !(r.Ok? && r.value.Open?)
  {
    var echo := Get(settings, "output_request", Bool(true));
    if Truthy(echo) && HeaderLinesOfDictAsWritten(request.headers).Raised? then
      Raised(HeaderLinesOfDictAsWritten(request.headers).error)
    else
      match ChooseClient(settings)
      case Raised(e) => Raised(e)
      case Ok(Refuse(m)) => Ok(Finish(m))
      case Ok(Use(PythonClient)) =>
        HandleThreadAsWritten(Http.ClientRunAsWritten(request, exchange, cfg, codec, inflate), request, settings, count, PythonClient)
      case Ok(Use(CurlClient)) =>
        HandleThreadAsWritten(Http.CurlRunAsWritten(request, cfg, curl, json, codec, inflate), request, settings, count, CurlClient)
  }

  /**
    As written, a request with a header name that is not two characters long never gets
    past the echo: even an unknown client setting, which stops the command with its
    message, is not reached.
  */
  lemma EchoRaisesAsWritten(request: Request, settings: Overrideable, count: nat, cfg: Http.ThreadConfig,
                            exchange: Http.Exchange, curl: Http.CurlProcess, json: string -> Option<Value>,
                            codec: Http.Codec, inflate: Http.Inflate, i: nat)
    requires Truthy(Get(settings, "output_request", Bool(true)))
    requires i < |request.headers| && |request.headers[i].0| != 2
    requires ChooseClient(settings).Ok? && ChooseClient(settings).value.Refuse?
    ensures StartRequestAsWritten(request, settings, count, cfg, exchange, curl, json, codec, inflate).Raised?
    ensures StartRequest(request, settings, count, cfg, exchange, curl, json, codec, inflate) ==
      Ok(Finish(ChooseClient(settings).value.message))
  {
  }

  /**
    With the echo off, the curl client and a valid request, a header name that is not two
    characters long makes the thread raise, so the command ends with the general message
    instead of running curl.
  */
  lemma CurlThreadFailsAsWritten(request: Request, settings: Overrideable, count: nat, cfg: Http.ThreadConfig,
                                 exchange: Http.Exchange, curl: Http.CurlProcess, json: string -> Option<Value>,
                                 codec: Http.Codec, inflate: Http.Inflate, i: nat)
    requires !Truthy(Get(settings, "output_request", Bool(true)))
    requires ChooseClient(settings) == Ok(Use(CurlClient))
    requires Http.ValidateRequest(request) == Ok(None)
    requires i < |request.headers| && |request.headers[i].0| != 2
    ensures StartRequestAsWritten(request, settings, count, cfg, exchange, curl, json, codec, inflate) == Ok(Finish(UnableToRequest))
    ensures Http.CurlArgs(request, cfg).Ok?
  {
    Http.CurlHeaderNamesRaiseAsWritten(request, cfg, curl, json, codec, inflate, i);
  }

  /**
    With the echo off, the `python` client and a valid request, a reply that carries any
    header makes the thread raise as written, so the command ends with the general message;
    corrected, the reply goes on to `_complete_thread`.
  */
  lemma NativeThreadFailsAsWritten(request: Request, settings: Overrideable, count: nat, cfg: Http.ThreadConfig,
                                   resp: Http.NativeResponse, curl: Http.CurlProcess, json: string -> Option<Value>,
                                   codec: Http.Codec, inflate: Http.Inflate)
    requires !Truthy(Get(settings, "output_request", Bool(true)))
    requires ChooseClient(settings) == Ok(Use(PythonClient))
    requires Http.ValidateRequest(request) == Ok(None) && |resp.headers| > 0
    ensures StartRequestAsWritten(request, settings, count, cfg, Http.Answered(resp), curl, json, codec, inflate) ==
      Ok(Finish(UnableToRequest))
    ensures (Http.ReadNativeResponse(resp, cfg, codec, inflate).Ok? ==>
             StartRequest(request, settings, count, cfg, Http.Answered(resp), curl, json, codec, inflate) ==
             CompleteThread(Http.ReadNativeResponse(resp, cfg, codec, inflate).value, request, settings, count))
  {
  }

  /** A request without a host stops with the hostname message, whichever client runs it. */
  lemma NoHostStops(request: Request, settings: Overrideable, count: nat, cfg: Http.ThreadConfig,
                    exchange: Http.Exchange, curl: Http.CurlProcess, json: string -> Option<Value>,
                    codec: Http.Codec, inflate: Http.Inflate)
    requires !Http.HasHost(request) && ChooseClient(settings).Ok? && ChooseClient(settings).value.Use?
    ensures StartRequest(request, settings, count, cfg, exchange, curl, json, codec, inflate) == Ok(Finish(Http.NoHostname))
  {
  }
}
