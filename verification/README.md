# RESTer request and response transcoding, in Dafny

RESTer is a Sublime Text plug-in. It turns the text of a buffer into an HTTP request,
sends it with Python's `http.client` or with curl, and writes the response back into a
buffer. This project models the part of the plug-in that is pure text, sequence and map
work once the editor, the threads and the sockets are taken away:

- the text utilities: end of line, query strings, line endings, charset scans;
- the two-tier settings lookup;
- the request and response messages with their derived lines;
- the request-text parser;
- the response pipeline of both request threads, including the curl argument list and
  the reading of curl's output;
- what the request command does around a thread: choosing the client, following
  redirects, the response buffer, `@name: value` overrides, `{{name}}` variables and
  command normalisation;
- the form-encoding command in its current and its older version.

Each source file is a module: `Util`, `Settings`, `Message`, `Parse`, `Http`, `LegacyHttp`
(`core/http.py`), `RequestCommand`, `Variables`, `Completion` and `FormEncode`. Python's
library is written out in `Strings` (`str` methods), `Dict` (dictionaries as ordered
lists of pairs), `Decimal` (`str(n)`, `int(s)`) and `Urllib` (`quote`, `unquote`,
`urlparse`, `parse_qs`, `urljoin`).

The main definitions follow the code, exceptions included:
- A Python exception becomes a `Raised` result carrying its message.
- Truthiness, `in` on values of the wrong type, and `True == 1` follow Python.
- Where a line of the source raises or misbehaves, the main definition is the corrected
  behaviour, not the code. A separate `...AsWritten` member keeps the code as written,
  and "## Findings" lists each such case. "## Left out" lists the behaviour that neither
  covers.

Parameters stand for what cannot be written out:
- the network exchange of `http.client`;
- the curl process (its exit code and output);
- `json.loads`;
- `bytes.decode` for a named codec;
- `zlib.decompress`.

`core/util.py` defines the same `get_end_of_line_character`, `get_query_string` and
`normalize_line_endings` as `rester/util.py`, so module `Util` models both.

## Model

| member | source | states |
|---|---|---|
| `Util.EndOfLine` | rester/util.py:11-19 | `windows` gives CRLF and `mac` gives CR. Any other setting, or none, gives LF. The result is always one of the three line endings the rest of the plug-in accepts. |
| `Util.QueryString` | rester/util.py:22-30 | `None` exactly when the map is empty. That the fields are the map's pairs in order is stated by `Util.QueryStringReadsBack`. |
| `Util.QueryStringReadsBack` | core/util.py:17-25 | For a non-empty map whose names hold no `=` or `&` and whose values hold no `&`, every pair is recovered in order: split the string at `&`, then each field at its first `=`. |
| `Util.NormalizeLfHasNoCr` | rester/util.py:33-38 | Normalising to LF leaves no CR. |
| `Util.NormalizeCrHasNoLf` | core/util.py:28-33 | Normalising to CR leaves no LF. |
| `Util.NormalizeIdempotent` | rester/util.py:35-37 | For each of the three line endings, normalising twice gives the same text as normalising once. |
| `Util.ToLfUndoesEol` | rester/util.py:35 | Converting a CR-free text to CR or CRLF endings and then back to LF gives the text back. |
| `Util.ScanStringForEncoding` | rester/util.py:41-46 | `None` exactly when no position matches `(encoding\|charset)=` with optional quotes and a name. Otherwise it is the name at the leftmost match: non-empty, over `[a-zA-Z0-9-]`. |
| `Util.EncodingMatchPos` | rester/util.py:8 | The search result is the leftmost matching position; no earlier position matches. |
| `Util.AsciiDecode` | rester/http.py:279 | Decoding as ASCII succeeds exactly when every byte is below 128, and then maps each byte to its character. |
| `Util.ScanBytesAgreesWithString` | rester/util.py:49-55 | Scanning bytes gives the same name as scanning their one-character-per-byte reading. |
| `Settings.Get` | rester/overrideable.py:21-27 | An override present for the name wins. Otherwise the settings layer's value, or the default when it has none. With no settings layer, the default. |
| `Settings.LookupOrder` | rester/overrideable.py:22-25 | With both layers the lookup order is the override, then the setting, then the default. |
| `Settings.EmptyOverridesIgnored` | rester/overrideable.py:22 | An empty override map looks up exactly as no override map at all. |
| `Settings.SetSettingsKeepsOverrides` | rester/overrideable.py:15-16 | Replacing the settings layer does not change a lookup an override answers. |
| `Settings.SetOverridesFallsThrough` | rester/overrideable.py:18-19 | Replacing the override layer with one lacking the name leaves that lookup to the settings layer. |
| `Message.NewRequest` | rester/message.py:29-36 | A new request is `GET`, `http`, path `/`, with no host, no port, no query, no headers and an empty body. |
| `Message.NewResponse` | rester/message.py:64-68 | A new response is `HTTP/1.1`, status 500, with no reason, no headers and an empty body. |
| `Message.HeaderLines` | rester/message.py:11-16 | One line per header in order, `name: value`. |
| `Message.UnpackNames` | rester/message.py:14 | Unpacking the names of a header dictionary succeeds exactly when every name has two characters, and then gives each name's two characters as key and value. Otherwise it raises the unpacking `ValueError` of the first other name. |
| `Message.HeaderLinesOfDictAsWritten` | rester/message.py:12-16 | As written, on a header dictionary: lines exist exactly when every name has two characters, and each line is the name's first character, `: `, and its second. |
| `Message.HeaderLinesOfDictNeverAgree` | rester/message.py:14-15 | For any request with a header, the as-written lines are never the `name: value` lines of its headers. |
| `Message.HeaderLineReadsBack` | rester/message.py:15 | A header with a trimmed name free of `:` and a trimmed value reads back from its line. The line splits at its first `:` and the value loses the one added space. |
| `Message.GetHeader` | rester/message.py:18-23 | `None` exactly when no name matches ignoring case. Otherwise it is the value of the first header whose name matches. |
| `Message.HeaderIndex` | rester/message.py:20-22 | The index found is the first whose name matches ignoring case. |
| `Message.GetHeaderCaseInsensitive` | rester/message.py:19 | Two names with the same lower-case form find the same header. |
| `Message.FullPathSplitsBack` | rester/message.py:38-44 | With no query the full path has no `?`. Otherwise it splits at its first `?` into the path and the query string. |
| `Message.Uri` | rester/message.py:51-58 | The URI exists exactly when the protocol and the host do. Concatenating `None` raises. |
| `Message.UriSplitsBack` | rester/message.py:54-57 | For an `http`/`https` request with a plain host, a port whose text holds no delimiter, and a `/` path, `urlsplit` of the URI gives back the protocol, the host with its port when the port is truthy, the path and the query string. |
| `Message.StatusLine` | rester/message.py:70-74 | A status line exists exactly when the protocol, the status and the reason are all truthy. |
| `Http.StatusLineReadsBack` | rester/message.py:72-73 | A status line whose protocol has no space splits back into that protocol, the status's digits and the reason. A positive status reads back as its number. |
| `Parse.Search` | rester/parse.py:18-20 | A match has a non-empty URI over the URI characters, and a method exactly when the pattern has one. There is no match without a URI character. |
| `Parse.ReadRequestLine` | rester/parse.py:23-37 | The cascade fails exactly when the line has no URI character. A match has a non-empty URI and, when present, a non-empty upper-case method. |
| `Parse.RequestLineReadsBack` | rester/parse.py:26-28 | `METHOD full_path HTTP/1.1`, as a request writes it, reads back as its method, full path and protocol. |
| `Parse.BareUriReadsBack` | rester/parse.py:33-36 | A line that is only URI characters reads back as that URI with no method or protocol. |
| `Parse.ParseRequestLine` | rester/parse.py:155-178 | An unreadable line leaves the request unchanged. Headers and body are never touched. The method is set only when the line carries one. |
| `Parse.RequestLineParsesBack` | rester/parse.py:160-178 | Parsing a request's own request line gives back its method and path, with no host and no query. |
| `Parse.ClassifyLine` | rester/parse.py:118-146 | A blank line is `Blank`. A `#`/`@` line is ignored. A `?`/`&` line gives a query field with a trimmed key and a quoted value. Otherwise a line gives a header whose name is the text before its first `:`, with the value trimmed. |
| `Parse.ClassifyLineAsWritten` | rester/parse.py:119-122 | As written, exactly the all-whitespace lines raise. Every other line is classified as the corrected classifier does. |
| `Parse.WhitespaceLineRaisesAsWritten` | rester/parse.py:122 | The line `" "` raises as written and is `Blank` when corrected. |
| `Parse.HeaderLineClassifiedBack` | rester/parse.py:144-146 | A header line written as `name: value` classifies back as that header. |
| `Parse.QueryLineClassified` | rester/parse.py:126-141 | `?name=value` with trimmed parts gives the query field `name` with the quoted value. |
| `Parse.CommentLineIgnored` | rester/parse.py:121-123 | Inserting a `#` or `@` line anywhere changes neither the query fields nor the headers. |
| `Parse.FieldsAppend` | rester/parse.py:118 | The fields of two runs of lines are the fields of each, in order. |
| `Parse.ReadHeaderLines` | rester/parse.py:111-146 | Each query name's list is its old list plus the values of its query lines, in order. Each header is the value of the last line with that name. |
| `Parse.MergeHeaders` | rester/parse.py:149-153 | With no text headers the defaults are kept. |
| `Parse.MergePrefersText` | rester/parse.py:150-151 | A header in the text replaces a default of the same name. Other defaults stay. |
| `Parse.FirstEmptyLine` | rester/parse.py:71-74 | The index found is the first empty line at or after the start, and `None` when there is none. |
| `Parse.SplitHeadersAndBody` | rester/parse.py:70-80 | The header lines are the non-empty lines after the first, up to the first empty line. The body, when there is one, is the rest joined with the line ending. |
| `Parse.HeadersAndBodySplitBack` | rester/parse.py:63-80 | A request line, header lines and a body joined around one blank line split back into the same header lines and body. |
| `Parse.RecoverHost` | rester/parse.py:85-103 | A request with a host is unchanged. Otherwise the host comes from a non-empty `Host` header. Only the host and path can change. |
| `Parse.HostFromHeader` | rester/parse.py:86-89 | Without a host and with a non-empty `Host` header, the request takes that header's value as its host. |
| `Parse.HostFromPath` | rester/parse.py:100-103 | Without a host or `Host` header, a path `name/rest` becomes host `name` and path `/rest`. |
| `Parse.PathReparsed` | rester/parse.py:101-103 | Otherwise the host and path are the hostname and path of `urlparse("//" + path)`. |
| `Parse.ReadParserSettings` | rester/parse.py:53-56 | The default headers read from the settings have each name once. |
| `Parse.DefaultHeadersOfSettings` | rester/parse.py:54 | Each default header of a settings object holds `str()` of its value, a string, number, boolean or `null`. No other name is a default header. |
| `Parse.GetRequest` | rester/parse.py:47-109 | A parsed request never has an empty path. |
| `Parse.GetRequestBody` | rester/parse.py:58-80 | A request text with a blank line yields exactly the text after it as the body. |
| `Parse.GetRequestHeaders` | rester/parse.py:82-83 | Each header of the parsed request is the last text header of that name, or else the default. |
| `Parse.GetHeaderOfDictAsWritten` | rester/parse.py:54 | As written, `get_header` on the request's header dict unpacks each key as a pair. It succeeds when every key has two characters, raises when the first key does not, and any value it finds is one character. |
| `Parse.HostHeaderOfDictRaisesAsWritten` | rester/parse.py:87 | A `Host` header makes the host lookup raise as written. Corrected, it finds the value. |
| `Http.DecodeIsFirstFit` | rester/http.py:25-34 | The result is the decoding by the first candidate that decodes, or that names an unknown codec. It fails exactly when none does, so an empty list fails. |
| `Http.Candidates` | rester/http.py:55-72 | The candidates are the header charset, then the sniffed one, then the distinct remaining defaults. Every default is included, and nothing else. |
| `Http.AddMissing` | rester/http.py:69-72 | The found names stay first and in order. Each default not yet present is added once. Nothing else is added. |
| `Http.DecodeBody` | rester/http.py:74-80 | The body is the first candidate's decoding. When nothing decodes, it is `{Unable to decode body}`. An unknown codec name raises. |
| `Http.UnzipBodyAsWritten` | rester/http.py:92-98 | As written, without `gzip` or `defalte` in the encoding the bytes are unchanged. |
| `Http.UnzipBody` | rester/http.py:92-98 | Corrected: a body whose encoding mentions `deflate` is inflated, and without `gzip` or `deflate` in the encoding the bytes are unchanged. |
| `Http.DeflateSkippedAsWritten` | rester/http.py:96-97 | `Content-Encoding: deflate` is passed through uninflated as written, and inflated when corrected. |
| `Http.ReadBody` | rester/http.py:82-90 | `None` exactly for an empty body. A decoded body is in the requested line-ending form: no CR for LF, no LF for CR. |
| `Http.ValidateRequest` | rester/http.py:100-114 | No host gives the hostname message. With a host, the request passes exactly for `http`/`https`. Any other protocol gives the unsupported-protocol message. A missing protocol raises. |
| `Http.ValidRequestHasUri` | rester/http.py:100-114 | A valid request has a URI starting with `http`. |
| `Http.ReadNativeResponse` | rester/http.py:177-195 | Version 10 gives `HTTP/1.0`. The status and reason are copied. Each header is the last one received with its name. The body is `None` exactly when empty. |
| `Http.NativeHeadersRaiseAsWritten` | rester/http.py:191-192 | As written, any received header raises: a name indexes a list. With no headers the result is the corrected one. |
| `Http.ClientRun` | rester/http.py:118-175 | An invalid request fails with its message, or raises when it has no protocol; either way the connection plays no part. For a valid request: a failed name lookup gives the hostname message, a refused connection "Connection refused.", any other send failure raises, a receive timeout gives "Request timed out.", any other receive failure the unexpected-error message, and an answer completes with the reply as read (or raises what reading raises). Completion requires a valid request that was answered. |
| `Http.ClientRunAsWritten` | rester/http.py:118-196 | As written, a completed run holds no header and comes from an answer without headers. Without an answer it is the corrected run. |
| `Http.NativeClientRaisesAsWritten` | rester/http.py:170-192 | For a valid request, a reply with any header raises the list-assignment `TypeError` as written, while the corrected run completes with the reply as read. A reply without headers gives the same run either way. |
| `Http.CurlArgs` | rester/http.py:220-260 | The list starts with the command, `--include` and `--write-out` with the size trailer, and ends with the URI. It exists exactly when the URI does. |
| `Http.CurlArgsReadBack` | rester/http.py:231-260 | For a valid request, and `curl_options` of which none is an option that takes a value (`PlainOptions`), the arguments read back in order: the trailer, timeouts, method, headers, body, options and URI. |
| `Http.CurlArgsAsWritten` | rester/http.py:246-248 | As written, the command line exists exactly when every header name has two characters and the URI exists. A name of another length raises its unpacking error. |
| `Http.CurlArgsAgreeWithoutHeaders` | rester/http.py:246-248 | Without headers, the command line as written is the corrected one. |
| `Http.LastBlank` | rester/http.py:268 | The trailer starts at the last `\n\n`, or at -1 when there is none. |
| `Http.SkipInterim` | rester/http.py:283-287 | Leading empty and `100 CONTINUE` lines are dropped, up to the first other line. When every line is such a line, nothing is dropped. |
| `Http.StatusParts` | rester/http.py:290-292 | A status line splits into three parts at its first two spaces, and only then. |
| `Http.StatusPartsOf` | rester/http.py:292 | `protocol status reason` splits back into its three parts. |
| `Http.CollectHeaders` | rester/http.py:304-308 | The headers read from curl have each name once. |
| `Http.CollectHeaderLines` | rester/http.py:305-308 | Header lines collect back to the headers they were written from, a later name overwriting an earlier one. |
| `Http.ReadCurlOutput` | rester/http.py:262-312 | An unreadable status line fails with the read-failure message. |
| `Http.CurlOutputReadsBack` | rester/http.py:268-311 | Output made of a status line, header lines, a body and the size trailer is framed back into that status, those headers and that body. |
| `Http.ReadCurlOutputAsWritten` | rester/http.py:262-312 | As written, a completed response holds no header. |
| `Http.CurlHeadersRaiseAsWritten` | rester/http.py:305-308 | As written, any header line with a `:` raises: a name indexes a list. |
| `Http.CurlErrorMessage` | rester/http.py:314-330 | The message raises exactly for exit code 1 with no protocol. |
| `Http.CurlErrorCodeReadsBack` | rester/http.py:329-330 | The generic message ends in the exit code, which reads back as that number. |
| `Http.CurlErrorInjective` | rester/http.py:330 | Two exit codes with the same message are the same code. |
| `Http.CurlRun` | rester/http.py:204-218 | An invalid request fails with its validation message. |
| `Http.CurlExitMessage` | rester/http.py:210-218 | A non-zero exit fails with that code's message. A zero exit reads curl's output. |
| `Http.CurlRunAsWritten` | rester/http.py:204-312 | As written, an invalid request still fails with its validation message, and a completed run holds no header: the command line and the output are both read as written. |
| `Http.CurlOutputRaisesAsWritten` | rester/http.py:210-218 | For a valid request without headers and a zero exit, output with any `name: value` header line raises the list-assignment `TypeError` as written. The corrected run, when it succeeds, completes with at least one header. |
| `Http.CurlHeaderNamesRaiseAsWritten` | rester/http.py:247 | As written, a valid request with a header name that is not two characters long raises before curl runs. The corrected command line exists. |
| `LegacyHttp.MatchingValues` | core/http.py:143 | No value is found exactly when no header name matches. |
| `LegacyHttp.NativeGetHeader` | core/http.py:157 | The reply's lookup finds a value exactly when the message's lookup does. |
| `LegacyHttp.SingleHeaderLookup` | core/http.py:143 | With one header of a name, the reply's lookup and the message's lookup give the same value. |
| `LegacyHttp.JoinedHeaderLookup` | core/http.py:157 | Two headers of one name are joined with `, ` in the order received. |
| `LegacyHttp.ReadLegacyResponse` | core/http.py:112-131 | Version 10 gives `HTTP/1.0`. The status and reason are copied. There is one header line per header received. The body is `None` exactly when empty. |
| `LegacyHttp.LegacyHeadersReadBack` | core/http.py:125-128 | Each recorded header line reads back as the header it came from, duplicates and order kept. |
| `LegacyHttp.LegacyBodyRaisesAsWritten` | core/http.py:159-164 | As written, every non-empty body raises: the scans it calls are undefined. With `rester/util.py`'s scans, only a failed inflate or an unknown codec raises. |
| `LegacyHttp.LegacyRun` | core/http.py:51-110 | No host stops with the hostname message. With a host, whatever the protocol: a refused connection stops with "Connection refused.", a failed name lookup with the hostname message, any other send failure raises, a receive timeout stops with "Request timed out.", any other receive failure with the unexpected-error message, and an answer is done with the reply as read (or raises what reading raises). A completed exchange needs a host and an answer. |
| `LegacyHttp.LegacySendRaisesAsWritten` | core/http.py:76-91 | As written, every request with a host raises the `AttributeError` of `get_full_path`, which neither handler catches. The as-written and corrected runs agree exactly on the requests without a host. |
| `LegacyHttp.LegacyIgnoresProtocol` | core/http.py:54-64 | This thread treats any protocol as `http`. The newer thread refuses such a request, or raises when there is no protocol. |
| `Decimal.NatToStringRoundTrip` | rester/message.py:56 | `str(n)` of a natural number reads back as `n`. |
| `Decimal.IntToStringRoundTrip` | rester/http.py:301 | `int(str(n))` is `n` for every integer. |
| `Urllib.Quote` | rester/parse.py:137 | Every character of the result is unreserved, `/` or part of a `%XX` escape. A value needing no escape is unchanged. |
| `Urllib.UnquoteQuote` | rester/parse.py:137 | Unquoting a quoted value gives the value back. |
| `Urllib.UrlSplit` | rester/parse.py:165 | The netloc holds only authority characters. The path holds no `?` or `#`. It raises exactly on an unbalanced `[` / `]`. |
| `Urllib.Hostname` | rester/parse.py:168 | The hostname is absent exactly when the host part of the netloc is empty. |
| `Urllib.PortOfNumber` | rester/parse.py:173 | A non-empty port text is read exactly when it is a number from 0 to 65535. A non-number raises. |
| `Urllib.UrlJoinRelativeSegment` | rester/commands/http_request_command.py:438 | A plain relative segment replaces the last segment of an absolute base path. |
| `Urllib.UrlJoinAbsolutePath` | rester/commands/http_request_command.py:437-438 | An absolute path without dot segments replaces a plain base path. |
| `RequestCommand.NormalizeCommand` | rester/commands/http_request_command.py:35-68 | A string `s` becomes `{name: s, args: None}`. A dict without `name`, or any other value, is refused. A dict keeps its entries and gains `args: None` only when it has none. |
| `RequestCommand.HeaderPart` | rester/commands/http_request_command.py:384-387 | The scanned text is the prefix before the first blank line, or all of it when there is none. |
| `RequestCommand.HeaderPartIgnoresTail` | rester/commands/http_request_command.py:387 | Text after the first blank line cannot change the overrides. |
| `RequestCommand.OverrideScan` | rester/commands/http_request_command.py:32 | Every override name is free of `:` and every value stays on its line. |
| `RequestCommand.OverrideValue` | rester/commands/http_request_command.py:392-396 | The value is its JSON reading when that succeeds, and the raw text otherwise. |
| `RequestCommand.NamedValues` | rester/commands/http_request_command.py:391-396 | Each override is its name without trailing spaces and its JSON-or-text value, in order. |
| `RequestCommand.Overrides` | rester/commands/http_request_command.py:383-396 | The override map has each name once. |
| `RequestCommand.CommandSettings` | rester/commands/http_request_command.py:399-401 | The command's settings keep the editor's settings beneath the overrides. |
| `RequestCommand.OverrideLinesScanBack` | rester/commands/http_request_command.py:391 | Override lines `@name: value` scan back to exactly those pairs in order. |
| `RequestCommand.OverridesReadBack` | rester/commands/http_request_command.py:384-396 | Override lines before the body yield exactly those overrides, whatever the body holds. |
| `RequestCommand.OverrideNameKeepsSpaceAsWritten` | rester/commands/http_request_command.py:32 | As written, `@name : value` stores the name with a trailing space. Corrected, it stores `name`. |
| `Variables.DefinitionAt` | rester/commands/http_request_command.py:133 | A definition has an identifier name and a one-line value, and is commented exactly when it starts with `#`. |
| `Variables.Definitions` | rester/commands/http_request_command.py:139 | Every definition found has an identifier name and a value without a line break. |
| `Variables.Assigned` | rester/commands/http_request_command.py:137-138 | Assigned values are trimmed. |
| `Variables.AssignedNames` | rester/commands/http_request_command.py:135-142 | A name is assigned exactly when some uncommented definition has it. |
| `Variables.Variables` | rester/commands/http_request_command.py:132-142 | Each variable name appears once. |
| `Variables.VariableIsLastDefinition` | rester/commands/http_request_command.py:134-142 | A variable's value is its last uncommented definition: the selection's definitions come after the buffer's. It is defined exactly when some uncommented definition names it. |
| `Variables.PlaceholderAt` | rester/commands/http_request_command.py:143 | A placeholder names an identifier between `{{` and `}}`. |
| `Variables.NoPlaceholderNoChange` | rester/commands/http_request_command.py:143 | Text with no placeholder is left as it is. |
| `Variables.SubstituteOne` | rester/commands/http_request_command.py:129-130 | `{{ name }}` becomes the variable's value, or nothing when it is undefined. The text around it is kept. |
| `Variables.OneLineVariables` | rester/commands/http_request_command.py:133-142 | A single `@name = value` line defines `name` as the trimmed value. Its commented form defines nothing. |
| `Variables.DefinedVariableExpands` | rester/commands/http_request_command.py:129-143 | `{{name}}` expands to the value of a definition. Behind a `#` it expands to nothing. |
| `Completion.ChooseClient` | rester/commands/http_request_command.py:482-491 | `python` (the default) chooses the native client and `curl` chooses curl. Any other string is refused with the invalid-client message. With no setting at all, the native client runs. |
| `Completion.ShouldFollow` | rester/commands/http_request_command.py:286-288 | A falsy `follow_redirects` or an empty code list never follows. With following on, a list of codes follows exactly the statuses it holds, by Python equality. A text raises the `in <string>` error, an object never follows, and a number, boolean or `null` raises as not iterable. |
| `Completion.FollowsListedStatus` | rester/commands/http_request_command.py:287-288 | With codes 301 and 302, a redirect is followed exactly for those statuses when following is on. |
| `Completion.Location` | rester/commands/http_request_command.py:410-413 | A redirect target is the `Location` header when it is non-empty. |
| `Completion.BuildRedirect` | rester/commands/http_request_command.py:417-442 | The new request is `HEAD` after `HEAD` and `GET` otherwise, with no headers and no body. |
| `Completion.RedirectTarget` | rester/commands/http_request_command.py:427-438 | An absolute location sets the host from the netloc. A path-only location keeps the old host. Only the path join can raise. |
| `Completion.AddQuery` | rester/commands/http_request_command.py:440-442 | An empty query changes nothing. Corrected, a query's names replace those of the request and nothing else changes. As written it raises. |
| `Completion.FollowRedirect` | rester/commands/http_request_command.py:403-447 | From count 10 it stops with "Maximum redirects reached". Without a location it stops with the missing-location message. A follow increments the count by one and carries the redirect request. |
| `Completion.AbsoluteRedirectBuilds` | rester/commands/http_request_command.py:427-433 | An absolute location always builds a request whose host is the location's netloc. |
| `Completion.AbsoluteFollows` | rester/commands/http_request_command.py:409-446 | Below the bound, an absolute location is followed. |
| `Completion.AbsoluteFollowsAsWritten` | rester/commands/http_request_command.py:405 | As written it is followed up to count 10 inclusive. |
| `Completion.ChainLength` | rester/commands/http_request_command.py:445 | A step that follows, counting by one below a bound and never from it, runs until the bound or the fuel ends. |
| `Completion.RedirectChain` | rester/commands/http_request_command.py:445-446 | Endless absolute redirects are followed `10 - count` times (or until the fuel ends). |
| `Completion.RedirectChainAsWritten` | rester/commands/http_request_command.py:405 | As written, `11 - count` times. |
| `Completion.RedirectBound` | rester/commands/http_request_command.py:30 | From a fresh start, 10 redirects are followed; 11 as written. |
| `Completion.QueryRaisesAsWritten` | rester/commands/http_request_command.py:441-442 | A location with a query raises as written. Corrected, the redirect's query is the location's. |
| `Completion.RelativeRedirectAsWritten` | rester/commands/http_request_command.py:435-438 | A path-only location keeps the host. As written the protocol resets to `http` and the port is dropped; corrected, both are kept. |
| `Completion.ResponseBuffer` | rester/commands/http_request_command.py:304-328 | Body only applies to a 2xx status with a truthy `body_only` and a body, and the buffer is then the body. Otherwise it starts with the status line, and raises when there is none. |
| `Completion.TerminatedIsJoin` | rester/commands/http_request_command.py:314-319 | The status line and header lines, each written with a line break, are their join plus one break. |
| `Completion.BufferSelectsBody` | rester/commands/http_request_command.py:202-210 | In a full buffer the first blank line ends the status line and headers, so the selection after it is exactly the body. |
| `Completion.CompleteThread` | rester/commands/http_request_command.py:255-352 | A followed status follows the redirect, and only then. A buffer opens only when `response_buffer` is truthy. |
| `Completion.ElapsedRaisesAsWritten` | rester/commands/http_request_command.py:266 | As written the thread never opens a buffer, and it raises whenever headers are output. Corrected, a 2xx body-only response opens one. |
| `Completion.HandleThread` | rester/commands/http_request_command.py:236-248 | A failed thread ends with its message, or "Unable to make request." when it has none. A thread that raised ends the same way. |
| `Completion.HandleThreadAsWritten` | rester/commands/http_request_command.py:236-248 | As written, no response buffer is ever opened. A thread that did not complete is handled as in the corrected command. |
| `Completion.StartRequest` | rester/commands/http_request_command.py:466-495 | An invalid client ends with its message and starts no request. |
| `Completion.NoHostStops` | rester/commands/http_request_command.py:493-495 | With either client, a request without a host ends with the hostname message. |
| `Completion.StartRequestAsWritten` | rester/commands/http_request_command.py:466-495 | As written, with `output_request` on, a header name that is not two characters long raises its unpacking error before any thread starts. Raising is the only outcome then. No run as written ever opens a response buffer. |
| `Completion.EchoRaisesAsWritten` | rester/commands/http_request_command.py:471-473 | With the echo on and such a header, the command raises as written, even where the corrected command stops with the invalid-client message. |
| `Completion.NativeThreadFailsAsWritten` | rester/http.py:191-192 | With the echo off, the `python` client and a valid request, a reply with any header ends the command with "Unable to make request." as written. Corrected, the reply goes on to `_complete_thread`. |
| `Completion.CurlThreadFailsAsWritten` | rester/http.py:247 | With the echo off and the curl client, such a header makes the thread raise, so the command ends with "Unable to make request." The corrected command line exists. |
| `FormEncode.SplitField` | rester/commands/auto_form_encode_command.py:60-63 | A line splits at its first `=`, or failing that at its first `:`. Without either there is no field. |
| `FormEncode.ReadLine` | rester/commands/auto_form_encode_command.py:32-101 | A line completes at most one field, with a non-empty key and value. Without delimiters, nothing stays open. |
| `FormEncode.ContinueField` | rester/commands/auto_form_encode_command.py:38-54 | An open field closes exactly on a line whose right-trimmed text ends with the end delimiter. |
| `FormEncode.StartField` | rester/commands/auto_form_encode_command.py:65-93 | Without delimiters a field is its stripped key and stripped value, kept when both are non-empty. |
| `FormEncode.FormFields` | rester/commands/auto_form_encode_command.py:15-101 | There are at most as many fields as lines, each with a non-empty key and value. |
| `FormEncode.Quoted` | rester/commands/auto_form_encode_command.py:97 | Each value is `quote`d and its key kept. |
| `FormEncode.FormValues` | rester/commands/auto_form_encode_command.py:96-101 | Each key's list holds the quoted values of exactly its fields, in order. |
| `FormEncode.FormEmpty` | rester/commands/auto_form_encode_command.py:98-101 | The form is empty exactly when there are no fields. |
| `FormEncode.EncodeForm` | rester/commands/auto_form_encode_command.py:103 | The encoding is `None` exactly when no line gave a field. |
| `FormEncode.PlainLinesReadBack` | rester/commands/auto_form_encode_command.py:59-101 | Lines `key=value` of trimmed, non-delimited fields read back as exactly those fields. |
| `FormEncode.PendingCloses` | rester/commands/auto_form_encode_command.py:38-54 | An open field absorbs lines that stay open and closes on the line with the end delimiter. Its value is all of them joined with the line ending. |
| `FormEncode.DelimitedReadsBack` | rester/commands/auto_form_encode_command.py:73-89 | A value written over several lines between the delimiters reads back as one field: those lines joined with the line ending. |
| `FormEncode.SameLineDelimited` | rester/commands/auto_form_encode_command.py:73-81 | A value opened and closed on one line reads back as the text between the delimiters. |
| `FormEncode.LegacyField` | AutoFormEncode.py:61-77 | A stripped line gives at most one field, with a non-empty key and value. |
| `FormEncode.LegacyEncode` | AutoFormEncode.py:56-79 | The older encoding is `None` exactly when no line gave a field. |
| `FormEncode.LegacyAgrees` | AutoFormEncode.py:61-73 | Without delimiters, on lines without surrounding spaces, the older and newer encoders give the same fields and the same encoding. |
| `FormEncode.HasFormEncodedHeader` | rester/commands/auto_form_encode_command.py:106-114 | True exactly when some line's name before its first `:` lowercases to `content-type` and its value contains `x-www-form-urlencoded`. |
| `FormEncode.FormHeaderLine` | AutoFormEncode.py:47-54 | `Content-Type: ...x-www-form-urlencoded...` in any letter case is a form header. |
| `FormEncode.BodyStart` | rester/commands/auto_form_encode_command.py:145-148 | The body starts after a double line ending. |
| `FormEncode.ReplaceText` | rester/commands/auto_form_encode_command.py:138-152 | A replacement happens exactly for text with a double line ending and a form header before it. The result is the text up to the blank line plus the encoded body. |
| `FormEncode.ReplaceKeepsHeaders` | AutoFormEncode.py:38-45 | The replacement keeps the headers verbatim, and its blank line is where the original's was. Only the body changes. |
| `FormEncode.ReplaceAsWrittenAgrees` | rester/commands/auto_form_encode_command.py:150-151 | As written, the command raises exactly when a form request encodes to `None`. Otherwise it agrees with the corrected one. |
| `FormEncode.EmptyLineNoField` | rester/commands/auto_form_encode_command.py:65 | An empty body line gives no field in either encoder. |
| `FormEncode.EmptyBodyLines` | rester/commands/auto_form_encode_command.py:148 | Headers followed by a blank line and nothing else have the single empty body line. |
| `FormEncode.EmptyFormBodyRaisesAsWritten` | AutoFormEncode.py:43-44 | A form request with an empty body raises as written. Corrected, it is left unchanged. |

## Left out

- The editor, threads and I/O are left out: views, selections (`_get_selection`), undo, pane and group handling (`response_group`, `ResterHttpResponseCloseEvent`), temporary files, status-bar animation (`check_if_requesting`), thread polling in `handle_thread`, and console printing. They are editor and concurrency plumbing. The values they carry are parameters: the selection text, the editor's settings, the thread's result.
- `_run_request_commands` and `_run_response_commands` run editor commands. Only the normalisation of each command is modelled.
- Sockets, `HTTPConnection` and `subprocess.Popen` are I/O. They are the parameters `Exchange` (what the connection did) and `CurlProcess` (exit code and output). Only their mapping to messages is modelled.
- `zlib.decompress`, `bytes.decode`, `json.loads` and Python's codec registry are library internals. They are parameters; an unknown codec name is the codec's own answer.
- The response title with `"%.4f sec."` is left out: it needs floating-point formatting, and `thread.elapsed` is never set anyway.
- `view.find_all` with a format string is read as `re.findall` over the whole buffer, which is what it computes for this pattern.
- `int()`'s underscores and non-ASCII digits are not accepted. `unquote` leaves non-ASCII escapes as they are. These inputs are outside what the plug-in's texts carry. (`str.isspace` is modelled in full: ASCII space, `\t`–`\r`, `\x1c`–`\x1f`, U+0085, U+00A0, U+1680, U+2000–U+200A, U+2028, U+2029, U+202F, U+205F and U+3000.)
- `Message.GetHeader`, `Message.GetHeaderCaseInsensitive` and every other case-insensitive comparison fold case for ASCII letters only (`Strings.Lower`, `Strings.Upper`), where `str.lower()` folds all of Unicode. For example, Python's `get_header("k")` finds a header named `\u212A` (the Kelvin sign) and the model does not. The names the plug-in looks up (`host`, `location`, `content-type`, `content-encoding`) and the texts it searches for (`gzip`, `defalte`, `x-www-form-urlencoded`, `100 CONTINUE`) contain no `k`. U+212A is the only character outside ASCII that Python lowers to a single ASCII letter, so those lookups agree. One difference is left: `Urllib.Hostname` keeps a non-ASCII letter of a redirect's `Location` host as it is, where Python lowers it.
- `urlparse` is Python 3.8's. The `;params` part is split only for the schemes that library lists. IPv6 literals are checked only for balanced brackets.
- Exception messages are reduced to their type and the first words of their text.
- `form_field_start` and `form_field_end` are strings here. Any other setting value is treated as unset.
- `Parse.ReadParserSettings`: a `port` setting that is a boolean, list or object is treated as unset, where Python would write its `str()` into the URI. A `protocol` setting that is not a string is treated as unset, where Python would raise on concatenating it. A default header whose value is a list or an object is dropped, where Python would send its `str()`. `Parse.HeaderText` turns the other values into text when the settings are read, where Python keeps the raw value until it writes the header line; so a `Host` default of `0`, `false` or `null`, which is falsy in Python and leaves the request without a host at rester/parse.py:87-89, counts as the host `0`, `False` or `None` here. JSON floats are not among the setting values.
- `Http.ThreadConfig`: the `timeout` setting is given as the text `str()` makes of it, when it is truthy, so curl's `--max-time` and `--connect-timeout` take any number or text. What `http.client` does with it is part of the `Exchange` parameter. The configuration is a parameter of `Completion.StartRequest` and is not derived from the settings there: the command always builds the thread with the default end of line `\n` (rester/http.py:38, rester/commands/http_request_command.py:493) and takes the timeout, the response encodings and the curl command from the settings, but the model leaves these fields unconstrained.
- A redirect request (rester/commands/http_request_command.py:418) starts from `Request()`, whose headers are an empty list, not a dictionary. `http.client` calls `.items()` on it and raises. That happens inside `conn.request`, so it is part of the `Exchange` parameter.
- `LegacyAgrees`: proved only for lines with no leading or trailing whitespace. The older encoder strips each line before splitting it, and the newer one does not.
- `Parse.GetRequest`: its own contract states only that the path is never empty. `Parse.GetRequestBody` and `Parse.GetRequestHeaders` state the body and header results, for request texts written without carriage returns or leading whitespace.
- `Http.ReadCurlOutput` and `Http.CurlRun`: their own contracts state only the failure paths. `Http.CurlOutputReadsBack` and `Http.CurlExitMessage` state the success path, for output whose status line and headers are plain ASCII.
- `core/message.py`, `RESTer.py`, `rester/phantoms.py`, `rester/reloader.py` and the syntax command are not part of this model: they are UI, package loading or field holders.
- The Python 2 import branches are left out.

## Findings

| source | as written | input that shows it | evidently intended | confidence | as-written member | corrected member |
|---|---|---|---|---|---|---|
| rester/parse.py:122 | `header[0]` after `lstrip()` on each header line | a header line holding only spaces, e.g. `" "` | skip blank lines | not executed | `Parse.WhitespaceLineRaisesAsWritten` | `Parse.ClassifyLine` |
| rester/parse.py:87 | `get_header("host")` on `headers`, which is a dict for every parsed request (`default_headers`, then the merge of the header lines), so keys are unpacked as pairs | a request line without a host and a `Host: example.com` header line | look the header up by name | not executed | `Parse.HostHeaderOfDictRaisesAsWritten` | `Parse.RecoverHost` |
| rester/http.py:192 | `self.response.headers[key] = value` on the list the response starts with | any reply with a header | record the header by name | not executed | `Http.NativeHeadersRaiseAsWritten` | `Http.ReadNativeResponse` |
| rester/http.py:308 | the same assignment by name into a list, for curl's headers | curl output with a `Content-Type: text/plain` line | record the header by name | not executed | `Http.CurlHeadersRaiseAsWritten` | `Http.CollectHeaders` |
| rester/commands/http_request_command.py:405 | `self._redirect_count > MAX_REDIRECTS` | once rester/http.py:192 (or :308 with curl) and rester/commands/http_request_command.py:266 are corrected, a server that always answers 302 with an absolute `Location`: 11 redirects are followed (as written, the reply's `Location` header already raises at rester/http.py:192 or :308, and the response-time line at :266 raises before the redirect test) | at most `MAX_REDIRECTS` (10) redirects | not executed | `Completion.RedirectChainAsWritten` | `Completion.RedirectChain` |
| rester/http.py:96 | `"defalte" in content_encoding` (core/http.py:146 has the same test; `LegacyHttp.ReadLegacyResponse` reads bodies with the corrected `Http.ReadBody`, and `LegacyHttp.ReadLegacyBodyAsWritten` keeps the typo) | `Content-Encoding: deflate` | inflate deflate bodies too | not executed | `Http.DeflateSkippedAsWritten` | `Http.UnzipBody` |
| rester/commands/http_request_command.py:442 | `redirect.query += parse_qs(uri.query)`, which is `dict += dict` | once rester/http.py:192 (or :308 with curl) and rester/commands/http_request_command.py:266 are corrected, `Location: /next?a=1` (as written, the reply's `Location` header already raises at rester/http.py:192 or :308, and the response-time line at :266 raises before the redirect test) | merge the query | not executed | `Completion.QueryRaisesAsWritten` | `Completion.AddQuery` |
| rester/commands/http_request_command.py:32 | `([^\:]*)\s*:` keeps the spaces before the `:` in the name | `@timeout : 5` stores the name `"timeout "` | the name without surrounding spaces | not executed | `RequestCommand.OverrideNameKeepsSpaceAsWritten` | `RequestCommand.Overrides` |
| core/http.py:78 | `self.request.get_full_path()`, a method no request class defines; the handlers around the send catch only a refused connection and a failed name lookup | any request with a host, e.g. `GET http://example.com/` | send the request's full path (`full_path`) | not executed | `LegacyHttp.LegacySendRaisesAsWritten` | `LegacyHttp.LegacyRun` |
| core/http.py:159 | `util.scan_string_for_encoding` and `util.scan_bytes_for_encoding`, which `core/util.py` does not define | once core/http.py:78 is corrected, any reply with a non-empty body (as written, the send at core/http.py:78 raises first) | the scans of `rester/util.py` | not executed | `LegacyHttp.LegacyBodyRaisesAsWritten` | `Http.ReadBody` |
| rester/commands/http_request_command.py:435-438 | a path-only location builds a fresh request that keeps only the host | once rester/http.py:192 (or :308 with curl) and rester/commands/http_request_command.py:266 are corrected, a redirect from `https://h:8443/a` with `Location: b` goes to `http://h/b` (as written, the reply's `Location` header already raises at rester/http.py:192 or :308, and the response-time line at :266 raises before the redirect test) | keep the protocol and port of the request | not executed | `Completion.RelativeRedirectAsWritten` | `Completion.RedirectTarget` |
| rester/commands/http_request_command.py:266 | `thread.elapsed`, an attribute no thread sets | any completed request with `output_response_headers` on (the default) | show the elapsed time when it is known | not executed | `Completion.ElapsedRaisesAsWritten` | `Completion.CompleteThread` |
| rester/commands/auto_form_encode_command.py:151 | `headers + eol + eol + encoded_body` when `encode_form` returned `None` | `Content-Type: application/x-www-form-urlencoded`, a blank line and an empty body | leave the empty body as it is | not executed | `FormEncode.EmptyFormBodyRaisesAsWritten` | `FormEncode.ReplaceText` |
| rester/http.py:247 | `for header in self.request.header_lines` when the request's headers are a dict, so `header_lines` unpacks each name as a pair | `http_client` `curl`, `output_request` off, and a request with an `Accept: */*` header | one `--header name: value` per header | not executed | `Http.CurlHeaderNamesRaiseAsWritten` | `Http.CurlArgs` |
| rester/commands/http_request_command.py:472 | `for header in request.header_lines` in the echo of the request, on the same dict | any request with an `Accept: */*` header and `output_request` on (the default) | print one `name: value` line per header | not executed | `Completion.EchoRaisesAsWritten` | `Completion.StartRequest` |
