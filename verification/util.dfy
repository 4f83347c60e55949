/**
  The text utilities of the plug-in (`rester/util.py`, and the identical first three in
  `core/util.py`): the end-of-line setting, query-map serialisation, line-ending
  normalisation and the `encoding=` / `charset=` scans.
*/
module Util {
  import opened Wrappers
  import opened Strings
  import opened Dict

  // ---------------------------------------------------------------------------
  // End of line

  /** The line ending named by the editor's `default_line_ending` setting (`None` when unset). */
  function EndOfLine(setting: Option<string>): (r: string)
    ensures setting == Some("windows") ==> r == "\r\n"
    ensures setting == Some("mac") ==> r == "\r"
    ensures setting != Some("windows") && setting != Some("mac") ==> r == "\n"
    ensures IsEol(r)
  {
    if setting == Some("windows") then "\r\n"
    else if setting == Some("mac") then "\r"
    else "\n"
  }

  /** The three line endings the plug-in ever produces. */
  predicate IsEol(eol: string) {
    eol == "\n" || eol == "\r" || eol == "\r\n"
  }

  // ---------------------------------------------------------------------------
  // Query strings

  /** A query map: names in insertion order, each with its list of values. */
  type QueryMap = seq<(string, seq<string>)>

  /** Every `(name, value)` pair of the map: names in map order, values in list order. */
  function Flatten(q: QueryMap): (r: seq<(string, string)>)
  {
    if |q| == 0 then []
    else Pairs(q[0].0, q[0].1) + Flatten(q[1..])
  }

  function Pairs(name: string, values: seq<string>): (r: seq<(string, string)>)
    ensures |r| == |values|
    ensures forall i :: 0 <= i < |values| ==> r[i] == (name, values[i])
  {
    seq(|values|, i requires 0 <= i < |values| => (name, values[i]))
  }

  /** The `name=value` field of one pair. */
  function Field(p: (string, string)): string {
    p.0 + "=" + p.1
  }

  function Fields(ps: seq<(string, string)>): (r: seq<string>)
    ensures |r| == |ps|
    ensures forall i :: 0 <= i < |ps| ==> r[i] == Field(ps[i])
  {
    seq(|ps|, i requires 0 <= i < |ps| => Field(ps[i]))
  }

  /**
    `get_query_string`: `None` for an empty map, otherwise one `name=value` field per value,
    names in map order and values in list order, joined with `&`.
  */
  function QueryString(q: QueryMap): (r: Option<string>)
    ensures r.None? <==> |q| == 0
    ensures r.Some? ==> r.value == Join("&", Fields(Flatten(q)))
  {
    if |q| == 0 then None else Some(Join("&", Fields(Flatten(q))))
  }

  /** Splitting a query string on `&` and each field on its first `=`. */
  function ReadFields(s: string): (r: seq<Option<(string, string)>>)
  {
    var parts := Split(s, "&");
    seq(|parts|, i requires 0 <= i < |parts| => SplitOnce(parts[i], "="))
  }

  /** Names free of `&` and `=`, values free of `&`, and at least one value. */
  predicate Readable(q: QueryMap) {
    var ps := Flatten(q);
    |ps| > 0 && forall i :: 0 <= i < |ps| ==> '&' !in ps[i].0 && '=' !in ps[i].0 && '&' !in ps[i].1
  }

  /** A field reads back as its name and value when the name holds no `=`. */
  lemma FieldReadsBack(p: (string, string))
    requires '=' !in p.0
    ensures SplitOnce(Field(p), "=") == Some(p)
  {
    FindAfterCleanPrefix(p.0, "=", p.1);
  }

  /** Reading a query string back yields exactly the map's pairs, in order. */
  lemma {:induction false} QueryStringReadsBack(q: QueryMap)
    requires Readable(q)
    ensures QueryString(q).Some?
    ensures ReadFields(QueryString(q).value) == seq(|Flatten(q)|, i requires 0 <= i < |Flatten(q)| => Some(Flatten(q)[i]))
  {
    var ps := Flatten(q);
    var fs := Fields(ps);
    assert |q| > 0;
    forall i | 0 <= i < |fs|
      ensures '&' !in fs[i]
    {
      assert fs[i] == ps[i].0 + "=" + ps[i].1;
    }
    SplitJoin("&", fs);
    forall i | 0 <= i < |fs|
      ensures SplitOnce(fs[i], "=") == Some(ps[i])
    {
      FieldReadsBack(ps[i]);
    }
  }

  // ---------------------------------------------------------------------------
  // Line endings

  /** Every `\r\n` and lone `\r` of `s` turned into `\n`. */
  function ToLf(s: string): string {
    Replace(Replace(s, "\r\n", "\n"), "\r", "\n")
  }

  /** `normalize_line_endings`: every line break of `s` rewritten to `eol`. */
  function NormalizeLineEndings(s: string, eol: string): string {
    var u := ToLf(s);
    if eol != "\n" then Replace(u, "\n", eol) else u
  }

  /** Replacing a pattern whose first character is absent changes nothing. */
  lemma ReplaceAbsent(s: string, pat: string, rep: string)
    requires |pat| > 0 && pat[0] !in s
    ensures Replace(s, pat, rep) == s
  {
    AbsentCharNoOccurrence(s, pat, 0);
  }

  /** Replacing a pattern by text free of `c` leaves `c` only where `s` had it outside the pattern. */
  lemma ReplaceRemoves(s: string, c: char, rep: string)
    requires c !in rep
    ensures c !in Replace(s, [c], rep)
  {
    SplitPiecesLackSeparator(s, c);
    JoinAvoids(rep, Split(s, [c]), c);
  }

  /** A character absent from `s` and from the replacement stays absent. */
  lemma ReplaceKeepsAbsent(s: string, pat: string, rep: string, c: char)
    requires |pat| > 0 && c !in s && c !in rep
    ensures c !in Replace(s, pat, rep)
  {
    SplitPiecesAvoid(s, pat, c);
    JoinAvoids(rep, Split(s, pat), c);
  }

  lemma ToLfHasNoCr(s: string)
    ensures '\r' !in ToLf(s)
  {
    ReplaceRemoves(Replace(s, "\r\n", "\n"), '\r', "\n");
  }

  /** With eol `\n` no carriage return survives. */
  lemma NormalizeLfHasNoCr(s: string)
    ensures '\r' !in NormalizeLineEndings(s, "\n")
  {
    ToLfHasNoCr(s);
  }

  /** With eol `\r` no line feed survives. */
  lemma NormalizeCrHasNoLf(s: string)
    ensures '\n' !in NormalizeLineEndings(s, "\r")
  {
    ReplaceRemoves(ToLf(s), '\n', "\r");
  }

  /** A text without carriage returns is already in `\n` form. */
  lemma ToLfOfLf(u: string)
    requires '\r' !in u
    ensures ToLf(u) == u
  {
    ReplaceAbsent(u, "\r\n", "\n");
    ReplaceAbsent(u, "\r", "\n");
  }

  /** Rewriting `\n` to `eol` and reading it back to `\n` form gives the original. */
  lemma {:induction false} ToLfUndoesEol(u: string, eol: string)
    requires '\r' !in u && (eol == "\r" || eol == "\r\n")
    ensures ToLf(Replace(u, "\n", eol)) == u
  {
    var parts := Split(u, "\n");
    SplitPiecesAvoid(u, "\n", '\r');
    SplitPiecesLackSeparator(u, '\n');
    var t := Join(eol, parts);
    assert Replace(u, "\n", eol) == t;
    if eol == "\r" {
      JoinAvoids(eol, parts, '\n');
      AbsentCharNoOccurrence(t, "\r\n", 1);
      assert Replace(t, "\r\n", "\n") == t;
      SplitJoin("\r", parts);
      assert Replace(t, "\r", "\n") == Join("\n", parts);
    } else {
      SplitJoin("\r\n", parts);
      assert Replace(t, "\r\n", "\n") == u;
      ReplaceAbsent(u, "\r", "\n");
    }
  }

  /** Normalising twice is normalising once, for each of the three line endings. */
  lemma {:induction false} NormalizeIdempotent(s: string, eol: string)
    requires IsEol(eol)
    ensures NormalizeLineEndings(NormalizeLineEndings(s, eol), eol) == NormalizeLineEndings(s, eol)
  {
    var u := ToLf(s);
    ToLfHasNoCr(s);
    if eol == "\n" {
      ToLfOfLf(u);
    } else {
      ToLfUndoesEol(u, eol);
    }
  }

  // ---------------------------------------------------------------------------
  // Encoding scans: the pattern `(?:encoding|charset)=['"]*([a-zA-Z0-9\-]+)['"]*`

  predicate IsNameChar(c: char) {
    'a' <= c <= 'z' || 'A' <= c <= 'Z' || '0' <= c <= '9' || c == '-'
  }

  predicate IsQuote(c: char) {
    c == '\'' || c == '"'
  }

  /**
    The group captured by a match starting right after the `=` at `i`: the quotes are
    skipped, then the name is the maximal run of name characters, which must be non-empty.
    Backtracking over the quotes cannot help, since a quote is not a name character.
  */
  function NameAfter(s: string, i: nat): (r: Option<string>)
    requires i <= |s|
    ensures r.Some? ==> |r.value| > 0 && forall k :: 0 <= k < |r.value| ==> IsNameChar(r.value[k])
  {
    var q := RunEnd(s, i, IsQuote);
    var e := RunEnd(s, q, IsNameChar);
    RunEndInClass(s, q, IsNameChar);
    if e == q then None else Some(s[q..e])
  }

  /** The captured group of a match of the pattern at position `p`, if one starts there. */
  function EncodingMatchAt(s: string, p: nat): Option<string>
    requires p <= |s|
  {
    if StartsWith(s[p..], "encoding=") then NameAfter(s, p + 9)
    else if StartsWith(s[p..], "charset=") then NameAfter(s, p + 8)
    else None
  }

  /** `re.search`: the leftmost position at or after `p` where a match starts. */
  function EncodingMatchPos(s: string, p: nat): (r: Option<nat>)
    requires p <= |s|
    ensures r.Some? ==> p <= r.value <= |s| && EncodingMatchAt(s, r.value).Some?
    ensures r.Some? ==> forall j :: p <= j < r.value ==> EncodingMatchAt(s, j).None?
    ensures r.None? ==> forall j :: p <= j <= |s| ==> EncodingMatchAt(s, j).None?
    decreases |s| - p
  {
    if EncodingMatchAt(s, p).Some? then Some(p)
    else if p == |s| then None
    else EncodingMatchPos(s, p + 1)
  }

  /**
    `scan_string_for_encoding`: the name after the leftmost `encoding=` or `charset=` that is
    followed by a name, or `None` when there is no such match.
  */
  function ScanStringForEncoding(s: string): (r: Option<string>)
    ensures r.None? <==> forall j :: 0 <= j <= |s| ==> EncodingMatchAt(s, j).None?
    ensures r.Some? ==> |r.value| > 0 && forall k :: 0 <= k < |r.value| ==> IsNameChar(r.value[k])
    ensures r.Some? ==> exists j :: (0 <= j <= |s| && EncodingMatchAt(s, j) == r &&
                                     forall k :: 0 <= k < j ==> EncodingMatchAt(s, k).None?)
  {
    match EncodingMatchPos(s, 0)
    case None => None
    case Some(j) => EncodingMatchAt(s, j)
  }

  // The same scan over bytes.

  newtype byte = x: int | 0 <= x < 256

  /** The ASCII codes of `encoding=` and `charset=`. */
  const EncodingEq: seq<byte> := [101, 110, 99, 111, 100, 105, 110, 103, 61]
  const CharsetEq: seq<byte> := [99, 104, 97, 114, 115, 101, 116, 61]

  predicate IsNameByte(b: byte) {
    97 <= b <= 122 || 65 <= b <= 90 || 48 <= b <= 57 || b == 45
  }

  predicate IsQuoteByte(b: byte) {
    b == 39 || b == 34
  }

  function ByteRunEnd(s: seq<byte>, i: nat, inClass: byte -> bool): (r: nat)
    requires i <= |s|
    ensures i <= r <= |s|
    decreases |s| - i
  {
    if i < |s| && inClass(s[i]) then ByteRunEnd(s, i + 1, inClass) else i
  }

  /** Each byte as the character with the same code (what `decode('latin-1')` gives). */
  function Latin1(s: seq<byte>): (r: string)
    ensures |r| == |s|
    ensures forall i :: 0 <= i < |s| ==> r[i] as int == s[i] as int
  {
    seq(|s|, i requires 0 <= i < |s| => s[i] as int as char)
  }

  /** `bytes.decode('ascii')`, defined when every byte is below 128. */
  function AsciiDecode(s: seq<byte>): (r: Option<string>)
    ensures r.Some? <==> forall i :: 0 <= i < |s| ==> s[i] < 128
    ensures r.Some? ==> r.value == Latin1(s)
  {
    if forall i :: 0 <= i < |s| ==> s[i] < 128 then Some(Latin1(s)) else None
  }

  function ByteNameAfter(s: seq<byte>, i: nat): Option<seq<byte>>
    requires i <= |s|
  {
    var q := ByteRunEnd(s, i, IsQuoteByte);
    var e := ByteRunEnd(s, q, IsNameByte);
    if e == q then None else Some(s[q..e])
  }

  function ByteMatchAt(s: seq<byte>, p: nat): Option<seq<byte>>
    requires p <= |s|
  {
    var t := s[p..];
    if |EncodingEq| <= |t| && t[..|EncodingEq|] == EncodingEq then ByteNameAfter(s, p + 9)
    else if |CharsetEq| <= |t| && t[..|CharsetEq|] == CharsetEq then ByteNameAfter(s, p + 8)
    else None
  }

  function ByteMatchPos(s: seq<byte>, p: nat): (r: Option<nat>)
    requires p <= |s|
    ensures r.Some? ==> p <= r.value <= |s| && ByteMatchAt(s, r.value).Some?
    decreases |s| - p
  {
    if ByteMatchAt(s, p).Some? then Some(p)
    else if p == |s| then None
    else ByteMatchPos(s, p + 1)
  }

  /**
    `scan_bytes_for_encoding`: the byte pattern's group, decoded as ASCII. A group is made of
    name bytes only, so the decoding cannot fail; the `None` of a failed decoding would be
    Python's `UnicodeDecodeError`.
  */
  function ScanBytesForEncoding(s: seq<byte>): Option<string> {
    match ByteMatchPos(s, 0)
    case None => None
    case Some(j) => AsciiDecode(ByteMatchAt(s, j).value)
  }

  lemma ByteRunEndAgrees(s: seq<byte>, i: nat, byteClass: byte -> bool, charClass: char -> bool)
    requires i <= |s|
    requires forall k :: 0 <= k < |s| ==> byteClass(s[k]) == charClass(Latin1(s)[k])
    ensures ByteRunEnd(s, i, byteClass) == RunEnd(Latin1(s), i, charClass)
    decreases |s| - i
  {
    if i < |s| {
      ByteRunEndAgrees(s, i + 1, byteClass, charClass);
    }
  }

  lemma ByteNameAfterAgrees(s: seq<byte>, i: nat)
    requires i <= |s|
    ensures ByteNameAfter(s, i).Some? == NameAfter(Latin1(s), i).Some?
    ensures ByteNameAfter(s, i).Some? ==>
      AsciiDecode(ByteNameAfter(s, i).value) == NameAfter(Latin1(s), i)
  {
    var t := Latin1(s);
    ByteRunEndAgrees(s, i, IsQuoteByte, IsQuote);
    var q := RunEnd(t, i, IsQuote);
    ByteRunEndAgrees(s, q, IsNameByte, IsNameChar);
    var e := RunEnd(t, q, IsNameChar);
    RunEndInClass(t, q, IsNameChar);
    if e != q {
      var g := s[q..e];
      forall k | 0 <= k < |g|
        ensures g[k] < 128
      {
        assert IsNameByte(s[q + k]);
      }
      assert Latin1(g) == t[q..e];
    }
  }

  lemma PrefixAgrees(t: seq<byte>, lit: seq<byte>, text: string)
    requires Latin1(lit) == text
    ensures (|lit| <= |t| && t[..|lit|] == lit) == StartsWith(Latin1(t), text)
  {
    if |lit| <= |t| && Latin1(t)[..|lit|] == text {
      assert forall k :: 0 <= k < |lit| ==> t[k] as int == Latin1(t)[k] as int == text[k] as int == lit[k] as int;
      assert t[..|lit|] == lit;
    }
    if |lit| <= |t| && t[..|lit|] == lit {
      assert Latin1(t)[..|lit|] == Latin1(lit);
    }
  }

  lemma ByteMatchAgrees(s: seq<byte>, p: nat)
    requires p <= |s|
    ensures ByteMatchAt(s, p).Some? == EncodingMatchAt(Latin1(s), p).Some?
    ensures ByteMatchAt(s, p).Some? ==>
      AsciiDecode(ByteMatchAt(s, p).value) == EncodingMatchAt(Latin1(s), p)
  {
    assert Latin1(s[p..]) == Latin1(s)[p..];
    assert Latin1(EncodingEq) == "encoding=";
    assert Latin1(CharsetEq) == "charset=";
    PrefixAgrees(s[p..], EncodingEq, "encoding=");
    PrefixAgrees(s[p..], CharsetEq, "charset=");
    if p + 9 <= |s| {
      ByteNameAfterAgrees(s, p + 9);
    }
    if p + 8 <= |s| {
      ByteNameAfterAgrees(s, p + 8);
    }
  }

  lemma {:induction false} ByteSearchAgrees(s: seq<byte>, p: nat)
    requires p <= |s|
    ensures ByteMatchPos(s, p) == EncodingMatchPos(Latin1(s), p)
    decreases |s| - p
  {
    ByteMatchAgrees(s, p);
    if ByteMatchAt(s, p).None? && p < |s| {
      ByteSearchAgrees(s, p + 1);
    }
  }

  /**
    Scanning bytes finds what scanning their text finds: the byte pattern only ever matches
    ASCII, so any byte sequence read as Latin-1 (in particular ASCII text) gives the same name.
  */
  lemma ScanBytesAgreesWithString(s: seq<byte>)
    ensures ScanBytesForEncoding(s) == ScanStringForEncoding(Latin1(s))
  {
    ByteSearchAgrees(s, 0);
    match ByteMatchPos(s, 0)
    case None =>
    case Some(j) => ByteMatchAgrees(s, j);
  }
}
