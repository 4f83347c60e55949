/**
  The command that rewrites a request body as `application/x-www-form-urlencoded`
  (`rester/commands/auto_form_encode_command.py`, and its older copy `AutoFormEncode.py`).
  Each body line `key = value` (or `key: value`) becomes a field; with both delimiter
  settings a value that opens with the start delimiter runs over several lines until a line
  ends with the end delimiter. The fields are quoted, collected per key and joined into a
  query string that replaces the body, when the headers declare a form body.
*/
module FormEncode {
  import opened Wrappers
  import opened Strings
  import opened Util
  import Dict
  import Urllib
  import Message

  /** The `form_field_start` and `form_field_end` settings; the empty string stands for an unset one. */
  datatype Delimiters = Delimiters(start: string, end: string)

  /** Multi-line values are read only when both delimiters are set. */
  predicate Delimited(d: Delimiters) {
    d.start != "" && d.end != ""
  }

  // ---------------------------------------------------------------------------
  // Reading the body

  /** The key and value of a line: split at the first `=`, or failing that at the first `:`. */
  function SplitField(line: string): (r: Option<(string, string)>)
    ensures r.None? <==> !Contains(line, "=") && !Contains(line, ":")
    ensures r.Some? && Contains(line, "=") ==> line == r.value.0 + "=" + r.value.1
    ensures r.Some? && !Contains(line, "=") ==> line == r.value.0 + ":" + r.value.1
  {
    if Contains(line, "=") then SplitOnce(line, "=") else SplitOnce(line, ":")
  }

  /** A finished field, kept only when its key and its value are both non-empty. */
  function Emit(key: string, value: string, pending: Option<(string, string)>): (r: (seq<(string, string)>, Option<(string, string)>))
  {
    (if key != "" && value != "" then [(key, value)] else [], pending)
  }

  /**
    One line of `encode_form`: the field it completes, if any, and the delimited field still
    open after it (its key and the value so far). While a delimited field is open every line
    belongs to it; otherwise the line is split into a stripped key and a value that is either
    stripped or, when it opens with the start delimiter, read up to the end delimiter.
  */
  function ReadLine(line: string, pending: Option<(string, string)>, d: Delimiters, eol: string)
    : (r: (seq<(string, string)>, Option<(string, string)>))
    ensures |r.0| <= 1
    ensures forall i :: 0 <= i < |r.0| ==> r.0[i].0 != "" && r.0[i].1 != ""
    ensures !Delimited(d) ==> r.1 == pending
  {
    if Delimited(d) && pending.Some? && pending.value.0 != "" then ContinueField(line, pending.value, d, eol)
    else match SplitField(line)
      case None => ([], pending)
      case Some((k, v)) => if k == "" || v == "" then ([], pending) else StartField(Strip(k), v, pending, d)
  }

  /** A line of an open delimited field: the field ends with it when it ends with the end delimiter. */
  function ContinueField(line: string, open: (string, string), d: Delimiters, eol: string)
    : (r: (seq<(string, string)>, Option<(string, string)>))
    requires Delimited(d)
    ensures |r.0| <= 1
    ensures forall i :: 0 <= i < |r.0| ==> r.0[i].0 != "" && r.0[i].1 != ""
    ensures r.1.None? <==> EndsWith(RStrip(line), d.end)
  {
    var trimmed := RStrip(line);
    if EndsWith(trimmed, d.end) then Emit(open.0, open.1 + eol + trimmed[..|trimmed| - |d.end|], None)
    else ([], Some((open.0, open.1 + eol + line)))
  }

  /** A line `key = value` outside a delimited field: a plain field, or the start of a delimited one. */
  function StartField(key: string, v: string, pending: Option<(string, string)>, d: Delimiters)
    : (r: (seq<(string, string)>, Option<(string, string)>))
    ensures |r.0| <= 1
    ensures forall i :: 0 <= i < |r.0| ==> r.0[i].0 != "" && r.0[i].1 != ""
    ensures !Delimited(d) ==> r == Emit(key, Strip(v), pending)
  {
    if Delimited(d) && StartsWith(LStrip(v), d.start) then
      var rest := LStrip(v)[|d.start|..];
      var trimmed := RStrip(rest);
      if EndsWith(trimmed, d.end) then Emit(key, trimmed[..|trimmed| - |d.end|], None)
      else ([], Some((key, rest)))
    else Emit(key, Strip(v), pending)
  }

  /** The fields of the remaining lines, in order, starting with `pending` open. */
  function FieldsFrom(lines: seq<string>, pending: Option<(string, string)>, d: Delimiters, eol: string)
    : (r: seq<(string, string)>)
    ensures |r| <= |lines|
    ensures forall i :: 0 <= i < |r| ==> r[i].0 != "" && r[i].1 != ""
  {
    if |lines| == 0 then []
    else
      var step := ReadLine(lines[0], pending, d, eol);
      step.0 + FieldsFrom(lines[1..], step.1, d, eol)
  }

  /** The fields of a body, unquoted, in the order they end; a delimited field left open is dropped. */
  function FormFields(lines: seq<string>, d: Delimiters, eol: string): (r: seq<(string, string)>)
    ensures |r| <= |lines|
    ensures forall i :: 0 <= i < |r| ==> r[i].0 != "" && r[i].1 != ""
  {
    FieldsFrom(lines, None, d, eol)
  }

  /** Each value passed through `quote`. */
  function Quoted(fields: seq<(string, string)>): (r: seq<(string, string)>)
    ensures |r| == |fields|
    ensures forall i :: 0 <= i < |fields| ==> r[i] == (fields[i].0, Urllib.Quote(fields[i].1))
  {
    seq(|fields|, i requires 0 <= i < |fields| => (fields[i].0, Urllib.Quote(fields[i].1)))
  }

  /** The form: each key once, in order of first appearance, with its quoted values. */
  function Form(fields: seq<(string, string)>): QueryMap {
    Dict.AppendAll([], Quoted(fields))
  }

  /** A key's list in the form holds the quoted values of exactly its fields, in order. */
  lemma FormValues(fields: seq<(string, string)>, k: string)
    ensures Dict.Get(Form(fields), k).GetOr([]) == Dict.ValuesFor(Quoted(fields), k)
    ensures Dict.Get(Form(fields), k).None? <==> Dict.ValuesFor(Quoted(fields), k) == []
  {
    Dict.AppendAllValues([], Quoted(fields), k);
    Dict.AppendAllPresent([], Quoted(fields), k);
  }

  /** The form is empty exactly when there are no fields. */
  lemma FormEmpty(fields: seq<(string, string)>)
    ensures |Form(fields)| == 0 <==> |fields| == 0
  {
    if |fields| > 0 {
      var q := Quoted(fields);
      var k := q[|q| - 1].0;
      assert Dict.ValuesFor(q, k) == Dict.ValuesFor(q[..|q| - 1], k) + [q[|q| - 1].1];
      FormValues(fields, k);
    }
  }

  /**
    `encode_form`: the query string of the form, or `None` when no line gave a field.
  */
  function EncodeForm(lines: seq<string>, d: Delimiters, eol: string): (r: Option<string>)
    ensures r.None? <==> |FormFields(lines, d, eol)| == 0
  {
    FormEmpty(FormFields(lines, d, eol));
    QueryString(Form(FormFields(lines, d, eol)))
  }

  // ---------------------------------------------------------------------------
  // Reading back what was written

  /** The body line `key=value`. */
  function FieldLine(f: (string, string)): string {
    f.0 + "=" + f.1
  }

  function FieldLines(fields: seq<(string, string)>): (r: seq<string>)
    ensures |r| == |fields|
    ensures forall i :: 0 <= i < |fields| ==> r[i] == FieldLine(fields[i])
  {
    seq(|fields|, i requires 0 <= i < |fields| => FieldLine(fields[i]))
  }

  /** A field a single line can carry: a trimmed key without `=`, a trimmed value not opening a delimited one. */
  predicate PlainField(f: (string, string), d: Delimiters) {
    f.0 != "" && f.1 != "" && Trimmed(f.0) && Trimmed(f.1) && '=' !in f.0 &&
    !(Delimited(d) && StartsWith(f.1, d.start))
  }

  lemma {:induction false} PlainLine(f: (string, string), pending: Option<(string, string)>, d: Delimiters, eol: string)
    requires PlainField(f, d)
    requires pending.Some? ==> pending.value.0 == ""
    ensures ReadLine(FieldLine(f), pending, d, eol) == ([f], pending)
  {
    SplitOnceAt(f.0, "=", f.1);
    TrimmedIsStripped(f.0);
    TrimmedIsStripped(f.1);
    StripUnspaced(f.1);
  }

  /** Lines `key=value` of plain fields read back as exactly those fields, in order. */
  lemma {:induction false} PlainLinesReadBack(fields: seq<(string, string)>, d: Delimiters, eol: string)
    requires forall i :: 0 <= i < |fields| ==> PlainField(fields[i], d)
    ensures FormFields(FieldLines(fields), d, eol) == fields
    decreases |fields|
  {
    if |fields| > 0 {
      var lines := FieldLines(fields);
      PlainLine(fields[0], None, d, eol);
      FieldsFromStep(lines, None, d, eol);
      PlainLinesReadBack(fields[1..], d, eol);
      assert lines[1..] == FieldLines(fields[1..]);
    }
  }

  /** The fields of lines are those the first line completes, then those of the rest. */
  lemma FieldsFromStep(lines: seq<string>, pending: Option<(string, string)>, d: Delimiters, eol: string)
    requires |lines| > 0
    ensures var step := ReadLine(lines[0], pending, d, eol);
      FieldsFrom(lines, pending, d, eol) == step.0 + FieldsFrom(lines[1..], step.1, d, eol)
  {
  }

  /** `RStrip` leaves a string that ends in a non-space alone. */
  lemma RStripKeeps(s: string)
    requires |s| > 0 && !IsSpace(s[|s| - 1])
    ensures RStrip(s) == s
  {
  }

  /** The lines of a delimited value after its first: each middle line as is, the last followed by the end delimiter. */
  function ClosingLines(ls: seq<string>, d: Delimiters): (r: seq<string>)
    requires |ls| > 0
    ensures |r| == |ls|
  {
    ls[..|ls| - 1] + [ls[|ls| - 1] + d.end]
  }

  /** A line that does not close a delimited value. */
  predicate StaysOpen(line: string, d: Delimiters) {
    !EndsWith(RStrip(line), d.end)
  }

  /** A line that does not close the open field is added to its value after a line break. */
  lemma ContinueLine(line: string, key: string, acc: string, d: Delimiters, eol: string)
    requires Delimited(d) && key != "" && StaysOpen(line, d)
    ensures ReadLine(line, Some((key, acc)), d, eol) == ([], Some((key, acc + eol + line)))
  {
  }

  /** A line ending with the end delimiter closes the open field with the text before the delimiter. */
  lemma CloseLine(last: string, key: string, acc: string, d: Delimiters, eol: string)
    requires Delimited(d) && !IsSpace(d.end[|d.end| - 1]) && IsEol(eol) && key != ""
    ensures ReadLine(last + d.end, Some((key, acc)), d, eol) == ([(key, acc + eol + last)], None)
  {
    var line := last + d.end;
    OpenFieldLine(line, key, acc, d, eol);
    RStripKeeps(line);
    assert line[..|line| - |d.end|] == last;
    assert EndsWith(line, d.end);
  }

  /** While a delimited field is open, every line goes to it. */
  lemma OpenFieldLine(line: string, key: string, acc: string, d: Delimiters, eol: string)
    requires Delimited(d) && key != ""
    ensures ReadLine(line, Some((key, acc)), d, eol) == ContinueField(line, (key, acc), d, eol)
  {
  }

  /** With a delimited field open, the remaining lines join onto its value, one line break each, up to the closing line. */
  lemma {:induction false} PendingCloses(key: string, acc: string, ls: seq<string>, d: Delimiters, eol: string)
    requires Delimited(d) && !IsSpace(d.end[|d.end| - 1]) && IsEol(eol) && key != ""
    requires |ls| > 0 && forall i :: 0 <= i < |ls| - 1 ==> StaysOpen(ls[i], d)
    ensures FieldsFrom(ClosingLines(ls, d), Some((key, acc)), d, eol) == [(key, acc + eol + Join(eol, ls))]
    decreases |ls|
  {
    var lines := ClosingLines(ls, d);
    FieldsFromStep(lines, Some((key, acc)), d, eol);
    if |ls| == 1 {
      CloseLine(ls[0], key, acc, d, eol);
      assert lines == [ls[0] + d.end];
      assert lines[1..] == [];
    } else {
      ContinueLine(ls[0], key, acc, d, eol);
      assert lines[0] == ls[0];
      assert lines[1..] == ClosingLines(ls[1..], d);
      PendingCloses(key, acc + eol + ls[0], ls[1..], d, eol);
      assert Join(eol, ls) == ls[0] + eol + Join(eol, ls[1..]);
      assert acc + eol + ls[0] + eol + Join(eol, ls[1..]) == acc + eol + Join(eol, ls);
    }
  }

  /** The first line of a delimited value: its key, `=`, the start delimiter and the value's first line. */
  function OpeningLine(key: string, first: string, d: Delimiters): string {
    key + "=" + d.start + first
  }

  /**
    A value written over several lines between the delimiters reads back as one field whose
    value is those lines joined with the line ending.
  */
  lemma DelimitedReadsBack(key: string, ls: seq<string>, d: Delimiters, eol: string)
    requires Delimited(d) && !IsSpace(d.start[0]) && !IsSpace(d.end[|d.end| - 1]) && IsEol(eol)
    requires key != "" && Trimmed(key) && '=' !in key
    requires |ls| >= 2 && forall i :: 0 <= i < |ls| - 1 ==> StaysOpen(ls[i], d)
    ensures FormFields([OpeningLine(key, ls[0], d)] + ClosingLines(ls[1..], d), d, eol) == [(key, Join(eol, ls))]
  {
    var v := d.start + ls[0];
    SplitOnceAt(key, "=", v);
    assert OpeningLine(key, ls[0], d) == key + "=" + v;
    TrimmedIsStripped(key);
    assert LStrip(v) == v;
    assert v[|d.start|..] == ls[0];
    assert StaysOpen(ls[0], d);
    assert ReadLine(OpeningLine(key, ls[0], d), None, d, eol) == ([], Some((key, ls[0])));
    var lines := [OpeningLine(key, ls[0], d)] + ClosingLines(ls[1..], d);
    assert lines[1..] == ClosingLines(ls[1..], d);
    PendingCloses(key, ls[0], ls[1..], d, eol);
    assert Join(eol, ls) == ls[0] + eol + Join(eol, ls[1..]);
  }

  /**
    A value opened and closed by the delimiters on one line reads back as exactly the text
    between them, spaces at either end included.
  */
  lemma SameLineDelimited(key: string, v: string, d: Delimiters, eol: string)
    requires Delimited(d) && !IsSpace(d.start[0]) && !IsSpace(d.end[|d.end| - 1])
    requires key != "" && Trimmed(key) && '=' !in key && v != ""
    ensures FormFields([OpeningLine(key, v + d.end, d)], d, eol) == [(key, v)]
  {
    var w := d.start + (v + d.end);
    var line := OpeningLine(key, v + d.end, d);
    Regroup(key + "=", d.start, v + d.end);
    SplitOnceAt(key, "=", w);
    KeyedLine(line, key, w, d, eol);
    TrimmedIsStripped(key);
    SameLineStart(key, v, d);
    FieldsFromStep([line], None, d, eol);
    assert [line][1..] == [];
  }

  /** Outside a delimited field, a line with `=` is read as a key and value split at the first `=`. */
  lemma KeyedLine(line: string, k: string, w: string, d: Delimiters, eol: string)
    requires SplitOnce(line, "=") == Some((k, w)) && k != "" && w != ""
    ensures ReadLine(line, None, d, eol) == StartField(Strip(k), w, None, d)
  {
  }

  lemma SameLineStart(key: string, v: string, d: Delimiters)
    requires Delimited(d) && !IsSpace(d.start[0]) && !IsSpace(d.end[|d.end| - 1])
    requires key != "" && v != ""
    ensures StartField(key, d.start + (v + d.end), None, d) == ([(key, v)], None)
  {
    var w := d.start + (v + d.end);
    assert LStrip(w) == w;
    assert w[|d.start|..] == v + d.end;
    RStripKeeps(v + d.end);
    assert (v + d.end)[..|v|] == v;
  }

  // ---------------------------------------------------------------------------
  // The older encoder

  /** One line of `_get_encoded_body`: the line is stripped first, and no delimiters are read. */
  function LegacyField(line: string): (r: seq<(string, string)>)
    ensures |r| <= 1
    ensures forall i :: 0 <= i < |r| ==> r[i].0 != "" && r[i].1 != ""
  {
    var l := Strip(line);
    match SplitField(l)
    case None => []
    case Some((k, v)) =>
      if k == "" || v == "" then []
      else
        assert l[0] == k[0] && !AllSpace(k);
        assert l[|l| - 1] == v[|v| - 1] && !AllSpace(v);
        [(Strip(k), Strip(v))]
  }

  function LegacyFields(lines: seq<string>): (r: seq<(string, string)>)
    ensures |r| <= |lines|
    ensures forall i :: 0 <= i < |r| ==> r[i].0 != "" && r[i].1 != ""
  {
    if |lines| == 0 then [] else LegacyField(lines[0]) + LegacyFields(lines[1..])
  }

  /** `_get_encoded_body`. */
  function LegacyEncode(lines: seq<string>): (r: Option<string>)
    ensures r.None? <==> |LegacyFields(lines)| == 0
  {
    FormEmpty(LegacyFields(lines));
    QueryString(Form(LegacyFields(lines)))
  }

  /** Without delimiters, on lines that carry no whitespace at either end, both encoders read the same fields. */
  lemma {:induction false} LegacyAgrees(lines: seq<string>, d: Delimiters, eol: string)
    requires !Delimited(d) && forall i :: 0 <= i < |lines| ==> Trimmed(lines[i])
    ensures LegacyFields(lines) == FormFields(lines, d, eol)
    ensures LegacyEncode(lines) == EncodeForm(lines, d, eol)
    decreases |lines|
  {
    if |lines| > 0 {
      LegacyLine(lines[0], d, eol);
      FieldsFromStep(lines, None, d, eol);
      LegacyAgrees(lines[1..], d, eol);
    }
  }

  /** On a line without surrounding whitespace the older encoder reads what the newer one reads. */
  lemma LegacyLine(line: string, d: Delimiters, eol: string)
    requires !Delimited(d) && Trimmed(line)
    ensures ReadLine(line, None, d, eol) == (LegacyField(line), None)
  {
    TrimmedIsStripped(line);
  }

  // ---------------------------------------------------------------------------
  // The request

  /** A header line `Content-Type: …x-www-form-urlencoded…`, its name compared without case. */
  predicate IsFormHeader(line: string) {
    match SplitOnce(line, ":")
    case Some((name, value)) => Lower(name) == "content-type" && Contains(value, "x-www-form-urlencoded")
    case None => false
  }

  /** `has_form_encoded_header`. */
  function HasFormEncodedHeader(lines: seq<string>): (r: bool)
    ensures r <==> exists i :: 0 <= i < |lines| && IsFormHeader(lines[i])
  {
    if |lines| == 0 then false
    else if IsFormHeader(lines[0]) then true
    else
      var rest := HasFormEncodedHeader(lines[1..]);
      assert rest ==> exists i :: 1 <= i < |lines| && IsFormHeader(lines[i]) by {
        if rest {
          var j :| 0 <= j < |lines[1..]| && IsFormHeader(lines[1..][j]);
          assert IsFormHeader(lines[j + 1]);
        }
      }
      assert (exists i :: 1 <= i < |lines| && IsFormHeader(lines[i])) ==> rest by {
        if exists i :: 1 <= i < |lines| && IsFormHeader(lines[i]) {
          var j :| 1 <= j < |lines| && IsFormHeader(lines[j]);
          assert lines[1..][j - 1] == lines[j];
        }
      }
      rest
  }

  /** A header named `content-type` in any case whose value mentions the form type is such a line. */
  lemma FormHeaderLine(name: string, value: string)
    requires ':' !in name && Lower(name) == "content-type" && Contains(value, "x-www-form-urlencoded")
    ensures IsFormHeader(name + ":" + value)
  {
    SplitOnceAt(name, ":", value);
  }

  /** The body encoder of either command. */
  function Encoder(d: Delimiters, eol: string, legacy: bool): seq<string> -> Option<string> {
    (lines: seq<string>) => if legacy then LegacyEncode(lines) else EncodeForm(lines, d, eol)
  }

  /** Where the headers end and the body starts, when there is a blank line. */
  function BodyStart(text: string, eol: string): (r: Option<nat>)
    requires IsEol(eol)
    ensures r.Some? ==> r.value + 2 * |eol| <= |text| && text[r.value..r.value + 2 * |eol|] == eol + eol
  {
    Find(text, eol + eol)
  }

  /** The text is rewritten when it has a blank line and a form header above it. */
  predicate IsFormRequest(text: string, eol: string)
    requires IsEol(eol)
  {
    BodyStart(text, eol).Some? && HasFormEncodedHeader(Split(text[..BodyStart(text, eol).value], eol))
  }

  /** The body lines of a text with a blank line. */
  function BodyLines(text: string, eol: string): seq<string>
    requires IsEol(eol) && BodyStart(text, eol).Some?
  {
    Split(text[BodyStart(text, eol).value + 2 * |eol|..], eol)
  }

  /**
    `_replace_text`: the text with its body encoded, or `None` when the text is left as it
    is (no blank line, or no form header). A body without any field is encoded as the empty
    string.
  */
  function ReplaceText(text: string, eol: string, encode: seq<string> -> Option<string>): (r: Option<string>)
    requires IsEol(eol)
    ensures r.Some? <==> IsFormRequest(text, eol)
    ensures r.Some? ==> var i := BodyStart(text, eol).value;
      r.value == text[..i + 2 * |eol|] + encode(BodyLines(text, eol)).GetOr("")
  {
    match BodyStart(text, eol)
    case None => None
    case Some(i) =>
      var headers := text[..i];
      assert text[..i + 2 * |eol|] == headers + eol + eol;
      if HasFormEncodedHeader(Split(headers, eol)) then
        Some(headers + eol + eol + encode(BodyLines(text, eol)).GetOr(""))
      else None
  }

  /** `_replace_text` as written: an empty form adds `None` to the headers. */
  function ReplaceTextAsWritten(text: string, eol: string, encode: seq<string> -> Option<string>): (r: Result<Option<string>>)
    requires IsEol(eol)
  {
    match BodyStart(text, eol)
    case None => Ok(None)
    case Some(i) =>
      var headers := text[..i];
      if HasFormEncodedHeader(Split(headers, eol)) then
        match encode(BodyLines(text, eol))
        case None => Raised(Message.ConcatNone)
        case Some(encoded) => Ok(Some(headers + eol + eol + encoded))
      else Ok(None)
  }

  /** The first occurrence of `pat` stays first in any text sharing the prefix up to its end. */
  lemma FindInSharedPrefix(s: string, t: string, pat: string, i: nat)
    requires Find(s, pat) == Some(i) && i + |pat| <= |t| && s[..i + |pat|] == t[..i + |pat|]
    ensures Find(t, pat) == Some(i)
  {
    assert t[i..i + |pat|] == s[..i + |pat|][i..] == s[i..i + |pat|];
    forall j | 0 <= j < i
      ensures !OccursAt(t, pat, j)
    {
      assert !OccursAt(s, pat, j);
      SliceOfPrefix(s, i + |pat|, j, j + |pat|);
      SliceOfPrefix(t, i + |pat|, j, j + |pat|);
    }
    FindIsFirst(t, pat, i);
  }

  /** A slice inside a prefix is the same slice of the whole text. */
  lemma SliceOfPrefix(s: string, n: nat, a: nat, b: nat)
    requires a <= b <= n <= |s|
    ensures s[..n][a..b] == s[a..b]
  {
  }

  /**
    Replacing keeps the headers and the blank line as they were, so the replaced text splits
    at the same place, and its body is the encoded form.
  */
  lemma ReplaceKeepsHeaders(text: string, eol: string, encode: seq<string> -> Option<string>)
    requires IsEol(eol) && IsFormRequest(text, eol)
    ensures var r := ReplaceText(text, eol, encode).value;
      var i := BodyStart(text, eol).value;
      BodyStart(r, eol) == Some(i) && r[..i] == text[..i] &&
      r[i + 2 * |eol|..] == encode(BodyLines(text, eol)).GetOr("")
  {
    var r := ReplaceText(text, eol, encode).value;
    var i := BodyStart(text, eol).value;
    var n := i + 2 * |eol|;
    assert r[..n] == text[..n];
    FindInSharedPrefix(text, r, eol + eol, i);
    assert r[..i] == r[..n][..i];
  }

  /** The two agree wherever the form has a field; where it has none, only the text as written raises. */
  lemma ReplaceAsWrittenAgrees(text: string, eol: string, encode: seq<string> -> Option<string>)
    requires IsEol(eol)
    ensures ReplaceTextAsWritten(text, eol, encode).Raised? <==>
      (IsFormRequest(text, eol) && encode(BodyLines(text, eol)).None?)
    ensures ReplaceTextAsWritten(text, eol, encode).Ok? ==>
      ReplaceTextAsWritten(text, eol, encode).value == ReplaceText(text, eol, encode)
  {
  }

  /** An empty body line gives no field, to either encoder. */
  lemma EmptyLineNoField(d: Delimiters, eol: string, legacy: bool)
    ensures Encoder(d, eol, legacy)([""]).None?
  {
    assert [""][1..] == [];
    assert Find("", "=").None? && Find("", ":").None?;
    assert FormFields([""], d, eol) == [];
    assert LegacyFields([""]) == [];
  }

  /** Headers followed by a blank line and nothing else: the body is one empty line. */
  lemma EmptyBodyLines(headers: string, eol: string)
    requires IsEol(eol) && eol[0] !in headers
    ensures BodyStart(headers + eol + eol, eol) == Some(|headers|)
    ensures (headers + eol + eol)[..|headers|] == headers
    ensures BodyLines(headers + eol + eol, eol) == [""]
  {
    var text := headers + eol + eol;
    FindAfterCleanPrefix(headers, eol + eol, "");
    assert text == headers + (eol + eol) + "";
    assert text[|headers| + 2 * |eol|..] == "";
    assert Find("", eol).None?;
  }

  /**
    A form request with an empty body, given to an encoder that finds no field in an empty
    line (both do): as written the command raises `TypeError`, where the body is encoded as
    the empty query string.
  */
  lemma EmptyFormBodyRaisesAsWritten(name: string, value: string, eol: string, encode: seq<string> -> Option<string>)
    requires IsEol(eol) && ':' !in name && Lower(name) == "content-type" && Contains(value, "x-www-form-urlencoded")
    requires eol[0] !in name + ":" + value && encode([""]).None?
    ensures var headers := name + ":" + value;
      ReplaceTextAsWritten(headers + eol + eol, eol, encode) == Raised(Message.ConcatNone) &&
      ReplaceText(headers + eol + eol, eol, encode) == Some(headers + eol + eol)
  {
    var headers := name + ":" + value;
    FormHeaderLine(name, value);
    assert Find(headers, eol).None? by {
      AbsentCharNoOccurrence(headers, eol, 0);
    }
    assert Split(headers, eol) == [headers];
    assert IsFormHeader(Split(headers, eol)[0]);
    EmptyBodyLines(headers, eol);
    assert headers + eol + eol + encode([""]).GetOr("") == headers + eol + eol;
  }
}
