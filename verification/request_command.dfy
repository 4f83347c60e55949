/**
  The request command (`rester/commands/http_request_command.py`) without its editor and
  thread plumbing: normalising the user's pre- and post-request commands and the
  `@name: value` overrides read from the top of the request. Variable substitution is in
  module `Variables`; the client, the finished thread and redirects are in module `Completion`.
*/
module RequestCommand {
  import opened Wrappers
  import opened Strings
  import opened Util
  import opened Dict
  import opened Message
  import opened Settings
  import Urllib
  import Http

  // ---------------------------------------------------------------------------
  // Commands

  /**
    `_normalize_command`: a string names a command without arguments, a dictionary needs a
    `name` and gets `args` set to `null` when it has none; anything else is skipped.
  */
  function NormalizeCommand(command: Value): (r: Option<Layer>)
    ensures r.Some? <==> command.Str? || (command.Object? && "name" in Keys(command.fields))
    ensures command.Str? ==> Dict.Get(r.value, "name") == Some(command) && Dict.Get(r.value, "args") == Some(Null)
    ensures r.Some? && command.Object? ==>
      Dict.Get(r.value, "args") == (if "args" in Keys(command.fields) then Dict.Get(command.fields, "args") else Some(Null))
    ensures r.Some? && command.Object? ==> forall k :: k != "args" ==> Dict.Get(r.value, k) == Dict.Get(command.fields, k)
  {
    match command
    case Str(_) => Some([("name", command), ("args", Null)])
    case Object(fields) =>
      if "name" !in Keys(fields) then None
      else if "args" in Keys(fields) then Some(fields)
      else Some(Dict.Set(fields, "args", Null))
    case _ => None
  }

  // ---------------------------------------------------------------------------
  // Overrides

  /** `text.split(eol * 2, 1)[0]`: the text before the first blank line. */
  function HeaderPart(t: string, eol: string): (r: string)
    requires |eol| > 0
    ensures |r| <= |t| && r == t[..|r|]
    ensures Find(r, eol + eol).None?
    ensures Find(t, eol + eol).None? ==> r == t
  {
    match Find(t, eol + eol)
    case None => t
    case Some(i) =>
      FirstPieceClean(t, eol + eol, i);
      t[..i]
  }

  /** What follows the first blank line never changes the header part. */
  lemma HeaderPartIgnoresTail(t: string, eol: string, tail: string)
    requires |eol| > 0 && Find(t, eol + eol).Some?
    ensures HeaderPart(t + tail, eol) == HeaderPart(t, eol)
  {
    var dd := eol + eol;
    var i := Find(t, dd).value;
    var s := t + tail;
    assert OccursAt(s, dd, i) by {
      assert s[i..i + |dd|] == t[i..i + |dd|];
    }
    forall j | 0 <= j < i
      ensures !OccursAt(s, dd, j)
    {
      assert !OccursAt(t, dd, j);
      assert s[j..j + |dd|] == t[j..j + |dd|];
    }
    assert Find(s, dd) == Some(i);
    assert s[..i] == t[..i];
  }

  /**
    One match of `^\s*@\s*([^\:]*)\s*:\s*(.*)$` at the start of `s`: the name runs from the
    first character after `@` and its spaces up to the first `:` (spaces, and line breaks,
    included), the value from the first non-space after the `:` (which may be on a later
    line) to the end of its line. The third part is where the match ends.
  */
  function OverrideAt(s: string): (r: Option<(string, string, nat)>)
    ensures r.Some? ==> r.value.2 <= |s| && (r.value.2 == |s| || s[r.value.2] == '\n')
    ensures r.Some? ==> ':' !in r.value.0 && '\n' !in r.value.1
  {
    var q := RunEnd(s, 0, IsSpace);
    if q == |s| || s[q] != '@' then None
    else
      var a := RunEnd(s, q + 1, IsSpace);
      match FindFrom(s, ":", a)
      case None => None
      case Some(c) =>
        var d := RunEnd(s, c + 1, IsSpace);
        var e := RunEnd(s, d, NotNewline);
        NoColonBefore(s, a, c);
        RunEndInClass(s, d, NotNewline);
        Some((s[a..c], s[d..e], e))
  }

  lemma NoColonBefore(s: string, a: nat, c: nat)
    requires a <= |s| && FindFrom(s, ":", a) == Some(c)
    ensures ':' !in s[a..c]
  {
    forall k | a <= k < c
      ensures s[k] != ':'
    {
      assert !OccursAt(s, ":", k);
      assert s[k..k + 1] == [s[k]];
    }
  }

  /**
    `re.findall(RE_OVERRIDE, text, re.MULTILINE)`: a match is tried at the start of each
    line not already consumed by an earlier match.
  */
  function OverrideScan(s: string): (r: seq<(string, string)>)
    ensures forall i :: 0 <= i < |r| ==> ':' !in r[i].0 && '\n' !in r[i].1
    decreases |s|
  {
    match OverrideAt(s)
    case Some((n, v, e)) => [(n, v)] + (if e < |s| then OverrideScan(s[e + 1..]) else [])
    case None =>
      var k := RunEnd(s, 0, NotNewline);
      if k < |s| then OverrideScan(s[k + 1..]) else []
  }

  /** The value of an override: its JSON reading, or the text itself when it is not JSON. */
  function OverrideValue(v: string, json: string -> Option<Value>): (r: Value)
    ensures json(v).None? ==> r == Str(v)
    ensures json(v).Some? ==> r == json(v).value
  {
    match json(v)
    case Some(x) => x
    case None => Str(v)
  }

  /** The text overrides are read from: the selection left-stripped, normalised, up to its first blank line. */
  function OverrideText(selection: string, eol: string): (r: string)
    requires IsEol(eol)
  {
    HeaderPart(NormalizeLineEndings(LStrip(selection), eol), eol)
  }

  /** `_get_settings` as written: each name exactly as the pattern captures it, trailing spaces included. */
  function OverridesAsWritten(selection: string, eol: string, json: string -> Option<Value>): (r: Layer)
    requires IsEol(eol)
    ensures NoDup(Keys(r))
  {
    Update([], RawValues(OverrideScan(OverrideText(selection, eol)), json))
  }

  /** The scanned `(name, value)` pairs with the values read. */
  function RawValues(m: seq<(string, string)>, json: string -> Option<Value>): (r: seq<(string, Value)>)
    ensures |r| == |m|
    ensures forall i :: 0 <= i < |m| ==> r[i] == (m[i].0, OverrideValue(m[i].1, json))
  {
    seq(|m|, i requires 0 <= i < |m| => (m[i].0, OverrideValue(m[i].1, json)))
  }

  /** The overrides with the spaces before the `:` dropped from each name. */
  function Overrides(selection: string, eol: string, json: string -> Option<Value>): (r: Layer)
    requires IsEol(eol)
    ensures NoDup(Keys(r))
  {
    var m := OverrideScan(OverrideText(selection, eol));
    Update([], NamedValues(m, json))
  }

  /** The scanned `(name, value)` pairs with the names right-stripped and the values read. */
  function NamedValues(m: seq<(string, string)>, json: string -> Option<Value>): (r: seq<(string, Value)>)
    ensures |r| == |m|
    ensures forall i :: 0 <= i < |m| ==> r[i] == (RStrip(m[i].0), OverrideValue(m[i].1, json))
  {
    seq(|m|, i requires 0 <= i < |m| => (RStrip(m[i].0), OverrideValue(m[i].1, json)))
  }

  /** A key has a last pair exactly when some pair has it. */
  lemma {:induction false} LastForPresent<V>(ps: seq<(string, V)>)
    ensures forall k :: LastFor(ps, k).Some? <==> exists i :: 0 <= i < |ps| && ps[i].0 == k
    decreases |ps|
  {
    if |ps| > 0 {
      var n := |ps| - 1;
      LastForPresent(ps[..n]);
      forall k
        ensures LastFor(ps, k).Some? <==> exists i :: 0 <= i < |ps| && ps[i].0 == k
      {
        if ps[n].0 != k {
          if exists i :: 0 <= i < |ps| && ps[i].0 == k {
            var i :| 0 <= i < |ps| && ps[i].0 == k;
            assert ps[..n][i].0 == k;
          }
        }
      }
    }
  }

  /** The settings a request runs with: its overrides over the editor's settings. */
  function CommandSettings(editor: Layer, selection: string, eol: string, json: string -> Option<Value>): (r: Overrideable)
    requires IsEol(eol)
    ensures r.settings == Some(editor)
  {
    Overrideable(Some(editor), Some(Overrides(selection, eol, json)))
  }

  // ---------------------------------------------------------------------------
  // Override lines read back

  /** An override as the user writes it: `@name: value`. */
  function OverrideLine(p: (string, string)): string {
    "@" + p.0 + ": " + p.1
  }

  function OverrideLines(ps: seq<(string, string)>): (r: seq<string>)
    ensures |r| == |ps| && forall i :: 0 <= i < |ps| ==> r[i] == OverrideLine(ps[i])
  {
    seq(|ps|, i requires 0 <= i < |ps| => OverrideLine(ps[i]))
  }

  /**
    An override that reads back: a name without `:`, line breaks or surrounding spaces, and a
    non-empty value on one line that starts with no space.
  */
  predicate PlainOverride(p: (string, string)) {
    ':' !in p.0 && '\n' !in p.0 && '\r' !in p.0 && Trimmed(p.0) &&
    '\n' !in p.1 && '\r' !in p.1 && |p.1| > 0 && !IsSpace(p.1[0])
  }

  /** The match at an override line, with `gap` between the name and the `:`; the gap stays in the name. */
  lemma OverrideLineAt(p: (string, string), gap: string, rest: string)
    requires PlainOverride(p) && (forall k :: 0 <= k < |gap| ==> gap[k] == ' ') && (|p.0| > 0 || gap == "")
    requires rest == "" || rest[0] == '\n'
    ensures var s := "@" + p.0 + gap + ": " + p.1 + rest;
      OverrideAt(s) == Some((p.0 + gap, p.1, |"@" + p.0 + gap + ": " + p.1|))
  {
    var n := p.0 + gap;
    var s := "@" + p.0 + gap + ": " + p.1 + rest;
    LineLayout(p.0, gap, p.1, rest);
    assert s[1] == (if |p.0| > 0 then p.0[0] else ':');
    MatchOfLayout(s, n, p.1);
  }

  /** Where the parts of an override line sit. */
  lemma LineLayout(name: string, gap: string, v: string, rest: string)
    ensures var s := "@" + name + gap + ": " + v + rest;
      var n := name + gap;
      var c := 1 + |n|;
      |s| == c + 2 + |v| + |rest| && s[0] == '@' && s[c] == ':' && s[c + 1] == ' ' &&
      s[1..c] == n && s[c + 2..c + 2 + |v|] == v && s[c + 2 + |v|..] == rest
  {
  }

  /** The match of the pattern, read off the positions of an override line's parts. */
  lemma MatchOfLayout(s: string, n: string, v: string)
    requires |s| >= 3 + |n| + |v| && s[0] == '@' && s[1 + |n|] == ':' && s[2 + |n|] == ' '
    requires s[1..1 + |n|] == n && s[3 + |n|..3 + |n| + |v|] == v
    requires ':' !in n && (|n| == 0 || !IsSpace(n[0]))
    requires '\n' !in v && |v| > 0 && !IsSpace(v[0])
    requires |s| == 3 + |n| + |v| || s[3 + |n| + |v|] == '\n'
    ensures OverrideAt(s) == Some((n, v, 3 + |n| + |v|))
  {
    var c := 1 + |n|;
    RunEndIs(s, 0, 0, IsSpace);
    assert s[1] == (if |n| > 0 then n[0] else ':');
    RunEndIs(s, 1, 1, IsSpace);
    ColonAfterName(s, n);
    assert s[c + 2] == v[0];
    RunEndIs(s, c + 1, c + 2, IsSpace);
    forall k | c + 2 <= k < c + 2 + |v|
      ensures NotNewline(s[k])
    {
      assert s[k] == v[k - c - 2];
    }
    RunEndIs(s, c + 2, c + 2 + |v|, NotNewline);
  }

  lemma ColonAfterName(s: string, n: string)
    requires |s| > 1 + |n| && s[1..1 + |n|] == n && s[1 + |n|] == ':' && ':' !in n
    ensures FindFrom(s, ":", 1) == Some(1 + |n|)
  {
    var c := 1 + |n|;
    assert OccursAt(s, ":", c) by {
      assert s[c..c + 1] == ":";
    }
    forall j | 1 <= j < c
      ensures !OccursAt(s, ":", j)
    {
      assert s[j] == n[j - 1];
      assert s[j..j + 1] == [s[j]];
    }
  }

  /** Override lines joined with `\n` scan back as the overrides, in order. */
  lemma {:induction false} OverrideLinesScanBack(ps: seq<(string, string)>)
    requires forall i :: 0 <= i < |ps| ==> PlainOverride(ps[i])
    ensures OverrideScan(Join("\n", OverrideLines(ps))) == ps
    decreases |ps|
  {
    if |ps| == 0 {
      EmptyScan();
    } else if |ps| == 1 {
      ScanOfLastLine(ps[0]);
    } else {
      var more := Join("\n", OverrideLines(ps[1..]));
      assert OverrideLines(ps)[1..] == OverrideLines(ps[1..]);
      assert Join("\n", OverrideLines(ps)) == OverrideLine(ps[0]) + ("\n" + more);
      ScanOfLineThen(ps[0], more);
      OverrideLinesScanBack(ps[1..]);
    }
  }

  lemma EmptyScan()
    ensures OverrideScan("") == []
  {
    assert RunEnd("", 0, IsSpace) == 0;
  }

  lemma ScanOfLastLine(p: (string, string))
    requires PlainOverride(p)
    ensures OverrideScan(OverrideLine(p)) == [p]
  {
    OverrideLineAt(p, "", "");
    assert OverrideLine(p) == "@" + p.0 + "" + ": " + p.1 + "";
    assert p.0 + "" == p.0;
    ScanOfMatch(OverrideLine(p), p.0, p.1, |OverrideLine(p)|);
  }

  lemma ScanOfLineThen(p: (string, string), more: string)
    requires PlainOverride(p)
    ensures OverrideScan(OverrideLine(p) + ("\n" + more)) == [p] + OverrideScan(more)
  {
    var s := OverrideLine(p) + ("\n" + more);
    OverrideLineAt(p, "", "\n" + more);
    assert s == "@" + p.0 + "" + ": " + p.1 + ("\n" + more);
    assert p.0 + "" == p.0;
    var e := |OverrideLine(p)|;
    assert s[e + 1..] == more;
    ScanOfMatch(s, p.0, p.1, e);
  }

  lemma ScanOfMatch(s: string, n: string, v: string, e: nat)
    requires OverrideAt(s) == Some((n, v, e))
    ensures OverrideScan(s) == [(n, v)] + (if e < |s| then OverrideScan(s[e + 1..]) else [])
  {
    if e < |s| {
      var t := s[e + 1..];
      assert OverrideScan(s) == [(n, v)] + OverrideScan(t);
    } else {
      assert OverrideScan(s) == [(n, v)];
    }
  }

  /** Lines joined with `\n`, each non-empty and without a line break, hold no blank line. */
  lemma {:induction false} JoinedLinesNoBlank(lines: seq<string>)
    requires forall i :: 0 <= i < |lines| ==> |lines[i]| > 0 && '\n' !in lines[i]
    ensures var j := Join("\n", lines);
      (|lines| > 0 ==> |j| > 0 && j[0] != '\n' && j[|j| - 1] != '\n') &&
      forall k :: 0 <= k < |j| - 1 ==> !(j[k] == '\n' && j[k + 1] == '\n')
    decreases |lines|
  {
    if |lines| > 1 {
      JoinedLinesNoBlank(lines[1..]);
      var l := lines[0];
      var m := Join("\n", lines[1..]);
      var j := l + "\n" + m;
      assert Join("\n", lines) == j;
      forall k | 0 <= k < |j| - 1
        ensures !(j[k] == '\n' && j[k + 1] == '\n')
      {
        if k < |l| {
          assert j[k] == l[k];
        } else if k == |l| {
          assert j[k + 1] == m[0];
        } else {
          assert j[k] == m[k - |l| - 1] && j[k + 1] == m[k - |l|];
        }
      }
    }
  }

  /** After such lines the first blank line is the one that follows them. */
  lemma FirstBlankAfterLines(lines: seq<string>, body: string)
    requires |lines| > 0 && forall i :: 0 <= i < |lines| ==> |lines[i]| > 0 && '\n' !in lines[i]
    ensures Find(Join("\n", lines) + "\n\n" + body, "\n\n") == Some(|Join("\n", lines)|)
  {
    var j := Join("\n", lines);
    var s := j + "\n\n" + body;
    JoinedLinesNoBlank(lines);
    assert OccursAt(s, "\n\n", |j|) by {
      assert s[|j|..|j| + 2] == "\n\n";
    }
    forall k | 0 <= k < |j|
      ensures !OccursAt(s, "\n\n", k)
    {
      var w := s[k..k + 2];
      assert w[0] == s[k] == j[k] && w[1] == s[k + 1];
      if k + 1 < |j| {
        assert s[k + 1] == j[k + 1];
      }
      assert w[0] != '\n' || w[1] != '\n';
    }
    assert FindFrom(s, "\n\n", 0) == Some(|j|);
  }

  /**
    A request whose first lines are `@name: value` overrides, in `\n` form, gives exactly
    those overrides, the last value for a name winning; nothing after the blank line counts.
  */
  lemma OverridesReadBack(ps: seq<(string, string)>, body: string, json: string -> Option<Value>)
    requires |ps| > 0 && forall i :: 0 <= i < |ps| ==> PlainOverride(ps[i])
    requires '\r' !in body
    ensures var selection := Join("\n", OverrideLines(ps)) + "\n\n" + body;
      OverrideScan(OverrideText(selection, "\n")) == ps &&
      forall k :: Dict.Get(Overrides(selection, "\n", json), k) == LastFor(RawValues(ps, json), k)
  {
    var selection := Join("\n", OverrideLines(ps)) + "\n\n" + body;
    OverrideLinesText(ps, body);
    OverrideLinesScanBack(ps);
    PlainNamesKept(ps, json);
    OverridesOfPlainScan(selection, ps, json);
  }

  /** Names without spaces at their ends are read the same with and without right-stripping. */
  lemma PlainNamesKept(ps: seq<(string, string)>, json: string -> Option<Value>)
    requires forall i :: 0 <= i < |ps| ==> PlainOverride(ps[i])
    ensures NamedValues(ps, json) == RawValues(ps, json)
  {
    forall i | 0 <= i < |ps|
      ensures RStrip(ps[i].0) == ps[i].0
    {
      if |ps[i].0| > 0 {
        StripUnspaced(ps[i].0);
      }
    }
  }

  /** When stripping changes no scanned name, each override is the last value scanned for it. */
  lemma OverridesOfPlainScan(selection: string, ps: seq<(string, string)>, json: string -> Option<Value>)
    requires OverrideScan(OverrideText(selection, "\n")) == ps && NamedValues(ps, json) == RawValues(ps, json)
    ensures forall k :: Dict.Get(Overrides(selection, "\n", json), k) == LastFor(RawValues(ps, json), k)
  {
    OverridesOfScan(selection, ps, json);
  }

  /** Override lines, a blank line and a body keep, as overrides, just the override lines. */
  lemma OverrideLinesText(ps: seq<(string, string)>, body: string)
    requires |ps| > 0 && forall i :: 0 <= i < |ps| ==> PlainOverride(ps[i])
    requires '\r' !in body
    ensures var j := Join("\n", OverrideLines(ps));
      OverrideText(j + "\n\n" + body, "\n") == j
  {
    var lines := OverrideLines(ps);
    var j := Join("\n", lines);
    var selection := j + "\n\n" + body;
    forall i | 0 <= i < |lines|
      ensures |lines[i]| > 0 && '\n' !in lines[i] && '\r' !in lines[i]
    {
      assert lines[i] == "@" + ps[i].0 + ": " + ps[i].1;
    }
    JoinAvoids("\n", lines, '\r');
    assert j[0] == '@' by {
      JoinedLinesNoBlank(lines);
      assert lines[0][0] == '@';
      if |lines| > 1 {
        assert j == lines[0] + "\n" + Join("\n", lines[1..]);
      }
    }
    assert selection[0] == '@';
    assert '\r' !in selection;
    PlainSelectionText(selection);
    FirstBlankAfterLines(lines, body);
    assert "\n" + "\n" == "\n\n";
    assert selection[..|j|] == j;
  }


  /** Both readings of the overrides assign the scanned pairs in order; they differ only in the names. */
  lemma OverridesOfScan(selection: string, m: seq<(string, string)>, json: string -> Option<Value>)
    requires OverrideScan(OverrideText(selection, "\n")) == m
    ensures OverridesAsWritten(selection, "\n", json) == Update([], RawValues(m, json))
    ensures Overrides(selection, "\n", json) == Update([], NamedValues(m, json))
  {
  }

  /** Text that starts with no space and holds no carriage return keeps, as overrides, its part up to the first blank line. */
  lemma PlainSelectionText(selection: string)
    requires |selection| > 0 && !IsSpace(selection[0]) && '\r' !in selection
    ensures OverrideText(selection, "\n") == HeaderPart(selection, "\n")
  {
    assert LStrip(selection) == selection;
    ToLfOfLf(selection);
  }

  /** A single `@name : value` line scans as the name with its trailing space. */
  lemma SpacedOverrideScan(p: (string, string))
    requires PlainOverride(p) && |p.0| > 0
    ensures var selection := "@" + p.0 + " : " + p.1;
      OverrideScan(OverrideText(selection, "\n")) == [(p.0 + " ", p.1)]
  {
    var selection := "@" + p.0 + " : " + p.1;
    OverrideLineAt(p, " ", "");
    SpacedLine(p.0, p.1);
    assert '\r' !in selection && '\n' !in selection;
    LoneLineScan(selection, p.0 + " ", p.1);
  }

  /** A selection of one override line, with no line break at all, scans as that line's override. */
  lemma LoneLineScan(s: string, n: string, v: string)
    requires OverrideAt(s) == Some((n, v, |s|)) && '\r' !in s && '\n' !in s && |s| > 0 && !IsSpace(s[0])
    ensures OverrideScan(OverrideText(s, "\n")) == [(n, v)]
  {
    PlainSelectionText(s);
    AbsentCharNoOccurrence(s, "\n\n", 0);
    assert "\n" + "\n" == "\n\n";
    assert HeaderPart(s, "\n") == s;
    ScanOfMatch(s, n, v, |s|);
  }

  lemma SpacedLine(name: string, v: string)
    ensures "@" + name + " " + ": " + v + "" == "@" + name + " : " + v
  {
    Regroup("@" + name, " ", ": ");
    assert " " + ": " == " : ";
  }

  /**
    As written, spaces between a name and its `:` stay in the name, so `@timeout : 5`
    overrides a setting called `timeout ` and leaves `timeout` alone; right-stripping the
    name makes it override `timeout`.
  */
  lemma OverrideNameKeepsSpaceAsWritten(p: (string, string), json: string -> Option<Value>)
    requires PlainOverride(p) && |p.0| > 0
    ensures var selection := "@" + p.0 + " : " + p.1;
      OverrideScan(OverrideText(selection, "\n")) == [(p.0 + " ", p.1)] &&
      Dict.Get(OverridesAsWritten(selection, "\n", json), p.0).None? &&
      Dict.Get(Overrides(selection, "\n", json), p.0) == Some(OverrideValue(p.1, json))
  {
    var selection := "@" + p.0 + " : " + p.1;
    var m := [(p.0 + " ", p.1)];
    var v := OverrideValue(p.1, json);
    SpacedOverrideScan(p);
    OverridesOfScan(selection, m, json);
    assert RStrip(p.0 + " ") == p.0 by {
      assert (p.0 + " ")[..|p.0|] == p.0;
      StripUnspaced(p.0);
    }
    assert p.0 + " " != p.0 by {
      assert |p.0 + " "| != |p.0|;
    }
    assert RawValues(m, json) == [(p.0 + " ", v)];
    assert NamedValues(m, json) == [(p.0, v)];
    UpdateOne(p.0 + " ", v, p.0);
    UpdateOne(p.0, v, p.0);
  }
}
