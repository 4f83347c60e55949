/**
  The `{{name}}` substitution of the request command (`run` in
  `rester/commands/http_request_command.py`). A line `@name = value` defines a variable, a
  `#` in front of the `@` comments the definition out, and each `{{ name }}` in the request
  becomes the value of its variable, or nothing when the name is not defined.
*/
module Variables {
  import opened Wrappers
  import opened Strings
  import opened Dict

  /** `[_a-zA-Z]`. */
  predicate IsIdentStart(c: char) {
    c == '_' || 'a' <= c <= 'z' || 'A' <= c <= 'Z'
  }

  /** `[_a-zA-Z0-9]`. */
  predicate IsIdentChar(c: char) {
    IsIdentStart(c) || '0' <= c <= '9'
  }

  /** A whole `[_a-zA-Z][_a-zA-Z0-9]*`. */
  predicate IsIdent(s: string) {
    |s| > 0 && IsIdentStart(s[0]) && forall k :: 0 <= k < |s| ==> IsIdentChar(s[k])
  }

  /** One match of the definition pattern: whether the `#` group matched, the name and the value text. */
  datatype Definition = Definition(commented: bool, name: string, value: string)

  // ---------------------------------------------------------------------------
  // Reading definitions

  /**
    The part of `(?:(#)\s*)?@([_a-zA-Z][_a-zA-Z0-9]*)\s*=\s*(.*)` from its `@` at `q`: the
    name, the value (from the first non-space after the `=`, which may be on a later line,
    to the end of that line) and where the match ends.
  */
  function AssignmentAt(s: string, q: nat): (r: Option<(string, string, nat)>)
    requires q <= |s|
    ensures r.Some? ==> q < r.value.2 <= |s| && IsIdent(r.value.0) && '\n' !in r.value.1
  {
    if q + 1 >= |s| || s[q] != '@' || !IsIdentStart(s[q + 1]) then None
    else
      var n := RunEnd(s, q + 2, IsIdentChar);
      var w := RunEnd(s, n, IsSpace);
      if w == |s| || s[w] != '=' then None
      else
        var d := RunEnd(s, w + 1, IsSpace);
        var e := RunEnd(s, d, NotNewline);
        RunEndInClass(s, q + 2, IsIdentChar);
        RunEndInClass(s, d, NotNewline);
        Some((s[q + 1..n], s[d..e], e))
  }

  /** A match of the definition pattern at the start of `s`: with the comment group when `s` starts with `#`. */
  function DefinitionAt(s: string): (r: Option<(Definition, nat)>)
    ensures r.Some? ==> 0 < r.value.1 <= |s| && IsIdent(r.value.0.name) && '\n' !in r.value.0.value
    ensures r.Some? ==> (r.value.0.commented <==> s[0] == '#')
  {
    var commented := |s| > 0 && s[0] == '#';
    var q := if commented then RunEnd(s, 1, IsSpace) else 0;
    match AssignmentAt(s, q)
    case Some((n, v, e)) => Some((Definition(commented, n, v), e))
    case None => None
  }

  /**
    `re.findall` of the definition pattern: each match in order, the search going on where
    a match ends, or one character further where none starts.
  */
  function Definitions(s: string): (r: seq<Definition>)
    ensures forall i :: 0 <= i < |r| ==> IsIdent(r[i].name) && '\n' !in r[i].value
    decreases |s|
  {
    if |s| == 0 then []
    else match DefinitionAt(s)
      case Some((d, e)) => [d] + Definitions(s[e..])
      case None => Definitions(s[1..])
  }

  /** The definitions not commented out, each value stripped, in order. */
  function Assigned(ds: seq<Definition>): (r: seq<(string, string)>)
    ensures |r| <= |ds|
    ensures forall i :: 0 <= i < |r| ==> Trimmed(r[i].1)
  {
    if |ds| == 0 then []
    else (if ds[0].commented then [] else [(ds[0].name, Strip(ds[0].value))]) + Assigned(ds[1..])
  }

  /** A commented-out definition assigns nothing; any other assigns its stripped value. */
  lemma {:induction false} AssignedNames(ds: seq<Definition>, name: string)
    ensures LastFor(Assigned(ds), name).Some? <==> exists j :: 0 <= j < |ds| && !ds[j].commented && ds[j].name == name
    decreases |ds|
  {
    if |ds| > 0 {
      var head := if ds[0].commented then [] else [(ds[0].name, Strip(ds[0].value))];
      AssignedNames(ds[1..], name);
      LastForAppend(head, Assigned(ds[1..]), name);
      if exists j :: 0 <= j < |ds[1..]| && !ds[1..][j].commented && ds[1..][j].name == name {
        var j :| 0 <= j < |ds[1..]| && !ds[1..][j].commented && ds[1..][j].name == name;
        assert ds[j + 1] == ds[1..][j];
      }
      if exists j :: 0 <= j < |ds| && !ds[j].commented && ds[j].name == name {
        var j :| 0 <= j < |ds| && !ds[j].commented && ds[j].name == name;
        if j > 0 {
          assert ds[1..][j - 1] == ds[j];
        }
      }
    }
  }

  /**
    The variables of a request: the definitions found in the whole buffer and then those in
    the selected request, each assigned in turn, so the last definition of a name wins.
  */
  function Variables(buffer: string, selection: string): (r: seq<(string, string)>)
    ensures NoDup(Keys(r))
  {
    Update(Update([], Assigned(Definitions(buffer))), Assigned(Definitions(selection)))
  }

  /**
    A variable's value is the value of its last definition when the buffer's definitions are
    read first and the selection's after them; a name is defined exactly when some definition
    of it is not commented out.
  */
  lemma VariableIsLastDefinition(buffer: string, selection: string, name: string)
    ensures Dict.Get(Variables(buffer, selection), name)
      == LastFor(Assigned(Definitions(buffer)) + Assigned(Definitions(selection)), name)
    ensures var ds := Definitions(buffer) + Definitions(selection);
      Dict.Get(Variables(buffer, selection), name).Some? <==>
      exists j :: 0 <= j < |ds| && !ds[j].commented && ds[j].name == name
  {
    AssignedTwice(Definitions(buffer), Definitions(selection), name);
    DefinedIffAssigned(Definitions(buffer), Definitions(selection), name);
  }

  /** Assigning two lists of definitions in turn: the last definition of a name gives its value. */
  lemma AssignedTwice(a: seq<Definition>, b: seq<Definition>, name: string)
    ensures Dict.Get(Update(Update([], Assigned(a)), Assigned(b)), name) == LastFor(Assigned(a) + Assigned(b), name)
  {
    LastForAppend(Assigned(a), Assigned(b), name);
  }

  /** A name gets a value from two lists of definitions exactly when one of them defines it without a comment. */
  lemma DefinedIffAssigned(a: seq<Definition>, b: seq<Definition>, name: string)
    ensures var ds := a + b;
      LastFor(Assigned(a) + Assigned(b), name).Some? <==>
      exists j :: 0 <= j < |ds| && !ds[j].commented && ds[j].name == name
  {
    LastForAppend(Assigned(a), Assigned(b), name);
    AssignedNames(a, name);
    AssignedNames(b, name);
    var ds := a + b;
    if exists j :: 0 <= j < |ds| && !ds[j].commented && ds[j].name == name {
      var j :| 0 <= j < |ds| && !ds[j].commented && ds[j].name == name;
      if j < |a| {
        assert a[j] == ds[j];
      } else {
        assert b[j - |a|] == ds[j];
      }
    }
    if exists j :: 0 <= j < |a| && !a[j].commented && a[j].name == name {
      var j :| 0 <= j < |a| && !a[j].commented && a[j].name == name;
      assert ds[j] == a[j];
    }
    if exists j :: 0 <= j < |b| && !b[j].commented && b[j].name == name {
      var j :| 0 <= j < |b| && !b[j].commented && b[j].name == name;
      assert ds[|a| + j] == b[j];
    }
  }

  // ---------------------------------------------------------------------------
  // Substituting

  /** A match of `\{\{\s*([_a-zA-Z][_a-zA-Z0-9]*)\s*\}\}` at the start of `s`: the name and where the match ends. */
  function PlaceholderAt(s: string): (r: Option<(string, nat)>)
    ensures r.Some? ==> 5 <= r.value.1 <= |s| && IsIdent(r.value.0)
  {
    if |s| < 2 || s[0] != '{' || s[1] != '{' then None
    else
      var a := RunEnd(s, 2, IsSpace);
      if a == |s| || !IsIdentStart(s[a]) then None
      else
        var n := RunEnd(s, a + 1, IsIdentChar);
        var w := RunEnd(s, n, IsSpace);
        if w + 2 > |s| || s[w] != '}' || s[w + 1] != '}' then None
        else
          RunEndInClass(s, a + 1, IsIdentChar);
          Some((s[a..n], w + 2))
  }

  /** `re.sub` of the placeholder pattern: each placeholder replaced by its variable's value, or by nothing. */
  function Substitute(s: string, vars: seq<(string, string)>): (r: string)
    decreases |s|
  {
    if |s| == 0 then ""
    else match PlaceholderAt(s)
      case Some((n, e)) => Dict.Get(vars, n).GetOr("") + Substitute(s[e..], vars)
      case None => [s[0]] + Substitute(s[1..], vars)
  }

  /**
    The text of the request after substitution: `text` is the request as read, `buffer` the
    whole editor buffer and `selection` the request before the request commands ran.
  */
  function Expand(text: string, buffer: string, selection: string): string {
    Substitute(text, Variables(buffer, selection))
  }

  /** Where no `{{` occurs, substitution leaves the text as it is. */
  lemma {:induction false} UnchangedWithoutBraces(s: string, vars: seq<(string, string)>)
    requires forall k :: 0 <= k < |s| - 1 ==> !(s[k] == '{' && s[k + 1] == '{')
    ensures Substitute(s, vars) == s
    decreases |s|
  {
    if |s| > 0 {
      assert PlaceholderAt(s).None?;
      var t := s[1..];
      forall k | 0 <= k < |t| - 1
        ensures !(t[k] == '{' && t[k + 1] == '{')
      {
        assert t[k] == s[k + 1] && t[k + 1] == s[k + 2];
      }
      UnchangedWithoutBraces(t, vars);
      assert s == [s[0]] + t;
    }
  }

  /** A request without `{{` is not changed by substitution, whatever the variables. */
  lemma NoPlaceholderNoChange(s: string, vars: seq<(string, string)>)
    requires !Contains(s, "{{")
    ensures Substitute(s, vars) == s
  {
    forall k | 0 <= k < |s| - 1
      ensures !(s[k] == '{' && s[k + 1] == '{')
    {
      assert !OccursAt(s, "{{", k);
      assert s[k..k + 2] == [s[k], s[k + 1]];
    }
    UnchangedWithoutBraces(s, vars);
  }

  /** Text without `{` in front is copied as it is. */
  lemma {:induction false} CopiesPlainPrefix(a: string, u: string, vars: seq<(string, string)>)
    requires '{' !in a
    ensures Substitute(a + u, vars) == a + Substitute(u, vars)
    decreases |a|
  {
    if |a| > 0 {
      var s := a + u;
      assert s[0] == a[0];
      assert PlaceholderAt(s).None?;
      assert Substitute(s, vars) == [s[0]] + Substitute(s[1..], vars);
      assert s[1..] == a[1..] + u;
      assert a[0] in a;
      CopiesPlainPrefix(a[1..], u, vars);
      assert a == [a[0]] + a[1..];
    } else {
      assert a + u == u;
    }
  }

  /** The placeholder at the start of `s`, read off the positions of its parts. */
  lemma PlaceholderOfLayout(s: string, a: nat, n: nat, w: nat)
    requires 2 <= a < n <= w && w + 2 <= |s|
    requires s[0] == '{' && s[1] == '{' && s[w] == '}' && s[w + 1] == '}'
    requires forall k :: 2 <= k < a ==> IsSpace(s[k])
    requires IsIdent(s[a..n])
    requires forall k :: n <= k < w ==> IsSpace(s[k])
    ensures PlaceholderAt(s) == Some((s[a..n], w + 2))
  {
    assert s[a] == s[a..n][0];
    RunEndIs(s, 2, a, IsSpace);
    forall k | a + 1 <= k < n
      ensures IsIdentChar(s[k])
    {
      assert s[k] == s[a..n][k - a];
    }
    RunEndIs(s, a + 1, n, IsIdentChar);
    RunEndIs(s, n, w, IsSpace);
  }

  /** A placeholder at the start of a text becomes its value; the rest is substituted on its own. */
  lemma SubstituteLeading(g1: string, name: string, g2: string, b: string, vars: seq<(string, string)>)
    requires AllSpace(g1) && AllSpace(g2) && IsIdent(name)
    ensures Substitute("{{" + g1 + name + g2 + "}}" + b, vars) == Dict.Get(vars, name).GetOr("") + Substitute(b, vars)
  {
    var t := "{{" + g1 + name + g2 + "}}";
    var s := t + b;
    var x := 2 + |g1|;
    var y := x + |name|;
    var w := y + |g2|;
    forall k | 2 <= k < x
      ensures IsSpace(s[k])
    {
      assert s[k] == g1[k - 2];
    }
    assert s[x..y] == name;
    forall k | y <= k < w
      ensures IsSpace(s[k])
    {
      assert s[k] == g2[k - y];
    }
    assert s[w] == '}' && s[w + 1] == '}';
    PlaceholderOfLayout(s, x, y, w);
    assert s[w + 2..] == b;
  }

  /**
    A placeholder `{{ name }}` (spaces allowed inside the braces) after text with no `{`
    becomes the variable's value, or nothing when it is undefined; the rest of the text is
    substituted on its own.
  */
  lemma SubstituteOne(a: string, g1: string, name: string, g2: string, b: string, vars: seq<(string, string)>)
    requires '{' !in a && AllSpace(g1) && AllSpace(g2) && IsIdent(name)
    ensures Substitute(a + "{{" + g1 + name + g2 + "}}" + b, vars)
      == a + Dict.Get(vars, name).GetOr("") + Substitute(b, vars)
  {
    var u := "{{" + g1 + name + g2 + "}}" + b;
    assert a + "{{" + g1 + name + g2 + "}}" + b == a + u;
    CopiesPlainPrefix(a, u, vars);
    SubstituteLeading(g1, name, g2, b, vars);
  }

  // ---------------------------------------------------------------------------
  // Definitions in a request

  /** The text of one definition line. */
  function DefinitionLine(name: string, value: string): string {
    "@" + name + " = " + value
  }

  /** The match read off the positions of a definition's parts. */
  lemma AssignmentOfLayout(s: string, q: nat, n: nat, w: nat, d: nat)
    requires q + 1 < n <= w < d < |s|
    requires s[q] == '@' && IsIdent(s[q + 1..n]) && s[w] == '='
    requires forall k :: n <= k < w ==> IsSpace(s[k])
    requires forall k :: w + 1 <= k < d ==> IsSpace(s[k])
    requires !IsSpace(s[d])
    requires forall k :: d <= k < |s| ==> s[k] != '\n'
    ensures AssignmentAt(s, q) == Some((s[q + 1..n], s[d..|s|], |s|))
  {
    assert s[q + 1] == s[q + 1..n][0];
    forall k | q + 2 <= k < n
      ensures IsIdentChar(s[k])
    {
      assert s[k] == s[q + 1..n][k - q - 1];
    }
    RunEndIs(s, q + 2, n, IsIdentChar);
    RunEndIs(s, n, w, IsSpace);
    RunEndIs(s, w + 1, d, IsSpace);
    RunEndIs(s, d, |s|, NotNewline);
  }

  /** A definition line on its own, commented out or not, is one definition of its name with its value. */
  lemma DefinitionLineReads(name: string, value: string, hash: string)
    requires IsIdent(name) && |value| > 0 && !IsSpace(value[0]) && '\n' !in value
    requires hash == "" || hash == "#"
    ensures Definitions(hash + DefinitionLine(name, value)) == [Definition(hash == "#", name, value)]
  {
    var s := hash + DefinitionLine(name, value);
    DefinitionAtLine(name, value, hash);
    assert s[|s|..] == [];
  }

  /** The match at the start of a definition line takes the whole line. */
  lemma DefinitionAtLine(name: string, value: string, hash: string)
    requires IsIdent(name) && |value| > 0 && !IsSpace(value[0]) && '\n' !in value
    requires hash == "" || hash == "#"
    ensures var s := hash + DefinitionLine(name, value);
      DefinitionAt(s) == Some((Definition(hash == "#", name, value), |s|))
  {
    var s := hash + DefinitionLine(name, value);
    var q := |hash|;
    var n := q + 1 + |name|;
    DefinitionLineLayout(name, value, hash);
    AssignmentOfLayout(s, q, n, n + 1, n + 3);
    if hash == "#" {
      RunEndIs(s, 1, 1, IsSpace);
    }
  }

  /** Where the parts of a definition line sit. */
  lemma DefinitionLineLayout(name: string, value: string, hash: string)
    requires '\n' !in value
    ensures var s := hash + DefinitionLine(name, value);
      var q := |hash|;
      var n := q + 1 + |name|;
      |s| == n + 3 + |value| && s[q] == '@' && s[q + 1..n] == name &&
      s[n] == ' ' && s[n + 1] == '=' && s[n + 2] == ' ' && s[n + 3..|s|] == value &&
      (hash == "#" ==> s[0] == '#') &&
      forall k :: n + 3 <= k < |s| ==> s[k] != '\n'
  {
    var s := hash + DefinitionLine(name, value);
    var n := |hash| + 1 + |name|;
    forall k | n + 3 <= k < |s|
      ensures s[k] != '\n'
    {
      assert s[k] == value[k - n - 3];
    }
  }

  /** The variables of a request holding one definition line: its value, unless it is commented out. */
  lemma OneLineVariables(name: string, value: string, hash: string)
    requires IsIdent(name) && |value| > 0 && Trimmed(value) && '\n' !in value
    requires hash == "" || hash == "#"
    ensures var line := hash + DefinitionLine(name, value);
      Dict.Get(Variables(line, line), name) == if hash == "" then Some(value) else None
  {
    var line := hash + DefinitionLine(name, value);
    DefinitionLineReads(name, value, hash);
    StripUnspaced(value);
    assert Assigned([Definition(hash == "#", name, value)]) == if hash == "" then [(name, value)] else [];
  }

  /**
    A request with one definition line expands a placeholder of that name to the value,
    while the same line commented out leaves the placeholder empty.
  */
  lemma DefinedVariableExpands(name: string, value: string)
    requires IsIdent(name) && |value| > 0 && Trimmed(value) && '\n' !in value
    ensures var line := DefinitionLine(name, value);
      Expand("{{" + name + "}}", line, line) == value
    ensures var line := "#" + DefinitionLine(name, value);
      Expand("{{" + name + "}}", line, line) == ""
  {
    assert "{{" + "" + name + "" + "}}" + "" == "{{" + name + "}}";
    var line := DefinitionLine(name, value);
    OneLineVariables(name, value, "");
    assert "" + line == line;
    SubstituteLeading("", name, "", "", Variables(line, line));
    var commented := "#" + DefinitionLine(name, value);
    OneLineVariables(name, value, "#");
    SubstituteLeading("", name, "", "", Variables(commented, commented));
  }
}
