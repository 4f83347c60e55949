/**
  The Python `str` operations the plug-in relies on, written out over `seq<char>`:
  stripping, ASCII case mapping, substring search, `split`, `join` and `replace`,
  plus the maximal-run scan that the regular expressions of the plug-in reduce to.
*/
module Strings {
  import opened Wrappers

  /** Python's `str.isspace` for one character; it is also what `\s` matches in a `str` pattern. */
  predicate IsSpace(c: char) {
    var n := c as int;
    if n <= 0x20 then n == 0x20 || 0x09 <= n <= 0x0D || 0x1C <= n <= 0x1F
    else n >= 0x85 && IsWideSpace(n)
  }

  /** The whitespace code points above ASCII. */
  predicate IsWideSpace(n: int) {
    n == 0x85 || n == 0xA0 || n == 0x1680 || 0x2000 <= n <= 0x200A || n == 0x2028 || n == 0x2029
    || n == 0x202F || n == 0x205F || n == 0x3000
  }

  predicate AllSpace(s: string) {
    forall i :: 0 <= i < |s| ==> IsSpace(s[i])
  }

  /** `s.lstrip()`: the longest suffix of `s` that does not start with whitespace. */
  function LStrip(s: string): (r: string)
    ensures |r| <= |s|
    ensures r == [] || !IsSpace(r[0])
  {
    if |s| > 0 && IsSpace(s[0]) then LStrip(s[1..]) else s
  }

  /** What `lstrip` removes is a whitespace prefix; what it keeps is the rest. */
  lemma {:induction false} LStripDrops(s: string)
    ensures LStrip(s) == s[|s| - |LStrip(s)|..]
    ensures AllSpace(s[..|s| - |LStrip(s)|])
    decreases |s|
  {
    if |s| > 0 && IsSpace(s[0]) {
      LStripDrops(s[1..]);
      var n := |s| - |LStrip(s)|;
      assert s[1..][..n - 1] == s[1..n];
    }
  }

  /** `s.rstrip()`: the longest prefix of `s` that does not end with whitespace. */
  function RStrip(s: string): (r: string)
    ensures |r| <= |s|
    ensures r == [] || !IsSpace(r[|r| - 1])
  {
    if |s| > 0 && IsSpace(s[|s| - 1]) then RStrip(s[..|s| - 1]) else s
  }

  /** What `rstrip` removes is a whitespace suffix; what it keeps is the rest. */
  lemma {:induction false} RStripDrops(s: string)
    ensures RStrip(s) == s[..|RStrip(s)|]
    ensures AllSpace(s[|RStrip(s)|..])
    decreases |s|
  {
    if |s| > 0 && IsSpace(s[|s| - 1]) {
      RStripDrops(s[..|s| - 1]);
      var n := |RStrip(s)|;
      assert s[..|s| - 1][n..] == s[n..|s| - 1];
    }
  }

  /** No whitespace at either end. */
  predicate Trimmed(s: string) {
    s == [] || (!IsSpace(s[0]) && !IsSpace(s[|s| - 1]))
  }

  /** `s.strip()`. */
  function Strip(s: string): (r: string)
    ensures |r| <= |s|
    ensures Trimmed(r)
    ensures r == [] <==> AllSpace(s)
  {
    var l := LStrip(s);
    var r := RStrip(l);
    LStripDrops(s);
    RStripDrops(l);
    assert r != [] ==> r[0] == l[0];
    assert l != [] ==> !AllSpace(s) by {
      if l != [] {
        assert s[|s| - |l|] == l[0];
      }
    }
    assert l == [] ==> AllSpace(s) by {
      if l == [] {
        assert s[..|s|] == s;
      }
    }
    r
  }

  /** A string with no whitespace at either end is its own strip. */
  lemma StripUnspaced(s: string)
    requires |s| > 0 && !IsSpace(s[0]) && !IsSpace(s[|s| - 1])
    ensures LStrip(s) == s && RStrip(s) == s && Strip(s) == s
  {
  }

  /** The strings `strip` leaves alone are exactly the trimmed ones. */
  lemma TrimmedIsStripped(s: string)
    ensures Trimmed(s) <==> Strip(s) == s
  {
    if Trimmed(s) && s != [] {
      StripUnspaced(s);
    }
  }

  function LowerChar(c: char): char {
    if 'A' <= c <= 'Z' then (c as int + 32) as char else c
  }

  function UpperChar(c: char): char {
    if 'a' <= c <= 'z' then (c as int - 32) as char else c
  }

  /** `s.lower()` on the ASCII letters. */
  function Lower(s: string): (r: string)
    ensures |r| == |s|
    ensures forall i :: 0 <= i < |s| ==> r[i] == LowerChar(s[i])
  {
    seq(|s|, i requires 0 <= i < |s| => LowerChar(s[i]))
  }

  /** `s.upper()` on the ASCII letters. */
  function Upper(s: string): (r: string)
    ensures |r| == |s|
    ensures forall i :: 0 <= i < |s| ==> r[i] == UpperChar(s[i])
  {
    seq(|s|, i requires 0 <= i < |s| => UpperChar(s[i]))
  }

  predicate StartsWith(s: string, prefix: string) {
    |prefix| <= |s| && s[..|prefix|] == prefix
  }

  predicate EndsWith(s: string, suffix: string) {
    |suffix| <= |s| && s[|s| - |suffix|..] == suffix
  }

  predicate OccursAt(s: string, pat: string, i: int) {
    0 <= i && i + |pat| <= |s| && s[i..i + |pat|] == pat
  }

  /** The first index at or after `from` where `pat` occurs in `s`. */
  function FindFrom(s: string, pat: string, from: nat): (r: Option<nat>)
    requires from <= |s|
    ensures r.Some? ==> from <= r.value && OccursAt(s, pat, r.value)
    ensures r.Some? ==> forall j :: from <= j < r.value ==> !OccursAt(s, pat, j)
    ensures r.None? ==> forall j :: from <= j ==> !OccursAt(s, pat, j)
    decreases |s| - from
  {
    if OccursAt(s, pat, from) then Some(from)
    else if from == |s| then None
    else FindFrom(s, pat, from + 1)
  }

  /** `s.find(pat)`, with `None` for Python's -1. */
  function Find(s: string, pat: string): Option<nat> {
    FindFrom(s, pat, 0)
  }

  /** `pat in s` for strings. */
  predicate Contains(s: string, pat: string) {
    Find(s, pat).Some?
  }

  /** `s.rfind(pat)`: the last index where `pat` occurs, searching the prefix `s[..upto]`. */
  function RFindBefore(s: string, pat: string, upto: nat): (r: Option<nat>)
    requires upto <= |s|
    ensures r.Some? ==> r.value + |pat| <= upto && OccursAt(s, pat, r.value)
    ensures r.Some? ==> forall j :: r.value < j && j + |pat| <= upto ==> !OccursAt(s, pat, j)
    ensures r.None? ==> forall j :: 0 <= j && j + |pat| <= upto ==> !OccursAt(s, pat, j)
    decreases upto
  {
    if |pat| <= upto && OccursAt(s, pat, upto - |pat|) then Some(upto - |pat|)
    else if upto == 0 then None
    else RFindBefore(s, pat, upto - 1)
  }

  /** Once the first occurrence is known, any other occurrence lies at or after it. */
  lemma FindIsFirst(s: string, pat: string, i: nat)
    requires OccursAt(s, pat, i)
    requires forall j :: 0 <= j < i ==> !OccursAt(s, pat, j)
    ensures Find(s, pat) == Some(i)
  {
    assert OccursAt(s, pat, i);
  }

  /** A pattern as long as `s` occurs in it only when it is `s`. */
  lemma SameLengthFind(s: string, pat: string)
    requires |s| == |pat| && s != pat
    ensures Find(s, pat).None?
  {
    assert s[0..|pat|] == s;
  }

  /** A pattern with a character that `s` lacks does not occur in `s`. */
  lemma AbsentCharNoOccurrence(s: string, pat: string, k: nat)
    requires k < |pat| && pat[k] !in s
    ensures Find(s, pat).None?
  {
    forall j | 0 <= j && j + |pat| <= |s|
      ensures !OccursAt(s, pat, j)
    {
      assert s[j + k] in s;
      assert s[j..j + |pat|][k] == s[j + k];
    }
  }

  /** Searching for a one-character pattern is searching for that character. */
  lemma SingleCharFind(s: string, c: char)
    ensures Find(s, [c]).None? <==> c !in s
  {
    if c in s {
      var k :| 0 <= k < |s| && s[k] == c;
      assert s[k..k + 1] == [c];
      assert OccursAt(s, [c], k);
    } else {
      AbsentCharNoOccurrence(s, [c], 0);
    }
  }

  /** The first occurrence of `sep` in `a + sep + b` is right after `a` when `a` lacks `sep`'s first character. */
  lemma FindAfterCleanPrefix(a: string, sep: string, b: string)
    requires |sep| > 0 && sep[0] !in a
    ensures Find(a + sep + b, sep) == Some(|a|)
  {
    var s := a + sep + b;
    assert s[|a|..|a| + |sep|] == sep;
    forall j | 0 <= j < |a|
      ensures !OccursAt(s, sep, j)
    {
      assert s[j] == a[j] && a[j] in a;
      if j + |sep| <= |s| {
        assert s[j..j + |sep|][0] == s[j];
      }
    }
    FindIsFirst(s, sep, |a|);
  }

  /** `s.split(sep, 1)` when it yields two parts. */
  function SplitOnce(s: string, sep: string): (r: Option<(string, string)>)
    requires |sep| > 0
    ensures r.None? <==> Find(s, sep).None?
    ensures r.Some? ==> s == r.value.0 + sep + r.value.1 && Find(s, sep) == Some(|r.value.0|)
  {
    match Find(s, sep)
    case None => None
    case Some(i) =>
      assert s == s[..i] + s[i..i + |sep|] + s[i + |sep|..];
      Some((s[..i], s[i + |sep|..]))
  }

  /** Concatenation regrouped. */
  lemma Regroup<T>(a: seq<T>, b: seq<T>, c: seq<T>)
    ensures a + b + c == a + (b + c)
  {
  }

  /** The first `n + 1` items of a sequence with one item put in front. */
  lemma ConsPrefix<T>(x: T, s: seq<T>, n: nat)
    requires n <= |s|
    ensures ([x] + s)[..n + 1] == [x] + s[..n]
  {
  }

  /** Splitting once at a separator placed after text that lacks its first character. */
  lemma SplitOnceAt(a: string, sep: string, b: string)
    requires |sep| > 0 && sep[0] !in a
    ensures SplitOnce(a + sep + b, sep) == Some((a, b))
  {
    var s := a + sep + b;
    FindAfterCleanPrefix(a, sep, b);
    assert s[..|a|] == a;
    assert s[|a| + |sep|..] == b;
  }

  /** `sep.join(parts)`. */
  function Join(sep: string, parts: seq<string>): string {
    if |parts| == 0 then ""
    else if |parts| == 1 then parts[0]
    else parts[0] + sep + Join(sep, parts[1..])
  }

  /** The text before the first occurrence of `sep` holds no occurrence of it. */
  lemma FirstPieceClean(s: string, sep: string, i: nat)
    requires |sep| > 0 && Find(s, sep) == Some(i)
    ensures Find(s[..i], sep).None?
  {
    forall v | 0 <= v && v + |sep| <= i
      ensures !OccursAt(s[..i], sep, v)
    {
      assert !OccursAt(s, sep, v);
      assert s[..i][v..v + |sep|] == s[v..v + |sep|];
    }
  }

  /** `s.split(sep)`: the pieces hold no `sep` and joining them back with `sep` gives `s`. */
  function Split(s: string, sep: string): (r: seq<string>)
    requires |sep| > 0
    ensures |r| >= 1
    ensures Join(sep, r) == s
    ensures forall i :: 0 <= i < |r| ==> Find(r[i], sep).None?
    decreases |s|
  {
    match Find(s, sep)
    case None => [s]
    case Some(i) =>
      FirstPieceClean(s, sep, i);
      var rest := Split(s[i + |sep|..], sep);
      assert ([s[..i]] + rest)[1..] == rest;
      assert s == s[..i] + s[i..i + |sep|] + s[i + |sep|..];
      [s[..i]] + rest
  }

  /** `s.replace(pat, rep)`; Python's left-to-right scan is exactly split-then-join. */
  function Replace(s: string, pat: string, rep: string): string
    requires |pat| > 0
  {
    Join(rep, Split(s, pat))
  }

  /** Splitting undoes joining when no part holds the separator's first character. */
  lemma {:induction false} SplitJoin(sep: string, parts: seq<string>)
    requires |sep| > 0 && |parts| >= 1
    requires forall i :: 0 <= i < |parts| ==> sep[0] !in parts[i]
    ensures Split(Join(sep, parts), sep) == parts
    decreases |parts|
  {
    if |parts| == 1 {
      AbsentCharNoOccurrence(parts[0], sep, 0);
    } else {
      var rest := Join(sep, parts[1..]);
      var s := parts[0] + sep + rest;
      assert Join(sep, parts) == s;
      FindAfterCleanPrefix(parts[0], sep, rest);
      assert s[|parts[0]| + |sep|..] == rest;
      assert s[..|parts[0]|] == parts[0];
      SplitJoin(sep, parts[1..]);
      assert parts == [parts[0]] + parts[1..];
    }
  }

  /** Joining two non-empty lists puts one separator between their joins. */
  lemma {:induction false} JoinConcat(sep: string, a: seq<string>, b: seq<string>)
    requires |a| > 0 && |b| > 0
    ensures Join(sep, a + b) == Join(sep, a) + sep + Join(sep, b)
    decreases |a|
  {
    if |a| > 1 {
      assert (a + b)[1..] == a[1..] + b;
      JoinConcat(sep, a[1..], b);
    }
  }

  /** Splitting at a separator placed after text that lacks its first character. */
  lemma SplitAt(a: string, sep: string, b: string)
    requires |sep| > 0 && sep[0] !in a
    ensures Split(a + sep + b, sep) == [a] + Split(b, sep)
  {
    var s := a + sep + b;
    FindAfterCleanPrefix(a, sep, b);
    assert s[..|a|] == a;
    assert s[|a| + |sep|..] == b;
  }

  /** A text that starts with the separator splits into an empty piece, then the rest's pieces. */
  lemma SplitLeadingSeparator(sep: string, b: string)
    requires |sep| > 0
    ensures Split(sep + b, sep) == [""] + Split(b, sep)
  {
    SplitAt("", sep, b);
    assert "" + sep + b == sep + b;
  }

  /**
    Joined parts, then the separator twice, then a body: the parts, an empty piece, then
    the body's pieces.
  */
  lemma SplitAfterJoinBlank(sep: string, parts: seq<string>, body: string)
    requires |sep| > 0 && |parts| >= 1
    requires forall i :: 0 <= i < |parts| ==> sep[0] !in parts[i]
    ensures Split(Join(sep, parts) + sep + sep + body, sep) == parts + ([""] + Split(body, sep))
  {
    var j := Join(sep, parts);
    assert j + sep + sep + body == j + sep + (sep + body);
    SplitAfterJoin(sep, parts, sep + body);
    SplitLeadingSeparator(sep, body);
  }

  lemma SplitAfterJoinStep(sep: string, head: string, more: seq<string>, rest: string)
    requires |sep| > 0 && |more| > 0 && sep[0] !in head
    requires Split(Join(sep, more) + sep + rest, sep) == more + Split(rest, sep)
    ensures Split(Join(sep, [head] + more) + sep + rest, sep) == [head] + more + Split(rest, sep)
  {
    JoinStep(sep, head, more, rest);
    SplitCons(sep, head, Join(sep, more) + sep + rest, more, Split(rest, sep));
  }

  lemma SplitCons(sep: string, head: string, tail: string, more: seq<string>, y: seq<string>)
    requires |sep| > 0 && sep[0] !in head
    requires Split(tail, sep) == more + y
    ensures Split(head + sep + tail, sep) == [head] + more + y
  {
    SplitAt(head, sep, tail);
  }

  lemma JoinStep(sep: string, head: string, more: seq<string>, rest: string)
    requires |more| > 0
    ensures Join(sep, [head] + more) + sep + rest == head + sep + (Join(sep, more) + sep + rest)
  {
    assert ([head] + more)[1..] == more;
  }

  /** Splitting a join followed by more text gives the joined parts, then the pieces of the rest. */
  lemma {:induction false} SplitAfterJoin(sep: string, parts: seq<string>, rest: string)
    requires |sep| > 0 && |parts| >= 1
    requires forall i :: 0 <= i < |parts| ==> sep[0] !in parts[i]
    ensures Split(Join(sep, parts) + sep + rest, sep) == parts + Split(rest, sep)
    decreases |parts|
  {
    if |parts| == 1 {
      SplitAfterJoinOne(sep, parts, rest);
    } else {
      var more := parts[1..];
      assert forall i :: 0 <= i < |more| ==> more[i] == parts[i + 1];
      SplitAfterJoin(sep, more, rest);
      SplitAfterJoinStep(sep, parts[0], more, rest);
      assert parts == [parts[0]] + more;
    }
  }

  lemma SplitAfterJoinOne(sep: string, parts: seq<string>, rest: string)
    requires |sep| > 0 && |parts| == 1 && sep[0] !in parts[0]
    ensures Split(Join(sep, parts) + sep + rest, sep) == parts + Split(rest, sep)
  {
    assert Join(sep, parts) == parts[0];
    SplitAt(parts[0], sep, rest);
    assert parts == [parts[0]];
  }

  /** A character found in neither the separator nor any part is not in the join. */
  lemma {:induction false} JoinAvoids(sep: string, parts: seq<string>, c: char)
    requires c !in sep
    requires forall i :: 0 <= i < |parts| ==> c !in parts[i]
    ensures c !in Join(sep, parts)
    decreases |parts|
  {
    if |parts| > 1 {
      JoinAvoids(sep, parts[1..], c);
    }
  }

  /** Every character of a part appears in the join. */
  lemma {:induction false} JoinKeepsParts(sep: string, parts: seq<string>, i: nat, c: char)
    requires i < |parts| && c in parts[i]
    ensures c in Join(sep, parts)
    decreases |parts|
  {
    if |parts| > 1 && i > 0 {
      JoinKeepsParts(sep, parts[1..], i - 1, c);
    }
  }

  /** The pieces of a split only hold characters of the split string. */
  lemma SplitPiecesAvoid(s: string, sep: string, c: char)
    requires |sep| > 0 && c !in s
    ensures forall i :: 0 <= i < |Split(s, sep)| ==> c !in Split(s, sep)[i]
  {
    var parts := Split(s, sep);
    forall i | 0 <= i < |parts|
      ensures c !in parts[i]
    {
      if c in parts[i] {
        JoinKeepsParts(sep, parts, i, c);
      }
    }
  }

  /** The pieces of a split on a one-character separator never hold that character. */
  lemma SplitPiecesLackSeparator(s: string, c: char)
    ensures forall i :: 0 <= i < |Split(s, [c])| ==> c !in Split(s, [c])[i]
  {
    var parts := Split(s, [c]);
    forall i | 0 <= i < |parts|
      ensures c !in parts[i]
    {
      SingleCharFind(parts[i], c);
    }
  }

  /** The first index at or after `p` whose flag is set. */
  function FirstTrue(b: seq<bool>, p: nat): (r: Option<nat>)
    requires p <= |b|
    ensures r.Some? ==> p <= r.value < |b| && b[r.value]
    ensures r.Some? ==> forall j :: p <= j < r.value ==> !b[j]
    ensures r.None? ==> forall j :: p <= j < |b| ==> !b[j]
    decreases |b| - p
  {
    if p == |b| then None
    else if b[p] then Some(p)
    else FirstTrue(b, p + 1)
  }

  /** The end of the maximal run of `inClass` characters that starts at `i`. */
  function RunEnd(s: string, i: nat, inClass: char -> bool): (r: nat)
    requires i <= |s|
    ensures i <= r <= |s|
    ensures r == |s| || !inClass(s[r])
    decreases |s| - i
  {
    if i < |s| && inClass(s[i]) then RunEnd(s, i + 1, inClass) else i
  }

  /** Every character of the run is in the class. */
  lemma {:induction false} RunEndInClass(s: string, i: nat, inClass: char -> bool)
    requires i <= |s|
    ensures forall k :: i <= k < RunEnd(s, i, inClass) ==> inClass(s[k])
    decreases |s| - i
  {
    if i < |s| && inClass(s[i]) {
      RunEndInClass(s, i + 1, inClass);
    }
  }

  /** A run whose end is known is found by `RunEnd`. */
  lemma {:induction false} RunEndIs(s: string, i: nat, j: nat, inClass: char -> bool)
    requires i <= j <= |s|
    requires forall k :: i <= k < j ==> inClass(s[k])
    requires j == |s| || !inClass(s[j])
    ensures RunEnd(s, i, inClass) == j
    decreases j - i
  {
    if i < j {
      RunEndIs(s, i + 1, j, inClass);
    }
  }

  /** A part made of `inClass` characters, followed by one outside the class, is the run found there. */
  lemma RunOfPart(a: string, t: string, b: string, inClass: char -> bool)
    requires forall k :: 0 <= k < |t| ==> inClass(t[k])
    requires b == [] || !inClass(b[0])
    ensures RunEnd(a + t + b, |a|, inClass) == |a| + |t|
  {
    var s := a + t + b;
    forall k | |a| <= k < |a| + |t|
      ensures inClass(s[k])
    {
      assert s[k] == t[k - |a|];
    }
    if b != [] {
      assert s[|a| + |t|] == b[0];
    }
    RunEndIs(s, |a|, |a| + |t|, inClass);
  }

  /** A final part made of `inClass` characters is the run found there. */
  lemma RunToEnd(a: string, t: string, inClass: char -> bool)
    requires forall k :: 0 <= k < |t| ==> inClass(t[k])
    ensures RunEnd(a + t, |a|, inClass) == |a| + |t|
  {
    var s := a + t;
    forall k | |a| <= k < |s|
      ensures inClass(s[k])
    {
      assert s[k] == t[k - |a|];
    }
    RunEndIs(s, |a|, |s|, inClass);
  }

  /**
    In `v + " " + u + " " + p`, with each part in its class and the single spaces in the
    separator class only, the five runs end exactly at the part boundaries.
  */
  lemma RunsOfSpaced(v: string, u: string, p: string, inV: char -> bool, inSpace: char -> bool,
                     inU: char -> bool, inP: char -> bool)
    requires forall k :: 0 <= k < |v| ==> inV(v[k])
    requires forall k :: 0 <= k < |u| ==> inU(u[k])
    requires forall k :: 0 <= k < |p| ==> inP(p[k])
    requires |u| > 0 && |p| > 0
    requires !inV(' ') && inSpace(' ') && !inU(' ') && !inSpace(u[0]) && !inSpace(p[0])
    ensures var s := v + " " + u + " " + p;
      var e := |v| + 1 + |u|;
      RunEnd(s, 0, inV) == |v| && RunEnd(s, |v|, inSpace) == |v| + 1 && RunEnd(s, |v| + 1, inU) == e
      && RunEnd(s, e, inSpace) == e + 1 && RunEnd(s, e + 1, inP) == |s|
  {
    SpacedHead(v, u + " " + p, inV, inSpace);
    assert v + " " + u + " " + p == v + (" " + (u + " " + p));
    SpacedMiddle(v, u, p, inU, inSpace);
    SpacedTail(v + " " + u + " ", p, inP);
  }

  /** In `a + (" " + t)`: the run of `a`'s class ends at the space, and the run of spaces after it. */
  lemma SpacedHead(a: string, t: string, inA: char -> bool, inSpace: char -> bool)
    requires forall k :: 0 <= k < |a| ==> inA(a[k])
    requires |t| > 0 && !inA(' ') && inSpace(' ') && !inSpace(t[0])
    ensures RunEnd(a + (" " + t), 0, inA) == |a| && RunEnd(a + (" " + t), |a|, inSpace) == |a| + 1
  {
    RunEndPrefix(a, " " + t, inA);
    RunEndShift(a, " " + t, 0, inSpace);
    RunEndPrefix(" ", t, inSpace);
  }

  /** The runs of `u` and of the space after it, inside `v + " " + u + " " + p`. */
  lemma SpacedMiddle(v: string, u: string, p: string, inU: char -> bool, inSpace: char -> bool)
    requires forall k :: 0 <= k < |u| ==> inU(u[k])
    requires |p| > 0 && !inU(' ') && inSpace(' ') && !inSpace(p[0])
    ensures var s := v + " " + u + " " + p;
      RunEnd(s, |v| + 1, inU) == |v| + 1 + |u| && RunEnd(s, |v| + 1 + |u|, inSpace) == |v| + 2 + |u|
  {
    var h := v + " ";
    var w := u + (" " + p);
    assert v + " " + u + " " + p == h + w;
    SpacedHead(u, p, inU, inSpace);
    RunEndShift(h, w, 0, inU);
    RunEndShift(h, w, |u|, inSpace);
  }

  /** The last run reaches the end of the text. */
  lemma SpacedTail(h: string, p: string, inP: char -> bool)
    requires forall k :: 0 <= k < |p| ==> inP(p[k])
    ensures RunEnd(h + p, |h|, inP) == |h + p|
  {
    RunEndShift(h, p, 0, inP);
    RunEndPrefix(p, [], inP);
    assert p + [] == p;
  }

  /** A run that starts in the second part of a text is the same run as in that part, shifted. */
  lemma {:induction false} RunEndShift(a: string, b: string, i: nat, inClass: char -> bool)
    requires i <= |b|
    ensures RunEnd(a + b, |a| + i, inClass) == |a| + RunEnd(b, i, inClass)
    decreases |b| - i
  {
    if i < |b| {
      assert (a + b)[|a| + i] == b[i];
      RunEndShift(a, b, i + 1, inClass);
    }
  }

  /** A run from the start over a part all in the class stops where the next part starts with a character outside it. */
  lemma RunEndPrefix(w: string, b: string, inClass: char -> bool)
    requires forall k :: 0 <= k < |w| ==> inClass(w[k])
    requires |b| == 0 || !inClass(b[0])
    ensures RunEnd(w + b, 0, inClass) == |w|
  {
    var s := w + b;
    assert forall k :: 0 <= k < |w| ==> s[k] == w[k];
    RunEndIs(s, 0, |w|, inClass);
  }

  predicate NotNewline(c: char) {
    c != '\n'
  }
}
