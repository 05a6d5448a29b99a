/** The handful of Python `str` operations the scripts rely on, written out with
    CPython's exact character sets so that edge cases (tabs, `\r\n`, U+2028, ...)
    behave as they do in the scripts. */
module PyStr {
  import opened Wrappers

  /** Characters for which Python's `str.isspace()` holds; `str.strip()` with no
      argument removes exactly these from both ends. */
  predicate IsSpace(c: char) {
    ('\t' <= c <= '\r') || ('\U{1c}' <= c <= ' ') || c == '\U{85}' || c == '\U{a0}'
    || c == '\U{1680}' || ('\U{2000}' <= c <= '\U{200a}') || c == '\U{2028}'
    || c == '\U{2029}' || c == '\U{202f}' || c == '\U{205f}' || c == '\U{3000}'
  }

  /** Line boundaries recognised by Python's `str.splitlines()`. */
  predicate IsLineBreak(c: char) {
    c == '\n' || c == '\r' || c == '\U{0b}' || c == '\U{0c}' || ('\U{1c}' <= c <= '\U{1e}')
    || c == '\U{85}' || c == '\U{2028}' || c == '\U{2029}'
  }

  predicate NoBreak(s: string) {
    forall c | c in s :: !IsLineBreak(c)
  }

  predicate StartsWith(s: string, p: string) {
    |p| <= |s| && s[..|p|] == p
  }

  /** The `lstrip`-style "drop the leading characters `p` holds for". */
  function DropWhile(s: string, p: char -> bool): (r: string)
    ensures |r| <= |s| && r == s[|s| - |r|..]
    ensures r == [] || !p(r[0])
    ensures forall i | 0 <= i < |s| - |r| :: p(s[i])
  {
    if |s| > 0 && p(s[0]) then
      var r := DropWhile(s[1..], p);
      assert r == s[|s| - |r|..];
      assert forall i | 1 <= i < |s| - |r| :: s[i] == s[1..][i - 1];
      r
    else s
  }

  function DropWhileEnd(s: string, p: char -> bool): (r: string)
    ensures |r| <= |s| && r == s[..|r|]
    ensures r == [] || !p(r[|r| - 1])
    ensures forall i | |r| <= i < |s| :: p(s[i])
  {
    if |s| > 0 && p(s[|s| - 1]) then DropWhileEnd(s[..|s| - 1], p) else s
  }

  /** `r` is `s` with a run of characters `p` holds for cut from each end. */
  ghost predicate CutFrom(s: string, r: string, p: char -> bool) {
    exists a, b | 0 <= a <= b <= |s| :: r == s[a..b] && CutEnds(s, a, b, p)
  }

  ghost predicate CutEnds(s: string, a: int, b: int, p: char -> bool)
    requires 0 <= a <= b <= |s|
  {
    (forall i | 0 <= i < a :: p(s[i])) && (forall i | b <= i < |s| :: p(s[i]))
  }

  /** `s.strip(chars)` where `chars` is given as a predicate. */
  function StripBy(s: string, p: char -> bool): (r: string)
    ensures r == [] || (!p(r[0]) && !p(r[|r| - 1]))
    ensures forall c | c in r :: c in s
  {
    var t := DropWhile(s, p);
    SliceChars(s, |s| - |t|, |s|);
    var r := DropWhileEnd(t, p);
    SliceChars(t, 0, |r|);
    r
  }

  /** `s.strip(chars)` only cuts characters in `chars`, and only from the ends. */
  lemma StripByCut(s: string, p: char -> bool)
    ensures CutFrom(s, StripBy(s, p), p)
  {
    var t := DropWhile(s, p);
    var r := DropWhileEnd(t, p);
    DropBothEnds(s, p, t, r);
    StripBySteps(s, p);
  }

  lemma DropBothEnds(s: string, p: char -> bool, t: string, r: string)
    requires |t| <= |s| && t == s[|s| - |t|..] && forall i | 0 <= i < |s| - |t| :: p(s[i])
    requires |r| <= |t| && r == t[..|r|] && forall i | |r| <= i < |t| :: p(t[i])
    ensures CutFrom(s, r, p)
  {
    var a := |s| - |t|;
    forall k | 0 <= k < |r| ensures r[k] == s[a + k] {
      assert r[k] == t[k];
    }
    assert r == s[a..a + |r|];
    forall i | a + |r| <= i < |s| ensures p(s[i]) {
      assert s[i] == t[i - a];
    }
    assert CutEnds(s, a, a + |r|, p);
  }

  lemma SliceChars(s: string, i: nat, j: nat)
    requires i <= j <= |s|
    ensures forall c | c in s[i..j] :: c in s
  {
    forall c | c in s[i..j] ensures c in s {
      var k :| 0 <= k < j - i && s[i..j][k] == c;
      assert s[i + k] == c;
    }
  }

  /** Cutting twice is one cut, for any wider set of characters. */
  lemma CutTwice(s: string, t: string, r: string, p: char -> bool, q: char -> bool, w: char -> bool)
    requires CutFrom(s, t, p) && CutFrom(t, r, q)
    requires forall c :: p(c) ==> w(c)
    requires forall c :: q(c) ==> w(c)
    ensures CutFrom(s, r, w)
  {
    var a1, b1 :| 0 <= a1 <= b1 <= |s| && t == s[a1..b1] && CutEnds(s, a1, b1, p);
    var a2, b2 :| 0 <= a2 <= b2 <= |t| && r == t[a2..b2] && CutEnds(t, a2, b2, q);
    CutAt(s, a1, b1, a2, b2, p, q, w);
  }

  lemma CutAt(s: string, a1: int, b1: int, a2: int, b2: int, p: char -> bool, q: char -> bool, w: char -> bool)
    requires 0 <= a1 <= b1 <= |s| && 0 <= a2 <= b2 <= b1 - a1
    requires CutEnds(s, a1, b1, p) && CutEnds(s[a1..b1], a2, b2, q)
    requires forall c :: p(c) ==> w(c)
    requires forall c :: q(c) ==> w(c)
    ensures s[a1..b1][a2..b2] == s[a1 + a2..a1 + b2]
    ensures CutEnds(s, a1 + a2, a1 + b2, w)
  {
    var t := s[a1..b1];
    forall i | 0 <= i < a1 + a2 ensures w(s[i]) {
      if i >= a1 {
        assert s[i] == t[i - a1] && q(t[i - a1]);
      } else {
        assert p(s[i]);
      }
    }
    forall i | a1 + b2 <= i < |s| ensures w(s[i]) {
      if i < b1 {
        assert s[i] == t[i - a1] && q(t[i - a1]);
      } else {
        assert p(s[i]);
      }
    }
    forall k | 0 <= k < b2 - a2 ensures t[a2..b2][k] == s[a1 + a2 + k] {
      assert t[a2..b2][k] == t[a2 + k];
    }
  }

  function Strip(s: string): (r: string)
    ensures Trimmed(r)
    ensures forall c | c in r :: c in s
  {
    StripBy(s, IsSpace)
  }

  /** `s.rstrip()` */
  function RStrip(s: string): (r: string)
    ensures StartsWith(s, r)
    ensures r == [] || !IsSpace(r[|r| - 1])
    ensures forall i | |r| <= i < |s| :: IsSpace(s[i])
  {
    DropWhileEnd(s, IsSpace)
  }

  /** `s.strip('"').strip("'")`, the quote removal every header reader applies. */
  function StripQuotes(s: string): (r: string)
    ensures r == [] || (r[0] != '\'' && r[|r| - 1] != '\'')
    ensures forall c | c in r :: c in s
  {
    StripBy(StripBy(s, c => c == '"'), c => c == '\'')
  }

  /** `strip()` only cuts white space, and only from the ends. */
  lemma StripCut(s: string)
    ensures CutFrom(s, Strip(s), IsSpace)
  {
    StripByCut(s, IsSpace);
  }

  /** The quote removal only cuts quote characters, and only from the ends. */
  lemma StripQuotesCut(s: string)
    ensures CutFrom(s, StripQuotes(s), IsQuote)
  {
    var t := StripBy(s, c => c == '"');
    StripByCut(s, c => c == '"');
    StripByCut(t, c => c == '\'');
    StripQuotesSteps(s);
    CutTwice(s, t, StripQuotes(s), c => c == '"', c => c == '\'', IsQuote);
  }

  predicate IsQuote(c: char) {
    c == '"' || c == '\''
  }

  lemma StripQuotesSteps(s: string)
    ensures StripQuotes(s) == StripBy(StripBy(s, c => c == '"'), c => c == '\'')
  {
  }

  /** Quote removal takes the double quotes off first, so a double quote inside
      single quotes stays at the ends. */
  lemma DoubleQuoteCanRemain()
    ensures StripQuotes("'\"x\"'") == "\"x\""
  {
    StripQuotesSteps("'\"x\"'");
    StripByNothing("'\"x\"'", c => c == '"');
    SingleQuotesOff();
  }

  lemma SingleQuotesOff()
    ensures StripBy("'\"x\"'", c => c == '\'') == "\"x\""
  {
    var inner := "\"x\"";
    assert "'\"x\"'" == ['\''] + (inner + ['\'']);
    StripByDrops('\'', inner + ['\''], c => c == '\'');
    StripBySteps(inner + ['\''], c => c == '\'');
    assert DropWhile(inner + ['\''], c => c == '\'') == inner + ['\''];
    DropWhileEndDrops(inner, '\'', c => c == '\'');
  }

  lemma StripBySteps(s: string, p: char -> bool)
    ensures StripBy(s, p) == DropWhileEnd(DropWhile(s, p), p)
  {
  }

  lemma DropWhileEndDrops(v: string, c: char, p: char -> bool)
    requires p(c) && v != [] && !p(v[|v| - 1])
    ensures DropWhileEnd(v + [c], p) == v
  {
    assert (v + [c])[..|v|] == v;
  }

  /** A value neither end of which is a quote character. */
  predicate Unquotable(v: string) {
    v == [] || (v[0] != '"' && v[0] != '\'' && v[|v| - 1] != '"' && v[|v| - 1] != '\'')
  }

  lemma StripByNothing(s: string, p: char -> bool)
    requires s == [] || (!p(s[0]) && !p(s[|s| - 1]))
    ensures StripBy(s, p) == s
  {
  }

  /** A value with no quote at either end is its own unquoted form. */
  lemma UnquotedStable(v: string)
    requires Unquotable(v)
    ensures StripQuotes(v) == v
  {
    StripByNothing(v, c => c == '"');
    StripByNothing(v, c => c == '\'');
  }

  /** The writers' `f'"{v}"'` reads back as `v` through `StripQuotes`. */
  lemma QuotesRoundTrip(v: string)
    requires Unquotable(v)
    ensures StripQuotes("\"" + v + "\"") == v
  {
    var q := "\"" + v + "\"";
    var isq := (c: char) => c == '"';
    assert q[1..] == v + "\"";
    if v == [] {
      assert DropWhile(q, isq) == [];
    } else {
      assert DropWhile(q[1..], isq) == v + "\"";
      assert DropWhile(q, isq) == v + "\"";
      assert (v + "\"")[..|v|] == v;
      assert DropWhileEnd(v + "\"", isq) == v;
    }
    StripByNothing(v, c => c == '\'');
  }

  /** `s.strip('"')` */
  function StripDouble(s: string): string {
    StripBy(s, c => c == '"')
  }

  /** `f'"{v}"'.strip('"')` is `v` when `v` neither starts nor ends with `"`. */
  lemma DoubleQuotesRoundTrip(v: string)
    requires v == [] || (v[0] != '"' && v[|v| - 1] != '"')
    ensures StripDouble("\"" + v + "\"") == v
  {
    var q := "\"" + v + "\"";
    var isq := (c: char) => c == '"';
    assert q[1..] == v + "\"";
    if v == [] {
      assert DropWhile(q, isq) == [];
    } else {
      assert DropWhile(q[1..], isq) == v + "\"";
      assert DropWhile(q, isq) == v + "\"";
      assert (v + "\"")[..|v|] == v;
      assert DropWhileEnd(v + "\"", isq) == v;
    }
  }

  /** Neither end is whitespace: what `strip()` leaves and leaves alone. */
  predicate Trimmed(s: string) {
    s == [] || (!IsSpace(s[0]) && !IsSpace(s[|s| - 1]))
  }

  lemma StripOfTrimmed(s: string)
    requires Trimmed(s)
    ensures Strip(s) == s
  {
  }

  /** A value written as `key: value` reads back as `value` when it is already trimmed. */
  lemma StripLeadingSpace(v: string)
    requires Trimmed(v)
    ensures Strip(" " + v) == v
  {
    StripDropsLeadingSpace(v);
    StripByNothing(v, IsSpace);
  }

  /** A leading blank never survives `strip()`. */
  lemma StripDropsLeadingSpace(v: string)
    ensures Strip(" " + v) == Strip(v)
  {
    StripByDrops(' ', v, IsSpace);
  }

  lemma StripByDrops(c: char, v: string, p: char -> bool)
    requires p(c)
    ensures StripBy([c] + v, p) == StripBy(v, p)
  {
    assert ([c] + v)[1..] == v;
    assert DropWhile([c] + v, p) == DropWhile(v, p);
  }

  /** First index of `c` in `s`, or `|s|` when absent (Python's `s.find(c)` with -1 as `|s|`). */
  function IndexOf(s: string, c: char): (i: nat)
    ensures i <= |s|
    ensures i < |s| ==> s[i] == c
    ensures forall j | 0 <= j < i :: s[j] != c
    ensures i == |s| <==> c !in s
  {
    if |s| == 0 then 0 else if s[0] == c then 0 else 1 + IndexOf(s[1..], c)
  }

  /** Last index of `c` in `s` (Python's `s.rfind(c)`). */
  function LastIndexOf(s: string, c: char): (r: Option<nat>)
    ensures r.None? <==> c !in s
    ensures r.Some? ==> r.value < |s| && s[r.value] == c
    ensures r.Some? ==> forall j | r.value < j < |s| :: s[j] != c
  {
    if |s| == 0 then None
    else if s[|s| - 1] == c then Some(|s| - 1)
    else
      assert forall j | 0 <= j < |s| - 1 :: s[..|s| - 1][j] == s[j];
      LastIndexOf(s[..|s| - 1], c)
  }

  /** `pat` occurs in `s` starting at index `i`. */
  predicate Occurs(s: string, pat: string, i: int) {
    0 <= i && i + |pat| <= |s| && s[i..i + |pat|] == pat
  }

  /** Python's `s.find(pat, start)`: the leftmost occurrence at or after `start`. */
  function FindFrom(s: string, pat: string, start: nat): (r: Option<nat>)
    decreases |s| - start
    ensures r.Some? ==> start <= r.value && Occurs(s, pat, r.value)
    ensures r.Some? ==> forall k | start <= k < r.value :: !Occurs(s, pat, k)
    ensures r.None? <==> forall k | start <= k :: !Occurs(s, pat, k)
  {
    if start + |pat| > |s| then None
    else if s[start..start + |pat|] == pat then
      assert Occurs(s, pat, start);
      Some(start)
    else FindFrom(s, pat, start + 1)
  }

  /** Python's `pat in s`. */
  predicate Contains(s: string, pat: string) {
    FindFrom(s, pat, 0).Some?
  }

  /** Index of the first line boundary, or `|s|`. */
  function FirstBreak(s: string): (i: nat)
    ensures i <= |s|
    ensures i < |s| ==> IsLineBreak(s[i])
    ensures forall j | 0 <= j < i :: !IsLineBreak(s[j])
  {
    if |s| == 0 then 0 else if IsLineBreak(s[0]) then 0 else 1 + FirstBreak(s[1..])
  }

  /** Python's `s.splitlines()`: `\r\n` counts as one boundary, a final boundary
      does not open an empty last line, and `""` has no lines at all. */
  function SplitLines(s: string): (r: seq<string>)
    decreases |s|
    ensures forall i | 0 <= i < |r| :: NoBreak(r[i])
  {
    if |s| == 0 then []
    else
      var i := FirstBreak(s);
      assert NoBreak(s[..i]) by {
        forall c | c in s[..i] ensures !IsLineBreak(c) {
          var j :| 0 <= j < i && s[..i][j] == c;
        }
      }
      if i == |s| then [s]
      else
        var next := if s[i] == '\r' && i + 1 < |s| && s[i + 1] == '\n' then i + 2 else i + 1;
        [s[..i]] + SplitLines(s[next..])
  }

  /** Python's `"\n".join(lines)`. */
  function JoinLines(lines: seq<string>): (r: string)
    ensures |lines| == 1 ==> r == lines[0]
  {
    if |lines| == 0 then ""
    else if |lines| == 1 then lines[0]
    else lines[0] + "\n" + JoinLines(lines[1..])
  }

  /** `lines` without one trailing empty line, the only thing `splitlines()` cannot give back. */
  function DropTrailingEmpty(lines: seq<string>): seq<string> {
    if |lines| > 0 && lines[|lines| - 1] == "" then lines[..|lines| - 1] else lines
  }

  /** A boundary-free line followed by a boundary (or by nothing) is one whole line. */
  lemma FirstBreakAfterLine(l: string, t: string)
    requires NoBreak(l)
    requires t == [] || IsLineBreak(t[0])
    ensures FirstBreak(l + t) == |l|
  {
    var s := l + t;
    assert forall j | 0 <= j < |l| :: !IsLineBreak(s[j]) by {
      forall j | 0 <= j < |l| ensures !IsLineBreak(s[j]) {
        assert s[j] == l[j] && l[j] in l;
      }
    }
    if |t| > 0 {
      assert IsLineBreak(s[|l|]);
    }
  }

  /** `splitlines()` undoes `"\n".join` for lines without boundaries, except that one
      trailing empty line is absorbed by the final newline. */
  lemma {:induction false} SplitJoin(lines: seq<string>)
    requires forall i | 0 <= i < |lines| :: NoBreak(lines[i])
    ensures SplitLines(JoinLines(lines)) == DropTrailingEmpty(lines)
    decreases |lines|
  {
    if |lines| == 0 {
    } else if |lines| == 1 {
      if lines[0] != "" {
        FirstBreakAfterLine(lines[0], []);
        assert lines[0] + [] == lines[0];
      }
    } else {
      SplitJoin(lines[1..]);
      SplitJoinStep(lines[0], lines[1..]);
      assert lines == [lines[0]] + lines[1..];
    }
  }

  /** One step of `SplitJoin`: splitting `l + "\n" + rest` peels off `l`. */
  lemma SplitJoinStep(l: string, rest: seq<string>)
    requires NoBreak(l) && |rest| > 0
    requires SplitLines(JoinLines(rest)) == DropTrailingEmpty(rest)
    ensures SplitLines(JoinLines([l] + rest)) == DropTrailingEmpty([l] + rest)
  {
    SplitPeel(l, rest);
    DropTrailingCons(l, rest);
  }

  lemma SplitPeel(l: string, rest: seq<string>)
    requires NoBreak(l) && |rest| > 0
    ensures SplitLines(JoinLines([l] + rest)) == [l] + SplitLines(JoinLines(rest))
  {
    JoinLinesCons(l, rest);
    LinePeel(l, JoinLines(rest));
  }

  lemma JoinLinesCons(l: string, rest: seq<string>)
    requires |rest| > 0
    ensures JoinLines([l] + rest) == l + "\n" + JoinLines(rest)
  {
    assert ([l] + rest)[1..] == rest;
  }

  /** A boundary-free line and a line feed in front of `tail` split off as one line. */
  lemma LinePeel(l: string, tail: string)
    requires NoBreak(l)
    ensures SplitLines(l + "\n" + tail) == [l] + SplitLines(tail)
  {
    var s := l + "\n" + tail;
    forall j | 0 <= j < |l| ensures !IsLineBreak(s[j]) {
      assert s[j] == l[j] && l[j] in l;
    }
    assert s[|l|] == '\n';
    FirstBreakIs(s, |l|);
    assert s[..|l|] == l;
    assert s[|l| + 1..] == tail;
    SplitLinesAtFeed(s);
  }

  lemma FirstBreakIs(s: string, i: nat)
    requires i < |s| && IsLineBreak(s[i])
    requires forall j | 0 <= j < i :: !IsLineBreak(s[j])
    ensures FirstBreak(s) == i
  {
  }

  /** One unfolding of `SplitLines` at a line feed. */
  lemma SplitLinesAtFeed(s: string)
    requires FirstBreak(s) < |s| && s[FirstBreak(s)] == '\n'
    ensures SplitLines(s) == [s[..FirstBreak(s)]] + SplitLines(s[FirstBreak(s) + 1..])
  {
  }

  lemma DropTrailingCons(l: string, rest: seq<string>)
    requires |rest| > 0
    ensures DropTrailingEmpty([l] + rest) == [l] + DropTrailingEmpty(rest)
  {
    var all := [l] + rest;
    assert all[|all| - 1] == rest[|rest| - 1];
    if rest[|rest| - 1] == "" {
      assert all[..|all| - 1] == [l] + rest[..|rest| - 1];
    }
  }

  /** Python's `s.split(sep)` for a one-character separator. */
  function SplitOn(s: string, sep: char): (r: seq<string>)
    decreases |s|
    ensures |r| >= 1
    ensures forall i | 0 <= i < |r| :: sep !in r[i]
  {
    var i := IndexOf(s, sep);
    assert sep !in s[..i];
    if i == |s| then [s] else [s[..i]] + SplitOn(s[i + 1..], sep)
  }

  /** Python's `sep.join(parts)` for a one-character separator. */
  function JoinOn(parts: seq<string>, sep: char): string {
    if |parts| == 0 then ""
    else if |parts| == 1 then parts[0]
    else parts[0] + [sep] + JoinOn(parts[1..], sep)
  }

  lemma {:induction false} JoinSplitOn(s: string, sep: char)
    ensures JoinOn(SplitOn(s, sep), sep) == s
    decreases |s|
  {
    var i := IndexOf(s, sep);
    if i < |s| {
      var rest := SplitOn(s[i + 1..], sep);
      JoinSplitOn(s[i + 1..], sep);
      assert SplitOn(s, sep) == [s[..i]] + rest;
      assert ([s[..i]] + rest)[1..] == rest;
      assert JoinOn([s[..i]] + rest, sep) == s[..i] + [sep] + JoinOn(rest, sep);
      assert s == s[..i] + [sep] + s[i + 1..];
    }
  }

  lemma {:induction false} SplitOnConcat(a: string, b: string, sep: char)
    ensures SplitOn(a + [sep] + b, sep) == SplitOn(a, sep) + SplitOn(b, sep)
    decreases |a|
  {
    if sep !in a {
      SplitOnFirst(a, b, sep);
    } else {
      var i := IndexOf(a, sep);
      var rest := a[i + 1..];
      SplitOnLater(a, b, sep);
      SplitOnAt(a, sep);
      SplitOnConcat(rest, b, sep);
      ConsAssoc(a[..i], SplitOn(rest, sep), SplitOn(b, sep));
    }
  }

  lemma ConsAssoc<T>(x: T, p: seq<T>, q: seq<T>)
    ensures [x] + (p + q) == ([x] + p) + q
  {
  }

  /** The separator after a part without one is the first. */
  lemma SplitOnFirst(a: string, b: string, sep: char)
    requires sep !in a
    ensures SplitOn(a + [sep] + b, sep) == [a] + SplitOn(b, sep)
    ensures SplitOn(a, sep) == [a]
  {
    var s := a + [sep] + b;
    assert forall j | 0 <= j < |a| :: s[j] == a[j];
    IndexOfAt(s, sep, |a|);
    assert s[..|a|] == a && s[|a| + 1..] == b;
    SplitOnAt(s, sep);
  }

  /** A part that holds the separator is cut at its own first one. */
  lemma SplitOnLater(a: string, b: string, sep: char)
    requires sep in a
    ensures var i := IndexOf(a, sep);
      SplitOn(a + [sep] + b, sep) == [a[..i]] + SplitOn(a[i + 1..] + [sep] + b, sep)
  {
    var s := a + [sep] + b;
    var i := IndexOf(a, sep);
    assert forall j | 0 <= j < |a| :: s[j] == a[j];
    IndexOfAt(s, sep, i);
    assert s[..i] == a[..i];
    assert s[i + 1..] == a[i + 1..] + [sep] + b;
    calc {
      SplitOn(s, sep);
      { SplitOnAt(s, sep); }
      [s[..i]] + SplitOn(s[i + 1..], sep);
      [a[..i]] + SplitOn(a[i + 1..] + [sep] + b, sep);
    }
  }

  /** The first separator of `s` is at `i` when `i` holds one and no earlier index does. */
  lemma IndexOfAt(s: string, sep: char, i: nat)
    requires i < |s| && s[i] == sep
    requires forall j | 0 <= j < i :: s[j] != sep
    ensures IndexOf(s, sep) == i
  {
  }

  /** One unfolding of `SplitOn` at a separator. */
  lemma SplitOnAt(s: string, sep: char)
    requires sep in s
    ensures SplitOn(s, sep) == [s[..IndexOf(s, sep)]] + SplitOn(s[IndexOf(s, sep) + 1..], sep)
  {
  }

  /** Splitting a join gives back the parts, when no part holds the separator. */
  lemma {:induction false} SplitOnJoin(parts: seq<string>, sep: char)
    requires |parts| >= 1
    requires forall i | 0 <= i < |parts| :: sep !in parts[i]
    ensures SplitOn(JoinOn(parts, sep), sep) == parts
    decreases |parts|
  {
    var j := JoinOn(parts[1..], sep);
    SplitOnFirst(parts[0], j, sep);
    if |parts| > 1 {
      SplitOnJoin(parts[1..], sep);
      assert JoinOn(parts, sep) == parts[0] + [sep] + j;
      assert [parts[0]] + parts[1..] == parts;
    }
  }

  /** `line.split(":", 1)` on a line that holds a colon. */
  function SplitColon(line: string): (r: (string, string))
    requires ':' in line
    ensures line == r.0 + ":" + r.1
    ensures ':' !in r.0
  {
    var i := IndexOf(line, ':');
    assert line == line[..i] + ":" + line[i + 1..];
    (line[..i], line[i + 1..])
  }

  /** `s.lower()` restricted to ASCII letters; the scripts only compare the result with
      ASCII words, which no non-ASCII character lowers into. */
  function LowerAscii(s: string): string {
    seq(|s|, i requires 0 <= i < |s| => LowerChar(s[i]))
  }

  function LowerChar(c: char): char {
    if 'A' <= c <= 'Z' then (c as int + 32) as char else c
  }

  /** A word of lower-case letters and underscores. */
  predicate IsWord(w: string) {
    forall i | 0 <= i < |w| :: 'a' <= w[i] <= 'z' || w[i] == '_'
  }

  /** Lowering maps every character on its own: upper-case ASCII letters to lower
      case, everything else to itself. */
  lemma LowerAsciiChars(s: string)
    ensures |LowerAscii(s)| == |s|
    ensures forall i | 0 <= i < |s| ::
      LowerAscii(s)[i] == if 'A' <= s[i] <= 'Z' then (s[i] as int + 32) as char else s[i]
  {
  }

  /** Lowering a lower-case word gives it back. */
  lemma LowerWord(w: string)
    requires IsWord(w)
    ensures LowerAscii(w) == w
  {
    LowerAsciiChars(w);
  }

  /** Python's `s.replace(pat, repl)`: non-overlapping occurrences, scanned left to right. */
  function ReplaceAll(s: string, pat: string, repl: string): (r: string)
    requires |pat| > 0
    decreases |s|
    ensures !Contains(s, pat) ==> r == s
  {
    if |s| < |pat| then s
    else if s[..|pat|] == pat then repl + ReplaceAll(s[|pat|..], pat, repl)
    else
      NotContainedTail(s, pat);
      [s[0]] + ReplaceAll(s[1..], pat, repl)
  }

  /** The leftmost occurrence is replaced first and the scan resumes after it,
      so occurrences never overlap. */
  lemma ReplaceLeftmost(s: string, pat: string, repl: string, k: nat)
    requires |pat| > 0 && Occurs(s, pat, k)
    requires forall j | 0 <= j < k :: !Occurs(s, pat, j)
    ensures ReplaceAll(s, pat, repl) == s[..k] + repl + ReplaceAll(s[k + |pat|..], pat, repl)
  {
    ReplaceUnmatched(s, pat, repl, k);
    var u := s[k..];
    assert u[..|pat|] == pat;
    assert u[|pat|..] == s[k + |pat|..];
    var rest := ReplaceAll(s[k + |pat|..], pat, repl);
    assert ReplaceAll(u, pat, repl) == repl + rest;
    JoinAssoc(s[..k], repl, rest);
  }

  lemma JoinAssoc(a: string, b: string, c: string)
    ensures a + (b + c) == a + b + c
  {
  }

  /** A prefix where no occurrence starts is copied unchanged. */
  lemma {:induction false} ReplaceUnmatched(s: string, pat: string, repl: string, k: nat)
    requires |pat| > 0 && k + |pat| <= |s|
    requires forall j | 0 <= j < k :: !Occurs(s, pat, j)
    ensures ReplaceAll(s, pat, repl) == s[..k] + ReplaceAll(s[k..], pat, repl)
    decreases k
  {
    if k > 0 {
      var t := s[1..];
      assert !Occurs(s, pat, 0);
      forall j | 0 <= j < k - 1 ensures !Occurs(t, pat, j) {
        assert !Occurs(s, pat, j + 1);
        assert t[j..j + |pat|] == s[j + 1..j + 1 + |pat|];
      }
      ReplaceUnmatched(t, pat, repl, k - 1);
      ReplaceSkips(s, pat, repl);
      assert t[k - 1..] == s[k..];
      ConsPrefix(s, k, ReplaceAll(s[k..], pat, repl));
    } else {
      assert s[k..] == s;
    }
  }

  lemma ConsPrefix(s: string, k: nat, x: string)
    requires 0 < k <= |s|
    ensures [s[0]] + (s[1..][..k - 1] + x) == s[..k] + x
  {
    assert [s[0]] + s[1..][..k - 1] == s[..k];
  }

  /** One step of the scan when no occurrence starts at the front. */
  lemma ReplaceSkips(s: string, pat: string, repl: string)
    requires |pat| > 0 && |pat| <= |s| && !Occurs(s, pat, 0)
    ensures ReplaceAll(s, pat, repl) == [s[0]] + ReplaceAll(s[1..], pat, repl)
  {
  }

  lemma NotContainedTail(s: string, pat: string)
    requires |s| > 0
    ensures !Contains(s, pat) ==> !Contains(s[1..], pat)
  {
    if !Contains(s, pat) && Contains(s[1..], pat) {
      var k := FindFrom(s[1..], pat, 0).value;
      assert s[1..][k..k + |pat|] == s[k + 1..k + 1 + |pat|];
      assert Occurs(s, pat, k + 1);
    }
  }
}
