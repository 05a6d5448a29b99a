/** The memory tool's command line (cli.py): setting a dotted field (`define`),
    adding to a slice's body (`remember`) and the context windows `search` shows. */
module Cli {
  import opened Wrappers
  import opened PyStr
  import opened Memory

  // ---------------------------------------------------------------------------
  // define
  // ---------------------------------------------------------------------------

  /** The value `define` stores for its text argument: the words true and false
      in any case become booleans, text that opens a list or a mapping goes through
      the JSON parser (`json`, None when json.loads raises), the rest stays text. */
  function ParseValue(value: string, json: string -> Option<Data>): (r: Data)
    ensures LowerAscii(value) == "true" ==> r == Flag(true)
    ensures LowerAscii(value) == "false" ==> r == Flag(false)
    ensures (StartsWith(value, "[") || StartsWith(value, "{")) ==> r == json(value).GetOr(Str(value))
    ensures r != Str(value) ==>
      LowerAscii(value) == "true" || LowerAscii(value) == "false" || json(value).Some?
  {
    assert |value| > 0 ==> LowerAscii(value)[0] == LowerChar(value[0]);
    if LowerAscii(value) == "true" then Flag(true)
    else if LowerAscii(value) == "false" then Flag(false)
    else if StartsWith(value, "[") || StartsWith(value, "{") then json(value).GetOr(Str(value))
    else Str(value)
  }

  /** The segments of a path reach something that is not a mapping before the last
      one is set, where set_nested_field raises a TypeError. */
  predicate Blocked(data: Data, parts: seq<string>)
    requires |parts| >= 1
    decreases |parts|
  {
    !data.Dict? || (|parts| > 1 && parts[0] in data.fields && Blocked(data.fields[parts[0]], parts[1..]))
  }

  /** set_nested_field over the segments of the path: missing intermediate mappings
      are created, the last segment is set. */
  function SetNested(data: Data, parts: seq<string>, value: Data): (r: Option<Data>)
    requires |parts| >= 1
    ensures r.None? <==> Blocked(data, parts)
    ensures r.Some? ==> Reach(r.value, parts) == Some(value)
    ensures r.Some? ==> r.value.Dict? && data.Dict? && r.value.fields.Keys == data.fields.Keys + {parts[0]}
    decreases |parts|
  {
    if !data.Dict? then None
    else if |parts| == 1 then Some(Dict(data.fields[parts[0] := value]))
    else
      var child := if parts[0] in data.fields then data.fields[parts[0]] else Dict(map[]);
      match SetNested(child, parts[1..], value)
      case None => None
      case Some(c) => Some(Dict(data.fields[parts[0] := c]))
  }

  /** Two paths part ways at some segment both have. */
  predicate Diverge(p: seq<string>, q: seq<string>) {
    exists i | 0 <= i < |p| && i < |q| :: p[i] != q[i]
  }

  /** Setting a field leaves every path that parts ways with it as it was. */
  lemma {:induction false} SetNestedFrames(data: Data, parts: seq<string>, value: Data, q: seq<string>)
    requires |parts| >= 1 && SetNested(data, parts, value).Some?
    requires Diverge(parts, q)
    ensures Reach(SetNested(data, parts, value).value, q) == Reach(data, q)
    decreases |parts|
  {
    var r := SetNested(data, parts, value).value;
    var i :| 0 <= i < |parts| && i < |q| && parts[i] != q[i];
    if i > 0 {
      assert parts[0] == q[0] || Diverge(parts, q);
      if parts[0] == q[0] {
        assert |parts| > 1;
        assert parts[1..][i - 1] != q[1..][i - 1];
        var child := if parts[0] in data.fields then data.fields[parts[0]] else Dict(map[]);
        SetNestedFrames(child, parts[1..], value, q[1..]);
        if parts[0] !in data.fields {
          EmptyReach(q[1..]);
        }
      }
    }
  }

  /** Nothing lies under a fresh mapping. */
  lemma EmptyReach(q: seq<string>)
    requires |q| >= 1
    ensures Reach(Dict(map[]), q) == None
  {
  }

  const ValidBodyTypes := ["markdown", "jsonl", "none", "code", "conversation", "text", "yaml"]
  const ValidKinds := ["context", "pointer"]
  const ValidWriteModes := ["append", "replace", "supersede"]
  const ValidOverflowModes := ["split", "summarize", "archive", "error"]

  /** The values allowed for the four enumerated fields, or None for a free field. */
  function Allowed(field: string): (r: Option<seq<string>>)
    ensures r.Some? ==> forall i | 0 <= i < |r.value| :: IsWord(r.value[i]) && r.value[i] != "true" && r.value[i] != "false"
  {
    if field == "tt.body.type" then Some(ValidBodyTypes)
    else if field == "tt.kind" then Some(ValidKinds)
    else if field == "tt.contract.write" then Some(ValidWriteModes)
    else if field == "tt.contract.overflow" then Some(ValidOverflowModes)
    else None
  }

  datatype DefineError = InvalidValue(field: string) | NotAMapping

  /** cmd_define on a loaded header. */
  function Define(fm: Data, field: string, value: string, json: string -> Option<Data>): (r: Result<Data, DefineError>)
    ensures Allowed(field).Some? && value !in Allowed(field).value ==> r == Failure(InvalidValue(field))
    ensures r.Success? ==> Reach(r.value, SplitOn(field, '.')) == Some(ParseValue(value, json))
    ensures r.Failure? && (Allowed(field).None? || value in Allowed(field).value) ==> r == Failure(NotAMapping)
  {
    var allowed := Allowed(field);
    if allowed.Some? && value !in allowed.value then Failure(InvalidValue(field))
    else match SetNested(fm, SplitOn(field, '.'), ParseValue(value, json))
      case None => Failure(NotAMapping)
      case Some(d) => Success(d)
  }

  /** An enumerated field only ever receives one of its listed words, stored as text. */
  lemma DefineKeepsEnums(fm: Data, field: string, value: string, json: string -> Option<Data>)
    requires Allowed(field).Some?
    requires Define(fm, field, value, json).Success?
    ensures value in Allowed(field).value
    ensures Reach(Define(fm, field, value, json).value, SplitOn(field, '.')) == Some(Str(value))
  {
    var k :| 0 <= k < |Allowed(field).value| && Allowed(field).value[k] == value;
    PlainWord(value, json);
  }

  /** A lower-case word other than true and false is stored as text. */
  lemma PlainWord(value: string, json: string -> Option<Data>)
    requires IsWord(value) && value != "true" && value != "false"
    ensures ParseValue(value, json) == Str(value)
  {
    LowerWord(value);
    assert |value| > 0 ==> value[0] != '[' && value[0] != '{';
  }

  /** The words true and false become booleans whatever their case. */
  lemma BooleanWords(value: string, json: string -> Option<Data>)
    ensures LowerAscii(value) == "true" ==> ParseValue(value, json) == Flag(true)
    ensures LowerAscii(value) == "false" ==> ParseValue(value, json) == Flag(false)
    ensures ParseValue(value, json).Flag? ==>
      LowerAscii(value) == "true" || LowerAscii(value) == "false" || json(value).Some?
  {
  }

  // ---------------------------------------------------------------------------
  // remember
  // ---------------------------------------------------------------------------

  /** Append mode: the body without trailing white space, a blank line, the content. */
  function Append(body: string, content: string): (r: string)
    ensures |r| >= |content| + 2 && r[|r| - |content|..] == content
    ensures var k := |r| - |content| - 2;
      k <= |body| && r[..k] == body[..k] && r[k..k + 2] == "\n\n"
      && (forall i | k <= i < |body| :: IsSpace(body[i]))
      && (k == 0 || !IsSpace(body[k - 1]))
  {
    var kept := RStrip(body);
    var r := kept + "\n\n" + content;
    assert r[..|kept|] == kept && r[|kept|..|kept| + 2] == "\n\n";
    r
  }

  datatype RememberError = TextNotFound

  /** cmd_remember on a body: replace mode when `previous` is non-empty, append mode otherwise. */
  function Remember(body: string, content: string, previous: string): (r: Result<string, RememberError>)
    ensures previous != "" && !Contains(body, previous) ==> r == Failure(TextNotFound)
    ensures r.Failure? ==> previous != "" && !Contains(body, previous)
    ensures previous == "" ==> r == Success(Append(body, content))
    ensures previous != "" && Contains(body, previous) ==>
      r.Success? &&
      forall k | Occurs(body, previous, k) && (forall j | 0 <= j < k :: !Occurs(body, previous, j)) ::
        r.value == body[..k] + content + ReplaceAll(body[k + |previous|..], previous, content)
  {
    if previous != "" then
      if !Contains(body, previous) then Failure(TextNotFound)
      else
        ReplaceAtFirst(body, previous, content);
        Success(ReplaceAll(body, previous, content))
    else Success(Append(body, content))
  }

  lemma ReplaceAtFirst(body: string, previous: string, content: string)
    requires previous != ""
    ensures forall k | Occurs(body, previous, k) && (forall j | 0 <= j < k :: !Occurs(body, previous, j)) ::
      ReplaceAll(body, previous, content) == body[..k] + content + ReplaceAll(body[k + |previous|..], previous, content)
  {
    forall k | Occurs(body, previous, k) && (forall j | 0 <= j < k :: !Occurs(body, previous, j)) {
      ReplaceLeftmost(body, previous, content, k);
    }
  }

  /** Replacing a text by itself changes nothing. */
  lemma {:induction false} ReplaceSelf(s: string, pat: string)
    requires |pat| > 0
    ensures ReplaceAll(s, pat, pat) == s
    decreases |s|
  {
    if |s| >= |pat| {
      if s[..|pat|] == pat {
        ReplaceSelf(s[|pat|..], pat);
        assert pat + s[|pat|..] == s;
      } else {
        ReplaceSelf(s[1..], pat);
        assert [s[0]] + s[1..] == s;
      }
    }
  }

  /** Revising a text into itself leaves the body as it was. */
  lemma RememberSame(body: string, previous: string)
    requires previous != "" && Contains(body, previous)
    ensures Remember(body, previous, previous) == Success(body)
  {
    ReplaceSelf(body, previous);
  }

  // ---------------------------------------------------------------------------
  // search context windows
  // ---------------------------------------------------------------------------

  /** `getattr(args, 'context', 2) or 2`: a missing or zero context is two lines. */
  function EffectiveContext(c: Option<int>): (r: int)
    ensures r != 0
    ensures c.Some? && c.value != 0 ==> r == c.value
  {
    if c.None? || c.value == 0 then 2 else c.value
  }

  function Max(a: int, b: int): int { if a >= b then a else b }
  function Min(a: int, b: int): int { if a <= b then a else b }

  /** Python's reading of a slice bound on a sequence of length `n`: a negative
      bound counts from the end, and either kind is clipped to 0..n. */
  function SliceIndex(k: int, n: nat): (r: nat)
    ensures r <= n
  {
    if k < 0 then Max(0, n + k) else Min(k, n)
  }

  /** `lines[start:end]`, with Python's slice semantics. */
  function Slice(lines: seq<string>, start: int, end: int): (r: seq<string>)
    ensures SliceIndex(start, |lines|) + |r| <= |lines|
    ensures forall k | 0 <= k < |r| :: r[k] == lines[SliceIndex(start, |lines|) + k]
    ensures 0 <= start <= end <= |lines| ==> r == lines[start..end]
    ensures 0 <= end <= start ==> r == []
    ensures end < 0 && 0 <= start < |lines| + end ==> r == lines[start..|lines| + end]
  {
    var a := SliceIndex(start, |lines|);
    var b := SliceIndex(end, |lines|);
    if a < b then lines[a..b] else []
  }

  /** The chunk around line `i`: `c` lines either side, clipped to the body. */
  function Window(lines: seq<string>, i: nat, c: int): string
    requires i < |lines|
  {
    JoinOn(Slice(lines, Max(0, i - c), Min(|lines|, i + c + 1)), '\n')
  }

  /** The chunks of the matching lines before `k`, in line order, repeats included. */
  function Windows(lines: seq<string>, matches: string -> bool, c: int, k: nat): (r: seq<string>)
    requires k <= |lines|
    ensures forall w :: w in r <==> exists i | 0 <= i < k :: matches(lines[i]) && w == Window(lines, i, c)
  {
    if k == 0 then []
    else
      var before := Windows(lines, matches, c, k - 1);
      var r := before + (if matches(lines[k - 1]) then [Window(lines, k - 1, c)] else []);
      assert forall w | w in r :: w in before || (matches(lines[k - 1]) && w == Window(lines, k - 1, c));
      r
  }

  /** The first occurrence of each element, in order. */
  function Dedup(xs: seq<string>): (r: seq<string>)
    ensures forall x :: x in r <==> x in xs
    ensures forall i, j | 0 <= i < j < |r| :: r[i] != r[j]
  {
    if |xs| == 0 then []
    else
      var init := Dedup(xs[..|xs| - 1]);
      var last := xs[|xs| - 1];
      assert forall x | x in xs :: x in xs[..|xs| - 1] || x == last;
      if last in init then init else init + [last]
  }

  /** The chunks cmd_search prints for one matching slice. `matches` is
      `pattern.search` on one line. */
  method ContextChunks(body: string, matches: string -> bool, context: Option<int>) returns (chunks: seq<string>)
    ensures chunks == Dedup(Windows(SplitOn(body, '\n'), matches, EffectiveContext(context), |SplitOn(body, '\n')|))
  {
    var lines := SplitOn(body, '\n');
    var c := EffectiveContext(context);
    chunks := [];
    var i := 0;
    while i < |lines|
      invariant 0 <= i <= |lines|
      invariant chunks == Dedup(Windows(lines, matches, c, i))
    {
      ChunkStep(lines, matches, c, i, chunks);
      if matches(lines[i]) {
        var chunk := Window(lines, i, c);
        if chunk !in chunks {
          chunks := chunks + [chunk];
        }
      }
      i := i + 1;
    }
  }

  /** One turn of the search loop: the chunk of a matching line is printed unless it
      already was. */
  lemma ChunkStep(lines: seq<string>, matches: string -> bool, c: int, i: nat, chunks: seq<string>)
    requires i < |lines| && chunks == Dedup(Windows(lines, matches, c, i))
    ensures Dedup(Windows(lines, matches, c, i + 1))
         == if matches(lines[i]) && Window(lines, i, c) !in chunks then chunks + [Window(lines, i, c)] else chunks
  {
    var before := Windows(lines, matches, c, i);
    WindowsStep(lines, matches, c, i);
    if matches(lines[i]) {
      DedupStep(before, Window(lines, i, c));
      assert Windows(lines, matches, c, i + 1) == before + [Window(lines, i, c)];
    } else {
      assert Windows(lines, matches, c, i + 1) == before;
    }
  }

  lemma WindowsStep(lines: seq<string>, matches: string -> bool, c: int, i: nat)
    requires i < |lines|
    ensures Windows(lines, matches, c, i + 1)
      == Windows(lines, matches, c, i) + (if matches(lines[i]) then [Window(lines, i, c)] else [])
  {
  }

  lemma DedupStep(xs: seq<string>, x: string)
    ensures Dedup(xs + [x]) == if x in Dedup(xs) then Dedup(xs) else Dedup(xs) + [x]
  {
    assert (xs + [x])[..|xs|] == xs;
  }

  /** Every printed chunk is the window of a matching line, every matching line's
      window is printed, and no chunk is printed twice. */
  lemma ChunksCoverMatches(lines: seq<string>, matches: string -> bool, c: int)
    ensures var chunks := Dedup(Windows(lines, matches, c, |lines|));
      (forall w :: w in chunks <==> exists i | 0 <= i < |lines| :: matches(lines[i]) && w == Window(lines, i, c))
      && (forall i, j | 0 <= i < j < |chunks| :: chunks[i] != chunks[j])
  {
  }

  /** With a non-negative context every chunk holds its matching line. A negative
      context never does: its chunk is a run of lines starting past the match, empty
      while `i + c + 1` is not negative, and otherwise, because Python reads that
      negative end from the back, whatever lies between the two bounds. */
  lemma WindowHoldsLine(lines: seq<string>, i: nat, c: int)
    requires i < |lines|
    ensures c >= 0 ==> lines[i] in Slice(lines, Max(0, i - c), Min(|lines|, i + c + 1))
    ensures c < 0 ==> var s := Slice(lines, Max(0, i - c), Min(|lines|, i + c + 1));
      forall k | 0 <= k < |s| :: s[k] == lines[i - c + k]
    ensures c < 0 && i + c + 1 >= 0 ==> Window(lines, i, c) == ""
    ensures c < 0 && i + c + 1 < 0 && i - c < |lines| + i + c + 1 ==>
      Slice(lines, Max(0, i - c), Min(|lines|, i + c + 1)) == lines[i - c..|lines| + i + c + 1]
  {
    if c >= 0 {
      var s := Slice(lines, Max(0, i - c), Min(|lines|, i + c + 1));
      assert s[i - Max(0, i - c)] == lines[i];
    }
  }
}
