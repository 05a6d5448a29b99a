/** The `---`-delimited header every constitutional record carries: how the scripts
    split a record into header and body, read `key: value` lines into an
    insertion-ordered dictionary, and write a dictionary back. */
module Frontmatter {
  import opened Wrappers
  import opened PyStr

  /** The SHA-256 hex digest of a UTF-8 text: a parameter of every hash comparison,
      so that no property depends on what the digest computes. */
  type Digest = string -> string

  const Open: string := "---\n"
  const Close: string := "\n---\n"

  /** A record cut at its delimiters; `prefix` is `Open` when a header was found and
      `""` otherwise, in which case the whole text is the body. */
  datatype Split = Split(prefix: string, front: string, body: string)

  predicate HasHeader(text: string) {
    StartsWith(text, Open) && FindFrom(text, Close, 4).Some?
  }

  /** The split of promote_article: an opening `---` line, then the first closing
      delimiter found from offset 4 on. */
  function ParseFrontmatter(text: string): (r: Split)
    ensures r.prefix == Open <==> HasHeader(text)
    ensures r.prefix == "" ==> r.front == "" && r.body == text
    ensures r.prefix == Open ==> text == Open + r.front + Close + r.body
    ensures r.prefix == Open ==> forall k | 4 <= k < 4 + |r.front| :: !Occurs(text, Close, k)
  {
    if !StartsWith(text, Open) then Split("", "", text)
    else
      match FindFrom(text, Close, 4)
      case None => Split("", "", text)
      case Some(k) =>
        assert text == text[..4] + text[4..k] + text[k..k + 5] + text[k + 5..];
        Split(Open, text[4..k], text[k + 5..])
  }

  /** The hashed content of a record: its body with any header removed, trimmed. */
  function ExtractBody(text: string): string {
    if StartsWith(text, Open) then
      match FindFrom(text, Close, 4)
      case Some(k) => Strip(text[k + 5..])
      case None => Strip(text)
    else Strip(text)
  }

  /** extract_body_without_frontmatter cuts where promote_article's parser does: the
      trimmed text after the first closing delimiter, or the whole text trimmed. */
  lemma ExtractBodyIsBody(text: string)
    ensures Trimmed(ExtractBody(text))
    ensures ExtractBody(text) == Strip(ParseFrontmatter(text).body)
    ensures !HasHeader(text) ==> ExtractBody(text) == Strip(text)
  {
  }

  // ---------------------------------------------------------------------------
  // Insertion-ordered dictionaries
  // ---------------------------------------------------------------------------

  datatype Field = Field(key: string, value: string)

  function Keys(fs: seq<Field>): (r: seq<string>)
    ensures |r| == |fs|
    ensures forall i | 0 <= i < |fs| :: r[i] == fs[i].key
  {
    if |fs| == 0 then [] else [fs[0].key] + Keys(fs[1..])
  }

  predicate Distinct(xs: seq<string>) {
    forall i, j | 0 <= i < j < |xs| :: xs[i] != xs[j]
  }

  predicate UniqueKeys(fs: seq<Field>) {
    Distinct(Keys(fs))
  }

  /** `d.get(k)` */
  function Lookup(fs: seq<Field>, k: string): (r: Option<string>)
    ensures r.Some? ==> Field(k, r.value) in fs
  {
    if |fs| == 0 then None
    else if fs[0].key == k then Some(fs[0].value)
    else Lookup(fs[1..], k)
  }

  /** A key is present exactly when it is one of the dictionary's keys. */
  lemma {:induction false} LookupKeys(fs: seq<Field>, k: string)
    ensures Lookup(fs, k).None? <==> k !in Keys(fs)
  {
    if |fs| > 0 {
      assert Keys(fs) == [fs[0].key] + Keys(fs[1..]);
      LookupKeys(fs[1..], k);
    }
  }

  lemma {:induction false} LookupMember(fs: seq<Field>, f: Field)
    requires UniqueKeys(fs) && f in fs
    ensures Lookup(fs, f.key) == Some(f.value)
    decreases |fs|
  {
    if fs[0] != f {
      var i :| 0 < i < |fs| && fs[i] == f;
      assert Keys(fs)[0] != Keys(fs)[i];
      assert fs[1..][i - 1] == f;
      UniqueTail(fs);
      LookupMember(fs[1..], f);
    }
  }

  lemma UniqueTail(fs: seq<Field>)
    requires UniqueKeys(fs) && |fs| > 0
    ensures UniqueKeys(fs[1..])
  {
    assert forall a | 0 <= a < |fs| - 1 :: Keys(fs[1..])[a] == Keys(fs)[a + 1];
  }

  /** `d[k] = v`: an existing key keeps its place, a new one goes last. */
  function Put(fs: seq<Field>, k: string, v: string): (r: seq<Field>)
    ensures Lookup(r, k) == Some(v)
    ensures forall j | j != k :: Lookup(r, j) == Lookup(fs, j)
  {
    if |fs| == 0 then [Field(k, v)]
    else if fs[0].key == k then [Field(k, v)] + fs[1..]
    else
      var rest := Put(fs[1..], k, v);
      assert ([fs[0]] + rest)[1..] == rest;
      [fs[0]] + rest
  }

  lemma PutKeys(fs: seq<Field>, k: string, v: string)
    ensures Keys(Put(fs, k, v)) == if k in Keys(fs) then Keys(fs) else Keys(fs) + [k]
  {
    LookupKeys(fs, k);
    if k in Keys(fs) {
      PutInPlace(fs, k, v);
    } else {
      PutAppend(fs, k, v);
    }
  }

  /** Setting a key the dictionary holds keeps every entry's key where it was. */
  lemma {:induction false} PutInPlace(fs: seq<Field>, k: string, v: string)
    requires Lookup(fs, k).Some?
    ensures |Put(fs, k, v)| == |fs|
    ensures forall i | 0 <= i < |fs| :: Put(fs, k, v)[i].key == fs[i].key
    decreases |fs|
  {
    if fs[0].key != k {
      PutInPlace(fs[1..], k, v);
    }
  }

  lemma {:induction false} PutMembers(fs: seq<Field>, k: string, v: string)
    ensures forall f | f in Put(fs, k, v) :: f in fs || f == Field(k, v)
  {
    if |fs| > 0 && fs[0].key != k {
      PutMembers(fs[1..], k, v);
    }
  }

  lemma PutUnique(fs: seq<Field>, k: string, v: string)
    requires UniqueKeys(fs)
    ensures UniqueKeys(Put(fs, k, v))
  {
    PutKeys(fs, k, v);
    var ks := Keys(fs);
    if k !in ks {
      assert forall i | 0 <= i < |ks| :: (ks + [k])[i] == ks[i];
    }
  }

  /** `xs` without the members of `ks` (Python's `[x for x in xs if x not in ks]`). */
  function WithoutAll(xs: seq<string>, ks: set<string>): (r: seq<string>)
    ensures forall x | x in r :: x in xs && x !in ks
    ensures forall x | x in xs && x !in ks :: x in r
    ensures Distinct(xs) ==> Distinct(r)
  {
    if |xs| == 0 then []
    else if xs[0] in ks then WithoutAll(xs[1..], ks)
    else
      assert xs[0] !in xs[1..] ==> xs[0] !in WithoutAll(xs[1..], ks);
      [xs[0]] + WithoutAll(xs[1..], ks)
  }

  /** `d.pop(k, None)` for every `k` in `ks`. */
  function RemoveKeys(fs: seq<Field>, ks: set<string>): (r: seq<Field>)
    ensures forall j :: Lookup(r, j) == if j in ks then None else Lookup(fs, j)
  {
    if |fs| == 0 then []
    else
      var rest := RemoveKeys(fs[1..], ks);
      if fs[0].key in ks then rest else [fs[0]] + rest
  }

  /** Removal keeps the remaining entries in their order. */
  lemma {:induction false} RemoveKeysShape(fs: seq<Field>, ks: set<string>)
    ensures Keys(RemoveKeys(fs, ks)) == WithoutAll(Keys(fs), ks)
    ensures forall f | f in RemoveKeys(fs, ks) :: f in fs
    ensures UniqueKeys(fs) ==> UniqueKeys(RemoveKeys(fs, ks))
  {
    RemoveKeysKeys(fs, ks);
    RemoveKeysSubset(fs, ks);
  }

  lemma {:induction false} RemoveKeysKeys(fs: seq<Field>, ks: set<string>)
    ensures Keys(RemoveKeys(fs, ks)) == WithoutAll(Keys(fs), ks)
  {
    if |fs| > 0 {
      var rest := RemoveKeys(fs[1..], ks);
      RemoveKeysKeys(fs[1..], ks);
      assert Keys(fs) == [fs[0].key] + Keys(fs[1..]);
      if fs[0].key !in ks {
        assert Keys([fs[0]] + rest) == [fs[0].key] + Keys(rest);
      }
    }
  }

  lemma {:induction false} RemoveKeysSubset(fs: seq<Field>, ks: set<string>)
    ensures forall f | f in RemoveKeys(fs, ks) :: f in fs
  {
    if |fs| > 0 {
      RemoveKeysSubset(fs[1..], ks);
    }
  }

  /** Setting a key to the value it already holds changes nothing. */
  lemma {:induction false} PutExisting(fs: seq<Field>, k: string, v: string)
    requires Lookup(fs, k) == Some(v)
    ensures Put(fs, k, v) == fs
  {
    if fs[0].key != k {
      PutExisting(fs[1..], k, v);
    }
  }

  /** Removing keys the dictionary does not hold changes nothing. */
  lemma {:induction false} RemoveAbsent(fs: seq<Field>, ks: set<string>)
    requires forall k | k in ks :: Lookup(fs, k).None?
    ensures RemoveKeys(fs, ks) == fs
  {
    if |fs| > 0 {
      assert fs[0].key !in ks;
      assert forall k | k in ks :: Lookup(fs[1..], k).None?;
      RemoveAbsent(fs[1..], ks);
    }
  }

  /** Filtering out names a list does not hold gives the list back. */
  lemma {:induction false} WithoutAbsent(xs: seq<string>, ks: set<string>)
    requires forall k | k in ks :: k !in xs
    ensures WithoutAll(xs, ks) == xs
  {
    if |xs| > 0 {
      assert xs[0] !in ks;
      WithoutAbsent(xs[1..], ks);
    }
  }

  /** Every key and value a header can hold once it has been read: a key has no
      colon, neither part has surrounding whitespace or a line boundary, and keys
      are distinct. */
  predicate CleanKey(k: string) {
    ':' !in k && Trimmed(k) && NoBreak(k)
  }

  predicate CleanValue(v: string) {
    Trimmed(v) && NoBreak(v)
  }

  predicate Clean(fs: seq<Field>) {
    UniqueKeys(fs) && forall f | f in fs :: CleanKey(f.key) && CleanValue(f.value)
  }

  /** A word of lower-case letters and underscores is a clean key and a clean value. */
  lemma WordClean(w: string)
    requires IsWord(w)
    ensures CleanKey(w) && CleanValue(w)
  {
    assert forall c | c in w :: 'a' <= c <= 'z' || c == '_';
  }

  /** Setting a clean key to a clean value keeps a header clean. */
  lemma PutClean(fs: seq<Field>, k: string, v: string)
    requires Clean(fs) && CleanKey(k) && CleanValue(v)
    ensures Clean(Put(fs, k, v))
  {
    PutUnique(fs, k, v);
    PutMembers(fs, k, v);
  }

  /** Removing keys keeps a header clean. */
  lemma RemoveClean(fs: seq<Field>, ks: set<string>)
    requires Clean(fs)
    ensures Clean(RemoveKeys(fs, ks))
  {
    RemoveKeysShape(fs, ks);
  }

  // ---------------------------------------------------------------------------
  // Reading
  // ---------------------------------------------------------------------------

  /** The key a header line defines, if it holds a colon. */
  function LineKey(line: string): (r: Option<string>)
    ensures r.Some? ==> ':' !in r.value && Trimmed(r.value)
    ensures r.Some? && NoBreak(line) ==> CleanKey(r.value)
    ensures r.Some? <==> ':' in line
  {
    if ':' in line then Some(Strip(SplitColon(line).0)) else None
  }

  function LineValue(line: string): (r: string)
    requires ':' in line
    ensures NoBreak(line) ==> CleanValue(r)
  {
    Strip(SplitColon(line).1)
  }

  /** One iteration of parse_map's loop. */
  function ParseLine(fs: seq<Field>, line: string): seq<Field> {
    match LineKey(line)
    case None => fs
    case Some(k) => Put(fs, k, LineValue(line))
  }

  function ParseLines(lines: seq<string>): seq<Field> {
    if |lines| == 0 then [] else ParseLine(ParseLines(lines[..|lines| - 1]), lines[|lines| - 1])
  }

  lemma {:induction false} ParseLinesClean(lines: seq<string>)
    requires forall i | 0 <= i < |lines| :: NoBreak(lines[i])
    ensures Clean(ParseLines(lines))
    decreases |lines|
  {
    if |lines| > 0 {
      var init, line := lines[..|lines| - 1], lines[|lines| - 1];
      assert forall i | 0 <= i < |init| :: init[i] == lines[i];
      ParseLinesClean(init);
      var fs := ParseLines(init);
      if LineKey(line).Some? {
        var k := LineKey(line).value;
        PutUnique(fs, k, LineValue(line));
        PutMembers(fs, k, LineValue(line));
      }
    }
  }

  /** parse_map: every line with a colon defines its stripped key, later lines win. */
  function ParseMap(front: string): (r: seq<Field>)
    ensures Clean(r)
  {
    ParseLinesClean(SplitLines(front));
    ParseLines(SplitLines(front))
  }

  /** The value the last line defining `k` gives it: the reference reading of a header. */
  function LastValue(lines: seq<string>, k: string): Option<string> {
    if |lines| == 0 then None
    else
      var line := lines[|lines| - 1];
      if LineKey(line) == Some(k) then Some(LineValue(line))
      else LastValue(lines[..|lines| - 1], k)
  }

  /** Reading a header is "the last definition of each key wins". */
  lemma {:induction false} ParseLinesLookup(lines: seq<string>, k: string)
    ensures Lookup(ParseLines(lines), k) == LastValue(lines, k)
    decreases |lines|
  {
    if |lines| > 0 {
      ParseLinesLookup(lines[..|lines| - 1], k);
    }
  }

  /** The header of a record, when it has one. */
  function ReadHeader(text: string): (r: Option<seq<Field>>)
    ensures r.Some? <==> HasHeader(text)
    ensures r.Some? ==> Clean(r.value)
  {
    var sp := ParseFrontmatter(text);
    if sp.prefix == Open then Some(ParseMap(sp.front)) else None
  }

  function Body(text: string): string {
    ParseFrontmatter(text).body
  }

  /** The readers of verify_kernel_hash and the stop hook additionally strip quotes
      from every value; an absent header reads as an empty dictionary. */
  function Unquote(fs: seq<Field>): (r: seq<Field>)
    ensures Keys(r) == Keys(fs)
    ensures forall k :: Lookup(r, k) == if Lookup(fs, k).Some? then Some(StripQuotes(Lookup(fs, k).value)) else None
  {
    if |fs| == 0 then []
    else
      var rest := Unquote(fs[1..]);
      assert Keys([Field(fs[0].key, StripQuotes(fs[0].value))] + rest) == [fs[0].key] + Keys(rest);
      [Field(fs[0].key, StripQuotes(fs[0].value))] + rest
  }

  function ReadQuoted(text: string): (r: seq<Field>)
    ensures HasHeader(text) ==> r == Unquote(ReadHeader(text).value)
    ensures !HasHeader(text) ==> r == []
  {
    match ReadHeader(text)
    case Some(fs) => Unquote(fs)
    case None => []
  }

  // ---------------------------------------------------------------------------
  // Writing
  // ---------------------------------------------------------------------------

  function Line(f: Field): string {
    f.key + ": " + f.value
  }

  function Lines(fs: seq<Field>): (r: seq<string>)
    ensures |r| == |fs|
    ensures forall i | 0 <= i < |fs| :: r[i] == Line(fs[i])
  {
    seq(|fs|, i requires 0 <= i < |fs| => Line(fs[i]))
  }

  /** A record written with header `fs` and body `body`. */
  function Render(fs: seq<Field>, body: string): string {
    Open + JoinLines(Lines(fs)) + Close + body
  }

  /** The values at the keys of `order` that the dictionary holds, in that order. */
  function Select(fs: seq<Field>, order: seq<string>): (r: seq<Field>)
    ensures forall f | f in r :: f in fs && f.key in order
  {
    if |order| == 0 then []
    else
      var first := match Lookup(fs, order[0])
        case Some(v) => [Field(order[0], v)]
        case None => [];
      first + Select(fs, order[1..])
  }

  /** The entries whose keys `order` does not mention, in insertion order. */
  function Extras(fs: seq<Field>, order: seq<string>): (r: seq<Field>)
    ensures forall f | f in r :: f in fs && f.key !in order
  {
    if |fs| == 0 then []
    else (if fs[0].key in order then [] else [fs[0]]) + Extras(fs[1..], order)
  }

  /** The header lines a writer emits: the keys of `order` first, then, for the
      writers that keep them, all remaining keys. */
  function Emit(fs: seq<Field>, order: seq<string>, extras: bool): (r: seq<Field>)
    ensures forall f | f in r :: f in fs
  {
    Select(fs, order) + (if extras then Extras(fs, order) else [])
  }

  // ---------------------------------------------------------------------------
  // Writing then reading gives the header back
  // ---------------------------------------------------------------------------

  /** Splitting `a + ":" + b` at its first colon gives `a` back when `a` has none. */
  lemma SplitColonOf(a: string, b: string)
    requires ':' !in a
    ensures SplitColon(a + ":" + b) == (a, b)
  {
    var line := a + ":" + b;
    assert line[|a|] == ':';
    assert forall j | 0 <= j < |a| :: line[j] != ':' by {
      forall j | 0 <= j < |a| ensures line[j] != ':' {
        assert line[j] == a[j] && a[j] in a;
      }
    }
    assert line[..|a|] == a && line[|a| + 1..] == b;
  }

  lemma LineRoundTrip(f: Field)
    requires CleanKey(f.key) && CleanValue(f.value)
    ensures LineKey(Line(f)) == Some(f.key)
    ensures LineValue(Line(f)) == f.value
  {
    assert Line(f) == f.key + ":" + (" " + f.value);
    SplitColonOf(f.key, " " + f.value);
    StripOfTrimmed(f.key);
    StripLeadingSpace(f.value);
  }

  lemma LineShape(f: Field)
    requires CleanKey(f.key) && CleanValue(f.value)
    ensures NoBreak(Line(f)) && Line(f) != "---" && Line(f) != ""
  {
    assert Line(f)[|f.key|] == ':';
  }

  lemma {:induction false} PutAppend(fs: seq<Field>, k: string, v: string)
    requires forall i | 0 <= i < |fs| :: fs[i].key != k
    ensures Put(fs, k, v) == fs + [Field(k, v)]
    decreases |fs|
  {
    if |fs| > 0 {
      var rest := fs[1..];
      assert forall i | 0 <= i < |rest| :: rest[i].key != k by {
        forall i | 0 <= i < |rest| ensures rest[i].key != k {
          assert rest[i] == fs[i + 1];
        }
      }
      assert fs[0].key != k;
      calc {
        Put(fs, k, v);
        [fs[0]] + Put(rest, k, v);
        { PutAppend(rest, k, v); }
        [fs[0]] + (rest + [Field(k, v)]);
        { assert [fs[0]] + rest == fs; }
        fs + [Field(k, v)];
      }
    }
  }

  lemma CleanPrefix(fs: seq<Field>)
    requires Clean(fs) && |fs| > 0
    ensures Clean(fs[..|fs| - 1])
    ensures forall i | 0 <= i < |fs| - 1 :: fs[i].key != fs[|fs| - 1].key
    ensures fs == fs[..|fs| - 1] + [fs[|fs| - 1]]
  {
    var n := |fs| - 1;
    UniquePrefix(fs);
    assert forall i | 0 <= i < n :: Keys(fs)[i] != Keys(fs)[n];
    assert forall f | f in fs[..n] :: f in fs;
  }

  lemma UniquePrefix(fs: seq<Field>)
    requires UniqueKeys(fs) && |fs| > 0
    ensures UniqueKeys(fs[..|fs| - 1])
  {
    var n := |fs| - 1;
    assert forall i | 0 <= i < n :: Keys(fs[..n])[i] == Keys(fs)[i];
  }

  /** Reading the lines a clean header is written as gives the header back. */
  lemma {:induction false} ParseLinesOfLines(fs: seq<Field>)
    requires Clean(fs)
    ensures ParseLines(Lines(fs)) == fs
    decreases |fs|
  {
    if |fs| > 0 {
      var n := |fs| - 1;
      CleanPrefix(fs);
      assert fs[n] in fs;
      calc {
        ParseLines(Lines(fs));
        { LinesPrefix(fs); }
        ParseLine(ParseLines(Lines(fs[..n])), Line(fs[n]));
        { ParseLinesOfLines(fs[..n]); }
        ParseLine(fs[..n], Line(fs[n]));
        { ParseLineFresh(fs[..n], fs[n]); }
        fs[..n] + [fs[n]];
      }
    }
  }

  /** The last line of a rendered header is parsed after the others. */
  lemma LinesPrefix(fs: seq<Field>)
    requires |fs| > 0
    ensures ParseLines(Lines(fs)) == ParseLine(ParseLines(Lines(fs[..|fs| - 1])), Line(fs[|fs| - 1]))
  {
    var n := |fs| - 1;
    assert Lines(fs)[..n] == Lines(fs[..n]);
  }

  /** Parsing the line of a clean entry whose key is new appends the entry. */
  lemma ParseLineFresh(fs: seq<Field>, f: Field)
    requires CleanKey(f.key) && CleanValue(f.value)
    requires forall i | 0 <= i < |fs| :: fs[i].key != f.key
    ensures ParseLine(fs, Line(f)) == fs + [f]
  {
    LineRoundTrip(f);
    PutAppend(fs, f.key, f.value);
  }

  /** `pat` at `j` in `x` is `pat` at `j - d` in `x[d..]`. */
  lemma OccursShift(x: string, pat: string, j: int, d: int)
    requires 0 <= d <= j <= |x|
    ensures Occurs(x, pat, j) == Occurs(x[d..], pat, j - d)
  {
    if j + |pat| <= |x| {
      assert x[d..][j - d..j - d + |pat|] == x[j..j + |pat|];
    }
  }

  /** A line other than `---` cannot start a closing delimiter. */
  lemma LineNotDelimiter(l: string, z: string)
    requires NoBreak(l) && l != "---"
    ensures !Occurs("\n" + l + "\n" + z, Close, 0)
  {
    var x := "\n" + l + "\n" + z;
    if |x| >= 5 {
      if |l| < 3 {
        assert x[1 + |l|] == '\n';
        assert x[..5][1 + |l|] != Close[1 + |l|];
      } else if |l| == 3 {
        assert x[1..4] == l;
        assert x[..5][1..4] != Close[1..4];
      } else {
        assert x[4] == l[3] && l[3] in l;
        assert x[..5][4] != Close[4];
      }
    }
  }

  /** No closing delimiter starts inside a line. */
  lemma InsideLine(l: string, z: string, j: int)
    requires NoBreak(l) && 1 <= j <= |l|
    ensures !Occurs("\n" + l + "\n" + z, Close, j)
  {
    var x := "\n" + l + "\n" + z;
    assert x[j] == l[j - 1] && l[j - 1] in l;
    assert j + 5 > |x| || x[j..j + 5][0] != Close[0];
  }

  lemma JoinCons(lines: seq<string>, y: string)
    requires |lines| > 1
    ensures "\n" + JoinLines(lines) + "\n" + y == "\n" + lines[0] + ("\n" + JoinLines(lines[1..]) + "\n" + y)
  {
  }

  /** Inside a run of lines none of which is `---`, no closing delimiter starts. */
  lemma {:induction false} NoEarlyClose(lines: seq<string>, y: string)
    requires forall i | 0 <= i < |lines| :: NoBreak(lines[i]) && lines[i] != "---"
    ensures forall j | 0 <= j <= |JoinLines(lines)| :: !Occurs("\n" + JoinLines(lines) + "\n" + y, Close, j)
    decreases |lines|
  {
    var x := "\n" + JoinLines(lines) + "\n" + y;
    if |lines| == 0 {
      assert |x| < 5 || x[..5][1] != Close[1];
    } else if |lines| == 1 {
      forall j | 0 <= j <= |lines[0]| ensures !Occurs(x, Close, j) {
        if j == 0 {
          LineNotDelimiter(lines[0], y);
        } else {
          InsideLine(lines[0], y, j);
        }
      }
    } else {
      NoEarlyClose(lines[1..], y);
      NoEarlyCloseStep(lines, y);
    }
  }

  /** A first line that is not `---` adds no early close to the lines after it. */
  lemma NoEarlyCloseStep(lines: seq<string>, y: string)
    requires |lines| > 1 && NoBreak(lines[0]) && lines[0] != "---"
    requires forall j | 0 <= j <= |JoinLines(lines[1..])| :: !Occurs("\n" + JoinLines(lines[1..]) + "\n" + y, Close, j)
    ensures forall j | 0 <= j <= |JoinLines(lines)| :: !Occurs("\n" + JoinLines(lines) + "\n" + y, Close, j)
  {
    var rest := JoinLines(lines[1..]) + "\n" + y;
    JoinCons(lines, y);
    assert "\n" + JoinLines(lines[1..]) + "\n" + y == "\n" + rest;
    FirstLineNoClose(lines[0], rest, |JoinLines(lines[1..])|);
  }

  /** The same step on plain strings: a line, then text with no close in its first
      `n + 1` positions. */
  lemma FirstLineNoClose(l: string, rest: string, n: nat)
    requires NoBreak(l) && l != "---" && n <= |rest|
    requires forall k | 0 <= k <= n :: !Occurs("\n" + rest, Close, k)
    ensures forall j | 0 <= j <= |l| + 1 + n :: !Occurs("\n" + l + ("\n" + rest), Close, j)
  {
    var x := "\n" + l + ("\n" + rest);
    assert x == "\n" + l + "\n" + rest;
    assert x[|l| + 1..] == "\n" + rest;
    forall j | 0 <= j <= |l| + 1 + n ensures !Occurs(x, Close, j) {
      if j == 0 {
        LineNotDelimiter(l, rest);
      } else if j <= |l| {
        InsideLine(l, rest, j);
      } else {
        OccursShift(x, Close, j, |l| + 1);
      }
    }
  }

  /** `find` returns the first occurrence at or after `start`. */
  lemma FindFromFirst(t: string, pat: string, start: nat, k: nat)
    requires start <= k && Occurs(t, pat, k)
    requires forall j | start <= j < k :: !Occurs(t, pat, j)
    ensures FindFrom(t, pat, start) == Some(k)
  {
  }

  lemma NoCloseInFront(lines: seq<string>, body: string)
    requires forall i | 0 <= i < |lines| :: NoBreak(lines[i]) && lines[i] != "---"
    ensures forall k | 4 <= k < 4 + |JoinLines(lines)| :: !Occurs(Open + JoinLines(lines) + Close + body, Close, k)
  {
    var J := JoinLines(lines);
    var t := Open + J + Close + body;
    assert t[3..] == "\n" + J + "\n" + ("---\n" + body);
    NoEarlyClose(lines, "---\n" + body);
    forall k | 4 <= k < 4 + |J| ensures !Occurs(t, Close, k) {
      OccursShift(t, Close, k, 3);
    }
  }

  lemma Slices4(a: string, b: string, c: string, d: string)
    ensures (a + b + c + d)[..|a|] == a
    ensures (a + b + c + d)[|a|..|a| + |b|] == b
    ensures (a + b + c + d)[|a| + |b|..|a| + |b| + |c|] == c
    ensures (a + b + c + d)[|a| + |b| + |c|..] == d
  {
  }

  /** A header whose lines avoid `---` closes exactly where it was written to close. */
  lemma DelimiterAfterLines(lines: seq<string>, body: string)
    requires forall i | 0 <= i < |lines| :: NoBreak(lines[i]) && lines[i] != "---"
    ensures ParseFrontmatter(Open + JoinLines(lines) + Close + body) == Split(Open, JoinLines(lines), body)
  {
    var J := JoinLines(lines);
    var t := Open + J + Close + body;
    NoCloseInFront(lines, body);
    Slices4(Open, J, Close, body);
    FindFromFirst(t, Close, 4, 4 + |J|);
  }

  /** Writing a clean header and reading the record back gives the header and the
      body unchanged. */
  lemma RenderRoundTrip(fs: seq<Field>, body: string)
    requires Clean(fs)
    ensures ParseFrontmatter(Render(fs, body)) == Split(Open, JoinLines(Lines(fs)), body)
    ensures ReadHeader(Render(fs, body)) == Some(fs)
    ensures Body(Render(fs, body)) == body
  {
    var lines := Lines(fs);
    forall i | 0 <= i < |lines| ensures NoBreak(lines[i]) && lines[i] != "---" && lines[i] != "" {
      assert fs[i] in fs;
      LineShape(fs[i]);
    }
    DelimiterAfterLines(lines, body);
    SplitJoin(lines);
    ParseLinesOfLines(fs);
  }

  /** The hashed content of a record does not depend on its header. */
  lemma ExtractBodyIgnoresHeader(fs: seq<Field>, body: string)
    requires Clean(fs)
    ensures ExtractBody(Render(fs, body)) == Strip(body)
  {
    RenderRoundTrip(fs, body);
    ExtractBodyIsBody(Render(fs, body));
  }

  // ---------------------------------------------------------------------------
  // What the writers emit
  // ---------------------------------------------------------------------------

  /** `Lookup` on a concatenation looks in the first part first. */
  lemma {:induction false} LookupAppend(a: seq<Field>, b: seq<Field>, k: string)
    ensures Lookup(a + b, k) == if Lookup(a, k).Some? then Lookup(a, k) else Lookup(b, k)
    decreases |a|
  {
    if |a| == 0 {
      assert a + b == b;
    } else {
      assert (a + b)[1..] == a[1..] + b;
      LookupAppend(a[1..], b, k);
    }
  }

  lemma {:induction false} SelectLookup(fs: seq<Field>, order: seq<string>, k: string)
    ensures Lookup(Select(fs, order), k) == if k in order then Lookup(fs, k) else None
    decreases |order|
  {
    if |order| > 0 {
      var first := match Lookup(fs, order[0])
        case Some(v) => [Field(order[0], v)]
        case None => [];
      LookupAppend(first, Select(fs, order[1..]), k);
      SelectLookup(fs, order[1..], k);
    }
  }

  lemma {:induction false} ExtrasLookup(fs: seq<Field>, order: seq<string>, k: string)
    ensures Lookup(Extras(fs, order), k) == if k in order then None else Lookup(fs, k)
    decreases |fs|
  {
    if |fs| > 0 {
      var first := if fs[0].key in order then [] else [fs[0]];
      LookupAppend(first, Extras(fs[1..], order), k);
      ExtrasLookup(fs[1..], order, k);
    }
  }

  /** A writer emits the dictionary's value for every key it writes, and nothing else. */
  lemma EmitLookup(fs: seq<Field>, order: seq<string>, extras: bool, k: string)
    ensures Lookup(Emit(fs, order, extras), k) == if k in order || extras then Lookup(fs, k) else None
  {
    var tail := if extras then Extras(fs, order) else [];
    LookupAppend(Select(fs, order), tail, k);
    SelectLookup(fs, order, k);
    ExtrasLookup(fs, order, k);
  }

  /** A writer that keeps the remaining keys reads back as the dictionary it was given. */
  lemma EmitKeepsAll(fs: seq<Field>, order: seq<string>)
    ensures forall k :: Lookup(Emit(fs, order, true), k) == Lookup(fs, k)
  {
    forall k ensures Lookup(Emit(fs, order, true), k) == Lookup(fs, k) {
      EmitLookup(fs, order, true, k);
    }
  }

  lemma {:induction false} KeysAppend(a: seq<Field>, b: seq<Field>)
    ensures Keys(a + b) == Keys(a) + Keys(b)
  {
  }

  lemma UniqueAppend(a: seq<Field>, b: seq<Field>)
    requires UniqueKeys(a) && UniqueKeys(b)
    requires forall f, g | f in a && g in b :: f.key != g.key
    ensures UniqueKeys(a + b)
  {
    KeysAppend(a, b);
    var ks := Keys(a + b);
    forall i, j | 0 <= i < j < |ks| ensures ks[i] != ks[j] {
      if i < |a| && j >= |a| {
        assert (a + b)[i] in a && (a + b)[j] in b;
      }
    }
  }

  lemma {:induction false} SelectUnique(fs: seq<Field>, order: seq<string>)
    requires Distinct(order)
    ensures UniqueKeys(Select(fs, order))
    decreases |order|
  {
    if |order| > 0 {
      var first := match Lookup(fs, order[0])
        case Some(v) => [Field(order[0], v)]
        case None => [];
      assert Distinct(order[1..]);
      SelectUnique(fs, order[1..]);
      assert order[0] !in order[1..];
      UniqueAppend(first, Select(fs, order[1..]));
    }
  }

  lemma {:induction false} ExtrasUnique(fs: seq<Field>, order: seq<string>)
    requires UniqueKeys(fs)
    ensures UniqueKeys(Extras(fs, order))
    decreases |fs|
  {
    if |fs| > 0 {
      var first := if fs[0].key in order then [] else [fs[0]];
      assert Keys(fs) == [fs[0].key] + Keys(fs[1..]);
      assert UniqueKeys(fs[1..]);
      ExtrasUnique(fs[1..], order);
      forall g | g in fs[1..] ensures g.key != fs[0].key {
        var j :| 0 <= j < |fs[1..]| && fs[1..][j] == g;
        assert Keys(fs)[j + 1] == g.key;
      }
      UniqueAppend(first, Extras(fs[1..], order));
    }
  }

  /** Whatever a writer emits from a header it read is itself a clean header. */
  lemma EmitClean(fs: seq<Field>, order: seq<string>, extras: bool)
    requires Clean(fs) && Distinct(order)
    ensures Clean(Emit(fs, order, extras))
  {
    SelectUnique(fs, order);
    var tail := if extras then Extras(fs, order) else [];
    if extras {
      ExtrasUnique(fs, order);
    }
    UniqueAppend(Select(fs, order), tail);
  }

  lemma {:induction false} SelectCongruence(a: seq<Field>, b: seq<Field>, order: seq<string>)
    requires forall k | k in order :: Lookup(a, k) == Lookup(b, k)
    ensures Select(a, order) == Select(b, order)
    decreases |order|
  {
    if |order| > 0 {
      SelectCongruence(a, b, order[1..]);
    }
  }

  /** Emitting a dictionary in its own key order writes it unchanged. */
  lemma {:induction false} SelectOwnKeys(fs: seq<Field>)
    requires UniqueKeys(fs)
    ensures Select(fs, Keys(fs)) == fs
    decreases |fs|
  {
    if |fs| > 0 {
      var rest := fs[1..];
      assert Keys(fs) == [fs[0].key] + Keys(rest);
      assert Keys(fs)[1..] == Keys(rest);
      assert UniqueKeys(rest);
      forall k | k in Keys(rest) ensures Lookup(fs, k) == Lookup(rest, k) {
        assert k != fs[0].key;
      }
      SelectCongruence(fs, rest, Keys(rest));
      SelectOwnKeys(rest);
    }
  }

  lemma {:induction false} SelectSkipsAbsent(fs: seq<Field>, order: seq<string>, ks: set<string>)
    requires forall k | k in ks :: Lookup(fs, k).None?
    ensures Select(fs, order) == Select(fs, WithoutAll(order, ks))
    decreases |order|
  {
    if |order| > 0 {
      SelectSkipsAbsent(fs, order[1..], ks);
    }
  }

  lemma {:induction false} ExtrasNone(fs: seq<Field>, order: seq<string>)
    requires forall f | f in fs :: f.key in order
    ensures Extras(fs, order) == []
    decreases |fs|
  {
    if |fs| > 0 {
      ExtrasNone(fs[1..], order);
    }
  }

  /** Deleting keys from a header and writing it back in its old key order (with or
      without the deleted keys still listed) leaves every other entry in place. */
  lemma EmitAfterRemove(fs: seq<Field>, ks: set<string>, extras: bool)
    requires UniqueKeys(fs)
    ensures Emit(RemoveKeys(fs, ks), Keys(fs), extras) == RemoveKeys(fs, ks)
    ensures Emit(RemoveKeys(fs, ks), WithoutAll(Keys(fs), ks), extras) == RemoveKeys(fs, ks)
  {
    var m := RemoveKeys(fs, ks);
    RemoveKeysShape(fs, ks);
    SelectOwnKeys(m);
    SelectSkipsAbsent(m, Keys(fs), ks);
    KeysListed(m, WithoutAll(Keys(fs), ks));
    forall f | f in m ensures f.key in Keys(fs) {
      assert f.key in WithoutAll(Keys(fs), ks);
    }
    ExtrasNone(m, Keys(fs));
    ExtrasNone(m, WithoutAll(Keys(fs), ks));
  }

  /** Every key of a dictionary whose key order is `ks` is in `ks`. */
  lemma KeysListed(fs: seq<Field>, ks: seq<string>)
    requires Keys(fs) == ks
    ensures forall f | f in fs :: f.key in ks
  {
    forall f | f in fs ensures f.key in ks {
      var i :| 0 <= i < |fs| && fs[i] == f;
      assert ks[i] == f.key;
    }
  }

  /** A writer given the dictionary's own key order writes it unchanged. */
  lemma EmitOwnKeys(fs: seq<Field>, extras: bool)
    requires UniqueKeys(fs)
    ensures Emit(fs, Keys(fs), extras) == fs
  {
    SelectOwnKeys(fs);
    forall f | f in fs ensures f.key in Keys(fs) {
      var i :| 0 <= i < |fs| && fs[i] == f;
      assert Keys(fs)[i] == f.key;
    }
    ExtrasNone(fs, Keys(fs));
  }

  /** A writer whose order lists every key of the dictionary in the dictionary's own
      order, plus keys it does not hold, writes the dictionary unchanged. */
  lemma EmitCovering(fs: seq<Field>, order: seq<string>, absent: set<string>, extras: bool)
    requires UniqueKeys(fs)
    requires forall k | k in absent :: Lookup(fs, k).None?
    requires WithoutAll(order, absent) == Keys(fs)
    ensures Emit(fs, order, extras) == fs
  {
    SelectSkipsAbsent(fs, order, absent);
    SelectOwnKeys(fs);
    KeysListed(fs, Keys(fs));
    forall f | f in fs ensures f.key in order {
      assert f.key in WithoutAll(order, absent);
    }
    ExtrasNone(fs, order);
  }

  // ---------------------------------------------------------------------------
  // The hooks' single-field editor
  // ---------------------------------------------------------------------------

  /** One line of write_frontmatter_field: a line defining `field` is replaced by
      the new definition, or dropped when there is no new value. */
  function EditLine(line: string, field: string, value: Option<string>): seq<string> {
    if LineKey(line) == Some(field) then
      match value
      case Some(v) => [field + ": " + v]
      case None => []
    else [line]
  }

  function EditLines(lines: seq<string>, field: string, value: Option<string>): seq<string> {
    if |lines| == 0 then []
    else EditLines(lines[..|lines| - 1], field, value) + EditLine(lines[|lines| - 1], field, value)
  }

  predicate Defines(lines: seq<string>, field: string) {
    exists i | 0 <= i < |lines| :: LineKey(lines[i]) == Some(field)
  }

  /** The new header lines: edited in place, the field appended when it was absent. */
  function SetFieldLines(lines: seq<string>, field: string, value: Option<string>): seq<string> {
    EditLines(lines, field, value)
      + (if !Defines(lines, field) && value.Some? then [field + ": " + value.value] else [])
  }

  /** write_frontmatter_field: sets (`Some`) or removes (`None`) one header field,
      leaving every other line, the delimiters and the body as they were; a record
      without a header is left alone. */
  function WriteField(text: string, field: string, value: Option<string>): (r: string)
    ensures !HasHeader(text) ==> r == text
  {
    if !StartsWith(text, Open) then text
    else
      match FindFrom(text, Close, 4)
      case None => text
      case Some(k) => Open + JoinLines(SetFieldLines(SplitLines(text[4..k]), field, value)) + text[k..]
  }

  /** A header none of whose lines is a bare `---`: the only kind the writers
      produce, and the only kind line editing cannot cut short. */
  predicate SafeHeader(text: string) {
    HasHeader(text) &&
    var lines := SplitLines(ParseFrontmatter(text).front);
    forall i | 0 <= i < |lines| :: lines[i] != "---"
  }

  lemma FieldLine(field: string, v: string)
    requires CleanKey(field)
    ensures LineKey(field + ": " + v) == Some(field)
    ensures LineValue(field + ": " + v) == Strip(v)
  {
    assert field + ": " + v == field + ":" + (" " + v);
    SplitColonOf(field, " " + v);
    StripOfTrimmed(field);
    StripDropsLeadingSpace(v);
  }

  lemma {:induction false} LastValueAppend(a: seq<string>, b: seq<string>, k: string)
    ensures LastValue(a + b, k) == if LastValue(b, k).Some? then LastValue(b, k) else LastValue(a, k)
    decreases |b|
  {
    if |b| == 0 {
      assert a + b == a;
    } else {
      assert (a + b)[..|a + b| - 1] == a + b[..|b| - 1];
      LastValueAppend(a, b[..|b| - 1], k);
    }
  }

  lemma LastValueDropEmpty(lines: seq<string>, k: string)
    ensures LastValue(DropTrailingEmpty(lines), k) == LastValue(lines, k)
  {
  }

  /** What one edited line defines. */
  lemma EditLineValue(line: string, field: string, value: Option<string>, k: string)
    requires CleanKey(field)
    ensures LastValue(EditLine(line, field, value), k)
         == if LineKey(line) == Some(field) then
              (if k == field && value.Some? then Some(Strip(value.value)) else None)
            else LastValue([line], k)
  {
    if LineKey(line) == Some(field) {
      match value
      case Some(v) =>
        FieldLine(field, v);
        LastValueSingle(field + ": " + v, k);
      case None =>
    }
  }

  lemma LastValueSingle(line: string, k: string)
    ensures LastValue([line], k) == if LineKey(line) == Some(k) then Some(LineValue(line)) else None
  {
    assert [line][..0] == [];
  }

  lemma LastValueSnoc(lines: seq<string>, k: string)
    requires |lines| > 0
    ensures LastValue(lines, k)
         == if LastValue([lines[|lines| - 1]], k).Some? then LastValue([lines[|lines| - 1]], k)
            else LastValue(lines[..|lines| - 1], k)
  {
    assert [lines[|lines| - 1]][..0] == [];
  }

  /** Editing `field` leaves the value of every other key as it was. */
  lemma {:induction false} EditLinesOther(lines: seq<string>, field: string, value: Option<string>, k: string)
    requires CleanKey(field) && k != field
    ensures LastValue(EditLines(lines, field, value), k) == LastValue(lines, k)
    decreases |lines|
  {
    if |lines| > 0 {
      var init, last := lines[..|lines| - 1], lines[|lines| - 1];
      EditLinesOther(init, field, value, k);
      LastValueAppend(EditLines(init, field, value), EditLine(last, field, value), k);
      EditLineValue(last, field, value, k);
      LastValueSnoc(lines, k);
      assert [last][..0] == [];
    }
  }

  lemma DefinesSnoc(lines: seq<string>, field: string)
    requires |lines| > 0
    ensures Defines(lines, field)
        <==> Defines(lines[..|lines| - 1], field) || LineKey(lines[|lines| - 1]) == Some(field)
  {
    var init := lines[..|lines| - 1];
    AnySnoc(lines, Some(field), LineKey);
    AnySnoc(init + [lines[|lines| - 1]], Some(field), LineKey);
    assert init + [lines[|lines| - 1]] == lines;
  }

  /** Some element of a non-empty sequence maps to `v` exactly when some element
      before the last does or the last does. */
  lemma AnySnoc<T, U>(xs: seq<T>, v: U, f: T -> U)
    requires |xs| > 0
    ensures (exists i | 0 <= i < |xs| :: f(xs[i]) == v)
        <==> (exists i | 0 <= i < |xs| - 1 :: f(xs[i]) == v) || f(xs[|xs| - 1]) == v
  {
  }

  /** After editing, `field` holds the new value if it was defined, and is gone otherwise. */
  lemma {:induction false} EditLinesField(lines: seq<string>, field: string, value: Option<string>)
    requires CleanKey(field)
    ensures LastValue(EditLines(lines, field, value), field)
         == if Defines(lines, field) && value.Some? then Some(Strip(value.value)) else None
    decreases |lines|
  {
    if |lines| > 0 {
      var init, last := lines[..|lines| - 1], lines[|lines| - 1];
      EditLinesField(init, field, value);
      LastValueAppend(EditLines(init, field, value), EditLine(last, field, value), field);
      EditLineValue(last, field, value, field);
      DefinesSnoc(lines, field);
      assert [last][..0] == [];
    }
  }

  lemma {:induction false} EditLinesShape(lines: seq<string>, field: string, value: Option<string>)
    ensures forall l | l in EditLines(lines, field, value) :: l in lines || (value.Some? && l == field + ": " + value.value)
    decreases |lines|
  {
    if |lines| > 0 {
      EditLinesShape(lines[..|lines| - 1], field, value);
    }
  }

  lemma SetFieldLinesShape(lines: seq<string>, field: string, value: Option<string>)
    requires forall i | 0 <= i < |lines| :: NoBreak(lines[i]) && lines[i] != "---"
    requires CleanKey(field) && (value.Some? ==> NoBreak(value.value))
    ensures var nl := SetFieldLines(lines, field, value);
      forall i | 0 <= i < |nl| :: NoBreak(nl[i]) && nl[i] != "---"
  {
    EditLinesShape(lines, field, value);
    var nl := SetFieldLines(lines, field, value);
    forall i | 0 <= i < |nl| ensures NoBreak(nl[i]) && nl[i] != "---" {
      if nl[i] !in lines {
        var v := value.value;
        assert nl[i] == field + ": " + v;
        assert nl[i][|field|] == ':';
      }
    }
  }

  lemma WriteFieldShape(text: string, field: string, value: Option<string>)
    requires HasHeader(text)
    ensures WriteField(text, field, value)
         == Open + JoinLines(SetFieldLines(SplitLines(ParseFrontmatter(text).front), field, value)) + Close + Body(text)
  {
    var k := FindFrom(text, Close, 4).value;
    var split := ParseFrontmatter(text);
    assert split.front == text[4..k] && split.body == text[k + 5..];
    assert text[k..] == Close + split.body by {
      assert text[k..k + 5] == Close;
      assert text[k..] == text[k..k + 5] + text[k + 5..];
    }
  }

  /** write_frontmatter_field on a well-formed header: the body is untouched, `field`
      reads back as the (stripped) new value or as absent, and every other key reads
      back as before. */
  lemma WriteFieldEffect(text: string, field: string, value: Option<string>)
    requires SafeHeader(text)
    requires CleanKey(field) && (value.Some? ==> NoBreak(value.value))
    ensures SafeHeader(WriteField(text, field, value))
    ensures Body(WriteField(text, field, value)) == Body(text)
    ensures Lookup(ReadHeader(WriteField(text, field, value)).value, field)
         == if value.Some? then Some(Strip(value.value)) else None
    ensures forall k | k != field ::
      Lookup(ReadHeader(WriteField(text, field, value)).value, k) == Lookup(ReadHeader(text).value, k)
  {
    var lines := SplitLines(ParseFrontmatter(text).front);
    var nl := SetFieldLines(lines, field, value);
    var r := WriteField(text, field, value);
    WriteFieldShape(text, field, value);
    SetFieldLinesShape(lines, field, value);
    DelimiterAfterLines(nl, Body(text));
    SplitJoin(nl);
    assert SplitLines(ParseFrontmatter(r).front) == DropTrailingEmpty(nl);
    assert SafeHeader(r);
    var after := ParseLines(DropTrailingEmpty(nl));
    ParseLinesLookup(DropTrailingEmpty(nl), field);
    LastValueDropEmpty(nl, field);
    var extra := if !Defines(lines, field) && value.Some? then [field + ": " + value.value] else [];
    LastValueAppend(EditLines(lines, field, value), extra, field);
    EditLinesField(lines, field, value);
    if value.Some? {
      FieldLine(field, value.value);
    }
    forall k | k != field ensures Lookup(after, k) == Lookup(ParseLines(lines), k) {
      ParseLinesLookup(DropTrailingEmpty(nl), k);
      LastValueDropEmpty(nl, k);
      LastValueAppend(EditLines(lines, field, value), extra, k);
      EditLinesOther(lines, field, value, k);
      ParseLinesLookup(lines, k);
    }
  }
}
