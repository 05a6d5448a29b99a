/** The memory tool's library (lib.py): the header split of a slice file, nested
    field lookup, the link list and the short content hash. YAML itself is not
    modelled: a loaded header is a `Data` value and the split hands its text on. */
module Memory {
  import opened Wrappers
  import opened PyStr

  /** A loaded YAML value, as far as the memory tool looks into it. */
  datatype Data = Dict(fields: map<string, Data>) | Str(s: string) | Flag(b: bool) | Num(n: int) | List(items: seq<Data>) | Null

  // ---------------------------------------------------------------------------
  // Header split (parse_frontmatter) and its inverse (serialize_frontmatter)
  // ---------------------------------------------------------------------------

  const Delimiter := "---"

  predicate IsDelimiter(line: string) {
    Strip(line) == Delimiter
  }

  /** The first element at or after `i` that satisfies `p`. */
  function FirstFrom<T>(xs: seq<T>, i: nat, p: T -> bool): (r: Option<nat>)
    decreases |xs| - i
    ensures r.Some? ==> i <= r.value < |xs| && p(xs[r.value])
    ensures r.Some? ==> forall k | i <= k < r.value :: !p(xs[k])
    ensures r.None? ==> forall k | i <= k < |xs| :: !p(xs[k])
  {
    if i >= |xs| then None
    else if p(xs[i]) then Some(i)
    else FirstFrom(xs, i + 1, p)
  }

  /** Drops one leading line feed. */
  function DropNewline(body: string): string {
    if StartsWith(body, "\n") then body[1..] else body
  }

  /** parse_frontmatter's split: None stands for `({}, content)`; otherwise the
      header text (what yaml.safe_load receives) and the body. */
  function SplitFront(content: string): (r: Option<(string, string)>)
    ensures var lines := SplitOn(content, '\n');
      r.Some? <==> IsDelimiter(lines[0]) && exists e | 1 <= e < |lines| :: IsDelimiter(lines[e])
    ensures var lines := SplitOn(content, '\n');
      r.Some? ==> exists e | 1 <= e < |lines| ::
        IsDelimiter(lines[e]) && (forall k | 1 <= k < e :: !IsDelimiter(lines[k]))
        && r.value.0 == JoinOn(lines[1..e], '\n') && r.value.1 == DropNewline(JoinOn(lines[e + 1..], '\n'))
  {
    HeaderSplit(SplitOn(content, '\n'), IsDelimiter)
  }

  /** The split over the content's lines, for any test of what a delimiter line is. */
  function HeaderSplit(lines: seq<string>, isDelimiter: string -> bool): (r: Option<(string, string)>)
    requires |lines| >= 1
  {
    if !isDelimiter(lines[0]) then None
    else match FirstFrom(lines, 1, isDelimiter)
      case None => None
      case Some(e) => Some((JoinOn(lines[1..e], '\n'), DropNewline(JoinOn(lines[e + 1..], '\n'))))
  }

  /** serialize_frontmatter, given the header text yaml.dump produced. */
  function Serialize(header: string, body: string): (r: string)
    ensures |r| == |header| + |body| + 8
    ensures r[..4] == Delimiter + "\n" && r[4..4 + |header|] == header
    ensures r[|r| - |body| - 4..|r| - |body|] == Delimiter + "\n" && r[|r| - |body|..] == body
  {
    "---\n" + header + "---\n" + body
  }

  /** Reading a serialised slice gives back the header text without its final line
      feed, and the body without one leading line feed, provided no line of the
      dumped header strips to "---". yaml.dump always ends its output with a line
      feed. */
  lemma SerializeSplit(headerLines: seq<string>, body: string)
    requires |headerLines| >= 1
    requires forall i | 0 <= i < |headerLines| :: '\n' !in headerLines[i] && !IsDelimiter(headerLines[i])
    ensures SplitFront(Serialize(JoinOn(headerLines, '\n') + "\n", body))
      == Some((JoinOn(headerLines, '\n'), DropNewline(body)))
  {
    var h := JoinOn(headerLines, '\n');
    var lines := SplitOn(Serialize(h + "\n", body), '\n');
    SerializedLines(headerLines, body);
    DelimiterLine();
    FramedLines(lines, headerLines, SplitOn(body, '\n'), IsDelimiter);
    JoinSplitOn(body, '\n');
  }

  /** A dumped line that strips to "---" closes the header early: what is read back
      is the header cut before that line, which is not the header that was written. */
  lemma DumpedDelimiterCutsHeader(headerLines: seq<string>, body: string, e: nat)
    requires forall i | 0 <= i < |headerLines| :: '\n' !in headerLines[i]
    requires 1 <= e < |headerLines| && IsDelimiter(headerLines[e])
    requires forall i | 0 <= i < e :: !IsDelimiter(headerLines[i])
    ensures SplitFront(Serialize(JoinOn(headerLines, '\n') + "\n", body)).Some?
    ensures SplitFront(Serialize(JoinOn(headerLines, '\n') + "\n", body)).value.0 == JoinOn(headerLines[..e], '\n')
    ensures JoinOn(headerLines[..e], '\n') != JoinOn(headerLines, '\n')
  {
    var lines := SplitOn(Serialize(JoinOn(headerLines, '\n') + "\n", body), '\n');
    SerializedLines(headerLines, body);
    DelimiterLine();
    CutLines(lines, headerLines, SplitOn(body, '\n'), IsDelimiter, e);
    JoinPrefixDiffers(headerLines, '\n', e);
  }

  /** In lines framed by two delimiter lines, an earlier delimiter among the header
      lines closes the header there. */
  lemma CutLines(lines: seq<string>, headerLines: seq<string>, rest: seq<string>, isDelimiter: string -> bool, e: nat)
    requires lines == [Delimiter] + headerLines + [Delimiter] + rest
    requires e < |headerLines| && isDelimiter(headerLines[e])
    requires forall i | 0 <= i < e :: !isDelimiter(headerLines[i])
    ensures HeaderSplit(lines, isDelimiter).Some? || !isDelimiter(Delimiter)
    ensures isDelimiter(Delimiter) ==> HeaderSplit(lines, isDelimiter).value.0 == JoinOn(headerLines[..e], '\n')
  {
    assert lines[e + 1] == headerLines[e];
    assert forall k | 1 <= k < e + 1 :: lines[k] == headerLines[k - 1];
    assert FirstFrom(lines, 1, isDelimiter) == Some(e + 1);
    assert lines[1..e + 1] == headerLines[..e];
  }

  /** Joining a proper prefix of separator-free parts gives another text. */
  lemma JoinPrefixDiffers(parts: seq<string>, sep: char, e: nat)
    requires forall i | 0 <= i < |parts| :: sep !in parts[i]
    requires 1 <= e < |parts|
    ensures JoinOn(parts[..e], sep) != JoinOn(parts, sep)
  {
    SplitOnJoin(parts[..e], sep);
    SplitOnJoin(parts, sep);
  }

  /** A line without a dash never strips to "---". */
  lemma DashlessNotDelimiter(line: string)
    requires '-' !in line
    ensures !IsDelimiter(line)
  {
  }

  /** yaml.dump writes the continuation lines of a multi-line scalar indented under
      its key, so a value holding a "---" line puts an indented "---" among the header
      lines: that line closes the header early. */
  lemma IndentedDashCutsHeader(headerLines: seq<string>, body: string, e: nat, indent: string)
    requires forall i | 0 <= i < |headerLines| :: '\n' !in headerLines[i]
    requires 1 <= e < |headerLines| && headerLines[e] == indent + Delimiter
    requires forall i | 0 <= i < |indent| :: indent[i] == ' '
    requires forall i | 0 <= i < e :: !IsDelimiter(headerLines[i])
    ensures SplitFront(Serialize(JoinOn(headerLines, '\n') + "\n", body)).Some?
    ensures SplitFront(Serialize(JoinOn(headerLines, '\n') + "\n", body)).value.0 != JoinOn(headerLines, '\n')
  {
    IndentedDelimiter(indent);
    DumpedDelimiterCutsHeader(headerLines, body, e);
  }

  /** A "---" indented by spaces strips to the delimiter. */
  lemma IndentedDelimiter(indent: string)
    requires forall i | 0 <= i < |indent| :: indent[i] == ' '
    ensures IsDelimiter(indent + Delimiter)
  {
    var s := indent + Delimiter;
    var t := DropWhile(s, IsSpace);
    assert s[|indent|] == '-';
    assert |s| - |t| <= |indent|;
    assert t == Delimiter;
    DelimiterLine();
    StripOfTrimmed(Delimiter);
  }

  /** In lines framed by two delimiter lines, the second one closes the header. */
  lemma FramedLines(lines: seq<string>, headerLines: seq<string>, rest: seq<string>, isDelimiter: string -> bool)
    requires lines == [Delimiter] + headerLines + [Delimiter] + rest
    requires isDelimiter(Delimiter)
    requires forall i | 0 <= i < |headerLines| :: !isDelimiter(headerLines[i])
    ensures HeaderSplit(lines, isDelimiter) == Some((JoinOn(headerLines, '\n'), DropNewline(JoinOn(rest, '\n'))))
  {
    var e := 1 + |headerLines|;
    assert lines[e] == Delimiter;
    assert forall k | 1 <= k < e :: lines[k] == headerLines[k - 1];
    assert FirstFrom(lines, 1, isDelimiter) == Some(e);
    assert lines[1..e] == headerLines && lines[e + 1..] == rest;
  }

  lemma SerializedLines(headerLines: seq<string>, body: string)
    requires |headerLines| >= 1
    requires forall i | 0 <= i < |headerLines| :: '\n' !in headerLines[i]
    ensures SplitOn(Serialize(JoinOn(headerLines, '\n') + "\n", body), '\n')
      == [Delimiter] + headerLines + [Delimiter] + SplitOn(body, '\n')
  {
    var h := JoinOn(headerLines, '\n');
    var tail := Delimiter + ['\n'] + body;
    var mid := h + ['\n'] + tail;
    SerializeShape(h, body);
    SplitOnFirst(Delimiter, mid, '\n');
    SplitOnConcat(h, tail, '\n');
    SplitOnJoin(headerLines, '\n');
    SplitOnFirst(Delimiter, body, '\n');
    LinesAssoc(Delimiter, headerLines, SplitOn(body, '\n'));
  }

  /** A serialised slice is the delimiter line, the header, the delimiter line and the body. */
  lemma SerializeShape(h: string, body: string)
    ensures '\n' !in Delimiter
    ensures Serialize(h + "\n", body) == Delimiter + ['\n'] + (h + ['\n'] + (Delimiter + ['\n'] + body))
  {
    assert "---\n" == Delimiter + ['\n'];
  }

  lemma LinesAssoc(d: string, hs: seq<string>, rest: seq<string>)
    ensures [d] + (hs + ([d] + rest)) == [d] + hs + [d] + rest
  {
  }

  lemma DelimiterLine()
    ensures SplitOn(Delimiter, '\n') == [Delimiter]
    ensures IsDelimiter(Delimiter)
  {
    assert IndexOf(Delimiter, '\n') == |Delimiter|;
    StripOfTrimmed(Delimiter);
  }

  /** Content without an opening delimiter line is all body. */
  lemma NoHeaderIsBody(content: string)
    requires !IsDelimiter(SplitOn(content, '\n')[0])
    ensures SplitFront(content) == None
  {
  }

  // ---------------------------------------------------------------------------
  // Nested fields (get_field)
  // ---------------------------------------------------------------------------

  /** The value at a segment path, or None as soon as a segment is missing or the
      value reached is not a mapping. */
  function Reach(data: Data, parts: seq<string>): (r: Option<Data>)
    ensures |parts| == 0 ==> r == Some(data)
    ensures |parts| > 0 && r.Some? ==> data.Dict? && parts[0] in data.fields
  {
    if |parts| == 0 then Some(data)
    else if data.Dict? && parts[0] in data.fields then Reach(data.fields[parts[0]], parts[1..])
    else None
  }

  /** get_field: `path` split at dots. */
  function GetField(data: Data, path: string, default: Data): (r: Data)
    ensures Reach(data, SplitOn(path, '.')).None? ==> r == default
    ensures Reach(data, SplitOn(path, '.')).Some? ==> r == Reach(data, SplitOn(path, '.')).value
    ensures '.' !in path ==> r == (if data.Dict? && path in data.fields then data.fields[path] else default)
  {
    if '.' in path then Reach(data, SplitOn(path, '.')).GetOr(default)
    else
      SplitOnFirst(path, "", '.');
      Reach(data, SplitOn(path, '.')).GetOr(default)
  }

  /** A dotted path is looked up one segment at a time: the first segment in `data`,
      the rest in the value found there. */
  lemma GetFieldDotted(data: Data, head: string, rest: string, default: Data)
    requires '.' !in head
    ensures GetField(data, head + "." + rest, default)
      == (if data.Dict? && head in data.fields then GetField(data.fields[head], rest, default) else default)
  {
    SplitOnFirst(head, rest, '.');
    var parts := SplitOn(head + "." + rest, '.');
    assert parts[0] == head && parts[1..] == SplitOn(rest, '.');
  }

  /** Following a path in two legs is following it at once. */
  lemma {:induction false} ReachConcat(data: Data, p: seq<string>, q: seq<string>)
    ensures Reach(data, p + q) == (match Reach(data, p) case None => None case Some(mid) => Reach(mid, q))
    decreases |p|
  {
    if |p| > 0 {
      assert (p + q)[0] == p[0] && (p + q)[1..] == p[1..] + q;
      if data.Dict? && p[0] in data.fields {
        ReachConcat(data.fields[p[0]], p[1..], q);
      }
    } else {
      assert p + q == q;
    }
  }

  // ---------------------------------------------------------------------------
  // Links (add_link, remove_link)
  // ---------------------------------------------------------------------------

  /** One entry of `tt.links`; each key may be missing. */
  datatype Link = Link(rel: Option<string>, dest: Option<string>, caption: Option<string>)

  predicate Connects(l: Link, target: string, rel: string) {
    l.dest == Some(target) && l.rel == Some(rel)
  }

  function CountConnects(links: seq<Link>, target: string, rel: string): (n: nat)
    ensures n <= |links|
  {
    if |links| == 0 then 0
    else CountConnects(links[..|links| - 1], target, rel) + (if Connects(links[|links| - 1], target, rel) then 1 else 0)
  }

  lemma {:induction false} CountZero(links: seq<Link>, target: string, rel: string)
    ensures CountConnects(links, target, rel) == 0 <==> forall i | 0 <= i < |links| :: !Connects(links[i], target, rel)
    decreases |links|
  {
    if |links| > 0 {
      var init := links[..|links| - 1];
      CountZero(init, target, rel);
      assert forall i | 0 <= i < |init| :: init[i] == links[i];
    }
  }

  /** The entry add_link builds; an empty caption is left out. */
  function NewLink(target: string, rel: string, caption: Option<string>): Link {
    Link(Some(rel), Some(target), if caption.Some? && caption.value != "" then caption else None)
  }

  /** add_link on the link list (a missing list is empty). */
  function AddLink(links: seq<Link>, target: string, rel: string, caption: Option<string>): (r: seq<Link>)
    ensures CountConnects(r, target, rel) == (if CountConnects(links, target, rel) == 0 then 1 else CountConnects(links, target, rel))
    ensures |links| <= |r| <= |links| + 1 && r[..|links|] == links
    ensures |r| > |links| ==> r[|links|] == NewLink(target, rel, caption)
  {
    CountZero(links, target, rel);
    if exists i | 0 <= i < |links| :: Connects(links[i], target, rel) then links
    else
      assert (links + [NewLink(target, rel, caption)])[..|links|] == links;
      links + [NewLink(target, rel, caption)]
  }

  /** Adding the same link twice is adding it once. */
  lemma AddLinkIdempotent(links: seq<Link>, target: string, rel: string, caption: Option<string>)
    ensures AddLink(AddLink(links, target, rel, caption), target, rel, caption) == AddLink(links, target, rel, caption)
  {
    var once := AddLink(links, target, rel, caption);
    CountZero(once, target, rel);
  }

  /** Which links remove_link drops: exact pairs when a relationship is given,
      every link to the target otherwise (an empty relationship counts as none). */
  predicate Dropped(l: Link, target: string, rel: Option<string>) {
    if rel.Some? && rel.value != "" then Connects(l, target, rel.value) else l.dest == Some(target)
  }

  function Keep(links: seq<Link>, target: string, rel: Option<string>): (r: seq<Link>)
    ensures |r| <= |links|
    ensures forall l :: l in r <==> l in links && !Dropped(l, target, rel)
  {
    if |links| == 0 then []
    else
      var init := Keep(links[..|links| - 1], target, rel);
      var last := links[|links| - 1];
      assert forall l | l in links :: l in links[..|links| - 1] || l == last;
      if Dropped(last, target, rel) then init else init + [last]
  }

  /** Keep filters element by element: it distributes over concatenation, so the
      surviving links stay in their original order. */
  lemma {:induction false} KeepConcat(a: seq<Link>, b: seq<Link>, target: string, rel: Option<string>)
    ensures Keep(a + b, target, rel) == Keep(a, target, rel) + Keep(b, target, rel)
    decreases |b|
  {
    if |b| == 0 {
      assert a + b == a;
    } else {
      var init, last := b[..|b| - 1], b[|b| - 1];
      assert (a + b)[..|a + b| - 1] == a + init;
      assert (a + b)[|a + b| - 1] == last;
      KeepConcat(a, init, target, rel);
    }
  }

  /** A single link survives exactly when it is not dropped. */
  lemma KeepOne(l: Link, target: string, rel: Option<string>)
    ensures Keep([l], target, rel) == if Dropped(l, target, rel) then [] else [l]
  {
  }

  function CountDropped(links: seq<Link>, target: string, rel: Option<string>): nat {
    if |links| == 0 then 0
    else CountDropped(links[..|links| - 1], target, rel) + (if Dropped(links[|links| - 1], target, rel) then 1 else 0)
  }

  /** remove_link: the list left behind (None when there was none) and the number
      of links removed. */
  function RemoveLink(links: Option<seq<Link>>, target: string, rel: Option<string>): (r: (Option<seq<Link>>, nat))
    ensures links.None? ==> r == (None, 0)
    ensures links.Some? ==> r.0.Some? && r.1 == |links.value| - |r.0.value|
    ensures links.Some? ==> forall l :: l in r.0.value <==> l in links.value && !Dropped(l, target, rel)
    ensures links.Some? && (forall l | l in links.value :: !Dropped(l, target, rel)) ==> r == (links, 0)
  {
    match links
    case None => (None, 0)
    case Some(ls) =>
      KeepNothing(ls, target, rel);
      var kept := Keep(ls, target, rel); (Some(kept), |ls| - |kept|)
  }

  lemma {:induction false} KeepNothing(links: seq<Link>, target: string, rel: Option<string>)
    ensures (forall l | l in links :: !Dropped(l, target, rel)) ==> Keep(links, target, rel) == links
    decreases |links|
  {
    if |links| > 0 {
      KeepNothing(links[..|links| - 1], target, rel);
      assert links[..|links| - 1] + [links[|links| - 1]] == links;
    }
  }

  /** The count remove_link reports is the number of matching links. */
  lemma {:induction false} RemovedCount(links: seq<Link>, target: string, rel: Option<string>)
    ensures |links| - |Keep(links, target, rel)| == CountDropped(links, target, rel)
    decreases |links|
  {
    if |links| > 0 {
      RemovedCount(links[..|links| - 1], target, rel);
    }
  }

  /** Removing a link just added to a list without it restores the list and
      reports one removal. */
  lemma AddThenRemove(links: seq<Link>, target: string, rel: string, caption: Option<string>)
    requires rel != ""
    requires CountConnects(links, target, rel) == 0
    ensures RemoveLink(Some(AddLink(links, target, rel, caption)), target, Some(rel)) == (Some(links), 1)
  {
    CountZero(links, target, rel);
    KeepNone(links, target, Some(rel));
    var added := links + [NewLink(target, rel, caption)];
    assert added[..|added| - 1] == links;
  }

  lemma {:induction false} KeepNone(links: seq<Link>, target: string, rel: Option<string>)
    requires forall i | 0 <= i < |links| :: !Dropped(links[i], target, rel)
    ensures Keep(links, target, rel) == links
    decreases |links|
  {
    if |links| > 0 {
      var init := links[..|links| - 1];
      assert forall i | 0 <= i < |init| :: init[i] == links[i];
      KeepNone(init, target, rel);
    }
  }

  // ---------------------------------------------------------------------------
  // Content hash (hash_content)
  // ---------------------------------------------------------------------------

  /** hash_content: the first sixteen characters of the hex digest. */
  function HashContent(hexDigest: string -> string, content: string): (r: string)
    ensures StartsWith(hexDigest(content), r)
    ensures |hexDigest(content)| >= 16 ==> |r| == 16
    ensures |hexDigest(content)| < 16 ==> r == hexDigest(content)
  {
    var h := hexDigest(content);
    if |h| <= 16 then h else h[..16]
  }
}
