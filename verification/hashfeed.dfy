/** compute_amendments_hash: the text fed to SHA-256. The digest itself is a
    parameter; everything here is about the feed, which fixes the digest for any
    hash function. */
module HashFeed {
  import opened Wrappers
  import opened PyStr
  import opened Frontmatter
  import opened Store

  const RecordEnd: string := "\n\U{1e}\n"

  /** The framing of one record: its path, its trimmed body, a record separator. */
  function Entry(name: string, body: string): string {
    "FILE:" + AmendmentPath(name) + "\n" + body + RecordEnd
  }

  /** The trimmed body of every record in a directory. */
  function Bodies(dir: map<string, string>): (r: map<string, string>)
    ensures r.Keys == dir.Keys
  {
    map n | n in dir :: ExtractBody(dir[n])
  }

  /** The entries of the listed records, in listing order. */
  function Entries(bodies: map<string, string>, names: seq<string>): string
    requires forall i | 0 <= i < |names| :: names[i] in bodies
  {
    if |names| == 0 then ""
    else Entries(bodies, names[..|names| - 1]) + Entry(names[|names| - 1], bodies[names[|names| - 1]])
  }

  /** The founding record's entry when it is accepted, nothing otherwise. */
  function FoundingEntry(sc: Scheme, s: Snapshot): string {
    match DiscoverFounding(sc, s)
    case Some(Located(n, Founding)) => Entry(n, Bodies(s.amendments)[n])
    case _ => ""
  }

  /** The whole feed: the accepted founding record, then the accepted amendments in
      sorted order. */
  function Feed(sc: Scheme, s: Snapshot): string {
    FoundingEntry(sc, s) + Entries(Bodies(s.amendments), ListAccepted(sc, s.amendments))
  }

  function AmendmentsHash(sha: Digest, sc: Scheme, s: Snapshot): string {
    sha(Feed(sc, s))
  }

  // ---------------------------------------------------------------------------
  // What the feed depends on
  // ---------------------------------------------------------------------------

  /** Discovery looks only at which names exist. */
  lemma DiscoverFoundingNamesOnly(sc: Scheme, s1: Snapshot, s2: Snapshot)
    requires s1.amendments.Keys == s2.amendments.Keys
    ensures DiscoverFounding(sc, s1) == DiscoverFounding(sc, s2)
  {
    assert forall n :: n in s1.amendments <==> n in s2.amendments;
  }

  /** The feed reads neither headers nor the LAW: only which records exist under
      which names, and their trimmed bodies. */
  lemma FeedOnlyBodies(sc: Scheme, s1: Snapshot, s2: Snapshot)
    requires Bodies(s1.amendments) == Bodies(s2.amendments)
    ensures Feed(sc, s1) == Feed(sc, s2)
  {
    assert s1.amendments.Keys == s2.amendments.Keys by {
      assert Bodies(s1.amendments).Keys == Bodies(s2.amendments).Keys;
    }
    ListAcceptedNamesOnly(sc, s1.amendments, s2.amendments);
    DiscoverFoundingNamesOnly(sc, s1, s2);
    assert FoundingEntry(sc, s1) == FoundingEntry(sc, s2);
  }

  lemma BodiesUpdate(d: map<string, string>, name: string, text: string)
    ensures Bodies(d[name := text]) == Bodies(d)[name := ExtractBody(text)]
  {
  }

  /** Rewriting the header of an amendment leaves the hash alone. */
  lemma HeaderEditKeepsFeed(sc: Scheme, s: Snapshot, name: string, fs: seq<Field>, gs: seq<Field>, body: string)
    requires Clean(fs) && Clean(gs)
    requires name in s.amendments && s.amendments[name] == Render(fs, body)
    ensures Feed(sc, s.(amendments := s.amendments[name := Render(gs, body)])) == Feed(sc, s)
  {
    var d := s.amendments;
    ExtractBodyIgnoresHeader(fs, body);
    ExtractBodyIgnoresHeader(gs, body);
    BodiesUpdate(d, name, Render(gs, body));
    assert Bodies(d)[name] == ExtractBody(Render(fs, body));
    assert Bodies(d)[name := ExtractBody(Render(gs, body))] == Bodies(d);
    FeedOnlyBodies(sc, s.(amendments := d[name := Render(gs, body)]), s);
  }

  // ---------------------------------------------------------------------------
  // The feed tells bodies apart
  // ---------------------------------------------------------------------------

  lemma EntriesSplit(bodies: map<string, string>, names: seq<string>, i: nat)
    requires forall j | 0 <= j < |names| :: names[j] in bodies
    requires i < |names|
    ensures Entries(bodies, names)
         == Entries(bodies, names[..i]) + Entry(names[i], bodies[names[i]]) + Entries(bodies, names[i + 1..])
  {
    var head := names[..i + 1];
    assert head[..i] == names[..i];
    assert names == head + names[i + 1..];
    EntriesAppend(bodies, head, names[i + 1..]);
  }

  /** The entries of two listings one after the other. */
  lemma {:induction false} EntriesAppend(bodies: map<string, string>, xs: seq<string>, ys: seq<string>)
    requires forall j | 0 <= j < |xs| :: xs[j] in bodies
    requires forall j | 0 <= j < |ys| :: ys[j] in bodies
    ensures forall j | 0 <= j < |xs + ys| :: (xs + ys)[j] in bodies
    ensures Entries(bodies, xs + ys) == Entries(bodies, xs) + Entries(bodies, ys)
    decreases |ys|
  {
    assert forall j | 0 <= j < |xs + ys| :: (xs + ys)[j] in bodies by {
      forall j | 0 <= j < |xs + ys| ensures (xs + ys)[j] in bodies {
        if j >= |xs| { assert (xs + ys)[j] == ys[j - |xs|]; }
      }
    }
    if |ys| > 0 {
      var init, last := ys[..|ys| - 1], ys[|ys| - 1];
      assert (xs + ys)[..|xs + ys| - 1] == xs + init;
      EntriesAppend(bodies, xs, init);
      JoinAssoc(Entries(bodies, xs), Entries(bodies, init), Entry(last, bodies[last]));
    } else {
      assert xs + ys == xs;
    }
  }

  lemma EntryInjective(name: string, b1: string, b2: string)
    requires Entry(name, b1) == Entry(name, b2)
    ensures b1 == b2
  {
    var p := "FILE:" + AmendmentPath(name) + "\n";
    Cancel(p, b1, b2, RecordEnd);
  }

  lemma Cancel(p: string, x: string, y: string, q: string)
    requires p + x + q == p + y + q
    ensures x == y
  {
    var l := p + x + q;
    assert x == l[|p|..|l| - |q|];
    assert y == l[|p|..|l| - |q|];
  }

  /** Entries that do not list `name` do not see its body. */
  lemma {:induction false} EntriesAvoid(b: map<string, string>, name: string, v: string, names: seq<string>)
    requires forall x | x in names :: x in b && x != name
    ensures Entries(b[name := v], names) == Entries(b, names)
    decreases |names|
  {
    if |names| > 0 {
      assert forall x | x in names[..|names| - 1] :: x in names;
      EntriesAvoid(b, name, v, names[..|names| - 1]);
    }
  }

  /** The two sides of a name that occurs once. */
  lemma SidesAvoid(names: seq<string>, i: nat, b: map<string, string>)
    requires i < |names|
    requires forall j | 0 <= j < |names| && j != i :: names[j] != names[i]
    requires forall j | 0 <= j < |names| :: names[j] in b
    ensures forall x | x in names[..i] :: x in b && x != names[i]
    ensures forall x | x in names[i + 1..] :: x in b && x != names[i]
  {
  }

  /** Equal context around different middles makes different wholes. */
  lemma Differ(p: string, x: string, y: string, q: string)
    requires x != y
    ensures p + x + q != p + y + q
  {
    if p + x + q == p + y + q {
      Cancel(p, x, y, q);
    }
  }

  /** Equal prefixes before different tails make different wholes. */
  lemma DifferAfter(p: string, x: string, y: string)
    requires x != y
    ensures p + x != p + y
  {
    assert (p + x)[|p|..] == x && (p + y)[|p|..] == y;
  }

  /** Giving a name listed once a different body changes the entries. */
  lemma EntriesSeeChange(b: map<string, string>, names: seq<string>, i: nat, v: string)
    requires i < |names|
    requires forall j | 0 <= j < |names| && j != i :: names[j] != names[i]
    requires forall j | 0 <= j < |names| :: names[j] in b
    requires v != b[names[i]]
    ensures Entries(b[names[i] := v], names) != Entries(b, names)
  {
    var name := names[i];
    var b2 := b[name := v];
    EntriesSplit(b, names, i);
    EntriesSplit(b2, names, i);
    SidesAvoid(names, i, b);
    EntriesAvoid(b, name, v, names[..i]);
    EntriesAvoid(b, name, v, names[i + 1..]);
    assert Entry(name, v) != Entry(name, b[name]) by {
      if Entry(name, v) == Entry(name, b[name]) {
        EntryInjective(name, v, b[name]);
      }
    }
    Differ(Entries(b, names[..i]), Entry(name, v), Entry(name, b[name]), Entries(b, names[i + 1..]));
  }

  /** The founding entry does not see the other records. */
  lemma FoundingEntryAvoid(sc: Scheme, s: Snapshot, name: string, text: string)
    requires name in s.amendments && name != FoundingName(sc, Founding)
    ensures FoundingEntry(sc, s.(amendments := s.amendments[name := text])) == FoundingEntry(sc, s)
  {
    var s2 := s.(amendments := s.amendments[name := text]);
    DiscoverFoundingNamesOnly(sc, s, s2);
    BodiesUpdate(s.amendments, name, text);
  }

  /** Changing the trimmed body of one accepted amendment changes the feed. */
  lemma FeedSeesBodyChange(sc: Scheme, s: Snapshot, name: string, text: string)
    requires name in ListAccepted(sc, s.amendments)
    requires ExtractBody(text) != ExtractBody(s.amendments[name])
    ensures Feed(sc, s.(amendments := s.amendments[name := text])) != Feed(sc, s)
  {
    var b1 := Bodies(s.amendments);
    var names := ListAccepted(sc, s.amendments);
    FeedAfterUpdate(sc, s, name, text);
    var i :| 0 <= i < |names| && names[i] == name;
    Order.StrictlySortedDistinct(names, i);
    EntriesSeeChange(b1, names, i, ExtractBody(text));
    DifferAfter(FoundingEntry(sc, s), Entries(b1[name := ExtractBody(text)], names), Entries(b1, names));
  }

  /** Updating an accepted amendment keeps the founding entry and the listing. */
  lemma FeedAfterUpdate(sc: Scheme, s: Snapshot, name: string, text: string)
    requires name in ListAccepted(sc, s.amendments)
    ensures var names := ListAccepted(sc, s.amendments);
      Feed(sc, s.(amendments := s.amendments[name := text]))
      == FoundingEntry(sc, s) + Entries(Bodies(s.amendments)[name := ExtractBody(text)], names)
  {
    var d1, d2 := s.amendments, s.amendments[name := text];
    UpdateKeepsKeys(d1, name, text);
    BodiesUpdate(d1, name, text);
    ListAcceptedNamesOnly(sc, d1, d2);
    FoundingNotListed(sc, d1, Founding);
    FoundingEntryAvoid(sc, s, name, text);
    FeedOfParts(sc, s.(amendments := d2), FoundingEntry(sc, s), Bodies(d1)[name := ExtractBody(text)], ListAccepted(sc, d1));
  }

  lemma UpdateKeepsKeys(d: map<string, string>, name: string, text: string)
    requires name in d
    ensures d[name := text].Keys == d.Keys
  {
  }

  /** The feed is its two parts. */
  lemma FeedOfParts(sc: Scheme, s: Snapshot, founding: string, bodies: map<string, string>, names: seq<string>)
    requires FoundingEntry(sc, s) == founding
    requires Bodies(s.amendments) == bodies && ListAccepted(sc, s.amendments) == names
    ensures forall i | 0 <= i < |names| :: names[i] in bodies
    ensures Feed(sc, s) == founding + Entries(bodies, names)
  {
  }
}
