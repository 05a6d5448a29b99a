/** verify_kernel_hash: how the verifier classifies the state of the constitution.
    The script reads suffix-spelled names; the classification is written for either
    scheme so that it can be checked against the prefix-spelled writers too. */
module Verifier {
  import opened Wrappers
  import opened PyStr
  import opened Frontmatter
  import opened Store
  import opened HashFeed
  import opened Records

  /** The diagnostic code printed, with the fields that decide it. */
  datatype Verdict =
    | Pass
    | LawNotFound
    | LawCorrupted(path: string)
    | LawStale(path: string, current: string)
    | HashMismatch(path: string, inLaw: Option<string>, current: string)

  const HashKey: string := "amendments_hash"

  /** read_frontmatter: the quote-stripped header, or nothing without one. */
  function ReadLawHeader(text: string): seq<Field> {
    ReadQuoted(text)
  }

  /** main, for a naming scheme (the script itself uses `Suffixed`). */
  function Verify(sha: Digest, sc: Scheme, s: Snapshot): (r: Verdict)
    ensures DiscoverLaw(sc, s).None? ==> r == LawNotFound
    ensures DiscoverLaw(sc, s).Some? && DiscoverLaw(sc, s).value.state == Corrupted ==> r.LawCorrupted?
    ensures DiscoverLaw(sc, s).Some? && DiscoverLaw(sc, s).value.state == Resolving ==> r.LawStale?
    ensures DiscoverLaw(sc, s).Some? && DiscoverLaw(sc, s).value.state == Active ==>
      (r == Pass <==> Lookup(ReadLawHeader(s.constitution[DiscoverLaw(sc, s).value.name]), HashKey) == Some(AmendmentsHash(sha, sc, s)))
    ensures DiscoverLaw(sc, s).Some? && DiscoverLaw(sc, s).value.state == Active ==> r == Pass || r.HashMismatch?
  {
    match DiscoverLaw(sc, s)
    case None => LawNotFound
    case Some(Located(name, state)) =>
      var current := AmendmentsHash(sha, sc, s);
      var path := LawPath(name);
      if state == Corrupted then LawCorrupted(path)
      else if state == Resolving then LawStale(path, current)
      else
        var expected := Lookup(ReadLawHeader(s.constitution[name]), HashKey);
        if expected == Some(current) then Pass
        else HashMismatch(path, expected, current)
  }

  /** The process exit status: 0 exactly on `PASS`. */
  function ExitCode(v: Verdict): (r: int)
    ensures r == 0 <==> v == Pass
    ensures r == 0 || r == 1
  {
    if v == Pass then 0 else 1
  }

  /** The script as shipped. */
  function VerifyKernelHash(sha: Digest, s: Snapshot): (r: Verdict)
    ensures r == LawNotFound <==> forall st :: LawName(Suffixed, st) !in s.constitution
    ensures r == Pass <==>
      LawName(Suffixed, Active) in s.constitution
      && Lookup(ReadLawHeader(s.constitution[LawName(Suffixed, Active)]), HashKey) == Some(AmendmentsHash(sha, Suffixed, s))
  {
    Verify(sha, Suffixed, s)
  }

  /** The header of a LAW never decides a corrupted or resolving verdict. */
  lemma StateDecidesFirst(sha: Digest, sc: Scheme, s: Snapshot, text: string)
    requires DiscoverLaw(sc, s).Some? && DiscoverLaw(sc, s).value.state != Active
    ensures Verify(sha, sc, s.(constitution := s.constitution[DiscoverLaw(sc, s).value.name := text])) == Verify(sha, sc, s)
  {
    var n := DiscoverLaw(sc, s).value.name;
    var s2 := s.(constitution := s.constitution[n := text]);
    assert forall m :: m in s2.constitution <==> m in s.constitution;
    assert DiscoverLaw(sc, s2) == DiscoverLaw(sc, s);
    FeedOnlyBodies(sc, s2, s);
  }

  /** An active LAW whose header records the current hash (written quoted, as the
      writers do) passes; one that records another hash, or none, does not. */
  lemma PassIffRecorded(sha: Digest, sc: Scheme, s: Snapshot, fs: seq<Field>, body: string)
    requires DiscoverLaw(sc, s).Some? && DiscoverLaw(sc, s).value.state == Active
    requires s.constitution[DiscoverLaw(sc, s).value.name] == Render(fs, body)
    requires Clean(fs)
    requires Hex(AmendmentsHash(sha, sc, s))
    ensures Lookup(fs, HashKey) == Some(Quoted(AmendmentsHash(sha, sc, s))) ==> Verify(sha, sc, s) == Pass
    ensures Lookup(fs, HashKey).None? ==> Verify(sha, sc, s).HashMismatch?
  {
    var text := Render(fs, body);
    RenderRoundTrip(fs, body);
    HexQuoted(AmendmentsHash(sha, sc, s));
  }
}
