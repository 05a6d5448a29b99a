/** The `.constitution` directory as the scripts see it: a snapshot of two flat
    directories, state discovery for the LAW and the founding record, and the
    sorted listings of amendments. Every operation is given the naming scheme
    it reads names with, since the scripts use two. */
module Store {
  import opened Wrappers
  import opened PyStr
  import Names
  type Marker = Names.Marker
  import Order

  /** File name to text, for `.constitution` and for `.constitution/amendments`. */
  datatype Snapshot = Snapshot(constitution: map<string, string>, amendments: map<string, string>)

  const LawBase: string := "LAW"
  const FoundingBase: string := ".founding"

  /** Root-relative paths, as the hash feed and the hooks spell them. */
  function LawPath(name: string): string {
    ".constitution/" + name
  }

  function AmendmentPath(name: string): string {
    ".constitution/amendments/" + name
  }

  /** Which generation of file names a script reads and writes. */
  datatype Scheme = Prefixed | Suffixed

  function Spell(sc: Scheme, m: Marker, base: string): string {
    match sc
    case Prefixed => Names.MakeName(m, base)
    case Suffixed => Names.SuffixName(base, m)
  }

  /** The state a name carries under a scheme. */
  function StateIn(sc: Scheme, name: string): Option<Marker> {
    match sc
    case Prefixed => Names.StateOf(name)
    case Suffixed => Names.SuffixState(name)
  }

  /** The listings' founding exclusion: the prefix helpers compare the base name, the
      suffix verifier only looks at how the name starts. */
  predicate IsFounding(sc: Scheme, name: string) {
    match sc
    case Prefixed => Names.BaseName(name) == FoundingBase
    case Suffixed => StartsWith(name, FoundingBase)
  }

  lemma SpellState(sc: Scheme, m: Marker, base: string)
    requires base != ""
    ensures StateIn(sc, Spell(sc, m, base)) == Some(m)
  {
    if sc == Prefixed { Names.MakeNameRoundTrip(m, base); } else { Names.SuffixNameRoundTrip(base, m); }
  }

  // ---------------------------------------------------------------------------
  // Discovery
  // ---------------------------------------------------------------------------

  datatype LawState = Active | Resolving | Corrupted
  datatype FoundingState = Founding | Review | FoundingDraft

  function LawMarker(st: LawState): Marker {
    match st
    case Active => Names.Accepted
    case Resolving => Names.Resolving
    case Corrupted => Names.Corrupted
  }

  function FoundingMarker(st: FoundingState): Marker {
    match st
    case Founding => Names.Accepted
    case Review => Names.Resolving
    case FoundingDraft => Names.Draft
  }

  /** Position in the discovery order: earlier states win. */
  function LawRank(st: LawState): nat {
    match st
    case Active => 0
    case Resolving => 1
    case Corrupted => 2
  }

  function FoundingRank(st: FoundingState): nat {
    match st
    case Founding => 0
    case Review => 1
    case FoundingDraft => 2
  }

  function LawName(sc: Scheme, st: LawState): string {
    Spell(sc, LawMarker(st), LawBase)
  }

  function FoundingName(sc: Scheme, st: FoundingState): string {
    Spell(sc, FoundingMarker(st), FoundingBase)
  }

  /** A discovered record: its file name and its state. */
  datatype Located<S> = Located(name: string, state: S)

  /** discover_law: the first LAW file present, active before resolving before
      corrupted. */
  function DiscoverLaw(sc: Scheme, s: Snapshot): (r: Option<Located<LawState>>)
    ensures r.Some? ==> r.value.name == LawName(sc, r.value.state) && r.value.name in s.constitution
    ensures r.Some? ==> forall st | LawRank(st) < LawRank(r.value.state) :: LawName(sc, st) !in s.constitution
    ensures r.None? <==> forall st :: LawName(sc, st) !in s.constitution
  {
    if LawName(sc, Active) in s.constitution then Some(Located(LawName(sc, Active), Active))
    else if LawName(sc, Resolving) in s.constitution then Some(Located(LawName(sc, Resolving), Resolving))
    else if LawName(sc, Corrupted) in s.constitution then Some(Located(LawName(sc, Corrupted), Corrupted))
    else None
  }

  /** discover_founding: the first founding record present, accepted before review
      before draft. */
  function DiscoverFounding(sc: Scheme, s: Snapshot): (r: Option<Located<FoundingState>>)
    ensures r.Some? ==> r.value.name == FoundingName(sc, r.value.state) && r.value.name in s.amendments
    ensures r.Some? ==> forall st | FoundingRank(st) < FoundingRank(r.value.state) :: FoundingName(sc, st) !in s.amendments
    ensures r.None? <==> forall st :: FoundingName(sc, st) !in s.amendments
  {
    if FoundingName(sc, Founding) in s.amendments then Some(Located(FoundingName(sc, Founding), Founding))
    else if FoundingName(sc, Review) in s.amendments then Some(Located(FoundingName(sc, Review), Review))
    else if FoundingName(sc, FoundingDraft) in s.amendments then Some(Located(FoundingName(sc, FoundingDraft), FoundingDraft))
    else None
  }

  /** The discovered state is the one the file name spells. */
  lemma DiscoverLawState(sc: Scheme, s: Snapshot)
    requires DiscoverLaw(sc, s).Some?
    ensures StateIn(sc, DiscoverLaw(sc, s).value.name) == Some(LawMarker(DiscoverLaw(sc, s).value.state))
  {
    SpellState(sc, LawMarker(DiscoverLaw(sc, s).value.state), LawBase);
  }

  // ---------------------------------------------------------------------------
  // Listing
  // ---------------------------------------------------------------------------

  /** The names list_constitutional_files keeps: state-marked, not the founding record. */
  predicate Listed(sc: Scheme, dir: map<string, string>, name: string) {
    name in dir && StateIn(sc, name).Some? && !IsFounding(sc, name)
  }

  predicate AcceptedListed(sc: Scheme, dir: map<string, string>, name: string) {
    Listed(sc, dir, name) && StateIn(sc, name) == Some(Names.Accepted)
  }

  /** list_constitutional_files */
  function ListConstitutional(sc: Scheme, dir: map<string, string>): (r: seq<string>)
    ensures Order.StrictlySorted(r)
    ensures forall n :: n in r <==> Listed(sc, dir, n)
  {
    Order.Sorted(set n | n in dir.Keys && Listed(sc, dir, n))
  }

  /** list_accepted_amendments: the accepted part of the listing, sorted again. */
  function ListAccepted(sc: Scheme, dir: map<string, string>): (r: seq<string>)
    ensures Order.StrictlySorted(r)
    ensures forall n :: n in r <==> AcceptedListed(sc, dir, n)
    ensures forall i | 0 <= i < |r| :: r[i] in dir
  {
    var listed := ListConstitutional(sc, dir);
    var accepted := set n | n in listed && StateIn(sc, n) == Some(Names.Accepted);
    assert forall n | n in accepted :: n in dir;
    Order.Sorted(accepted)
  }

  /** The accepted listing is the one strictly sorted sequence of accepted, non-founding
      names in the directory. */
  lemma ListAcceptedUnique(sc: Scheme, dir: map<string, string>, xs: seq<string>)
    requires Order.StrictlySorted(xs)
    requires forall n :: n in xs <==> AcceptedListed(sc, dir, n)
    ensures xs == ListAccepted(sc, dir)
  {
    Order.SortedUnique(xs, ListAccepted(sc, dir));
  }

  /** The listings look only at names: the texts do not matter. */
  lemma ListAcceptedNamesOnly(sc: Scheme, d1: map<string, string>, d2: map<string, string>)
    requires d1.Keys == d2.Keys
    ensures ListAccepted(sc, d1) == ListAccepted(sc, d2)
  {
    ListAcceptedUnique(sc, d2, ListAccepted(sc, d1));
  }

  /** The accepted founding record is never in the amendment listing. */
  lemma FoundingNotListed(sc: Scheme, dir: map<string, string>, st: FoundingState)
    ensures FoundingName(sc, st) !in ListConstitutional(sc, dir)
    ensures FoundingName(sc, st) !in ListAccepted(sc, dir)
  {
    var n := FoundingName(sc, st);
    if sc == Prefixed {
      Names.MakeNameRoundTrip(FoundingMarker(st), FoundingBase);
    } else {
      assert n[..|FoundingBase|] == FoundingBase;
    }
  }
}
