/** hook_pre_tool_use: before a file-writing tool runs, an active LAW whose recorded
    amendments hash has drifted is marked resolving, then the write is allowed or
    denied by the state of the constitutional files it targets. This hook spells
    names with the prefix scheme. */
module ToolGate {
  import opened Wrappers
  import opened PyStr
  import opened Frontmatter
  import Names
  import opened Store
  import opened Records
  import HashFeed
  import Verifier

  // ---------------------------------------------------------------------------
  // The tool input
  // ---------------------------------------------------------------------------

  /** A JSON value, as far as path collection looks into it: numbers, booleans and
      null are all `JOther`. */
  datatype Json = JStr(s: string) | JObj(entries: seq<Member>) | JArr(items: seq<Json>) | JOther
  datatype Member = Member(key: string, value: Json)

  const PathKeys: set<string> := {"path", "file_path", "target_notebook"}

  /** collect_paths: every string stored under a path key, in document order; every
      other value is searched recursively. */
  function Collect(v: Json): seq<string>
    decreases v, 2, 0
  {
    match v
    case JObj(es) => CollectMembers(v, 0)
    case JArr(xs) => CollectItems(v, 0)
    case _ => []
  }

  function CollectMembers(v: Json, i: nat): seq<string>
    requires v.JObj? && i <= |v.entries|
    decreases v, 1, |v.entries| - i
  {
    if i == |v.entries| then []
    else
      var m := v.entries[i];
      assert m in v.entries;
      (if m.key in PathKeys && m.value.JStr? then [m.value.s] else Collect(m.value)) + CollectMembers(v, i + 1)
  }

  function CollectItems(v: Json, i: nat): seq<string>
    requires v.JArr? && i <= |v.items|
    decreases v, 1, |v.items| - i
  {
    if i == |v.items| then []
    else
      assert v.items[i] in v.items;
      Collect(v.items[i]) + CollectItems(v, i + 1)
  }

  // ---------------------------------------------------------------------------
  // Targets
  // ---------------------------------------------------------------------------

  /** A path from the tool input after normalize_path: its root-relative POSIX form
      (`None` when it lies outside the workspace), its file name, and whether a file
      exists there when the guard looks. Path resolution and the filesystem are
      inputs to the model. */
  datatype Target = Target(rel: Option<string>, name: string, present: bool)

  const ConstitutionPrefix: string := ".constitution/"
  const AmendmentsPrefix: string := ".constitution/amendments/"

  predicate Under(t: Target, prefix: string) {
    t.rel.Some? && StartsWith(t.rel.value, prefix)
  }

  /** is_founding_document */
  predicate IsFoundingTarget(t: Target) {
    Under(t, AmendmentsPrefix) && Names.BaseName(t.name) == FoundingBase && Names.IsConstitutional(t.name)
  }

  /** is_law_file */
  predicate IsLawTarget(t: Target) {
    Under(t, ConstitutionPrefix) && Names.BaseName(t.name) == LawBase && Names.IsConstitutional(t.name)
  }

  /** is_amendment_file */
  predicate IsAmendmentTarget(t: Target) {
    Under(t, AmendmentsPrefix) && Names.IsConstitutional(t.name)
  }

  datatype AmendmentState = AcceptedState | DraftState | PendingState

  /** amendment_state: by the name's marker; resolving and corrupted are "pending". */
  function StateOfName(name: string): AmendmentState {
    match Names.StateOf(name)
    case Some(Accepted) => AcceptedState
    case Some(Draft) => DraftState
    case _ => PendingState
  }

  function Filter(ts: seq<Target>, p: Target -> bool): (r: seq<Target>)
    ensures forall t :: t in r <==> t in ts && p(t)
    ensures |r| == 0 <==> forall t | t in ts :: !p(t)
  {
    if |ts| == 0 then []
    else (if p(ts[0]) then [ts[0]] else []) + Filter(ts[1..], p)
  }

  // ---------------------------------------------------------------------------
  // Drift check
  // ---------------------------------------------------------------------------

  const StaleReason: string := "stale_reason"
  const StalePath: string := "stale_amendment_path"
  const DriftReason: string := "amendments_drift_detected"

  /** The LAW header after drift is detected: the reason set, the path of the
      amendment that made it stale and `status` removed, every other key kept. */
  function DriftFields(fs: seq<Field>): (r: seq<Field>)
    ensures Lookup(r, StaleReason) == Some(DriftReason)
    ensures Lookup(r, StalePath).None? && Lookup(r, StatusKey).None?
    ensures forall k | k != StaleReason && k != StalePath && k != StatusKey :: Lookup(r, k) == Lookup(fs, k)
  {
    RemoveKeys(Put(fs, StaleReason, DriftReason), {StalePath, StatusKey})
  }

  /** write_frontmatter's order: the parsed order without `status`, then the stale keys
      the mapping holds and the order lacks. */
  function DriftOrder(fs: seq<Field>, m: seq<Field>): seq<string> {
    var order := WithoutAll(Keys(fs), {StatusKey});
    var order := if Lookup(m, StaleReason).Some? && StaleReason !in order then order + [StaleReason] else order;
    if Lookup(m, StalePath).Some? && StalePath !in order then order + [StalePath] else order
  }

  function DriftText(rec: Record): string {
    var m := DriftFields(rec.fields);
    Write(m, DriftOrder(rec.fields, m), true, rec.body)
  }

  /** mark_law_stale_if_drift: an active LAW with a header whose quote-stripped
      `amendments_hash` is not the current one is rewritten and renamed resolving. */
  function MarkStaleIfDrift(sha: Digest, s: Snapshot): (r: Snapshot)
    ensures r.amendments == s.amendments
    ensures r != s ==> DiscoverLaw(Prefixed, s) == Some(Located(LawName(Prefixed, Active), Active))
    ensures r != s ==> HasHeader(s.constitution[LawName(Prefixed, Active)])
    ensures r != s ==> Unquoted(Read(s.constitution[LawName(Prefixed, Active)]).value.fields, Verifier.HashKey)
                         != HashFeed.AmendmentsHash(sha, Prefixed, s)
  {
    match DiscoverLaw(Prefixed, s)
    case None => s
    case Some(Located(name, st)) =>
      if st != Active then s
      else
        match Read(s.constitution[name])
        case None => s
        case Some(rec) =>
          if Unquoted(rec.fields, Verifier.HashKey) == HashFeed.AmendmentsHash(sha, Prefixed, s) then s
          else s.(constitution := Move(s.constitution, name, LawName(Prefixed, Resolving), DriftText(rec)))
  }

  // ---------------------------------------------------------------------------
  // The guards
  // ---------------------------------------------------------------------------

  datatype DenyReason = FoundingImmutable | LawDerived | ExistingNotDraft | AcceptanceReserved | NewNotDraft | NewWithoutHeader
  datatype Decision = Allow | Deny(reason: DenyReason)

  /** The guards of main, in priority order. `acceptsStatus` and `draftHeader` are
      the regular-expression tests contains_status_accepted_update and
      contains_valid_draft_frontmatter over the serialised tool input. */
  function Guard(s: Snapshot, targets: seq<Target>, acceptsStatus: bool, draftHeader: bool): (r: Decision)
    ensures r == Deny(FoundingImmutable) <==>
      (exists t | t in targets :: IsFoundingTarget(t))
      && DiscoverFounding(Prefixed, s).Some? && DiscoverFounding(Prefixed, s).value.state == Founding
    ensures r == Deny(LawDerived) <==>
      (forall t | t in targets :: !IsFoundingTarget(t)) && (exists t | t in targets :: IsLawTarget(t))
      && !(DiscoverLaw(Prefixed, s).Some? && DiscoverLaw(Prefixed, s).value.state == Resolving)
    ensures (forall t | t in targets :: !IsFoundingTarget(t) && !IsLawTarget(t)) ==> r.Allow? || r.reason !in {FoundingImmutable, LawDerived}
  {
    if |Filter(targets, IsFoundingTarget)| > 0 then
      (match DiscoverFounding(Prefixed, s)
       case Some(Located(_, Founding)) => Deny(FoundingImmutable)
       case _ => Allow)
    else if |Filter(targets, IsLawTarget)| > 0 then
      (match DiscoverLaw(Prefixed, s)
       case Some(Located(_, Resolving)) => Allow
       case _ => Deny(LawDerived))
    else AmendmentGuard(Filter(targets, IsAmendmentTarget), acceptsStatus, draftHeader)
  }

  /** The regular amendment guard, over the amendment targets in input order. */
  function AmendmentGuard(amendments: seq<Target>, acceptsStatus: bool, draftHeader: bool): (r: Decision)
    ensures |amendments| == 0 ==> r == Allow
    ensures r.Deny? ==> r.reason in {ExistingNotDraft, AcceptanceReserved, NewNotDraft, NewWithoutHeader}
    ensures r == Deny(AcceptanceReserved) ==> acceptsStatus && exists t | t in amendments :: t.present
    ensures r == Deny(ExistingNotDraft) ==> exists t | t in amendments :: t.present && StateOfName(t.name) != DraftState
    ensures r == Deny(NewNotDraft) || r == Deny(NewWithoutHeader) ==> forall t | t in amendments :: !t.present
    ensures r == Deny(NewWithoutHeader) ==> !draftHeader
  {
    var existing := Filter(amendments, (t: Target) => t.present);
    if |amendments| == 0 then Allow
    else if |existing| > 0 then
      AllDraft(existing);
      if (set t | t in existing :: StateOfName(t.name)) == {DraftState} then
        if acceptsStatus then Deny(AcceptanceReserved) else Allow
      else Deny(ExistingNotDraft)
    else if StateOfName(amendments[0].name) != DraftState then Deny(NewNotDraft)
    else if !draftHeader then Deny(NewWithoutHeader)
    else Allow
  }

  /** The normalised targets of every collected path, in order. */
  function Targets(input: Json, textPaths: seq<string>, resolve: string -> Target): (r: seq<Target>)
    ensures |r| == |Collect(input) + textPaths|
    ensures forall i | 0 <= i < |r| :: r[i] == resolve((Collect(input) + textPaths)[i])
    ensures forall t :: t in r <==> exists p | p in Collect(input) + textPaths :: t == resolve(p)
  {
    var paths := Collect(input) + textPaths;
    var r := seq(|paths|, i requires 0 <= i < |paths| => resolve(paths[i]));
    assert forall p | p in paths :: resolve(p) in r by {
      forall p | p in paths ensures resolve(p) in r {
        var i :| 0 <= i < |paths| && paths[i] == p;
        assert r[i] == resolve(p);
      }
    }
    r
  }

  /** main: the drift check runs first and the guards see its result. `textPaths`
      are the amendment paths the regular expression finds in the serialised input,
      `resolve` is normalize_path. */
  function PreToolUse(sha: Digest, s: Snapshot, input: Json, textPaths: seq<string>, resolve: string -> Target,
                      acceptsStatus: bool, draftHeader: bool): (r: (Snapshot, Decision))
    ensures r.0 == MarkStaleIfDrift(sha, s) && r.0.amendments == s.amendments
    ensures r.1 == Guard(r.0, Targets(input, textPaths, resolve), acceptsStatus, draftHeader)
    ensures (forall t | t in Targets(input, textPaths, resolve) :: !IsLawTarget(t)) ==>
      r.1 == Guard(s, Targets(input, textPaths, resolve), acceptsStatus, draftHeader)
  {
    var s1 := MarkStaleIfDrift(sha, s);
    var targets := Targets(input, textPaths, resolve);
    GuardReadsLawOnly(s, s1, targets, acceptsStatus, draftHeader);
    (s1, Guard(s1, targets, acceptsStatus, draftHeader))
  }

  // ---------------------------------------------------------------------------
  // Properties of path collection
  // ---------------------------------------------------------------------------

  /** A string under a path key is collected. */
  lemma {:induction false} CollectsPathMember(v: Json, i: nat, j: nat)
    requires v.JObj? && i <= j < |v.entries|
    requires v.entries[j].key in PathKeys && v.entries[j].value.JStr?
    ensures v.entries[j].value.s in CollectMembers(v, i)
    decreases j - i
  {
    if i < j {
      CollectsPathMember(v, i + 1, j);
    }
  }

  /** Every path found inside another member's value is collected too. */
  lemma {:induction false} CollectsNested(v: Json, i: nat, j: nat, p: string)
    requires v.JObj? && i <= j < |v.entries|
    requires !(v.entries[j].key in PathKeys && v.entries[j].value.JStr?)
    requires p in Collect(v.entries[j].value)
    ensures p in CollectMembers(v, i)
    decreases j - i
  {
    if i < j {
      CollectsNested(v, i + 1, j, p);
    }
  }

  /** Everything collected from an array comes from one of its items. */
  lemma {:induction false} CollectedFromItem(v: Json, i: nat, p: string)
    requires v.JArr? && i <= |v.items| && p in CollectItems(v, i)
    ensures exists j | i <= j < |v.items| :: p in Collect(v.items[j])
    decreases |v.items| - i
  {
    if p !in Collect(v.items[i]) {
      CollectedFromItem(v, i + 1, p);
    }
  }

  // ---------------------------------------------------------------------------
  // Properties of the drift check
  // ---------------------------------------------------------------------------

  lemma DriftKeysClean()
    ensures CleanKey(StaleReason) && CleanValue(DriftReason)
    ensures StaleReason != StalePath && StaleReason != StatusKey
  {
    WordClean(StaleReason);
    WordClean(DriftReason);
    assert |StaleReason| != |StalePath| && |StaleReason| != |StatusKey|;
  }

  lemma DriftOrderDistinct(fs: seq<Field>, m: seq<Field>)
    requires UniqueKeys(fs)
    ensures Distinct(DriftOrder(fs, m))
  {
    DriftKeysClean();
  }

  /** Unlike promote_article's mark_law_stale, this writer appends the stale keys it
      set: the LAW reads back with `stale_reason` recorded. */
  lemma DriftTextReadsBack(rec: Record)
    requires Clean(rec.fields)
    ensures Read(DriftText(rec)).Some? && Read(DriftText(rec)).value.body == rec.body
    ensures forall k :: Lookup(Read(DriftText(rec)).value.fields, k) == Lookup(DriftFields(rec.fields), k)
  {
    var m := DriftFields(rec.fields);
    DriftKeysClean();
    PutClean(rec.fields, StaleReason, DriftReason);
    RemoveClean(Put(rec.fields, StaleReason, DriftReason), {StalePath, StatusKey});
    DriftOrderDistinct(rec.fields, m);
    WriteReadBack(m, DriftOrder(rec.fields, m), true, rec.body);
    forall k ensures Lookup(Emit(m, DriftOrder(rec.fields, m), true), k) == Lookup(m, k) {
      EmitLookup(m, DriftOrder(rec.fields, m), true, k);
    }
  }

  lemma PrefixLawNamesApart()
    ensures LawName(Prefixed, Active) != LawName(Prefixed, Resolving)
  {
    SpellState(Prefixed, LawMarker(Active), LawBase);
    SpellState(Prefixed, LawMarker(Resolving), LawBase);
  }

  /** The drift check acts exactly on an active LAW with a header whose recorded hash
      is stale. */
  lemma DriftAction(sha: Digest, s: Snapshot)
    ensures MarkStaleIfDrift(sha, s) != s <==>
      (DiscoverLaw(Prefixed, s) == Some(Located(LawName(Prefixed, Active), Active))
       && HasHeader(s.constitution[LawName(Prefixed, Active)])
       && Unquoted(Read(s.constitution[LawName(Prefixed, Active)]).value.fields, Verifier.HashKey)
          != HashFeed.AmendmentsHash(sha, Prefixed, s))
  {
    var active := LawName(Prefixed, Active);
    if MarkStaleIfDrift(sha, s) == s && DiscoverLaw(Prefixed, s) == Some(Located(active, Active)) && HasHeader(s.constitution[active])
       && Unquoted(Read(s.constitution[active]).value.fields, Verifier.HashKey) != HashFeed.AmendmentsHash(sha, Prefixed, s) {
      DriftStep(sha, s);
      PrefixLawNamesApart();
      assert false;
    }
  }

  lemma DriftStep(sha: Digest, s: Snapshot)
    requires DiscoverLaw(Prefixed, s) == Some(Located(LawName(Prefixed, Active), Active))
    requires HasHeader(s.constitution[LawName(Prefixed, Active)])
    requires Unquoted(Read(s.constitution[LawName(Prefixed, Active)]).value.fields, Verifier.HashKey)
          != HashFeed.AmendmentsHash(sha, Prefixed, s)
    ensures var active := LawName(Prefixed, Active);
      MarkStaleIfDrift(sha, s)
        == s.(constitution := Move(s.constitution, active, LawName(Prefixed, Resolving), DriftText(Read(s.constitution[active]).value)))
  {
  }

  /** After the drift check renames it, the LAW is discovered resolving. */
  lemma DriftResolves(sha: Digest, s: Snapshot)
    ensures MarkStaleIfDrift(sha, s) != s ==>
      DiscoverLaw(Prefixed, MarkStaleIfDrift(sha, s)) == Some(Located(LawName(Prefixed, Resolving), Resolving))
    ensures MarkStaleIfDrift(sha, s) == s && DiscoverLaw(Prefixed, s).Some? ==>
      DiscoverLaw(Prefixed, MarkStaleIfDrift(sha, s)).value.state == DiscoverLaw(Prefixed, s).value.state
  {
    var s1 := MarkStaleIfDrift(sha, s);
    if s1 != s {
      DriftRenames(sha, s);
      ResolvingFound(s1);
    }
  }

  lemma DriftRenames(sha: Digest, s: Snapshot)
    requires MarkStaleIfDrift(sha, s) != s
    ensures LawName(Prefixed, Active) !in MarkStaleIfDrift(sha, s).constitution
    ensures LawName(Prefixed, Resolving) in MarkStaleIfDrift(sha, s).constitution
  {
    DriftStep(sha, s);
    PrefixLawNamesApart();
  }

  lemma ResolvingFound(s: Snapshot)
    requires LawName(Prefixed, Active) !in s.constitution && LawName(Prefixed, Resolving) in s.constitution
    ensures DiscoverLaw(Prefixed, s) == Some(Located(LawName(Prefixed, Resolving), Resolving))
  {
  }

  /** The hook and verify_kernel_hash agree: for a digest that is never empty, an
      active LAW with a header is left alone exactly when it verifies. */
  lemma DriftIffUnverified(sha: Digest, s: Snapshot)
    requires DiscoverLaw(Prefixed, s) == Some(Located(LawName(Prefixed, Active), Active))
    requires HasHeader(s.constitution[LawName(Prefixed, Active)])
    requires HashFeed.AmendmentsHash(sha, Prefixed, s) != ""
    ensures MarkStaleIfDrift(sha, s) == s <==> Verifier.Verify(sha, Prefixed, s) == Verifier.Pass
  {
    var text := s.constitution[LawName(Prefixed, Active)];
    var fs := ReadHeader(text).value;
    DriftAction(sha, s);
    PrefixLawNamesApart();
    assert Verifier.ReadLawHeader(text) == Unquote(fs);
    if Lookup(fs, Verifier.HashKey).None? {
      assert StripQuotes("") == "";
    }
  }

  // ---------------------------------------------------------------------------
  // Properties of the guards
  // ---------------------------------------------------------------------------

  /** `states == {"draft"}`: every existing target is a draft. */
  lemma AllDraft(existing: seq<Target>)
    requires |existing| > 0
    ensures (set t | t in existing :: StateOfName(t.name)) == {DraftState}
        <==> forall t | t in existing :: StateOfName(t.name) == DraftState
  {
    var states := set t | t in existing :: StateOfName(t.name);
    assert StateOfName(existing[0].name) in states;
    if forall t | t in existing :: StateOfName(t.name) == DraftState {
      assert forall x | x in states :: x == DraftState;
      assert states == {DraftState};
    }
    if states == {DraftState} {
      forall t | t in existing ensures StateOfName(t.name) == DraftState {
        assert StateOfName(t.name) in states;
      }
    }
  }

  /** A founding target decides alone: denied exactly when the founding record is
      accepted, allowed otherwise (including its creation). */
  lemma FoundingGuard(s: Snapshot, targets: seq<Target>, a: bool, d: bool)
    requires exists t | t in targets :: IsFoundingTarget(t)
    ensures Guard(s, targets, a, d) != Allow <==> DiscoverFounding(Prefixed, s).Some? && DiscoverFounding(Prefixed, s).value.state == Founding
    ensures Guard(s, targets, a, d) != Allow ==> Guard(s, targets, a, d) == Deny(FoundingImmutable)
  {
  }

  /** Otherwise a LAW target decides: allowed exactly while the LAW is resolving. */
  lemma LawGuard(s: Snapshot, targets: seq<Target>, a: bool, d: bool)
    requires forall t | t in targets :: !IsFoundingTarget(t)
    requires exists t | t in targets :: IsLawTarget(t)
    ensures Guard(s, targets, a, d) == Allow <==> DiscoverLaw(Prefixed, s).Some? && DiscoverLaw(Prefixed, s).value.state == Resolving
    ensures Guard(s, targets, a, d) != Allow ==> Guard(s, targets, a, d) == Deny(LawDerived)
  {
  }

  /** With neither, the amendment guard decides. */
  lemma AmendmentsDecide(s: Snapshot, targets: seq<Target>, a: bool, d: bool)
    requires forall t | t in targets :: !IsFoundingTarget(t) && !IsLawTarget(t)
    ensures Guard(s, targets, a, d) == AmendmentGuard(Filter(targets, IsAmendmentTarget), a, d)
  {
  }

  /** Existing amendment targets: allowed exactly when all are drafts and the input
      does not set `status: accepted`. */
  lemma ExistingGuard(amendments: seq<Target>, a: bool, d: bool)
    requires exists t | t in amendments :: t.present
    ensures AmendmentGuard(amendments, a, d) == Allow <==>
      !a && forall t | t in amendments && t.present :: StateOfName(t.name) == DraftState
  {
    var existing := Filter(amendments, (t: Target) => t.present);
    AllDraft(existing);
  }

  /** A new amendment: allowed exactly when the first amendment target is a draft name
      and the input carries a draft header. */
  lemma NewGuard(amendments: seq<Target>, a: bool, d: bool)
    requires |amendments| > 0 && forall t | t in amendments :: !t.present
    ensures AmendmentGuard(amendments, a, d) == Allow <==> StateOfName(amendments[0].name) == DraftState && d
  {
  }

  /** Of the whole snapshot, the guards read the LAW's state only for LAW targets. */
  lemma GuardReadsLawOnly(s: Snapshot, s1: Snapshot, targets: seq<Target>, a: bool, d: bool)
    requires s1.amendments == s.amendments
    ensures (forall t | t in targets :: !IsLawTarget(t)) ==> Guard(s1, targets, a, d) == Guard(s, targets, a, d)
  {
    assert DiscoverFounding(Prefixed, s1) == DiscoverFounding(Prefixed, s);
  }

  /** Claiming acceptance never helps and carrying a draft header never hurts. */
  lemma GuardMonotone(s: Snapshot, targets: seq<Target>, a: bool, d: bool)
    ensures Guard(s, targets, true, d) == Allow ==> Guard(s, targets, false, d) == Allow
    ensures Guard(s, targets, a, false) == Allow ==> Guard(s, targets, a, true) == Allow
  {
  }

  /** Because the drift check runs first, a write to the LAW is allowed right after
      its hash is found stale, and denied while it still verifies. */
  lemma DriftOpensLaw(sha: Digest, s: Snapshot, input: Json, textPaths: seq<string>, resolve: string -> Target, a: bool, d: bool)
    requires DiscoverLaw(Prefixed, s) == Some(Located(LawName(Prefixed, Active), Active))
    requires HasHeader(s.constitution[LawName(Prefixed, Active)])
    requires forall t | t in Targets(input, textPaths, resolve) :: !IsFoundingTarget(t)
    requires exists t | t in Targets(input, textPaths, resolve) :: IsLawTarget(t)
    ensures PreToolUse(sha, s, input, textPaths, resolve, a, d).1 == Allow <==> MarkStaleIfDrift(sha, s) != s
  {
    var s1 := MarkStaleIfDrift(sha, s);
    LawGuard(s1, Targets(input, textPaths, resolve), a, d);
    DriftResolves(sha, s);
  }
}
