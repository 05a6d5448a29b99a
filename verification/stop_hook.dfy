/** hook_stop_inject_stale_law: at the end of an agent turn, delegate pending work
    (evaluating drafts in review, reconciling a stale LAW) to a subagent, guarded by
    an activity lock kept in the target's header. The hook spells names with the
    suffix scheme. */
module StopHook {
  import opened Wrappers
  import opened PyStr
  import opened Frontmatter
  import Names
  import Order
  import opened Store
  import opened Records
  import Stamp
  import Verifier
  import Promotion
  import HashFeed

  const LockTimeout: int := 300
  const EvalField: string := "evaluation_started_at"
  const ResolutionField: string := "resolution_started_at"

  /** The founding draft the hook looks for. */
  function FoundingDraftName(): string {
    FoundingName(Suffixed, FoundingDraft)
  }

  // ---------------------------------------------------------------------------
  // Which drafts need evaluation
  // ---------------------------------------------------------------------------

  /** The hook's reading of a record: quote-stripped values, an absent header read
      as an empty dictionary. */
  function Word(text: string, k: string): string {
    Get(ReadQuoted(text), k)
  }

  /** The digest of the record's trimmed body, as body_hash computes it. */
  function CurrentHash(sha: Digest, text: string): string {
    sha(Strip(ExtractBody(text)))
  }

  /** _needs_eval: in review, with no approval, a pending one, or one that is not the
      hash of the current body. */
  predicate NeedsEval(sha: Digest, text: string)
    ensures LowerAscii(Word(text, StatusKey)) != "review" ==> !NeedsEval(sha, text)
    ensures LowerAscii(Word(text, StatusKey)) == "review" ==>
      (NeedsEval(sha, text) <==>
         Word(text, ApplyOkKey) != CurrentHash(sha, text) || CurrentHash(sha, text) in {"", Stamp.PendingMark})
  {
    var approval := Word(text, ApplyOkKey);
    LowerAscii(Word(text, StatusKey)) == "review"
    && (approval == "" || approval == Stamp.PendingMark || approval != CurrentHash(sha, text))
  }

  /** The amendment drafts the hook lists: `.📝`-suffixed, not the founding record. */
  predicate DraftListed(name: string) {
    Names.Suffix(name) == Names.MarkSuffix(Names.Draft) && !StartsWith(name, FoundingBase)
  }

  /** What drafts_needing_suitability reports. */
  datatype Pending = Pending(founding: bool, paths: seq<string>)

  /** drafts_needing_suitability: the founding draft alone when it needs evaluation,
      otherwise every listed draft that does, in sorted order. */
  function DraftsNeeding(sha: Digest, s: Snapshot): (r: Pending)
    ensures r.founding <==> FoundingDraftName() in s.amendments && NeedsEval(sha, s.amendments[FoundingDraftName()])
    ensures r.founding ==> r.paths == [FoundingDraftName()]
    ensures !r.founding ==> Order.StrictlySorted(r.paths)
    ensures !r.founding ==> forall n :: n in r.paths <==> n in s.amendments && DraftListed(n) && NeedsEval(sha, s.amendments[n])
  {
    var f := FoundingDraftName();
    if f in s.amendments && NeedsEval(sha, s.amendments[f]) then Pending(true, [f])
    else Pending(false, Order.Sorted(Needing(sha, s.amendments)))
  }

  function Needing(sha: Digest, dir: map<string, string>): set<string> {
    set n | n in dir && DraftListed(n) && NeedsEval(sha, dir[n])
  }

  // ---------------------------------------------------------------------------
  // Activity locks
  // ---------------------------------------------------------------------------

  datatype LockState = Available | Locked | Stale

  /** The age in seconds of a lock timestamp at the moment the hook runs, or `None`
      when the timestamp does not parse: the clock and fromisoformat, as an input. */
  type Age = string -> Option<int>

  /** check_lock on the file `name` of `dir`. */
  function CheckLock(dir: map<string, string>, name: string, field: string, age: Age): (r: LockState)
    ensures r == Locked <==> (
      name in dir && Lookup(ReadQuoted(dir[name]), field).Some?
      && Lookup(ReadQuoted(dir[name]), field).value != ""
      && age(Lookup(ReadQuoted(dir[name]), field).value).Some?
      && age(Lookup(ReadQuoted(dir[name]), field).value).value < LockTimeout)
    ensures r == Stale <==> (
      name in dir && Lookup(ReadQuoted(dir[name]), field).Some?
      && Lookup(ReadQuoted(dir[name]), field).value != ""
      && age(Lookup(ReadQuoted(dir[name]), field).value).Some?
      && age(Lookup(ReadQuoted(dir[name]), field).value).value >= LockTimeout)
  {
    if name !in dir then Available
    else
      match Lookup(ReadQuoted(dir[name]), field)
      case None => Available
      case Some(v) =>
        if v == "" then Available
        else
          match age(v)
          case None => Available
          case Some(a) => if a >= LockTimeout then Stale else Locked
  }

  /** Taking the lock: a stale timestamp is cleared, then `stamp` is set. */
  function Acquire(text: string, field: string, stamp: string, st: LockState): string {
    var cleared := if st == Stale then WriteField(text, field, None) else text;
    WriteField(cleared, field, Some(stamp))
  }

  // ---------------------------------------------------------------------------
  // main
  // ---------------------------------------------------------------------------

  datatype Agent = Framer | Ratifier | Codifier

  /** The hook's output: `{}`, or a follow-up message delegating to a subagent. */
  datatype Reply = Silent | Delegate(agent: Agent)

  datatype Outcome = Outcome(after: Snapshot, reply: Reply)

  /** main of the hook. `stamp` is the quoted current time it writes; the verifier
      subprocess is verify_kernel_hash itself. */
  function Stop(sha: Digest, s: Snapshot, stamp: string, age: Age): (r: Outcome)
    ensures r.reply == Silent ==> r.after == s
    ensures r.after.amendments == s.amendments || r.after.constitution == s.constitution
    ensures r.reply == Delegate(Framer) <==>
      (DraftsNeeding(sha, s).founding
       && CheckLock(s.amendments, FoundingDraftName(), EvalField, age) != Locked)
    ensures r.reply == Delegate(Ratifier) <==>
      (!DraftsNeeding(sha, s).founding && DraftsNeeding(sha, s).paths != []
       && CheckLock(s.amendments, DraftsNeeding(sha, s).paths[0], EvalField, age) != Locked)
    ensures r.reply == Delegate(Codifier) <==>
      (DraftsNeeding(sha, s).paths == []
       && Verifier.VerifyKernelHash(sha, s) != Verifier.Pass
       && CheckLock(s.constitution, LawName(Suffixed, Resolving), ResolutionField, age) != Locked)
  {
    var p := DraftsNeeding(sha, s);
    if |p.paths| > 0 then
      var target := p.paths[0];
      var st := CheckLock(s.amendments, target, EvalField, age);
      if st == Locked then Outcome(s, Silent)
      else
        var text := Acquire(s.amendments[target], EvalField, stamp, st);
        Outcome(s.(amendments := s.amendments[target := text]), Delegate(if p.founding then Framer else Ratifier))
    else if Verifier.VerifyKernelHash(sha, s) == Verifier.Pass then Outcome(s, Silent)
    else
      var law := LawName(Suffixed, Resolving);
      var st := CheckLock(s.constitution, law, ResolutionField, age);
      if st == Locked then Outcome(s, Silent)
      else if law in s.constitution then
        Outcome(s.(constitution := s.constitution[law := Acquire(s.constitution[law], ResolutionField, stamp, st)]), Delegate(Codifier))
      else Outcome(s, Delegate(Codifier))
  }

  // ---------------------------------------------------------------------------
  // Properties
  // ---------------------------------------------------------------------------

  /** A draft needs evaluation exactly when promote_article would refuse it for a
      stale approval: the stop hook and promotion agree on what "approved" means,
      for any digest that is non-empty lowercase hexadecimal. */
  lemma NeedsEvalIsStale(sha: Digest, text: string)
    requires HasHeader(text)
    requires Hex(BodyHash(sha, Body(text))) && BodyHash(sha, Body(text)) != ""
    ensures NeedsEval(sha, text) <==> Promotion.CheckReviewed(sha, text) == Failure(StaleApproval)
  {
    WordOfHeader(text, StatusKey);
    WordOfHeader(text, ApplyOkKey);
    HashOfHeader(sha, text);
    Stamp.PendingNotDigest(BodyHash(sha, Body(text)));
  }

  lemma WordOfHeader(text: string, k: string)
    requires HasHeader(text)
    ensures Word(text, k) == Unquoted(ReadHeader(text).value, k)
  {
    var fs := ReadHeader(text).value;
    if Lookup(fs, k).None? {
      assert StripQuotes("") == "";
    }
  }

  lemma HashOfHeader(sha: Digest, text: string)
    requires HasHeader(text)
    ensures CurrentHash(sha, text) == BodyHash(sha, Body(text))
  {
    ExtractBodyIsBody(text);
    StripOfTrimmed(ExtractBody(text));
  }

  /** The value check_lock reads back from a timestamp the hook wrote. */
  function SeenAs(stamp: string): string {
    StripQuotes(Strip(stamp))
  }

  /** `_now_iso` writes `f'"{iso}"'`, which reads back as the bare ISO text. */
  lemma QuotedStampSeen(iso: string)
    requires Unquotable(iso)
    ensures SeenAs(Quoted(iso)) == iso
  {
    StripOfTrimmed(Quoted(iso));
    QuotesRoundTrip(iso);
  }

  /** Taking a lock sets the field, as check_lock will read it, and nothing else. */
  lemma AcquireSetsLock(text: string, field: string, stamp: string, st: LockState)
    requires SafeHeader(text) && CleanKey(field) && NoBreak(stamp)
    ensures SafeHeader(Acquire(text, field, stamp, st))
    ensures Body(Acquire(text, field, stamp, st)) == Body(text)
    ensures Lookup(ReadQuoted(Acquire(text, field, stamp, st)), field) == Some(SeenAs(stamp))
    ensures forall k | k != field ::
      Lookup(ReadHeader(Acquire(text, field, stamp, st)).value, k) == Lookup(ReadHeader(text).value, k)
  {
    var cleared := if st == Stale then WriteField(text, field, None) else text;
    if st == Stale {
      WriteFieldEffect(text, field, None);
    }
    WriteFieldEffect(cleared, field, Some(stamp));
  }

  /** A header edit to a field other than `status` and `apply_ok_at` does not change
      whether a draft needs evaluation. */
  lemma NeedsEvalKept(sha: Digest, text: string, text': string)
    requires HasHeader(text) && HasHeader(text') && Body(text') == Body(text)
    requires Lookup(ReadHeader(text').value, StatusKey) == Lookup(ReadHeader(text).value, StatusKey)
    requires Lookup(ReadHeader(text').value, ApplyOkKey) == Lookup(ReadHeader(text).value, ApplyOkKey)
    ensures NeedsEval(sha, text') == NeedsEval(sha, text)
  {
    WordKept(text, text', StatusKey);
    WordKept(text, text', ApplyOkKey);
    ExtractBodyIsBody(text);
    ExtractBodyIsBody(text');
    assert CurrentHash(sha, text') == CurrentHash(sha, text);
  }

  lemma WordKept(text: string, text': string, k: string)
    requires HasHeader(text) && HasHeader(text')
    requires Lookup(ReadHeader(text').value, k) == Lookup(ReadHeader(text).value, k)
    ensures Word(text', k) == Word(text, k)
  {
  }

  lemma LockFieldsApart()
    ensures CleanKey(EvalField) && CleanKey(ResolutionField)
    ensures EvalField != StatusKey && EvalField != ApplyOkKey
  {
    WordClean(EvalField);
    WordClean(ResolutionField);
    assert |EvalField| != |StatusKey| && |EvalField| != |ApplyOkKey|;
  }

  /** Re-writing one amendment in a way that keeps whether it needs evaluation keeps
      the hook's work list. */
  lemma DraftsNeedingKept(sha: Digest, s: Snapshot, name: string, text: string)
    requires name in s.amendments && NeedsEval(sha, text) == NeedsEval(sha, s.amendments[name])
    ensures DraftsNeeding(sha, s.(amendments := s.amendments[name := text])) == DraftsNeeding(sha, s)
  {
    var s' := s.(amendments := s.amendments[name := text]);
    NeedingKept(sha, s.amendments, name, text);
    var f := FoundingDraftName();
    if f != name && f in s.amendments {
      assert s'.amendments[f] == s.amendments[f];
    }
  }

  lemma NeedingKept(sha: Digest, dir: map<string, string>, name: string, text: string)
    requires name in dir && NeedsEval(sha, text) == NeedsEval(sha, dir[name])
    ensures Needing(sha, dir[name := text]) == Needing(sha, dir)
  {
    var dir' := dir[name := text];
    forall n ensures n in Needing(sha, dir') <==> n in Needing(sha, dir) {
      if n != name && n in dir {
        assert dir'[n] == dir[n];
      }
    }
  }

  /** A draft evaluation lock the hook took is honoured: once a run has taken the
      lock and delegated, any later run that finds the timestamp less than
      LOCK_TIMEOUT_SECONDS old backs off silently and changes nothing. */
  lemma DraftLockBacksOff(sha: Digest, s: Snapshot, stamp: string, age: Age, later: Age)
    requires DraftsNeeding(sha, s).paths != [] && SafeHeader(s.amendments[DraftsNeeding(sha, s).paths[0]])
    requires CheckLock(s.amendments, DraftsNeeding(sha, s).paths[0], EvalField, age) != Locked
    requires NoBreak(stamp) && SeenAs(stamp) != ""
    requires later(SeenAs(stamp)).Some? && later(SeenAs(stamp)).value < LockTimeout
    ensures Stop(sha, s, stamp, age).reply.Delegate?
    ensures Stop(sha, Stop(sha, s, stamp, age).after, stamp, later) == Outcome(Stop(sha, s, stamp, age).after, Silent)
  {
    var target := DraftsNeeding(sha, s).paths[0];
    var st := CheckLock(s.amendments, target, EvalField, age);
    var s1 := Stop(sha, s, stamp, age).after;
    DraftStep(sha, s, stamp, age);
    AcquireKeepsWork(sha, s, target, stamp, st);
    LockFieldsApart();
    AcquireLocks(s.amendments, target, EvalField, stamp, st, later);
    LockedIsSilent(sha, s1, stamp, later);
  }

  /** What a run with work to do writes: the lock on the first item, unless it is held. */
  lemma DraftStep(sha: Digest, s: Snapshot, stamp: string, age: Age)
    requires DraftsNeeding(sha, s).paths != []
    ensures var target := DraftsNeeding(sha, s).paths[0];
      var st := CheckLock(s.amendments, target, EvalField, age);
      Stop(sha, s, stamp, age).after
        == if st == Locked then s else s.(amendments := s.amendments[target := Acquire(s.amendments[target], EvalField, stamp, st)])
  {
  }

  /** Taking the evaluation lock on a draft leaves the hook's work list as it was. */
  lemma AcquireKeepsWork(sha: Digest, s: Snapshot, target: string, stamp: string, st: LockState)
    requires target in s.amendments && SafeHeader(s.amendments[target]) && NoBreak(stamp)
    ensures DraftsNeeding(sha, s.(amendments := s.amendments[target := Acquire(s.amendments[target], EvalField, stamp, st)]))
         == DraftsNeeding(sha, s)
  {
    var text := Acquire(s.amendments[target], EvalField, stamp, st);
    LockFieldsApart();
    AcquireSetsLock(s.amendments[target], EvalField, stamp, st);
    NeedsEvalKept(sha, s.amendments[target], text);
    DraftsNeedingKept(sha, s, target, text);
  }

  /** A lock just taken reads as held by any run that finds it younger than the timeout. */
  lemma AcquireLocks(dir: map<string, string>, target: string, field: string, stamp: string, st: LockState, later: Age)
    requires target in dir && SafeHeader(dir[target]) && CleanKey(field) && NoBreak(stamp) && SeenAs(stamp) != ""
    requires later(SeenAs(stamp)).Some? && later(SeenAs(stamp)).value < LockTimeout
    ensures CheckLock(dir[target := Acquire(dir[target], field, stamp, st)], target, field, later) == Locked
  {
    AcquireSetsLock(dir[target], field, stamp, st);
  }

  /** A run whose first work item is locked replies nothing and changes nothing. */
  lemma LockedIsSilent(sha: Digest, s: Snapshot, stamp: string, age: Age)
    requires DraftsNeeding(sha, s).paths != []
    requires CheckLock(s.amendments, DraftsNeeding(sha, s).paths[0], EvalField, age) == Locked
    ensures Stop(sha, s, stamp, age) == Outcome(s, Silent)
  {
  }

  /** What a run with no draft work and a failing verification writes: the lock on
      `LAW.⏳` when that file exists and the lock is not held. */
  lemma LawStep(sha: Digest, s: Snapshot, stamp: string, age: Age)
    requires DraftsNeeding(sha, s).paths == [] && Verifier.VerifyKernelHash(sha, s) != Verifier.Pass
    ensures var law := LawName(Suffixed, Resolving);
      var st := CheckLock(s.constitution, law, ResolutionField, age);
      Stop(sha, s, stamp, age).after
        == if st == Locked || law !in s.constitution then s
           else s.(constitution := s.constitution[law := Acquire(s.constitution[law], ResolutionField, stamp, st)])
  {
  }

  /** Rewriting `LAW.⏳` does not change whether the verifier passes. */
  lemma LawEditKeepsVerdict(sha: Digest, s: Snapshot, text: string)
    requires LawName(Suffixed, Resolving) in s.constitution
    ensures (Verifier.VerifyKernelHash(sha, s.(constitution := s.constitution[LawName(Suffixed, Resolving) := text])) == Verifier.Pass)
         == (Verifier.VerifyKernelHash(sha, s) == Verifier.Pass)
  {
    var s1 := s.(constitution := s.constitution[LawName(Suffixed, Resolving) := text]);
    assert s1.constitution.Keys == s.constitution.Keys;
    assert DiscoverLaw(Suffixed, s1) == DiscoverLaw(Suffixed, s);
    FeedIgnoresLaw(sha, s, s1.constitution);
    LawNamesApart();
  }

  lemma LawNamesApart()
    ensures LawName(Suffixed, Active) != LawName(Suffixed, Resolving)
  {
    SpellState(Suffixed, LawMarker(Active), LawBase);
    SpellState(Suffixed, LawMarker(Resolving), LawBase);
  }

  lemma FeedIgnoresLaw(sha: Digest, s: Snapshot, c: map<string, string>)
    ensures HashFeed.AmendmentsHash(sha, Suffixed, s.(constitution := c)) == HashFeed.AmendmentsHash(sha, Suffixed, s)
  {
    assert HashFeed.FoundingEntry(Suffixed, s.(constitution := c)) == HashFeed.FoundingEntry(Suffixed, s);
  }

  /** The same protocol for the LAW: once a run has locked `LAW.⏳` and delegated to
      the codifier, a later run within the timeout backs off and changes nothing. */
  lemma LawLockBacksOff(sha: Digest, s: Snapshot, stamp: string, age: Age, later: Age)
    requires DraftsNeeding(sha, s).paths == [] && Verifier.VerifyKernelHash(sha, s) != Verifier.Pass
    requires LawName(Suffixed, Resolving) in s.constitution && SafeHeader(s.constitution[LawName(Suffixed, Resolving)])
    requires CheckLock(s.constitution, LawName(Suffixed, Resolving), ResolutionField, age) != Locked
    requires NoBreak(stamp) && SeenAs(stamp) != ""
    requires later(SeenAs(stamp)).Some? && later(SeenAs(stamp)).value < LockTimeout
    ensures Stop(sha, s, stamp, age).reply == Delegate(Codifier)
    ensures Stop(sha, Stop(sha, s, stamp, age).after, stamp, later) == Outcome(Stop(sha, s, stamp, age).after, Silent)
  {
    var law := LawName(Suffixed, Resolving);
    var st := CheckLock(s.constitution, law, ResolutionField, age);
    var s1 := Stop(sha, s, stamp, age).after;
    LawStep(sha, s, stamp, age);
    LawEditKeepsVerdict(sha, s, Acquire(s.constitution[law], ResolutionField, stamp, st));
    LockFieldsApart();
    AcquireLocks(s.constitution, law, ResolutionField, stamp, st, later);
    LockedLawIsSilent(sha, s1, stamp, later);
  }

  lemma LockedLawIsSilent(sha: Digest, s: Snapshot, stamp: string, age: Age)
    requires DraftsNeeding(sha, s).paths == []
    requires CheckLock(s.constitution, LawName(Suffixed, Resolving), ResolutionField, age) == Locked
    ensures Stop(sha, s, stamp, age) == Outcome(s, Silent)
  {
  }

  /** The founding draft pre-empts all other work: while it needs evaluation, the
      hook never hands anything to the ratifier or the codifier. */
  lemma FoundingFirst(sha: Digest, s: Snapshot, stamp: string, age: Age)
    requires FoundingDraftName() in s.amendments && NeedsEval(sha, s.amendments[FoundingDraftName()])
    ensures Stop(sha, s, stamp, age).reply in {Silent, Delegate(Framer)}
    ensures Stop(sha, s, stamp, age).after.constitution == s.constitution
    ensures forall n | n in s.amendments && n != FoundingDraftName() ::
      Stop(sha, s, stamp, age).after.amendments[n] == s.amendments[n]
  {
    var f := FoundingDraftName();
    assert DraftsNeeding(sha, s) == Pending(true, [f]);
    var st := CheckLock(s.amendments, f, EvalField, age);
    if st != Locked {
      var text := Acquire(s.amendments[f], EvalField, stamp, st);
      assert Stop(sha, s, stamp, age) == Outcome(s.(amendments := s.amendments[f := text]), Delegate(Framer));
    }
  }
}
