/** hook_subagent_start and hook_subagent_stop: a constitutional subagent refreshes
    the activity lock of the record it works on when it starts, and clears it when it
    stops. Both hooks spell names with the prefix scheme and always let the subagent
    run. */
module Subagents {
  import opened Wrappers
  import opened PyStr
  import opened Frontmatter
  import Names
  import Order
  import opened Store
  import StopHook

  datatype Subagent = Codifier | Framer | Ratifier | Other

  /** `make_name("📝", ".founding")` */
  function FoundingDraftName(): string {
    FoundingName(Prefixed, FoundingDraft)
  }

  /** `make_name("⏳", "LAW")` */
  function ResolvingLawName(): string {
    LawName(Prefixed, Resolving)
  }

  /** The amendments a ratifier may be working on: prefix-scheme drafts other than
      the founding draft. */
  predicate RatifierDraft(name: string) {
    Names.StateOf(name) == Some(Names.Draft) && name != FoundingDraftName()
  }

  function RatifierDrafts(dir: map<string, string>): set<string> {
    set n | n in dir && RatifierDraft(n)
  }

  /** _find_first_draft: the first such amendment in name order. */
  function FirstDraft(dir: map<string, string>): (r: Option<string>)
    ensures r.None? <==> forall n | n in dir :: !RatifierDraft(n)
    ensures r.Some? ==> r.value in dir && RatifierDraft(r.value)
    ensures r.Some? ==> forall n | n in dir && RatifierDraft(n) :: Order.LessEq(r.value, n)
  {
    var ds := RatifierDrafts(dir);
    if ds == {} then
      assert forall n | n in dir :: n !in ds;
      None
    else Some(Order.Least(ds))
  }

  /** Where an activity lock lives: a directory of the snapshot, a file and a field. */
  datatype Place = InConstitution | InAmendments
  datatype Lock = Lock(place: Place, name: string, field: string)

  function Dir(s: Snapshot, p: Place): map<string, string> {
    match p
    case InConstitution => s.constitution
    case InAmendments => s.amendments
  }

  /** The snapshot with one file of one directory replaced. */
  function Replace(s: Snapshot, p: Place, name: string, text: string): Snapshot {
    match p
    case InConstitution => s.(constitution := s.constitution[name := text])
    case InAmendments => s.(amendments := s.amendments[name := text])
  }

  /** The lock a starting subagent refreshes, when its record exists. */
  function StartLock(s: Snapshot, sub: Subagent): (r: Option<Lock>)
    ensures sub == Other ==> r.None?
    ensures r.Some? ==> r.value.name in Dir(s, r.value.place)
    ensures r.Some? ==> r.value.field == (if sub == Codifier then StopHook.ResolutionField else StopHook.EvalField)
  {
    match sub
    case Codifier =>
      if ResolvingLawName() in s.constitution then Some(Lock(InConstitution, ResolvingLawName(), StopHook.ResolutionField)) else None
    case Framer =>
      if FoundingDraftName() in s.amendments then Some(Lock(InAmendments, FoundingDraftName(), StopHook.EvalField)) else None
    case Ratifier =>
      (match FirstDraft(s.amendments)
       case Some(n) => Some(Lock(InAmendments, n, StopHook.EvalField))
       case None => None)
    case Other => None
  }

  /** hook_subagent_start: `stamp` is the quoted current time `_now_iso` returns. */
  function SubagentStart(s: Snapshot, sub: Subagent, stamp: string): (r: Snapshot)
    ensures StartLock(s, sub).None? ==> r == s
    ensures sub == Other ==> r == s
    ensures sub == Codifier ==> r.amendments == s.amendments
    ensures sub != Codifier ==> r.constitution == s.constitution
  {
    match StartLock(s, sub)
    case None => s
    case Some(l) => Replace(s, l.place, l.name, WriteField(Dir(s, l.place)[l.name], l.field, Some(stamp)))
  }

  /** The text of an amendment after the ratifier's stop hook: drafts lose their
      evaluation lock, everything else is as it was. */
  function Cleared(name: string, text: string): string {
    if RatifierDraft(name) then WriteField(text, StopHook.EvalField, None) else text
  }

  /** hook_subagent_stop. */
  function SubagentStop(s: Snapshot, sub: Subagent): (r: Snapshot)
    ensures sub == Other ==> r == s
    ensures r.amendments.Keys == s.amendments.Keys && r.constitution.Keys == s.constitution.Keys
    ensures sub != Codifier ==> r.constitution == s.constitution
    ensures sub == Codifier ==> r.amendments == s.amendments
    ensures sub == Ratifier ==> forall n | n in s.amendments && !RatifierDraft(n) :: r.amendments[n] == s.amendments[n]
  {
    match sub
    case Codifier =>
      var n := ResolvingLawName();
      if n in s.constitution then s.(constitution := s.constitution[n := WriteField(s.constitution[n], StopHook.ResolutionField, None)]) else s
    case Framer =>
      var n := FoundingDraftName();
      if n in s.amendments then s.(amendments := s.amendments[n := WriteField(s.amendments[n], StopHook.EvalField, None)]) else s
    case Ratifier =>
      s.(amendments := map n | n in s.amendments :: Cleared(n, s.amendments[n]))
    case Other => s
  }

  // ---------------------------------------------------------------------------
  // Properties
  // ---------------------------------------------------------------------------

  /** The loop of _find_first_draft returns the head of the sorted listing. */
  lemma FirstDraftIsFirstSorted(dir: map<string, string>)
    ensures FirstDraft(dir) == if RatifierDrafts(dir) == {} then None else Some(Order.Sorted(RatifierDrafts(dir))[0])
  {
    var ds := RatifierDrafts(dir);
    if ds != {} {
      var xs := Order.Sorted(ds);
      assert Order.IsLeast(xs[0], ds) by {
        forall x | x in ds ensures Order.LessEq(xs[0], x) {
          var j :| 0 <= j < |xs| && xs[j] == x;
        }
      }
      Order.LeastUnique(xs[0], Order.Least(ds), ds);
    }
  }

  /** Starting a subagent refreshes its lock, as a header field reading back as the
      new timestamp, and touches no other field, no body and no other file. */
  lemma StartSetsLock(s: Snapshot, sub: Subagent, stamp: string)
    requires StartLock(s, sub).Some? && SafeHeader(Dir(s, StartLock(s, sub).value.place)[StartLock(s, sub).value.name])
    requires NoBreak(stamp)
    ensures var l := StartLock(s, sub).value;
      var before := Dir(s, l.place)[l.name];
      var after := Dir(SubagentStart(s, sub, stamp), l.place)[l.name];
      SafeHeader(after) && Body(after) == Body(before)
      && Lookup(ReadHeader(after).value, l.field) == Some(Strip(stamp))
      && (forall k | k != l.field :: Lookup(ReadHeader(after).value, k) == Lookup(ReadHeader(before).value, k))
    ensures var l := StartLock(s, sub).value;
      forall n | n in Dir(s, l.place) && n != l.name :: Dir(SubagentStart(s, sub, stamp), l.place)[n] == Dir(s, l.place)[n]
  {
    var l := StartLock(s, sub).value;
    StopHook.LockFieldsApart();
    WriteFieldEffect(Dir(s, l.place)[l.name], l.field, Some(stamp));
  }

  /** A subagent's stop undoes its start: the lock field is gone and every other
      field and the body read as they did before the subagent started. */
  lemma StopUndoesStart(s: Snapshot, sub: Subagent, stamp: string)
    requires StartLock(s, sub).Some? && SafeHeader(Dir(s, StartLock(s, sub).value.place)[StartLock(s, sub).value.name])
    requires NoBreak(stamp)
    ensures var l := StartLock(s, sub).value;
      var before := Dir(s, l.place)[l.name];
      var after := Dir(SubagentStop(SubagentStart(s, sub, stamp), sub), l.place)[l.name];
      SafeHeader(after) && Body(after) == Body(before)
      && Lookup(ReadHeader(after).value, l.field).None?
      && (forall k | k != l.field :: Lookup(ReadHeader(after).value, k) == Lookup(ReadHeader(before).value, k))
  {
    var l := StartLock(s, sub).value;
    var s1 := SubagentStart(s, sub, stamp);
    var mid := Dir(s1, l.place)[l.name];
    StartSetsLock(s, sub, stamp);
    StopHook.LockFieldsApart();
    WriteFieldEffect(mid, l.field, None);
    StopAt(s1, sub, l);
  }

  /** What the stop hook writes to the file a start hook locked. */
  lemma StopAt(s: Snapshot, sub: Subagent, l: Lock)
    requires sub != Other && l.name in Dir(s, l.place)
    requires l.place == (if sub == Codifier then InConstitution else InAmendments)
    requires l.field == (if sub == Codifier then StopHook.ResolutionField else StopHook.EvalField)
    requires sub == Codifier ==> l.name == ResolvingLawName()
    requires sub == Framer ==> l.name == FoundingDraftName()
    requires sub == Ratifier ==> RatifierDraft(l.name)
    ensures Dir(SubagentStop(s, sub), l.place)[l.name] == WriteField(Dir(s, l.place)[l.name], l.field, None)
  {
  }

  /** The ratifier's stop clears the evaluation lock of every remaining draft. */
  lemma RatifierStopClears(s: Snapshot, n: string)
    requires n in s.amendments && RatifierDraft(n) && SafeHeader(s.amendments[n])
    ensures SafeHeader(SubagentStop(s, Ratifier).amendments[n])
    ensures Lookup(ReadHeader(SubagentStop(s, Ratifier).amendments[n]).value, StopHook.EvalField).None?
    ensures Body(SubagentStop(s, Ratifier).amendments[n]) == Body(s.amendments[n])
  {
    StopHook.LockFieldsApart();
    WriteFieldEffect(s.amendments[n], StopHook.EvalField, None);
  }

  /** The subagent hooks spell `⏳ LAW` and `📝 .founding`, the stop hook `LAW.⏳` and
      `.founding.📝`: a lock a subagent refreshes is never one the stop hook reads. */
  lemma StartUnseenByStopHook(s: Snapshot, sub: Subagent, stamp: string, age: StopHook.Age)
    ensures var s1 := SubagentStart(s, sub, stamp);
      StopHook.CheckLock(s1.constitution, LawName(Suffixed, Resolving), StopHook.ResolutionField, age)
        == StopHook.CheckLock(s.constitution, LawName(Suffixed, Resolving), StopHook.ResolutionField, age)
      && StopHook.CheckLock(s1.amendments, StopHook.FoundingDraftName(), StopHook.EvalField, age)
        == StopHook.CheckLock(s.amendments, StopHook.FoundingDraftName(), StopHook.EvalField, age)
  {
    var s1 := SubagentStart(s, sub, stamp);
    SchemesApart();
    if StartLock(s, sub).Some? {
      var l := StartLock(s, sub).value;
      if sub == Ratifier {
        assert Names.StateOf(l.name) == Some(Names.Draft);
        SuffixFoundingUnprefixed();
      }
    }
    assert LawName(Suffixed, Resolving) !in s.constitution
      || s1.constitution[LawName(Suffixed, Resolving)] == s.constitution[LawName(Suffixed, Resolving)];
    assert StopHook.FoundingDraftName() !in s.amendments
      || s1.amendments[StopHook.FoundingDraftName()] == s.amendments[StopHook.FoundingDraftName()];
  }

  lemma SchemesApart()
    ensures ResolvingLawName() != LawName(Suffixed, Resolving)
    ensures FoundingDraftName() != StopHook.FoundingDraftName()
  {
    assert ResolvingLawName()[0] != LawName(Suffixed, Resolving)[0];
    assert FoundingDraftName()[0] != StopHook.FoundingDraftName()[0];
  }

  lemma SuffixFoundingUnprefixed()
    ensures Names.StateOf(StopHook.FoundingDraftName()).None?
  {
  }

  /** Clearing a lock twice reads the same as clearing it once: the field stays
      absent and every other field and the body are those of the first clearing. */
  lemma ClearTwice(text: string, field: string)
    requires SafeHeader(text) && CleanKey(field)
    ensures var once := WriteField(text, field, None);
      var twice := WriteField(once, field, None);
      SafeHeader(twice) && Body(twice) == Body(once)
      && forall k :: Lookup(ReadHeader(twice).value, k) == Lookup(ReadHeader(once).value, k)
  {
    var once := WriteField(text, field, None);
    WriteFieldEffect(text, field, None);
    WriteFieldEffect(once, field, None);
  }

  /** The ratifier's stop, run twice, reads as running it once. */
  lemma RatifierStopTwice(s: Snapshot, n: string)
    requires n in s.amendments && SafeHeader(s.amendments[n])
    ensures var once := SubagentStop(s, Ratifier).amendments[n];
      var twice := SubagentStop(SubagentStop(s, Ratifier), Ratifier).amendments[n];
      SafeHeader(twice) && Body(twice) == Body(once)
      && forall k :: Lookup(ReadHeader(twice).value, k) == Lookup(ReadHeader(once).value, k)
  {
    StopHook.LockFieldsApart();
    if RatifierDraft(n) {
      ClearTwice(s.amendments[n], StopHook.EvalField);
    }
  }
}
