/** apply_suitability_result and apply_founding_result: recording the evaluator's
    verdict on a draft in its header. Both spell states with the prefix scheme. */
module Suitability {
  import opened Wrappers
  import opened PyStr
  import opened Frontmatter
  import Names
  import opened Store
  import opened Records

  /** The evaluator's verdict: approved, or input needed, with a reason code and a
      request to the author. */
  datatype Outcome = ApplyOk | NeedsInput(code: string, request: string)

  const ReasonKey: string := "needs_input_reason_code"
  const RequestKey: string := "needs_input_request"

  /** The `apply_ok_at` marker of a record that needs input. */
  const Refused: string := "\U{274C}"

  /** NEEDS_INPUT is only accepted with both a reason code and a request. */
  predicate Complete(o: Outcome) {
    o.ApplyOk? || (o.code != "" && o.request != "")
  }

  /** The keys this module writes are distinct (their lengths differ). */
  lemma KeysDiffer()
    ensures StatusKey != ApplyOkKey && StatusKey != ReasonKey && StatusKey != RequestKey
    ensures ApplyOkKey != ReasonKey && ApplyOkKey != RequestKey && ReasonKey != RequestKey
  {
    assert |StatusKey| == 6 && |ApplyOkKey| == 11 && |ReasonKey| == 23 && |RequestKey| == 19;
  }

  lemma KeysClean()
    ensures CleanKey(StatusKey) && CleanKey(ApplyOkKey) && CleanKey(ReasonKey) && CleanKey(RequestKey)
    ensures CleanValue("draft") && CleanValue("needs_input")
  {
    WordClean(StatusKey);
    WordClean(ApplyOkKey);
    WordClean(ReasonKey);
    WordClean(RequestKey);
    WordClean("draft");
    WordClean("needs_input");
  }

  // ---------------------------------------------------------------------------
  // apply_suitability_result
  // ---------------------------------------------------------------------------

  /** APPLY_OK on a draft's header, approving with `stamp`: a pending request is
      withdrawn and a `needs_input` status goes back to `draft`. */
  function Approve(fs: seq<Field>, stamp: string): (r: seq<Field>)
    ensures Lookup(r, ApplyOkKey) == Some(stamp)
    ensures Lookup(r, ReasonKey).None? && Lookup(r, RequestKey).None?
    ensures Lookup(r, StatusKey) ==
      if StatusIs(fs, "needs_input") then Some("draft") else Lookup(fs, StatusKey)
    ensures forall k | k != ApplyOkKey && k != ReasonKey && k != RequestKey && k != StatusKey ::
      Lookup(r, k) == Lookup(fs, k)
  {
    ApproveSets(fs, stamp);
    ApproveWithdraws(fs, stamp);
    ApproveReopens(fs, stamp);
    ApproveKeepsOthers(fs, stamp);
    Withdraw(Put(Reopen(fs), ApplyOkKey, stamp))
  }

  lemma ApproveSets(fs: seq<Field>, stamp: string)
    ensures Lookup(Withdraw(Put(Reopen(fs), ApplyOkKey, stamp)), ApplyOkKey) == Some(stamp)
  {
    KeysDiffer();
  }

  lemma ApproveWithdraws(fs: seq<Field>, stamp: string)
    ensures var r := Withdraw(Put(Reopen(fs), ApplyOkKey, stamp));
      Lookup(r, ReasonKey).None? && Lookup(r, RequestKey).None?
  {
  }

  lemma ApproveReopens(fs: seq<Field>, stamp: string)
    ensures Lookup(Withdraw(Put(Reopen(fs), ApplyOkKey, stamp)), StatusKey)
         == if StatusIs(fs, "needs_input") then Some("draft") else Lookup(fs, StatusKey)
  {
    KeysDiffer();
    var a := Reopen(fs);
    var b := Put(a, ApplyOkKey, stamp);
    assert Lookup(b, StatusKey) == Lookup(a, StatusKey);
  }

  lemma ApproveKeepsOthers(fs: seq<Field>, stamp: string)
    ensures forall k | k != ApplyOkKey && k != ReasonKey && k != RequestKey && k != StatusKey ::
      Lookup(Withdraw(Put(Reopen(fs), ApplyOkKey, stamp)), k) == Lookup(fs, k)
  {
  }

  /** The approval apply_suitability_result records: the quoted hash of the body. */
  function ApproveFields(sha: Digest, rec: Record): seq<Field> {
    Approve(rec.fields, Quoted(BodyHash(sha, rec.body)))
  }

  /** The `needs_input_*` keys removed. */
  function Withdraw(fs: seq<Field>): (r: seq<Field>)
    ensures Lookup(r, ReasonKey).None? && Lookup(r, RequestKey).None?
    ensures forall k | k != ReasonKey && k != RequestKey :: Lookup(r, k) == Lookup(fs, k)
  {
    RemoveKeys(fs, {ReasonKey, RequestKey})
  }

  /** A draft waiting for input is a plain draft again. */
  function Reopen(fs: seq<Field>): (r: seq<Field>)
    ensures Lookup(r, StatusKey) == if StatusIs(fs, "needs_input") then Some("draft") else Lookup(fs, StatusKey)
    ensures forall k | k != StatusKey :: Lookup(r, k) == Lookup(fs, k)
  {
    if StatusIs(fs, "needs_input") then Put(fs, StatusKey, "draft") else fs
  }

  /** NEEDS_INPUT on a draft's header: the status says so, the approval is refused
      and the reason and request are recorded, quoted. */
  function RequestFields(fs: seq<Field>, code: string, request: string): (r: seq<Field>)
    ensures Lookup(r, StatusKey) == Some("needs_input")
    ensures Lookup(r, ApplyOkKey) == Some(Quoted(Refused))
    ensures Lookup(r, ReasonKey) == Some(Quoted(code))
    ensures Lookup(r, RequestKey) == Some(Quoted(request))
    ensures forall k | k != ApplyOkKey && k != ReasonKey && k != RequestKey && k != StatusKey ::
      Lookup(r, k) == Lookup(fs, k)
  {
    KeysDiffer();
    Put(Put(Put(Put(fs, StatusKey, "needs_input"), ApplyOkKey, Quoted(Refused)), ReasonKey, Quoted(code)), RequestKey, Quoted(request))
  }

  function SuitabilityFields(sha: Digest, rec: Record, o: Outcome): seq<Field> {
    match o
    case ApplyOk => ApproveFields(sha, rec)
    case NeedsInput(code, request) => RequestFields(rec.fields, code, request)
  }

  /** write_map of apply_suitability_result: `status` first and `apply_ok_at` last
      when they are not already ordered, every other key kept. */
  function SuitabilityText(rec: Record, m: seq<Field>): string {
    Write(m, ApplyOkLast(StatusFirst(Keys(rec.fields))), true, rec.body)
  }

  /** main of apply_suitability_result, for the draft named `name`. */
  function ApplySuitability(sha: Digest, s: Snapshot, name: string, o: Outcome): (r: Result<Snapshot, Error>)
    ensures name !in s.amendments ==> r == Failure(NotFound)
    ensures name in s.amendments && Names.StateOf(name) != Some(Names.Draft) ==> r == Failure(NotDraft)
    ensures r.Success? <==>
      name in s.amendments && Names.StateOf(name) == Some(Names.Draft)
      && HasHeader(s.amendments[name]) && Complete(o)
    ensures r.Success? ==>
      name in r.value.amendments && r.value == Snapshot(s.constitution, s.amendments[name := r.value.amendments[name]])
  {
    if name !in s.amendments then Failure(NotFound)
    else if Names.StateOf(name) != Some(Names.Draft) then Failure(NotDraft)
    else
      match Read(s.amendments[name])
      case None => Failure(NoHeader)
      case Some(rec) =>
        if !Complete(o) then Failure(IncompleteRequest)
        else
          var text := SuitabilityText(rec, SuitabilityFields(sha, rec, o));
          Success(s.(amendments := s.amendments[name := text]))
  }

  lemma ApproveClean(sha: Digest, rec: Record)
    requires Clean(rec.fields) && Hex(BodyHash(sha, rec.body))
    ensures Clean(ApproveFields(sha, rec))
  {
    KeysClean();
    HexQuoted(BodyHash(sha, rec.body));
    var fs := Reopen(rec.fields);
    if StatusIs(rec.fields, "needs_input") {
      PutClean(rec.fields, StatusKey, "draft");
    }
    PutClean(fs, ApplyOkKey, Quoted(BodyHash(sha, rec.body)));
    RemoveClean(Put(fs, ApplyOkKey, Quoted(BodyHash(sha, rec.body))), {ReasonKey, RequestKey});
  }

  lemma RequestClean(fs: seq<Field>, code: string, request: string)
    requires Clean(fs) && NoBreak(code) && NoBreak(request)
    ensures Clean(RequestFields(fs, code, request))
  {
    KeysClean();
    assert NoBreak(Refused);
    QuotedClean(Refused);
    QuotedClean(code);
    QuotedClean(request);
    var a := Put(fs, StatusKey, "needs_input");
    PutClean(fs, StatusKey, "needs_input");
    var b := Put(a, ApplyOkKey, Quoted(Refused));
    PutClean(a, ApplyOkKey, Quoted(Refused));
    var c := Put(b, ReasonKey, Quoted(code));
    PutClean(b, ReasonKey, Quoted(code));
    PutClean(c, RequestKey, Quoted(request));
  }

  /** An approved draft reads back with an approval that matches its body, the very
      check promotion makes, and with no pending request. */
  lemma ApprovalIsFresh(sha: Digest, rec: Record)
    requires Clean(rec.fields) && Hex(BodyHash(sha, rec.body))
    ensures var back := Read(SuitabilityText(rec, ApproveFields(sha, rec)));
      back.Some? && back.value.body == rec.body
      && Unquoted(back.value.fields, ApplyOkKey) == BodyHash(sha, back.value.body)
      && Lookup(back.value.fields, ReasonKey).None? && Lookup(back.value.fields, RequestKey).None?
  {
    var m := ApproveFields(sha, rec);
    ApproveClean(sha, rec);
    WriteKeepsAll(m, ApplyOkLast(StatusFirst(Keys(rec.fields))), rec.body);
    HexQuoted(BodyHash(sha, rec.body));
  }

  /** A request for input reads back with exactly the reason and request given. */
  lemma RequestReadsBack(rec: Record, code: string, request: string)
    requires Clean(rec.fields) && NoBreak(code) && NoBreak(request)
    requires Unquotable(code) && Unquotable(request)
    ensures var back := Read(SuitabilityText(rec, RequestFields(rec.fields, code, request)));
      back.Some? && back.value.body == rec.body
      && Unquoted(back.value.fields, ReasonKey) == code
      && Unquoted(back.value.fields, RequestKey) == request
      && StatusIs(back.value.fields, "needs_input")
  {
    var m := RequestFields(rec.fields, code, request);
    RequestClean(rec.fields, code, request);
    WriteKeepsAll(m, ApplyOkLast(StatusFirst(Keys(rec.fields))), rec.body);
    QuotesRoundTrip(code);
    QuotesRoundTrip(request);
    NeedsInputWord();
  }

  lemma NeedsInputWord()
    ensures LowerAscii(StripQuotes("needs_input")) == "needs_input"
    ensures LowerAscii(StripQuotes("draft")) != "needs_input"
  {
    UnquotedStable("needs_input");
    UnquotedStable("draft");
    LowerWord("needs_input");
    LowerAsciiChars("draft");
  }

  /** The header APPLY_OK writes, read back, is already approved: approving it
      again changes nothing. */
  lemma ApproveStable(sha: Digest, rec: Record)
    requires Clean(rec.fields) && Hex(BodyHash(sha, rec.body))
    ensures var e := Emit(ApproveFields(sha, rec), ApplyOkLast(StatusFirst(Keys(rec.fields))), true);
      ApproveFields(sha, Record(e, rec.body)) == e
  {
    var m := ApproveFields(sha, rec);
    var e := Emit(m, ApplyOkLast(StatusFirst(Keys(rec.fields))), true);
    forall k ensures Lookup(e, k) == Lookup(m, k) {
      EmitLookup(m, ApplyOkLast(StatusFirst(Keys(rec.fields))), true, k);
    }
    NeedsInputWord();
    assert !StatusIs(e, "needs_input");
    PutExisting(e, ApplyOkKey, Quoted(BodyHash(sha, rec.body)));
    RemoveAbsent(e, {ReasonKey, RequestKey});
  }

  /** The text APPLY_OK writes is a fixed point of APPLY_OK. */
  lemma ApprovedTextStable(sha: Digest, rec: Record)
    requires Clean(rec.fields) && Hex(BodyHash(sha, rec.body))
    ensures var t := SuitabilityText(rec, ApproveFields(sha, rec));
      Read(t).Some? && Read(t).value.body == rec.body
      && SuitabilityText(Read(t).value, ApproveFields(sha, Read(t).value)) == t
  {
    var m := ApproveFields(sha, rec);
    var order := ApplyOkLast(StatusFirst(Keys(rec.fields)));
    var e := Emit(m, order, true);
    ApproveClean(sha, rec);
    WriteReadBack(m, order, true, rec.body);
    ApproveStable(sha, rec);
    EmitClean(m, order, true);
    EmitLookup(m, order, true, ApplyOkKey);
    StatusFirstStable(e, true);
  }

  /** Applying APPLY_OK twice leaves the draft as applying it once did. */
  lemma ApproveTwice(sha: Digest, s: Snapshot, name: string)
    requires ApplySuitability(sha, s, name, ApplyOk).Success?
    requires Hex(BodyHash(sha, Read(s.amendments[name]).value.body))
    ensures var s1 := ApplySuitability(sha, s, name, ApplyOk).value;
      ApplySuitability(sha, s1, name, ApplyOk) == Success(s1)
  {
    var rec := Read(s.amendments[name]).value;
    var t := SuitabilityText(rec, ApproveFields(sha, rec));
    ApprovedTextStable(sha, rec);
    SuitabilityResult(sha, s, name, ApplyOk);
    var s1 := ApplySuitability(sha, s, name, ApplyOk).value;
    assert s1.amendments[name] == t;
    var rec2 := Read(t).value;
    assert SuitabilityFields(sha, rec2, ApplyOk) == ApproveFields(sha, rec2);
    assert SuitabilityText(rec2, SuitabilityFields(sha, rec2, ApplyOk)) == t;
    SuitabilityResult(sha, s1, name, ApplyOk);
    UpdateSame(s1.amendments, name, t);
  }

  /** A successful application rewrites the named draft and nothing else. */
  lemma SuitabilityResult(sha: Digest, s: Snapshot, name: string, o: Outcome)
    requires name in s.amendments && Names.StateOf(name) == Some(Names.Draft)
    requires HasHeader(s.amendments[name]) && Complete(o)
    ensures var rec := Read(s.amendments[name]).value;
      ApplySuitability(sha, s, name, o)
      == Success(s.(amendments := s.amendments[name := SuitabilityText(rec, SuitabilityFields(sha, rec, o))]))
  {
  }

  // ---------------------------------------------------------------------------
  // apply_founding_result
  // ---------------------------------------------------------------------------

  /** The keys APPLY_OK on the founding record removes: the request and the status. */
  const FoundingCleared: set<string> := {ReasonKey, RequestKey, StatusKey}

  /** APPLY_OK on the founding record's header, approving with `stamp`. */
  function FoundingApprove(fs: seq<Field>, stamp: string): (r: seq<Field>)
    ensures Lookup(r, ApplyOkKey) == Some(stamp)
    ensures Lookup(r, ReasonKey).None? && Lookup(r, RequestKey).None? && Lookup(r, StatusKey).None?
    ensures forall k | k != ApplyOkKey && k != ReasonKey && k != RequestKey && k != StatusKey ::
      Lookup(r, k) == Lookup(fs, k)
  {
    KeysDiffer();
    RemoveKeys(Put(fs, ApplyOkKey, stamp), FoundingCleared)
  }

  /** NEEDS_INPUT on the founding record's header: refused, the reason and request
      recorded, quoted, and the status removed. */
  function FoundingRequest(fs: seq<Field>, code: string, request: string): (r: seq<Field>)
    ensures Lookup(r, ApplyOkKey) == Some(Quoted(Refused))
    ensures Lookup(r, ReasonKey) == Some(Quoted(code))
    ensures Lookup(r, RequestKey) == Some(Quoted(request))
    ensures Lookup(r, StatusKey).None?
    ensures forall k | k != ApplyOkKey && k != ReasonKey && k != RequestKey && k != StatusKey ::
      Lookup(r, k) == Lookup(fs, k)
  {
    KeysDiffer();
    RemoveKeys(Put(Put(Put(fs, ApplyOkKey, Quoted(Refused)), ReasonKey, Quoted(code)), RequestKey, Quoted(request)), {StatusKey})
  }

  function FoundingFields(sha: Digest, rec: Record, o: Outcome): seq<Field> {
    match o
    case ApplyOk => FoundingApprove(rec.fields, Quoted(BodyHash(sha, rec.body)))
    case NeedsInput(code, request) => FoundingRequest(rec.fields, code, request)
  }

  /** The keys a verdict takes out of the header's order. */
  function FoundingDropped(o: Outcome): set<string> {
    if o.ApplyOk? then FoundingCleared else {StatusKey}
  }

  /** write_map of apply_founding_result: the read order without the removed keys,
      `apply_ok_at` last when it is not already ordered. */
  function FoundingResultText(rec: Record, o: Outcome, m: seq<Field>): string {
    Write(m, ApplyOkLast(WithoutAll(Keys(rec.fields), FoundingDropped(o))), true, rec.body)
  }

  /** Where the founding record goes: review after APPLY_OK, back to draft from
      review after NEEDS_INPUT, and a draft stays where it is. */
  function FoundingTarget(at: Located<FoundingState>, o: Outcome): string {
    if o.ApplyOk? then FoundingName(Prefixed, Review)
    else if at.state == Review then FoundingName(Prefixed, FoundingDraft)
    else at.name
  }

  /** main of apply_founding_result. */
  function ApplyFounding(sha: Digest, s: Snapshot, o: Outcome): (r: Result<Snapshot, Error>)
    ensures DiscoverFounding(Prefixed, s).None? ==> r == Failure(NoFounding)
    ensures DiscoverFounding(Prefixed, s).Some? && DiscoverFounding(Prefixed, s).value.state == Founding ==>
      r == Failure(FoundingAccepted)
    ensures r.Success? <==>
      DiscoverFounding(Prefixed, s).Some? && DiscoverFounding(Prefixed, s).value.state != Founding
      && HasHeader(s.amendments[DiscoverFounding(Prefixed, s).value.name]) && Complete(o)
    ensures r.Success? ==> r.value.constitution == s.constitution
  {
    match DiscoverFounding(Prefixed, s)
    case None => Failure(NoFounding)
    case Some(at) =>
      if at.state == Founding then Failure(FoundingAccepted)
      else
        match Read(s.amendments[at.name])
        case None => Failure(NoHeader)
        case Some(rec) =>
          if !Complete(o) then Failure(IncompleteRequest)
          else
            var text := FoundingResultText(rec, o, FoundingFields(sha, rec, o));
            Success(s.(amendments := Move(s.amendments, at.name, FoundingTarget(at, o), text)))
  }

  /** The three prefix-scheme founding names are distinct: their glyphs differ. */
  lemma FoundingNamesDiffer(a: FoundingState, b: FoundingState)
    ensures FoundingName(Prefixed, a) == FoundingName(Prefixed, b) ==> a == b
  {
    assert FoundingName(Prefixed, a)[0] == Names.Glyph(FoundingMarker(a));
    assert FoundingName(Prefixed, b)[0] == Names.Glyph(FoundingMarker(b));
  }

  /** A successful verdict rewrites the discovered founding record and moves it to
      its target name. */
  lemma FoundingOutcome(sha: Digest, s: Snapshot, o: Outcome)
    requires ApplyFounding(sha, s, o).Success?
    ensures var at := DiscoverFounding(Prefixed, s).value;
      var rec := Read(s.amendments[at.name]).value;
      at.state != Founding && ApplyFounding(sha, s, o).value
      == s.(amendments := Move(s.amendments, at.name, FoundingTarget(at, o), FoundingResultText(rec, o, FoundingFields(sha, rec, o))))
  {
  }

  /** Moving the discovered, not yet accepted founding record to another
      not-accepted state makes discovery find it there. */
  lemma DiscoverMoved(s: Snapshot, s1: Snapshot, from: FoundingState, to: FoundingState)
    requires from != Founding && to != Founding
    requires DiscoverFounding(Prefixed, s) == Some(Located(FoundingName(Prefixed, from), from))
    requires s1.amendments.Keys == s.amendments.Keys - {FoundingName(Prefixed, from)} + {FoundingName(Prefixed, to)}
    ensures DiscoverFounding(Prefixed, s1) == Some(Located(FoundingName(Prefixed, to), to))
  {
    FoundingNamesDiffer(Founding, Review);
    FoundingNamesDiffer(Founding, FoundingDraft);
    FoundingNamesDiffer(Review, FoundingDraft);
    assert FoundingName(Prefixed, Founding) !in s.amendments;
  }

  /** After a verdict the founding record is found in review (APPLY_OK) or as a
      draft (NEEDS_INPUT), whichever of the two it was before. */
  lemma FoundingResultState(sha: Digest, s: Snapshot, o: Outcome)
    requires ApplyFounding(sha, s, o).Success?
    ensures var st := if o.ApplyOk? then Review else FoundingDraft;
      DiscoverFounding(Prefixed, ApplyFounding(sha, s, o).value) == Some(Located(FoundingName(Prefixed, st), st))
  {
    var at := DiscoverFounding(Prefixed, s).value;
    FoundingOutcome(sha, s, o);
    var st := if o.ApplyOk? then Review else FoundingDraft;
    assert FoundingTarget(at, o) == FoundingName(Prefixed, st);
    DiscoverMoved(s, ApplyFounding(sha, s, o).value, at.state, st);
  }

  lemma FoundingApproveClean(sha: Digest, rec: Record)
    requires Clean(rec.fields) && Hex(BodyHash(sha, rec.body))
    ensures Clean(FoundingFields(sha, rec, ApplyOk))
  {
    KeysClean();
    HexQuoted(BodyHash(sha, rec.body));
    PutClean(rec.fields, ApplyOkKey, Quoted(BodyHash(sha, rec.body)));
    RemoveClean(Put(rec.fields, ApplyOkKey, Quoted(BodyHash(sha, rec.body))), FoundingCleared);
  }

  lemma FoundingRequestClean(fs: seq<Field>, code: string, request: string)
    requires Clean(fs) && NoBreak(code) && NoBreak(request)
    ensures Clean(FoundingRequest(fs, code, request))
  {
    KeysClean();
    assert NoBreak(Refused);
    QuotedClean(Refused);
    QuotedClean(code);
    QuotedClean(request);
    var a := Put(fs, ApplyOkKey, Quoted(Refused));
    PutClean(fs, ApplyOkKey, Quoted(Refused));
    var b := Put(a, ReasonKey, Quoted(code));
    PutClean(a, ReasonKey, Quoted(code));
    var c := Put(b, RequestKey, Quoted(request));
    PutClean(b, RequestKey, Quoted(request));
    RemoveClean(c, {StatusKey});
  }

  /** The founding record APPLY_OK writes reads back approved for its body, with
      no status and no pending request. */
  lemma FoundingApprovalIsFresh(sha: Digest, rec: Record)
    requires Clean(rec.fields) && Hex(BodyHash(sha, rec.body))
    ensures var back := Read(FoundingResultText(rec, ApplyOk, FoundingFields(sha, rec, ApplyOk)));
      back.Some? && back.value.body == rec.body
      && Unquoted(back.value.fields, ApplyOkKey) == BodyHash(sha, back.value.body)
      && Lookup(back.value.fields, StatusKey).None?
      && Lookup(back.value.fields, ReasonKey).None? && Lookup(back.value.fields, RequestKey).None?
  {
    var m := FoundingFields(sha, rec, ApplyOk);
    FoundingApproveClean(sha, rec);
    WriteKeepsAll(m, ApplyOkLast(WithoutAll(Keys(rec.fields), FoundingCleared)), rec.body);
    HexQuoted(BodyHash(sha, rec.body));
  }

  /** A founding request for input reads back refused, with exactly the reason and
      request given and no status. */
  lemma FoundingRequestReadsBack(rec: Record, code: string, request: string)
    requires Clean(rec.fields) && NoBreak(code) && NoBreak(request)
    requires Unquotable(code) && Unquotable(request)
    ensures var back := Read(FoundingResultText(rec, NeedsInput(code, request), FoundingRequest(rec.fields, code, request)));
      back.Some? && back.value.body == rec.body
      && Unquoted(back.value.fields, ApplyOkKey) == Refused
      && Unquoted(back.value.fields, ReasonKey) == code
      && Unquoted(back.value.fields, RequestKey) == request
      && Lookup(back.value.fields, StatusKey).None?
  {
    var m := FoundingRequest(rec.fields, code, request);
    FoundingRequestClean(rec.fields, code, request);
    WriteKeepsAll(m, ApplyOkLast(WithoutAll(Keys(rec.fields), {StatusKey})), rec.body);
    QuotesRoundTrip(code);
    QuotesRoundTrip(request);
    RefusedRoundTrip();
  }

  lemma RefusedRoundTrip()
    ensures StripQuotes(Quoted(Refused)) == Refused
  {
    assert Unquotable(Refused);
    QuotesRoundTrip(Refused);
  }

  /** The founding header APPLY_OK writes, read back, is already approved:
      approving it again writes the same text. */
  lemma FoundingApprovedTextStable(sha: Digest, rec: Record)
    requires Clean(rec.fields) && Hex(BodyHash(sha, rec.body))
    ensures var t := FoundingResultText(rec, ApplyOk, FoundingFields(sha, rec, ApplyOk));
      Read(t).Some? && Read(t).value.body == rec.body
      && FoundingResultText(Read(t).value, ApplyOk, FoundingFields(sha, Read(t).value, ApplyOk)) == t
  {
    var m := FoundingFields(sha, rec, ApplyOk);
    var order := ApplyOkLast(WithoutAll(Keys(rec.fields), FoundingCleared));
    var e := Emit(m, order, true);
    FoundingApproveClean(sha, rec);
    WriteReadBack(m, order, true, rec.body);
    forall k ensures Lookup(e, k) == Lookup(m, k) {
      EmitLookup(m, order, true, k);
    }
    PutExisting(e, ApplyOkKey, Quoted(BodyHash(sha, rec.body)));
    RemoveAbsent(e, FoundingCleared);
    assert FoundingFields(sha, Record(e, rec.body), ApplyOk) == e;
    EmitClean(m, order, true);
    WithoutStable(e, FoundingCleared, true);
  }

  /** Applying APPLY_OK to the founding record twice leaves it as applying it once
      did: in review, with the same text. */
  lemma FoundingApproveTwice(sha: Digest, s: Snapshot)
    requires ApplyFounding(sha, s, ApplyOk).Success?
    requires Hex(BodyHash(sha, Read(s.amendments[DiscoverFounding(Prefixed, s).value.name]).value.body))
    ensures var s1 := ApplyFounding(sha, s, ApplyOk).value;
      ApplyFounding(sha, s1, ApplyOk) == Success(s1)
  {
    var at := DiscoverFounding(Prefixed, s).value;
    var rec := Read(s.amendments[at.name]).value;
    var t := FoundingResultText(rec, ApplyOk, FoundingFields(sha, rec, ApplyOk));
    FoundingOutcome(sha, s, ApplyOk);
    FoundingResultState(sha, s, ApplyOk);
    FoundingApprovedTextStable(sha, rec);
    var s1 := ApplyFounding(sha, s, ApplyOk).value;
    var review := FoundingName(Prefixed, Review);
    assert s1.amendments[review] == t;
    FoundingOutcome(sha, s1, ApplyOk);
    MoveSame(s1.amendments, review, t);
  }
}
