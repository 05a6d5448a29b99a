/** promote_article and promote_founding: moving a reviewed draft to accepted. Both
    scripts spell states with the suffix scheme. */
module Promotion {
  import opened Wrappers
  import opened PyStr
  import opened Frontmatter
  import opened Names
  import opened Store
  import opened Records

  const ActiveLaw: string := "LAW.\U{2705}"
  const ResolvingLaw: string := "LAW.\U{23F3}"
  const StaleReason: string := "stale_reason"
  const StalePath: string := "stale_amendment_path"

  /** The keys promotion drops from an amendment. */
  const ArticleTransient: set<string> := {"status", "evaluation_started_at"}

  /** The keys promotion drops from the founding record. */
  const FoundingTransient: set<string> :=
    {"needs_input_reason_code", "needs_input_request", "status", "apply_ok_at", "evaluation_started_at"}

  // ---------------------------------------------------------------------------
  // mark_law_stale
  // ---------------------------------------------------------------------------

  /** The LAW header after promotion: stale metadata set, `status` removed, every
      other key as before. */
  function StaleFields(fs: seq<Field>, amendment: string): (r: seq<Field>)
    ensures Lookup(r, StaleReason) == Some("amendment_accepted")
    ensures Lookup(r, StalePath) == Some(Quoted(amendment))
    ensures Lookup(r, StatusKey).None?
    ensures forall k | k != StaleReason && k != StalePath && k != StatusKey :: Lookup(r, k) == Lookup(fs, k)
  {
    RemoveKeys(Put(Put(fs, StaleReason, "amendment_accepted"), StalePath, Quoted(amendment)), {StatusKey})
  }

  /** The LAW text mark_law_stale writes as written: only the keys the header
      already had are written, so stale metadata that was not there is lost. */
  function StaleTextAsWritten(rec: Record, amendment: string): string {
    Write(StaleFields(rec.fields, amendment), WithoutAll(Keys(rec.fields), {StatusKey}), false, rec.body)
  }

  /** The LAW text with every key it set written, as the pre-tool hook's version of
      the same update does. */
  function StaleText(rec: Record, amendment: string): string {
    var m := StaleFields(rec.fields, amendment);
    Write(m, Keys(m), false, rec.body)
  }

  /** mark_law_stale: an active LAW with a header is rewritten and renamed to
      resolving; anything else is left alone. */
  function MarkLawStaleWith(law: map<string, string>, amendment: string, asWritten: bool): (r: map<string, string>)
    ensures ActiveLaw !in law || !HasHeader(law[ActiveLaw]) ==> r == law
    ensures ActiveLaw in law && HasHeader(law[ActiveLaw]) ==>
      var rec := Read(law[ActiveLaw]).value;
      r == Move(law, ActiveLaw, ResolvingLaw, if asWritten then StaleTextAsWritten(rec, amendment) else StaleText(rec, amendment))
  {
    if ActiveLaw !in law then law
    else
      match Read(law[ActiveLaw])
      case None => law
      case Some(rec) =>
        Move(law, ActiveLaw, ResolvingLaw, if asWritten then StaleTextAsWritten(rec, amendment) else StaleText(rec, amendment))
  }

  function MarkLawStaleAsWritten(law: map<string, string>, amendment: string): map<string, string> {
    MarkLawStaleWith(law, amendment, true)
  }

  function MarkLawStale(law: map<string, string>, amendment: string): map<string, string> {
    MarkLawStaleWith(law, amendment, false)
  }

  lemma StaleFieldsClean(fs: seq<Field>, amendment: string)
    requires Clean(fs) && NoBreak(amendment)
    ensures Clean(StaleFields(fs, amendment))
  {
    var a := Put(fs, StaleReason, "amendment_accepted");
    var b := Put(a, StalePath, Quoted(amendment));
    KeysClean();
    PutClean(fs, StaleReason, "amendment_accepted");
    QuotedClean(amendment);
    PutClean(a, StalePath, Quoted(amendment));
    RemoveClean(b, {StatusKey});
  }

  lemma KeysClean()
    ensures CleanKey(StaleReason) && CleanKey(StalePath) && CleanValue("amendment_accepted")
  {
    WordClean(StaleReason);
    WordClean(StalePath);
    WordClean("amendment_accepted");
  }

  /** As written, `stale_reason` is not in the rewritten LAW unless it was there before. */
  lemma AsWrittenDropsReason(rec: Record, amendment: string)
    requires Clean(rec.fields) && NoBreak(amendment)
    requires Lookup(rec.fields, StaleReason).None?
    ensures Read(StaleTextAsWritten(rec, amendment)).Some?
    ensures Lookup(Read(StaleTextAsWritten(rec, amendment)).value.fields, StaleReason).None?
  {
    var m := StaleFields(rec.fields, amendment);
    var order := WithoutAll(Keys(rec.fields), {StatusKey});
    LookupKeys(rec.fields, StaleReason);
    StaleFieldsClean(rec.fields, amendment);
    WriteReadBack(m, order, false, rec.body);
    EmitLookup(m, order, false, StaleReason);
  }

  /** As written, the rewritten LAW holds the stale metadata only under the keys
      its header already had; `status` is gone and every other key is as before. */
  lemma StaleTextAsWrittenEffect(rec: Record, amendment: string)
    requires Clean(rec.fields) && NoBreak(amendment)
    ensures Read(StaleTextAsWritten(rec, amendment)).Some?
    ensures var fs := Read(StaleTextAsWritten(rec, amendment)).value.fields;
      && Lookup(fs, StaleReason) == (if Lookup(rec.fields, StaleReason).Some? then Some("amendment_accepted") else None)
      && Lookup(fs, StalePath) == (if Lookup(rec.fields, StalePath).Some? then Some(Quoted(amendment)) else None)
      && Lookup(fs, StatusKey).None?
      && forall k | k != StaleReason && k != StalePath && k != StatusKey :: Lookup(fs, k) == Lookup(rec.fields, k)
    ensures Read(StaleTextAsWritten(rec, amendment)).value.body == rec.body
  {
    var m := StaleFields(rec.fields, amendment);
    var order := WithoutAll(Keys(rec.fields), {StatusKey});
    StaleFieldsClean(rec.fields, amendment);
    WriteReadBack(m, order, false, rec.body);
    var e := Emit(m, order, false);
    forall k ensures Lookup(e, k) == (if k in Keys(rec.fields) && k != StatusKey then Lookup(m, k) else None) {
      EmitLookup(m, order, false, k);
    }
    forall k ensures Lookup(rec.fields, k).Some? <==> k in Keys(rec.fields) {
      LookupKeys(rec.fields, k);
    }
  }

  /** The corrected LAW text reads back as exactly the updated header and the old body. */
  lemma StaleTextEffect(rec: Record, amendment: string)
    requires Clean(rec.fields) && NoBreak(amendment)
    ensures Read(StaleText(rec, amendment)) == Some(Record(StaleFields(rec.fields, amendment), rec.body))
  {
    var m := StaleFields(rec.fields, amendment);
    StaleFieldsClean(rec.fields, amendment);
    EmitOwnKeys(m, false);
    WriteReadBack(m, Keys(m), false, rec.body);
  }

  // ---------------------------------------------------------------------------
  // promote_article
  // ---------------------------------------------------------------------------

  /** The checks promotion makes of a draft's text, in the order the script makes them. */
  function CheckReviewed(sha: Digest, text: string): (r: Result<Record, Error>)
    ensures r.Success? <==> (HasHeader(text)
      && StatusIs(Read(text).value.fields, "review")
      && Unquoted(Read(text).value.fields, ApplyOkKey) == BodyHash(sha, Read(text).value.body))
    ensures r.Success? ==> Read(text) == Some(r.value)
    ensures r == Failure(NoHeader) <==> !HasHeader(text)
  {
    match Read(text)
    case None => Failure(NoHeader)
    case Some(rec) =>
      if !StatusIs(rec.fields, "review") then Failure(NotInReview)
      else if Unquoted(rec.fields, ApplyOkKey) != BodyHash(sha, rec.body) then Failure(StaleApproval)
      else Success(rec)
  }

  /** The promoted amendment's text: the transient keys removed, the rest written in
      its old order. */
  function PromotedText(rec: Record): string {
    Write(RemoveKeys(rec.fields, ArticleTransient), WithoutAll(Keys(rec.fields), ArticleTransient), false, rec.body)
  }

  /** main of promote_article, for the amendment named `name`, with the LAW
      rewrite either as written or corrected. */
  function PromoteArticleWith(sha: Digest, s: Snapshot, name: string, asWritten: bool): (r: Result<Snapshot, Error>)
    ensures name == "" ==> r == Failure(EmptyName)
    ensures name != "" && WithSuffix(name, MarkSuffix(Accepted)).value in s.amendments ==> r == Success(s)
    ensures r.Success? && r != Success(s) ==>
      name in s.amendments && SuffixState(name) == Some(Draft)
      && CheckReviewed(sha, s.amendments[name]).Success?
  {
    match WithSuffix(name, MarkSuffix(Accepted))
    case None => Failure(EmptyName)
    case Some(accepted) =>
      if accepted in s.amendments then Success(s)
      else if name !in s.amendments then Failure(NotFound)
      else if Suffix(name) != MarkSuffix(Draft) then Failure(NotDraft)
      else
        var rec :- CheckReviewed(sha, s.amendments[name]);
        Success(Snapshot(
          MarkLawStaleWith(s.constitution, AmendmentPath(accepted), asWritten),
          Move(s.amendments, name, accepted, PromotedText(rec))))
  }

  /** promote_article as written: the LAW keeps only the keys its header already had. */
  function PromoteArticle(sha: Digest, s: Snapshot, name: string): (r: Result<Snapshot, Error>)
    ensures name == "" ==> r == Failure(EmptyName)
    ensures name != "" && WithSuffix(name, MarkSuffix(Accepted)).value in s.amendments ==> r == Success(s)
    ensures r.Success? && r != Success(s) ==>
      name in s.amendments && SuffixState(name) == Some(Draft)
      && CheckReviewed(sha, s.amendments[name]).Success?
  {
    PromoteArticleWith(sha, s, name, true)
  }

  /** promote_article with the LAW rewrite corrected: it fails and succeeds exactly
      as the script does and leaves the amendments as the script does; only the
      LAW text differs. */
  function PromoteArticleCorrected(sha: Digest, s: Snapshot, name: string): (r: Result<Snapshot, Error>)
    ensures r.Success? <==> PromoteArticle(sha, s, name).Success?
    ensures r.Failure? ==> r == PromoteArticle(sha, s, name)
    ensures r.Success? ==> r.value.amendments == PromoteArticle(sha, s, name).value.amendments
  {
    VersionsAgree(sha, s, name);
    PromoteArticleWith(sha, s, name, false)
  }

  /** The two LAW rewrites do not change which runs fail or what happens to the
      amendments. */
  lemma VersionsAgree(sha: Digest, s: Snapshot, name: string)
    ensures var w, c := PromoteArticleWith(sha, s, name, true), PromoteArticleWith(sha, s, name, false);
      (w.Success? <==> c.Success?) && (c.Failure? ==> c == w)
      && (c.Success? ==> c.value.amendments == w.value.amendments)
  {
    match WithSuffix(name, MarkSuffix(Accepted))
    case None =>
    case Some(accepted) =>
      if accepted !in s.amendments && name in s.amendments && Suffix(name) == MarkSuffix(Draft) {
        var r := CheckReviewed(sha, s.amendments[name]);
        if r.Success? {
          PromoteArticleAt(sha, s, name, accepted, true);
          PromoteArticleAt(sha, s, name, accepted, false);
        }
      }
  }

  /** Promotion of a reviewed draft whose accepted sibling does not exist yet: the
      draft becomes accepted under the same stem with `status` and
      `evaluation_started_at` removed, every other key in place and the body
      unchanged; the LAW is marked stale as the script writes it. */
  lemma PromoteArticleEffect(sha: Digest, s: Snapshot, name: string)
    requires name in s.amendments && SuffixState(name) == Some(Draft)
    requires SuffixName(Stem(name), Accepted) !in s.amendments
    requires CheckReviewed(sha, s.amendments[name]).Success?
    ensures var accepted := SuffixName(Stem(name), Accepted);
      var rec := Read(s.amendments[name]).value;
      PromoteArticle(sha, s, name) == Success(Snapshot(
        MarkLawStaleAsWritten(s.constitution, AmendmentPath(accepted)),
        Move(s.amendments, name, accepted, PromotedText(rec))))
    ensures var accepted := SuffixName(Stem(name), Accepted);
      SuffixState(accepted) == Some(Accepted) && Stem(accepted) == Stem(name) && accepted != name
  {
    var accepted := SuffixName(Stem(name), Accepted);
    PromotionGuards(name);
    PromoteArticleAt(sha, s, name, accepted, true);
  }

  /** The same promotion with the corrected LAW rewrite. */
  lemma PromoteArticleCorrectedEffect(sha: Digest, s: Snapshot, name: string)
    requires name in s.amendments && SuffixState(name) == Some(Draft)
    requires SuffixName(Stem(name), Accepted) !in s.amendments
    requires CheckReviewed(sha, s.amendments[name]).Success?
    ensures var accepted := SuffixName(Stem(name), Accepted);
      var rec := Read(s.amendments[name]).value;
      PromoteArticleCorrected(sha, s, name) == Success(Snapshot(
        MarkLawStale(s.constitution, AmendmentPath(accepted)),
        Move(s.amendments, name, accepted, PromotedText(rec))))
  {
    var accepted := SuffixName(Stem(name), Accepted);
    PromotionGuards(name);
    PromoteArticleAt(sha, s, name, accepted, false);
  }

  /** A draft's accepted sibling is what `with_suffix` computes, and a draft passes
      the suffix check. */
  lemma PromotionGuards(name: string)
    requires SuffixState(name) == Some(Draft)
    ensures WithSuffix(name, MarkSuffix(Accepted)) == Some(SuffixName(Stem(name), Accepted))
    ensures Suffix(name) == MarkSuffix(Draft)
    ensures var accepted := SuffixName(Stem(name), Accepted);
      SuffixState(accepted) == Some(Accepted) && Stem(accepted) == Stem(name) && accepted != name
  {
    SwapSuffix(name, Accepted);
    SwapSuffix(name, Draft);
  }

  /** The success branch of promote_article, once its guards are known. */
  lemma PromoteArticleAt(sha: Digest, s: Snapshot, name: string, accepted: string, asWritten: bool)
    requires WithSuffix(name, MarkSuffix(Accepted)) == Some(accepted) && accepted !in s.amendments
    requires name in s.amendments && Suffix(name) == MarkSuffix(Draft)
    requires CheckReviewed(sha, s.amendments[name]).Success?
    ensures Read(s.amendments[name]).Some?
    ensures PromoteArticleWith(sha, s, name, asWritten) == Success(Snapshot(
      MarkLawStaleWith(s.constitution, AmendmentPath(accepted), asWritten),
      Move(s.amendments, name, accepted, PromotedText(Read(s.amendments[name]).value))))
  {
  }

  /** The promoted amendment reads back with the transient keys gone and everything
      else, body included, as it was. */
  lemma PromotedRecord(rec: Record)
    requires Clean(rec.fields)
    ensures Read(PromotedText(rec)) == Some(Record(RemoveKeys(rec.fields, ArticleTransient), rec.body))
    ensures Keys(RemoveKeys(rec.fields, ArticleTransient)) == WithoutAll(Keys(rec.fields), ArticleTransient)
  {
    var m := RemoveKeys(rec.fields, ArticleTransient);
    RemoveKeysShape(rec.fields, ArticleTransient);
    RemoveClean(rec.fields, ArticleTransient);
    EmitAfterRemove(rec.fields, ArticleTransient, false);
    WriteReadBack(m, WithoutAll(Keys(rec.fields), ArticleTransient), false, rec.body);
  }

  // ---------------------------------------------------------------------------
  // promote_founding
  // ---------------------------------------------------------------------------

  const AcceptedFounding: string := ".founding.\U{2705}"

  /** The accepted founding record's text: the transient keys removed, the rest in
      its old order, keys outside that order kept at the end. */
  function FoundingText(rec: Record): string {
    Write(RemoveKeys(rec.fields, FoundingTransient), WithoutAll(Keys(rec.fields), FoundingTransient), true, rec.body)
  }

  /** main of promote_founding. */
  function PromoteFounding(sha: Digest, s: Snapshot): (r: Result<Snapshot, Error>)
    ensures r.Success? ==> r.value.constitution == s.constitution && AcceptedFounding in r.value.amendments
    ensures DiscoverFounding(Suffixed, s).None? ==> r == Failure(NoFounding)
    ensures r.Success? <==>
      DiscoverFounding(Suffixed, s).Some? && DiscoverFounding(Suffixed, s).value.state == Review
      && Read(s.amendments[DiscoverFounding(Suffixed, s).value.name]).Some?
      && var rec := Read(s.amendments[DiscoverFounding(Suffixed, s).value.name]).value;
         Unquoted(rec.fields, ApplyOkKey) == BodyHash(sha, rec.body)
  {
    match DiscoverFounding(Suffixed, s)
    case None => Failure(NoFounding)
    case Some(Located(name, state)) =>
      if state == Founding then Failure(FoundingAccepted)
      else if state != Review then Failure(NotInReview)
      else
        match Read(s.amendments[name])
        case None => Failure(NoHeader)
        case Some(rec) =>
          if Unquoted(rec.fields, ApplyOkKey) != BodyHash(sha, rec.body) then Failure(StaleApproval)
          else
            Success(s.(amendments := Move(s.amendments, name, AcceptedFounding, FoundingText(rec))))
  }

  /** After a successful founding promotion the reviewed record has become the
      accepted one, written as `FoundingText`; nothing else changes. */
  lemma PromoteFoundingResult(sha: Digest, s: Snapshot)
    requires PromoteFounding(sha, s).Success?
    ensures var name := FoundingName(Suffixed, Review);
      name in s.amendments && FoundingName(Suffixed, Founding) !in s.amendments
      && Read(s.amendments[name]).Some?
      && PromoteFounding(sha, s).value
         == s.(amendments := Move(s.amendments, name, AcceptedFounding, FoundingText(Read(s.amendments[name]).value)))
  {
    var d := DiscoverFounding(Suffixed, s);
    assert d.Some? && d.value.state == Review;
    assert d.value.name == FoundingName(Suffixed, Review);
  }

  /** The accepted founding record reads back with the transient keys gone and
      every other key, and the body, as they were. */
  lemma FoundingTextReadsBack(rec: Record)
    requires Clean(rec.fields)
    ensures Read(FoundingText(rec)) == Some(Record(RemoveKeys(rec.fields, FoundingTransient), rec.body))
  {
    var m := RemoveKeys(rec.fields, FoundingTransient);
    EmitAfterRemove(rec.fields, FoundingTransient, true);
    RemoveClean(rec.fields, FoundingTransient);
    WriteReadBack(m, WithoutAll(Keys(rec.fields), FoundingTransient), true, rec.body);
  }

  /** Once promoted, the founding record is discovered as accepted. */
  lemma PromotedFoundingDiscovered(sha: Digest, s: Snapshot)
    requires PromoteFounding(sha, s).Success?
    ensures DiscoverFounding(Suffixed, PromoteFounding(sha, s).value) == Some(Located(AcceptedFounding, Founding))
  {
    AcceptedFoundingWins(PromoteFounding(sha, s).value);
  }

  lemma AcceptedFoundingWins(s: Snapshot)
    requires AcceptedFounding in s.amendments
    ensures AcceptedFounding == FoundingName(Suffixed, Founding)
    ensures DiscoverFounding(Suffixed, s) == Some(Located(AcceptedFounding, Founding))
  {
    assert AcceptedFounding == FoundingName(Suffixed, Founding);
  }
}
