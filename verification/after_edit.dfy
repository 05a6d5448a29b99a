/** hook_after_file_edit: an edit to a draft amendment invalidates its approval by
    resetting `apply_ok_at` to the pending marker. Names use the prefix scheme. */
module AfterEdit {
  import opened Wrappers
  import opened PyStr
  import opened Frontmatter
  import Names
  import opened Store
  import opened Records
  import Stamp
  import Promotion

  /** The pending value the hook writes, quoted. */
  function PendingValue(): string {
    Quoted(Stamp.PendingMark)
  }

  /** The statuses under which an edit resets the approval. */
  predicate Resets(fs: seq<Field>) {
    StatusIs(fs, "draft") || StatusIs(fs, "review")
  }

  /** The edited file is a live draft: it exists in the amendments directory, carries
      the draft marker, and has no accepted sibling. */
  predicate LiveDraft(s: Snapshot, name: string) {
    name in s.amendments && Names.StateOf(name) == Some(Names.Draft)
    && Names.SwapState(name, Names.Accepted) !in s.amendments
  }

  /** write_map of the hook: `status` first and `apply_ok_at` last when they are not
      already ordered, every other key kept. */
  function EditedText(rec: Record): string {
    Write(Put(rec.fields, ApplyOkKey, PendingValue()), ApplyOkLast(StatusFirst(Keys(rec.fields))), true, rec.body)
  }

  /** main of the hook. `edited` is the edited file's name when its resolved path is
      inside `.constitution/amendments/`, and `None` otherwise (no path given, or a
      path elsewhere). */
  function AfterFileEdit(s: Snapshot, edited: Option<string>): (r: Snapshot)
    ensures edited.None? ==> r == s
    ensures edited.Some? && !LiveDraft(s, edited.value) ==> r == s
    ensures edited.Some? && LiveDraft(s, edited.value) && !HasHeader(s.amendments[edited.value]) ==> r == s
    ensures r != s ==> edited.Some? && LiveDraft(s, edited.value) && Resets(Read(s.amendments[edited.value]).value.fields)
    ensures r == s || (edited.Some? && edited.value in r.amendments && r == Snapshot(s.constitution, s.amendments[edited.value := r.amendments[edited.value]]))
  {
    match edited
    case None => s
    case Some(name) =>
      if !LiveDraft(s, name) then s
      else
        match Read(s.amendments[name])
        case None => s
        case Some(rec) =>
          if Resets(rec.fields) then s.(amendments := s.amendments[name := EditedText(rec)])
          else s
  }

  /** A reset rewrites the edited draft with the pending marker. */
  lemma EditResult(s: Snapshot, name: string)
    requires LiveDraft(s, name) && HasHeader(s.amendments[name]) && Resets(Read(s.amendments[name]).value.fields)
    ensures AfterFileEdit(s, Some(name)) == s.(amendments := s.amendments[name := EditedText(Read(s.amendments[name]).value)])
  {
  }

  lemma PendingClean()
    ensures CleanValue(PendingValue())
    ensures StripQuotes(PendingValue()) == Stamp.PendingMark
  {
    assert NoBreak(Stamp.PendingMark) && Unquotable(Stamp.PendingMark);
    QuotedClean(Stamp.PendingMark);
    QuotesRoundTrip(Stamp.PendingMark);
  }

  /** The reset text reads back as the draft's header with `apply_ok_at` pending, in
      place or appended, every other key and the body as they were. */
  lemma EditedReadsBack(rec: Record)
    requires Clean(rec.fields)
    ensures Read(EditedText(rec)) == Some(Record(Put(rec.fields, ApplyOkKey, PendingValue()), rec.body))
  {
    PendingClean();
    PutReadsBack(rec.fields, PendingValue(), rec.body, true);
  }

  /** An edit withdraws the approval: whenever the body hash is a hex digest, the
      edited draft fails promotion's checks. */
  lemma EditBlocksPromotion(sha: Digest, rec: Record)
    requires Clean(rec.fields) && Hex(BodyHash(sha, rec.body))
    ensures Promotion.CheckReviewed(sha, EditedText(rec)).Failure?
  {
    var m := Put(rec.fields, ApplyOkKey, PendingValue());
    EditedReadsBack(rec);
    PendingClean();
    assert Unquoted(m, ApplyOkKey) == Stamp.PendingMark;
    Stamp.PendingNotDigest(BodyHash(sha, rec.body));
  }

  /** The hook writes what stamping the draft `pending` writes. */
  lemma EditIsPendingStamp(sha: Digest, s: Snapshot, name: string)
    requires LiveDraft(s, name) && HasHeader(s.amendments[name]) && Resets(Read(s.amendments[name]).value.fields)
    ensures AfterFileEdit(s, Some(name)) == Stamp.StampApplyOk(sha, s, name, Stamp.Pending).value.after
  {
    var rec := Read(s.amendments[name]).value;
    EditResult(s, name);
    Stamp.StampResult(sha, s, name, Stamp.Pending);
    PutEmit(rec.fields, PendingValue(), true);
    PutEmit(rec.fields, PendingValue(), false);
    assert EditedText(rec) == Stamp.StampText(sha, rec, Stamp.Pending);
  }

  /** Setting the pending marker does not change whether a header resets. */
  lemma ResetsKept(rec: Record)
    ensures Resets(Put(rec.fields, ApplyOkKey, PendingValue())) == Resets(rec.fields)
  {
    StatusKept(rec.fields, PendingValue());
    assert Get(Put(rec.fields, ApplyOkKey, PendingValue()), "status") == Get(rec.fields, "status");
  }

  /** Resetting the reset header writes the same text again. */
  lemma EditedStable(rec: Record)
    ensures EditedText(Record(Put(rec.fields, ApplyOkKey, PendingValue()), rec.body)) == EditedText(rec)
  {
    var m := Put(rec.fields, ApplyOkKey, PendingValue());
    PutExisting(m, ApplyOkKey, PendingValue());
    PutOrder(rec.fields, PendingValue());
  }

  /** Putting `apply_ok_at` leaves the status as it was. */
  lemma StatusKept(fs: seq<Field>, v: string)
    ensures Lookup(Put(fs, ApplyOkKey, v), "status") == Lookup(fs, "status")
  {
    assert |ApplyOkKey| != |"status"|;
  }

  /** Handling the same edit twice leaves the draft as handling it once did. */
  lemma EditTwice(s: Snapshot, name: string)
    ensures AfterFileEdit(AfterFileEdit(s, Some(name)), Some(name)) == AfterFileEdit(s, Some(name))
  {
    if LiveDraft(s, name) && HasHeader(s.amendments[name]) && Resets(Read(s.amendments[name]).value.fields) {
      var rec := Read(s.amendments[name]).value;
      var t := EditedText(rec);
      EditResult(s, name);
      EditedReadsBack(rec);
      ResetsKept(rec);
      EditedStable(rec);
      var s1 := AfterFileEdit(s, Some(name));
      assert s1.amendments == s.amendments[name := t];
      assert LiveDraft(s1, name);
      EditResult(s1, name);
      UpdateSame(s1.amendments, name, t);
    }
  }
}
