/** stamp_apply_ok_at: marking a draft's approval as pending, or stamping it with
    the hash of its current body. Names use the prefix scheme. */
module Stamp {
  import opened Wrappers
  import opened PyStr
  import opened Frontmatter
  import Names
  import opened Store
  import opened Records

  /** The `--state` argument. */
  datatype StampState = Pending | Ok

  /** The pending marker: the resolving glyph. */
  const PendingMark: string := [Names.Glyph(Names.Resolving)]

  /** The pending marker is never a hex digest, so a pending stamp never matches
      a body hash. */
  lemma PendingNotDigest(h: string)
    requires Hex(h)
    ensures h != PendingMark
  {
    assert PendingMark[0] in PendingMark;
  }

  /** The value written to `apply_ok_at`, quoted. */
  function StampValue(sha: Digest, body: string, st: StampState): string {
    match st
    case Pending => Quoted(PendingMark)
    case Ok => Quoted(BodyHash(sha, body))
  }

  /** write_map of stamp_apply_ok_at: `status` first and `apply_ok_at` last when
      they are not already ordered; keys outside the order are not written. */
  function StampText(sha: Digest, rec: Record, st: StampState): string {
    Write(Put(rec.fields, ApplyOkKey, StampValue(sha, rec.body, st)), ApplyOkLast(StatusFirst(Keys(rec.fields))), false, rec.body)
  }

  /** What the script leaves behind: the directory, and the value it prints. */
  datatype Stamped = Stamped(after: Snapshot, printed: string)

  /** main of stamp_apply_ok_at, for the draft named `name`. */
  function StampApplyOk(sha: Digest, s: Snapshot, name: string, st: StampState): (r: Result<Stamped, Error>)
    ensures name !in s.amendments ==> r == Failure(NotFound)
    ensures name in s.amendments && Names.StateOf(name) != Some(Names.Draft) ==> r == Failure(NotDraft)
    ensures r.Success? <==>
      name in s.amendments && Names.StateOf(name) == Some(Names.Draft) && HasHeader(s.amendments[name])
    ensures r.Success? ==>
      name in r.value.after.amendments && r.value.after == Snapshot(s.constitution, s.amendments[name := r.value.after.amendments[name]])
  {
    if name !in s.amendments then Failure(NotFound)
    else if Names.StateOf(name) != Some(Names.Draft) then Failure(NotDraft)
    else
      match Read(s.amendments[name])
      case None => Failure(NoHeader)
      case Some(rec) =>
        var v := StampValue(sha, rec.body, st);
        Success(Stamped(s.(amendments := s.amendments[name := StampText(sha, rec, st)]), StripDouble(v)))
  }

  /** A successful stamp writes the draft's stamped text and prints the unquoted
      value. */
  lemma StampResult(sha: Digest, s: Snapshot, name: string, st: StampState)
    requires name in s.amendments && Names.StateOf(name) == Some(Names.Draft) && HasHeader(s.amendments[name])
    ensures var rec := Read(s.amendments[name]).value;
      StampApplyOk(sha, s, name, st)
      == Success(Stamped(s.(amendments := s.amendments[name := StampText(sha, rec, st)]), StripDouble(StampValue(sha, rec.body, st))))
  {
  }

  /** The value is one line: a header can hold it. */
  lemma StampValueClean(sha: Digest, body: string, st: StampState)
    requires st == Ok ==> Hex(BodyHash(sha, body))
    ensures CleanValue(StampValue(sha, body, st))
  {
    if st == Ok {
      HexQuoted(BodyHash(sha, body));
    } else {
      assert NoBreak(PendingMark);
      QuotedClean(PendingMark);
    }
  }

  /** Only `apply_ok_at` changes: the stamped text reads back as the draft's header
      with `apply_ok_at` set in place (or appended when it was absent), every other
      key kept in its order, and the same body. */
  lemma StampHeader(sha: Digest, rec: Record, st: StampState)
    requires Clean(rec.fields)
    requires st == Ok ==> Hex(BodyHash(sha, rec.body))
    ensures Read(StampText(sha, rec, st)) == Some(Record(Put(rec.fields, ApplyOkKey, StampValue(sha, rec.body, st)), rec.body))
  {
    var v := StampValue(sha, rec.body, st);
    StampValueClean(sha, rec.body, st);
    PutReadsBack(rec.fields, v, rec.body, false);
  }

  /** The value, unquoted: the pending glyph or the body hash. */
  lemma PrintedValue(sha: Digest, body: string, st: StampState)
    requires st == Ok ==> Hex(BodyHash(sha, body))
    ensures StripDouble(StampValue(sha, body, st)) == if st == Pending then PendingMark else BodyHash(sha, body)
  {
    if st == Ok {
      var h := BodyHash(sha, body);
      if h != [] {
        assert h[0] in h && h[|h| - 1] in h;
      }
      DoubleQuotesRoundTrip(h);
    } else {
      DoubleQuotesRoundTrip(PendingMark);
    }
  }

  /** The printed value is the marker without its quotes: the pending glyph, or the
      body hash. */
  lemma StampPrinted(sha: Digest, s: Snapshot, name: string, st: StampState)
    requires StampApplyOk(sha, s, name, st).Success?
    requires st == Ok ==> Hex(BodyHash(sha, Read(s.amendments[name]).value.body))
    ensures StampApplyOk(sha, s, name, st).value.printed
      == if st == Pending then PendingMark else BodyHash(sha, Read(s.amendments[name]).value.body)
  {
    StampResult(sha, s, name, st);
    PrintedValue(sha, Read(s.amendments[name]).value.body, st);
  }

  /** Stamping twice with the same state leaves the draft as stamping once did. */
  lemma StampTwice(sha: Digest, s: Snapshot, name: string, st: StampState)
    requires StampApplyOk(sha, s, name, st).Success?
    requires st == Ok ==> Hex(BodyHash(sha, Read(s.amendments[name]).value.body))
    ensures var r := StampApplyOk(sha, s, name, st).value;
      StampApplyOk(sha, r.after, name, st) == Success(r)
  {
    var rec := Read(s.amendments[name]).value;
    var v := StampValue(sha, rec.body, st);
    var m := Put(rec.fields, ApplyOkKey, v);
    var t := StampText(sha, rec, st);
    StampResult(sha, s, name, st);
    StampHeader(sha, rec, st);
    var r := StampApplyOk(sha, s, name, st).value;
    assert r.after.amendments[name] == t;
    var rec2 := Record(m, rec.body);
    assert Read(t) == Some(rec2);
    PutExisting(m, ApplyOkKey, v);
    PutOrder(m, v);
    PutOrder(rec.fields, v);
    assert StampText(sha, rec2, st) == t;
    StampResult(sha, r.after, name, st);
    UpdateSame(r.after.amendments, name, t);
  }
}
