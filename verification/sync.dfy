/** sync_article_hash: recording the current amendments hash in the LAW's header
    and making the LAW active. Names use the prefix scheme. */
module Sync {
  import opened Wrappers
  import opened PyStr
  import opened Frontmatter
  import Names
  import Order
  import opened Store
  import opened HashFeed
  import opened Records
  import Verifier

  const HashKey: string := "amendments_hash"
  const LastKey: string := "last_reconciled_amendment"

  /** The stale and transient keys a sync removes. */
  const Transient: set<string> :=
    {"stale_reason", "stale_since_hash", "stale_amendment_path", "pending_reason_code",
     "status", "articles_hash", "stale_article_path", "resolution_started_at"}

  lemma KeysApart()
    ensures HashKey !in Transient && LastKey !in Transient && HashKey != LastKey
    ensures HashKey == Verifier.HashKey
  {
    assert |HashKey| == 15 && |LastKey| == 25;
    assert forall k | k in Transient :: |k| != 15 && |k| != 25;
  }

  /** parse_frontmatter_parts: the split, or the missing delimiter. */
  function SplitParts(text: string): (r: Result<Split, Error>)
    ensures !StartsWith(text, Open) ==> r == Failure(MissingOpen)
    ensures StartsWith(text, Open) && !HasHeader(text) ==> r == Failure(MissingClose)
    ensures r.Success? <==> HasHeader(text)
    ensures r.Success? ==> text == Open + r.value.front + Close + r.value.body
  {
    if !StartsWith(text, Open) then Failure(MissingOpen)
    else if !HasHeader(text) then Failure(MissingClose)
    else Success(ParseFrontmatter(text))
  }

  /** `n` is the accepted amendment that sorts last. */
  ghost predicate Latest(dir: map<string, string>, n: string) {
    AcceptedListed(Prefixed, dir, n) && forall m | AcceptedListed(Prefixed, dir, m) :: Order.LessEq(m, n)
  }

  /** latest_accepted_amendment_base: the base name of the last accepted amendment
      in sorted order. */
  function LatestAcceptedBase(dir: map<string, string>): (r: Option<string>)
    ensures r.None? <==> forall n :: !AcceptedListed(Prefixed, dir, n)
    ensures r.Some? ==> exists n :: Latest(dir, n) && r.value == Names.BaseName(n)
  {
    var accepted := ListAccepted(Prefixed, dir);
    if |accepted| == 0 then None
    else
      var n := accepted[|accepted| - 1];
      Order.LastIsGreatest(accepted);
      assert Latest(dir, n);
      Some(Names.BaseName(n))
  }

  /** `order.append(k)` unless `k` is already ordered. */
  function AppendKey(order: seq<string>, k: string): (r: seq<string>)
    ensures k in r && forall x | x in order :: x in r
    ensures Distinct(order) ==> Distinct(r)
  {
    if k in order then order
    else
      assert forall i | 0 <= i < |order| :: (order + [k])[i] == order[i];
      order + [k]
  }

  /** The dictionary upsert_amendments_hash builds: the hash set, the last amendment
      set when there is one, the transient keys removed. */
  function UpsertFields(fs: seq<Field>, hash: string, last: Option<string>): (r: seq<Field>)
    ensures Lookup(r, HashKey) == Some(Quoted(hash))
    ensures Lookup(r, LastKey) == if last.Some? then Some(Quoted(last.value)) else Lookup(fs, LastKey)
    ensures forall k | k in Transient :: Lookup(r, k).None?
    ensures forall k | k != HashKey && k != LastKey && k !in Transient :: Lookup(r, k) == Lookup(fs, k)
  {
    KeysApart();
    var withHash := Put(fs, HashKey, Quoted(hash));
    var withLast := if last.Some? then Put(withHash, LastKey, Quoted(last.value)) else withHash;
    RemoveKeys(withLast, Transient)
  }

  /** The order it writes in: the read order, then the new keys. */
  function UpsertOrder(order: seq<string>, last: Option<string>): seq<string> {
    var o := AppendKey(order, HashKey);
    if last.Some? then AppendKey(o, LastKey) else o
  }

  /** The header upsert_amendments_hash emits for a parsed header. */
  function Upsert(fs: seq<Field>, hash: string, last: Option<string>): (r: seq<Field>)
    ensures forall k :: Lookup(r, k) == Lookup(UpsertFields(fs, hash, last), k)
    ensures Lookup(r, HashKey) == Some(Quoted(hash))
    ensures forall k | k in Transient :: Lookup(r, k).None?
    ensures forall k | k != HashKey && k != LastKey && k !in Transient :: Lookup(r, k) == Lookup(fs, k)
  {
    var u := UpsertFields(fs, hash, last);
    EmitKeepsAll(u, UpsertOrder(Keys(fs), last));
    Emit(u, UpsertOrder(Keys(fs), last), true)
  }

  /** main of sync_article_hash. */
  function SyncLaw(sha: Digest, s: Snapshot): (r: Result<Snapshot, Error>)
    ensures DiscoverLaw(Prefixed, s).None? ==> r == Failure(NoLaw)
    ensures r.Success? <==> DiscoverLaw(Prefixed, s).Some? && HasHeader(s.constitution[DiscoverLaw(Prefixed, s).value.name])
    ensures r.Success? ==> r.value.amendments == s.amendments
  {
    match DiscoverLaw(Prefixed, s)
    case None => Failure(NoLaw)
    case Some(at) =>
      var hash := AmendmentsHash(sha, Prefixed, s);
      var last := LatestAcceptedBase(s.amendments);
      match SplitParts(s.constitution[at.name])
      case Failure(e) => Failure(e)
      case Success(sp) =>
        var text := Render(Upsert(ParseMap(sp.front), hash, last), sp.body);
        Success(s.(constitution := Move(s.constitution, at.name, LawName(Prefixed, Active), text)))
  }

  /** The emitted header is the upserted dictionary itself: existing keys keep
      their first-occurrence order, the new keys follow, the transient keys are
      gone. */
  lemma UpsertShape(fs: seq<Field>, hash: string, last: Option<string>)
    requires UniqueKeys(fs)
    ensures Upsert(fs, hash, last) == UpsertFields(fs, hash, last)
    ensures Keys(Upsert(fs, hash, last)) == WithoutAll(UpsertOrder(Keys(fs), last), Transient)
    ensures UniqueKeys(Upsert(fs, hash, last))
  {
    var withHash := Put(fs, HashKey, Quoted(hash));
    var withLast := if last.Some? then Put(withHash, LastKey, Quoted(last.value)) else withHash;
    PutKeys(fs, HashKey, Quoted(hash));
    PutUnique(fs, HashKey, Quoted(hash));
    if last.Some? {
      PutKeys(withHash, LastKey, Quoted(last.value));
      PutUnique(withHash, LastKey, Quoted(last.value));
    }
    assert Keys(withLast) == UpsertOrder(Keys(fs), last);
    RemoveKeysShape(withLast, Transient);
    EmitAfterRemove(withLast, Transient, true);
  }

  /** Upserting twice with the same hash and last amendment gives what upserting
      once gave. */
  lemma UpsertIdempotent(fs: seq<Field>, hash: string, last: Option<string>)
    requires UniqueKeys(fs)
    ensures Upsert(Upsert(fs, hash, last), hash, last) == Upsert(fs, hash, last)
  {
    KeysApart();
    UpsertShape(fs, hash, last);
    var e := Upsert(fs, hash, last);
    PutExisting(e, HashKey, Quoted(hash));
    if last.Some? {
      PutExisting(e, LastKey, Quoted(last.value));
    }
    RemoveAbsent(e, Transient);
    assert UpsertFields(e, hash, last) == e;
    LookupKeys(e, HashKey);
    LookupKeys(e, LastKey);
    assert UpsertOrder(Keys(e), last) == Keys(e);
    EmitOwnKeys(e, true);
  }

  lemma UpsertClean(fs: seq<Field>, hash: string, last: Option<string>)
    requires Clean(fs) && NoBreak(hash) && (last.Some? ==> NoBreak(last.value))
    ensures Clean(Upsert(fs, hash, last))
  {
    WordClean(HashKey);
    WordClean(LastKey);
    QuotedClean(hash);
    var withHash := Put(fs, HashKey, Quoted(hash));
    PutClean(fs, HashKey, Quoted(hash));
    if last.Some? {
      QuotedClean(last.value);
      PutClean(withHash, LastKey, Quoted(last.value));
    }
    var withLast := if last.Some? then Put(withHash, LastKey, Quoted(last.value)) else withHash;
    RemoveClean(withLast, Transient);
    UpsertShape(fs, hash, last);
  }

  /** A successful sync writes the upserted header and the same body to the active
      LAW name, the LAW it found gone. */
  lemma SyncOutcome(sha: Digest, s: Snapshot)
    requires SyncLaw(sha, s).Success?
    ensures var at := DiscoverLaw(Prefixed, s).value;
      var text := s.constitution[at.name];
      SyncLaw(sha, s).value == s.(constitution := Move(s.constitution, at.name, LawName(Prefixed, Active),
        Render(Upsert(ReadHeader(text).value, AmendmentsHash(sha, Prefixed, s), LatestAcceptedBase(s.amendments)), Body(text))))
  {
  }

  /** After a sync the LAW is found active. */
  lemma SyncActivates(sha: Digest, s: Snapshot)
    requires SyncLaw(sha, s).Success?
    ensures DiscoverLaw(Prefixed, SyncLaw(sha, s).value) == Some(Located(LawName(Prefixed, Active), Active))
  {
    SyncOutcome(sha, s);
  }

  /** The synced LAW's header, read back. */
  lemma SyncedHeader(sha: Digest, s: Snapshot)
    requires SyncLaw(sha, s).Success?
    requires Hex(AmendmentsHash(sha, Prefixed, s))
    requires LatestAcceptedBase(s.amendments).Some? ==> NoBreak(LatestAcceptedBase(s.amendments).value)
    ensures var text := s.constitution[DiscoverLaw(Prefixed, s).value.name];
      var e := Upsert(ReadHeader(text).value, AmendmentsHash(sha, Prefixed, s), LatestAcceptedBase(s.amendments));
      Clean(e) && SyncLaw(sha, s).value.constitution[LawName(Prefixed, Active)] == Render(e, Body(text))
  {
    var text := s.constitution[DiscoverLaw(Prefixed, s).value.name];
    HexQuoted(AmendmentsHash(sha, Prefixed, s));
    UpsertClean(ReadHeader(text).value, AmendmentsHash(sha, Prefixed, s), LatestAcceptedBase(s.amendments));
    SyncOutcome(sha, s);
  }

  /** A sync makes the verifier (reading prefix-scheme names) pass, and records the
      last accepted amendment when there is one. */
  lemma SyncThenVerify(sha: Digest, s: Snapshot)
    requires SyncLaw(sha, s).Success?
    requires Hex(AmendmentsHash(sha, Prefixed, s))
    requires LatestAcceptedBase(s.amendments).Some? ==> NoBreak(LatestAcceptedBase(s.amendments).value)
    ensures Verifier.Verify(sha, Prefixed, SyncLaw(sha, s).value) == Verifier.Pass
    ensures var last := LatestAcceptedBase(s.amendments);
      var header := ReadHeader(SyncLaw(sha, s).value.constitution[LawName(Prefixed, Active)]);
      last.Some? ==> header.Some? && Lookup(header.value, LastKey) == Some(Quoted(last.value))
  {
    var s1 := SyncLaw(sha, s).value;
    var text := s.constitution[DiscoverLaw(Prefixed, s).value.name];
    var e := Upsert(ReadHeader(text).value, AmendmentsHash(sha, Prefixed, s), LatestAcceptedBase(s.amendments));
    SyncedHeader(sha, s);
    SyncActivates(sha, s);
    FeedOnlyBodies(Prefixed, s1, s);
    assert AmendmentsHash(sha, Prefixed, s1) == AmendmentsHash(sha, Prefixed, s);
    KeysApart();
    UpsertShape(ReadHeader(text).value, AmendmentsHash(sha, Prefixed, s), LatestAcceptedBase(s.amendments));
    Verifier.PassIffRecorded(sha, Prefixed, s1, e, Body(text));
    RenderRoundTrip(e, Body(text));
  }

  /** The sync writes prefix-spelled names only, and verify_kernel_hash reads
      suffix-spelled ones: a LAW the sync just activated is one the shipped verifier
      does not find. */
  lemma SyncUnseenByKernelCheck(sha: Digest, s: Snapshot)
    requires SyncLaw(sha, s).Success?
    requires forall st :: LawName(Suffixed, st) !in s.constitution
    ensures Verifier.VerifyKernelHash(sha, SyncLaw(sha, s).value) == Verifier.LawNotFound
  {
    var s1 := SyncLaw(sha, s).value;
    forall st ensures LawName(Suffixed, st) !in s1.constitution {
      LawSchemesApart(st, Active);
    }
  }

  /** No suffix-spelled LAW name is a prefix-spelled one: they start differently. */
  lemma LawSchemesApart(st1: LawState, st2: LawState)
    ensures LawName(Suffixed, st1) != LawName(Prefixed, st2)
  {
    assert LawName(Suffixed, st1)[0] == 'L';
    assert LawName(Prefixed, st2)[0] == Names.Glyph(LawMarker(st2));
  }

  /** Syncing twice leaves the directory as syncing once did. */
  lemma SyncTwice(sha: Digest, s: Snapshot)
    requires SyncLaw(sha, s).Success?
    requires Hex(AmendmentsHash(sha, Prefixed, s))
    requires LatestAcceptedBase(s.amendments).Some? ==> NoBreak(LatestAcceptedBase(s.amendments).value)
    ensures SyncLaw(sha, SyncLaw(sha, s).value) == SyncLaw(sha, s)
  {
    var s1 := SyncLaw(sha, s).value;
    var text := s.constitution[DiscoverLaw(Prefixed, s).value.name];
    var hash := AmendmentsHash(sha, Prefixed, s);
    var last := LatestAcceptedBase(s.amendments);
    var e := Upsert(ReadHeader(text).value, hash, last);
    var active := LawName(Prefixed, Active);
    SyncedHeader(sha, s);
    SyncActivates(sha, s);
    FeedOnlyBodies(Prefixed, s1, s);
    RenderRoundTrip(e, Body(text));
    UpsertIdempotent(ReadHeader(text).value, hash, last);
    SyncOutcome(sha, s1);
    MoveSame(s1.constitution, active, Render(e, Body(text)));
  }
}
