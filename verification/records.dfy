/** What the lifecycle scripts share: reading a record into its header dictionary
    and body, the error cases they raise, writing a record back, and moving a file
    to its next state. */
module Records {
  import opened Wrappers
  import opened PyStr
  import opened Frontmatter

  /** The exceptions the scripts raise before writing anything. */
  datatype Error =
    | NotFound          // the named record does not exist
    | NoLaw             // no LAW file in any state
    | NoFounding        // no founding record in any state
    | NotDraft          // the record does not carry the draft marker
    | NoHeader          // the record has no `---` header
    | MissingOpen       // the text does not start with `---`
    | MissingClose      // the header is never closed
    | NotInReview       // the record is not in review
    | StaleApproval     // `apply_ok_at` is not the hash of the current body
    | FoundingAccepted  // the founding record is already accepted
    | IncompleteRequest // NEEDS_INPUT without a reason code and a request
    | EmptyName         // `with_suffix` on an empty name

  /** A record as parse_frontmatter and parse_map read it. */
  datatype Record = Record(fields: seq<Field>, body: string)

  function Read(text: string): (r: Option<Record>)
    ensures r.Some? <==> HasHeader(text)
    ensures r.Some? ==> Clean(r.value.fields) && r.value.body == Body(text)
    ensures r.Some? ==> ReadHeader(text) == Some(r.value.fields)
  {
    match ReadHeader(text)
    case Some(fs) => Some(Record(fs, Body(text)))
    case None => None
  }

  /** `mapping.get(k, "")` */
  function Get(fs: seq<Field>, k: string): string {
    Lookup(fs, k).GetOr("")
  }

  /** `mapping.get(k, "").strip('"').strip("'")` */
  function Unquoted(fs: seq<Field>, k: string): string {
    StripQuotes(Get(fs, k))
  }

  /** The status word, compared case-insensitively. The words compared against
      (`review`, `draft`, `needs_input`) hold no letter that a non-ASCII character
      lowercases to, so ASCII lowering decides the same comparisons. */
  predicate StatusIs(fs: seq<Field>, word: string) {
    LowerAscii(Unquoted(fs, "status")) == word
  }

  /** `f'"{v}"'` */
  function Quoted(v: string): string {
    "\"" + v + "\""
  }

  /** normalized_body_hash / body_hash: the digest of the trimmed body. */
  function BodyHash(sha: Digest, body: string): string {
    sha(Strip(body))
  }

  /** A lowercase hexadecimal digest, as `hexdigest()` produces. */
  predicate Hex(h: string) {
    forall c | c in h :: c in "0123456789abcdef"
  }

  const ApplyOkKey: string := "apply_ok_at"
  const StatusKey: string := "status"

  /** The suitability writers' order: `status` first when it is not already ordered. */
  function StatusFirst(order: seq<string>): (r: seq<string>)
    ensures StatusKey in r
    ensures forall k | k in order :: k in r
    ensures Distinct(order) ==> Distinct(r)
  {
    if StatusKey in order then order else [StatusKey] + order
  }

  /** The writers' order with `apply_ok_at` appended when it is not already ordered. */
  function ApplyOkLast(order: seq<string>): (r: seq<string>)
    ensures ApplyOkKey in r
    ensures forall k | k in order :: k in r
    ensures Distinct(order) ==> Distinct(r)
  {
    if ApplyOkKey in order then order
    else
      assert forall i | 0 <= i < |order| :: (order + [ApplyOkKey])[i] == order[i];
      order + [ApplyOkKey]
  }

  /** Re-writing an emitted header that already holds `apply_ok_at` in the
      suitability writers' order gives the same header back. */
  lemma StatusFirstStable(fs: seq<Field>, extras: bool)
    requires UniqueKeys(fs) && Lookup(fs, ApplyOkKey).Some?
    ensures Emit(fs, ApplyOkLast(StatusFirst(Keys(fs))), extras) == fs
  {
    LookupKeys(fs, ApplyOkKey);
    LookupKeys(fs, StatusKey);
    if StatusKey in Keys(fs) {
      EmitOwnKeys(fs, extras);
    } else {
      var order := [StatusKey] + Keys(fs);
      assert order[1..] == Keys(fs);
      WithoutAbsent(Keys(fs), {StatusKey});
      assert WithoutAll(order, {StatusKey}) == Keys(fs);
      EmitCovering(fs, order, {StatusKey}, extras);
    }
  }

  /** Re-writing an emitted header that already holds `apply_ok_at` and none of
      `ks`, in its own order without `ks`, gives the same header back. */
  lemma WithoutStable(fs: seq<Field>, ks: set<string>, extras: bool)
    requires UniqueKeys(fs) && Lookup(fs, ApplyOkKey).Some?
    requires forall k | k in ks :: Lookup(fs, k).None?
    ensures Emit(fs, ApplyOkLast(WithoutAll(Keys(fs), ks)), extras) == fs
  {
    forall k | k in ks ensures k !in Keys(fs) {
      LookupKeys(fs, k);
    }
    WithoutAbsent(Keys(fs), ks);
    LookupKeys(fs, ApplyOkKey);
    EmitOwnKeys(fs, extras);
  }

  /** write_map: the header the writer emits for `fs` in `order`, then the body. */
  function Write(fs: seq<Field>, order: seq<string>, extras: bool, body: string): string {
    Render(Emit(fs, order, extras), body)
  }

  /** What a writer writes, a reader reads back: the emitted header and the same body. */
  lemma WriteReadBack(fs: seq<Field>, order: seq<string>, extras: bool, body: string)
    requires Clean(fs) && Distinct(order)
    ensures Read(Write(fs, order, extras, body)) == Some(Record(Emit(fs, order, extras), body))
    ensures ExtractBody(Write(fs, order, extras, body)) == Strip(body)
  {
    EmitClean(fs, order, extras);
    RenderRoundTrip(Emit(fs, order, extras), body);
    ExtractBodyIgnoresHeader(Emit(fs, order, extras), body);
  }

  /** The suitability writers' order is the order they would compute again from
      the header with `apply_ok_at` put in. */
  lemma PutOrder(fs: seq<Field>, v: string)
    ensures ApplyOkLast(StatusFirst(Keys(fs))) == ApplyOkLast(StatusFirst(Keys(Put(fs, ApplyOkKey, v))))
  {
    PutKeys(fs, ApplyOkKey, v);
    if ApplyOkKey !in Keys(fs) {
      OrderAppend(Keys(fs));
    }
  }

  lemma OrderAppend(ks: seq<string>)
    requires ApplyOkKey !in ks
    ensures ApplyOkLast(StatusFirst(ks)) == ApplyOkLast(StatusFirst(ks + [ApplyOkKey]))
  {
    var put := ks + [ApplyOkKey];
    assert |StatusKey| == 6 && |ApplyOkKey| == 11;
    assert StatusKey in put <==> StatusKey in ks;
    assert ApplyOkKey !in StatusFirst(ks);
    if StatusKey !in ks {
      assert [StatusKey] + put == ([StatusKey] + ks) + [ApplyOkKey];
    }
  }

  /** Writing a header with `apply_ok_at` put in, in the suitability writers' order,
      reads back as that header. */
  lemma PutReadsBack(fs: seq<Field>, v: string, body: string, extras: bool)
    requires Clean(fs) && CleanValue(v)
    ensures Read(Write(Put(fs, ApplyOkKey, v), ApplyOkLast(StatusFirst(Keys(fs))), extras, body)) == Some(Record(Put(fs, ApplyOkKey, v), body))
  {
    WordClean(ApplyOkKey);
    PutClean(fs, ApplyOkKey, v);
    PutEmit(fs, v, extras);
    WriteReadBack(Put(fs, ApplyOkKey, v), ApplyOkLast(StatusFirst(Keys(fs))), extras, body);
  }

  lemma PutEmit(fs: seq<Field>, v: string, extras: bool)
    requires UniqueKeys(fs)
    ensures Emit(Put(fs, ApplyOkKey, v), ApplyOkLast(StatusFirst(Keys(fs))), extras) == Put(fs, ApplyOkKey, v)
  {
    PutUnique(fs, ApplyOkKey, v);
    PutOrder(fs, v);
    StatusFirstStable(Put(fs, ApplyOkKey, v), extras);
  }


  /** A writer that keeps the keys outside its order writes every key of the
      dictionary: what it writes reads back with the same value at every key and
      the same body. */
  lemma WriteKeepsAll(fs: seq<Field>, order: seq<string>, body: string)
    requires Clean(fs) && Distinct(order)
    ensures Read(Write(fs, order, true, body)).Some?
    ensures Read(Write(fs, order, true, body)).value.body == body
    ensures forall k :: Lookup(Read(Write(fs, order, true, body)).value.fields, k) == Lookup(fs, k)
  {
    WriteReadBack(fs, order, true, body);
    forall k ensures Lookup(Emit(fs, order, true), k) == Lookup(fs, k) {
      EmitLookup(fs, order, true, k);
    }
  }

  /** A quoted value on one line is a value a header can hold. */
  lemma QuotedClean(v: string)
    requires NoBreak(v)
    ensures CleanValue(Quoted(v))
  {
    assert forall c | c in Quoted(v) :: c == '"' || c in v;
  }

  /** A digest needs no escaping: it is one line and holds no quote. */
  lemma HexQuoted(h: string)
    requires Hex(h)
    ensures NoBreak(h) && CleanValue(Quoted(h)) && StripQuotes(Quoted(h)) == h
  {
    if h != [] {
      assert h[0] in h && h[|h| - 1] in h;
    }
    QuotedClean(h);
    QuotesRoundTrip(h);
  }

  /** Writing a file with the text it already holds changes nothing. */
  lemma UpdateSame(dir: map<string, string>, name: string, text: string)
    requires name in dir && dir[name] == text
    ensures dir[name := text] == dir
  {
  }

  /** A rename that replaces the text: `from` is gone, `to` holds `text`. */
  function Move(dir: map<string, string>, from: string, to: string, text: string): (r: map<string, string>)
    ensures r.Keys == dir.Keys - {from} + {to}
    ensures r[to] == text
    ensures forall n | n in dir && n != from && n != to :: r[n] == dir[n]
  {
    (dir - {from})[to := text]
  }

  /** Renaming a file to its own name with the text it holds changes nothing. */
  lemma MoveSame(dir: map<string, string>, name: string, text: string)
    requires name in dir && dir[name] == text
    ensures Move(dir, name, name, text) == dir
  {
  }
}
