# The constitutional record lifecycle, in Dafny

This project models the core of *slices*: a "constitution" kept as plain text files
under `.constitution/`, and the scripts and editor hooks that move its records
through their lifecycle. The records are:

- the **LAW**, the reconciled text of the constitution, which is active (✅),
  resolving (⏳) or corrupted (❌);
- the **founding record**, which is a draft (📝), under review (⏳) or accepted (✅);
- the **amendments**, each a file named by a 14-digit timestamp and carrying one
  of the same state glyphs.

Every record is a `---`-delimited header of `key: value` lines in insertion order,
followed by a body. A record's state is spelt in its file name, in one of two
schemes that the repository keeps apart and so does the model: the prefix scheme
`"<glyph> <base>"` (`Names.MakeName`) and the suffix scheme `"<base>.<glyph>"`
(`Names.SuffixName`).

The modules follow the scripts:

| module | models |
|---|---|
| `Wrappers` | `Option` and `Result` |
| `PyStr` | the Python `str` operations the scripts rely on (`strip`, `split`, `find`, `replace`, ...) |
| `Names` | state glyphs and both naming schemes |
| `Frontmatter` | the header codecs, the insertion-ordered header (dict assignment, `pop`, emission in a key order) and the `write_map` variants of each script |
| `Order` | Python's string order and `sorted()` |
| `Store` | the directory snapshot, discovery of the LAW and the founding record, and the listings |
| `Records` | reading and writing a record, the writers' key orders, and renames |
| `HashFeed` | the text fed to the digest for the amendments hash |
| `Verifier` | the outcome of `verify_kernel_hash` |
| `Promotion` | `promote_article` and `promote_founding` |
| `Suitability` | `apply_suitability_result` and `apply_founding_result` |
| `Stamp` | `stamp_apply_ok_at` |
| `Sync` | `sync_article_hash` |
| `AfterEdit` | `hook_after_file_edit` |
| `Session` | `hook_session_start` |
| `StopHook` | `hook_stop_inject_stale_law`: which drafts need evaluation and the activity locks |
| `Subagents` | `hook_subagent_start` and `hook_subagent_stop` |
| `ToolGate` | `hook_pre_tool_use`: the LAW drift check and the write gate |
| `ShellGate` | `hook_before_shell_execution` |
| `Ulid`, `Memory`, `Cli` | the memory tool: ULIDs, front matter, nested fields, links, `define`, `remember` and `search` |
| `Installer` | the pure parts of the Cursor installer: hook filtering, merge and removal, owned files |

Modelling choices:

- **Hash.** The SHA-256 digest is a parameter `sha: string -> string`. Every
  property about hashes holds for any such function. What is proved is the text
  that is fed to it and how its result is compared.
- **Directory.** A directory is a snapshot: a map from file name to text, one for
  `.constitution/` and one for `.constitution/amendments/`. Each script becomes a
  function from a snapshot to a new snapshot, or to an error that leaves the
  snapshot as it was.
- **Glyphs.** Three of the modelled files spell the glyphs in mis-decoded form:
  `constitutional_paths.py` and `promote_founding.py` (lines 20, 73, 76 and 102) as
  UTF-8 read as Windows-1252 ("âœ…", "â³", "ðŸ“"), and `hook_pre_tool_use.py` as
  UTF-8 read as Mac Roman ("‚úÖ", "‚è≥"). The model assumes the shipped files carry
  the real glyphs and reads each of these spellings as the glyph it stands for;
  this is an interpretation, not a transcription. The four states are one
  enumeration, `Names.Marker`.
- **Naming schemes.** The stop hook looks for `LAW.⏳` and `.founding.📝`, while the
  subagent hooks write to `⏳ LAW` and `📝 .founding`. The model keeps this as written:
  `Subagents.StartUnseenByStopHook` shows that the locks a subagent sets are never
  the ones the stop hook reads. In the same way `sync_article_hash.py` writes
  `✅ LAW` while `verify_kernel_hash.py` looks for `LAW.✅`, `LAW.⏳` and `LAW.❌`:
  `Sync.SyncUnseenByKernelCheck` shows that the shipped verifier does not find the
  LAW a sync has just activated, and `Sync.SyncThenVerify` states the agreement
  only for the prefix-spelled comparison the pre-tool hook makes.
- **Stale LAW after promotion.** `Promotion.PromoteArticle` is `promote_article.py`
  as written, including the lost stale keys listed under Findings;
  `Promotion.PromoteArticleCorrected` is the same run with the LAW update that
  records them.
- **Inputs.** Clock readings, the random half of a ULID, `shlex` tokens, path
  resolution and the regular-expression tests over a tool call's JSON are inputs to
  the functions that use them.

## Model

| member | source | states |
|---|---|---|
| Names.MarkerOf | skill/scripts/constitutional_paths.py:19-25 | reading a glyph inverts spelling it: exactly the four state glyphs decode, each to the marker it spells |
| Names.StateOf | skill/scripts/constitutional_paths.py:28-33 | a state is read only from a name that starts with that state's glyph followed by a blank |
| Names.StateOfSpelled | skill/scripts/constitutional_paths.py:28-47 | a name carries a state exactly when some marker and base spell it with make_name |
| Names.BaseName | skill/scripts/constitutional_paths.py:36-42 | a name without a state prefix is its own base; otherwise prefix and base put back together give the name |
| Names.MakeNameRoundTrip | skill/scripts/constitutional_paths.py:28-47 | for every marker and base, the state read back from make_name is the marker and the base read back is the base |
| Names.SwapStateEffect | skill/scripts/constitutional_paths.py:50-52 | swapping sets the new state and keeps the base; swapping back to the old state restores the original name |
| Names.TmpNameKeepsState | skill/scripts/constitutional_paths.py:55-57 | the staging sibling keeps the record's state glyph and appends ".tmp" to the base |
| Names.Suffix | skill/scripts/verify_kernel_hash.py:44-50 | pathlib's suffix is empty or starts with a dot, is a proper tail of the name, and never the whole name |
| Names.WithSuffix | skill/scripts/promote_article.py:96-131 | with_suffix fails exactly on an empty name |
| Names.SuffixState | skill/scripts/verify_kernel_hash.py:8 | a state is read from the suffix exactly when the suffix is a dot followed by one of the four glyphs |
| Names.SuffixNameRoundTrip | skill/scripts/verify_kernel_hash.py:26-58 | a non-empty base spelled with a state suffix reads back as that state with that base as stem |
| Names.WithSuffixSwap | skill/scripts/promote_article.py:96-131 | replacing the state suffix moves a record to the new state under the same base |
| Names.SwapSuffix | skill/scripts/promote_article.py:96-131 | re-suffixing a suffix-spelled name keeps its stem, sets the new state, and yields the same name iff the state was already that one |
| Names.PrefixNameHasNoSuffixState | skill/scripts/verify_kernel_hash.py:44-50 | the suffix reader sees no state in a prefix-spelled name whose base has no dot, so the two spellings do not mix |
| Names.SuffixNameHasNoPrefixState | skill/scripts/constitutional_paths.py:60-62 | the prefix reader sees no state in a suffix-spelled name such as "LAW.✅" |
| Order.LessTotal | skill/scripts/constitutional_paths.py:89-106 | Python's string order is total: two names are equal or one sorts before the other |
| Order.LessTransitive | skill/scripts/constitutional_paths.py:89-106 | Python's string order is transitive |
| Order.Sorted | skill/scripts/constitutional_paths.py:89-106 | sorted() of a set of names holds every name exactly once, in strictly increasing order |
| Order.SortedUnique | skill/scripts/constitutional_paths.py:89-106 | two strictly sorted sequences with the same members are equal, so a sorted listing is determined by its set of names |
| Store.SpellState | skill/scripts/constitutional_paths.py:45-47 | under either naming scheme, a spelled name reads back as the state it was spelled with |
| Store.DiscoverLaw | skill/scripts/constitutional_paths.py:69-76 | the LAW found is present and spelled with its state, no higher-priority LAW (active, then resolving, then corrupted) is present, and none is found iff no LAW file exists |
| Store.DiscoverFounding | skill/scripts/constitutional_paths.py:79-86 | the founding record found is present and spelled with its state, no higher-priority one (accepted, then review, then draft) is present, and none is found iff none exists |
| Store.DiscoverLawState | skill/scripts/verify_kernel_hash.py:26-32 | the discovered LAW's file name spells the discovered state |
| Store.ListConstitutional | skill/scripts/constitutional_paths.py:89-97 | the listing is sorted and holds exactly the state-marked names of the directory that are not the founding record |
| Store.ListAccepted | skill/scripts/constitutional_paths.py:100-106 | the accepted listing is sorted and holds exactly the listed names whose state is accepted |
| Store.ListAcceptedUnique | skill/scripts/verify_kernel_hash.py:53-58 | the accepted listing is the only strictly sorted sequence of accepted, non-founding names |
| Store.ListAcceptedNamesOnly | skill/scripts/verify_kernel_hash.py:44-58 | the listings depend on the file names only, never on the file texts |
| Store.FoundingNotListed | skill/scripts/verify_kernel_hash.py:44-50 | under either scheme the founding record, in any state, is in neither listing |
| PyStr.Strip | skill/scripts/verify_kernel_hash.py:105 | strip() leaves no whitespace at either end and only characters of its input |
| PyStr.StripCut | skill/scripts/verify_kernel_hash.py:105 | strip() returns a slice of its input from which only whitespace was cut, at the two ends |
| PyStr.StripByCut | skill/scripts/verify_kernel_hash.py:105 | strip(chars) returns a slice of its input from which only characters in chars were cut, at the two ends |
| PyStr.StripQuotes | skill/scripts/verify_kernel_hash.py:105 | the quote removal leaves no single quote at either end and only characters of its input |
| PyStr.StripQuotesCut | skill/scripts/verify_kernel_hash.py:105 | the quote removal returns a slice of its input from which only quote characters were cut, at the two ends |
| PyStr.DoubleQuoteCanRemain | skill/scripts/verify_kernel_hash.py:105 | since double quotes go first, a double-quoted value inside single quotes keeps its double quotes |
| PyStr.ReplaceLeftmost | cli.py:236 | `str.replace` copies the text before the leftmost occurrence, puts the replacement in its place, and continues after it, so occurrences never overlap |
| PyStr.QuotesRoundTrip | skill/scripts/verify_kernel_hash.py:105 | a value written between double quotes reads back as the value, unless the value itself has a quote at either end |
| PyStr.FindFrom | skill/scripts/verify_kernel_hash.py:95 | find() returns the leftmost occurrence at or after the start, and fails iff there is none |
| PyStr.SplitJoin | skill/scripts/promote_article.py:35-52 | splitlines() undoes a newline join of lines without line boundaries, except for one trailing empty line |
| PyStr.SplitColon | skill/scripts/promote_article.py:41 | split(":", 1) cuts at the first colon: the key holds no colon and key, colon and value give the line back |
| PyStr.LowerWord | skill/scripts/promote_article.py:113 | lower() leaves a lower-case word unchanged |
| PyStr.SplitOnJoin | lib.py:113 | splitting lines joined by a separator they do not contain gives back those lines |
| Frontmatter.ParseFrontmatter | skill/scripts/promote_article.py:26-32 | a header is found iff the text opens with "---\n" and a closing "\n---\n" follows from offset 4; then opening, header, first closing delimiter and body give the text back, and without a header the whole text is the body |
| Frontmatter.ExtractBodyIsBody | skill/scripts/constitutional_paths.py:109-115 | the hashed content is the trimmed body after the first closing delimiter, or the whole text trimmed when there is no header |
| Frontmatter.LookupKeys | skill/scripts/promote_article.py:35-47 | a key is present in a header dictionary exactly when it is among its keys |
| Frontmatter.Put | skill/scripts/promote_article.py:46 | after assigning a key it reads the new value and every other key reads as before |
| Frontmatter.PutKeys | skill/scripts/promote_article.py:44-46 | assigning keeps an existing key in its place and appends a new key last |
| Frontmatter.RemoveKeys | skill/scripts/promote_article.py:123-128 | deleting a set of keys makes exactly those keys absent and leaves every other value alone |
| Frontmatter.RemoveKeysShape | skill/scripts/promote_article.py:123-128 | deleting keys keeps the remaining entries in their order, and the key order is the old one without the deleted keys |
| Frontmatter.PutExisting | skill/scripts/promote_article.py:46 | assigning a key the value it already holds changes nothing |
| Frontmatter.RemoveAbsent | skill/scripts/promote_article.py:123-128 | deleting keys the header does not hold changes nothing |
| Frontmatter.PutClean | skill/scripts/promote_article.py:46 | assigning a clean key a clean value keeps a header clean (distinct, trimmed, colon-free keys) |
| Frontmatter.LineKey | skill/scripts/promote_article.py:38-42 | a line defines a key iff it holds a colon; the key is trimmed and colon-free |
| Frontmatter.ParseMap | skill/scripts/promote_article.py:35-47 | every header read from text is clean: keys distinct, trimmed and colon-free, values trimmed, no line boundaries |
| Frontmatter.ParseLinesLookup | skill/scripts/promote_article.py:35-47 | reading a header gives each key the value of the last line that defines it |
| Frontmatter.ReadHeader | skill/scripts/promote_article.py:109-112 | a header dictionary is read exactly when the record has a header, and it is clean |
| Frontmatter.Unquote | skill/scripts/verify_kernel_hash.py:99-106 | the quote-stripping readers keep the keys in order and give each value with its quotes removed |
| Frontmatter.ReadQuoted | skill/scripts/verify_kernel_hash.py:91-106 | the verifier's reader gives an empty dictionary unless both delimiters exist, else the parsed header with quotes removed |
| Frontmatter.Select | skill/scripts/promote_article.py:50-52 | the keyed lines a writer emits come from the dictionary and from the order list only |
| Frontmatter.Extras | skill/scripts/apply_suitability_result.py:61-63 | the appended lines are dictionary entries whose keys the order list does not mention |
| Frontmatter.LineRoundTrip | skill/scripts/promote_article.py:38-52 | a written "key: value" line reads back as that key and that value when both are clean |
| Frontmatter.ParseLinesOfLines | skill/scripts/promote_article.py:35-52 | reading the lines a clean header is written as gives the header back, entry for entry and in order |
| Frontmatter.DelimiterAfterLines | skill/scripts/promote_article.py:26-32 | a written header none of whose lines is "---" closes exactly where the writer closed it |
| Frontmatter.RenderRoundTrip | skill/scripts/promote_article.py:26-52 | writing a clean header and a body, then reading the record, gives the same header and the same body |
| Frontmatter.ExtractBodyIgnoresHeader | skill/scripts/constitutional_paths.py:109-115 | the hashed content of a written record is its trimmed body, whatever the header holds |
| Frontmatter.EmitLookup | skill/scripts/apply_suitability_result.py:55-66 | a writer emits the dictionary's value for every key it writes (listed keys, plus all others in the keep-extras variant) and nothing else |
| Frontmatter.EmitClean | skill/scripts/apply_suitability_result.py:55-66 | whatever a writer emits from a clean header is itself clean |
| Frontmatter.SelectOwnKeys | skill/scripts/promote_article.py:50-52 | writing a dictionary in its own key order emits it unchanged |
| Frontmatter.EmitAfterRemove | skill/scripts/promote_article.py:123-129 | after deleting keys, writing in the old key order (with or without the deleted keys listed) keeps every other entry in place |
| Frontmatter.EmitCovering | skill/scripts/apply_suitability_result.py:55-66 | an order list that names every key in the dictionary's order, plus keys it does not hold, writes the dictionary unchanged |
| Frontmatter.WriteField | skill/scripts/hook_stop_inject_stale_law.py:80-87 | a record without a complete header is left as it is |
| Frontmatter.EditLinesOther | skill/scripts/hook_stop_inject_stale_law.py:94-102 | editing one field leaves the value of every other key as it was |
| Frontmatter.EditLinesField | skill/scripts/hook_stop_inject_stale_law.py:94-102 | after the line edit the field holds the new value if some line defined it, and is absent otherwise |
| Frontmatter.WriteFieldShape | skill/scripts/hook_stop_inject_stale_law.py:88-107 | the rewritten record is the opening, the edited header lines, and the original closing delimiter and body |
| Frontmatter.WriteFieldEffect | skill/scripts/hook_stop_inject_stale_law.py:80-110 | on a header without bare "---" lines: the body is untouched, the field reads back as the stripped new value or as absent, and every other key reads as before |
| HashFeed.Bodies | skill/scripts/constitutional_paths.py:128-135 | the hashed content is taken for exactly the records of the directory |
| HashFeed.DiscoverFoundingNamesOnly | skill/scripts/constitutional_paths.py:79-86 | which founding record is discovered depends only on which names exist |
| HashFeed.FeedOnlyBodies | skill/scripts/constitutional_paths.py:118-139 | two snapshots whose amendment records have the same trimmed bodies under the same names feed the same text to the digest: headers and the LAW never matter |
| HashFeed.HeaderEditKeepsFeed | skill/scripts/constitutional_paths.py:118-139 | rewriting the header of an amendment, keeping its body, leaves the feed and so the amendments hash unchanged |
| HashFeed.EntriesSplit | skill/scripts/constitutional_paths.py:133-138 | the feed of a listing is the entries before a record, that record's entry, and the entries after it |
| HashFeed.EntriesAppend | skill/scripts/constitutional_paths.py:133-138 | the feed of one listing followed by another is the feed of the first followed by the feed of the second |
| HashFeed.EntryInjective | skill/scripts/constitutional_paths.py:136-138 | one record's framing ("FILE:" path, body, separator) determines its body |
| HashFeed.EntriesSeeChange | skill/scripts/constitutional_paths.py:133-138 | giving a record listed once a different body changes the concatenated entries |
| HashFeed.FoundingEntryAvoid | skill/scripts/constitutional_paths.py:123-131 | the founding record's entry does not depend on any other record's text |
| HashFeed.FeedSeesBodyChange | skill/scripts/constitutional_paths.py:118-139 | changing the trimmed body of one accepted amendment changes the feed |
| Verifier.Verify | skill/scripts/verify_kernel_hash.py:109-174 | LAW_NOT_FOUND iff no LAW exists; LAW_CORRUPTED iff the LAW found is corrupted; LAW_STALE iff it is resolving; PASS iff it is active and its quote-stripped amendments_hash equals the recomputed hash |
| Verifier.ExitCode | skill/scripts/verify_kernel_hash.py:109-174 | the script returns 0 exactly on PASS and 1 otherwise |
| Verifier.VerifyKernelHash | skill/scripts/verify_kernel_hash.py:26-174 | the script as shipped reads suffix-spelled names only: LAW_NOT_FOUND exactly when no suffix-spelled LAW exists, PASS exactly when the suffix-spelled active LAW records the hash recomputed over suffix-spelled amendments |
| Verifier.StateDecidesFirst | skill/scripts/verify_kernel_hash.py:123-143 | for a corrupted or resolving LAW the verdict does not depend on the LAW's text: the state is checked before any header comparison |
| Verifier.PassIffRecorded | skill/scripts/verify_kernel_hash.py:157-174 | an active LAW whose header records the current hash (quoted, as the writers write it) passes; one without the field is a HASH_MISMATCH |
| Session.SessionBody | skill/scripts/hook_session_start.py:26-32 | the injected body is trimmed |
| Session.SessionStart | skill/scripts/hook_session_start.py:35-59 | context is injected iff a LAW exists, it is not corrupted, and its body is non-empty; the context is the tag naming the LAW's state around its trimmed body |
| Session.SessionBodyIsExtractBody | skill/scripts/hook_session_start.py:26-32 | the hook's body extraction is the hashed-content extraction of the path helpers |
| Session.MessageParts | skill/scripts/hook_session_start.py:57 | the message opens with the tag, names the state right after it, and ends with the body and the closing tag |
| Session.MessageInjective | skill/scripts/hook_session_start.py:57 | two messages are equal only for the same state and the same body |
| Session.HeaderIgnored | skill/scripts/hook_session_start.py:35-59 | rewriting the LAW with the same trimmed body injects the same context |
| Records.Read | skill/scripts/promote_article.py:108-112 | a record is read exactly when it has a header; its dictionary is clean and its body is the text after the first closing delimiter |
| Records.StatusFirst | skill/scripts/apply_suitability_result.py:56-57 | the suitability writers' order always lists status, keeps every key it was given, and stays free of repeats |
| Records.ApplyOkLast | skill/scripts/apply_suitability_result.py:58-59 | the writers' order always lists apply_ok_at, keeps every key it was given, and stays free of repeats |
| Records.StatusFirstStable | skill/scripts/apply_suitability_result.py:55-66 | rewriting a header that already holds apply_ok_at in the suitability writers' order gives the same header back |
| Records.WithoutStable | skill/scripts/promote_founding.py:51-58 | rewriting a header that holds apply_ok_at and none of the dropped keys, in its own order without them, gives it back |
| Records.WriteReadBack | skill/scripts/promote_article.py:50-52 | what a writer writes reads back as the emitted header and the same body, and its hashed content is the trimmed body |
| Records.PutReadsBack | skill/scripts/apply_suitability_result.py:55-66 | a header with apply_ok_at assigned, written in the suitability writers' order, reads back as that header |
| Records.WriteKeepsAll | skill/scripts/apply_suitability_result.py:55-66 | the writers that append unordered keys lose no key: every key reads back with its value, and the body is kept |
| Records.HexQuoted | skill/scripts/sync_article_hash.py:49-87 | a hex digest written between quotes is a clean header value and reads back as the digest |
| Records.Move | skill/scripts/promote_article.py:131 | a rename that writes text removes the old name, gives the new name that text, and leaves every other file alone |
| Records.MoveSame | skill/scripts/promote_article.py:131 | renaming a file to its own name with its own text changes nothing |
| Promotion.StaleFields | skill/scripts/promote_article.py:70-77 | the LAW header after promotion records stale_reason "amendment_accepted" and the quoted amendment path, has no status, and keeps every other key's value |
| Promotion.MarkLawStaleWith | skill/scripts/promote_article.py:60-81 | a missing active LAW or one without a header is left alone; otherwise the LAW is rewritten and renamed from LAW.✅ to LAW.⏳ |
| Promotion.StaleFieldsClean | skill/scripts/promote_article.py:70-77 | the updated LAW header is still clean when the amendment path is one line |
| Promotion.AsWrittenDropsReason | skill/scripts/promote_article.py:70-78 | as written, a LAW header that had no stale_reason still has none after the rewrite: the new key is set in the dictionary but not in the order that is written |
| Promotion.StaleTextEffect | skill/scripts/hook_pre_tool_use.py:149-153 | the corrected LAW text reads back as exactly the updated header and the old body |
| Promotion.CheckReviewed | skill/scripts/promote_article.py:108-121 | a draft passes iff it has a header, its unquoted status lowers to "review", and its unquoted apply_ok_at is the hash of its trimmed body; a missing header is its own error |
| Promotion.PromoteArticle | skill/scripts/promote_article.py:91-138 | the script as written: an empty name fails; an existing accepted sibling makes the run a no-op success; any change requires an existing draft (suffix 📝) that passes the review checks |
| Promotion.PromoteArticleCorrected | skill/scripts/promote_article.py:91-138 | the same run with the LAW update corrected: it succeeds and fails on the same inputs as the script and leaves the same amendments |
| Promotion.VersionsAgree | skill/scripts/promote_article.py:123-136 | the script and its corrected form differ only in the text written to the resolving LAW |
| Promotion.PromoteArticleEffect | skill/scripts/promote_article.py:123-136 | promoting a reviewed draft moves it to the accepted name of the same stem, written without the transient keys, and marks the LAW stale as written: the LAW keeps only the keys its header already had |
| Promotion.PromoteArticleCorrectedEffect | skill/scripts/promote_article.py:123-136 | with the corrected LAW update, the same promotion marks the LAW stale with stale_reason and stale_amendment_path recorded |
| Promotion.StaleTextAsWrittenEffect | skill/scripts/promote_article.py:50-52 | the LAW text written by mark_law_stale reads back with stale_reason and stale_amendment_path set only when the header already had them, no status, every other key and the body unchanged |
| Promotion.PromotedRecord | skill/scripts/promote_article.py:123-129 | the promoted amendment reads back without status and evaluation_started_at, every other key in its old order, and the same body |
| Promotion.PromoteFounding | skill/scripts/promote_founding.py:64-106 | the founding promotion succeeds iff the founding record found is in review, has a header, and its unquoted apply_ok_at is the hash of its trimmed body; it never touches the LAW, and on success the accepted record exists |
| Promotion.PromoteFoundingResult | skill/scripts/promote_founding.py:92-103 | a successful founding promotion renames the review record to the accepted one, rewritten without its transient keys, and changes nothing else |
| Promotion.FoundingTextReadsBack | skill/scripts/promote_founding.py:92-99 | the accepted founding record reads back without the five transient keys, with every other key and the body as they were |
| Promotion.PromotedFoundingDiscovered | skill/scripts/promote_founding.py:101-103 | after a successful founding promotion the founding record is discovered as accepted |
| Promotion.AcceptedFoundingWins | skill/scripts/promote_founding.py:17-24 | whenever the accepted founding record exists it is the one discovered |
| Suitability.Approve | skill/scripts/apply_suitability_result.py:95-101 | APPLY_OK sets apply_ok_at to the stamp, removes both needs_input keys, turns a needs_input status back into draft and keeps every other key |
| Suitability.Withdraw | skill/scripts/apply_suitability_result.py:99-101 | the two needs_input keys are gone and every other key keeps its value |
| Suitability.Reopen | skill/scripts/apply_suitability_result.py:96-98 | a needs_input status (compared unquoted, lower-cased) becomes draft; any other status and every other key is kept |
| Suitability.RequestFields | skill/scripts/apply_suitability_result.py:103-109 | NEEDS_INPUT sets status needs_input, apply_ok_at to the quoted refusal mark, and the quoted reason code and request; every other key is kept |
| Suitability.ApplySuitability | skill/scripts/apply_suitability_result.py:79-113 | a missing file fails NotFound, a non-draft name fails NotDraft; it succeeds exactly for a draft with a header and a complete verdict, and then only that draft changes |
| Suitability.ApproveClean | skill/scripts/apply_suitability_result.py:55-66 | the approved header can be written line by line: every key and value stays one clean line |
| Suitability.RequestClean | skill/scripts/apply_suitability_result.py:55-66 | the header of a request stays clean when the reason and request are one line each |
| Suitability.ApprovalIsFresh | skill/scripts/apply_suitability_result.py:95-102 | the approved draft reads back with the same body, an apply_ok_at that equals the hash of that body and no pending request |
| Suitability.RequestReadsBack | skill/scripts/apply_suitability_result.py:103-110 | the draft sent back reads back with the same body, status needs_input and exactly the reason and request given |
| Suitability.ApproveStable | skill/scripts/apply_suitability_result.py:95-101 | approving a header that APPLY_OK already wrote changes none of its fields |
| Suitability.ApprovedTextStable | skill/scripts/apply_suitability_result.py:55-66 | the text APPLY_OK writes is a fixed point: approving it again writes the same text |
| Suitability.ApproveTwice | skill/scripts/apply_suitability_result.py:79-113 | running APPLY_OK twice on the same draft leaves the store as one run did |
| Suitability.SuitabilityResult | skill/scripts/apply_suitability_result.py:79-113 | on a draft with a header and a complete verdict, the result is that draft rewritten in place and nothing else |
| Suitability.FoundingApprove | skill/scripts/apply_founding_result.py:87-93 | founding APPLY_OK sets apply_ok_at to the stamp and removes status and both needs_input keys; every other key is kept |
| Suitability.FoundingRequest | skill/scripts/apply_founding_result.py:100-109 | founding NEEDS_INPUT sets apply_ok_at to the quoted refusal mark and the quoted reason and request, removes status and keeps every other key |
| Suitability.ApplyFounding | skill/scripts/apply_founding_result.py:69-117 | no founding record fails NoFounding, an accepted one fails as immutable; it succeeds exactly for a not-accepted founding record with a header and a complete verdict, and never touches the constitution |
| Suitability.FoundingNamesDiffer | skill/scripts/apply_founding_result.py:96-113 | the accepted, review and draft founding names of the prefix scheme are pairwise distinct |
| Suitability.FoundingOutcome | skill/scripts/apply_founding_result.py:87-115 | a successful verdict rewrites the discovered founding record and moves it to its target name |
| Suitability.DiscoverMoved | skill/scripts/apply_founding_result.py:95-98 | after the founding record is renamed from one not-accepted state to another, discovery finds it under the new name and state |
| Suitability.FoundingResultState | skill/scripts/apply_founding_result.py:95-115 | after APPLY_OK the founding record is found in review, after NEEDS_INPUT as a draft, whichever state it started in |
| Suitability.FoundingApproveClean | skill/scripts/apply_founding_result.py:87-94 | the approved founding header stays clean |
| Suitability.FoundingRequestClean | skill/scripts/apply_founding_result.py:103-110 | the founding header of a request stays clean when the reason and request are one line each |
| Suitability.FoundingApprovalIsFresh | skill/scripts/apply_founding_result.py:87-94 | the approved founding record reads back with an apply_ok_at equal to its body's hash, no status and no pending request |
| Suitability.FoundingRequestReadsBack | skill/scripts/apply_founding_result.py:100-110 | the founding record sent back reads back refused, with exactly the reason and request given and no status |
| Suitability.FoundingApprovedTextStable | skill/scripts/apply_founding_result.py:87-94 | the founding text APPLY_OK writes is a fixed point of APPLY_OK |
| Suitability.FoundingApproveTwice | skill/scripts/apply_founding_result.py:69-117 | running founding APPLY_OK twice leaves the store as one run did, the record staying in review |
| Stamp.StampApplyOk | skill/scripts/stamp_apply_ok_at.py:79-103 | a missing file fails NotFound, a non-draft name fails NotDraft; it succeeds exactly for a draft with a header, and then only that draft changes |
| Stamp.StampResult | skill/scripts/stamp_apply_ok_at.py:95-102 | a successful stamp writes the draft's stamped text and prints the value without its double quotes |
| Stamp.StampValueClean | skill/scripts/stamp_apply_ok_at.py:95-98 | the pending mark and the quoted body hash are each one clean header line |
| Stamp.StampHeader | skill/scripts/stamp_apply_ok_at.py:58-64 | the stamped text reads back as the old header with only apply_ok_at set (in place, or appended when absent) and the same body |
| Stamp.PrintedValue | skill/scripts/stamp_apply_ok_at.py:101-102 | the printed value is the pending glyph, or the body hash |
| Stamp.StampPrinted | skill/scripts/stamp_apply_ok_at.py:95-102 | what a successful run prints is the pending glyph for `pending` and the draft's body hash for `ok` |
| Stamp.StampTwice | skill/scripts/stamp_apply_ok_at.py:79-103 | stamping twice with the same state leaves the store and the printed value as one stamp did |
| Stamp.PendingNotDigest | skill/scripts/stamp_apply_ok_at.py:95-96 | the pending mark written to apply_ok_at is never a hex digest, so a pending approval never matches a body hash |
| Sync.SplitParts | skill/scripts/sync_article_hash.py:29-38 | a text without the opening `---` line fails MissingOpen, one without a closing delimiter fails MissingClose; it succeeds exactly on a text with a header, and the parts concatenate back to the text |
| Sync.LatestAcceptedBase | skill/scripts/sync_article_hash.py:41-46 | None exactly when no amendment is accepted; otherwise the base name of the newest accepted amendment |
| Sync.AppendKey | skill/scripts/sync_article_hash.py:73-76 | the key order gains the key when missing, keeps every key it had and stays free of duplicates |
| Sync.UpsertFields | skill/scripts/sync_article_hash.py:64-71 | amendments_hash becomes the quoted hash, last_reconciled_amendment the quoted base when there is one, every transient key is removed and every other key is kept |
| Sync.Upsert | skill/scripts/sync_article_hash.py:49-86 | the emitted header reads back as the upserted dictionary: the quoted hash, no transient key, every other key but the last amendment unchanged |
| Sync.UpsertShape | skill/scripts/sync_article_hash.py:49-86 | on a header with unique keys, the rewritten header lists its keys in the old order with the two new keys appended and the transient keys dropped, and has no duplicate keys |
| Sync.UpsertIdempotent | skill/scripts/sync_article_hash.py:49-86 | upserting the same hash and base twice gives the same header as once |
| Sync.UpsertClean | skill/scripts/sync_article_hash.py:49-86 | the rewritten header stays clean when the hash and base are one line each |
| Sync.SyncLaw | skill/scripts/sync_article_hash.py:89-113 | no LAW fails NoLaw; it succeeds exactly when the LAW has a header, and never touches the amendments |
| Sync.SyncOutcome | skill/scripts/sync_article_hash.py:94-106 | a successful sync writes the upserted header over the LAW's body and moves the LAW to its active name |
| Sync.SyncActivates | skill/scripts/sync_article_hash.py:102-106 | after a sync the LAW is discovered active, whatever state it was in |
| Sync.SyncedHeader | skill/scripts/sync_article_hash.py:97-104 | the active LAW holds the rendered, clean upserted header and the old body |
| Sync.SyncThenVerify | skill/scripts/sync_article_hash.py:89-113 | after a sync the hash comparison over prefix-spelled names (the one mark_law_stale_if_drift makes) passes, and last_reconciled_amendment names the newest accepted amendment |
| Sync.SyncUnseenByKernelCheck | skill/scripts/verify_kernel_hash.py:26-32 | verify_kernel_hash looks for suffix-spelled LAW names, so after a sync into a directory without them it reports LAW_NOT_FOUND |
| Sync.SyncTwice | skill/scripts/sync_article_hash.py:89-113 | syncing twice leaves the constitution as one sync did |
| AfterEdit.AfterFileEdit | skill/scripts/hook_after_file_edit.py:62-90 | no path, a path that is not a live draft (missing, not a draft, or with an accepted sibling) and a draft without a header leave everything alone; a change happens only to a live draft whose status is draft or review, and touches only that file |
| AfterEdit.EditResult | skill/scripts/hook_after_file_edit.py:81-89 | a live draft with a header and status draft or review is rewritten with apply_ok_at pending and nothing else changes |
| AfterEdit.PendingClean | skill/scripts/hook_after_file_edit.py:88 | the pending value is one clean line and unquotes to the pending glyph |
| AfterEdit.EditedReadsBack | skill/scripts/hook_after_file_edit.py:41-51 | the edited text reads back as the old header with only apply_ok_at set to pending, and the same body |
| AfterEdit.EditBlocksPromotion | skill/scripts/hook_after_file_edit.py:86-89 | once a draft is edited, its approval no longer matches any body hash, so promotion refuses it until it is approved again |
| AfterEdit.EditIsPendingStamp | skill/scripts/hook_after_file_edit.py:86-89 | on a live draft with status draft or review, the edit hook does exactly what stamping `pending` does |
| AfterEdit.ResetsKept | skill/scripts/hook_after_file_edit.py:86-88 | setting apply_ok_at does not change whether the status calls for a reset |
| AfterEdit.EditedStable | skill/scripts/hook_after_file_edit.py:41-51 | rewriting an already-pending header gives the same text |
| AfterEdit.StatusKept | skill/scripts/hook_after_file_edit.py:86-88 | setting apply_ok_at leaves the status field as it was |
| AfterEdit.EditTwice | skill/scripts/hook_after_file_edit.py:62-90 | running the hook twice on the same path leaves the store as one run did |
| StopHook.DraftsNeeding | skill/scripts/hook_stop_inject_stale_law.py:46-67 | the founding draft alone is reported when it needs evaluation; otherwise the list is sorted, duplicate-free and holds exactly the listed drafts that need evaluation |
| StopHook.CheckLock | skill/scripts/hook_stop_inject_stale_law.py:113-132 | a lock is held exactly when the file exists, the field is non-empty, its timestamp parses and is younger than LOCK_TIMEOUT_SECONDS, and stale exactly when such a timestamp is at least that old; every other case is available |
| StopHook.Stop | skill/scripts/hook_stop_inject_stale_law.py:153-231 | the framer is called exactly when the founding draft needs evaluation and is not locked; the ratifier exactly when other drafts need it and the first is not locked; the codifier exactly when no draft needs it, the kernel hash fails and LAW.⏳ is not locked; a silent run changes nothing, and a run changes the amendments or the constitution, never both |
| StopHook.NeedsEval | skill/scripts/hook_stop_inject_stale_law.py:35-43 | only a record in review can need evaluation; in review it needs it exactly when its approval is not the digest of its trimmed body or that digest is empty or the pending mark |
| StopHook.NeedsEvalIsStale | skill/scripts/hook_stop_inject_stale_law.py:35-43 | on a record with a header, needing evaluation is the same as promotion refusing it for a stale approval |
| StopHook.WordOfHeader | skill/scripts/hook_stop_inject_stale_law.py:13-28 | the hook's quote-stripped reading of a field agrees with the header parser's unquoted value |
| StopHook.HashOfHeader | skill/scripts/hook_stop_inject_stale_law.py:31-32 | the hook's body hash is the body hash of the header parser's body |
| StopHook.QuotedStampSeen | skill/scripts/hook_stop_inject_stale_law.py:135-137 | a timestamp the hook writes reads back, through check_lock, as the bare ISO text |
| StopHook.AcquireSetsLock | skill/scripts/hook_stop_inject_stale_law.py:80-110 | taking a lock sets the field to the stamp as check_lock reads it, keeps every other field and the body, and keeps the header well formed |
| StopHook.NeedsEvalKept | skill/scripts/hook_stop_inject_stale_law.py:35-43 | a rewrite that keeps the body, status and apply_ok_at keeps whether the record needs evaluation |
| StopHook.DraftsNeedingKept | skill/scripts/hook_stop_inject_stale_law.py:46-67 | rewriting one amendment without changing whether it needs evaluation keeps the work list |
| StopHook.NeedingKept | skill/scripts/hook_stop_inject_stale_law.py:59-66 | the set of drafts needing evaluation is unchanged by such a rewrite |
| StopHook.DraftLockBacksOff | skill/scripts/hook_stop_inject_stale_law.py:156-185 | once a run has taken a draft's evaluation lock and delegated, a later run that finds the lock younger than the timeout stays silent and changes nothing |
| StopHook.DraftStep | skill/scripts/hook_stop_inject_stale_law.py:165-177 | with draft work, the run leaves a locked target alone and otherwise takes its evaluation lock, clearing a stale one first |
| StopHook.AcquireKeepsWork | skill/scripts/hook_stop_inject_stale_law.py:173-177 | taking the evaluation lock on a draft keeps the work list |
| StopHook.AcquireLocks | skill/scripts/hook_stop_inject_stale_law.py:113-132 | a lock just taken reads as held by any later run that finds it younger than the timeout |
| StopHook.LockedIsSilent | skill/scripts/hook_stop_inject_stale_law.py:165-172 | a run whose first draft is locked replies nothing and changes nothing |
| StopHook.LawStep | skill/scripts/hook_stop_inject_stale_law.py:205-219 | with no draft work and a failing verification, the run leaves a locked or missing LAW.⏳ alone and otherwise takes its resolution lock |
| StopHook.LawEditKeepsVerdict | skill/scripts/hook_stop_inject_stale_law.py:194-203 | rewriting LAW.⏳ does not change whether the kernel hash check passes |
| StopHook.LawNamesApart | skill/scripts/hook_stop_inject_stale_law.py:206 | the active and the resolving LAW names differ |
| StopHook.FeedIgnoresLaw | skill/scripts/hook_stop_inject_stale_law.py:194-203 | the amendments hash does not depend on the constitution directory |
| StopHook.LawLockBacksOff | skill/scripts/hook_stop_inject_stale_law.py:205-231 | once a run has locked LAW.⏳ and delegated to the codifier, a later run within the timeout stays silent and changes nothing |
| StopHook.LockedLawIsSilent | skill/scripts/hook_stop_inject_stale_law.py:205-213 | with no draft work and LAW.⏳ locked, the run replies nothing and changes nothing |
| StopHook.FoundingFirst | skill/scripts/hook_stop_inject_stale_law.py:48-51 | while the founding draft needs evaluation, only the framer may be called, the constitution is untouched and so is every amendment other than the founding draft |
| Subagents.FirstDraft | skill/scripts/hook_subagent_start.py:74-81 | None exactly when no draft other than the founding draft exists; otherwise such a draft that comes first in name order |
| Subagents.StartLock | skill/scripts/hook_subagent_start.py:84-102 | no lock for an unknown subagent; the codifier locks resolution_started_at on the resolving LAW, the framer and the ratifier lock evaluation_started_at on the founding draft or the first draft, each only when that file exists |
| Subagents.SubagentStart | skill/scripts/hook_subagent_start.py:84-106 | an unknown subagent or a missing record changes nothing; the codifier touches only the constitution and the others only the amendments |
| Subagents.SubagentStop | skill/scripts/hook_subagent_stop.py:80-105 | an unknown subagent changes nothing, no file is created or removed, the codifier touches only the constitution, the others only the amendments, and the ratifier leaves every non-draft amendment alone |
| Subagents.FirstDraftIsFirstSorted | skill/scripts/hook_subagent_start.py:74-81 | the first draft is the head of the sorted list of drafts |
| Subagents.StartSetsLock | skill/scripts/hook_subagent_start.py:37-67 | starting sets the lock field to the stripped stamp, keeps every other field, the body and every other file |
| Subagents.StopUndoesStart | skill/scripts/hook_subagent_stop.py:85-102 | stopping the subagent that started removes the lock field it set and keeps every other field of the header and the body |
| Subagents.StopAt | skill/scripts/hook_subagent_stop.py:85-102 | on the file a subagent locks, stopping removes the lock field |
| Subagents.RatifierStopClears | skill/scripts/hook_subagent_stop.py:96-102 | after the ratifier stops, every remaining draft has no evaluation lock and keeps its body |
| Subagents.StartUnseenByStopHook | skill/scripts/hook_subagent_start.py:89-102 | starting a subagent never changes the locks the stop hook reads, since the two hooks spell the founding draft and the resolving LAW differently |
| Subagents.SchemesApart | skill/scripts/hook_subagent_start.py:20 | the subagent hooks' founding-draft and resolving-LAW names differ from the stop hook's |
| Subagents.SuffixFoundingUnprefixed | skill/scripts/hook_subagent_stop.py:101 | the stop hook's founding-draft name carries no state prefix, so the ratifier treats it as a non-draft |
| Subagents.ClearTwice | skill/scripts/hook_subagent_stop.py:89-102 | clearing a lock twice reads the same as clearing it once |
| Subagents.RatifierStopTwice | skill/scripts/hook_subagent_stop.py:96-102 | running the ratifier's stop twice reads the same as running it once |
| ToolGate.CollectsPathMember | skill/scripts/hook_pre_tool_use.py:35-40 | a string under a path, file_path or target_notebook key is collected |
| ToolGate.CollectsNested | skill/scripts/hook_pre_tool_use.py:38-42 | every path found inside another member's value is collected too |
| ToolGate.CollectedFromItem | skill/scripts/hook_pre_tool_use.py:43-45 | everything collected from a list comes from one of its items |
| ToolGate.Targets | skill/scripts/hook_pre_tool_use.py:207-209 | one target per path, in order: the collected paths first, then the paths found in the input's text, each replaced by its normalised form |
| ToolGate.Filter | skill/scripts/hook_pre_tool_use.py:212 | a filtered target list holds exactly the targets that pass, and is empty exactly when none does |
| ToolGate.DriftFields | skill/scripts/hook_pre_tool_use.py:182-188 | the drift rewrite sets stale_reason to amendments_drift_detected, removes stale_amendment_path and status and keeps every other key |
| ToolGate.DriftKeysClean | skill/scripts/hook_pre_tool_use.py:182 | the drift key and reason are one clean line and differ from the keys it removes |
| ToolGate.DriftOrderDistinct | skill/scripts/hook_pre_tool_use.py:150-152 | the written key order has no duplicates |
| ToolGate.DriftTextReadsBack | skill/scripts/hook_pre_tool_use.py:149-160 | the rewritten LAW reads back with exactly the drift fields, stale_reason included, and the same body |
| ToolGate.PrefixLawNamesApart | skill/scripts/hook_pre_tool_use.py:190 | the active and resolving LAW names differ |
| ToolGate.MarkStaleIfDrift | skill/scripts/hook_pre_tool_use.py:163-191 | the amendments are never touched; a change happens only to an active LAW with a header whose unquoted amendments_hash differs from the current hash |
| ToolGate.Guard | skill/scripts/hook_pre_tool_use.py:211-281 | the founding refusal exactly when a founding target meets an accepted founding record; the LAW refusal exactly when, with no founding target, a LAW target meets a LAW that is not resolving; with neither, only amendment refusals |
| ToolGate.AmendmentGuard | skill/scripts/hook_pre_tool_use.py:244-281 | no amendment target is allowed; the acceptance refusal needs an existing target and status accepted in the input, the not-draft refusal an existing non-draft target, and the new-record refusals only new targets, the header one an input without a draft header |
| ToolGate.PreToolUse | skill/scripts/hook_pre_tool_use.py:202-209 | the drift check runs first and never touches the amendments, the guards see its result, and for inputs without LAW targets the decision is the one the snapshot before the drift check gives |
| ToolGate.GuardReadsLawOnly | skill/scripts/hook_pre_tool_use.py:211-281 | without LAW targets the guards decide the same on any two snapshots with the same amendments |
| ToolGate.DriftAction | skill/scripts/hook_pre_tool_use.py:163-191 | the drift check changes something exactly when the LAW is active, has a header and records a stale hash |
| ToolGate.DriftStep | skill/scripts/hook_pre_tool_use.py:182-191 | on drift, the LAW is rewritten with the drift fields and moved from its active to its resolving name |
| ToolGate.DriftResolves | skill/scripts/hook_pre_tool_use.py:190-191 | after a drift rewrite the LAW is discovered resolving; without one its discovered state is unchanged |
| ToolGate.DriftIffUnverified | skill/scripts/hook_pre_tool_use.py:172-180 | on an active LAW with a header, the drift check leaves everything alone exactly when the kernel hash check passes |
| ToolGate.AllDraft | skill/scripts/hook_pre_tool_use.py:253-254 | the existing targets' states are exactly {draft} when every one of them is a draft |
| ToolGate.FoundingGuard | skill/scripts/hook_pre_tool_use.py:211-227 | with a founding target, the write is refused exactly when the founding record is accepted, and the refusal says it is immutable |
| ToolGate.LawGuard | skill/scripts/hook_pre_tool_use.py:229-242 | otherwise, with a LAW target, the write is allowed exactly while the LAW is resolving, and a refusal says the LAW is derived |
| ToolGate.AmendmentsDecide | skill/scripts/hook_pre_tool_use.py:244-281 | with neither, the regular amendment guard alone decides |
| ToolGate.ExistingGuard | skill/scripts/hook_pre_tool_use.py:251-265 | with existing amendment targets, the write is allowed exactly when all of them are drafts and the input does not set status accepted |
| ToolGate.NewGuard | skill/scripts/hook_pre_tool_use.py:267-280 | with only new amendment targets, the write is allowed exactly when the first is a draft name and the input carries a draft header |
| ToolGate.GuardMonotone | skill/scripts/hook_pre_tool_use.py:244-281 | setting status accepted never turns a refusal into an allow, and carrying a draft header never turns an allow into a refusal |
| ToolGate.DriftOpensLaw | skill/scripts/hook_pre_tool_use.py:202-242 | because the drift check runs first, a write to the active LAW is allowed exactly when its hash is found stale |
| Ulid.DigitValue | lib.py:24 | every symbol of the alphabet has a value below 32 |
| Ulid.EncodingDigits | lib.py:24 | the alphabet has 32 symbols and the symbol at position i has value i |
| Ulid.InEncoding | lib.py:24 | a character is in the alphabet exactly when it is one of its symbols |
| Ulid.DigitMonotone | lib.py:24 | the alphabet is ascending: character order of symbols is value order |
| Ulid.Value | lib.py:52-55 | the value of an n-symbol numeral is below 32 to the n |
| Ulid.TimestampPart | lib.py:49-55 | the timestamp half has ten symbols and spells the time modulo 32 to the 10, most significant symbol first |
| Ulid.Generate | lib.py:44-60 | a ULID has 26 characters, its first ten spell the timestamp and its last sixteen are the random part, and both validity tests accept it |
| Ulid.NumeralOrder | lib.py:44-60 | numerals of equal length compare as strings exactly as their values compare |
| Ulid.SameLead | lib.py:52-55 | numerals with the same leading symbol compare as their tails do |
| Ulid.LowerLead | lib.py:52-55 | the numeral with the lower leading symbol is both the lesser string and the lesser number |
| Ulid.TimestampsSort | lib.py:44-60 | ULIDs made at two times that fit in ten symbols sort as the times do |
| Ulid.Upper | lib.py:66 | the upper case of a character is never empty |
| Ulid.SymbolsValid | lib.py:62-66 | 26 alphabet symbols pass both the test as written and the intended test |
| Ulid.ValidIsAscii | lib.py:62-66 | a ULID that passes the intended test is ASCII |
| Ulid.AsciiAgree | lib.py:62-66 | on ASCII text the test as written and the intended test agree |
| Ulid.AsWrittenAcceptsNonAscii | lib.py:62-66 | the test as written accepts a ULID led by a long s (U+017F) or the ligature U+FB06, which the intended test refuses |
| Memory.SplitFront | lib.py:111-132 | a header is found exactly when the first line is a delimiter and a later line is one too; the header text is the lines between the opening delimiter and the first later one, the body the lines after it less one leading line feed |
| Memory.Serialize | lib.py:145-153 | the text is a delimiter line, the header text, a delimiter line and the body, each verbatim |
| Memory.FirstFrom | lib.py:118-123 | the index found is the first at or after the start whose line passes the test; None when no such line exists |
| Memory.SerializeSplit | lib.py:111-153 | parsing what serialize_frontmatter writes gives back the header text and the body, less one leading line feed, when no dumped line strips to `---` |
| Memory.DumpedDelimiterCutsHeader | lib.py:111-153 | when a dumped header line strips to `---`, parsing the serialised text ends the header before that line, and the header read back differs from the one written |
| Memory.IndentedDashCutsHeader | lib.py:111-153 | an indented `---` line, as yaml.dump writes inside a multi-line value, makes the header read back differ from the one written |
| Memory.IndentedDelimiter | lib.py:115-121 | a `---` preceded only by spaces strips to the delimiter |
| Memory.NoHeaderIsBody | lib.py:115-116 | content whose first line is not a delimiter has no header |
| Memory.GetField | lib.py:169-177 | the default exactly when some segment is missing or a non-mapping is reached before the path ends, otherwise the value reached; a path without dots is a top-level lookup |
| Memory.GetFieldDotted | lib.py:171-176 | a dotted path is looked up one segment at a time: the first segment in the mapping, the rest in the value found there, the default when the first is missing |
| Memory.Reach | lib.py:169-177 | an empty path reaches the data itself; a nonempty path reaches something only through a mapping that holds its first segment |
| Memory.ReachConcat | lib.py:171-177 | following a path in two legs is following it at once |
| Memory.CountConnects | lib.py:207-209 | the number of links joining a target by a relationship is at most the number of links |
| Memory.AddLink | lib.py:195-212 | afterwards exactly one link joins the target by the relationship when none did, the count is unchanged otherwise, the old links stay in front and any new link is the one built |
| Memory.AddLinkIdempotent | lib.py:206-211 | adding the same link twice is adding it once |
| Memory.Keep | lib.py:221-227 | the kept links are exactly the old links that do not match, and there are no more of them |
| Memory.KeepConcat | lib.py:221-227 | the filter works link by link: the kept links of a joined list are the kept links of each part, in order |
| Memory.KeepOne | lib.py:221-227 | a single link is kept exactly when it does not match |
| Memory.RemoveLink | lib.py:214-229 | a missing list removes nothing; otherwise the kept links are exactly the ones that do not match, the count is how many were dropped, and a list with nothing to drop is left as it was with a count of 0 |
| Memory.RemovedCount | lib.py:219-229 | the count remove_link returns is the number of matching links |
| Memory.AddThenRemove | lib.py:195-229 | removing a link just added to a list without it restores the list and reports one removal |
| Memory.KeepNone | lib.py:221-227 | a list with no matching link is kept whole |
| Memory.HashContent | lib.py:239-241 | the content hash is the first sixteen characters of the hex digest |
| ShellGate.PathName | skill/scripts/hook_before_shell_execution.py:50 | the name of a path holds no slash and is never `.` |
| ShellGate.PathNameOfWord | skill/scripts/hook_before_shell_execution.py:50 | a plain word is its own name, also as the last component of a path |
| ShellGate.ParseStatus | skill/scripts/hook_before_shell_execution.py:83-89 | a name that parses has a 14-digit timestamp and no state or an accepted or draft glyph, and is exactly that spelling, possibly followed by one line feed |
| ShellGate.ParseStatusRoundTrip | skill/scripts/hook_before_shell_execution.py:16 | every spelling the pattern describes, with or without a final line feed, reads back as what it spells |
| ShellGate.RenameOnlyDrafts | skill/scripts/hook_before_shell_execution.py:92-123 | an allowed rename starts from a name without a state and ends on the draft name of the same timestamp: no shell command promotes an amendment |
| ShellGate.Decide | skill/scripts/hook_before_shell_execution.py:126-161 | a command is allowed exactly when it does not mention the constitution, is read-only, runs a promotion script or is a status-only rename |
| ShellGate.MutatingIrrelevant | skill/scripts/hook_before_shell_execution.py:148 | the mutating-token pattern never changes the decision |
| ShellGate.ReadOnlyBinaryAllowed | skill/scripts/hook_before_shell_execution.py:39-51 | a read-only binary, called by any path, is allowed when the command neither redirects nor pipes |
| ShellGate.RedirectNotReadOnly | skill/scripts/hook_before_shell_execution.py:40-41 | a command with a redirection or a pipe is never read-only |
| ShellGate.PromotionAllowed | skill/scripts/hook_before_shell_execution.py:54-73 | running an allow-listed script through an interpreter, called by any path, is allowed |
| ShellGate.RemoveDenied | skill/scripts/hook_before_shell_execution.py:132-158 | an `rm` of anything, in a command that names the amendments directory, is denied |
| Cli.SetNested | cli.py:522-545 | the write fails exactly when the path runs into something that is not a mapping; otherwise the value is reachable at the path and the top level gains at most the first segment |
| Cli.SetNestedFrames | cli.py:522-545 | every path that leaves the written path before its end reaches what it reached before |
| Cli.ParseValue | cli.py:532-542 | true and false in any case become booleans; text opening a list or a mapping becomes what the JSON parser gives, or stays text when it fails; the text is changed only in these cases |
| Cli.Allowed | cli.py:516-520 | every word listed for an enumerated field is a plain lower-case word other than true and false |
| Cli.Define | cli.py:547-580 | a value outside an enumerated field's list is refused; on success the parsed value sits at the dotted path; any other failure is a path that runs into a non-mapping |
| Cli.DefineKeepsEnums | cli.py:561-580 | an enumerated field only ever receives one of its listed words, stored as text |
| Cli.PlainWord | cli.py:533-542 | a lower-case word other than true and false is stored as text |
| Cli.BooleanWords | cli.py:534-537 | true and false in any case become booleans, and only they or JSON text become booleans |
| Cli.Append | cli.py:240 | the new body is the old one without its trailing white space, a blank line, then the content |
| Cli.Remember | cli.py:231-241 | replace mode fails exactly when the old text is absent; otherwise the body up to the leftmost occurrence is kept, the occurrence becomes the new text and the rest is replaced in the same way; append mode never fails and gives the appended body |
| Cli.ReplaceSelf | cli.py:236 | replacing a text by itself changes nothing |
| Cli.RememberSame | cli.py:231-237 | revising a text into itself leaves the body as it was |
| Cli.EffectiveContext | cli.py:320 | a missing or zero context becomes two lines; any other context is kept |
| Cli.Slice | cli.py:334-336 | a slice is a run of consecutive lines; within bounds it is the plain sub-sequence, crossed bounds give nothing, and a negative end counts from the back |
| Cli.Windows | cli.py:332-338 | the chunks collected before line k are exactly the windows of the matching lines before k |
| Cli.Dedup | cli.py:337-338 | the deduplicated list holds the same chunks and none twice |
| Cli.ContextChunks | cli.py:329-340 | the loop prints, in order, the first copy of each matching line's window |
| Cli.ChunksCoverMatches | cli.py:329-340 | every printed chunk is the window of a matching line, every matching line's window is printed, and no chunk is printed twice |
| Cli.WindowHoldsLine | cli.py:334-336 | with a non-negative context each chunk holds its matching line; with a negative one it never does, and it is empty unless the end bound goes negative and wraps |
| Installer.ContainsInfix | skill/scripts/providers/cursor/init.py:172-175 | a command that has a text anywhere inside it contains that text |
| Installer.IsConstitutionHook | skill/scripts/providers/cursor/init.py:172-175 | a command that holds the current install location is the skill's, and every command claimed names a scripts/ directory |
| Installer.ClaimedRunsScript | skill/scripts/providers/cursor/init.py:172-175 | a command holding any current or earlier install location holds scripts/ |
| Installer.HookUnderPrefix | skill/scripts/providers/cursor/init.py:172-175 | any command that runs a script from the current or an earlier install location is claimed as the skill's |
| Installer.OwnedFilesAreMarkdown | skill/scripts/providers/cursor/init.py:296-300 | every command or agent file the installer claims ends in .md |
| Installer.OldNamesOwned | skill/scripts/providers/cursor/init.py:296-300 | every old-style command or agent name ending in .md is claimed, and the same stem with another extension is not |
| Installer.OldAgentNotCommand | skill/scripts/providers/cursor/init.py:296-300 | an old-style agent name is never claimed as a command |
| Installer.KeepUnowned | skill/scripts/providers/cursor/init.py:372-375 | the names left are exactly the ones the skill does not own |
| Installer.RemoveOwned | skill/scripts/providers/cursor/init.py:366-380 | the names left are exactly the unowned ones, the removal count plus what is left is the directory's size, and the directory is removed exactly when every name in it was owned |
| Installer.NoCommandNotOwned | skill/scripts/providers/cursor/init.py:184 | an entry without a command is never the skill's |
| Installer.Remaining | skill/scripts/providers/cursor/init.py:182-185 | the entries kept are exactly the ones that are not the skill's |
| Installer.RemainingConcat | skill/scripts/providers/cursor/init.py:182-185 | filtering a joined list is joining the filtered lists |
| Installer.RemainingClean | skill/scripts/providers/cursor/init.py:182-185 | a list with none of the skill's entries is kept whole |
| Installer.RemainingAllOwned | skill/scripts/providers/cursor/init.py:182-185 | a list of only the skill's entries is filtered to nothing |
| Installer.StripHooks | skill/scripts/providers/cursor/init.py:178-188 | after stripping no event is empty or holds the skill's entries, every event kept is an input event with its foreign entries, and every input event with a foreign entry is kept |
| Installer.StripConcat | skill/scripts/providers/cursor/init.py:178-188 | stripping a joined configuration is joining the stripped parts |
| Installer.StripClean | skill/scripts/providers/cursor/init.py:178-188 | a configuration that is already clean is kept as it is |
| Installer.StripIdempotent | skill/scripts/providers/cursor/init.py:178-188 | stripping twice is stripping once |
| Installer.StripForeignOnly | skill/scripts/providers/cursor/init.py:178-188 | a configuration with only foreign, nonempty events is kept as it is |
| Installer.Find | skill/scripts/providers/cursor/init.py:214 | the index found is the first event of that name; None when there is none |
| Installer.Extend | skill/scripts/providers/cursor/init.py:213-216 | one merge step appends the entries to the named event, or adds the event at the end, and leaves every other event's entries alone |
| Installer.FindSnoc | skill/scripts/providers/cursor/init.py:214-216 | adding an event at the end does not change where an existing name is found |
| Installer.FindUpdate | skill/scripts/providers/cursor/init.py:214-216 | rewriting an event in place does not change where any name is found |
| Installer.MergeInto | skill/scripts/providers/cursor/init.py:213-216 | merging adds at most one event per template event and removes none |
| Installer.MergeIntoEntries | skill/scripts/providers/cursor/init.py:213-216 | after merging, each event type holds its old entries followed by all the template's entries of that type |
| Installer.MergeEntries | skill/scripts/providers/cursor/init.py:206-218 | after an install each event type holds the user's own entries followed by the template's entries |
| Installer.TemplateEntriesDistinct | skill/scripts/providers/cursor/init.py:210-216 | in a template with distinct event types, the entries for a type are the template's list for it |
| Installer.TemplateEntriesAbsent | skill/scripts/providers/cursor/init.py:213-216 | a type the template lacks gets no new entries |
| Installer.StripMergeInto | skill/scripts/providers/cursor/init.py:206-218 | merging only the skill's entries into a configuration does not change what it strips to |
| Installer.StripExtendAny | skill/scripts/providers/cursor/init.py:213-216 | one merge step with only the skill's entries does not change what the configuration strips to |
| Installer.StripReplace | skill/scripts/providers/cursor/init.py:178-188 | replacing an event by one of the same type and the same foreign entries does not change what the configuration strips to |
| Installer.StripMerge | skill/scripts/providers/cursor/init.py:206-218 | an install never changes the user's own hooks: the merged configuration strips to what the old one stripped to |
| Installer.MergeIdempotent | skill/scripts/providers/cursor/init.py:191-221 | installing twice gives the configuration installing once does |
| Installer.RemoveHooks | skill/scripts/providers/cursor/init.py:265-289 | a rewritten file holds a nonempty configuration free of the skill's entries |
| Installer.DeletedIffAllOwned | skill/scripts/providers/cursor/init.py:280-284 | the hooks file is deleted exactly when every entry in it is the skill's |
| Installer.UninstallAfterInstall | skill/scripts/providers/cursor/init.py:191-289 | uninstalling after an install leaves the hooks file as uninstalling without it would |

## Left out

- File I/O: reading, writing, `resolve`/`relative_to`, symlinks, nested directories and the atomicity of tmp-file-then-rename writes. A directory is a flat map, and a missing amendments directory is an empty one.
- The post-rename removal of a ghost draft in promote_article.py:132-134. It exists only for concurrent runs, and the model is sequential.
- SHA-256 itself. It is the parameter `sha`, so no property depends on what the digest computes.
- The clock and ISO timestamp parsing. The lock age and whether the stamp parses are inputs to `StopHook.CheckLock`, and the stamps the hooks write are inputs.
- The verifier subprocess that the stop hook runs. Its outcome is modelled by `Verifier.Verify` directly.
- JSON on stdin and stdout, argparse, printed messages and exit codes beyond the outcome each script returns.
- `shlex.split`. It is the input `ShellGate.Tokens`, with None for a tokenising error.
- The regular expressions run over a tool call's JSON: MUTATING_TOKEN_PATTERN, the `status: accepted` test, the draft front-matter test and the extraction of amendment paths from text. Each is a boolean or list input.
- Path resolution in the gates. It is given as functions from a token or path to the place it resolves to.
- ShellGate.ParseStatus: reads `\d` as an ASCII digit, whereas Python's `\d` also matches other Unicode decimal digits.
- Python's Unicode `lower()`. It is modelled as ASCII lowering, because its results are only compared with ASCII words.
- Ulid.Upper: maps only the ASCII letters and the code points whose upper case is spelt in ASCII letters. Any other character's upper case contains a non-ASCII character, so it is never a substring of the alphabet, and the character stands for it.
- The random half of a ULID. It is an input to `Ulid.Generate`.
- Memory.SerializeSplit: the round trip holds only when no line of the dumped header strips to "---". yaml.dump writes the continuation lines of a multi-line value indented under its key, so a value holding a "---" line closes the header early (`Memory.IndentedDashCutsHeader`).
- YAML parsing and dumping in lib.py. Only the split into front matter and body is modelled, and the parsed front matter is a tree of values.
- Installer file work: copying and linking hooks, commands and agents, `install_hooks_link`, the freeze steps and the interactive `ask_user` prompt. Removing agents is the same rule as removing commands (`Installer.RemoveOwned`).
- Hook entries whose `command` is not a string, and link entries that are not dictionaries.
- The CLI commands other than `define`, `remember` and `search`, such as `recall` and `explore`.

## Findings

| source | as written | input that shows it | evidently intended | confidence | as-written member | corrected member |
|---|---|---|---|---|---|---|
| skill/scripts/promote_article.py:50-52 | `mark_law_stale` sets `stale_reason` and `stale_amendment_path` in the header map, but `write_map` writes only the keys of the old header's order, so these keys are lost unless the LAW already had them | an active LAW whose header has no `stale_reason` line | the stale metadata is recorded in the resolving LAW, as the pre-tool hook's version of the same update does (skill/scripts/hook_pre_tool_use.py:149-153) | not executed | Promotion.AsWrittenDropsReason | Promotion.PromoteArticleCorrectedEffect |
| lib.py:62-66 | `is_valid_ulid` tests `c.upper() in ENCODING`, which is a substring test on the upper-cased text | "ſ" (U+017F, upper case "S") or "ﬆ" (U+FB06, upper case "ST") followed by 25 valid symbols | exactly the 26 symbols of the alphabet are accepted, in either case | not executed | Ulid.AsWrittenAcceptsNonAscii | Ulid.AsciiAgree |
