/** The shell-command gate (hook_before_shell_execution): which shell commands
    an agent may run once they name the constitution's files. Tokenising
    (`shlex.split`), path resolution and the mutating-token regular expression are
    inputs; the gate itself is a pure decision. */
module ShellGate {
  import opened Wrappers
  import opened PyStr
  import opened Names

  // ---------------------------------------------------------------------------
  // Inputs
  // ---------------------------------------------------------------------------

  /** `shlex.split(command)`: the token list, or None when it raises. */
  type Tokens = Option<seq<string>>

  /** Where a token's resolved path lies: None when it is not under the
      amendments directory, else the file name of the resolved path. */
  type Place = string -> Option<string>

  const AmendmentsRel := ".constitution/amendments"

  const ReadOnlyBinaries: set<string> := {"ls", "rg", "grep", "cat", "head", "tail", "wc", "stat"}

  const Interpreters: set<string> := {"python", "python3", "uv", "uvx"}

  const AllowedScripts: seq<string> := [
    "promote_article.py", "stamp_apply_ok_at.py", "apply_suitability_result.py",
    "promote_founding.py", "apply_founding_result.py", "sync_article_hash.py",
    "verify_kernel_hash.py"]

  // ---------------------------------------------------------------------------
  // Path names
  // ---------------------------------------------------------------------------

  /** `Path(p).name`: the last component, where empty and `.` components do not count. */
  function PathName(p: string): (r: string)
    ensures '/' !in r
    ensures r != "."
    decreases |p|
  {
    var i := LastIndexOf(p, '/');
    var last := if i.None? then p else p[i.value + 1..];
    assert i.Some? ==> forall j | 0 <= j < |last| :: last[j] == p[i.value + 1 + j];
    if last != "" && last != "." then last
    else if i.None? then ""
    else PathName(p[..i.value])
  }

  /** A plain word is its own name, also as the last component of a path. */
  lemma PathNameOfWord(dir: string, w: string)
    requires '/' !in w && w != "" && w != "."
    ensures PathName(w) == w
    ensures PathName(dir + "/" + w) == w
  {
    var p := dir + "/" + w;
    assert p[|dir| + 1..] == w;
    var i := LastIndexOf(p, '/');
    assert p[|dir|] == '/';
  }

  // ---------------------------------------------------------------------------
  // The four allow checks
  // ---------------------------------------------------------------------------

  /** mentions_constitutional_files; `amendmentsAbs` is the resolved absolute path
      of the amendments directory. */
  predicate Mentions(command: string, amendmentsAbs: string) {
    Contains(command, AmendmentsRel) || Contains(command, amendmentsAbs)
    || Contains(command, ".founding") || Contains(command, "LAW")
  }

  /** is_read_only_command. The `>>` test of the source is implied by the `>` test. */
  predicate IsReadOnly(command: string, tokens: Tokens) {
    if '>' in command || '|' in command then false
    else match tokens
      case None => false
      case Some(ts) => |ts| == 0 || PathName(ts[0]) in ReadOnlyBinaries
  }

  /** A token names an allow-listed script when one of the names occurs in it. */
  predicate NamesScript(token: string) {
    exists k | 0 <= k < |AllowedScripts| :: Contains(token, AllowedScripts[k])
  }

  /** is_promotion_script_command */
  predicate IsPromotion(tokens: Tokens) {
    match tokens
    case None => false
    case Some(ts) =>
      |ts| >= 2 && PathName(ts[0]) in Interpreters
      && exists j | 1 <= j < |ts| :: NamesScript(ts[j])
  }

  /** A file name's timestamp and optional state glyph, as AMENDMENT_STATUS_PATTERN
      reads it. */
  datatype AmendmentStatus = AmendmentStatus(ts: string, state: Option<Marker>)

  predicate IsDigit(c: char) {
    '0' <= c <= '9'
  }

  predicate AllDigits(s: string) {
    forall i | 0 <= i < |s| :: IsDigit(s[i])
  }

  /** A name the pattern spells: 14 digits, optionally after "✅ " or "📝 ". */
  function StatusName(st: AmendmentStatus): string {
    match st.state
    case None => st.ts
    case Some(m) => MakeName(m, st.ts)
  }

  /** parse_amendment_status. The pattern's `$` also matches just before one
      final line feed, so a name may carry one. */
  function ParseStatus(name: string): (r: Option<AmendmentStatus>)
    ensures r.Some? ==> |r.value.ts| == 14 && AllDigits(r.value.ts)
    ensures r.Some? ==> r.value.state != Some(Resolving) && r.value.state != Some(Corrupted)
    ensures r.Some? ==> name == StatusName(r.value) || name == StatusName(r.value) + "\n"
  {
    var core := if |name| > 0 && name[|name| - 1] == '\n' then name[..|name| - 1] else name;
    if |core| == 14 && AllDigits(core) then Some(AmendmentStatus(core, None))
    else if |core| == 16 && core[1] == ' ' && (core[0] == Glyph(Accepted) || core[0] == Glyph(Draft))
            && AllDigits(core[2..]) then
      assert core == MakeName(MarkerOf(core[0]).value, core[2..]);
      Some(AmendmentStatus(core[2..], MarkerOf(core[0])))
    else None
  }

  /** Every spelling the pattern describes is read back as what it spells. */
  lemma ParseStatusRoundTrip(st: AmendmentStatus)
    requires |st.ts| == 14 && AllDigits(st.ts)
    requires st.state != Some(Resolving) && st.state != Some(Corrupted)
    ensures ParseStatus(StatusName(st)) == Some(st)
    ensures ParseStatus(StatusName(st) + "\n") == Some(st)
  {
    var n := StatusName(st);
    assert (n + "\n")[..|n|] == n;
    if st.state.Some? {
      assert n[2..] == st.ts;
    }
  }

  /** The only status change a shell `mv` may make: an unprefixed amendment becomes
      a draft under the same timestamp. */
  predicate RenameAllowed(src: string, dst: string) {
    var s := ParseStatus(src);
    var d := ParseStatus(dst);
    s.Some? && d.Some? && s.value.ts == d.value.ts
    && s.value.state == None && d.value.state == Some(Draft)
  }

  /** is_status_only_amendment_rename */
  predicate IsStatusOnlyRename(tokens: Tokens, place: Place) {
    match tokens
    case None => false
    case Some(ts) =>
      |ts| == 3 && PathName(ts[0]) == "mv"
      && place(ts[1]).Some? && place(ts[2]).Some?
      && RenameAllowed(place(ts[1]).value, place(ts[2]).value)
  }

  /** An allowed rename starts from a name without a state prefix and ends on the
      draft name of the same timestamp: no shell command promotes an amendment. */
  lemma RenameOnlyDrafts(tokens: Tokens, place: Place)
    requires IsStatusOnlyRename(tokens, place)
    ensures var src := place(tokens.value[1]).value;
      var dst := place(tokens.value[2]).value;
      var ts := ParseStatus(src).value.ts;
      (src == ts || src == ts + "\n")
      && (dst == MakeName(Draft, ts) || dst == MakeName(Draft, ts) + "\n")
      && StateOf(src) == None && StateOf(dst) == Some(Draft)
  {
    var src := place(tokens.value[1]).value;
    var dst := place(tokens.value[2]).value;
    var ts := ParseStatus(src).value.ts;
    assert IsDigit(ts[1]);
    MakeNameRoundTrip(Draft, ts);
    if dst != MakeName(Draft, ts) {
      assert dst[..|dst| - 1] == MakeName(Draft, ts);
    }
  }

  // ---------------------------------------------------------------------------
  // The decision
  // ---------------------------------------------------------------------------

  datatype Permission = Allow | Deny

  /** main. `mutating` is MUTATING_TOKEN_PATTERN.search(command). */
  function Decide(command: string, amendmentsAbs: string, tokens: Tokens, place: Place, mutating: bool): (r: Permission)
    ensures r == Allow <==>
      (!Mentions(command, amendmentsAbs) || IsReadOnly(command, tokens)
       || IsPromotion(tokens) || IsStatusOnlyRename(tokens, place))
  {
    if !Mentions(command, amendmentsAbs) then Allow
    else if IsReadOnly(command, tokens) then Allow
    else if IsPromotion(tokens) then Allow
    else if IsStatusOnlyRename(tokens, place) then Allow
    else if mutating || !IsReadOnly(command, tokens) then Deny
    else Allow
  }

  /** The mutating-token pattern never changes the decision: every command that
      reaches it is already not read-only. */
  lemma MutatingIrrelevant(command: string, amendmentsAbs: string, tokens: Tokens, place: Place)
    ensures Decide(command, amendmentsAbs, tokens, place, true) == Decide(command, amendmentsAbs, tokens, place, false)
  {
  }

  /** A read-only binary, called by any path, may read the constitution, as long as
      the command neither redirects nor pipes. */
  lemma ReadOnlyBinaryAllowed(command: string, amendmentsAbs: string, dir: string, bin: string, rest: seq<string>, place: Place, mutating: bool)
    requires bin in ReadOnlyBinaries
    requires '>' !in command && '|' !in command
    ensures Decide(command, amendmentsAbs, Some([bin] + rest), place, mutating) == Allow
    ensures Decide(command, amendmentsAbs, Some([dir + "/" + bin] + rest), place, mutating) == Allow
  {
    PathNameOfWord(dir, bin);
  }

  /** A redirection or a pipe makes any command that names the constitution
      subject to the remaining checks, whatever its binary. */
  lemma RedirectNotReadOnly(command: string, tokens: Tokens)
    requires '>' in command || '|' in command
    ensures !IsReadOnly(command, tokens)
  {
  }

  /** Running an allow-listed script through an interpreter is allowed. */
  lemma PromotionAllowed(command: string, amendmentsAbs: string, dir: string, interpreter: string, script: string, rest: seq<string>, place: Place, mutating: bool)
    requires interpreter in Interpreters
    requires script in AllowedScripts
    ensures Decide(command, amendmentsAbs, Some([dir + "/" + interpreter, script] + rest), place, mutating) == Allow
  {
    PathNameOfWord(dir, interpreter);
    var k :| 0 <= k < |AllowedScripts| && AllowedScripts[k] == script;
    assert Occurs(script, script, 0);
    assert NamesScript(([dir + "/" + interpreter, script] + rest)[1]);
  }

  /** Deleting an amendment by shell is denied unless a read-only, promotion or
      rename check applies, none of which an `rm` command meets. */
  lemma RemoveDenied(command: string, amendmentsAbs: string, args: seq<string>, place: Place, mutating: bool)
    requires Contains(command, AmendmentsRel)
    ensures Decide(command, amendmentsAbs, Some(["rm"] + args), place, mutating) == Deny
  {
    PathNameOfWord("", "rm");
  }
}
