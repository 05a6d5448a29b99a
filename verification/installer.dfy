/** The installer's bookkeeping (init.py for the Cursor provider): which hook
    entries, command files and agent files belong to the constitution skill, how
    the skill's hooks are stripped from and merged into `.cursor/hooks.json`, and
    when uninstalling deletes that file. Copying, symlinking and prompting are I/O
    and stay outside. */
module Installer {
  import opened Wrappers
  import opened PyStr

  // ---------------------------------------------------------------------------
  // Ownership
  // ---------------------------------------------------------------------------

  const HookPrefix := ".cursor/skills/constitution/scripts/"

  /** Install locations of earlier versions whose hooks are cleaned up too. */
  const OldHookPrefixes: seq<string> := [".constitution/src/scripts/", "skill/scripts/"]

  const SkillCommands: set<string> := {"new-law.md", "review-law.md"}
  const SkillAgents: set<string> := {"ratifier.md", "framer.md", "codifier.md"}
  const OldCommandPrefix := "constitution-"
  const OldAgentPrefix := "constitutional-"

  /** `[HOOK_COMMAND_PREFIX] + OLD_HOOK_PREFIXES` */
  function HookPrefixes(): seq<string> {
    [HookPrefix] + OldHookPrefixes
  }

  /** _is_constitution_hook: the command names a script under a current or earlier
      install location. */
  predicate IsConstitutionHook(command: string)
    ensures Contains(command, HookPrefix) ==> IsConstitutionHook(command)
    ensures IsConstitutionHook(command) ==> Contains(command, ScriptsDir)
  {
    if exists k | 0 <= k < |HookPrefixes()| :: Contains(command, HookPrefixes()[k]) then
      ClaimedRunsScript(command);
      true
    else
      assert Contains(command, HookPrefixes()[0]) ==> false;
      false
  }

  /** The directory every install location, current or earlier, ends in. */
  const ScriptsDir := "scripts/"

  /** A command holding an install location names its `scripts/` directory. */
  lemma ClaimedRunsScript(command: string)
    requires exists k | 0 <= k < |HookPrefixes()| :: Contains(command, HookPrefixes()[k])
    ensures Contains(command, ScriptsDir)
  {
    var k :| 0 <= k < |HookPrefixes()| && Contains(command, HookPrefixes()[k]);
    var p := HookPrefixes()[k];
    EndsInScripts(k);
    OccursInside(command, p, ScriptsDir, FindFrom(command, p, 0).value);
  }

  lemma EndsInScripts(k: nat)
    requires k < |HookPrefixes()|
    ensures |ScriptsDir| <= |HookPrefixes()[k]|
    ensures HookPrefixes()[k][|HookPrefixes()[k]| - |ScriptsDir|..] == ScriptsDir
  {
  }

  /** An occurrence of `p` that ends in `q` is an occurrence of `q`. */
  lemma OccursInside(s: string, p: string, q: string, i: int)
    requires Occurs(s, p, i) && |q| <= |p| && p[|p| - |q|..] == q
    ensures Occurs(s, q, i + |p| - |q|)
  {
    var j := i + |p| - |q|;
    assert s[j..j + |q|] == s[i..i + |p|][|p| - |q|..];
  }

  /** A command occurrence of `pat` anywhere makes `pat in command` hold. */
  lemma ContainsInfix(pre: string, pat: string, post: string)
    ensures Contains(pre + pat + post, pat)
  {
    assert (pre + pat + post)[|pre|..|pre| + |pat|] == pat;
    assert Occurs(pre + pat + post, pat, |pre|);
  }

  /** Any command that runs a script from one of the install locations is the
      skill's hook, whatever surrounds the path. */
  lemma HookUnderPrefix(pre: string, k: nat, script: string)
    requires k < |HookPrefixes()|
    ensures IsConstitutionHook(pre + HookPrefixes()[k] + script)
  {
    ContainsInfix(pre, HookPrefixes()[k], script);
  }

  predicate EndsWith(s: string, suffix: string) {
    |suffix| <= |s| && s[|s| - |suffix|..] == suffix
  }

  /** _is_constitution_command, given `path.name`. */
  predicate IsConstitutionCommand(name: string) {
    name in SkillCommands || (StartsWith(name, OldCommandPrefix) && EndsWith(name, ".md"))
  }

  /** _is_constitution_agent, given `path.name`. */
  predicate IsConstitutionAgent(name: string) {
    name in SkillAgents || (StartsWith(name, OldAgentPrefix) && EndsWith(name, ".md"))
  }

  /** Every file the installer claims is a Markdown file: it never touches
      anything else in the commands or agents directory. */
  lemma OwnedFilesAreMarkdown(name: string)
    ensures IsConstitutionCommand(name) ==> EndsWith(name, ".md")
    ensures IsConstitutionAgent(name) ==> EndsWith(name, ".md")
  {
  }

  /** Every old-style name is claimed, and a name with another extension is not. */
  lemma OldNamesOwned(stem: string)
    ensures IsConstitutionCommand(OldCommandPrefix + stem + ".md")
    ensures IsConstitutionAgent(OldAgentPrefix + stem + ".md")
    ensures !IsConstitutionCommand(OldCommandPrefix + stem + ".txt")
    ensures !IsConstitutionAgent(OldAgentPrefix + stem + ".txt")
  {
    var c := OldCommandPrefix + stem + ".md";
    var a := OldAgentPrefix + stem + ".md";
    assert c[..|OldCommandPrefix|] == OldCommandPrefix;
    assert c[|c| - 3..] == ".md";
    assert a[..|OldAgentPrefix|] == OldAgentPrefix;
    assert a[|a| - 3..] == ".md";
    var ct := OldCommandPrefix + stem + ".txt";
    var at := OldAgentPrefix + stem + ".txt";
    assert ct[|ct| - 1] == 't';
    assert at[|at| - 1] == 't';
  }

  /** The two old prefixes keep commands and agents apart: an old agent name is
      never taken for a command. */
  lemma OldAgentNotCommand(stem: string)
    ensures !IsConstitutionCommand(OldAgentPrefix + stem)
  {
    var n := OldAgentPrefix + stem;
    assert n[12] == 'a';
  }

  /** remove_commands, given the names in the directory: the names left, how many
      were removed, and whether the then-empty directory is removed. */
  datatype Cleanup = Cleanup(kept: seq<string>, removed: nat, dirRemoved: bool)

  function KeepUnowned(names: seq<string>, owned: string -> bool): (r: seq<string>)
    ensures forall n :: n in r <==> n in names && !owned(n)
    ensures |r| <= |names|
  {
    if |names| == 0 then []
    else
      var rest := KeepUnowned(names[1..], owned);
      assert forall n | n in names :: n == names[0] || n in names[1..];
      if owned(names[0]) then rest else [names[0]] + rest
  }

  function RemoveOwned(names: seq<string>, owned: string -> bool): (r: Cleanup)
    ensures forall n :: n in r.kept <==> n in names && !owned(n)
    ensures r.removed + |r.kept| == |names|
    ensures r.dirRemoved <==> forall i | 0 <= i < |names| :: owned(names[i])
  {
    var kept := KeepUnowned(names, owned);
    assert kept != [] ==> kept[0] in kept;
    assert kept == [] ==> forall i | 0 <= i < |names| :: owned(names[i]) by {
      if kept == [] {
        forall i | 0 <= i < |names| ensures owned(names[i]) {
          assert names[i] in names;
        }
      }
    }
    Cleanup(kept, |names| - |kept|, kept == [])
  }

  // ---------------------------------------------------------------------------
  // Hook configuration
  // ---------------------------------------------------------------------------

  /** One hook entry; `command` is None when the entry has no "command" key. */
  datatype Entry = Entry(command: Option<string>, rest: seq<(string, string)>)

  /** One event type with its entries, in file order. */
  datatype Event = Event(name: string, entries: seq<Entry>)

  /** The "hooks" mapping, in insertion order. */
  type Hooks = seq<Event>

  /** `entry.get("command", "")` */
  function CommandOf(e: Entry): string {
    e.command.GetOr("")
  }

  predicate Owned(e: Entry) {
    IsConstitutionHook(CommandOf(e))
  }

  /** An entry without a command is never the skill's. */
  lemma NoCommandNotOwned(rest: seq<(string, string)>)
    ensures !Owned(Entry(None, rest))
  {
    assert forall k | 0 <= k < |HookPrefixes()| :: |HookPrefixes()[k]| > 0;
  }

  /** The `remaining` list comprehension of _strip_constitution_hooks. */
  function Remaining(entries: seq<Entry>): (r: seq<Entry>)
    ensures forall e :: e in r <==> e in entries && !Owned(e)
    ensures |r| <= |entries|
  {
    if |entries| == 0 then []
    else
      var rest := Remaining(entries[1..]);
      assert forall e | e in entries :: e == entries[0] || e in entries[1..];
      if Owned(entries[0]) then rest else [entries[0]] + rest
  }

  /** Filtering distributes over concatenation: surviving entries keep their
      relative order. */
  lemma {:induction false} RemainingConcat(a: seq<Entry>, b: seq<Entry>)
    ensures Remaining(a + b) == Remaining(a) + Remaining(b)
    decreases |a|
  {
    if |a| == 0 {
      assert a + b == b;
    } else {
      assert (a + b)[1..] == a[1..] + b;
      RemainingConcat(a[1..], b);
    }
  }

  lemma {:induction false} RemainingClean(entries: seq<Entry>)
    requires forall e | e in entries :: !Owned(e)
    ensures Remaining(entries) == entries
    decreases |entries|
  {
    if |entries| > 0 {
      assert entries[0] in entries;
      assert forall e | e in entries[1..] :: e in entries;
      RemainingClean(entries[1..]);
      assert [entries[0]] + entries[1..] == entries;
    }
  }

  lemma RemainingAllOwned(entries: seq<Entry>)
    requires forall e | e in entries :: Owned(e)
    ensures Remaining(entries) == []
  {
    if Remaining(entries) != [] {
      assert Remaining(entries)[0] in Remaining(entries);
    }
  }

  /** An event after stripping: it has entries and none is the skill's. */
  predicate CleanEvent(ev: Event) {
    |ev.entries| > 0 && forall e | e in ev.entries :: !Owned(e)
  }

  predicate Clean(h: Hooks) {
    forall i | 0 <= i < |h| :: CleanEvent(h[i])
  }

  /** _strip_constitution_hooks */
  function StripHooks(h: Hooks): (r: Hooks)
    ensures Clean(r)
    ensures |r| <= |h|
    ensures forall ev | ev in r :: exists j | 0 <= j < |h| :: ev == Event(h[j].name, Remaining(h[j].entries))
    ensures forall j | 0 <= j < |h| :: Remaining(h[j].entries) != [] ==> Event(h[j].name, Remaining(h[j].entries)) in r
  {
    if |h| == 0 then []
    else
      var rest := StripHooks(h[1..]);
      var kept := Remaining(h[0].entries);
      assert forall j | 1 <= j < |h| :: h[j] == h[1..][j - 1];
      var r := if kept == [] then rest else [Event(h[0].name, kept)] + rest;
      assert forall ev | ev in r :: ev in rest || ev == Event(h[0].name, kept);
      r
  }

  /** Stripping works event by event: it keeps the order of event types. */
  lemma {:induction false} StripConcat(a: Hooks, b: Hooks)
    ensures StripHooks(a + b) == StripHooks(a) + StripHooks(b)
    decreases |a|
  {
    if |a| == 0 {
      assert a + b == b;
    } else {
      assert (a + b)[1..] == a[1..] + b;
      StripConcat(a[1..], b);
    }
  }

  /** A stripped configuration is its own strip: stripping twice is stripping once. */
  lemma {:induction false} StripClean(h: Hooks)
    requires Clean(h)
    ensures StripHooks(h) == h
    decreases |h|
  {
    if |h| > 0 {
      RemainingClean(h[0].entries);
      assert Clean(h[1..]) by {
        forall i | 0 <= i < |h[1..]| ensures CleanEvent(h[1..][i]) {
          assert h[1..][i] == h[i + 1];
        }
      }
      StripClean(h[1..]);
      assert [h[0]] + h[1..] == h;
    }
  }

  lemma StripIdempotent(h: Hooks)
    ensures StripHooks(StripHooks(h)) == StripHooks(h)
  {
    StripClean(StripHooks(h));
  }

  /** Stripping keeps a configuration without the skill's entries as it is, apart
      from events that had no entries at all. */
  lemma StripForeignOnly(h: Hooks)
    requires forall i | 0 <= i < |h| :: |h[i].entries| > 0 && forall e | e in h[i].entries :: !Owned(e)
    ensures StripHooks(h) == h
  {
    StripClean(h);
  }

  // ---------------------------------------------------------------------------
  // Merging the template (install_hooks_copy)
  // ---------------------------------------------------------------------------

  /** Position of the event type `name`, if present. */
  function Find(h: Hooks, name: string): (r: Option<nat>)
    ensures r.Some? ==> r.value < |h| && h[r.value].name == name
    ensures r.Some? ==> forall j | 0 <= j < r.value :: h[j].name != name
    ensures r.None? ==> forall j | 0 <= j < |h| :: h[j].name != name
  {
    if |h| == 0 then None
    else if h[0].name == name then Some(0)
    else match Find(h[1..], name)
      case None => None
      case Some(i) => Some(i + 1)
  }

  /** `hooks.get(name, [])` */
  function EntriesOf(h: Hooks, name: string): seq<Entry> {
    match Find(h, name)
    case None => []
    case Some(i) => h[i].entries
  }

  /** One step of the merge loop: `current = hooks.get(name, [])`,
      `current.extend(entries)`, `hooks[name] = current`. An existing key keeps its
      place; a new key goes last. */
  function Extend(h: Hooks, name: string, entries: seq<Entry>): (r: Hooks)
    ensures |r| == |h| || r == h + [Event(name, entries)]
    ensures forall n :: EntriesOf(r, n) == EntriesOf(h, n) + (if n == name then entries else [])
  {
    match Find(h, name)
    case None =>
      var r := h + [Event(name, entries)];
      assert forall n :: EntriesOf(r, n) == EntriesOf(h, n) + (if n == name then entries else []) by {
        forall n ensures EntriesOf(r, n) == EntriesOf(h, n) + (if n == name then entries else []) {
          FindSnoc(h, Event(name, entries), n);
        }
      }
      r
    case Some(i) =>
      var r := h[i := Event(name, h[i].entries + entries)];
      assert forall n :: EntriesOf(r, n) == EntriesOf(h, n) + (if n == name then entries else []) by {
        forall n ensures EntriesOf(r, n) == EntriesOf(h, n) + (if n == name then entries else []) {
          FindUpdate(h, i, name, h[i].entries + entries, n);
        }
      }
      r
  }

  lemma {:induction false} FindSnoc(h: Hooks, ev: Event, n: string)
    ensures Find(h + [ev], n) == if Find(h, n).Some? then Find(h, n)
      else if ev.name == n then Some(|h|) else None
    decreases |h|
  {
    if |h| > 0 {
      assert (h + [ev])[1..] == h[1..] + [ev];
      FindSnoc(h[1..], ev, n);
    }
  }

  lemma {:induction false} FindUpdate(h: Hooks, i: nat, name: string, entries: seq<Entry>, n: string)
    requires Find(h, name) == Some(i)
    ensures Find(h[i := Event(name, entries)], n) == Find(h, n)
    decreases |h|
  {
    if |h| > 0 && i > 0 {
      assert h[i := Event(name, entries)][1..] == h[1..][i - 1 := Event(name, entries)];
      FindUpdate(h[1..], i - 1, name, entries, n);
    }
  }

  /** The merge loop over the template's events, in order. */
  function MergeInto(h: Hooks, template: Hooks): (r: Hooks)
    ensures |h| <= |r| <= |h| + |template|
    decreases |template|
  {
    if |template| == 0 then h
    else MergeInto(Extend(h, template[0].name, template[0].entries), template[1..])
  }

  /** All of the template's entries for `name`, over every event of that name. */
  function TemplateEntries(template: Hooks, name: string): seq<Entry> {
    if |template| == 0 then []
    else
      var first := if template[0].name == name then template[0].entries else [];
      first + TemplateEntries(template[1..], name)
  }

  /** install_hooks_copy's rewrite of the "hooks" mapping: strip, then merge. */
  function Merge(existing: Hooks, template: Hooks): Hooks {
    MergeInto(StripHooks(existing), template)
  }

  /** For every event type, the merged entries are the user's surviving entries
      followed by the template's: nothing is reordered, lost or duplicated. */
  lemma {:induction false} MergeIntoEntries(h: Hooks, template: Hooks, n: string)
    ensures EntriesOf(MergeInto(h, template), n) == EntriesOf(h, n) + TemplateEntries(template, n)
    decreases |template|
  {
    if |template| > 0 {
      var h1 := Extend(h, template[0].name, template[0].entries);
      MergeIntoEntries(h1, template[1..], n);
    }
  }

  lemma MergeEntries(existing: Hooks, template: Hooks, n: string)
    ensures EntriesOf(Merge(existing, template), n)
      == EntriesOf(StripHooks(existing), n) + TemplateEntries(template, n)
  {
    MergeIntoEntries(StripHooks(existing), template, n);
  }

  /** In a mapping with distinct keys, "all entries named n" is `template.get(n, [])`. */
  lemma {:induction false} TemplateEntriesDistinct(template: Hooks, n: string)
    requires forall i, j | 0 <= i < j < |template| :: template[i].name != template[j].name
    ensures TemplateEntries(template, n) == EntriesOf(template, n)
    decreases |template|
  {
    if |template| > 0 {
      TemplateEntriesDistinct(template[1..], n);
      if template[0].name == n {
        TemplateEntriesAbsent(template[1..], n);
      }
    }
  }

  lemma {:induction false} TemplateEntriesAbsent(template: Hooks, n: string)
    requires forall i | 0 <= i < |template| :: template[i].name != n
    ensures TemplateEntries(template, n) == []
    decreases |template|
  {
    if |template| > 0 {
      TemplateEntriesAbsent(template[1..], n);
    }
  }

  predicate TemplateOwned(template: Hooks) {
    forall i | 0 <= i < |template| :: forall e | e in template[i].entries :: Owned(e)
  }

  /** Merging only the skill's entries into a configuration that strips to `base`
      gives one that still strips to `base`. */
  lemma {:induction false} StripMergeInto(h: Hooks, template: Hooks, base: Hooks)
    requires StripHooks(h) == base
    requires TemplateOwned(template)
    ensures StripHooks(MergeInto(h, template)) == base
    decreases |template|
  {
    if |template| > 0 {
      var h1 := Extend(h, template[0].name, template[0].entries);
      StripExtendAny(h, template[0].name, template[0].entries);
      assert TemplateOwned(template[1..]) by {
        forall i | 0 <= i < |template[1..]| ensures forall e | e in template[1..][i].entries :: Owned(e) {
          assert template[1..][i] == template[i + 1];
        }
      }
      StripMergeInto(h1, template[1..], base);
    }
  }

  /** Extending by the skill's own entries is invisible to stripping, from any start. */
  lemma StripExtendAny(h: Hooks, name: string, entries: seq<Entry>)
    requires forall e | e in entries :: Owned(e)
    ensures StripHooks(Extend(h, name, entries)) == StripHooks(h)
  {
    RemainingAllOwned(entries);
    match Find(h, name)
    case None =>
      StripConcat(h, [Event(name, entries)]);
      assert StripHooks([Event(name, entries)]) == [];
    case Some(i) =>
      RemainingConcat(h[i].entries, entries);
      StripReplace(h, i, Event(name, h[i].entries + entries));
  }

  /** Replacing one event by another with the same surviving entries does not
      change the strip. */
  lemma {:induction false} StripReplace(h: Hooks, i: nat, ev: Event)
    requires i < |h| && ev.name == h[i].name
    requires Remaining(ev.entries) == Remaining(h[i].entries)
    ensures StripHooks(h[i := ev]) == StripHooks(h)
    decreases |h|
  {
    if i == 0 {
      assert h[i := ev][1..] == h[1..];
    } else {
      assert h[i := ev][1..] == h[1..][i - 1 := ev];
      StripReplace(h[1..], i - 1, ev);
    }
  }

  /** Uninstalling after installing leaves exactly the user's own hooks: when the
      template holds only the skill's entries, stripping the merge undoes it. */
  lemma StripMerge(existing: Hooks, template: Hooks)
    requires TemplateOwned(template)
    ensures StripHooks(Merge(existing, template)) == StripHooks(existing)
  {
    StripIdempotent(existing);
    StripMergeInto(StripHooks(existing), template, StripHooks(existing));
  }

  /** Installing twice is installing once. */
  lemma MergeIdempotent(existing: Hooks, template: Hooks)
    requires TemplateOwned(template)
    ensures Merge(Merge(existing, template), template) == Merge(existing, template)
  {
    StripMerge(existing, template);
  }

  // ---------------------------------------------------------------------------
  // Uninstalling (remove_hooks)
  // ---------------------------------------------------------------------------

  datatype Removal = Deleted | Rewritten(hooks: Hooks)

  /** remove_hooks on a regular hooks file: the file goes when no hook is left
      after stripping, otherwise it is rewritten without the skill's entries. */
  function RemoveHooks(h: Hooks): (r: Removal)
    ensures r.Rewritten? ==> r.hooks != [] && Clean(r.hooks)
  {
    var s := StripHooks(h);
    if s == [] then Deleted else Rewritten(s)
  }

  /** The file is deleted exactly when every entry in it is the skill's. */
  lemma DeletedIffAllOwned(h: Hooks)
    ensures RemoveHooks(h) == Deleted <==>
      forall i | 0 <= i < |h| :: forall e | e in h[i].entries :: Owned(e)
  {
    if RemoveHooks(h) == Deleted {
      forall i, e | 0 <= i < |h| && e in h[i].entries ensures Owned(e) {
        assert Event(h[i].name, Remaining(h[i].entries)) !in StripHooks(h);
      }
    } else {
      var ev := StripHooks(h)[0];
      assert ev in StripHooks(h);
      var j :| 0 <= j < |h| && ev == Event(h[j].name, Remaining(h[j].entries));
      assert ev.entries[0] in Remaining(h[j].entries);
    }
  }

  /** Uninstalling after an install of owned hooks leaves the user's file as the
      install found it, up to the skill's own entries and emptied events. */
  lemma UninstallAfterInstall(existing: Hooks, template: Hooks)
    requires TemplateOwned(template)
    ensures RemoveHooks(Merge(existing, template)) == RemoveHooks(existing)
  {
    StripMerge(existing, template);
  }
}
