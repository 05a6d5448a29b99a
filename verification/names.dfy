/** How a record's lifecycle state is spelled in its file name. Two spellings
    coexist in the scripts: a glyph prefix (`✅ LAW`) used by the shared path
    helpers and most scripts, and a glyph suffix (`LAW.✅`) used by the verifier,
    the promotion scripts and the stop hook. */
module Names {
  import opened Wrappers
  import opened PyStr

  /** The four state glyphs: accepted/active, resolving/under review, draft, corrupted. */
  datatype Marker = Accepted | Resolving | Draft | Corrupted

  function Glyph(m: Marker): char {
    match m
    case Accepted => '\U{2705}'
    case Resolving => '\U{23F3}'
    case Draft => '\U{1F4DD}'
    case Corrupted => '\U{274C}'
  }

  function MarkerOf(c: char): (r: Option<Marker>)
    ensures r.Some? ==> Glyph(r.value) == c
    ensures forall m :: Glyph(m) == c ==> r == Some(m)
  {
    if c == '\U{2705}' then Some(Accepted)
    else if c == '\U{23F3}' then Some(Resolving)
    else if c == '\U{1F4DD}' then Some(Draft)
    else if c == '\U{274C}' then Some(Corrupted)
    else None
  }

  // ---------------------------------------------------------------------------
  // Prefix spelling: "<glyph> <base>"
  // ---------------------------------------------------------------------------

  /** make_name */
  function MakeName(m: Marker, base: string): string {
    [Glyph(m), ' '] + base
  }

  /** parse_state_emoji: the glyph of a name that starts with a glyph and a blank. */
  function StateOf(name: string): (r: Option<Marker>)
    ensures r.Some? ==> StartsWith(name, [Glyph(r.value), ' '])
  {
    if |name| >= 2 && name[1] == ' ' then MarkerOf(name[0]) else None
  }

  /** Exactly the names some marker and base spell carry a state. */
  lemma StateOfSpelled(name: string)
    ensures StateOf(name).Some? <==> exists m, b :: name == MakeName(m, b)
  {
    if StateOf(name).Some? {
      assert name == MakeName(StateOf(name).value, name[2..]);
    } else {
      forall m, b ensures name != MakeName(m, b) {
        MakeNameRoundTrip(m, b);
      }
    }
  }

  /** base_name: the name without its state prefix (unchanged when it has none). */
  function BaseName(name: string): (r: string)
    ensures StateOf(name).None? ==> r == name
    ensures StateOf(name).Some? ==> name == MakeName(StateOf(name).value, r)
  {
    if StateOf(name).Some? then name[2..] else name
  }

  /** swap_state: the same record under another state. */
  function SwapState(name: string, m: Marker): string {
    MakeName(m, BaseName(name))
  }

  /** tmp_path: the sibling a writer stages its output in. */
  function TmpName(name: string): string {
    name + ".tmp"
  }

  /** is_constitutional_file */
  predicate IsConstitutional(name: string) {
    StateOf(name).Some?
  }

  /** A prefixed name decodes to the glyph and base it was made from. */
  lemma MakeNameRoundTrip(m: Marker, base: string)
    ensures StateOf(MakeName(m, base)) == Some(m)
    ensures BaseName(MakeName(m, base)) == base
  {
    assert MakeName(m, base)[2..] == base;
  }

  /** Swapping the state changes the glyph and keeps the base. */
  lemma SwapStateEffect(name: string, m: Marker)
    ensures StateOf(SwapState(name, m)) == Some(m)
    ensures BaseName(SwapState(name, m)) == BaseName(name)
    ensures IsConstitutional(name) ==> SwapState(SwapState(name, m), StateOf(name).value) == name
  {
    MakeNameRoundTrip(m, BaseName(name));
    if IsConstitutional(name) {
      MakeNameRoundTrip(StateOf(name).value, BaseName(name));
    }
  }

  /** The staging name is never itself a state-changing name for the same base. */
  lemma TmpNameKeepsState(name: string)
    requires IsConstitutional(name)
    ensures StateOf(TmpName(name)) == StateOf(name)
    ensures BaseName(TmpName(name)) == BaseName(name) + ".tmp"
  {
    assert TmpName(name)[2..] == name[2..] + ".tmp";
  }

  // ---------------------------------------------------------------------------
  // Suffix spelling: "<base>.<glyph>", read with pathlib's suffix rules
  // ---------------------------------------------------------------------------

  /** `Path(name).suffix`: from the last dot on, unless that dot is the first or
      the last character. */
  function Suffix(name: string): (r: string)
    ensures |r| <= |name|
    ensures r == [] || (r[0] == '.' && name == name[..|name| - |r|] + r)
    ensures r != [] ==> 1 < |r| < |name|
  {
    match LastIndexOf(name, '.')
    case Some(i) =>
      if 0 < i < |name| - 1 then
        assert name == name[..i] + name[i..];
        name[i..]
      else ""
    case None => ""
  }

  /** `Path(name).stem` */
  function Stem(name: string): string {
    name[..|name| - |Suffix(name)|]
  }

  /** `Path(name).with_suffix(suffix)`, which raises for an empty name. */
  function WithSuffix(name: string, suffix: string): (r: Option<string>)
    ensures r.None? <==> name == ""
  {
    if name == "" then None else Some(Stem(name) + suffix)
  }

  function MarkSuffix(m: Marker): string {
    ['.', Glyph(m)]
  }

  /** The suffix-spelled name of base `base` in state `m`. */
  function SuffixName(base: string, m: Marker): string {
    base + MarkSuffix(m)
  }

  /** `path.suffix in VALID_SUFFIXES`, decoded. */
  function SuffixState(name: string): (r: Option<Marker>)
    ensures r.Some? ==> Suffix(name) == MarkSuffix(r.value)
    ensures forall m :: Suffix(name) == MarkSuffix(m) ==> r == Some(m)
  {
    var s := Suffix(name);
    if |s| == 2 then MarkerOf(s[1]) else None
  }

  /** A suffix-spelled name decodes to its state and base, provided the base is not
      empty (pathlib does not treat a leading dot as a suffix). */
  lemma SuffixNameRoundTrip(base: string, m: Marker)
    requires base != ""
    ensures Suffix(SuffixName(base, m)) == MarkSuffix(m)
    ensures SuffixState(SuffixName(base, m)) == Some(m)
    ensures Stem(SuffixName(base, m)) == base
  {
    var name := SuffixName(base, m);
    assert name[|base|] == '.';
    assert name[|base| + 1] == Glyph(m);
    assert Glyph(m) != '.';
    assert LastIndexOf(name, '.') == Some(|base|);
    assert name[|base|..] == MarkSuffix(m);
  }

  /** Replacing the suffix moves the record to another state and keeps its base. */
  lemma WithSuffixSwap(base: string, m1: Marker, m2: Marker)
    requires base != ""
    ensures WithSuffix(SuffixName(base, m1), MarkSuffix(m2)) == Some(SuffixName(base, m2))
  {
    SuffixNameRoundTrip(base, m1);
  }

  /** Moving a suffix-spelled record to another state keeps its stem. */
  lemma SwapSuffix(name: string, m: Marker)
    requires SuffixState(name).Some?
    ensures WithSuffix(name, MarkSuffix(m)) == Some(SuffixName(Stem(name), m))
    ensures SuffixState(SuffixName(Stem(name), m)) == Some(m)
    ensures Stem(SuffixName(Stem(name), m)) == Stem(name)
    ensures SuffixName(Stem(name), m) == name <==> SuffixState(name) == Some(m)
  {
    SuffixNameRoundTrip(Stem(name), m);
    var n := SuffixState(name).value;
    assert name == SuffixName(Stem(name), n);
    if SuffixName(Stem(name), m) == name {
      assert [Glyph(m)] == [Glyph(n)] by {
        assert name[|name| - 1] == Glyph(n);
      }
    }
  }

  /** The suffix reader sees no state in a prefix-spelled name whose base has no
      dot: `✅ LAW` carries no suffix at all. */
  lemma PrefixNameHasNoSuffixState(m: Marker, base: string)
    requires '.' !in base
    ensures Suffix(MakeName(m, base)) == ""
    ensures SuffixState(MakeName(m, base)).None?
  {
    var name := MakeName(m, base);
    assert forall j | 2 <= j < |name| :: name[j] == base[j - 2];
    assert '.' !in name;
  }

  /** The prefix reader sees no state in a suffix-spelled name whose second
      character is not a blank: `LAW.✅` is not a constitutional name to it. */
  lemma SuffixNameHasNoPrefixState(base: string, m: Marker)
    requires |base| >= 2 && base[1] != ' '
    ensures !IsConstitutional(SuffixName(base, m))
  {
    assert SuffixName(base, m)[1] == base[1];
  }
}
