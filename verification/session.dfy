/** hook_session_start: the LAW's body injected into every new agent session.
    Names use the prefix scheme. */
module Session {
  import opened Wrappers
  import opened PyStr
  import opened Frontmatter
  import opened Store

  /** The hook's output: nothing (`{}`), or an `additional_context` message. */
  datatype Injection = Nothing | Context(message: string)

  /** The state word discover_law reports. */
  function StateWord(st: LawState): string {
    match st
    case Active => "active"
    case Resolving => "resolving"
    case Corrupted => "corrupted"
  }

  /** extract_body of the hook: the text after the first closing delimiter when the
      text opens with one, otherwise the whole text; trimmed. */
  function SessionBody(text: string): (r: string)
    ensures Trimmed(r)
  {
    var rest := if StartsWith(text, Open) then
        match FindFrom(text, Close, 4)
        case Some(k) => text[k + 5..]
        case None => text
      else text;
    Strip(rest)
  }

  const OpenTag: string := "<constitutional_law status=\""
  const CloseTag: string := "\n</constitutional_law>"

  /** The injected message: the trimmed body wrapped in a tag naming the state. */
  function Message(st: LawState, body: string): string {
    OpenTag + StateWord(st) + "\">\n" + body + CloseTag
  }

  /** main of the hook. */
  function SessionStart(s: Snapshot): (r: Injection)
    ensures r.Context? <==>
      DiscoverLaw(Prefixed, s).Some? && DiscoverLaw(Prefixed, s).value.state != Corrupted
      && SessionBody(s.constitution[DiscoverLaw(Prefixed, s).value.name]) != ""
    ensures r.Context? ==>
      r.message == Message(DiscoverLaw(Prefixed, s).value.state, SessionBody(s.constitution[DiscoverLaw(Prefixed, s).value.name]))
  {
    match DiscoverLaw(Prefixed, s)
    case None => Nothing
    case Some(at) =>
      if at.state == Corrupted then Nothing
      else
        var body := SessionBody(s.constitution[at.name]);
        if body == "" then Nothing else Context(Message(at.state, body))
  }

  /** The hook's extract_body is extract_body_without_frontmatter. */
  lemma SessionBodyIsExtractBody(text: string)
    ensures SessionBody(text) == ExtractBody(text)
  {
  }

  /** The message carries the state and the body where a reader finds them: after
      the opening tag and up to the closing one. */
  lemma MessageParts(st: LawState, body: string)
    ensures var m := Message(st, body);
      StartsWith(m, OpenTag)
      && m[|OpenTag|..|OpenTag| + |StateWord(st)|] == StateWord(st)
      && m[|m| - |CloseTag| - |body|..|m| - |CloseTag|] == body
      && m[|m| - |CloseTag|..] == CloseTag
  {
    var m := Message(st, body);
    assert m == OpenTag + StateWord(st) + "\">\n" + body + CloseTag;
  }

  /** The character after the opening tag tells the state. */
  lemma StateAt(st: LawState, body: string)
    ensures |Message(st, body)| == |OpenTag| + |StateWord(st)| + 3 + |body| + |CloseTag|
    ensures Message(st, body)[|OpenTag|] == StateWord(st)[0]
  {
    var m := Message(st, body);
    assert m == OpenTag + (StateWord(st) + ("\">\n" + body + CloseTag));
    assert m[|OpenTag|..] == StateWord(st) + ("\">\n" + body + CloseTag);
  }

  /** Two injected messages are equal only for the same state and body. */
  lemma MessageInjective(st1: LawState, b1: string, st2: LawState, b2: string)
    requires Message(st1, b1) == Message(st2, b2)
    ensures st1 == st2 && b1 == b2
  {
    StateAt(st1, b1);
    StateAt(st2, b2);
    MessageParts(st1, b1);
    MessageParts(st2, b2);
  }

  /** What is injected depends on the LAW's trimmed body, not on its header:
      rewriting the LAW with the same body injects the same context. */
  lemma HeaderIgnored(s: Snapshot, text: string)
    requires DiscoverLaw(Prefixed, s).Some?
    requires ExtractBody(text) == ExtractBody(s.constitution[DiscoverLaw(Prefixed, s).value.name])
    ensures SessionStart(s.(constitution := s.constitution[DiscoverLaw(Prefixed, s).value.name := text])) == SessionStart(s)
  {
    var n := DiscoverLaw(Prefixed, s).value.name;
    var s2 := s.(constitution := s.constitution[n := text]);
    DiscoverLawAfterWrite(s, n, text);
    SessionBodyIsExtractBody(text);
    SessionBodyIsExtractBody(s.constitution[n]);
    assert SessionBody(s2.constitution[n]) == SessionBody(s.constitution[n]);
  }

  /** Rewriting a LAW file that exists leaves discovery as it was. */
  lemma DiscoverLawAfterWrite(s: Snapshot, n: string, text: string)
    requires n in s.constitution
    ensures DiscoverLaw(Prefixed, s.(constitution := s.constitution[n := text])) == DiscoverLaw(Prefixed, s)
  {
    var s2 := s.(constitution := s.constitution[n := text]);
    assert forall m :: m in s2.constitution <==> m in s.constitution;
  }
}
