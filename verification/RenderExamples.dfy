/** Messages that render, and then fail an expectation: one that the request builder refuses, and two whose stored body
    does not come back. */
module RenderExamples {
  import opened Wrappers
  import opened Text
  import opened Mentions
  import Normalize
  import opened Render
  import opened Request
  import opened RequestSafety

  // ---------- bodies on one line ----------

  predicate OneLine(s: string) {
    forall i :: 0 <= i < |s| ==> s[i] != '\n' && !Normalize.IsForeignLineEnd(s[i])
  }

  lemma {:induction false} LinesOfOne(s: string)
    requires OneLine(s)
    ensures Normalize.Lines(s) == [s]
  {
    if s != [] {
      LinesOfOne(s[1..]);
      assert s == [s[0]] + s[1..];
    }
  }

  lemma {:induction false} TrimmedIsOneLine(s: string)
    requires OneLine(s)
    ensures OneLine(Normalize.TrimEnd(s))
  {
    if s != [] && Normalize.IsHorizontal(s[|s| - 1]) { TrimmedIsOneLine(s[..|s| - 1]); }
  }

  /** A line is normalised by trimming its end. */
  lemma LineIsTrimmed(s: string)
    requires OneLine(s)
    ensures Normalize.Normalized(s) == Normalize.TrimEnd(s)
  {
    Normalize.LineFeedsKeep(s);
    LinesOfOne(s);
    TrimmedIsOneLine(s);
    var lines := Normalize.TrimLines([s]);
    assert lines == [Normalize.TrimEnd(s)];
  }

  // ---------- bodies without mentions ----------

  /** Text in which the scanner stops nowhere and no marker can be. */
  predicate Quiet(s: string) {
    forall i :: 0 <= i < |s| ==> s[i] != '@' && s[i] != '<' && s[i] != '{' && s[i] != ':' && s[i] != '-'
  }

  lemma PushPlain(ps: Pieces, c: char, rest: string)
    ensures Output(Then(ps, Piece.Plain(c))) + rest == Output(ps) + ([c] + rest)
    ensures Occurrences(Then(ps, Piece.Plain(c))) == Occurrences(ps)
  {
    assert Output(Then(ps, Piece.Plain(c))) == Output(ps) + [c];
  }

  lemma {:induction false} QuietScans(t: string, i: nat, ps: Pieces, step: nat -> Step)
    requires i <= |t| && forall k: nat :: k < |t| ==> step(k) == Copy
    ensures Scan(t, i, ps, step).Success?
    ensures var r := Scan(t, i, ps, step).value; Output(r) == Output(ps) + t[i..] && Occurrences(r) == Occurrences(ps)
    decreases |t| - i
  {
    if i < |t| {
      QuietScans(t, i + 1, Then(ps, Piece.Plain(t[i])), step);
      CopyGoesOn(t, i, ps, step);
      Copied(t, i, ps, Scan(t, i, ps, step).value);
    }
  }

  lemma CopyGoesOn(t: string, i: nat, ps: Pieces, step: nat -> Step)
    requires i < |t| && step(i) == Copy
    ensures Scan(t, i, ps, step) == Scan(t, i + 1, Then(ps, Piece.Plain(t[i])), step)
  {
  }

  lemma Copied(t: string, i: nat, ps: Pieces, r: Pieces)
    requires i < |t| && Output(r) == Output(Then(ps, Piece.Plain(t[i]))) + t[i + 1..]
    ensures Output(r) == Output(ps) + t[i..]
  {
    PushPlain(ps, t[i], t[i + 1..]);
    assert t[i..] == [t[i]] + t[i + 1..];
  }

  lemma QuietStep(t: string, k: nat, allow: map<string, MentionTarget>, wide: char -> bool)
    requires Quiet(t) && k < |t|
    ensures StepAt(t, k, allow, wide) == Copy
  {
  }

  lemma QuietPieces(t: string, allow: map<string, MentionTarget>, wide: char -> bool)
    requires Quiet(t)
    ensures var ps := Scan(t, 0, Nothing, Steps(t, allow, wide));
            ps.Success? && ResolutionOf(ps.value) == Resolution(t, [], [])
  {
    var step := Steps(t, allow, wide);
    forall k: nat | k < |t| ensures step(k) == Copy { QuietStep(t, k, allow, wide); }
    QuietScans(t, 0, Nothing, step);
    var ps := Scan(t, 0, Nothing, step).value;
    assert Output(ps) == t && Occurrences(ps) == [];
  }

  lemma QuietResolves(t: string, entries: seq<Mention>, bot: Option<string>, wide: char -> bool)
    requires Quiet(t) && EntriesPass(entries, bot) && DistinctAliases(entries)
    ensures Resolve(t, entries, bot, wide) == Success(Resolution(t, [], []))
  {
    AllowlistIsTheEntries(entries, bot);
    QuietPieces(t, Allowlist(entries, bot, 0, map[]).value, wide);
  }

  lemma NoDashNoMarker(t: string)
    requires forall i :: 0 <= i < |t| ==> t[i] != '-'
    ensures !ContainsNonceMarker(t)
  {
    assert NONCE_MARKER[0] == '-' && LEGACY_NONCE_MARKER[0] == '-' && SPACED_NONCE_MARKER[4] == '-';
    Lacks(t, NONCE_MARKER, 0);
    Lacks(t, LEGACY_NONCE_MARKER, 0);
    Lacks(t, SPACED_NONCE_MARKER, 4);
  }

  // ---------- a revision ----------

  function Zeros(): (s: string)
    ensures IsSha256Hex(s)
  {
    seq(64, _ => '0')
  }

  /** A revision of a valid destination with this body and these allowed mentions. */
  function RevisionOf(body: string, allowed: seq<Mention>): Revision {
    Revision("repo", 1, Zeros(), "alerts", Destination("alerts", "1", "2", allowed), body, None, 100)
  }

  lemma ShortFits(t: string)
    requires |t| <= 100
    ensures |t + Footer(Zeros())| <= MAX_MESSAGE_CHARACTERS
  {
    assert |NONCE_FOOTER_PREFIX| <= 40;
  }

  /** Such a revision renders if its body normalises to a text that resolves. */
  lemma Renders(body: string, allowed: seq<Mention>, normal: string, r: Resolution, wide: char -> bool)
    requires Normalize.NormalizeText(body) == Success(normal) && !ContainsNonceMarker(normal)
    requires Resolve(normal, allowed, None, wide) == Success(r) && |r.text| <= 100
    ensures RenderRevision(RevisionOf(body, allowed), 0, None, wide)
      == Success(RenderedMessage(RevisionOf(body, allowed), normal, r.text + Footer(Zeros()), Zeros(), r.occurrences,
                                 r.allowed))
  {
    ShortFits(r.text);
    assert IsDiscordId("1") && IsDiscordId("2") && IsValidAlias("alerts");
  }

  lemma LineRenders(body: string, allowed: seq<Mention>, wide: char -> bool)
    requires OneLine(body) && !Normalize.IsBlank(body) && Quiet(body) && |body| <= 100
    requires EntriesPass(allowed, None) && DistinctAliases(allowed)
    ensures RenderRevision(RevisionOf(body, allowed), 0, None, wide)
      == Success(RenderedMessage(RevisionOf(body, allowed), Normalize.TrimEnd(body),
                                 Normalize.TrimEnd(body) + Footer(Zeros()), Zeros(), [], []))
  {
    LineIsTrimmed(body);
    Normalize.NormalizedKeepsVisible(body);
    TrimKeepsQuiet(body);
    QuietResolves(Normalize.TrimEnd(body), allowed, None, wide);
    NoDashNoMarker(Normalize.TrimEnd(body));
    Renders(body, allowed, Normalize.TrimEnd(body), Resolution(Normalize.TrimEnd(body), [], []), wide);
  }

  lemma {:induction false} TrimKeepsQuiet(s: string)
    requires Quiet(s)
    ensures Quiet(Normalize.TrimEnd(s)) && |Normalize.TrimEnd(s)| <= |s|
  {
    if s != [] && Normalize.IsHorizontal(s[|s| - 1]) { TrimKeepsQuiet(s[..|s| - 1]); }
  }

  // ---------- the three messages ----------

  /** Two aliases of one user. */
  function SharedTarget(): seq<Mention> {
    [Mention("ops", MentionTarget(User, "7")), Mention("oncall", MentionTarget(User, "7"))]
  }

  lemma SharedTargetPasses()
    ensures EntriesPass(SharedTarget(), None) && DistinctAliases(SharedTarget()) && !DistinctTargets(SharedTarget())
  {
    var entries := SharedTarget();
    assert |entries[0].alias| != |entries[1].alias|;
    assert entries[0].target == entries[1].target;
  }

  /** A message without any mention, to a destination with two aliases of one user, renders and is refused by the
      request builder. */
  lemma RenderedAndRefused(wide: char -> bool)
    ensures var message := RenderRevision(RevisionOf("hi", SharedTarget()), 0, None, wide);
      message.Success? && FromRendered(message.value) == Failure(DuplicateMention)
  {
    SharedTargetPasses();
    assert "hi"[0] == 'h' && !Normalize.IsWhitespace('h');
    LineRenders("hi", SharedTarget(), wide);
    RenderedIsAccepted(RevisionOf("hi", SharedTarget()), 0, None, wide);
  }

  /** A body with a space at its end renders, and comes back without it. */
  lemma TrailingSpaceIsLost(wide: char -> bool)
    ensures var message := RenderRevision(RevisionOf("hi ", []), 0, None, wide);
      message.Success? && RawBodyFromRendered(message.value.exactText, message.value.nonce) == Some("hi")
  {
    var body := "hi ";
    assert body[0] == 'h' && !Normalize.IsWhitespace('h');
    LineRenders(body, [], wide);
    assert body[..2] == "hi";
    assert Normalize.TrimEnd(body) == "hi";
    Stripped("hi");
  }

  lemma Stripped(text: string)
    ensures RawBodyFromRendered(text + Footer(Zeros()), Zeros()) == Some(text)
  {
    var all := text + Footer(Zeros());
    assert all[|text|..] == Footer(Zeros()) && all[..|text|] == text;
  }

  function Ops(): Mention { Mention("ops", MentionTarget(User, "7")) }

  lemma OpsStep(t: string, allow: map<string, MentionTarget>, wide: char -> bool)
    requires t == "@ops" && "ops" in allow && allow["ops"] == Ops().target
    ensures StepAt(t, 0, allow, wide) == Expand(Ops())
  {
    AliasEndsAt(t);
    assert t[1..4] == "ops";
  }

  lemma OpsScans(t: string, step: nat -> Step)
    requires t == "@ops" && step(0) == Expand(Ops())
    ensures Scan(t, 0, Nothing, step) == Success(Then(Nothing, Expanded(Ops())))
  {
    var ps := Then(Nothing, Expanded(Ops()));
    assert |Ops().alias| == 3;
    assert Scan(t, 4, ps, step) == Success(ps);
  }

  lemma OneIsAllowed(m: Mention)
    ensures AllowedOf([m]) == [m]
  {
    assert [m][..0] == [];
  }

  lemma OnePiece(m: Mention)
    ensures ResolutionOf(Then(Nothing, Expanded(m))) == Resolution(Rendered(m.target), [m], [m])
  {
    assert Occurrences(Nothing) == [] && Output(Nothing) == [];
    assert [] + Rendered(m.target) == Rendered(m.target);
    OneIsAllowed(m);
  }

  lemma OpsPieces(ps: Pieces)
    requires ps == Then(Nothing, Expanded(Ops()))
    ensures ResolutionOf(ps) == Resolution("<@7>", [Ops()], [Ops()])
  {
    OnePiece(Ops());
  }

  lemma OpsAllowed(entries: seq<Mention>)
    requires entries == [Ops()]
    ensures var allow := Allowlist(entries, None, 0, map[]);
      allow.Success? && "ops" in allow.value && allow.value["ops"] == Ops().target
  {
    AllowlistIsTheEntries(entries, None);
    assert CheckEntry(Ops(), None) == None;
    assert entries[0].alias == "ops";
  }

  lemma OpsResolves(wide: char -> bool)
    ensures Resolve("@ops", [Ops()], None, wide) == Success(Resolution("<@7>", [Ops()], [Ops()]))
  {
    var t, entries := "@ops", [Ops()];
    OpsAllowed(entries);
    var allow := Allowlist(entries, None, 0, map[]).value;
    OpsStep(t, allow, wide);
    OpsScans(t, Steps(t, allow, wide));
    OpsPieces(Then(Nothing, Expanded(Ops())));
  }

  lemma AliasEndsAt(t: string)
    requires t == "@ops"
    ensures AliasEnd(t, 1) == 4
  {
    assert AliasEnd(t, 4) == 4;
    assert AliasEnd(t, 3) == 4;
    assert AliasEnd(t, 2) == 4;
  }

  lemma OpsIsNormal(body: string)
    requires body == "@ops"
    ensures Normalize.NormalizeText(body) == Success(body) && !ContainsNonceMarker(body)
  {
    assert body[0] == '@' && !Normalize.IsWhitespace('@');
    LineIsTrimmed(body);
    Normalize.NormalizedKeepsVisible(body);
    NoDashNoMarker(body);
  }

  /** A body with a mention renders, and comes back expanded. */
  lemma MentionIsExpanded(wide: char -> bool)
    ensures var message := RenderRevision(RevisionOf("@ops", [Ops()]), 0, None, wide);
      message.Success? && RawBodyFromRendered(message.value.exactText, message.value.nonce) == Some("<@7>")
  {
    var body, r := "@ops", Resolution("<@7>", [Ops()], [Ops()]);
    OpsIsNormal(body);
    OpsResolves(wide);
    Renders(body, [Ops()], body, r, wide);
    Stripped(r.text);
  }
}
