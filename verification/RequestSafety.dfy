/** The two sides of the text pipeline agree. */
module RequestSafety {
  import opened Wrappers
  import opened Text
  import opened Mentions
  import opened MentionSafety
  import Normalize
  import opened Render
  import opened Request

  // ---------- the footer ----------

  lemma MarkerChars(k: int)
    requires 0 <= k < |NONCE_MARKER|
    ensures var c := NONCE_MARKER[k]; c != '\n' && c != '<' && c != '>' && c != '@' && c != '&' && !IsDigit(c)
  {
  }

  lemma PrefixChars(k: int)
    requires 0 <= k < |NONCE_FOOTER_PREFIX|
    ensures |NONCE_FOOTER_PREFIX| == |NONCE_MARKER| + 3
    ensures k < 2 <==> NONCE_FOOTER_PREFIX[k] == '\n'
    ensures NONCE_FOOTER_PREFIX[k] != '<' && NONCE_FOOTER_PREFIX[k] != '>'
  {
  }

  predicate PlainNeedle(needle: string) {
    forall k :: 0 <= k < |needle| ==>
      var c := needle[k]; c != '<' && c != '>' && c != '@' && c != '&' && !IsDigit(c)
  }

  lemma RenderedIsNotPlain(target: MentionTarget, k: int)
    requires IsDiscordId(target.id) && 0 <= k < |Rendered(target)|
    ensures var c := Rendered(target)[k]; c == '<' || c == '>' || c == '@' || c == '&' || IsDigit(c)
  {
  }

  predicate ValidPieces(ps: Pieces) {
    ps.Then? ==>
      && ValidPieces(ps.front)
      && (ps.last.Expanded? ==> IsDiscordId(ps.last.mention.target.id) && IsValidAlias(ps.last.mention.alias))
  }

  lemma ExpansionEnds(p: Piece)
    requires p.Expanded? ==> IsDiscordId(p.mention.target.id)
    ensures p.Expanded? ==> PieceText(p)[|PieceText(p)| - 1] == '>'
  {
  }

  lemma SuffixSplits(a: string, b: string, needle: string)
    requires |b| >= 1 && needle != [] && EndsWith(a + b, needle)
    ensures b[|b| - 1] == needle[|needle| - 1]
    ensures |b| == 1 ==> EndsWith(a, needle[..|needle| - 1])
  {
  }

  /** What the output ends with, in characters no mention has, the source ends with. */
  lemma {:induction false} SuffixComesFromSource(ps: Pieces, needle: string)
    requires ValidPieces(ps) && PlainNeedle(needle) && EndsWith(Output(ps), needle)
    ensures EndsWith(Source(ps), needle)
    decreases ps
  {
    if needle != [] {
      var n := |needle| - 1;
      SuffixSplits(Output(ps.front), PieceText(ps.last), needle);
      ExpansionEnds(ps.last);
      SuffixComesFromSource(ps.front, needle[..n]);
      AppendSuffix(Source(ps.front), needle[..n], needle[n]);
      assert needle == needle[..n] + [needle[n]];
    }
  }

  lemma AppendSuffix(s: string, suffix: string, c: char)
    requires EndsWith(s, suffix)
    ensures EndsWith(s + [c], suffix + [c])
  {
  }

  /** An occurrence that does not end the text lies in front, or ends inside the last piece. */
  lemma OccurrenceSplits(a: string, b: string, needle: string, p: int)
    requires |b| >= 1 && needle != [] && OccursAt(a + b, needle, p)
    ensures p + |needle| <= |a| ==> OccursAt(a, needle, p)
    ensures p + |needle| > |a| ==> b[p + |needle| - 1 - |a|] == needle[|needle| - 1]
    ensures p + |needle| == |a + b| ==> EndsWith(a + b, needle)
  {
  }

  /** What occurs in the output, in characters no mention has, occurs in the source. */
  lemma {:induction false} OccurrenceComesFromSource(ps: Pieces, needle: string, p: int)
    requires ValidPieces(ps) && PlainNeedle(needle) && needle != [] && OccursAt(Output(ps), needle, p)
    ensures Contains(Source(ps), needle)
    decreases ps
  {
    OccurrenceSplits(Output(ps.front), PieceText(ps.last), needle, p);
    if p + |needle| == |Output(ps)| {
      SuffixComesFromSource(ps, needle);
      assert OccursAt(Source(ps), needle, |Source(ps)| - |needle|);
    } else if p + |needle| <= |Output(ps.front)| {
      OccurrenceComesFromSource(ps.front, needle, p);
      var q :| 0 <= q <= |Source(ps.front)| - |needle| && OccursAt(Source(ps.front), needle, q);
      OccursInFront(Source(ps.front), PieceSource(ps.last), needle, q);
    } else {
      RenderedIsNotPlain(ps.last.mention.target, p + |needle| - 1 - |Output(ps.front)|);
    }
  }

  lemma FooterChars(nonce: string, k: int)
    requires IsSha256Hex(nonce) && 0 <= k < |Footer(nonce)|
    ensures k < 2 <==> Footer(nonce)[k] == '\n'
    ensures Footer(nonce)[k] != '<' && Footer(nonce)[k] != '>'
  {
  }

  /** In a text without the marker, followed by the footer, the footer's prefix occurs once, even across the seam. */
  lemma PrefixOccursOnce(front: string, nonce: string, p: int)
    requires !Contains(front, NONCE_MARKER) && IsSha256Hex(nonce)
    ensures OccursAt(front + Footer(nonce), NONCE_FOOTER_PREFIX, p) <==> p == |front|
  {
    var text, prefix := front + Footer(nonce), NONCE_FOOTER_PREFIX;
    PrefixChars(0); PrefixChars(1); PrefixChars(2);
    if p == |front| { assert text[p..p + |prefix|] == prefix; }
    if OccursAt(text, prefix, p) {
      OccurrenceChar(text, prefix, p, 0);
      OccurrenceChar(text, prefix, p, 1);
      OccurrenceChar(text, prefix, p, 2);
      if p > |front| {
        FooterChars(nonce, p - |front|);
        FooterChars(nonce, p - |front| + 1);
      } else if p + |prefix| <= |front| {
        InnerMarker(front, p, Footer(nonce));
      } else if p < |front| {
        OccurrenceChar(text, prefix, p, |front| - p);
        PrefixChars(|front| - p);
        FooterChars(nonce, 0);
        FooterChars(nonce, 1);
      }
    }
  }

  lemma InnerMarker(front: string, p: int, rest: string)
    requires OccursAt(front + rest, NONCE_FOOTER_PREFIX, p) && p + |NONCE_FOOTER_PREFIX| <= |front|
    ensures Contains(front, NONCE_MARKER)
  {
    PrefixChars(0);
    var prefix := NONCE_FOOTER_PREFIX;
    assert front[p..p + |prefix|] == prefix;
    assert front[p + 2..p + 2 + |NONCE_MARKER|] == prefix[2..2 + |NONCE_MARKER|] == NONCE_MARKER;
    assert OccursAt(front, NONCE_MARKER, p + 2);
  }

  lemma {:induction false} CountsOne(text: string, needle: string, at: int, from: nat)
    requires |needle| > 0 && forall p :: OccursAt(text, needle, p) <==> p == at
    ensures MatchCount(text, needle, from) == if from <= at then 1 else 0
    decreases |text| - from
  {
    assert OccursAt(text, needle, at);
    if from + |needle| <= |text| {
      CountsOne(text, needle, at, if from == at then from + |needle| else from + 1);
    }
  }

  /** The request builder's own test of the text passes on what the renderer writes. */
  lemma TextPasses(front: string, nonce: string)
    requires !Contains(front, NONCE_MARKER) && IsSha256Hex(nonce) && |front + Footer(nonce)| <= MAX_MESSAGE_CHARACTERS
    ensures ValidateText(front + Footer(nonce), nonce) == None
  {
    var text := front + Footer(nonce);
    forall p ensures OccursAt(text, NONCE_FOOTER_PREFIX, p) <==> p == |front| { PrefixOccursOnce(front, nonce, p); }
    PrefixChars(0);
    CountsOne(text, NONCE_FOOTER_PREFIX, |front|, 0);
  }

  // ---------- the allowed mentions ----------

  predicate DistinctTargets(ms: seq<Mention>) { forall i, j :: 0 <= i < j < |ms| ==> ms[i].target != ms[j].target }

  lemma {:induction false} TargetSetIs(ms: seq<Mention>, target: MentionTarget)
    ensures target in TargetSet(ms) <==> HasTarget(ms, target)
    decreases |ms|
  {
    if ms != [] {
      var n := |ms| - 1;
      TargetSetIs(ms[..n], target);
      HasTargetPush(ms[..n], ms[n], target);
      assert ms == ms[..n] + [ms[n]];
    }
  }

  lemma DistinctSnoc(front: seq<Mention>, m: Mention)
    ensures DistinctTargets(front + [m]) <==> DistinctTargets(front) && !HasTarget(front, m.target)
  {
    var all := front + [m];
    if DistinctTargets(all) {
      forall i, j | 0 <= i < j < |front| ensures front[i].target != front[j].target {
        assert all[i].target != all[j].target;
      }
      forall i | 0 <= i < |front| ensures front[i].target != m.target {
        assert all[i].target != all[|front|].target;
      }
    }
  }

  /** The set of targets is as large as the list exactly when no target is repeated. */
  lemma {:induction false} CountsTargets(ms: seq<Mention>)
    ensures |TargetSet(ms)| <= |ms|
    ensures |TargetSet(ms)| == |ms| <==> DistinctTargets(ms)
    decreases |ms|
  {
    if ms != [] {
      var n := |ms| - 1;
      var front, m := ms[..n], ms[n];
      CountsTargets(front);
      TargetSetIs(front, m.target);
      assert ms == front + [m];
      DistinctSnoc(front, m);
      if HasTarget(front, m.target) { assert TargetSet(front) + {m.target} == TargetSet(front); }
    }
  }

  /** Ids of one kind, in order. */
  function Ids(ms: seq<Mention>, kind: MentionKind): seq<string> {
    if ms == [] then []
    else
      var front, last := Ids(ms[..|ms| - 1], kind), ms[|ms| - 1].target;
      if last.kind == kind then front + [last.id] else front
  }

  function CheckedPrefix(ms: seq<Mention>): Checked { Checked(TargetSet(ms), Ids(ms, Role), Ids(ms, User)) }

  predicate EachPasses(allowed: seq<Mention>, configured: set<MentionTarget>) {
    forall i :: 0 <= i < |allowed| ==> IsDiscordId(allowed[i].target.id) && allowed[i].target in configured
  }

  lemma {:induction false} ChecksPass(allowed: seq<Mention>, configured: set<MentionTarget>, k: nat)
    requires k <= |allowed| && EachPasses(allowed, configured) && DistinctTargets(allowed)
    ensures CheckTargets(allowed, configured, k, CheckedPrefix(allowed[..k])) == Success(CheckedPrefix(allowed))
    decreases |allowed| - k
  {
    if k == |allowed| {
      assert allowed[..k] == allowed;
    } else {
      var front, m := allowed[..k], allowed[k];
      TargetSetIs(front, m.target);
      forall i | 0 <= i < |front| ensures front[i].target != m.target { assert allowed[i].target != allowed[k].target; }
      assert allowed[..k + 1][..k] == front && allowed[..k + 1][k] == m;
      assert Check(CheckedPrefix(front), configured, m.target) == Success(CheckedPrefix(allowed[..k + 1]));
      ChecksPass(allowed, configured, k + 1);
    }
  }

  lemma AscendingIsDistinct(ms: seq<Mention>)
    requires Ascending(ms)
    ensures DistinctTargets(ms)
  {
    forall i, j | 0 <= i < j < |ms| ensures ms[i].target != ms[j].target { LexIrreflexive(ms[i].target.id); }
  }

  predicate AscendingStrings(ss: seq<string>) { forall i, j :: 0 <= i < j < |ss| ==> LexLess(ss[i], ss[j]) }

  lemma {:induction false} IdsHave(ms: seq<Mention>, kind: MentionKind, id: string)
    ensures id in Ids(ms, kind) <==> HasTarget(ms, MentionTarget(kind, id))
    decreases |ms|
  {
    if ms != [] {
      var n := |ms| - 1;
      IdsHave(ms[..n], kind, id);
      HasTargetPush(ms[..n], ms[n], MentionTarget(kind, id));
      assert ms == ms[..n] + [ms[n]];
    }
  }

  lemma {:induction false} IdsAscend(ms: seq<Mention>, kind: MentionKind)
    requires Ascending(ms)
    ensures AscendingStrings(Ids(ms, kind))
    decreases |ms|
  {
    if ms != [] {
      var n := |ms| - 1;
      var front := ms[..n];
      forall i, j | 0 <= i < j < n ensures TargetLess(front[i].target, front[j].target) {
        assert TargetLess(ms[i].target, ms[j].target);
      }
      IdsAscend(front, kind);
      if ms[n].target.kind == kind {
        var ids := Ids(front, kind);
        forall i | 0 <= i < |ids| ensures LexLess(ids[i], ms[n].target.id) {
          IdsHave(front, kind, ids[i]);
          var k :| 0 <= k < |front| && front[k].target == MentionTarget(kind, ids[i]);
          assert TargetLess(ms[k].target, ms[n].target);
        }
      }
    }
  }

  lemma {:induction false} InsertAtEnd(sorted: seq<string>, s: string)
    requires forall i :: 0 <= i < |sorted| ==> LexLess(sorted[i], s)
    ensures InsertString(sorted, s) == sorted + [s]
  {
    if sorted != [] {
      LexAsymmetric(sorted[0], s);
      InsertAtEnd(sorted[1..], s);
    }
  }

  lemma {:induction false} SortedStays(ss: seq<string>)
    requires AscendingStrings(ss)
    ensures SortStrings(ss) == ss
    decreases |ss|
  {
    if ss != [] {
      SortedStays(ss[..|ss| - 1]);
      InsertAtEnd(ss[..|ss| - 1], ss[|ss| - 1]);
    }
  }

  lemma PayloadPasses(entries: seq<Mention>, allowed: seq<Mention>, mentions: seq<Mention>)
    requires Ascending(allowed) && EachPasses(allowed, TargetSet(entries))
    requires forall i :: 0 <= i < |mentions| ==> HasTarget(allowed, mentions[i].target)
    ensures MentionsPayload(entries, allowed, mentions)
      == if DistinctTargets(entries) then Success(AllowedPayload(Ids(allowed, Role), Ids(allowed, User)))
         else Failure(DuplicateMention)
  {
    CountsTargets(entries);
    AscendingIsDistinct(allowed);
    ChecksPass(allowed, TargetSet(entries), 0);
    assert allowed[..0] == [];
    forall i | 0 <= i < |mentions| ensures mentions[i].target in TargetSet(allowed) {
      TargetSetIs(allowed, mentions[i].target);
    }
    IdsAscend(allowed, Role);
    IdsAscend(allowed, User);
    SortedStays(Ids(allowed, Role));
    SortedStays(Ids(allowed, User));
  }

  // ---------- main theorems ----------

  /** A successful rendering, unfolded. */
  lemma RenderedParts(revision: Revision, now: nat, bot: Option<string>, wide: char -> bool)
      returns (r: Resolution, ps: Pieces)
    requires RenderRevision(revision, now, bot, wide).Success?
    ensures var m := RenderRevision(revision, now, bot, wide).value;
      && m.revision == revision && m.nonce == revision.contentHash && m.exactText == r.text + Footer(m.nonce)
      && m.mentions == r.occurrences && m.allowedMentions == r.allowed
        && m.normalizedBody == Normalize.Normalized(revision.body)
      && Resolve(m.normalizedBody, revision.destination.allowedMentions, bot, wide) == Success(r)
      && Explains(m.normalizedBody, revision.destination.allowedMentions, r, ps)
    ensures ValidPieces(ps) && !Contains(r.text, NONCE_MARKER)
  {
    var m := RenderRevision(revision, now, bot, wide).value;
    var entries := revision.destination.allowedMentions;
    r := Resolve(m.normalizedBody, entries, bot, wide).value;
    ps := Resolved(m.normalizedBody, entries, bot, wide);
    PiecesAreValid(m.normalizedBody, entries, bot, r, ps, ps);
    if Contains(r.text, NONCE_MARKER) {
      var p :| 0 <= p <= |r.text| - |NONCE_MARKER| && OccursAt(r.text, NONCE_MARKER, p);
      forall k | 0 <= k < |NONCE_MARKER|
        ensures var c := NONCE_MARKER[k];
                c != '<' && c != '>' && c != '@' && c != '&' && !IsDigit(c) {
        MarkerChars(k);
      }
      OccurrenceComesFromSource(ps, NONCE_MARKER, p);
    }
  }

  lemma {:induction false} PiecesAreValid(t: string, entries: seq<Mention>, bot: Option<string>, r: Resolution,
                                          all: Pieces,
                                         ps: Pieces)
    requires Explains(t, entries, r, all) && EntriesPass(entries, bot)
    requires forall p, from, at :: Stands(ps, p, from, at) ==> Stands(all, p, from, at)
    ensures ValidPieces(ps)
    decreases ps
  {
    if ps.Then? {
      PiecesAreValid(t, entries, bot, r, all, ps.front);
      if ps.last.Expanded? {
        assert Stands(ps, Expanded(ps.last.mention), |Source(ps.front)|, |Output(ps.front)|);
        EntryIsValid(entries, bot, ps.last.mention);
      }
    }
  }

  lemma {:induction false} ExpandsValidId(ps: Pieces, target: MentionTarget)
    requires ValidPieces(ps) && Expands(ps, target)
    ensures IsDiscordId(target.id)
    decreases ps
  {
    if Expands(ps.front, target) { ExpandsValidId(ps.front, target); }
  }

  lemma AllowedComesFromEntries(t: string, entries: seq<Mention>, bot: Option<string>, r: Resolution, ps: Pieces)
    requires Explains(t, entries, r, ps) && ValidPieces(ps)
    ensures Ascending(r.allowed) && EachPasses(r.allowed, TargetSet(entries))
    ensures forall i :: 0 <= i < |r.occurrences| ==> HasTarget(r.allowed, r.occurrences[i].target)
  {
    AllowedIsFirstOfEach(r.occurrences);
    forall i | 0 <= i < |r.allowed|
      ensures IsDiscordId(r.allowed[i].target.id) && r.allowed[i].target in TargetSet(entries)
    {
      var target := r.allowed[i].target;
      assert HasTarget(r.allowed, target);
      OccurrencesArePieces(ps, target);
      var m, from, at := ExpandsSomewhere(ps, target);
      var e :| 0 <= e < |entries| && entries[e] == m;
      assert entries[e].target == target;
      TargetSetIs(entries, target);
      ExpandsValidId(ps, target);
    }
    forall i | 0 <= i < |r.occurrences| ensures HasTarget(r.allowed, r.occurrences[i].target) {
      assert HasTarget(r.occurrences, r.occurrences[i].target);
    }
  }

  /** Every rendered message is accepted exactly when the destination's targets are distinct; otherwise it is refused as
      a duplicate, whatever it mentions. */
  lemma RenderedIsAccepted(revision: Revision, now: nat, bot: Option<string>, wide: char -> bool)
    requires RenderRevision(revision, now, bot, wide).Success?
    ensures var m := RenderRevision(revision, now, bot, wide).value;
      FromRendered(m) == if DistinctTargets(revision.destination.allowedMentions)
                         then Success(CreateMessageRequest(revision.destination.channelId, m.exactText, m.nonce,
                                                           AllowedPayload(Ids(m.allowedMentions, Role),
                                                                          Ids(m.allowedMentions, User)),
                                                           revision.reply))
                         else Failure(DuplicateMention)
  {
    var m := RenderRevision(revision, now, bot, wide).value;
    var r, ps := RenderedParts(revision, now, bot, wide);
    TextPasses(r.text, m.nonce);
    AllowedComesFromEntries(m.normalizedBody, revision.destination.allowedMentions, bot, r, ps);
    PayloadPasses(revision.destination.allowedMentions, m.allowedMentions, m.mentions);
  }

  /** The roles and users of the request are strictly sorted, and are exactly those the content mentions. */
  lemma RequestAllowsWhatItMentions(revision: Revision, now: nat, bot: Option<string>, wide: char -> bool,
                                    kind: MentionKind, id: string)
    requires RenderRevision(revision, now, bot, wide).Success?
    requires FromRendered(RenderRevision(revision, now, bot, wide).value).Success? && IsDiscordId(id)
    ensures var q := FromRendered(RenderRevision(revision, now, bot, wide).value).value;
      && AscendingStrings(q.allowed.roles) && AscendingStrings(q.allowed.users)
      && (id in (if kind.Role? then q.allowed.roles else q.allowed.users)
          <==> exists p :: OccursAt(q.content, Rendered(MentionTarget(kind, id)), p))
  {
    var m := RenderRevision(revision, now, bot, wide).value;
    var r, ps := RenderedParts(revision, now, bot, wide);
    RenderedIsAccepted(revision, now, bot, wide);
    AllowedComesFromEntries(m.normalizedBody, revision.destination.allowedMentions, bot, r, ps);
    IdsAscend(m.allowedMentions, Role);
    IdsAscend(m.allowedMentions, User);
    var target := MentionTarget(kind, id);
    IdsHave(m.allowedMentions, kind, id);
    MentionedIsAllowed(m.normalizedBody, revision.destination.allowedMentions, bot, wide, target);
    FooterMentionsNobody(r.text, m.nonce, target);
  }

  lemma FooterMentionsNobody(front: string, nonce: string, target: MentionTarget)
    requires IsSha256Hex(nonce) && IsDiscordId(target.id)
    ensures (exists p :: OccursAt(front + Footer(nonce), Rendered(target), p)) <==>
            (exists p :: OccursAt(front, Rendered(target), p))
  {
    var text, needle := front + Footer(nonce), Rendered(target);
    RenderedShape(target);
    if p :| OccursAt(text, needle, p) {
      OccurrenceChar(text, needle, p, |needle| - 1);
      var last := p + |needle| - 1;
      if last >= |front| { FooterChars(nonce, last - |front|); }
      assert front[p..p + |needle|] == text[p..p + |needle|];
      assert OccursAt(front, needle, p);
    }
    if p :| OccursAt(front, needle, p) { OccursInFront(front, Footer(nonce), needle, p); }
  }

  // ---------- stripping the footer ----------

  function Opening(s: string): nat { if s == [] then 0 else Opening(s[..|s| - 1]) + if s[|s| - 1] == '<' then 1 else 0 }

  lemma {:induction false} OpeningConcat(a: string, b: string)
    ensures Opening(a + b) == Opening(a) + Opening(b)
    decreases |b|
  {
    if b == [] {
      assert a + b == a;
    } else {
      var n := |b| - 1;
      assert (a + b)[..|a + b| - 1] == a + b[..n];
      OpeningConcat(a, b[..n]);
    }
  }

  lemma {:induction false} NoOpening(s: string)
    requires forall i :: 0 <= i < |s| ==> s[i] != '<'
    ensures Opening(s) == 0
  {
    if s != [] { NoOpening(s[..|s| - 1]); }
  }

  lemma {:induction false} VisibleOpening(s: string)
    ensures Opening(Normalize.Visible(s)) == Opening(s)
  {
    if s != [] {
      VisibleOpening(s[1..]);
      OpeningConcat([s[0]], s[1..]);
      assert s == [s[0]] + s[1..];
      if Normalize.IsWhitespace(s[0]) {
        assert Normalize.Visible(s) == Normalize.Visible(s[1..]);
        NoOpening([s[0]]);
      } else {
        OpeningConcat([s[0]], Normalize.Visible(s[1..]));
      }
    }
  }

  /** Each expansion brings one opening bracket. */
  lemma {:induction false} ExpansionsOpen(ps: Pieces)
    requires ValidPieces(ps)
    ensures Opening(Output(ps)) == Opening(Source(ps)) + |Occurrences(ps)|
    ensures Occurrences(ps) == [] ==> Output(ps) == Source(ps)
    decreases ps
  {
    if ps.Then? {
      ExpansionsOpen(ps.front);
      OpeningConcat(Output(ps.front), PieceText(ps.last));
      OpeningConcat(Source(ps.front), PieceSource(ps.last));
      if ps.last.Expanded? { ExpansionOpens(ps.last.mention); }
    }
  }

  lemma ExpansionOpens(m: Mention)
    requires IsDiscordId(m.target.id) && IsValidAlias(m.alias)
    ensures Opening(Rendered(m.target)) == 1 && Opening(['@'] + m.alias) == 0
  {
    var s := Rendered(m.target);
    RenderedShape(m.target);
    NoOpening(s[1..]);
    OpeningConcat([s[0]], s[1..]);
    assert s == [s[0]] + s[1..];
    assert Opening(['<']) == 1 by { assert ['<'][..0] == []; }
    forall i | 0 <= i < |m.alias| ensures m.alias[i] != '<' { assert IsAliasCharacter(m.alias[i]); }
    NoOpening(['@'] + m.alias);
  }

  /** Stripping the footer gives the stored body back exactly when the body was normal already and nothing in it was
      expanded. */
  lemma RawBodyComesBack(revision: Revision, now: nat, bot: Option<string>, wide: char -> bool)
    requires RenderRevision(revision, now, bot, wide).Success?
    ensures var m := RenderRevision(revision, now, bot, wide).value;
      RawBodyFromRendered(m.exactText, m.nonce) == Some(revision.body)
      <==> Normalize.IsNormal(revision.body) && m.mentions == []
  {
    var m := RenderRevision(revision, now, bot, wide).value;
    var r, ps := RenderedParts(revision, now, bot, wide);
    assert m.exactText[..|m.exactText| - |Footer(m.nonce)|] == r.text;
    assert RawBodyFromRendered(m.exactText, m.nonce) == Some(r.text);
    Normalize.NormalizedIsNormal(revision.body);
    Normalize.NormalizedKeepsVisible(revision.body);
    VisibleOpening(revision.body);
    VisibleOpening(m.normalizedBody);
    ExpansionsOpen(ps);
  }
}
