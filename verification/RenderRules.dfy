/** Exactly which revisions render, and for which messages a request is built: every condition over the fields and the
    positions of the texts. */
module RenderRules {
  import opened Wrappers
  import opened Text
  import opened Mentions
  import opened MentionSafety
  import opened MentionRules
  import Normalize
  import opened Render
  import opened Request
  import opened RequestSafety

  // ---------- rendering ----------

  /** Sixty-four digits of a hash. */
  predicate IsHash(s: string) { |s| == 64 && forall k :: 0 <= k < |s| ==> '0' <= s[k] <= '9' || 'a' <= s[k] <= 'f' }

  predicate IsId(s: string) { 1 <= |s| <= 32 && forall k :: 0 <= k < |s| ==> '0' <= s[k] <= '9' }

  predicate IsAliasName(s: string, longest: nat) { 1 <= |s| <= longest && forall k :: 0 <= k < |s| ==> InAlias(s[k]) }

  /** The reply, if any, is to a message of the same repository, workspace and channel. */
  predicate RepliesHere(revision: Revision) {
    revision.reply.Some? ==>
      var reply := revision.reply.value;
      && reply.repositoryId == revision.repositoryId
      && reply.workspaceId == revision.destination.workspaceId && reply.channelId == revision.destination.channelId
  }

  /** The revision is not expired, and its hash, destination and reply are as they should be. */
  predicate IsInOrder(revision: Revision, now: nat) {
    var d := revision.destination;
    && now < revision.expiresAt && IsHash(revision.contentHash)
    && d.alias == revision.destinationAlias && IsAliasName(d.alias, 64) && IsLetter(d.alias[0])
    && IsId(d.workspaceId) && IsId(d.channelId) && RepliesHere(revision)
  }

  /** The text holds none of the three phrases by which a footer is known. */
  ghost predicate HasNoFooter(text: string) {
    forall p: int ::
      && !OccursAt(text, "-- repo-com delivery-nonce:", p) && !OccursAt(text, "-- delivery-nonce", p)
      && !OccursAt(text, "repo-com delivery nonce:", p)
  }

  lemma HashIs(s: string)
    ensures IsSha256Hex(s) <==> IsHash(s)
  {
  }

  lemma IdIs(s: string)
    ensures IsDiscordId(s) <==> IsId(s)
  {
    if IsId(s) { forall k | 0 <= k < |s| ensures IsDigit(s[k]) {} }
  }

  lemma AliasIs(s: string)
    ensures IsValidAlias(s) <==> IsAliasName(s, 64) && IsLetter(s[0])
    ensures IsBoundedIdentifier(s) <==> IsAliasName(s, 128)
  {
    forall k | 0 <= k < |s| ensures IsAliasCharacter(s[k]) <==> InAlias(s[k]) {}
  }

  lemma OrderIs(revision: Revision, now: nat)
    ensures IsInOrder(revision, now)
      <==> now < revision.expiresAt && ValidateRevision(revision).None? && IsValidAlias(revision.destination.alias)
  {
    HashIs(revision.contentHash);
    IdIs(revision.destination.workspaceId);
    IdIs(revision.destination.channelId);
    AliasIs(revision.destination.alias);
  }

  lemma MarkerIs(text: string, marker: string)
    ensures Contains(text, marker) <==> exists p: int :: OccursAt(text, marker, p)
  {
    if p: int :| OccursAt(text, marker, p) { assert 0 <= p <= |text| - |marker|; }
  }

  lemma FooterIs(text: string)
    ensures ContainsNonceMarker(text) <==> !HasNoFooter(text)
  {
    MarkerIs(text, NONCE_MARKER);
    MarkerIs(text, LEGACY_NONCE_MARKER);
    MarkerIs(text, SPACED_NONCE_MARKER);
  }

  /** The conditions for a body, once normalised, to render at the destination. */
  ghost predicate BodyRenders(body: string, revision: Revision, bot: Option<string>, wide: char -> bool) {
    && HasNoFooter(body)
    && var r := Resolve(body, revision.destination.allowedMentions, bot, wide);
    && r.Success? && |r.value.text| + 94 <= 2_000
  }

  /** A revision renders exactly if it is in order, its body has something visible, and the normalised body holds no
      footer, resolves, and fits with its footer into 2,000 characters. */
  lemma RendersExactlyIf(revision: Revision, now: nat, bot: Option<string>, wide: char -> bool)
    ensures RenderRevision(revision, now, bot, wide).Success?
      <==> && IsInOrder(revision, now) && Normalize.NormalizeText(revision.body).Success?
           && BodyRenders(Normalize.Normalized(revision.body), revision, bot, wide)
  {
    OrderIs(revision, now);
    var normal := Normalize.NormalizeText(revision.body);
    if normal.Success? {
      assert normal.value == Normalize.Normalized(revision.body);
      FooterIs(normal.value);
      if IsHash(revision.contentHash) { FooterLength(revision.contentHash); }
      HashIs(revision.contentHash);
    }
  }

  lemma FooterLength(nonce: string)
    requires |nonce| == 64
    ensures |Footer(nonce)| == 94
  {
    assert |NONCE_MARKER| == 27;
  }

  // ---------- the request ----------

  const START := "\n\n-- repo-com delivery-nonce: "

  lemma StartIs()
    ensures NONCE_FOOTER_PREFIX == START && |START| == 30
  {
  }

  /** The text is the footer of this hash after something, and the footer's beginning stands nowhere else. */
  ghost predicate IsSealed(text: string, nonce: string) {
    && 94 <= |text| <= 2_000 && IsHash(nonce) && text[|text| - 94..] == START + nonce
    && forall p: int :: OccursAt(text, START, p) ==> p == |text| - 94
  }

  /** Two occurrences of the footer's beginning never overlap. */
  lemma PrefixesApart(text: string, p: int, q: int)
    requires OccursAt(text, NONCE_FOOTER_PREFIX, p) && OccursAt(text, NONCE_FOOTER_PREFIX, q) && p < q
    ensures q >= p + |NONCE_FOOTER_PREFIX|
  {
    if q < p + |NONCE_FOOTER_PREFIX| {
      OccurrenceChar(text, NONCE_FOOTER_PREFIX, q, 0);
      OccurrenceChar(text, NONCE_FOOTER_PREFIX, q, 1);
      OccurrenceChar(text, NONCE_FOOTER_PREFIX, p, q - p);
      PrefixChars(0);
      PrefixChars(1);
      PrefixChars(2);
      PrefixChars(q - p);
      if q == p + 1 { OccurrenceChar(text, NONCE_FOOTER_PREFIX, p, 2); }
    }
  }

  /** The count from `from` on is nought or one as there is no occurrence or a single one. */
  lemma {:induction false} CountIs(text: string, needle: string, from: nat)
    requires needle == NONCE_FOOTER_PREFIX && |needle| > 0
    ensures MatchCount(text, needle, from) == 0 <==> forall p :: OccursAt(text, needle, p) ==> p < from
    ensures MatchCount(text, needle, from) == 1
      ==> forall p, q :: OccursAt(text, needle, p) && OccursAt(text, needle, q) && from <= p && from <= q ==> p == q
    decreases |text| - from
  {
    if from + |needle| <= |text| {
      if OccursAt(text, needle, from) {
        CountIs(text, needle, from + |needle|);
        forall p | OccursAt(text, needle, p) && p > from ensures p >= from + |needle| { PrefixesApart(text, from, p); }
      } else {
        CountIs(text, needle, from + 1);
      }
    }
  }

  lemma SealIs(text: string, nonce: string)
    ensures ValidateText(text, nonce).None? <==> IsSealed(text, nonce)
  {
    HashIs(nonce);
    StartIs();
    if IsHash(nonce) {
      FooterLength(nonce);
      if EndsWith(text, Footer(nonce)) { OneStart(text, nonce, NONCE_FOOTER_PREFIX); }
    }
  }

  /** Of a text that ends with the footer: the count is one exactly if the footer's is the only occurrence. */
  lemma OneStart(text: string, nonce: string, prefix: string)
    requires prefix == NONCE_FOOTER_PREFIX && |prefix| == 30 && |Footer(nonce)| == 94 && EndsWith(text, Footer(nonce))
    ensures MatchCount(text, prefix, 0) == 1 <==> forall p: int :: OccursAt(text, prefix, p) ==> p == |text| - 94
  {
    var at := |text| - 94;
    assert text[at..at + |prefix|] == Footer(nonce)[..|prefix|] == prefix;
    assert OccursAt(text, prefix, at);
    CountIs(text, prefix, 0);
    if forall p: int :: OccursAt(text, prefix, p) ==> p == at { CountsOne(text, prefix, at, 0); }
  }

  /** The message's own targets: valid ids of the destination's targets, each once. */
  ghost predicate TargetsFit(entries: seq<Mention>, allowed: seq<Mention>) {
    && (forall k :: 0 <= k < |allowed| ==> IsId(allowed[k].target.id) && HasTarget(entries, allowed[k].target))
    && DistinctTargets(allowed)
  }

  lemma DistinctPrefix(ms: seq<Mention>, k: nat)
    requires k < |ms|
    ensures HasTarget(ms[..k], ms[k].target) ==> !DistinctTargets(ms)
  {
    if i :| 0 <= i < |ms[..k]| && ms[..k][i].target == ms[k].target { assert ms[i].target == ms[k].target; }
  }

  lemma {:induction false} TargetsAreChecked(entries: seq<Mention>, allowed: seq<Mention>, k: nat)
    requires k <= |allowed| && TargetsFit(entries, allowed[..k])
    ensures var r := CheckTargets(allowed, TargetSet(entries), k, CheckedPrefix(allowed[..k]));
            if TargetsFit(entries, allowed) then r == Success(CheckedPrefix(allowed)) else r.Failure?
    decreases |allowed| - k
  {
    if k == |allowed| {
      assert allowed[..k] == allowed;
    } else {
      var front, m := allowed[..k], allowed[k];
      IdIs(m.target.id);
      TargetSetIs(entries, m.target);
      TargetSetIs(front, m.target);
      DistinctPrefix(allowed, k);
      var next := allowed[..k + 1];
      assert next == front + [m] && next[..k] == front;
      if IsId(m.target.id) && HasTarget(entries, m.target) && !HasTarget(front, m.target) {
        DistinctSnoc(front, m);
        assert Check(CheckedPrefix(front), TargetSet(entries), m.target) == Success(CheckedPrefix(next));
        TargetsAreChecked(entries, allowed, k + 1);
      }
    }
  }

  /** Same strings, in order. */
  predicate Sorts(ss: seq<string>, sorted: seq<string>) {
    multiset(sorted) == multiset(ss) && InOrder(sorted)
  }

  predicate InOrder(sorted: seq<string>) {
    forall i, j :: 0 <= i < j < |sorted| ==> !LexLess(sorted[j], sorted[i])
  }

  lemma {:induction false} InsertKeepsAll(sorted: seq<string>, s: string)
    ensures multiset(InsertString(sorted, s)) == multiset(sorted) + multiset{s}
    decreases |sorted|
  {
    if sorted != [] && !LexLess(s, sorted[0]) {
      InsertKeepsAll(sorted[1..], s);
      assert sorted == [sorted[0]] + sorted[1..];
    }
  }

  lemma {:induction false} InsertSorts(sorted: seq<string>, s: string)
    requires InOrder(sorted)
    ensures InOrder(InsertString(sorted, s))
    decreases |sorted|
  {
    if sorted == [] || LexLess(s, sorted[0]) {
      forall j: nat | j < |sorted| ensures !LexLess(sorted[j], s) { NotBelow(s, sorted, j); }
    } else {
      var tail := InsertString(sorted[1..], s);
      InsertSorts(sorted[1..], s);
      forall j: nat | j < |tail| ensures !LexLess(tail[j], sorted[0]) { InsertedIsNotBelow(sorted, s, tail, j); }
    }
  }

  lemma InsertedIsNotBelow(sorted: seq<string>, s: string, tail: seq<string>, j: nat)
    requires sorted != [] && InOrder(sorted) && !LexLess(s, sorted[0])
    requires tail == InsertString(sorted[1..], s) && j < |tail|
    ensures !LexLess(tail[j], sorted[0])
  {
    InsertKeepsAll(sorted[1..], s);
    assert tail[j] in multiset(tail);
    if tail[j] != s {
      assert tail[j] in multiset(sorted[1..]);
      var k :| 0 <= k < |sorted[1..]| && sorted[1..][k] == tail[j];
      assert sorted[k + 1] == tail[j];
    }
  }

  lemma NotBelow(s: string, sorted: seq<string>, j: nat)
    requires j < |sorted| && LexLess(s, sorted[0]) && InOrder(sorted)
    ensures !LexLess(sorted[j], s)
  {
    if LexLess(sorted[j], s) {
      LexTransitive(sorted[j], s, sorted[0]);
      if j == 0 { LexIrreflexive(sorted[0]); }
    }
  }

  lemma {:induction false} SortIsRight(ss: seq<string>)
    ensures Sorts(ss, SortStrings(ss))
    decreases |ss|
  {
    if ss != [] {
      var n := |ss| - 1;
      SortIsRight(ss[..n]);
      InsertKeepsAll(SortStrings(ss[..n]), ss[n]);
      InsertSorts(SortStrings(ss[..n]), ss[n]);
      assert ss == ss[..n] + [ss[n]];
    }
  }

  /** Everything the builder asks of a message. */
  ghost predicate IsSendable(m: RenderedMessage) {
    var d := m.revision.destination;
    && IsAliasName(d.alias, 128) && IsId(d.channelId) && IsSealed(m.exactText, m.nonce)
    && DistinctTargets(d.allowedMentions) && TargetsFit(d.allowedMentions, m.allowedMentions)
    && (forall k :: 0 <= k < |m.mentions| ==> HasTarget(m.allowedMentions, m.mentions[k].target))
    && RepliesHere(m.revision)
  }

  lemma PayloadIs(entries: seq<Mention>, allowed: seq<Mention>, mentions: seq<Mention>)
    ensures var r := MentionsPayload(entries, allowed, mentions);
            && (r.Success? <==>
                DistinctTargets(entries) && TargetsFit(entries, allowed)
                && forall k :: 0 <= k < |mentions| ==> HasTarget(allowed, mentions[k].target))
            && (r.Success? ==> Sorts(Ids(allowed, Role), r.value.roles) && Sorts(Ids(allowed, User), r.value.users))
  {
    CountsTargets(entries);
    assert allowed[..0] == [];
    TargetsAreChecked(entries, allowed, 0);
    forall k | 0 <= k < |mentions|
      ensures mentions[k].target in TargetSet(allowed) <==> HasTarget(allowed, mentions[k].target) {
      TargetSetIs(allowed, mentions[k].target);
    }
    SortIsRight(Ids(allowed, Role));
    SortIsRight(Ids(allowed, User));
  }

  /** A request is built of a message, whoever made it, exactly if the destination is well named, the text is sealed by
      its footer, the targets fit and nothing else is mentioned, and the reply is in place. It has the channel, the text
      and the reply of the message, and allows exactly its targets, sorted. */
  lemma BuildsExactlyIf(m: RenderedMessage)
    ensures var r := FromRendered(m);
            && (r.Success? <==> IsSendable(m))
            && (r.Success? ==>
                  && r.value.channelId == m.revision.destination.channelId && r.value.content == m.exactText
                  && r.value.nonce == m.nonce && r.value.reply == m.revision.reply
                  && Sorts(Ids(m.allowedMentions, Role), r.value.allowed.roles)
                  && Sorts(Ids(m.allowedMentions, User), r.value.allowed.users))
  {
    var d := m.revision.destination;
    AliasIs(d.alias);
    IdIs(d.channelId);
    SealIs(m.exactText, m.nonce);
    PayloadIs(d.allowedMentions, m.allowedMentions, m.mentions);
  }

  /** Stripping takes off exactly the footer of the hash, if the text ends with it. */
  lemma StrippedExactlyIf(text: string, hash: string)
    ensures RawBodyFromRendered(text, hash)
      == if !IsHash(hash) then None
         else if |text| >= 94 && text[|text| - 94..] == START + hash
         then Some(text[..|text| - 94]) else Some(text)
  {
    HashIs(hash);
    StartIs();
    if IsHash(hash) { FooterLength(hash); }
  }
}
