/** The create-message request, built from a rendered message by checks of its own. */
module Request {
  import opened Wrappers
  import opened Text
  import opened Mentions
  import opened Render

  datatype RequestError =
    | RawChannelId | UnlistedMention | InvalidMention | DuplicateMention | TextEmpty | TextTooLong(length: nat)
    | InvalidNonce | NonceFooterMismatch | ReplyMismatch

  datatype AllowedPayload = AllowedPayload(roles: seq<string>, users: seq<string>)

  datatype CreateMessageRequest = CreateMessageRequest(
    channelId: string, content: string, nonce: string, allowed: AllowedPayload, reply: Option<ReplyReference>)

  /** Matches of `needle` counted from the left without overlap. */
  function MatchCount(text: string, needle: string, from: nat): nat
    requires |needle| > 0
    decreases |text| - from
  {
    if from + |needle| > |text| then 0
    else if OccursAt(text, needle, from) then 1 + MatchCount(text, needle, from + |needle|)
    else MatchCount(text, needle, from + 1)
  }

  predicate IsBoundedIdentifier(s: string) {
    1 <= |s| <= 128 && forall i :: 0 <= i < |s| ==> IsAliasCharacter(s[i])
  }

  function ValidateText(text: string, nonce: string): Option<RequestError> {
    if text == [] then Some(TextEmpty)
    else if |text| > MAX_MESSAGE_CHARACTERS then Some(TextTooLong(|text|))
    else if !IsSha256Hex(nonce) then Some(InvalidNonce)
    else if !EndsWith(text, Footer(nonce)) || MatchCount(text, NONCE_FOOTER_PREFIX, 0) != 1 then
      Some(NonceFooterMismatch)
    else None
  }

  function InsertString(sorted: seq<string>, s: string): seq<string> {
    if sorted == [] || LexLess(s, sorted[0]) then [s] + sorted else [sorted[0]] + InsertString(sorted[1..], s)
  }

  function SortStrings(ss: seq<string>): seq<string> {
    if ss == [] then [] else InsertString(SortStrings(ss[..|ss| - 1]), ss[|ss| - 1])
  }

  datatype Checked = Checked(seen: set<MentionTarget>, roles: seq<string>, users: seq<string>)

  function Check(c: Checked, configured: set<MentionTarget>, target: MentionTarget): Result<Checked, RequestError> {
    if !IsDiscordId(target.id) then Failure(InvalidMention)
    else if target !in configured then Failure(UnlistedMention)
    else if target in c.seen then Failure(DuplicateMention)
    else if target.kind.Role? then Success(Checked(c.seen + {target}, c.roles + [target.id], c.users))
    else Success(Checked(c.seen + {target}, c.roles, c.users + [target.id]))
  }

  function CheckTargets(allowed: seq<Mention>, configured: set<MentionTarget>, k: nat,
                        c: Checked): Result<Checked, RequestError>
    decreases |allowed| - k
  {
    if k >= |allowed| then Success(c)
    else
      match Check(c, configured, allowed[k].target)
      case Failure(e) => Failure(e)
      case Success(next) => CheckTargets(allowed, configured, k + 1, next)
  }

  predicate AllSeen(mentions: seq<Mention>, seen: set<MentionTarget>) {
    forall i :: 0 <= i < |mentions| ==> mentions[i].target in seen
  }

  function TargetSet(ms: seq<Mention>): set<MentionTarget> {
    if ms == [] then {} else TargetSet(ms[..|ms| - 1]) + {ms[|ms| - 1].target}
  }

  function MentionsPayload(entries: seq<Mention>, allowed: seq<Mention>, mentions: seq<Mention>):
      Result<AllowedPayload, RequestError>
  {
    if |TargetSet(entries)| != |entries| then Failure(DuplicateMention)
    else
      match CheckTargets(allowed, TargetSet(entries), 0, Checked({}, [], []))
      case Failure(e) => Failure(e)
      case Success(c) =>
        if !AllSeen(mentions, c.seen) then Failure(UnlistedMention)
        else Success(AllowedPayload(SortStrings(c.roles), SortStrings(c.users)))
  }

  method ValidateMentions(entries: seq<Mention>, allowed: seq<Mention>, mentions: seq<Mention>)
      returns (r: Result<AllowedPayload, RequestError>)
    ensures r == MentionsPayload(entries, allowed, mentions)
  {
    var configured := TargetSet(entries);
    if |configured| != |entries| { return Failure(DuplicateMention); }
    var c := Checked({}, [], []);
    for k := 0 to |allowed|
      invariant CheckTargets(allowed, configured, k, c) == CheckTargets(allowed, configured, 0, Checked({}, [], []))
    {
      var next := Check(c, configured, allowed[k].target);
      if next.Failure? { return Failure(next.error); }
      c := next.value;
    }
    for i := 0 to |mentions|
      invariant AllSeen(mentions[..i], c.seen)
    {
      if mentions[i].target !in c.seen { return Failure(UnlistedMention); }
    }
    assert mentions[..|mentions|] == mentions;
    r := Success(AllowedPayload(SortStrings(c.roles), SortStrings(c.users)));
  }

  function FromRendered(m: RenderedMessage): Result<CreateMessageRequest, RequestError> {
    var d := m.revision.destination;
    if !IsBoundedIdentifier(d.alias) || !IsDiscordId(d.channelId) then Failure(RawChannelId)
    else if ValidateText(m.exactText, m.nonce).Some? then Failure(ValidateText(m.exactText, m.nonce).value)
    else
      match MentionsPayload(d.allowedMentions, m.allowedMentions, m.mentions)
      case Failure(e) => Failure(e)
      case Success(payload) =>
        var reply := m.revision.reply;
        if reply.Some?
          && (reply.value.repositoryId != m.revision.repositoryId || reply.value.workspaceId != d.workspaceId
                           || reply.value.channelId != d.channelId)
        then Failure(ReplyMismatch)
        else Success(CreateMessageRequest(d.channelId, m.exactText, m.nonce, payload, reply))
  }
}
