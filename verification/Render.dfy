/** Rendering of one draft revision: normalised body, expanded mentions, delivery-nonce footer. Texts are in Unicode
    NFC. */
module Render {
  import opened Wrappers
  import opened Text
  import opened Mentions
  import opened Normalize

  const MAX_MESSAGE_CHARACTERS := 2_000
  const NONCE_MARKER := "-- repo-com delivery-nonce:"
  const NONCE_FOOTER_PREFIX := "\n\n" + NONCE_MARKER + " "
  const LEGACY_NONCE_MARKER := "-- delivery-nonce"
  const SPACED_NONCE_MARKER := "repo-com delivery nonce:"

  datatype ReplyReference = ReplyReference(repositoryId: string, workspaceId: string, channelId: string,
                                           messageId: string)

  datatype Destination = Destination(alias: string, workspaceId: string, channelId: string,
                                     allowedMentions: seq<Mention>)

  datatype Revision = Revision(
    repositoryId: string, number: nat, contentHash: string, destinationAlias: string, destination: Destination,
    body: string, reply: Option<ReplyReference>, expiresAt: nat)

  datatype RenderError =
    | RevisionExpired(revision: nat)
    | InvalidContentHash
    | InvalidDestination
    | ReplyReferenceMismatch
    | EmptyBody
    | NonceAlreadyRendered
    | MessageTooLong(length: nat)
    | MentionFailed(error: MentionError)
    | InvalidMentionDestination

  datatype RenderedMessage = RenderedMessage(
    revision: Revision, normalizedBody: string, exactText: string, nonce: string,
    mentions: seq<Mention>, allowedMentions: seq<Mention>)

  predicate IsSha256Hex(s: string) {
    |s| == 64 && forall i :: 0 <= i < |s| ==> IsDigit(s[i]) || 'a' <= s[i] <= 'f'
  }

  function Footer(nonce: string): string { NONCE_FOOTER_PREFIX + nonce }

  predicate ContainsNonceMarker(text: string) {
    Contains(text, NONCE_MARKER) || Contains(text, LEGACY_NONCE_MARKER) || Contains(text, SPACED_NONCE_MARKER)
  }

  function ValidateRevision(revision: Revision): Option<RenderError> {
    var d := revision.destination;
    if !IsSha256Hex(revision.contentHash) then Some(InvalidContentHash)
    else if d.alias != revision.destinationAlias || !IsDiscordId(d.workspaceId) || !IsDiscordId(d.channelId)
    then Some(InvalidDestination)
    else if revision.reply.Some?
            && (revision.reply.value.repositoryId != revision.repositoryId
                || revision.reply.value.workspaceId != d.workspaceId || revision.reply.value.channelId != d.channelId)
    then Some(ReplyReferenceMismatch)
    else None
  }

  /** Resolution against a destination, which is checked first. */
  function ResolveIn(t: string, d: Destination, bot: Option<string>,
                     wide: char -> bool): Result<Resolution, RenderError> {
    if !IsValidAlias(d.alias) || !IsDiscordId(d.workspaceId) || !IsDiscordId(d.channelId)
    then Failure(InvalidMentionDestination)
    else
      match Resolve(t, d.allowedMentions, bot, wide)
      case Success(r) => Success(r)
      case Failure(e) => Failure(MentionFailed(e))
  }

  function RenderRevision(revision: Revision, now: nat, bot: Option<string>, wide: char -> bool):
      Result<RenderedMessage, RenderError>
  {
    if now >= revision.expiresAt then Failure(RevisionExpired(revision.number))
    else if ValidateRevision(revision).Some? then Failure(ValidateRevision(revision).value)
    else
      match NormalizeText(revision.body)
      case Failure(_) => Failure(EmptyBody)
      case Success(body) =>
        if ContainsNonceMarker(body) then Failure(NonceAlreadyRendered)
        else
          match ResolveIn(body, revision.destination, bot, wide)
          case Failure(e) => Failure(e)
          case Success(r) =>
            var exactText := r.text + Footer(revision.contentHash);
            if |exactText| > MAX_MESSAGE_CHARACTERS then Failure(MessageTooLong(|exactText|))
            else Success(RenderedMessage(revision, body, exactText, revision.contentHash, r.occurrences, r.allowed))
  }

  /** The body a stored message was rendered from, as far as the footer tells. */
  function RawBodyFromRendered(text: string, contentHash: string): Option<string> {
    if !IsSha256Hex(contentHash) then None
    else
      var footer := Footer(contentHash);
      Some(if EndsWith(text, footer) then text[..|text| - |footer|] else text)
  }
}
