/** The names under which approvals, overrides and attempts are persisted, and that redaction keeps each of them. */
module MetadataNames {
  import opened Text
  import opened Redaction
  import opened MetadataFields

  lemma SchemaVersion(names: Names)
    requires Complete(names)
    ensures "schema_version" in names.open
  {
    var key := "schema_version";
    Open2("schema", "version", key, "schemaversion");
  }

  lemma Approval(names: Names)
    requires Complete(names)
    ensures "approval" in names.open
  {
    var key := "approval";
    Open1(key);
  }

  lemma ApprovalId(names: Names)
    requires Complete(names)
    ensures "approval_id" in names.text
  {
    var key := "approval_id";
    Identifier2("approval", "id", key, "approvalid");
  }

  lemma AuditEventId(names: Names)
    requires Complete(names)
    ensures "audit_event_id" in names.text
  {
    var key := "audit_event_id";
    NotSecretLetters("auditeventid");
    Identifier3("audit", "event", "id", key, "auditeventid");
  }

  lemma RepositoryId(names: Names)
    requires Complete(names)
    ensures "repository_id" in names.text
  {
    var key := "repository_id";
    Identifier2("repository", "id", key, "repositoryid");
  }

  lemma DraftId(names: Names)
    requires Complete(names)
    ensures "draft_id" in names.text
  {
    var key := "draft_id";
    Identifier2("draft", "id", key, "draftid");
  }

  lemma Revision(names: Names)
    requires Complete(names)
    ensures "revision" in names.open
  {
    var key := "revision";
    Open1(key);
  }

  lemma RevisionHash(names: Names)
    requires Complete(names)
    ensures "revision_hash" in names.text
  {
    var key := "revision_hash";
    Identifier2("revision", "hash", key, "revisionhash");
  }

  lemma ExactTextHash(names: Names)
    requires Complete(names)
    ensures "exact_text_hash" in names.text
  {
    var key := "exact_text_hash";
    NotSecretLetters("exacttexthash");
    Identifier3("exact", "text", "hash", key, "exacttexthash");
  }

  lemma MetadataHash(names: Names)
    requires Complete(names)
    ensures "metadata_hash" in names.text
  {
    var key := "metadata_hash";
    Identifier2("metadata", "hash", key, "metadatahash");
  }

  lemma ConfigHash(names: Names)
    requires Complete(names)
    ensures "config_hash" in names.text
  {
    var key := "config_hash";
    Identifier2("config", "hash", key, "confighash");
  }

  lemma DestinationHash(names: Names)
    requires Complete(names)
    ensures "destination_hash" in names.text
  {
    var key := "destination_hash";
    Identifier2("destination", "hash", key, "destinationhash");
  }

  lemma PolicyBasisHash(names: Names)
    requires Complete(names)
    ensures "policy_basis_hash" in names.text
  {
    var key := "policy_basis_hash";
    NotSecretLetters("policybasishash");
    Identifier3("policy", "basis", "hash", key, "policybasishash");
  }

  lemma ScanHash(names: Names)
    requires Complete(names)
    ensures "scan_hash" in names.text
  {
    var key := "scan_hash";
    Identifier2("scan", "hash", key, "scanhash");
  }

  lemma PreviewHash(names: Names)
    requires Complete(names)
    ensures "preview_hash" in names.text
  {
    var key := "preview_hash";
    Identifier2("preview", "hash", key, "previewhash");
  }

  lemma DraftExpiresAtUnixSeconds(names: Names)
    requires Complete(names)
    ensures "draft_expires_at_unix_seconds" in names.open
  {
    var key := "draft_expires_at_unix_seconds";
    var tail := "at_unix_seconds";
    assert key == "draft_expires" + "_" + tail;
    DraftExpiresSpelled("draft_expires", "draftexpires");
    DraftExpiresAt("draftexpires");
    TimeName("draft_expires", "draftexpires", key);
  }

  lemma DraftExpiresSpelled(words: string, letters: string)
    requires words == "draft_expires" && letters == "draftexpires"
    ensures Spells(words, letters)
  {
    Spell2("draft", "expires");
    assert words == "draft" + "_" + "expires" && letters == "draft" + "expires";
  }

  lemma DraftExpiresAt(spelled: string)
    requires spelled == "draftexpires"
    ensures NotContent(spelled + "at")
  {
    var letters := "draftexpiresat";
    assert spelled + "at" == letters;
    NotContentLetters(letters);
  }

  lemma ApprovedAtUnixSeconds(names: Names)
    requires Complete(names)
    ensures "approved_at_unix_seconds" in names.open
  {
    var key := "approved_at_unix_seconds";
    var tail := "at_unix_seconds";
    assert key == "approved" + "_" + tail;
    SpellWord("approved");
    ApprovedAt("approved");
    TimeName("approved", "approved", key);
  }

  lemma ApprovedAt(spelled: string)
    requires spelled == "approved"
    ensures NotContent(spelled + "at")
  {
    var letters := "approvedat";
    assert spelled + "at" == letters;
    NotContentLetters(letters);
  }

  lemma ExpiresAtUnixSeconds(names: Names)
    requires Complete(names)
    ensures "expires_at_unix_seconds" in names.open
  {
    var key := "expires_at_unix_seconds";
    var tail := "at_unix_seconds";
    assert key == "expires" + "_" + tail;
    SpellWord("expires");
    ExpiresAt("expires");
    TimeName("expires", "expires", key);
  }

  lemma ExpiresAt(spelled: string)
    requires spelled == "expires"
    ensures NotContent(spelled + "at")
  {
    var letters := "expiresat";
    assert spelled + "at" == letters;
    NotContentLetters(letters);
  }

  lemma OverrideHash(names: Names)
    requires Complete(names)
    ensures "override_hash" in names.text
  {
    var key := "override_hash";
    Identifier2("override", "hash", key, "overridehash");
  }

  lemma ActorKind(names: Names)
    requires Complete(names)
    ensures "actor_kind" in names.text
  {
    var key := "actor_kind";
    Safe2("actor", "kind", key, "actorkind");
  }

  lemma OverrideRecord(names: Names)
    requires Complete(names)
    ensures "override_record" in names.open
  {
    var key := "override_record";
    Open2("override", "record", key, "overriderecord");
  }

  lemma EventId(names: Names)
    requires Complete(names)
    ensures "event_id" in names.text
  {
    var key := "event_id";
    Identifier2("event", "id", key, "eventid");
  }

  lemma Reason(names: Names)
    requires Complete(names)
    ensures "reason" in names.text
  {
    var key := "reason";
    Safe1(key);
  }

  lemma CreatedAtUnixSeconds(names: Names)
    requires Complete(names)
    ensures "created_at_unix_seconds" in names.open
  {
    var key := "created_at_unix_seconds";
    var tail := "at_unix_seconds";
    assert key == "created" + "_" + tail;
    SpellWord("created");
    CreatedAt("created");
    TimeName("created", "created", key);
  }

  lemma CreatedAt(spelled: string)
    requires spelled == "created"
    ensures NotContent(spelled + "at")
  {
    var letters := "createdat";
    assert spelled + "at" == letters;
    NotContentLetters(letters);
  }

  lemma AttemptNumber(names: Names)
    requires Complete(names)
    ensures "attempt_number" in names.open
  {
    var key := "attempt_number";
    Open2("attempt", "number", key, "attemptnumber");
  }

  lemma NonceHash(names: Names)
    requires Complete(names)
    ensures "nonce_hash" in names.text
  {
    var key := "nonce_hash";
    Identifier2("nonce", "hash", key, "noncehash");
  }

  lemma ContentNonceHash(names: Names)
    requires Complete(names)
    ensures "content_nonce_hash" in names.text
  {
    var key := "content_nonce_hash";
    NotSecretLetters("contentnoncehash");
    Identifier3("content", "nonce", "hash", key, "contentnoncehash");
  }

  lemma UpdatedAt(names: Names)
    requires Complete(names)
    ensures "updated_at" in names.text
  {
    var key := "updated_at";
    Safe2("updated", "at", key, "updatedat");
  }

  lemma Code(names: Names)
    requires Complete(names)
    ensures "code" in names.text
  {
    var key := "code";
    Safe1(key);
  }

  lemma RemoteMessageId(names: Names)
    requires Complete(names)
    ensures "remote_message_id" in names.text
  {
    var key := "remote_message_id";
    NotSecretLetters("remotemessageid");
    Identifier3("remote", "message", "id", key, "remotemessageid");
  }

  lemma DestinationAlias(names: Names)
    requires Complete(names)
    ensures "destination_alias" in names.text
  {
    var key := "destination_alias";
    Safe2("destination", "alias", key, "destinationalias");
  }

  lemma ResolvedDestinationHash(names: Names)
    requires Complete(names)
    ensures "resolved_destination_hash" in names.text
  {
    var key := "resolved_destination_hash";
    ResolvedDestinationHashLetters("resolveddestinationhash");
    ResolvedDestinationHashParts(key, "resolveddestinationhash");
    Identifier3("resolved", "destination", "hash", key, "resolveddestinationhash");
  }

  lemma ResolvedDestinationHashParts(key: string, letters: string)
    requires key == "resolved_destination_hash" && letters == "resolveddestinationhash"
    ensures key == "resolved" + "_" + "destination" + "_" + "hash"
    ensures letters == "resolved" + "destination" + "hash"
  {
  }

  lemma ResolvedDestinationHashLetters(letters: string)
    requires letters == "resolveddestinationhash"
    ensures NotSecret(letters)
  {
    NotSecretLetters("resolvedde");
    NotSecretLetters("destinationhash");
    assert "resolved" + "de" == "resolvedde" && "de" + "stinationhash" == "destinationhash";
    SeamIsNotSecret("resolved", "de", "stinationhash", letters);
  }

  lemma ApprovalPreviewHash(names: Names)
    requires Complete(names)
    ensures "approval_preview_hash" in names.text
  {
    var key := "approval_preview_hash";
    ApprovalPreviewHashLetters("approvalpreviewhash");
    ApprovalPreviewHashParts(key, "approvalpreviewhash");
    Identifier3("approval", "preview", "hash", key, "approvalpreviewhash");
  }

  lemma ApprovalPreviewHashParts(key: string, letters: string)
    requires key == "approval_preview_hash" && letters == "approvalpreviewhash"
    ensures key == "approval" + "_" + "preview" + "_" + "hash"
    ensures letters == "approval" + "preview" + "hash"
  {
  }

  lemma ApprovalPreviewHashLetters(letters: string)
    requires letters == "approvalpreviewhash"
    ensures NotSecret(letters)
  {
    NotSecretLetters("approvalpr");
    NotSecretLetters("previewhash");
    assert "approval" + "pr" == "approvalpr" && "pr" + "eviewhash" == "previewhash";
    SeamIsNotSecret("approval", "pr", "eviewhash", letters);
  }

  lemma Kind(names: Names)
    requires Complete(names)
    ensures "kind" in names.text
  {
    var key := "kind";
    Safe1(key);
  }

  lemma AuthorityId(names: Names)
    requires Complete(names)
    ensures "authority_id" in names.text
  {
    var key := "authority_id";
    Identifier2("authority", "id", key, "authorityid");
  }

  lemma AuthorityHash(names: Names)
    requires Complete(names)
    ensures "authority_hash" in names.text
  {
    var key := "authority_hash";
    Identifier2("authority", "hash", key, "authorityhash");
  }

  lemma AuthorityExpiry(names: Names)
    requires Complete(names)
    ensures "authority_expiry" in names.open
  {
    var key := "authority_expiry";
    Open2("authority", "expiry", key, "authorityexpiry");
  }

  lemma AuthorityConfigHash(names: Names)
    requires Complete(names)
    ensures "authority_config_hash" in names.text
  {
    var key := "authority_config_hash";
    AuthorityConfigHashLetters("authorityconfighash");
    AuthorityConfigHashParts(key, "authorityconfighash");
    Identifier3("authority", "config", "hash", key, "authorityconfighash");
  }

  lemma AuthorityConfigHashParts(key: string, letters: string)
    requires key == "authority_config_hash" && letters == "authorityconfighash"
    ensures key == "authority" + "_" + "config" + "_" + "hash"
    ensures letters == "authority" + "config" + "hash"
  {
  }

  lemma AuthorityConfigHashLetters(letters: string)
    requires letters == "authorityconfighash"
    ensures NotSecret(letters)
  {
    NotSecretLetters("authorityco");
    NotSecretLetters("confighash");
    assert "authority" + "co" == "authorityco" && "co" + "nfighash" == "confighash";
    SeamIsNotSecret("authority", "co", "nfighash", letters);
  }

  lemma AuthorityTupleHash(names: Names)
    requires Complete(names)
    ensures "authority_tuple_hash" in names.text
  {
    var key := "authority_tuple_hash";
    NotSecretLetters("authoritytuplehash");
    Identifier3("authority", "tuple", "hash", key, "authoritytuplehash");
  }
}
