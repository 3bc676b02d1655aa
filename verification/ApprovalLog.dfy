/** Approvals and overrides on their way through the audit log: persisted as objects with named fields, redacted, and
    read back by two crates with a structure each. */
module ApprovalLog {
  import opened Wrappers
  import opened Text
  import opened Approval
  import opened ApprovalSafety
  import opened Redaction
  import opened MetadataFields
  import Spelled = MetadataNames

  // ---------- what is written ----------

  function ActorText(actor: Actor): string { if actor.Operator? then "operator" else actor.name }

  function ApprovalPairs(r: ApprovalRecord): seq<(string, Json)> {
    [("schema_version", Json.Number(r.schemaVersion)),
     ("approval_id", Str(r.approvalId)),
     ("audit_event_id", Str(r.auditEventId)),
     ("repository_id", Str(r.repositoryId)),
     ("draft_id", Str(r.draftId)),
     ("revision", Json.Number(r.revision)),
     ("revision_hash", Str(r.revisionHash)),
     ("exact_text_hash", Str(r.exactTextHash)),
     ("metadata_hash", Str(r.metadataHash)),
     ("config_hash", Str(r.configHash)),
     ("destination_hash", Str(r.destinationHash)),
     ("policy_basis_hash", Str(r.policyBasisHash)),
     ("scan_hash", Str(r.scanHash)),
     ("preview_hash", Str(r.previewHash)),
     ("draft_expires_at_unix_seconds", Json.Number(r.draftExpiresAt)),
     ("approved_at_unix_seconds", Json.Number(r.approvedAt)),
     ("expires_at_unix_seconds", Json.Number(r.expiresAt)),
     ("override_hash", Optional(r.overrideHash)),
     ("actor_kind", Str(ActorText(r.actor)))]
  }

  function ApprovalEnvelope(r: ApprovalRecord): seq<(string, Json)> {
    [("schema_version", Json.Number(SCHEMA_VERSION)), ("approval", Object(ObjectOf(ApprovalPairs(r))))]
  }

  /** The row handed to the audit crate for an approval. */
  function ApprovalRowOf(r: ApprovalRecord): Event {
    Event(r.repositoryId, r.auditEventId, "draft", r.draftId, "approved", r.approvedAtUtc, "operator", "approved",
          Object(ObjectOf(ApprovalEnvelope(r))))
  }

  // ---------- what is read ----------

  /** The approval crate's structure: nineteen fields. */
  function ReadApproval(f: Fields): Option<ApprovalRecord> {
    var schema, revision := ReadNumber(f, "schema_version"), ReadNumber(f, "revision");
    var approvalId, eventId := ReadText(f, "approval_id"), ReadText(f, "audit_event_id");
    var repository, draft := ReadText(f, "repository_id"), ReadText(f, "draft_id");
    var revisionHash, exactText := ReadText(f, "revision_hash"), ReadText(f, "exact_text_hash");
    var metadata, config := ReadText(f, "metadata_hash"), ReadText(f, "config_hash");
    var destination, basis := ReadText(f, "destination_hash"), ReadText(f, "policy_basis_hash");
    var scan, preview := ReadText(f, "scan_hash"), ReadText(f, "preview_hash");
    var draftExpires := ReadNumber(f, "draft_expires_at_unix_seconds");
    var approved, expires := ReadNumber(f, "approved_at_unix_seconds"), ReadNumber(f, "expires_at_unix_seconds");
    var overriding, actor := ReadOptional(f, "override_hash"), ReadText(f, "actor_kind");
    if schema.None? || revision.None? || approvalId.None? || eventId.None? || repository.None? || draft.None? then None
    else if revisionHash.None? || exactText.None? || metadata.None? || config.None? || destination.None? then None
    else if basis.None? || scan.None? || preview.None? || draftExpires.None? || approved.None? || expires.None? then
      None
    else if overriding.None? || actor.None? then None
    else
      Some(ApprovalRecord(
        schema.value, approvalId.value, eventId.value, repository.value, draft.value, revision.value,
        revisionHash.value, exactText.value, metadata.value, config.value, destination.value, basis.value, scan.value,
        preview.value, draftExpires.value, approved.value, "", expires.value, overriding.value,
        if actor.value == "operator" then Operator else OtherActor(actor.value)))
  }

  /** The delivery crate's structure: the same without the actor, for which it puts the operator. */
  function ReadForDelivery(f: Fields): Option<ApprovalRecord> {
    var schema, revision := ReadNumber(f, "schema_version"), ReadNumber(f, "revision");
    var approvalId, eventId := ReadText(f, "approval_id"), ReadText(f, "audit_event_id");
    var repository, draft := ReadText(f, "repository_id"), ReadText(f, "draft_id");
    var revisionHash, exactText := ReadText(f, "revision_hash"), ReadText(f, "exact_text_hash");
    var metadata, config := ReadText(f, "metadata_hash"), ReadText(f, "config_hash");
    var destination, basis := ReadText(f, "destination_hash"), ReadText(f, "policy_basis_hash");
    var scan, preview := ReadText(f, "scan_hash"), ReadText(f, "preview_hash");
    var draftExpires := ReadNumber(f, "draft_expires_at_unix_seconds");
    var approved, expires := ReadNumber(f, "approved_at_unix_seconds"), ReadNumber(f, "expires_at_unix_seconds");
    var overriding := ReadOptional(f, "override_hash");
    if schema.None? || revision.None? || approvalId.None? || eventId.None? || repository.None? || draft.None? then None
    else if revisionHash.None? || exactText.None? || metadata.None? || config.None? || destination.None? then None
    else if basis.None? || scan.None? || preview.None? || draftExpires.None? || approved.None? || expires.None? then
      None
    else if overriding.None? then None
    else
      Some(ApprovalRecord(
        schema.value, approvalId.value, eventId.value, repository.value, draft.value, revision.value,
        revisionHash.value, exactText.value, metadata.value, config.value, destination.value, basis.value, scan.value,
        preview.value, draftExpires.value, approved.value, "", expires.value, overriding.value, Operator))
  }

  /** The fields of an object under a name. */
  function ReadObject(f: Fields, key: string): Option<Fields> {
    match Lookup(f, key)
    case Some(Object(fields)) => Some(fields)
    case _ => None
  }

  /** Schema version and inner fields of an envelope. */
  function ReadEnvelope(metadata: Json, key: string): Option<(nat, Fields)> {
    if !metadata.Object? then None
    else
      var schema, inner := ReadNumber(metadata.fields, "schema_version"), ReadObject(metadata.fields, key);
      if schema.None? || inner.None? then None else Some((schema.value, inner.value))
  }

  /** The approval crate's decoder of a stored row. */
  function DecodeRow(row: Event): Option<ApprovalRecord> {
    if row.transition != "approved" || row.actorKind != "operator" || row.outcome != "approved" then None
    else
      var envelope := ReadEnvelope(row.metadata, "approval");
      if envelope.None? || ReadApproval(envelope.value.1).None? then None
      else
        var r := ReadApproval(envelope.value.1).value;
        if envelope.value.0 != SCHEMA_VERSION || r.schemaVersion != SCHEMA_VERSION
           || r.repositoryId != row.repositoryId || r.draftId != row.objectId || r.auditEventId != row.eventId
           || ActorText(r.actor) != row.actorKind || r.approvalId != ApprovalId(r.previewHash)
           || r.auditEventId != ApprovalEventId(r.previewHash)
        then None
        else Some(r.(approvedAtUtc := row.occurredAt))
  }

  /** The delivery crate's decoder of the same row. */
  function DecodeRowForDelivery(row: Event): Option<ApprovalRecord> {
    var envelope := ReadEnvelope(row.metadata, "approval");
    if envelope.None? || ReadForDelivery(envelope.value.1).None? then None
    else
      var r := ReadForDelivery(envelope.value.1).value;
      if envelope.value.0 != 1 || r.schemaVersion != 1 || r.auditEventId != row.eventId then None
      else Some(r.(approvedAtUtc := row.occurredAt))
  }

  lemma StructuresAgree(f: Fields)
    requires ReadApproval(f).Some?
    ensures ReadForDelivery(f) == Some(ReadApproval(f).value.(actor := Operator))
  {
  }

  /** Whatever row the approval crate can decode, the delivery crate decodes to the same record, its fewer fields and
      checks notwithstanding. */
  lemma RowDecodersAgree(row: Event)
    requires DecodeRow(row).Some?
    ensures DecodeRowForDelivery(row) == DecodeRow(row)
  {
    StructuresAgree(ReadEnvelope(row.metadata, "approval").value.1);
  }

  // ---------- the way through the log ----------

  /** A record as `approve` makes it: fixed ids, and hashes where hashes belong. */
  predicate Regular(r: ApprovalRecord) {
    && r.schemaVersion == SCHEMA_VERSION && r.actor == Operator
    && r.approvalId == ApprovalId(r.previewHash) && r.auditEventId == ApprovalEventId(r.previewHash)
    && IsHash(r.revisionHash) && IsHash(r.exactTextHash) && IsHash(r.metadataHash) && IsHash(r.configHash)
    && IsHash(r.destinationHash) && IsHash(r.policyBasisHash) && IsHash(r.scanHash) && IsHash(r.previewHash)
    && (r.overrideHash.Some? ==> IsHash(r.overrideHash.value))
  }

  lemma ApprovalNamesDiffer(r: ApprovalRecord)
    ensures DistinctNames(ApprovalPairs(r)) && DistinctNames(ApprovalEnvelope(r))
  {
  }

  predicate HasIds(f: Fields, r: ApprovalRecord) {
    && ReadNumber(f, "schema_version") == Some(r.schemaVersion)
    && ReadText(f, "approval_id") == Some(r.approvalId)
    && ReadText(f, "audit_event_id") == Some(r.auditEventId)
    && ReadText(f, "repository_id") == Some(r.repositoryId)
  }

  lemma IdsRead(f: Fields, r: ApprovalRecord)
    requires HasFields(f, ApprovalPairs(r))
    ensures HasIds(f, r)
  {
    var pairs := ApprovalPairs(r);
    FieldIs(f, pairs, 0, "schema_version", Json.Number(r.schemaVersion));
    FieldIs(f, pairs, 1, "approval_id", Str(r.approvalId));
    FieldIs(f, pairs, 2, "audit_event_id", Str(r.auditEventId));
    FieldIs(f, pairs, 3, "repository_id", Str(r.repositoryId));
  }

  predicate HasRevision(f: Fields, r: ApprovalRecord) {
    && ReadText(f, "draft_id") == Some(r.draftId)
    && ReadNumber(f, "revision") == Some(r.revision)
    && ReadText(f, "revision_hash") == Some(r.revisionHash)
    && ReadText(f, "exact_text_hash") == Some(r.exactTextHash)
  }

  lemma RevisionRead(f: Fields, r: ApprovalRecord)
    requires HasFields(f, ApprovalPairs(r))
    ensures HasRevision(f, r)
  {
    var pairs := ApprovalPairs(r);
    FieldIs(f, pairs, 4, "draft_id", Str(r.draftId));
    FieldIs(f, pairs, 5, "revision", Json.Number(r.revision));
    FieldIs(f, pairs, 6, "revision_hash", Str(r.revisionHash));
    FieldIs(f, pairs, 7, "exact_text_hash", Str(r.exactTextHash));
  }

  predicate HasHashes(f: Fields, r: ApprovalRecord) {
    && ReadText(f, "metadata_hash") == Some(r.metadataHash)
    && ReadText(f, "config_hash") == Some(r.configHash)
    && ReadText(f, "destination_hash") == Some(r.destinationHash)
    && ReadText(f, "policy_basis_hash") == Some(r.policyBasisHash)
  }

  lemma HashesRead(f: Fields, r: ApprovalRecord)
    requires HasFields(f, ApprovalPairs(r))
    ensures HasHashes(f, r)
  {
    var pairs := ApprovalPairs(r);
    FieldIs(f, pairs, 8, "metadata_hash", Str(r.metadataHash));
    FieldIs(f, pairs, 9, "config_hash", Str(r.configHash));
    FieldIs(f, pairs, 10, "destination_hash", Str(r.destinationHash));
    FieldIs(f, pairs, 11, "policy_basis_hash", Str(r.policyBasisHash));
  }

  predicate HasPreview(f: Fields, r: ApprovalRecord) {
    && ReadText(f, "scan_hash") == Some(r.scanHash)
    && ReadText(f, "preview_hash") == Some(r.previewHash)
    && ReadNumber(f, "draft_expires_at_unix_seconds") == Some(r.draftExpiresAt)
    && ReadNumber(f, "approved_at_unix_seconds") == Some(r.approvedAt)
  }

  lemma PreviewRead(f: Fields, r: ApprovalRecord)
    requires HasFields(f, ApprovalPairs(r))
    ensures HasPreview(f, r)
  {
    var pairs := ApprovalPairs(r);
    FieldIs(f, pairs, 12, "scan_hash", Str(r.scanHash));
    FieldIs(f, pairs, 13, "preview_hash", Str(r.previewHash));
    FieldIs(f, pairs, 14, "draft_expires_at_unix_seconds", Json.Number(r.draftExpiresAt));
    FieldIs(f, pairs, 15, "approved_at_unix_seconds", Json.Number(r.approvedAt));
  }

  predicate HasLast(f: Fields, r: ApprovalRecord) {
    && ReadNumber(f, "expires_at_unix_seconds") == Some(r.expiresAt)
    && ReadOptional(f, "override_hash") == Some(r.overrideHash)
    && ReadText(f, "actor_kind") == Some(ActorText(r.actor))
  }

  lemma LastRead(f: Fields, r: ApprovalRecord)
    requires HasFields(f, ApprovalPairs(r))
    ensures HasLast(f, r)
  {
    var pairs := ApprovalPairs(r);
    FieldIs(f, pairs, 16, "expires_at_unix_seconds", Json.Number(r.expiresAt));
    FieldIs(f, pairs, 17, "override_hash", Optional(r.overrideHash));
    FieldIs(f, pairs, 18, "actor_kind", Str(ActorText(r.actor)));
  }

  lemma ReadsBack(f: Fields, r: ApprovalRecord)
    requires HasFields(f, ApprovalPairs(r)) && r.actor == Operator
    ensures ReadApproval(f) == Some(r.(approvedAtUtc := ""))
  {
    IdsRead(f, r);
    RevisionRead(f, r);
    HashesRead(f, r);
    PreviewRead(f, r);
    LastRead(f, r);
  }

  /** Redaction leaves every text of the record alone. */
  predicate TextsKept(r: ApprovalRecord, tests: Tests) {
    && RedactText(r.approvalId, tests) == r.approvalId
    && RedactText(r.auditEventId, tests) == r.auditEventId
    && RedactText(r.repositoryId, tests) == r.repositoryId
    && RedactText(r.draftId, tests) == r.draftId
    && RedactText(r.revisionHash, tests) == r.revisionHash
    && RedactText(r.exactTextHash, tests) == r.exactTextHash
    && RedactText(r.metadataHash, tests) == r.metadataHash
    && RedactText(r.configHash, tests) == r.configHash
    && RedactText(r.destinationHash, tests) == r.destinationHash
    && RedactText(r.policyBasisHash, tests) == r.policyBasisHash
    && RedactText(r.scanHash, tests) == r.scanHash
    && RedactText(r.previewHash, tests) == r.previewHash
    && (r.overrideHash.Some? ==> RedactText(r.overrideHash.value, tests) == r.overrideHash.value)
    && RedactText(ActorText(r.actor), tests) == ActorText(r.actor)
  }

  lemma IdsNamed(r: ApprovalRecord, names: Names)
    requires Complete(names)
    ensures forall i :: 0 <= i < 4 ==> WellNamed(ApprovalPairs(r)[i], names)
  {
    Spelled.SchemaVersion(names);
    Spelled.ApprovalId(names);
    Spelled.AuditEventId(names);
    Spelled.RepositoryId(names);
  }

  lemma RevisionNamed(r: ApprovalRecord, names: Names)
    requires Complete(names)
    ensures forall i :: 4 <= i < 8 ==> WellNamed(ApprovalPairs(r)[i], names)
  {
    Spelled.DraftId(names);
    Spelled.Revision(names);
    Spelled.RevisionHash(names);
    Spelled.ExactTextHash(names);
  }

  lemma HashesNamed(r: ApprovalRecord, names: Names)
    requires Complete(names)
    ensures forall i :: 8 <= i < 12 ==> WellNamed(ApprovalPairs(r)[i], names)
  {
    Spelled.MetadataHash(names);
    Spelled.ConfigHash(names);
    Spelled.DestinationHash(names);
    Spelled.PolicyBasisHash(names);
  }

  lemma PreviewNamed(r: ApprovalRecord, names: Names)
    requires Complete(names)
    ensures forall i :: 12 <= i < 16 ==> WellNamed(ApprovalPairs(r)[i], names)
  {
    Spelled.ScanHash(names);
    Spelled.PreviewHash(names);
    Spelled.DraftExpiresAtUnixSeconds(names);
    Spelled.ApprovedAtUnixSeconds(names);
  }

  lemma LastNamed(r: ApprovalRecord, names: Names)
    requires Complete(names)
    ensures forall i :: 16 <= i < 19 ==> WellNamed(ApprovalPairs(r)[i], names)
  {
    Spelled.ExpiresAtUnixSeconds(names);
    Spelled.OverrideHash(names);
    Spelled.ActorKind(names);
  }

  lemma AllNamed(r: ApprovalRecord, names: Names)
    requires Complete(names)
    ensures forall i :: 0 <= i < |ApprovalPairs(r)| ==> WellNamed(ApprovalPairs(r)[i], names)
  {
    IdsNamed(r, names);
    RevisionNamed(r, names);
    HashesNamed(r, names);
    PreviewNamed(r, names);
    LastNamed(r, names);
  }

  lemma FirstKept(r: ApprovalRecord, tests: Tests)
    requires TextsKept(r, tests)
    ensures forall i :: 0 <= i < 10 ==> KeptValue(ApprovalPairs(r)[i].1, tests)
  {
  }

  lemma LastKept(r: ApprovalRecord, tests: Tests)
    requires TextsKept(r, tests)
    ensures forall i :: 10 <= i < 19 ==> KeptValue(ApprovalPairs(r)[i].1, tests)
  {
  }

  lemma ApprovalKept(r: ApprovalRecord, names: Names, tests: Tests)
    requires names == NamesKept(tests) && Complete(names) && TextsKept(r, tests)
    ensures KeptPairs(ApprovalPairs(r), tests)
  {
    AllNamed(r, names);
    FirstKept(r, tests);
    LastKept(r, tests);
    WellNamedIsKept(ApprovalPairs(r), names, tests);
  }

  lemma EnvelopeNamed(r: ApprovalRecord, names: Names)
    requires Complete(names)
    ensures forall i :: 0 <= i < 2 ==> WellNamed(ApprovalEnvelope(r)[i], names)
  {
    Spelled.SchemaVersion(names);
    Spelled.Approval(names);
  }

  /** Redaction leaves the whole object alone. */
  lemma EnvelopeKept(r: ApprovalRecord, tests: Tests)
    requires Complete(NamesKept(tests)) && TextsKept(r, tests)
    ensures var v := Object(ObjectOf(ApprovalEnvelope(r))); RedactMetadata(v, tests) == v
  {
    ApprovalKept(r, NamesKept(tests), tests);
    KeptObject(ApprovalPairs(r), tests);
    EnvelopeNamed(r, NamesKept(tests));
    WellNamedIsKept(ApprovalEnvelope(r), NamesKept(tests), tests);
    KeptObject(ApprovalEnvelope(r), tests);
  }

  lemma RegularTexts(r: ApprovalRecord, tests: Tests)
    requires Regular(r) && KeepsCalm(tests)
    requires RedactText(r.repositoryId, tests) == r.repositoryId && RedactText(r.draftId, tests) == r.draftId
    ensures TextsKept(r, tests)
  {
    PrefixedIsCalm("approval-", r.previewHash);
    PrefixedIsCalm("approval-recorded-", r.previewHash);
    HashIsCalm(r.revisionHash);
    HashIsCalm(r.exactTextHash);
    HashIsCalm(r.metadataHash);
    HashIsCalm(r.configHash);
    HashIsCalm(r.destinationHash);
    HashIsCalm(r.policyBasisHash);
    HashIsCalm(r.scanHash);
    HashIsCalm(r.previewHash);
    if r.overrideHash.Some? { HashIsCalm(r.overrideHash.value); }
    assert Calm("operator");
  }

  /** The row that the audit crate stores for an event. */
  function Logged(e: Event, tests: Tests): Result<Event, EventError> { ToStateInput(WithMetadata(e, tests), tests) }

  /** An event whose metadata redaction leaves alone is stored as it is. */
  lemma KeptIsStored(e: Event, tests: Tests)
    requires tests == TheTests() && Logged(e, tests).Success?
    requires e.metadata.Object? && RedactMetadata(e.metadata, tests) == e.metadata
    ensures Logged(e, tests) == Success(e)
  {
    StoredIsRead(e, tests);
  }

  /** What the audit crate accepts has safe ids. */
  lemma LoggedIsSafe(e: Event, tests: Tests)
    requires Logged(e, tests).Success?
    ensures RedactText(e.repositoryId, tests) == e.repositoryId && RedactText(e.objectId, tests) == e.objectId
  {
  }

  lemma ReadsEnvelope(r: ApprovalRecord)
    ensures ReadEnvelope(Object(ObjectOf(ApprovalEnvelope(r))), "approval")
      == Some((SCHEMA_VERSION, ObjectOf(ApprovalPairs(r))))
  {
    var pairs := ApprovalEnvelope(r);
    ApprovalNamesDiffer(r);
    BuiltHasFields(pairs);
    FieldIs(ObjectOf(pairs), pairs, 0, "schema_version", Json.Number(SCHEMA_VERSION));
    FieldIs(ObjectOf(pairs), pairs, 1, "approval", Object(ObjectOf(ApprovalPairs(r))));
  }

  lemma RowDecodes(r: ApprovalRecord)
    requires Regular(r)
    ensures DecodeRow(ApprovalRowOf(r)) == Some(r)
  {
    ReadsEnvelope(r);
    ApprovalNamesDiffer(r);
    BuiltHasFields(ApprovalPairs(r));
    ReadsBack(ObjectOf(ApprovalPairs(r)), r);
  }

  /** Every record made of hashes that the audit crate accepts is stored, after its three redaction passes, exactly as
      it was written, and both crates rebuild it from the stored fields. */
  lemma ApprovalSurvives(r: ApprovalRecord, tests: Tests)
    requires tests == TheTests() && Regular(r) && Logged(ApprovalRowOf(r), tests).Success?
    ensures Logged(ApprovalRowOf(r), tests) == Success(ApprovalRowOf(r))
    ensures DecodeRow(ApprovalRowOf(r)) == Some(r) && DecodeRowForDelivery(ApprovalRowOf(r)) == Some(r)
  {
    LoggedIsSafe(ApprovalRowOf(r), tests);
    TestsKeepCalm(tests);
    RegularTexts(r, tests);
    TestsKeepNames(tests);
    EnvelopeKept(r, tests);
    KeptIsStored(ApprovalRowOf(r), tests);
    RowDecodes(r);
    RowDecodersAgree(ApprovalRowOf(r));
  }

  /** The records of `approve` are of this kind, and the decoders of events agree with those of rows on them. */
  lemma ApprovedIsRegular(core: Core, hash: string, now: Instant, overrideHash: Option<string>)
    requires IsHash(core.revisionHash) && IsHash(core.exactTextHash) && IsHash(core.metadataHash)
             && IsHash(core.configHash)
    requires IsHash(core.destinationHash) && IsHash(core.policyBasisHash) && IsHash(core.scanHash) && IsHash(hash)
    requires overrideHash.Some? ==> IsHash(overrideHash.value)
    ensures var r := RecordFor(core, hash, now, overrideHash);
      && Regular(r) && DecodeRow(ApprovalRowOf(r)) == DecodeApproval(ApprovalEvent(r))
      && DecodeRowForDelivery(ApprovalRowOf(r)) == DecodeForDelivery(ApprovalEvent(r))
  {
    var r := RecordFor(core, hash, now, overrideHash);
    RecordSurvives(core, hash, now, overrideHash);
    RowDecodes(r);
    RowDecodersAgree(ApprovalRowOf(r));
  }

  // ---------- overrides ----------

  function ReasonText(reason: Reason): string { "reviewed-false-positive" }

  function OverridePairs(r: OverrideRecord): seq<(string, Json)> {
    [("schema_version", Json.Number(r.schemaVersion)),
     ("event_id", Str(r.eventId)),
     ("repository_id", Str(r.repositoryId)),
     ("draft_id", Str(r.draftId)),
     ("revision", Json.Number(r.revision)),
     ("revision_hash", Str(r.revisionHash)),
     ("scan_hash", Str(r.scanHash)),
     ("preview_hash", Str(r.previewHash)),
     ("reason", Str(ReasonText(r.reason))),
     ("created_at_unix_seconds", Json.Number(r.createdAt))]
  }

  function OverrideEnvelope(r: OverrideRecord): seq<(string, Json)> {
    [("schema_version", Json.Number(SCHEMA_VERSION)), ("override_record", Object(ObjectOf(OverridePairs(r))))]
  }

  function OverrideRowOf(r: OverrideRecord): Event {
    Event(r.repositoryId, r.eventId, "draft", r.draftId, "secret_finding_overridden", r.createdAtUtc, "operator",
          "overridden", Object(ObjectOf(OverrideEnvelope(r))))
  }

  function ReadOverride(f: Fields): Option<OverrideRecord> {
    var schema, revision := ReadNumber(f, "schema_version"), ReadNumber(f, "revision");
    var eventId, repository, draft := ReadText(f, "event_id"), ReadText(f, "repository_id"), ReadText(f, "draft_id");
    var revisionHash, scan, preview :=
      ReadText(f, "revision_hash"), ReadText(f, "scan_hash"), ReadText(f, "preview_hash");
    var reason, created := ReadText(f, "reason"), ReadNumber(f, "created_at_unix_seconds");
    if schema.None? || revision.None? || eventId.None? || repository.None? || draft.None? then None
    else if revisionHash.None? || scan.None? || preview.None? || created.None? then None
    else if reason != Some(ReasonText(ReviewedFalsePositive)) then None
    else
      Some(OverrideRecord(schema.value, eventId.value, repository.value, draft.value, revision.value,
                          revisionHash.value, scan.value, preview.value, ReviewedFalsePositive, created.value, ""))
  }

  /** The approval crate's decoder of a stored override. */
  function DecodeOverrideRow(row: Event): Option<OverrideRecord> {
    if row.transition != "secret_finding_overridden" || row.actorKind != "operator" || row.outcome != "overridden" then
      None
    else
      var envelope := ReadEnvelope(row.metadata, "override_record");
      if envelope.None? || ReadOverride(envelope.value.1).None? then None
      else
        var r := ReadOverride(envelope.value.1).value;
        if envelope.value.0 != SCHEMA_VERSION || r.schemaVersion != SCHEMA_VERSION
           || r.repositoryId != row.repositoryId || r.draftId != row.objectId || r.eventId != row.eventId
           || r.eventId != OverrideEventId(r.previewHash)
        then None
        else Some(r.(createdAtUtc := row.occurredAt))
  }

  predicate RegularOverride(r: OverrideRecord) {
    && r.schemaVersion == SCHEMA_VERSION && r.eventId == OverrideEventId(r.previewHash)
    && IsHash(r.revisionHash) && IsHash(r.scanHash) && IsHash(r.previewHash)
  }

  lemma OverrideNamesDiffer(r: OverrideRecord)
    ensures DistinctNames(OverridePairs(r)) && DistinctNames(OverrideEnvelope(r))
  {
  }

  predicate HasOverrideIds(f: Fields, r: OverrideRecord) {
    && ReadNumber(f, "schema_version") == Some(r.schemaVersion)
    && ReadText(f, "event_id") == Some(r.eventId)
    && ReadText(f, "repository_id") == Some(r.repositoryId)
    && ReadText(f, "draft_id") == Some(r.draftId)
    && ReadNumber(f, "revision") == Some(r.revision)
  }

  lemma OverrideIdsRead(f: Fields, r: OverrideRecord)
    requires HasFields(f, OverridePairs(r))
    ensures HasOverrideIds(f, r)
  {
    var pairs := OverridePairs(r);
    FieldIs(f, pairs, 0, "schema_version", Json.Number(r.schemaVersion));
    FieldIs(f, pairs, 1, "event_id", Str(r.eventId));
    FieldIs(f, pairs, 2, "repository_id", Str(r.repositoryId));
    FieldIs(f, pairs, 3, "draft_id", Str(r.draftId));
    FieldIs(f, pairs, 4, "revision", Json.Number(r.revision));
  }

  lemma OverrideIdsNamed(r: OverrideRecord, names: Names)
    requires Complete(names)
    ensures forall i :: 0 <= i < 5 ==> WellNamed(OverridePairs(r)[i], names)
  {
    Spelled.SchemaVersion(names);
    Spelled.EventId(names);
    Spelled.RepositoryId(names);
    Spelled.DraftId(names);
    Spelled.Revision(names);
  }

  predicate HasOverrideRest(f: Fields, r: OverrideRecord) {
    && ReadText(f, "revision_hash") == Some(r.revisionHash)
    && ReadText(f, "scan_hash") == Some(r.scanHash)
    && ReadText(f, "preview_hash") == Some(r.previewHash)
    && ReadText(f, "reason") == Some(ReasonText(r.reason))
    && ReadNumber(f, "created_at_unix_seconds") == Some(r.createdAt)
  }

  lemma OverrideRestRead(f: Fields, r: OverrideRecord)
    requires HasFields(f, OverridePairs(r))
    ensures HasOverrideRest(f, r)
  {
    var pairs := OverridePairs(r);
    FieldIs(f, pairs, 5, "revision_hash", Str(r.revisionHash));
    FieldIs(f, pairs, 6, "scan_hash", Str(r.scanHash));
    FieldIs(f, pairs, 7, "preview_hash", Str(r.previewHash));
    FieldIs(f, pairs, 8, "reason", Str(ReasonText(r.reason)));
    FieldIs(f, pairs, 9, "created_at_unix_seconds", Json.Number(r.createdAt));
  }

  lemma OverrideRestNamed(r: OverrideRecord, names: Names)
    requires Complete(names)
    ensures forall i :: 5 <= i < 10 ==> WellNamed(OverridePairs(r)[i], names)
  {
    Spelled.RevisionHash(names);
    Spelled.ScanHash(names);
    Spelled.PreviewHash(names);
    Spelled.Reason(names);
    Spelled.CreatedAtUnixSeconds(names);
  }

  lemma OverrideTexts(r: OverrideRecord, tests: Tests)
    requires RegularOverride(r) && KeepsCalm(tests)
    requires RedactText(r.repositoryId, tests) == r.repositoryId && RedactText(r.draftId, tests) == r.draftId
    ensures forall i :: 0 <= i < 10 ==> KeptValue(OverridePairs(r)[i].1, tests)
  {
    PrefixedIsCalm("secret-override-", r.previewHash);
    HashIsCalm(r.revisionHash);
    HashIsCalm(r.scanHash);
    HashIsCalm(r.previewHash);
    assert Calm(ReasonText(r.reason));
  }

  lemma OverrideEnvelopeNamed(r: OverrideRecord, names: Names)
    requires Complete(names)
    ensures forall i :: 0 <= i < 2 ==> WellNamed(OverrideEnvelope(r)[i], names)
  {
    Spelled.SchemaVersion(names);
    Spelled.OverrideRecord(names);
  }

  lemma OverrideKept(r: OverrideRecord, names: Names, tests: Tests)
    requires names == NamesKept(tests) && Complete(names)
    requires forall i :: 0 <= i < 10 ==> KeptValue(OverridePairs(r)[i].1, tests)
    ensures var v := Object(ObjectOf(OverrideEnvelope(r))); RedactMetadata(v, tests) == v
  {
    OverrideIdsNamed(r, names);
    OverrideRestNamed(r, names);
    WellNamedIsKept(OverridePairs(r), names, tests);
    KeptObject(OverridePairs(r), tests);
    OverrideEnvelopeNamed(r, names);
    WellNamedIsKept(OverrideEnvelope(r), names, tests);
    KeptObject(OverrideEnvelope(r), tests);
  }

  lemma OverrideReads(f: Fields, r: OverrideRecord)
    requires HasOverrideIds(f, r) && HasOverrideRest(f, r)
    ensures ReadOverride(f) == Some(r.(createdAtUtc := ""))
  {
    assert r.reason == ReviewedFalsePositive;
  }

  lemma OverrideRowDecodes(r: OverrideRecord)
    requires RegularOverride(r)
    ensures DecodeOverrideRow(OverrideRowOf(r)) == Some(r)
  {
    var outer, pairs := OverrideEnvelope(r), OverridePairs(r);
    OverrideNamesDiffer(r);
    BuiltHasFields(outer);
    FieldIs(ObjectOf(outer), outer, 0, "schema_version", Json.Number(SCHEMA_VERSION));
    FieldIs(ObjectOf(outer), outer, 1, "override_record", Object(ObjectOf(pairs)));
    BuiltHasFields(pairs);
    OverrideIdsRead(ObjectOf(pairs), r);
    OverrideRestRead(ObjectOf(pairs), r);
    assert r.reason.ReviewedFalsePositive?;
    OverrideReads(ObjectOf(pairs), r);
  }

  /** The same for overrides. */
  lemma OverrideSurvivesLog(r: OverrideRecord, tests: Tests)
    requires tests == TheTests() && RegularOverride(r) && Logged(OverrideRowOf(r), tests).Success?
    ensures Logged(OverrideRowOf(r), tests) == Success(OverrideRowOf(r))
            && DecodeOverrideRow(OverrideRowOf(r)) == Some(r)
  {
    LoggedIsSafe(OverrideRowOf(r), tests);
    TestsKeepCalm(tests);
    OverrideTexts(r, tests);
    TestsKeepNames(tests);
    OverrideKept(r, NamesKept(tests), tests);
    KeptIsStored(OverrideRowOf(r), tests);
    OverrideRowDecodes(r);
  }
}
