/** Stored rows of approvals and overrides, whoever wrote them: which fields a record is read from, and that decoding a
    row is decoding the event it stands for. */
module ApprovalLogRules {
  import opened Wrappers
  import opened Text
  import opened Approval
  import opened Redaction
  import opened MetadataFields
  import opened ApprovalLog

  // ---------- fields ----------

  /** Each of the nineteen fields is there, of its type and with the record's value; the override's may be missing. */
  ghost predicate HasApproval(f: Fields, r: ApprovalRecord) {
    && HasShared(f, r) && Lookup(f, "actor_kind") == Some(Str(if r.actor.Operator? then "operator" else r.actor.name))
    && r.actor != OtherActor("operator") && r.approvedAtUtc == ""
  }

  /** The eighteen fields that both crates read. */
  ghost predicate HasShared(f: Fields, r: ApprovalRecord) {
    && Lookup(f, "schema_version") == Some(Json.Number(r.schemaVersion))
    && Lookup(f, "approval_id") == Some(Str(r.approvalId)) && Lookup(f, "audit_event_id") == Some(Str(r.auditEventId))
    && Lookup(f, "repository_id") == Some(Str(r.repositoryId)) && Lookup(f, "draft_id") == Some(Str(r.draftId))
    && Lookup(f, "revision") == Some(Json.Number(r.revision))
    && Lookup(f, "revision_hash") == Some(Str(r.revisionHash))
    && Lookup(f, "exact_text_hash") == Some(Str(r.exactTextHash))
    && Lookup(f, "metadata_hash") == Some(Str(r.metadataHash)) && Lookup(f, "config_hash") == Some(Str(r.configHash))
    && Lookup(f, "destination_hash") == Some(Str(r.destinationHash))
    && Lookup(f, "policy_basis_hash") == Some(Str(r.policyBasisHash))
    && Lookup(f, "scan_hash") == Some(Str(r.scanHash)) && Lookup(f, "preview_hash") == Some(Str(r.previewHash))
    && Lookup(f, "draft_expires_at_unix_seconds") == Some(Json.Number(r.draftExpiresAt))
    && Lookup(f, "approved_at_unix_seconds") == Some(Json.Number(r.approvedAt))
    && Lookup(f, "expires_at_unix_seconds") == Some(Json.Number(r.expiresAt))
    && IsOptional(Lookup(f, "override_hash"), r.overrideHash)
  }

  predicate IsOptional(found: Option<Json>, value: Option<string>) {
    if value.Some? then found == Some(Str(value.value)) else found == None || found == Some(Null)
  }

  lemma FieldsAre(f: Fields, key: string)
    ensures forall s :: ReadText(f, key) == Some(s) <==> Lookup(f, key) == Some(Str(s))
    ensures forall n: nat :: ReadNumber(f, key) == Some(n) <==> Lookup(f, key) == Some(Json.Number(n))
    ensures forall v :: ReadOptional(f, key) == Some(v) <==> IsOptional(Lookup(f, key), v)
  {
  }

  lemma SharedIs(f: Fields, r: ApprovalRecord)
    ensures HasShared(f, r)
      <==> HasIds(f, r) && HasRevision(f, r) && HasHashes(f, r) && HasPreview(f, r)
           && ReadNumber(f, "expires_at_unix_seconds") == Some(r.expiresAt)
           && ReadOptional(f, "override_hash") == Some(r.overrideHash)
  {
    FieldsAre(f, "schema_version");
    FieldsAre(f, "approval_id");
    FieldsAre(f, "audit_event_id");
    FieldsAre(f, "repository_id");
    FieldsAre(f, "draft_id");
    FieldsAre(f, "revision");
    FieldsAre(f, "revision_hash");
    FieldsAre(f, "exact_text_hash");
    FieldsAre(f, "metadata_hash");
    FieldsAre(f, "config_hash");
    FieldsAre(f, "destination_hash");
    FieldsAre(f, "policy_basis_hash");
    FieldsAre(f, "scan_hash");
    FieldsAre(f, "preview_hash");
    FieldsAre(f, "draft_expires_at_unix_seconds");
    FieldsAre(f, "approved_at_unix_seconds");
    FieldsAre(f, "expires_at_unix_seconds");
    FieldsAre(f, "override_hash");
  }

  /** The approval crate reads a record from exactly the objects that have all its fields. */
  lemma RecordReadExactlyIf(f: Fields, r: ApprovalRecord)
    ensures ReadApproval(f) == Some(r) <==> HasApproval(f, r)
  {
    SharedIs(f, r);
    FieldsAre(f, "actor_kind");
  }

  /** The delivery crate reads one from exactly those that have eighteen of them. */
  lemma SharedReadExactlyIf(f: Fields, r: ApprovalRecord)
    ensures ReadForDelivery(f) == Some(r) <==> HasShared(f, r) && r.actor == Operator && r.approvedAtUtc == ""
  {
    SharedIs(f, r);
  }

  ghost predicate HasOverride(f: Fields, r: OverrideRecord) {
    && Lookup(f, "schema_version") == Some(Json.Number(r.schemaVersion))
    && Lookup(f, "event_id") == Some(Str(r.eventId)) && Lookup(f, "repository_id") == Some(Str(r.repositoryId))
    && Lookup(f, "draft_id") == Some(Str(r.draftId)) && Lookup(f, "revision") == Some(Json.Number(r.revision))
    && Lookup(f, "revision_hash") == Some(Str(r.revisionHash)) && Lookup(f, "scan_hash") == Some(Str(r.scanHash))
    && Lookup(f, "preview_hash") == Some(Str(r.previewHash))
    && Lookup(f, "reason") == Some(Str("reviewed-false-positive"))
    && Lookup(f, "created_at_unix_seconds") == Some(Json.Number(r.createdAt)) && r.createdAtUtc == ""
  }

  lemma OverrideReadExactlyIf(f: Fields, r: OverrideRecord)
    ensures ReadOverride(f) == Some(r) <==> HasOverride(f, r)
  {
    FieldsAre(f, "schema_version");
    FieldsAre(f, "event_id");
    FieldsAre(f, "repository_id");
    FieldsAre(f, "draft_id");
    FieldsAre(f, "revision");
    FieldsAre(f, "revision_hash");
    FieldsAre(f, "scan_hash");
    FieldsAre(f, "preview_hash");
    FieldsAre(f, "reason");
    FieldsAre(f, "created_at_unix_seconds");
    assert r.reason == ReviewedFalsePositive;
  }

  // ---------- rows ----------

  function TransitionIn(s: string): Transition {
    if s == "approved" then Approved
    else if s == "secret_finding_overridden" then SecretFindingOverridden
    else OtherTransition(s)
  }

  function OutcomeIn(s: string): Outcome {
    if s == "approved" then OutcomeApproved else if s == "overridden" then OutcomeOverridden else OtherOutcome(s)
  }

  function ActorIn(s: string): Actor { if s == "operator" then Operator else OtherActor(s) }

  function ObjectIn(s: string): ObjectType { if s == "draft" then DraftObject else OtherObject(s) }

  /** The event that a row stands for, once its metadata is read as `m`. */
  function EventOf(row: Event, m: Metadata): AuditEvent {
    AuditEvent(row.repositoryId, row.eventId, ObjectIn(row.objectType), row.objectId, TransitionIn(row.transition),
               row.occurredAt, ActorIn(row.actorKind), OutcomeIn(row.outcome), m)
  }

  /** An object with a version and, under `key`, another object. */
  predicate IsEnvelope(v: Json, key: string, version: nat, inner: Fields) {
    && v.Object? && Lookup(v.fields, "schema_version") == Some(Json.Number(version))
    && Lookup(v.fields, key) == Some(Object(inner))
  }

  lemma EnvelopeIs(v: Json, key: string)
    ensures forall version: nat, inner ::
              ReadEnvelope(v, key) == Some((version, inner)) <==> IsEnvelope(v, key, version, inner)
  {
    if v.Object? { FieldsAre(v.fields, "schema_version"); }
  }

  /** As the approval crate reads it, the metadata holds this approval, or none. */
  ghost predicate ReadsAs(v: Json, m: Metadata) {
    match m
    case ApprovalMetadata(version, r) =>
      exists inner :: IsEnvelope(v, "approval", version, inner) && HasApproval(inner, r)
    case OverrideMetadata(_, _) => false
    case OtherMetadata =>
      forall version: nat, inner, r :: IsEnvelope(v, "approval", version, inner) ==> !HasApproval(inner, r)
  }

  /** Whatever row it is, the approval crate decodes it to what it decodes the event to that the row stands for. */
  lemma RowIsEvent(row: Event, m: Metadata)
    requires ReadsAs(row.metadata, m)
    ensures DecodeRow(row) == DecodeApproval(EventOf(row, m))
  {
    EnvelopeIs(row.metadata, "approval");
    var envelope := ReadEnvelope(row.metadata, "approval");
    if envelope.Some? && ReadApproval(envelope.value.1).Some? {
      RecordReadExactlyIf(envelope.value.1, ReadApproval(envelope.value.1).value);
    }
    if m.ApprovalMetadata? {
      var inner :| IsEnvelope(row.metadata, "approval", m.schemaVersion, inner) && HasApproval(inner, m.approval);
      RecordReadExactlyIf(inner, m.approval);
    }
  }

  /** As the delivery crate reads it. */
  ghost predicate ReadsForDelivery(v: Json, m: Metadata) {
    match m
    case ApprovalMetadata(version, r) =>
      && r.actor == Operator && r.approvedAtUtc == ""
      && exists inner :: IsEnvelope(v, "approval", version, inner) && HasShared(inner, r)
    case OverrideMetadata(_, _) => false
    case OtherMetadata =>
      forall version: nat, inner, r :: IsEnvelope(v, "approval", version, inner) ==> !HasShared(inner, r)
  }

  /** The same for the delivery crate. */
  lemma DeliveryRowIsEvent(row: Event, m: Metadata)
    requires ReadsForDelivery(row.metadata, m)
    ensures DecodeRowForDelivery(row) == DecodeForDelivery(EventOf(row, m))
  {
    EnvelopeIs(row.metadata, "approval");
    var envelope := ReadEnvelope(row.metadata, "approval");
    if envelope.Some? && ReadForDelivery(envelope.value.1).Some? {
      SharedReadExactlyIf(envelope.value.1, ReadForDelivery(envelope.value.1).value);
    }
    if m.ApprovalMetadata? {
      var inner :| IsEnvelope(row.metadata, "approval", m.schemaVersion, inner) && HasShared(inner, m.approval);
      SharedReadExactlyIf(inner, m.approval);
    }
  }

  /** As the approval crate reads it for an override. */
  ghost predicate ReadsOverride(v: Json, m: Metadata) {
    match m
    case OverrideMetadata(version, r) =>
      exists inner :: IsEnvelope(v, "override_record", version, inner) && HasOverride(inner, r)
    case ApprovalMetadata(_, _) => false
    case OtherMetadata =>
      forall version: nat, inner, r :: IsEnvelope(v, "override_record", version, inner) ==> !HasOverride(inner, r)
  }

  /** And for overrides. */
  lemma OverrideRowIsEvent(row: Event, m: Metadata)
    requires ReadsOverride(row.metadata, m)
    ensures DecodeOverrideRow(row) == DecodeOverride(EventOf(row, m))
  {
    EnvelopeIs(row.metadata, "override_record");
    var envelope := ReadEnvelope(row.metadata, "override_record");
    if envelope.Some? && ReadOverride(envelope.value.1).Some? {
      OverrideReadExactlyIf(envelope.value.1, ReadOverride(envelope.value.1).value);
    }
    if m.OverrideMetadata? {
      var inner :| IsEnvelope(row.metadata, "override_record", m.schemaVersion, inner)
                   && HasOverride(inner, m.overriding);
      OverrideReadExactlyIf(inner, m.overriding);
    }
  }

  /** Every row stands for an event to each reader. */
  lemma EveryRowReads(v: Json)
    ensures exists m :: ReadsAs(v, m)
    ensures exists m :: ReadsForDelivery(v, m)
    ensures exists m :: ReadsOverride(v, m)
  {
    if version: nat, inner, r :| IsEnvelope(v, "approval", version, inner) && HasApproval(inner, r) {
      assert ReadsAs(v, ApprovalMetadata(version, r));
    } else {
      assert ReadsAs(v, OtherMetadata);
    }
    if version: nat, inner, r :| IsEnvelope(v, "approval", version, inner) && HasShared(inner, r) {
      assert HasShared(inner, r.(actor := Operator, approvedAtUtc := ""));
      assert ReadsForDelivery(v, ApprovalMetadata(version, r.(actor := Operator, approvedAtUtc := "")));
    } else {
      assert ReadsForDelivery(v, OtherMetadata);
    }
    if version: nat, inner, r :| IsEnvelope(v, "override_record", version, inner) && HasOverride(inner, r) {
      assert ReadsOverride(v, OverrideMetadata(version, r));
    } else {
      assert ReadsOverride(v, OtherMetadata);
    }
  }
}
