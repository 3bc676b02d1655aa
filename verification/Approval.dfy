/** Human approval of one exact draft revision: what the approval service writes, checks and reads back, and how the
    delivery crate reads the same rows. Fixed spellings of kinds and outcomes are constructors. */
module Approval {
  import opened Wrappers
  import opened Text

  const APPROVAL_LIFETIME := 900
  const MAX_U64 := 0xffff_ffff_ffff_ffff
  const MAX_I64 := 0x7fff_ffff_ffff_ffff
  const SCHEMA_VERSION := 1

  /** The complete facts an operator confirms; hashes stand for what they are hashes of. */
  datatype Core = Core(
    repositoryId: string, draftId: string, revision: nat, revisionHash: string, exactTextHash: string,
    metadataHash: string, configHash: string, destinationHash: string, policyBasisHash: string, scanHash: string,
    blocked: bool, draftExpiresAt: nat)

  datatype Instant = Instant(unixSeconds: nat, utc: string)

  datatype ApprovalRecord = ApprovalRecord(
    schemaVersion: nat, approvalId: string, auditEventId: string, repositoryId: string, draftId: string, revision: nat,
    revisionHash: string, exactTextHash: string, metadataHash: string, configHash: string, destinationHash: string,
    policyBasisHash: string, scanHash: string, previewHash: string, draftExpiresAt: nat, approvedAt: nat,
    approvedAtUtc: string, expiresAt: nat, overrideHash: Option<string>, actor: Actor)

  datatype OverrideRecord = OverrideRecord(
    schemaVersion: nat, eventId: string, repositoryId: string, draftId: string, revision: nat, revisionHash: string,
    scanHash: string, previewHash: string, reason: Reason, createdAt: nat, createdAtUtc: string)

  /** The closed set of reasons for an override. */
  datatype Reason = ReviewedFalsePositive

  datatype Actor = Operator | OtherActor(name: string)
  datatype Transition = Approved | SecretFindingOverridden | OtherTransition(name: string)
  datatype Outcome = OutcomeApproved | OutcomeOverridden | OtherOutcome(name: string)
  datatype ObjectType = DraftObject | OtherObject(name: string)

  /** Metadata of an event. The records are persisted without their UTC text, which is the time of the event. */
  datatype Metadata =
    | ApprovalMetadata(schemaVersion: nat, approval: ApprovalRecord)
    | OverrideMetadata(schemaVersion: nat, overriding: OverrideRecord)
    | OtherMetadata

  datatype AuditEvent = AuditEvent(
    repositoryId: string, eventId: string, objectType: ObjectType, objectId: string, transition: Transition,
    occurredAt: string, actor: Actor, outcome: Outcome, metadata: Metadata)

  datatype RowState = RowApproved | RowRevoked

  datatype ApprovalRow = ApprovalRow(
    repositoryId: string, approvalId: string, draftId: string, revision: nat, state: RowState, actor: Actor,
    approvedAt: string, revokedAt: Option<string>)

  datatype RevisionKey = RevisionKey(repositoryId: string, draftId: string, revision: nat)

  datatype EventKey = EventKey(repositoryId: string, eventId: string)

  /** Approvals are unique per revision; events are unique per id and never change. */
  datatype Store = Store(approvals: map<RevisionKey, ApprovalRow>, log: map<EventKey, AuditEvent>)

  datatype ApprovalError =
    | InvalidPreview | TtyRequired | ConfirmationMismatch | SecretOverrideRequired | OverrideNotRequired
    | ApprovalRevoked | ApprovalConflict | RevisionOutOfRange | InvalidAuditEvent | DuplicateKey

  /** The hashes, which are injective, and the validation of the audit log. */
  datatype Env = Env(
    digest: Core -> string, overrideDigest: OverrideRecord -> string, approvalDigest: ApprovalRecord -> string,
    valid: AuditEvent -> bool)

  ghost predicate Injective(env: Env) {
    && (forall a, b :: env.digest(a) == env.digest(b) ==> a == b)
    && (forall a, b :: env.overrideDigest(a) == env.overrideDigest(b) ==> a == b)
    && (forall a, b :: env.approvalDigest(a) == env.approvalDigest(b) ==> a == b)
  }

  function ApprovalId(hash: string): string { "approval-" + hash }
  function ApprovalEventId(hash: string): string { "approval-recorded-" + hash }
  function OverrideEventId(hash: string): string { "secret-override-" + hash }

  /** The event of an approval, from the approval's id. */
  function EventIdOf(approvalId: string): Option<string> {
    if StartsWith(approvalId, "approval-") then Some(ApprovalEventId(approvalId[9..])) else None
  }

  function KeyOf(core: Core): RevisionKey { RevisionKey(core.repositoryId, core.draftId, core.revision) }

  function Min(a: nat, b: nat): nat { if a <= b then a else b }

  function SaturatingAdd(a: nat, b: nat): nat { Min(a + b, MAX_U64) }

  // ---------- records and events ----------

  function RecordFor(core: Core, hash: string, now: Instant, overrideHash: Option<string>): ApprovalRecord {
    ApprovalRecord(
      SCHEMA_VERSION, ApprovalId(hash), ApprovalEventId(hash), core.repositoryId, core.draftId, core.revision,
      core.revisionHash, core.exactTextHash, core.metadataHash, core.configHash, core.destinationHash,
      core.policyBasisHash, core.scanHash, hash, core.draftExpiresAt, now.unixSeconds, now.utc,
      Min(SaturatingAdd(now.unixSeconds, APPROVAL_LIFETIME), core.draftExpiresAt), overrideHash, Operator)
  }

  function OverrideFor(core: Core, hash: string, now: Instant, reason: Reason): OverrideRecord {
    OverrideRecord(
      SCHEMA_VERSION, OverrideEventId(hash), core.repositoryId, core.draftId, core.revision, core.revisionHash,
      core.scanHash, hash, reason, now.unixSeconds, now.utc)
  }

  function ApprovalEvent(record: ApprovalRecord): AuditEvent {
    AuditEvent(record.repositoryId, record.auditEventId, DraftObject, record.draftId, Approved, record.approvedAtUtc,
               Operator, OutcomeApproved, ApprovalMetadata(SCHEMA_VERSION, record.(approvedAtUtc := "")))
  }

  function OverrideEvent(record: OverrideRecord): AuditEvent {
    AuditEvent(record.repositoryId, record.eventId, DraftObject, record.draftId, SecretFindingOverridden,
               record.createdAtUtc, Operator, OutcomeOverridden,
               OverrideMetadata(SCHEMA_VERSION, record.(createdAtUtc := "")))
  }

  /** The approval service's decoder. */
  function DecodeApproval(event: AuditEvent): Option<ApprovalRecord> {
    if event.transition != Approved || event.actor != Operator || event.outcome != OutcomeApproved then None
    else if !event.metadata.ApprovalMetadata? then None
    else
      var r := event.metadata.approval;
      if event.metadata.schemaVersion != SCHEMA_VERSION || r.schemaVersion != SCHEMA_VERSION
         || r.repositoryId != event.repositoryId || r.draftId != event.objectId || r.auditEventId != event.eventId
         || r.actor != event.actor || r.approvalId != ApprovalId(r.previewHash)
         || r.auditEventId != ApprovalEventId(r.previewHash)
      then None
      else Some(r.(approvedAtUtc := event.occurredAt))
  }

  function DecodeOverride(event: AuditEvent): Option<OverrideRecord> {
    if event.transition != SecretFindingOverridden || event.actor != Operator || event.outcome != OutcomeOverridden then
      None
    else if !event.metadata.OverrideMetadata? then None
    else
      var r := event.metadata.overriding;
      if event.metadata.schemaVersion != SCHEMA_VERSION || r.schemaVersion != SCHEMA_VERSION
         || r.repositoryId != event.repositoryId || r.draftId != event.objectId || r.eventId != event.eventId
         || r.eventId != OverrideEventId(r.previewHash)
      then None
      else Some(r.(createdAtUtc := event.occurredAt))
  }

  /** The delivery crate's decoder: fewer checks, and an actor of its own. */
  function DecodeForDelivery(event: AuditEvent): Option<ApprovalRecord> {
    if !event.metadata.ApprovalMetadata? then None
    else
      var r := event.metadata.approval;
      if event.metadata.schemaVersion != 1 || r.schemaVersion != 1 || r.auditEventId != event.eventId then None
      else Some(r.(approvedAtUtc := event.occurredAt, actor := Operator))
  }

  // ---------- the service ----------

  /** What the service sees: the current preview, or none if the draft cannot be previewed; whether the draft is
      unchanged inside the transaction; and the operator's confirmation. */
  datatype Request = Request(preview: Option<Core>, current: bool, tty: bool, confirmedHash: string)

  function Confirmed(q: Request, env: Env, now: Instant): Result<Core, ApprovalError> {
    if q.preview.None? || now.unixSeconds >= q.preview.value.draftExpiresAt then Failure(InvalidPreview)
    else if !q.tty then Failure(TtyRequired)
    else if q.confirmedHash != env.digest(q.preview.value) then Failure(ConfirmationMismatch)
    else Success(q.preview.value)
  }

  function OverrideBinds(r: OverrideRecord, core: Core, hash: string): bool {
    && r.repositoryId == core.repositoryId && r.draftId == core.draftId && r.revision == core.revision
    && r.revisionHash == core.revisionHash && r.scanHash == core.scanHash && r.previewHash == hash
  }

  function LoadOverride(s: Store, core: Core, env: Env): Result<Option<OverrideRecord>, ApprovalError> {
    var key := EventKey(core.repositoryId, OverrideEventId(env.digest(core)));
    if key !in s.log then Success(None)
    else
      match DecodeOverride(s.log[key])
      case None => Failure(ApprovalConflict)
      case Some(r) => if OverrideBinds(r, core, env.digest(core)) then Success(Some(r)) else Failure(ApprovalConflict)
  }

  /** The hash of the override an approval of this preview is bound to. */
  function OverrideHashFor(s: Store, core: Core, env: Env): Result<Option<string>, ApprovalError> {
    if !core.blocked then Success(None)
    else
      match LoadOverride(s, core, env)
      case Failure(e) => Failure(e)
      case Success(None) => Failure(SecretOverrideRequired)
      case Success(Some(r)) => Success(Some(env.overrideDigest(r)))
  }

  predicate RowMatches(row: ApprovalRow, r: ApprovalRecord) {
    && row.repositoryId == r.repositoryId && row.approvalId == r.approvalId && row.draftId == r.draftId
    && row.revision == r.revision && row.state == RowApproved && row.actor == r.actor
      && row.approvedAt == r.approvedAtUtc
    && row.revokedAt == None
  }

  predicate Binds(r: ApprovalRecord, core: Core, hash: string, overrideHash: Option<string>) {
    && r.repositoryId == core.repositoryId && r.draftId == core.draftId && r.revision == core.revision
    && r.revisionHash == core.revisionHash && r.exactTextHash == core.exactTextHash
      && r.metadataHash == core.metadataHash
    && r.configHash == core.configHash && r.destinationHash == core.destinationHash
    && r.policyBasisHash == core.policyBasisHash && r.scanHash == core.scanHash && r.overrideHash == overrideHash
    && r.draftExpiresAt == core.draftExpiresAt && r.previewHash == hash && r.approvalId == ApprovalId(hash)
  }

  /** The record behind an approval row, if the log holds it and the two agree. */
  function Persisted(s: Store, repositoryId: string, row: ApprovalRow): Option<ApprovalRecord> {
    var id := EventIdOf(row.approvalId);
    if id.None? || EventKey(repositoryId, id.value) !in s.log then None
    else
      match DecodeApproval(s.log[EventKey(repositoryId, id.value)])
      case Some(r) => if RowMatches(row, r) then Some(r) else None
      case None => None
  }

  function RowFor(r: ApprovalRecord): ApprovalRow {
    ApprovalRow(r.repositoryId, r.approvalId, r.draftId, r.revision, RowApproved, Operator, r.approvedAtUtc, None)
  }

  predicate IdTaken(s: Store, key: RevisionKey, approvalId: string) {
    exists k ::
      k in s.approvals && k != key && k.repositoryId == key.repositoryId && s.approvals[k].approvalId == approvalId
  }

  /** Writing the row, inserted or replaced, and the event. */
  function Write(s: Store, key: RevisionKey, r: ApprovalRecord): Result<Store, ApprovalError> {
    var event := EventKey(r.repositoryId, r.auditEventId);
    if event in s.log then Failure(ApprovalConflict)
    else if IdTaken(s, key, r.approvalId) then Failure(DuplicateKey)
    else Success(Store(s.approvals[key := RowFor(r)], s.log[event := ApprovalEvent(r)]))
  }

  function ApproveCore(s: Store, core: Core, env: Env, now: Instant,
                       current: bool): (Store, Result<ApprovalRecord, ApprovalError>) {
    match OverrideHashFor(s, core, env)
    case Failure(e) => (s, Failure(e))
    case Success(overrideHash) =>
      var r := RecordFor(core, env.digest(core), now, overrideHash);
      var key := KeyOf(core);
      if !env.valid(ApprovalEvent(r)) then (s, Failure(InvalidAuditEvent))
      else if core.revision > MAX_I64 then (s, Failure(RevisionOutOfRange))
      else if !current then (s, Failure(InvalidPreview))
      else if key in s.approvals && s.approvals[key].state == RowRevoked then (s, Failure(ApprovalRevoked))
      else if key in s.approvals && Persisted(s, core.repositoryId, s.approvals[key]).None? then
        (s, Failure(ApprovalConflict))
      else if key in s.approvals
        && Binds(Persisted(s, core.repositoryId, s.approvals[key]).value, core, env.digest(core), overrideHash)
      then (s, Success(Persisted(s, core.repositoryId, s.approvals[key]).value))
      else
        match Write(s, key, r)
        case Failure(e) => (s, Failure(e))
        case Success(s') => (s', Success(r))
  }

  function Approve(s: Store, q: Request, env: Env, now: Instant): (Store, Result<ApprovalRecord, ApprovalError>) {
    match Confirmed(q, env, now)
    case Failure(e) => (s, Failure(e))
    case Success(core) => ApproveCore(s, core, env, now, q.current)
  }

  function OverrideCore(s: Store, core: Core, env: Env, now: Instant, current: bool, reason: Reason):
      (Store, Result<OverrideRecord, ApprovalError>)
  {
    var r := OverrideFor(core, env.digest(core), now, reason);
    var key := EventKey(core.repositoryId, r.eventId);
    if !core.blocked then (s, Failure(OverrideNotRequired))
    else if !env.valid(OverrideEvent(r)) then (s, Failure(InvalidAuditEvent))
    else if core.revision > MAX_I64 then (s, Failure(RevisionOutOfRange))
    else if !current then (s, Failure(InvalidPreview))
    else if key in s.log then
      match DecodeOverride(s.log[key])
      case None => (s, Failure(ApprovalConflict))
      case Some(earlier) =>
        if OverrideBinds(earlier, core, env.digest(core)) && earlier.reason == reason then (s, Success(earlier))
        else (s, Failure(ApprovalConflict))
    else (s.(log := s.log[key := OverrideEvent(r)]), Success(r))
  }

  function OverrideSecretFinding(s: Store, q: Request, env: Env, now: Instant, reason: Reason):
      (Store, Result<OverrideRecord, ApprovalError>)
  {
    match Confirmed(q, env, now)
    case Failure(e) => (s, Failure(e))
    case Success(core) => OverrideCore(s, core, env, now, q.current, reason)
  }

  datatype InvalidReason =
    | PreviewInvalid | PersistenceInconsistent | ApprovalMissing | RevokedApproval | BindingChanged | ApprovalExpired
    | OverrideRequired

  datatype Check = Valid(record: ApprovalRecord) | Invalid(reason: InvalidReason) | CheckFailed

  predicate ExpiryIsCoherent(r: ApprovalRecord) {
    r.expiresAt == Min(SaturatingAdd(r.approvedAt, APPROVAL_LIFETIME), r.draftExpiresAt)
  }

  /** The override hash a check compares with; a missing override is no hash, a broken one is inconsistent. */
  function CheckedOverride(s: Store, core: Core, env: Env): Result<Option<string>, ApprovalError> {
    if !core.blocked then Success(None)
    else
      match LoadOverride(s, core, env)
      case Failure(e) => Failure(e)
      case Success(None) => Success(None)
      case Success(Some(r)) => Success(Some(env.overrideDigest(r)))
  }

  function CheckRecord(s: Store, core: Core, env: Env, now: nat, r: ApprovalRecord): Check {
    match CheckedOverride(s, core, env)
    case Failure(_) => Invalid(PersistenceInconsistent)
    case Success(overrideHash) =>
      if !Binds(r, core, env.digest(core), overrideHash) then Invalid(BindingChanged)
      else if !ExpiryIsCoherent(r) then Invalid(PersistenceInconsistent)
      else if now >= r.expiresAt then Invalid(ApprovalExpired)
      else if core.blocked && r.overrideHash.None? then Invalid(OverrideRequired)
      else Valid(r)
  }

  function CheckCurrent(s: Store, preview: Option<Core>, env: Env, now: nat): Check {
    if preview.None? || now >= preview.value.draftExpiresAt then Invalid(PreviewInvalid)
    else
      var core := preview.value;
      var key := KeyOf(core);
      if core.revision > MAX_I64 then Invalid(PersistenceInconsistent)
      else if key !in s.approvals then Invalid(ApprovalMissing)
      else if s.approvals[key].state == RowRevoked then Invalid(RevokedApproval)
      else if EventIdOf(s.approvals[key].approvalId).None? then CheckFailed
      else
        match Persisted(s, core.repositoryId, s.approvals[key])
        case None => Invalid(PersistenceInconsistent)
        case Some(r) => CheckRecord(s, core, env, now, r)
  }

  // ---------- the delivery crate's reading ----------

  predicate OverrideHolds(s: Store, core: Core, env: Env, expectedHash: string) {
    var key := EventKey(core.repositoryId, OverrideEventId(env.digest(core)));
    && key in s.log
    && var event := s.log[key];
    && event.transition == SecretFindingOverridden && event.outcome == OutcomeOverridden
      && event.objectType == DraftObject
    && event.objectId == core.draftId && event.metadata.OverrideMetadata?
    && var r := event.metadata.overriding;
    && r.schemaVersion == 1 && r.eventId == key.eventId && OverrideBinds(r, core, env.digest(core))
    && env.overrideDigest(r.(createdAtUtc := event.occurredAt)) == expectedHash
  }

  /** The claim's repeated validation of an approval it was given by id, hash and expiry. */
  predicate HumanApprovalHolds(s: Store, core: Core, env: Env, now: nat, approvalId: string, approvalHash: string,
                               expiresAt: nat) {
    var key := KeyOf(core);
    && core.revision <= MAX_I64 && key in s.approvals
    && var row := s.approvals[key];
    && row.state == RowApproved && row.approvalId == approvalId && row.draftId == core.draftId
      && row.revision == core.revision
    && row.actor == Operator && row.revokedAt == None
    && var eventKey := EventKey(core.repositoryId,
                                ApprovalEventId(if StartsWith(approvalId, "approval-") then approvalId[9..]
                                                else approvalId));
    && eventKey in s.log
    && var event := s.log[eventKey];
    && DecodeForDelivery(event).Some?
    && var r := DecodeForDelivery(event).value;
    && event.transition == Approved && event.outcome == OutcomeApproved && event.objectType == DraftObject
    && event.objectId == core.draftId && event.actor == Operator && row.approvedAt == event.occurredAt
    && r.approvalId == approvalId && r.approvalId == ApprovalId(r.previewHash)
    && Binds(r, core, env.digest(core), r.overrideHash)
    && r.expiresAt == expiresAt && ExpiryIsCoherent(r) && now < r.expiresAt && env.approvalDigest(r) == approvalHash
    && r.approvedAt < r.expiresAt && (r.overrideHash.Some? <==> core.blocked)
    && (core.blocked ==> OverrideHolds(s, core, env, r.overrideHash.value))
  }
}
