/** The approval service as the program runs it: an object that owns the store. */
module ApprovalService {
  import opened Wrappers
  import opened Approval
  import opened ApprovalSafety

  class Service {
    var store: Store

    constructor (initial: Store)
      ensures store == initial
    {
      store := initial;
    }

    /** Records an approval, or returns the one that stands. */
    method ApprovePreview(q: Request, env: Env, now: Instant) returns (r: Result<ApprovalRecord, ApprovalError>)
      modifies this
      ensures (store, r) == Approve(old(store), q, env, now)
    {
      var confirmed := Confirmed(q, env, now);
      if confirmed.Failure? { return Failure(confirmed.error); }
      var core := confirmed.value;
      var bound := OverrideHashFor(store, core, env);
      if bound.Failure? { return Failure(bound.error); }
      r := Commit(core, env, now, q.current, bound.value);
    }

    /** The transaction of an approval. */
    method Commit(core: Core, env: Env, now: Instant, current: bool, overrideHash: Option<string>)
        returns (r: Result<ApprovalRecord, ApprovalError>)
      requires OverrideHashFor(store, core, env) == Success(overrideHash)
      modifies this
      ensures (store, r) == ApproveCore(old(store), core, env, now, current)
    {
      var record := RecordFor(core, env.digest(core), now, overrideHash);
      var key := KeyOf(core);
      if !env.valid(ApprovalEvent(record)) { return Failure(InvalidAuditEvent); }
      if core.revision > MAX_I64 { return Failure(RevisionOutOfRange); }
      if !current { return Failure(InvalidPreview); }
      if key in store.approvals {
        var row := store.approvals[key];
        if row.state == RowRevoked { return Failure(ApprovalRevoked); }
        var persisted := Persisted(store, core.repositoryId, row);
        if persisted.None? { return Failure(ApprovalConflict); }
        if Binds(persisted.value, core, env.digest(core), overrideHash) { return Success(persisted.value); }
      }
      r := Record(key, record);
    }

    /** Inserts or replaces the row and appends the event, or changes nothing. */
    method Record(key: RevisionKey, record: ApprovalRecord) returns (r: Result<ApprovalRecord, ApprovalError>)
      modifies this
      ensures match Write(old(store), key, record)
              case Success(s) => store == s && r == Success(record)
              case Failure(e) => store == old(store) && r == Failure(e)
    {
      var event := EventKey(record.repositoryId, record.auditEventId);
      if event in store.log { return Failure(ApprovalConflict); }
      if IdTaken(store, key, record.approvalId) { return Failure(DuplicateKey); }
      store := Store(store.approvals[key := RowFor(record)], store.log[event := ApprovalEvent(record)]);
      r := Success(record);
    }

    method OverrideFinding(q: Request, env: Env, now: Instant, reason: Reason)
        returns (r: Result<OverrideRecord, ApprovalError>)
      modifies this
      ensures (store, r) == OverrideSecretFinding(old(store), q, env, now, reason)
    {
      var confirmed := Confirmed(q, env, now);
      if confirmed.Failure? { return Failure(confirmed.error); }
      var core := confirmed.value;
      if !core.blocked { return Failure(OverrideNotRequired); }
      var record := OverrideFor(core, env.digest(core), now, reason);
      if !env.valid(OverrideEvent(record)) { return Failure(InvalidAuditEvent); }
      if core.revision > MAX_I64 { return Failure(RevisionOutOfRange); }
      if !q.current { return Failure(InvalidPreview); }
      var key := EventKey(core.repositoryId, record.eventId);
      if key in store.log {
        var earlier := DecodeOverride(store.log[key]);
        if earlier.None? || !OverrideBinds(earlier.value, core, env.digest(core)) || earlier.value.reason != reason {
          return Failure(ApprovalConflict);
        }
        return Success(earlier.value);
      }
      store := store.(log := store.log[key := OverrideEvent(record)]);
      r := Success(record);
    }

    /** Reads the store, and changes nothing. */
    method CheckApproval(preview: Option<Core>, env: Env, now: nat) returns (check: Check)
      ensures check == CheckCurrent(store, preview, env, now)
    {
      if preview.None? || now >= preview.value.draftExpiresAt { return Invalid(PreviewInvalid); }
      var core := preview.value;
      if core.revision > MAX_I64 { return Invalid(PersistenceInconsistent); }
      var key := KeyOf(core);
      if key !in store.approvals { return Invalid(ApprovalMissing); }
      var row := store.approvals[key];
      if row.state == RowRevoked { return Invalid(RevokedApproval); }
      if EventIdOf(row.approvalId).None? { return CheckFailed; }
      var persisted := Persisted(store, core.repositoryId, row);
      if persisted.None? { return Invalid(PersistenceInconsistent); }
      check := CheckRecord(store, core, env, now, persisted.value);
    }
  }
}
