/** Approvals and overrides in any store whatever, said in rows and log events: which are read back, which are valid,
    and which confirmations succeed. */
module ApprovalRules {
  import opened Wrappers
  import opened Text
  import opened Approval
  import opened ApprovalSafety

  // ---------- what is read back ----------

  /** The event tells of this approval, with the time of the event as its time in text. */
  predicate Tells(e: AuditEvent, r: ApprovalRecord, about: ObjectType, actor: Actor) {
    && e.metadata.ApprovalMetadata?
    && e == AuditEvent(r.repositoryId, r.auditEventId, about, r.draftId, Approved, r.approvedAtUtc, Operator,
                       OutcomeApproved,
                       ApprovalMetadata(1, r.(approvedAtUtc := e.metadata.approval.approvedAtUtc, actor := actor)))
  }

  /** An operator's record under the ids of its hash. */
  predicate IsApproval(r: ApprovalRecord) {
    && r.schemaVersion == 1 && r.actor == Operator
    && r.approvalId == "approval-" + r.previewHash && r.auditEventId == "approval-recorded-" + r.previewHash
  }

  /** The service reads an approval from exactly the events that tell of it, whatever object they are about. */
  lemma ApprovalReadExactlyIf(e: AuditEvent, r: ApprovalRecord)
    ensures DecodeApproval(e) == Some(r) <==> IsApproval(r) && Tells(e, r, e.objectType, Operator)
  {
    if DecodeApproval(e) == Some(r) {
      assert e.metadata == ApprovalMetadata(1, e.metadata.approval);
    }
  }

  /** The delivery crate reads a record from exactly the events with its event id, whatever else they say. */
  lemma DeliveryReadExactlyIf(e: AuditEvent, r: ApprovalRecord)
    ensures DecodeForDelivery(e) == Some(r)
      <==> && r.schemaVersion == 1 && r.auditEventId == e.eventId && r.approvedAtUtc == e.occurredAt
           && r.actor == Operator && e.metadata.ApprovalMetadata?
           && e.metadata == ApprovalMetadata(1, r.(approvedAtUtc := e.metadata.approval.approvedAtUtc,
                                                   actor := e.metadata.approval.actor))
  {
  }

  /** The row and an event of the repository's log tell of this approval. */
  predicate Shown(s: Store, repositoryId: string, row: ApprovalRow, r: ApprovalRecord) {
    var key := EventKey(repositoryId, "approval-recorded-" + r.previewHash);
    && IsApproval(r) && key in s.log && Tells(s.log[key], r, s.log[key].objectType, Operator)
    && row == ApprovalRow(r.repositoryId, "approval-" + r.previewHash, r.draftId, r.revision, RowApproved, Operator,
                          r.approvedAtUtc, None)
  }

  lemma PersistedExactlyIf(s: Store, repositoryId: string, row: ApprovalRow, r: ApprovalRecord)
    ensures Persisted(s, repositoryId, row) == Some(r) <==> Shown(s, repositoryId, row, r)
  {
    EventIdComesBack(r.previewHash);
    var id := EventIdOf(row.approvalId);
    if id.Some? && EventKey(repositoryId, id.value) in s.log {
      ApprovalReadExactlyIf(s.log[EventKey(repositoryId, id.value)], r);
    }
  }

  /** The record is of this preview, fact by fact. */
  predicate IsOf(r: ApprovalRecord, core: Core, hash: string) {
    && (r.repositoryId, r.draftId, r.revision) == (core.repositoryId, core.draftId, core.revision)
    && (r.revisionHash, r.exactTextHash, r.metadataHash) == (core.revisionHash, core.exactTextHash, core.metadataHash)
    && (r.configHash, r.destinationHash) == (core.configHash, core.destinationHash)
    && (r.policyBasisHash, r.scanHash) == (core.policyBasisHash, core.scanHash)
    && r.draftExpiresAt == core.draftExpiresAt && r.previewHash == hash
  }

  /** It lasts for a quarter of an hour, but not longer than the draft, nor than seconds can be counted. */
  predicate LastsRight(r: ApprovalRecord) {
    && r.expiresAt <= r.draftExpiresAt && r.expiresAt <= r.approvedAt + 900 && r.expiresAt <= 0xffff_ffff_ffff_ffff
    && r.expiresAt in {r.draftExpiresAt, r.approvedAt + 900, 0xffff_ffff_ffff_ffff}
  }

  // ---------- overrides ----------

  /** The log holds this override of the preview. */
  predicate Overridden(s: Store, core: Core, env: Env, o: OverrideRecord) {
    var id := "secret-override-" + env.digest(core);
    var key := EventKey(core.repositoryId, id);
    && key in s.log && s.log[key].metadata.OverrideMetadata?
    && var e := s.log[key];
    && o == OverrideRecord(1, id, core.repositoryId, core.draftId, core.revision, core.revisionHash, core.scanHash,
                           env.digest(core), o.reason, o.createdAt, o.createdAtUtc)
    && e == AuditEvent(core.repositoryId, id, e.objectType, core.draftId, SecretFindingOverridden, o.createdAtUtc,
                       Operator, OutcomeOverridden,
                       OverrideMetadata(1, o.(createdAtUtc := e.metadata.overriding.createdAtUtc)))
  }

  /** An override is found exactly if the log holds it; what else is under its id is a conflict. */
  lemma OverrideFoundExactlyIf(s: Store, core: Core, env: Env)
    ensures forall o :: LoadOverride(s, core, env) == Success(Some(o)) <==> Overridden(s, core, env, o)
    ensures LoadOverride(s, core, env) == Success(None)
      <==> EventKey(core.repositoryId, "secret-override-" + env.digest(core)) !in s.log
    ensures LoadOverride(s, core, env).Failure? ==> LoadOverride(s, core, env) == Failure(ApprovalConflict)
  {
    var key := EventKey(core.repositoryId, "secret-override-" + env.digest(core));
    assert OverrideEventId(env.digest(core)) == key.eventId;
    if key in s.log && DecodeOverride(s.log[key]).Some? {
      var e := s.log[key];
      assert e.metadata == OverrideMetadata(1, e.metadata.overriding);
    }
  }

  /** The hash an approval of this preview has to carry: that of its override, if and only if the scan is blocked. */
  ghost predicate NeedsOverride(s: Store, core: Core, env: Env, overrideHash: Option<string>) {
    if core.blocked then exists o :: Overridden(s, core, env, o) && overrideHash == Some(env.overrideDigest(o))
    else overrideHash == None
  }

  lemma OverrideHashExactlyIf(s: Store, core: Core, env: Env, overrideHash: Option<string>)
    ensures OverrideHashFor(s, core, env) == Success(overrideHash) <==> NeedsOverride(s, core, env, overrideHash)
    ensures CheckedOverride(s, core, env) == Success(overrideHash) && (core.blocked ==> overrideHash.Some?)
      <==> NeedsOverride(s, core, env, overrideHash)
  {
    OverrideFoundExactlyIf(s, core, env);
  }

  // ---------- valid approvals ----------

  /** Row and log show the record as one of the preview. */
  predicate StandsBy(s: Store, core: Core, env: Env, r: ApprovalRecord) {
    var key := RevisionKey(core.repositoryId, core.draftId, core.revision);
    key in s.approvals && Shown(s, core.repositoryId, s.approvals[key], r) && IsOf(r, core, env.digest(core))
  }

  /** It is the approval of the preview, with the override the preview needs. */
  ghost predicate Stands(s: Store, core: Core, env: Env, r: ApprovalRecord) {
    StandsBy(s, core, env, r) && NeedsOverride(s, core, env, r.overrideHash)
  }

  lemma BindsExactlyIf(r: ApprovalRecord, core: Core, hash: string, overrideHash: Option<string>)
    requires IsApproval(r)
    ensures Binds(r, core, hash, overrideHash) <==> IsOf(r, core, hash) && r.overrideHash == overrideHash
  {
  }

  /** A preview is found approved exactly if it is not expired and row and log show its approval, still within its own
      time, in whatever store. */
  lemma ValidExactlyIf(s: Store, preview: Option<Core>, env: Env, now: nat, r: ApprovalRecord)
    ensures CheckCurrent(s, preview, env, now) == Valid(r)
      <==> && preview.Some? && now < preview.value.draftExpiresAt && preview.value.revision <= 0x7fff_ffff_ffff_ffff
           && Stands(s, preview.value, env, r) && LastsRight(r) && now < r.expiresAt
  {
    if preview.Some? && KeyOf(preview.value) in s.approvals {
      var core := preview.value;
      PersistedExactlyIf(s, core.repositoryId, s.approvals[KeyOf(core)], r);
      OverrideHashExactlyIf(s, core, env, r.overrideHash);
      if IsApproval(r) { BindsExactlyIf(r, core, env.digest(core), r.overrideHash); }
      var p := Persisted(s, core.repositoryId, s.approvals[KeyOf(core)]);
      if p.Some? { RecordValidExactlyIf(s, core, env, now, p.value, r); }
      EventIdComesBack(env.digest(core));
    }
  }

  lemma RecordValidExactlyIf(s: Store, core: Core, env: Env, now: nat, x: ApprovalRecord, r: ApprovalRecord)
    ensures CheckRecord(s, core, env, now, x) == Valid(r)
      <==> && x == r && NeedsOverride(s, core, env, r.overrideHash) && Binds(r, core, env.digest(core), r.overrideHash)
           && LastsRight(r) && now < r.expiresAt
  {
    OverrideHashExactlyIf(s, core, env, r.overrideHash);
  }

  // ---------- confirmations that succeed ----------

  /** The record of this confirmation. */
  predicate IsNew(r: ApprovalRecord, core: Core, env: Env, now: Instant) {
    IsApproval(r) && IsOf(r, core, env.digest(core)) && LastsRight(r) && r.approvedAt == now.unixSeconds
    && r.approvedAtUtc == now.utc
  }

  lemma NewIs(r: ApprovalRecord, core: Core, env: Env, now: Instant)
    ensures IsNew(r, core, env, now) <==> r == RecordFor(core, env.digest(core), now, r.overrideHash)
  {
  }

  predicate IsEventOf(e: AuditEvent, r: ApprovalRecord) {
    Tells(e, r, DraftObject, Operator) && e.metadata.approval.approvedAtUtc == ""
  }

  lemma EventIs(e: AuditEvent, r: ApprovalRecord)
    requires IsApproval(r)
    ensures IsEventOf(e, r) <==> e == ApprovalEvent(r)
  {
  }

  /** Where a new approval may be written: no event of this preview's approval and no row with its id is there, and the
      revision's row, if there is one, is that of an approval. */
  ghost predicate HasPlace(s: Store, core: Core, env: Env) {
    var key := RevisionKey(core.repositoryId, core.draftId, core.revision);
    && EventKey(core.repositoryId, "approval-recorded-" + env.digest(core)) !in s.log
    && (key in s.approvals ==> exists other :: Shown(s, core.repositoryId, s.approvals[key], other))
    && forall k :: k in s.approvals && k != key && k.repositoryId == core.repositoryId ==>
         s.approvals[k].approvalId != "approval-" + env.digest(core)
  }

  /** The store with a row and an event more. */
  predicate Written(s: Store, core: Core, r: ApprovalRecord, e: AuditEvent, s': Store) {
    && s'.approvals == s.approvals[RevisionKey(core.repositoryId, core.draftId, core.revision) :=
         ApprovalRow(r.repositoryId, r.approvalId, r.draftId, r.revision, RowApproved, Operator, r.approvedAtUtc, None)]
    && s'.log == s.log[EventKey(core.repositoryId, r.auditEventId) := e]
  }

  /** Under this record and event, the confirmation of an unchanged preview gives `r` and `s'`. */
  ghost predicate Confirms(s: Store, core: Core, env: Env, now: Instant, n: ApprovalRecord, e: AuditEvent, s': Store,
                           r: ApprovalRecord) {
    && IsNew(n, core, env, now) && IsEventOf(e, n) && env.valid(e) && n.overrideHash == r.overrideHash
    && NeedsOverride(s, core, env, r.overrideHash)
    && (|| (Stands(s, core, env, r) && s' == s)
        || (HasPlace(s, core, env) && r == n && Written(s, core, n, e, s')))
  }

  lemma PlaceIs(s: Store, core: Core, env: Env, r: ApprovalRecord)
    requires IsNew(r, core, env, Instant(r.approvedAt, r.approvedAtUtc))
    ensures HasPlace(s, core, env)
      <==> && Write(s, KeyOf(core), r).Success?
           && (KeyOf(core) in s.approvals ==> Persisted(s, core.repositoryId, s.approvals[KeyOf(core)]).Some?)
  {
    var key := KeyOf(core);
    if key in s.approvals {
      var p := Persisted(s, core.repositoryId, s.approvals[key]);
      if p.Some? { PersistedExactlyIf(s, core.repositoryId, s.approvals[key], p.value); }
      forall other | Shown(s, core.repositoryId, s.approvals[key], other) ensures p == Some(other) {
        PersistedExactlyIf(s, core.repositoryId, s.approvals[key], other);
      }
    }
  }

  /** The transaction once the needed override hash is known. */
  lemma BoundExactlyIf(s: Store, core: Core, env: Env, now: Instant, current: bool, n: ApprovalRecord, s': Store,
                       r: ApprovalRecord)
    requires n == RecordFor(core, env.digest(core), now, r.overrideHash)
    requires OverrideHashFor(s, core, env) == Success(r.overrideHash)
    ensures ApproveCore(s, core, env, now, current) == (s', Success(r))
      <==> && current && core.revision <= 0x7fff_ffff_ffff_ffff && env.valid(ApprovalEvent(n))
           && (|| (StandsBy(s, core, env, r) && s' == s)
               || (HasPlace(s, core, env) && r == n && Written(s, core, n, ApprovalEvent(n), s')))
  {
    var key := KeyOf(core);
    PlaceIs(s, core, env, n);
    if key in s.approvals {
      PersistedExactlyIf(s, core.repositoryId, s.approvals[key], r);
      if IsApproval(r) { BindsExactlyIf(r, core, env.digest(core), r.overrideHash); }
    }
  }

  lemma SuccessIsBound(s: Store, core: Core, env: Env, now: Instant, current: bool, s': Store, r: ApprovalRecord)
    requires ApproveCore(s, core, env, now, current) == (s', Success(r))
    ensures OverrideHashFor(s, core, env) == Success(r.overrideHash)
  {
  }

  lemma ApprovesCoreExactlyIf(s: Store, core: Core, env: Env, now: Instant, current: bool, n: ApprovalRecord,
                              s': Store, r: ApprovalRecord)
    requires n == RecordFor(core, env.digest(core), now, r.overrideHash)
    ensures ApproveCore(s, core, env, now, current) == (s', Success(r))
      <==> && current && core.revision <= 0x7fff_ffff_ffff_ffff
           && Confirms(s, core, env, now, n, ApprovalEvent(n), s', r)
  {
    NewIs(n, core, env, now);
    EventIs(ApprovalEvent(n), n);
    OverrideHashExactlyIf(s, core, env, r.overrideHash);
    if NeedsOverride(s, core, env, r.overrideHash) {
      BoundExactlyIf(s, core, env, now, current, n, s', r);
    } else if ApproveCore(s, core, env, now, current) == (s', Success(r)) {
      SuccessIsBound(s, core, env, now, current, s', r);
    }
  }

  /** A confirmation succeeds exactly if it was given at a terminal for the hash of the preview, which is neither
      expired nor changed, its override is in the log where one is needed, the log takes its event, and either this very
      preview stands approved, whose record it returns, or there is place for a new one, which it writes. */
  lemma ApprovesExactlyIf(s: Store, q: Request, env: Env, now: Instant, s': Store, r: ApprovalRecord)
    ensures Approve(s, q, env, now) == (s', Success(r))
      <==> && q.preview.Some? && AtTerminal(q, now, env, q.preview.value) && q.current
           && q.preview.value.revision <= 0x7fff_ffff_ffff_ffff
           && exists n, e :: Confirms(s, q.preview.value, env, now, n, e, s', r)
  {
    if q.preview.Some? {
      var core := q.preview.value;
      var n := RecordFor(core, env.digest(core), now, r.overrideHash);
      ApprovesCoreExactlyIf(s, core, env, now, q.current, n, s', r);
      forall n', e | Confirms(s, core, env, now, n', e, s', r)
        ensures Confirms(s, core, env, now, n, ApprovalEvent(n), s', r) {
        NewIs(n', core, env, now);
        EventIs(e, n');
      }
    }
  }

  /** An override is recorded exactly if it was confirmed in the same way for a blocked preview, the log takes its
      event, and the log holds an override of this preview and reason, which it returns, or nothing under its id. */
  lemma OverridesExactlyIf(s: Store, q: Request, env: Env, now: Instant, reason: Reason, s': Store, o: OverrideRecord)
    ensures OverrideSecretFinding(s, q, env, now, reason) == (s', Success(o))
      <==> && q.preview.Some? && AtTerminal(q, now, env, q.preview.value) && q.current && q.preview.value.blocked
           && q.preview.value.revision <= 0x7fff_ffff_ffff_ffff
           && exists n, e :: Overrides(s, q.preview.value, env, now, n, e, s', o) && n.reason == o.reason == reason
  {
    if q.preview.Some? {
      var core := q.preview.value;
      var n := OverrideFor(core, env.digest(core), now, reason);
      OverridesCoreExactlyIf(s, core, env, now, q.current, reason, n, s', o);
    }
  }

  predicate IsNewOverride(o: OverrideRecord, e: AuditEvent, core: Core, env: Env, now: Instant) {
    && o == OverrideRecord(1, "secret-override-" + env.digest(core), core.repositoryId, core.draftId, core.revision,
                           core.revisionHash, core.scanHash, env.digest(core), o.reason, now.unixSeconds, now.utc)
    && e == AuditEvent(o.repositoryId, o.eventId, DraftObject, o.draftId, SecretFindingOverridden, now.utc, Operator,
                       OutcomeOverridden, OverrideMetadata(1, o.(createdAtUtc := "")))
  }

  ghost predicate Overrides(s: Store, core: Core, env: Env, now: Instant, n: OverrideRecord, e: AuditEvent, s': Store,
                            o: OverrideRecord) {
    var key := EventKey(core.repositoryId, "secret-override-" + env.digest(core));
    && IsNewOverride(n, e, core, env, now) && env.valid(e)
    && (|| (Overridden(s, core, env, o) && s' == s)
        || (key !in s.log && o == n && s' == s.(log := s.log[key := e])))
  }

  lemma OverridesCoreExactlyIf(s: Store, core: Core, env: Env, now: Instant, current: bool, reason: Reason,
                               n: OverrideRecord, s': Store, o: OverrideRecord)
    requires n == OverrideFor(core, env.digest(core), now, reason)
    ensures OverrideCore(s, core, env, now, current, reason) == (s', Success(o))
      <==> && current && core.blocked && core.revision <= 0x7fff_ffff_ffff_ffff && o.reason == reason
           && Overrides(s, core, env, now, n, OverrideEvent(n), s', o)
  {
    OverrideFoundExactlyIf(s, core, env);
    assert IsNewOverride(n, OverrideEvent(n), core, env, now);
  }

  // ---------- the claim's validation ----------

  /** Row and log are keyed by what they hold. */
  ghost predicate Keyed(s: Store) {
    && (forall k :: k in s.log ==> EventKey(s.log[k].repositoryId, s.log[k].eventId) == k)
    && (forall k :: k in s.approvals ==> var row := s.approvals[k];
          RevisionKey(row.repositoryId, row.draftId, row.revision) == k)
  }

  lemma ReachableIsKeyed(s: Store, cs: seq<Command>, env: Env)
    requires Fresh(s)
    ensures Keyed(Run(World(s, []), cs, env).store)
  {
    Reachable(s, cs, env);
    var w := Run(World(s, []), cs, env);
    forall k | k in w.store.approvals
      ensures var row := w.store.approvals[k]; RevisionKey(row.repositoryId, row.draftId, row.revision) == k {
      assert RowIsBacked(w.store, k);
    }
  }

  /** The log holds this override for a claim, which asks neither who overrode nor for the version around it. */
  predicate OverriddenForClaim(s: Store, core: Core, env: Env, o: OverrideRecord) {
    var id := "secret-override-" + env.digest(core);
    var key := EventKey(core.repositoryId, id);
    && key in s.log && s.log[key].metadata.OverrideMetadata?
    && var e := s.log[key];
    && o == OverrideRecord(1, id, core.repositoryId, core.draftId, core.revision, core.revisionHash, core.scanHash,
                           env.digest(core), o.reason, o.createdAt, o.createdAtUtc)
    && e == AuditEvent(core.repositoryId, id, DraftObject, core.draftId, SecretFindingOverridden, o.createdAtUtc,
                       e.actor, OutcomeOverridden,
                       OverrideMetadata(e.metadata.schemaVersion,
                                        o.(createdAtUtc := e.metadata.overriding.createdAtUtc)))
  }

  lemma OverrideHoldsExactlyIf(s: Store, core: Core, env: Env, hash: string)
    requires Keyed(s)
    ensures OverrideHolds(s, core, env, hash)
      <==> exists o :: OverriddenForClaim(s, core, env, o) && env.overrideDigest(o) == hash
  {
    var key := EventKey(core.repositoryId, "secret-override-" + env.digest(core));
    assert OverrideEventId(env.digest(core)) == key.eventId;
    if OverrideHolds(s, core, env, hash) {
      var e := s.log[key];
      var o := e.metadata.overriding.(createdAtUtc := e.occurredAt);
      assert OverriddenForClaim(s, core, env, o);
    }
  }

  /** Row and log show this record as the preview's approval for a claim, which does not ask who the record says
      approved. */
  ghost predicate StandsForClaim(s: Store, core: Core, env: Env, r: ApprovalRecord) {
    var key := RevisionKey(core.repositoryId, core.draftId, core.revision);
    var event := EventKey(core.repositoryId, r.auditEventId);
    && key in s.approvals && event in s.log && s.log[event].metadata.ApprovalMetadata?
    && IsApproval(r) && IsOf(r, core, env.digest(core))
    && Tells(s.log[event], r, DraftObject, s.log[event].metadata.approval.actor)
    && s.approvals[key] == ApprovalRow(r.repositoryId, r.approvalId, r.draftId, r.revision, RowApproved, Operator,
                                       r.approvedAtUtc, None)
    && if core.blocked then
         exists o :: OverriddenForClaim(s, core, env, o) && r.overrideHash == Some(env.overrideDigest(o))
       else r.overrideHash == None
  }

  /** The approval of the preview under this id, hash and expiry, still within its time. */
  ghost predicate HeldAs(s: Store, core: Core, env: Env, now: nat, approvalId: string, approvalHash: string,
                         expiresAt: nat, r: ApprovalRecord) {
    && StandsForClaim(s, core, env, r) && LastsRight(r) && r.approvedAt < r.expiresAt && now < r.expiresAt
    && (r.approvalId, env.approvalDigest(r), r.expiresAt) == (approvalId, approvalHash, expiresAt)
  }

  /** A claim accepts the approval it was given by id, hash and expiry exactly if row and log show a record of the
      preview under this id, hash and expiry, still within its time. */
  lemma HoldsExactlyIf(s: Store, core: Core, env: Env, now: nat, approvalId: string, approvalHash: string,
                       expiresAt: nat)
    requires Keyed(s)
    ensures HumanApprovalHolds(s, core, env, now, approvalId, approvalHash, expiresAt)
      <==> && core.revision <= 0x7fff_ffff_ffff_ffff
           && exists r :: HeldAs(s, core, env, now, approvalId, approvalHash, expiresAt, r)
  {
    if HumanApprovalHolds(s, core, env, now, approvalId, approvalHash, expiresAt) {
      HeldIsShown(s, core, env, now, approvalId, approvalHash, expiresAt);
    } else if core.revision <= 0x7fff_ffff_ffff_ffff {
      forall r ensures !HeldAs(s, core, env, now, approvalId, approvalHash, expiresAt, r) {
        if HeldAs(s, core, env, now, approvalId, approvalHash, expiresAt, r) { ShownIsHeld(s, core, env, now, r); }
      }
    }
  }

  lemma ShownIsHeld(s: Store, core: Core, env: Env, now: nat, r: ApprovalRecord)
    requires Keyed(s) && core.revision <= 0x7fff_ffff_ffff_ffff
    requires HeldAs(s, core, env, now, r.approvalId, env.approvalDigest(r), r.expiresAt, r)
    ensures HumanApprovalHolds(s, core, env, now, r.approvalId, env.approvalDigest(r), r.expiresAt)
  {
    DeliveryReadExactlyIf(s.log[EventKey(core.repositoryId, r.auditEventId)], r);
    BindsExactlyIf(r, core, env.digest(core), r.overrideHash);
    if core.blocked { OverrideHoldsExactlyIf(s, core, env, r.overrideHash.value); }
  }

  lemma HeldIsShown(s: Store, core: Core, env: Env, now: nat, approvalId: string, approvalHash: string, expiresAt: nat)
    requires Keyed(s) && HumanApprovalHolds(s, core, env, now, approvalId, approvalHash, expiresAt)
    ensures core.revision <= 0x7fff_ffff_ffff_ffff
    ensures exists r :: HeldAs(s, core, env, now, approvalId, approvalHash, expiresAt, r)
  {
    var event := EventKey(core.repositoryId, ApprovalEventId(env.digest(core)));
    assert approvalId == ApprovalId(env.digest(core));
    var r := DecodeForDelivery(s.log[event]).value;
    HeldStands(s, core, env, now, approvalId, approvalHash, expiresAt, r);
    assert HeldAs(s, core, env, now, approvalId, approvalHash, expiresAt, r);
  }

  lemma HeldStands(s: Store, core: Core, env: Env, now: nat, approvalId: string, approvalHash: string, expiresAt: nat,
                   r: ApprovalRecord)
    requires Keyed(s) && HumanApprovalHolds(s, core, env, now, approvalId, approvalHash, expiresAt)
    requires approvalId == ApprovalId(env.digest(core))
    requires Some(r) == DecodeForDelivery(s.log[EventKey(core.repositoryId, ApprovalEventId(env.digest(core)))])
    ensures StandsForClaim(s, core, env, r)
  {
    var hash := env.digest(core);
    var event := EventKey(core.repositoryId, ApprovalEventId(hash));
    DeliveryReadExactlyIf(s.log[event], r);
    BindsExactlyIf(r, core, hash, r.overrideHash);
    if core.blocked { OverrideHoldsExactlyIf(s, core, env, r.overrideHash.value); }
  }
}
