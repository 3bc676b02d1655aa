/** What every run of approvals and overrides keeps, and what a valid check means. */
module ApprovalSafety {
  import opened Wrappers
  import opened Text
  import opened Approval

  // ---------- persistence ----------

  lemma EventIdComesBack(hash: string)
    ensures EventIdOf(ApprovalId(hash)) == Some(ApprovalEventId(hash))
  {
  }

  /** Both decoders rebuild every record that the service writes. */
  lemma RecordSurvives(core: Core, hash: string, now: Instant, overrideHash: Option<string>)
    ensures var r := RecordFor(core, hash, now, overrideHash);
      && DecodeApproval(ApprovalEvent(r)) == Some(r)
      && DecodeForDelivery(ApprovalEvent(r)) == Some(r)
      && ExpiryIsCoherent(r)
      && (now.unixSeconds < core.draftExpiresAt && now.unixSeconds < MAX_U64 ==> r.approvedAt < r.expiresAt)
  {
  }

  lemma OverrideSurvives(core: Core, hash: string, now: Instant, reason: Reason)
    ensures var r := OverrideFor(core, hash, now, reason); DecodeOverride(OverrideEvent(r)) == Some(r)
  {
  }

  /** Whatever the approval service can decode, the delivery crate decodes to the same record. */
  lemma DecodersAgree(event: AuditEvent)
    requires DecodeApproval(event).Some?
    ensures DecodeForDelivery(event) == DecodeApproval(event)
  {
  }

  // ---------- replay ----------

  /** `r` stands as the approval of `core`. */
  predicate Standing(s: Store, core: Core, env: Env, r: ApprovalRecord) {
    var key := KeyOf(core);
    && key in s.approvals && s.approvals[key].state == RowApproved
    && Persisted(s, core.repositoryId, s.approvals[key]) == Some(r)
    && OverrideHashFor(s, core, env) == Success(r.overrideHash)
    && Binds(r, core, env.digest(core), r.overrideHash)
  }

  lemma ApprovedStands(s: Store, core: Core, env: Env, now: Instant, current: bool)
    requires ApproveCore(s, core, env, now, current).1.Success?
    ensures var (s', r) := ApproveCore(s, core, env, now, current); Standing(s', core, env, r.value)
  {
    var overrideHash := OverrideHashFor(s, core, env).value;
    var hash := env.digest(core);
    EventIdComesBack(hash);
    RecordSurvives(core, hash, now, overrideHash);
    IdsDiffer(hash, hash);
  }

  lemma IdsDiffer(a: string, b: string)
    ensures ApprovalEventId(a) != OverrideEventId(b)
  {
    assert ApprovalEventId(a)[0] != OverrideEventId(b)[0];
  }

  /** Confirming the current preview again returns the record that stands, whatever the time, and writes nothing. */
  lemma ReplayReturnsFirst(s: Store, core: Core, env: Env, now: Instant, r: ApprovalRecord)
    requires Standing(s, core, env, r) && core.revision <= MAX_I64
    requires env.valid(ApprovalEvent(RecordFor(core, env.digest(core), now, r.overrideHash)))
    ensures ApproveCore(s, core, env, now, true) == (s, Success(r))
  {
  }

  /** The log only grows. */
  predicate Grows(s: Store, s': Store) { forall k :: k in s.log ==> k in s'.log && s'.log[k] == s.log[k] }

  lemma StandingStays(s: Store, s': Store, core: Core, env: Env, r: ApprovalRecord)
    requires Standing(s, core, env, r) && Grows(s, s')
    requires KeyOf(core) in s'.approvals && s'.approvals[KeyOf(core)] == s.approvals[KeyOf(core)]
    ensures Standing(s', core, env, r)
  {
  }

  // ---------- runs ----------

  datatype Confirmation =
    | ConfirmedApproval(core: Core, at: Instant, overrideHash: Option<string>)
    | ConfirmedOverride(core: Core, at: Instant, reason: Reason)

  /** A store together with the confirmations that succeeded so far. */
  datatype World = World(store: Store, history: seq<Confirmation>)

  datatype Command =
    | DoApprove(q: Request, now: Instant)
    | DoOverride(q: Request, now: Instant, reason: Reason)
    | DoOther(event: AuditEvent)

  /** Other services append events of their own kinds, under ids not yet used. */
  predicate Foreign(event: AuditEvent) { event.transition.OtherTransition? }

  function AppendOther(s: Store, event: AuditEvent): Store {
    var key := EventKey(event.repositoryId, event.eventId);
    if key in s.log || !Foreign(event) then s else s.(log := s.log[key := event])
  }

  function Step(w: World, c: Command, env: Env): World {
    match c
    case DoApprove(q, now) =>
      var (s, r) := Approve(w.store, q, env, now);
      World(s, if r.Success? then w.history + [ConfirmedApproval(q.preview.value, now, r.value.overrideHash)]
            else w.history)
    case DoOverride(q, now, reason) =>
      var (s, r) := OverrideSecretFinding(w.store, q, env, now, reason);
      World(s, if r.Success? then w.history + [ConfirmedOverride(q.preview.value, now, reason)] else w.history)
    case DoOther(event) => w.(store := AppendOther(w.store, event))
  }

  function Run(w: World, cs: seq<Command>, env: Env): World {
    if cs == [] then w else Step(Run(w, cs[..|cs| - 1], env), cs[|cs| - 1], env)
  }

  predicate Remembered(history: seq<Confirmation>, c: Confirmation) {
    exists i :: 0 <= i < |history| && history[i] == c
  }

  predicate OverrideStored(s: Store, core: Core, env: Env, hash: string) {
    LoadOverride(s, core, env).Success? && LoadOverride(s, core, env).value.Some?
    && env.overrideDigest(LoadOverride(s, core, env).value.value) == hash
  }

  /** `event` is what the confirmation `c` wrote. */
  predicate WroteApproval(w: World, env: Env, event: AuditEvent, c: Confirmation) {
    && c.ConfirmedApproval? && Remembered(w.history, c)
    && event == ApprovalEvent(RecordFor(c.core, env.digest(c.core), c.at, c.overrideHash))
    && c.at.unixSeconds < c.core.draftExpiresAt && (c.overrideHash.Some? <==> c.core.blocked)
    && (c.core.blocked ==> OverrideStored(w.store, c.core, env, c.overrideHash.value))
  }

  predicate WroteOverride(w: World, env: Env, event: AuditEvent, c: Confirmation) {
    && c.ConfirmedOverride? && Remembered(w.history, c) && c.core.blocked
    && event == OverrideEvent(OverrideFor(c.core, env.digest(c.core), c.at, c.reason))
  }

  ghost predicate Explained(w: World, env: Env, event: AuditEvent) {
    && (event.transition == Approved ==> exists c :: WroteApproval(w, env, event, c))
    && (event.transition == SecretFindingOverridden ==> exists c :: WroteOverride(w, env, event, c))
  }

  /** Every approval and override event was written for a confirmation, and every approval row has its event. */
  ghost predicate Inv(w: World, env: Env) {
    && (forall k :: k in w.store.log ==> EventKey(w.store.log[k].repositoryId, w.store.log[k].eventId) == k)
    && (forall k :: k in w.store.log ==> Explained(w, env, w.store.log[k]))
    && (forall k :: k in w.store.approvals ==> RowIsBacked(w.store, k))
  }

  predicate RowIsBacked(s: Store, k: RevisionKey)
    requires k in s.approvals
  {
    var row := s.approvals[k];
    && Persisted(s, k.repositoryId, row).Some? && row == RowFor(Persisted(s, k.repositoryId, row).value)
    && row.repositoryId == k.repositoryId && row.draftId == k.draftId && row.revision == k.revision
  }

  ghost predicate Fresh(s: Store) {
    s.approvals == map[]
    && forall k :: k in s.log ==> EventKey(s.log[k].repositoryId, s.log[k].eventId) == k && Foreign(s.log[k])
  }

  lemma RememberedStays(history: seq<Confirmation>, more: seq<Confirmation>, c: Confirmation)
    requires Remembered(history, c)
    ensures Remembered(history + more, c)
  {
    var i :| 0 <= i < |history| && history[i] == c;
    assert (history + more)[i] == c;
  }

  lemma OverrideStoredStays(s: Store, s': Store, core: Core, env: Env, hash: string)
    requires OverrideStored(s, core, env, hash) && Grows(s, s')
    ensures OverrideStored(s', core, env, hash)
  {
  }

  lemma ExplainedStays(w: World, w': World, env: Env, event: AuditEvent, more: seq<Confirmation>)
    requires Explained(w, env, event) && Grows(w.store, w'.store) && w'.history == w.history + more
    ensures Explained(w', env, event)
  {
    if event.transition == Approved {
      var c :| WroteApproval(w, env, event, c);
      RememberedStays(w.history, more, c);
      if c.core.blocked { OverrideStoredStays(w.store, w'.store, c.core, env, c.overrideHash.value); }
      assert WroteApproval(w', env, event, c);
    }
    if event.transition == SecretFindingOverridden {
      var c :| WroteOverride(w, env, event, c);
      RememberedStays(w.history, more, c);
      assert WroteOverride(w', env, event, c);
    }
  }

  lemma RowStaysBacked(s: Store, s': Store, k: RevisionKey)
    requires k in s.approvals && RowIsBacked(s, k) && Grows(s, s') && k in s'.approvals
             && s'.approvals[k] == s.approvals[k]
    ensures RowIsBacked(s', k)
  {
  }

  /** A step that leaves the approvals alone and adds at most one event that is explained. */
  lemma LogStepKeeps(w: World, w': World, env: Env, more: seq<Confirmation>, key: EventKey, event: AuditEvent)
    requires Inv(w, env) && w'.history == w.history + more
    requires w'.store == w.store || (key !in w.store.log && w'.store == w.store.(log := w.store.log[key := event]))
    requires EventKey(event.repositoryId, event.eventId) == key
    requires w'.store != w.store ==> Explained(w', env, event)
    ensures Inv(w', env)
  {
    forall k | k in w'.store.log ensures Explained(w', env, w'.store.log[k]) {
      if k in w.store.log { ExplainedStays(w, w', env, w.store.log[k], more); }
    }
    forall k | k in w'.store.approvals ensures RowIsBacked(w'.store, k) { RowStaysBacked(w.store, w'.store, k); }
  }

  // ---------- steps ----------

  lemma RememberedLast(history: seq<Confirmation>, c: Confirmation)
    ensures Remembered(history + [c], c)
  {
    assert (history + [c])[|history|] == c;
  }

  lemma OtherKeeps(w: World, env: Env, event: AuditEvent)
    requires Inv(w, env)
    ensures Inv(Step(w, DoOther(event), env), env)
  {
    assert w.history == w.history + [];
    LogStepKeeps(w, Step(w, DoOther(event), env), env, [], EventKey(event.repositoryId, event.eventId), event);
  }

  lemma OverrideKeeps(w: World, env: Env, q: Request, now: Instant, reason: Reason)
    requires Inv(w, env)
    ensures Inv(Step(w, DoOverride(q, now, reason), env), env)
  {
    var w' := Step(w, DoOverride(q, now, reason), env);
    var (s, r) := OverrideSecretFinding(w.store, q, env, now, reason);
    if r.Success? {
      var core := q.preview.value;
      var written := OverrideFor(core, env.digest(core), now, reason);
      var c := ConfirmedOverride(core, now, reason);
      RememberedLast(w.history, c);
      if w'.store != w.store { assert WroteOverride(w', env, OverrideEvent(written), c); }
      LogStepKeeps(w, w', env, [c], EventKey(core.repositoryId, written.eventId), OverrideEvent(written));
    } else {
      assert w' == w;
    }
  }

  /** What a successful write of an approval changes. */
  lemma WriteAdds(s: Store, key: RevisionKey, r: ApprovalRecord, s': Store)
    requires Write(s, key, r) == Success(s')
    ensures Grows(s, s') && s'.approvals == s.approvals[key := RowFor(r)]
    ensures s'.log == s.log[EventKey(r.repositoryId, r.auditEventId) := ApprovalEvent(r)]
    ensures EventKey(r.repositoryId, r.auditEventId) !in s.log
  {
  }

  /** The outcomes of confirming `core`: nothing, the record that stands, or a new record written. */
  predicate ApprovalOutcome(s: Store, core: Core, env: Env, now: Instant, s': Store,
                            r: Result<ApprovalRecord, ApprovalError>)
  {
    && (r.Failure? ==> s' == s)
    && (r.Success? ==> OverrideHashFor(s, core, env) == Success(r.value.overrideHash))
    && (r.Success? && s' == s ==> Standing(s, core, env, r.value))
    && (r.Success? && s' != s ==>
          && Write(s, KeyOf(core), r.value) == Success(s')
          && r.value == RecordFor(core, env.digest(core), now, r.value.overrideHash))
  }

  lemma ApproveOutcomes(s: Store, core: Core, env: Env, now: Instant, current: bool)
    ensures var (s', r) := ApproveCore(s, core, env, now, current); ApprovalOutcome(s, core, env, now, s', r)
  {
  }

  lemma BoundOverrideIsStored(s: Store, core: Core, env: Env, overrideHash: Option<string>)
    requires OverrideHashFor(s, core, env) == Success(overrideHash)
    ensures overrideHash.Some? <==> core.blocked
    ensures core.blocked ==> OverrideStored(s, core, env, overrideHash.value)
  {
  }

  /** The history grows by a confirmation, and the store stays. */
  lemma HistoryGrows(w: World, env: Env, c: Confirmation)
    requires Inv(w, env)
    ensures Inv(World(w.store, w.history + [c]), env)
  {
    var w' := World(w.store, w.history + [c]);
    forall k | k in w.store.log ensures Explained(w', env, w.store.log[k]) {
      ExplainedStays(w, w', env, w.store.log[k], [c]);
    }
  }

  lemma ApprovalKeeps(w: World, env: Env, core: Core, now: Instant, current: bool)
    requires Inv(w, env) && now.unixSeconds < core.draftExpiresAt
    ensures var (s, r) := ApproveCore(w.store, core, env, now, current);
      Inv(World(s, if r.Success? then w.history + [ConfirmedApproval(core, now, r.value.overrideHash)] else w.history),
          env)
  {
    ApproveOutcomes(w.store, core, env, now, current);
    ApprovalResultKeeps(w, env, core, now, ApproveCore(w.store, core, env, now, current).0,
                        ApproveCore(w.store, core, env, now, current).1);
  }

  /** The invariant holds after each of the outcomes of a confirmation. */
  lemma ApprovalResultKeeps(w: World, env: Env, core: Core, now: Instant, s: Store,
                            r: Result<ApprovalRecord, ApprovalError>)
    requires Inv(w, env) && now.unixSeconds < core.draftExpiresAt && ApprovalOutcome(w.store, core, env, now, s, r)
    ensures Inv(World(s, if r.Success? then w.history + [ConfirmedApproval(core, now, r.value.overrideHash)]
                      else w.history), env)
  {
    if r.Success? {
      var c := ConfirmedApproval(core, now, r.value.overrideHash);
      if s == w.store {
        HistoryGrows(w, env, c);
      } else {
        BoundOverrideIsStored(w.store, core, env, r.value.overrideHash);
        ApprovalWritten(w, World(s, w.history + [c]), env, c, r.value);
      }
    }
  }

  lemma ApprovalWritten(w: World, w': World, env: Env, c: Confirmation, r: ApprovalRecord)
    requires Inv(w, env) && c.ConfirmedApproval? && w'.history == w.history + [c]
    requires Write(w.store, KeyOf(c.core), r) == Success(w'.store)
             && r == RecordFor(c.core, env.digest(c.core), c.at, c.overrideHash)
    requires c.at.unixSeconds < c.core.draftExpiresAt && (c.overrideHash.Some? <==> c.core.blocked)
    requires c.core.blocked ==> OverrideStored(w.store, c.core, env, c.overrideHash.value)
    ensures Inv(w', env)
  {
    var key := KeyOf(c.core);
    WriteAdds(w.store, key, r, w'.store);
    RememberedLast(w.history, c);
    RecordSurvives(c.core, env.digest(c.core), c.at, c.overrideHash);
    EventIdComesBack(env.digest(c.core));
    if c.core.blocked { OverrideStoredStays(w.store, w'.store, c.core, env, c.overrideHash.value); }
    assert WroteApproval(w', env, ApprovalEvent(r), c);
    forall k | k in w'.store.log ensures Explained(w', env, w'.store.log[k]) {
      if k in w.store.log { ExplainedStays(w, w', env, w.store.log[k], [c]); }
    }
    forall k | k in w'.store.approvals ensures RowIsBacked(w'.store, k) {
      if k != key { RowStaysBacked(w.store, w'.store, k); }
    }
  }

  lemma ApproveStepKeeps(w: World, q: Request, now: Instant, env: Env)
    requires Inv(w, env)
    ensures Inv(Step(w, DoApprove(q, now), env), env)
  {
    if Confirmed(q, env, now).Success? { ApprovalKeeps(w, env, q.preview.value, now, q.current); }
  }

  /** Every step keeps the invariant. */
  lemma StepKeeps(w: World, c: Command, env: Env)
    requires Inv(w, env)
    ensures Inv(Step(w, c, env), env)
  {
    match c
    case DoApprove(q, now) => ApproveStepKeeps(w, q, now, env);
    case DoOverride(q, now, reason) => OverrideKeeps(w, env, q, now, reason);
    case DoOther(event) => OtherKeeps(w, env, event);
  }

  /** Every step only adds to the log. */
  lemma StepGrows(w: World, c: Command, env: Env)
    ensures Grows(w.store, Step(w, c, env).store)
  {
    match c
    case DoApprove(q, now) =>
      if Confirmed(q, env, now).Success? { ApproveGrows(w.store, q.preview.value, env, now, q.current); }
    case DoOverride(q, now, reason) => OverrideAddsOnly(w.store, q, env, now, reason);
    case DoOther(event) =>
  }

  lemma ApproveGrows(s: Store, core: Core, env: Env, now: Instant, current: bool)
    ensures Grows(s, ApproveCore(s, core, env, now, current).0)
  {
  }

  lemma {:induction false} Reachable(s: Store, cs: seq<Command>, env: Env)
    requires Fresh(s)
    ensures Inv(Run(World(s, []), cs, env), env)
    decreases |cs|
  {
    if cs != [] {
      Reachable(s, cs[..|cs| - 1], env);
      StepKeeps(Run(World(s, []), cs[..|cs| - 1], env), cs[|cs| - 1], env);
    }
  }

  /** In every reachable store, each approval row is approved, and the log holds an event that both decoders turn into
      the record the row was written from. */
  lemma RowsHaveEvents(s: Store, cs: seq<Command>, env: Env, k: RevisionKey)
    requires Fresh(s) && k in Run(World(s, []), cs, env).store.approvals
    ensures var s' := Run(World(s, []), cs, env).store;
      var row := s'.approvals[k];
      && EventIdOf(row.approvalId).Some? && EventKey(k.repositoryId, EventIdOf(row.approvalId).value) in s'.log
      && var event := s'.log[EventKey(k.repositoryId, EventIdOf(row.approvalId).value)];
      && DecodeApproval(event).Some? && DecodeForDelivery(event) == DecodeApproval(event)
      && row == RowFor(DecodeApproval(event).value)
  {
    Reachable(s, cs, env);
    var s' := Run(World(s, []), cs, env).store;
    assert RowIsBacked(s', k);
  }

  // ---------- replay over runs ----------

  /** The command does not confirm another preview of the same revision. */
  predicate Spares(c: Command, core: Core) {
    c.DoApprove? && c.q.preview.Some? && KeyOf(c.q.preview.value) == KeyOf(core) ==> c.q.preview.value == core
  }

  lemma ApproveSpares(s: Store, other: Core, env: Env, now: Instant, current: bool, core: Core, r: ApprovalRecord)
    requires Standing(s, core, env, r) && (KeyOf(other) == KeyOf(core) ==> other == core)
    ensures Standing(ApproveCore(s, other, env, now, current).0, core, env, r)
  {
    var (s', written) := ApproveCore(s, other, env, now, current);
    if other == core {
      StandingBlocksWrite(s, core, env, now, current, r);
    } else {
      ApproveOutcomes(s, other, env, now, current);
      ApproveGrows(s, other, env, now, current);
      if s' != s { WriteAdds(s, KeyOf(other), written.value, s'); }
      StandingStays(s, s', core, env, r);
    }
  }

  lemma OverrideAddsOnly(s: Store, q: Request, env: Env, now: Instant, reason: Reason)
    ensures var s' := OverrideSecretFinding(s, q, env, now, reason).0; Grows(s, s') && s'.approvals == s.approvals
  {
  }

  lemma StepSpares(w: World, c: Command, env: Env, core: Core, r: ApprovalRecord)
    requires Standing(w.store, core, env, r) && Spares(c, core)
    ensures Standing(Step(w, c, env).store, core, env, r)
  {
    match c
    case DoApprove(q, now) =>
      if Confirmed(q, env, now).Success? { ApproveSpares(w.store, q.preview.value, env, now, q.current, core, r); }
    case DoOverride(q, now, reason) =>
      OverrideAddsOnly(w.store, q, env, now, reason);
      StandingStays(w.store, Step(w, c, env).store, core, env, r);
    case DoOther(event) => StandingStays(w.store, Step(w, c, env).store, core, env, r);
  }

  lemma StandingBlocksWrite(s: Store, core: Core, env: Env, now: Instant, current: bool, r: ApprovalRecord)
    requires Standing(s, core, env, r)
    ensures ApproveCore(s, core, env, now, current).0 == s
  {
  }

  /** Whenever confirming `core` succeeds, it returns `r` and writes nothing. */
  ghost predicate AlwaysReturns(s: Store, core: Core, env: Env, r: ApprovalRecord) {
    forall now: Instant, current: bool ::
      var result := ApproveCore(s, core, env, now, current); result.1.Success? ==> result == (s, Success(r))
  }

  function ApprovalKey(core: Core, env: Env): EventKey {
    EventKey(core.repositoryId, ApprovalEventId(env.digest(core)))
  }

  /** The log holds the approval `r` of `core`. */
  predicate Logged(s: Store, core: Core, env: Env, r: ApprovalRecord) {
    ApprovalKey(core, env) in s.log && DecodeApproval(s.log[ApprovalKey(core, env)]) == Some(r)
  }

  lemma ApprovedIsLogged(s: Store, core: Core, env: Env, now: Instant, current: bool)
    requires ApproveCore(s, core, env, now, current).1.Success?
    ensures var (s', r) := ApproveCore(s, core, env, now, current); Logged(s', core, env, r.value)
  {
    ApprovedStands(s, core, env, now, current);
    var (s', r) := ApproveCore(s, core, env, now, current);
    StandingIsLogged(s', core, env, r.value);
  }

  lemma StandingIsLogged(s: Store, core: Core, env: Env, r: ApprovalRecord)
    requires Standing(s, core, env, r)
    ensures Logged(s, core, env, r)
  {
    EventIdComesBack(env.digest(core));
  }

  /** A logged approval can only be returned, never written again. */
  lemma LoggedReturns(s: Store, core: Core, env: Env, now: Instant, current: bool, r: ApprovalRecord)
    requires Logged(s, core, env, r)
    ensures var result := ApproveCore(s, core, env, now, current);
      result.0 == s && (result.1.Success? ==> result.1.value == r && Standing(s, core, env, r))
  {
    var (s', answer) := ApproveCore(s, core, env, now, current);
    ApproveOutcomes(s, core, env, now, current);
    if answer.Success? {
      if s' == s { StandingIsLogged(s, core, env, answer.value); }
    }
  }

  /** What the service checks before it looks at the rows. */
  predicate Admitted(core: Core, env: Env, now: Instant, current: bool, r: ApprovalRecord) {
    env.valid(ApprovalEvent(RecordFor(core, env.digest(core), now, r.overrideHash))) && core.revision <= MAX_I64
      && current
  }

  lemma {:induction false} RunGrows(w: World, cs: seq<Command>, env: Env)
    ensures Grows(w.store, Run(w, cs, env).store)
    decreases |cs|
  {
    if cs != [] {
      RunGrows(w, cs[..|cs| - 1], env);
      StepGrows(Run(w, cs[..|cs| - 1], env), cs[|cs| - 1], env);
    }
  }

  /** Once a preview is approved, no run whatever extends it: in each later store, confirming it again writes nothing;
      and it succeeds, with the first record and its first expiry, exactly if that record still stands. */
  lemma ApprovalIsNeverExtended(w: World, cs: seq<Command>, env: Env, core: Core, r: ApprovalRecord, now: Instant,
                                current: bool)
    requires Logged(w.store, core, env, r)
    ensures var s := Run(w, cs, env).store;
      && AlwaysReturns(s, core, env, r) && ApproveCore(s, core, env, now, current).0 == s
      && (ApproveCore(s, core, env, now, current).1.Success?
          <==> Standing(s, core, env, r) && Admitted(core, env, now, current, r))
  {
    RunGrows(w, cs, env);
    var s := Run(w, cs, env).store;
    forall at: Instant, now: bool | ApproveCore(s, core, env, at, now).1.Success?
      ensures ApproveCore(s, core, env, at, now) == (s, Success(r))
    {
      LoggedReturns(s, core, env, at, now, r);
    }
    LoggedReturns(s, core, env, now, current, r);
    if Standing(s, core, env, r) && Admitted(core, env, now, current, r) { ReplayReturnsFirst(s, core, env, now, r); }
  }

  /** The row of the revision is that of another approval. */
  predicate Replaced(s: Store, core: Core, env: Env) {
    KeyOf(core) in s.approvals && s.approvals[KeyOf(core)].approvalId != ApprovalId(env.digest(core))
  }

  lemma ReplacedBlocks(s: Store, core: Core, env: Env, r: ApprovalRecord)
    requires Replaced(s, core, env)
    ensures !Standing(s, core, env, r)
  {
  }

  /** Approving another preview of the revision replaces the row. */
  lemma OtherStandingReplaces(s: Store, core: Core, other: Core, env: Env, r: ApprovalRecord)
    requires Injective(env) && Standing(s, other, env, r) && KeyOf(other) == KeyOf(core) && other != core
    ensures Replaced(s, core, env)
  {
    var row := s.approvals[KeyOf(core)];
    assert row.approvalId == ApprovalId(env.digest(other));
    assert env.digest(other) != env.digest(core);
    assert ApprovalId(env.digest(other))[9..] == env.digest(other)
      && ApprovalId(env.digest(core))[9..] == env.digest(core);
  }

  lemma WriteKeepsReplaced(s: Store, other: Core, env: Env, now: Instant, current: bool, core: Core, r: ApprovalRecord)
    requires Logged(s, core, env, r) && Replaced(s, core, env)
    ensures Replaced(ApproveCore(s, other, env, now, current).0, core, env)
  {
    var (s', written) := ApproveCore(s, other, env, now, current);
    ApproveOutcomes(s, other, env, now, current);
    if s' != s {
      WriteAdds(s, KeyOf(other), written.value, s');
      if KeyOf(other) == KeyOf(core) {
        assert ApprovalKey(other, env) !in s.log;
        assert env.digest(other) != env.digest(core);
        assert ApprovalId(env.digest(other))[9..] == env.digest(other)
          && ApprovalId(env.digest(core))[9..] == env.digest(core);
      }
    }
  }

  lemma {:induction false} ReplacedStays(w: World, cs: seq<Command>, env: Env, core: Core, r: ApprovalRecord)
    requires Logged(w.store, core, env, r) && Replaced(w.store, core, env)
    ensures Replaced(Run(w, cs, env).store, core, env)
    decreases |cs|
  {
    if cs != [] {
      var front := Run(w, cs[..|cs| - 1], env);
      ReplacedStays(w, cs[..|cs| - 1], env, core, r);
      RunGrows(w, cs[..|cs| - 1], env);
      match cs[|cs| - 1]
      case DoApprove(q, now) =>
        if Confirmed(q, env, now).Success? {
          WriteKeepsReplaced(front.store, q.preview.value, env, now, q.current, core, r);
        }
      case DoOverride(q, now, reason) => OverrideAddsOnly(front.store, q, env, now, reason);
      case DoOther(event) =>
    }
  }

  /** A preview that was approved and then replaced by another preview of its revision can never be approved again:
      after every later run, confirming it fails and writes nothing. */
  lemma ReplacedIsGone(w: World, cs: seq<Command>, env: Env, core: Core, other: Core, r: ApprovalRecord,
                       o: ApprovalRecord, now: Instant, current: bool)
    requires Injective(env) && Logged(w.store, core, env, r)
    requires Standing(w.store, other, env, o) && KeyOf(other) == KeyOf(core) && other != core
    ensures var s := Run(w, cs, env).store;
      ApproveCore(s, core, env, now, current).0 == s && ApproveCore(s, core, env, now, current).1.Failure?
  {
    OtherStandingReplaces(w.store, core, other, env, o);
    ReplacedStays(w, cs, env, core, r);
    ReplacedBlocks(Run(w, cs, env).store, core, env, r);
    ApprovalIsNeverExtended(w, cs, env, core, r, now, current);
  }

  /** The record of a preview stands through every run that does not confirm another preview of the same revision. */
  lemma {:induction false} StandsWhileSpared(w: World, cs: seq<Command>, env: Env, core: Core, r: ApprovalRecord)
    requires Standing(w.store, core, env, r) && forall i :: 0 <= i < |cs| ==> Spares(cs[i], core)
    ensures Standing(Run(w, cs, env).store, core, env, r)
    decreases |cs|
  {
    if cs != [] {
      var front := Run(w, cs[..|cs| - 1], env);
      StandsWhileSpared(w, cs[..|cs| - 1], env, core, r);
      StepSpares(front, cs[|cs| - 1], env, core, r);
    }
  }

  /** While a record stands, the check is valid exactly until it or the draft expires. */
  lemma ValidUntilExpiry(s: Store, core: Core, env: Env, r: ApprovalRecord, now: nat)
    requires Standing(s, core, env, r) && ExpiryIsCoherent(r) && core.revision <= MAX_I64
    ensures CheckCurrent(s, Some(core), env, now)
      == if now >= core.draftExpiresAt then Invalid(PreviewInvalid)
         else if now >= r.expiresAt then Invalid(ApprovalExpired)
         else Valid(r)
  {
  }

  // ---------- the operator's confirmations ----------

  /** The operator, at a terminal, confirmed the hash of this preview, which was current and not expired. */
  predicate AtTerminal(q: Request, at: Instant, env: Env, core: Core) {
    q.preview == Some(core) && q.tty == true && q.confirmedHash == env.digest(core)
    && at.unixSeconds < core.draftExpiresAt
  }

  /** The command is this confirmation. */
  predicate Gives(command: Command, env: Env, c: Confirmation) {
    match c
    case ConfirmedApproval(core, at, _) =>
      command.DoApprove? && command.now == at && AtTerminal(command.q, at, env, core)
    case ConfirmedOverride(core, at, reason) =>
      command.DoOverride? && command.now == at && command.reason == reason && AtTerminal(command.q, at, env, core)
  }

  ghost predicate Given(cs: seq<Command>, env: Env, c: Confirmation) {
    exists j :: 0 <= j < |cs| && Gives(cs[j], env, c)
  }

  /** What a step adds to the history is what its command gave. */
  lemma StepGives(w: World, c: Command, env: Env, i: nat)
    requires |w.history| <= i < |Step(w, c, env).history|
    ensures Gives(c, env, Step(w, c, env).history[i])
  {
  }

  lemma StepRemembers(w: World, c: Command, env: Env)
    ensures w.history <= Step(w, c, env).history
  {
  }

  /** In every run each confirmation of the history was given by a command of the run. */
  lemma {:induction false} HistoryIsGiven(s: Store, cs: seq<Command>, env: Env, i: nat)
    requires i < |Run(World(s, []), cs, env).history|
    ensures Given(cs, env, Run(World(s, []), cs, env).history[i])
    decreases |cs|
  {
    if cs != [] {
      var n := |cs| - 1;
      var front := Run(World(s, []), cs[..n], env);
      StepRemembers(front, cs[n], env);
      if i < |front.history| {
        HistoryIsGiven(s, cs[..n], env, i);
        var j :| 0 <= j < n && Gives(cs[..n][j], env, front.history[i]);
        assert cs[..n][j] == cs[j];
      } else {
        StepGives(front, cs[n], env, i);
      }
    }
  }

  lemma RememberedIsGiven(s: Store, cs: seq<Command>, env: Env, c: Confirmation)
    requires Remembered(Run(World(s, []), cs, env).history, c)
    ensures Given(cs, env, c)
  {
    var i :| 0 <= i < |Run(World(s, []), cs, env).history| && Run(World(s, []), cs, env).history[i] == c;
    HistoryIsGiven(s, cs, env, i);
  }

  /** Without a current preview, a terminal, or the preview's own hash, neither an approval nor an override is given,
      and nothing is written. */
  lemma UnconfirmedIsRefused(s: Store, q: Request, env: Env, now: Instant, reason: Reason)
    requires forall core :: !AtTerminal(q, now, env, core)
    ensures var e :=
              if q.preview == None || now.unixSeconds >= q.preview.value.draftExpiresAt then InvalidPreview
              else if q.tty == false then TtyRequired
              else ConfirmationMismatch;
            Approve(s, q, env, now) == (s, Failure(e))
            && OverrideSecretFinding(s, q, env, now, reason) == (s, Failure(e))
  {
    assert q.preview.Some? ==> !AtTerminal(q, now, env, q.preview.value);
  }

  // ---------- what a valid check means ----------

  /** `r` is the record of an earlier confirmation of `core`, still within its time, and, if the scan is blocked, `core`
      was overridden too. */
  predicate Authorised(history: seq<Confirmation>, core: Core, env: Env, now: nat, r: ApprovalRecord, a: Confirmation,
                       o: Confirmation) {
    && a.ConfirmedApproval? && a.core == core && Remembered(history, a)
    && r == RecordFor(core, env.digest(core), a.at, a.overrideHash)
    && now < Min(SaturatingAdd(a.at.unixSeconds, APPROVAL_LIFETIME), core.draftExpiresAt)
    && (core.blocked ==> o.ConfirmedOverride? && o.core == core && Remembered(history, o))
  }

  lemma ValidFacts(s: Store, core: Core, env: Env, now: nat, r: ApprovalRecord)
    requires CheckCurrent(s, Some(core), env, now) == Valid(r)
    ensures KeyOf(core) in s.approvals && Persisted(s, core.repositoryId, s.approvals[KeyOf(core)]) == Some(r)
    ensures s.approvals[KeyOf(core)].state == RowApproved && core.revision <= MAX_I64
    ensures now < core.draftExpiresAt && now < r.expiresAt && ExpiryIsCoherent(r)
    ensures Binds(r, core, env.digest(core), r.overrideHash) && CheckedOverride(s, core, env) == Success(r.overrideHash)
    ensures core.blocked ==> r.overrideHash.Some?
  {
  }

  lemma CheckedIsStored(s: Store, core: Core, env: Env, overrideHash: Option<string>)
    requires CheckedOverride(s, core, env) == Success(overrideHash) && core.blocked && overrideHash.Some?
    ensures OverrideStored(s, core, env, overrideHash.value)
  {
  }

  lemma StoredOverrideWasConfirmed(w: World, core: Core, env: Env, hash: string) returns (o: Confirmation)
    requires Inv(w, env) && Injective(env) && OverrideStored(w.store, core, env, hash)
    ensures o.ConfirmedOverride? && o.core == core && Remembered(w.history, o)
    ensures hash == env.overrideDigest(OverrideFor(core, env.digest(core), o.at, o.reason))
    ensures w.store.log[EventKey(core.repositoryId, OverrideEventId(env.digest(core)))]
      == OverrideEvent(OverrideFor(core, env.digest(core), o.at, o.reason))
  {
    var key := EventKey(core.repositoryId, OverrideEventId(env.digest(core)));
    var event := w.store.log[key];
    assert Explained(w, env, event);
    o :| WroteOverride(w, env, event, o);
    OverrideSurvives(o.core, env.digest(o.core), o.at, o.reason);
    assert env.digest(o.core) == env.digest(core);
  }

  lemma PersistedWasConfirmed(w: World, core: Core, env: Env, r: ApprovalRecord) returns (a: Confirmation)
    requires Inv(w, env) && Injective(env) && KeyOf(core) in w.store.approvals
    requires Persisted(w.store, core.repositoryId, w.store.approvals[KeyOf(core)]) == Some(r)
             && r.previewHash == env.digest(core)
    ensures a.ConfirmedApproval? && a.core == core && Remembered(w.history, a)
    ensures r == RecordFor(core, env.digest(core), a.at, a.overrideHash) && a.at.unixSeconds < core.draftExpiresAt
    ensures a.overrideHash.Some? <==> core.blocked
    ensures core.blocked ==> OverrideStored(w.store, core, env, a.overrideHash.value)
  {
    var row := w.store.approvals[KeyOf(core)];
    var event := w.store.log[EventKey(core.repositoryId, EventIdOf(row.approvalId).value)];
    assert Explained(w, env, event);
    a :| WroteApproval(w, env, event, a);
    RecordSurvives(a.core, env.digest(a.core), a.at, a.overrideHash);
    assert env.digest(a.core) == env.digest(core);
  }

  lemma ValidIsAuthorised(w: World, env: Env, core: Core, now: nat, r: ApprovalRecord)
      returns (a: Confirmation, o: Confirmation)
    requires Inv(w, env) && Injective(env) && CheckCurrent(w.store, Some(core), env, now) == Valid(r)
    ensures Authorised(w.history, core, env, now, r, a, o)
  {
    ValidFacts(w.store, core, env, now, r);
    a := PersistedWasConfirmed(w, core, env, r);
    o := a;
    if core.blocked {
      CheckedIsStored(w.store, core, env, r.overrideHash);
      o := StoredOverrideWasConfirmed(w, core, env, r.overrideHash.value);
    }
  }

  /** In every reachable store a valid check goes back to a confirmation of the very same preview, not yet expired, and
      to an override of it where the scan is blocked; both were given by the operator at a terminal, for its hash. */
  lemma ValidMeansConfirmed(s: Store, cs: seq<Command>, env: Env, core: Core, now: nat, r: ApprovalRecord)
      returns (a: Confirmation, o: Confirmation)
    requires Fresh(s) && Injective(env)
    requires CheckCurrent(Run(World(s, []), cs, env).store, Some(core), env, now) == Valid(r)
    ensures Authorised(Run(World(s, []), cs, env).history, core, env, now, r, a, o)
    ensures Given(cs, env, a) && (core.blocked ==> Given(cs, env, o))
  {
    Reachable(s, cs, env);
    a, o := ValidIsAuthorised(Run(World(s, []), cs, env), env, core, now, r);
    RememberedIsGiven(s, cs, env, a);
    if core.blocked { RememberedIsGiven(s, cs, env, o); }
  }

  // ---------- the two crates ----------

  lemma OverrideHoldsWhenStored(w: World, core: Core, env: Env, hash: string)
    requires Inv(w, env) && Injective(env) && OverrideStored(w.store, core, env, hash)
    ensures OverrideHolds(w.store, core, env, hash)
  {
  }

  lemma StoredWhenOverrideHolds(w: World, core: Core, env: Env, hash: string)
    requires Inv(w, env) && OverrideHolds(w.store, core, env, hash)
    ensures OverrideStored(w.store, core, env, hash)
  {
  }

  /** The claim's own validation of an approval, given by id, hash and expiry, passes exactly when the approval
      service's check is valid with that approval. */
  lemma CratesAgree(w: World, core: Core, env: Env, now: nat, approvalId: string, approvalHash: string, expiresAt: nat)
    requires Inv(w, env) && Injective(env) && now < core.draftExpiresAt <= MAX_U64
    ensures HumanApprovalHolds(w.store, core, env, now, approvalId, approvalHash, expiresAt)
      <==> var check := CheckCurrent(w.store, Some(core), env, now);
           && check.Valid? && check.record.approvalId == approvalId
           && env.approvalDigest(check.record) == approvalHash && check.record.expiresAt == expiresAt
  {
    var check := CheckCurrent(w.store, Some(core), env, now);
    if HumanApprovalHolds(w.store, core, env, now, approvalId, approvalHash, expiresAt) {
      HeldIsValid(w, core, env, now, approvalId, approvalHash, expiresAt);
    }
    if check.Valid? { ValidHolds(w, core, env, now, check.record); }
  }

  lemma ValidHolds(w: World, core: Core, env: Env, now: nat, r: ApprovalRecord)
    requires Inv(w, env) && Injective(env) && now < core.draftExpiresAt <= MAX_U64
    requires CheckCurrent(w.store, Some(core), env, now) == Valid(r)
    ensures HumanApprovalHolds(w.store, core, env, now, r.approvalId, env.approvalDigest(r), r.expiresAt)
  {
    ValidFacts(w.store, core, env, now, r);
    var a := PersistedWasConfirmed(w, core, env, r);
    RecordSurvives(core, env.digest(core), a.at, a.overrideHash);
    EventIdComesBack(env.digest(core));
    assert RowIsBacked(w.store, KeyOf(core));
    if core.blocked {
      CheckedIsStored(w.store, core, env, r.overrideHash);
      OverrideHoldsWhenStored(w, core, env, r.overrideHash.value);
    }
  }

  lemma HeldIsValid(w: World, core: Core, env: Env, now: nat, approvalId: string, approvalHash: string, expiresAt: nat)
    requires Inv(w, env) && Injective(env) && now < core.draftExpiresAt
    requires HumanApprovalHolds(w.store, core, env, now, approvalId, approvalHash, expiresAt)
    ensures var check := CheckCurrent(w.store, Some(core), env, now);
      && check.Valid? && check.record.approvalId == approvalId
      && env.approvalDigest(check.record) == approvalHash && check.record.expiresAt == expiresAt
  {
    var key := KeyOf(core);
    var row := w.store.approvals[key];
    assert RowIsBacked(w.store, key);
    var r := Persisted(w.store, core.repositoryId, row).value;
    EventIdComesBack(r.previewHash);
    DecodersAgree(w.store.log[EventKey(core.repositoryId, EventIdOf(row.approvalId).value)]);
    var a := PersistedWasConfirmed(w, core, env, r);
    if core.blocked { StoredWhenOverrideHolds(w, core, env, r.overrideHash.value); }
    assert CheckRecord(w.store, core, env, now, r) == Valid(r);
  }
}
