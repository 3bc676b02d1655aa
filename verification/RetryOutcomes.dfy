/** What the log says of an attempt against what happened to its request: each recorded outcome is that of the last
    request made for the attempt. */
module RetryOutcomes {
  import opened Wrappers
  import opened Text
  import opened Delivery
  import opened DeliverySafety
  import opened DeliveryRuns
  import opened DeliveryProgress
  import opened Retry
  import opened RetryDriver

  /** State, error code and message id that an outcome leaves its attempt with. */
  datatype Telling = Telling(state: DeliveryState, code: Option<string>, messageId: Option<string>)

  function Told(o: TransportOutcome): Telling {
    match o
    case Delivered(messageId) => Telling(Accepted, None, Some(messageId))
    case DefinitiveFailure(code) => Telling(Failed, Some(code), None)
    case Uncertain(Timeout) => Telling(Unknown, Some("post-dispatch-timeout"), None)
    case Uncertain(ConnectionReset) => Telling(Unknown, Some("post-dispatch-connection-reset"), None)
    case Uncertain(ServerResponse(_)) => Telling(Unknown, Some("post-dispatch-server-response"), None)
    case Uncertain(InvalidResponse) => Telling(Unknown, Some("invalid-success-response"), None)
    case Uncertain(ResponseReadFailed) => Telling(Unknown, Some("response-read-failed"), None)
    case PreDispatch(_) => Telling(RetryWait, Some("retry-wait"), None)
    case RateLimited(_) => Telling(RetryWait, Some("retry-wait"), None)
  }

  /** There is nothing to wait for: no attempt is left, or Discord did not say how long. */
  predicate Exhausted(p: RetryPolicy, r: AttemptRecord) {
    || (r.outcome.PreDispatch? && r.number >= p.maxAttempts)
    || (r.outcome.RateLimited? && (r.number >= p.maxAttempts || r.outcome.retryAfter.None?))
  }

  /** The decision is the policy's on this request. */
  ghost predicate Decided(p: RetryPolicy, r: AttemptRecord) {
    1 <= r.number <= p.maxAttempts
    && exists jitter: Option<nat> :: r.decision == p.Classify(r.number, r.outcome, jitter)
  }

  function LastOf(d: Drive): AttemptRecord
    requires d.records != []
  {
    d.records[|d.records| - 1]
  }

  /** The request for a transition that tells the outcome of `r`. */
  function Telled(permit: Permit, r: AttemptRecord, at: string, actor: string): TransitionRequest {
    var t := Told(r.outcome);
    TransitionRequest(permit.key, permit.attemptId, t.state, at, t.code, t.messageId, actor)
  }

  /** A decision is recorded as what happened, unless there is nothing to wait for. */
  lemma DecisionTells(p: RetryPolicy, permit: Permit, r: AttemptRecord, at: string, actor: string)
    requires Decided(p, r)
    ensures DecisionRequest(permit, r.decision, at, actor)
      == if Exhausted(p, r) then None else Some(Telled(permit, r, at, actor))
  {
    var jitter: Option<nat> :| r.decision == p.Classify(r.number, r.outcome, jitter);
    WaitIffSafe(p, r.number, r.outcome, jitter);
  }

  // ---------- every recorded outcome happened ----------

  /** Row and state of an attempt are what this drive tells. */
  predicate TellsOf(row: Row, state: DeliveryState, drive: Option<Drive>) {
    && drive.Some? && drive.value.records != []
    && var t := Told(LastOf(drive.value).outcome);
    state == t.state && row.failureCode == t.code && row.messageId == t.messageId
  }

  ghost predicate AllDecided(p: RetryPolicy, d: Drive) {
    forall k :: 0 <= k < |d.records| ==> Decided(p, d.records[k])
  }

  ghost predicate Truthful(p: RetryPolicy, s: Store, drives: seq<Option<Drive>>) {
    && |drives| == |s.rows|
    && (forall i :: 0 <= i < |drives| && !StateOf(s.log, s.rows[i]).Claimed? ==>
          TellsOf(s.rows[i], StateOf(s.log, s.rows[i]), drives[i]))
    && (forall i :: 0 <= i < |drives| && drives[i].Some? ==> AllDecided(p, drives[i].value))
  }

  /** A transition that changes the store gives row `i` its outcome and leaves all others alone. */
  ghost predicate Gives(s: Store, q: TransitionRequest, i: nat, s': Store) {
    && i < |s.rows| && StateOf(s.log, s.rows[i]).Claimed? && s'.rows == s.rows[i := UpdatedRow(s.rows[i], q)]
    && s.rows[i].messageId.None? && s.rows[i].failureCode.None?
    && StateOf(s'.log, s'.rows[i]) == q.state
    && forall j :: 0 <= j < |s.rows| && j != i ==> StateOf(s'.log, s.rows[j]) == StateOf(s.log, s.rows[j])
  }

  lemma ChangedGives(b: Boundary, s: Store, q: TransitionRequest, i: nat)
    requires Inv(b, s) && i < |s.rows| && IsAttempt(s.rows[i], q.key.repository, q.attemptId)
    requires TransitionStep(b, s, q).0 != s
    ensures Recordable(b, s, q) && OutcomeShape(q) && Gives(s, q, i, TransitionStep(b, s, q).0)
  {
    if !Recordable(b, s, q) { UnrecordableIsRefused(b, s, q); }
    RecordableGives(b, s, q, i);
  }

  lemma SettledGives(b: Boundary, s: Store, q: TransitionRequest, i: nat, s': Store, e: Event)
    requires Inv(b, s) && Settles(b, s, q, i, s', e)
    ensures Gives(s, q, i, s')
  {
    assert RowAgrees(b, s.log, s.rows[i]);
    SettledRow(b, s, q, i, s', e);
    SettleStates(b, s, q, i, s', e);
    forall j | 0 <= j < |s.rows| && j != i ensures StateOf(s'.log, s.rows[j]) == StateOf(s.log, s.rows[j]) {
      assert !IsAttempt(s.rows[j], q.key.repository, q.attemptId);
      assert s'.rows[j] == s.rows[j];
    }
  }

  lemma GivesTruth(p: RetryPolicy, s: Store, drives: seq<Option<Drive>>, q: TransitionRequest, i: nat, s': Store)
    requires Truthful(p, s, drives) && Gives(s, q, i, s') && OutcomeShape(q)
    requires drives[i].Some? && drives[i].value.records != []
    requires Told(LastOf(drives[i].value).outcome) == Telling(q.state, q.errorCode, q.messageId)
    ensures Truthful(p, s', drives)
  {
    forall j | 0 <= j < |drives| && !StateOf(s'.log, s'.rows[j]).Claimed?
      ensures TellsOf(s'.rows[j], StateOf(s'.log, s'.rows[j]), drives[j]) {
      if j != i { assert s'.rows[j] == s.rows[j]; }
    }
  }

  lemma LastIsDecided(p: RetryPolicy, first: nat, d: Drive)
    requires ValidDrive(p, first, d) && AllDecided(p, d) && d.decision.Some?
    ensures d.records != [] && Decided(p, LastOf(d)) && d.decision.value == LastOf(d).decision
  {
  }

  /** The store after recording the decision of drive `i`. */
  lemma RecordingIs(b: Boundary, p: RetryPolicy, d: Driven, i: nat, at: string, actor: string)
    requires DrivenInv(b, p, d) && Truthful(p, d.world.store, d.drives)
    requires i < |d.drives| && d.drives[i].Some? && d.drives[i].value.decision.Some?
    ensures d.drives[i].value.records != []
    ensures var r := LastOf(d.drives[i].value);
            Act(b, p, d, RecordDecision(i, at, actor))
            == if Exhausted(p, r) then d
               else d.(world := Step(b, d.world, Transition(Telled(PermitOf(d.world.store.rows[i]), r, at, actor))))
  {
    assert d.world.permits[i] == PermitOf(d.world.store.rows[i]);
    LastIsDecided(p, d.world.store.rows[i].number, d.drives[i].value);
    DecisionTells(p, d.world.permits[i], LastOf(d.drives[i].value), at, actor);
  }

  lemma RecordTruthful(b: Boundary, p: RetryPolicy, d: Driven, i: nat, at: string, actor: string)
    requires DrivenInv(b, p, d) && Truthful(p, d.world.store, d.drives)
    ensures var d' := Act(b, p, d, RecordDecision(i, at, actor)); Truthful(p, d'.world.store, d'.drives)
  {
    if i < |d.drives| && d.drives[i].Some? && d.drives[i].value.decision.Some? {
      RecordingIs(b, p, d, i, at, actor);
      var r := LastOf(d.drives[i].value);
      var q := Telled(PermitOf(d.world.store.rows[i]), r, at, actor);
      if !Exhausted(p, r) && TransitionStep(b, d.world.store, q).0 != d.world.store {
        ChangedGives(b, d.world.store, q, i);
        GivesTruth(p, d.world.store, d.drives, q, i, TransitionStep(b, d.world.store, q).0);
      }
    }
  }

  lemma GrantedTruthful(p: RetryPolicy, s: Store, drives: seq<Option<Drive>>, key: RevisionKey, s': Store,
                        attempt: DeliveryAttempt)
    requires Truthful(p, s, drives) && Granted(s, s', key, attempt) && StateOf(s'.log, s'.rows[|s.rows|]).Claimed?
    ensures Truthful(p, s', drives + [None])
  {
    forall j | 0 <= j < |s.rows| ensures s'.rows[j] == s.rows[j] { assert s'.rows[..|s.rows|][j] == s'.rows[j]; }
    var next := drives + [None];
    forall j | 0 <= j < |next| && !StateOf(s'.log, s'.rows[j]).Claimed?
      ensures TellsOf(s'.rows[j], StateOf(s'.log, s'.rows[j]), next[j]) {
      assert j < |s.rows|;
      assert next[j] == drives[j];
    }
    forall j | 0 <= j < |next| && next[j].Some? ensures AllDecided(p, next[j].value) { assert next[j] == drives[j]; }
  }

  lemma ClaimTruthful(b: Boundary, p: RetryPolicy, d: Driven, q: ClaimRequest, retry: bool)
    requires DrivenInv(b, p, d) && Truthful(p, d.world.store, d.drives)
    ensures var d' := Act(b, p, d, ClaimNext(q, retry)); Truthful(p, d'.world.store, d'.drives)
  {
    var s := d.world.store;
    ClaimEffect(b, s, q, retry);
    var (s', r) := ClaimStep(b, s, q, retry);
    AfterClaimIs(d.world, q, retry, s', r);
    if r.Success? && r.value.permit {
      Loads(b, s', |s.rows|);
      GrantedTruthful(p, s, d.drives, q.key, s', r.value.attempt);
    }
  }

  lemma DriveTruthful(p: RetryPolicy, s: Store, drives: seq<Option<Drive>>, i: nat, drive: Drive)
    requires Truthful(p, s, drives) && i < |drives| && drives[i].None? && AllDecided(p, drive)
    ensures Truthful(p, s, drives[i := Some(drive)])
  {
  }

  lemma SendTruthful(b: Boundary, p: RetryPolicy, d: Driven, i: nat, outcome: TransportOutcome, jitter: Option<nat>)
    requires DrivenInv(b, p, d) && Truthful(p, d.world.store, d.drives)
    ensures var d' := Act(b, p, d, SendOnce(i, outcome, jitter)); Truthful(p, d'.world.store, d'.drives)
  {
    if i < |d.drives| && d.drives[i].None? {
      var n := d.world.permits[i].number;
      assert n == d.world.store.rows[i].number;
      var decision := p.Classify(n, outcome, jitter);
      assert Decided(p, AttemptRecord(n, outcome, decision));
      DriveTruthful(p, d.world.store, d.drives, i, Drive([AttemptRecord(n, outcome, decision)], Some(decision)));
    }
  }

  lemma RunTruthful(b: Boundary, p: RetryPolicy, d: Driven, i: nat, made: seq<AttemptRecord>,
                    result: Result<RunResult, RunError>, jitter: Option<nat>)
    requires DrivenInv(b, p, d) && Truthful(p, d.world.store, d.drives)
    ensures var d' := Act(b, p, d, RunAfterClaim(i, made, result, jitter)); Truthful(p, d'.world.store, d'.drives)
  {
    if i < |d.drives| && d.drives[i].None? && Trace(p, jitter, d.world.permits[i].number, made)
       && Ended(p, d.world.permits[i].number, made, result) {
      var drive := Drive(made, if result.Success? then Some(result.value.decision) else None);
      forall k | 0 <= k < |made| ensures Decided(p, made[k]) {
        assert made[k].decision == p.Classify(made[k].number, made[k].outcome, jitter);
      }
      DriveTruthful(p, d.world.store, d.drives, i, drive);
    }
  }

  lemma AuditTruthful(b: Boundary, p: RetryPolicy, d: Driven, repository: string, eventId: string)
    requires DrivenInv(b, p, d) && Truthful(p, d.world.store, d.drives)
    ensures var d' := Act(b, p, d, Audit(repository, eventId)); Truthful(p, d'.world.store, d'.drives)
  {
    FrameAll(b, d.world.store.log, OtherEvent(repository, eventId), d.world.store.rows, -1);
  }

  lemma StepTruthful(b: Boundary, p: RetryPolicy, d: Driven, a: Action)
    requires DrivenInv(b, p, d) && Truthful(p, d.world.store, d.drives)
    ensures var d' := Act(b, p, d, a); Truthful(p, d'.world.store, d'.drives)
  {
    match a
    case ClaimNext(q, retry) => ClaimTruthful(b, p, d, q, retry);
    case SendOnce(i, outcome, jitter) => SendTruthful(b, p, d, i, outcome, jitter);
    case RunAfterClaim(i, made, result, jitter) => RunTruthful(b, p, d, i, made, result, jitter);
    case RecordDecision(i, at, actor) => RecordTruthful(b, p, d, i, at, actor);
    case Audit(repository, eventId) => AuditTruthful(b, p, d, repository, eventId);
  }

  /** Whatever claims, requests, runs and recordings happen: an attempt is shown accepted only if Discord took its last
      request, with Discord's message id; failed only if Discord refused it, with the code; unknown only if it may have
      arrived, with what went wrong; and waiting only if it surely did not arrive. */
  lemma {:induction false} RecordedAsHappened(b: Boundary, p: RetryPolicy, actions: seq<Action>)
    ensures var d := ActAll(b, p, actions); Truthful(p, d.world.store, d.drives)
    decreases |actions|
  {
    if actions != [] {
      var n := |actions| - 1;
      RecordedAsHappened(b, p, actions[..n]);
      StepTruthful(b, p, ActAll(b, p, actions[..n]), actions[n]);
    }
  }

  /** Recording what became of attempt `i`: its state is from then on what its last request tells, if that is open for
      the attempt, the log has room and no other attempt has the message; otherwise, and if the last request told to
      wait while nothing was left to wait for, all stays. */
  lemma RecordingTells(b: Boundary, p: RetryPolicy, actions: seq<Action>, i: nat, at: string, actor: string)
    requires var d := ActAll(b, p, actions); i < |d.drives| && d.drives[i].Some? && d.drives[i].value.decision.Some?
    ensures var d := ActAll(b, p, actions); var s := d.world.store;
            var s' := Act(b, p, d, RecordDecision(i, at, actor)).world.store;
            && d.drives[i].value.records != [] && |s'.rows| == |s.rows|
            && var r := LastOf(d.drives[i].value); var q := Telled(PermitOf(s.rows[i]), r, at, actor);
            if !Exhausted(p, r) && Recordable(b, s, q)
            then TellsOf(s'.rows[i], StateOf(s'.log, s'.rows[i]), d.drives[i]) else s' == s
  {
    var d := ActAll(b, p, actions);
    RecordedAsHappened(b, p, actions);
    RecordingIs(b, p, d, i, at, actor);
    var r := LastOf(d.drives[i].value);
    var q := Telled(PermitOf(d.world.store.rows[i]), r, at, actor);
    if Recordable(b, d.world.store, q) {
      FindsTheRow(d.world.store.rows, q.key.repository, q.attemptId, i);
      RecordableIsRecorded(b, d.world.store, q, i);
    } else {
      UnrecordableIsRefused(b, d.world.store, q);
    }
    if !Exhausted(p, r) && Recordable(b, d.world.store, q) {
      RecordableGives(b, d.world.store, q, i);
    }
  }

  lemma RecordableGives(b: Boundary, s: Store, q: TransitionRequest, i: nat)
    requires Inv(b, s) && i < |s.rows| && IsAttempt(s.rows[i], q.key.repository, q.attemptId) && Recordable(b, s, q)
    ensures OutcomeShape(q) && Gives(s, q, i, TransitionStep(b, s, q).0)
  {
    FindsTheRow(s.rows, q.key.repository, q.attemptId, i);
    RecordableReachesUpdate(b, s, q, i);
    RecordableIsRecorded(b, s, q, i);
    var e := ApplyIs(b, s, q, i);
    SettledGives(b, s, q, i, Store(s.rows[i := UpdatedRow(s.rows[i], q)], s.log + [e]), e);
  }
}
