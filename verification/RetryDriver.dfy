/** Claims, transport requests and recorded decisions together: how often one revision can be sent. */
module RetryDriver {
  import opened Wrappers
  import opened Delivery
  import opened DeliverySafety
  import opened DeliveryRuns
  import opened Retry

  /** What was done with a permit: the requests made, and the decision that may be recorded for them. */
  datatype Drive = Drive(records: seq<AttemptRecord>, decision: Option<RetryDecision>)

  /** The delivery world and, for each permit, what was done with it. */
  datatype Driven = Driven(world: World, drives: seq<Option<Drive>>)

  datatype Action =
    | ClaimNext(claim: ClaimRequest, retry: bool)
    | SendOnce(permit: nat, outcome: TransportOutcome, jitter: Option<nat>)         // one request, then `classify`
    | RunAfterClaim(permit: nat, made: seq<AttemptRecord>, result: Result<RunResult, RunError>, jitter: Option<nat>)
    | RecordDecision(permit: nat, completedAt: string, actor: string)
    | Audit(repository: string, eventId: string)

  const Idle := Driven(Start, [])

  /** `record_delivery_decision`: a stop is not recorded. */
  function DecisionRequest(permit: Permit, d: RetryDecision, completedAt: string,
                           actor: string): Option<TransitionRequest> {
    match d
    case Done(messageId) =>
      Some(TransitionRequest(permit.key, permit.attemptId, Accepted, completedAt, None, Some(messageId), actor))
    case Refused(code) => Some(TransitionRequest(permit.key, permit.attemptId, Failed, completedAt, Some(code), None,
                                                 actor))
    case Unproven(reason) =>
      Some(TransitionRequest(permit.key, permit.attemptId, Unknown, completedAt, Some(reason.Code()), None, actor))
    case Wait(_, _, _) =>
      Some(TransitionRequest(permit.key, permit.attemptId, RetryWait, completedAt, Some("retry-wait"), None, actor))
    case Stop(_, _) => None
  }

  ghost function Act(b: Boundary, p: RetryPolicy, d: Driven, a: Action): Driven
    requires |d.drives| == |d.world.permits|
  {
    match a
    case ClaimNext(q, retry) =>
      var w := Step(b, d.world, Claim(q, retry));
      Driven(w, if |w.permits| == |d.drives| + 1 then d.drives + [None] else d.drives)
    case SendOnce(i, outcome, jitter) =>
      if i < |d.drives| && d.drives[i].None? then
        var n := d.world.permits[i].number;
        var decision := p.Classify(n, outcome, jitter);
        d.(drives := d.drives[i := Some(Drive([AttemptRecord(n, outcome, decision)], Some(decision)))])
      else d
    case RunAfterClaim(i, made, result, jitter) =>
      if i < |d.drives| && d.drives[i].None? && Trace(p, jitter, d.world.permits[i].number, made)
         && Ended(p, d.world.permits[i].number, made, result) then
        d.(drives := d.drives[i := Some(Drive(made, if result.Success? then Some(result.value.decision) else None))])
      else d
    case RecordDecision(i, completedAt, actor) =>
      if i < |d.drives| && d.drives[i].Some? && d.drives[i].value.decision.Some? then
        var q := DecisionRequest(d.world.permits[i], d.drives[i].value.decision.value, completedAt, actor);
        if q.Some? then d.(world := Step(b, d.world, Transition(q.value))) else d
      else d
    case Audit(repository, eventId) => d.(world := Step(b, d.world, OtherAudit(repository, eventId)))
  }

  /** A request within the budget; it leads to a wait only if it left the message surely unsent and an attempt
      remains. */
  predicate Sound(p: RetryPolicy, r: AttemptRecord) {
    && 1 <= r.number <= p.maxAttempts
    && (r.decision.Wait? ==> r.number < p.maxAttempts && !r.outcome.MayHaveArrived() && p.WaitBounded(r.decision))
  }

  ghost predicate Consecutive(p: RetryPolicy, first: nat, rs: seq<AttemptRecord>) {
    && (forall k :: 0 <= k < |rs| ==> rs[k].number == first + k && Sound(p, rs[k]))
    && (forall k :: 0 <= k < |rs| - 1 ==> rs[k].decision.Wait?)
  }

  /** A recorded decision is the one of the last request, and it is a wait only after a single request. */
  ghost predicate ValidDrive(p: RetryPolicy, first: nat, d: Drive) {
    && Consecutive(p, first, d.records)
    && (d.decision.Some? ==> d.records != [] && d.decision.value == d.records[|d.records| - 1].decision
                             && (d.decision.value.Wait? ==> |d.records| == 1))
  }

  predicate SingleWait(d: Option<Drive>) {
    d.Some? && |d.value.records| == 1 && d.value.records[0].decision.Wait?
  }

  /** Drives match their attempts, and an attempt that waits for a retry has had exactly one request. */
  ghost predicate Fits(p: RetryPolicy, s: Store, drives: seq<Option<Drive>>) {
    && |drives| == |s.rows|
    && (forall i :: 0 <= i < |drives| ==> 1 <= s.rows[i].number <= p.maxAttempts)
    && (forall i :: 0 <= i < |drives| && drives[i].Some? ==> ValidDrive(p, s.rows[i].number, drives[i].value))
    && (forall i :: 0 <= i < |drives| && StateOf(s.log, s.rows[i]).RetryWait? ==> SingleWait(drives[i]))
  }

  ghost predicate DrivenInv(b: Boundary, p: RetryPolicy, d: Driven) {
    WorldInv(b, d.world) && Fits(p, d.world.store, d.drives)
  }

  /** A next attempt is still within the limit. */
  lemma NextNumber(p: RetryPolicy, s: Store, drives: seq<Option<Drive>>, key: RevisionKey, retry: bool)
    requires Fits(p, s, drives) && Numbered(s, key) && MayProceed(s, key, retry)
    ensures |AttemptsOf(s.rows, key)| + 1 <= p.maxAttempts
  {
    var a := AttemptsOf(s.rows, key);
    if retry {
      var i := Member(s.rows, key, |a| - 1);
      assert SingleWait(drives[i]) && ValidDrive(p, s.rows[i].number, drives[i].value);
      assert Sound(p, drives[i].value.records[0]);
    }
  }

  lemma GrantedFits(p: RetryPolicy, s: Store, drives: seq<Option<Drive>>, key: RevisionKey, s': Store,
                    attempt: DeliveryAttempt, retry: bool)
    requires Fits(p, s, drives) && Numbered(s, key) && MayProceed(s, key, retry) && Granted(s, s', key, attempt)
    requires StateOf(s'.log, s'.rows[|s.rows|]).Claimed?
    ensures Fits(p, s', drives + [None])
  {
    NextNumber(p, s, drives, key, retry);
    var next := drives + [None];
    forall i | 0 <= i < |next|
      ensures 1 <= s'.rows[i].number <= p.maxAttempts
              && (next[i].Some? ==> ValidDrive(p, s'.rows[i].number, next[i].value))
      ensures StateOf(s'.log, s'.rows[i]).RetryWait? ==> SingleWait(next[i])
    {
      if i < |s.rows| {
        assert s'.rows[i] == s'.rows[..|s.rows|][i] == s.rows[i];
        assert next[i] == drives[i];
      }
    }
  }

  lemma ClaimKeepsDriven(b: Boundary, p: RetryPolicy, d: Driven, q: ClaimRequest, retry: bool, s': Store,
                         r: Result<ClaimResult, Error>)
    requires DrivenInv(b, p, d) && Inv(b, s') && ClaimSpec(d.world.store, q, retry, s', r)
    ensures var w := AfterClaim(d.world, s', r);
            DrivenInv(b, p, Driven(w, if |w.permits| == |d.drives| + 1 then d.drives + [None] else d.drives))
  {
    AfterClaimIs(d.world, q, retry, s', r);
    if r.Success? && r.value.permit {
      var s := d.world.store;
      Loads(b, s', |s.rows|);
      assert Numbered(s, q.key);
      GrantedFits(p, s, d.drives, q.key, s', r.value.attempt, retry);
    }
  }

  lemma RecordFits(p: RetryPolicy, s: Store, drives: seq<Option<Drive>>, i: nat, q: TransitionRequest, s': Store)
    requires Fits(p, s, drives) && UniqueIds(s.rows) && i < |s.rows|
             && IsAttempt(s.rows[i], q.key.repository, q.attemptId)
    requires StatesAfter(s, q, s') && PermitsOf(s'.rows) == PermitsOf(s.rows)
    requires q.state.RetryWait? ==> SingleWait(drives[i])
    ensures Fits(p, s', drives)
  {
    forall j | 0 <= j < |s.rows|
      ensures s'.rows[j].number == s.rows[j].number
      ensures StateOf(s'.log, s'.rows[j]).RetryWait? ==> SingleWait(drives[j])
    {
      assert PermitsOf(s'.rows)[j] == PermitsOf(s.rows)[j];
      assert IsAttempt(s.rows[j], q.key.repository, q.attemptId) ==> j == i;
    }
  }

  lemma RecordKeepsDriven(b: Boundary, p: RetryPolicy, d: Driven, i: nat, q: TransitionRequest)
    requires DrivenInv(b, p, d) && i < |d.drives| && q.key == d.world.permits[i].key
             && q.attemptId == d.world.permits[i].attemptId
    requires q.state.RetryWait? ==> SingleWait(d.drives[i])
    ensures DrivenInv(b, p, d.(world := Step(b, d.world, Transition(q))))
  {
    StepKeeps(b, d.world, Transition(q));
    TransitionEffect(b, d.world.store, q);
    RecordIs(b, p, d, i, q, TransitionStep(b, d.world.store, q).0, TransitionStep(b, d.world.store, q).1);
  }

  lemma RecordIs(b: Boundary, p: RetryPolicy, d: Driven, i: nat, q: TransitionRequest, s': Store,
                 r: Result<DeliveryAttempt, Error>)
    requires DrivenInv(b, p, d) && i < |d.drives| && q.key == d.world.permits[i].key
             && q.attemptId == d.world.permits[i].attemptId
    requires q.state.RetryWait? ==> SingleWait(d.drives[i])
    requires TransitionSpec(d.world.store, q, s', r)
    ensures Fits(p, s', d.drives)
  {
    if s' != d.world.store {
      assert Settled(d.world.store, q, s', r.value);
      RecordFits(p, d.world.store, d.drives, i, q, s');
    }
  }

  lemma AuditKeepsDriven(b: Boundary, p: RetryPolicy, d: Driven, repository: string, eventId: string)
    requires DrivenInv(b, p, d)
    ensures DrivenInv(b, p, d.(world := Step(b, d.world, OtherAudit(repository, eventId))))
  {
    StepKeeps(b, d.world, OtherAudit(repository, eventId));
    FrameAll(b, d.world.store.log, OtherEvent(repository, eventId), d.world.store.rows, -1);
  }

  lemma DriveKeeps(b: Boundary, p: RetryPolicy, d: Driven, i: nat, drive: Drive)
    requires DrivenInv(b, p, d) && i < |d.drives| && d.drives[i].None?
             && ValidDrive(p, d.world.store.rows[i].number, drive)
    ensures DrivenInv(b, p, d.(drives := d.drives[i := Some(drive)]))
  {
  }

  lemma SendKeeps(b: Boundary, p: RetryPolicy, d: Driven, i: nat, outcome: TransportOutcome, jitter: Option<nat>)
    requires DrivenInv(b, p, d)
    ensures DrivenInv(b, p, Act(b, p, d, SendOnce(i, outcome, jitter)))
  {
    if i < |d.drives| && d.drives[i].None? {
      var n := d.world.permits[i].number;
      WaitIffSafe(p, n, outcome, jitter);
      DriveKeeps(b, p, d, i, Drive([AttemptRecord(n, outcome, p.Classify(n, outcome, jitter))],
                                   Some(p.Classify(n, outcome, jitter))));
    }
  }

  lemma RunnerKeeps(b: Boundary, p: RetryPolicy, d: Driven, i: nat, made: seq<AttemptRecord>,
                    result: Result<RunResult, RunError>, jitter: Option<nat>)
    requires DrivenInv(b, p, d)
    ensures DrivenInv(b, p, Act(b, p, d, RunAfterClaim(i, made, result, jitter)))
  {
    if i < |d.drives| && d.drives[i].None? && Trace(p, jitter, d.world.permits[i].number, made)
       && Ended(p, d.world.permits[i].number, made, result) {
      forall k | 0 <= k < |made| ensures Sound(p, made[k]) {
        WaitIffSafe(p, made[k].number, made[k].outcome, jitter);
      }
      DriveKeeps(b, p, d, i, Drive(made, if result.Success? then Some(result.value.decision) else None));
    }
  }

  lemma ClaimActKeeps(b: Boundary, p: RetryPolicy, d: Driven, q: ClaimRequest, retry: bool)
    requires DrivenInv(b, p, d)
    ensures DrivenInv(b, p, Act(b, p, d, ClaimNext(q, retry)))
  {
    ClaimEffect(b, d.world.store, q, retry);
    var (s', r) := ClaimStep(b, d.world.store, q, retry);
    ClaimKeepsDriven(b, p, d, q, retry, s', r);
    assert Step(b, d.world, Claim(q, retry)) == AfterClaim(d.world, s', r);
  }

  /** Recording the decision of a drive asks for a wait only after a single request. */
  lemma DecisionFits(b: Boundary, p: RetryPolicy, d: Driven, i: nat, completedAt: string, actor: string,
                     q: TransitionRequest)
    requires DrivenInv(b, p, d) && i < |d.drives| && d.drives[i].Some? && d.drives[i].value.decision.Some?
    requires DecisionRequest(d.world.permits[i], d.drives[i].value.decision.value, completedAt, actor) == Some(q)
    ensures q.key == d.world.permits[i].key && q.attemptId == d.world.permits[i].attemptId
    ensures q.state.RetryWait? ==> SingleWait(d.drives[i])
  {
    assert ValidDrive(p, d.world.store.rows[i].number, d.drives[i].value);
  }

  lemma RecordActKeeps(b: Boundary, p: RetryPolicy, d: Driven, i: nat, completedAt: string, actor: string)
    requires DrivenInv(b, p, d)
    ensures DrivenInv(b, p, Act(b, p, d, RecordDecision(i, completedAt, actor)))
  {
    if i < |d.drives| && d.drives[i].Some? && d.drives[i].value.decision.Some? {
      var q := DecisionRequest(d.world.permits[i], d.drives[i].value.decision.value, completedAt, actor);
      if q.Some? { DecisionKeeps(b, p, d, i, completedAt, actor, q.value); }
    }
  }

  lemma DecisionKeeps(b: Boundary, p: RetryPolicy, d: Driven, i: nat, completedAt: string, actor: string,
                      q: TransitionRequest)
    requires DrivenInv(b, p, d) && i < |d.drives| && d.drives[i].Some? && d.drives[i].value.decision.Some?
    requires DecisionRequest(d.world.permits[i], d.drives[i].value.decision.value, completedAt, actor) == Some(q)
    ensures DrivenInv(b, p, d.(world := Step(b, d.world, Transition(q))))
  {
    DecisionFits(b, p, d, i, completedAt, actor, q);
    RecordKeepsDriven(b, p, d, i, q);
  }

  lemma ActKeeps(b: Boundary, p: RetryPolicy, d: Driven, a: Action)
    requires DrivenInv(b, p, d)
    ensures DrivenInv(b, p, Act(b, p, d, a))
  {
    match a
    case ClaimNext(q, retry) => ClaimActKeeps(b, p, d, q, retry);
    case SendOnce(i, outcome, jitter) => SendKeeps(b, p, d, i, outcome, jitter);
    case RunAfterClaim(i, made, result, jitter) => RunnerKeeps(b, p, d, i, made, result, jitter);
    case RecordDecision(i, completedAt, actor) => RecordActKeeps(b, p, d, i, completedAt, actor);
    case Audit(repository, eventId) => AuditKeepsDriven(b, p, d, repository, eventId);
  }

  lemma IdleKeeps(b: Boundary, p: RetryPolicy)
    ensures DrivenInv(b, p, Idle)
  {
  }

  /** The state after a sequence of actions. */
  ghost function ActAll(b: Boundary, p: RetryPolicy, actions: seq<Action>): (r: Driven)
    ensures DrivenInv(b, p, r)
  {
    if actions == [] then IdleKeeps(b, p); Idle
    else
      var n := |actions| - 1;
      var d := ActAll(b, p, actions[..n]);
      ActKeeps(b, p, d, actions[n]);
      Act(b, p, d, actions[n])
  }

  /** Every transport request made for a revision, attempt by attempt. */
  function RequestsFor(rows: seq<Row>, drives: seq<Option<Drive>>, key: RevisionKey): seq<AttemptRecord>
    requires |rows| == |drives|
  {
    if rows == [] then []
    else
      var n := |rows| - 1;
      RequestsFor(rows[..n], drives[..n], key)
      + if rows[n].key == key && drives[n].Some? then drives[n].value.records else []
  }

  /** While every attempt waits for a retry, there was one request per attempt. */
  lemma {:induction false} WaitedRequests(p: RetryPolicy, rows: seq<Row>, drives: seq<Option<Drive>>, key: RevisionKey)
    requires |rows| == |drives| && Ascending(AttemptsOf(rows, key))
    requires forall i :: 0 <= i < |rows| && rows[i].key == key ==>
      SingleWait(drives[i]) && ValidDrive(p, rows[i].number, drives[i].value)
    ensures var rs := RequestsFor(rows, drives, key);
            |rs| == |AttemptsOf(rows, key)| && Consecutive(p, 1, rs)
              && forall k :: 0 <= k < |rs| ==> rs[k].decision.Wait?
  {
    if rows != [] {
      var n := |rows| - 1;
      var a, front := AttemptsOf(rows, key), AttemptsOf(rows[..n], key);
      assert a == front + if rows[n].key == key then [rows[n]] else [];
      assert Ascending(front) by { assert forall k :: 0 <= k < |front| ==> front[k] == a[k]; }
      WaitedRequests(p, rows[..n], drives[..n], key);
      if rows[n].key == key { assert a[|front|] == rows[n]; }
    }
  }

  lemma {:induction false} AllRequests(p: RetryPolicy, rows: seq<Row>, drives: seq<Option<Drive>>, key: RevisionKey)
    requires |rows| == |drives| && Ascending(AttemptsOf(rows, key))
    requires forall i :: 0 <= i < |rows| && drives[i].Some? ==> ValidDrive(p, rows[i].number, drives[i].value)
    requires forall i :: 0 <= i < |rows| && rows[i].key == key && rows[i].number < |AttemptsOf(rows, key)| ==>
             SingleWait(drives[i])
    ensures Consecutive(p, 1, RequestsFor(rows, drives, key))
  {
    if rows != [] {
      var n := |rows| - 1;
      var a, front := AttemptsOf(rows, key), AttemptsOf(rows[..n], key);
      assert a == front + if rows[n].key == key then [rows[n]] else [];
      assert Ascending(front) by { assert forall k :: 0 <= k < |front| ==> front[k] == a[k]; }
      if rows[n].key == key {
        assert a[|front|] == rows[n];
        forall i | 0 <= i < n && rows[i].key == key ensures SingleWait(drives[i]) {
          Updated(rows[..n], i, rows[i], key);
          assert front[Rank(rows[..n], i)] == rows[i];
        }
        WaitedRequests(p, rows[..n], drives[..n], key);
        var before := RequestsFor(rows[..n], drives[..n], key);
        if drives[n].Some? {
          var rs := before + drives[n].value.records;
          forall k | 0 <= k < |rs| ensures rs[k].number == 1 + k && Sound(p, rs[k])
            && (k < |rs| - 1 ==> rs[k].decision.Wait?) {
            if k >= |before| { assert rs[k] == drives[n].value.records[k - |before|]; }
          }
        } else {
          assert before + [] == before;
        }
      } else {
        AllRequests(p, rows[..n], drives[..n], key);
      }
    }
  }

  /** Whatever claims, retries, runs and recorded decisions happen, in any order and with stops anywhere: the requests
      made for a revision are numbered 1, 2, 3, ... within the attempt limit over all its attempts together, each but
      the last proved that Discord did not take the message, and each wait kept its bound. */
  lemma TotalRequestsBounded(b: Boundary, p: RetryPolicy, actions: seq<Action>, key: RevisionKey)
    ensures var d := ActAll(b, p, actions);
            var rs := RequestsFor(d.world.store.rows, d.drives, key);
            && |rs| <= p.maxAttempts
            && (forall k :: 0 <= k < |rs| ==> rs[k].number == k + 1)
            && (forall k :: 0 <= k < |rs| - 1 ==>
                  rs[k].decision.Wait? && !rs[k].outcome.MayHaveArrived() && p.WaitBounded(rs[k].decision))
  {
    var d := ActAll(b, p, actions);
    var s := d.world.store;
    assert Numbered(s, key);
    var a := AttemptsOf(s.rows, key);
    assert Ascending(a);
    forall i | 0 <= i < |s.rows| && s.rows[i].key == key && s.rows[i].number < |a| ensures SingleWait(d.drives[i]) {
      Updated(s.rows, i, s.rows[i], key);
      assert a[Rank(s.rows, i)] == s.rows[i];
    }
    AllRequests(p, s.rows, d.drives, key);
    var rs := RequestsFor(s.rows, d.drives, key);
    if rs != [] { assert Sound(p, rs[|rs| - 1]); }
  }
}
