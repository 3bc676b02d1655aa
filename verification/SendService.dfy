/** The command line program's send: claim, build the request, send it, record the outcome. The claim commits before the
    request is built, and a message the builder refuses leaves without an outcome. */
module SendService {
  import opened Wrappers
  import opened Delivery
  import opened DeliverySafety
  import opened DeliveryRuns
  import opened DeliveryProgress
  import Mentions
  import Render
  import Request
  import RequestSafety

  /** How far a send has got with its permit. */
  datatype Stage = Held | Refused | Requested

  /** A send that got a permit: the message it holds, and its stage. */
  datatype Send = Send(message: Render.RenderedMessage, stage: Stage)

  /** The delivery world and, for each permit, the send that got it. */
  datatype Sending = Sending(world: World, sends: seq<Send>)

  /** What processes do, in any order; one that stops does nothing more. */
  datatype Action =
    | ClaimFirst(claim: ClaimRequest, message: Render.RenderedMessage)
    | BuildAndSend(permit: nat)
    | RecordOutcome(permit: nat, outcome: TransitionRequest)
    | Audit(repository: string, eventId: string)

  const Idle := Sending(Start, [])

  predicate Refusable(message: Render.RenderedMessage) { Request.FromRendered(message).Failure? }

  function Act(b: Boundary, d: Sending, a: Action): Sending {
    match a
    case ClaimFirst(claim, message) =>
      var w := Step(b, d.world, Claim(claim, false));
      Sending(w, if |w.permits| == |d.world.permits| + 1 then d.sends + [Send(message, Held)] else d.sends)
    case BuildAndSend(i) =>
      if i < |d.sends| && d.sends[i].stage.Held? then
        d.(sends := d.sends[i := d.sends[i].(stage := if Refusable(d.sends[i].message) then Refused else Requested)])
      else d
    case RecordOutcome(i, outcome) =>
      if i < |d.sends| && i < |d.world.permits| && d.sends[i].stage.Requested? then
        d.(world := Step(b, d.world, Transition(Named(d.world.permits[i], outcome))))
      else d
    case Audit(repository, eventId) => d.(world := Step(b, d.world, OtherAudit(repository, eventId)))
  }

  /** An outcome of the permit's own attempt. */
  function Named(permit: Permit, outcome: TransitionRequest): TransitionRequest {
    outcome.(key := permit.key, attemptId := permit.attemptId)
  }

  /** Sends match attempts; an attempt whose send has made no request is only claimed; refused messages make none. */
  ghost predicate Fits(s: Store, sends: seq<Send>) {
    && |sends| == |s.rows|
    && (forall i :: 0 <= i < |sends| && !sends[i].stage.Requested? ==> StateOf(s.log, s.rows[i]).Claimed?)
    && (forall i :: 0 <= i < |sends| && sends[i].stage.Requested? ==> !Refusable(sends[i].message))
  }

  ghost predicate SendInv(b: Boundary, d: Sending) {
    WorldInv(b, d.world) && Fits(d.world.store, d.sends)
    && forall key :: |AttemptsOf(d.world.store.rows, key)| <= 1
  }

  lemma GrantFits(s: Store, sends: seq<Send>, key: RevisionKey, s': Store, attempt: DeliveryAttempt,
                  message: Render.RenderedMessage)
    requires Fits(s, sends) && Granted(s, s', key, attempt) && StateOf(s'.log, s'.rows[|s.rows|]).Claimed?
    ensures Fits(s', sends + [Send(message, Held)])
  {
    var next := sends + [Send(message, Held)];
    forall i | 0 <= i < |next| && !next[i].stage.Requested? ensures StateOf(s'.log, s'.rows[i]).Claimed? {
      if i < |s.rows| { assert s'.rows[i] == s'.rows[..|s.rows|][i] == s.rows[i]; }
    }
  }

  lemma ClaimResultFits(b: Boundary, d: Sending, q: ClaimRequest, message: Render.RenderedMessage, s': Store,
                        r: Result<ClaimResult, Error>)
    requires SendInv(b, d) && Inv(b, s') && ClaimSpec(d.world.store, q, false, s', r)
    ensures var w := AfterClaim(d.world, s', r);
      Fits(s', if |w.permits| == |d.world.permits| + 1 then d.sends + [Send(message, Held)] else d.sends)
  {
    AfterClaimIs(d.world, q, false, s', r);
    if r.Success? && r.value.permit {
      Loads(b, s', |d.world.store.rows|);
      GrantFits(d.world.store, d.sends, q.key, s', r.value.attempt, message);
    }
  }

  lemma ClaimKeeps(b: Boundary, d: Sending, q: ClaimRequest, message: Render.RenderedMessage)
    requires SendInv(b, d)
    ensures SendInv(b, Act(b, d, ClaimFirst(q, message)))
  {
    StepKeeps(b, d.world, Claim(q, false));
    forall key ensures |AttemptsOf(Step(b, d.world, Claim(q, false)).store.rows, key)| <= 1 {
      FirstStep(b, d.world, Claim(q, false), key);
    }
    ClaimEffect(b, d.world.store, q, false);
    ClaimResultFits(b, d, q, message, ClaimStep(b, d.world.store, q, false).0, ClaimStep(b, d.world.store, q, false).1);
  }

  lemma OutcomeFits(s: Store, sends: seq<Send>, i: nat, q: TransitionRequest, s': Store)
    requires Fits(s, sends) && UniqueIds(s.rows) && i < |s.rows| && IsAttempt(s.rows[i], q.key.repository, q.attemptId)
    requires StatesAfter(s, q, s') && sends[i].stage.Requested?
    ensures Fits(s', sends)
  {
    forall j | 0 <= j < |sends| && !sends[j].stage.Requested? ensures StateOf(s'.log, s'.rows[j]).Claimed? {
      assert IsAttempt(s.rows[j], q.key.repository, q.attemptId) ==> j == i;
    }
  }

  lemma OutcomeResultFits(b: Boundary, d: Sending, i: nat, q: TransitionRequest, s': Store,
                          r: Result<DeliveryAttempt, Error>)
    requires SendInv(b, d) && i < |d.sends| && d.sends[i].stage.Requested? && TransitionSpec(d.world.store, q, s', r)
    requires q.key == d.world.permits[i].key && q.attemptId == d.world.permits[i].attemptId
    ensures Fits(s', d.sends)
  {
    if s' != d.world.store {
      assert Settled(d.world.store, q, s', r.value);
      OutcomeFits(d.world.store, d.sends, i, q, s');
    }
  }

  lemma OutcomeKeeps(b: Boundary, d: Sending, i: nat, q: TransitionRequest)
    requires SendInv(b, d) && i < |d.sends| && d.sends[i].stage.Requested?
    requires q.key == d.world.permits[i].key && q.attemptId == d.world.permits[i].attemptId
    ensures SendInv(b, d.(world := Step(b, d.world, Transition(q))))
  {
    StepKeeps(b, d.world, Transition(q));
    forall key ensures |AttemptsOf(Step(b, d.world, Transition(q)).store.rows, key)| <= 1 {
      FirstStep(b, d.world, Transition(q), key);
    }
    TransitionEffect(b, d.world.store, q);
    OutcomeResultFits(b, d, i, q, TransitionStep(b, d.world.store, q).0, TransitionStep(b, d.world.store, q).1);
  }

  lemma AuditKeeps(b: Boundary, d: Sending, repository: string, eventId: string)
    requires SendInv(b, d)
    ensures SendInv(b, d.(world := Step(b, d.world, OtherAudit(repository, eventId))))
  {
    StepKeeps(b, d.world, OtherAudit(repository, eventId));
    FrameAll(b, d.world.store.log, OtherEvent(repository, eventId), d.world.store.rows, -1);
  }

  lemma BuildKeeps(b: Boundary, d: Sending, i: nat)
    requires SendInv(b, d)
    ensures SendInv(b, Act(b, d, BuildAndSend(i)))
  {
  }

  lemma ActKeeps(b: Boundary, d: Sending, a: Action)
    requires SendInv(b, d)
    ensures SendInv(b, Act(b, d, a))
  {
    match a
    case ClaimFirst(claim, message) => ClaimKeeps(b, d, claim, message);
    case BuildAndSend(i) => BuildKeeps(b, d, i);
    case RecordOutcome(i, outcome) =>
      if i < |d.sends| && d.sends[i].stage.Requested? {
        OutcomeKeeps(b, d, i, Named(d.world.permits[i], outcome));
      }
    case Audit(repository, eventId) => AuditKeeps(b, d, repository, eventId);
  }

  lemma IdleKeeps(b: Boundary)
    ensures SendInv(b, Idle)
  {
    Reachable(b, []);
  }

  function ActAll(b: Boundary, actions: seq<Action>): Sending {
    if actions == [] then Idle else Act(b, ActAll(b, actions[..|actions| - 1]), actions[|actions| - 1])
  }

  lemma {:induction false} AllKeep(b: Boundary, actions: seq<Action>)
    ensures SendInv(b, ActAll(b, actions))
    decreases |actions|
  {
    if actions == [] {
      IdleKeeps(b);
    } else {
      AllKeep(b, actions[..|actions| - 1]);
      ActKeeps(b, ActAll(b, actions[..|actions| - 1]), actions[|actions| - 1]);
    }
  }

  /** The only permit of a revision, found at `i`. */
  lemma OnlyPermit(rows: seq<Row>, i: nat)
    requires i < |rows| && |AttemptsOf(rows, rows[i].key)| <= 1
    ensures PermitsFor(PermitsOf(rows), rows[i].key) == [PermitOf(rows[i])]
  {
    PermitsForRows(rows, rows[i].key);
    Updated(rows, i, rows[i], rows[i].key);
    assert AttemptsOf(rows, rows[i].key) == [rows[i]];
  }

  /** A send whose message the builder refuses: whatever processes do, no request is ever made with its permit, no other
      permit of its revision is ever issued, and its attempt stays claimed. So the revision is never sent. */
  lemma RefusedIsNeverSent(b: Boundary, actions: seq<Action>, i: nat)
    requires i < |ActAll(b, actions).sends| && Refusable(ActAll(b, actions).sends[i].message)
    ensures var d := ActAll(b, actions);
      && |d.world.permits| == |d.sends| == |d.world.store.rows| && !d.sends[i].stage.Requested?
      && StateOf(d.world.store.log, d.world.store.rows[i]).Claimed?
      && PermitsFor(d.world.permits, d.world.permits[i].key) == [d.world.permits[i]]
  {
    AllKeep(b, actions);
    OnlyPermit(ActAll(b, actions).world.store.rows, i);
  }

  /** Of a rendered message, that is exactly so if targets of its destination repeat; otherwise the first attempt to
      build the request makes it. */
  lemma RefusedExactlyIfRepeated(b: Boundary, d: Sending, i: nat, revision: Render.Revision, now: nat,
                                 bot: Option<string>, wide: char -> bool)
    requires Render.RenderRevision(revision, now, bot, wide).Success?
    requires i < |d.sends| && d.sends[i] == Send(Render.RenderRevision(revision, now, bot, wide).value, Held)
    ensures Act(b, d, BuildAndSend(i)).sends[i].stage
      == if RequestSafety.DistinctTargets(revision.destination.allowedMentions) then Requested else Refused
  {
    RequestSafety.RenderedIsAccepted(revision, now, bot, wide);
  }

  /** Once its request is made, a send's outcome is recorded for its own attempt, exactly if that attempt is still open
      for it; before, and for a refused message, nothing is recorded. */
  lemma SentIsRecorded(b: Boundary, actions: seq<Action>, i: nat, outcome: TransitionRequest)
    requires i < |ActAll(b, actions).sends|
    ensures var d := ActAll(b, actions); var s := d.world.store;
            var d' := Act(b, d, RecordOutcome(i, outcome));
            && |d.world.permits| == |s.rows| == |d.sends| && d'.sends == d.sends
            && var q := outcome.(key := d.world.permits[i].key, attemptId := d.world.permits[i].attemptId);
            d'.world.store
            == if d.sends[i].stage == Requested && Recordable(b, s, q) then Stamped(b, s, q, i) else s
  {
    AllKeep(b, actions);
    var d := ActAll(b, actions);
    var q := Named(d.world.permits[i], outcome);
    TransitionRecords(b, d.world.store, q, i);
    RecordingActs(b, d, i, outcome);
  }

  lemma RecordingActs(b: Boundary, d: Sending, i: nat, outcome: TransitionRequest)
    requires i < |d.sends| && i < |d.world.permits|
    ensures Act(b, d, RecordOutcome(i, outcome))
      == if d.sends[i].stage == Requested
         then d.(world := Step(b, d.world, Transition(Named(d.world.permits[i], outcome)))) else d
  {
  }

  lemma TransitionRecords(b: Boundary, s: Store, q: TransitionRequest, i: nat)
    requires Inv(b, s) && i < |s.rows| && IsAttempt(s.rows[i], q.key.repository, q.attemptId)
    ensures TransitionStep(b, s, q).0 == if Recordable(b, s, q) then Stamped(b, s, q, i) else s
  {
    FindsTheRow(s.rows, q.key.repository, q.attemptId, i);
    if Recordable(b, s, q) { RecordableIsRecorded(b, s, q, i); } else { UnrecordableIsRefused(b, s, q); }
  }
}
