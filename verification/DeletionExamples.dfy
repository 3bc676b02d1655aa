/** A revision whose message was accepted, and that is sent again once its attempt and its log rows are deleted. */
module DeletionExamples {
  import opened Wrappers
  import opened Text
  import opened Delivery
  import opened DeliverySafety
  import opened DeliveryRuns
  import opened DeliveryProgress
  import opened DeliveryExamples
  import opened DeliveryDeletion
  import MetadataFields
  import AttemptLog
  import Timestamps

  /** The deletion that keeps nothing. */
  function Everything(): Deletion { Deletion((row: Row) => false, (e: Event) => false) }

  lemma {:induction false} NothingIsKept(rows: seq<Row>, log: seq<Event>)
    ensures KeptRows(rows, Everything()) == [] && KeptEvents(log, Everything()) == []
    decreases |rows| + |log|
  {
    if rows != [] { NothingIsKept(rows[..|rows| - 1], log); }
    if log != [] { NothingIsKept(rows, log[..|log| - 1]); }
  }

  function AcceptedFor(q: ClaimRequest, messageId: string): TransitionRequest {
    TransitionRequest(q.key, q.attemptId, Accepted, q.startedAt, None, Some(messageId), q.actor)
  }

  function OutcomeId(b: Boundary, t: TransitionRequest): string {
    b.eventId(OutcomeMaterial(t.state, t.key.repository, t.key.draft, t.attemptId))
  }

  /** Claim, acceptance, deletion of everything, and the same claim again. */
  ghost predicate SentAgain(b: Boundary, q: ClaimRequest, t: TransitionRequest) {
    var w := Run(b, Start, [Claim(q, false), Transition(t)]);
    && Closed(w.store, q.key) && w.permits == [Permit1(q)]
    && ActRun(b, w, [Delete(Everything()), Protocol(Claim(q, false))]).permits == [Permit1(q), Permit1(q)]
  }

  lemma OneEvent(row: Row, e: Event)
    requires Concerns(e, row.key.repository, row.attemptId)
    ensures StateOf([e], row) == e.transition
  {
    EventsAppended([], e, [e], row.key.repository, row.attemptId);
  }

  lemma AcceptanceIsRecordable(b: Boundary, q: ClaimRequest, messageId: string, t: TransitionRequest, row: Row,
                               claim: Event)
    requires Accepts(b, q) && t == AcceptedFor(q, messageId) && ValidateTransition(b, t).None?
    requires b.safe(OutcomeId(b, t)) && OutcomeId(b, t) != ClaimEventId(b, q, 1)
    requires row == Row1(q) && claim == Claim1(b, q)
    ensures Recordable(b, Store([row], [claim]), t)
  {
    FindsTheRow([row], q.key.repository, q.attemptId, 0);
    OneEvent(row, claim);
    NotEarlier(q.startedAt);
    assert [claim][0].eventId == ClaimEventId(b, q, 1);
  }

  lemma StampedIs(b: Boundary, t: TransitionRequest, row: Row, claim: Event)
    requires Concerns(claim, t.key.repository, t.attemptId) && claim.transition.Claimed?
    ensures Stamped(b, Store([row], [claim]), t, 0)
      == Store([UpdatedRow(row, t)], [claim, OutcomeEvent(b, t, claim.metadata)])
  {
    assert [row][0 := UpdatedRow(row, t)] == [UpdatedRow(row, t)];
    assert [claim] + [OutcomeEvent(b, t, claim.metadata)] == [claim, OutcomeEvent(b, t, claim.metadata)];
  }

  lemma ClosedByOutcome(row: Row, claim: Event, e: Event)
    requires Concerns(claim, row.key.repository, row.attemptId) && Concerns(e, row.key.repository, row.attemptId)
    requires e.transition.IsFinalOutcome()
    ensures Closed(Store([row], [claim, e]), row.key)
  {
    One(row);
    EventsAppended([], claim, [claim], row.key.repository, row.attemptId);
    EventsAppended([claim], e, [claim, e], row.key.repository, row.attemptId);
  }

  /** The attempt is recordable in a store of its own, and accepted there. */
  lemma AcceptedCloses(b: Boundary, t: TransitionRequest, w: World, row: Row, claim: Event)
    requires w.store == Store([row], [claim]) && Inv(b, w.store) && Recordable(b, w.store, t) && t.state.Accepted?
    requires IsAttempt(row, t.key.repository, t.attemptId) && row.key == t.key
    requires Concerns(claim, t.key.repository, t.attemptId) && claim.transition.Claimed?
    ensures var w' := Step(b, w, Transition(t)); Closed(w'.store, t.key) && w'.permits == w.permits
  {
    FindsTheRow(w.store.rows, t.key.repository, t.attemptId, 0);
    RecordableIsRecorded(b, w.store, t, 0);
    StampedIs(b, t, row, claim);
    ClosedByOutcome(UpdatedRow(row, t), claim, OutcomeEvent(b, t, claim.metadata));
  }

  lemma ClaimedFromNothing(b: Boundary, w: World, q: ClaimRequest, permit: Permit)
    requires w.store == Store([], []) && Step(b, Start, Claim(q, false)).permits == [permit]
    ensures Step(b, w, Claim(q, false)).permits == w.permits + [permit]
  {
  }

  lemma AgainFrom(b: Boundary, q: ClaimRequest, w: World)
    requires Step(b, Start, Claim(q, false)).permits == [Permit1(q)]
    ensures ActRun(b, w, [Delete(Everything()), Protocol(Claim(q, false))]).permits == w.permits + [Permit1(q)]
  {
    NothingIsKept(w.store.rows, w.store.log);
    var empty := World(Store([], []), w.permits);
    ClaimedFromNothing(b, empty, q, Permit1(q));
    TwoActs(b, w, Delete(Everything()), Protocol(Claim(q, false)), empty);
  }

  lemma TwoActs(b: Boundary, w: World, first: Act, second: Act, between: World)
    requires between == ActStep(b, w, first)
    ensures ActRun(b, w, [first, second]) == ActStep(b, between, second)
  {
    var acts := [first, second];
    assert acts[1..] == [second] && [second][1..] == [];
    assert ActRun(b, between, [second]) == ActRun(b, ActStep(b, between, second), []);
  }

  lemma TwoSteps(b: Boundary, c: Command, d: Command, w1: World)
    requires w1 == Step(b, Start, c)
    ensures Run(b, Start, [c, d]) == Step(b, w1, d)
  {
    DeliveryExamples.FirstStep(b, Start, c, [d], [c, d]);
    DeliveryExamples.FirstStep(b, w1, d, [], [d]);
  }

  lemma DeletedIsSentAgain(b: Boundary, q: ClaimRequest, t: TransitionRequest)
    requires Accepts(b, q) && t.state.Accepted? && t.key == q.key && t.attemptId == q.attemptId
    requires Recordable(b, Store([Row1(q)], [Claim1(b, q)]), t)
    ensures SentAgain(b, q, t)
  {
    AfterFirst(b, q);
    var w := Step(b, Start, Claim(q, false));
    AcceptedCloses(b, t, w, Row1(q), Claim1(b, q));
    TwoSteps(b, Claim(q, false), Transition(t), w);
    AgainFrom(b, q, Step(b, w, Transition(t)));
  }

  lemma FitsTheLog(b: Boundary, q: ClaimRequest, content: string, x: Binding, at: string, t: TransitionRequest)
    requires Friendly(b, at) && q == Request(content, x, at) && content != [] && t == AcceptedFor(q, "7")
    ensures ValidateTransition(b, t).None? && b.safe(OutcomeId(b, t)) && OutcomeId(b, t) != ClaimEventId(b, q, 1)
  {
    EventIdsAre(b, q, content, x, at);
    var ids := EventIds(b, q);
    FourIdsDiffer(ids);
    FourIds(ids, 1);
    assert OutcomeId(b, t) == WaitEventId(b, q, q.attemptId) == ids[1] && ClaimEventId(b, q, 1) == ids[0];
    KeyIsValid(q, content, x, at);
    NamesAreSafe(b, q, content, x, at);
    SevenIsValid("7");
  }

  /** On the audit log as it is: an accepted message whose attempt and log rows are deleted can be claimed again, under
      the same attempt id. */
  lemma AcceptedIsSentAgain(content: string, x: Binding, at: string)
    requires content != [] && Timestamps.IsUtcTimestamp(at)
    ensures var b, q := AttemptLog.LogBoundary(EventIdOf), Request(content, x, at); SentAgain(b, q, AcceptedFor(q, "7"))
  {
    var b, q := AttemptLog.LogBoundary(EventIdOf), Request(content, x, at);
    var t := AcceptedFor(q, "7");
    TheLogIsFriendly(b, at);
    LogAccepts(b, q, content, x, at);
    FitsTheLog(b, q, content, x, at, t);
    AcceptanceIsRecordable(b, q, "7", t, Row1(q), Claim1(b, q));
    DeletedIsSentAgain(b, q, t);
  }

  lemma SevenIsValid(id: string)
    requires id == "7"
    ensures ValidIdentifier(id)
  {
    assert MetadataFields.Calm(id);
    CalmIsValid(id);
  }
}
