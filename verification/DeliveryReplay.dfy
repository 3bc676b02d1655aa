/** Repeating a recorded transition, at any later time and whatever happened meanwhile. */
module DeliveryReplay {
  import opened Wrappers
  import opened Text
  import opened Delivery
  import opened DeliverySafety
  import opened DeliveryRuns
  import opened DeliveryProgress

  /** A transition that changes the store settles the row it names. */
  lemma ChangedSettles(b: Boundary, s: Store, q: TransitionRequest) returns (i: nat, e: Event)
    requires Inv(b, s) && TransitionStep(b, s, q).0 != s
    ensures ValidateTransition(b, q).None? && i < |s.rows| && s.rows[i].key == q.key
    ensures !LexLess(q.completedAt, s.rows[i].claimedAt)
    ensures var s' := Store(s.rows[i := UpdatedRow(s.rows[i], q)], s.log + [e]);
            Settles(b, s, q, i, s', e) && TransitionStep(b, s, q) == (s', Load(s', s'.rows[i]))
  {
    i := ChangedPasses(b, s, q);
    ValidShape(b, q);
    CanOnlyLeaveClaimed(b, s, i, q.state);
    e := ApplyIs(b, s, q, i);
  }

  lemma ReplayLoads(b: Boundary, s: Store, q: TransitionRequest, i: nat, s': Store, e: Event)
    requires Inv(b, s) && Settles(b, s, q, i, s', e)
    ensures FindRow(s'.rows, q.key.repository, q.attemptId) == Some(i)
    ensures Load(s', s'.rows[i]).Success?
    ensures var attempt := Load(s', s'.rows[i]).value;
            attempt.state == q.state && attempt.startedAt == s.rows[i].claimedAt
              && attempt.completedAt == Some(q.completedAt)
            && attempt.errorCode == RedactOption(b, q.errorCode) && attempt.messageId == RedactOption(b, q.messageId)
  {
    SettleAgrees(b, s, q, i, s', e);
    SettleKeepsRows(s.rows, q, i);
    Loads(b, s', i);
    FindsTheRow(s'.rows, q.key.repository, q.attemptId, i);
  }

  /** The attempt of row `i` has its outcome. */
  predicate Finished(s: Store, i: nat) {
    i < |s.rows| && |EventsFor(s.log, s.rows[i].key.repository, s.rows[i].attemptId)| == 2
  }

  /** Row `i` and its log rows are the same in both stores. */
  predicate KeepsRow(s: Store, s': Store, i: nat) {
    && i < |s.rows| && i < |s'.rows| && s'.rows[i] == s.rows[i]
    && EventsFor(s'.log, s.rows[i].key.repository, s.rows[i].attemptId)
       == EventsFor(s.log, s.rows[i].key.repository, s.rows[i].attemptId)
  }

  lemma ClaimKeepsRow(b: Boundary, s: Store, q: ClaimRequest, retry: bool, i: nat)
    requires Inv(b, s) && i < |s.rows|
    ensures KeepsRow(s, ClaimStep(b, s, q, retry).0, i)
  {
    ClaimStepMeets(b, s, q, retry);
    if Due(b, s, q, retry) {
      assert !IsAttempt(s.rows[i], q.key.repository, NextId(s, q));
      Appended(s.log, Extended(b, s, q).log[|s.log|], s.rows[i].key.repository, s.rows[i].attemptId);
    }
  }

  lemma TransitionKeepsRow(b: Boundary, s: Store, q: TransitionRequest, i: nat)
    requires Inv(b, s) && Finished(s, i)
    ensures KeepsRow(s, TransitionStep(b, s, q).0, i)
  {
    if TransitionStep(b, s, q).0 != s {
      var j, e := ChangedSettles(b, s, q);
      SettleKeepsRow(b, s, q, j, Store(s.rows[j := UpdatedRow(s.rows[j], q)], s.log + [e]), e, i);
    }
  }

  /** Settling one row leaves every finished row as it is. */
  lemma SettleKeepsRow(b: Boundary, s: Store, q: TransitionRequest, j: nat, s': Store, e: Event, i: nat)
    requires Inv(b, s) && Finished(s, i) && Settles(b, s, q, j, s', e)
    ensures KeepsRow(s, s', i)
  {
    assert RowAgrees(b, s.log, s.rows[i]) && RowAgrees(b, s.log, s.rows[j]);
    assert i != j;
    assert UniqueIds(s.rows);
    assert !Concerns(e, s.rows[i].key.repository, s.rows[i].attemptId);
    Appended(s.log, e, s.rows[i].key.repository, s.rows[i].attemptId);
  }

  lemma StepKeepsRow(b: Boundary, w: World, c: Command, i: nat)
    requires WorldInv(b, w) && Finished(w.store, i)
    ensures KeepsRow(w.store, Step(b, w, c).store, i)
  {
    match c
    case Claim(q, retry) => ClaimKeepsRow(b, w.store, q, retry, i);
    case Transition(q) => TransitionKeepsRow(b, w.store, q, i);
    case OtherAudit(repository, eventId) =>
      var row := w.store.rows[i];
      Appended(w.store.log, OtherEvent(repository, eventId), row.key.repository, row.attemptId);
  }

  /** A finished attempt never changes again. */
  lemma {:induction false} FinishedStays(b: Boundary, w: World, more: seq<Command>, i: nat)
    requires WorldInv(b, w) && Finished(w.store, i)
    ensures KeepsRow(w.store, Run(b, w, more).store, i)
    decreases |more|
  {
    if more != [] {
      StepKeepsRow(b, w, more[0], i);
      StepKeeps(b, w, more[0]);
      FinishedStays(b, Step(b, w, more[0]), more[1..], i);
    }
  }

  /** The log keeps error code and message id of the outcome as they are. */
  predicate LogKeeps(b: Boundary, q: TransitionRequest) {
    RedactOption(b, q.errorCode) == q.errorCode && RedactOption(b, q.messageId) == q.messageId
  }

  lemma ReplayIs(b: Boundary, s: Store, q: TransitionRequest, i: nat, attempt: DeliveryAttempt)
    requires ValidateTransition(b, q).None? && FindRow(s.rows, q.key.repository, q.attemptId) == Some(i)
    requires s.rows[i].key == q.key && Load(s, s.rows[i]) == Success(attempt) && attempt.state == q.state
    requires !LexLess(q.completedAt, attempt.startedAt) && attempt.completedAt == Some(q.completedAt)
    requires attempt.errorCode == RedactOption(b, q.errorCode) && attempt.messageId == RedactOption(b, q.messageId)
    ensures TransitionStep(b, s, q)
      == (s, if LogKeeps(b, q) then Success(attempt) else Failure(StaleInput("transition metadata")))
  {
  }

  /** The attempt that a row and its log rows load as. */
  function AttemptFrom(b: Boundary, row: Row, events: seq<Event>): DeliveryAttempt
    requires events != [] && events[0].AttemptEvent? && events[|events| - 1].AttemptEvent?
  {
    DeliveryAttempt(row.key, row.attemptId, row.number, row.claimNonce, events[0].metadata.contentNonce,
                    events[|events| - 1].transition, row.claimedAt, row.completedAt, RedactOption(b, row.failureCode),
                    RedactOption(b, row.messageId), events[0].metadata.binding)
  }

  lemma LoadsFrom(b: Boundary, s: Store, i: nat)
    requires RowsAgree(b, s) && i < |s.rows|
    ensures var events := EventsFor(s.log, s.rows[i].key.repository, s.rows[i].attemptId);
      && events != [] && events[0].AttemptEvent? && events[|events| - 1].AttemptEvent?
      && Load(s, s.rows[i]) == Success(AttemptFrom(b, s.rows[i], events))
  {
    Loads(b, s, i);
    assert RowAgrees(b, s.log, s.rows[i]);
  }

  lemma SameRowLoads(b: Boundary, s: Store, s': Store, i: nat)
    requires RowsAgree(b, s) && RowsAgree(b, s') && UniqueIds(s'.rows) && KeepsRow(s, s', i)
    ensures Load(s', s'.rows[i]) == Load(s, s.rows[i])
    ensures FindRow(s'.rows, s.rows[i].key.repository, s.rows[i].attemptId) == Some(i)
  {
    LoadsFrom(b, s, i);
    LoadsFrom(b, s', i);
    FindsTheRow(s'.rows, s.rows[i].key.repository, s.rows[i].attemptId, i);
  }

  /** Repeating a recorded transition, after any further steps of anyone, changes nothing. It succeeds with the same
      attempt exactly when the log keeps error code and message id as they are; otherwise it is refused. */
  lemma ReplayAfterTransition(b: Boundary, cs: seq<Command>, q: TransitionRequest, more: seq<Command>)
    requires var s := Run(b, Start, cs).store; TransitionStep(b, s, q).0 != s
    ensures var w := Run(b, Start, cs);
            var r := TransitionStep(b, w.store, q).1;
            var s := Run(b, Step(b, w, Transition(q)), more).store;
            && r.Success?
            && TransitionStep(b, s, q)
               == (s, if LogKeeps(b, q) then r else Failure(StaleInput("transition metadata")))
  {
    Reachable(b, cs);
    var w := Run(b, Start, cs);
    var i, e := ChangedSettles(b, w.store, q);
    var w' := Step(b, w, Transition(q));
    StepKeeps(b, w, Transition(q));
    RunKeeps(b, w', more);
    ReplayLoads(b, w.store, q, i, w'.store, e);
    SettledIsFinished(b, w.store, q, i, w'.store, e);
    FinishedStays(b, w', more, i);
    var s := Run(b, w', more).store;
    SameRowLoads(b, w'.store, s, i);
    ReplayIs(b, s, q, i, Load(s, s.rows[i]).value);
  }

  lemma SettledIsFinished(b: Boundary, s: Store, q: TransitionRequest, i: nat, s': Store, e: Event)
    requires Inv(b, s) && Settles(b, s, q, i, s', e)
    ensures Finished(s', i) && s'.rows[i].key == q.key && s'.rows[i].attemptId == q.attemptId
  {
    assert RowAgrees(b, s.log, s.rows[i]);
    Appended(s.log, e, s.rows[i].key.repository, s.rows[i].attemptId);
  }
}
