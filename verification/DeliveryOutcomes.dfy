/** What a transition answers, in every reachable store: when another attempt already has the message, and what is read
    back of an outcome that is recorded. */
module DeliveryOutcomes {
  import opened Wrappers
  import opened Text
  import opened Delivery
  import opened DeliverySafety
  import opened DeliveryRuns
  import opened DeliveryProgress

  lemma OpenReaches(b: Boundary, s: Store, q: TransitionRequest, i: nat)
    requires Inv(b, s) && Open(b, s, q, i)
    ensures ValidateTransition(b, q).None? && FindRow(s.rows, q.key.repository, q.attemptId) == Some(i)
    ensures TransitionStep(b, s, q)
      == if q.state.Accepted? && AcceptedElsewhere(s.rows, q) then (s, Failure(RemoteMessageConflict))
         else ApplyTransition(b, s, q, i)
  {
    ValidExactlyIf(b, q);
    FindsTheRow(s.rows, q.key.repository, q.attemptId, i);
    Loads(b, s, i);
  }

  /** The guarded update has no answer of this kind. */
  lemma UpdateHasNoConflict(b: Boundary, s: Store, q: TransitionRequest, i: nat)
    requires i < |s.rows|
    ensures ApplyTransition(b, s, q, i).1 != Failure(RemoteMessageConflict)
  {
  }

  /** Every other check has passed by then. */
  lemma ConflictComesLast(b: Boundary, s: Store, q: TransitionRequest, i: nat)
    requires TransitionStep(b, s, q).1 == Failure(RemoteMessageConflict)
    requires FindRow(s.rows, q.key.repository, q.attemptId) == Some(i)
    ensures ValidateTransition(b, q).None? && s.rows[i].key == q.key && q.state.Accepted?
    ensures Load(s, s.rows[i]).Success? && !LexLess(q.completedAt, Load(s, s.rows[i]).value.startedAt)
            && Load(s, s.rows[i]).value.state.CanTransitionTo(q.state)
  {
    UpdateHasNoConflict(b, s, q, i);
  }

  lemma ConflictPasses(b: Boundary, s: Store, q: TransitionRequest) returns (i: nat)
    requires Inv(b, s) && TransitionStep(b, s, q).1 == Failure(RemoteMessageConflict)
    ensures Open(b, s, q, i) && q.state.Accepted?
  {
    i := FindRow(s.rows, q.key.repository, q.attemptId).value;
    ConflictComesLast(b, s, q, i);
    ValidExactlyIf(b, q);
    Loads(b, s, i);
    CanOnlyLeaveClaimed(b, s, i, q.state);
  }

  /** An acceptance is refused over its message exactly if nothing else is wrong with attempt and request, and another
      accepted attempt of the repository has exactly this message id. */
  lemma ConflictExactlyIf(b: Boundary, cs: seq<Command>, q: TransitionRequest)
    ensures var s := Run(b, Start, cs).store;
            TransitionStep(b, s, q).1 == Failure(RemoteMessageConflict)
            <==> q.state == Accepted && (exists i: nat :: Open(b, s, q, i))
                 && exists j :: 0 <= j < |s.rows| && HasMessage(s.rows[j], q)
  {
    Reachable(b, cs);
    StoreConflict(b, Run(b, Start, cs).store, q);
  }

  lemma StoreConflict(b: Boundary, s: Store, q: TransitionRequest)
    requires Inv(b, s)
    ensures TransitionStep(b, s, q).1 == Failure(RemoteMessageConflict)
            <==> q.state == Accepted && (exists i: nat :: Open(b, s, q, i))
                 && exists j :: 0 <= j < |s.rows| && HasMessage(s.rows[j], q)
  {
    ElsewhereIs(s.rows, q);
    if TransitionStep(b, s, q).1 == Failure(RemoteMessageConflict) {
      var i := ConflictPasses(b, s, q);
      OpenReaches(b, s, q, i);
      UpdateHasNoConflict(b, s, q, i);
    }
    if q.state == Accepted && exists i: nat :: Open(b, s, q, i) {
      var i: nat :| Open(b, s, q, i);
      OpenReaches(b, s, q, i);
      UpdateHasNoConflict(b, s, q, i);
    }
  }

  /** Row `i` after the outcome, and what is read back of it. */
  predicate ReadsBack(b: Boundary, row: Row, before: Row, q: TransitionRequest, r: Result<DeliveryAttempt, Error>) {
    && row == before.(state := if q.state.RetryWait? then Claimed else q.state, completedAt := Some(q.completedAt),
                      messageId := q.messageId, failureCode := q.errorCode)
    && r.Success? && r.value.key == q.key && r.value.attemptId == q.attemptId && r.value.number == before.number
    && r.value.state == q.state && r.value.startedAt == before.claimedAt && r.value.completedAt == Some(q.completedAt)
    && r.value.errorCode == RedactOption(b, q.errorCode) && r.value.messageId == RedactOption(b, q.messageId)
  }

  /** An open outcome for which the log has room is recorded, in its row and no other, unless it is an acceptance whose
      message another accepted attempt of the repository has; and it is read back as it was asked for. */
  lemma OpenIsRecorded(b: Boundary, cs: seq<Command>, q: TransitionRequest, i: nat)
    requires var s := Run(b, Start, cs).store;
             && Open(b, s, q, i) && HasRoom(b, s, q)
             && (q.state == Accepted ==> forall j :: 0 <= j < |s.rows| ==> !HasMessage(s.rows[j], q))
    ensures var s := Run(b, Start, cs).store; var (s', r) := TransitionStep(b, s, q);
            && |s'.rows| == |s.rows| && s'.rows[..i] == s.rows[..i] && s'.rows[i + 1..] == s.rows[i + 1..]
            && ReadsBack(b, s'.rows[i], s.rows[i], q, r)
  {
    Reachable(b, cs);
    StoreRecords(b, Run(b, Start, cs).store, q, i);
  }

  lemma StoreRecords(b: Boundary, s: Store, q: TransitionRequest, i: nat)
    requires Inv(b, s) && Open(b, s, q, i) && HasRoom(b, s, q)
    requires q.state == Accepted ==> forall j :: 0 <= j < |s.rows| ==> !HasMessage(s.rows[j], q)
    ensures var (s', r) := TransitionStep(b, s, q);
            && |s'.rows| == |s.rows| && s'.rows[..i] == s.rows[..i] && s'.rows[i + 1..] == s.rows[i + 1..]
            && ReadsBack(b, s'.rows[i], s.rows[i], q, r)
  {
    OpenReaches(b, s, q, i);
    RecordableReachesUpdate(b, s, q, i);
    RecordableIsRecorded(b, s, q, i);
    var e := ApplyIs(b, s, q, i);
    var s' := Store(s.rows[i := UpdatedRow(s.rows[i], q)], s.log + [e]);
    SettleKeeps(b, s, q, i, s', e);
    SettledReadsBack(b, s, q, i, s', e);
  }

  lemma SettledReadsBack(b: Boundary, s: Store, q: TransitionRequest, i: nat, s': Store, e: Event)
    requires Inv(b, s) && Inv(b, s') && Settles(b, s, q, i, s', e) && WellFormed(b, q) && s.rows[i].key == q.key
    requires StateOf(s.log, s.rows[i]).Claimed?
    ensures ReadsBack(b, s'.rows[i], s.rows[i], q, Load(s', s'.rows[i]))
  {
    Loads(b, s', i);
    SettledRow(b, s, q, i, s', e);
    assert RowAgrees(b, s.log, s.rows[i]);
  }
}
