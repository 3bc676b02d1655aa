/** The coordinator as an object that owns its database handle. Its methods run one transaction each, and are proved
    against the transaction functions the theorems are about. */
module DeliveryCoordinator {
  import opened Wrappers
  import opened Text
  import opened Delivery
  import opened DeliverySafety

  class Coordinator {
    const boundary: Boundary
    var rows: seq<Row>
    var log: seq<Event>

    ghost predicate Valid()
      reads this
    {
      Inv(boundary, Store(rows, log))
    }

    constructor (boundary: Boundary)
      ensures Valid() && this.boundary == boundary && rows == [] && log == []
    {
      this.boundary := boundary;
      rows, log := [], [];
    }

    /** Writes row and audit row of a new claim. */
    method InsertNewClaim(q: ClaimRequest, binding: Binding, number: nat, requestedId: string, nonce: string)
      returns (r: Result<DeliveryAttempt, Error>)
      modifies this`rows, this`log
      ensures match InsertClaim(boundary, Store(old(rows), old(log)), q, binding, number, requestedId, nonce)
              case Failure(e) => r == Failure(e) && rows == old(rows) && log == old(log)
              case Success((s, attempt)) => r == Success(attempt) && Store(rows, log) == s
    {
      var attemptId := requestedId;
      if attemptId == [] { attemptId := "delivery-" + q.key.draft + "-r" + Decimal(q.key.revision); }
      if !ValidIdentifier(attemptId) { return Failure(InvalidInput("attempt id")); }
      var expected := q.contentNonce;
      if number != 1 { expected := RetryNonce(q.contentNonce, number); }
      if nonce != expected { return Failure(InvalidInput("request nonce")); }
      if q.key.revision > MAX_I64 { return Failure(InvalidInput("revision")); }
      if number > MAX_I64 { return Failure(InvalidInput("attempt number")); }
      var row := NewRow(q, number, attemptId, nonce);
      if number == 1 && HasActiveRow(rows, q.key) { return Failure(StateFailure); }
      if nonce == [] || !CanInsert(rows, row) { return Failure(StateFailure); }
      var event := ClaimEvent(boundary, q, binding, number, attemptId, nonce);
      if HasEventId(log, q.key.repository, event.eventId) { return Failure(AuditConflict); }
      if !EventAccepted(boundary, event, q.actor) { return Failure(AuditFailure); }
      rows := rows + [row];
      log := log + [event];
      r := Success(DeliveryAttempt(q.key, attemptId, number, nonce, q.contentNonce, Claimed, q.startedAt, None, None,
                                   None, binding));
    }

    /** The claim of a revision that has a recorded attempt. */
    method ClaimRecorded(q: ClaimRequest, retry: bool, recorded: DeliveryAttempt)
        returns (r: Result<ClaimResult, Error>)
      modifies this`rows, this`log
      ensures (Store(rows, log), r) == ClaimAfter(boundary, Store(old(rows), old(log)), q, retry, recorded)
    {
      if recorded.contentNonce != q.contentNonce { return Failure(StaleInput("claim identity")); }
      if !retry || !recorded.state.RetryWait? { return Success(ClaimResult(Existing, recorded, false)); }
      var validated := Revalidate(boundary, q);
      if validated.Failure? { return Failure(validated.error); }
      if recorded.binding != validated.value { return Failure(StaleInput("claim identity")); }
      var next := recorded.number + 1;
      if next > MAX_U64 { return Failure(InvalidInput("attempt number")); }
      var attemptId := RetryAttemptId(q.attemptId, recorded.attemptId, next);
      var inserted := InsertNewClaim(q, validated.value, next, attemptId, RetryNonce(q.contentNonce, next));
      if inserted.Failure? { return Failure(inserted.error); }
      r := Success(ClaimResult(NewlyClaimed, inserted.value, true));
    }

    /** The claim of a revision without attempts. */
    method ClaimUnrecorded(q: ClaimRequest, retry: bool) returns (r: Result<ClaimResult, Error>)
      modifies this`rows, this`log
      ensures (Store(rows, log), r) == ClaimFirst(boundary, Store(old(rows), old(log)), q, retry)
    {
      var validated := Revalidate(boundary, q);
      if validated.Failure? { return Failure(validated.error); }
      if retry { return Failure(StaleInput("retry state")); }
      var inserted := InsertNewClaim(q, validated.value, 1, q.attemptId, q.requestNonce);
      if inserted.Failure? { return Failure(inserted.error); }
      r := Success(ClaimResult(NewlyClaimed, inserted.value, true));
    }

    /** `claim` and, with `retry`, `claim_retry`. */
    method Claim(q: ClaimRequest, retry: bool) returns (r: Result<ClaimResult, Error>)
      requires Valid()
      modifies this`rows, this`log
      ensures Valid()
      ensures (Store(rows, log), r) == ClaimStep(boundary, Store(old(rows), old(log)), q, retry)
      ensures ClaimSpec(Store(old(rows), old(log)), q, retry, Store(rows, log), r)
    {
      ClaimEffect(boundary, Store(rows, log), q, retry);
      if q.blocked.Some? { return Failure(NotEligible(q.blocked.value)); }
      if q.key.revision > MAX_I64 { return Failure(InvalidInput("revision")); }
      var existing := LatestRow(rows, q.key);
      if existing.Some? {
        var loaded := Load(Store(rows, log), rows[existing.value]);
        if loaded.Failure? { return Failure(loaded.error); }
        r := ClaimRecorded(q, retry, loaded.value);
      } else {
        r := ClaimUnrecorded(q, retry);
      }
    }

    /** The guarded update of the row and its audit row. */
    method Apply(q: TransitionRequest, i: nat) returns (r: Result<DeliveryAttempt, Error>)
      requires i < |rows|
      modifies this`rows, this`log
      ensures (Store(rows, log), r) == ApplyTransition(boundary, Store(old(rows), old(log)), q, i)
    {
      var before := Store(rows, log);
      if !rows[i].state.Claimed? { return Failure(StaleInput("attempt state")); }
      var claim := LatestEventOfType(log, q.key.repository, q.attemptId, Claimed);
      if claim.None? || claim.value.OtherEvent? { return Failure(CorruptAttempt); }
      var event := OutcomeEvent(boundary, q, claim.value.metadata);
      rows := rows[i := UpdatedRow(rows[i], q)];
      if HasEventId(log, q.key.repository, event.eventId) {
        rows := before.rows;
        return Failure(AuditConflict);
      }
      if !EventAccepted(boundary, event, q.actor) {
        rows := before.rows;
        return Failure(AuditFailure);
      }
      log := log + [event];
      r := Load(Store(rows, log), rows[i]);
      if r.Failure? {
        rows, log := before.rows, before.log;
      }
    }

    method RecordTransition(q: TransitionRequest) returns (r: Result<DeliveryAttempt, Error>)
      requires Valid()
      modifies this`rows, this`log
      ensures Valid()
      ensures (Store(rows, log), r) == TransitionStep(boundary, Store(old(rows), old(log)), q)
      ensures TransitionSpec(Store(old(rows), old(log)), q, Store(rows, log), r)
    {
      TransitionEffect(boundary, Store(rows, log), q);
      var invalid := ValidateTransition(boundary, q);
      if invalid.Some? { return Failure(invalid.value); }
      var found := FindRow(rows, q.key.repository, q.attemptId);
      if found.None? { return Failure(AttemptNotFound); }
      var row := rows[found.value];
      if row.key.draft != q.key.draft || row.key.revision != q.key.revision {
        return Failure(StaleInput("attempt identity"));
      }
      r := Load(Store(rows, log), row);
      if r.Failure? { return; }
      var current := r.value;
      if LexLess(q.completedAt, current.startedAt) { return Failure(StaleInput("completion time")); }
      if current.state == q.state {
        if TransitionMatches(current, q) { return Success(current); }
        return Failure(StaleInput("transition metadata"));
      }
      if !current.state.CanTransitionTo(q.state) { return Failure(InvalidTransition(current.state, q.state)); }
      if q.state.Accepted? && AcceptedElsewhere(rows, q) { return Failure(RemoteMessageConflict); }
      r := Apply(q, found.value);
    }

    /** Reads the recorded outcome of a revision: its last attempt as it stands. */
    method ReadRevisionOutcome(key: RevisionKey) returns (r: Result<Option<DeliveryAttempt>, Error>)
      requires Valid()
      ensures r.Failure? <==> key.revision > MAX_I64
      ensures r.Failure? ==> r == Failure(InvalidInput("revision"))
      ensures r.Success? ==> (r.value.None? <==> LastAttempt(Store(rows, log), key).None?)
      ensures r.Success? && r.value.Some? ==>
                Load(Store(rows, log), LastAttempt(Store(rows, log), key).value) == Success(r.value.value)
    {
      if key.revision > MAX_I64 { return Failure(InvalidInput("revision")); }
      assert Numbered(Store(rows, log), key);
      assert Ascending(AttemptsOf(rows, key));
      LatestRowIsLast(rows, key);
      var latest := LatestRow(rows, key);
      if latest.None? { return Success(None); }
      Loads(boundary, Store(rows, log), latest.value);
      var loaded := Load(Store(rows, log), rows[latest.value]);
      r := Success(Some(loaded.value));
    }
  }
}
