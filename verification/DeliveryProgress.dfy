/** When a claim is granted and when a transition is recorded: exact conditions on a reachable store, and the store that
    follows. */
module DeliveryProgress {
  import opened Wrappers
  import opened Text
  import opened Delivery
  import opened DeliverySafety
  import opened DeliveryRuns

  // ---------- claims ----------

  ghost predicate IdFree(rows: seq<Row>, repository: string, attemptId: string) {
    forall i :: 0 <= i < |rows| ==> !IsAttempt(rows[i], repository, attemptId)
  }

  ghost predicate NonceFree(rows: seq<Row>, repository: string, nonce: string) {
    forall i :: 0 <= i < |rows| ==> !(rows[i].key.repository == repository && rows[i].claimNonce == nonce)
  }

  /** Nothing in the database or in the audit log stands in the way of this attempt. */
  ghost predicate Free(b: Boundary, s: Store, q: ClaimRequest, number: nat, attemptId: string, nonce: string) {
    && ValidIdentifier(attemptId) && number <= MAX_I64
    && IdFree(s.rows, q.key.repository, attemptId) && NonceFree(s.rows, q.key.repository, nonce)
    && var eventId := b.eventId(ClaimMaterial(q.key, number));
    && !HasEventId(s.log, q.key.repository, eventId)
    && b.safe(q.key.repository) && b.safe(eventId) && b.safe(attemptId) && b.safe(q.actor) && b.utc(q.startedAt)
  }

  /** The request itself is in order. */
  predicate Admitted(b: Boundary, q: ClaimRequest) {
    q.blocked.None? && q.key.revision <= MAX_I64 && Revalidate(b, q).Success?
  }

  /** The id and the nonce of the next attempt. */
  function NextId(s: Store, q: ClaimRequest): string {
    var a := AttemptsOf(s.rows, q.key);
    EffectiveAttemptId(q, if a == [] then q.attemptId
                          else RetryAttemptId(q.attemptId, a[|a| - 1].attemptId, |a| + 1))
  }

  function NextNonce(s: Store, q: ClaimRequest): string {
    var a := AttemptsOf(s.rows, q.key);
    if a == [] then q.requestNonce else RetryNonce(q.contentNonce, |a| + 1)
  }

  /** A first claim needs a revision without attempts and the content nonce as its own; a retry needs a last attempt
      that waits, with the content and the authority of this claim. */
  ghost predicate Due(b: Boundary, s: Store, q: ClaimRequest, retry: bool) {
    var a := AttemptsOf(s.rows, q.key);
    && MayProceed(s, q.key, retry) && Admitted(b, q)
    && (if a == [] then q.requestNonce == q.contentNonce != []
        else ClaimMetadata(s.log, a[|a| - 1]) == Some((q.contentNonce, Revalidate(b, q).value)))
    && Free(b, s, q, |a| + 1, NextId(s, q), NextNonce(s, q))
  }

  /** Row and event of the next attempt appended. */
  function Extended(b: Boundary, s: Store, q: ClaimRequest): Store
    requires Revalidate(b, q).Success?
  {
    var number := |AttemptsOf(s.rows, q.key)| + 1;
    Store(s.rows + [NewRow(q, number, NextId(s, q), NextNonce(s, q))],
          s.log + [ClaimEvent(b, q, Revalidate(b, q).value, number, NextId(s, q), NextNonce(s, q))])
  }

  lemma NextNumberIsFree(s: Store, key: RevisionKey, i: nat)
    requires Numbered(s, key) && i < |s.rows| && s.rows[i].key == key
    ensures s.rows[i].number <= |AttemptsOf(s.rows, key)|
  {
    Updated(s.rows, i, s.rows[i], key);
    assert AttemptsOf(s.rows, key)[Rank(s.rows, i)] == s.rows[i];
  }

  /** The unique keys of the table are free exactly if id and nonce are. */
  lemma InsertIsFree(s: Store, q: ClaimRequest, attemptId: string, nonce: string)
    requires Numbered(s, q.key)
    ensures CanInsert(s.rows, NewRow(q, |AttemptsOf(s.rows, q.key)| + 1, attemptId, nonce))
      <==> IdFree(s.rows, q.key.repository, attemptId) && NonceFree(s.rows, q.key.repository, nonce)
  {
    var row := NewRow(q, |AttemptsOf(s.rows, q.key)| + 1, attemptId, nonce);
    if IdFree(s.rows, q.key.repository, attemptId) && NonceFree(s.rows, q.key.repository, nonce) {
      forall i | 0 <= i < |s.rows|
        ensures !IsAttempt(s.rows[i], row.key.repository, row.attemptId)
        ensures !(s.rows[i].key == row.key && s.rows[i].number == row.number)
        ensures !(s.rows[i].key.repository == row.key.repository && s.rows[i].claimNonce == row.claimNonce)
      {
        if s.rows[i].key == q.key { NextNumberIsFree(s, q.key, i); }
      }
    }
  }

  lemma NoActiveRow(s: Store, key: RevisionKey)
    requires AttemptsOf(s.rows, key) == []
    ensures !HasActiveRow(s.rows, key) && LatestRow(s.rows, key).None?
  {
    forall i | 0 <= i < |s.rows| ensures s.rows[i].key != key {
      if s.rows[i].key == key { Updated(s.rows, i, s.rows[i], key); }
    }
  }

  /** The nonce the insert expects. */
  predicate RightNonce(q: ClaimRequest, number: nat, nonce: string) {
    nonce != [] && nonce == if number == 1 then q.contentNonce else RetryNonce(q.contentNonce, number)
  }

  /** What an insert into a store leaves. */
  function Inserted(b: Boundary, s: Store, q: ClaimRequest, binding: Binding, number: nat, attemptId: string,
                    nonce: string): (Store, DeliveryAttempt)
  {
    (Store(s.rows + [NewRow(q, number, attemptId, nonce)],
           s.log + [ClaimEvent(b, q, binding, number, attemptId, nonce)]),
     AttemptOf(NewRow(q, number, attemptId, nonce), q, binding))
  }

  lemma InsertIs(b: Boundary, s: Store, q: ClaimRequest, binding: Binding, number: nat, requestedId: string,
                 nonce: string)
    requires q.key.revision <= MAX_I64 && (number == 1 ==> !HasActiveRow(s.rows, q.key))
    requires var id := EffectiveAttemptId(q, requestedId);
             CanInsert(s.rows, NewRow(q, number, id, nonce))
             <==> IdFree(s.rows, q.key.repository, id) && NonceFree(s.rows, q.key.repository, nonce)
    ensures var id := EffectiveAttemptId(q, requestedId);
            InsertClaim(b, s, q, binding, number, requestedId, nonce).Success?
            <==> RightNonce(q, number, nonce) && Free(b, s, q, number, id, nonce)
    ensures var r := InsertClaim(b, s, q, binding, number, requestedId, nonce);
            r.Success? ==> r.value == Inserted(b, s, q, binding, number, EffectiveAttemptId(q, requestedId), nonce)
  {
  }

  /** The insert of the next attempt succeeds exactly if the nonce is right and everything is free. */
  lemma InsertSucceeds(b: Boundary, s: Store, q: ClaimRequest, binding: Binding, requestedId: string, nonce: string)
    requires Inv(b, s) && q.key.revision <= MAX_I64
    ensures var number := |AttemptsOf(s.rows, q.key)| + 1;
            var id := EffectiveAttemptId(q, requestedId);
            var r := InsertClaim(b, s, q, binding, number, requestedId, nonce);
            && (r.Success? <==> RightNonce(q, number, nonce) && Free(b, s, q, number, id, nonce))
            && (r.Success? ==> r.value == Inserted(b, s, q, binding, number, id, nonce))
  {
    assert Numbered(s, q.key);
    InsertIsFree(s, q, EffectiveAttemptId(q, requestedId), nonce);
    if AttemptsOf(s.rows, q.key) == [] { NoActiveRow(s, q.key); }
    InsertIs(b, s, q, binding, |AttemptsOf(s.rows, q.key)| + 1, requestedId, nonce);
  }

  /** The claim is granted exactly when due, with the next row, event and permit, and otherwise changes nothing. */
  ghost predicate ClaimMeets(b: Boundary, s: Store, q: ClaimRequest, retry: bool,
                             result: (Store, Result<ClaimResult, Error>))
  {
    var granted := result.1.Success? && result.1.value.permit;
    && (granted <==> Due(b, s, q, retry))
    && (if granted then
          && result.0 == Extended(b, s, q)
          && result.1.value.attempt.key == q.key && result.1.value.attempt.attemptId == NextId(s, q)
          && result.1.value.attempt.number == |AttemptsOf(s.rows, q.key)| + 1
        else result.0 == s)
  }

  /** A committed insert, seen as a claim. */
  lemma CommittedMeets(b: Boundary, s: Store, q: ClaimRequest, retry: bool,
                       inserted: Result<(Store, DeliveryAttempt), Error>)
    requires Admitted(b, q) && (inserted.Success? <==> Due(b, s, q, retry))
    requires inserted.Success? ==>
      inserted.value == Inserted(b, s, q, Revalidate(b, q).value, |AttemptsOf(s.rows, q.key)| + 1, NextId(s, q),
                                 NextNonce(s, q))
    ensures ClaimMeets(b, s, q, retry, Committed(inserted, s))
  {
  }

  /** A claim that is not due, and leaves the store alone without a permit. */
  lemma RefusedMeets(b: Boundary, s: Store, q: ClaimRequest, retry: bool, r: Result<ClaimResult, Error>)
    requires !Due(b, s, q, retry) && (r.Success? ==> !r.value.permit)
    ensures ClaimMeets(b, s, q, retry, (s, r))
  {
  }

  lemma FirstInsertMeets(b: Boundary, s: Store, q: ClaimRequest)
    requires Inv(b, s) && AttemptsOf(s.rows, q.key) == [] && Admitted(b, q)
    ensures ClaimMeets(b, s, q, false,
                       Committed(InsertClaim(b, s, q, Revalidate(b, q).value, 1, q.attemptId, q.requestNonce), s))
  {
    InsertSucceeds(b, s, q, Revalidate(b, q).value, q.attemptId, q.requestNonce);
    FirstIsDue(b, s, q);
    CommittedMeets(b, s, q, false, InsertClaim(b, s, q, Revalidate(b, q).value, 1, q.attemptId, q.requestNonce));
  }

  lemma FirstClaimStep(b: Boundary, s: Store, q: ClaimRequest, retry: bool)
    requires Inv(b, s) && AttemptsOf(s.rows, q.key) == [] && q.blocked.None? && q.key.revision <= MAX_I64
    ensures ClaimMeets(b, s, q, retry, ClaimFirst(b, s, q, retry))
  {
    if Admitted(b, q) && !retry {
      FirstInsertMeets(b, s, q);
    } else {
      RefusedMeets(b, s, q, retry, ClaimFirst(b, s, q, retry).1);
    }
  }

  lemma FirstNames(s: Store, q: ClaimRequest)
    requires AttemptsOf(s.rows, q.key) == []
    ensures NextId(s, q) == EffectiveAttemptId(q, q.attemptId) && NextNonce(s, q) == q.requestNonce
    ensures MayProceed(s, q.key, false)
  {
  }

  lemma FirstIsDue(b: Boundary, s: Store, q: ClaimRequest)
    requires AttemptsOf(s.rows, q.key) == [] && Admitted(b, q)
    ensures Due(b, s, q, false)
      <==> RightNonce(q, 1, q.requestNonce) && Free(b, s, q, 1, EffectiveAttemptId(q, q.attemptId), q.requestNonce)
    ensures NextId(s, q) == EffectiveAttemptId(q, q.attemptId) && NextNonce(s, q) == q.requestNonce
  {
    FirstNames(s, q);
    assert |AttemptsOf(s.rows, q.key)| + 1 == 1;
  }

  lemma NextIsDue(b: Boundary, s: Store, q: ClaimRequest, last: Row)
    requires LastAttempt(s, q.key) == Some(last) && Admitted(b, q) && StateOf(s.log, last).RetryWait?
    requires ClaimMetadata(s.log, last) == Some((q.contentNonce, Revalidate(b, q).value))
    ensures var n := |AttemptsOf(s.rows, q.key)| + 1;
      && NextId(s, q) == EffectiveAttemptId(q, RetryAttemptId(q.attemptId, last.attemptId, n))
      && NextNonce(s, q) == RetryNonce(q.contentNonce, n) && RightNonce(q, n, NextNonce(s, q))
      && (Due(b, s, q, true) <==> Free(b, s, q, n, NextId(s, q), NextNonce(s, q)))
  {
  }

  lemma WaitingMeets(b: Boundary, s: Store, q: ClaimRequest, inserted: Result<(Store, DeliveryAttempt), Error>)
    requires Admitted(b, q)
    requires var n := |AttemptsOf(s.rows, q.key)| + 1;
      && (Due(b, s, q, true) <==> Free(b, s, q, n, NextId(s, q), NextNonce(s, q))) && RightNonce(q, n, NextNonce(s, q))
      && (inserted.Success? <==> RightNonce(q, n, NextNonce(s, q)) && Free(b, s, q, n, NextId(s, q), NextNonce(s, q)))
      && (inserted.Success? ==>
            inserted.value == Inserted(b, s, q, Revalidate(b, q).value, n, NextId(s, q), NextNonce(s, q)))
    ensures ClaimMeets(b, s, q, true, Committed(inserted, s))
  {
    CommittedMeets(b, s, q, true, inserted);
  }

  lemma InsertNextSucceeds(b: Boundary, s: Store, q: ClaimRequest, recorded: DeliveryAttempt, binding: Binding)
    requires Inv(b, s) && q.key.revision <= MAX_I64 && recorded.number == |AttemptsOf(s.rows, q.key)|
    ensures var n := recorded.number + 1;
            var id := EffectiveAttemptId(q, RetryAttemptId(q.attemptId, recorded.attemptId, n));
            var nonce := RetryNonce(q.contentNonce, n);
            var r := InsertNext(b, s, q, recorded, binding);
            && (r.Success? <==> RightNonce(q, n, nonce) && Free(b, s, q, n, id, nonce))
            && (r.Success? ==> r.value == Inserted(b, s, q, binding, n, id, nonce))
  {
    var n := recorded.number + 1;
    InsertSucceeds(b, s, q, binding, RetryAttemptId(q.attemptId, recorded.attemptId, n), RetryNonce(q.contentNonce, n));
  }

  /** A retry of a waiting attempt that repeats its content and authority. */
  lemma WaitingClaimStep(b: Boundary, s: Store, q: ClaimRequest, recorded: DeliveryAttempt, last: Row)
    requires Inv(b, s) && LastAttempt(s, q.key) == Some(last) && Admitted(b, q) && StateOf(s.log, last).RetryWait?
    requires recorded.number == |AttemptsOf(s.rows, q.key)| && recorded.attemptId == last.attemptId
    requires ClaimMetadata(s.log, last) == Some((q.contentNonce, Revalidate(b, q).value))
    ensures ClaimMeets(b, s, q, true, Committed(InsertNext(b, s, q, recorded, Revalidate(b, q).value), s))
  {
    NextIsDue(b, s, q, last);
    InsertNextSucceeds(b, s, q, recorded, Revalidate(b, q).value);
    WaitingMeets(b, s, q, InsertNext(b, s, q, recorded, Revalidate(b, q).value));
  }

  lemma NextClaimStep(b: Boundary, s: Store, q: ClaimRequest, retry: bool, recorded: DeliveryAttempt, last: Row)
    requires Inv(b, s) && LastAttempt(s, q.key) == Some(last) && q.blocked.None? && q.key.revision <= MAX_I64
    requires recorded.state == StateOf(s.log, last) && recorded.number == |AttemptsOf(s.rows, q.key)|
    requires recorded.attemptId == last.attemptId
    requires ClaimMetadata(s.log, last) == Some((recorded.contentNonce, recorded.binding))
    ensures ClaimMeets(b, s, q, retry, ClaimAfter(b, s, q, retry, recorded))
  {
    var validated := Revalidate(b, q);
    if retry && recorded.state.RetryWait? && validated.Success? && recorded.contentNonce == q.contentNonce
       && recorded.binding == validated.value {
      WaitingClaimStep(b, s, q, recorded, last);
    } else {
      RefusedMeets(b, s, q, retry, ClaimAfter(b, s, q, retry, recorded).1);
    }
  }

  lemma ClaimStepMeets(b: Boundary, s: Store, q: ClaimRequest, retry: bool)
    requires Inv(b, s)
    ensures ClaimMeets(b, s, q, retry, ClaimStep(b, s, q, retry))
  {
    NewestIsLast(b, s, q.key);
    var latest := LatestRow(s.rows, q.key);
    if q.blocked.Some? || q.key.revision > MAX_I64 {
    } else if latest.None? {
      FirstClaimStep(b, s, q, retry);
    } else {
      LoadedId(s, s.rows[latest.value]);
      NextClaimStep(b, s, q, retry, Load(s, s.rows[latest.value]).value, s.rows[latest.value]);
    }
  }

  lemma LoadedId(s: Store, row: Row)
    ensures Load(s, row).Success? ==> Load(s, row).value.attemptId == row.attemptId
  {
  }

  /** The world that follows if the claim is granted exactly when due. */
  ghost function AfterDue(b: Boundary, w: World, q: ClaimRequest, retry: bool): World {
    if Due(b, w.store, q, retry)
    then World(Extended(b, w.store, q),
               w.permits + [Permit(q.key, NextId(w.store, q), |AttemptsOf(w.store.rows, q.key)| + 1)])
    else w
  }

  lemma MeetingClaimIs(b: Boundary, w: World, q: ClaimRequest, retry: bool, s: Store, r: Result<ClaimResult, Error>)
    requires ClaimMeets(b, w.store, q, retry, (s, r))
    ensures AfterClaim(w, s, r) == AfterDue(b, w, q, retry)
  {
    assert w.permits + [] == w.permits;
  }

  /** One claim, seen on store and permits. */
  lemma ClaimIs(b: Boundary, w: World, q: ClaimRequest, retry: bool)
    requires Inv(b, w.store)
    ensures Step(b, w, Claim(q, retry)) == AfterDue(b, w, q, retry)
  {
    ClaimStepMeets(b, w.store, q, retry);
    var (s, r) := ClaimStep(b, w.store, q, retry);
    MeetingClaimIs(b, w, q, retry, s, r);
  }

  /** In every reachable store a claim is granted exactly when it is due. Then row, event and permit of the next attempt
      are appended; otherwise store and permits stay. In particular a retry whose id, requested or derived, belongs to
      any earlier attempt of the repository is refused. */
  lemma GrantedExactlyWhenDue(b: Boundary, cs: seq<Command>, q: ClaimRequest, retry: bool)
    ensures var w := Run(b, Start, cs);
            Step(b, w, Claim(q, retry))
            == if Due(b, w.store, q, retry)
               then World(Extended(b, w.store, q),
                          w.permits + [Permit(q.key, NextId(w.store, q), |AttemptsOf(w.store.rows, q.key)| + 1)])
               else w
  {
    Reachable(b, cs);
    ClaimIs(b, Run(b, Start, cs), q, retry);
  }

  /** A retry whose id, requested or derived, is that of an earlier attempt gets no permit and changes nothing. */
  lemma UsedIdGetsNoPermit(b: Boundary, cs: seq<Command>, q: ClaimRequest, i: nat)
    requires var s := Run(b, Start, cs).store; i < |s.rows| && IsAttempt(s.rows[i], q.key.repository, NextId(s, q))
    ensures Step(b, Run(b, Start, cs), Claim(q, true)) == Run(b, Start, cs)
  {
    GrantedExactlyWhenDue(b, cs, q, true);
  }

  // ---------- transitions ----------

  /** An acceptance has a message id and no error code; any other outcome has an error code and no message id. */
  predicate WellFormed(b: Boundary, q: TransitionRequest) {
    && ValidIdentifier(q.key.repository) && ValidIdentifier(q.key.draft) && ValidIdentifier(q.attemptId)
    && ValidIdentifier(q.actor) && b.utc(q.completedAt)
    && match q.state
       case Accepted => q.errorCode == None && q.messageId.Some? && ValidIdentifier(q.messageId.value)
       case Failed => q.errorCode.Some? && ValidErrorCode(q.errorCode.value) && q.messageId == None
       case Unknown => q.errorCode.Some? && ValidErrorCode(q.errorCode.value) && q.messageId == None
       case RetryWait => q.errorCode.Some? && ValidErrorCode(q.errorCode.value) && q.messageId == None
       case _ => false
  }

  lemma ValidExactlyIf(b: Boundary, q: TransitionRequest)
    ensures ValidateTransition(b, q).None? <==> WellFormed(b, q)
  {
  }

  /** Another attempt of the repository is accepted with this very message. */
  predicate HasMessage(row: Row, q: TransitionRequest) {
    && row.key.repository == q.key.repository && row.attemptId != q.attemptId
    && row.state == Accepted && row.messageId == q.messageId
  }

  lemma ElsewhereIs(rows: seq<Row>, q: TransitionRequest)
    ensures AcceptedElsewhere(rows, q) <==> exists j :: 0 <= j < |rows| && HasMessage(rows[j], q)
  {
    forall j | 0 <= j < |rows|
      ensures HasMessage(rows[j], q)
        <==> rows[j].key.repository == q.key.repository && rows[j].messageId == q.messageId
             && rows[j].state.Accepted? && rows[j].attemptId != q.attemptId {
    }
  }

  /** The outcome is well formed, the attempt of row `i` only claimed so far, and not later than the outcome. */
  ghost predicate Open(b: Boundary, s: Store, q: TransitionRequest, i: nat) {
    && WellFormed(b, q) && i < |s.rows| && s.rows[i].key == q.key && s.rows[i].attemptId == q.attemptId
    && StateOf(s.log, s.rows[i]).Claimed? && !LexLess(q.completedAt, s.rows[i].claimedAt)
  }

  /** Nothing in the audit log stands in the way of the outcome. */
  ghost predicate HasRoom(b: Boundary, s: Store, q: TransitionRequest) {
    var eventId := b.eventId(OutcomeMaterial(q.state, q.key.repository, q.key.draft, q.attemptId));
    && !HasEventId(s.log, q.key.repository, eventId)
    && b.safe(q.key.repository) && b.safe(eventId) && b.safe(q.attemptId) && b.safe(q.actor) && b.utc(q.completedAt)
  }

  /** The outcome is open for the attempt, its message no other attempt's, and the log has room for it. */
  ghost predicate Recordable(b: Boundary, s: Store, q: TransitionRequest) {
    var found := FindRow(s.rows, q.key.repository, q.attemptId);
    && found.Some? && Open(b, s, q, found.value) && HasRoom(b, s, q)
    && (q.state.Accepted? ==> forall j :: 0 <= j < |s.rows| ==> !HasMessage(s.rows[j], q))
  }

  /** The row stamped and the outcome logged. */
  function Stamped(b: Boundary, s: Store, q: TransitionRequest, i: nat): Store
    requires i < |s.rows|
  {
    var claim := LatestEventOfType(s.log, q.key.repository, q.attemptId, Claimed);
    if claim.None? || claim.value.OtherEvent? then s
    else Store(s.rows[i := UpdatedRow(s.rows[i], q)], s.log + [OutcomeEvent(b, q, claim.value.metadata)])
  }

  /** The transaction of a recordable outcome reaches the guarded update. */
  lemma RecordableReachesUpdate(b: Boundary, s: Store, q: TransitionRequest, i: nat)
    requires RowsAgree(b, s) && Recordable(b, s, q) && FindRow(s.rows, q.key.repository, q.attemptId) == Some(i)
    ensures TransitionStep(b, s, q) == ApplyTransition(b, s, q, i) && s.rows[i].state.Claimed? && OutcomeShape(q)
    ensures q.state.Accepted? ==> !AcceptedElsewhere(s.rows, q)
  {
    ValidExactlyIf(b, q);
    ElsewhereIs(s.rows, q);
    ValidShape(b, q);
    ClaimedRow(b, s, i);
    Loads(b, s, i);
  }

  lemma RecordableIsRecorded(b: Boundary, s: Store, q: TransitionRequest, i: nat)
    requires Inv(b, s) && Recordable(b, s, q) && FindRow(s.rows, q.key.repository, q.attemptId) == Some(i)
    ensures TransitionStep(b, s, q).0 == Stamped(b, s, q, i) && TransitionStep(b, s, q).1.Success?
  {
    RecordableReachesUpdate(b, s, q, i);
    var e := ApplyIs(b, s, q, i);
    UpdateIsStamp(b, s, q, i, e);
  }

  /** The guarded update of a recordable outcome fails for no reason of the log. */
  lemma UpdateIsStamp(b: Boundary, s: Store, q: TransitionRequest, i: nat, e: Event)
    requires Recordable(b, s, q) && i < |s.rows| && s.rows[i].state.Claimed?
    requires var claim := LatestEventOfType(s.log, q.key.repository, q.attemptId, Claimed);
             claim.Some? && claim.value.AttemptEvent? && e == OutcomeEvent(b, q, claim.value.metadata)
    requires var s' := Store(s.rows[i := UpdatedRow(s.rows[i], q)], s.log + [e]); Load(s', s'.rows[i]).Success?
    ensures ApplyTransition(b, s, q, i).0 == Stamped(b, s, q, i) && ApplyTransition(b, s, q, i).1.Success?
  {
  }

  lemma UnrecordableIsRefused(b: Boundary, s: Store, q: TransitionRequest)
    requires Inv(b, s) && !Recordable(b, s, q)
    ensures TransitionStep(b, s, q).0 == s
  {
    if TransitionStep(b, s, q).0 != s {
      var i := ChangedPasses(b, s, q);
      ValidShape(b, q);
      ValidExactlyIf(b, q);
      ElsewhereIs(s.rows, q);
      CanOnlyLeaveClaimed(b, s, i, q.state);
    }
  }

  /** In every reachable store a transition is recorded exactly when it is recordable, and otherwise changes nothing. */
  lemma RecordedExactlyWhen(b: Boundary, cs: seq<Command>, q: TransitionRequest)
    ensures var s := Run(b, Start, cs).store;
            TransitionStep(b, s, q).0
            == if Recordable(b, s, q) then Stamped(b, s, q, FindRow(s.rows, q.key.repository, q.attemptId).value) else s
  {
    Reachable(b, cs);
    var s := Run(b, Start, cs).store;
    if Recordable(b, s, q) {
      RecordableIsRecorded(b, s, q, FindRow(s.rows, q.key.repository, q.attemptId).value);
    } else {
      UnrecordableIsRefused(b, s, q);
    }
  }
}
