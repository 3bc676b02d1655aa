/** Theorems about whole runs of the delivery protocol. A run is any sequence of transactions of any number of
    coordinators. A coordinator that stops between two transactions contributes no more of them; one that stops
    inside a transaction changes nothing; a permit counts as issued as soon as its transaction has committed. */
module DeliveryRuns {
  import opened Wrappers
  import opened Text
  import opened Delivery
  import opened DeliverySafety

  datatype Command =
    | Claim(claim: ClaimRequest, retry: bool)
    | Transition(transition: TransitionRequest)
    | OtherAudit(repository: string, eventId: string)     // another crate appends to the shared log

  /** The store and, beside it, every permit ever issued. */
  datatype World = World(store: Store, permits: seq<Permit>)

  const Start := World(Store([], []), [])

  /** What a claim transaction leaves: its store, and its permit if it granted one. */
  function AfterClaim(w: World, s: Store, r: Result<ClaimResult, Error>): World {
    World(s, w.permits + if r.Success? && r.value.permit
                         then [Permit(r.value.attempt.key, r.value.attempt.attemptId, r.value.attempt.number)] else [])
  }

  function Step(b: Boundary, w: World, c: Command): World {
    match c
    case Claim(q, retry) => var (s, r) := ClaimStep(b, w.store, q, retry); AfterClaim(w, s, r)
    case Transition(q) => w.(store := TransitionStep(b, w.store, q).0)
    case OtherAudit(repository, eventId) =>
      if HasEventId(w.store.log, repository, eventId) then w
      else w.(store := w.store.(log := w.store.log + [OtherEvent(repository, eventId)]))
  }

  function Run(b: Boundary, w: World, cs: seq<Command>): World
    decreases |cs|
  {
    if cs == [] then w else Run(b, Step(b, w, cs[0]), cs[1..])
  }

  ghost predicate WorldInv(b: Boundary, w: World) {
    Inv(b, w.store) && w.permits == PermitsOf(w.store.rows)
  }

  lemma SameRowsSameAttempts(s: Store, s': Store, key: RevisionKey)
    requires s'.rows == s.rows && KeptBut(s.log, s'.log, s.rows, -1)
    ensures SameAttempts(s, s', key) && (Numbered(s, key) ==> Numbered(s', key))
  {
    var a := AttemptsOf(s.rows, key);
    forall k | 0 <= k < |a| ensures StateOf(s'.log, a[k]) == StateOf(s.log, a[k]) {
      StateKept(s.log, s'.log, s.rows, key, k);
    }
  }

  lemma OtherAuditKeeps(b: Boundary, s: Store, e: Event)
    requires Inv(b, s) && e.OtherEvent?
    ensures Inv(b, Store(s.rows, s.log + [e]))
    ensures forall key :: SameAttempts(s, Store(s.rows, s.log + [e]), key)
  {
    var s' := Store(s.rows, s.log + [e]);
    forall repository, attemptId
      ensures EventsFor(s'.log, repository, attemptId) == EventsFor(s.log, repository, attemptId) {
      Appended(s.log, e, repository, attemptId);
    }
    FrameAll(b, s.log, e, s.rows, -1);
    forall key ensures Numbered(s', key) && SameAttempts(s, s', key) {
      assert Numbered(s, key);
      SameRowsSameAttempts(s, s', key);
    }
  }

  /** A granted claim appends one row and its permit; any other claim changes nothing. */
  lemma AfterClaimIs(w: World, q: ClaimRequest, retry: bool, s: Store, r: Result<ClaimResult, Error>)
    requires w.permits == PermitsOf(w.store.rows) && ClaimSpec(w.store, q, retry, s, r)
    ensures var w' := AfterClaim(w, s, r);
            w'.permits == PermitsOf(s.rows)
            && if r.Success? && r.value.permit then
                 MayProceed(w.store, q.key, retry) && Granted(w.store, s, q.key, r.value.attempt)
                 && s.rows == w.store.rows + [s.rows[|w.store.rows|]]
                 && w'.permits == w.permits + [PermitOf(s.rows[|w.store.rows|])]
               else w' == w
  {
  }

  lemma StepKeeps(b: Boundary, w: World, c: Command)
    requires WorldInv(b, w)
    ensures WorldInv(b, Step(b, w, c))
  {
    match c
    case Claim(q, retry) =>
      ClaimEffect(b, w.store, q, retry);
      AfterClaimIs(w, q, retry, ClaimStep(b, w.store, q, retry).0, ClaimStep(b, w.store, q, retry).1);
    case Transition(q) =>
      TransitionEffect(b, w.store, q);
      if TransitionStep(b, w.store, q).0 != w.store {
        assert Settled(w.store, q, TransitionStep(b, w.store, q).0, TransitionStep(b, w.store, q).1.value);
      }
    case OtherAudit(repository, eventId) =>
      if !HasEventId(w.store.log, repository, eventId) { OtherAuditKeeps(b, w.store, OtherEvent(repository, eventId)); }
  }

  lemma {:induction false} RunKeeps(b: Boundary, w: World, cs: seq<Command>)
    requires WorldInv(b, w)
    ensures WorldInv(b, Run(b, w, cs))
    decreases |cs|
  {
    if cs != [] {
      StepKeeps(b, w, cs[0]);
      RunKeeps(b, Step(b, w, cs[0]), cs[1..]);
    }
  }

  lemma Reachable(b: Boundary, cs: seq<Command>)
    ensures WorldInv(b, Run(b, Start, cs))
  {
    assert WorldInv(b, Start);
    RunKeeps(b, Start, cs);
  }

  // ---------- main theorems ----------

  /** In every reachable store the attempts of a revision are numbered 1..n without gaps, all but the last wait for a
      retry, all carry one content and authority, and the permits issued so far are exactly one per attempt. */
  lemma DuplicateSafety(b: Boundary, cs: seq<Command>, key: RevisionKey)
    ensures var w := Run(b, Start, cs);
            var a := AttemptsOf(w.store.rows, key);
            && (forall k :: 0 <= k < |a| ==> a[k].number == k + 1)
            && (forall k :: 0 <= k < |a| - 1 ==> StateOf(w.store.log, a[k]).RetryWait?)
            && (forall k :: 0 <= k < |a| ==> ClaimMetadata(w.store.log, a[k]) == ClaimMetadata(w.store.log, a[0]))
            && w.permits == PermitsOf(w.store.rows)
            && (forall i, j ::
                0 <= i < j < |w.permits| && w.permits[i].key.repository == w.permits[j].key.repository ==>
                  w.permits[i].attemptId != w.permits[j].attemptId)
  {
    Reachable(b, cs);
    var s := Run(b, Start, cs).store;
    assert Numbered(s, key);
    var a := AttemptsOf(s.rows, key);
    forall k | 0 <= k < |a| ensures ClaimMetadata(s.log, a[k]) == ClaimMetadata(s.log, a[0]) {
      var i := Member(s.rows, key, k);
      var j := Member(s.rows, key, 0);
    }
    assert UniqueIds(s.rows);
  }

  /** A row loads, the log of its attempt is one claim and at most one outcome, and both tell the same: the row state is
      the logical state except that `retry_wait` shows as `claimed`. */
  ghost predicate Agrees(b: Boundary, s: Store, row: Row) {
    var events := EventsFor(s.log, row.key.repository, row.attemptId);
    var loaded := Load(s, row);
    && 1 <= |events| <= 2 && events[0].AttemptEvent? && events[0].transition.Claimed?
    && (|events| == 2 ==> events[1].AttemptEvent? && !events[1].transition.Claimed?)
    && loaded.Success? && loaded.value.state == StateOf(s.log, row)
    && row.state == (if loaded.value.state.RetryWait? then Claimed else loaded.value.state)
    && loaded.value.completedAt == row.completedAt
    && row.completedAt == (if |events| == 1 then None else Some(events[1].occurredAt))
    && loaded.value.errorCode == RedactOption(b, row.failureCode)
    && loaded.value.messageId == RedactOption(b, row.messageId)
    && (row.messageId.Some? <==> loaded.value.state.Accepted?)
    && (row.failureCode.None? <==> loaded.value.state.Claimed? || loaded.value.state.Accepted?)
  }

  lemma RowAgreesWithLog(b: Boundary, s: Store, i: nat)
    requires RowsAgree(b, s) && i < |s.rows|
    ensures Agrees(b, s, s.rows[i])
  {
    Loads(b, s, i);
    assert RowAgrees(b, s.log, s.rows[i]);
  }

  /** In every reachable store each row agrees with its log. */
  lemma RowAndLogAgree(b: Boundary, cs: seq<Command>, i: nat)
    requires i < |Run(b, Start, cs).store.rows|
    ensures Agrees(b, Run(b, Start, cs).store, Run(b, Start, cs).store.rows[i])
  {
    Reachable(b, cs);
    RowAgreesWithLog(b, Run(b, Start, cs).store, i);
  }

  /** An accepted Discord message belongs to one attempt per repository. */
  lemma AcceptedMessageIsUnique(b: Boundary, cs: seq<Command>, i: nat, j: nat)
    requires var rows := Run(b, Start, cs).store.rows;
             && i < |rows| && j < |rows| && rows[i].key.repository == rows[j].key.repository
             && rows[i].state.Accepted? && rows[j].state.Accepted? && rows[i].messageId == rows[j].messageId
    ensures i == j
  {
    Reachable(b, cs);
    assert UniqueMessages(Run(b, Start, cs).store.rows);
  }

  /** A claim issues a permit only for the first attempt, or for a retry whose predecessor waits for it; otherwise the
      store and the permits stay as they are. */
  lemma PermitOnlyWhenDue(b: Boundary, cs: seq<Command>, q: ClaimRequest, retry: bool)
    ensures var w := Run(b, Start, cs); var w' := Step(b, w, Claim(q, retry));
            w' == w
            || (MayProceed(w.store, q.key, retry)
                && |w'.store.rows| == |w.store.rows| + 1
                && var row := w'.store.rows[|w.store.rows|];
                   w'.permits == w.permits + [PermitOf(row)] && w'.store.rows == w.store.rows + [row]
                   && row.key == q.key && row.number == |AttemptsOf(w.store.rows, q.key)| + 1)
  {
    Reachable(b, cs);
    var w := Run(b, Start, cs);
    ClaimEffect(b, w.store, q, retry);
    AfterClaimIs(w, q, retry, ClaimStep(b, w.store, q, retry).0, ClaimStep(b, w.store, q, retry).1);
  }

  ghost predicate Closed(s: Store, key: RevisionKey) {
    var last := LastAttempt(s, key);
    last.Some? && StateOf(s.log, last.value).IsFinalOutcome()
  }

  /** A granted claim leaves the attempts of every other revision as they are. */
  lemma GrantedElsewhere(s: Store, s': Store, key: RevisionKey, attempt: DeliveryAttempt, other: RevisionKey)
    requires Granted(s, s', key, attempt) && other != key
    ensures SameAttempts(s, s', other)
  {
    assert s'.rows[..|s'.rows| - 1] == s.rows;
    var a := AttemptsOf(s.rows, other);
    forall k | 0 <= k < |a| ensures StateOf(s'.log, a[k]) == StateOf(s.log, a[k]) {
      var i := Member(s.rows, other, k);
    }
  }

  lemma ClosedClaim(b: Boundary, s: Store, q: ClaimRequest, retry: bool, s': Store, r: Result<ClaimResult, Error>,
                    key: RevisionKey)
    requires ClaimSpec(s, q, retry, s', r) && Closed(s, key)
    ensures SameAttempts(s, s', key)
  {
    if r.Success? && r.value.permit { GrantedElsewhere(s, s', q.key, r.value.attempt, key); }
  }

  lemma ClosedTransition(s: Store, q: TransitionRequest, s': Store, r: Result<DeliveryAttempt, Error>, key: RevisionKey)
    requires TransitionSpec(s, q, s', r) && Closed(s, key)
    ensures SameAttempts(s, s', key)
  {
  }

  lemma ClosedStep(b: Boundary, w: World, c: Command, key: RevisionKey)
    requires WorldInv(b, w) && Closed(w.store, key)
    ensures SameAttempts(w.store, Step(b, w, c).store, key)
  {
    var s := w.store;
    match c
    case Claim(q, retry) =>
      ClaimEffect(b, s, q, retry);
      ClosedClaim(b, s, q, retry, ClaimStep(b, s, q, retry).0, ClaimStep(b, s, q, retry).1, key);
    case Transition(q) =>
      TransitionEffect(b, s, q);
      ClosedTransition(s, q, TransitionStep(b, s, q).0, TransitionStep(b, s, q).1, key);
    case OtherAudit(repository, eventId) =>
      if !HasEventId(s.log, repository, eventId) { OtherAuditKeeps(b, s, OtherEvent(repository, eventId)); }
  }

  /** The same attempts in a third store. */
  lemma SameAttemptsTrans(s: Store, s': Store, s'': Store, key: RevisionKey)
    requires SameAttempts(s, s', key)
    ensures Closed(s, key) ==> Closed(s', key)
    ensures SameAttempts(s', s'', key) ==> SameAttempts(s, s'', key)
  {
  }

  lemma {:induction false} ClosedAttempts(b: Boundary, w: World, more: seq<Command>, key: RevisionKey)
    requires WorldInv(b, w) && Closed(w.store, key)
    ensures SameAttempts(w.store, Run(b, w, more).store, key)
    decreases |more|
  {
    if more != [] {
      var w' := Step(b, w, more[0]);
      ClosedStep(b, w, more[0], key);
      StepKeeps(b, w, more[0]);
      SameAttemptsTrans(w.store, w'.store, Run(b, w', more[1..]).store, key);
      ClosedAttempts(b, w', more[1..], key);
    }
  }

  /** Once the last attempt of a revision is accepted, failed or unknown, no later call of anyone starts another
      attempt, issues another permit or changes an outcome. */
  lemma ClosedForever(b: Boundary, cs: seq<Command>, more: seq<Command>, key: RevisionKey)
    requires Closed(Run(b, Start, cs).store, key)
    ensures var w := Run(b, Start, cs); var w' := Run(b, w, more);
            SameAttempts(w.store, w'.store, key) && PermitsFor(w'.permits, key) == PermitsFor(w.permits, key)
  {
    var w := Run(b, Start, cs);
    Reachable(b, cs);
    RunKeeps(b, w, more);
    ClosedAttempts(b, w, more, key);
    PermitsForRows(w.store.rows, key);
    PermitsForRows(Run(b, w, more).store.rows, key);
  }

  function PermitsFor(permits: seq<Permit>, key: RevisionKey): seq<Permit> {
    if permits == [] then []
    else PermitsFor(permits[..|permits| - 1], key) + if permits[|permits| - 1].key == key then [permits[|permits| - 1]]
      else []
  }

  /** The permits of a revision are those of its attempts. */
  lemma {:induction false} PermitsForRows(rows: seq<Row>, key: RevisionKey)
    ensures PermitsFor(PermitsOf(rows), key) == PermitsOf(AttemptsOf(rows, key))
  {
    if rows != [] {
      var n := |rows| - 1;
      assert PermitsOf(rows)[..n] == PermitsOf(rows[..n]);
      PermitsForRows(rows[..n], key);
      var front := AttemptsOf(rows[..n], key);
      assert AttemptsOf(rows, key) == front + if rows[n].key == key then [rows[n]] else [];
      assert PermitsOf(front + [rows[n]]) == PermitsOf(front) + [PermitOf(rows[n])];
    }
  }

  /** A late outcome for an attempt that waits for a retry is refused, although its row still says `claimed`. */
  lemma LateOutcomeRefused(b: Boundary, cs: seq<Command>, i: nat, q: TransitionRequest)
    requires var s := Run(b, Start, cs).store;
             && i < |s.rows| && StateOf(s.log, s.rows[i]).RetryWait?
             && q.key == s.rows[i].key && q.attemptId == s.rows[i].attemptId
             && ValidateTransition(b, q).None? && !q.state.RetryWait? && !LexLess(q.completedAt, s.rows[i].claimedAt)
    ensures var s := Run(b, Start, cs).store;
            s.rows[i].state.Claimed? && TransitionStep(b, s, q) == (s, Failure(InvalidTransition(RetryWait, q.state)))
  {
    Reachable(b, cs);
    var s := Run(b, Start, cs).store;
    Loads(b, s, i);
    assert RowAgrees(b, s.log, s.rows[i]);
    ValidShape(b, q);
    var found := FindRow(s.rows, q.key.repository, q.attemptId).value;
    assert found == i by {
      assert IsAttempt(s.rows[i], q.key.repository, q.attemptId);
      assert UniqueIds(s.rows);
    }
  }

  lemma FindsTheRow(rows: seq<Row>, repository: string, attemptId: string, i: nat)
    requires UniqueIds(rows) && i < |rows| && IsAttempt(rows[i], repository, attemptId)
    ensures FindRow(rows, repository, attemptId) == Some(i)
  {
    var found := FindRow(rows, repository, attemptId);
  }

  /** A transition that changes the store passed every check. */
  lemma ChangedPasses(b: Boundary, s: Store, q: TransitionRequest) returns (i: nat)
    requires Inv(b, s) && TransitionStep(b, s, q).0 != s
    ensures ValidateTransition(b, q).None? && FindRow(s.rows, q.key.repository, q.attemptId) == Some(i)
            && s.rows[i].key == q.key
    ensures !LexLess(q.completedAt, s.rows[i].claimedAt) && !(q.state.Accepted? && AcceptedElsewhere(s.rows, q))
    ensures TransitionStep(b, s, q) == ApplyTransition(b, s, q, i) && s.rows[i].state.Claimed?
    ensures StateOf(s.log, s.rows[i]).CanTransitionTo(q.state)
  {
    i := FindRow(s.rows, q.key.repository, q.attemptId).value;
    Loads(b, s, i);
    var current := Load(s, s.rows[i]).value;
    assert TransitionStep(b, s, q) == TransitionFrom(b, s, q, i, current);
  }

  /** The command line program claims only first attempts. */
  predicate FirstAttemptsOnly(cs: seq<Command>) {
    forall i :: 0 <= i < |cs| && cs[i].Claim? ==> !cs[i].retry
  }

  lemma FirstStep(b: Boundary, w: World, c: Command, key: RevisionKey)
    requires WorldInv(b, w) && |AttemptsOf(w.store.rows, key)| <= 1 && (c.Claim? ==> !c.retry)
    ensures |AttemptsOf(Step(b, w, c).store.rows, key)| <= 1
  {
    var s := w.store;
    match c
    case Claim(q, retry) =>
      ClaimEffect(b, s, q, retry);
      FirstClaim(s, q, ClaimStep(b, s, q, retry).0, ClaimStep(b, s, q, retry).1, key);
    case Transition(q) =>
      TransitionEffect(b, s, q);
      FirstTransition(s, q, TransitionStep(b, s, q).0, TransitionStep(b, s, q).1, key);
    case OtherAudit(repository, eventId) =>
  }

  lemma FirstClaim(s: Store, q: ClaimRequest, s': Store, r: Result<ClaimResult, Error>, key: RevisionKey)
    requires ClaimSpec(s, q, false, s', r) && |AttemptsOf(s.rows, key)| <= 1
    ensures |AttemptsOf(s'.rows, key)| <= 1
  {
  }

  lemma FirstTransition(s: Store, q: TransitionRequest, s': Store, r: Result<DeliveryAttempt, Error>, key: RevisionKey)
    requires TransitionSpec(s, q, s', r) && |AttemptsOf(s.rows, key)| <= 1
    ensures |AttemptsOf(s'.rows, key)| <= 1
  {
    if s' != s && key != q.key { assert SameAttempts(s, s', key); }
  }

  lemma {:induction false} FirstRun(b: Boundary, w: World, cs: seq<Command>, key: RevisionKey)
    requires WorldInv(b, w) && |AttemptsOf(w.store.rows, key)| <= 1 && FirstAttemptsOnly(cs)
    ensures |AttemptsOf(Run(b, w, cs).store.rows, key)| <= 1
    decreases |cs|
  {
    if cs != [] {
      FirstStep(b, w, cs[0], key);
      StepKeeps(b, w, cs[0]);
      FirstRun(b, Step(b, w, cs[0]), cs[1..], key);
    }
  }

  /** However many processes run the command line program, and wherever they stop, a revision gets at most one permit,
      hence at most one transport request. */
  lemma OnePermitWithoutRetry(b: Boundary, cs: seq<Command>, key: RevisionKey)
    requires FirstAttemptsOnly(cs)
    ensures |PermitsFor(Run(b, Start, cs).permits, key)| <= 1
  {
    Reachable(b, cs);
    assert WorldInv(b, Start);
    FirstRun(b, Start, cs, key);
    PermitsForRows(Run(b, Start, cs).store.rows, key);
  }
}
