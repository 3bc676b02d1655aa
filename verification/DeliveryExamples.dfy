/** Runs that end refused: the third attempt under one request id, and a recorded outcome that is repeated. First for
    any boundary that accepts the identifiers, then for the audit log as it is, with identifiers spelled out. */
module DeliveryExamples {
  import opened Wrappers
  import opened Text
  import opened Delivery
  import opened DeliverySafety
  import opened DeliveryRuns
  import opened DeliveryProgress
  import opened DeliveryReplay
  import opened MetadataFields
  import AttemptLog
  import Redaction
  import Timestamps

  // ---------- the run ----------

  function SecondId(q: ClaimRequest): string { q.attemptId + "-retry-" + Decimal(2) }

  function ClaimEventId(b: Boundary, q: ClaimRequest, number: nat): string { b.eventId(ClaimMaterial(q.key, number)) }

  function WaitEventId(b: Boundary, q: ClaimRequest, attemptId: string): string {
    b.eventId(OutcomeMaterial(RetryWait, q.key.repository, q.key.draft, attemptId))
  }

  /** The four event ids of the run. */
  function EventIds(b: Boundary, q: ClaimRequest): seq<string> {
    [ClaimEventId(b, q, 1), WaitEventId(b, q, q.attemptId), ClaimEventId(b, q, 2), WaitEventId(b, q, SecondId(q))]
  }

  predicate Distinct(ids: seq<string>) { forall i, j :: 0 <= i < j < |ids| ==> ids[i] != ids[j] }

  /** The boundary accepts the request and the identifiers of the first two attempts. */
  ghost predicate Accepts(b: Boundary, q: ClaimRequest) {
    && DeliveryProgress.Admitted(b, q) && q.requestNonce == q.contentNonce != [] && q.attemptId != []
    && ValidIdentifier(q.attemptId) && ValidIdentifier(SecondId(q))
    && b.safe(q.key.repository) && b.safe(q.actor) && b.safe(q.attemptId) && b.safe(SecondId(q)) && b.utc(q.startedAt)
    && Distinct(EventIds(b, q)) && forall i :: 0 <= i < 4 ==> b.safe(EventIds(b, q)[i])
  }

  /** A wait for the attempt, recorded at the time of its claim. */
  function WaitFor(q: ClaimRequest, attemptId: string, code: string): TransitionRequest {
    TransitionRequest(q.key, attemptId, RetryWait, q.startedAt, Some(code), None, q.actor)
  }

  ghost predicate WaitsAreValid(b: Boundary, q: ClaimRequest, code: string) {
    && ValidateTransition(b, WaitFor(q, q.attemptId, code)).None?
    && ValidateTransition(b, WaitFor(q, SecondId(q), code)).None?
  }

  function Row1(q: ClaimRequest): Row { NewRow(q, 1, q.attemptId, q.contentNonce) }
  function Row2(q: ClaimRequest): Row { NewRow(q, 2, SecondId(q), RetryNonce(q.contentNonce, 2)) }

  function Claim1(b: Boundary, q: ClaimRequest): Event
    requires Revalidate(b, q).Success?
  {
    ClaimEvent(b, q, Revalidate(b, q).value, 1, q.attemptId, q.contentNonce)
  }

  function Claim2(b: Boundary, q: ClaimRequest): Event
    requires Revalidate(b, q).Success?
  {
    ClaimEvent(b, q, Revalidate(b, q).value, 2, SecondId(q), RetryNonce(q.contentNonce, 2))
  }

  function Wait1(b: Boundary, q: ClaimRequest, code: string): Event
    requires Revalidate(b, q).Success?
  {
    OutcomeEvent(b, WaitFor(q, q.attemptId, code), Claim1(b, q).metadata)
  }

  function Wait2(b: Boundary, q: ClaimRequest, code: string): Event
    requires Revalidate(b, q).Success?
  {
    OutcomeEvent(b, WaitFor(q, SecondId(q), code), Claim2(b, q).metadata)
  }

  function Waited(row: Row, q: ClaimRequest, code: string): Row { UpdatedRow(row, WaitFor(q, row.attemptId, code)) }

  lemma NotEarlier(a: string)
    ensures !LexLess(a, a)
  {
    LexIrreflexive(a);
  }

  lemma IdsDiffer(q: ClaimRequest)
    ensures SecondId(q) != q.attemptId && |SecondId(q)| > |q.attemptId|
    ensures RetryNonce(q.contentNonce, 2) != q.contentNonce
  {
    assert |SecondId(q)| == |q.attemptId| + 7 + |Decimal(2)|;
    assert |RetryNonce(q.contentNonce, 2)| == |q.contentNonce| + 9 + |Decimal(2)|;
  }

  lemma One(row: Row)
    ensures AttemptsOf([row], row.key) == [row]
  {
    assert [row][..0] == [];
  }

  lemma Two(first: Row, second: Row)
    requires first.key == second.key
    ensures AttemptsOf([first, second], first.key) == [first, second]
  {
    assert [first, second][..1] == [first];
    One(first);
  }

  lemma EventsAppended(log: seq<Event>, e: Event, longer: seq<Event>, repository: string, attemptId: string)
    requires longer == log + [e]
    ensures EventsFor(longer, repository, attemptId)
      == EventsFor(log, repository, attemptId) + (if Concerns(e, repository, attemptId) then [e] else [])
  {
    Appended(log, e, repository, attemptId);
  }

  /** The events of both attempts as the log grows. */
  lemma EventsOf(b: Boundary, q: ClaimRequest, code: string)
    requires Revalidate(b, q).Success?
    ensures var c1, w1, c2, w2 := Claim1(b, q), Wait1(b, q, code), Claim2(b, q), Wait2(b, q, code);
      var r, id1, id2 := q.key.repository, q.attemptId, SecondId(q);
      && EventsFor([c1], r, id1) == [c1] && EventsFor([c1, w1], r, id1) == [c1, w1]
      && EventsFor([c1, w1], r, id2) == [] && EventsFor([c1, w1, c2], r, id1) == [c1, w1]
      && EventsFor([c1, w1, c2], r, id2) == [c2] && EventsFor([c1, w1, c2, w2], r, id1) == [c1, w1]
      && EventsFor([c1, w1, c2, w2], r, id2) == [c2, w2]
  {
    var c1, w1, c2, w2 := Claim1(b, q), Wait1(b, q, code), Claim2(b, q), Wait2(b, q, code);
    var r := q.key.repository;
    IdsDiffer(q);
    EventsAppended([], c1, [c1], r, q.attemptId);
    EventsAppended([c1], w1, [c1, w1], r, q.attemptId);
    EventsAppended([c1, w1], c2, [c1, w1, c2], r, q.attemptId);
    EventsAppended([c1, w1, c2], w2, [c1, w1, c2, w2], r, q.attemptId);
    EventsAppended([], c1, [c1], r, SecondId(q));
    EventsAppended([c1], w1, [c1, w1], r, SecondId(q));
    EventsAppended([c1, w1], c2, [c1, w1, c2], r, SecondId(q));
    EventsAppended([c1, w1, c2], w2, [c1, w1, c2, w2], r, SecondId(q));
  }

  lemma FirstIsGranted(b: Boundary, q: ClaimRequest)
    requires Accepts(b, q)
    ensures Due(b, Store([], []), q, false)
    ensures Extended(b, Store([], []), q) == Store([Row1(q)], [Claim1(b, q)])
  {
    assert EventIds(b, q)[0] == ClaimEventId(b, q, 1);
  }

  lemma LatestClaim(b: Boundary, s: Store, i: nat, claim: Event)
    requires RowsAgree(b, s) && i < |s.rows|
    requires EventsFor(s.log, s.rows[i].key.repository, s.rows[i].attemptId) == [claim]
    ensures LatestEventOfType(s.log, s.rows[i].key.repository, s.rows[i].attemptId, Claimed) == Some(claim)
  {
    Loads(b, s, i);
  }

  lemma WaitIsRecordable(b: Boundary, s: Store, q: ClaimRequest, i: nat, code: string, claim: Event)
    requires Inv(b, s) && i < |s.rows| && s.rows[i].key == q.key && s.rows[i].claimedAt == q.startedAt
    requires EventsFor(s.log, q.key.repository, s.rows[i].attemptId) == [claim] && claim.AttemptEvent?
             && claim.transition.Claimed?
    requires ValidateTransition(b, WaitFor(q, s.rows[i].attemptId, code)).None?
    requires b.safe(q.key.repository) && b.safe(q.actor) && b.safe(s.rows[i].attemptId) && b.utc(q.startedAt)
    requires var id := WaitEventId(b, q, s.rows[i].attemptId); b.safe(id) && !HasEventId(s.log, q.key.repository, id)
    ensures Recordable(b, s, WaitFor(q, s.rows[i].attemptId, code))
  {
    FindsTheRow(s.rows, q.key.repository, s.rows[i].attemptId, i);
    NotEarlier(q.startedAt);
  }

  /** A claimed attempt whose wait is valid and whose event id is free gets it recorded. */
  lemma WaitIsRecorded(b: Boundary, s: Store, q: ClaimRequest, i: nat, code: string, claim: Event)
    requires Inv(b, s) && i < |s.rows| && s.rows[i].key == q.key && s.rows[i].claimedAt == q.startedAt
    requires EventsFor(s.log, q.key.repository, s.rows[i].attemptId) == [claim] && claim.AttemptEvent?
             && claim.transition.Claimed?
    requires ValidateTransition(b, WaitFor(q, s.rows[i].attemptId, code)).None?
    requires b.safe(q.key.repository) && b.safe(q.actor) && b.safe(s.rows[i].attemptId) && b.utc(q.startedAt)
    requires var id := WaitEventId(b, q, s.rows[i].attemptId); b.safe(id) && !HasEventId(s.log, q.key.repository, id)
    ensures TransitionStep(b, s, WaitFor(q, s.rows[i].attemptId, code)).0
      == Store(s.rows[i := Waited(s.rows[i], q, code)],
               s.log + [OutcomeEvent(b, WaitFor(q, s.rows[i].attemptId, code), claim.metadata)])
  {
    FindsTheRow(s.rows, q.key.repository, s.rows[i].attemptId, i);
    WaitIsRecordable(b, s, q, i, code, claim);
    LatestClaim(b, s, i, claim);
    RecordableIsRecorded(b, s, WaitFor(q, s.rows[i].attemptId, code), i);
  }

  /** The store after the first attempt has been told to wait. */
  function FirstWaits(b: Boundary, q: ClaimRequest, code: string): Store
    requires Revalidate(b, q).Success?
  {
    Store([Waited(Row1(q), q, code)], [Claim1(b, q), Wait1(b, q, code)])
  }

  lemma NamesOfSecond(b: Boundary, q: ClaimRequest, code: string)
    requires Revalidate(b, q).Success? && q.attemptId != []
    ensures var s := FirstWaits(b, q, code);
      && AttemptsOf(s.rows, q.key) == s.rows && NextId(s, q) == SecondId(q)
      && NextNonce(s, q) == RetryNonce(q.contentNonce, 2)
  {
    One(Waited(Row1(q), q, code));
  }

  lemma SecondIsFree(b: Boundary, q: ClaimRequest, code: string)
    requires Accepts(b, q)
    ensures Free(b, FirstWaits(b, q, code), q, 2, SecondId(q), RetryNonce(q.contentNonce, 2))
  {
    IdsDiffer(q);
    var ids := EventIds(b, q);
    assert ids[0] == ClaimEventId(b, q, 1) && ids[1] == WaitEventId(b, q, q.attemptId)
      && ids[2] == ClaimEventId(b, q, 2);
    assert ids[0] != ids[2] && ids[1] != ids[2];
  }

  lemma FirstIsWaiting(b: Boundary, q: ClaimRequest, code: string)
    requires Revalidate(b, q).Success?
    ensures var s := FirstWaits(b, q, code);
      && StateOf(s.log, s.rows[0]).RetryWait?
      && ClaimMetadata(s.log, s.rows[0]) == Some((q.contentNonce, Revalidate(b, q).value))
  {
    EventsOf(b, q, code);
  }

  lemma SecondIsDue(b: Boundary, q: ClaimRequest, code: string)
    requires Accepts(b, q)
    ensures var s := FirstWaits(b, q, code);
      && Due(b, s, q, true)
      && Extended(b, s, q) == SecondClaimed(b, q, code)
  {
    NamesOfSecond(b, q, code);
    SecondIsFree(b, q, code);
    FirstIsWaiting(b, q, code);
  }

  /** The store after both attempts have been told to wait. */
  function BothWait(b: Boundary, q: ClaimRequest, code: string): Store
    requires Revalidate(b, q).Success?
  {
    Store([Waited(Row1(q), q, code), Waited(Row2(q), q, code)],
          [Claim1(b, q), Wait1(b, q, code), Claim2(b, q), Wait2(b, q, code)])
  }

  lemma NameOfThird(b: Boundary, q: ClaimRequest, code: string)
    requires Revalidate(b, q).Success? && q.attemptId != []
    ensures var s := BothWait(b, q, code); AttemptsOf(s.rows, q.key) == s.rows && NextId(s, q) == q.attemptId
  {
    Two(Waited(Row1(q), q, code), Waited(Row2(q), q, code));
    IdsDiffer(q);
  }

  lemma ThirdIsNotDue(b: Boundary, q: ClaimRequest, code: string)
    requires Accepts(b, q)
    ensures !Due(b, BothWait(b, q, code), q, true)
  {
    var s := BothWait(b, q, code);
    NameOfThird(b, q, code);
    assert IsAttempt(s.rows[0], q.key.repository, q.attemptId);
    assert !IdFree(s.rows, q.key.repository, q.attemptId);
  }

  /** Claim, wait, retry, wait, and retry again. */
  function TwoWaits(q: ClaimRequest, code: string): seq<Command> {
    [Claim(q, false), Transition(WaitFor(q, q.attemptId, code)), Claim(q, true),
     Transition(WaitFor(q, SecondId(q), code))]
  }

  lemma FirstStep(b: Boundary, w: World, c: Command, rest: seq<Command>, cs: seq<Command>)
    requires cs == [c] + rest
    ensures Run(b, w, cs) == Run(b, Step(b, w, c), rest)
  {
    assert cs[1..] == rest;
  }

  lemma FourSteps(b: Boundary, w: World, c1: Command, c2: Command, c3: Command, c4: Command)
    ensures Run(b, w, [c1, c2, c3, c4]) == Step(b, Step(b, Step(b, Step(b, w, c1), c2), c3), c4)
  {
    var w1 := Step(b, w, c1);
    var w2 := Step(b, w1, c2);
    FirstStep(b, w, c1, [c2, c3, c4], [c1, c2, c3, c4]);
    FirstStep(b, w1, c2, [c3, c4], [c2, c3, c4]);
    FirstStep(b, w2, c3, [c4], [c3, c4]);
    FirstStep(b, Step(b, w2, c3), c4, [], [c4]);
  }

  function Permit1(q: ClaimRequest): Permit { PermitOf(Row1(q)) }
  function Permit2(q: ClaimRequest): Permit { PermitOf(Row2(q)) }

  lemma StartHolds(b: Boundary)
    ensures WorldInv(b, Start)
  {
    Reachable(b, []);
  }

  lemma AfterFirst(b: Boundary, q: ClaimRequest)
    requires Accepts(b, q)
    ensures Step(b, Start, Claim(q, false)) == World(Store([Row1(q)], [Claim1(b, q)]), [Permit1(q)])
    ensures WorldInv(b, Step(b, Start, Claim(q, false)))
  {
    StartHolds(b);
    FirstIsGranted(b, q);
    ClaimIs(b, Start, q, false);
    StepKeeps(b, Start, Claim(q, false));
  }

  lemma FirstWait(b: Boundary, q: ClaimRequest, code: string)
    requires Accepts(b, q) && WaitsAreValid(b, q, code) && Inv(b, Store([Row1(q)], [Claim1(b, q)]))
    ensures TransitionStep(b, Store([Row1(q)], [Claim1(b, q)]),
                           WaitFor(q, q.attemptId, code)).0 == FirstWaits(b, q, code)
  {
    var s := Store([Row1(q)], [Claim1(b, q)]);
    EventsOf(b, q, code);
    var ids := EventIds(b, q);
    assert ids[1] == WaitEventId(b, q, q.attemptId) && ids[0] == ClaimEventId(b, q, 1) && ids[0] != ids[1];
    WaitIsRecorded(b, s, q, 0, code, Claim1(b, q));
    assert s.rows[0 := Waited(Row1(q), q, code)] == [Waited(Row1(q), q, code)];
  }

  /** The store with the second attempt claimed. */
  function SecondClaimed(b: Boundary, q: ClaimRequest, code: string): Store
    requires Revalidate(b, q).Success?
  {
    Store([Waited(Row1(q), q, code), Row2(q)], [Claim1(b, q), Wait1(b, q, code), Claim2(b, q)])
  }

  lemma LastEventIsFree(b: Boundary, q: ClaimRequest, code: string)
    requires Accepts(b, q)
    ensures var id := WaitEventId(b, q, SecondId(q));
      b.safe(id) && !HasEventId(SecondClaimed(b, q, code).log, q.key.repository, id)
  {
    var ids := EventIds(b, q);
    assert ids[0] == ClaimEventId(b, q, 1) && ids[1] == WaitEventId(b, q, q.attemptId);
    assert ids[2] == ClaimEventId(b, q, 2) && ids[3] == WaitEventId(b, q, SecondId(q));
    assert ids[0] != ids[3] && ids[1] != ids[3] && ids[2] != ids[3];
  }

  lemma SecondWait(b: Boundary, q: ClaimRequest, code: string)
    requires Accepts(b, q) && WaitsAreValid(b, q, code) && Inv(b, SecondClaimed(b, q, code))
    ensures TransitionStep(b, SecondClaimed(b, q, code), WaitFor(q, SecondId(q), code)).0 == BothWait(b, q, code)
  {
    var s := SecondClaimed(b, q, code);
    EventsOf(b, q, code);
    LastEventIsFree(b, q, code);
    WaitIsRecorded(b, s, q, 1, code, Claim2(b, q));
    assert s.rows[1 := Waited(Row2(q), q, code)] == BothWait(b, q, code).rows;
    assert s.log + [Wait2(b, q, code)] == BothWait(b, q, code).log;
  }

  /** Two attempts are granted and told to wait. */
  lemma TwoAreGranted(b: Boundary, q: ClaimRequest, code: string)
    requires Accepts(b, q) && WaitsAreValid(b, q, code)
    ensures Run(b, Start, TwoWaits(q, code)) == World(BothWait(b, q, code), [Permit1(q), Permit2(q)])
    ensures WorldInv(b, Run(b, Start, TwoWaits(q, code)))
  {
    var t1, t2 := Transition(WaitFor(q, q.attemptId, code)), Transition(WaitFor(q, SecondId(q), code));
    AfterFirst(b, q);
    var w1 := Step(b, Start, Claim(q, false));
    FirstWait(b, q, code);
    var w2 := Step(b, w1, t1);
    StepKeeps(b, w1, t1);
    SecondIsDue(b, q, code);
    One(w2.store.rows[0]);
    ClaimIs(b, w2, q, true);
    var w3 := Step(b, w2, Claim(q, true));
    StepKeeps(b, w2, Claim(q, true));
    SecondWait(b, q, code);
    StepKeeps(b, w3, t2);
    FourSteps(b, Start, Claim(q, false), t1, Claim(q, true), t2);
  }

  /** Claim, wait, retry and wait under one request id: the next retry under this id is refused for good, since the id
      it would take is that of the first attempt. */
  lemma ThirdRetryIsRefused(b: Boundary, q: ClaimRequest, code: string)
    requires Accepts(b, q) && WaitsAreValid(b, q, code)
    ensures var w := Run(b, Start, TwoWaits(q, code));
      && w.permits == [Permit1(q), Permit2(q)] && MayProceed(w.store, q.key, true)
      && Step(b, w, Claim(q, true)) == w
  {
    TwoAreGranted(b, q, code);
    ThirdIsNotDue(b, q, code);
    GrantedExactlyWhenDue(b, TwoWaits(q, code), q, true);
    var s := BothWait(b, q, code);
    Two(s.rows[0], s.rows[1]);
    EventsOf(b, q, code);
  }

  lemma FailureIsRecordable(b: Boundary, q: ClaimRequest, code: string, s: Store)
    requires Accepts(b, q) && s == Store([Row1(q)], [Claim1(b, q)])
    requires var t := WaitFor(q, q.attemptId, code).(state := Failed);
      && ValidateTransition(b, t).None?
      && var id := b.eventId(OutcomeMaterial(Failed, q.key.repository, q.key.draft, q.attemptId));
         b.safe(id) && id != ClaimEventId(b, q, 1)
    ensures Recordable(b, s, WaitFor(q, q.attemptId, code).(state := Failed))
  {
    var row := Row1(q);
    assert s.rows[0] == row && IsAttempt(row, q.key.repository, q.attemptId);
    EventsOf(b, q, code);
    NotEarlier(q.startedAt);
    assert StateOf(s.log, row).Claimed?;
    assert s.log[0].eventId == ClaimEventId(b, q, 1);
  }

  /** A failure with this code, recorded after the first claim, is recorded, and repeating it is refused from then on,
      exactly because the log does not keep the code. */
  lemma RepeatIsRefused(b: Boundary, q: ClaimRequest, code: string, more: seq<Command>)
    requires Accepts(b, q) && b.redact(code) != code
    requires var t := WaitFor(q, q.attemptId, code).(state := Failed);
      && ValidateTransition(b, t).None?
      && var id := b.eventId(OutcomeMaterial(Failed, q.key.repository, q.key.draft, q.attemptId));
         b.safe(id) && id != ClaimEventId(b, q, 1)
    ensures var t := WaitFor(q, q.attemptId, code).(state := Failed);
      var w := Run(b, Start, [Claim(q, false)]);
      var s := Run(b, Step(b, w, Transition(t)), more).store;
      && TransitionStep(b, w.store, t).1.Success?
      && TransitionStep(b, s, t) == (s, Failure(StaleInput("transition metadata")))
  {
    var t := WaitFor(q, q.attemptId, code).(state := Failed);
    AfterFirst(b, q);
    var w := Run(b, Start, [Claim(q, false)]);
    FirstStep(b, Start, Claim(q, false), [], [Claim(q, false)]);
    FindsTheRow(w.store.rows, q.key.repository, q.attemptId, 0);
    EventsOf(b, q, code);
    NotEarlier(q.startedAt);
    FailureIsRecordable(b, q, code, w.store);
    RecordableIsRecorded(b, w.store, t, 0);
    LatestClaim(b, w.store, 0, Claim1(b, q));
    assert |Stamped(b, w.store, t, 0).log| == 2;
    ReplayAfterTransition(b, [Claim(q, false)], t, more);
  }

  // ---------- the same on the audit log as it is ----------

  const KEY := RevisionKey("repo", "draft", 1)

  /** Event ids by number for claims and by attempt for outcomes. */
  function EventIdOf(m: Material): string {
    match m
    case ClaimMaterial(_, number) => "delivery-claim-" + Decimal(number)
    case OutcomeMaterial(state, _, _, attemptId) => (if state.Failed? then "delivery-failed-" else "delivery-") +
                                                    attemptId
  }

  /** A claim of the revision under the id `a`, for this content and authority, at this time. */
  function Request(content: string, authority: Binding, at: string): ClaimRequest {
    ClaimRequest(KEY, content, "a", content, at, "system", None, None, Success(authority))
  }

  /** What a boundary says of calm identifiers, of one timestamp and of event ids, and no more. */
  ghost predicate Friendly(b: Boundary, at: string) {
    && (forall s {:trigger b.safe(s)} :: Calm(s) && 1 <= |s| <= 64 ==> b.safe(s))
    && b.utc(at) && b.eventId == EventIdOf
  }

  lemma CalmIsSafe(s: string)
    requires Calm(s) && 1 <= |s| <= 64
    ensures Redaction.IsSafeIdentifier(s, Redaction.TheTests())
  {
    CalmIsKept(s, Redaction.TheTests());
    forall i | 0 <= i < |s| ensures Redaction.IsIdentifierChar(s[i]) { assert CalmChar(s[i]); }
  }

  lemma CalmIsValid(s: string)
    requires Calm(s) && 1 <= |s| <= 64
    ensures ValidIdentifier(s) && (|s| <= 32 ==> ValidErrorCode(s))
  {
    BytesBounded(s);
    forall i | 0 <= i < |s| ensures !IsControl(s[i]) && (IsAsciiAlphanumeric(s[i]) || s[i] in "._:-") {
      assert CalmChar(s[i]);
      if s[i] == '-' { assert s[i] == "._:-"[3]; }
    }
  }

  lemma TheLogIsFriendly(b: Boundary, at: string)
    requires b == AttemptLog.LogBoundary(EventIdOf) && Timestamps.IsUtcTimestamp(at)
    ensures Friendly(b, at)
  {
    forall s | Calm(s) && 1 <= |s| <= 64 ensures b.safe(s) { CalmIsSafe(s); }
  }

  lemma SecondIdIs(content: string, x: Binding, at: string)
    ensures SecondId(Request(content, x, at)) == "a-retry-2" && Calm("a-retry-2") && Calm("a")
  {
    assert Decimal(2) == "2";
  }

  /** The event ids of the run, spelled out. */
  lemma EventIdsAre(b: Boundary, q: ClaimRequest, content: string, x: Binding, at: string)
    requires Friendly(b, at) && q == Request(content, x, at)
    ensures EventIds(b, q) == ["delivery-claim-1", "delivery-a", "delivery-claim-2", "delivery-a-retry-2"]
  {
    SecondIdIs(content, x, at);
    assert Decimal(1) == "1" && Decimal(2) == "2";
    assert EventIdOf(ClaimMaterial(KEY, 1)) == "delivery-claim-1"
      && EventIdOf(ClaimMaterial(KEY, 2)) == "delivery-claim-2";
    assert EventIdOf(OutcomeMaterial(RetryWait, "repo", "draft", "a")) == "delivery-a";
    assert EventIdOf(OutcomeMaterial(RetryWait, "repo", "draft", "a-retry-2")) == "delivery-a-retry-2";
  }

  lemma FourIds(ids: seq<string>, i: nat)
    requires ids == ["delivery-claim-1", "delivery-a", "delivery-claim-2", "delivery-a-retry-2"] && i < 4
    ensures Calm(ids[i]) && 1 <= |ids[i]| <= 64
  {
  }

  lemma FourIdsDiffer(ids: seq<string>)
    requires ids == ["delivery-claim-1", "delivery-a", "delivery-claim-2", "delivery-a-retry-2"]
    ensures Distinct(ids)
  {
  }

  lemma RequestIsAdmitted(b: Boundary, q: ClaimRequest, content: string, x: Binding, at: string)
    requires Friendly(b, at) && q == Request(content, x, at)
    ensures DeliveryProgress.Admitted(b, q)
  {
    assert Calm("system");
    CalmIsValid("system");
  }

  lemma NamesAreSafe(b: Boundary, q: ClaimRequest, content: string, x: Binding, at: string)
    requires Friendly(b, at) && q == Request(content, x, at)
    ensures b.safe(q.key.repository) && b.safe(q.actor) && b.safe(q.attemptId) && b.safe(SecondId(q))
    ensures ValidIdentifier(q.attemptId) && ValidIdentifier(SecondId(q))
  {
    SecondIdIs(content, x, at);
    assert Calm("repo") && Calm("system");
    CalmIsValid("a");
    CalmIsValid("a-retry-2");
  }

  /** The log accepts such a request, whatever its content, authority and time. */
  lemma LogAccepts(b: Boundary, q: ClaimRequest, content: string, x: Binding, at: string)
    requires Friendly(b, at) && q == Request(content, x, at) && content != []
    ensures Accepts(b, q)
  {
    RequestIsAdmitted(b, q, content, x, at);
    NamesAreSafe(b, q, content, x, at);
    EventIdsAre(b, q, content, x, at);
    var ids := EventIds(b, q);
    FourIdsDiffer(ids);
    forall i | 0 <= i < 4 ensures b.safe(ids[i]) { FourIds(ids, i); }
  }

  lemma OutcomeIsValid(b: Boundary, q: TransitionRequest)
    requires b.utc(q.completedAt) && (q.state.RetryWait? || q.state.Failed?) && q.messageId.None? && q.errorCode.Some?
    requires ValidIdentifier(q.key.repository) && ValidIdentifier(q.key.draft) && ValidIdentifier(q.attemptId)
    requires ValidIdentifier(q.actor) && ValidErrorCode(q.errorCode.value)
    ensures ValidateTransition(b, q).None?
  {
  }

  lemma KeyIsValid(q: ClaimRequest, content: string, x: Binding, at: string)
    requires q == Request(content, x, at)
    ensures ValidIdentifier(q.key.repository) && ValidIdentifier(q.key.draft) && ValidIdentifier(q.actor)
  {
    assert Calm("repo") && Calm("draft") && Calm("system");
    CalmIsValid("repo");
    CalmIsValid("draft");
    CalmIsValid("system");
  }

  lemma WaitCodeIsValid(code: string)
    requires code == "retry-wait"
    ensures ValidErrorCode(code)
  {
    assert Calm(code);
    CalmIsValid(code);
  }

  lemma FriendlyWaits(b: Boundary, q: ClaimRequest, content: string, x: Binding, at: string, code: string)
    requires Friendly(b, at) && q == Request(content, x, at) && ValidErrorCode(code)
    ensures WaitsAreValid(b, q, code)
  {
    KeyIsValid(q, content, x, at);
    NamesAreSafe(b, q, content, x, at);
    OutcomeIsValid(b, WaitFor(q, q.attemptId, code));
    OutcomeIsValid(b, WaitFor(q, SecondId(q), code));
  }

  ghost predicate ThirdRefused(b: Boundary, q: ClaimRequest, code: string) {
    var w := Run(b, Start, TwoWaits(q, code));
    |w.permits| == 2 && MayProceed(w.store, q.key, true) && Step(b, w, Claim(q, true)) == w
  }

  lemma FriendlyRefuses(b: Boundary, q: ClaimRequest, content: string, x: Binding, at: string, code: string)
    requires Friendly(b, at) && q == Request(content, x, at) && content != [] && ValidErrorCode(code)
    ensures ThirdRefused(b, q, code)
  {
    LogAccepts(b, q, content, x, at);
    FriendlyWaits(b, q, content, x, at, code);
    ThirdRetryIsRefused(b, q, code);
  }

  /** On the audit log as it is: two attempts under one request id are granted and wait, and the third is refused. */
  lemma UnchangedIdIsRefused(content: string, x: Binding, at: string)
    requires content != [] && Timestamps.IsUtcTimestamp(at)
    ensures ThirdRefused(AttemptLog.LogBoundary(EventIdOf), Request(content, x, at), "retry-wait")
  {
    var b, code := AttemptLog.LogBoundary(EventIdOf), "retry-wait";
    TheLogIsFriendly(b, at);
    WaitCodeIsValid(code);
    FriendlyRefuses(b, Request(content, x, at), content, x, at, code);
  }

  /** The outcome is recorded after the first claim, and repeating it after any further steps is refused. */
  ghost predicate RepeatRefused(b: Boundary, q: ClaimRequest, t: TransitionRequest, more: seq<Command>) {
    var w := Run(b, Start, [Claim(q, false)]);
    var s := Run(b, Step(b, w, Transition(t)), more).store;
    TransitionStep(b, w.store, t).1.Success?
      && TransitionStep(b, s, t) == (s, Failure(StaleInput("transition metadata")))
  }

  /** `failed` with an error code, at the time of the claim. */
  function FailureOf(q: ClaimRequest, code: string): TransitionRequest {
    WaitFor(q, q.attemptId, code).(state := Failed)
  }

  lemma FriendlyRepeat(b: Boundary, q: ClaimRequest, content: string, x: Binding, at: string, code: string,
                       more: seq<Command>)
    requires Friendly(b, at) && q == Request(content, x, at) && content != []
    requires ValidErrorCode(code) && b.redact(code) != code
    ensures RepeatRefused(b, q, FailureOf(q, code), more)
  {
    LogAccepts(b, q, content, x, at);
    KeyIsValid(q, content, x, at);
    NamesAreSafe(b, q, content, x, at);
    OutcomeIsValid(b, FailureOf(q, code));
    FailureIdIsFree(b, q, content, x, at);
    RepeatIsRefused(b, q, code, more);
  }

  /** On the audit log as it is: a failure with the code `token:1` is recorded, and repeating it is refused ever
      after. */
  lemma RecordedCodeIsRefused(content: string, x: Binding, at: string, more: seq<Command>)
    requires content != [] && Timestamps.IsUtcTimestamp(at)
    ensures var b, q := AttemptLog.LogBoundary(EventIdOf), Request(content, x, at);
      RepeatRefused(b, q, FailureOf(q, "token:1"), more)
  {
    var b, code := AttemptLog.LogBoundary(EventIdOf), "token:1";
    TheLogIsFriendly(b, at);
    CodeChanges(b, code);
    FriendlyRepeat(b, Request(content, x, at), content, x, at, code, more);
  }

  lemma CodeChanges(b: Boundary, code: string)
    requires b == AttemptLog.LogBoundary(EventIdOf) && code == "token:1"
    ensures ValidErrorCode(code) && b.redact(code) != code
  {
    AttemptLog.CodeCanChange(code, Redaction.TheTests());
  }

  lemma FailureIdIsFree(b: Boundary, q: ClaimRequest, content: string, x: Binding, at: string)
    requires Friendly(b, at) && q == Request(content, x, at)
    ensures var id := b.eventId(OutcomeMaterial(Failed, q.key.repository, q.key.draft, q.attemptId));
      b.safe(id) && id != ClaimEventId(b, q, 1)
  {
    assert EventIdOf(OutcomeMaterial(Failed, "repo", "draft", "a")) == "delivery-failed-a" && Calm("delivery-failed-a");
    assert EventIdOf(ClaimMaterial(KEY, 1))[9] == 'c' && "delivery-failed-a"[9] == 'f';
  }
}
