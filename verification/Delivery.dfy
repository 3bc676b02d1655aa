/** The duplicate-safe delivery coordinator: claim, retry claim and transition over one shared
    database. A database transaction is one atomic step that either commits or leaves the store
    as it was. */
module Delivery {
  import opened Wrappers
  import opened Text

  const MAX_I64: int := 0x7FFF_FFFF_FFFF_FFFF
  const MAX_U64: int := 0xFFFF_FFFF_FFFF_FFFF

  datatype DeliveryState =
    | Unclaimed | Claimed | Accepted | Failed | RetryWait | Unknown
    | ReconciledAccepted | ReconciledAbsent | Unresolved
  {
    predicate CanTransitionTo(next: DeliveryState) {
      || (Unclaimed? && next.Claimed?)
      || (Claimed? && (next.Accepted? || next.Failed? || next.RetryWait? || next.Unknown?))
      || (RetryWait? && next.Claimed?)
      || (Unknown? && (next.ReconciledAccepted? || next.ReconciledAbsent? || next.Unresolved?))
    }

    /** The outcomes `record_transition` can store; each of them except `RetryWait` closes the revision. */
    predicate IsFinalOutcome() { Accepted? || Failed? || Unknown? }
  }

  datatype Error =
    | InvalidInput(field: string)
    | StaleInput(field: string)
    | NotEligible(blocker: string)
    | InvalidTransition(from: DeliveryState, to: DeliveryState)
    | AttemptNotFound
    | RemoteMessageConflict
    | AuditConflict
    | CorruptAttempt
    | StateFailure
    | AuditFailure

  /** The fields hashed into the id of a log row. */
  datatype Material =
    | ClaimMaterial(key: RevisionKey, number: nat)
    | OutcomeMaterial(transition: DeliveryState, repository: string, draft: string, attemptId: string)

  /** What the coordinator takes from other crates: the hashed event ids, and the audit crate's write boundary.
      The theorems hold for every choice of them, so they do not rest on the hash being free of collisions. */
  datatype Boundary = Boundary(
    eventId: Material -> string,   // prefix and SHA-256 of the joined fields
    redact: string -> string,      // what a metadata string under a safe key becomes in the log
    safe: string -> bool,          // identifiers the audit envelope accepts unchanged
    utc: string -> bool)           // canonical UTC timestamps

  datatype RevisionKey = RevisionKey(repository: string, draft: string, revision: nat)

  datatype Authority =
    | HumanApproval(approvalId: string, approvalHash: string, expiresAt: nat)
    | ActivatedPolicy(activationId: string, activationHash: string, configHash: string, tupleHash: string,
                      activatedAt: string)

  /** The facts a claim is bound to; a retry must present the same ones. */
  datatype Binding = Binding(revisionHash: string, configHash: string, destinationHash: string,
                             scanHash: string, authority: Authority)

  datatype Metadata = Metadata(number: nat, requestNonce: string, contentNonce: string,
                               completedAt: Option<string>, code: Option<string>, messageId: Option<string>,
                               binding: Binding)

  /** One `delivery_attempts` row. */
  datatype Row = Row(key: RevisionKey, attemptId: string, number: nat, claimNonce: string,
                     state: DeliveryState, claimedAt: string, completedAt: Option<string>,
                     messageId: Option<string>, failureCode: Option<string>)

  /** One audit row. Its `audit_id` is its position in the log. Other crates append rows about other
      object types to the same log. */
  datatype Event =
    | AttemptEvent(repository: string, eventId: string, attemptId: string, transition: DeliveryState,
                   occurredAt: string, metadata: Metadata)
    | OtherEvent(repository: string, eventId: string)

  datatype Store = Store(rows: seq<Row>, log: seq<Event>)

  /** The projection of row and log that callers see. */
  datatype DeliveryAttempt = DeliveryAttempt(
    key: RevisionKey, attemptId: string, number: nat, requestNonce: string, contentNonce: string,
    state: DeliveryState, startedAt: string, completedAt: Option<string>, errorCode: Option<string>,
    messageId: Option<string>, binding: Binding)

  datatype ClaimRequest = ClaimRequest(
    key: RevisionKey, contentNonce: string, attemptId: string, requestNonce: string, startedAt: string,
    actor: string,
    blocked: Option<string>,               // blocker of an ineligible decision
    scope: Option<Error>,                  // failed check of the request against its own facts
    current: Result<Binding, Error>)       // check of the request against the current database

  datatype ClaimDisposition = NewlyClaimed | Existing

  datatype ClaimResult = ClaimResult(disposition: ClaimDisposition, attempt: DeliveryAttempt, permit: bool)

  datatype TransitionRequest = TransitionRequest(
    key: RevisionKey, attemptId: string, state: DeliveryState, completedAt: string,
    errorCode: Option<string>, messageId: Option<string>, actor: string)

  // ---------- queries ----------

  predicate IsAttempt(row: Row, repository: string, attemptId: string) {
    row.key.repository == repository && row.attemptId == attemptId
  }

  /** Position of the row with this primary key. */
  function FindRow(rows: seq<Row>, repository: string, attemptId: string): (r: Option<nat>)
    ensures r.Some? ==> r.value < |rows| && IsAttempt(rows[r.value], repository, attemptId)
    ensures r.None? ==> forall i :: 0 <= i < |rows| ==> !IsAttempt(rows[i], repository, attemptId)
  {
    if rows == [] then None
    else if IsAttempt(rows[|rows| - 1], repository, attemptId) then Some(|rows| - 1)
    else FindRow(rows[..|rows| - 1], repository, attemptId)
  }

  /** Position of the row of a revision with the greatest attempt number. */
  function LatestRow(rows: seq<Row>, key: RevisionKey): (r: Option<nat>)
    ensures r.Some? ==> r.value < |rows| && rows[r.value].key == key
    ensures r.Some? ==> forall i :: 0 <= i < |rows| && rows[i].key == key ==> rows[i].number <= rows[r.value].number
    ensures r.None? ==> forall i :: 0 <= i < |rows| ==> rows[i].key != key
  {
    if rows == [] then None
    else
      var last := |rows| - 1;
      var rest := LatestRow(rows[..last], key);
      if rows[last].key == key && (rest.None? || rows[rest.value].number <= rows[last].number) then Some(last)
      else rest
  }

  predicate Concerns(e: Event, repository: string, attemptId: string) {
    e.AttemptEvent? && e.repository == repository && e.attemptId == attemptId
  }

  /** All log rows about one attempt, oldest first. */
  function EventsFor(log: seq<Event>, repository: string, attemptId: string): (es: seq<Event>)
    ensures forall i :: 0 <= i < |es| ==> Concerns(es[i], repository, attemptId)
  {
    if log == [] then []
    else
      EventsFor(log[..|log| - 1], repository, attemptId)
      + if Concerns(log[|log| - 1], repository, attemptId) then [log[|log| - 1]] else []
  }

  /** The newest log row about one attempt. */
  function LatestEvent(log: seq<Event>, repository: string, attemptId: string): Option<Event> {
    if log == [] then None
    else if Concerns(log[|log| - 1], repository, attemptId) then Some(log[|log| - 1])
    else LatestEvent(log[..|log| - 1], repository, attemptId)
  }

  /** The newest log row about one attempt with a given transition. */
  function LatestEventOfType(log: seq<Event>, repository: string, attemptId: string, transition: DeliveryState)
    : Option<Event>
  {
    if log == [] then None
    else
      var e := log[|log| - 1];
      if Concerns(e, repository, attemptId) && e.transition == transition then Some(e)
      else LatestEventOfType(log[..|log| - 1], repository, attemptId, transition)
  }

  predicate HasEventId(log: seq<Event>, repository: string, eventId: string) {
    exists i :: 0 <= i < |log| && log[i].repository == repository && log[i].eventId == eventId
  }

  // ---------- identifiers ----------

  predicate ValidIdentifier(value: string) {
    value != [] && ByteLength(value) <= 512 && forall i :: 0 <= i < |value| ==> !IsControl(value[i])
  }

  predicate ValidErrorCode(value: string) {
    ValidIdentifier(value) && ByteLength(value) <= 128
    && forall i :: 0 <= i < |value| ==> IsAsciiAlphanumeric(value[i]) || value[i] in "._:-"
  }

  function RetryNonce(contentNonce: string, number: nat): string {
    contentNonce + "-attempt-" + Decimal(number)
  }

  predicate ValidRequestNonce(value: string, contentNonce: string) {
    value == contentNonce
    || (var prefix := contentNonce + "-attempt-";
        prefix <= value
        && var suffix := value[|prefix|..];
        suffix != [] && AllDigits(suffix) && 0 < Number(suffix) <= MAX_U64)
  }

  /** A retry keeps the requested id when it differs from the previous attempt's, so it need not be fresh. */
  function RetryAttemptId(requested: string, previous: string, number: nat): string {
    if requested == [] || requested == previous then previous + "-retry-" + Decimal(number) else requested
  }

  // ---------- loading ----------

  predicate ConsistentBase(state: DeliveryState, base: DeliveryState) {
    || state == base
    || (base.Claimed? && state.RetryWait?)
    || (base.Unknown? && (state.ReconciledAccepted? || state.ReconciledAbsent? || state.Unresolved?))
  }

  function OrElse<T>(first: Option<T>, second: Option<T>): Option<T> {
    if first.Some? then first else second
  }

  /** The logical attempt: identity from the row, state from the newest log row. */
  function Load(s: Store, row: Row): Result<DeliveryAttempt, Error> {
    var claim := LatestEventOfType(s.log, row.key.repository, row.attemptId, Claimed);
    var latest := LatestEvent(s.log, row.key.repository, row.attemptId);
    if claim.None? || latest.None? || claim.value.OtherEvent? || latest.value.OtherEvent? then Failure(CorruptAttempt)
    else
      var claimed, newest := claim.value.metadata, latest.value.metadata;
      if !ConsistentBase(latest.value.transition, row.state) then Failure(CorruptAttempt)
      else if newest.number != row.number || claimed.number != row.number then Failure(CorruptAttempt)
      else
        Success(DeliveryAttempt(
          row.key, row.attemptId, row.number, row.claimNonce, claimed.contentNonce, latest.value.transition,
          row.claimedAt, OrElse(newest.completedAt, row.completedAt), OrElse(newest.code, row.failureCode),
          OrElse(newest.messageId, row.messageId), claimed.binding))
  }

  // ---------- claim ----------

  function Revalidate(b: Boundary, q: ClaimRequest): Result<Binding, Error> {
    if q.scope.Some? then Failure(q.scope.value)
    else if !ValidRequestNonce(q.requestNonce, q.contentNonce) then Failure(InvalidInput("request nonce"))
    else if !ValidIdentifier(q.actor) then Failure(InvalidInput("actor kind"))
    else if !b.utc(q.startedAt) then Failure(AuditFailure)
    else q.current
  }

  /** The state crate's insert: the primary key and both unique constraints must be free. */
  predicate CanInsert(rows: seq<Row>, row: Row) {
    forall i :: 0 <= i < |rows| ==>
      && !IsAttempt(rows[i], row.key.repository, row.attemptId)
      && !(rows[i].key == row.key && rows[i].number == row.number)
      && !(rows[i].key.repository == row.key.repository && rows[i].claimNonce == row.claimNonce)
  }

  /** The state crate's claim refuses a revision that already has a live or closed attempt. */
  predicate HasActiveRow(rows: seq<Row>, key: RevisionKey) {
    exists i :: 0 <= i < |rows| && rows[i].key == key
                && (rows[i].state.Claimed? || rows[i].state.Unknown? || rows[i].state.Accepted?)
  }

  predicate EventAccepted(b: Boundary, e: Event, actor: string)
    requires e.AttemptEvent?
  {
    b.safe(e.repository) && b.safe(e.eventId) && b.safe(e.attemptId) && b.safe(actor) && b.utc(e.occurredAt)
  }

  function NewRow(q: ClaimRequest, number: nat, attemptId: string, nonce: string): Row {
    Row(q.key, attemptId, number, nonce, Claimed, q.startedAt, None, None, None)
  }

  function ClaimEvent(b: Boundary, q: ClaimRequest, binding: Binding, number: nat, attemptId: string, nonce: string)
    : (e: Event)
    ensures e.AttemptEvent?
  {
    AttemptEvent(q.key.repository, b.eventId(ClaimMaterial(q.key, number)), attemptId, Claimed, q.startedAt,
                 Metadata(number, nonce, q.contentNonce, None, None, None, binding))
  }

  function EffectiveAttemptId(q: ClaimRequest, attemptId: string): string {
    if attemptId == [] then "delivery-" + q.key.draft + "-r" + Decimal(q.key.revision) else attemptId
  }

  /** Row and audit row of a new claim, committed together or not at all. */
  function InsertClaim(b: Boundary, s: Store, q: ClaimRequest, binding: Binding, number: nat,
                       requestedId: string, nonce: string): Result<(Store, DeliveryAttempt), Error>
  {
    var attemptId := EffectiveAttemptId(q, requestedId);
    var row := NewRow(q, number, attemptId, nonce);
    var event := ClaimEvent(b, q, binding, number, attemptId, nonce);
    if !ValidIdentifier(attemptId) then Failure(InvalidInput("attempt id"))
    else if nonce != (if number == 1 then q.contentNonce else RetryNonce(q.contentNonce, number)) then
      Failure(InvalidInput("request nonce"))
    else if q.key.revision > MAX_I64 then Failure(InvalidInput("revision"))
    else if number > MAX_I64 then Failure(InvalidInput("attempt number"))
    else if number == 1 && HasActiveRow(s.rows, q.key) then Failure(StateFailure)
    else if nonce == [] || !CanInsert(s.rows, row) then Failure(StateFailure)
    else if HasEventId(s.log, q.key.repository, event.eventId) then Failure(AuditConflict)
    else if !EventAccepted(b, event, q.actor) then Failure(AuditFailure)
    else
      Success((Store(s.rows + [row], s.log + [event]),
               DeliveryAttempt(q.key, attemptId, number, nonce, q.contentNonce, Claimed, q.startedAt,
                               None, None, None, binding)))
  }

  function Committed(r: Result<(Store, DeliveryAttempt), Error>, s: Store): (Store, Result<ClaimResult, Error>) {
    match r
    case Failure(e) => (s, Failure(e))
    case Success((s', attempt)) => (s', Success(ClaimResult(NewlyClaimed, attempt, true)))
  }

  /** The insert that follows a recorded attempt. */
  function InsertNext(b: Boundary, s: Store, q: ClaimRequest, recorded: DeliveryAttempt, binding: Binding)
    : Result<(Store, DeliveryAttempt), Error>
  {
    var next := recorded.number + 1;
    if next > MAX_U64 then Failure(InvalidInput("attempt number"))
    else
      InsertClaim(b, s, q, binding, next, RetryAttemptId(q.attemptId, recorded.attemptId, next),
                  RetryNonce(q.contentNonce, next))
  }

  /** A claim on a revision that already has a recorded attempt. */
  function ClaimAfter(b: Boundary, s: Store, q: ClaimRequest, retry: bool, recorded: DeliveryAttempt)
    : (Store, Result<ClaimResult, Error>)
  {
    if recorded.contentNonce != q.contentNonce then (s, Failure(StaleInput("claim identity")))
    else if !retry || !recorded.state.RetryWait? then (s, Success(ClaimResult(Existing, recorded, false)))
    else
      match Revalidate(b, q)
      case Failure(e) => (s, Failure(e))
      case Success(binding) =>
        if recorded.binding != binding then (s, Failure(StaleInput("claim identity")))
        else Committed(InsertNext(b, s, q, recorded, binding), s)
  }

  /** A claim on a revision without attempts. */
  function ClaimFirst(b: Boundary, s: Store, q: ClaimRequest, retry: bool): (Store, Result<ClaimResult, Error>) {
    match Revalidate(b, q)
    case Failure(e) => (s, Failure(e))
    case Success(binding) =>
      if retry then (s, Failure(StaleInput("retry state")))
      else Committed(InsertClaim(b, s, q, binding, 1, q.attemptId, q.requestNonce), s)
  }

  /** One claim transaction: the store it leaves and what the caller is told. */
  function ClaimStep(b: Boundary, s: Store, q: ClaimRequest, retry: bool): (Store, Result<ClaimResult, Error>) {
    if q.blocked.Some? then (s, Failure(NotEligible(q.blocked.value)))
    else if q.key.revision > MAX_I64 then (s, Failure(InvalidInput("revision")))
    else
      match LatestRow(s.rows, q.key)
      case None => ClaimFirst(b, s, q, retry)
      case Some(i) =>
        match Load(s, s.rows[i])
        case Failure(e) => (s, Failure(e))
        case Success(recorded) => ClaimAfter(b, s, q, retry, recorded)
  }

  // ---------- transition ----------

  function ValidateTransition(b: Boundary, q: TransitionRequest): Option<Error> {
    if !ValidIdentifier(q.key.repository) then Some(InvalidInput("repository id"))
    else if !ValidIdentifier(q.key.draft) then Some(InvalidInput("draft id"))
    else if !ValidIdentifier(q.attemptId) then Some(InvalidInput("attempt id"))
    else if !ValidIdentifier(q.actor) then Some(InvalidInput("actor kind"))
    else if !b.utc(q.completedAt) then Some(AuditFailure)
    else if q.state.Accepted? then
      if q.errorCode.Some? then Some(InvalidInput("accepted error code"))
      else if q.messageId.None? then Some(InvalidInput("remote message id"))
      else if !ValidIdentifier(q.messageId.value) then Some(InvalidInput("remote message id"))
      else None
    else if q.state.Failed? || q.state.Unknown? || q.state.RetryWait? then
      if q.errorCode.None? then Some(InvalidInput("error code"))
      else if q.messageId.Some? then Some(InvalidInput("remote message id"))
      else if !ValidErrorCode(q.errorCode.value) then Some(InvalidInput("error code"))
      else None
    else Some(InvalidInput("transition state"))
  }

  predicate TransitionMatches(current: DeliveryAttempt, q: TransitionRequest) {
    current.completedAt == Some(q.completedAt) && current.errorCode == q.errorCode && current.messageId == q.messageId
  }

  predicate AcceptedElsewhere(rows: seq<Row>, q: TransitionRequest) {
    exists i :: 0 <= i < |rows| && rows[i].key.repository == q.key.repository && rows[i].messageId == q.messageId
                && rows[i].state.Accepted? && rows[i].attemptId != q.attemptId
  }

  /** `retry_wait` only stamps the row: its state stays `claimed`. */
  function UpdatedRow(row: Row, q: TransitionRequest): Row {
    if q.state.RetryWait? then row.(completedAt := Some(q.completedAt), failureCode := q.errorCode)
    else row.(state := q.state, completedAt := Some(q.completedAt), messageId := q.messageId,
              failureCode := q.errorCode)
  }

  function RedactOption(b: Boundary, value: Option<string>): Option<string> {
    if value.Some? then Some(b.redact(value.value)) else None
  }

  function OutcomeEvent(b: Boundary, q: TransitionRequest, claimed: Metadata): (e: Event)
    ensures e.AttemptEvent?
  {
    AttemptEvent(q.key.repository, b.eventId(OutcomeMaterial(q.state, q.key.repository, q.key.draft, q.attemptId)),
                 q.attemptId, q.state, q.completedAt,
                 claimed.(completedAt := Some(q.completedAt), code := RedactOption(b, q.errorCode),
                          messageId := RedactOption(b, q.messageId)))
  }

  /** The guarded update and its audit row, committed together or not at all. */
  function ApplyTransition(b: Boundary, s: Store, q: TransitionRequest, i: nat): (Store, Result<DeliveryAttempt, Error>)
    requires i < |s.rows|
  {
    var claim := LatestEventOfType(s.log, q.key.repository, q.attemptId, Claimed);
    if !s.rows[i].state.Claimed? then (s, Failure(StaleInput("attempt state")))
    else if claim.None? || claim.value.OtherEvent? then (s, Failure(CorruptAttempt))
    else
      var event := OutcomeEvent(b, q, claim.value.metadata);
      if HasEventId(s.log, q.key.repository, event.eventId) then (s, Failure(AuditConflict))
      else if !EventAccepted(b, event, q.actor) then (s, Failure(AuditFailure))
      else
        var s' := Store(s.rows[i := UpdatedRow(s.rows[i], q)], s.log + [event]);
        match Load(s', s'.rows[i])
        case Failure(e) => (s, Failure(e))
        case Success(updated) => (s', Success(updated))
  }

  /** A transition of a loaded attempt. */
  function TransitionFrom(b: Boundary, s: Store, q: TransitionRequest, i: nat, current: DeliveryAttempt)
    : (Store, Result<DeliveryAttempt, Error>)
    requires i < |s.rows|
  {
    if LexLess(q.completedAt, current.startedAt) then (s, Failure(StaleInput("completion time")))
    else if current.state == q.state then
      (s, if TransitionMatches(current, q) then Success(current) else Failure(StaleInput("transition metadata")))
    else if !current.state.CanTransitionTo(q.state) then (s, Failure(InvalidTransition(current.state, q.state)))
    else if q.state.Accepted? && AcceptedElsewhere(s.rows, q) then (s, Failure(RemoteMessageConflict))
    else ApplyTransition(b, s, q, i)
  }

  /** One transition transaction: the store it leaves and what the caller is told. */
  function TransitionStep(b: Boundary, s: Store, q: TransitionRequest): (Store, Result<DeliveryAttempt, Error>) {
    var invalid := ValidateTransition(b, q);
    if invalid.Some? then (s, Failure(invalid.value))
    else
      match FindRow(s.rows, q.key.repository, q.attemptId)
      case None => (s, Failure(AttemptNotFound))
      case Some(i) =>
        if s.rows[i].key.draft != q.key.draft || s.rows[i].key.revision != q.key.revision then
          (s, Failure(StaleInput("attempt identity")))
        else
          match Load(s, s.rows[i])
          case Failure(e) => (s, Failure(e))
          case Success(current) => TransitionFrom(b, s, q, i, current)
  }
}
