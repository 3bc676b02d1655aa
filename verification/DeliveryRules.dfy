/** The rules of the delivery tables one by one, over rows, log positions and characters: which texts are ids, codes and
    nonces, when an attempt loads in any store, and when a claim may be written to any store. */
module DeliveryRules {
  import opened Wrappers
  import opened Text
  import opened Delivery
  import opened DeliverySafety

  // ---------- states ----------

  /** What may follow what. */
  predicate Leads(from: DeliveryState, to: DeliveryState) {
    match from
    case Unclaimed => to == Claimed
    case Claimed => to == Accepted || to == Failed || to == RetryWait || to == Unknown
    case RetryWait => to == Claimed
    case Unknown => to == ReconciledAccepted || to == ReconciledAbsent || to == Unresolved
    case _ => false
  }

  lemma StatesLead(from: DeliveryState, to: DeliveryState)
    ensures from.CanTransitionTo(to) <==> Leads(from, to)
  {
  }

  /** What the log may say of a row that shows this state: the same; a wait for a claimed row; and a result of
      reconciliation for an unknown one. */
  predicate MaySay(row: DeliveryState, log: DeliveryState) {
    match row
    case Claimed => log == Claimed || log == RetryWait
    case Unknown => log == Unknown || log == ReconciledAccepted || log == ReconciledAbsent || log == Unresolved
    case _ => log == row
  }

  // ---------- texts ----------

  /** Not empty, at most `bytes` bytes, no control characters. */
  predicate IsName(s: string, bytes: nat) {
    1 <= |s| && ByteLength(s) <= bytes && forall k :: 0 <= k < |s| ==> !(s[k] < ' ' || '\U{7F}' <= s[k] <= '\U{9F}')
  }

  predicate IsCode(s: string) {
    IsName(s, 128) && forall k :: 0 <= k < |s| ==>
      'a' <= s[k] <= 'z' || 'A' <= s[k] <= 'Z' || '0' <= s[k] <= '9'
      || s[k] == '.' || s[k] == '_' || s[k] == ':' || s[k] == '-'
  }

  lemma NamesAre(s: string)
    ensures ValidIdentifier(s) <==> IsName(s, 512)
    ensures ValidErrorCode(s) <==> IsCode(s)
  {
    BytesBounded(s);
    forall k | 0 <= k < |s|
      ensures s[k] in "._:-" <==> s[k] == '.' || s[k] == '_' || s[k] == ':' || s[k] == '-' {
      assert "._:-"[0] == '.' && "._:-"[1] == '_' && "._:-"[2] == ':' && "._:-"[3] == '-';
    }
  }

  /** The content nonce itself, or it and `-attempt-` and a number from 1 that fits 64 bits. */
  ghost predicate IsNonceOf(value: string, content: string) {
    value == content
    || exists digits: string :: value == content + "-attempt-" + digits && AllDigits(digits) && digits != []
                                && 1 <= Number(digits) <= 0xFFFF_FFFF_FFFF_FFFF
  }

  lemma NoncesAre(value: string, content: string)
    ensures ValidRequestNonce(value, content) <==> IsNonceOf(value, content)
  {
    var prefix := content + "-attempt-";
    if prefix <= value {
      var suffix := value[|prefix|..];
      assert value == prefix + suffix;
      forall digits: string | value == prefix + digits ensures digits == suffix {
        assert (prefix + digits)[|prefix|..] == digits;
      }
    } else {
      forall digits: string ensures value != prefix + digits { assert prefix <= prefix + digits; }
    }
  }

  /** The claim's own checks pass: its facts, its nonce, its actor and time, and the current database. */
  lemma RevalidatesExactlyIf(b: Boundary, q: ClaimRequest)
    ensures Revalidate(b, q).Success?
      <==> q.scope == None && IsNonceOf(q.requestNonce, q.contentNonce) && IsName(q.actor, 512) && b.utc(q.startedAt)
           && q.current.Success?
    ensures Revalidate(b, q).Success? ==> Revalidate(b, q) == q.current
  {
    NoncesAre(q.requestNonce, q.contentNonce);
    NamesAre(q.actor);
  }

  /** A retry keeps the id it asks for, unless it asks for none or for the previous attempt's: then it is called after
      that one. */
  lemma RetryIdIs(requested: string, previous: string, number: nat)
    ensures requested != "" && requested != previous ==> RetryAttemptId(requested, previous, number) == requested
    ensures requested == "" || requested == previous
      ==> RetryAttemptId(requested, previous, number) == previous + "-retry-" + Decimal(number)
  {
  }

  /** A claim without an id is called after its draft and revision. */
  lemma EffectiveIdIs(q: ClaimRequest, id: string)
    ensures EffectiveAttemptId(q, id)
      == if |id| > 0 then id else "delivery-" + q.key.draft + "-r" + Decimal(q.key.revision)
  {
  }

  // ---------- loading ----------

  ghost predicate IsNewest(log: seq<Event>, repository: string, attemptId: string, k: nat) {
    k < |log| && Concerns(log[k], repository, attemptId)
    && forall j :: k < j < |log| ==> !Concerns(log[j], repository, attemptId)
  }

  predicate IsClaimOf(e: Event, repository: string, attemptId: string) {
    Concerns(e, repository, attemptId) && e.transition == Claimed
  }

  ghost predicate IsNewestClaim(log: seq<Event>, repository: string, attemptId: string, k: nat) {
    k < |log| && IsClaimOf(log[k], repository, attemptId)
    && forall j :: k < j < |log| ==> !IsClaimOf(log[j], repository, attemptId)
  }

  lemma {:induction false} NewestIs(log: seq<Event>, repository: string, attemptId: string, k: nat)
    requires IsNewest(log, repository, attemptId, k)
    ensures LatestEvent(log, repository, attemptId) == Some(log[k])
    decreases |log|
  {
    if k < |log| - 1 { NewestIs(log[..|log| - 1], repository, attemptId, k); }
  }

  lemma {:induction false} NewestClaimIs(log: seq<Event>, repository: string, attemptId: string, k: nat)
    requires IsNewestClaim(log, repository, attemptId, k)
    ensures LatestEventOfType(log, repository, attemptId, Claimed) == Some(log[k])
    decreases |log|
  {
    if k < |log| - 1 { NewestClaimIs(log[..|log| - 1], repository, attemptId, k); }
  }

  lemma {:induction false} FindNewest(log: seq<Event>, repository: string, attemptId: string) returns (k: nat)
    requires LatestEvent(log, repository, attemptId).Some?
    ensures IsNewest(log, repository, attemptId, k)
    decreases |log|
  {
    k := |log| - 1;
    if !Concerns(log[k], repository, attemptId) { k := FindNewest(log[..k], repository, attemptId); }
  }

  lemma {:induction false} FindNewestClaim(log: seq<Event>, repository: string, attemptId: string) returns (k: nat)
    requires LatestEventOfType(log, repository, attemptId, Claimed).Some?
    ensures IsNewestClaim(log, repository, attemptId, k)
    decreases |log|
  {
    k := |log| - 1;
    if !IsClaimOf(log[k], repository, attemptId) { k := FindNewestClaim(log[..k], repository, attemptId); }
  }

  /** The newest log row of the attempt is at `k`, its newest claim at `c`, and they agree with its row. */
  ghost predicate LoadsAs(s: Store, row: Row, c: nat, k: nat) {
    && IsNewestClaim(s.log, row.key.repository, row.attemptId, c)
    && IsNewest(s.log, row.key.repository, row.attemptId, k)
    && MaySay(row.state, s.log[k].transition)
    && s.log[k].metadata.number == row.number && s.log[c].metadata.number == row.number
  }

  /** State and outcome as the newest log row has them, or else the row; content and authority as the claim has
      them. */
  function LoadFrom(row: Row, claim: Event, newest: Event): Result<DeliveryAttempt, Error>
    requires claim.AttemptEvent? && newest.AttemptEvent?
  {
    var c, n := claim.metadata, newest.metadata;
    Success(DeliveryAttempt(
      row.key, row.attemptId, row.number, row.claimNonce, c.contentNonce, newest.transition, row.claimedAt,
      if n.completedAt == None then row.completedAt else n.completedAt,
      if n.code == None then row.failureCode else n.code,
      if n.messageId == None then row.messageId else n.messageId, c.binding))
  }

  /** In any store an attempt loads exactly if its claim and its newest log row are there and agree with its row. */
  lemma LoadsExactlyIf(s: Store, row: Row)
    ensures Load(s, row).Success? <==> exists c: nat, k: nat :: LoadsAs(s, row, c, k)
    ensures !Load(s, row).Success? ==> Load(s, row) == Failure(CorruptAttempt)
    ensures forall c: nat, k: nat :: LoadsAs(s, row, c, k) ==> Load(s, row) == LoadFrom(row, s.log[c], s.log[k])
  {
    if Load(s, row).Success? {
      var c := FindNewestClaim(s.log, row.key.repository, row.attemptId);
      var k := FindNewest(s.log, row.key.repository, row.attemptId);
      NewestClaimIs(s.log, row.key.repository, row.attemptId, c);
      NewestIs(s.log, row.key.repository, row.attemptId, k);
      assert LoadsAs(s, row, c, k);
    }
    forall c: nat, k: nat | LoadsAs(s, row, c, k) ensures Load(s, row) == LoadFrom(row, s.log[c], s.log[k]) {
      NewestClaimIs(s.log, row.key.repository, row.attemptId, c);
      NewestIs(s.log, row.key.repository, row.attemptId, k);
    }
  }

  // ---------- writing a claim ----------

  /** No row of the repository has the id or the nonce, and none of the revision the number. */
  ghost predicate IsUnused(rows: seq<Row>, key: RevisionKey, number: nat, id: string, nonce: string) {
    forall k :: 0 <= k < |rows| && rows[k].key.repository == key.repository ==>
      rows[k].attemptId != id && rows[k].claimNonce != nonce && !(rows[k].key == key && rows[k].number == number)
  }

  /** No attempt of the revision is claimed, unknown or accepted. */
  ghost predicate IsIdle(rows: seq<Row>, key: RevisionKey) {
    forall k :: 0 <= k < |rows| && rows[k].key == key ==>
      rows[k].state != Claimed && rows[k].state != Unknown && rows[k].state != Accepted
  }

  /** In any store, the row and the log row of a claim are written exactly if id and nonce are in order and unused, the
      numbers fit, no attempt of the revision is live if this is to be the first, and the log takes the event. */
  lemma InsertsExactlyIf(b: Boundary, s: Store, q: ClaimRequest, binding: Binding, number: nat, requested: string,
                         nonce: string)
    ensures var id := EffectiveAttemptId(q, requested); var eventId := b.eventId(ClaimMaterial(q.key, number));
      InsertClaim(b, s, q, binding, number, requested, nonce).Success?
      <==> && IsName(id, 512) && nonce != []
           && nonce == (if number == 1 then q.contentNonce else q.contentNonce + "-attempt-" + Decimal(number))
           && q.key.revision <= 0x7FFF_FFFF_FFFF_FFFF && number <= 0x7FFF_FFFF_FFFF_FFFF
           && (number == 1 ==> IsIdle(s.rows, q.key)) && IsUnused(s.rows, q.key, number, id, nonce)
           && (forall k :: 0 <= k < |s.log| && s.log[k].repository == q.key.repository ==> s.log[k].eventId != eventId)
           && b.safe(q.key.repository) && b.safe(eventId) && b.safe(id) && b.safe(q.actor) && b.utc(q.startedAt)
  {
    var id := EffectiveAttemptId(q, requested);
    NamesAre(id);
    UnusedIs(s.rows, q, number, id, nonce);
  }

  lemma UnusedIs(rows: seq<Row>, q: ClaimRequest, number: nat, id: string, nonce: string)
    ensures CanInsert(rows, NewRow(q, number, id, nonce)) <==> IsUnused(rows, q.key, number, id, nonce)
  {
  }
}
