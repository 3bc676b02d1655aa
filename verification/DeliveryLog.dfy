/** Loading over the real audit log: in every reachable store the metadata that the delivery model keeps for an attempt
    is what is read back of the redacted objects that were written. */
module DeliveryLog {
  import opened Wrappers
  import opened Text
  import opened Delivery
  import opened DeliverySafety
  import opened DeliveryRuns
  import opened DeliveryProgress
  import opened DeliveryReplay
  import opened AttemptLog
  import opened MetadataFields
  import Redaction
  import Timestamps

  /** What the coordinator has checked before it writes: hashes where hashes belong, an approval id derived from a hash,
      or an activation that is found again under its id. */
  predicate Proper(content: string, x: Binding, activations: map<string, string>) {
    && Regular(Metadata(1, content, content, None, None, None, x))
    && Found(x.authority, activations, Redaction.TheTests())
  }

  ghost predicate ProperClaims(cs: seq<Command>, activations: map<string, string>) {
    forall i :: 0 <= i < |cs| && cs[i].Claim? && cs[i].claim.current.Success? ==>
      Proper(cs[i].claim.contentNonce, cs[i].claim.current.value, activations)
  }

  /** An event at a proper time; a claim with proper content, authority and nonces. */
  predicate ProperEvent(b: Boundary, e: Event, activations: map<string, string>) {
    e.AttemptEvent? ==>
      && b.utc(e.occurredAt)
      && (e.transition.Claimed? ==>
            Regular(e.metadata) && Found(e.metadata.binding.authority, activations, Redaction.TheTests()))
  }

  ghost predicate ProperLog(b: Boundary, log: seq<Event>, activations: map<string, string>) {
    forall k :: 0 <= k < |log| ==> ProperEvent(b, log[k], activations)
  }

  lemma RegularNumber(content: string, x: Binding, number: nat, nonce: string)
    requires Regular(Metadata(1, content, content, None, None, None, x)) && number > 0
    requires nonce == if number == 1 then content else RetryNonce(content, number)
    ensures Regular(Metadata(number, nonce, content, None, None, None, x))
  {
  }

  lemma ClaimKeepsProper(b: Boundary, s: Store, q: ClaimRequest, retry: bool, activations: map<string, string>)
    requires Inv(b, s) && ProperLog(b, s.log, activations)
    requires q.current.Success? ==> Proper(q.contentNonce, q.current.value, activations)
    ensures ProperLog(b, ClaimStep(b, s, q, retry).0.log, activations)
  {
    ClaimStepMeets(b, s, q, retry);
    if Due(b, s, q, retry) {
      RegularNumber(q.contentNonce, q.current.value, |AttemptsOf(s.rows, q.key)| + 1, NextNonce(s, q));
      assert Revalidate(b, q).value == q.current.value;
    }
  }

  lemma TransitionKeepsProper(b: Boundary, s: Store, q: TransitionRequest, activations: map<string, string>)
    requires Inv(b, s) && ProperLog(b, s.log, activations)
    ensures ProperLog(b, TransitionStep(b, s, q).0.log, activations)
  {
    if Recordable(b, s, q) {
      var i := FindRow(s.rows, q.key.repository, q.attemptId).value;
      RecordableIsRecorded(b, s, q, i);
      ValidShape(b, q);
      StampIsProper(b, s, q, i, activations);
    } else {
      UnrecordableIsRefused(b, s, q);
    }
  }

  lemma StampIsProper(b: Boundary, s: Store, q: TransitionRequest, i: nat, activations: map<string, string>)
    requires ProperLog(b, s.log, activations) && i < |s.rows| && b.utc(q.completedAt) && !q.state.Claimed?
    ensures ProperLog(b, Stamped(b, s, q, i).log, activations)
  {
  }

  lemma StepKeepsProper(b: Boundary, w: World, c: Command, activations: map<string, string>)
    requires WorldInv(b, w) && ProperLog(b, w.store.log, activations) && ProperClaims([c], activations)
    ensures ProperLog(b, Step(b, w, c).store.log, activations)
  {
    match c
    case Claim(q, retry) =>
      assert [c][0] == c;
      ClaimKeepsProper(b, w.store, q, retry, activations);
    case Transition(q) => TransitionKeepsProper(b, w.store, q, activations);
    case OtherAudit(_, _) =>
  }

  lemma {:induction false} RunKeepsProper(b: Boundary, w: World, cs: seq<Command>, activations: map<string, string>)
    requires WorldInv(b, w) && ProperLog(b, w.store.log, activations) && ProperClaims(cs, activations)
    ensures ProperLog(b, Run(b, w, cs).store.log, activations)
    decreases |cs|
  {
    if cs != [] {
      assert ProperClaims([cs[0]], activations);
      assert ProperClaims(cs[1..], activations) by {
        assert forall i :: 0 <= i < |cs[1..]| ==> cs[1..][i] == cs[i + 1];
      }
      StepKeepsProper(b, w, cs[0], activations);
      StepKeeps(b, w, cs[0]);
      RunKeepsProper(b, Step(b, w, cs[0]), cs[1..], activations);
    }
  }

  lemma {:induction false} EventIsLogged(log: seq<Event>, repository: string, attemptId: string, k: nat)
      returns (i: nat)
    requires k < |EventsFor(log, repository, attemptId)|
    ensures i < |log| && log[i] == EventsFor(log, repository, attemptId)[k]
  {
    var n := |log| - 1;
    if k < |EventsFor(log[..n], repository, attemptId)| { i := EventIsLogged(log[..n], repository, attemptId, k); }
    else { i := n; }
  }

  /** The metadata written for the outcome of a row: that of its claim, with what the row records of the outcome. */
  function OutcomeWritten(claim: Metadata, row: Row): Metadata {
    claim.(completedAt := row.completedAt, code := row.failureCode, messageId := row.messageId)
  }

  /** What was written for the claim and for the outcome of a row reads back as the model has it. */
  ghost predicate ReadsBack(s: Store, row: Row, facts: Facts, activations: map<string, string>, tests: Tests) {
    var events := EventsFor(s.log, row.key.repository, row.attemptId);
    && 1 <= |events| <= 2 && events[0].AttemptEvent?
    && ReadMetadata(InLog(Written(events[0].metadata, facts), tests), activations) == Some(events[0].metadata)
    && (|events| == 2 ==>
          && events[1].AttemptEvent?
          && ReadMetadata(InLog(Written(OutcomeWritten(events[0].metadata, row), facts), tests), activations)
             == Some(events[1].metadata))
  }

  lemma OutcomeIsBack(b: Boundary, row: Row, claim: Event, e: Event, activations: map<string, string>, tests: Tests)
    requires claim.AttemptEvent? && SettledBy(b, e, claim, row)
             && Found(claim.metadata.binding.authority, activations, tests)
    requires RedactOption(b, row.failureCode) == LogOption(row.failureCode, tests)
    requires RedactOption(b, row.messageId) == LogOption(row.messageId, tests)
    ensures MetadataBack(OutcomeWritten(claim.metadata, row), activations, tests) == Some(e.metadata)
  {
  }

  lemma OutcomeReads(b: Boundary, eventId: Material -> string, row: Row, claim: Event, e: Event, facts: Facts,
                     activations: map<string, string>, tests: Tests)
    requires tests == Redaction.TheTests() && b == LogBoundary(eventId)
    requires claim.AttemptEvent? && SettledBy(b, e, claim, row) && Regular(claim.metadata)
    requires Found(claim.metadata.binding.authority, activations, tests) && Timestamps.IsUtcTimestamp(e.occurredAt)
    ensures ReadMetadata(InLog(Written(OutcomeWritten(claim.metadata, row), facts), tests), activations)
            == Some(e.metadata)
  {
    AttemptComesBack(OutcomeWritten(claim.metadata, row), facts, activations, tests);
    BoundaryRedacts(eventId, row.failureCode, tests);
    BoundaryRedacts(eventId, row.messageId, tests);
    OutcomeIsBack(b, row, claim, e, activations, tests);
  }

  lemma BoundaryTimes(b: Boundary, eventId: Material -> string, at: string)
    requires b == LogBoundary(eventId)
    ensures b.utc(at) == Timestamps.IsUtcTimestamp(at)
  {
  }

  lemma RowReads(b: Boundary, eventId: Material -> string, s: Store, i: nat, facts: Facts,
                 activations: map<string, string>, tests: Tests)
    requires tests == Redaction.TheTests() && b == LogBoundary(eventId)
    requires RowsAgree(b, s) && ProperLog(b, s.log, activations) && i < |s.rows|
    ensures ReadsBack(s, s.rows[i], facts, activations, tests)
  {
    var row := s.rows[i];
    var events := EventsFor(s.log, row.key.repository, row.attemptId);
    assert RowAgrees(b, s.log, row);
    var k := EventIsLogged(s.log, row.key.repository, row.attemptId, 0);
    assert ProperEvent(b, s.log[k], activations);
    ClaimComesBack(events[0].metadata, facts, activations, tests);
    if |events| == 2 {
      var j := EventIsLogged(s.log, row.key.repository, row.attemptId, 1);
      assert ProperEvent(b, s.log[j], activations);
      BoundaryTimes(b, eventId, events[1].occurredAt);
      OutcomeReads(b, eventId, row, events[0], events[1], facts, activations, tests);
    }
  }

  /** In every store reached by proper claims, any transitions and any foreign events, each attempt reads back from the
      redacted log with exactly the metadata the model loads it with, so that loading does not fail there either. */
  lemma EveryAttemptReadsBack(eventId: Material -> string, cs: seq<Command>, i: nat, facts: Facts,
                              activations: map<string, string>, tests: Tests)
    requires tests == Redaction.TheTests() && ProperClaims(cs, activations)
    requires i < |Run(LogBoundary(eventId), Start, cs).store.rows|
    ensures var s := Run(LogBoundary(eventId), Start, cs).store; ReadsBack(s, s.rows[i], facts, activations, tests)
  {
    var b := LogBoundary(eventId);
    Reachable(b, []);
    RunKeepsProper(b, Start, cs, activations);
    Reachable(b, cs);
    RowReads(b, eventId, Run(b, Start, cs).store, i, facts, activations, tests);
  }
}
