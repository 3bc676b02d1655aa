/** Reconciliation of an attempt whose outcome is unknown: one observation of the destination at a time, and the
    state machine over any sequence of them. The reader and the clock are injected. */
module Reconcile {
  import opened Wrappers
  import opened Text

  const ABSENCE_OBSERVATION_WINDOW: nat := 300
  const MIN_SUCCESSFUL_READS: nat := 3
  const MAX_U32: nat := 0xFFFF_FFFF

  datatype RecoveryTarget = RecoveryTarget(
    destinationAlias: string, workspaceId: string, channelId: string, botAuthorId: string, nonce: string,
    exactContent: string, unknownSince: nat)

  datatype RemoteMessageState = Present | Edited | Deleted

  datatype ObservedMessage = ObservedMessage(messageId: string, channelId: string, authorId: string, nonce: string,
                                             content: string, state: RemoteMessageState)

  datatype ReadPage = ReadPage(messages: seq<ObservedMessage>, complete: bool)

  datatype ReadError = Unauthorized | RateLimited | Timeout | Incomplete | Transport | InvalidResponse

  datatype Progress = Progress(started: nat, successfulReads: nat, lastSuccessfulRead: Option<nat>) {
    predicate CanProveAbsence(now: nat) {
      (if now >= started then now - started else 0) >= ABSENCE_OBSERVATION_WINDOW
        && successfulReads >= MIN_SUCCESSFUL_READS
    }
  }

  datatype Reason =
    | NoMatchYet | MultipleMatches | ConflictingContent | EditedMatch | DeletedMatch
    | ReadFailed(error: ReadError) | IncompleteRead | InvalidObservation
  {
    predicate IsConflict() {
      MultipleMatches? || ConflictingContent? || EditedMatch? || DeletedMatch? || InvalidObservation?
    }
  }

  datatype Decision =
    | Accepted(messageId: string, successfulReads: nat, observedAt: nat)
    | StillUnknown(successfulReads: nat, started: nat, lastSuccessfulRead: Option<nat>, reason: Reason)
    | ReconciledAbsent(successfulReads: nat, started: nat, observedAt: nat)
    | Unresolved(reason: Reason, successfulReads: nat)

  datatype ReconcileError = InvalidTarget | StaleTarget | TimeWentBackwards

  predicate ValidComponent(value: string, maximum: nat) {
    value != [] && ByteLength(value) <= maximum && forall i :: 0 <= i < |value| ==> !IsControl(value[i])
  }

  predicate ValidTarget(t: RecoveryTarget) {
    ValidComponent(t.destinationAlias, 128) && ValidComponent(t.workspaceId, 128) && ValidComponent(t.channelId, 128)
    && ValidComponent(t.botAuthorId, 128) && ValidComponent(t.nonce, 256) && t.exactContent != []
  }

  predicate IsIdentityCandidate(t: RecoveryTarget, m: ObservedMessage) {
    m.channelId == t.channelId && m.authorId == t.botAuthorId && m.nonce == t.nonce
  }

  predicate IsExactMatch(t: RecoveryTarget, m: ObservedMessage) {
    IsIdentityCandidate(t, m) && ValidComponent(m.messageId, 128) && m.state.Present? && m.content == t.exactContent
  }

  function Candidates(t: RecoveryTarget, ms: seq<ObservedMessage>): (cs: seq<ObservedMessage>)
    ensures forall k :: 0 <= k < |cs| ==> IsIdentityCandidate(t, cs[k])
  {
    if ms == [] then []
    else
      var last := ms[|ms| - 1];
      Candidates(t, ms[..|ms| - 1]) + if IsIdentityCandidate(t, last) then [last] else []
  }

  // ---------- one observation ----------

  /** What one candidate contributes. */
  datatype Evidence = Exact | Conflicting(reason: Reason)

  function EvidenceOf(t: RecoveryTarget, m: ObservedMessage): Evidence {
    if !ValidComponent(m.messageId, 128) then Conflicting(InvalidObservation)
    else if m.state.Deleted? then Conflicting(DeletedMatch)
    else if m.state.Edited? then Conflicting(EditedMatch)
    else if m.content != t.exactContent then Conflicting(ConflictingContent)
    else Exact
  }

  predicate Shows(t: RecoveryTarget, cs: seq<ObservedMessage>, reason: Reason) {
    exists k :: 0 <= k < |cs| && EvidenceOf(t, cs[k]) == Conflicting(reason)
  }

  /** The gravest conflict among the candidates. */
  function Conflict(t: RecoveryTarget, cs: seq<ObservedMessage>): Option<Reason> {
    if Shows(t, cs, DeletedMatch) then Some(DeletedMatch)
    else if Shows(t, cs, EditedMatch) then Some(EditedMatch)
    else if Shows(t, cs, ConflictingContent) then Some(ConflictingContent)
    else if Shows(t, cs, InvalidObservation) then Some(InvalidObservation)
    else None
  }

  function Grown(p: Progress, now: nat): Progress {
    Progress(p.started, if p.successfulReads < MAX_U32 then p.successfulReads + 1 else MAX_U32, Some(now))
  }

  /** The verdict on a complete page, given its candidates. */
  function Verdict(t: RecoveryTarget, cs: seq<ObservedMessage>, now: nat, p: Progress): (Decision, Progress) {
    if Conflict(t, cs).Some? then (Unresolved(Conflict(t, cs).value, p.successfulReads), p)
    else if |cs| > 1 then (Unresolved(MultipleMatches, p.successfulReads), p)
    else if |cs| == 1 then (Accepted(cs[0].messageId, p.successfulReads, now), p)
    else
      var g := Grown(p, now);
      (if g.CanProveAbsence(now) then ReconciledAbsent(g.successfulReads, g.started, now)
       else StillUnknown(g.successfulReads, g.started, g.lastSuccessfulRead, NoMatchYet), g)
  }

  function Classify(t: RecoveryTarget, page: ReadPage, now: nat, p: Progress): (Result<Decision, ReconcileError>,
                                                                                Progress) {
    if now < t.unknownSince || now < p.started then (Failure(TimeWentBackwards), p)
    else if !page.complete then (Success(Unresolved(IncompleteRead, p.successfulReads)), p)
    else var (d, p') := Verdict(t, Candidates(t, page.messages), now, p); (Success(d), p')
  }

  /** The flags say which conflicts the candidates show; without a conflict the ids are those of all candidates. */
  ghost predicate Collected(t: RecoveryTarget, cs: seq<ObservedMessage>, f: Flags) {
    && f.deleted == Shows(t, cs, DeletedMatch) && f.edited == Shows(t, cs, EditedMatch)
    && f.conflicting == Shows(t, cs, ConflictingContent) && f.invalid == Shows(t, cs, InvalidObservation)
    && (!f.deleted && !f.edited && !f.conflicting && !f.invalid ==>
          |f.exactMatches| == |cs| && forall k :: 0 <= k < |cs| ==> f.exactMatches[k] == cs[k].messageId)
  }

  datatype Flags = Flags(deleted: bool, edited: bool, conflicting: bool, invalid: bool, exactMatches: seq<string>)

  /** What one more candidate adds to the flags. */
  function Noted(t: RecoveryTarget, f: Flags, m: ObservedMessage): Flags {
    if !ValidComponent(m.messageId, 128) then f.(invalid := true)
    else if m.state.Deleted? then f.(deleted := true)
    else if m.state.Edited? then f.(edited := true)
    else if m.content != t.exactContent then f.(conflicting := true)
    else f.(exactMatches := f.exactMatches + [m.messageId])
  }

  lemma OneMore(t: RecoveryTarget, cs: seq<ObservedMessage>, f: Flags, m: ObservedMessage)
    requires Collected(t, cs, f)
    ensures Collected(t, cs + [m], Noted(t, f, m))
  {
    ShowsAppended(t, cs, m);
  }

  lemma CandidatesNext(t: RecoveryTarget, messages: seq<ObservedMessage>, i: nat)
    requires i < |messages|
    ensures var cs := Candidates(t, messages[..i]);
      Candidates(t, messages[..i + 1]) == if IsIdentityCandidate(t, messages[i]) then cs + [messages[i]] else cs
  {
    assert messages[..i + 1][..i] == messages[..i];
    assert Candidates(t, messages[..i]) + [] == Candidates(t, messages[..i]);
  }

  /** The loop over the page: flags for each kind of conflict and the ids of the exact matches. */
  method CollectEvidence(t: RecoveryTarget, messages: seq<ObservedMessage>) returns (f: Flags)
    ensures Collected(t, Candidates(t, messages), f)
  {
    var exactMatches: seq<string> := [];
    var deleted, edited, conflicting, invalid := false, false, false, false;
    for i := 0 to |messages|
      invariant Collected(t, Candidates(t, messages[..i]), Flags(deleted, edited, conflicting, invalid, exactMatches))
    {
      var m := messages[i];
      CandidatesNext(t, messages, i);
      if !IsIdentityCandidate(t, m) { continue; }
      OneMore(t, Candidates(t, messages[..i]), Flags(deleted, edited, conflicting, invalid, exactMatches), m);
      if !ValidComponent(m.messageId, 128) {
        invalid := true;
      } else {
        match m.state
        case Deleted => deleted := true;
        case Edited => edited := true;
        case Present =>
          if m.content != t.exactContent { conflicting := true; } else { exactMatches := exactMatches + [m.messageId]; }
      }
    }
    assert messages[..|messages|] == messages;
    f := Flags(deleted, edited, conflicting, invalid, exactMatches);
  }

  /** `classify_observation`, with its checks in order. */
  method ClassifyObservation(t: RecoveryTarget, page: ReadPage, now: nat, p: Progress)
    returns (r: Result<Decision, ReconcileError>, p': Progress)
    ensures (r, p') == Classify(t, page, now, p)
  {
    p' := p;
    if now < t.unknownSince || now < p.started { return Failure(TimeWentBackwards), p; }
    if !page.complete { return Success(Unresolved(IncompleteRead, p.successfulReads)), p; }
    var f := CollectEvidence(t, page.messages);
    var conflict: Option<Reason> := None;
    if f.deleted { conflict := Some(DeletedMatch); }
    else if f.edited { conflict := Some(EditedMatch); }
    else if f.conflicting { conflict := Some(ConflictingContent); }
    else if f.invalid { conflict := Some(InvalidObservation); }
    if conflict.Some? { return Success(Unresolved(conflict.value, p.successfulReads)), p; }
    if |f.exactMatches| > 1 { return Success(Unresolved(MultipleMatches, p.successfulReads)), p; }
    if |f.exactMatches| == 1 { return Success(Accepted(f.exactMatches[0], p.successfulReads, now)), p; }
    p' := Grown(p, now);
    if p'.CanProveAbsence(now) {
      r := Success(ReconciledAbsent(p'.successfulReads, p'.started, now));
    } else {
      r := Success(StillUnknown(p'.successfulReads, p'.started, p'.lastSuccessfulRead, NoMatchYet));
    }
  }

  lemma ShowsAppended(t: RecoveryTarget, cs: seq<ObservedMessage>, m: ObservedMessage)
    ensures forall reason :: Shows(t, cs + [m], reason) <==>
            Shows(t, cs, reason) || EvidenceOf(t, m) == Conflicting(reason)
  {
    forall reason
      ensures Shows(t, cs + [m], reason) <==> Shows(t, cs, reason) || EvidenceOf(t, m) == Conflicting(reason)
    {
      assert (cs + [m])[|cs|] == m;
      if Shows(t, cs, reason) {
        var k :| 0 <= k < |cs| && EvidenceOf(t, cs[k]) == Conflicting(reason);
        assert (cs + [m])[k] == cs[k];
      }
      if Shows(t, cs + [m], reason) && EvidenceOf(t, m) != Conflicting(reason) {
        var k :| 0 <= k < |cs + [m]| && EvidenceOf(t, (cs + [m])[k]) == Conflicting(reason);
        assert cs[k] == (cs + [m])[k];
      }
    }
  }

  /** A message is reported accepted exactly when the page is complete and its only identity candidate is an exact
      match; progress grows, by one, exactly when the page is complete and has no candidate. */
  lemma ClassifySpec(t: RecoveryTarget, page: ReadPage, now: nat, p: Progress)
    requires t.unknownSince <= now && p.started <= now
    ensures var (r, p') := Classify(t, page, now, p);
            var cs := Candidates(t, page.messages);
            && r.Success?
            && (r.value.Accepted? <==> page.complete && |cs| == 1 && IsExactMatch(t, cs[0]))
            && (r.value.Accepted? ==> r.value.messageId == cs[0].messageId)
            && (page.complete && cs == [] <==> r.value.StillUnknown? || r.value.ReconciledAbsent?)
            && (p' == if page.complete && cs == [] then Grown(p, now) else p)
            && (r.value.Unresolved? && page.complete <==>
                  page.complete && (|cs| > 1 || (|cs| == 1 && !IsExactMatch(t, cs[0]))))
            && (r.value.ReconciledAbsent? <==> page.complete && cs == [] && Grown(p, now).CanProveAbsence(now))
  {
  }

  // ---------- the order of messages does not matter ----------

  lemma {:induction false} CandidatesBag(t: RecoveryTarget, ms: seq<ObservedMessage>, m: ObservedMessage)
    ensures multiset(Candidates(t, ms))[m] == if IsIdentityCandidate(t, m) then multiset(ms)[m] else 0
  {
    if ms != [] {
      var n := |ms| - 1;
      CandidatesBag(t, ms[..n], m);
      assert ms == ms[..n] + [ms[n]];
      assert multiset(ms) == multiset(ms[..n]) + multiset{ms[n]};
    }
  }

  lemma OrderDoesNotMatter(t: RecoveryTarget, a: ReadPage, b: ReadPage, now: nat, p: Progress)
    requires multiset(a.messages) == multiset(b.messages) && a.complete == b.complete
    ensures Classify(t, a, now, p) == Classify(t, b, now, p)
  {
    var ca, cb := Candidates(t, a.messages), Candidates(t, b.messages);
    forall m ensures multiset(ca)[m] == multiset(cb)[m] {
      CandidatesBag(t, a.messages, m);
      CandidatesBag(t, b.messages, m);
    }
    assert multiset(ca) == multiset(cb);
    assert |ca| == |multiset(ca)| && |cb| == |multiset(cb)|;
    forall reason ensures Shows(t, ca, reason) == Shows(t, cb, reason) {
      if Shows(t, ca, reason) { ShowsBag(t, ca, cb, reason); }
      if Shows(t, cb, reason) { ShowsBag(t, cb, ca, reason); }
    }
    if |ca| == 1 {
      assert multiset(ca)[ca[0]] == 1;
      assert ca[0] in multiset(cb);
      assert cb == [cb[0]];
    }
  }

  lemma ShowsBag(t: RecoveryTarget, ca: seq<ObservedMessage>, cb: seq<ObservedMessage>, reason: Reason)
    requires multiset(ca) == multiset(cb) && Shows(t, ca, reason)
    ensures Shows(t, cb, reason)
  {
    var k :| 0 <= k < |ca| && EvidenceOf(t, ca[k]) == Conflicting(reason);
    assert ca[k] in multiset(cb);
    var j :| 0 <= j < |cb| && cb[j] == ca[k];
  }

  // ---------- the state machine ----------

  /** The first accepted target stays; a final decision is cached. */
  datatype Memory = Memory(target: Option<RecoveryTarget>, progress: Option<Progress>, terminal: Option<Decision>)

  const Fresh := Memory(None, None, None)

  predicate ShouldCache(d: Decision) {
    d.Accepted? || d.ReconciledAbsent? || (d.Unresolved? && d.reason.IsConflict())
  }

  function ReadsSoFar(m: Memory): nat {
    if m.progress.Some? then m.progress.value.successfulReads else 0
  }

  function Bound(m: Memory, t: RecoveryTarget): Memory {
    if m.target.Some? then m else Memory(Some(t), Some(Progress(t.unknownSince, 0, None)), m.terminal)
  }

  /** One call of `reconcile`: what it remembers and what it answers. */
  function ReconcileStep(m: Memory, t: RecoveryTarget, now: nat, read: Result<ReadPage, ReadError>)
    : (Memory, Result<Decision, ReconcileError>)
  {
    if !ValidTarget(t) then (m, Failure(InvalidTarget))
    else if m.target.Some? && m.target.value != t then (m, Failure(StaleTarget))
    else
      var n := Bound(m, t);
      if n.terminal.Some? then (n, Success(n.terminal.value))
      else if read.Failure? then (n, Success(Unresolved(ReadFailed(read.error), ReadsSoFar(n))))
      else if n.progress.None? then (n, Failure(StaleTarget))
      else
        var (r, p) := Classify(t, read.value, now, n.progress.value);
        (Memory(n.target, Some(p), if r.Success? && ShouldCache(r.value) then Some(r.value) else n.terminal), r)
  }

  class RecoveryReconciler {
    var target: Option<RecoveryTarget>
    var progress: Option<Progress>
    var terminal: Option<Decision>

    constructor ()
      ensures Memory(target, progress, terminal) == Fresh
    {
      target, progress, terminal := None, None, None;
    }

    method Reconcile(t: RecoveryTarget, now: nat, read: Result<ReadPage, ReadError>)
      returns (r: Result<Decision, ReconcileError>)
      modifies this
      ensures (Memory(target, progress, terminal), r)
           == ReconcileStep(old(Memory(target, progress, terminal)), t, now, read)
    {
      if !ValidTarget(t) { return Failure(InvalidTarget); }
      if target.Some? {
        if target.value != t { return Failure(StaleTarget); }
      } else {
        target := Some(t);
        progress := Some(Progress(t.unknownSince, 0, None));
      }
      if terminal.Some? { return Success(terminal.value); }
      if read.Failure? {
        var count := 0;
        if progress.Some? { count := progress.value.successfulReads; }
        return Success(Unresolved(ReadFailed(read.error), count));
      }
      if progress.None? { return Failure(StaleTarget); }
      var p;
      r, p := ClassifyObservation(t, read.value, now, progress.value);
      progress := Some(p);
      if r.Success? && ShouldCache(r.value) { terminal := Some(r.value); }
    }
  }

  // ---------- runs ----------

  /** One call with what the clock and the reader gave it. */
  datatype Call = Call(target: RecoveryTarget, now: nat, read: Result<ReadPage, ReadError>)

  function Remember(calls: seq<Call>): Memory {
    if calls == [] then Fresh
    else
      var c := calls[|calls| - 1];
      ReconcileStep(Remember(calls[..|calls| - 1]), c.target, c.now, c.read).0
  }

  /** A complete page about this target, read at a time the target allows. */
  predicate CompleteRead(c: Call, t: RecoveryTarget) {
    c.target == t && c.read.Success? && c.read.value.complete && t.unknownSince <= c.now
  }

  predicate SawNothing(c: Call, t: RecoveryTarget) {
    CompleteRead(c, t) && Candidates(t, c.read.value.messages) == []
  }

  /** Number of complete reads without a candidate. */
  function EmptyReads(calls: seq<Call>, t: RecoveryTarget): nat {
    if calls == [] then 0
    else EmptyReads(calls[..|calls| - 1], t) + if SawNothing(calls[|calls| - 1], t) then 1 else 0
  }

  ghost predicate NeverSeen(calls: seq<Call>, t: RecoveryTarget) {
    forall k :: 0 <= k < |calls| && CompleteRead(calls[k], t) ==> SawNothing(calls[k], t)
  }

  function Capped(n: nat): nat { if n < MAX_U32 then n else MAX_U32 }

  /** Until a decision is final, progress counts exactly the complete reads so far, and none of them held a
      candidate. */
  ghost predicate Honest(calls: seq<Call>) {
    var m := Remember(calls);
    && (m.target.None? ==>
          m.progress.None? && m.terminal.None? && forall k :: 0 <= k < |calls| ==> !ValidTarget(calls[k].target))
    && (m.target.Some? ==>
          ValidTarget(m.target.value) && m.progress.Some? && m.progress.value.started == m.target.value.unknownSince)
    && (m.target.Some? && m.terminal.None? ==>
          m.progress.value.successfulReads == Capped(EmptyReads(calls, m.target.value))
            && NeverSeen(calls, m.target.value))
  }

  lemma {:induction false} NothingBefore(calls: seq<Call>, t: RecoveryTarget)
    requires ValidTarget(t) && forall k :: 0 <= k < |calls| ==> !ValidTarget(calls[k].target)
    ensures EmptyReads(calls, t) == 0 && NeverSeen(calls, t)
  {
    if calls != [] {
      assert !ValidTarget(calls[|calls| - 1].target);
      NothingBefore(calls[..|calls| - 1], t);
    }
  }

  /** A call about the remembered target while no decision is final: progress grows exactly with an empty read, and the
      search stays open only if the read was incomplete, failed, out of time or empty. */
  lemma OpenStep(m: Memory, c: Call)
    requires ValidTarget(c.target) && m.target == Some(c.target) && m.terminal.None?
    requires m.progress.Some? && m.progress.value.started == c.target.unknownSince
    ensures var m' := ReconcileStep(m, c.target, c.now, c.read).0;
            && m'.target == m.target && m'.progress.Some? && m'.progress.value.started == c.target.unknownSince
            && m'.progress.value.successfulReads
               == (if SawNothing(c, c.target) then Grown(m.progress.value, c.now).successfulReads
                   else m.progress.value.successfulReads)
            && (m'.terminal.None? && CompleteRead(c, c.target) ==> SawNothing(c, c.target))
  {
    if CompleteRead(c, c.target) { ClassifySpec(c.target, c.read.value, c.now, m.progress.value); }
  }

  /** Counting goes on over one more call, which adds at most one empty read of the target. */
  lemma CountStep(before: seq<Call>, c: Call, t: RecoveryTarget)
    ensures EmptyReads(before + [c], t) == EmptyReads(before, t) + (if SawNothing(c, t) then 1 else 0)
    ensures NeverSeen(before, t) && (CompleteRead(c, t) ==> SawNothing(c, t)) <==> NeverSeen(before + [c], t)
  {
  }

  lemma HonestStep(before: seq<Call>, c: Call)
    requires Honest(before)
    ensures Honest(before + [c])
  {
    var calls := before + [c];
    assert calls[..|before|] == before;
    var m, m' := Remember(before), Remember(calls);
    assert m' == ReconcileStep(m, c.target, c.now, c.read).0;
    if m.target.Some? { CountStep(before, c, m.target.value); }
    if !ValidTarget(c.target) {
      assert m' == m;
    } else if m.target.None? {
      NothingBefore(before, c.target);
      CountStep(before, c, c.target);
      OpenStep(Bound(m, c.target), c);
    } else if m.target.value == c.target && m.terminal.None? {
      OpenStep(m, c);
    }
  }

  lemma {:induction false} AlwaysHonest(calls: seq<Call>)
    ensures Honest(calls)
  {
    if calls != [] {
      var n := |calls| - 1;
      AlwaysHonest(calls[..n]);
      HonestStep(calls[..n], calls[n]);
      assert calls[..n] + [calls[n]] == calls;
    }
  }

  /** Absence is reported only after at least three complete reads without a candidate, none with one, and at least 300
      seconds after the target became unknown; the report counts these reads. */
  lemma AbsenceIsEarned(calls: seq<Call>, c: Call)
    requires var m := Remember(calls);
             m.terminal.None?
             && var r := ReconcileStep(m, c.target, c.now, c.read).1; r.Success? && r.value.ReconciledAbsent?
    ensures var d := ReconcileStep(Remember(calls), c.target, c.now, c.read).1.value;
            && EmptyReads(calls + [c], c.target) >= MIN_SUCCESSFUL_READS
            && d.successfulReads == Capped(EmptyReads(calls + [c], c.target))
            && NeverSeen(calls + [c], c.target)
            && d.observedAt == c.now >= c.target.unknownSince + ABSENCE_OBSERVATION_WINDOW
  {
    AlwaysHonest(calls);
    var m := Remember(calls);
    var p := Bound(m, c.target).progress.value;
    if m.target.None? { NothingBefore(calls, c.target); }
    ClassifySpec(c.target, c.read.value, c.now, p);
    assert (calls + [c])[..|calls|] == calls;
    assert NeverSeen(calls, c.target);
  }

  /** Acceptance is reported only for a complete page whose only candidate is the exact message, and only if no earlier
      complete page held a candidate. */
  lemma AcceptanceIsEarned(calls: seq<Call>, c: Call)
    requires var m := Remember(calls);
             m.terminal.None? && var r := ReconcileStep(m, c.target, c.now, c.read).1; r.Success? && r.value.Accepted?
    ensures var d := ReconcileStep(Remember(calls), c.target, c.now, c.read).1.value;
            && c.read.Success? && c.read.value.complete
            && (var cs := Candidates(c.target, c.read.value.messages);
                |cs| == 1 && IsExactMatch(c.target, cs[0]) && cs[0].messageId == d.messageId)
            && NeverSeen(calls, c.target)
  {
    AlwaysHonest(calls);
    var m := Remember(calls);
    if m.target.None? { NothingBefore(calls, c.target); }
    ClassifySpec(c.target, c.read.value, c.now, Bound(m, c.target).progress.value);
  }

  /** A final decision never changes, and every later call about the target repeats it. */
  lemma {:induction false} FinalStays(calls: seq<Call>, more: seq<Call>)
    requires Remember(calls).terminal.Some?
    ensures Remember(calls + more).terminal == Remember(calls).terminal
            && Remember(calls + more).target == Remember(calls).target
    ensures forall c: Call :: Remember(calls).target == Some(c.target) ==>
      ReconcileStep(Remember(calls + more), c.target, c.now, c.read).1 == Success(Remember(calls).terminal.value)
  {
    AlwaysHonest(calls);
    if more == [] {
      assert calls + more == calls;
    } else {
      var n := |more| - 1;
      FinalStays(calls, more[..n]);
      assert (calls + more)[..|calls| + n] == calls + more[..n];
    }
  }

  /** A failed or incomplete read, or a clock that went back, leaves what is remembered about a target untouched. */
  lemma FailedReadsAreHarmless(m: Memory, c: Call)
    requires m.target == Some(c.target)
    requires c.read.Failure? || !c.read.value.complete || c.now < c.target.unknownSince
    ensures ReconcileStep(m, c.target, c.now, c.read).0 == m
  {
  }
}
