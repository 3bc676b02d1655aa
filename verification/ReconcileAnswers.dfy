/** What the reconciler answers over any calls: when an answer is final, and when absence and acceptance are
    reported. */
module ReconcileAnswers {
  import opened Wrappers
  import opened Text
  import opened Reconcile

  function AnswerOf(m: Memory, c: Call): Result<Decision, ReconcileError> {
    ReconcileStep(m, c.target, c.now, c.read).1
  }

  /** The answer to call `k`. */
  function Answer(calls: seq<Call>, k: nat): Result<Decision, ReconcileError>
    requires k < |calls|
  {
    AnswerOf(Remember(calls[..k]), calls[k])
  }

  /** Accepted, absent, or a conflict among the candidates. An open search, a failed and an incomplete read are not. */
  predicate IsFinal(d: Decision) {
    match d
    case Accepted(_, _, _) => true
    case ReconciledAbsent(_, _, _) => true
    case StillUnknown(_, _, _, _) => false
    case Unresolved(reason, _) =>
      reason == MultipleMatches || reason == ConflictingContent || reason == EditedMatch || reason == DeletedMatch
      || reason == InvalidObservation
  }

  predicate GaveFinal(calls: seq<Call>, k: nat)
    requires k < |calls|
  {
    Answer(calls, k).Success? && IsFinal(Answer(calls, k).value)
  }

  ghost predicate NoneFinal(calls: seq<Call>) { forall k: nat :: k < |calls| ==> !GaveFinal(calls, k) }

  lemma AnswerBefore(calls: seq<Call>, more: seq<Call>, k: nat)
    requires k < |calls|
    ensures Answer(calls + more, k) == Answer(calls, k)
  {
    assert (calls + more)[..k] == calls[..k];
  }

  /** A call keeps its answer exactly if it is final, unless an earlier one is kept. */
  lemma KeptExactlyIf(m: Memory, c: Call)
    requires m.terminal.None?
    ensures var (m', r) := ReconcileStep(m, c.target, c.now, c.read);
            m'.terminal == if r.Success? && IsFinal(r.value) then Some(r.value) else None
  {
  }

  lemma NoneFinalNext(calls: seq<Call>, c: Call)
    ensures NoneFinal(calls + [c]) <==>
            NoneFinal(calls)
            && !(AnswerOf(Remember(calls), c).Success? && IsFinal(AnswerOf(Remember(calls), c).value))
  {
    var all := calls + [c];
    assert all[..|calls|] == calls;
    forall k: nat | k < |calls| ensures Answer(all, k) == Answer(calls, k) { AnswerBefore(calls, [c], k); }
    assert GaveFinal(all, |calls|) <==>
           AnswerOf(Remember(calls), c).Success? && IsFinal(AnswerOf(Remember(calls), c).value);
    if NoneFinal(all) {
      forall k: nat | k < |calls| ensures !GaveFinal(calls, k) { assert !GaveFinal(all, k); }
    }
    if NoneFinal(calls) && !GaveFinal(all, |calls|) {
      forall k: nat | k < |all| ensures !GaveFinal(all, k) { assert k < |calls| ==> !GaveFinal(calls, k); }
    }
  }

  /** An answer is kept exactly if some answer so far was final. */
  lemma {:induction false} KeptOnceFinal(calls: seq<Call>)
    ensures Remember(calls).terminal.None? <==> NoneFinal(calls)
    decreases |calls|
  {
    if calls != [] {
      var n := |calls| - 1;
      var front, c := calls[..n], calls[n];
      KeptOnceFinal(front);
      NoneFinalNext(front, c);
      assert front + [c] == calls;
      if Remember(front).terminal.None? {
        KeptExactlyIf(Remember(front), c);
      } else {
        assert Remember(calls).terminal.Some?;
      }
    }
  }

  // ---------- absence ----------

  /** The call is about a target the reconciler accepts: a valid one, and the one it was first called for. */
  predicate Accepts(m: Memory, t: RecoveryTarget) { ValidTarget(t) && (m.target.None? || m.target == Some(t)) }

  predicate GaveAbsent(calls: seq<Call>, k: nat)
    requires k < |calls|
  {
    Answer(calls, k).Success? && Answer(calls, k).value.ReconciledAbsent?
  }

  /** A call that sees no candidate, and is given a final answer, is given absence. */
  lemma FinalIsAbsence(m: Memory, c: Call)
    requires m.terminal.None? && (m.target.Some? ==> m.progress.Some?)
    requires CompleteRead(c, c.target) ==> Candidates(c.target, c.read.value.messages) == []
    requires AnswerOf(m, c).Success? && IsFinal(AnswerOf(m, c).value)
    ensures AnswerOf(m, c).value.ReconciledAbsent?
  {
  }

  /** Without a candidate on any complete page, nothing but absence is ever final. */
  lemma OnlyAbsence(calls: seq<Call>, t: RecoveryTarget, k: nat)
    requires k < |calls| && Accepts(Remember(calls), t) && NeverSeen(calls, t) && GaveFinal(calls, k)
    requires Remember(calls[..k]).terminal.None?
    ensures GaveAbsent(calls, k)
  {
    var m, c := Remember(calls[..k]), calls[k];
    AlwaysHonest(calls[..k]);
    TargetStays(calls, k + 1);
    assert calls[..k + 1][..k] == calls[..k];
    FinalIsAbsence(m, c);
  }

  /** The target that is remembered once is remembered from then on. */
  lemma {:induction false} TargetStays(calls: seq<Call>, k: nat)
    requires k <= |calls|
    ensures Remember(calls[..k]).target.Some? ==> Remember(calls).target == Remember(calls[..k]).target
    decreases |calls|
  {
    if k == |calls| {
      assert calls[..k] == calls;
    } else {
      var n := |calls| - 1;
      TargetStays(calls[..n], k);
      assert calls[..n][..k] == calls[..k];
    }
  }

  /** The answer that is kept is the first final one. */
  lemma {:induction false} KeptIsFirst(calls: seq<Call>) returns (k: nat)
    requires Remember(calls).terminal.Some?
    ensures k < |calls| && GaveFinal(calls, k) && Remember(calls[..k]).terminal.None?
    ensures Remember(calls).terminal == Some(Answer(calls, k).value)
    decreases |calls|
  {
    var n := |calls| - 1;
    if Remember(calls[..n]).terminal.Some? {
      k := KeptIsFirst(calls[..n]);
      AnswerBefore(calls[..n], [calls[n]], k);
      assert calls[..n] + [calls[n]] == calls && calls[..n][..k] == calls[..k];
    } else {
      k := n;
      KeptExactlyIf(Remember(calls[..n]), calls[n]);
    }
  }

  /** While no answer is kept. */
  lemma OpenAnswers(calls: seq<Call>, c: Call)
    requires Accepts(Remember(calls), c.target) && NeverSeen(calls, c.target) && SawNothing(c, c.target)
    requires Remember(calls).terminal.None?
    ensures var r := AnswerOf(Remember(calls), c); var count := EmptyReads(calls + [c], c.target);
            r == Success(if count >= 3 && c.now >= c.target.unknownSince + 300
                         then ReconciledAbsent(Capped(count), c.target.unknownSince, c.now)
                         else StillUnknown(Capped(count), c.target.unknownSince, Some(c.now), NoMatchYet))
  {
    var m := Remember(calls);
    AlwaysHonest(calls);
    CountStep(calls, c, c.target);
    if m.target.None? { NothingBefore(calls, c.target); }
  }

  /** After calls whose complete reads all showed no candidate, a further complete read without one is answered with
      absence exactly if it makes three of them and 300 seconds, or if absence was the answer to an earlier call. */
  lemma AbsentExactlyIf(calls: seq<Call>, c: Call)
    requires Accepts(Remember(calls), c.target) && NeverSeen(calls, c.target) && SawNothing(c, c.target)
    ensures var r := AnswerOf(Remember(calls), c);
            && r.Success?
            && (r.value.ReconciledAbsent?
                <==> (EmptyReads(calls + [c], c.target) >= 3 && c.now >= c.target.unknownSince + 300)
                     || exists k: nat :: k < |calls| && GaveAbsent(calls, k))
            && (!r.value.ReconciledAbsent? ==>
                  r.value.StillUnknown? && r.value.successfulReads == Capped(EmptyReads(calls + [c], c.target)))
  {
    if Remember(calls).terminal.None? {
      OpenAnswers(calls, c);
      KeptOnceFinal(calls);
      forall k: nat | k < |calls| ensures !GaveAbsent(calls, k) { assert !GaveFinal(calls, k); }
    } else {
      var k := KeptIsFirst(calls);
      OnlyAbsence(calls, c.target, k);
    }
  }

  // ---------- acceptance ----------

  /** The message stands in the channel, by the bot, with the nonce of the delivery. */
  predicate Ours(t: RecoveryTarget, m: ObservedMessage) {
    m.channelId == t.channelId && m.authorId == t.botAuthorId && m.nonce == t.nonce
  }

  /** Unedited, under a usable id, the very content that was sent. */
  predicate SaysWhatWasSent(t: RecoveryTarget, m: ObservedMessage) {
    m.state == Present && m.content == t.exactContent && ValidComponent(m.messageId, 128)
  }

  /** Message `k` is the only one of the page that is ours. */
  ghost predicate OnlyOurs(t: RecoveryTarget, ms: seq<ObservedMessage>, k: nat) {
    && k < |ms| && Ours(t, ms[k]) && forall j :: 0 <= j < |ms| && Ours(t, ms[j]) ==> j == k
  }

  lemma {:induction false} NoCandidates(t: RecoveryTarget, ms: seq<ObservedMessage>)
    ensures Candidates(t, ms) == [] <==> forall j :: 0 <= j < |ms| ==> !Ours(t, ms[j])
    decreases |ms|
  {
    if ms != [] { NoCandidates(t, ms[..|ms| - 1]); }
  }

  lemma {:induction false} OneCandidate(t: RecoveryTarget, ms: seq<ObservedMessage>)
    ensures |Candidates(t, ms)| == 1 ==> exists k: nat :: OnlyOurs(t, ms, k)
    ensures forall k: nat :: OnlyOurs(t, ms, k) ==> Candidates(t, ms) == [ms[k]]
    decreases |ms|
  {
    if ms != [] {
      var n := |ms| - 1;
      OneCandidate(t, ms[..n]);
      NoCandidates(t, ms[..n]);
      if |Candidates(t, ms)| == 1 {
        if Ours(t, ms[n]) {
          assert OnlyOurs(t, ms, n);
        } else {
          var k: nat :| OnlyOurs(t, ms[..n], k);
          assert OnlyOurs(t, ms, k);
        }
      }
      forall k: nat | OnlyOurs(t, ms, k) ensures Candidates(t, ms) == [ms[k]] {
        if k < n { assert OnlyOurs(t, ms[..n], k); }
      }
    }
  }

  /** While no answer was final, a call is answered with acceptance exactly if its page is complete and the only message
      of ours on it is unedited, has a valid id and says exactly what was sent; the id is that message's. */
  lemma AcceptedExactlyIf(calls: seq<Call>, c: Call)
    requires Accepts(Remember(calls), c.target) && NoneFinal(calls)
    requires c.read.Success? && c.now >= c.target.unknownSince
    ensures var r := AnswerOf(Remember(calls), c); var ms := c.read.value.messages;
            && r.Success?
            && (r.value.Accepted?
                <==> c.read.value.complete
                     && exists k: nat :: OnlyOurs(c.target, ms, k) && SaysWhatWasSent(c.target, ms[k]))
            && forall k: nat :: r.value.Accepted? && OnlyOurs(c.target, ms, k) ==> r.value.messageId == ms[k].messageId
  {
    var m, t, ms := Remember(calls), c.target, c.read.value.messages;
    AlwaysHonest(calls);
    KeptOnceFinal(calls);
    ClassifySpec(t, c.read.value, c.now, Bound(m, t).progress.value);
    OneCandidate(t, ms);
  }

  // ---------- refused calls ----------

  /** A text that identifies something: not empty, of limited length, and without control characters. */
  predicate Usable(s: string, most: nat) {
    s != "" && ByteLength(s) <= most
    && forall i :: 0 <= i < |s| ==> 0x20 <= s[i] as int && !(0x7F <= s[i] as int <= 0x9F)
  }

  predicate IsTarget(t: RecoveryTarget) {
    && Usable(t.destinationAlias, 128) && Usable(t.workspaceId, 128) && Usable(t.channelId, 128)
    && Usable(t.botAuthorId, 128) && Usable(t.nonce, 256) && t.exactContent != ""
  }

  lemma TargetExactlyIf(t: RecoveryTarget)
    ensures ValidTarget(t) <==> IsTarget(t)
  {
    forall s: string, most: nat ensures ValidComponent(s, most) <==> Usable(s, most) {
      forall i | 0 <= i < |s| ensures !IsControl(s[i]) <==> 0x20 <= s[i] as int && !(0x7F <= s[i] as int <= 0x9F) {}
    }
  }

  /** Call `k` is the first about a valid target. */
  ghost predicate IsFirst(calls: seq<Call>, k: nat) {
    k < |calls| && IsTarget(calls[k].target) && forall j :: 0 <= j < k ==> !IsTarget(calls[j].target)
  }

  lemma {:induction false} FirstIsRemembered(calls: seq<Call>)
    ensures Remember(calls).target.None? <==> forall k: nat :: !IsFirst(calls, k)
    ensures forall k: nat :: IsFirst(calls, k) ==> Remember(calls).target == Some(calls[k].target)
    decreases |calls|
  {
    if calls != [] {
      var n := |calls| - 1;
      FirstIsRemembered(calls[..n]);
      TargetExactlyIf(calls[n].target);
      forall k: nat | k < n ensures IsFirst(calls, k) <==> IsFirst(calls[..n], k) {}
      if Remember(calls[..n]).target.None? {
        NoFirst(calls[..n]);
        assert IsTarget(calls[n].target) ==> IsFirst(calls, n);
      }
    }
  }

  lemma {:induction false} NoFirst(calls: seq<Call>)
    requires forall k: nat :: !IsFirst(calls, k)
    ensures forall k :: 0 <= k < |calls| ==> !IsTarget(calls[k].target)
    decreases |calls|
  {
    if calls != [] {
      var n := |calls| - 1;
      forall k: nat ensures !IsFirst(calls[..n], k) { assert !IsFirst(calls, k); }
      NoFirst(calls[..n]);
      assert !IsFirst(calls, n);
    }
  }

  /** A call is refused exactly if its target is not one, or not that of the first call about one, or if, before any
      final answer, it got a page before the time the delivery became unknown. */
  lemma RefusedExactlyIf(calls: seq<Call>, c: Call)
    ensures var r := AnswerOf(Remember(calls), c);
      && (r == Failure(InvalidTarget) <==> !IsTarget(c.target))
      && (r == Failure(StaleTarget) <==>
          IsTarget(c.target) && exists k: nat :: IsFirst(calls, k) && calls[k].target != c.target)
      && (r == Failure(TimeWentBackwards) <==>
          && IsTarget(c.target) && (forall k: nat :: IsFirst(calls, k) ==> calls[k].target == c.target)
          && NoneFinal(calls) && c.read.Success? && c.now < c.target.unknownSince)
  {
    TargetExactlyIf(c.target);
    FirstIsRemembered(calls);
    KeptOnceFinal(calls);
    AlwaysHonest(calls);
  }
}
