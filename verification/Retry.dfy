/** The bounded retry policy and the runner that executes it against an injected transport and clock. Durations are
    whole milliseconds. */
module Retry {
  import opened Wrappers
  import opened Delivery

  const MAX_TRANSPORT_ATTEMPTS: nat := 3
  const MAX_U8: nat := 255
  const MAX_DISCORD_WAIT: nat := 30_000

  datatype PreDispatchFailure = ConnectFailed | ConnectTimeout {
    function Code(): string { if ConnectFailed? then "connect-failed" else "connect-timeout" }
  }

  datatype UnknownReason =
    | Timeout | ConnectionReset | ServerResponse(status: nat) | InvalidResponse | ResponseReadFailed
  {
    function Code(): string {
      match this
      case Timeout => "post-dispatch-timeout"
      case ConnectionReset => "post-dispatch-connection-reset"
      case ServerResponse(_) => "post-dispatch-server-response"
      case InvalidResponse => "invalid-success-response"
      case ResponseReadFailed => "response-read-failed"
    }
  }

  /** What is known about one transport request. */
  datatype TransportOutcome =
    | Delivered(messageId: string)
    | RateLimited(retryAfter: Option<nat>)
    | PreDispatch(failure: PreDispatchFailure)
    | DefinitiveFailure(code: string)
    | Uncertain(reason: UnknownReason)
  {
    /** Discord may already hold the message. */
    predicate MayHaveArrived() { Delivered? || Uncertain? }
  }

  datatype RetryDelayKind = PreDispatchJitter | DiscordDirected

  datatype RetryStopReason = AttemptsExhausted | MissingServerDelay | InvalidAttemptNumber

  datatype StopCode = InvalidNumber | NotConnected(failure: PreDispatchFailure) | NoServerDelay | BudgetExhausted {
    function Code(): string {
      match this
      case InvalidNumber => "invalid-attempt-number"
      case NotConnected(failure) => failure.Code()
      case NoServerDelay => "rate-limited-without-server-delay"
      case BudgetExhausted => "rate-limited-attempt-budget-exhausted"
    }
  }

  datatype RetryDecision =
    | Done(messageId: string)
    | Wait(nextAttempt: nat, delay: nat, kind: RetryDelayKind)
    | Refused(code: string)
    | Unproven(reason: UnknownReason)
    | Stop(why: RetryStopReason, stopCode: StopCode)

  datatype RetryPolicy_ = RetryPolicy(maxAttempts: nat, minJitter: nat, maxJitter: nat, maxDiscordWait: nat) {
    function BoundedJitter(value: nat): (r: nat) {
      var raised := if value < minJitter then minJitter else value;
      if raised < maxJitter then raised else maxJitter
    }

    /** The decision after a request. Only failures that prove Discord did not take the message lead to a wait. */
    function Classify(attemptNumber: nat, outcome: TransportOutcome, jitter: Option<nat>): RetryDecision {
      if attemptNumber == 0 || attemptNumber > maxAttempts then Stop(InvalidAttemptNumber, InvalidNumber)
      else
        match outcome
        case Delivered(messageId) => Done(messageId)
        case DefinitiveFailure(code) => Refused(code)
        case Uncertain(reason) => Unproven(reason)
        case PreDispatch(failure) =>
          if attemptNumber >= maxAttempts then Stop(AttemptsExhausted, NotConnected(failure))
          else
            Wait(attemptNumber + 1, BoundedJitter(if jitter.Some? then jitter.value else minJitter), PreDispatchJitter)
        case RateLimited(retryAfter) =>
          if retryAfter.None? then Stop(MissingServerDelay, NoServerDelay)
          else if attemptNumber >= maxAttempts then Stop(AttemptsExhausted, BudgetExhausted)
          else
            Wait(attemptNumber + 1, if retryAfter.value < maxDiscordWait then retryAfter.value else maxDiscordWait,
                 DiscordDirected)
    }

    /** A wait stays within the bound of its kind. */
    predicate WaitBounded(d: RetryDecision)
      requires d.Wait?
    {
      match d.kind
      case PreDispatchJitter => minJitter <= d.delay <= maxJitter
      case DiscordDirected => d.delay <= maxDiscordWait
    }
  }

  /** Policies that `with_limits` accepts. */
  predicate AcceptedLimits(p: RetryPolicy_) {
    && 1 <= p.maxAttempts <= MAX_TRANSPORT_ATTEMPTS && p.minJitter <= p.maxJitter
    && p.maxDiscordWait <= MAX_DISCORD_WAIT
  }

  type RetryPolicy = p: RetryPolicy_ | AcceptedLimits(p) witness RetryPolicy(3, 100, 1000, 30000)

  /** A decision waits exactly when there is an attempt left and the outcome proves that the message did not arrive and
      says when to try again; the wait is bounded and leads to the next number. */
  lemma WaitIffSafe(p: RetryPolicy, n: nat, outcome: TransportOutcome, jitter: Option<nat>)
    ensures var d := p.Classify(n, outcome, jitter);
            && (d.Wait? <==>
                1 <= n < p.maxAttempts && (outcome.PreDispatch? || (outcome.RateLimited? && outcome.retryAfter.Some?)))
            && (d.Wait? ==> d.nextAttempt == n + 1 && p.WaitBounded(d))
            && (d.Done? || d.Unproven? <==> 1 <= n <= p.maxAttempts && outcome.MayHaveArrived())
            && (d.Done? ==> outcome == Delivered(d.messageId)) && (d.Unproven? ==> outcome == Uncertain(d.reason))
  {
  }

  /** Limits that a policy may have: three requests at most, and half a minute at most where Discord says when. */
  lemma LimitsExactlyIf(p: RetryPolicy_)
    ensures AcceptedLimits(p)
      <==> p.maxAttempts in {1, 2, 3} && p.minJitter <= p.maxJitter && p.maxDiscordWait <= 30_000
  {
  }

  function Distance(a: nat, b: nat): nat { if a <= b then b - a else a - b }

  /** The wait after a failed connection is, of all that the bounds allow, the one nearest to the jitter given, or the
      least if none is; after a rate limit it is what Discord asked for, cut at the limit. */
  lemma WaitsAsAsked(p: RetryPolicy, n: nat, outcome: TransportOutcome, jitter: Option<nat>)
    requires p.Classify(n, outcome, jitter).Wait?
    ensures var d := p.Classify(n, outcome, jitter);
            if outcome.PreDispatch? then
              && d.kind == PreDispatchJitter && p.minJitter <= d.delay <= p.maxJitter
              && (jitter.None? ==> d.delay == p.minJitter)
              && (jitter.Some? ==> forall x :: p.minJitter <= x <= p.maxJitter ==>
                    Distance(d.delay, jitter.value) <= Distance(x, jitter.value))
            else
              && outcome.RateLimited? && outcome.retryAfter.Some? && d.kind == DiscordDirected
              && d.delay <= outcome.retryAfter.value && d.delay <= p.maxDiscordWait
              && d.delay in {outcome.retryAfter.value, p.maxDiscordWait}
  {
  }

  /** Why it stops without a verdict on the message, and the code that says so. */
  lemma StopsExactlyIf(p: RetryPolicy, n: nat, outcome: TransportOutcome, jitter: Option<nat>)
    ensures var d := p.Classify(n, outcome, jitter);
      && (d.Stop? && d.why == InvalidAttemptNumber <==> n < 1 || p.maxAttempts < n)
      && (d.Stop? && d.why == MissingServerDelay <==> 1 <= n <= p.maxAttempts && outcome == RateLimited(None))
      && (d.Stop? && d.why == AttemptsExhausted <==>
          n == p.maxAttempts && (outcome.PreDispatch? || (outcome.RateLimited? && outcome.retryAfter.Some?)))
      && (d.Refused? <==> 1 <= n <= p.maxAttempts && outcome.DefinitiveFailure?)
      && (d.Refused? ==> d.code == outcome.code)
      && (d.Stop? && d.why == InvalidAttemptNumber ==> d.stopCode.Code() == "invalid-attempt-number")
      && (d.Stop? && d.why == MissingServerDelay ==> d.stopCode.Code() == "rate-limited-without-server-delay")
      && (d.Stop? && d.why == AttemptsExhausted && outcome.RateLimited? ==>
            d.stopCode.Code() == "rate-limited-attempt-budget-exhausted")
      && (d.Stop? && d.why == AttemptsExhausted && outcome == PreDispatch(ConnectFailed) ==>
            d.stopCode.Code() == "connect-failed")
      && (d.Stop? && d.why == AttemptsExhausted && outcome == PreDispatch(ConnectTimeout) ==>
            d.stopCode.Code() == "connect-timeout")
  {
  }

  // ---------- the runner ----------

  datatype AttemptRecord = AttemptRecord(number: nat, outcome: TransportOutcome, decision: RetryDecision)

  datatype RunResult = RunResult(requestCount: nat, lastAttempt: nat, attempts: seq<AttemptRecord>,
                                 decision: RetryDecision)

  datatype RunError =
    | InvalidStartAttempt(number: nat) | AttemptLimitReached | BlockedState(state: DeliveryState) | ClockFailed

  /** Consecutive requests from `first`, decided by the policy: every one but the last led to a wait. */
  ghost predicate Trace(p: RetryPolicy, jitter: Option<nat>, first: nat, attempts: seq<AttemptRecord>) {
    && (forall k :: 0 <= k < |attempts| ==>
          && attempts[k].number == first + k && 1 <= attempts[k].number <= p.maxAttempts
          && attempts[k].decision == p.Classify(attempts[k].number, attempts[k].outcome, jitter))
    && (forall k :: 0 <= k < |attempts| - 1 ==> attempts[k].decision.Wait?)
  }

  /** In a trace, only the last request may have reached Discord, and every wait is bounded. */
  lemma TraceIsSafe(p: RetryPolicy, jitter: Option<nat>, first: nat, attempts: seq<AttemptRecord>, k: nat)
    requires Trace(p, jitter, first, attempts) && k < |attempts|
    ensures k < |attempts| - 1 ==> !attempts[k].outcome.MayHaveArrived() && p.WaitBounded(attempts[k].decision)
    ensures attempts[k].outcome.MayHaveArrived() <==> attempts[k].decision.Done? || attempts[k].decision.Unproven?
    ensures first + |attempts| <= p.maxAttempts + 1
  {
    WaitIffSafe(p, attempts[k].number, attempts[k].outcome, jitter);
    assert attempts[|attempts| - 1].number == first + |attempts| - 1;
  }

  ghost predicate AllWait(attempts: seq<AttemptRecord>) {
    forall k :: 0 <= k < |attempts| ==> attempts[k].decision.Wait?
  }

  /** The outcomes are the transport's answers from request `offset` on. */
  ghost predicate Answered(answers: nat -> TransportOutcome, offset: nat, attempts: seq<AttemptRecord>) {
    forall k :: 0 <= k < |attempts| ==> attempts[k].outcome == answers(offset + k)
  }

  /** How a run ends: refused before any request, stopped by the clock after a wait, or with a final decision. */
  ghost predicate Ended(p: RetryPolicy, first: nat, made: seq<AttemptRecord>, r: Result<RunResult, RunError>) {
    if first == 0 || first > p.maxAttempts then made == [] && r == Failure(InvalidStartAttempt(first))
    else
      made != [] &&
      var last := made[|made| - 1];
      if last.decision.Wait? then r == Failure(ClockFailed)
      else r == Success(RunResult(|made|, last.number, made, last.decision))
  }

  /** Since `before`, the transport was asked with the numbers of these attempts. */
  ghost predicate Sent(before: seq<nat>, now: seq<nat>, attempts: seq<AttemptRecord>) {
    |now| == |before| + |attempts| && now[..|before|] == before
    && forall k :: 0 <= k < |attempts| ==> now[|before| + k] == attempts[k].number
  }

  /** Since `before`, the clock waited for the delays these attempts asked for. */
  ghost predicate Waited(before: seq<nat>, now: seq<nat>, attempts: seq<AttemptRecord>) {
    |now| == |before| +
      (if attempts == [] || attempts[|attempts| - 1].decision.Wait? then |attempts| else |attempts| - 1)
    && now[..|before|] == before
    && forall k :: 0 <= k < |now| - |before| ==>
      attempts[k].decision.Wait? && now[|before| + k] == attempts[k].decision.delay
  }

  /** The other end of the wire: an arbitrary answer to each request, and the numbers it was asked with. */
  class Transport {
    const answers: nat -> TransportOutcome
    var sent: seq<nat>

    constructor (answers: nat -> TransportOutcome)
      ensures this.answers == answers && sent == []
    {
      this.answers := answers;
      sent := [];
    }

    method SendAttempt(number: nat) returns (outcome: TransportOutcome)
      modifies this
      ensures sent == old(sent) + [number] && outcome == answers(|old(sent)|)
    {
      outcome := answers(|sent|);
      sent := sent + [number];
    }
  }

  /** A clock that may fail any wait. */
  class Clock {
    const broken: nat -> bool
    var waits: seq<nat>

    constructor (broken: nat -> bool)
      ensures this.broken == broken && waits == []
    {
      this.broken := broken;
      waits := [];
    }

    method WaitFor(delay: nat) returns (ok: bool)
      modifies this
      ensures waits == old(waits) + [delay] && ok == !broken(|old(waits)|)
    {
      ok := !broken(|waits|);
      waits := waits + [delay];
    }
  }

  datatype RoundEnd = Final | OverLimit | ClockBroken | Again

  /** Transport and clock have seen exactly these attempts. */
  ghost predicate Wired(answers: nat -> TransportOutcome, sentBefore: seq<nat>, sent: seq<nat>, waitsBefore: seq<nat>,
                        waits: seq<nat>, attempts: seq<AttemptRecord>)
  {
    Sent(sentBefore, sent, attempts) && Waited(waitsBefore, waits, attempts)
      && Answered(answers, |sentBefore|, attempts)
  }

  lemma WiredNext(answers: nat -> TransportOutcome, sentBefore: seq<nat>, sent: seq<nat>, sent': seq<nat>,
                  waitsBefore: seq<nat>, waits: seq<nat>, waits': seq<nat>, attempts: seq<AttemptRecord>,
                  record: AttemptRecord)
    requires Sent(sentBefore, sent, attempts) && Waited(waitsBefore, waits, attempts)
             && Answered(answers, |sentBefore|, attempts)
    requires AllWait(attempts) && sent' == sent + [record.number] && record.outcome == answers(|sent|)
    requires waits' == if record.decision.Wait? then waits + [record.decision.delay] else waits
    ensures var next := attempts + [record];
            Sent(sentBefore, sent', next) && Waited(waitsBefore, waits', next) && Answered(answers, |sentBefore|, next)
  {
  }

  /** The loop goes on after nothing but waits; otherwise it has ended. */
  ghost predicate Going(p: RetryPolicy, jitter: Option<nat>, first: nat, attempts: seq<AttemptRecord>,
                        attemptNumber: nat, end: RoundEnd, r: Result<RunResult, RunError>)
  {
    && Trace(p, jitter, first, attempts)
    && if end.Again? then AllWait(attempts) && attemptNumber == first + |attempts| <= p.maxAttempts
       else Ended(p, first, attempts, r)
  }

  /** What a round's end means for the run, whose attempts now are `next`. */
  function AfterRound(end: RoundEnd, next: seq<AttemptRecord>, record: AttemptRecord, r: Result<RunResult, RunError>):
      Result<RunResult, RunError>
  {
    match end
    case Final => Success(RunResult(|next|, record.number, next, record.decision))
    case OverLimit => Failure(AttemptLimitReached)
    case ClockBroken => Failure(ClockFailed)
    case Again => r
  }

  lemma RoundGoesOn(p: RetryPolicy, jitter: Option<nat>, first: nat, attempts: seq<AttemptRecord>,
                    record: AttemptRecord, end: RoundEnd, r: Result<RunResult, RunError>)
    requires Going(p, jitter, first, attempts, record.number, Again, r) && 1 <= first
    requires record.decision == p.Classify(record.number, record.outcome, jitter)
    requires if record.decision.Wait? then end.ClockBroken? || end.Again? else end.Final?
    ensures var next := attempts + [record];
            Going(p, jitter, first, next, if end.Again? then record.decision.nextAttempt else record.number, end,
                  AfterRound(end, next, record, r))
    ensures end.Again? ==> record.decision.nextAttempt == record.number + 1 <= p.maxAttempts
    ensures |attempts| < MAX_TRANSPORT_ATTEMPTS
  {
  }

  class RetryRunner {
    const policy: RetryPolicy
    const jitter: Option<nat>
    const clock: Clock

    constructor (policy: RetryPolicy, jitter: Option<nat>, clock: Clock)
      ensures this.policy == policy && this.jitter == jitter && this.clock == clock
    {
      this.policy, this.jitter, this.clock := policy, jitter, clock;
    }

    /** Sends until a decision is final. The limit inside the loop is never reached. */
    method Run(transport: Transport, first: nat)
        returns (r: Result<RunResult, RunError>, ghost made: seq<AttemptRecord>)
      modifies transport, clock
      ensures Trace(policy, jitter, first, made) && Ended(policy, first, made, r)
      ensures Sent(old(transport.sent), transport.sent, made)
      ensures Answered(transport.answers, |old(transport.sent)|, made)
      ensures Waited(old(clock.waits), clock.waits, made)
    {
      if first == 0 || first > policy.maxAttempts { return Failure(InvalidStartAttempt(first)), []; }
      var attemptNumber := first;
      var attempts: seq<AttemptRecord> := [];
      r := Failure(AttemptLimitReached);
      var end := Again;
      while end.Again?
        invariant Wired(transport.answers, old(transport.sent), transport.sent, old(clock.waits), clock.waits, attempts)
        invariant Going(policy, jitter, first, attempts, attemptNumber, end, r)
        decreases policy.maxAttempts - attemptNumber, end.Again?
      {
        ghost var sent, waits := transport.sent, clock.waits;
        var record;
        record, end := Round(transport, attemptNumber);
        WiredNext(transport.answers, old(transport.sent), sent, transport.sent, old(clock.waits), waits, clock.waits,
                  attempts, record);
        RoundGoesOn(policy, jitter, first, attempts, record, end, r);
        if |attempts| > MAX_U8 { return Failure(AttemptLimitReached), attempts; }
        var requestCount := |attempts| + 1;
        attempts := attempts + [record];
        match end
        case Final => r := Success(RunResult(requestCount, attemptNumber, attempts, record.decision));
        case OverLimit => r := Failure(AttemptLimitReached);
        case ClockBroken => r := Failure(ClockFailed);
        case Again => attemptNumber := record.decision.nextAttempt;
      }
      made := attempts;
    }

    /** One request, its decision, and the wait it asks for. */
    method Round(transport: Transport, number: nat) returns (record: AttemptRecord, end: RoundEnd)
      requires 1 <= number <= policy.maxAttempts
      modifies transport, clock
      ensures record == AttemptRecord(number, transport.answers(|old(transport.sent)|),
                                      policy.Classify(number, transport.answers(|old(transport.sent)|), jitter))
      ensures transport.sent == old(transport.sent) + [number]
      ensures clock.waits == if record.decision.Wait? then old(clock.waits) + [record.decision.delay]
              else old(clock.waits)
      ensures end == if !record.decision.Wait? then Final else if clock.broken(|old(clock.waits)|) then ClockBroken
              else Again
    {
      var outcome := transport.SendAttempt(number);
      var decision := policy.Classify(number, outcome, jitter);
      WaitIffSafe(policy, number, outcome, jitter);
      record := AttemptRecord(number, outcome, decision);
      if !decision.Wait? { return record, Final; }
      if decision.nextAttempt > policy.maxAttempts || decision.nextAttempt <= number { return record, OverLimit; }
      var ok := clock.WaitFor(decision.delay);
      end := if ok then Again else ClockBroken;
    }

    /** `run_after_claim`: the attempt of a permit decides where the numbering starts. */
    method RunRecordedAttempt(transport: Transport, attempt: DeliveryAttempt)
      returns (r: Result<RunResult, RunError>, ghost made: seq<AttemptRecord>)
      modifies transport, clock
      ensures match FirstNumber(attempt)
              case Failure(e) => r == Failure(e) && made == []
              case Success(first) => Trace(policy, jitter, first, made) && Ended(policy, first, made, r)
      ensures Sent(old(transport.sent), transport.sent, made)
      ensures Answered(transport.answers, |old(transport.sent)|, made)
      ensures Waited(old(clock.waits), clock.waits, made)
    {
      made := [];
      var first := attempt.number;
      if attempt.state.Claimed? {
        if attempt.number > MAX_U8 { return Failure(AttemptLimitReached), []; }
      } else if attempt.state.RetryWait? {
        if attempt.number >= MAX_U8 { return Failure(AttemptLimitReached), []; }
        first := attempt.number + 1;
      } else {
        return Failure(BlockedState(attempt.state)), [];
      }
      r, made := Run(transport, first);
    }
  }

  /** Only an attempt that is claimed, or waits for a retry, may be run, if its number fits eight bits. */
  function FirstNumber(attempt: DeliveryAttempt): (r: Result<nat, RunError>)
    ensures r.Success? <==> || (attempt.state.Claimed? && attempt.number <= MAX_U8)
                            || (attempt.state.RetryWait? && attempt.number < MAX_U8)
    ensures r.Success? ==> r.value <= MAX_U8
    ensures r == Failure(BlockedState(attempt.state)) <==> !attempt.state.Claimed? && !attempt.state.RetryWait?
  {
    if attempt.state.Claimed? && attempt.number <= MAX_U8 then Success(attempt.number)
    else if attempt.state.RetryWait? && attempt.number < MAX_U8 then Success(attempt.number + 1)
    else if attempt.state.Claimed? || attempt.state.RetryWait? then Failure(AttemptLimitReached)
    else Failure(BlockedState(attempt.state))
  }
}
