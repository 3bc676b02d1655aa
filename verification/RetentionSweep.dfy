/** Retention sweep and purge on the delivery tables: one cutoff for the attempt rows and the log rows of a
    repository. */
module RetentionSweep {
  import opened Wrappers
  import opened Text
  import opened Delivery
  import opened DeliverySafety
  import opened DeliveryRuns
  import opened DeliveryProgress
  import opened DeliveryDeletion
  import opened RetentionTime
  import opened Timestamps
  import DeliveryLog

  /** The sweep compares nanoseconds with the cutoff, the purge whole seconds. */
  datatype Cleaner = Sweep | Purge {
    predicate Removes(v: string, cutoff: nat) { if Sweep? then Expired(v, cutoff) else Eligible(v, cutoff) }
  }

  /** A run of a cleaner: also the attempts of the drafts that it removes go, whatever their time, and log rows of other
      objects as it likes, unless it fails over other tables. */
  datatype Job = Job(cleaner: Cleaner, repository: string, cutoff: nat, drafts: set<string>, keepsOther: Event -> bool,
                     fails: bool)
  {
    /** The time of the attempt matters. */
    predicate Asks(row: Row) { row.key.repository == repository && row.key.draft !in drafts }

    predicate KeepsRow(row: Row) {
      row.key.repository != repository || (Asks(row) && !cleaner.Removes(row.claimedAt, cutoff))
    }

    predicate KeepsEvent(e: Event) {
      if e.AttemptEvent? then e.repository != repository || !cleaner.Removes(e.occurredAt, cutoff) else keepsOther(e)
    }

    function Removal(): Deletion { Deletion((row: Row) => KeepsRow(row), (e: Event) => KeepsEvent(e)) }
  }

  /** The parser reads every time it is asked for. */
  ghost predicate Succeeds(s: Store, job: Job) {
    && !job.fails
    && (forall i :: 0 <= i < |s.rows| && job.Asks(s.rows[i]) ==> ParseNanos(s.rows[i].claimedAt).Some?)
    && (forall k :: 0 <= k < |s.log| && s.log[k].AttemptEvent? && s.log[k].repository == job.repository ==>
          ParseNanos(s.log[k].occurredAt).Some?)
  }

  /** The store after the job: a time that cannot be read makes the whole transaction fail. */
  ghost function Cleaned(s: Store, job: Job): Store {
    if Succeeds(s, job) then Deleted(s, job.Removal()) else s
  }

  // ---------- the times of a reachable store ----------

  predicate TimedRow(row: Row) {
    && IsUtcTimestamp(row.claimedAt)
    && (row.completedAt.Some? ==>
          IsUtcTimestamp(row.completedAt.value) && !LexLess(row.completedAt.value, row.claimedAt))
  }

  ghost predicate TimedRows(rows: seq<Row>) { forall i :: 0 <= i < |rows| ==> TimedRow(rows[i]) }

  /** The coordinator accepts no other times than those of the audit crate. */
  ghost predicate UtcIsChecked(b: Boundary) { forall v :: b.utc(v) ==> IsUtcTimestamp(v) }

  lemma ClaimIsTimed(b: Boundary, w: World, q: ClaimRequest, retry: bool)
    requires WorldInv(b, w) && UtcIsChecked(b) && TimedRows(w.store.rows)
    ensures TimedRows(Step(b, w, Claim(q, retry)).store.rows)
  {
    ClaimIs(b, w, q, retry);
  }

  lemma TransitionIsTimed(b: Boundary, s: Store, q: TransitionRequest)
    requires Inv(b, s) && UtcIsChecked(b) && TimedRows(s.rows)
    ensures TimedRows(TransitionStep(b, s, q).0.rows)
  {
    if Recordable(b, s, q) {
      var i := FindRow(s.rows, q.key.repository, q.attemptId).value;
      RecordableIsRecorded(b, s, q, i);
      StampIsTimed(b, s, q, i);
    } else {
      UnrecordableIsRefused(b, s, q);
    }
  }

  lemma StampIsTimed(b: Boundary, s: Store, q: TransitionRequest, i: nat)
    requires UtcIsChecked(b) && TimedRows(s.rows) && i < |s.rows|
    requires b.utc(q.completedAt) && !LexLess(q.completedAt, s.rows[i].claimedAt)
    ensures TimedRows(Stamped(b, s, q, i).rows)
  {
    assert TimedRow(UpdatedRow(s.rows[i], q));
  }

  lemma {:induction false} RunIsTimed(b: Boundary, w: World, cs: seq<Command>)
    requires WorldInv(b, w) && UtcIsChecked(b) && TimedRows(w.store.rows)
    ensures TimedRows(Run(b, w, cs).store.rows)
    decreases |cs|
  {
    if cs != [] {
      match cs[0] {
        case Claim(q, retry) => ClaimIsTimed(b, w, q, retry);
        case Transition(q) => TransitionIsTimed(b, w.store, q);
        case OtherAudit(repository, eventId) =>
      }
      StepKeeps(b, w, cs[0]);
      RunIsTimed(b, Step(b, w, cs[0]), cs[1..]);
    }
  }

  // ---------- what a job does to the attempts it keeps ----------

  /** The job removes the outcome of the attempt from the log, though not its claim: the sweep at a cutoff at which the
      attempt was completed, and after which it had started. */
  predicate Splits(job: Job, row: Row)
    requires TimedRow(row)
  {
    && job.cleaner.Sweep? && row.key.repository == job.repository && row.completedAt.Some?
    && var started, completed := row.claimedAt, row.completedAt.value;
    && SameSecond(completed, started) && FractionExtends(completed, started)
    && Instant(completed) == job.cutoff as real && Instant(started) > job.cutoff as real
  }

  lemma ReadableWhenParsed(v: string)
    requires IsUtcTimestamp(v) && ParseNanos(v).Some?
    ensures Readable(v)
  {
    ReadsInstants(v);
  }

  /** Times of a kept attempt. */
  lemma OutcomeGoesExactlyIf(job: Job, row: Row)
    requires TimedRow(row) && row.completedAt.Some? && row.key.repository == job.repository && job.KeepsRow(row)
    requires ParseNanos(row.claimedAt).Some? && ParseNanos(row.completedAt.value).Some?
    ensures job.cleaner.Removes(row.completedAt.value, job.cutoff) <==> Splits(job, row)
  {
    ReadableWhenParsed(row.claimedAt);
    ReadableWhenParsed(row.completedAt.value);
    if job.cleaner.Sweep? {
      SplitExactlyIf(row.claimedAt, row.completedAt.value, job.cutoff);
    } else {
      PurgeNeverSplits(row.claimedAt, row.completedAt.value, job.cutoff);
    }
  }

  /** The log rows of an attempt carry its times. */
  lemma EventTimes(b: Boundary, s: Store, i: nat)
    requires Inv(b, s) && i < |s.rows|
    ensures var row := s.rows[i]; var events := EventsFor(s.log, row.key.repository, row.attemptId);
            && 1 <= |events| <= 2 && events[0].AttemptEvent? && events[0].occurredAt == row.claimedAt
            && (|events| == 1 ==> row.completedAt.None?)
            && (|events| == 2 ==> events[1].AttemptEvent? && row.completedAt == Some(events[1].occurredAt))
  {
    assert RowAgrees(b, s.log, s.rows[i]);
  }

  lemma EventIsReadable(s: Store, job: Job, repository: string, attemptId: string, k: nat)
    requires Succeeds(s, job) && repository == job.repository && k < |EventsFor(s.log, repository, attemptId)|
    ensures var e := EventsFor(s.log, repository, attemptId)[k]; e.AttemptEvent? && ParseNanos(e.occurredAt).Some?
  {
    var i := DeliveryLog.EventIsLogged(s.log, repository, attemptId, k);
  }

  lemma ClaimStays(job: Job, row: Row, e: Event)
    requires job.KeepsRow(row) && e.AttemptEvent? && e.repository == row.key.repository && e.occurredAt == row.claimedAt
    ensures job.KeepsEvent(e)
  {
  }

  lemma OutcomeStays(job: Job, row: Row, e: Event)
    requires TimedRow(row) && job.KeepsRow(row) && e.AttemptEvent? && e.repository == row.key.repository
    requires row.completedAt == Some(e.occurredAt)
    requires row.key.repository == job.repository ==>
               ParseNanos(row.claimedAt).Some? && ParseNanos(e.occurredAt).Some?
    ensures job.KeepsEvent(e) <==> !Splits(job, row)
  {
    if row.key.repository == job.repository { OutcomeGoesExactlyIf(job, row); }
  }

  /** The log rows of an attempt, with its times. */
  predicate LogFits(row: Row, events: seq<Event>) {
    && 1 <= |events| <= 2
    && (forall k :: 0 <= k < |events| ==> events[k].AttemptEvent? && events[k].repository == row.key.repository)
    && events[0].occurredAt == row.claimedAt
    && row.completedAt == if |events| == 1 then None else Some(events[1].occurredAt)
  }

  /** Of an attempt that it keeps, a job keeps the claim, and the outcome unless it splits it. */
  lemma KeptEventsAre(job: Job, row: Row, events: seq<Event>)
    requires TimedRow(row) && job.KeepsRow(row) && LogFits(row, events)
    requires row.key.repository == job.repository ==>
               && ParseNanos(row.claimedAt).Some?
               && (row.completedAt.Some? ==> ParseNanos(row.completedAt.value).Some?)
    ensures job.KeepsEvent(events[0])
    ensures if |events| == 1 then !Splits(job, row) else job.KeepsEvent(events[1]) <==> !Splits(job, row)
  {
    ClaimStays(job, row, events[0]);
    if |events| == 2 { OutcomeStays(job, row, events[1]); }
  }

  lemma JobOnAttempt(b: Boundary, s: Store, i: nat, job: Job)
    requires Inv(b, s) && i < |s.rows| && TimedRow(s.rows[i]) && Succeeds(s, job)
    requires job.KeepsRow(s.rows[i])
    ensures Load(Deleted(s, job.Removal()), s.rows[i]) == Load(s, s.rows[i]) <==> !Splits(job, s.rows[i])
  {
    var row := s.rows[i];
    var events := EventsFor(s.log, row.key.repository, row.attemptId);
    EventTimes(b, s, i);
    TimesAreReadable(b, s, i, job);
    KeptEventsAre(job, row, events);
    LoadsAsBefore(b, s, job.Removal(), i);
    SameIffKept(job.Removal(), events, Load(s, row), Load(Deleted(s, job.Removal()), row), Splits(job, row));
  }

  lemma SameIffKept(d: Deletion, events: seq<Event>, before: Result<DeliveryAttempt, Error>,
                    after: Result<DeliveryAttempt, Error>, split: bool)
    requires 1 <= |events| <= 2 && (forall k :: 0 <= k < |events| ==> events[k].AttemptEvent?)
    requires LoadedAfter(events, d, before, after) && d.keepsEvent(events[0])
    requires if |events| == 1 then !split else d.keepsEvent(events[1]) <==> !split
    ensures after == before <==> !split
  {
  }

  lemma TimesAreReadable(b: Boundary, s: Store, i: nat, job: Job)
    requires Inv(b, s) && i < |s.rows| && Succeeds(s, job) && job.KeepsRow(s.rows[i])
    ensures var row := s.rows[i];
            row.key.repository == job.repository ==>
              && ParseNanos(row.claimedAt).Some?
              && (row.completedAt.Some? ==> ParseNanos(row.completedAt.value).Some?)
  {
    var row := s.rows[i];
    EventTimes(b, s, i);
    if row.key.repository == job.repository && row.completedAt.Some? {
      EventIsReadable(s, job, row.key.repository, row.attemptId, 1);
    }
  }

  /** In every reachable store, each attempt that a sweep or purge keeps loads as before, but for those that the sweep
      splits: at a cutoff between completion and start, in one second. */
  lemma KeptAttemptsLoad(b: Boundary, cs: seq<Command>, i: nat, job: Job)
    requires UtcIsChecked(b) && i < |Run(b, Start, cs).store.rows|
    requires job.KeepsRow(Run(b, Start, cs).store.rows[i])
    ensures var s := Run(b, Start, cs).store;
            && TimedRow(s.rows[i])
            && (Load(Cleaned(s, job), s.rows[i]) == Load(s, s.rows[i])
                <==> !(Succeeds(s, job) && Splits(job, s.rows[i])))
  {
    Reachable(b, []);
    RunIsTimed(b, Start, cs);
    Reachable(b, cs);
    var s := Run(b, Start, cs).store;
    if Succeeds(s, job) { JobOnAttempt(b, s, i, job); }
  }

  /** Times that the coordinator accepts, and that no sweep or purge can read. */
  lemma AcceptedAndUnreadable(w: Wall, tail: string)
    requires FitsStamp(w) && 12 <= |tail| <= 45 && tail[0] == '.' && tail[|tail| - 1] == 'Z'
    requires AllDigits(tail[1..|tail| - 1])
    ensures IsUtcTimestamp(Stamp(w) + tail) && ParseNanos(Stamp(w) + tail) == None
  {
    FieldWidths(w);
    assert |Stamp(w)| == 19;
    SpelledIsAccepted(Stamp(w) + tail, w, tail);
    ManyDigitsAreUnreadable(Stamp(w) + tail);
  }

  lemma ManyDigitsAreUnreadable(v: string)
    requires IsUtcTimestamp(v) && |v| >= 31
    ensures ParseNanos(v) == None
  {
    ReadsInstants(v);
  }

  /** One attempt of the repository that started at such a time stops every job that does not remove its draft. */
  lemma UnreadableStopsEveryJob(s: Store, i: nat, job: Job)
    requires i < |s.rows| && job.Asks(s.rows[i])
    requires IsUtcTimestamp(s.rows[i].claimedAt) && !Readable(s.rows[i].claimedAt)
    ensures Cleaned(s, job) == s
  {
    ReadsInstants(s.rows[i].claimedAt);
  }
}
