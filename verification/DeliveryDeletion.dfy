/** Deletion of attempt rows and log rows by the retention sweep and the purge, between the steps of the protocol: which
    deletions keep a closed revision closed, and which leave the attempts that stay as they load. */
module DeliveryDeletion {
  import opened Wrappers
  import opened Text
  import opened Delivery
  import opened DeliverySafety
  import opened DeliveryRuns
  import opened DeliveryProgress

  /** What a deleting transaction keeps. */
  datatype Deletion = Deletion(keepsRow: Row -> bool, keepsEvent: Event -> bool)

  function KeptRows(rows: seq<Row>, d: Deletion): seq<Row> {
    if rows == [] then []
    else KeptRows(rows[..|rows| - 1], d) + if d.keepsRow(rows[|rows| - 1]) then [rows[|rows| - 1]] else []
  }

  function KeptEvents(log: seq<Event>, d: Deletion): seq<Event> {
    if log == [] then []
    else KeptEvents(log[..|log| - 1], d) + if d.keepsEvent(log[|log| - 1]) then [log[|log| - 1]] else []
  }

  function Deleted(s: Store, d: Deletion): Store { Store(KeptRows(s.rows, d), KeptEvents(s.log, d)) }

  datatype Act = Protocol(command: Command) | Delete(deletion: Deletion)

  function ActStep(b: Boundary, w: World, a: Act): World {
    match a
    case Protocol(c) => Step(b, w, c)
    case Delete(d) => w.(store := Deleted(w.store, d))
  }

  function ActRun(b: Boundary, w: World, acts: seq<Act>): World
    decreases |acts|
  {
    if acts == [] then w else ActRun(b, ActStep(b, w, acts[0]), acts[1..])
  }

  // ---------- what is kept ----------

  lemma {:induction false} RowIsKept(rows: seq<Row>, d: Deletion, i: nat) returns (j: nat)
    requires i < |rows| && d.keepsRow(rows[i])
    ensures j < |KeptRows(rows, d)| && KeptRows(rows, d)[j] == rows[i]
    decreases |rows|
  {
    var n := |rows| - 1;
    if i == n { j := |KeptRows(rows[..n], d)|; } else { j := RowIsKept(rows[..n], d, i); }
  }

  lemma {:induction false} KeptRowIs(rows: seq<Row>, d: Deletion, j: nat) returns (i: nat)
    requires j < |KeptRows(rows, d)|
    ensures i < |rows| && d.keepsRow(rows[i]) && KeptRows(rows, d)[j] == rows[i]
    decreases |rows|
  {
    var n := |rows| - 1;
    if j == |KeptRows(rows[..n], d)| { i := n; } else { i := KeptRowIs(rows[..n], d, j); }
  }

  lemma {:induction false} EventIsKept(log: seq<Event>, d: Deletion, i: nat) returns (j: nat)
    requires i < |log| && d.keepsEvent(log[i])
    ensures j < |KeptEvents(log, d)| && KeptEvents(log, d)[j] == log[i]
    decreases |log|
  {
    var n := |log| - 1;
    if i == n { j := |KeptEvents(log[..n], d)|; } else { j := EventIsKept(log[..n], d, i); }
  }

  /** The log of one attempt is thinned by itself. */
  lemma {:induction false} EventsKept(log: seq<Event>, d: Deletion, repository: string, attemptId: string)
    ensures EventsFor(KeptEvents(log, d), repository, attemptId) == KeptEvents(EventsFor(log, repository, attemptId), d)
    decreases |log|
  {
    if log != [] {
      var init, e := log[..|log| - 1], log[|log| - 1];
      EventsKept(init, d, repository, attemptId);
      EventsKeptNext(KeptEvents(init, d), EventsFor(init, repository, attemptId), d, repository, attemptId, e);
    }
  }

  lemma EventsKeptNext(kept: seq<Event>, events: seq<Event>, d: Deletion, repository: string, attemptId: string,
                       e: Event)
    requires EventsFor(kept, repository, attemptId) == KeptEvents(events, d)
    ensures EventsFor(kept + if d.keepsEvent(e) then [e] else [], repository, attemptId)
            == KeptEvents(events + if Concerns(e, repository, attemptId) then [e] else [], d)
  {
    if d.keepsEvent(e) { Appended(kept, e, repository, attemptId); } else { assert kept + [] == kept; }
    if Concerns(e, repository, attemptId) {
      assert (events + [e])[..|events|] == events;
    } else {
      assert events + [] == events;
    }
  }

  // ---------- sealed revisions ----------

  /** The number of the newest attempt of a revision that has a row; zero if there is none. */
  function Newest(s: Store, key: RevisionKey): nat {
    var i := LatestRow(s.rows, key);
    if i.Some? then s.rows[i.value].number else 0
  }

  /** No row of the revision is beyond number `n`, and at `n` only a closed one. */
  ghost predicate Bounded(s: Store, key: RevisionKey, n: nat) {
    forall i :: 0 <= i < |s.rows| && s.rows[i].key == key ==>
      s.rows[i].number <= n && (s.rows[i].number == n ==> s.rows[i].state.IsFinalOutcome())
  }

  /** The log has the claim of attempt `m` of the revision. */
  ghost predicate Logs(b: Boundary, s: Store, key: RevisionKey, m: nat) {
    HasEventId(s.log, key.repository, b.eventId(ClaimMaterial(key, m)))
  }

  /** A revision that was closed by its attempt `n`: the row of that attempt is there, or the log has the claim of the
      attempt that would be next. */
  ghost predicate Sealed(b: Boundary, s: Store, key: RevisionKey, n: nat) {
    Bounded(s, key, n) && (Newest(s, key) == n || Logs(b, s, key, Newest(s, key) + 1))
  }

  /** Either nothing happens, or a row of the claimed revision is appended and a permit issued. */
  ghost predicate ClaimShape(s: Store, q: ClaimRequest, s': Store, r: Result<ClaimResult, Error>) {
    if r.Success? && r.value.permit then
      && r.value.attempt.key == q.key && |s'.rows| == |s.rows| + 1 && s'.rows[..|s.rows|] == s.rows
      && s'.rows[|s.rows|].key == q.key && |s'.log| == |s.log| + 1 && s'.log[..|s.log|] == s.log
    else s' == s
  }

  lemma ClaimHasShape(b: Boundary, s: Store, q: ClaimRequest, retry: bool)
    ensures ClaimShape(s, q, ClaimStep(b, s, q, retry).0, ClaimStep(b, s, q, retry).1)
  {
    var latest := LatestRow(s.rows, q.key);
    if q.blocked.None? && q.key.revision <= MAX_I64 {
      if latest.None? {
        FirstHasShape(b, s, q, retry);
      } else if Load(s, s.rows[latest.value]).Success? {
        NextHasShape(b, s, q, retry, Load(s, s.rows[latest.value]).value);
      }
    }
  }

  lemma InsertHasShape(b: Boundary, s: Store, q: ClaimRequest, binding: Binding, number: nat, id: string, nonce: string)
    ensures var r := Committed(InsertClaim(b, s, q, binding, number, id, nonce), s); ClaimShape(s, q, r.0, r.1)
  {
  }

  lemma FirstHasShape(b: Boundary, s: Store, q: ClaimRequest, retry: bool)
    ensures ClaimShape(s, q, ClaimFirst(b, s, q, retry).0, ClaimFirst(b, s, q, retry).1)
  {
    if Revalidate(b, q).Success? {
      InsertHasShape(b, s, q, Revalidate(b, q).value, 1, q.attemptId, q.requestNonce);
    }
  }

  lemma NextHasShape(b: Boundary, s: Store, q: ClaimRequest, retry: bool, recorded: DeliveryAttempt)
    ensures ClaimShape(s, q, ClaimAfter(b, s, q, retry, recorded).0, ClaimAfter(b, s, q, retry, recorded).1)
  {
    var next := recorded.number + 1;
    if Revalidate(b, q).Success? {
      InsertHasShape(b, s, q, Revalidate(b, q).value, next, RetryAttemptId(q.attemptId, recorded.attemptId, next),
                     RetryNonce(q.contentNonce, next));
    }
  }

  lemma LogGrows(b: Boundary, s: Store, s': Store, key: RevisionKey, m: nat)
    requires |s.log| <= |s'.log| && s'.log[..|s.log|] == s.log && Logs(b, s, key, m)
    ensures Logs(b, s', key, m)
  {
    var i :| 0 <= i < |s.log| && s.log[i].repository == key.repository
             && s.log[i].eventId == b.eventId(ClaimMaterial(key, m));
    assert s'.log[..|s.log|][i] == s'.log[i];
  }

  /** No claim of a sealed revision gets a permit. */
  lemma SealedRefuses(b: Boundary, s: Store, q: ClaimRequest, retry: bool, n: nat)
    requires Sealed(b, s, q.key, n) && n > 0
    ensures Refused(s, ClaimStep(b, s, q, retry))
  {
    var latest := LatestRow(s.rows, q.key);
    if latest.None? {
      LoggedFirst(b, s, q, retry);
    } else if Load(s, s.rows[latest.value]).Success? {
      var recorded := Load(s, s.rows[latest.value]).value;
      if s.rows[latest.value].number == n {
        FinalIsNotWaiting(s, s.rows[latest.value]);
      } else {
        LoggedNext(b, s, q, retry, recorded);
      }
    }
  }

  /** Nothing happens, and no permit is issued. */
  predicate Refused(s: Store, result: (Store, Result<ClaimResult, Error>)) {
    result.0 == s && !(result.1.Success? && result.1.value.permit)
  }

  lemma LoggedInsert(b: Boundary, s: Store, q: ClaimRequest, binding: Binding, number: nat, id: string, nonce: string)
    requires Logs(b, s, q.key, number)
    ensures InsertClaim(b, s, q, binding, number, id, nonce).Failure?
  {
  }

  lemma LoggedFirst(b: Boundary, s: Store, q: ClaimRequest, retry: bool)
    requires Logs(b, s, q.key, 1)
    ensures Refused(s, ClaimFirst(b, s, q, retry))
  {
    if Revalidate(b, q).Success? {
      LoggedInsert(b, s, q, Revalidate(b, q).value, 1, q.attemptId, q.requestNonce);
    }
  }

  lemma LoggedNext(b: Boundary, s: Store, q: ClaimRequest, retry: bool, recorded: DeliveryAttempt)
    requires Logs(b, s, q.key, recorded.number + 1)
    ensures Refused(s, ClaimAfter(b, s, q, retry, recorded))
  {
    var next := recorded.number + 1;
    if Revalidate(b, q).Success? {
      LoggedInsert(b, s, q, Revalidate(b, q).value, next, RetryAttemptId(q.attemptId, recorded.attemptId, next),
                   RetryNonce(q.contentNonce, next));
    }
  }

  lemma FinalIsNotWaiting(s: Store, row: Row)
    requires row.state.IsFinalOutcome() && Load(s, row).Success?
    ensures !Load(s, row).value.state.RetryWait?
  {
  }

  lemma {:induction false} LatestRowAppended(rows: seq<Row>, row: Row, key: RevisionKey)
    requires row.key != key
    ensures LatestRow(rows + [row], key) == LatestRow(rows, key)
  {
    assert (rows + [row])[..|rows|] == rows;
  }

  lemma OtherClaimKeepsSeal(b: Boundary, s: Store, q: ClaimRequest, s': Store, r: Result<ClaimResult, Error>,
                            key: RevisionKey, n: nat)
    requires Sealed(b, s, key, n) && ClaimShape(s, q, s', r) && q.key != key
    ensures Sealed(b, s', key, n)
  {
    if s' != s {
      var row := s'.rows[|s.rows|];
      assert s'.rows == s.rows + [row];
      LatestRowAppended(s.rows, row, key);
      var i := LatestRow(s.rows, key);
      if Logs(b, s, key, Newest(s, key) + 1) { LogGrows(b, s, s', key, Newest(s, key) + 1); }
    }
  }

  /** A transition gives a claimed row its outcome, or does nothing. */
  ghost predicate TransitionShape(s: Store, q: TransitionRequest, s': Store) {
    || s' == s
    || exists i: nat :: TransitionAt(s, q, s', i)
  }

  predicate TransitionAt(s: Store, q: TransitionRequest, s': Store, i: nat) {
    && i < |s.rows| && s.rows[i].state.Claimed? && s'.rows == s.rows[i := UpdatedRow(s.rows[i], q)]
    && |s'.log| == |s.log| + 1 && s'.log[..|s.log|] == s.log
  }

  lemma ApplyHasShape(b: Boundary, s: Store, q: TransitionRequest, i: nat)
    requires i < |s.rows|
    ensures TransitionShape(s, q, ApplyTransition(b, s, q, i).0)
  {
    var s' := ApplyTransition(b, s, q, i).0;
    if s' != s { assert TransitionAt(s, q, s', i); }
  }

  lemma TransitionHasShape(b: Boundary, s: Store, q: TransitionRequest)
    ensures TransitionShape(s, q, TransitionStep(b, s, q).0)
  {
    var i := FindRow(s.rows, q.key.repository, q.attemptId);
    if i.Some? { ApplyHasShape(b, s, q, i.value); }
  }

  lemma {:induction false} LatestRowUpdated(rows: seq<Row>, i: nat, row: Row, key: RevisionKey)
    requires i < |rows| && row.key == rows[i].key && row.number == rows[i].number
    ensures LatestRow(rows[i := row], key) == LatestRow(rows, key)
    decreases |rows|
  {
    var n := |rows| - 1;
    var changed := rows[i := row];
    if i == n {
      assert changed[..n] == rows[..n];
    } else {
      assert changed[..n] == rows[..n][i := row];
      LatestRowUpdated(rows[..n], i, row, key);
    }
  }

  lemma TransitionKeepsSeal(b: Boundary, s: Store, q: TransitionRequest, s': Store, key: RevisionKey, n: nat)
    requires Sealed(b, s, key, n) && TransitionShape(s, q, s')
    ensures Sealed(b, s', key, n)
  {
    if s' != s {
      var i: nat :| TransitionAt(s, q, s', i);
      LatestRowUpdated(s.rows, i, UpdatedRow(s.rows[i], q), key);
      assert Newest(s', key) == Newest(s, key);
      if Logs(b, s, key, Newest(s, key) + 1) { LogGrows(b, s, s', key, Newest(s, key) + 1); }
    }
  }

  lemma PermitsNext(permits: seq<Permit>, p: Permit, key: RevisionKey)
    ensures PermitsFor(permits + [p], key) == PermitsFor(permits, key) + if p.key == key then [p] else []
  {
    assert (permits + [p])[..|permits|] == permits;
  }

  /** A step that keeps the seal: any step of the protocol, and a deletion after which it is still there. */
  ghost predicate Keeps(b: Boundary, s: Store, a: Act, key: RevisionKey, n: nat) {
    a.Delete? ==> Sealed(b, Deleted(s, a.deletion), key, n)
  }

  lemma SealStep(b: Boundary, w: World, a: Act, key: RevisionKey, n: nat)
    requires Sealed(b, w.store, key, n) && n > 0 && Keeps(b, w.store, a, key, n)
    ensures var w' := ActStep(b, w, a);
            Sealed(b, w'.store, key, n) && PermitsFor(w'.permits, key) == PermitsFor(w.permits, key)
  {
    match a
    case Delete(d) =>
    case Protocol(Claim(q, retry)) => SealClaim(b, w, q, retry, key, n);
    case Protocol(Transition(q)) =>
      TransitionHasShape(b, w.store, q);
      TransitionKeepsSeal(b, w.store, q, TransitionStep(b, w.store, q).0, key, n);
    case Protocol(OtherAudit(repository, eventId)) => SealAudit(b, w.store, OtherEvent(repository, eventId), key, n);
  }

  lemma SealAudit(b: Boundary, s: Store, e: Event, key: RevisionKey, n: nat)
    requires Sealed(b, s, key, n)
    ensures Sealed(b, Store(s.rows, s.log + [e]), key, n)
  {
    var s' := Store(s.rows, s.log + [e]);
    assert Newest(s', key) == Newest(s, key);
    if Logs(b, s, key, Newest(s, key) + 1) { LogGrows(b, s, s', key, Newest(s, key) + 1); }
  }

  lemma SealClaim(b: Boundary, w: World, q: ClaimRequest, retry: bool, key: RevisionKey, n: nat)
    requires Sealed(b, w.store, key, n) && n > 0
    ensures var w' := Step(b, w, Claim(q, retry));
            Sealed(b, w'.store, key, n) && PermitsFor(w'.permits, key) == PermitsFor(w.permits, key)
  {
    var (s, r) := ClaimStep(b, w.store, q, retry);
    if q.key == key {
      SealedRefuses(b, w.store, q, retry, n);
      assert w.permits + [] == w.permits;
    } else {
      ClaimHasShape(b, w.store, q, retry);
      OtherClaimKeepsSeal(b, w.store, q, s, r, key, n);
      if r.Success? && r.value.permit {
        PermitsNext(w.permits, Permit(r.value.attempt.key, r.value.attempt.attemptId, r.value.attempt.number), key);
      } else {
        assert w.permits + [] == w.permits;
      }
    }
  }

  /** Each deletion of the run leaves the seal. */
  ghost predicate Spared(b: Boundary, w: World, acts: seq<Act>, key: RevisionKey, n: nat)
    decreases |acts|
  {
    acts != [] ==> Keeps(b, w.store, acts[0], key, n) && Spared(b, ActStep(b, w, acts[0]), acts[1..], key, n)
  }

  lemma {:induction false} SealedForever(b: Boundary, w: World, acts: seq<Act>, key: RevisionKey, n: nat)
    requires Sealed(b, w.store, key, n) && n > 0 && Spared(b, w, acts, key, n)
    ensures var w' := ActRun(b, w, acts);
            Sealed(b, w'.store, key, n) && PermitsFor(w'.permits, key) == PermitsFor(w.permits, key)
    decreases |acts|
  {
    if acts != [] {
      SealStep(b, w, acts[0], key, n);
      SealedForever(b, ActStep(b, w, acts[0]), acts[1..], key, n);
    }
  }

  // ---------- closed revisions ----------

  lemma RowOfRevision(b: Boundary, s: Store, i: nat)
    requires Inv(b, s) && i < |s.rows|
    ensures var a := AttemptsOf(s.rows, s.rows[i].key);
            1 <= s.rows[i].number <= |a| && a[s.rows[i].number - 1] == s.rows[i]
  {
    assert Numbered(s, s.rows[i].key);
    NumberedRow(s, i);
  }

  lemma NumberedRow(s: Store, i: nat)
    requires i < |s.rows| && Numbered(s, s.rows[i].key)
    ensures var a := AttemptsOf(s.rows, s.rows[i].key);
            1 <= s.rows[i].number <= |a| && a[s.rows[i].number - 1] == s.rows[i]
  {
    Updated(s.rows, i, s.rows[i], s.rows[i].key);
  }

  lemma StateIsInRow(b: Boundary, s: Store, i: nat)
    requires RowsAgree(b, s) && i < |s.rows| && StateOf(s.log, s.rows[i]).IsFinalOutcome()
    ensures s.rows[i].state.IsFinalOutcome()
  {
    assert RowAgrees(b, s.log, s.rows[i]);
  }

  /** The revision ends with this closed row of number `n`. */
  ghost predicate EndsWith(s: Store, key: RevisionKey, n: nat, row: Row) {
    && n > 0 && row.key == key && row.number == n && row.state.IsFinalOutcome()
    && (exists i :: 0 <= i < |s.rows| && s.rows[i] == row)
    && forall i :: 0 <= i < |s.rows| && s.rows[i].key == key ==>
         s.rows[i].number <= n && (s.rows[i].number == n ==> s.rows[i] == row)
  }

  /** Each row of the revision stands at its number. */
  ghost predicate Ranked(s: Store, key: RevisionKey, a: seq<Row>) {
    forall i :: 0 <= i < |s.rows| && s.rows[i].key == key ==>
      1 <= s.rows[i].number <= |a| && a[s.rows[i].number - 1] == s.rows[i]
  }

  lemma AllRanked(b: Boundary, s: Store, key: RevisionKey)
    requires Inv(b, s)
    ensures Ranked(s, key, AttemptsOf(s.rows, key))
  {
    forall i | 0 <= i < |s.rows| && s.rows[i].key == key
      ensures var a := AttemptsOf(s.rows, key); 1 <= s.rows[i].number <= |a| && a[s.rows[i].number - 1] == s.rows[i]
    {
      RowOfRevision(b, s, i);
    }
  }

  lemma RankedEnds(s: Store, key: RevisionKey, a: seq<Row>, last: nat)
    requires Ranked(s, key, a) && a != [] && last < |s.rows| && s.rows[last] == a[|a| - 1]
    requires s.rows[last].key == key && s.rows[last].number == |a| && s.rows[last].state.IsFinalOutcome()
    ensures EndsWith(s, key, |a|, a[|a| - 1])
  {
  }

  lemma LastNumber(b: Boundary, s: Store, key: RevisionKey, a: seq<Row>)
    requires Inv(b, s) && a == AttemptsOf(s.rows, key) && a != []
    ensures a[|a| - 1].number == |a| && a[|a| - 1].key == key
  {
    assert Numbered(s, key);
  }

  lemma LastRow(b: Boundary, s: Store, key: RevisionKey, a: seq<Row>) returns (last: nat)
    requires Inv(b, s) && a == AttemptsOf(s.rows, key) && a != []
    requires StateOf(s.log, a[|a| - 1]).IsFinalOutcome()
    ensures last < |s.rows| && s.rows[last] == a[|a| - 1] && s.rows[last].state.IsFinalOutcome()
  {
    last := Member(s.rows, key, |a| - 1);
    StateIsInRow(b, s, last);
  }

  lemma ClosedEnds(b: Boundary, s: Store, key: RevisionKey, a: seq<Row>)
    requires Inv(b, s) && Closed(s, key) && a == AttemptsOf(s.rows, key)
    ensures a != [] && EndsWith(s, key, |a|, a[|a| - 1])
  {
    var last := LastRow(b, s, key, a);
    LastNumber(b, s, key, a);
    AllRanked(b, s, key);
    RankedEnds(s, key, a, last);
  }

  lemma BoundedAfter(s: Store, d: Deletion, key: RevisionKey, n: nat)
    requires Bounded(s, key, n)
    ensures Bounded(Deleted(s, d), key, n)
  {
    var s' := Deleted(s, d);
    forall j | 0 <= j < |s'.rows| && s'.rows[j].key == key
      ensures s'.rows[j].number <= n && (s'.rows[j].number == n ==> s'.rows[j].state.IsFinalOutcome())
    {
      var i := KeptRowIs(s.rows, d, j);
    }
  }

  lemma EndIsNewest(s: Store, d: Deletion, key: RevisionKey, n: nat, row: Row)
    requires EndsWith(s, key, n, row)
    ensures Newest(Deleted(s, d), key) == n <==> d.keepsRow(row)
  {
    var s' := Deleted(s, d);
    BoundedAfter(s, d, key, n);
    if d.keepsRow(row) {
      var i :| 0 <= i < |s.rows| && s.rows[i] == row;
      var j := RowIsKept(s.rows, d, i);
    }
    if Newest(s', key) == n {
      var i := KeptRowIs(s.rows, d, LatestRow(s'.rows, key).value);
    }
  }

  lemma EndIsSealed(b: Boundary, s: Store, key: RevisionKey, n: nat, row: Row)
    requires EndsWith(s, key, n, row)
    ensures Sealed(b, s, key, n)
  {
    var i :| 0 <= i < |s.rows| && s.rows[i] == row;
  }

  lemma SealedAfter(b: Boundary, s: Store, d: Deletion, key: RevisionKey, n: nat, row: Row)
    requires EndsWith(s, key, n, row)
    ensures var s' := Deleted(s, d);
            Sealed(b, s', key, n) <==> d.keepsRow(row) || Logs(b, s', key, Newest(s', key) + 1)
  {
    BoundedAfter(s, d, key, n);
    EndIsNewest(s, d, key, n, row);
  }

  /** After a deletion a closed revision is still sealed exactly if the row of its last attempt is kept, or the log row
      of the claim whose number comes after the rows that are. */
  lemma SealedExactlyIf(b: Boundary, s: Store, d: Deletion, key: RevisionKey, a: seq<Row>)
    requires Inv(b, s) && Closed(s, key) && a == AttemptsOf(s.rows, key)
    ensures a != []
    ensures var s' := Deleted(s, d);
            Sealed(b, s', key, |a|) <==> d.keepsRow(a[|a| - 1]) || Logs(b, s', key, Newest(s', key) + 1)
  {
    ClosedEnds(b, s, key, a);
    SealedAfter(b, s, d, key, |a|, a[|a| - 1]);
  }

  lemma ClosedIsSealed(b: Boundary, s: Store, key: RevisionKey, a: seq<Row>)
    requires Inv(b, s) && Closed(s, key) && a == AttemptsOf(s.rows, key)
    ensures a != [] && Sealed(b, s, key, |a|)
  {
    ClosedEnds(b, s, key, a);
    EndIsSealed(b, s, key, |a|, a[|a| - 1]);
  }

  /** A revision that is closed in a reachable world gets no further permit, whatever is claimed, recorded and deleted
      from then on, as long as each deletion leaves it sealed. */
  lemma ClosedDespiteDeletions(b: Boundary, cs: seq<Command>, w: World, acts: seq<Act>, key: RevisionKey)
    requires w == Run(b, Start, cs) && Closed(w.store, key)
    requires Spared(b, w, acts, key, |AttemptsOf(w.store.rows, key)|)
    ensures PermitsFor(ActRun(b, w, acts).permits, key) == PermitsFor(w.permits, key)
  {
    Reachable(b, cs);
    ClosedIsSealed(b, w.store, key, AttemptsOf(w.store.rows, key));
    SealedForever(b, w, acts, key, |AttemptsOf(w.store.rows, key)|);
  }

  // ---------- claims in any store ----------

  /** Attempt numbers are positive. */
  ghost predicate Positive(s: Store) { forall i :: 0 <= i < |s.rows| ==> s.rows[i].number > 0 }

  /** The claim is for the attempt after the newest row, which must load as waiting, with the content and the authority
      of this claim; or for the first if there is no row. */
  ghost predicate DueAnywhere(b: Boundary, s: Store, q: ClaimRequest, retry: bool) {
    && Admitted(b, q)
    && match LatestRow(s.rows, q.key)
       case None =>
         !retry && q.requestNonce == q.contentNonce != []
         && Free(b, s, q, 1, EffectiveAttemptId(q, q.attemptId), q.requestNonce)
       case Some(i) =>
         var next, loaded := s.rows[i].number + 1, Load(s, s.rows[i]);
         && retry && loaded.Success? && loaded.value.state.RetryWait?
         && loaded.value.contentNonce == q.contentNonce && loaded.value.binding == Revalidate(b, q).value
         && Free(b, s, q, next, EffectiveAttemptId(q, RetryAttemptId(q.attemptId, s.rows[i].attemptId, next)),
                 RetryNonce(q.contentNonce, next))
  }

  /** The number after the newest row is not taken. */
  lemma NextIsFree(s: Store, q: ClaimRequest, id: string, nonce: string)
    ensures CanInsert(s.rows, NewRow(q, Newest(s, q.key) + 1, id, nonce))
      <==> IdFree(s.rows, q.key.repository, id) && NonceFree(s.rows, q.key.repository, nonce)
  {
    var row := NewRow(q, Newest(s, q.key) + 1, id, nonce);
    if IdFree(s.rows, q.key.repository, id) && NonceFree(s.rows, q.key.repository, nonce) {
      forall i | 0 <= i < |s.rows|
        ensures !IsAttempt(s.rows[i], row.key.repository, row.attemptId)
        ensures !(s.rows[i].key == row.key && s.rows[i].number == row.number)
        ensures !(s.rows[i].key.repository == row.key.repository && s.rows[i].claimNonce == row.claimNonce)
      {
      }
    }
  }

  predicate Permitted(r: Result<ClaimResult, Error>) { r.Success? && r.value.permit }

  lemma FirstAnywhere(b: Boundary, s: Store, q: ClaimRequest, retry: bool)
    requires LatestRow(s.rows, q.key).None?
    ensures Permitted(ClaimStep(b, s, q, retry).1) <==> DueAnywhere(b, s, q, retry)
  {
    var id := EffectiveAttemptId(q, q.attemptId);
    NextIsFree(s, q, id, q.requestNonce);
    if Admitted(b, q) {
      InsertIs(b, s, q, Revalidate(b, q).value, 1, q.attemptId, q.requestNonce);
    }
  }

  lemma NextAnywhere(b: Boundary, s: Store, q: ClaimRequest, retry: bool, recorded: DeliveryAttempt)
    requires Positive(s) && LatestRow(s.rows, q.key).Some? && Admitted(b, q)
    requires Load(s, s.rows[LatestRow(s.rows, q.key).value]) == Success(recorded)
    ensures Permitted(ClaimAfter(b, s, q, retry, recorded).1) <==> DueAnywhere(b, s, q, retry)
  {
    var row := s.rows[LatestRow(s.rows, q.key).value];
    var next := row.number + 1;
    var requested := RetryAttemptId(q.attemptId, row.attemptId, next);
    NextIsFree(s, q, EffectiveAttemptId(q, requested), RetryNonce(q.contentNonce, next));
    if next <= MAX_U64 {
      InsertIs(b, s, q, Revalidate(b, q).value, next, requested, RetryNonce(q.contentNonce, next));
    }
  }

  /** In any store whatever, deletions of any kind included, a claim is granted exactly when it is due. */
  lemma GrantedAnywhere(b: Boundary, s: Store, q: ClaimRequest, retry: bool)
    requires Positive(s)
    ensures Permitted(ClaimStep(b, s, q, retry).1) <==> DueAnywhere(b, s, q, retry)
  {
    var latest := LatestRow(s.rows, q.key);
    if latest.None? {
      FirstAnywhere(b, s, q, retry);
    } else if Admitted(b, q) && Load(s, s.rows[latest.value]).Success? {
      NextAnywhere(b, s, q, retry, Load(s, s.rows[latest.value]).value);
    }
  }

  // ---------- loading ----------

  function LastClaim(events: seq<Event>): Option<Event> {
    if events == [] then None
    else
      var last := events[|events| - 1];
      if last.AttemptEvent? && last.transition.Claimed? then Some(last) else LastClaim(events[..|events| - 1])
  }

  lemma {:induction false} LatestClaimIsLast(log: seq<Event>, repository: string, attemptId: string)
    ensures LatestEventOfType(log, repository, attemptId, Claimed) == LastClaim(EventsFor(log, repository, attemptId))
    decreases |log|
  {
    if log != [] {
      var init, e := log[..|log| - 1], log[|log| - 1];
      LatestClaimIsLast(init, repository, attemptId);
      var front := EventsFor(init, repository, attemptId);
      if Concerns(e, repository, attemptId) {
        assert (front + [e])[..|front|] == front;
      } else {
        assert front + [] == front;
      }
    }
  }

  /** Claim and outcome of an attempt, or its claim alone. */
  predicate LogOf(events: seq<Event>, row: Row) {
    && 1 <= |events| <= 2 && events[0].AttemptEvent? && events[0].transition.Claimed?
    && (|events| == 2 ==> events[1].AttemptEvent? && !events[1].transition.Claimed?)
    && row.state == (if |events| == 1 || events[1].transition.RetryWait? then Claimed else events[1].transition)
    && (|events| == 2 ==> events[1].metadata.number == row.number) && events[0].metadata.number == row.number
  }

  lemma AgreedLog(b: Boundary, s: Store, i: nat)
    requires Inv(b, s) && i < |s.rows|
    ensures LogOf(EventsFor(s.log, s.rows[i].key.repository, s.rows[i].attemptId), s.rows[i])
  {
    assert RowAgrees(b, s.log, s.rows[i]);
  }

  lemma KeptOfOne(events: seq<Event>, d: Deletion)
    requires |events| == 1
    ensures KeptEvents(events, d) == if d.keepsEvent(events[0]) then events else []
  {
    assert KeptEvents(events[..0], d) == [];
  }

  lemma KeptOfTwo(events: seq<Event>, d: Deletion)
    requires |events| == 2
    ensures KeptEvents(events, d) == (if d.keepsEvent(events[0]) then [events[0]] else [])
                                     + (if d.keepsEvent(events[1]) then [events[1]] else [])
  {
    KeptOfOne(events[..1], d);
  }

  lemma NothingLoads(s: Store, row: Row)
    requires LastClaim(EventsFor(s.log, row.key.repository, row.attemptId)).None?
    ensures Load(s, row) == Failure(CorruptAttempt)
  {
    LatestClaimIsLast(s.log, row.key.repository, row.attemptId);
  }

  lemma SameLogSameLoad(s: Store, s': Store, row: Row)
    requires EventsFor(s.log, row.key.repository, row.attemptId)
             == EventsFor(s'.log, row.key.repository, row.attemptId)
    ensures Load(s, row) == Load(s', row)
  {
    LatestClaimIsLast(s.log, row.key.repository, row.attemptId);
    LatestClaimIsLast(s'.log, row.key.repository, row.attemptId);
    LatestIsLast(s.log, row.key.repository, row.attemptId);
    LatestIsLast(s'.log, row.key.repository, row.attemptId);
  }

  lemma ClaimAloneLoads(s: Store, row: Row, claim: Event)
    requires EventsFor(s.log, row.key.repository, row.attemptId) == [claim]
    requires claim.AttemptEvent? && claim.transition.Claimed? && claim.metadata.number == row.number
    ensures if row.state.Claimed? then Load(s, row).Success? && Load(s, row).value.state.Claimed?
            else Load(s, row) == Failure(CorruptAttempt)
  {
    LatestClaimIsLast(s.log, row.key.repository, row.attemptId);
    LatestIsLast(s.log, row.key.repository, row.attemptId);
  }

  lemma BothLoad(s: Store, row: Row, events: seq<Event>)
    requires EventsFor(s.log, row.key.repository, row.attemptId) == events && LogOf(events, row)
    ensures Load(s, row).Success? && Load(s, row).value.state == events[|events| - 1].transition
  {
    LatestClaimIsLast(s.log, row.key.repository, row.attemptId);
    LatestIsLast(s.log, row.key.repository, row.attemptId);
    if |events| == 2 { assert LastClaim(events[..1]) == Some(events[0]); }
  }

  /** The attempt of these log rows, loaded before a deletion with result `before` and after it with result `after`. */
  predicate LoadedAfter(events: seq<Event>, d: Deletion, before: Result<DeliveryAttempt, Error>,
                        after: Result<DeliveryAttempt, Error>)
    requires 1 <= |events| <= 2 && forall k :: 0 <= k < |events| ==> events[k].AttemptEvent?
  {
    && (after == before <==> forall k :: 0 <= k < |events| ==> d.keepsEvent(events[k]))
    && (!d.keepsEvent(events[0]) ==> after == Failure(CorruptAttempt))
    && (|events| == 2 && d.keepsEvent(events[0]) && !d.keepsEvent(events[1]) ==>
          if events[1].transition.RetryWait? then after.Success? && after.value.state.Claimed?
          else after == Failure(CorruptAttempt))
  }

  lemma ThinnedLoad(s: Store, s': Store, row: Row, events: seq<Event>, d: Deletion)
    requires EventsFor(s.log, row.key.repository, row.attemptId) == events && LogOf(events, row)
    requires EventsFor(s'.log, row.key.repository, row.attemptId) == KeptEvents(events, d)
    ensures LoadedAfter(events, d, Load(s, row), Load(s', row))
  {
    BothLoad(s, row, events);
    if |events| == 1 { ThinnedOne(s, s', row, events, d); } else { ThinnedTwo(s, s', row, events, d); }
  }

  lemma ThinnedOne(s: Store, s': Store, row: Row, events: seq<Event>, d: Deletion)
    requires EventsFor(s.log, row.key.repository, row.attemptId) == events && LogOf(events, row) && |events| == 1
    requires EventsFor(s'.log, row.key.repository, row.attemptId) == KeptEvents(events, d)
    ensures if d.keepsEvent(events[0]) then Load(s', row) == Load(s, row) else Load(s', row) == Failure(CorruptAttempt)
  {
    KeptOfOne(events, d);
    if d.keepsEvent(events[0]) { SameLogSameLoad(s, s', row); } else { NothingLoads(s', row); }
  }

  lemma ThinnedTwo(s: Store, s': Store, row: Row, events: seq<Event>, d: Deletion)
    requires EventsFor(s.log, row.key.repository, row.attemptId) == events && LogOf(events, row) && |events| == 2
    requires EventsFor(s'.log, row.key.repository, row.attemptId) == KeptEvents(events, d)
    ensures if !d.keepsEvent(events[0]) then Load(s', row) == Failure(CorruptAttempt)
            else if d.keepsEvent(events[1]) then Load(s', row) == Load(s, row)
            else if events[1].transition.RetryWait? then Load(s', row).Success? && Load(s', row).value.state.Claimed?
            else Load(s', row) == Failure(CorruptAttempt)
  {
    KeptOfTwo(events, d);
    if !d.keepsEvent(events[0]) {
      NothingLoads(s', row);
    } else if d.keepsEvent(events[1]) {
      SameLogSameLoad(s, s', row);
    } else {
      ClaimAloneLoads(s', row, events[0]);
    }
  }

  /** After a deletion an attempt loads as before exactly if the log rows of its claim and its outcome are kept. Without
      the claim it is corrupt; without the outcome alone it is corrupt too, unless it was waiting: then it looks as if
      it had just been claimed. */
  lemma LoadsAsBefore(b: Boundary, s: Store, d: Deletion, i: nat)
    requires Inv(b, s) && i < |s.rows|
    ensures var events := EventsFor(s.log, s.rows[i].key.repository, s.rows[i].attemptId);
            LogOf(events, s.rows[i]) && LoadedAfter(events, d, Load(s, s.rows[i]), Load(Deleted(s, d), s.rows[i]))
  {
    var row := s.rows[i];
    AgreedLog(b, s, i);
    EventsKept(s.log, d, row.key.repository, row.attemptId);
    ThinnedLoad(s, Deleted(s, d), row, EventsFor(s.log, row.key.repository, row.attemptId), d);
  }
}
