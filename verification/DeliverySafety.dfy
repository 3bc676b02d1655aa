/** Safety of the delivery protocol over every run: any number of coordinators, in any interleaving,
    stopping anywhere between two transactions. */
module DeliverySafety {
  import opened Wrappers
  import opened Text
  import opened Delivery

  // ---------- views of the store ----------

  /** The rows of one revision in insertion order. */
  function AttemptsOf(rows: seq<Row>, key: RevisionKey): (a: seq<Row>)
    ensures forall k :: 0 <= k < |a| ==> a[k].key == key
  {
    if rows == [] then []
    else AttemptsOf(rows[..|rows| - 1], key) + if rows[|rows| - 1].key == key then [rows[|rows| - 1]] else []
  }

  /** The logical state of a row: the transition of its newest log row. */
  function StateOf(log: seq<Event>, row: Row): DeliveryState {
    var events := EventsFor(log, row.key.repository, row.attemptId);
    if events == [] then row.state else events[|events| - 1].transition
  }

  // ---------- the invariant ----------

  ghost predicate UniqueIds(rows: seq<Row>) {
    forall i, j :: 0 <= i < j < |rows| ==> !IsAttempt(rows[i], rows[j].key.repository, rows[j].attemptId)
  }

  /** The first log row of an attempt is its claim and matches the row. */
  predicate ClaimedBy(e: Event, row: Row) {
    && e.AttemptEvent? && e.transition.Claimed?
    && e.metadata.number == row.number && e.metadata.requestNonce == row.claimNonce
    && e.occurredAt == row.claimedAt && e.metadata.completedAt.None? && e.metadata.code.None?
      && e.metadata.messageId.None?
    && row.claimNonce == if row.number == 1 then e.metadata.contentNonce
      else RetryNonce(e.metadata.contentNonce, row.number)
  }

  /** The second log row of an attempt, if any, is its only outcome and matches the row, whose state
      does not record `retry_wait`. */
  predicate SettledBy(b: Boundary, e: Event, claim: Event, row: Row)
    requires claim.AttemptEvent?
  {
    && e.AttemptEvent?
    && (if e.transition.RetryWait? then row.state.Claimed?
        else e.transition.IsFinalOutcome() && row.state == e.transition)
    && row.completedAt == Some(e.occurredAt)
    && e.metadata == claim.metadata.(completedAt := row.completedAt, code := RedactOption(b, row.failureCode),
                                     messageId := RedactOption(b, row.messageId))
    && row.messageId.Some? == e.transition.Accepted? && row.failureCode.Some? == !e.transition.Accepted?
  }

  predicate RowAgrees(b: Boundary, log: seq<Event>, row: Row) {
    var events := EventsFor(log, row.key.repository, row.attemptId);
    && 1 <= |events| <= 2
    && ClaimedBy(events[0], row)
    && if |events| == 1 then row.state.Claimed? && row.completedAt.None? && row.failureCode.None? && row.messageId.None?
       else SettledBy(b, events[1], events[0], row)
  }

  ghost predicate RowsAgree(b: Boundary, s: Store) {
    forall i :: 0 <= i < |s.rows| ==> RowAgrees(b, s.log, s.rows[i])
  }

  ghost predicate NoOrphans(s: Store) {
    forall repository, attemptId :: (forall i :: 0 <= i < |s.rows| ==> !IsAttempt(s.rows[i], repository, attemptId)) ==>
      EventsFor(s.log, repository, attemptId) == []
  }

  /** Attempts are numbered 1..n without gaps and all but the last wait for a retry. */
  ghost predicate Numbered(s: Store, key: RevisionKey) { NumberedIn(s.log, AttemptsOf(s.rows, key)) }

  ghost predicate NumberedIn(log: seq<Event>, a: seq<Row>) {
    forall k :: 0 <= k < |a| ==> a[k].number == k + 1 && (k + 1 < |a| ==> StateOf(log, a[k]).RetryWait?)
  }

  /** An accepted Discord message belongs to one attempt per repository. */
  ghost predicate UniqueMessages(rows: seq<Row>) {
    forall i, j | 0 <= i < j < |rows| && rows[i].state.Accepted? && rows[j].state.Accepted?
                  && rows[i].key.repository == rows[j].key.repository :: rows[i].messageId != rows[j].messageId
  }

  /** The metadata the claim of a row recorded. */
  function ClaimMetadata(log: seq<Event>, row: Row): Option<(string, Binding)> {
    var events := EventsFor(log, row.key.repository, row.attemptId);
    if events == [] || events[0].OtherEvent? then None
    else Some((events[0].metadata.contentNonce, events[0].metadata.binding))
  }

  /** All attempts of a revision were claimed for the same content under the same authority. */
  ghost predicate OneContent(s: Store) {
    forall i, j :: 0 <= i < |s.rows| && 0 <= j < |s.rows| && s.rows[i].key == s.rows[j].key ==>
      ClaimMetadata(s.log, s.rows[i]) == ClaimMetadata(s.log, s.rows[j])
  }

  ghost predicate Inv(b: Boundary, s: Store) {
    && UniqueIds(s.rows) && RowsAgree(b, s) && NoOrphans(s)
    && (forall key :: Numbered(s, key))
    && UniqueMessages(s.rows) && OneContent(s)
  }

  // ---------- facts about the queries ----------

  lemma Appended(log: seq<Event>, e: Event, repository: string, attemptId: string)
    ensures EventsFor(log + [e], repository, attemptId)
         == EventsFor(log, repository, attemptId) + (if Concerns(e, repository, attemptId) then [e] else [])
  {
  }

  lemma {:induction false} LatestIsLast(log: seq<Event>, repository: string, attemptId: string)
    ensures var es := EventsFor(log, repository, attemptId);
            LatestEvent(log, repository, attemptId) == if es == [] then None else Some(es[|es| - 1])
  {
    if log != [] { LatestIsLast(log[..|log| - 1], repository, attemptId); }
  }

  /** Only the first of these log rows is a claim. */
  ghost predicate ClaimOnlyFirst(es: seq<Event>) {
    forall k :: 0 <= k < |es| ==> es[k].AttemptEvent? && (es[k].transition.Claimed? <==> k == 0)
  }

  lemma {:induction false} ClaimIsFirst(log: seq<Event>, repository: string, attemptId: string)
    requires ClaimOnlyFirst(EventsFor(log, repository, attemptId))
    ensures var es := EventsFor(log, repository, attemptId);
            LatestEventOfType(log, repository, attemptId, Claimed) == if es == [] then None else Some(es[0])
  {
    if log != [] {
      var init, e := log[..|log| - 1], log[|log| - 1];
      var es, front := EventsFor(log, repository, attemptId), EventsFor(init, repository, attemptId);
      assert es == front + if Concerns(e, repository, attemptId) then [e] else [];
      assert ClaimOnlyFirst(front) by {
        assert forall k :: 0 <= k < |front| ==> es[k] == front[k];
      }
      ClaimIsFirst(init, repository, attemptId);
      if Concerns(e, repository, attemptId) { assert es[|front|] == e; }
    }
  }

  ghost predicate Ascending(a: seq<Row>) {
    forall k :: 0 <= k < |a| ==> a[k].number == k + 1
  }

  lemma {:induction false} LatestRowIsLast(rows: seq<Row>, key: RevisionKey)
    requires Ascending(AttemptsOf(rows, key))
    ensures var a := AttemptsOf(rows, key); var latest := LatestRow(rows, key);
            if a == [] then latest.None? else latest.Some? && rows[latest.value] == a[|a| - 1]
  {
    if rows != [] {
      var init := rows[..|rows| - 1];
      var a, front := AttemptsOf(rows, key), AttemptsOf(init, key);
      assert Ascending(front) by {
        assert forall k :: 0 <= k < |front| ==> a[k] == front[k];
      }
      LatestRowIsLast(init, key);
      var rest := LatestRow(init, key);
      if rest.Some? { assert rows[rest.value] == init[rest.value]; }
    }
  }

  function Rank(rows: seq<Row>, i: nat): nat
    requires i < |rows|
  {
    |AttemptsOf(rows[..i], rows[i].key)|
  }

  /** Replacing a row in place replaces it at its rank among the rows of its revision. */
  lemma {:induction false} Updated(rows: seq<Row>, i: nat, row: Row, key: RevisionKey)
    requires i < |rows| && row.key == rows[i].key
    ensures var a := AttemptsOf(rows, key);
            if key != row.key then AttemptsOf(rows[i := row], key) == a
            else
              && Rank(rows, i) < |a| && a[Rank(rows, i)] == rows[i]
              && AttemptsOf(rows[i := row], key) == a[Rank(rows, i) := row]
  {
    var n := |rows| - 1;
    var init, changed := rows[..n], rows[i := row];
    var a, front := AttemptsOf(rows, key), AttemptsOf(init, key);
    assert a == front + if rows[n].key == key then [rows[n]] else [];
    assert AttemptsOf(changed, key) == AttemptsOf(changed[..n], key) + if changed[n].key == key then [changed[n]]
      else [];
    if i == n {
      assert changed[..n] == init;
      if key == row.key { assert Rank(rows, i) == |front|; }
    } else {
      assert changed[..n] == init[i := row];
      assert init[..i] == rows[..i];
      Updated(init, i, row, key);
    }
  }

  /** Every row of the invariant loads, with the state of its newest log row. */
  lemma Loads(b: Boundary, s: Store, i: nat)
    requires RowsAgree(b, s) && i < |s.rows|
    ensures var row := s.rows[i]; var events := EventsFor(s.log, row.key.repository, row.attemptId);
            && LatestEventOfType(s.log, row.key.repository, row.attemptId, Claimed) == Some(events[0])
            && Load(s, row) == Success(DeliveryAttempt(
                 row.key, row.attemptId, row.number, row.claimNonce, events[0].metadata.contentNonce,
                 StateOf(s.log, row), row.claimedAt, row.completedAt,
                 RedactOption(b, row.failureCode), RedactOption(b, row.messageId), events[0].metadata.binding))
  {
    var row := s.rows[i];
    assert RowAgrees(b, s.log, row);
    LatestIsLast(s.log, row.key.repository, row.attemptId);
    ClaimIsFirst(s.log, row.key.repository, row.attemptId);
  }

  // ---------- every step keeps the invariant ----------

  ghost predicate Inserts(b: Boundary, s: Store, q: ClaimRequest, binding: Binding, number: nat, s': Store, row: Row,
                          e: Event) {
    && e.AttemptEvent? && e.metadata.contentNonce == q.contentNonce && e.metadata.binding == binding
    && row.key == q.key && row.number == number && row.state.Claimed?
    && row.completedAt.None? && row.messageId.None? && row.failureCode.None?
    && ClaimedBy(e, row) && Concerns(e, row.key.repository, row.attemptId)
    && CanInsert(s.rows, row) && s' == Store(s.rows + [row], s.log + [e])
  }

  /** The claim continues the numbering of its revision and repeats its content and authority. */
  ghost predicate Continues(s: Store, q: ClaimRequest, binding: Binding, number: nat) {
    var a := AttemptsOf(s.rows, q.key);
    number == |a| + 1
    && (a != [] ==>
        StateOf(s.log, a[|a| - 1]).RetryWait? && ClaimMetadata(s.log, a[|a| - 1]) == Some((q.contentNonce, binding)))
  }

  /** A log row about another attempt changes nothing about this one. */
  lemma Frame(b: Boundary, log: seq<Event>, e: Event, row: Row)
    requires !Concerns(e, row.key.repository, row.attemptId)
    ensures StateOf(log + [e], row) == StateOf(log, row) && ClaimMetadata(log + [e], row) == ClaimMetadata(log, row)
    ensures RowAgrees(b, log, row) ==> RowAgrees(b, log + [e], row)
  {
  }

  lemma {:induction false} Member(rows: seq<Row>, key: RevisionKey, k: nat) returns (i: nat)
    requires k < |AttemptsOf(rows, key)|
    ensures i < |rows| && rows[i] == AttemptsOf(rows, key)[k]
  {
    var n := |rows| - 1;
    if k < |AttemptsOf(rows[..n], key)| { i := Member(rows[..n], key, k); } else { i := n; }
  }

  /** All rows but `except` keep their state and their claim when the log grows. */
  ghost predicate KeptBut(log: seq<Event>, log': seq<Event>, rows: seq<Row>, except: int) {
    forall j :: 0 <= j < |rows| && j != except ==>
      StateOf(log', rows[j]) == StateOf(log, rows[j]) && ClaimMetadata(log', rows[j]) == ClaimMetadata(log, rows[j])
  }

  lemma FrameAll(b: Boundary, log: seq<Event>, e: Event, rows: seq<Row>, except: int)
    requires forall j :: 0 <= j < |rows| && j != except ==> !Concerns(e, rows[j].key.repository, rows[j].attemptId)
    ensures KeptBut(log, log + [e], rows, except)
    ensures forall j :: 0 <= j < |rows| && j != except && RowAgrees(b, log, rows[j]) ==>
            RowAgrees(b, log + [e], rows[j])
  {
  }

  lemma AttemptsAppended(rows: seq<Row>, row: Row, key: RevisionKey)
    ensures AttemptsOf(rows + [row], key) == AttemptsOf(rows, key) + if row.key == key then [row] else []
  {
    assert (rows + [row])[..|rows|] == rows;
  }

  lemma StateKept(log: seq<Event>, log': seq<Event>, rows: seq<Row>, key: RevisionKey, k: nat)
    requires KeptBut(log, log', rows, -1) && k < |AttemptsOf(rows, key)|
    ensures StateOf(log', AttemptsOf(rows, key)[k]) == StateOf(log, AttemptsOf(rows, key)[k])
  {
    var i := Member(rows, key, k);
  }

  lemma NumberingAfterInsert(s: Store, s': Store, row: Row, key: RevisionKey)
    requires s'.rows == s.rows + [row] && KeptBut(s.log, s'.log, s.rows, -1) && Numbered(s, key)
    requires row.key == key ==> var a := AttemptsOf(s.rows, key);
                                row.number == |a| + 1 && (a != [] ==> StateOf(s.log, a[|a| - 1]).RetryWait?)
    ensures Numbered(s', key)
    ensures AttemptsOf(s'.rows, key) == AttemptsOf(s.rows, key) + if row.key == key then [row] else []
  {
    AttemptsAppended(s.rows, row, key);
    var a := AttemptsOf(s.rows, key);
    forall k | 0 <= k < |a| ensures StateOf(s'.log, a[k]) == StateOf(s.log, a[k]) {
      StateKept(s.log, s'.log, s.rows, key, k);
    }
    if row.key == key { NumberedNext(s.log, s'.log, a, row); }
  }

  lemma NumberedNext(log: seq<Event>, log': seq<Event>, a: seq<Row>, row: Row)
    requires NumberedIn(log, a) && row.number == |a| + 1 && (a != [] ==> StateOf(log, a[|a| - 1]).RetryWait?)
    requires forall k :: 0 <= k < |a| ==> StateOf(log', a[k]) == StateOf(log, a[k])
    ensures NumberedIn(log', a + [row])
  {
  }

  /** Every row of the revision has the content of the last one. */
  lemma ContentOfLast(s: Store, key: RevisionKey, i: nat)
    requires OneContent(s) && i < |s.rows| && s.rows[i].key == key
    ensures var a := AttemptsOf(s.rows, key);
            a != [] && ClaimMetadata(s.log, a[|a| - 1]) == ClaimMetadata(s.log, s.rows[i])
  {
    Updated(s.rows, i, s.rows[i], key);
    var j := Member(s.rows, key, |AttemptsOf(s.rows, key)| - 1);
    assert s.rows[j].key == s.rows[i].key;
  }

  lemma ContentAfterInsert(s: Store, s': Store, row: Row)
    requires s'.rows == s.rows + [row] && KeptBut(s.log, s'.log, s.rows, -1) && OneContent(s)
    requires var a := AttemptsOf(s.rows, row.key);
             a != [] ==> ClaimMetadata(s.log, a[|a| - 1]) == ClaimMetadata(s'.log, row)
    ensures OneContent(s')
  {
    forall i, j | 0 <= i < |s'.rows| && 0 <= j < |s'.rows| && s'.rows[i].key == s'.rows[j].key
      ensures ClaimMetadata(s'.log, s'.rows[i]) == ClaimMetadata(s'.log, s'.rows[j])
    {
      ContentOfRow(s, s', row, i);
      ContentOfRow(s, s', row, j);
      if i < |s.rows| && j < |s.rows| { assert s.rows[i].key == s.rows[j].key; }
    }
  }

  /** After an insertion a row keeps its content, which is that of the new row if it is of the same revision. */
  lemma ContentOfRow(s: Store, s': Store, row: Row, i: nat)
    requires s'.rows == s.rows + [row] && KeptBut(s.log, s'.log, s.rows, -1) && OneContent(s) && i < |s'.rows|
    requires var a := AttemptsOf(s.rows, row.key);
             a != [] ==> ClaimMetadata(s.log, a[|a| - 1]) == ClaimMetadata(s'.log, row)
    ensures i < |s.rows| ==>
            s'.rows[i] == s.rows[i] && ClaimMetadata(s'.log, s'.rows[i]) == ClaimMetadata(s.log, s.rows[i])
    ensures s'.rows[i].key == row.key ==> ClaimMetadata(s'.log, s'.rows[i]) == ClaimMetadata(s'.log, row)
  {
    if i < |s.rows| && s.rows[i].key == row.key { ContentOfLast(s, row.key, i); }
  }

  /** Only the last attempt of its revision can still be claimed, so changing that one keeps the numbering. */
  lemma NumberingAfterUpdate(s: Store, s': Store, i: nat, row: Row, key: RevisionKey)
    requires i < |s.rows| && s'.rows == s.rows[i := row] && row.key == s.rows[i].key && row.number == s.rows[i].number
    requires KeptBut(s.log, s'.log, s.rows, i) && StateOf(s.log, s.rows[i]).Claimed? && Numbered(s, key)
    ensures Numbered(s', key)
    ensures var a := AttemptsOf(s.rows, key);
            if key == row.key then a != [] && a[|a| - 1] == s.rows[i] && AttemptsOf(s'.rows, key) == a[|a| - 1 := row]
            else AttemptsOf(s'.rows, key) == a
  {
    var a := AttemptsOf(s.rows, key);
    Updated(s.rows, i, row, key);
    forall k | 0 <= k < |a| && (key != row.key || k < |a| - 1)
      ensures StateOf(s'.log, a[k]) == StateOf(s.log, a[k])
    {
      var j := Member(s.rows, key, k);
      assert j != i;
    }
  }

  lemma InsertKeepsRows(b: Boundary, s: Store, q: ClaimRequest, binding: Binding, number: nat, s': Store, row: Row,
                        e: Event)
    requires UniqueIds(s.rows) && UniqueMessages(s.rows) && Inserts(b, s, q, binding, number, s', row, e)
    ensures UniqueIds(s'.rows) && UniqueMessages(s'.rows)
    ensures forall i :: 0 <= i < |s.rows| ==> !Concerns(e, s.rows[i].key.repository, s.rows[i].attemptId)
  {
  }

  lemma InsertKeepsLog(b: Boundary, s: Store, q: ClaimRequest, binding: Binding, number: nat, s': Store, row: Row,
                       e: Event)
    requires UniqueIds(s.rows) && UniqueMessages(s.rows) && Inserts(b, s, q, binding, number, s', row, e)
    requires RowsAgree(b, s) && NoOrphans(s)
    ensures RowsAgree(b, s') && NoOrphans(s')
    ensures ClaimMetadata(s'.log, row) == Some((q.contentNonce, binding))
  {
    InsertKeepsRows(b, s, q, binding, number, s', row, e);
    Appended(s.log, e, row.key.repository, row.attemptId);
    assert EventsFor(s'.log, row.key.repository, row.attemptId) == [e];
    forall i | 0 <= i < |s'.rows| ensures RowAgrees(b, s'.log, s'.rows[i]) {
      if i < |s.rows| {
        assert s'.rows[i] == s.rows[i];
        Frame(b, s.log, e, s.rows[i]);
      }
    }
    forall repository, attemptId | forall i :: 0 <= i < |s'.rows| ==> !IsAttempt(s'.rows[i], repository, attemptId)
      ensures EventsFor(s'.log, repository, attemptId) == []
    {
      Appended(s.log, e, repository, attemptId);
      assert !IsAttempt(s'.rows[|s.rows|], repository, attemptId);
      assert forall i :: 0 <= i < |s.rows| ==> s.rows[i] == s'.rows[i];
    }
  }

  lemma InsertKeepsNumbers(s: Store, q: ClaimRequest, binding: Binding, number: nat, s': Store, row: Row)
    requires (forall key :: Numbered(s, key)) && s'.rows == s.rows + [row] && KeptBut(s.log, s'.log, s.rows, -1)
    requires row.key == q.key && row.number == number && Continues(s, q, binding, number)
    ensures forall key :: Numbered(s', key)
  {
    forall key ensures Numbered(s', key) {
      assert Numbered(s, key);
      NumberingAfterInsert(s, s', row, key);
    }
  }

  lemma InsertKeeps(b: Boundary, s: Store, q: ClaimRequest, binding: Binding, number: nat, s': Store, row: Row,
                    e: Event)
    requires Inv(b, s) && Inserts(b, s, q, binding, number, s', row, e) && Continues(s, q, binding, number)
    ensures Inv(b, s') && KeptBut(s.log, s'.log, s.rows, -1)
  {
    InsertKeepsRows(b, s, q, binding, number, s', row, e);
    FrameAll(b, s.log, e, s.rows, -1);
    InsertKeepsLog(b, s, q, binding, number, s', row, e);
    ContentAfterInsert(s, s', row);
    InsertKeepsNumbers(s, q, binding, number, s', row);
  }

  /** Outcomes carry a message id when accepted and an error code otherwise. */
  predicate OutcomeShape(q: TransitionRequest) {
    && (q.state.RetryWait? || q.state.IsFinalOutcome())
    && q.messageId.Some? == q.state.Accepted? && q.errorCode.Some? == !q.state.Accepted?
  }

  lemma ValidShape(b: Boundary, q: TransitionRequest)
    requires ValidateTransition(b, q).None?
    ensures OutcomeShape(q)
  {
  }

  /** A transition that commits: it stamps row `i`, whose attempt is still claimed, and logs one outcome. */
  ghost predicate Settles(b: Boundary, s: Store, q: TransitionRequest, i: nat, s': Store, e: Event) {
    && i < |s.rows| && IsAttempt(s.rows[i], q.key.repository, q.attemptId) && s.rows[i].state.Claimed?
    && StateOf(s.log, s.rows[i]).Claimed? && OutcomeShape(q) && q.key == s.rows[i].key
    && EventsFor(s.log, q.key.repository, q.attemptId) != []
    && EventsFor(s.log, q.key.repository, q.attemptId)[0].AttemptEvent?
    && e.AttemptEvent? && Concerns(e, q.key.repository, q.attemptId) && e.transition == q.state
      && e.occurredAt == q.completedAt
    && e.metadata == EventsFor(s.log, q.key.repository, q.attemptId)[0].metadata.(
                       completedAt := Some(q.completedAt), code := RedactOption(b, q.errorCode),
                       messageId := RedactOption(b, q.messageId))
    && (q.state.Accepted? ==> !AcceptedElsewhere(s.rows, q))
    && s' == Store(s.rows[i := UpdatedRow(s.rows[i], q)], s.log + [e])
  }

  lemma SettledRow(b: Boundary, s: Store, q: TransitionRequest, i: nat, s': Store, e: Event)
    requires Settles(b, s, q, i, s', e) && RowAgrees(b, s.log, s.rows[i])
    ensures RowAgrees(b, s'.log, s'.rows[i]) && StateOf(s'.log, s'.rows[i]) == q.state
    ensures ClaimMetadata(s'.log, s'.rows[i]) == ClaimMetadata(s.log, s.rows[i])
  {
    var row := s.rows[i];
    var events := EventsFor(s.log, row.key.repository, row.attemptId);
    Appended(s.log, e, row.key.repository, row.attemptId);
    assert |events| == 1;
    assert EventsFor(s'.log, row.key.repository, row.attemptId) == [events[0], e];
  }

  lemma SettleAgrees(b: Boundary, s: Store, q: TransitionRequest, i: nat, s': Store, e: Event)
    requires RowsAgree(b, s) && UniqueIds(s.rows) && Settles(b, s, q, i, s', e)
    ensures RowsAgree(b, s') && KeptBut(s.log, s'.log, s.rows, i)
    ensures StateOf(s'.log, s'.rows[i]) == q.state
            && ClaimMetadata(s'.log, s'.rows[i]) == ClaimMetadata(s.log, s.rows[i])
  {
    FrameAll(b, s.log, e, s.rows, i);
    assert RowAgrees(b, s.log, s.rows[i]);
    SettledRow(b, s, q, i, s', e);
    forall j | 0 <= j < |s.rows| ensures RowAgrees(b, s'.log, s'.rows[j]) {
      assert RowAgrees(b, s.log, s.rows[j]);
    }
  }

  lemma SettleKeepsOrphans(b: Boundary, s: Store, q: TransitionRequest, i: nat, s': Store, e: Event)
    requires NoOrphans(s) && Settles(b, s, q, i, s', e)
    ensures NoOrphans(s')
  {
    forall repository, attemptId | forall j :: 0 <= j < |s'.rows| ==> !IsAttempt(s'.rows[j], repository, attemptId)
      ensures EventsFor(s'.log, repository, attemptId) == []
    {
      Appended(s.log, e, repository, attemptId);
      assert !IsAttempt(s'.rows[i], repository, attemptId);
      assert forall j :: 0 <= j < |s.rows| && j != i ==> s.rows[j] == s'.rows[j];
    }
  }

  lemma SettleKeepsRows(rows: seq<Row>, q: TransitionRequest, i: nat)
    requires i < |rows| && UniqueIds(rows) && UniqueMessages(rows) && IsAttempt(rows[i], q.key.repository, q.attemptId)
    requires rows[i].state.Claimed? && (q.state.Accepted? ==> !AcceptedElsewhere(rows, q))
    ensures UniqueIds(rows[i := UpdatedRow(rows[i], q)]) && UniqueMessages(rows[i := UpdatedRow(rows[i], q)])
  {
  }

  lemma SettleKeepsNumbers(s: Store, s': Store, i: nat, row: Row)
    requires i < |s.rows| && s'.rows == s.rows[i := row] && row.key == s.rows[i].key && row.number == s.rows[i].number
    requires KeptBut(s.log, s'.log, s.rows, i) && StateOf(s.log, s.rows[i]).Claimed? && forall key :: Numbered(s, key)
    ensures forall key :: Numbered(s', key)
  {
    forall key ensures Numbered(s', key) {
      assert Numbered(s, key);
      NumberingAfterUpdate(s, s', i, row, key);
    }
  }

  lemma SettleKeepsContent(s: Store, s': Store, i: nat, row: Row)
    requires i < |s.rows| && s'.rows == s.rows[i := row] && row.key == s.rows[i].key && OneContent(s)
    requires KeptBut(s.log, s'.log, s.rows, i) && ClaimMetadata(s'.log, row) == ClaimMetadata(s.log, s.rows[i])
    ensures OneContent(s')
  {
    forall j | 0 <= j < |s.rows| ensures ClaimMetadata(s'.log, s'.rows[j]) == ClaimMetadata(s.log, s.rows[j]) {
    }
  }

  lemma SettleKeeps(b: Boundary, s: Store, q: TransitionRequest, i: nat, s': Store, e: Event)
    requires Inv(b, s) && Settles(b, s, q, i, s', e)
    ensures Inv(b, s')
  {
    SettleAgrees(b, s, q, i, s', e);
    SettleKeepsOrphans(b, s, q, i, s', e);
    SettleKeepsRows(s.rows, q, i);
    SettleKeepsNumbers(s, s', i, s'.rows[i]);
    SettleKeepsContent(s, s', i, s'.rows[i]);
  }

  // ---------- what the two transactions do in a store that satisfies the invariant ----------

  lemma InsertClaimInserts(b: Boundary, s: Store, q: ClaimRequest, binding: Binding, number: nat, id: string,
                           nonce: string)
    returns (row: Row, e: Event)
    requires InsertClaim(b, s, q, binding, number, id, nonce).Success?
    ensures row == NewRow(q, number, EffectiveAttemptId(q, id), nonce)
    ensures Inserts(b, s, q, binding, number, InsertClaim(b, s, q, binding, number, id, nonce).value.0, row, e)
    ensures InsertClaim(b, s, q, binding, number, id, nonce).value.1 == AttemptOf(row, q, binding)
  {
    row := NewRow(q, number, EffectiveAttemptId(q, id), nonce);
    e := ClaimEvent(b, q, binding, number, EffectiveAttemptId(q, id), nonce);
  }

  function AttemptOf(row: Row, q: ClaimRequest, binding: Binding): DeliveryAttempt {
    DeliveryAttempt(row.key, row.attemptId, row.number, row.claimNonce, q.contentNonce, Claimed, row.claimedAt,
                    None, None, None, binding)
  }

  /** The new row is the next attempt of its revision, loads as the attempt the caller gets, and is claimed. */
  ghost predicate Granted(s: Store, s': Store, key: RevisionKey, attempt: DeliveryAttempt) {
    && |s'.rows| == |s.rows| + 1 && s'.rows[..|s.rows|] == s.rows
    && s'.rows[|s.rows|].key == key && s'.rows[|s.rows|].number == |AttemptsOf(s.rows, key)| + 1
    && attempt.state.Claimed? && Load(s', s'.rows[|s.rows|]) == Success(attempt)
    && forall i :: 0 <= i < |s.rows| ==> StateOf(s'.log, s.rows[i]) == StateOf(s.log, s.rows[i])
  }

  lemma InsertedLoads(b: Boundary, s: Store, q: ClaimRequest, binding: Binding, number: nat, s': Store, row: Row,
                      e: Event)
    requires Inv(b, s) && Inserts(b, s, q, binding, number, s', row, e) && RowsAgree(b, s')
    ensures Load(s', row) == Success(AttemptOf(row, q, binding))
  {
  }

  lemma GrantsInserted(b: Boundary, s: Store, q: ClaimRequest, binding: Binding, number: nat, s': Store, row: Row,
                       e: Event)
    requires Inv(b, s) && Inserts(b, s, q, binding, number, s', row, e) && Continues(s, q, binding, number)
    ensures Inv(b, s') && Granted(s, s', q.key, AttemptOf(row, q, binding))
  {
    InsertKeeps(b, s, q, binding, number, s', row, e);
    InsertedLoads(b, s, q, binding, number, s', row, e);
  }

  lemma InsertGrants(b: Boundary, s: Store, q: ClaimRequest, binding: Binding, number: nat, id: string, nonce: string)
    requires Inv(b, s) && Continues(s, q, binding, number)
    requires InsertClaim(b, s, q, binding, number, id, nonce).Success?
    ensures var (s', attempt) := InsertClaim(b, s, q, binding, number, id, nonce).value;
            Inv(b, s') && Granted(s, s', q.key, attempt)
  {
    var row, e := InsertClaimInserts(b, s, q, binding, number, id, nonce);
    GrantsInserted(b, s, q, binding, number, InsertClaim(b, s, q, binding, number, id, nonce).value.0, row, e);
  }

  /** The last attempt of a revision, if any. */
  function LastAttempt(s: Store, key: RevisionKey): Option<Row> {
    var a := AttemptsOf(s.rows, key);
    if a == [] then None else Some(a[|a| - 1])
  }

  /** A retry needs a last attempt that waits for it; a first claim needs that there is none. */
  predicate MayProceed(s: Store, key: RevisionKey, retry: bool) {
    var last := LastAttempt(s, key);
    if retry then last.Some? && StateOf(s.log, last.value).RetryWait? else last.None?
  }

  /** A claim grants a permit only where a next attempt may start, and then appends it; otherwise it leaves the
      store alone and, unless it fails, reports the last attempt as it stands. */
  ghost predicate ClaimSpec(s: Store, q: ClaimRequest, retry: bool, s': Store, r: Result<ClaimResult, Error>) {
    if r.Success? && r.value.permit then
      r.value.disposition.NewlyClaimed? && MayProceed(s, q.key, retry) && Granted(s, s', q.key, r.value.attempt)
    else
      s' == s && (r.Success? ==>
        r.value.disposition.Existing? && LastAttempt(s, q.key).Some? && !(retry && MayProceed(s, q.key, retry))
        && Load(s, LastAttempt(s, q.key).value) == Success(r.value.attempt))
  }

  ghost predicate ClaimKeeps(b: Boundary, s: Store, q: ClaimRequest, retry: bool,
                             result: (Store, Result<ClaimResult, Error>)) {
    Inv(b, result.0) && ClaimSpec(s, q, retry, result.0, result.1)
  }

  lemma RefusedKeeps(b: Boundary, s: Store, q: ClaimRequest, retry: bool, e: Error)
    requires Inv(b, s)
    ensures ClaimKeeps(b, s, q, retry, (s, Failure(e)))
  {
  }

  lemma CommittedKeeps(b: Boundary, s: Store, q: ClaimRequest, retry: bool,
                       inserted: Result<(Store, DeliveryAttempt), Error>)
    requires Inv(b, s) && (inserted.Success? ==>
      MayProceed(s, q.key, retry) && Inv(b, inserted.value.0) && Granted(s, inserted.value.0, q.key, inserted.value.1))
    ensures ClaimKeeps(b, s, q, retry, Committed(inserted, s))
  {
  }

  lemma ClaimFirstEffect(b: Boundary, s: Store, q: ClaimRequest, retry: bool)
    requires Inv(b, s) && LastAttempt(s, q.key).None?
    ensures ClaimKeeps(b, s, q, retry, ClaimFirst(b, s, q, retry))
  {
    var validated := Revalidate(b, q);
    if validated.Failure? {
      RefusedKeeps(b, s, q, retry, validated.error);
    } else if retry {
      RefusedKeeps(b, s, q, retry, StaleInput("retry state"));
    } else {
      var inserted := InsertClaim(b, s, q, validated.value, 1, q.attemptId, q.requestNonce);
      if inserted.Success? { InsertGrants(b, s, q, validated.value, 1, q.attemptId, q.requestNonce); }
      CommittedKeeps(b, s, q, retry, inserted);
    }
  }

  lemma NextGrants(b: Boundary, s: Store, q: ClaimRequest, recorded: DeliveryAttempt, binding: Binding)
    requires Inv(b, s) && Continues(s, q, binding, recorded.number + 1)
    ensures var inserted := InsertNext(b, s, q, recorded, binding);
            inserted.Success? ==> Inv(b, inserted.value.0) && Granted(s, inserted.value.0, q.key, inserted.value.1)
  {
    if InsertNext(b, s, q, recorded, binding).Success? {
      var next := recorded.number + 1;
      InsertGrants(b, s, q, binding, next, RetryAttemptId(q.attemptId, recorded.attemptId, next),
                   RetryNonce(q.contentNonce, next));
    }
  }

  lemma ReportedKeeps(b: Boundary, s: Store, q: ClaimRequest, retry: bool, recorded: DeliveryAttempt, last: Row)
    requires Inv(b, s) && LastAttempt(s, q.key) == Some(last) && Load(s, last) == Success(recorded)
    requires recorded.state == StateOf(s.log, last) && (!retry || !recorded.state.RetryWait?)
    ensures ClaimKeeps(b, s, q, retry, (s, Success(ClaimResult(Existing, recorded, false))))
  {
  }

  lemma ClaimAfterEffect(b: Boundary, s: Store, q: ClaimRequest, retry: bool, recorded: DeliveryAttempt, last: Row)
    requires Inv(b, s) && LastAttempt(s, q.key) == Some(last) && Load(s, last) == Success(recorded)
    requires recorded.state == StateOf(s.log, last) && recorded.number == |AttemptsOf(s.rows, q.key)|
    requires ClaimMetadata(s.log, last) == Some((recorded.contentNonce, recorded.binding))
    ensures ClaimKeeps(b, s, q, retry, ClaimAfter(b, s, q, retry, recorded))
  {
    if recorded.contentNonce != q.contentNonce {
      RefusedKeeps(b, s, q, retry, StaleInput("claim identity"));
    } else if !retry || !recorded.state.RetryWait? {
      ReportedKeeps(b, s, q, retry, recorded, last);
    } else {
      var validated := Revalidate(b, q);
      if validated.Failure? {
        RefusedKeeps(b, s, q, retry, validated.error);
      } else if recorded.binding != validated.value {
        RefusedKeeps(b, s, q, retry, StaleInput("claim identity"));
      } else {
        NextGrants(b, s, q, recorded, validated.value);
        CommittedKeeps(b, s, q, retry, InsertNext(b, s, q, recorded, validated.value));
      }
    }
  }

  /** The newest row of a revision is its last attempt, and loads. */
  lemma NewestIsLast(b: Boundary, s: Store, key: RevisionKey)
    requires Inv(b, s)
    ensures match LatestRow(s.rows, key)
            case None => LastAttempt(s, key).None?
            case Some(i) =>
              && LastAttempt(s, key) == Some(s.rows[i]) && Load(s, s.rows[i]).Success?
              && var recorded := Load(s, s.rows[i]).value;
              && recorded.state == StateOf(s.log, s.rows[i]) && recorded.number == |AttemptsOf(s.rows, key)|
              && ClaimMetadata(s.log, s.rows[i]) == Some((recorded.contentNonce, recorded.binding))
  {
    assert Numbered(s, key);
    assert Ascending(AttemptsOf(s.rows, key));
    LatestRowIsLast(s.rows, key);
    var latest := LatestRow(s.rows, key);
    if latest.Some? {
      Loads(b, s, latest.value);
      assert RowAgrees(b, s.log, s.rows[latest.value]);
    }
  }

  lemma ClaimEffect(b: Boundary, s: Store, q: ClaimRequest, retry: bool)
    requires Inv(b, s)
    ensures var (s', r) := ClaimStep(b, s, q, retry); Inv(b, s') && ClaimSpec(s, q, retry, s', r)
  {
    NewestIsLast(b, s, q.key);
    if q.blocked.Some? {
      RefusedKeeps(b, s, q, retry, NotEligible(q.blocked.value));
    } else if q.key.revision > MAX_I64 {
      RefusedKeeps(b, s, q, retry, InvalidInput("revision"));
    } else {
      match LatestRow(s.rows, q.key)
      case None => ClaimFirstEffect(b, s, q, retry);
      case Some(i) => ClaimAfterEffect(b, s, q, retry, Load(s, s.rows[i]).value, s.rows[i]);
    }
    assert ClaimKeeps(b, s, q, retry, ClaimStep(b, s, q, retry));
  }

  /** The last attempt of the revision, so far only claimed, has got the outcome asked for; no other attempt
      changed and no permit was granted. */
  ghost predicate Settled(s: Store, q: TransitionRequest, s': Store, attempt: DeliveryAttempt) {
    var a, a' := AttemptsOf(s.rows, q.key), AttemptsOf(s'.rows, q.key);
    && a != [] && StateOf(s.log, a[|a| - 1]).Claimed? && a[|a| - 1].attemptId == q.attemptId
    && |a'| == |a| && a'[..|a| - 1] == a[..|a| - 1] && StateOf(s'.log, a'[|a| - 1]) == q.state
    && Load(s', a'[|a| - 1]) == Success(attempt)
    && PermitsOf(s'.rows) == PermitsOf(s.rows)
    && StatesAfter(s, q, s')
    && forall key :: key != q.key ==> SameAttempts(s, s', key)
  }

  /** Exactly the attempt named by the request changed its state. */
  ghost predicate StatesAfter(s: Store, q: TransitionRequest, s': Store) {
    |s'.rows| == |s.rows|
    && forall j :: 0 <= j < |s.rows| ==>
      StateOf(s'.log, s'.rows[j])
      == if IsAttempt(s.rows[j], q.key.repository, q.attemptId) then q.state else StateOf(s.log, s.rows[j])
  }

  /** A transition either changes nothing, and then succeeds only for an attempt that already has this outcome, or
      settles the last attempt. */
  ghost predicate TransitionSpec(s: Store, q: TransitionRequest, s': Store, r: Result<DeliveryAttempt, Error>) {
    if s' == s then
      r.Success? ==> r.value.state == q.state && r.value.key == q.key && r.value.attemptId == q.attemptId
                     && TransitionMatches(r.value, q)
    else r.Success? && Settled(s, q, s', r.value)
  }

  /** The attempts of a revision and their states are the same in both stores. */
  ghost predicate SameAttempts(s: Store, s': Store, key: RevisionKey) {
    var a := AttemptsOf(s.rows, key);
    AttemptsOf(s'.rows, key) == a && forall k :: 0 <= k < |a| ==> StateOf(s'.log, a[k]) == StateOf(s.log, a[k])
  }

  /** The single-use authorization to send one attempt. */
  datatype Permit = Permit(key: RevisionKey, attemptId: string, number: nat)

  function PermitOf(row: Row): Permit { Permit(row.key, row.attemptId, row.number) }

  function PermitsOf(rows: seq<Row>): seq<Permit> { seq(|rows|, i requires 0 <= i < |rows| => PermitOf(rows[i])) }

  lemma SettleLast(b: Boundary, s: Store, q: TransitionRequest, i: nat, s': Store, e: Event)
    requires Inv(b, s) && Settles(b, s, q, i, s', e)
    ensures var a, a' := AttemptsOf(s.rows, q.key), AttemptsOf(s'.rows, q.key);
            && a != [] && a[|a| - 1] == s.rows[i] && |a'| == |a| && a'[..|a| - 1] == a[..|a| - 1]
              && a'[|a| - 1] == s'.rows[i]
    ensures StateOf(s'.log, s'.rows[i]) == q.state && Load(s', s'.rows[i]).Success?
  {
    SettleAgrees(b, s, q, i, s', e);
    assert Numbered(s, q.key);
    NumberingAfterUpdate(s, s', i, s'.rows[i], q.key);
    Loads(b, s', i);
  }

  lemma SettleStates(b: Boundary, s: Store, q: TransitionRequest, i: nat, s': Store, e: Event)
    requires RowsAgree(b, s) && UniqueIds(s.rows) && Settles(b, s, q, i, s', e)
    ensures StatesAfter(s, q, s')
  {
    SettleAgrees(b, s, q, i, s', e);
    forall j | 0 <= j < |s.rows|
      ensures StateOf(s'.log, s'.rows[j])
           == if IsAttempt(s.rows[j], q.key.repository, q.attemptId) then q.state else StateOf(s.log, s.rows[j])
    {
    }
  }

  lemma SettlePermits(rows: seq<Row>, i: nat, row: Row)
    requires i < |rows| && PermitOf(row) == PermitOf(rows[i])
    ensures PermitsOf(rows[i := row]) == PermitsOf(rows)
  {
  }

  lemma SettleElsewhereFor(s: Store, s': Store, i: nat, row: Row, key: RevisionKey)
    requires i < |s.rows| && s'.rows == s.rows[i := row] && row.key == s.rows[i].key && row.number == s.rows[i].number
    requires KeptBut(s.log, s'.log, s.rows, i) && StateOf(s.log, s.rows[i]).Claimed? && Numbered(s, key)
             && key != row.key
    ensures SameAttempts(s, s', key)
  {
    NumberingAfterUpdate(s, s', i, row, key);
    var a := AttemptsOf(s.rows, key);
    forall k | 0 <= k < |a| ensures StateOf(s'.log, a[k]) == StateOf(s.log, a[k]) {
      var j := Member(s.rows, key, k);
      assert j != i;
    }
  }

  lemma SettleElsewhere(b: Boundary, s: Store, q: TransitionRequest, i: nat, s': Store, e: Event)
    requires Inv(b, s) && Settles(b, s, q, i, s', e)
    ensures forall key :: key != q.key ==> SameAttempts(s, s', key)
  {
    SettleAgrees(b, s, q, i, s', e);
    forall key | key != q.key ensures SameAttempts(s, s', key) {
      assert Numbered(s, key);
      SettleElsewhereFor(s, s', i, s'.rows[i], key);
    }
  }

  lemma SettleMeets(b: Boundary, s: Store, q: TransitionRequest, i: nat, s': Store, e: Event)
    requires Inv(b, s) && Settles(b, s, q, i, s', e)
    ensures Load(s', s'.rows[i]).Success? && Settled(s, q, s', Load(s', s'.rows[i]).value)
  {
    SettleLast(b, s, q, i, s', e);
    SettlePermits(s.rows, i, s'.rows[i]);
    SettleElsewhere(b, s, q, i, s', e);
    SettleStates(b, s, q, i, s', e);
  }

  /** When a transition passes every check, it settles row `i`. */
  lemma TransitionSettles(b: Boundary, s: Store, q: TransitionRequest, i: nat) returns (e: Event)
    requires Inv(b, s) && OutcomeShape(q) && FindRow(s.rows, q.key.repository, q.attemptId) == Some(i)
    requires s.rows[i].key == q.key && StateOf(s.log, s.rows[i]).Claimed? && s.rows[i].state.Claimed?
    requires q.state.Accepted? ==> !AcceptedElsewhere(s.rows, q)
    ensures var claim := LatestEventOfType(s.log, q.key.repository, q.attemptId, Claimed);
            claim.Some? && claim.value.AttemptEvent? && e == OutcomeEvent(b, q, claim.value.metadata)
    ensures Settles(b, s, q, i, Store(s.rows[i := UpdatedRow(s.rows[i], q)], s.log + [e]), e)
  {
    Loads(b, s, i);
    assert RowAgrees(b, s.log, s.rows[i]);
    var claim := LatestEventOfType(s.log, q.key.repository, q.attemptId, Claimed).value;
    e := OutcomeEvent(b, q, claim.metadata);
  }

  /** The guarded update either fails and changes nothing or settles row `i`. */
  lemma ApplyIs(b: Boundary, s: Store, q: TransitionRequest, i: nat) returns (e: Event)
    requires Inv(b, s) && OutcomeShape(q) && FindRow(s.rows, q.key.repository, q.attemptId) == Some(i)
    requires s.rows[i].key == q.key && StateOf(s.log, s.rows[i]).Claimed? && s.rows[i].state.Claimed?
    requires q.state.Accepted? ==> !AcceptedElsewhere(s.rows, q)
    ensures var claim := LatestEventOfType(s.log, q.key.repository, q.attemptId, Claimed);
            claim.Some? && claim.value.AttemptEvent? && e == OutcomeEvent(b, q, claim.value.metadata)
    ensures var s' := Store(s.rows[i := UpdatedRow(s.rows[i], q)], s.log + [e]);
            && Settles(b, s, q, i, s', e) && Load(s', s'.rows[i]).Success?
            && (ApplyTransition(b, s, q, i) == (s', Load(s', s'.rows[i]))
                || ApplyTransition(b, s, q, i) == (s, Failure(AuditConflict))
                || ApplyTransition(b, s, q, i) == (s, Failure(AuditFailure)))
  {
    e := TransitionSettles(b, s, q, i);
    var s' := Store(s.rows[i := UpdatedRow(s.rows[i], q)], s.log + [e]);
    SettleLast(b, s, q, i, s', e);
    ApplyOutcomes(b, s, q, i, s', e);
  }

  lemma ApplyOutcomes(b: Boundary, s: Store, q: TransitionRequest, i: nat, s': Store, e: Event)
    requires i < |s.rows| && s.rows[i].state.Claimed? && s' == Store(s.rows[i := UpdatedRow(s.rows[i], q)], s.log + [e])
    requires var claim := LatestEventOfType(s.log, q.key.repository, q.attemptId, Claimed);
             claim.Some? && claim.value.AttemptEvent? && e == OutcomeEvent(b, q, claim.value.metadata)
    requires Load(s', s'.rows[i]).Success?
    ensures ApplyTransition(b, s, q, i) == (s', Load(s', s'.rows[i]))
            || ApplyTransition(b, s, q, i) == (s, Failure(AuditConflict))
            || ApplyTransition(b, s, q, i) == (s, Failure(AuditFailure))
  {
  }

  ghost predicate TransitionKeeps(b: Boundary, s: Store, q: TransitionRequest, s': Store,
                                  r: Result<DeliveryAttempt, Error>) {
    Inv(b, s') && TransitionSpec(s, q, s', r) && (r.Failure? ==> s' == s) && r != Failure(CorruptAttempt)
  }

  lemma SettleEffect(b: Boundary, s: Store, q: TransitionRequest, i: nat, s': Store, e: Event)
    requires Inv(b, s) && Settles(b, s, q, i, s', e)
    ensures TransitionKeeps(b, s, q, s', Load(s', s'.rows[i]))
  {
    SettleKeeps(b, s, q, i, s', e);
    SettleMeets(b, s, q, i, s', e);
    ChangedKeeps(b, s, q, s', Load(s', s'.rows[i]));
  }

  lemma ResultKeeps(b: Boundary, s: Store, q: TransitionRequest, i: nat, s': Store, e: Event,
                    result: (Store, Result<DeliveryAttempt, Error>))
    requires Inv(b, s) && Settles(b, s, q, i, s', e)
    requires result == (s', Load(s', s'.rows[i])) || result == (s, Failure(AuditConflict))
             || result == (s, Failure(AuditFailure))
    ensures TransitionKeeps(b, s, q, result.0, result.1)
  {
    if result == (s', Load(s', s'.rows[i])) {
      SettleEffect(b, s, q, i, s', e);
    } else {
      UnchangedKeeps(b, s, q, result.1);
    }
  }

  lemma ClaimedRow(b: Boundary, s: Store, i: nat)
    requires RowsAgree(b, s) && i < |s.rows| && StateOf(s.log, s.rows[i]).Claimed?
    ensures s.rows[i].state.Claimed?
  {
    assert RowAgrees(b, s.log, s.rows[i]);
  }

  lemma ApplyEffect(b: Boundary, s: Store, q: TransitionRequest, i: nat)
    requires Inv(b, s) && OutcomeShape(q) && FindRow(s.rows, q.key.repository, q.attemptId) == Some(i)
    requires s.rows[i].key == q.key && StateOf(s.log, s.rows[i]).Claimed?
    requires q.state.Accepted? ==> !AcceptedElsewhere(s.rows, q)
    ensures TransitionKeeps(b, s, q, ApplyTransition(b, s, q, i).0, ApplyTransition(b, s, q, i).1)
  {
    ClaimedRow(b, s, i);
    var e := ApplyIs(b, s, q, i);
    ResultKeeps(b, s, q, i, Store(s.rows[i := UpdatedRow(s.rows[i], q)], s.log + [e]), e, ApplyTransition(b, s, q, i));
  }

  lemma ChangedKeeps(b: Boundary, s: Store, q: TransitionRequest, s': Store, r: Result<DeliveryAttempt, Error>)
    requires Inv(b, s') && |s'.log| == |s.log| + 1 && r.Success? && Settled(s, q, s', r.value)
    ensures TransitionKeeps(b, s, q, s', r)
  {
  }

  lemma UnchangedKeeps(b: Boundary, s: Store, q: TransitionRequest, r: Result<DeliveryAttempt, Error>)
    requires Inv(b, s) && r != Failure(CorruptAttempt)
    requires r.Success? ==> r.value.state == q.state && r.value.key == q.key && r.value.attemptId == q.attemptId
                            && TransitionMatches(r.value, q)
    ensures TransitionKeeps(b, s, q, s, r)
  {
  }

  /** Only a claimed attempt can go on to an outcome. */
  lemma CanOnlyLeaveClaimed(b: Boundary, s: Store, i: nat, next: DeliveryState)
    requires RowsAgree(b, s) && i < |s.rows| && (next.RetryWait? || next.IsFinalOutcome())
    requires StateOf(s.log, s.rows[i]).CanTransitionTo(next)
    ensures StateOf(s.log, s.rows[i]).Claimed?
  {
    assert RowAgrees(b, s.log, s.rows[i]);
  }

  /** A transition of a loaded attempt, up to the guarded update. */
  lemma TransitionFromEffect(b: Boundary, s: Store, q: TransitionRequest, i: nat, current: DeliveryAttempt)
    requires Inv(b, s) && OutcomeShape(q) && FindRow(s.rows, q.key.repository, q.attemptId) == Some(i)
    requires s.rows[i].key == q.key && current.state == StateOf(s.log, s.rows[i])
    requires current.key == q.key && current.attemptId == q.attemptId
    ensures TransitionKeeps(b, s, q, TransitionFrom(b, s, q, i, current).0, TransitionFrom(b, s, q, i, current).1)
  {
    var (s', r) := TransitionFrom(b, s, q, i, current);
    if !LexLess(q.completedAt, current.startedAt) && current.state.CanTransitionTo(q.state)
       && (q.state.Accepted? ==> !AcceptedElsewhere(s.rows, q)) {
      assert current.state.Claimed? by { CanOnlyLeaveClaimed(b, s, i, q.state); }
      assert (s', r) == ApplyTransition(b, s, q, i);
      ApplyEffect(b, s, q, i);
    } else {
      UnchangedKeeps(b, s, q, r);
    }
  }

  /** Every transaction of `record_transition` keeps the invariant and meets its specification; loading never
      finds the row and its log in disagreement. */
  lemma TransitionEffect(b: Boundary, s: Store, q: TransitionRequest)
    requires Inv(b, s)
    ensures TransitionKeeps(b, s, q, TransitionStep(b, s, q).0, TransitionStep(b, s, q).1)
  {
    var found := FindRow(s.rows, q.key.repository, q.attemptId);
    var invalid := ValidateTransition(b, q);
    if invalid.Some? {
      InvalidIsNotCorrupt(b, q);
      UnchangedKeeps(b, s, q, Failure(invalid.value));
    } else {
      ValidShape(b, q);
      if found.None? {
        UnchangedKeeps(b, s, q, Failure(AttemptNotFound));
      } else if s.rows[found.value].key.draft != q.key.draft || s.rows[found.value].key.revision != q.key.revision {
        UnchangedKeeps(b, s, q, Failure(StaleInput("attempt identity")));
      } else {
        Loads(b, s, found.value);
        TransitionFromEffect(b, s, q, found.value, Load(s, s.rows[found.value]).value);
      }
    }
  }

  lemma InvalidIsNotCorrupt(b: Boundary, q: TransitionRequest)
    ensures ValidateTransition(b, q) != Some(CorruptAttempt)
  {
  }
}
