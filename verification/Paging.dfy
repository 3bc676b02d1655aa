/** Queries over the audit log, page by page. The log is the sequence of its rows in the order of their ids. */
module Paging {
  import opened Wrappers
  import opened Sequences
  import opened Redaction
  import Timestamps

  const MAX_PAGE_SIZE := 100

  datatype Row = Row(auditId: int, event: Event)

  datatype Cursor = Cursor(repositoryId: string, occurredAt: string, auditId: int)

  datatype Filter = Filter(
    repositoryId: string, occurredFrom: Option<string>, occurredBefore: Option<string>, objectType: Option<string>,
    objectId: Option<string>, transition: Option<string>, pageSize: nat, cursor: Option<Cursor>)

  datatype Page = Page(rows: seq<Row>, truncated: bool, next: Option<Cursor>)

  datatype QueryError = InvalidFilter | InvalidCursor | UnsafeStoredEvidence | Storage

  /** What a query relies on: the number the database makes of a timestamp, the identifiers that are safe, and how a
      stored event is read back. */
  datatype Surface = Surface(clock: string -> int, safe: string -> bool, read: Event -> Option<Event>)

  /** The surface of the audit crate, for a database clock. */
  function TheSurface(clock: string -> int, tests: Tests): Surface {
    Surface(clock, s => IsSafeIdentifier(s, tests),
            e => match ReadBack(e, tests) case Success(r) => Some(r) case Failure(_) => None)
  }

  predicate IdentifierOption(s: Option<string>, env: Surface) { s.Some? ==> env.safe(s.value) }

  predicate TimestampOption(s: Option<string>) { s.Some? ==> Timestamps.ParseTimestamp(s.value).Some? }

  predicate RangeIsOrdered(filter: Filter)
    requires TimestampOption(filter.occurredFrom) && TimestampOption(filter.occurredBefore)
  {
    filter.occurredFrom.Some? && filter.occurredBefore.Some? ==>
      !Timestamps.KeyLess(Timestamps.ParseTimestamp(filter.occurredBefore.value).value,
                          Timestamps.ParseTimestamp(filter.occurredFrom.value).value)
  }

  predicate ValidCursor(c: Cursor, repositoryId: string, env: Surface) {
    && env.safe(c.repositoryId) && Timestamps.ParseTimestamp(c.occurredAt).Some? && c.auditId > 0
    && c.repositoryId == repositoryId
  }

  function ValidateFilter(filter: Filter, env: Surface): Option<QueryError> {
    if !env.safe(filter.repositoryId) || filter.pageSize == 0 || filter.pageSize > MAX_PAGE_SIZE
       || !IdentifierOption(filter.objectType, env) || !IdentifierOption(filter.objectId, env)
       || !IdentifierOption(filter.transition, env)
    then Some(InvalidFilter)
    else if !TimestampOption(filter.occurredFrom) || !TimestampOption(filter.occurredBefore) || !RangeIsOrdered(filter)
    then Some(InvalidFilter)
    else if filter.cursor.Some? && !ValidCursor(filter.cursor.value, filter.repositoryId, env) then Some(InvalidCursor)
    else None
  }

  predicate Matches(e: Event, filter: Filter, env: Surface) {
    && e.repositoryId == filter.repositoryId
    && (filter.occurredFrom.Some? ==> env.clock(e.occurredAt) >= env.clock(filter.occurredFrom.value))
    && (filter.occurredBefore.Some? ==> env.clock(e.occurredAt) < env.clock(filter.occurredBefore.value))
    && (filter.objectType.Some? ==> e.objectType == filter.objectType.value)
    && (filter.objectId.Some? ==> e.objectId == filter.objectId.value)
    && (filter.transition.Some? ==> e.transition == filter.transition.value)
  }

  /** The row comes after the cursor. */
  predicate Beyond(r: Row, cursor: Option<Cursor>, env: Surface) {
    cursor.Some? ==>
      || env.clock(r.event.occurredAt) > env.clock(cursor.value.occurredAt)
      || (env.clock(r.event.occurredAt) == env.clock(cursor.value.occurredAt) && r.auditId > cursor.value.auditId)
  }

  predicate Before(a: Row, b: Row, env: Surface) {
    || env.clock(a.event.occurredAt) < env.clock(b.event.occurredAt)
    || (env.clock(a.event.occurredAt) == env.clock(b.event.occurredAt) && a.auditId < b.auditId)
  }

  predicate Wanted(r: Row, filter: Filter, env: Surface) {
    Matches(r.event, filter, env) && Beyond(r, filter.cursor, env)
  }

  function InsertRow(rows: seq<Row>, r: Row, env: Surface): seq<Row> {
    if rows == [] || Before(r, rows[0], env) then [r] + rows else [rows[0]] + InsertRow(rows[1..], r, env)
  }

  /** The wanted rows of the log in the order of time and id. */
  function Select(log: seq<Row>, filter: Filter, env: Surface): seq<Row> {
    if log == [] then []
    else
      var front, r := Select(log[..|log| - 1], filter, env), log[|log| - 1];
      if Wanted(r, filter, env) then InsertRow(front, r, env) else front
  }

  function Take<T>(s: seq<T>, n: nat): seq<T> { if |s| <= n then s else s[..n] }

  predicate Readable(r: Row, env: Surface) { env.read(r.event).Some? }

  /** The rows as the query returns them. */
  function ReadRows(rows: seq<Row>, env: Surface): Result<seq<Row>, QueryError> {
    if rows == [] then Success([])
    else
      var front, r := ReadRows(rows[..|rows| - 1], env), rows[|rows| - 1];
      if front.Failure? then front
      else if !Readable(r, env) then Failure(UnsafeStoredEvidence)
      else Success(front.value + [r.(event := env.read(r.event).value)])
  }

  function CursorAt(repositoryId: string, r: Row): Cursor { Cursor(repositoryId, r.event.occurredAt, r.auditId) }

  function PageOf(fetched: seq<Row>, repositoryId: string, size: nat, env: Surface): Result<Page, QueryError> {
    var rows := ReadRows(Take(fetched, size), env);
    if rows.Failure? then Failure(rows.error)
    else if |fetched| <= size then Success(Page(rows.value, false, None))
    else if rows.value == [] then Failure(Storage)
    else
      var cursor := CursorAt(repositoryId, rows.value[|rows.value| - 1]);
      if ValidCursor(cursor, repositoryId, env) then Success(Page(rows.value, true, Some(cursor))) else Failure(Storage)
  }

  function RunQuery(log: seq<Row>, filter: Filter, env: Surface): Result<Page, QueryError> {
    var invalid := ValidateFilter(filter, env);
    if invalid.Some? then Failure(invalid.value)
    else PageOf(Take(Select(log, filter, env), filter.pageSize + 1), filter.repositoryId, filter.pageSize, env)
  }

  /** The query: rows are fetched up to one more than the page holds, which tells whether more remain. */
  method Query(log: seq<Row>, filter: Filter, env: Surface) returns (r: Result<Page, QueryError>)
    ensures r == RunQuery(log, filter, env)
  {
    var invalid := ValidateFilter(filter, env);
    if invalid.Some? { return Failure(invalid.value); }
    var selected := Select(log, filter, env);
    var records: seq<Row> := [];
    for i := 0 to |selected|
      invariant records == Take(selected[..i], filter.pageSize + 1)
    {
      assert selected[..i + 1] == selected[..i] + [selected[i]];
      if |records| < filter.pageSize + 1 { records := records + [selected[i]]; }
    }
    assert selected[..|selected|] == selected;
    var truncated := |records| > filter.pageSize;
    var fetched := records;
    records := Take(records, filter.pageSize);
    var rows: seq<Row> := [];
    for i := 0 to |records|
      invariant ReadRows(records[..i], env) == Success(rows)
    {
      assert records[..i + 1][..i] == records[..i];
      if !Readable(records[i], env) {
        UnreadableFails(records, i, env);
        return Failure(UnsafeStoredEvidence);
      }
      rows := rows + [records[i].(event := env.read(records[i].event).value)];
    }
    assert records[..|records|] == records;
    if !truncated { return Success(Page(rows, false, None)); }
    if rows == [] { return Failure(Storage); }
    var cursor := CursorAt(filter.repositoryId, rows[|rows| - 1]);
    r := if ValidCursor(cursor, filter.repositoryId, env) then Success(Page(rows, true, Some(cursor)))
      else Failure(Storage);
  }

  lemma {:induction false} UnreadableFails(rows: seq<Row>, i: nat, env: Surface)
    requires i < |rows| && !Readable(rows[i], env) && ReadRows(rows[..i], env).Success?
    ensures ReadRows(rows, env) == Failure(UnsafeStoredEvidence)
  {
    var n := |rows| - 1;
    if i < n {
      assert rows[..n][..i] == rows[..i];
      UnreadableFails(rows[..n], i, env);
    }
  }

  // ---------- the selection ----------

  /** Rows as the log writes them: numbered upward from one, and each read back as it was written. */
  predicate ValidLog(log: seq<Row>, env: Surface) {
    && (forall i :: 0 <= i < |log| ==> ValidLogRow(log[i], env))
    && (forall i, j :: 0 <= i < j < |log| ==> log[i].auditId < log[j].auditId)
  }

  predicate ValidLogRow(r: Row, env: Surface) {
    r.auditId > 0 && env.read(r.event) == Some(r.event) && Timestamps.IsUtcTimestamp(r.event.occurredAt)
  }

  predicate Ascending(rows: seq<Row>, env: Surface) {
    forall i, j :: 0 <= i < j < |rows| ==> Before(rows[i], rows[j], env)
  }

  lemma {:induction false} InsertLists(rows: seq<Row>, r: Row, env: Surface, x: Row)
    ensures Listed(InsertRow(rows, r, env), x) <==> x == r || Listed(rows, x)
  {
    if rows == [] || Before(r, rows[0], env) {
      ListedCons(r, rows, x);
    } else {
      InsertLists(rows[1..], r, env, x);
      ListedCons(rows[0], InsertRow(rows[1..], r, env), x);
      ListedCons(rows[0], rows[1..], x);
      assert rows == [rows[0]] + rows[1..];
    }
  }

  lemma ConsAscends(r: Row, rows: seq<Row>, env: Surface)
    requires Ascending(rows, env) && forall i :: 0 <= i < |rows| ==> Before(r, rows[i], env)
    ensures Ascending([r] + rows, env)
  {
  }

  lemma {:induction false} InsertAscends(rows: seq<Row>, r: Row, env: Surface)
    requires Ascending(rows, env) && forall i :: 0 <= i < |rows| ==> rows[i].auditId != r.auditId
    ensures Ascending(InsertRow(rows, r, env), env)
  {
    if rows == [] || Before(r, rows[0], env) {
      forall i | 0 <= i < |rows| ensures Before(r, rows[i], env) { if i > 0 { assert Before(rows[0], rows[i], env); } }
      ConsAscends(r, rows, env);
    } else {
      InsertAscends(rows[1..], r, env);
      var tail := InsertRow(rows[1..], r, env);
      forall i | 0 <= i < |tail| ensures Before(rows[0], tail[i], env) {
        InsertLists(rows[1..], r, env, tail[i]);
        assert Listed(tail, tail[i]);
        if tail[i] != r {
          var k :| 0 <= k < |rows[1..]| && rows[1..][k] == tail[i];
          assert Before(rows[0], rows[k + 1], env);
        }
      }
      ConsAscends(rows[0], tail, env);
    }
  }

  lemma {:induction false} SelectLists(log: seq<Row>, filter: Filter, env: Surface, x: Row)
    ensures Listed(Select(log, filter, env), x) <==> Listed(log, x) && Wanted(x, filter, env)
  {
    if log != [] {
      var n := |log| - 1;
      SelectLists(log[..n], filter, env, x);
      InsertLists(Select(log[..n], filter, env), log[n], env, x);
      ListedSnoc(log[..n], log[n], x);
      assert log == log[..n] + [log[n]];
    }
  }

  lemma {:induction false} SelectAscends(log: seq<Row>, filter: Filter, env: Surface)
    requires ValidLog(log, env)
    ensures Ascending(Select(log, filter, env), env)
  {
    if log != [] {
      var n := |log| - 1;
      var front := Select(log[..n], filter, env);
      SelectAscends(log[..n], filter, env);
      forall i | 0 <= i < |front| ensures front[i].auditId != log[n].auditId {
        assert Listed(front, front[i]);
        SelectLists(log[..n], filter, env, front[i]);
        var k :| 0 <= k < n && log[..n][k] == front[i];
        assert log[k].auditId < log[n].auditId;
      }
      InsertAscends(front, log[n], env);
    }
  }

  // ---------- one page ----------

  lemma {:induction false} ValidRowsAreRead(rows: seq<Row>, env: Surface)
    requires forall i :: 0 <= i < |rows| ==> ValidLogRow(rows[i], env)
    ensures ReadRows(rows, env) == Success(rows)
  {
    if rows != [] {
      var n := |rows| - 1;
      ValidRowsAreRead(rows[..n], env);
      assert ValidLogRow(rows[n], env);
      assert rows == rows[..n] + [rows[n]];
    }
  }

  lemma TakeKeeps(rows: seq<Row>, n: nat, env: Surface)
    requires Ascending(rows, env)
    ensures Ascending(Take(rows, n), env)
    ensures forall x :: Listed(rows, x) ==>
            Listed(Take(rows, n), x) || (|rows| > n && (n > 0 ==> Before(rows[n - 1], x, env)))
    ensures forall x :: Listed(Take(rows, n), x) ==> Listed(rows, x)
  {
  }

  lemma TakeTwice<T>(s: seq<T>, n: nat)
    ensures Take(Take(s, n + 1), n) == Take(s, n) && (|Take(s, n + 1)| <= n <==> |s| <= n)
  {
  }

  /** What a page is of the rows selected. */
  predicate IsPageOf(page: Page, selected: seq<Row>, repositoryId: string, size: nat) {
    && page.rows == Take(selected, size) && (page.truncated ==> page.rows != [])
    && page.truncated == (|selected| > size)
    && page.next == if page.truncated then Some(CursorAt(repositoryId, page.rows[|page.rows| - 1])) else None
  }

  lemma LastIsValidCursor(last: Row, repositoryId: string, env: Surface)
    requires ValidLogRow(last, env) && env.safe(repositoryId)
    ensures ValidCursor(CursorAt(repositoryId, last), repositoryId, env)
  {
  }

  lemma PageOfValid(selected: seq<Row>, repositoryId: string, size: nat, env: Surface) returns (page: Page)
    requires size > 0 && env.safe(repositoryId) && forall i :: 0 <= i < |selected| ==> ValidLogRow(selected[i], env)
    ensures PageOf(Take(selected, size + 1), repositoryId, size, env) == Success(page)
    ensures IsPageOf(page, selected, repositoryId, size)
    ensures page.next.Some? ==> ValidCursor(page.next.value, repositoryId, env)
  {
    TakeTwice(selected, size);
    ValidRowsAreRead(Take(selected, size), env);
    if |selected| > size { LastIsValidCursor(selected[size - 1], repositoryId, env); }
    page := PageOf(Take(selected, size + 1), repositoryId, size, env).value;
  }

  lemma ValidFacts(filter: Filter, env: Surface)
    requires ValidateFilter(filter, env) == None
    ensures env.safe(filter.repositoryId) && 1 <= filter.pageSize <= MAX_PAGE_SIZE
  {
  }

  lemma NextIsValid(filter: Filter, next: Option<Cursor>, env: Surface)
    requires ValidateFilter(filter, env) == None && (next.Some? ==> ValidCursor(next.value, filter.repositoryId, env))
    ensures ValidateFilter(filter.(cursor := next), env) == None
  {
  }

  lemma SelectedIsValid(log: seq<Row>, filter: Filter, env: Surface)
    requires ValidLog(log, env)
    ensures forall i :: 0 <= i < |Select(log, filter, env)| ==> ValidLogRow(Select(log, filter, env)[i], env)
  {
    var selected := Select(log, filter, env);
    forall i | 0 <= i < |selected| ensures ValidLogRow(selected[i], env) {
      assert Listed(selected, selected[i]);
      SelectLists(log, filter, env, selected[i]);
    }
  }

  /** On a log as it is written, a valid query succeeds: the page is the first rows of the selection, `truncated` says
      whether more remain, and the cursor, which is valid, is at the last row. */
  lemma QuerySucceeds(log: seq<Row>, filter: Filter, env: Surface) returns (page: Page)
    requires ValidLog(log, env) && ValidateFilter(filter, env) == None
    ensures RunQuery(log, filter, env) == Success(page)
    ensures IsPageOf(page, Select(log, filter, env), filter.repositoryId, filter.pageSize)
    ensures ValidateFilter(filter.(cursor := page.next), env) == None && filter.pageSize > 0
  {
    ValidFacts(filter, env);
    SelectedIsValid(log, filter, env);
    page := PageOfValid(Select(log, filter, env), filter.repositoryId, filter.pageSize, env);
    NextIsValid(filter, page.next, env);
  }

  // ---------- page after page ----------

  /** Pages read one after another, each from the cursor of the one before, from logs that may have grown meanwhile. */
  datatype Walk = Walk(rows: seq<Row>, pages: nat, finished: bool)

  function Follow(logs: seq<seq<Row>>, filter: Filter, env: Surface): Result<Walk, QueryError> {
    if logs == [] then Success(Walk([], 0, false))
    else
      match RunQuery(logs[0], filter, env)
      case Failure(e) => Failure(e)
      case Success(page) =>
        if page.next.None? then Success(Walk(page.rows, 1, true))
        else
          match Follow(logs[1..], filter.(cursor := page.next), env)
          case Failure(e) => Failure(e)
          case Success(rest) => Success(Walk(page.rows + rest.rows, 1 + rest.pages, rest.finished))
  }

  /** Rows are only ever appended. */
  predicate Growing(logs: seq<seq<Row>>, env: Surface) {
    && (forall k :: 0 <= k < |logs| ==> ValidLog(logs[k], env))
    && (forall k :: 0 <= k < |logs| - 1 ==> logs[k] <= logs[k + 1])
  }

  lemma GrowingTail(logs: seq<seq<Row>>, env: Surface)
    requires Growing(logs, env) && logs != []
    ensures Growing(logs[1..], env)
  {
  }

  lemma PrefixLists(a: seq<Row>, b: seq<Row>, x: Row)
    requires a <= b && Listed(a, x)
    ensures Listed(b, x)
  {
  }

  lemma BeyondIsAfter(filter: Filter, last: Row, x: Row, env: Surface)
    ensures Wanted(x, filter.(cursor := Some(CursorAt(filter.repositoryId, last))), env)
      <==> Matches(x.event, filter, env) && Before(last, x, env)
  {
  }

  lemma BeyondIsTransitive(filter: Filter, last: Row, x: Row, env: Surface)
    requires Wanted(last, filter, env) && Before(last, x, env) && Matches(x.event, filter, env)
    ensures Wanted(x, filter, env)
  {
  }

  lemma AscendingConcat(a: seq<Row>, b: seq<Row>, env: Surface)
    requires Ascending(a, env) && Ascending(b, env) && a != []
    requires forall i :: 0 <= i < |b| ==> Before(a[|a| - 1], b[i], env)
    ensures Ascending(a + b, env)
  {
  }

  lemma ListedConcat(a: seq<Row>, b: seq<Row>, x: Row)
    ensures Listed(a + b, x) <==> Listed(a, x) || Listed(b, x)
  {
    if Listed(a, x) { var i :| 0 <= i < |a| && a[i] == x; assert (a + b)[i] == x; }
    if Listed(b, x) { var i :| 0 <= i < |b| && b[i] == x; assert (a + b)[|a| + i] == x; }
    if Listed(a + b, x) {
      var i :| 0 <= i < |a + b| && (a + b)[i] == x;
      if i < |a| { assert a[i] == x; } else { assert b[i - |a|] == x; }
    }
  }

  /** What one page gives, and what is left for the cursor. */
  lemma PageSplits(log: seq<Row>, filter: Filter, env: Surface, page: Page)
    requires ValidLog(log, env) && ValidateFilter(filter, env) == None && RunQuery(log, filter, env) == Success(page)
    ensures Ascending(page.rows, env) && ValidateFilter(filter.(cursor := page.next), env) == None
    ensures forall x :: Listed(page.rows, x) ==> Listed(log, x) && Wanted(x, filter, env)
    ensures page.next.None?
      ==> forall x :: Listed(log, x) && Wanted(x, filter, env) ==> Listed(page.rows, x)
    ensures page.next.Some? ==>
            page.rows != [] && page.next == Some(CursorAt(filter.repositoryId, page.rows[|page.rows| - 1]))
    ensures page.next.Some?
      ==> forall x :: Listed(log, x) && Wanted(x, filter, env) ==>
        Listed(page.rows, x) || Wanted(x, filter.(cursor := page.next), env)
  {
    var same := QuerySucceeds(log, filter, env);
    var selected := Select(log, filter, env);
    SelectAscends(log, filter, env);
    TakeKeeps(selected, filter.pageSize, env);
    forall x ensures Listed(selected, x) <==> Listed(log, x) && Wanted(x, filter, env) {
      SelectLists(log, filter, env, x);
    }
    if page.next.Some? {
      var last := page.rows[|page.rows| - 1];
      assert last == selected[filter.pageSize - 1];
      forall x | Listed(log, x) && Wanted(x, filter, env) && !Listed(page.rows, x)
        ensures Wanted(x, filter.(cursor := page.next), env)
      {
        assert Listed(selected, x);
        BeyondIsAfter(filter, last, x, env);
      }
    }
  }

  /** Every row returned is wanted, none is returned twice, the order is that of time and id; and once the last page is
      read, every row that was wanted at the start has been returned. */
  lemma {:induction false} FollowReturnsEachOnce(logs: seq<seq<Row>>, filter: Filter, env: Surface)
    requires Growing(logs, env) && ValidateFilter(filter, env) == None
    ensures Follow(logs, filter, env).Success?
    ensures Ascending(Follow(logs, filter, env).value.rows, env)
    ensures forall x :: Listed(Follow(logs, filter, env).value.rows, x) ==> Wanted(x, filter, env)
    ensures logs != [] && Follow(logs, filter, env).value.finished
      ==> forall x :: Listed(logs[0], x) && Wanted(x, filter, env) ==> Listed(Follow(logs, filter, env).value.rows, x)
  {
    if logs != [] {
      var page := QuerySucceeds(logs[0], filter, env);
      PageSplits(logs[0], filter, env, page);
      if page.next.Some? {
        var next := filter.(cursor := page.next);
        GrowingTail(logs, env);
        FollowReturnsEachOnce(logs[1..], next, env);
        var rest := Follow(logs[1..], next, env).value;
        JoinWalks(logs, filter, env, page, rest);
      }
    }
  }

  lemma JoinWalks(logs: seq<seq<Row>>, filter: Filter, env: Surface, page: Page, rest: Walk)
    requires Growing(logs, env) && ValidateFilter(filter, env) == None && logs != []
    requires RunQuery(logs[0], filter, env) == Success(page) && page.next.Some?
    requires Ascending(rest.rows, env)
    requires forall x :: Listed(rest.rows, x) ==> Wanted(x, filter.(cursor := page.next), env)
    requires |logs| > 1 && rest.finished
      ==> forall x :: Listed(logs[1], x) && Wanted(x, filter.(cursor := page.next), env) ==> Listed(rest.rows, x)
    requires |logs| == 1 ==> !rest.finished
    ensures Ascending(page.rows + rest.rows, env)
    ensures forall x :: Listed(page.rows + rest.rows, x) ==> Wanted(x, filter, env)
    ensures rest.finished ==> forall x :: Listed(logs[0], x) && Wanted(x, filter, env) ==>
            Listed(page.rows + rest.rows, x)
  {
    PageSplits(logs[0], filter, env, page);
    var last := page.rows[|page.rows| - 1];
    assert Listed(page.rows, last);
    forall x | Listed(rest.rows, x) ensures Before(last, x, env) && Wanted(x, filter, env) {
      BeyondIsAfter(filter, last, x, env);
      BeyondIsTransitive(filter, last, x, env);
    }
    forall i | 0 <= i < |rest.rows| ensures Before(last, rest.rows[i], env) { assert Listed(rest.rows, rest.rows[i]); }
    AscendingConcat(page.rows, rest.rows, env);
    forall x ensures Listed(page.rows + rest.rows, x) <==> Listed(page.rows, x) || Listed(rest.rows, x) {
      ListedConcat(page.rows, rest.rows, x);
    }
    if rest.finished {
      forall x | Listed(logs[0], x) && Wanted(x, filter, env) ensures Listed(page.rows + rest.rows, x) {
        if !Listed(page.rows, x) { PrefixLists(logs[0], logs[1], x); }
      }
    }
  }

  // ---------- an unchanging log ----------

  lemma FirstIsListed(rows: seq<Row>)
    requires rows != []
    ensures Listed(rows, rows[0])
  {
  }

  lemma HeadIsListed(rows: seq<Row>, x: Row)
    requires Listed(rows, x)
    ensures rows != [] && Listed(rows, rows[0])
  {
  }

  lemma {:induction false} AscendingIsUnique(a: seq<Row>, b: seq<Row>, env: Surface)
    requires Ascending(a, env) && Ascending(b, env) && forall x :: Listed(a, x) <==> Listed(b, x)
    ensures a == b
  {
    if a == [] {
      if b != [] { FirstIsListed(b); }
    } else {
      assert Listed(a, a[0]);
      HeadIsListed(b, a[0]);
      var i :| 0 <= i < |a| && a[i] == b[0];
      var j :| 0 <= j < |b| && b[j] == a[0];
      FirstIsFirst(a, i, env);
      FirstIsFirst(b, j, env);
      forall x ensures Listed(a[1..], x) <==> Listed(b[1..], x) { TailLists(a, b, x, env); }
      AscendingIsUnique(a[1..], b[1..], env);
    }
  }

  lemma FirstIsFirst(rows: seq<Row>, i: int, env: Surface)
    requires Ascending(rows, env) && 0 <= i < |rows|
    ensures rows[i] == rows[0] || Before(rows[0], rows[i], env)
  {
  }

  lemma TailLists(a: seq<Row>, b: seq<Row>, x: Row, env: Surface)
    requires Ascending(a, env) && Ascending(b, env) && a != [] && b != [] && a[0] == b[0]
             && (Listed(a, x) <==> Listed(b, x))
    ensures Listed(a[1..], x) <==> Listed(b[1..], x)
  {
  }

  /** What is selected from the cursor of a page is what the page left. */
  lemma SelectedAfterPage(log: seq<Row>, filter: Filter, env: Surface, page: Page)
    requires ValidLog(log, env) && ValidateFilter(filter, env) == None && RunQuery(log, filter, env) == Success(page)
             && page.next.Some?
    ensures |Select(log, filter, env)| > filter.pageSize
    ensures Select(log, filter.(cursor := page.next), env) == Select(log, filter, env)[filter.pageSize..]
  {
    var same := QuerySucceeds(log, filter, env);
    var selected, n := Select(log, filter, env), filter.pageSize;
    var last := selected[n - 1];
    assert page.next == Some(CursorAt(filter.repositoryId, last));
    var next := filter.(cursor := page.next);
    var left := selected[n..];
    SelectAscends(log, filter, env);
    SelectAscends(log, next, env);
    forall i, j | 0 <= i < j < |left| ensures Before(left[i], left[j], env) {
      assert Before(selected[n + i], selected[n + j], env);
    }
    forall x ensures Listed(left, x) <==> Listed(Select(log, next, env), x) {
      SelectLists(log, filter, env, x);
      SelectLists(log, filter, env, last);
      SelectLists(log, next, env, x);
      assert Listed(selected, last);
      LeftIsWanted(selected, n, filter, env, x, Listed(log, x));
    }
    AscendingIsUnique(Select(log, next, env), left, env);
  }

  lemma LeftIsWanted(selected: seq<Row>, n: nat, filter: Filter, env: Surface, x: Row, logged: bool)
    requires Ascending(selected, env) && 1 <= n <= |selected| && Wanted(selected[n - 1], filter, env)
    requires Listed(selected, x) <==> logged && Wanted(x, filter, env)
    ensures Listed(selected[n..], x)
      <==> logged && Wanted(x, filter.(cursor := Some(CursorAt(filter.repositoryId, selected[n - 1]))), env)
  {
  }

  /** Pages that `m` rows fill: at least one, and as many as needed. */
  function PagesFor(m: nat, size: nat): nat
    requires size > 0
  {
    if m <= size then 1 else 1 + PagesFor(m - size, size)
  }

  lemma {:induction false} PagesForIsCeiling(m: nat, size: nat)
    requires size > 0
    ensures PagesFor(m, size) >= 1 && m <= PagesFor(m, size) * size
    ensures m > 0 ==> (PagesFor(m, size) - 1) * size < m
  {
    if m > size { PagesForIsCeiling(m - size, size); }
  }

  lemma FollowUnfolds(logs: seq<seq<Row>>, filter: Filter, env: Surface, page: Page, rest: Walk)
    requires logs != [] && RunQuery(logs[0], filter, env) == Success(page)
    requires page.next.Some? ==> Follow(logs[1..], filter.(cursor := page.next), env) == Success(rest)
    ensures Follow(logs, filter, env)
      == Success(if page.next.None? then Walk(page.rows, 1, true)
                 else Walk(page.rows + rest.rows, 1 + rest.pages, rest.finished))
  {
  }

  predicate AllAre(logs: seq<seq<Row>>, log: seq<Row>) { forall k :: 0 <= k < |logs| ==> logs[k] == log }

  /** The walk that returns `selected` in as few pages as it fills. */
  function FullWalk(selected: seq<Row>, size: nat): Walk
    requires size > 0
  {
    Walk(selected, PagesFor(|selected|, size), true)
  }

  lemma FirstPageAndRest(selected: seq<Row>, size: nat, page: Page)
    requires size > 0 && page.next.Some? && IsPageOf(page, selected, page.next.value.repositoryId, size)
    ensures |selected| > size
    ensures var rest := FullWalk(selected[size..], size);
      FullWalk(selected, size) == Walk(page.rows + rest.rows, 1 + rest.pages, rest.finished)
  {
  }

  /** On a log that does not change, the walk takes exactly the pages needed, and returns the selection. */
  lemma {:induction false} UnchangingLog(log: seq<Row>, logs: seq<seq<Row>>, filter: Filter, env: Surface)
    requires ValidLog(log, env) && ValidateFilter(filter, env) == None && filter.pageSize > 0 && AllAre(logs, log)
    requires |logs| >= PagesFor(|Select(log, filter, env)|, filter.pageSize)
    ensures Follow(logs, filter, env) == Success(FullWalk(Select(log, filter, env), filter.pageSize))
    decreases |logs|
  {
    var selected := Select(log, filter, env);
    var page := QuerySucceeds(log, filter, env);
    assert logs[0] == log;
    var rest := FullWalk(selected, filter.pageSize);
    if page.next.Some? {
      SelectedAfterPage(log, filter, env, page);
      FirstPageAndRest(selected, filter.pageSize, page);
      UnchangingLog(log, logs[1..], filter.(cursor := page.next), env);
      rest := FullWalk(selected[filter.pageSize..], filter.pageSize);
    }
    FollowUnfolds(logs, filter, env, page, rest);
  }

  /** Rows that the audit service wrote are read back as they are. */
  lemma WrittenRowsAreValid(r: Row, e: Event, clock: string -> int, tests: Tests)
    requires tests == TheTests() && r.auditId > 0
    requires ToStateInput(WithMetadata(e, tests), tests) == Success(r.event)
    ensures ValidLogRow(r, TheSurface(clock, tests))
  {
    StoredIsRead(e, tests);
    RowTimestamp(e, r.event, tests);
  }

  lemma RowTimestamp(e: Event, row: Event, tests: Tests)
    requires IsStored(e, row, tests) && ToStateInput(WithMetadata(e, tests), tests) == Success(row)
    ensures Timestamps.IsUtcTimestamp(row.occurredAt)
  {
  }
}
