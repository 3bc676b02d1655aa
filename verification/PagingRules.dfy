/** What a query asks of its filter and which rows it selects, field by field. */
module PagingRules {
  import opened Wrappers
  import opened Sequences
  import opened Redaction
  import opened Paging
  import Timestamps

  predicate IsTime(v: string) { Timestamps.IsUtcTimestamp(v) }

  predicate OptionalId(id: Option<string>, env: Surface) { id == None || env.safe(id.value) }

  predicate OptionalTime(v: Option<string>) { v == None || IsTime(v.value) }

  /** Repository and optional ids are safe, one to a hundred rows are asked for, and the range does not end before it
      starts. */
  predicate IsProper(filter: Filter, env: Surface) {
    && env.safe(filter.repositoryId) && 1 <= filter.pageSize <= 100
    && OptionalId(filter.objectType, env) && OptionalId(filter.objectId, env) && OptionalId(filter.transition, env)
    && OptionalTime(filter.occurredFrom) && OptionalTime(filter.occurredBefore)
    && (filter.occurredFrom.Some? && filter.occurredBefore.Some? ==>
          Timestamps.Instant(filter.occurredFrom.value) <= Timestamps.Instant(filter.occurredBefore.value))
  }

  /** The cursor stands at a row of this repository. */
  predicate IsHere(c: Cursor, repositoryId: string, env: Surface) {
    c.repositoryId == repositoryId && env.safe(repositoryId) && c.auditId >= 1 && IsTime(c.occurredAt)
  }

  lemma TimeIs(v: string)
    ensures Timestamps.ParseTimestamp(v).Some? <==> IsTime(v)
  {
    Timestamps.SameChecks(v);
  }

  lemma RangeIs(from: string, before: string)
    requires IsTime(from) && IsTime(before)
    ensures Timestamps.ParseTimestamp(from).Some? && Timestamps.ParseTimestamp(before).Some?
    ensures Timestamps.KeyLess(Timestamps.ParseTimestamp(before).value, Timestamps.ParseTimestamp(from).value)
      <==> Timestamps.Instant(before) < Timestamps.Instant(from)
  {
    Timestamps.KeyOrderIsTimeOrder(before, from);
  }

  /** A query is refused over its filter exactly if the filter is not proper, and else over its cursor exactly if that
      is not of the repository. */
  lemma RefusedExactlyIf(log: seq<Row>, filter: Filter, env: Surface)
    ensures !IsProper(filter, env) ==> RunQuery(log, filter, env) == Failure(InvalidFilter)
    ensures IsProper(filter, env) && filter.cursor.Some? && !IsHere(filter.cursor.value, filter.repositoryId, env)
      ==> RunQuery(log, filter, env) == Failure(InvalidCursor)
    ensures IsProper(filter, env) && (filter.cursor.Some? ==> IsHere(filter.cursor.value, filter.repositoryId, env))
      ==> ValidateFilter(filter, env) == None
  {
    if filter.occurredFrom.Some? { TimeIs(filter.occurredFrom.value); }
    if filter.occurredBefore.Some? { TimeIs(filter.occurredBefore.value); }
    if filter.cursor.Some? { TimeIs(filter.cursor.value.occurredAt); }
    if filter.occurredFrom.Some? && filter.occurredBefore.Some?
       && IsTime(filter.occurredFrom.value) && IsTime(filter.occurredBefore.value) {
      RangeIs(filter.occurredFrom.value, filter.occurredBefore.value);
    }
  }

  /** The event is of the repository, in the range by the database's numbers, and has what the filter names. */
  predicate Fits(e: Event, filter: Filter, env: Surface) {
    && e.repositoryId == filter.repositoryId
    && (filter.occurredFrom != None ==> env.clock(filter.occurredFrom.value) <= env.clock(e.occurredAt))
    && (filter.occurredBefore != None ==> env.clock(e.occurredAt) < env.clock(filter.occurredBefore.value))
    && (filter.objectType == None || filter.objectType == Some(e.objectType))
    && (filter.objectId == None || filter.objectId == Some(e.objectId))
    && (filter.transition == None || filter.transition == Some(e.transition))
  }

  /** The row has a later number than the cursor, or the same and a greater id. */
  predicate IsAfter(r: Row, c: Cursor, env: Surface) {
    var there, here := env.clock(c.occurredAt), env.clock(r.event.occurredAt);
    there < here || (there == here && c.auditId < r.auditId)
  }

  /** Exactly the rows of the log that fit the filter and come after its cursor are selected. */
  lemma SelectsExactly(log: seq<Row>, filter: Filter, env: Surface, r: Row)
    ensures Listed(Select(log, filter, env), r)
      <==> && Listed(log, r) && Fits(r.event, filter, env)
           && (filter.cursor != None ==> IsAfter(r, filter.cursor.value, env))
  {
    SelectLists(log, filter, env, r);
  }
}
