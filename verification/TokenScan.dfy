/** The search for text shaped like a bot token: the loop kept in two copies by the repository's policy checks, and the
    one of the audit log. A text is the sequence of its bytes. */
module TokenScan {
  import opened Text

  /** The policy checks count `=` as a token character, the audit log does not. */
  predicate IsTokenCharacter(c: char, equals: bool) {
    IsAsciiAlphanumeric(c) || c == '_' || c == '-' || (equals && c == '=')
  }

  predicate AllTokens(t: string, equals: bool, from: int, to: int) {
    0 <= from <= to <= |t| && forall i :: from <= i < to ==> IsTokenCharacter(t[i], equals)
  }

  predicate DotAt(t: string, i: int) { 0 <= i < |t| && t[i] == '.' }

  predicate Boundary(t: string, equals: bool, i: int) {
    0 <= i <= |t| && (i == 0 || !IsTokenCharacter(t[i - 1], equals))
  }

  /** From `start`, where no token character precedes: eight or more token characters, a dot at `first`, three or more,
      a dot at `second`, eight or more. */
  predicate ShapeAt(t: string, equals: bool, start: int, first: int, second: int) {
    && Boundary(t, equals, start)
    && first - start >= 8 && AllTokens(t, equals, start, first) && DotAt(t, first)
    && second - (first + 1) >= 3 && AllTokens(t, equals, first + 1, second) && DotAt(t, second)
    && AllTokens(t, equals, second + 1, second + 9)
  }

  ghost predicate ShapeFrom(t: string, equals: bool, start: int) {
    exists first, second :: ShapeAt(t, equals, start, first, second)
  }

  ghost predicate HasShape(t: string, equals: bool) { exists start :: ShapeFrom(t, equals, start) }

  /** End of the run of token characters that starts at `i`. */
  function RunEnd(t: string, equals: bool, i: nat): (end: nat)
    requires i <= |t|
    ensures i <= end <= |t|
    decreases |t| - i
  {
    if i < |t| && IsTokenCharacter(t[i], equals) then RunEnd(t, equals, i + 1) else i
  }

  lemma {:induction false} RunIsTokens(t: string, equals: bool, i: nat)
    requires i <= |t|
    ensures AllTokens(t, equals, i, RunEnd(t, equals, i))
    ensures RunEnd(t, equals, i) < |t| ==> !IsTokenCharacter(t[RunEnd(t, equals, i)], equals)
    decreases |t| - i
  {
    if i < |t| && IsTokenCharacter(t[i], equals) { RunIsTokens(t, equals, i + 1); }
  }

  datatype Runs = Runs(first: nat, second: nat, third: nat, cursor: nat)

  /** Lengths of the three runs joined by dots from `start`; a missing dot leaves the later runs at zero. */
  function Measure(t: string, equals: bool, start: nat): Runs
    requires start <= |t|
  {
    var a := RunEnd(t, equals, start);
    if !DotAt(t, a) then Runs(a - start, 0, 0, a)
    else
      var b := RunEnd(t, equals, a + 1);
      if !DotAt(t, b) then Runs(a - start, b - (a + 1), 0, b)
      else
        var c := RunEnd(t, equals, b + 1);
        Runs(a - start, b - (a + 1), c - (b + 1), c)
  }

  predicate LongEnough(r: Runs) { r.first >= 8 && r.second >= 3 && r.third >= 8 }

  lemma {:induction false} RunIsLongEnough(t: string, equals: bool, i: nat, end: nat)
    requires AllTokens(t, equals, i, end)
    ensures RunEnd(t, equals, i) >= end
    ensures end < |t| && !IsTokenCharacter(t[end], equals) ==> RunEnd(t, equals, i) == end
    decreases |t| - i
  {
    if i < end { RunIsLongEnough(t, equals, i + 1, end); }
  }

  lemma LongRunsAreAShape(t: string, equals: bool, start: nat)
    requires start <= |t| && Boundary(t, equals, start) && LongEnough(Measure(t, equals, start))
    ensures ShapeFrom(t, equals, start)
  {
    var a := RunEnd(t, equals, start);
    var b := RunEnd(t, equals, a + 1);
    RunIsTokens(t, equals, start);
    RunIsTokens(t, equals, a + 1);
    RunIsTokens(t, equals, b + 1);
    assert ShapeAt(t, equals, start, a, b);
  }

  lemma ShapeHasLongRuns(t: string, equals: bool, start: nat)
    requires start <= |t| && ShapeFrom(t, equals, start)
    ensures start < |t| && IsTokenCharacter(t[start], equals) && Boundary(t, equals, start)
    ensures LongEnough(Measure(t, equals, start))
  {
    var first, second :| ShapeAt(t, equals, start, first, second);
    RunIsLongEnough(t, equals, start, first);
    RunIsLongEnough(t, equals, first + 1, second);
    RunIsLongEnough(t, equals, second + 1, second + 9);
  }

  method SkipTokens(t: string, equals: bool, from: nat) returns (cursor: nat, length: nat)
    requires from <= |t|
    ensures cursor == RunEnd(t, equals, from) && length == cursor - from
  {
    cursor, length := from, 0;
    while cursor < |t| && IsTokenCharacter(t[cursor], equals)
      invariant from <= cursor <= |t| && RunEnd(t, equals, cursor) == RunEnd(t, equals, from) && length == cursor - from
    {
      cursor := cursor + 1;
      length := length + 1;
    }
  }

  /** Cell `index` of the three lengths. */
  function Put(r: Runs, index: nat, length: nat): Runs {
    if index == 0 then r.(first := length) else if index == 1 then r.(second := length) else r.(third := length)
  }

  /** Measuring on from run `index`, which starts at the cursor. */
  function MeasureFrom(t: string, equals: bool, index: nat, r: Runs): Runs
    requires r.cursor <= |t| && index < 3
    decreases 3 - index
  {
    var end := RunEnd(t, equals, r.cursor);
    var measured := Put(r, index, end - r.cursor).(cursor := end);
    if index == 2 || !DotAt(t, end) then measured
    else MeasureFrom(t, equals, index + 1, measured.(cursor := end + 1))
  }

  lemma MeasureUnrolls(t: string, equals: bool, start: nat)
    requires start <= |t|
    ensures MeasureFrom(t, equals, 0, Runs(0, 0, 0, start)) == Measure(t, equals, start)
  {
  }

  /** One turn: the run at the cursor is measured, giving `r'`; then measuring ends, or goes on behind the dot. */
  lemma MeasureTurn(t: string, equals: bool, index: nat, r: Runs, r': Runs)
    requires r.cursor <= |t| && index < 3
    requires var end := RunEnd(t, equals, r.cursor); r' == Put(r, index, end - r.cursor).(cursor := end)
    ensures MeasureFrom(t, equals, index, r)
      == if index == 2 || !DotAt(t, r'.cursor) then r'
         else MeasureFrom(t, equals, index + 1, r'.(cursor := r'.cursor + 1))
  {
  }

  method MeasureRuns(t: string, equals: bool, start: nat) returns (r: Runs)
    requires start <= |t|
    ensures r == Measure(t, equals, start)
  {
    MeasureUnrolls(t, equals, start);
    ghost var measured := Measure(t, equals, start);
    r := Runs(0, 0, 0, start);
    var index := 0;
    while true
      invariant r.cursor <= |t| && index < 3 && MeasureFrom(t, equals, index, r) == measured
      decreases 3 - index
    {
      ghost var before := r;
      var cursor, length := SkipTokens(t, equals, r.cursor);
      r := Put(r, index, length).(cursor := cursor);
      MeasureTurn(t, equals, index, before, r);
      if index == 2 || cursor >= |t| || t[cursor] != '.' { break; }
      r := r.(cursor := cursor + 1);
      index := index + 1;
    }
  }

  method ContainsDiscordTokenShape(t: string, equals: bool) returns (found: bool)
    ensures found <==> HasShape(t, equals)
  {
    for start := 0 to |t|
      invariant forall s :: 0 <= s < start ==> !ShapeFrom(t, equals, s)
    {
      if ShapeFrom(t, equals, start) { ShapeHasLongRuns(t, equals, start); }
      if IsTokenCharacter(t[start], equals) && (start == 0 || !IsTokenCharacter(t[start - 1], equals)) {
        var r := MeasureRuns(t, equals, start);
        if LongEnough(r) { RunIsTokens(t, equals, RunEnd(t, equals, RunEnd(t, equals, start) + 1) + 1); }
        if r.cursor <= |t| && LongEnough(r) && (r.cursor == |t| || !IsTokenCharacter(t[r.cursor], equals)) {
          LongRunsAreAShape(t, equals, start);
          return true;
        }
      }
    }
    forall s ensures !ShapeFrom(t, equals, s) {}
    return false;
  }

  // ---------- the audit log's loop ----------

  /** First dot at or after `from`, or the end of the text. */
  function NextDot(t: string, from: nat): (at: nat)
    requires from <= |t|
    ensures from <= at <= |t| && (at < |t| ==> t[at] == '.') && forall i :: from <= i < at ==> t[i] != '.'
    decreases |t| - from
  {
    if from < |t| && t[from] != '.' then NextDot(t, from + 1) else from
  }

  /** Between the dots after `start` stand two runs, and after the second a third. */
  predicate DottedAt(t: string, start: nat)
    requires start <= |t|
  {
    var a := NextDot(t, start);
    a < |t| &&
    var b := NextDot(t, a + 1);
    && b < |t|
    && a - start >= 8 && AllTokens(t, false, start, a)
    && b - (a + 1) >= 3 && AllTokens(t, false, a + 1, b)
    && RunEnd(t, false, b + 1) - (b + 1) >= 8
  }

  lemma {:induction false} DotEndsRun(t: string, i: nat, dot: nat)
    requires AllTokens(t, false, i, dot) && DotAt(t, dot)
    ensures NextDot(t, i) == dot
    decreases |t| - i
  {
  }

  lemma DottedIsAShape(t: string, start: nat)
    requires start <= |t| && Boundary(t, false, start) && DottedAt(t, start)
    ensures ShapeFrom(t, false, start)
  {
    var a := NextDot(t, start);
    var b := NextDot(t, a + 1);
    RunIsTokens(t, false, b + 1);
    assert ShapeAt(t, false, start, a, b);
  }

  lemma ShapeIsDotted(t: string, start: nat)
    requires start <= |t| && ShapeFrom(t, false, start)
    ensures start < |t| && Boundary(t, false, start) && DottedAt(t, start)
  {
    var first, second :| ShapeAt(t, false, start, first, second);
    DotEndsRun(t, start, first);
    DotEndsRun(t, first + 1, second);
    RunIsLongEnough(t, false, second + 1, second + 9);
  }

  predicate HasDottedShape(t: string) {
    exists start :: 0 <= start < |t| && Boundary(t, false, start) && DottedAt(t, start)
  }

  method HasDiscordTokenShape(t: string) returns (found: bool)
    ensures found <==> HasDottedShape(t)
  {
    for start := 0 to |t|
      invariant forall s :: 0 <= s < start ==> !(Boundary(t, false, s) && DottedAt(t, s))
    {
      if start > 0 && IsTokenCharacter(t[start - 1], false) { continue; }
      var firstEnd := NextDot(t, start);
      if firstEnd == |t| { continue; }
      var secondEnd := NextDot(t, firstEnd + 1);
      if secondEnd == |t| { continue; }
      var thirdEnd, third := SkipTokens(t, false, secondEnd + 1);
      if firstEnd - start >= 8 && secondEnd - (firstEnd + 1) >= 3 && third >= 8
         && AllTokens(t, false, start, firstEnd) && AllTokens(t, false, firstEnd + 1, secondEnd)
      {
        assert 0 <= start < |t| && Boundary(t, false, start) && DottedAt(t, start);
        return true;
      }
    }
    return false;
  }

  /** Looking for dots and looking for runs find the same texts. */
  lemma DottedIsShape(t: string)
    ensures HasDottedShape(t) <==> HasShape(t, false)
  {
    if HasDottedShape(t) {
      var start :| 0 <= start < |t| && Boundary(t, false, start) && DottedAt(t, start);
      DottedIsAShape(t, start);
    }
    if start :| ShapeFrom(t, false, start) {
      var first, second :| ShapeAt(t, false, start, first, second);
      ShapeIsDotted(t, start);
    }
  }
}
