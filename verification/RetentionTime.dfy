/** The timestamp parser of retention and purge, against the instants of `Timestamps`, and what a cutoff makes of the
    two timestamps of one attempt. */
module RetentionTime {
  import opened Wrappers
  import opened Text
  import opened Gregorian
  import opened Timestamps

  const NANOS: int := 1_000_000_000

  // ---------- days ----------

  /** Days since the epoch, by arithmetic on years that start in March. */
  function DaysFromCivil(d: Date): int {
    var y := if d.month <= 2 then d.year - 1 else d.year;
    var era := Quotient(if y >= 0 then y else y - 399, 400);
    var yearOfEra := y - era * 400;
    var shiftedMonth := if d.month > 2 then d.month - 3 else d.month + 9;
    var dayOfYear := Quotient(153 * shiftedMonth + 2, 5) + d.day - 1;
    var dayOfEra := yearOfEra * 365 + Quotient(yearOfEra, 4) - Quotient(yearOfEra, 100) + dayOfYear;
    era * 146_097 + dayOfEra - 719_468
  }

  lemma YearEraIsFloor(y: int)
    ensures var era := Quotient(if y >= 0 then y else y - 399, 400); era == y / 400 && 0 <= y - era * 400 < 400
  {
  }

  lemma EraDays(era: int, yearOfEra: int)
    requires 0 <= yearOfEra < 400
    ensures var y := era * 400 + yearOfEra;
            365 * y + LeapDays(y) == era * 146_097 + yearOfEra * 365 + yearOfEra / 4 - yearOfEra / 100
  {
    var y := era * 400 + yearOfEra;
    assert y / 4 == era * 100 + yearOfEra / 4;
    assert y / 100 == era * 4 + yearOfEra / 100;
    assert y / 400 == era;
  }

  lemma MonthTable(year: int, month: int)
    requires 1 <= month <= 12
    ensures month <= 2 ==> DaysBeforeCivilMonth(year, month) + 306 == (153 * (month + 9) + 2) / 5
    ensures month > 2 ==>
              DaysBeforeCivilMonth(year, month)
              == (153 * (month - 3) + 2) / 5 + 59 + if IsLeapYear(year) then 1 else 0
  {
    assert DaysBeforeCivilMonth(year, 4) == 31 + DaysInMonth(year, 2) + 31;
    if month > 4 { assert DaysBeforeCivilMonth(year, 8) == DaysBeforeCivilMonth(year, 4) + 122; }
    if month > 8 { assert DaysBeforeCivilMonth(year, 12) == DaysBeforeCivilMonth(year, 8) + 122; }
  }

  /** The arithmetic counts the days of the calendar. */
  lemma DaysFromCivilCounts(d: Date)
    requires ValidDate(d)
    ensures DaysFromCivil(d) == DayNumber(d)
  {
    var y := if d.month <= 2 then d.year - 1 else d.year;
    YearEraIsFloor(y);
    EraDays(y / 400, y - y / 400 * 400);
    MarchCounts(d);
  }

  /** The days of whole years from March on, and of the months and days after them. */
  lemma MarchCounts(d: Date)
    requires ValidDate(d)
    ensures var y := if d.month <= 2 then d.year - 1 else d.year;
            var m := if d.month > 2 then d.month - 3 else d.month + 9;
            DayNumber(d) == 365 * y + LeapDays(y) + (153 * m + 2) / 5 + d.day - 1 - 719_468
  {
    MonthTable(d.year, d.month);
    if d.month > 2 { LeapDaysStep(d.year); }
  }

  // ---------- fractions ----------

  /** The digits at the start. */
  function DigitRun(s: string): (n: nat)
    ensures n <= |s| && AllDigits(s[..n]) && (n < |s| ==> !IsDigit(s[n]))
  {
    if s == [] || !IsDigit(s[0]) then 0
    else
      var n := DigitRun(s[1..]);
      assert s[..n + 1] == [s[0]] + s[1..][..n];
      n + 1
  }

  /** Zeros appended up to nine digits. */
  function Filled(digits: string): (s: string)
    requires AllDigits(digits) && |digits| <= 9
    ensures AllDigits(s) && |s| == 9
    decreases 9 - |digits|
  {
    if |digits| < 9 then Filled(digits + "0") else digits
  }

  lemma {:induction false} FilledKeepsValue(digits: string)
    requires AllDigits(digits) && |digits| <= 9
    ensures Fraction(Filled(digits)) == Fraction(digits)
    decreases 9 - |digits|
  {
    if |digits| < 9 {
      ZeroAtEnd(digits);
      FilledKeepsValue(digits + "0");
    }
  }

  /** A first digit at the place `power`, and the rest. */
  ghost predicate Leads(number: int, digit: int, power: nat, rest: int) { number == digit * power + rest }

  lemma LeadsNext(digit: int, power: nat, front: int, rest: int, last: int, next: nat)
    requires Leads(front, digit, power, rest) && next == 10 * power
    ensures Leads(front * 10 + last, digit, next, rest * 10 + last)
  {
    assert digit * next == 10 * (digit * power);
  }

  lemma {:induction false} NumberFromFront(s: string)
    requires AllDigits(s) && s != []
    ensures Leads(Number(s), s[0] as int - '0' as int, Power10(|s| - 1), Number(s[1..]))
    decreases |s|
  {
    var n := |s| - 1;
    if n > 0 {
      var front, rest := s[..n], s[1..];
      NumberFromFront(front);
      assert front[1..] == rest[..n - 1] && rest[n - 1] == s[n];
      LeadsNext(s[0] as int - '0' as int, Power10(n - 1), Number(front), Number(front[1..]),
                s[n] as int - '0' as int, Power10(n));
    } else {
      OneDigit(s);
    }
  }

  lemma OneDigit(s: string)
    requires AllDigits(s) && |s| == 1
    ensures Leads(Number(s), s[0] as int - '0' as int, Power10(0), Number(s[1..]))
  {
    assert s[..0] == [] && s[1..] == [];
  }

  /** Digits as a whole number of their last place, and as a fraction. */
  ghost predicate SameValue(number: nat, fraction: real, power: nat) { number as real == fraction * power as real }

  lemma {:induction false} NumberIsFraction(s: string)
    requires AllDigits(s)
    ensures SameValue(Number(s), Fraction(s), Power10(|s|))
    decreases |s|
  {
    if s != [] {
      NumberIsFraction(s[1..]);
      NextValue(s, s[0] as int - '0' as int, Power10(|s| - 1), Number(s[1..]), Fraction(s[1..]));
    }
  }

  lemma NextValue(s: string, digit: nat, power: nat, rest: nat, fraction: real)
    requires AllDigits(s) && s != [] && SameValue(rest, fraction, power)
    requires digit == s[0] as int - '0' as int && power == Power10(|s| - 1)
    requires rest == Number(s[1..]) && fraction == Fraction(s[1..])
    ensures SameValue(Number(s), Fraction(s), Power10(|s|))
  {
    NumberFromFront(s);
    OneMoreDigit(digit, power, rest, fraction, Number(s), Fraction(s), Power10(|s|));
  }

  lemma OneMoreDigit(digit: int, power: nat, rest: nat, fraction: real, number: nat, whole: real, next: nat)
    requires SameValue(rest, fraction, power)
    requires Leads(number, digit, power, rest) && whole == (digit as real + fraction) / 10.0 && next == 10 * power
    ensures SameValue(number, whole, next)
  {
    assert (digit * power) as real == digit as real * power as real;
    assert next as real == 10.0 * power as real;
    assert whole * (10.0 * power as real) == (digit as real + fraction) * power as real;
  }

  lemma NanosAreFraction(digits: string)
    requires AllDigits(digits) && |digits| <= 9
    ensures SameValue(Number(Filled(digits)), Fraction(digits), NANOS)
  {
    FilledKeepsValue(digits);
    NumberIsFraction(Filled(digits));
    NinePlaces();
  }

  lemma NinePlaces()
    ensures Power10(9) == NANOS
  {
    assert Power10(3) == 1_000;
    assert Power10(6) == 1_000_000;
  }

  // ---------- the parser ----------

  function SecondsOf(w: Wall): int {
    DaysFromCivil(w.date) * 86_400 + (w.hour * 3_600 + w.minute * 60 + w.second)
  }

  /** The zone: `Z`, or hours and minutes with a sign. */
  function Offset(zone: string): Option<int> {
    if zone == "Z" || zone == "z" then Some(0)
    else if |zone| == 6 && (zone[0] == '+' || zone[0] == '-') then
      if !AllDigits(zone[1..3]) || !AllDigits(zone[4..6]) then None
      else
        var hours, minutes := Number(zone[1..3]), Number(zone[4..6]);
        if hours > 23 || minutes > 59 then None
        else Some(if zone[0] == '-' then -(hours * 3_600 + minutes * 60) else hours * 3_600 + minutes * 60)
    else None
  }

  function AtZone(w: Wall, nanos: nat, zone: string): Option<int> {
    var offset := Offset(zone);
    if offset.None? then None else Some((SecondsOf(w) - offset.value) * NANOS + nanos)
  }

  /** Separators of the first nineteen bytes; either case of the `T`. */
  predicate Separated(v: string) {
    && |v| >= 20 && (forall i :: 0 <= i < |v| ==> v[i] as int < 128)
    && v[4] == '-' && v[7] == '-' && (v[10] == 'T' || v[10] == 't') && v[13] == ':' && v[16] == ':'
    && AllDigits(v[0..4]) && AllDigits(v[5..7]) && AllDigits(v[8..10])
    && AllDigits(v[11..13]) && AllDigits(v[14..16]) && AllDigits(v[17..19])
  }

  function WallAt(v: string): Wall
    requires Separated(v)
  {
    Wall(Date(Number(v[0..4]), Number(v[5..7]), Number(v[8..10])),
         Number(v[11..13]), Number(v[14..16]), Number(v[17..19]))
  }

  predicate Supported(w: Wall) {
    1970 <= w.date.year <= 9999 && ValidDate(w.date) && w.hour <= 23 && w.minute <= 59 && w.second <= 59
  }

  /** `parse_rfc3339_nanos`: nanoseconds since the epoch. */
  function ParseNanos(v: string): Option<int> {
    if !Separated(v) || !Supported(WallAt(v)) then None
    else if v[19] != '.' then AtZone(WallAt(v), 0, v[19..])
    else
      var n := DigitRun(v[20..]);
      if n == 0 || n > 9 then None
      else AtZone(WallAt(v), Number(Filled(v[20..][..n])), v[20..][n..])
  }

  /** Its two loops: over the digits of the fraction, and over the zeros appended to them. */
  method ReadNanos(v: string) returns (r: Option<int>)
    ensures r == ParseNanos(v)
  {
    if !Separated(v) || !Supported(WallAt(v)) { return None; }
    var suffix, nanos := v[19..], 0;
    if suffix[0] == '.' {
      var rest := v[20..];
      var length := 0;
      while length < |rest| && IsDigit(rest[length])
        invariant length <= |rest| && DigitRun(rest) == length + DigitRun(rest[length..])
      {
        assert rest[length..][1..] == rest[length + 1..];
        length := length + 1;
      }
      if length == 0 || length > 9 { return None; }
      var normalized := rest[..length];
      while |normalized| < 9
        invariant AllDigits(normalized) && |normalized| <= 9 && Filled(normalized) == Filled(rest[..length])
        decreases 9 - |normalized|
      {
        normalized := normalized + "0";
      }
      nanos := Number(normalized);
      suffix := rest[length..];
    }
    r := AtZone(WallAt(v), nanos, suffix);
  }

  // ---------- accepted timestamps ----------

  lemma AcceptedIsSeparated(v: string)
    requires IsUtcTimestamp(v)
    ensures Separated(v) && WallAt(v) == WallOf(v) && WallInRange(WallOf(v))
  {
  }

  /** What the parser makes of the tail of an accepted timestamp. */
  lemma AcceptedTail(v: string)
    requires IsUtcTimestamp(v)
    ensures v[19] == '.' <==> |v| != 20
    ensures |v| == 20 ==> v[19..] == "Z" && FractionDigits(v) == []
    ensures |v| != 20 ==>
              var n := DigitRun(v[20..]);
              n == |v| - 21 && n > 0 && v[20..][..n] == FractionDigits(v) && v[20..][n..] == "Z"
  {
    if |v| != 20 {
      var rest, n := v[20..], DigitRun(v[20..]);
      assert rest[|rest| - 1] == 'Z';
      forall i | 0 <= i < |rest| - 1 ensures IsDigit(rest[i]) { assert rest[i] == v[20..|v| - 1][i]; }
    }
  }

  predicate Readable(v: string)
    requires IsUtcTimestamp(v)
  {
    WallOf(v).date.year >= 1970 && |FractionDigits(v)| <= 9
  }

  lemma AtZulu(w: Wall, nanos: nat)
    requires WallInRange(w)
    ensures AtZone(w, nanos, "Z") == Some(Seconds(w) * NANOS + nanos)
  {
    DaysFromCivilCounts(w.date);
  }

  /** An instant in nanoseconds. */
  ghost predicate Reads(r: Option<int>, seconds: int, fraction: real) {
    r.Some? && r.value as real == (seconds as real + fraction) * NANOS as real
  }

  lemma ScaledSum(r: Option<int>, seconds: int, nanos: nat, fraction: real)
    requires SameValue(nanos, fraction, NANOS) && r == Some(seconds * NANOS + nanos)
    ensures Reads(r, seconds, fraction)
  {
    assert (seconds * NANOS) as real == seconds as real * NANOS as real;
  }

  lemma PlainReads(w: Wall, digits: string)
    requires WallInRange(w) && AllDigits(digits) && |digits| <= 9
    ensures Reads(AtZone(w, Number(Filled(digits)), "Z"), Seconds(w), Fraction(digits))
  {
    AtZulu(w, Number(Filled(digits)));
    NanosAreFraction(digits);
    ScaledSum(AtZone(w, Number(Filled(digits)), "Z"), Seconds(w), Number(Filled(digits)), Fraction(digits));
  }

  lemma NoFraction(w: Wall, zone: string)
    ensures AtZone(w, 0, zone) == AtZone(w, Number(Filled("")), zone)
  {
    NanosAreFraction("");
    assert Fraction("") == 0.0;
  }

  /** Of the timestamps that are accepted elsewhere, the parser reads those from 1970 on with at most nine digits after
      the point, and as the instants they name. */
  lemma ReadsInstants(v: string)
    requires IsUtcTimestamp(v)
    ensures ParseNanos(v).Some? <==> Readable(v)
    ensures Readable(v) ==> ParseNanos(v).value as real == Instant(v) * NANOS as real
  {
    AcceptedIsSeparated(v);
    FourDigits(v[0..4]);
    AcceptedReads(v, WallOf(v), FractionDigits(v));
    if Readable(v) { PlainReads(WallOf(v), FractionDigits(v)); }
  }

  lemma FourDigits(s: string)
    requires AllDigits(s) && |s| == 4
    ensures Number(s) <= 9999
  {
    ReadsPadded(s);
    assert Power10(4) == 10_000;
  }

  lemma AcceptedReads(v: string, w: Wall, digits: string)
    requires IsUtcTimestamp(v) && Separated(v) && WallAt(v) == w == WallOf(v) && digits == FractionDigits(v)
    requires WallInRange(w) && w.date.year <= 9999
    ensures ParseNanos(v)
      == if w.date.year >= 1970 && |digits| <= 9 then AtZone(w, Number(Filled(digits)), "Z") else None
  {
    AcceptedTail(v);
    NoFraction(w, "Z");
  }

  // ---------- cutoffs ----------

  /** The sweep removes what is not after the cutoff, to the nanosecond. */
  predicate Expired(v: string, cutoff: nat) { ParseNanos(v).Some? && ParseNanos(v).value <= cutoff * NANOS }

  /** The purge compares whole seconds. */
  predicate Eligible(v: string, cutoff: nat) { ParseNanos(v).Some? && ParseNanos(v).value / NANOS <= cutoff }

  lemma ExpiredIs(v: string, cutoff: nat)
    requires IsUtcTimestamp(v) && Readable(v)
    ensures Expired(v, cutoff) <==> Instant(v) <= cutoff as real
  {
    ReadsInstants(v);
    ScaledOrder(ParseNanos(v).value, Instant(v), cutoff);
  }

  lemma ScaledOrder(nanos: int, instant: real, cutoff: nat)
    requires nanos as real == instant * NANOS as real
    ensures nanos <= cutoff * NANOS <==> instant <= cutoff as real
  {
    assert (cutoff * NANOS) as real == cutoff as real * NANOS as real;
  }

  lemma EligibleIs(v: string, cutoff: nat)
    requires IsUtcTimestamp(v) && Readable(v)
    ensures Eligible(v, cutoff) <==> Seconds(WallOf(v)) <= cutoff
  {
    ReadsInstants(v);
    FractionBounds(FractionDigits(v));
    ScaledFloor(ParseNanos(v).value, Seconds(WallOf(v)), Fraction(FractionDigits(v)));
  }

  lemma ScaledFloor(nanos: int, seconds: int, fraction: real)
    requires nanos as real == (seconds as real + fraction) * NANOS as real && 0.0 <= fraction < 1.0
    ensures nanos / NANOS == seconds
  {
    assert (seconds * NANOS) as real == seconds as real * NANOS as real;
    assert 0 <= nanos - seconds * NANOS < NANOS;
  }

  /** Start and completion of an attempt, as the transition accepts them, both readable. */
  predicate Timed(started: string, completed: string) {
    && IsUtcTimestamp(started) && IsUtcTimestamp(completed) && Readable(started) && Readable(completed)
    && !LexLess(completed, started)
  }

  /** The sweep keeps the start of an attempt and removes its completion exactly if the completion is at the cutoff, the
      start later in the same second, and the written fraction of the start goes on where the completion's stops. */
  lemma SplitExactlyIf(started: string, completed: string, cutoff: nat)
    requires Timed(started, completed)
    ensures !Expired(started, cutoff) && Expired(completed, cutoff)
      <==> && SameSecond(completed, started) && FractionExtends(completed, started)
           && Instant(completed) == cutoff as real && Instant(started) > cutoff as real
  {
    ExpiredIs(started, cutoff);
    ExpiredIs(completed, cutoff);
    CompletionGuard(completed, started);
    if Instant(completed) <= cutoff as real < Instant(started) { AtTheCutoff(started, completed, cutoff); }
  }

  lemma AtTheCutoff(started: string, completed: string, cutoff: nat)
    requires IsUtcTimestamp(started) && IsUtcTimestamp(completed) && SameSecond(completed, started)
    requires Instant(completed) <= cutoff as real < Instant(started)
    ensures Instant(completed) == cutoff as real
  {
    FractionBounds(FractionDigits(started));
    FractionBounds(FractionDigits(completed));
    InOneSecond(Seconds(WallOf(started)), Fraction(FractionDigits(completed)), Fraction(FractionDigits(started)),
                cutoff);
  }

  lemma InOneSecond(seconds: int, f: real, g: real, cutoff: nat)
    requires 0.0 <= f < 1.0 && 0.0 <= g < 1.0 && seconds as real + f <= cutoff as real < seconds as real + g
    ensures cutoff == seconds && f == 0.0
  {
  }

  /** The purge never does. */
  lemma PurgeNeverSplits(started: string, completed: string, cutoff: nat)
    requires Timed(started, completed) && !Eligible(started, cutoff)
    ensures !Eligible(completed, cutoff)
  {
    EligibleIs(started, cutoff);
    EligibleIs(completed, cutoff);
    CompletionGuard(completed, started);
    FractionBounds(FractionDigits(started));
    FractionBounds(FractionDigits(completed));
  }

  /** In every second from 1970 on there are such a start and completion. */
  lemma SweepCanSplit(w: Wall)
    requires FitsStamp(w) && w.date.year >= 1970
    ensures var started, completed := Stamp(w) + ".5Z", Stamp(w) + "Z";
      && Timed(started, completed) && Seconds(w) >= 0
      && !Expired(started, Seconds(w)) && Expired(completed, Seconds(w))
  {
    SplitPair(w, Stamp(w) + ".5Z", Stamp(w) + "Z");
  }

  lemma SplitPair(w: Wall, started: string, completed: string)
    requires FitsStamp(w) && w.date.year >= 1970 && started == Stamp(w) + ".5Z" && completed == Stamp(w) + "Z"
    ensures Timed(started, completed) && Seconds(w) >= 0
    ensures !Expired(started, Seconds(w)) && Expired(completed, Seconds(w))
  {
    NotBeforeEpoch(w);
    TwoSpellings(w, completed, started);
    StampFrames(completed, w, "Z");
    assert Fraction("") == 0.0;
    CompletionGuard(completed, started);
    assert FractionDigits(completed) < FractionDigits(started);
    SplitExactlyIf(started, completed, Seconds(w));
  }

  lemma NotBeforeEpoch(w: Wall)
    requires WallInRange(w) && w.date.year >= 1970
    ensures Seconds(w) >= 0
  {
    DateOrder(w.date, Date(1970, 1, 1));
    assert LeapDays(1969) == 477;
  }
}
