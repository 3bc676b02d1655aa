/** What retention reads of a timestamp, over every text, and which rows and log rows a job leaves. */
module RetentionRules {
  import opened Wrappers
  import opened Text
  import opened Gregorian
  import opened Timestamps
  import opened RetentionTime
  import opened RetentionSweep
  import opened DeliveryDeletion
  import Delivery

  /** `Z`, or a sign, hours and minutes. Whatever stands between those two is not looked at. */
  datatype Zone = Zulu(letter: char) | Shifted(sign: char, hours: string, between: char, minutes: string)

  datatype Spelled = Spelled(year: string, month: string, day: string, mark: char, hour: string, minute: string,
                             second: string, digits: string, zone: Zone)

  function ZoneText(z: Zone): string {
    match z
    case Zulu(letter) => [letter]
    case Shifted(sign, hours, between, minutes) => [sign] + hours + [between] + minutes
  }

  function Head(t: Spelled): string {
    t.year + "-" + t.month + "-" + t.day + [t.mark] + t.hour + ":" + t.minute + ":" + t.second
  }

  function TextOf(t: Spelled): string {
    Head(t) + Tail(t)
  }

  function Point(digits: string): string { if digits == "" then "" else "." + digits }

  function Tail(t: Spelled): string { Point(t.digits) + ZoneText(t.zone) }

  predicate IsNumber(s: string, length: nat) { |s| == length && AllDigits(s) }

  predicate IsZone(z: Zone) {
    match z
    case Zulu(letter) => letter == 'Z' || letter == 'z'
    case Shifted(sign, hours, between, minutes) =>
      && (sign == '+' || sign == '-') && IsNumber(hours, 2) && IsNumber(minutes, 2) && between as int < 128
      && Number(hours) <= 23 && Number(minutes) <= 59
  }

  predicate IsSpelled(t: Spelled) {
    && IsNumber(t.year, 4) && IsNumber(t.month, 2) && IsNumber(t.day, 2) && (t.mark == 'T' || t.mark == 't')
    && IsNumber(t.hour, 2) && IsNumber(t.minute, 2) && IsNumber(t.second, 2)
    && AllDigits(t.digits) && |t.digits| <= 9 && IsZone(t.zone)
    && Number(t.year) >= 1970 && ValidDate(DateIn(t))
    && Number(t.hour) <= 23 && Number(t.minute) <= 59 && Number(t.second) <= 59
  }

  function DateIn(t: Spelled): Date
    requires AllDigits(t.year) && AllDigits(t.month) && AllDigits(t.day)
  {
    Date(Number(t.year), Number(t.month), Number(t.day))
  }

  /** Seconds that the zone is ahead of UTC. */
  function Ahead(z: Zone): int
    requires IsZone(z)
  {
    match z
    case Zulu(_) => 0
    case Shifted(sign, hours, _, minutes) =>
      (if sign == '+' then 60 else -60) * (60 * Number(hours) + Number(minutes))
  }

  /** The instant, in seconds since the epoch, rounded down; the digits are what is left. */
  function SecondIn(t: Spelled): int
    requires IsSpelled(t)
  {
    DayNumber(DateIn(t)) * 86_400 + Number(t.hour) * 3_600 + Number(t.minute) * 60 + Number(t.second) - Ahead(t.zone)
  }

  // ---------- from parts to the text ----------

  lemma HeadAt(t: Spelled, rest: string)
    requires |t.year| == 4 && |t.month| == |t.day| == |t.hour| == |t.minute| == |t.second| == 2
    ensures var v := Head(t) + rest;
      && |Head(t)| == 19 && v[19..] == rest
      && v[0..4] == t.year && v[5..7] == t.month && v[8..10] == t.day
      && v[11..13] == t.hour && v[14..16] == t.minute && v[17..19] == t.second
      && v[4] == v[7] == '-' && v[10] == t.mark && v[13] == v[16] == ':'
  {
  }

  lemma ZoneReads(z: Zone)
    requires IsZone(z)
    ensures var text := ZoneText(z); Offset(text) == Some(Ahead(z)) && !IsDigit(text[0]) && text[0] != '.'
  {
    if z.Shifted? {
      var text := ZoneText(z);
      assert text[1..3] == z.hours && text[4..6] == z.minutes;
    }
  }

  lemma DigitsAreAscii(s: string)
    requires AllDigits(s)
    ensures forall i :: 0 <= i < |s| ==> s[i] as int < 128
  {
    forall i | 0 <= i < |s| ensures s[i] as int < 128 { assert IsDigit(s[i]); }
  }

  lemma ZoneIsAscii(z: Zone)
    requires IsZone(z)
    ensures forall i :: 0 <= i < |ZoneText(z)| ==> ZoneText(z)[i] as int < 128
  {
    if z.Shifted? {
      DigitsAreAscii(z.hours);
      DigitsAreAscii(z.minutes);
    }
  }

  lemma TextIsAscii(t: Spelled)
    requires IsSpelled(t)
    ensures forall i :: 0 <= i < |TextOf(t)| ==> TextOf(t)[i] as int < 128
  {
    DigitsAreAscii(t.year);
    DigitsAreAscii(t.month);
    DigitsAreAscii(t.day);
    DigitsAreAscii(t.hour);
    DigitsAreAscii(t.minute);
    DigitsAreAscii(t.second);
    DigitsAreAscii(t.digits);
    ZoneIsAscii(t.zone);
  }

  lemma SpelledIsSeparated(t: Spelled)
    requires IsSpelled(t)
    ensures var v := TextOf(t);
      && v[19..] == Tail(t) && Separated(v) && WallAt(v).date == DateIn(t) && Supported(WallAt(v))
      && SecondsOf(WallAt(v)) == SecondIn(t) + Ahead(t.zone)
  {
    HeadAt(t, Tail(t));
    TextIsAscii(t);
    FourDigits(t.year);
    DaysFromCivilCounts(DateIn(t));
    assert TextOf(t) == Head(t) + Tail(t);
  }

  /** How many digits stand before what is not one. */
  lemma {:induction false} RunOf(digits: string, rest: string)
    requires AllDigits(digits) && rest != [] && !IsDigit(rest[0])
    ensures DigitRun(digits + rest) == |digits|
    decreases |digits|
  {
    var all := digits + rest;
    if digits != [] {
      assert IsDigit(all[0]) && all[1..] == digits[1..] + rest;
      RunOf(digits[1..], rest);
    } else {
      assert all == rest;
    }
  }

  lemma AfterPoint(v: string, digits: string, zone: string)
    requires |v| >= 20 && v[19..] == "." + digits + zone
    ensures v[19] == '.' && v[20..] == digits + zone
    ensures v[20..][..|digits|] == digits && v[20..][|digits|..] == zone
  {
    assert v[19..] == "." + (digits + zone);
    assert v[19] == v[19..][0];
    assert v[20..] == v[19..][1..];
  }

  lemma PointParses(v: string, digits: string, zone: string)
    requires Separated(v) && Supported(WallAt(v)) && v[19..] == "." + digits + zone
    requires AllDigits(digits) && 1 <= |digits| <= 9 && zone != [] && !IsDigit(zone[0])
    ensures ParseNanos(v) == AtZone(WallAt(v), Number(Filled(digits)), zone)
  {
    AfterPoint(v, digits, zone);
    RunOf(digits, zone);
    PointIs(v, |digits|);
  }

  lemma PointIs(v: string, n: nat)
    requires Separated(v) && Supported(WallAt(v)) && v[19] == '.' && n == DigitRun(v[20..]) && 1 <= n <= 9
    ensures ParseNanos(v) == AtZone(WallAt(v), Number(Filled(v[20..][..n])), v[20..][n..])
  {
  }

  lemma PlainParses(v: string, zone: string)
    requires Separated(v) && Supported(WallAt(v)) && v[19..] == zone && zone != [] && zone[0] != '.'
    ensures ParseNanos(v) == AtZone(WallAt(v), Number(Filled("")), zone)
  {
    assert v[19] == v[19..][0];
    NoFraction(WallAt(v), zone);
  }

  lemma TailParses(v: string, digits: string, zone: string)
    requires Separated(v) && Supported(WallAt(v)) && v[19..] == Point(digits) + zone
    requires AllDigits(digits) && |digits| <= 9 && zone != [] && !IsDigit(zone[0]) && zone[0] != '.'
    ensures ParseNanos(v) == AtZone(WallAt(v), Number(Filled(digits)), zone)
  {
    if digits == "" {
      assert Point(digits) + zone == zone;
      PlainParses(v, zone);
    } else {
      PointParses(v, digits, zone);
    }
  }

  lemma ZoneShifts(w: Wall, nanos: nat, zone: string, seconds: int, ahead: int)
    requires Offset(zone) == Some(ahead) && SecondsOf(w) == seconds + ahead
    ensures AtZone(w, nanos, zone) == Some(seconds * NANOS + nanos)
  {
    assert SecondsOf(w) - ahead == seconds;
  }

  lemma PartsRead(v: string, digits: string, zone: string, seconds: int, ahead: int)
    requires Separated(v) && Supported(WallAt(v)) && v[19..] == Point(digits) + zone
    requires AllDigits(digits) && |digits| <= 9 && zone != [] && !IsDigit(zone[0]) && zone[0] != '.'
    requires Offset(zone) == Some(ahead) && SecondsOf(WallAt(v)) == seconds + ahead
    ensures Reads(ParseNanos(v), seconds, Fraction(digits))
  {
    TailParses(v, digits, zone);
    var nanos := Number(Filled(digits));
    ZoneShifts(WallAt(v), nanos, zone, seconds, ahead);
    NanosAreFraction(digits);
    ScaledSum(ParseNanos(v), seconds, nanos, Fraction(digits));
  }

  lemma SpelledReads(t: Spelled)
    requires IsSpelled(t)
    ensures Reads(ParseNanos(TextOf(t)), SecondIn(t), Fraction(t.digits))
  {
    SpelledIsSeparated(t);
    ZoneReads(t.zone);
    PartsRead(TextOf(t), t.digits, ZoneText(t.zone), SecondIn(t), Ahead(t.zone));
  }

  // ---------- from the text to its parts ----------

  lemma OffsetIsZone(zone: string) returns (z: Zone)
    requires Offset(zone).Some? && forall i :: 0 <= i < |zone| ==> zone[i] as int < 128
    ensures IsZone(z) && ZoneText(z) == zone
  {
    if zone == "Z" || zone == "z" {
      z := Zulu(zone[0]);
    } else {
      z := Shifted(zone[0], zone[1..3], zone[3], zone[4..6]);
      assert zone == [zone[0]] + zone[1..3] + [zone[3]] + zone[4..6];
    }
  }

  lemma TailParts(v: string) returns (digits: string, zone: string)
    requires ParseNanos(v).Some?
    ensures AllDigits(digits) && |digits| <= 9 && v[19..] == Point(digits) + zone && Offset(zone).Some?
    ensures forall i :: 0 <= i < |zone| ==> zone[i] as int < 128
  {
    digits, zone := "", v[19..];
    if v[19] == '.' {
      var rest, n := v[20..], DigitRun(v[20..]);
      digits, zone := rest[..n], rest[n..];
      assert rest == digits + zone;
      assert v[19..] == "." + rest;
    }
  }

  lemma HeadParts(v: string)
    requires Separated(v)
    ensures v[..19]
      == v[0..4] + "-" + v[5..7] + "-" + v[8..10] + [v[10]] + v[11..13] + ":" + v[14..16] + ":" + v[17..19]
  {
  }

  lemma ReadIsSpelled(v: string) returns (t: Spelled)
    requires ParseNanos(v).Some?
    ensures IsSpelled(t) && TextOf(t) == v
  {
    var digits, zone := TailParts(v);
    var z := OffsetIsZone(zone);
    t := Spelled(v[0..4], v[5..7], v[8..10], v[10], v[11..13], v[14..16], v[17..19], digits, z);
    HeadParts(v);
    assert v == v[..19] + v[19..];
  }

  /** Exactly the texts of this form are read, as the instants they name: the date of the calendar from 1970 on, the
      time of day, up to nine digits of a fraction, and the zone. */
  lemma ReadExactlyIf(v: string, n: int)
    ensures ParseNanos(v) == Some(n)
      <==> exists t :: IsSpelled(t) && TextOf(t) == v && Reads(Some(n), SecondIn(t), Fraction(t.digits))
  {
    if ParseNanos(v) == Some(n) {
      var t := ReadIsSpelled(v);
      SpelledReads(t);
    }
    forall t | IsSpelled(t) && TextOf(t) == v && Reads(Some(n), SecondIn(t), Fraction(t.digits))
      ensures ParseNanos(v) == Some(n) {
      SpelledReads(t);
      SameReading(ParseNanos(v), Some(n), SecondIn(t), Fraction(t.digits));
    }
  }

  lemma SameReading(a: Option<int>, b: Option<int>, seconds: int, fraction: real)
    requires Reads(a, seconds, fraction) && Reads(b, seconds, fraction)
    ensures a == b
  {
    assert a.value as real == b.value as real;
  }

  // ---------- what a job leaves ----------

  /** The time is after the cutoff: for the sweep its instant is, for the purge its whole second. */
  predicate IsAfter(cleaner: Cleaner, cutoff: nat, v: string)
    requires IsUtcTimestamp(v)
  {
    match cleaner
    case Sweep => Instant(v) > cutoff as real
    case Purge => Seconds(WallOf(v)) > cutoff
  }

  /** A row of another repository stays; of this one, an attempt on a draft that stays, if it started after the
      cutoff. */
  predicate Stays(job: Job, row: Delivery.Row)
    requires IsUtcTimestamp(row.claimedAt)
  {
    row.key.repository != job.repository
    || (row.key.draft !in job.drafts && IsAfter(job.cleaner, job.cutoff, row.claimedAt))
  }

  predicate StaysLogged(job: Job, e: Delivery.Event)
    requires e.AttemptEvent? && IsUtcTimestamp(e.occurredAt)
  {
    e.repository != job.repository || IsAfter(job.cleaner, job.cutoff, e.occurredAt)
  }

  ghost predicate TimesAreUtc(s: Delivery.Store) {
    && (forall i :: 0 <= i < |s.rows| ==> IsUtcTimestamp(s.rows[i].claimedAt))
    && (forall k :: 0 <= k < |s.log| && s.log[k].AttemptEvent? ==> IsUtcTimestamp(s.log[k].occurredAt))
  }

  /** Some time that the job has to read has a year before 1970 or more than nine digits after the point. */
  ghost predicate HasUnreadable(s: Delivery.Store, job: Job)
    requires TimesAreUtc(s)
  {
    || (exists i :: 0 <= i < |s.rows| && s.rows[i].key.repository == job.repository
                    && s.rows[i].key.draft !in job.drafts && !Readable(s.rows[i].claimedAt))
    || (exists k :: 0 <= k < |s.log| && s.log[k].AttemptEvent? && s.log[k].repository == job.repository
                    && !Readable(s.log[k].occurredAt))
  }

  lemma SucceedsExactlyIf(s: Delivery.Store, job: Job)
    requires TimesAreUtc(s)
    ensures Succeeds(s, job) <==> !job.fails && !HasUnreadable(s, job)
  {
    forall i | 0 <= i < |s.rows|
      ensures ParseNanos(s.rows[i].claimedAt).Some? <==> Readable(s.rows[i].claimedAt) {
      ReadsInstants(s.rows[i].claimedAt);
    }
    forall k | 0 <= k < |s.log| && s.log[k].AttemptEvent?
      ensures ParseNanos(s.log[k].occurredAt).Some? <==> Readable(s.log[k].occurredAt) {
      ReadsInstants(s.log[k].occurredAt);
    }
  }

  lemma RemovesExactlyIf(cleaner: Cleaner, cutoff: nat, v: string)
    requires IsUtcTimestamp(v) && Readable(v)
    ensures cleaner.Removes(v, cutoff) <==> !IsAfter(cleaner, cutoff, v)
  {
    ExpiredIs(v, cutoff);
    EligibleIs(v, cutoff);
  }

  lemma {:induction false} KeptRowsAre(rows: seq<Delivery.Row>, d: Deletion)
    ensures forall row :: row in KeptRows(rows, d) <==> row in rows && d.keepsRow(row)
    decreases |rows|
  {
    if rows != [] {
      var n := |rows| - 1;
      KeptRowsAre(rows[..n], d);
      assert rows == rows[..n] + [rows[n]];
    }
  }

  lemma {:induction false} KeptEventsAre(log: seq<Delivery.Event>, d: Deletion)
    ensures forall e :: e in KeptEvents(log, d) <==> e in log && d.keepsEvent(e)
    decreases |log|
  {
    if log != [] {
      var n := |log| - 1;
      KeptEventsAre(log[..n], d);
      assert log == log[..n] + [log[n]];
    }
  }

  /** A job that fails, or has to read a time that it cannot, changes nothing; any other keeps exactly the rows and the
      attempts' log rows that stay. */
  lemma CleanedExactly(s: Delivery.Store, job: Job, row: Delivery.Row, e: Delivery.Event)
    requires TimesAreUtc(s) && row in s.rows && e in s.log && e.AttemptEvent?
    ensures job.fails || HasUnreadable(s, job) ==> Cleaned(s, job) == s
    ensures !job.fails && !HasUnreadable(s, job) ==>
              && (row in Cleaned(s, job).rows <==> Stays(job, row))
              && (e in Cleaned(s, job).log <==> StaysLogged(job, e))
  {
    SucceedsExactlyIf(s, job);
    if Succeeds(s, job) {
      KeptRowsAre(s.rows, job.Removal());
      KeptEventsAre(s.log, job.Removal());
      RowStays(s, job, row);
      if e.repository == job.repository { RemovesExactlyIf(job.cleaner, job.cutoff, e.occurredAt); }
    }
  }

  lemma RowStays(s: Delivery.Store, job: Job, row: Delivery.Row)
    requires TimesAreUtc(s) && row in s.rows && !HasUnreadable(s, job)
    ensures job.KeepsRow(row) <==> Stays(job, row)
  {
    if row.key.repository == job.repository && row.key.draft !in job.drafts {
      RemovesExactlyIf(job.cleaner, job.cutoff, row.claimedAt);
    }
  }
}
