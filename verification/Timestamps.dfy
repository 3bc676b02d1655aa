/** The UTC timestamp texts of the audit log: two hand-written parsers, the printer of the command line program, and the
    two orders the code puts on them, as keys and as plain strings. A text is the sequence of its bytes. */
module Timestamps {
  import opened Wrappers
  import opened Text
  import opened Gregorian

  /** The whole second a timestamp names. */
  datatype Wall = Wall(date: Date, hour: int, minute: int, second: int)

  datatype TimestampKey = TimestampKey(wall: Wall, fraction: string)

  /** Separators and digits of the first nineteen bytes, and the length. */
  predicate Framed(v: string) {
    && 20 <= |v| <= 64
    && v[4] == '-' && v[7] == '-' && v[10] == 'T' && v[13] == ':' && v[16] == ':'
    && AllDigits(v[0..4]) && AllDigits(v[5..7]) && AllDigits(v[8..10])
    && AllDigits(v[11..13]) && AllDigits(v[14..16]) && AllDigits(v[17..19])
  }

  function WallOf(v: string): Wall
    requires Framed(v)
  {
    Wall(Date(Number(v[0..4]), Number(v[5..7]), Number(v[8..10])),
         Number(v[11..13]), Number(v[14..16]), Number(v[17..19]))
  }

  predicate WallInRange(w: Wall) {
    w.date.year >= 1 && ValidDate(w.date) && 0 <= w.hour <= 23 && 0 <= w.minute <= 59 && 0 <= w.second <= 59
  }

  /** What follows the whole second: `Z`, or a point, digits and `Z`. */
  predicate IsTail(tail: string) {
    tail == "Z" || (|tail| >= 3 && tail[0] == '.' && tail[|tail| - 1] == 'Z' && AllDigits(tail[1..|tail| - 1]))
  }

  /** The check every event and request timestamp passes. */
  predicate IsUtcTimestamp(v: string) {
    if !Framed(v) then false
    else if !WallInRange(WallOf(v)) then false
    else if |v| == 20 then v[19] == 'Z'
    else if |v| < 22 || v[19] != '.' || v[|v| - 1] != 'Z' then false
    else AllDigits(v[20..|v| - 1])
  }

  /** The text without its trailing zeros. */
  function TrimZeros(digits: string): string {
    if digits != [] && digits[|digits| - 1] == '0' then TrimZeros(digits[..|digits| - 1]) else digits
  }

  /** The parser of audit filters and cursors. */
  function ParseTimestamp(v: string): Option<TimestampKey> {
    if !Framed(v) then None
    else
      var wall := WallOf(v);
      if !WallInRange(wall) then None
      else if |v| == 20 then if v[19] != 'Z' then None else Some(TimestampKey(wall, ""))
      else if |v| < 22 || v[19] != '.' || v[|v| - 1] != 'Z' then None
      else
        var digits := v[20..|v| - 1];
        if digits == [] || !AllDigits(digits) then None else Some(TimestampKey(wall, TrimZeros(digits)))
  }

  predicate WallLess(a: Wall, b: Wall) {
    || DateBefore(a.date, b.date)
    || (a.date == b.date
        && (a.hour < b.hour
            || (a.hour == b.hour
                && (a.minute < b.minute || (a.minute == b.minute && a.second < b.second)))))
  }

  /** The derived order of keys: field by field, the fraction as a string. */
  predicate KeyLess(a: TimestampKey, b: TimestampKey) {
    WallLess(a.wall, b.wall) || (a.wall == b.wall && LexLess(a.fraction, b.fraction))
  }

  /** Decimal digits padded with zeros to at least `width`. */
  function Padded(n: nat, width: nat): (s: string)
    ensures |s| >= width && AllDigits(s)
  {
    if width == 0 then if n == 0 then [] else Decimal(n)
    else Padded(n / 10, width - 1) + [Digit(n % 10)]
  }

  function TimeJoin(hour: string, minute: string, second: string): string { hour + (":" + (minute + (":" + second))) }

  function Join(year: string, month: string, day: string, hour: string, minute: string, second: string): string {
    year + ("-" + (month + ("-" + (day + ("T" + TimeJoin(hour, minute, second))))))
  }

  function Stamp(w: Wall): string
    requires WallInRange(w)
  {
    Join(Padded(w.date.year, 4), Padded(w.date.month, 2), Padded(w.date.day, 2),
         Padded(w.hour, 2), Padded(w.minute, 2), Padded(w.second, 2))
  }

  function WallFromSeconds(seconds: nat): Wall {
    var ofDay := seconds % 86_400;
    Wall(CivilFromDays(seconds / 86_400), ofDay / 3_600, (ofDay % 3_600) / 60, ofDay % 60)
  }

  // ---------- digits ----------

  function Power10(w: nat): (p: nat)
    ensures p >= 1
  {
    if w == 0 then 1 else 10 * Power10(w - 1)
  }

  lemma {:induction false} PaddedReads(n: nat, w: nat)
    requires n < Power10(w)
    ensures |Padded(n, w)| == w && Number(Padded(n, w)) == n
  {
    if w > 0 {
      PaddedReads(n / 10, w - 1);
      var s := Padded(n, w);
      assert s[..|s| - 1] == Padded(n / 10, w - 1);
    }
  }

  lemma {:induction false} ReadsPadded(s: string)
    requires AllDigits(s)
    ensures Number(s) < Power10(|s|) && Padded(Number(s), |s|) == s
  {
    if s != [] { ReadsPadded(s[..|s| - 1]); }
  }

  lemma {:induction false} WidePadded(n: nat, w: nat)
    requires n >= Power10(w)
    ensures |Padded(n, w)| > w
  {
    if w > 0 { WidePadded(n / 10, w - 1); }
  }

  // ---------- string order ----------

  lemma {:induction false} LexConcat(a: string, b: string, x: string, y: string)
    requires |a| == |b|
    ensures LexLess(a + x, b + y) <==> LexLess(a, b) || (a == b && LexLess(x, y))
  {
    if a == [] {
      assert a + x == x && b + y == y;
    } else {
      assert (a + x)[1..] == a[1..] + x && (b + y)[1..] == b[1..] + y;
      LexConcat(a[1..], b[1..], x, y);
      assert a == [a[0]] + a[1..] && b == [b[0]] + b[1..];
    }
  }

  lemma {:induction false} DigitsOrder(a: string, b: string)
    requires AllDigits(a) && AllDigits(b) && |a| == |b|
    ensures LexLess(a, b) <==> Number(a) < Number(b)
    ensures a == b <==> Number(a) == Number(b)
  {
    if a != [] {
      var n := |a| - 1;
      DigitsOrder(a[..n], b[..n]);
      LexConcat(a[..n], b[..n], a[n..], b[n..]);
      assert a == a[..n] + a[n..] && b == b[..n] + b[n..];
      assert a[n..] == [a[n]] && b[n..] == [b[n]];
      assert LexLess(a[n..], b[n..]) <==> a[n] < b[n];
    }
  }

  // ---------- the grammar ----------

  /** `v` is the stamp of `w` followed by `tail`: the text as RFC 3339, section 5.6, builds it, with upper-case letters,
      offset `Z`, a year after 0000 and no leap second. */
  predicate Spells(v: string, w: Wall, tail: string) {
    && WallInRange(w) && w.date.year <= 9999 && IsTail(tail)
    && v == Stamp(w) + tail && |v| <= 64
  }

  predicate FitsStamp(w: Wall) { WallInRange(w) && w.date.year <= 9999 }

  /** `s` cut at the separators. */
  predicate Cut(s: string, year: string, month: string, day: string, hour: string, minute: string, second: string) {
    && |s| >= 19
    && s[4] == '-' && s[7] == '-' && s[10] == 'T' && s[13] == ':' && s[16] == ':'
    && s[0..4] == year && s[5..7] == month && s[8..10] == day
    && s[11..13] == hour && s[14..16] == minute && s[17..19] == second
  }

  lemma JoinCuts(v: string, year: string, month: string, day: string, hour: string, minute: string, second: string,
                 tail: string)
    requires |year| == 4 && |month| == |day| == |hour| == |minute| == |second| == 2
    requires v == Join(year, month, day, hour, minute, second) + tail
    ensures |v| == 19 + |tail| && Cut(v, year, month, day, hour, minute, second) && v[19..] == tail
  {
  }

  lemma CutJoins(v: string, year: string, month: string, day: string, hour: string, minute: string, second: string)
    requires Cut(v, year, month, day, hour, minute, second)
    ensures v == Join(year, month, day, hour, minute, second) + v[19..]
  {
  }

  lemma FieldWidths(w: Wall)
    requires FitsStamp(w)
    ensures |Padded(w.date.year, 4)| == 4 && Number(Padded(w.date.year, 4)) == w.date.year
    ensures |Padded(w.date.month, 2)| == 2 && Number(Padded(w.date.month, 2)) == w.date.month
    ensures |Padded(w.date.day, 2)| == 2 && Number(Padded(w.date.day, 2)) == w.date.day
    ensures |Padded(w.hour, 2)| == 2 && Number(Padded(w.hour, 2)) == w.hour
    ensures |Padded(w.minute, 2)| == 2 && Number(Padded(w.minute, 2)) == w.minute
    ensures |Padded(w.second, 2)| == 2 && Number(Padded(w.second, 2)) == w.second
  {
    assert Power10(2) == 100 && Power10(4) == 10_000;
    PaddedReads(w.date.year, 4); PaddedReads(w.date.month, 2); PaddedReads(w.date.day, 2);
    PaddedReads(w.hour, 2); PaddedReads(w.minute, 2); PaddedReads(w.second, 2);
  }

  lemma StampFrames(v: string, w: Wall, tail: string)
    requires FitsStamp(w) && v == Stamp(w) + tail && 1 <= |tail| <= 45
    ensures Framed(v) && WallOf(v) == w && v[19..] == tail
  {
    FieldWidths(w);
    JoinCuts(v, Padded(w.date.year, 4), Padded(w.date.month, 2), Padded(w.date.day, 2),
             Padded(w.hour, 2), Padded(w.minute, 2), Padded(w.second, 2), tail);
  }

  lemma FrameStamps(v: string)
    requires Framed(v) && WallInRange(WallOf(v))
    ensures FitsStamp(WallOf(v)) && v == Stamp(WallOf(v)) + v[19..]
  {
    assert Power10(2) == 100 && Power10(4) == 10_000;
    ReadsPadded(v[0..4]); ReadsPadded(v[5..7]); ReadsPadded(v[8..10]);
    ReadsPadded(v[11..13]); ReadsPadded(v[14..16]); ReadsPadded(v[17..19]);
    CutJoins(v, v[0..4], v[5..7], v[8..10], v[11..13], v[14..16], v[17..19]);
  }

  lemma TailForm(v: string)
    requires |v| >= 20
    ensures IsTail(v[19..])
      <==> (if |v| == 20 then v[19] == 'Z'
            else |v| >= 22 && v[19] == '.' && v[|v| - 1] == 'Z' && AllDigits(v[20..|v| - 1]))
  {
    var tail := v[19..];
    if |v| >= 22 { assert tail[1..|tail| - 1] == v[20..|v| - 1]; }
    if |v| == 20 { assert tail == [v[19]]; }
  }

  lemma SameChecks(v: string)
    ensures IsUtcTimestamp(v) <==> ParseTimestamp(v).Some?
    ensures IsUtcTimestamp(v) <==> Framed(v) && WallInRange(WallOf(v)) && IsTail(v[19..])
    ensures IsUtcTimestamp(v) ==> ParseTimestamp(v).value.wall == WallOf(v)
  {
    if Framed(v) { TailForm(v); }
  }

  /** Both checks accept exactly the texts of the grammar, and the parser reads back the second that was spelled. */
  lemma AcceptedIsGrammar(v: string)
    ensures IsUtcTimestamp(v) <==> ParseTimestamp(v).Some?
    ensures IsUtcTimestamp(v) <==> exists w, tail :: Spells(v, w, tail)
    ensures forall w, tail :: Spells(v, w, tail) ==> ParseTimestamp(v).Some? && ParseTimestamp(v).value.wall == w
  {
    SameChecks(v);
    if IsUtcTimestamp(v) {
      FrameStamps(v);
      assert Spells(v, WallOf(v), v[19..]);
    }
    forall w, tail | Spells(v, w, tail)
      ensures IsUtcTimestamp(v) && WallOf(v) == w
    {
      SpelledIsAccepted(v, w, tail);
    }
  }

  lemma SpelledIsAccepted(v: string, w: Wall, tail: string)
    requires Spells(v, w, tail)
    ensures IsUtcTimestamp(v) && WallOf(v) == w && v[19..] == tail
  {
    FieldWidths(w);
    assert |Stamp(w)| == 19;
    StampFrames(v, w, tail);
    SameChecks(v);
  }

  // ---------- instants ----------

  /** Whole seconds since 1970-01-01T00:00:00Z. */
  function Seconds(w: Wall): int {
    DayNumber(w.date) * 86_400 + w.hour * 3_600 + w.minute * 60 + w.second
  }

  /** The value of digits read after a decimal point. */
  function Fraction(digits: string): real
    requires AllDigits(digits)
  {
    if digits == [] then 0.0 else ((digits[0] as int - '0' as int) as real + Fraction(digits[1..])) / 10.0
  }

  /** The digits after the point, trailing zeros included. */
  function FractionDigits(v: string): (digits: string)
    requires IsUtcTimestamp(v)
    ensures AllDigits(digits)
  {
    if |v| == 20 then [] else v[20..|v| - 1]
  }

  /** The instant an accepted text names, as an exact number of seconds. */
  function Instant(v: string): real
    requires IsUtcTimestamp(v)
  {
    Seconds(WallOf(v)) as real + Fraction(FractionDigits(v))
  }

  lemma {:induction false} FractionBounds(digits: string)
    requires AllDigits(digits)
    ensures 0.0 <= Fraction(digits) < 1.0
  {
    if digits != [] { FractionBounds(digits[1..]); }
  }

  lemma {:induction false} ZeroAtEnd(digits: string)
    requires AllDigits(digits)
    ensures AllDigits(digits + "0") && Fraction(digits + "0") == Fraction(digits)
  {
    if digits == [] {
      assert digits + "0" == "0" && "0"[1..] == [];
    } else {
      ZeroAtEnd(digits[1..]);
      assert (digits + "0")[1..] == digits[1..] + "0";
    }
  }

  predicate Trimmed(digits: string) { digits == [] || digits[|digits| - 1] != '0' }

  lemma {:induction false} TrimKeepsValue(digits: string)
    requires AllDigits(digits)
    ensures AllDigits(TrimZeros(digits)) && Trimmed(TrimZeros(digits))
    ensures Fraction(TrimZeros(digits)) == Fraction(digits)
  {
    if digits != [] && digits[|digits| - 1] == '0' {
      var front := digits[..|digits| - 1];
      TrimKeepsValue(front);
      ZeroAtEnd(front);
      assert digits == front + "0";
    }
  }

  lemma {:induction false} TrimmedIsPositive(digits: string)
    requires AllDigits(digits) && Trimmed(digits) && digits != []
    ensures Fraction(digits) > 0.0
  {
    FractionBounds(digits[1..]);
    if |digits| > 1 { TrimmedIsPositive(digits[1..]); }
  }

  /** Trimmed fractions compare as strings the way they compare as numbers. */
  lemma {:induction false} FractionOrder(a: string, b: string)
    requires AllDigits(a) && AllDigits(b) && Trimmed(a) && Trimmed(b)
    ensures LexLess(a, b) <==> Fraction(a) < Fraction(b)
    ensures a == b <==> Fraction(a) == Fraction(b)
  {
    if a == [] {
      if b != [] { TrimmedIsPositive(b); }
    } else if b == [] {
      TrimmedIsPositive(a);
    } else {
      FractionBounds(a[1..]);
      FractionBounds(b[1..]);
      FractionOrder(a[1..], b[1..]);
      assert a == [a[0]] + a[1..] && b == [b[0]] + b[1..];
    }
  }

  lemma WallOrder(a: Wall, b: Wall)
    requires WallInRange(a) && WallInRange(b)
    ensures WallLess(a, b) <==> Seconds(a) < Seconds(b)
    ensures a == b <==> Seconds(a) == Seconds(b)
  {
    DateOrder(a.date, b.date);
    DateOrder(b.date, a.date);
  }

  /** The order of keys is chronological, and equal keys are equal instants, however the fraction was padded. */
  lemma KeyOrderIsTimeOrder(a: string, b: string)
    requires IsUtcTimestamp(a) && IsUtcTimestamp(b)
    ensures ParseTimestamp(a).Some? && ParseTimestamp(b).Some?
    ensures KeyLess(ParseTimestamp(a).value, ParseTimestamp(b).value) <==> Instant(a) < Instant(b)
    ensures ParseTimestamp(a) == ParseTimestamp(b) <==> Instant(a) == Instant(b)
  {
    KeyOf(a);
    KeyOf(b);
    WallOrder(WallOf(a), WallOf(b));
    TrimKeepsValue(FractionDigits(a));
    TrimKeepsValue(FractionDigits(b));
    FractionBounds(FractionDigits(a));
    FractionBounds(FractionDigits(b));
    FractionOrder(TrimZeros(FractionDigits(a)), TrimZeros(FractionDigits(b)));
  }

  lemma KeyOf(v: string)
    requires IsUtcTimestamp(v)
    ensures ParseTimestamp(v) == Some(TimestampKey(WallOf(v), TrimZeros(FractionDigits(v)))) && WallInRange(WallOf(v))
  {
  }

  // ---------- comparing the texts themselves ----------

  predicate SameSecond(a: string, b: string)
    requires IsUtcTimestamp(a) && IsUtcTimestamp(b)
  {
    WallOf(a) == WallOf(b)
  }

  /** One fraction is a proper prefix of the other, as written. */
  predicate FractionExtends(a: string, b: string)
    requires IsUtcTimestamp(a) && IsUtcTimestamp(b)
  {
    FractionDigits(a) < FractionDigits(b)
  }

  lemma StampOrder(a: Wall, b: Wall)
    requires FitsStamp(a) && FitsStamp(b)
    ensures |Stamp(a)| == |Stamp(b)| == 19
    ensures LexLess(Stamp(a), Stamp(b)) <==> Seconds(a) < Seconds(b)
    ensures Stamp(a) == Stamp(b) <==> a == b
  {
    FieldWidths(a);
    FieldWidths(b);
    JoinOrder(a, b);
    WallOrder(a, b);
    if Stamp(a) == Stamp(b) {
      StampFrames(Stamp(a) + "Z", a, "Z");
      StampFrames(Stamp(b) + "Z", b, "Z");
    }
  }

  /** A field and what follows it. */
  lemma FieldOrder(x: nat, y: nat, w: nat, a: string, b: string)
    requires x < Power10(w) && y < Power10(w)
    ensures LexLess(Padded(x, w) + a, Padded(y, w) + b) <==> x < y || (x == y && LexLess(a, b))
  {
    PaddedReads(x, w);
    PaddedReads(y, w);
    DigitsOrder(Padded(x, w), Padded(y, w));
    LexConcat(Padded(x, w), Padded(y, w), a, b);
  }

  lemma SeparatorOrder(c: char, a: string, b: string)
    ensures LexLess([c] + a, [c] + b) <==> LexLess(a, b)
  {
  }

  function TimeText(w: Wall): string
    requires WallInRange(w)
  {
    TimeJoin(Padded(w.hour, 2), Padded(w.minute, 2), Padded(w.second, 2))
  }

  lemma TimeTextOrder(a: Wall, b: Wall)
    requires FitsStamp(a) && FitsStamp(b)
    ensures LexLess(TimeText(a), TimeText(b))
      <==> (a.hour < b.hour
            || (a.hour == b.hour && (a.minute < b.minute || (a.minute == b.minute && a.second < b.second))))
  {
    assert Power10(2) == 100;
    var x, y := Padded(a.second, 2), Padded(b.second, 2);
    PaddedReads(a.second, 2);
    PaddedReads(b.second, 2);
    DigitsOrder(x, y);
    SeparatorOrder(':', x, y);
    FieldOrder(a.minute, b.minute, 2, ":" + x, ":" + y);
    var x', y' := Padded(a.minute, 2) + (":" + x), Padded(b.minute, 2) + (":" + y);
    SeparatorOrder(':', x', y');
    FieldOrder(a.hour, b.hour, 2, ":" + x', ":" + y');
  }

  lemma StampTextOrder(a: Wall, b: Wall)
    requires FitsStamp(a) && FitsStamp(b)
    ensures LexLess(Stamp(a), Stamp(b)) <==>
            DateBefore(a.date, b.date) || (a.date == b.date && LexLess(TimeText(a), TimeText(b)))
  {
    assert Power10(2) == 100 && Power10(4) == 10_000;
    var x, y := "T" + TimeText(a), "T" + TimeText(b);
    SeparatorOrder('T', TimeText(a), TimeText(b));
    FieldOrder(a.date.day, b.date.day, 2, x, y);
    var x', y' := Padded(a.date.day, 2) + x, Padded(b.date.day, 2) + y;
    SeparatorOrder('-', x', y');
    FieldOrder(a.date.month, b.date.month, 2, "-" + x', "-" + y');
    var x'', y'' := Padded(a.date.month, 2) + ("-" + x'), Padded(b.date.month, 2) + ("-" + y');
    SeparatorOrder('-', x'', y'');
    FieldOrder(a.date.year, b.date.year, 4, "-" + x'', "-" + y'');
  }

  lemma JoinOrder(a: Wall, b: Wall)
    requires FitsStamp(a) && FitsStamp(b)
    ensures LexLess(Stamp(a), Stamp(b)) <==> WallLess(a, b)
  {
    StampTextOrder(a, b);
    TimeTextOrder(a, b);
  }

  /** Fractions that differ at some digit, followed by `Z`: the strings order them as numbers. */
  lemma {:induction false} DifferingFractions(a: string, b: string)
    requires AllDigits(a) && AllDigits(b) && !(a <= b) && !(b <= a)
    ensures LexLess(a + "Z", b + "Z") <==> Fraction(a) < Fraction(b)
    ensures Fraction(a) != Fraction(b)
  {
    FractionBounds(a[1..]);
    FractionBounds(b[1..]);
    assert (a + "Z")[1..] == a[1..] + "Z" && (b + "Z")[1..] == b[1..] + "Z";
    if a[0] == b[0] {
      assert a == [a[0]] + a[1..] && b == [b[0]] + b[1..];
      DifferingFractions(a[1..], b[1..]);
    }
  }

  /** A fraction that goes on is the greater number, or equal, and the lesser string. */
  lemma {:induction false} ExtendedFraction(a: string, b: string)
    requires AllDigits(a) && AllDigits(b) && a < b
    ensures Fraction(a) <= Fraction(b) && LexLess(b + "Z", a + "Z") && !LexLess(a + "Z", b + "Z")
  {
    assert (b + "Z")[1..] == b[1..] + "Z";
    FractionBounds(b);
    if a != [] {
      assert (a + "Z")[1..] == a[1..] + "Z";
      ExtendedFraction(a[1..], b[1..]);
    }
  }

  function TailOf(digits: string): string { if digits == [] then "Z" else "." + (digits + "Z") }

  lemma TailIs(v: string)
    requires IsUtcTimestamp(v)
    ensures FitsStamp(WallOf(v)) && v == Stamp(WallOf(v)) + TailOf(FractionDigits(v))
  {
    FrameStamps(v);
    if |v| == 20 {
      assert v[19..] == "Z";
    } else {
      assert v[19..] == "." + (v[20..|v| - 1] + "Z");
    }
  }

  lemma TailOrder(a: string, b: string)
    requires AllDigits(a) && AllDigits(b)
    ensures !(a < b) && !(b < a) ==> (LexLess(TailOf(a), TailOf(b)) <==> Fraction(a) < Fraction(b))
    ensures a < b ==> Fraction(a) <= Fraction(b) && LexLess(TailOf(b), TailOf(a)) && !LexLess(TailOf(a), TailOf(b))
    ensures b < a ==> Fraction(b) <= Fraction(a) && LexLess(TailOf(a), TailOf(b)) && !LexLess(TailOf(b), TailOf(a))
  {
    SeparatorOrder('.', a + "Z", b + "Z");
    SeparatorOrder('.', b + "Z", a + "Z");
    FractionBounds(a);
    FractionBounds(b);
    if a == b {
      LexIrreflexive(TailOf(a));
    } else if a < b {
      ExtendedFraction(a, b);
    } else if b < a {
      ExtendedFraction(b, a);
    } else {
      DifferingFractions(a, b);
    }
  }

  predicate StringsAgree(a: string, b: string)
    requires IsUtcTimestamp(a) && IsUtcTimestamp(b)
  {
    && (LexLess(a, b) <==> Instant(a) < Instant(b))
    && (LexLess(b, a) <==> Instant(b) < Instant(a))
  }

  /** Comparing two accepted texts as strings is comparing their instants exactly unless, within one second, the written
      fraction of one goes on where the other's stops. */
  lemma StringOrderIsTimeOrder(a: string, b: string)
    requires IsUtcTimestamp(a) && IsUtcTimestamp(b)
    ensures StringsAgree(a, b) <==> !(SameSecond(a, b) && (FractionExtends(a, b) || FractionExtends(b, a)))
  {
    TailIs(a);
    TailIs(b);
    var x, y := FractionDigits(a), FractionDigits(b);
    FractionBounds(x);
    FractionBounds(y);
    StampOrder(WallOf(a), WallOf(b));
    StampOrder(WallOf(b), WallOf(a));
    WallOrder(WallOf(a), WallOf(b));
    LexConcat(Stamp(WallOf(a)), Stamp(WallOf(b)), TailOf(x), TailOf(y));
    LexConcat(Stamp(WallOf(b)), Stamp(WallOf(a)), TailOf(y), TailOf(x));
    TailOrder(x, y);
    TailOrder(y, x);
  }

  /** The comparison of completion and start times in particular: it refuses a completion that is not earlier exactly
      when the completion's fraction goes on after the start's, and lets an earlier one pass exactly when the start's
      goes on to a greater number. */
  lemma CompletionGuard(completed: string, started: string)
    requires IsUtcTimestamp(completed) && IsUtcTimestamp(started)
    ensures LexLess(completed, started) && !(Instant(completed) < Instant(started))
      <==> SameSecond(completed, started) && FractionExtends(started, completed)
    ensures !LexLess(completed, started) && Instant(completed) < Instant(started)
      <==> SameSecond(completed, started) && FractionExtends(completed, started)
           && Instant(completed) != Instant(started)
  {
    var a, b := completed, started;
    TailIs(a);
    TailIs(b);
    var x, y := FractionDigits(a), FractionDigits(b);
    FractionBounds(x);
    FractionBounds(y);
    StampOrder(WallOf(a), WallOf(b));
    WallOrder(WallOf(a), WallOf(b));
    LexConcat(Stamp(WallOf(a)), Stamp(WallOf(b)), TailOf(x), TailOf(y));
    TailOrder(x, y);
  }

  /** In every second, a completion half a second after the start sorts before it. */
  lemma LaterTextCanSortFirst(w: Wall)
    requires FitsStamp(w)
    ensures var started, completed := Stamp(w) + "Z", Stamp(w) + ".5Z";
      && IsUtcTimestamp(started) && IsUtcTimestamp(completed)
      && LexLess(completed, started) && Instant(started) < Instant(completed)
  {
    var started, completed := Stamp(w) + "Z", Stamp(w) + ".5Z";
    TwoSpellings(w, started, completed);
    CompletionGuard(completed, started);
  }

  /** A second spelled without and with half a second. */
  lemma TwoSpellings(w: Wall, started: string, completed: string)
    requires FitsStamp(w) && started == Stamp(w) + "Z" && completed == Stamp(w) + ".5Z"
    ensures IsUtcTimestamp(started) && IsUtcTimestamp(completed) && SameSecond(completed, started)
    ensures FractionDigits(started) == "" && FractionDigits(completed) == "5" && Fraction("5") == 0.5
    ensures Instant(started) < Instant(completed)
  {
    FieldWidths(w);
    assert |Stamp(w)| == 19;
    SpelledIsAccepted(started, w, "Z");
    SpelledIsAccepted(completed, w, ".5Z");
    assert FractionDigits(completed) == completed[19..][1..2] == "5";
    assert Fraction("5") == 0.5 by { assert "5"[1..] == ""; }
  }

  // ---------- the printer ----------

  /** The text of a number of seconds since the epoch. */
  function FormatRfc3339Utc(seconds: nat): string {
    SecondsAreInRange(seconds);
    Stamp(WallFromSeconds(seconds)) + "Z"
  }

  /** Seconds from the epoch to the end of year 9999. */
  const END_OF_FOUR_DIGIT_YEARS := 253_402_300_800

  lemma LateYears(days: int)
    ensures days >= 0 ==> CivilFromDays(days).year >= 1970
    ensures days >= 2_932_897 <==> CivilFromDays(days).year >= 10_000
  {
    CivilIsCalendar(days);
    DayNumberInverts(days);
    DateOrder(CivilFromDays(days), Date(1970, 1, 1));
    DateOrder(CivilFromDays(days), Date(10_000, 1, 1));
    assert LeapDays(1969) == 477 && LeapDays(9_999) == 2_424;
  }

  lemma TimeOfDay(ofDay: int)
    requires 0 <= ofDay < 86_400
    ensures 0 <= ofDay / 3_600 <= 23 && 0 <= (ofDay % 3_600) / 60 <= 59 && 0 <= ofDay % 60 <= 59
    ensures ofDay == ofDay / 3_600 * 3_600 + (ofDay % 3_600) / 60 * 60 + ofDay % 60
  {
  }

  lemma DayInRange(days: nat)
    ensures var d := CivilFromDays(days); ValidDate(d) && d.year >= 1970 && DayNumber(d) == days
    ensures days < 2_932_897 <==> CivilFromDays(days).year <= 9999
  {
    CivilIsCalendar(days);
    DayNumberInverts(days);
    LateYears(days);
  }

  lemma WallParts(w: Wall, days: nat, ofDay: int)
    requires ValidDate(w.date) && w.date.year >= 1970 && DayNumber(w.date) == days && 0 <= ofDay < 86_400
    requires w.hour == ofDay / 3_600 && w.minute == (ofDay % 3_600) / 60 && w.second == ofDay % 60
    ensures WallInRange(w) && Seconds(w) == days * 86_400 + ofDay
  {
    TimeOfDay(ofDay);
  }

  lemma SecondsAreInRange(seconds: nat)
    ensures WallInRange(WallFromSeconds(seconds)) && Seconds(WallFromSeconds(seconds)) == seconds
    ensures seconds < END_OF_FOUR_DIGIT_YEARS <==> WallFromSeconds(seconds).date.year <= 9999
  {
    DayInRange(seconds / 86_400);
    WallParts(WallFromSeconds(seconds), seconds / 86_400, seconds % 86_400);
  }

  /** The printed text is accepted exactly before year 10000, and then names the very second that was printed. */
  lemma PrintedIsAccepted(seconds: nat)
    ensures IsUtcTimestamp(FormatRfc3339Utc(seconds)) <==> seconds < END_OF_FOUR_DIGIT_YEARS
    ensures seconds < END_OF_FOUR_DIGIT_YEARS
      ==> |FormatRfc3339Utc(seconds)| == 20 && Instant(FormatRfc3339Utc(seconds)) == seconds as real
  {
    var w := WallFromSeconds(seconds);
    SecondsAreInRange(seconds);
    if seconds < END_OF_FOUR_DIGIT_YEARS {
      FieldWidths(w);
      SpelledIsAccepted(FormatRfc3339Utc(seconds), w, "Z");
    } else {
      WideYearIsRefused(w);
    }
  }

  lemma WideYearIsRefused(w: Wall)
    requires WallInRange(w) && w.date.year > 9999
    ensures !IsUtcTimestamp(Stamp(w) + "Z")
  {
    assert Power10(4) == 10_000;
    WidePadded(w.date.year, 4);
    var year := Padded(w.date.year, 4);
    assert (Stamp(w) + "Z")[4] == year[4] by { assert year <= Stamp(w) + "Z"; }
  }

  /** Printed texts sort as strings the way their seconds do. */
  lemma PrintedOrder(s: nat, t: nat)
    requires s < END_OF_FOUR_DIGIT_YEARS && t < END_OF_FOUR_DIGIT_YEARS
    ensures s < t <==> LexLess(FormatRfc3339Utc(s), FormatRfc3339Utc(t))
  {
    PrintedIsAccepted(s);
    PrintedIsAccepted(t);
    StringOrderIsTimeOrder(FormatRfc3339Utc(s), FormatRfc3339Utc(t));
  }
}
