/** Exactly which texts resolve: the rules for mentions over the positions of a text, apart from how the scanner goes
    through it. */
module MentionRules {
  import opened Wrappers
  import opened Text
  import opened Mentions
  import opened MentionSafety

  predicate IsLetter(c: char) { 'a' <= c <= 'z' || 'A' <= c <= 'Z' }

  /** What an alias is made of. */
  predicate InAlias(c: char) { IsLetter(c) || '0' <= c <= '9' || c == '-' || c == '_' || c == '.' }

  /** A letter or digit, of ASCII or, as `wide` says, beyond it. */
  predicate InWord(c: char, wide: char -> bool) { if c as int < 0x80 then IsLetter(c) || '0' <= c <= '9' else wide(c) }

  /** After an `@`, or after an alias, these begin or end something that Discord could take for a mention. */
  predicate IsMark(c: char) { c == '!' || c == '&' || c == '#' || c == ':' || c == '@' }

  /** The letter in either case. */
  predicate SameLetter(c: char, letter: char) { c == letter || ('A' <= c <= 'Z' && c + 32 as char == letter) }

  /** The word, of lower-case letters and the like, in any case. */
  predicate Spells(s: string, word: string) {
    |s| == |word| && forall k :: 0 <= k < |word| ==> SameLetter(s[k], word[k])
  }

  predicate SpelledAt(t: string, i: int, word: string) {
    0 <= i && i + |word| <= |t| && Spells(t[i..i + |word|], word)
  }

  /** A form that is nowhere allowed starts at `i`. */
  predicate ForbiddenAt(t: string, i: int) {
    || OccursAt(t, "<@", i) || OccursAt(t, "<#", i) || OccursAt(t, "{{", i)
    || SpelledAt(t, i, "role:") || SpelledAt(t, i, "user:")
  }

  /** The longest run of alias characters from `i` on ends at `end`. */
  predicate RunTo(t: string, i: int, end: int) {
    0 <= i <= end <= |t| && (forall k :: i <= k < end ==> InAlias(t[k])) && (end < |t| ==> !InAlias(t[end]))
  }

  /** `s` is the run without the dots at its end. */
  predicate WithoutDots(run: string, s: string) {
    s <= run && (forall k :: |s| <= k < |run| ==> run[k] == '.') && (s == [] || s[|s| - 1] != '.')
  }

  /** The alias that a run stands for: the run itself if it is listed, else the run without its final dots, if that
      is. */
  ghost predicate StandsFor(run: string, alias: string, allow: map<string, MentionTarget>) {
    alias in allow && (alias == run || (run !in allow && WithoutDots(run, alias)))
  }

  /** Nothing that could be part of the name, or of another mention, follows the run that ends at `end`. */
  predicate EndsWell(t: string, end: int, wide: char -> bool)
    requires 0 <= end <= |t|
  {
    end < |t| ==> !InWord(t[end], wide) && !IsMark(t[end])
  }

  /** The run is a name for everybody. */
  predicate IsEverybody(run: string) { Spells(run, "everyone") || Spells(run, "here") }

  /** The run from `from` to `end` stands for a listed alias, for nobody else, and ends well. */
  ghost predicate RunNames(t: string, from: int, end: int, alias: string, allow: map<string, MentionTarget>,
                           wide: char -> bool)
  {
    && RunTo(t, from, end) && EndsWell(t, end, wide) && !IsEverybody(t[from..end])
    && StandsFor(t[from..end], alias, allow)
  }

  ghost predicate NamedFrom(t: string, from: int, alias: string, allow: map<string, MentionTarget>,
                            wide: char -> bool)
  {
    exists end :: RunNames(t, from, end, alias, allow, wide)
  }

  /** What follows an `@`, from `from` on, names a listed alias. */
  ghost predicate NamesAlias(t: string, from: int, allow: map<string, MentionTarget>, wide: char -> bool) {
    exists alias :: NamedFrom(t, from, alias, allow, wide)
  }

  /** The `@` at `i` is one that the text must not have. */
  ghost predicate MisusedAt(t: string, i: int, allow: map<string, MentionTarget>, wide: char -> bool)
    requires 0 <= i < |t|
  {
    && t[i] == '@' && i + 1 < |t|
    && var c := t[i + 1];
    || IsMark(c) || '0' <= c <= '9'
    || ((i == 0 || !InAlias(t[i - 1]))
        && if IsLetter(c) then !NamesAlias(t, i + 1, allow, wide) else InWord(c, wide))
  }

  ghost predicate RefusedAt(t: string, i: int, allow: map<string, MentionTarget>, wide: char -> bool)
    requires 0 <= i < |t|
  {
    ForbiddenAt(t, i) || MisusedAt(t, i, allow, wide)
  }

  // ---------- the helpers of the scanner ----------

  lemma CharsAre(c: char, wide: char -> bool)
    ensures IsAliasCharacter(c) <==> InAlias(c)
    ensures IsAlphanumeric(c, wide) <==> InWord(c, wide)
    ensures IsSigil(c) <==> IsMark(c)
    ensures IsAsciiAlphabetic(c) <==> IsLetter(c)
  {
  }

  lemma LowerIs(c: char, letter: char)
    requires 'a' <= letter <= 'z' || letter == ':'
    ensures Lower(c) == letter <==> SameLetter(c, letter)
  {
  }

  lemma PrefixIs(t: string, i: int, a: char, b: char, c: char, d: char, word: string)
    requires 'a' <= a <= 'z' && 'a' <= b <= 'z' && 'a' <= c <= 'z' && 'a' <= d <= 'z' && word == [a, b, c, d, ':']
    ensures PrefixAt(t, i, a, b, c, d) <==> SpelledAt(t, i, word)
  {
    if 0 <= i && i + 5 <= |t| {
      var s := t[i..i + 5];
      assert s[0] == t[i] && s[1] == t[i + 1] && s[2] == t[i + 2] && s[3] == t[i + 3] && s[4] == t[i + 4];
      forall k | 0 <= k < 5 ensures Lower(s[k]) == word[k] <==> SameLetter(s[k], word[k]) { LowerIs(s[k], word[k]); }
      assert word[4] == ':' && (SameLetter(s[4], ':') <==> s[4] == ':');
    }
  }

  lemma PairIs(t: string, i: int, a: char, b: char, word: string)
    requires word == [a, b]
    ensures PairAt(t, i, a, b) <==> OccursAt(t, word, i)
  {
    if 0 <= i && i + 2 <= |t| { assert t[i..i + 2] == [t[i], t[i + 1]]; }
  }

  lemma ForbiddenIs(t: string, i: int)
    ensures ForbiddenAt(t, i) <==> RawAt(t, i) || PairAt(t, i, '{', '{')
  {
    PairIs(t, i, '<', '@', "<@");
    PairIs(t, i, '<', '#', "<#");
    PairIs(t, i, '{', '{', "{{");
    PrefixIs(t, i, 'r', 'o', 'l', 'e', "role:");
    PrefixIs(t, i, 'u', 's', 'e', 'r', "user:");
  }

  lemma WordIs(s: string, word: string)
    requires forall k :: 0 <= k < |word| ==> 'a' <= word[k] <= 'z'
    ensures SameLetters(s, word) <==> Spells(s, word)
  {
    if |s| == |word| {
      forall k | 0 <= k < |word| ensures Lower(s[k]) == word[k] <==> SameLetter(s[k], word[k]) {
        LowerIs(s[k], word[k]);
      }
    }
  }

  lemma EverybodyIs(run: string)
    ensures IsMassAlias(run) <==> IsEverybody(run)
  {
    WordIs(run, "everyone");
    WordIs(run, "here");
  }

  lemma RunIs(t: string, i: nat, end: int, wide: char -> bool)
    requires i <= |t|
    ensures RunTo(t, i, end) <==> end == AliasEnd(t, i)
  {
    forall k | 0 <= k < |t| ensures IsAliasCharacter(t[k]) <==> InAlias(t[k]) { CharsAre(t[k], wide); }
  }

  lemma {:induction false} TrimmedIs(run: string, s: string)
    ensures WithoutDots(run, s) <==> s == TrimDots(run)
    decreases |run|
  {
    if run != [] && run[|run| - 1] == '.' {
      var front := run[..|run| - 1];
      TrimmedIs(front, s);
      if WithoutDots(run, s) {
        assert s != run;
        assert s <= front;
      }
    }
  }

  lemma LookupIs(run: string, allow: map<string, MentionTarget>, alias: string)
    ensures Lookup(run, allow).Refuse? <==> forall a :: !StandsFor(run, a, allow)
    ensures StandsFor(run, alias, allow) ==> Lookup(run, allow) == Expand(Mention(alias, allow[alias]))
  {
    var trimmed := TrimDots(run);
    TrimmedIs(run, trimmed);
    TrimmedIs(run, alias);
    assert run in allow ==> StandsFor(run, run, allow);
    assert run !in allow && trimmed in allow ==> StandsFor(run, trimmed, allow);
    forall a | StandsFor(run, a, allow) ensures a == if run in allow then run else trimmed { TrimmedIs(run, a); }
  }

  // ---------- one position ----------

  lemma AliasStepIs(t: string, i: nat, allow: map<string, MentionTarget>, wide: char -> bool)
    requires i < |t|
    ensures AliasStep(t, i, AliasEnd(t, i + 1), allow, wide).Refuse? <==> !NamesAlias(t, i + 1, allow, wide)
  {
    var end := AliasEnd(t, i + 1);
    var run := t[i + 1..end];
    RunIs(t, i + 1, end, wide);
    if end < |t| { CharsAre(t[end], wide); }
    EverybodyIs(run);
    if NamesAlias(t, i + 1, allow, wide) {
      var alias :| NamedFrom(t, i + 1, alias, allow, wide);
      var e :| RunNames(t, i + 1, e, alias, allow, wide);
      RunIs(t, i + 1, e, wide);
      LookupIs(run, allow, alias);
    }
    if alias :| StandsFor(run, alias, allow) {
      assert EndsWell(t, end, wide) && !IsEverybody(run) ==> RunNames(t, i + 1, end, alias, allow, wide);
      assert EndsWell(t, end, wide) && !IsEverybody(run) ==> NamedFrom(t, i + 1, alias, allow, wide);
    }
    LookupIs(run, allow, run);
  }

  /** The scanner's step refuses exactly what the rules refuse at its place. */
  lemma StepIs(t: string, i: nat, allow: map<string, MentionTarget>, wide: char -> bool)
    requires i < |t|
    ensures StepAt(t, i, allow, wide).Refuse? <==> RefusedAt(t, i, allow, wide)
  {
    ForbiddenIs(t, i);
    if i + 1 < |t| {
      CharsAre(t[i + 1], wide);
      AliasStepIs(t, i, allow, wide);
    }
    if i > 0 { CharsAre(t[i - 1], wide); }
  }

  /** An expansion is of the alias that the run stands for, and of its target. */
  lemma ExpansionIs(t: string, i: nat, allow: map<string, MentionTarget>, wide: char -> bool, m: Mention)
    requires i < |t| && StepAt(t, i, allow, wide) == Expand(m)
    ensures NamedFrom(t, i + 1, m.alias, allow, wide) && allow[m.alias] == m.target
  {
    var end := AliasEnd(t, i + 1);
    var run := t[i + 1..end];
    RunIs(t, i + 1, end, wide);
    if end < |t| { CharsAre(t[end], wide); }
    EverybodyIs(run);
    var trimmed := TrimDots(run);
    TrimmedIs(run, trimmed);
    assert StandsFor(run, m.alias, allow);
    assert RunNames(t, i + 1, end, m.alias, allow, wide);
  }

  /** Inside an alias that is expanded nothing is refused. */
  lemma InsideIsFine(t: string, i: nat, allow: map<string, MentionTarget>, wide: char -> bool, m: Mention, k: nat)
    requires i < |t| && StepAt(t, i, allow, wide) == Expand(m) && i < k < i + 1 + |m.alias|
    ensures k < |t| && !StepAt(t, k, allow, wide).Refuse?
  {
    ExpansionDeals(t, i, allow, wide, m);
    assert OccursAt(t, PieceSource(Expanded(m)), i);
    ExpansionEnds(t, i, allow, wide);
    LookupFinds(t[i + 1..AliasEnd(t, i + 1)], allow, m);
    assert IsAliasCharacter(t[k]);
    assert CleanAt(t, k);
  }

  // ---------- the whole text ----------

  /** The step refuses nowhere from `i` on. */
  ghost predicate NoneFrom(t: string, i: nat, step: nat -> Step) {
    forall k: nat :: i <= k < |t| ==> !step(k).Refuse?
  }

  /** Inside what the step at `i` expands it refuses nowhere. */
  ghost predicate SkipsSafely(t: string, i: nat, step: nat -> Step) {
    step(i).Expand? ==>
      forall k: nat :: i < k < i + 1 + |step(i).mention.alias| ==> k < |t| && !step(k).Refuse?
  }

  lemma {:induction false} ScanSucceeds(t: string, i: nat, ps: Pieces, step: nat -> Step)
    requires forall k: nat :: k < |t| ==> SkipsSafely(t, k, step)
    ensures Scan(t, i, ps, step).Success? <==> NoneFrom(t, i, step)
    decreases |t| - i
  {
    if i < |t| {
      assert SkipsSafely(t, i, step);
      match step(i)
      case Copy => ScanSucceeds(t, i + 1, Then(ps, Plain(t[i])), step);
      case Expand(m) => ScanSucceeds(t, i + 1 + |m.alias|, Then(ps, Expanded(m)), step);
      case Refuse(_) =>
    }
  }

  lemma StepsSkipSafely(t: string, allow: map<string, MentionTarget>, wide: char -> bool)
    ensures forall i: nat :: i < |t| ==> SkipsSafely(t, i, Steps(t, allow, wide))
  {
    var step := Steps(t, allow, wide);
    forall i: nat | i < |t| ensures SkipsSafely(t, i, step) {
      if step(i).Expand? {
        var m := step(i).mention;
        forall k: nat | i < k < i + 1 + |m.alias| ensures k < |t| && !step(k).Refuse? {
          InsideIsFine(t, i, allow, wide, m, k);
        }
      }
    }
  }

  /** An alias of up to 64 characters that starts with a letter, a target id of up to 32 digits, and not the bot. */
  predicate IsFine(entry: Mention, bot: Option<string>) {
    && 1 <= |entry.alias| <= 64 && IsLetter(entry.alias[0])
    && (forall k :: 0 <= k < |entry.alias| ==> InAlias(entry.alias[k]))
    && 1 <= |entry.target.id| <= 32 && (forall k :: 0 <= k < |entry.target.id| ==> '0' <= entry.target.id[k] <= '9')
    && !(entry.target.kind == User && bot == Some(entry.target.id))
  }

  lemma EntryIs(entry: Mention, bot: Option<string>)
    ensures CheckEntry(entry, bot) == None <==> IsFine(entry, bot)
  {
    forall k | 0 <= k < |entry.alias| ensures IsAliasCharacter(entry.alias[k]) <==> InAlias(entry.alias[k]) {}
  }

  ghost predicate NothingRefused(t: string, allow: map<string, MentionTarget>, wide: char -> bool) {
    forall i :: 0 <= i < |t| ==> !RefusedAt(t, i, allow, wide)
  }

  /** A text resolves exactly if every entry of the allowlist is fine, no alias is listed twice, and the rules refuse
      nothing at any position of the text, also where the scanner does not stop. */
  lemma ResolvesExactlyIf(t: string, entries: seq<Mention>, bot: Option<string>, wide: char -> bool)
    ensures Resolve(t, entries, bot, wide).Success?
      <==> && (forall k :: 0 <= k < |entries| ==> IsFine(entries[k], bot)) && DistinctAliases(entries)
           && exists allow :: Holds(entries, |entries|, allow) && NothingRefused(t, allow, wide)
  {
    AllowlistIsTheEntries(entries, bot);
    forall k | 0 <= k < |entries| ensures CheckEntry(entries[k], bot) == None <==> IsFine(entries[k], bot) {
      EntryIs(entries[k], bot);
    }
    if EntriesPass(entries, bot) && DistinctAliases(entries) {
      var allow := Allowlist(entries, bot, 0, map[]).value;
      StepsSkipSafely(t, allow, wide);
      ScanSucceeds(t, 0, Nothing, Steps(t, allow, wide));
      assert forall k: nat :: k < |t| ==> Steps(t, allow, wide)(k) == StepAt(t, k, allow, wide);
      forall i: nat | i < |t| ensures StepAt(t, i, allow, wide).Refuse? <==> RefusedAt(t, i, allow, wide) {
        StepIs(t, i, allow, wide);
      }
      forall other | Holds(entries, |entries|, other) ensures other == allow { SameMap(entries, allow, other); }
    }
  }

  lemma SameMap(entries: seq<Mention>, a: map<string, MentionTarget>, b: map<string, MentionTarget>)
    requires Holds(entries, |entries|, a) && Holds(entries, |entries|, b)
    ensures a == b
  {
  }

  /** Of a text that resolves: each expansion is of the alias that its run stands for, and of the target listed for
      it. */
  lemma ExpansionsAreNamed(t: string, entries: seq<Mention>, bot: Option<string>, wide: char -> bool)
      returns (ps: Pieces, allow: map<string, MentionTarget>)
    requires Resolve(t, entries, bot, wide).Success?
    ensures Explains(t, entries, Resolve(t, entries, bot, wide).value, ps) && Holds(entries, |entries|, allow)
    ensures forall m, from, at :: Stands(ps, Expanded(m), from, at) ==>
              NamedFrom(t, from + 1, m.alias, allow, wide) && m.alias in allow && allow[m.alias] == m.target
  {
    AllowlistIsTheEntries(entries, bot);
    allow := Allowlist(entries, bot, 0, map[]).value;
    var step := Steps(t, allow, wide);
    StepsAreSound(t, allow, wide);
    var all := Scan(t, 0, Nothing, step);
    ps := all.value;
    var n := ScanReads(t, 0, Nothing, step, all);
    ReadExplains(t, entries, bot, allow, step, ps, n);
    forall m, from, at | Stands(ps, Expanded(m), from, at)
      ensures NamedFrom(t, from + 1, m.alias, allow, wide) && m.alias in allow && allow[m.alias] == m.target {
      StandsWithin(ps, Expanded(m), from, at);
      PieceTook(t, step, ps, n, Expanded(m), from, at);
      ExpansionIs(t, from, allow, wide, m);
    }
  }
}
