/** Resolution of named mentions in a draft body: a scanner that expands `@alias` from an allowlist and refuses every
    form that could address somebody else. */
module Mentions {
  import opened Wrappers
  import opened Text

  datatype MentionKind = Role | User

  datatype MentionTarget = MentionTarget(kind: MentionKind, id: string)

  /** An allowlist entry, and equally an occurrence found in a text. */
  datatype Mention = Mention(alias: string, target: MentionTarget)

  datatype MentionError =
    | InvalidAlias(alias: string)
    | DuplicateAlias(alias: string)
    | InvalidTarget(alias: string)
    | UnlistedAlias(alias: string)
    | MalformedAlias
    | RawDiscordMention
    | UserBotMention(alias: string)
    | UnsupportedMentionSyntax

  predicate IsDiscordId(s: string) { 1 <= |s| <= 32 && AllDigits(s) }

  predicate IsAliasCharacter(c: char) { IsAsciiAlphanumeric(c) || c == '-' || c == '_' || c == '.' }

  predicate IsValidAlias(s: string) {
    1 <= |s| <= 64 && IsAsciiAlphabetic(s[0]) && forall i :: 0 <= i < |s| ==> IsAliasCharacter(s[i])
  }

  function Bounded(alias: string): string { if |alias| <= 64 then alias else alias[..64] }

  /** `<@&id>` for a role, `<@id>` for a user. */
  function Rendered(target: MentionTarget): string {
    (if target.kind.Role? then ['<', '@', '&'] else ['<', '@']) + target.id + ['>']
  }

  // ---------- the allowlist ----------

  function CheckEntry(entry: Mention, bot: Option<string>): Option<MentionError> {
    if !IsValidAlias(entry.alias) then Some(InvalidAlias(Bounded(entry.alias)))
    else if !IsDiscordId(entry.target.id) then Some(InvalidTarget(Bounded(entry.alias)))
    else if entry.target.kind.User? && bot == Some(entry.target.id) then Some(UserBotMention(Bounded(entry.alias)))
    else None
  }

  /** The allowlist from entry `k` on, added to `known`. */
  function Allowlist(entries: seq<Mention>, bot: Option<string>, k: nat, known: map<string, MentionTarget>):
      Result<map<string, MentionTarget>, MentionError>
    decreases |entries| - k
  {
    if k >= |entries| then Success(known)
    else
      var entry := entries[k];
      var problem := CheckEntry(entry, bot);
      if problem.Some? then Failure(problem.value)
      else if entry.alias in known then Failure(DuplicateAlias(Bounded(entry.alias)))
      else Allowlist(entries, bot, k + 1, known[entry.alias := entry.target])
  }

  method ValidateAllowlist(entries: seq<Mention>, bot: Option<string>)
      returns (r: Result<map<string, MentionTarget>, MentionError>)
    ensures r == Allowlist(entries, bot, 0, map[])
  {
    var known := map[];
    for k := 0 to |entries|
      invariant Allowlist(entries, bot, k, known) == Allowlist(entries, bot, 0, map[])
    {
      var problem := CheckEntry(entries[k], bot);
      if problem.Some? { return Failure(problem.value); }
      if entries[k].alias in known { return Failure(DuplicateAlias(Bounded(entries[k].alias))); }
      known := known[entries[k].alias := entries[k].target];
    }
    r := Success(known);
  }

  predicate DistinctAliases(entries: seq<Mention>) {
    forall i, j :: 0 <= i < j < |entries| ==> entries[i].alias != entries[j].alias
  }

  predicate EntriesPass(entries: seq<Mention>, bot: Option<string>) {
    forall i :: 0 <= i < |entries| ==> CheckEntry(entries[i], bot) == None
  }

  /** `known` is the function the first `k` entries write down. */
  ghost predicate Holds(entries: seq<Mention>, k: nat, known: map<string, MentionTarget>) {
    && k <= |entries|
    && (forall i :: 0 <= i < k ==> entries[i].alias in known && known[entries[i].alias] == entries[i].target)
    && (forall a :: a in known ==> exists i :: 0 <= i < k && entries[i].alias == a)
  }

  lemma {:induction false} AllowlistFrom(entries: seq<Mention>, bot: Option<string>, k: nat,
                                         known: map<string, MentionTarget>)
    requires Holds(entries, k, known) && EntriesPass(entries[..k], bot) && DistinctAliases(entries[..k])
    ensures Allowlist(entries, bot, k, known).Success? <==> EntriesPass(entries, bot) && DistinctAliases(entries)
    ensures Allowlist(entries, bot, k, known).Success?
      ==> Holds(entries, |entries|, Allowlist(entries, bot, k, known).value)
    decreases |entries| - k
  {
    if k == |entries| {
      assert entries[..k] == entries;
    } else if CheckEntry(entries[k], bot) == None {
      if entries[k].alias in known {
        var i :| 0 <= i < k && entries[i].alias == entries[k].alias;
        assert !DistinctAliases(entries);
      } else {
        assert entries[..k + 1] == entries[..k] + [entries[k]];
        AllowlistFrom(entries, bot, k + 1, known[entries[k].alias := entries[k].target]);
      }
    }
  }

  /** The allowlist is accepted exactly when every entry is valid, none is the bot, and no alias is repeated; then it
      maps each alias to its target. */
  lemma AllowlistIsTheEntries(entries: seq<Mention>, bot: Option<string>)
    ensures Allowlist(entries, bot, 0, map[]).Success? <==> EntriesPass(entries, bot) && DistinctAliases(entries)
    ensures Allowlist(entries, bot, 0, map[]).Success?
      ==> Holds(entries, |entries|, Allowlist(entries, bot, 0, map[]).value)
  {
    AllowlistFrom(entries, bot, 0, map[]);
  }

  // ---------- the scanner ----------

  predicate PairAt(t: string, i: int, a: char, b: char) { 0 <= i && i + 1 < |t| && t[i] == a && t[i + 1] == b }

  /** A word of four letters and a colon stands at `i`, the letters in any case. */
  predicate PrefixAt(t: string, i: int, a: char, b: char, c: char, d: char) {
    && 0 <= i && i + 5 <= |t| && t[i + 4] == ':'
    && Lower(t[i]) == a && Lower(t[i + 1]) == b && Lower(t[i + 2]) == c && Lower(t[i + 3]) == d
  }

  /** A raw Discord mention, or a raw target (`role:` or `user:`), starts at `i`. */
  predicate RawAt(t: string, i: int) {
    || PairAt(t, i, '<', '@') || PairAt(t, i, '<', '#')
    || PrefixAt(t, i, 'r', 'o', 'l', 'e') || PrefixAt(t, i, 'u', 's', 'e', 'r')
  }

  /** Equality that ignores the case of ASCII letters; `word` is in lower case. */
  predicate SameLetters(s: string, word: string) {
    |s| == |word| && forall k :: 0 <= k < |word| ==> Lower(s[k]) == word[k]
  }

  predicate IsSigil(c: char) { c == '!' || c == '&' || c == '#' || c == ':' || c == '@' }

  /** Letters and digits; `wide` says which of the characters beyond ASCII are. */
  predicate IsAlphanumeric(c: char, wide: char -> bool) { if c < '\U{80}' then IsAsciiAlphanumeric(c) else wide(c) }

  function AliasEnd(t: string, i: nat): (end: nat)
    requires i <= |t|
    ensures i <= end <= |t| && (end < |t| ==> !IsAliasCharacter(t[end]))
    ensures forall k :: i <= k < end ==> IsAliasCharacter(t[k])
    decreases |t| - i
  {
    if i < |t| && IsAliasCharacter(t[i]) then AliasEnd(t, i + 1) else i
  }

  function TrimDots(s: string): (r: string)
    ensures r <= s
  {
    if s != [] && s[|s| - 1] == '.' then TrimDots(s[..|s| - 1]) else s
  }

  predicate IsMassAlias(alias: string) {
    SameLetters(alias, "everyone") || SameLetters(alias, "here")
  }

  /** What the scanner does at one character. */
  datatype Step = Copy | Expand(mention: Mention) | Refuse(error: MentionError)

  /** Expansion of the alias that fills `t[i + 1..end]`, or of the alias without its final dots. */
  function Lookup(alias: string, allow: map<string, MentionTarget>): Step {
    if alias in allow then Expand(Mention(alias, allow[alias]))
    else
      var trimmed := TrimDots(alias);
      if |trimmed| < |alias| && trimmed in allow then Expand(Mention(trimmed, allow[trimmed]))
      else Refuse(UnlistedAlias(Bounded(alias)))
  }

  function AliasStep(t: string, i: nat, end: nat, allow: map<string, MentionTarget>, wide: char -> bool): Step
    requires i + 1 <= end <= |t|
  {
    var alias := t[i + 1..end];
    if end < |t| && (IsAlphanumeric(t[end], wide) || IsSigil(t[end])) then Refuse(MalformedAlias)
    else if IsMassAlias(alias) then Refuse(RawDiscordMention)
    else Lookup(alias, allow)
  }

  function StepAt(t: string, i: nat, allow: map<string, MentionTarget>, wide: char -> bool): Step
    requires i < |t|
  {
    if RawAt(t, i) then Refuse(RawDiscordMention)
    else if PairAt(t, i, '{', '{') then Refuse(UnsupportedMentionSyntax)
    else if t[i] != '@' || i + 1 == |t| then Copy
    else if IsSigil(t[i + 1]) || IsDigit(t[i + 1]) then Refuse(RawDiscordMention)
    else if i > 0 && IsAliasCharacter(t[i - 1]) then Copy
    else if !IsAsciiAlphabetic(t[i + 1]) then if IsAlphanumeric(t[i + 1], wide) then Refuse(MalformedAlias) else Copy
    else AliasStep(t, i, AliasEnd(t, i + 1), allow, wide)
  }

  /** A stretch of the input the scanner has dealt with. */
  datatype Piece = Plain(c: char) | Expanded(mention: Mention)

  function PieceSource(p: Piece): (s: string)
    ensures |s| >= 1
  {
    match p
    case Plain(c) => [c]
    case Expanded(mention) => ['@'] + mention.alias
  }

  function PieceText(p: Piece): (s: string)
    ensures |s| >= 1
  {
    match p
    case Plain(c) => [c]
    case Expanded(mention) => Rendered(mention.target)
  }

  /** Pieces in the order of the text. */
  datatype Pieces = Nothing | Then(front: Pieces, last: Piece)

  function Source(ps: Pieces): string { if ps.Nothing? then [] else Source(ps.front) + PieceSource(ps.last) }

  function Output(ps: Pieces): string { if ps.Nothing? then [] else Output(ps.front) + PieceText(ps.last) }

  function Occurrences(ps: Pieces): seq<Mention> {
    if ps.Nothing? then []
    else if ps.last.Plain? then Occurrences(ps.front)
    else Occurrences(ps.front) + [ps.last.mention]
  }

  /** Scanning on from `i`, where `ps` has been dealt with; `step` is what to do at each character. */
  function Scan(t: string, i: nat, ps: Pieces, step: nat -> Step): Result<Pieces, MentionError>
    decreases |t| - i
  {
    if i >= |t| then Success(ps)
    else
      match step(i)
      case Copy => Scan(t, i + 1, Then(ps, Plain(t[i])), step)
      case Expand(mention) => Scan(t, i + 1 + |mention.alias|, Then(ps, Expanded(mention)), step)
      case Refuse(error) => Failure(error)
  }

  function Steps(t: string, allow: map<string, MentionTarget>, wide: char -> bool): nat -> Step {
    (i: nat) => if i < |t| then StepAt(t, i, allow, wide) else Copy
  }

  // ---------- the allowed set ----------

  predicate TargetLess(a: MentionTarget, b: MentionTarget) {
    if a.kind == b.kind then LexLess(a.id, b.id) else a.kind.Role?
  }

  /** Insertion into a map ordered by target that keeps an entry already there. */
  function InsertMention(allowed: seq<Mention>, m: Mention): seq<Mention> {
    if allowed == [] then [m]
    else if allowed[0].target == m.target then allowed
    else if TargetLess(m.target, allowed[0].target) then [m] + allowed
    else [allowed[0]] + InsertMention(allowed[1..], m)
  }

  function AllowedOf(occurrences: seq<Mention>): seq<Mention> {
    if occurrences == [] then []
    else InsertMention(AllowedOf(occurrences[..|occurrences| - 1]), occurrences[|occurrences| - 1])
  }

  datatype Resolution = Resolution(text: string, occurrences: seq<Mention>, allowed: seq<Mention>)

  function ResolutionOf(ps: Pieces): Resolution {
    Resolution(Output(ps), Occurrences(ps), AllowedOf(Occurrences(ps)))
  }

  function Resolve(t: string, entries: seq<Mention>, bot: Option<string>, wide: char -> bool):
      Result<Resolution, MentionError>
  {
    var allow := Allowlist(entries, bot, 0, map[]);
    if allow.Failure? then Failure(allow.error)
    else
      var pieces := Scan(t, 0, Nothing, Steps(t, allow.value, wide));
      if pieces.Failure? then Failure(pieces.error) else Success(ResolutionOf(pieces.value))
  }

  /** The scanner stands at `index`, having dealt with `ps` and produced `r`. */
  ghost predicate ScannedTo(t: string, step: nat -> Step, index: nat, ps: Pieces, r: Resolution) {
    Scan(t, index, ps, step) == Scan(t, 0, Nothing, step) && r == ResolutionOf(ps)
  }

  lemma CopyStep(t: string, step: nat -> Step, index: nat, ps: Pieces, r: Resolution)
    requires ScannedTo(t, step, index, ps, r) && index < |t| && step(index) == Copy
    ensures ScannedTo(t, step, index + 1, Then(ps, Plain(t[index])), r.(text := r.text + [t[index]]))
  {
  }

  lemma ExpandStep(t: string, step: nat -> Step, index: nat, ps: Pieces, r: Resolution, m: Mention)
    requires ScannedTo(t, step, index, ps, r) && index < |t| && step(index) == Expand(m)
    ensures ScannedTo(t, step, index + 1 + |m.alias|, Then(ps, Expanded(m)),
                      Resolution(r.text + Rendered(m.target), r.occurrences + [m], InsertMention(r.allowed, m)))
  {
  }

  method FindAliasEnd(t: string, start: nat) returns (end: nat)
    requires start <= |t|
    ensures end == AliasEnd(t, start)
  {
    end := start;
    while end < |t| && IsAliasCharacter(t[end])
      invariant start <= end <= |t| && AliasEnd(t, end) == AliasEnd(t, start)
    {
      end := end + 1;
    }
  }

  /** `step` gives what the scanner does on `t`. */
  ghost predicate Follows(step: nat -> Step, t: string, allow: map<string, MentionTarget>, wide: char -> bool) {
    forall i: nat {:trigger StepAt(t, i, allow, wide)} :: i < |t| ==> step(i) == StepAt(t, i, allow, wide)
  }

  method NextStep(t: string, i: nat, allow: map<string, MentionTarget>, wide: char -> bool, ghost step: nat -> Step)
      returns (next: Step)
    requires i < |t| && Follows(step, t, allow, wide)
    ensures next == step(i)
  {
    assert step(i) == StepAt(t, i, allow, wide);
    if RawAt(t, i) { return Refuse(RawDiscordMention); }
    if PairAt(t, i, '{', '{') { return Refuse(UnsupportedMentionSyntax); }
    if t[i] != '@' || i + 1 == |t| { return Copy; }
    var after := t[i + 1];
    if IsSigil(after) || IsDigit(after) { return Refuse(RawDiscordMention); }
    if i > 0 && IsAliasCharacter(t[i - 1]) { return Copy; }
    if !IsAsciiAlphabetic(after) {
      return if IsAlphanumeric(after, wide) then Refuse(MalformedAlias) else Copy;
    }
    var end := FindAliasEnd(t, i + 1);
    next := AliasStep(t, i, end, allow, wide);
  }

  method ScanText(t: string, allow: map<string, MentionTarget>, wide: char -> bool, ghost step: nat -> Step)
      returns (r: Result<Resolution, MentionError>)
    requires Follows(step, t, allow, wide)
    ensures r == (match Scan(t, 0, Nothing, step)
                  case Success(ps) => Success(ResolutionOf(ps))
                  case Failure(e) => Failure(e))
  {
    var output: string, occurrences: seq<Mention>, allowed: seq<Mention> := [], [], [];
    var index := 0;
    ghost var ps := Nothing;
    while index < |t|
      invariant ScannedTo(t, step, index, ps, Resolution(output, occurrences, allowed))
      decreases |t| - index
    {
      var next := NextStep(t, index, allow, wide, step);
      match next
      case Refuse(error) => return Failure(error);
      case Copy =>
        CopyStep(t, step, index, ps, Resolution(output, occurrences, allowed));
        ps := Then(ps, Plain(t[index]));
        output := output + [t[index]];
        index := index + 1;
      case Expand(mention) =>
        ExpandStep(t, step, index, ps, Resolution(output, occurrences, allowed), mention);
        ps := Then(ps, Expanded(mention));
        output := output + Rendered(mention.target);
        allowed := InsertMention(allowed, mention);
        occurrences := occurrences + [mention];
        index := index + 1 + |mention.alias|;
    }
    r := Success(Resolution(output, occurrences, allowed));
  }

  method ResolveWithAllowlist(t: string, entries: seq<Mention>, bot: Option<string>, wide: char -> bool)
      returns (r: Result<Resolution, MentionError>)
    ensures r == Resolve(t, entries, bot, wide)
  {
    var allowlist := ValidateAllowlist(entries, bot);
    if allowlist.Failure? { return Failure(allowlist.error); }
    r := ScanText(t, allowlist.value, wide, Steps(t, allowlist.value, wide));
  }
}
