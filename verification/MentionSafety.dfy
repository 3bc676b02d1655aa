/** What a successful resolution of mentions guarantees about the input, the output and the allowed set. */
module MentionSafety {
  import opened Wrappers
  import opened Text
  import opened Sequences
  import opened Mentions

  /** No form that Discord, or a reader of targets, could take for a mention starts at `p`. */
  predicate CleanAt(t: string, p: int) { !RawAt(t, p) && !PairAt(t, p, '{', '{') }

  predicate CleanSpan(t: string, from: int, to: int) { forall p :: from <= p < to ==> CleanAt(t, p) }

  /** A named mention starts at `j`: an `@` before a letter, and not inside a word. */
  predicate AliasStarts(t: string, j: int) {
    0 <= j && j + 1 < |t| && t[j] == '@' && IsAsciiAlphabetic(t[j + 1]) && (j == 0 || !IsAliasCharacter(t[j - 1]))
  }

  predicate Allows(allow: map<string, MentionTarget>, m: Mention) { m.alias in allow && allow[m.alias] == m.target }

  /** `p` stands for the text from `j` on, which is clean, and expands a mention if one starts there. */
  predicate Deals(t: string, allow: map<string, MentionTarget>, j: int, p: Piece) {
    && OccursAt(t, PieceSource(p), j) && CleanSpan(t, j, j + |PieceSource(p)|)
    && (p.Expanded? <==> AliasStarts(t, j))
    && (p.Expanded? ==> Allows(allow, p.mention))
  }

  /** `p` is what the scanner makes of the text at `j`. */
  predicate Took(t: string, step: nat -> Step, j: nat, p: Piece) {
    j < |t| && step(j) == (match p case Plain(_) => Copy case Expanded(m) => Expand(m)) && (p.Plain? ==> p.c == t[j])
  }

  /** `ps` is what the scanner makes of the first `i` characters, piece after piece. */
  ghost predicate Reads(t: string, step: nat -> Step, ps: Pieces, i: int) {
    if ps.Nothing? then i == 0
    else
      var j := i - |PieceSource(ps.last)|;
      j >= 0 && Reads(t, step, ps.front, j) && Took(t, step, j, ps.last)
  }

  /** Whatever the scanner does, it deals with the text. */
  ghost predicate Sound(t: string, allow: map<string, MentionTarget>, step: nat -> Step) {
    forall j: nat, p {:trigger Deals(t, allow, j, p)} :: Took(t, step, j, p) ==> Deals(t, allow, j, p)
  }

  // ---------- one step ----------

  lemma {:induction false} TrimDotsKeepsFirst(s: string)
    requires s != [] && s[0] != '.'
    ensures TrimDots(s) != [] && (TrimDots(s) == s || s[|TrimDots(s)|] == '.')
  {
    if s[|s| - 1] == '.' {
      TrimDotsKeepsFirst(s[..|s| - 1]);
    }
  }

  lemma LookupFinds(alias: string, allow: map<string, MentionTarget>, m: Mention)
    requires alias != [] && alias[0] != '.' && Lookup(alias, allow) == Expand(m)
    ensures 1 <= |m.alias| <= |alias| && alias[..|m.alias|] == m.alias && Allows(allow, m)
  {
    TrimDotsKeepsFirst(alias);
  }

  /** Nothing forbidden starts inside a run of alias characters that no sigil follows. */
  lemma AliasRunIsClean(t: string, start: nat, p: int)
    requires start <= |t| && start <= p < AliasEnd(t, start)
    requires AliasEnd(t, start) < |t| ==> !IsSigil(t[AliasEnd(t, start)])
    ensures CleanAt(t, p)
  {
  }

  lemma StepIsClean(t: string, i: nat, allow: map<string, MentionTarget>, wide: char -> bool)
    requires i < |t| && !StepAt(t, i, allow, wide).Refuse?
    ensures CleanAt(t, i) && (StepAt(t, i, allow, wide).Expand? <==> AliasStarts(t, i))
  {
  }

  lemma ExpansionEnds(t: string, i: nat, allow: map<string, MentionTarget>, wide: char -> bool)
    requires i < |t| && StepAt(t, i, allow, wide).Expand?
    ensures i + 1 < AliasEnd(t, i + 1) && (AliasEnd(t, i + 1) < |t| ==> !IsSigil(t[AliasEnd(t, i + 1)]))
    ensures IsAsciiAlphabetic(t[i + 1])
    ensures StepAt(t, i, allow, wide) == Lookup(t[i + 1..AliasEnd(t, i + 1)], allow)
  {
  }

  lemma ExpansionDeals(t: string, i: nat, allow: map<string, MentionTarget>, wide: char -> bool, m: Mention)
    requires i < |t| && StepAt(t, i, allow, wide) == Expand(m)
    ensures Deals(t, allow, i, Expanded(m))
  {
    StepIsClean(t, i, allow, wide);
    ExpansionEnds(t, i, allow, wide);
    var end := AliasEnd(t, i + 1);
    LookupFinds(t[i + 1..end], allow, m);
    var width := 1 + |m.alias|;
    assert t[i..i + width] == [t[i]] + t[i + 1..end][..|m.alias|];
    forall p | i <= p < i + width ensures CleanAt(t, p) {
      if p > i { AliasRunIsClean(t, i + 1, p); }
    }
  }

  lemma StepsAreSound(t: string, allow: map<string, MentionTarget>, wide: char -> bool)
    ensures Sound(t, allow, Steps(t, allow, wide))
  {
    var step := Steps(t, allow, wide);
    forall j: nat, p | Took(t, step, j, p) ensures Deals(t, allow, j, p) {
      if p.Expanded? { ExpansionDeals(t, j, allow, wide, p.mention); } else { StepIsClean(t, j, allow, wide); }
    }
  }

  lemma {:induction false} ScanReads(t: string, i: nat, ps: Pieces, step: nat -> Step,
                                     all: Result<Pieces, MentionError>)
      returns (n: int)
    requires Reads(t, step, ps, i) && Scan(t, i, ps, step) == all
    ensures all.Success? ==> n >= |t| && Reads(t, step, all.value, n)
    decreases |t| - i
  {
    n := i;
    if i < |t| {
      match step(i)
      case Copy => n := ScanReads(t, i + 1, Then(ps, Plain(t[i])), step, all);
      case Expand(m) => n := ScanReads(t, i + 1 + |m.alias|, Then(ps, Expanded(m)), step, all);
      case Refuse(_) =>
    }
  }

  // ---------- the input ----------

  lemma {:induction false} ReadIsSource(t: string, allow: map<string, MentionTarget>, step: nat -> Step, ps: Pieces,
                                        i: int)
    requires Sound(t, allow, step) && Reads(t, step, ps, i)
    ensures 0 <= i <= |t| && Source(ps) == t[..i] && CleanSpan(t, 0, i)
    decreases ps
  {
    if ps.Then? {
      var j := i - |PieceSource(ps.last)|;
      ReadIsSource(t, allow, step, ps.front, j);
      assert Deals(t, allow, j, ps.last);
      DealtNext(t, allow, ps.last, j);
    }
  }

  lemma DealtNext(t: string, allow: map<string, MentionTarget>, p: Piece, j: int)
    requires 0 <= j <= |t| && CleanSpan(t, 0, j) && Deals(t, allow, j, p)
    ensures var i := j + |PieceSource(p)|;
            i <= |t| && t[..i] == t[..j] + PieceSource(p) && CleanSpan(t, 0, i)
  {
    var i := j + |PieceSource(p)|;
    assert t[..i] == t[..j] + t[j..i];
  }

  // ---------- the output ----------

  /** Piece `p` stands at `from` of the source and at `at` of the output. */
  predicate Stands(ps: Pieces, p: Piece, from: int, at: int) {
    ps.Then? && (Stands(ps.front, p, from, at)
                 || (ps.last == p && |Source(ps.front)| == from && |Output(ps.front)| == at))
  }

  /** An expansion starts at `at` of the output. */
  ghost predicate Starts(ps: Pieces, at: int) { exists m, from :: Stands(ps, Expanded(m), from, at) }

  /** An expansion starts at `from` of the source. */
  ghost predicate StartsFrom(ps: Pieces, from: int) { exists m, at :: Stands(ps, Expanded(m), from, at) }

  lemma StartsNext(ps: Pieces, at: int)
    requires ps.Then?
    ensures Starts(ps, at) <==> Starts(ps.front, at) || (ps.last.Expanded? && |Output(ps.front)| == at)
  {
    if Starts(ps, at) {
      var m, from :| Stands(ps, Expanded(m), from, at);
      assert Stands(ps.front, Expanded(m), from, at) ==> Starts(ps.front, at);
    }
    if Starts(ps.front, at) {
      var m, from :| Stands(ps.front, Expanded(m), from, at);
      assert Stands(ps, Expanded(m), from, at);
    }
    if ps.last.Expanded? && |Output(ps.front)| == at {
      assert Stands(ps, Expanded(ps.last.mention), |Source(ps.front)|, at);
    }
  }

  lemma {:induction false} StandsWithin(ps: Pieces, p: Piece, from: int, at: int)
    requires Stands(ps, p, from, at)
    ensures 0 <= from && 0 <= at
    ensures OccursAt(Source(ps), PieceSource(p), from) && OccursAt(Output(ps), PieceText(p), at)
    decreases ps
  {
    if Stands(ps.front, p, from, at) {
      StandsWithin(ps.front, p, from, at);
      OccursInFront(Source(ps.front), PieceSource(ps.last), PieceSource(p), from);
      OccursInFront(Output(ps.front), PieceText(ps.last), PieceText(p), at);
    }
  }

  predicate ValidAllow(allow: map<string, MentionTarget>) {
    forall a :: a in allow ==> IsDiscordId(allow[a].id)
  }

  lemma RenderedShape(target: MentionTarget)
    requires AllDigits(target.id)
    ensures var r := Rendered(target);
      && |r| >= 3 && r[0] == '<' && r[1] == '@' && r[|r| - 1] == '>'
      && (forall i :: 0 < i < |r| ==> r[i] != '<')
  {
  }

  lemma LastOfConcat(a: string, b: string)
    requires |b| >= 1
    ensures (a + b)[|a + b| - 1] == b[|b| - 1]
  {
  }

  lemma CopiedPairIsUnclean(t: string, step: nat -> Step, j: int)
    requires 1 <= j && Took(t, step, j - 1, Plain('<')) && Took(t, step, j, Plain('@'))
    ensures !CleanAt(t, j - 1)
  {
  }

  /** An opening bracket that was copied is not followed by a copied `@`. */
  lemma SeamIsNoPair(t: string, allow: map<string, MentionTarget>, step: nat -> Step, front: Pieces, j: int,
                     last: Piece)
    requires Sound(t, allow, step) && Reads(t, step, front, j) && ValidAllow(allow) && front.Then?
             && Took(t, step, j, last)
    ensures !(Output(front)[|Output(front)| - 1] == '<' && PieceText(last)[0] == '@')
  {
    var before := front.last;
    LastOfConcat(Output(front.front), PieceText(before));
    if before.Expanded? { ExpandsValid(t, allow, step, j - |PieceSource(before)|, before); }
    PieceEnds(before);
    PieceEnds(last);
    if before == Plain('<') { AfterBracket(t, allow, step, front, j); }
  }

  lemma AfterBracket(t: string, allow: map<string, MentionTarget>, step: nat -> Step, front: Pieces, j: int)
    requires Sound(t, allow, step) && Reads(t, step, front, j) && ValidAllow(allow)
    requires front.Then? && front.last == Plain('<')
    ensures !Took(t, step, j, Plain('@'))
  {
    ReadIsSource(t, allow, step, front, j);
    if Took(t, step, j, Plain('@')) { CopiedPairIsUnclean(t, step, j); }
  }

  lemma PieceEnds(p: Piece)
    ensures PieceText(p)[0] == '@' ==> p == Plain('@')
    ensures (p.Expanded? ==> AllDigits(p.mention.target.id)) && PieceText(p)[|PieceText(p)| - 1] == '<' ==>
            p == Plain('<')
  {
    if p.Expanded? && AllDigits(p.mention.target.id) { RenderedShape(p.mention.target); }
  }

  lemma ExpandsValid(t: string, allow: map<string, MentionTarget>, step: nat -> Step, j: int, p: Piece)
    requires Sound(t, allow, step) && ValidAllow(allow) && j >= 0 && Took(t, step, j, p) && p.Expanded?
    ensures IsDiscordId(p.mention.target.id) && Allows(allow, p.mention) && AliasStarts(t, j)
  {
    assert Deals(t, allow, j, p);
  }

  /** The pair `<@` occurs in the output exactly where an expansion starts. */
  lemma {:induction false} PairsAreStarts(t: string, allow: map<string, MentionTarget>, step: nat -> Step, ps: Pieces,
                                         i: int, p: int)
    requires Sound(t, allow, step) && Reads(t, step, ps, i) && ValidAllow(allow)
    ensures PairAt(Output(ps), p, '<', '@') <==> Starts(ps, p)
    decreases ps
  {
    if ps.Then? {
      var front, last := ps.front, ps.last;
      var j := i - |PieceSource(last)|;
      PairsAreStarts(t, allow, step, front, j, p);
      StartsNext(ps, p);
      if last.Expanded? { ExpandsValid(t, allow, step, j, last); }
      if front.Then? { SeamIsNoPair(t, allow, step, front, j, last); }
      PairsOfConcat(Output(front), PieceText(last), p);
      PairsOfPiece(last, p - |Output(front)|);
    }
  }

  lemma PairsOfPiece(piece: Piece, p: int)
    requires piece.Expanded? ==> AllDigits(piece.mention.target.id)
    ensures p >= 0 ==> (PairAt(PieceText(piece), p, '<', '@') <==> piece.Expanded? && p == 0)
  {
  }

  lemma PairsOfConcat(a: string, b: string, p: int)
    requires |b| >= 1
    ensures p + 1 < |a| ==> (PairAt(a + b, p, '<', '@') <==> PairAt(a, p, '<', '@'))
    ensures p + 1 == |a| ==> (PairAt(a + b, p, '<', '@') <==> p >= 0 && a[p] == '<' && b[0] == '@')
    ensures p >= |a| ==> (PairAt(a + b, p, '<', '@') <==> PairAt(b, p - |a|, '<', '@'))
  {
  }

  // ---------- the text around an expansion ----------

  lemma OccursInFront(a: string, b: string, needle: string, at: int)
    requires OccursAt(a, needle, at)
    ensures OccursAt(a + b, needle, at)
  {
  }

  function IdFrom(target: MentionTarget): int { if target.kind.Role? then 3 else 2 }

  lemma RenderedChars(target: MentionTarget, k: int)
    requires IsDiscordId(target.id) && 2 <= k < |Rendered(target)|
    ensures |Rendered(target)| == IdFrom(target) + |target.id| + 1
    ensures k < IdFrom(target) ==> Rendered(target)[k] == '&'
    ensures IdFrom(target) <= k < |Rendered(target)| - 1
      ==> Rendered(target)[k] == target.id[k - IdFrom(target)] && IsDigit(Rendered(target)[k])
    ensures k == |Rendered(target)| - 1 ==> Rendered(target)[k] == '>'
  {
  }

  /** Two well-formed mentions that start at one place are of one target. */
  lemma MentionsAreUnambiguous(text: string, p: int, a: MentionTarget, b: MentionTarget)
    requires IsDiscordId(a.id) && IsDiscordId(b.id)
    requires OccursAt(text, Rendered(a), p) && OccursAt(text, Rendered(b), p)
    ensures a == b
  {
    AgreeAt(text, p, a, b, 2);
    var last := if |a.id| < |b.id| then IdFrom(a) + |a.id| else IdFrom(b) + |b.id|;
    AgreeAt(text, p, a, b, last);
    RenderedChars(a, 2);
    RenderedChars(b, 2);
    assert |a.id| == |b.id| && a.kind == b.kind;
    forall k | 0 <= k < |a.id| ensures a.id[k] == b.id[k] { AgreeAt(text, p, a, b, k + IdFrom(a)); }
  }

  lemma AgreeAt(text: string, p: int, a: MentionTarget, b: MentionTarget, k: int)
    requires IsDiscordId(a.id) && IsDiscordId(b.id)
    requires OccursAt(text, Rendered(a), p) && OccursAt(text, Rendered(b), p)
    requires 2 <= k < |Rendered(a)| && k < |Rendered(b)|
    ensures Rendered(a)[k] == Rendered(b)[k]
    ensures k < IdFrom(a) <==> k < IdFrom(b)
    ensures k >= IdFrom(a) ==> (k == IdFrom(a) + |a.id| <==> k == IdFrom(b) + |b.id|)
    ensures IdFrom(a) <= k < IdFrom(a) + |a.id| ==> a.id[k - IdFrom(a)] == b.id[k - IdFrom(b)]
  {
  }

  // ---------- the allowed set ----------

  predicate Ascending(allowed: seq<Mention>) {
    forall i, j :: 0 <= i < j < |allowed| ==> TargetLess(allowed[i].target, allowed[j].target)
  }

  lemma TargetLessTransitive(a: MentionTarget, b: MentionTarget, c: MentionTarget)
    requires TargetLess(a, b) && TargetLess(b, c)
    ensures TargetLess(a, c)
  {
    if a.kind == b.kind == c.kind { LexTransitive(a.id, b.id, c.id); }
  }

  predicate HasTarget(ms: seq<Mention>, target: MentionTarget) { exists i :: 0 <= i < |ms| && ms[i].target == target }

  /** `r` lists `allowed`, and `m` too unless its target is listed already. */
  ghost predicate Adds(allowed: seq<Mention>, m: Mention, r: seq<Mention>) {
    forall x :: Listed(r, x) <==> (Listed(allowed, x) || (x == m && !HasTarget(allowed, m.target)))
  }

  lemma {:induction false} InsertKeepsOrder(allowed: seq<Mention>, m: Mention)
    requires Ascending(allowed)
    ensures Ascending(InsertMention(allowed, m)) && Adds(allowed, m, InsertMention(allowed, m))
  {
    if allowed == [] {
      assert InsertMention(allowed, m)[0] == m;
    } else if allowed[0].target == m.target {
      assert HasTarget(allowed, m.target);
    } else {
      LexTotal(m.target.id, allowed[0].target.id);
      if TargetLess(m.target, allowed[0].target) {
        InsertFirst(allowed, m);
      } else {
        InsertKeepsOrder(allowed[1..], m);
        InsertLater(allowed, m);
      }
    }
  }

  lemma InsertFirst(allowed: seq<Mention>, m: Mention)
    requires Ascending(allowed) && allowed != [] && TargetLess(m.target, allowed[0].target)
    ensures Ascending([m] + allowed) && Adds(allowed, m, [m] + allowed)
  {
    forall i | 0 <= i < |allowed| ensures TargetLess(m.target, allowed[i].target) && allowed[i].target != m.target {
      if i > 0 { TargetLessTransitive(m.target, allowed[0].target, allowed[i].target); }
      LexIrreflexive(m.target.id);
    }
    var r := [m] + allowed;
    forall x ensures Listed(r, x) <==> Listed(allowed, x) || x == m { ListedCons(m, allowed, x); }
  }

  lemma HasTargetCons(m: Mention, rest: seq<Mention>, target: MentionTarget)
    ensures HasTarget([m] + rest, target) <==> HasTarget(rest, target) || m.target == target
  {
    var r := [m] + rest;
    if HasTarget(rest, target) {
      var k :| 0 <= k < |rest| && rest[k].target == target;
      assert r[k + 1].target == target;
    }
    if m.target == target { assert r[0].target == target; }
    if HasTarget(r, target) {
      var k :| 0 <= k < |r| && r[k].target == target;
      if k > 0 { assert rest[k - 1].target == target; }
    }
  }

  lemma InsertLater(allowed: seq<Mention>, m: Mention)
    requires Ascending(allowed) && allowed != [] && TargetLess(allowed[0].target, m.target)
    requires allowed[0].target != m.target && Ascending(InsertMention(allowed[1..], m))
    requires Adds(allowed[1..], m, InsertMention(allowed[1..], m))
    ensures Ascending([allowed[0]] + InsertMention(allowed[1..], m))
    ensures Adds(allowed, m, [allowed[0]] + InsertMention(allowed[1..], m))
  {
    var tail := InsertMention(allowed[1..], m);
    var r := [allowed[0]] + tail;
    forall i | 0 <= i < |tail| ensures TargetLess(allowed[0].target, tail[i].target) {
      assert Listed(tail, tail[i]);
      if tail[i] != m {
        var k :| 0 <= k < |allowed[1..]| && allowed[1..][k] == tail[i];
        assert allowed[k + 1] == tail[i];
      }
    }
    assert allowed == [allowed[0]] + allowed[1..];
    HasTargetCons(allowed[0], allowed[1..], m.target);
    forall x ensures Listed(r, x) <==> Listed(allowed, x) || (x == m && !HasTarget(allowed, m.target)) {
      ListedCons(allowed[0], tail, x);
      ListedCons(allowed[0], allowed[1..], x);
    }
  }

  /** `x` is the first occurrence of its target. */
  predicate FirstOfTarget(occurrences: seq<Mention>, x: Mention) {
    exists i :: 0 <= i < |occurrences| && occurrences[i] == x && !HasTarget(occurrences[..i], x.target)
  }

  lemma HasTargetPush(ms: seq<Mention>, m: Mention, target: MentionTarget)
    ensures HasTarget(ms + [m], target) <==> HasTarget(ms, target) || m.target == target
  {
    var r := ms + [m];
    if HasTarget(ms, target) { var i :| 0 <= i < |ms| && ms[i].target == target; assert r[i].target == target; }
    if m.target == target { assert r[|ms|].target == target; }
    if HasTarget(r, target) {
      var i :| 0 <= i < |r| && r[i].target == target;
      if i < |ms| { assert ms[i].target == target; }
    }
  }

  lemma ListedTarget(ms: seq<Mention>, target: MentionTarget)
    ensures HasTarget(ms, target) <==> exists x :: Listed(ms, x) && x.target == target
  {
  }

  lemma FirstPush(front: seq<Mention>, m: Mention, x: Mention)
    ensures FirstOfTarget(front + [m], x) <==> FirstOfTarget(front, x) || (x == m && !HasTarget(front, m.target))
  {
    var r := front + [m];
    if FirstOfTarget(front, x) {
      var i :| 0 <= i < |front| && front[i] == x && !HasTarget(front[..i], x.target);
      assert r[..i] == front[..i];
      assert r[i] == x && !HasTarget(r[..i], x.target);
    }
    if x == m && !HasTarget(front, m.target) {
      assert r[..|front|] == front;
      assert r[|front|] == x && !HasTarget(r[..|front|], x.target);
    }
    if FirstOfTarget(r, x) {
      var i :| 0 <= i < |r| && r[i] == x && !HasTarget(r[..i], x.target);
      if i < |front| {
        assert r[..i] == front[..i];
        assert front[i] == x && !HasTarget(front[..i], x.target);
      } else {
        assert r[..i] == front;
      }
    }
  }

  /** The allowed list is strictly ordered by target, and holds exactly the first occurrence of each target. */
  lemma {:induction false} AllowedIsFirstOfEach(occurrences: seq<Mention>)
    ensures Ascending(AllowedOf(occurrences))
    ensures forall x :: Listed(AllowedOf(occurrences), x) <==> FirstOfTarget(occurrences, x)
    ensures forall target :: HasTarget(AllowedOf(occurrences), target) <==> HasTarget(occurrences, target)
    decreases |occurrences|
  {
    if occurrences != [] {
      var front, m := occurrences[..|occurrences| - 1], occurrences[|occurrences| - 1];
      AllowedIsFirstOfEach(front);
      InsertKeepsOrder(AllowedOf(front), m);
      assert occurrences == front + [m];
      forall x ensures Listed(AllowedOf(occurrences), x) <==> FirstOfTarget(occurrences, x) { FirstPush(front, m, x); }
      forall target ensures HasTarget(AllowedOf(occurrences), target) <==> HasTarget(occurrences, target) {
        HasTargetPush(front, m, target);
        InsertedTarget(AllowedOf(front), m, target);
      }
    }
  }

  lemma InsertedTarget(allowed: seq<Mention>, m: Mention, target: MentionTarget)
    requires Adds(allowed, m, InsertMention(allowed, m))
    ensures HasTarget(InsertMention(allowed, m), target) <==> HasTarget(allowed, target) || m.target == target
  {
    ListedTarget(allowed, target);
    ListedTarget(InsertMention(allowed, m), target);
    if m.target == target && !HasTarget(allowed, target) { assert Listed(InsertMention(allowed, m), m); }
    if HasTarget(allowed, target) {
      var x :| Listed(allowed, x) && x.target == target;
      assert Listed(InsertMention(allowed, m), x);
    }
  }

  // ---------- main theorems ----------

  lemma {:induction false} PieceTook(t: string, step: nat -> Step, ps: Pieces, i: int, p: Piece, from: int, at: int)
    requires Reads(t, step, ps, i)
    ensures |Source(ps)| == i
    ensures Stands(ps, p, from, at) ==> from >= 0 && Took(t, step, from, p)
    decreases ps
  {
    if ps.Then? { PieceTook(t, step, ps.front, i - |PieceSource(ps.last)|, p, from, at); }
  }

  predicate ValidAliases(allow: map<string, MentionTarget>) { forall a :: a in allow ==> IsValidAlias(a) }

  lemma InsideIsNoStart(t: string, allow: map<string, MentionTarget>, j: int, p: Piece, q: int)
    requires Deals(t, allow, j, p) && ValidAliases(allow) && j < q < j + |PieceSource(p)|
    ensures !AliasStarts(t, q)
  {
    OccurrenceChar(t, PieceSource(p), j, q - j);
    assert IsAliasCharacter(p.mention.alias[q - j - 1]);
  }

  lemma {:induction false} FindPiece(ps: Pieces, q: int) returns (p: Piece, from: int, at: int)
    requires 0 <= q < |Source(ps)|
    ensures Stands(ps, p, from, at) && from <= q < from + |PieceSource(p)|
    decreases ps
  {
    if q < |Source(ps.front)| {
      p, from, at := FindPiece(ps.front, q);
    } else {
      p, from, at := ps.last, |Source(ps.front)|, |Output(ps.front)|;
    }
  }

  lemma StartIsExpanded(t: string, allow: map<string, MentionTarget>, step: nat -> Step, ps: Pieces, q: int)
    requires Sound(t, allow, step) && Reads(t, step, ps, |t|) && ValidAliases(allow) && AliasStarts(t, q)
    ensures StartsFrom(ps, q)
  {
    PieceTook(t, step, ps, |t|, Plain('@'), 0, 0);
    var p, from, at := FindPiece(ps, q);
    PieceTook(t, step, ps, |t|, p, from, at);
    assert Deals(t, allow, from, p);
    if q > from { InsideIsNoStart(t, allow, from, p, q); }
    assert Stands(ps, Expanded(p.mention), q, at);
  }

  lemma ExpandedIsStart(t: string, allow: map<string, MentionTarget>, step: nat -> Step, ps: Pieces, i: int, q: int)
    requires Sound(t, allow, step) && Reads(t, step, ps, i) && ValidAllow(allow) && StartsFrom(ps, q)
    ensures AliasStarts(t, q)
  {
    var m, at :| Stands(ps, Expanded(m), q, at);
    PieceTook(t, step, ps, i, Expanded(m), q, at);
    ExpandsValid(t, allow, step, q, Expanded(m));
  }

  /** A successful resolution divides the body into copied characters and expanded mentions, such that
      - putting `@` and the alias back for each expansion gives the body;
      - the expansions stand exactly where a mention starts in the body, and come from the allowlist;
      - in the output, `<@` occurs exactly where an expansion starts. */
  ghost predicate Explains(t: string, entries: seq<Mention>, r: Resolution, ps: Pieces) {
    && Source(ps) == t && r == ResolutionOf(ps)
    && (forall q :: AliasStarts(t, q) <==> StartsFrom(ps, q))
    && (forall m, from, at :: Stands(ps, Expanded(m), from, at) ==> Listed(entries, m))
    && (forall p :: PairAt(r.text, p, '<', '@') <==> Starts(ps, p))
  }

  lemma AllowedEntry(entries: seq<Mention>, allow: map<string, MentionTarget>, m: Mention)
    requires Holds(entries, |entries|, allow) && Allows(allow, m)
    ensures Listed(entries, m)
  {
  }

  lemma AllowIsValid(entries: seq<Mention>, bot: Option<string>, allow: map<string, MentionTarget>)
    requires Holds(entries, |entries|, allow) && EntriesPass(entries, bot)
    ensures ValidAllow(allow) && ValidAliases(allow)
  {
  }

  lemma ReadExplains(t: string, entries: seq<Mention>, bot: Option<string>, allow: map<string, MentionTarget>,
                     step: nat -> Step, ps: Pieces, n: int)
    requires Sound(t, allow, step) && Reads(t, step, ps, n) && n >= |t|
    requires Holds(entries, |entries|, allow) && EntriesPass(entries, bot)
    ensures Explains(t, entries, ResolutionOf(ps), ps) && CleanSpan(t, 0, |t|)
  {
    AllowIsValid(entries, bot, allow);
    ReadIsSource(t, allow, step, ps, n);
    assert t[..n] == t;
    forall q ensures AliasStarts(t, q) <==> StartsFrom(ps, q) {
      if AliasStarts(t, q) { StartIsExpanded(t, allow, step, ps, q); }
      if StartsFrom(ps, q) { ExpandedIsStart(t, allow, step, ps, n, q); }
    }
    forall m, from, at | Stands(ps, Expanded(m), from, at) ensures Listed(entries, m) {
      PieceTook(t, step, ps, n, Expanded(m), from, at);
      ExpandsValid(t, allow, step, from, Expanded(m));
      AllowedEntry(entries, allow, m);
    }
    forall p ensures PairAt(Output(ps), p, '<', '@') <==> Starts(ps, p) { PairsAreStarts(t, allow, step, ps, n, p); }
  }

  lemma Resolved(t: string, entries: seq<Mention>, bot: Option<string>, wide: char -> bool) returns (ps: Pieces)
    requires Resolve(t, entries, bot, wide).Success?
    ensures Explains(t, entries, Resolve(t, entries, bot, wide).value, ps)
    ensures CleanSpan(t, 0, |t|) && EntriesPass(entries, bot) && DistinctAliases(entries)
  {
    AllowlistIsTheEntries(entries, bot);
    var allow := Allowlist(entries, bot, 0, map[]).value;
    var step := Steps(t, allow, wide);
    StepsAreSound(t, allow, wide);
    var all := Scan(t, 0, Nothing, step);
    ps := all.value;
    var n := ScanReads(t, 0, Nothing, step, all);
    ReadExplains(t, entries, bot, allow, step, ps, n);
  }

  /** Pieces stand in one order in the source and in the output. */
  lemma {:induction false} SourceOrder(ps: Pieces, p: Piece, from: int, at: int, p': Piece, from': int, at': int)
    requires Stands(ps, p, from, at) && Stands(ps, p', from', at')
    ensures from < from' <==> at < at'
    decreases ps
  {
    if Stands(ps.front, p, from, at) { StandsWithin(ps.front, p, from, at); }
    if Stands(ps.front, p', from', at') { StandsWithin(ps.front, p', from', at'); }
    if Stands(ps.front, p, from, at) && Stands(ps.front, p', from', at') {
      SourceOrder(ps.front, p, from, at, p', from', at');
    }
  }

  /** `target` is the target of some expansion. */
  predicate Expands(ps: Pieces, target: MentionTarget) {
    ps.Then? && (Expands(ps.front, target) || (ps.last.Expanded? && ps.last.mention.target == target))
  }

  lemma {:induction false} OccurrencesArePieces(ps: Pieces, target: MentionTarget)
    ensures HasTarget(Occurrences(ps), target) <==> Expands(ps, target)
    decreases ps
  {
    if ps.Then? {
      OccurrencesArePieces(ps.front, target);
      if ps.last.Expanded? { HasTargetPush(Occurrences(ps.front), ps.last.mention, target); }
    }
  }

  lemma {:induction false} ExpandsSomewhere(ps: Pieces, target: MentionTarget) returns (m: Mention, from: int, at: int)
    requires Expands(ps, target)
    ensures Stands(ps, Expanded(m), from, at) && m.target == target
    decreases ps
  {
    if Expands(ps.front, target) {
      m, from, at := ExpandsSomewhere(ps.front, target);
    } else {
      m, from, at := ps.last.mention, |Source(ps.front)|, |Output(ps.front)|;
    }
  }

  lemma {:induction false} StandsExpands(ps: Pieces, m: Mention, from: int, at: int)
    requires Stands(ps, Expanded(m), from, at)
    ensures Expands(ps, m.target)
    decreases ps
  {
    if Stands(ps.front, Expanded(m), from, at) { StandsExpands(ps.front, m, from, at); }
  }

  /** The targets a reader finds in the output are exactly those of the allowed list. */
  lemma MentionedIsAllowed(t: string, entries: seq<Mention>, bot: Option<string>, wide: char -> bool,
                           target: MentionTarget)
    requires Resolve(t, entries, bot, wide).Success? && IsDiscordId(target.id)
    ensures var r := Resolve(t, entries, bot, wide).value;
      (exists p :: OccursAt(r.text, Rendered(target), p)) <==> HasTarget(r.allowed, target)
  {
    var ps := Resolved(t, entries, bot, wide);
    var r := Resolve(t, entries, bot, wide).value;
    AllowedIsFirstOfEach(r.occurrences);
    OccurrencesArePieces(ps, target);
    if HasTarget(r.allowed, target) {
      var m, from, at := ExpandsSomewhere(ps, target);
      StandsWithin(ps, Expanded(m), from, at);
    }
    if p :| OccursAt(r.text, Rendered(target), p) { MentionComesFromPiece(t, entries, bot, r, ps, p, target); }
  }

  lemma MentionComesFromPiece(t: string, entries: seq<Mention>, bot: Option<string>, r: Resolution, ps: Pieces, p: int,
                              target: MentionTarget)
    requires Explains(t, entries, r, ps) && EntriesPass(entries, bot) && IsDiscordId(target.id)
    requires OccursAt(r.text, Rendered(target), p)
    ensures Expands(ps, target)
  {
    RenderedShape(target);
    OccurrenceChar(r.text, Rendered(target), p, 0);
    OccurrenceChar(r.text, Rendered(target), p, 1);
    assert PairAt(r.text, p, '<', '@');
    var m, from :| Stands(ps, Expanded(m), from, p);
    StandsWithin(ps, Expanded(m), from, p);
    EntryIsValid(entries, bot, m);
    MentionsAreUnambiguous(r.text, p, target, m.target);
    StandsExpands(ps, m, from, p);
  }

  lemma EntryIsValid(entries: seq<Mention>, bot: Option<string>, m: Mention)
    requires Listed(entries, m) && EntriesPass(entries, bot)
    ensures CheckEntry(m, bot) == None
  {
  }
}
