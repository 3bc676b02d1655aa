/** Normalisation of a draft body: line ends, spaces at the end of lines, empty lines at the end. The text is already
    composed (Unicode NFC). */
module Normalize {
  import opened Wrappers

  /** The Unicode property White_Space. */
  predicate IsWhitespace(c: char) {
    '\t' <= c <= '\r' || c == ' ' || c == '\U{85}' || c == '\U{A0}' || c == '\U{1680}' || '\U{2000}' <= c <= '\U{200A}'
    || c == '\U{2028}' || c == '\U{2029}' || c == '\U{202F}' || c == '\U{205F}' || c == '\U{3000}'
  }

  /** Line ends that become a line feed. */
  predicate IsForeignLineEnd(c: char) { c == '\r' || c == '\U{85}' || c == '\U{2028}' || c == '\U{2029}' }

  predicate IsHorizontal(c: char) { IsWhitespace(c) && c != '\n' && !IsForeignLineEnd(c) }

  /** By code point: 25 characters are white space, and four of them, apart from the line feed, end a line. */
  lemma CharactersAre(c: char)
    ensures IsForeignLineEnd(c) <==> c as int in {0x0D, 0x85, 0x2028, 0x2029}
    ensures IsWhitespace(c)
      <==> || 0x09 <= c as int <= 0x0D || 0x2000 <= c as int <= 0x200A
           || c as int in {0x20, 0x85, 0xA0, 0x1680, 0x2028, 0x2029, 0x202F, 0x205F, 0x3000}
  {
  }

  function AsLineFeed(c: char): char { if IsForeignLineEnd(c) then '\n' else c }

  /** How many characters of `s` from `i` make one: carriage return and line feed together are one line end. */
  function Width(s: string, i: nat): (w: nat)
    requires i < |s|
    ensures 1 <= w && i + w <= |s|
  {
    if s[i] == '\r' && i + 1 < |s| && s[i + 1] == '\n' then 2 else 1
  }

  /** Every line end as a line feed. */
  function LineFeeds(s: string): string
    decreases |s|
  {
    if s == [] then [] else [AsLineFeed(s[0])] + LineFeeds(s[Width(s, 0)..])
  }

  function Lines(s: string): (lines: seq<string>)
    ensures |lines| >= 1
  {
    if s == [] then [""]
    else
      var rest := Lines(s[1..]);
      if s[0] == '\n' then [""] + rest else [[s[0]] + rest[0]] + rest[1..]
  }

  function Join(lines: seq<string>): string
    requires |lines| >= 1
  {
    if |lines| == 1 then lines[0] else lines[0] + "\n" + Join(lines[1..])
  }

  function TrimEnd(line: string): string {
    if line != [] && IsHorizontal(line[|line| - 1]) then TrimEnd(line[..|line| - 1]) else line
  }

  function TrimLines(lines: seq<string>): (r: seq<string>)
    ensures |r| == |lines|
  {
    if lines == [] then [] else [TrimEnd(lines[0])] + TrimLines(lines[1..])
  }

  function DropLineFeeds(s: string): string {
    if s != [] && s[|s| - 1] == '\n' then DropLineFeeds(s[..|s| - 1]) else s
  }

  function Normalized(composed: string): string {
    DropLineFeeds(Join(TrimLines(Lines(LineFeeds(composed)))))
  }

  /** The characters that are not white space. */
  function Visible(s: string): string {
    if s == [] then [] else (if IsWhitespace(s[0]) then [] else [s[0]]) + Visible(s[1..])
  }

  datatype NormalizeError = EmptyText

  predicate IsBlank(s: string) { forall i :: 0 <= i < |s| ==> IsWhitespace(s[i]) }

  function NormalizeText(composed: string): Result<string, NormalizeError> {
    var text := Normalized(composed);
    if IsBlank(text) then Failure(EmptyText) else Success(text)
  }

  /** `text` is what the first `i` characters become. */
  ghost predicate Converted(s: string, i: nat, text: string) { i <= |s| && text + LineFeeds(s[i..]) == LineFeeds(s) }

  lemma LineFeedsAt(s: string, i: nat, text: string)
    requires Converted(s, i, text) && i < |s|
    ensures Converted(s, i + Width(s, i), text + [AsLineFeed(s[i])])
  {
  }

  method WithLineFeeds(composed: string) returns (text: string)
    ensures text == LineFeeds(composed)
  {
    text := "";
    var i := 0;
    while i < |composed|
      invariant i <= |composed| && Converted(composed, i, text)
    {
      LineFeedsAt(composed, i, text);
      var c := composed[i];
      if c == '\r' {
        if i + 1 < |composed| && composed[i + 1] == '\n' { i := i + 1; }
        text := text + ['\n'];
      } else if IsForeignLineEnd(c) {
        text := text + ['\n'];
      } else {
        text := text + [c];
      }
      i := i + 1;
    }
  }

  method Normalize(composed: string) returns (r: Result<string, NormalizeError>)
    ensures r == NormalizeText(composed)
  {
    var text := WithLineFeeds(composed);
    var joined := Join(TrimLines(Lines(text)));
    while joined != [] && joined[|joined| - 1] == '\n'
      invariant DropLineFeeds(joined) == Normalized(composed)
      decreases |joined|
    {
      joined := joined[..|joined| - 1];
    }
    r := if IsBlank(joined) then Failure(EmptyText) else Success(joined);
  }

  // ---------- what normal text is ----------

  /** No foreign line end, and no space at the end of a line. */
  predicate Tidy(t: string) { forall i :: 0 <= i < |t| ==> TidyAt(t, i) }

  predicate TidyAt(t: string, i: int)
    requires 0 <= i < |t|
  {
    !IsForeignLineEnd(t[i]) && (IsHorizontal(t[i]) ==> i + 1 < |t| && t[i + 1] != '\n')
  }

  /** Tidy, and without a line feed at the end. */
  predicate IsNormal(t: string) { Tidy(t) && (t == [] || t[|t| - 1] != '\n') }

  predicate NoForeign(s: string) { forall i :: 0 <= i < |s| ==> !IsForeignLineEnd(s[i]) }

  predicate TrimmedLine(line: string) {
    && NoForeign(line) && (forall i :: 0 <= i < |line| ==> line[i] != '\n')
    && (line == [] || !IsHorizontal(line[|line| - 1]))
  }

  predicate TrimmedLines(lines: seq<string>) { forall i :: 0 <= i < |lines| ==> TrimmedLine(lines[i]) }

  lemma {:induction false} LineFeedsNoForeign(s: string)
    ensures NoForeign(LineFeeds(s))
    decreases |s|
  {
    if s != [] { LineFeedsNoForeign(s[Width(s, 0)..]); }
  }

  lemma {:induction false} LineFeedsKeep(s: string)
    requires NoForeign(s)
    ensures LineFeeds(s) == s
  {
    if s != [] { LineFeedsKeep(s[1..]); }
  }

  predicate PlainLines(lines: seq<string>) {
    forall i :: 0 <= i < |lines| ==> NoForeign(lines[i]) && (forall j :: 0 <= j < |lines[i]| ==> lines[i][j] != '\n')
  }

  lemma {:induction false} LinesArePlain(s: string)
    requires NoForeign(s)
    ensures PlainLines(Lines(s))
  {
    if s != [] { LinesArePlain(s[1..]); }
  }

  lemma {:induction false} TrimEndTrims(line: string)
    requires NoForeign(line) && forall i :: 0 <= i < |line| ==> line[i] != '\n'
    ensures TrimmedLine(TrimEnd(line))
  {
    if line != [] && IsHorizontal(line[|line| - 1]) { TrimEndTrims(line[..|line| - 1]); }
  }

  lemma {:induction false} TrimLinesTrims(lines: seq<string>)
    requires PlainLines(lines)
    ensures TrimmedLines(TrimLines(lines))
  {
    if lines != [] {
      TrimEndTrims(lines[0]);
      TrimLinesTrims(lines[1..]);
    }
  }

  lemma {:induction false} TrimLinesKeep(lines: seq<string>)
    requires TrimmedLines(lines)
    ensures TrimLines(lines) == lines
  {
    if lines != [] { TrimLinesKeep(lines[1..]); }
  }

  lemma {:induction false} JoinIsTidy(lines: seq<string>)
    requires |lines| >= 1 && TrimmedLines(lines)
    ensures Tidy(Join(lines))
  {
    if |lines| > 1 {
      JoinIsTidy(lines[1..]);
      TidyConcat(lines[0], Join(lines[1..]));
    }
  }

  lemma TidyConcat(line: string, rest: string)
    requires TrimmedLine(line) && Tidy(rest)
    ensures Tidy(line + "\n" + rest)
  {
    var t := line + "\n" + rest;
    forall i | 0 <= i < |t| ensures TidyAt(t, i) {
      if i > |line| { assert TidyAt(rest, i - |line| - 1); }
    }
  }

  lemma {:induction false} DropIsNormal(s: string)
    requires Tidy(s)
    ensures IsNormal(DropLineFeeds(s))
  {
    if s != [] && s[|s| - 1] == '\n' {
      var front := s[..|s| - 1];
      forall i | 0 <= i < |front| ensures TidyAt(front, i) { assert TidyAt(s, i); }
      DropIsNormal(front);
    }
  }

  lemma {:induction false} JoinLines(s: string)
    ensures Join(Lines(s)) == s
  {
    if s != [] {
      JoinLines(s[1..]);
      var rest := Lines(s[1..]);
      if s[0] != '\n' { assert Lines(s)[1..] == rest[1..]; } else { assert Lines(s)[1..] == rest; }
    }
  }

  lemma {:induction false} TidyLines(s: string)
    requires Tidy(s)
    ensures TrimmedLines(Lines(s))
    ensures Lines(s)[0] == [] ==> s == [] || s[0] == '\n'
  {
    if s != [] {
      forall i | 0 <= i < |s[1..]| ensures TidyAt(s[1..], i) { assert TidyAt(s, i + 1); }
      TidyLines(s[1..]);
      assert TidyAt(s, 0);
    }
  }

  /** The result is always normal, and text is left alone exactly when it is normal already. */
  lemma NormalizedIsNormal(composed: string)
    ensures IsNormal(Normalized(composed))
    ensures Normalized(composed) == composed <==> IsNormal(composed)
  {
    LineFeedsNoForeign(composed);
    LinesArePlain(LineFeeds(composed));
    TrimLinesTrims(Lines(LineFeeds(composed)));
    JoinIsTidy(TrimLines(Lines(LineFeeds(composed))));
    DropIsNormal(Join(TrimLines(Lines(LineFeeds(composed)))));
    if IsNormal(composed) {
      assert NoForeign(composed) by {
        forall i | 0 <= i < |composed| ensures !IsForeignLineEnd(composed[i]) { assert TidyAt(composed, i); }
      }
      LineFeedsKeep(composed);
      TidyLines(composed);
      TrimLinesKeep(Lines(composed));
      JoinLines(composed);
    }
  }

  /** A second pass changes nothing. */
  lemma Idempotent(composed: string)
    ensures Normalized(Normalized(composed)) == Normalized(composed)
    ensures NormalizeText(composed).Success? ==> NormalizeText(NormalizeText(composed).value) == NormalizeText(composed)
  {
    NormalizedIsNormal(composed);
    NormalizedIsNormal(Normalized(composed));
  }

  // ---------- what it keeps ----------

  lemma {:induction false} VisibleConcat(a: string, b: string)
    ensures Visible(a + b) == Visible(a) + Visible(b)
  {
    if a == [] {
      assert a + b == b;
    } else {
      assert (a + b)[1..] == a[1..] + b;
      VisibleConcat(a[1..], b);
    }
  }

  lemma {:induction false} LineFeedsKeepVisible(s: string)
    ensures Visible(LineFeeds(s)) == Visible(s)
    decreases |s|
  {
    if s != [] {
      var w := Width(s, 0);
      LineFeedsKeepVisible(s[w..]);
      assert LineFeeds(s)[1..] == LineFeeds(s[w..]);
      if w == 2 { assert s[1..][1..] == s[2..]; }
    }
  }

  lemma {:induction false} TrimEndKeepsVisible(line: string)
    ensures Visible(TrimEnd(line)) == Visible(line)
  {
    if line != [] && IsHorizontal(line[|line| - 1]) {
      var front := line[..|line| - 1];
      TrimEndKeepsVisible(front);
      VisibleConcat(front, [line[|line| - 1]]);
      assert line == front + [line[|line| - 1]];
    }
  }

  lemma {:induction false} TrimLinesKeepVisible(lines: seq<string>)
    requires |lines| >= 1
    ensures Visible(Join(TrimLines(lines))) == Visible(Join(lines))
  {
    TrimEndKeepsVisible(lines[0]);
    if |lines| > 1 {
      TrimLinesKeepVisible(lines[1..]);
      var trimmed := TrimLines(lines);
      assert trimmed[1..] == TrimLines(lines[1..]);
      VisibleConcat(trimmed[0] + "\n", Join(trimmed[1..]));
      VisibleConcat(trimmed[0], "\n");
      VisibleConcat(lines[0] + "\n", Join(lines[1..]));
      VisibleConcat(lines[0], "\n");
    }
  }

  lemma {:induction false} DropKeepsVisible(s: string)
    ensures Visible(DropLineFeeds(s)) == Visible(s)
  {
    if s != [] && s[|s| - 1] == '\n' {
      var front := s[..|s| - 1];
      DropKeepsVisible(front);
      VisibleConcat(front, "\n");
      assert s == front + "\n";
    }
  }

  lemma {:induction false} BlankIsInvisible(s: string)
    ensures IsBlank(s) <==> Visible(s) == []
  {
    if s != [] {
      BlankIsInvisible(s[1..]);
      assert s == [s[0]] + s[1..];
      if IsBlank(s[1..]) && IsWhitespace(s[0]) {
        forall i | 0 <= i < |s| ensures IsWhitespace(s[i]) { if i > 0 { assert s[i] == s[1..][i - 1]; } }
      }
    }
  }

  /** Characters other than white space are kept, all and in order; the text is refused exactly when it has none. */
  lemma NormalizedKeepsVisible(composed: string)
    ensures Visible(Normalized(composed)) == Visible(composed)
    ensures NormalizeText(composed).Failure? <==> IsBlank(composed)
  {
    LineFeedsKeepVisible(composed);
    var text := LineFeeds(composed);
    JoinLines(text);
    TrimLinesKeepVisible(Lines(text));
    DropKeepsVisible(Join(TrimLines(Lines(text))));
    BlankIsInvisible(composed);
    BlankIsInvisible(Normalized(composed));
  }
}
