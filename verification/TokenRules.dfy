/** What a text must look like to be taken for a bot token, character by character. */
module TokenRules {
  import opened Text
  import opened TokenScan

  /** Letters, digits, `_` and `-`, and for the policy checks `=`. */
  predicate InToken(c: char, equals: bool) {
    'a' <= c <= 'z' || 'A' <= c <= 'Z' || '0' <= c <= '9' || c == '_' || c == '-' || (equals && c == '=')
  }

  predicate Run(t: string, equals: bool, from: int, to: int) {
    0 <= from <= to <= |t| && forall k :: from <= k < to ==> InToken(t[k], equals)
  }

  /** Eight, three and eight token characters with dots between, the first not after a token character. */
  predicate TokenAt(t: string, equals: bool, a: int, b: int, c: int) {
    && Run(t, equals, a, b) && b >= a + 8 && b < |t| && t[b] == '.'
    && Run(t, equals, b + 1, c) && c >= b + 4 && c < |t| && t[c] == '.'
    && Run(t, equals, c + 1, c + 9) && (a > 0 ==> !InToken(t[a - 1], equals))
  }

  lemma RunIs(t: string, equals: bool, from: int, to: int)
    ensures AllTokens(t, equals, from, to) <==> Run(t, equals, from, to)
  {
    forall k | 0 <= k < |t| ensures IsTokenCharacter(t[k], equals) <==> InToken(t[k], equals) {}
  }

  lemma TokenIs(t: string, equals: bool, a: int, b: int, c: int)
    ensures ShapeAt(t, equals, a, b, c) <==> TokenAt(t, equals, a, b, c)
  {
    RunIs(t, equals, a, b);
    RunIs(t, equals, b + 1, c);
    RunIs(t, equals, c + 1, c + 9);
  }

  /** The searches find exactly such texts. */
  lemma ShapeExactlyIf(t: string, equals: bool)
    ensures HasShape(t, equals) <==> exists a, b, c :: TokenAt(t, equals, a, b, c)
  {
    if HasShape(t, equals) {
      var a :| ShapeFrom(t, equals, a);
      var b, c :| ShapeAt(t, equals, a, b, c);
      TokenIs(t, equals, a, b, c);
    }
    if a, b, c :| TokenAt(t, equals, a, b, c) {
      TokenIs(t, equals, a, b, c);
      assert ShapeFrom(t, equals, a);
    }
  }
}
