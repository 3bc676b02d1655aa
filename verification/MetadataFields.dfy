/** Metadata objects with named fields: how they are built and read, and what redaction makes of them. */
module MetadataFields {
  import opened Wrappers
  import opened Text
  import opened Redaction
  import opened TokenScan

  // ---------- objects built from named fields ----------

  /** The object of a structure: its fields inserted one after the other. */
  function ObjectOf(pairs: seq<(string, Json)>): Fields {
    if pairs == [] then NoField
    else Insert(ObjectOf(pairs[..|pairs| - 1]), pairs[|pairs| - 1].0, pairs[|pairs| - 1].1)
  }

  predicate DistinctNames(pairs: seq<(string, Json)>) {
    forall i, j :: 0 <= i < j < |pairs| ==> pairs[i].0 != pairs[j].0
  }

  lemma {:induction false} LookupBuilt(pairs: seq<(string, Json)>, i: nat)
    requires DistinctNames(pairs) && i < |pairs|
    ensures Lookup(ObjectOf(pairs), pairs[i].0) == Some(pairs[i].1)
    decreases |pairs|
  {
    var n := |pairs| - 1;
    LookupInserted(ObjectOf(pairs[..n]), pairs[n].0, pairs[n].1, pairs[i].0);
    if i < n { LookupBuilt(pairs[..n], i); }
  }

  /** The object has these fields. */
  predicate HasFields(f: Fields, pairs: seq<(string, Json)>) {
    forall i :: 0 <= i < |pairs| ==> Lookup(f, pairs[i].0) == Some(pairs[i].1)
  }

  lemma BuiltHasFields(pairs: seq<(string, Json)>)
    requires DistinctNames(pairs)
    ensures HasFields(ObjectOf(pairs), pairs)
  {
    forall i | 0 <= i < |pairs| ensures Lookup(ObjectOf(pairs), pairs[i].0) == Some(pairs[i].1) {
      LookupBuilt(pairs, i);
    }
  }

  lemma FieldIs(f: Fields, pairs: seq<(string, Json)>, i: nat, key: string, value: Json)
    requires HasFields(f, pairs) && i < |pairs| && pairs[i] == (key, value)
    ensures Lookup(f, key) == Some(value)
  {
  }

  /** One pass, field by field. */
  function RedactedPairs(pairs: seq<(string, Json)>, tests: Tests): (r: seq<(string, Json)>)
    ensures |r| == |pairs| && forall i :: 0 <= i < |pairs| ==> r[i].0 == pairs[i].0
  {
    seq(|pairs|, i requires 0 <= i < |pairs| =>
      (pairs[i].0, RedactChild(tests.classOf(pairs[i].0), pairs[i].1, tests)))
  }

  predicate SettledNames(pairs: seq<(string, Json)>, tests: Tests) {
    forall i :: 0 <= i < |pairs| ==> SettledKey(pairs[i].0, tests)
  }

  lemma {:induction false} InsertOrders(fields: Fields, key: string, value: Json, tests: Tests)
    requires OrderedFields(fields, tests) && SettledKey(key, tests)
    ensures OrderedFields(Insert(fields, key, value), tests)
    decreases fields
  {
    if fields.Field? && fields.key != key && !LexLess(key, fields.key) {
      LexTotal(key, fields.key);
      InsertOrders(fields.rest, key, value, tests);
    }
  }

  lemma {:induction false} EachInserted(fields: Fields, key: string, value: Json, tests: Tests)
    ensures EachField(Insert(fields, key, value), tests)
      == Insert(EachField(fields, tests), key, RedactChild(tests.classOf(key), value, tests))
    decreases fields
  {
    if fields.Field? && fields.key != key && !LexLess(key, fields.key) { EachInserted(fields.rest, key, value, tests); }
  }

  lemma {:induction false} BuiltIsOrdered(pairs: seq<(string, Json)>, tests: Tests)
    requires SettledNames(pairs, tests)
    ensures OrderedFields(ObjectOf(pairs), tests)
    ensures EachField(ObjectOf(pairs), tests) == ObjectOf(RedactedPairs(pairs, tests))
    decreases |pairs|
  {
    if pairs != [] {
      var n := |pairs| - 1;
      BuiltIsOrdered(pairs[..n], tests);
      InsertOrders(ObjectOf(pairs[..n]), pairs[n].0, pairs[n].1, tests);
      EachInserted(ObjectOf(pairs[..n]), pairs[n].0, pairs[n].1, tests);
      assert RedactedPairs(pairs, tests)[..n] == RedactedPairs(pairs[..n], tests);
    }
  }

  /** Redacting such an object redacts the value of each field and keeps the names. */
  lemma RedactBuilt(pairs: seq<(string, Json)>, tests: Tests)
    requires SettledNames(pairs, tests)
    ensures RedactMetadata(Object(ObjectOf(pairs)), tests) == Object(ObjectOf(RedactedPairs(pairs, tests)))
  {
    BuiltIsOrdered(pairs, tests);
    OrderedFieldsStay(ObjectOf(pairs), NoField, tests);
  }

  // ---------- reading ----------

  function ReadText(fields: Fields, key: string): Option<string> {
    match Lookup(fields, key)
    case Some(Str(s)) => Some(s)
    case _ => None
  }

  function ReadNumber(fields: Fields, key: string): Option<nat> {
    match Lookup(fields, key)
    case Some(Number(n)) => if n >= 0 then Some(n) else None
    case _ => None
  }

  /** A field that may be missing or null. */
  function ReadOptional(fields: Fields, key: string): Option<Option<string>> {
    match Lookup(fields, key)
    case Some(Str(s)) => Some(Some(s))
    case Some(Null) => Some(None)
    case None => Some(None)
    case _ => None
  }

  function Optional(value: Option<string>): Json { if value.Some? then Str(value.value) else Null }

  // ---------- names ----------

  predicate LowerCase(w: string) { forall i :: 0 <= i < |w| ==> 'a' <= w[i] <= 'z' }

  predicate LettersOrUnderscores(key: string) { forall i :: 0 <= i < |key| ==> 'a' <= key[i] <= 'z' || key[i] == '_' }

  /** `letters` are the letters of the name. */
  predicate Spells(key: string, letters: string) { LettersOrUnderscores(key) && NormalizeKey(key) == letters }

  function Kept(c: char): string { if IsAsciiAlphanumeric(c) then [Lower(c)] else [] }

  lemma NormalizeStep(c: char, rest: string)
    ensures NormalizeKey([c] + rest) == Kept(c) + NormalizeKey(rest)
  {
    assert ([c] + rest)[1..] == rest;
  }

  lemma Associates(a: string, b: string, c: string)
    ensures a + (b + c) == (a + b) + c
  {
  }

  lemma {:induction false} NormalizeConcat(a: string, b: string)
    ensures NormalizeKey(a + b) == NormalizeKey(a) + NormalizeKey(b)
  {
    if a == [] {
      assert a + b == b;
    } else {
      var c, tail := [a[0]], a[1..];
      assert a == c + tail;
      calc {
        NormalizeKey(a + b);
      == { Associates(c, tail, b); }
        NormalizeKey(c + (tail + b));
      == { NormalizeStep(a[0], tail + b); }
        Kept(a[0]) + NormalizeKey(tail + b);
      == { NormalizeConcat(tail, b); }
        Kept(a[0]) + (NormalizeKey(tail) + NormalizeKey(b));
      == { Associates(Kept(a[0]), NormalizeKey(tail), NormalizeKey(b)); }
        (Kept(a[0]) + NormalizeKey(tail)) + NormalizeKey(b);
      == { NormalizeStep(a[0], tail); }
        NormalizeKey(a) + NormalizeKey(b);
      }
    }
  }

  lemma {:induction false} SpellWord(w: string)
    requires LowerCase(w)
    ensures Spells(w, w)
  {
    if w != [] { SpellWord(w[1..]); }
  }

  lemma SpellMore(w: string, rest: string, letters: string)
    requires LowerCase(w) && Spells(rest, letters)
    ensures Spells(w + "_" + rest, w + letters)
  {
    SpellWord(w);
    SpellBoth(w, w, rest, letters);
  }

  lemma SpellBoth(a: string, x: string, b: string, y: string)
    requires Spells(a, x) && Spells(b, y)
    ensures Spells(a + "_" + b, x + y)
  {
    var tail := ['_'] + b;
    NormalizeConcat(a, tail);
    NormalizeStep('_', b);
    assert a + "_" + b == a + tail;
    UnderscoreBetween(a, b);
  }

  lemma UnderscoreBetween(a: string, b: string)
    requires LettersOrUnderscores(a) && LettersOrUnderscores(b)
    ensures LettersOrUnderscores(a + "_" + b)
  {
  }

  lemma Spell2(a: string, b: string)
    requires LowerCase(a) && LowerCase(b)
    ensures Spells(a + "_" + b, a + b)
  {
    SpellWord(b);
    SpellMore(a, b, b);
  }

  lemma Spell3(a: string, b: string, c: string)
    requires LowerCase(a) && LowerCase(b) && LowerCase(c)
    ensures Spells(a + "_" + b + "_" + c, a + b + c)
  {
    Spell2(b, c);
    SpellMore(a, b + "_" + c, b + c);
    assert a + "_" + (b + "_" + c) == a + "_" + b + "_" + c && a + (b + c) == a + b + c;
  }

  /** Every secret term, and every marker made of letters, has one of these three letters in a row. */
  predicate SecretLetters(a: char, b: char, c: char) {
    || (a == 'e'
        && ((b == 'a' && c == 'r') || (b == 'c' && c == 'r') || (b == 'd' && c == 'e') || (b == 'r' && c == 't')))
    || (a == 's' && b == 's' && (c == 'i' || c == 'p' || c == 'w'))
    || (a == 'k' && b == 'e' && (c == 'n' || c == 'y'))
    || (a == 'o' && ((b == 'o' && c == 'k') || (b == 'a' && c == 'u')))
    || (a == 'g' && ((b == 'h' && (c == 'p' || c == 'o' || c == 's' || c == 'u')) || (b == 'i' && c == 't')))
    || (a == 'r' && b == 'i' && c == 'z') || (a == 'h' && b == 'h' && c == 'e') || (a == 'j' && b == 'w' && c == 't')
    || (a == 'd' && b == 's' && c == 'n') || (a == 'n' && b == 'n' && c == 'e') || (a == 'b' && b == 'o' && c == 't')
    || (a == 'a' && b == 'k' && c == 'i')
  }

  /** Secret letters, or three letters in a row of which every content term has some. */
  predicate ContentLetters(a: char, b: char, c: char) {
    || (a == 'e'
        && ((b == 'a' && c == 'r') || (b == 'c' && c == 'r') || (b == 'd' && c == 'e') || (b == 'r' && c == 't')
                     || (b == 'x' && c == 't')))
    || (a == 's' && b == 's' && (c == 'i' || c == 'p' || c == 'w' || c == 'a'))
    || (a == 'k' && b == 'e' && (c == 'n' || c == 'y'))
    || (a == 'o' && ((b == 'o' && c == 'k') || (b == 'a' && c == 'u') || (b == 'm' && c == 'p')))
    || (a == 'g' && ((b == 'h' && (c == 'p' || c == 'o' || c == 's' || c == 'u')) || (b == 'i' && c == 't')))
    || (a == 'r' && ((b == 'i' && c == 'z') || (b == 'a' && c == 'w') || (b == 'k' && c == 'd')))
    || (a == 'h' && ((b == 'h' && c == 'e') || (b == 't' && c == 'm'))) || (a == 'j' && b == 'w' && c == 't')
    || (a == 'd' && b == 's' && c == 'n') || (a == 'n' && ((b == 'n' && c == 'e') || (b == 't' && c == 'e')))
    || (a == 'b' && b == 'o' && (c == 't' || c == 'd')) || (a == 'a' && b == 'k' && c == 'i')
    || (a == 'i' && b == 'p' && c == 't') || (a == 'y' && b == 'l' && c == 'o')
  }

  lemma SecretTermHasLetters(t: int) returns (o: int)
    requires 0 <= t < |SecretTerms()|
    ensures var term := SecretTerms()[t]; 0 <= o && o + 2 < |term| && SecretLetters(term[o], term[o + 1], term[o + 2])
  {
    o := if t == 3 || t == 5 || t == 10 || t == 20 then 1
         else if t == 18 || t == 21 || t == 23 || t == 25 then 0
         else if t == 8 || t == 13 || t == 17 then 7
         else if t == 1 || t == 11 then 3
         else if t == 2 || t == 12 then 6
         else if t == 0 then 5
         else if t == 14 then 4
         else if t == 16 then 9
         else 2;
  }

  lemma ContentTermHasLetters(t: int) returns (o: int)
    requires 0 <= t < |ContentTerms()|
    ensures var term := ContentTerms()[t]; 0 <= o && o + 2 < |term| && ContentLetters(term[o], term[o + 1], term[o + 2])
  {
    o := if t == 2 || t == 7 || t == 8 then 0
         else if t == 3 then 1
         else if t == 5 then 5
         else 2;
  }

  lemma OccurrenceLetters(text: string, term: string, at: int, o: int)
    requires OccursAt(text, term, at) && 0 <= o && o + 2 < |term|
    ensures text[at + o] == term[o] && text[at + o + 1] == term[o + 1] && text[at + o + 2] == term[o + 2]
  {
    OccurrenceChar(text, term, at, o);
    OccurrenceChar(text, term, at, o + 1);
    OccurrenceChar(text, term, at, o + 2);
  }

  lemma NoSecretTerm(letters: string)
    requires forall i :: 0 <= i < |letters| - 2 ==> !SecretLetters(letters[i], letters[i + 1], letters[i + 2])
    ensures !ContainsAny(letters, SecretTerms())
  {
    var terms := SecretTerms();
    forall t | 0 <= t < |terms| ensures !Contains(letters, terms[t]) {
      var o := SecretTermHasLetters(t);
      forall at | 0 <= at <= |letters| - |terms[t]| ensures !OccursAt(letters, terms[t], at) {
        if OccursAt(letters, terms[t], at) { OccurrenceLetters(letters, terms[t], at, o); }
      }
    }
  }

  lemma NoContentTerm(letters: string)
    requires forall i :: 0 <= i < |letters| - 2 ==> !ContentLetters(letters[i], letters[i + 1], letters[i + 2])
    ensures !ContainsAny(letters, ContentTerms())
  {
    var terms := ContentTerms();
    forall t | 0 <= t < |terms| ensures !Contains(letters, terms[t]) {
      var o := ContentTermHasLetters(t);
      forall at | 0 <= at <= |letters| - |terms[t]| ensures !OccursAt(letters, terms[t], at) {
        if OccursAt(letters, terms[t], at) { OccurrenceLetters(letters, terms[t], at, o); }
      }
    }
  }

  /** Letters that stand together in a name stand together among its letters. */
  lemma TogetherInName(key: string, p: int)
    requires LettersOrUnderscores(key) && 0 <= p && p + 2 < |key| && LowerCase(key[p..p + 3])
    requires SecretLetters(key[p], key[p + 1], key[p + 2])
    ensures var n := NormalizeKey(key); exists i :: 0 <= i < |n| - 2 && SecretLetters(n[i], n[i + 1], n[i + 2])
  {
    var front, middle, back := key[..p], key[p..p + 3], key[p + 3..];
    assert key == front + (middle + back);
    NormalizeConcat(front, middle + back);
    NormalizeConcat(middle, back);
    SpellWord(middle);
    var n, i := NormalizeKey(key), |NormalizeKey(front)|;
    assert n[i] == key[p] && n[i + 1] == key[p + 1] && n[i + 2] == key[p + 2];
  }

  /** A character that no name has. */
  predicate IsSign(c: char) { !('a' <= c <= 'z' || c == '_') }

  /** Each marker has a sign, or begins with three secret letters. */
  lemma MarkerShape(m: int) returns (sign: Option<nat>)
    requires 0 <= m < |Markers()|
    ensures var marker := Markers()[m];
      if sign.Some? then sign.value < |marker| && IsSign(marker[sign.value])
      else |marker| > 2 && SecretLetters(marker[0], marker[1], marker[2]) && LowerCase(marker[0..3])
  {
    sign := if m == 0 then Some(0) else if m == 1 then Some(7) else if m <= 3 then Some(13) else if m == 4 then Some(6)
            else if m == 5 then Some(5) else if m == 11 || m == 12 then Some(4) else if m == 14 then Some(3) else None;
  }

  lemma NoMarkerInName(key: string)
    requires LettersOrUnderscores(key) && var n := NormalizeKey(key);
             forall i :: 0 <= i < |n| - 2 ==> !SecretLetters(n[i], n[i + 1], n[i + 2])
    ensures !ContainsAny(key, Markers())
  {
    var markers := Markers();
    forall m | 0 <= m < |markers| ensures !Contains(key, markers[m]) {
      var sign := MarkerShape(m);
      forall at | 0 <= at <= |key| - |markers[m]| ensures !OccursAt(key, markers[m], at) {
        if OccursAt(key, markers[m], at) {
          if sign.Some? {
            OccurrenceChar(key, markers[m], at, sign.value);
          } else {
            OccurrenceLetters(key, markers[m], at, 0);
            assert key[at..at + 3] == markers[m][0..3];
            TogetherInName(key, at);
          }
        }
      }
    }
  }

  lemma NameIsNotSensitive(key: string)
    requires LettersOrUnderscores(key) && var n := NormalizeKey(key);
             forall i :: 0 <= i < |n| - 2 ==> !SecretLetters(n[i], n[i + 1], n[i + 2])
    ensures !ContainsSensitiveText(key)
  {
    NoMarkerInName(key);
    FewDotsIsNoToken(key);
    NoSignNoAssignments(key, SecretTerms());
    NoSignNoAssignments(key, AssignmentTerms());
    NothingSensitive(key);
  }

  lemma NothingSensitive(key: string)
    requires LettersOrUnderscores(key) && !ContainsAny(key, Markers())
    requires !AssignedAny(key, SecretTerms()) && !AssignedAny(key, AssignmentTerms())
    requires !HasDottedShape(key) && !HasJwtShape(key)
    ensures !ContainsSensitiveText(key)
  {
    assert Lowered(key) == key;
  }

  /** Redaction keeps such a name. */
  lemma NameIsKept(key: string, tests: Tests)
    requires LettersOrUnderscores(key) && tests == TheTests()
    requires var n := NormalizeKey(key); forall i :: 0 <= i < |n| - 2 ==> !SecretLetters(n[i], n[i + 1], n[i + 2])
    ensures SettledKey(key, tests)
  {
    NameIsNotSensitive(key);
    TestIsSensitivity(key, tests);
  }

  /** No secret term or marker is in a name with these letters. */
  ghost predicate NotSecret(letters: string) {
    forall i :: 0 <= i < |letters| - 2 ==> !SecretLetters(letters[i], letters[i + 1], letters[i + 2])
  }

  ghost predicate NotContent(letters: string) {
    forall i :: 0 <= i < |letters| - 2 ==> !ContentLetters(letters[i], letters[i + 1], letters[i + 2])
  }

  predicate IdentifierLetters(letters: string) {
    EndsWith(letters, "id") || EndsWith(letters, "hash") || IsSafeKey(letters)
  }

  /** A name under which harmless text stays. */
  ghost predicate TextName(key: string) {
    exists letters :: Spells(key, letters) && NotSecret(letters) && IdentifierLetters(letters)
  }

  /** A name under which numbers and objects stay. */
  ghost predicate OpenName(key: string) {
    exists letters :: Spells(key, letters) && NotContent(letters)
  }

  lemma Identifier2(a: string, e: string, key: string, letters: string)
    requires LowerCase(a) && key == a + "_" + e && letters == a + e && (e == "hash" || e == "id")
    requires forall i :: 0 <= i < |letters| - 2 ==> !SecretLetters(letters[i], letters[i + 1], letters[i + 2])
    ensures TextName(key)
  {
    Spell2(a, e);
    assert Spells(key, letters) && NotSecret(letters);
  }

  lemma Identifier3(a: string, b: string, e: string, key: string, letters: string)
    requires LowerCase(a) && LowerCase(b) && (e == "hash" || e == "id")
    requires key == a + "_" + b + "_" + e && letters == a + b + e && NotSecret(letters)
    ensures TextName(key)
  {
    Spell3(a, b, e);
    assert Spells(key, letters);
  }

  lemma NotSecretLetters(letters: string)
    requires forall i :: 0 <= i < |letters| - 2 ==> !SecretLetters(letters[i], letters[i + 1], letters[i + 2])
    ensures NotSecret(letters)
  {
  }

  lemma Safe1(key: string)
    requires LowerCase(key) && IsSafeKey(key)
    requires var letters := key;
             forall i :: 0 <= i < |letters| - 2 ==> !SecretLetters(letters[i], letters[i + 1], letters[i + 2])
    ensures TextName(key)
  {
    SpellWord(key);
    assert Spells(key, key) && NotSecret(key);
  }

  lemma Safe2(a: string, b: string, key: string, letters: string)
    requires LowerCase(a) && LowerCase(b) && key == a + "_" + b && letters == a + b && IsSafeKey(letters)
    requires forall i :: 0 <= i < |letters| - 2 ==> !SecretLetters(letters[i], letters[i + 1], letters[i + 2])
    ensures TextName(key)
  {
    Spell2(a, b);
    assert Spells(key, letters) && NotSecret(letters);
  }

  lemma Open1(key: string)
    requires LowerCase(key)
    requires var letters := key;
             forall i :: 0 <= i < |letters| - 2 ==> !ContentLetters(letters[i], letters[i + 1], letters[i + 2])
    ensures OpenName(key)
  {
    SpellWord(key);
    assert Spells(key, key) && NotContent(key);
  }

  lemma Open2(a: string, b: string, key: string, letters: string)
    requires LowerCase(a) && LowerCase(b)
    requires key == a + "_" + b && letters == a + b
    requires forall i :: 0 <= i < |letters| - 2 ==> !ContentLetters(letters[i], letters[i + 1], letters[i + 2])
    ensures OpenName(key)
  {
    Spell2(a, b);
    assert Spells(key, letters) && NotContent(letters);
  }

  /** Three letters in a row stand in the front or in the back, which share two letters. */
  lemma SeamIsNotSecret(front: string, seam: string, back: string, letters: string)
    requires letters == front + seam + back && |seam| == 2 && NotSecret(front + seam) && NotSecret(seam + back)
    ensures NotSecret(letters)
  {
    forall i | 0 <= i < |letters| - 2 ensures !SecretLetters(letters[i], letters[i + 1], letters[i + 2]) {
      var f, b, n := front + seam, seam + back, |front|;
      if i < n { assert letters[i] == f[i] && letters[i + 1] == f[i + 1] && letters[i + 2] == f[i + 2]; }
      else { assert letters[i] == b[i - n] && letters[i + 1] == b[i - n + 1] && letters[i + 2] == b[i - n + 2]; }
    }
  }

  lemma SeamIsNotContent(front: string, seam: string, back: string, letters: string)
    requires letters == front + seam + back && |seam| == 2 && NotContent(front + seam) && NotContent(seam + back)
    ensures NotContent(letters)
  {
    forall i | 0 <= i < |letters| - 2 ensures !ContentLetters(letters[i], letters[i + 1], letters[i + 2]) {
      var f, b, n := front + seam, seam + back, |front|;
      if i < n { assert letters[i] == f[i] && letters[i + 1] == f[i + 1] && letters[i + 2] == f[i + 2]; }
      else { assert letters[i] == b[i - n] && letters[i + 1] == b[i - n + 1] && letters[i + 2] == b[i - n + 2]; }
    }
  }

  lemma NotContentLetters(letters: string)
    requires forall i :: 0 <= i < |letters| - 2 ==> !ContentLetters(letters[i], letters[i + 1], letters[i + 2])
    ensures NotContent(letters)
  {
  }

  /** What has neither has no secret letters. */
  lemma ContentCoversSecret(letters: string)
    requires NotContent(letters)
    ensures NotSecret(letters)
  {
    forall i | 0 <= i < |letters| - 2 ensures !SecretLetters(letters[i], letters[i + 1], letters[i + 2]) {
      assert !ContentLetters(letters[i], letters[i + 1], letters[i + 2]);
    }
  }

  lemma UnixSeconds(letters: string)
    requires letters == "atunixseconds"
    ensures NotContent(letters)
  {
    NotContentLetters("atunix");
    NotContentLetters("ixseconds");
    assert "atun" + "ix" == "atunix" && "ix" + "seconds" == "ixseconds";
    SeamIsNotContent("atun", "ix", "seconds", letters);
  }

  lemma SpellSeconds(key: string, letters: string)
    requires key == "at_unix_seconds" && letters == "atunixseconds"
    ensures Spells(key, letters)
  {
    Spell3("at", "unix", "seconds");
    assert key == "at" + "_" + "unix" + "_" + "seconds" && letters == "at" + "unix" + "seconds";
  }

  /** The name of a time in seconds. */
  lemma TimeName(words: string, spelled: string, key: string)
    requires Spells(words, spelled) && NotContent(spelled + "at")
    requires key == words + "_" + "at_unix_seconds"
    ensures OpenName(key)
  {
    var tail, seconds := "at_unix_seconds", "atunixseconds";
    SpellSeconds(tail, seconds);
    UnixSeconds(seconds);
    SpellBoth(words, spelled, tail, seconds);
    TimeLetters(spelled, spelled + "at", seconds);
    assert Spells(key, spelled + seconds);
  }

  lemma TimeLetters(spelled: string, front: string, seconds: string)
    requires seconds == "atunixseconds" && front == spelled + "at" && NotContent(front) && NotContent(seconds)
    ensures NotContent(spelled + seconds)
  {
    var seam, back := "at", "unixseconds";
    assert seconds == seam + back;
    assert spelled + seconds == spelled + seam + back;
    SeamIsNotContent(spelled, seam, back, spelled + seconds);
  }

  /** Redaction keeps the name, and the text under it if that is harmless. */
  predicate KeepsText(key: string, tests: Tests) { SettledKey(key, tests) && tests.classOf(key).Safe? }

  /** Redaction keeps the name, and visits what is under it. */
  predicate KeepsOpen(key: string, tests: Tests) {
    SettledKey(key, tests) && (tests.classOf(key).Safe? || tests.classOf(key).Unknown?)
  }

  lemma TextNameIsKept(key: string, tests: Tests)
    requires TextName(key) && tests == TheTests()
    ensures KeepsText(key, tests)
  {
    var letters :| Spells(key, letters) && NotSecret(letters) && IdentifierLetters(letters);
    NoSecretTerm(letters);
    NameIsKept(key, tests);
  }

  lemma OpenNameIsKept(key: string, tests: Tests)
    requires OpenName(key) && tests == TheTests()
    ensures KeepsOpen(key, tests)
  {
    var letters :| Spells(key, letters) && NotContent(letters);
    ContentCoversSecret(letters);
    NoSecretTerm(letters);
    NoContentTerm(letters);
    NameIsKept(key, tests);
  }

  // ---------- values ----------

  /** Lower case letters other than `g`, `k` and `x`, digits and dashes: hashes, and the fixed words of ids and
      kinds. */
  predicate CalmChar(c: char) { ('a' <= c <= 'z' && c != 'g' && c != 'k' && c != 'x') || IsDigit(c) || c == '-' }

  predicate Calm(s: string) { forall i :: 0 <= i < |s| ==> CalmChar(s[i]) }

  lemma MarkerIsNotCalm(m: int) returns (k: int)
    requires 0 <= m < |Markers()|
    ensures 0 <= k < |Markers()[m]| && !CalmChar(Markers()[m][k])
  {
    k := if m == 0 then 7 else if m == 1 then 7 else if m <= 3 then 13 else if m == 4 then 6 else if m == 5 then 5
         else if m == 13 then 1 else if m == 14 then 3 else 0;
  }

  lemma CalmHasNoMarker(s: string)
    requires Calm(s)
    ensures !ContainsAny(s, Markers())
  {
    var markers := Markers();
    forall m | 0 <= m < |markers| ensures !Contains(s, markers[m]) {
      var k := MarkerIsNotCalm(m);
      Lacks(s, markers[m], k);
    }
  }

  /** Redaction leaves calm text alone. */
  lemma CalmIsNotSensitive(s: string)
    requires Calm(s)
    ensures !ContainsSensitiveText(s) && !HasControl(s)
  {
    assert Lowered(s) == s;
    CalmHasNoMarker(s);
    FewDotsIsNoToken(s);
    NoSignNoAssignments(s, SecretTerms());
    NoSignNoAssignments(s, AssignmentTerms());
  }

  lemma CalmIsKept(s: string, tests: Tests)
    requires Calm(s) && tests == TheTests()
    ensures RedactText(s, tests) == s
  {
    CalmIsNotSensitive(s);
    TestIsSensitivity(s, tests);
    assert Neutralized(s) == s;
  }

  lemma CalmConcat(a: string, b: string)
    requires Calm(a) && Calm(b)
    ensures Calm(a + b)
  {
  }

  predicate IsHash(s: string) { |s| == 64 && forall i :: 0 <= i < |s| ==> IsDigit(s[i]) || 'a' <= s[i] <= 'f' }

  /** A field that redaction keeps as it is. */
  predicate KeptPair(pair: (string, Json), tests: Tests) {
    SettledKey(pair.0, tests) && RedactChild(tests.classOf(pair.0), pair.1, tests) == pair.1
  }

  predicate KeptPairs(pairs: seq<(string, Json)>, tests: Tests) {
    forall i :: 0 <= i < |pairs| ==> KeptPair(pairs[i], tests)
  }

  lemma TextIsKept(key: string, value: Json, tests: Tests)
    requires KeepsText(key, tests) && (value.Str? ==> RedactText(value.s, tests) == value.s)
    requires value.Str? || value.Null? || value.Number?
    ensures KeptPair((key, value), tests)
  {
  }

  lemma OpenIsKept(key: string, value: Json, tests: Tests)
    requires KeepsOpen(key, tests) && RedactValue(value, true, tests) == value
             && RedactValue(value, false, tests) == value
    ensures KeptPair((key, value), tests)
  {
    var kind := tests.classOf(key);
    if kind.Safe? {
      assert RedactChild(kind, value, tests) == RedactValue(value, true, tests);
    } else {
      assert RedactChild(kind, value, tests) == RedactValue(value, false, tests);
    }
  }

  /** An object whose fields are kept is kept. */
  lemma KeptObject(pairs: seq<(string, Json)>, tests: Tests)
    requires KeptPairs(pairs, tests)
    ensures var v := Object(ObjectOf(pairs));
      RedactMetadata(v, tests) == v && RedactValue(v, true, tests) == v && RedactValue(v, false, tests) == v
  {
    RedactBuilt(pairs, tests);
    assert RedactedPairs(pairs, tests) == pairs;
  }

  /** Sets of names that redaction keeps: with harmless text, and with numbers and objects. */
  datatype Names = Names(text: iset<string>, open: iset<string>)

  ghost function NamesKept(tests: Tests): Names { Names(iset k | KeepsText(k, tests), iset k | KeepsOpen(k, tests)) }

  /** The sets hold every name in snake case without secret letters. */
  ghost predicate Complete(names: Names) {
    && (forall key {:trigger TextName(key)} :: TextName(key) ==> key in names.text)
    && (forall key {:trigger OpenName(key)} :: OpenName(key) ==> key in names.open)
  }

  lemma TestsKeepNames(tests: Tests)
    requires tests == TheTests()
    ensures Complete(NamesKept(tests))
  {
    forall key | TextName(key) ensures KeepsText(key, tests) { TextNameIsKept(key, tests); }
    forall key | OpenName(key) ensures KeepsOpen(key, tests) { OpenNameIsKept(key, tests); }
  }

  /** The name fits the value: numbers and objects may go under an open name, text needs a name for text. */
  ghost predicate WellNamed(pair: (string, Json), names: Names) {
    match pair.1
    case Str(_) => pair.0 in names.text
    case Null => pair.0 in names.text || pair.0 in names.open
    case _ => pair.0 in names.open
  }

  /** Redaction leaves the value alone. */
  predicate KeptValue(v: Json, tests: Tests) {
    match v
    case Str(s) => RedactText(s, tests) == s
    case _ => RedactValue(v, true, tests) == v && RedactValue(v, false, tests) == v
  }

  lemma WellNamedIsKept(pairs: seq<(string, Json)>, names: Names, tests: Tests)
    requires names == NamesKept(tests)
    requires forall i :: 0 <= i < |pairs| ==> WellNamed(pairs[i], names) && KeptValue(pairs[i].1, tests)
    ensures KeptPairs(pairs, tests)
  {
    forall i | 0 <= i < |pairs| ensures KeptPair(pairs[i], tests) {
      var (key, value) := pairs[i];
      if key in names.text && !value.Object? && !value.Array? && !value.Bool? {
        TextIsKept(key, value, tests);
      } else {
        OpenIsKept(key, value, tests);
      }
    }
  }

  /** Redaction leaves calm text alone. */
  ghost predicate KeepsCalm(tests: Tests) { forall s {:trigger Calm(s)} :: Calm(s) ==> RedactText(s, tests) == s }

  lemma TestsKeepCalm(tests: Tests)
    requires tests == TheTests()
    ensures KeepsCalm(tests)
  {
    forall s | Calm(s) ensures RedactText(s, tests) == s { CalmIsKept(s, tests); }
  }

  lemma HashIsCalm(s: string)
    requires IsHash(s)
    ensures Calm(s)
  {
  }

  lemma PrefixedIsCalm(prefix: string, s: string)
    requires Calm(prefix) && IsHash(s)
    ensures Calm(prefix + s)
  {
    HashIsCalm(s);
    CalmConcat(prefix, s);
  }

  // ---------- two passes over text and numbers ----------

  /** What a text under such a name becomes in the log. */
  function LogText(s: string, tests: Tests): string { RedactText(RedactText(s, tests), tests) }

  function LogValue(v: Json, tests: Tests): Json { if v.Str? then Str(LogText(v.s, tests)) else v }

  predicate Flat(v: Json) { v.Str? || v.Null? || v.Number? }

  function LogPairs(pairs: seq<(string, Json)>, tests: Tests): (r: seq<(string, Json)>)
    ensures |r| == |pairs| && forall i :: 0 <= i < |pairs| ==> r[i] == (pairs[i].0, LogValue(pairs[i].1, tests))
  {
    seq(|pairs|, i requires 0 <= i < |pairs| => (pairs[i].0, LogValue(pairs[i].1, tests)))
  }

  lemma LogChild(pair: (string, Json), names: Names, tests: Tests)
    requires names == NamesKept(tests) && WellNamed(pair, names) && Flat(pair.1)
    ensures SettledKey(pair.0, tests)
    ensures var kind := tests.classOf(pair.0);
      RedactChild(kind, RedactChild(kind, pair.1, tests), tests) == LogValue(pair.1, tests)
  {
  }

  /** Two passes redact each text twice and keep names, numbers and gaps. */
  lemma TwoPasses(pairs: seq<(string, Json)>, names: Names, tests: Tests)
    requires names == NamesKept(tests)
    requires forall i :: 0 <= i < |pairs| ==> WellNamed(pairs[i], names) && Flat(pairs[i].1)
    ensures RedactMetadata(RedactMetadata(Object(ObjectOf(pairs)), tests), tests)
            == Object(ObjectOf(LogPairs(pairs, tests)))
  {
    forall i | 0 <= i < |pairs|
      ensures SettledKey(pairs[i].0, tests)
      ensures var kind := tests.classOf(pairs[i].0);
        RedactChild(kind, RedactChild(kind, pairs[i].1, tests), tests) == LogValue(pairs[i].1, tests)
    {
      LogChild(pairs[i], names, tests);
    }
    var once := RedactedPairs(pairs, tests);
    RedactBuilt(pairs, tests);
    RedactBuilt(once, tests);
    assert RedactedPairs(once, tests) == LogPairs(pairs, tests);
  }
}
