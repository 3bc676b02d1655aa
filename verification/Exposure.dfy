/** What the audit log cannot show: the texts that count as sensitive, over their positions, and where strings may stand
    in stored metadata at all. */
module Exposure {
  import opened Wrappers
  import opened Text
  import opened TokenScan
  import opened TokenRules
  import opened Redaction

  // ---------- sensitive texts ----------

  /** One of the marked phrases stands somewhere. */
  ghost predicate ShowsMarker(text: string) {
    exists i, p: int :: 0 <= i < |Markers()| && OccursAt(text, Markers()[i], p)
  }

  /** The whole text is three parts joined by the dots at `a` and `b`, each of eight or more token characters, the first
      starting with `eyj`. */
  predicate JwtAt(text: string, a: int, b: int) {
    && 8 <= a && a + 9 <= b && b + 9 <= |text| && DotAt(text, a) && DotAt(text, b)
    && Run(text, false, 0, a) && Run(text, false, a + 1, b) && Run(text, false, b + 1, |text|)
    && text[0] == 'e' && text[1] == 'y' && text[2] == 'j'
  }

  /** What stands from `at` on is quotes, if any, and at `q` a colon, an equals sign or a space. */
  predicate AssignedBy(text: string, at: int, q: int) {
    && 0 <= at <= q < |text| && (text[q] == ':' || text[q] == '=' || text[q] == ' ')
    && forall k :: at <= k < q ==> text[k] == '"' || text[k] == '\''
  }

  /** The term stands at `p`, and an assignment follows. */
  predicate TermAssigned(text: string, term: string, p: int, q: int) {
    OccursAt(text, term, p) && AssignedBy(text, p + |term|, q)
  }

  ghost predicate ShowsAssignment(text: string, terms: seq<string>) {
    exists i, p, q :: 0 <= i < |terms| && TermAssigned(text, terms[i], p, q)
  }

  ghost predicate ShowsToken(text: string) { exists a, b, c :: TokenAt(text, false, a, b, c) }

  /** In lower case, the text holds a marked phrase, a term that an assignment follows, or a bot token, or it is a web
      token. */
  ghost predicate Shows(text: string) {
    var lower := Lowered(text);
    || ShowsMarker(lower)
    || ShowsAssignment(lower, SecretTerms()) || ShowsAssignment(lower, AssignmentTerms())
    || ShowsToken(lower)
    || exists a, b :: JwtAt(lower, a, b)
  }

  lemma MarkerIs(text: string)
    ensures ContainsAny(text, Markers()) <==> ShowsMarker(text)
  {
    var markers := Markers();
    if ContainsAny(text, markers) {
      var i :| 0 <= i < |markers| && Contains(text, markers[i]);
      var p :| 0 <= p <= |text| - |markers[i]| && OccursAt(text, markers[i], p);
    }
    if ShowsMarker(text) {
      var i, p: int :| 0 <= i < |markers| && OccursAt(text, markers[i], p);
      assert Contains(text, markers[i]);
    }
  }

  lemma {:induction false} AssignsIs(text: string, at: nat)
    ensures AssignsAt(text, at) <==> exists q :: AssignedBy(text, at, q)
    decreases |text| - at
  {
    if at < |text| && (text[at] == '"' || text[at] == '\'') {
      var next := at + 1;
      AssignsIs(text, next);
      if q :| AssignedBy(text, next, q) { assert AssignedBy(text, at, q); }
      if q :| AssignedBy(text, at, q) { assert AssignedBy(text, next, q); }
    } else if AssignsAt(text, at) {
      assert AssignedBy(text, at, at);
    }
  }

  lemma AssignmentIs(text: string, terms: seq<string>)
    ensures AssignedSomewhere(text, terms) <==> ShowsAssignment(text, terms)
  {
    if AssignedSomewhere(text, terms) {
      var i, p: nat :| 0 <= i < |terms| && AssignedAt(text, terms[i], p);
      AssignsIs(text, p + |terms[i]|);
      var q :| AssignedBy(text, p + |terms[i]|, q);
      assert TermAssigned(text, terms[i], p, q);
    }
    if ShowsAssignment(text, terms) {
      var i, p, q :| 0 <= i < |terms| && TermAssigned(text, terms[i], p, q);
      AssignsIs(text, p + |terms[i]|);
      assert AssignedAt(text, terms[i], p);
    }
  }

  lemma JwtIs(text: string)
    ensures HasJwtShape(text) <==> exists a, b :: JwtAt(text, a, b)
  {
    if HasJwtShape(text) {
      var a := NextDot(text, 0);
      var b := NextDot(text, a + 1);
      RunsAre(text, a, b);
      assert JwtAt(text, a, b);
    }
    if exists a, b :: JwtAt(text, a, b) {
      var a, b :| JwtAt(text, a, b);
      RunsAre(text, a, b);
      DotEndsRun(text, 0, a);
      DotEndsRun(text, a + 1, b);
    }
  }

  lemma RunsAre(text: string, a: int, b: int)
    ensures AllTokens(text, false, 0, a) <==> Run(text, false, 0, a)
    ensures AllTokens(text, false, a + 1, b) <==> Run(text, false, a + 1, b)
    ensures AllTokens(text, false, b + 1, |text|) <==> Run(text, false, b + 1, |text|)
  {
    RunIs(text, false, 0, a);
    RunIs(text, false, a + 1, b);
    RunIs(text, false, b + 1, |text|);
  }

  /** The test for sensitive text finds exactly these. */
  lemma SensitiveExactlyIf(text: string)
    ensures ContainsSensitiveText(text) <==> Shows(text)
  {
    var lower := Lowered(text);
    MarkerIs(lower);
    AnyAssignmentIsFound(lower, SecretTerms());
    AnyAssignmentIsFound(lower, AssignmentTerms());
    AssignmentIs(lower, SecretTerms());
    AssignmentIs(lower, AssignmentTerms());
    DottedIsShape(lower);
    ShapeExactlyIf(lower, false);
    JwtIs(lower);
  }

  // ---------- keys ----------

  ghost predicate HasTerm(text: string, terms: seq<string>) {
    exists i, p: int :: 0 <= i < |terms| && OccursAt(text, terms[i], p)
  }

  lemma TermIs(text: string, terms: seq<string>)
    ensures ContainsAny(text, terms) <==> HasTerm(text, terms)
  {
    if ContainsAny(text, terms) {
      var i :| 0 <= i < |terms| && Contains(text, terms[i]);
      var p :| 0 <= p <= |text| - |terms[i]| && OccursAt(text, terms[i], p);
    }
    if HasTerm(text, terms) {
      var i, p: int :| 0 <= i < |terms| && OccursAt(text, terms[i], p);
      assert Contains(text, terms[i]);
    }
  }

  /** The letters and digits of the key hold a secret term. */
  ghost predicate IsSecretKey(key: string) { HasTerm(NormalizeKey(key), SecretTerms()) }

  /** A listed name, or one that ends in `id`, `ids` or `hash`, without a secret term. */
  ghost predicate IsOpenKey(key: string) {
    var k := NormalizeKey(key);
    !IsSecretKey(key) && (EndsWith(k, "id") || EndsWith(k, "ids") || EndsWith(k, "hash") || IsSafeKey(k))
  }

  ghost predicate IsContentKey(key: string) {
    !IsSecretKey(key) && !IsOpenKey(key) && HasTerm(NormalizeKey(key), ContentTerms())
  }

  lemma ClassesAre(key: string)
    ensures ClassifyKey(key).Secret? <==> IsSecretKey(key)
    ensures ClassifyKey(key).Safe? <==> IsOpenKey(key)
    ensures ClassifyKey(key).Content? <==> IsContentKey(key)
  {
    TermIs(NormalizeKey(key), SecretTerms());
    TermIs(NormalizeKey(key), ContentTerms());
  }

  // ---------- stored metadata ----------

  ghost predicate Clean(text: string) { !Shows(text) && !HasControl(text) }

  /** Strings are clean, and nothing but the replacement unless `open`; keys are clean, what is under a secret or
      content key is the replacement, and strings below a key are open only under an open one. */
  ghost predicate Unexposed(v: Json, open: bool)
    decreases v
  {
    match v
    case Object(fields) => UnexposedFields(fields)
    case Array(items) => UnexposedItems(items, open)
    case Str(s) => Clean(s) && (!open ==> s == REDACTED)
    case _ => true
  }

  ghost predicate UnexposedItems(items: Items, open: bool)
    decreases items
  {
    items.Item? ==> Unexposed(items.head, open) && UnexposedItems(items.tail, open)
  }

  ghost predicate UnexposedFields(fields: Fields)
    decreases fields
  {
    fields.Field? ==>
      && Clean(fields.key) && UnexposedFields(fields.rest)
      && (IsSecretKey(fields.key) || IsContentKey(fields.key) ==> fields.value == Str(REDACTED))
      && (!IsSecretKey(fields.key) && !IsContentKey(fields.key) ==> Unexposed(fields.value, IsOpenKey(fields.key)))
  }

  lemma ReplacementIsClean()
    ensures Clean(REDACTED)
  {
    ReplacementIsNotSensitive(REDACTED);
    ReplacementsHaveNoControl();
    SensitiveExactlyIf(REDACTED);
  }

  lemma TextIsClean(s: string, tests: Tests)
    requires tests == TheTests() && !HasControl(s)
    ensures Clean(RedactText(s, tests)) && (SettledKey(s, tests) ==> Clean(s))
  {
    TestsAreQuiet(tests);
    TextStays(s, tests);
    TestIsSensitivity(s, tests);
    SensitiveExactlyIf(s);
    ReplacementIsClean();
  }

  lemma ClassIs(key: string, tests: Tests)
    requires tests == TheTests()
    ensures tests.classOf(key) == ClassifyKey(key)
  {
  }

  /** A pass over what a first pass left. */
  lemma {:induction false} SecondPass(v: Json, open: bool, tests: Tests)
    requires tests == TheTests() && Settled(v, tests)
    ensures Unexposed(RedactValue(v, open, tests), open)
    decreases v, 0
  {
    TestsAreQuiet(tests);
    match v
    case Object(fields) =>
      SettledFieldsStay(fields, NoField, tests);
      SecondPassFields(fields, tests);
    case Array(items) => SecondPassItems(items, open, tests);
    case Str(s) =>
      TextIsClean(s, tests);
      ReplacementIsClean();
    case _ =>
  }

  lemma {:induction false} SecondPassItems(items: Items, open: bool, tests: Tests)
    requires tests == TheTests() && SettledItems(items, tests)
    ensures UnexposedItems(RedactItems(items, open, tests), open)
    decreases items, 0
  {
    if items.Item? {
      SecondPass(items.head, open, tests);
      SecondPassItems(items.tail, open, tests);
    }
  }

  /** What a field's value has become, under its key. */
  ghost predicate UnderKey(key: string, value: Json) {
    if IsSecretKey(key) || IsContentKey(key) then value == Str(REDACTED) else Unexposed(value, IsOpenKey(key))
  }

  lemma ChildIsUnderKey(key: string, v: Json, tests: Tests)
    requires tests == TheTests()
    requires Unexposed(RedactValue(v, true, tests), true) && Unexposed(RedactValue(v, false, tests), false)
    ensures UnderKey(key, RedactChild(tests.classOf(key), v, tests))
  {
    ClassIs(key, tests);
    ClassesAre(key);
  }

  lemma {:induction false} SecondPassFields(fields: Fields, tests: Tests)
    requires tests == TheTests() && SettledFields(fields, tests)
    ensures UnexposedFields(EachField(fields, tests))
    decreases fields, 0
  {
    if fields.Field? {
      KeyIsClean(fields.key, tests);
      SecondPass(fields.value, true, tests);
      SecondPass(fields.value, false, tests);
      ChildIsUnderKey(fields.key, fields.value, tests);
      SecondPassFields(fields.rest, tests);
    }
  }

  lemma KeyIsClean(key: string, tests: Tests)
    requires tests == TheTests() && SettledKey(key, tests)
    ensures Clean(key)
  {
    TestsAreQuiet(tests);
    if HasControl(key) { ReplacementsHaveNoControl(); }
    TextIsClean(key, tests);
  }

  /** Whatever metadata an event is made with: in the row that the log stores for it, no string and no key shows
      anything sensitive, and strings other than the replacement stand only under open keys. */
  lemma NothingIsExposed(e: Event, tests: Tests)
    requires tests == TheTests() && ToStateInput(WithMetadata(e, tests), tests).Success?
    ensures Unexposed(ToStateInput(WithMetadata(e, tests), tests).value.metadata, false)
  {
    StoredIsRead(e, tests);
    TestsAreQuiet(tests);
    if !e.metadata.Null? {
      var once := RedactMetadata(e.metadata, tests);
      MetadataIsAValue(e.metadata, tests);
      MetadataIsAValue(once, tests);
      ValueSettles(e.metadata, false, tests);
      SecondPass(once, false, tests);
    }
  }
}
