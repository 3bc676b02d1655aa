/** One redaction pass as a relation between what goes in and what comes out, and the events that the log takes. */
module RedactionRules {
  import opened Wrappers
  import opened Text
  import opened Redaction
  import opened Exposure
  import Timestamps

  // ---------- one pass ----------

  /** The same text with spaces for its control characters. */
  predicate Blanked(s: string, t: string) {
    |t| == |s| && forall i :: 0 <= i < |s| ==> t[i] == if IsControl(s[i]) then ' ' else s[i]
  }

  /** The key a field goes under. */
  ghost function NameOf(key: string): string {
    if Shows(key) || HasControl(key) then "[REDACTED_KEY]" else key
  }

  ghost predicate GoesUnder(fields: Fields, name: string)
    decreases fields
  {
    fields.Field? && (NameOf(fields.key) == name || GoesUnder(fields.rest, name))
  }

  predicate InOrder(fields: Fields)
    decreases fields
  {
    fields.Field? && fields.rest.Field? ==> LexLess(fields.key, fields.rest.key) && InOrder(fields.rest)
  }

  /** Numbers, truth values and gaps stay; a string gives way to the replacement unless it is open and shows nothing
      sensitive; a list keeps its length and an object its names, in order. */
  ghost predicate Redacts(v: Json, open: bool, w: Json)
    decreases v, 0
  {
    match v
    case Object(fields) =>
      && w.Object? && InOrder(w.fields) && FieldsRedact(fields, w.fields)
      && forall name :: Lookup(w.fields, name).Some? ==> GoesUnder(fields, name)
    case Array(items) => w.Array? && ItemsRedact(items, open, w.items)
    case Str(s) => if open && !Shows(s) then w.Str? && Blanked(s, w.s) else w == Str("[REDACTED]")
    case _ => w == v
  }

  ghost predicate ItemsRedact(items: Items, open: bool, out: Items)
    decreases items, 0
  {
    if items.NoItem? then out.NoItem?
    else out.Item? && Redacts(items.head, open, out.head) && ItemsRedact(items.tail, open, out.tail)
  }

  /** Each field is found under its name, unless a later one goes there too. */
  ghost predicate FieldsRedact(fields: Fields, out: Fields)
    decreases fields, 0
  {
    fields.Field? ==>
      && FieldsRedact(fields.rest, out)
      && var name := NameOf(fields.key);
      (GoesUnder(fields.rest, name)
       || (Lookup(out, name).Some? && ChildRedacts(fields.key, fields.value, Lookup(out, name).value)))
  }

  /** Under a secret or content key stands the replacement; strings under any other are open if the key is. */
  ghost predicate ChildRedacts(key: string, v: Json, w: Json)
    decreases v, 1
  {
    if IsSecretKey(key) || IsContentKey(key) then w == Str("[REDACTED]") else Redacts(v, IsOpenKey(key), w)
  }

  // ---------- the pass is one of these ----------

  lemma TextRedacts(s: string)
    ensures ContainsSensitiveText(s) <==> Shows(s)
    ensures RedactText(s, TheTests()) == if Shows(s) then REDACTED else Neutralized(s)
    ensures SafeKey(s, TheTests()) == NameOf(s)
  {
    SensitiveExactlyIf(s);
    TestIsSensitivity(s, TheTests());
  }

  lemma {:induction false} InsertKeepsOrder(fields: Fields, key: string, value: Json)
    requires InOrder(fields)
    ensures InOrder(Insert(fields, key, value))
    ensures Insert(fields, key, value).Field?
            && Insert(fields, key, value).key == if fields.Field? && !LexLess(key, fields.key) then fields.key else key
    decreases fields
  {
    if fields.Field? && fields.key != key && !LexLess(key, fields.key) {
      LexTotal(key, fields.key);
      InsertKeepsOrder(fields.rest, key, value);
    }
  }

  lemma {:induction false} RedactedIsInOrder(fields: Fields, redacted: Fields, tests: Tests)
    requires InOrder(redacted)
    ensures InOrder(RedactFields(fields, redacted, tests))
    decreases fields
  {
    if fields.Field? {
      var name, value := SafeKey(fields.key, tests), RedactChild(tests.classOf(fields.key), fields.value, tests);
      InsertKeepsOrder(redacted, name, value);
      RedactedIsInOrder(fields.rest, Insert(redacted, name, value), tests);
    }
  }

  lemma {:induction false} LastIsUnder(fields: Fields, name: string)
    ensures LastFor(fields, name, TheTests()).Some? <==> GoesUnder(fields, name)
    decreases fields
  {
    if fields.Field? {
      LastIsUnder(fields.rest, name);
      TextRedacts(fields.key);
    }
  }

  lemma {:induction false} PassRedacts(v: Json, open: bool)
    ensures Redacts(v, open, RedactValue(v, open, TheTests()))
    decreases v, 0
  {
    match v
    case Object(fields) => ObjectRedacts(fields);
    case Array(items) => ItemsAreRedacted(items, open);
    case Str(s) => TextRedacts(s);
    case _ =>
  }

  lemma {:induction false} ItemsAreRedacted(items: Items, open: bool)
    ensures ItemsRedact(items, open, RedactItems(items, open, TheTests()))
    decreases items, 0
  {
    if items.Item? {
      PassRedacts(items.head, open);
      ItemsAreRedacted(items.tail, open);
    }
  }

  lemma {:induction false} ObjectRedacts(fields: Fields)
    ensures var out := RedactFields(fields, NoField, TheTests());
            InOrder(out) && FieldsRedact(fields, out)
            && forall name :: Lookup(out, name).Some? ==> GoesUnder(fields, name)
    decreases fields, 1
  {
    var out := RedactFields(fields, NoField, TheTests());
    RedactedIsInOrder(fields, NoField, TheTests());
    forall name ensures Lookup(out, name) == LastFor(fields, name, TheTests()) {
      LookupRedacted(fields, NoField, name, TheTests());
    }
    forall name | Lookup(out, name).Some? ensures GoesUnder(fields, name) { LastIsUnder(fields, name); }
    FieldsAreRedacted(fields, out);
  }

  lemma {:induction false} FieldsAreRedacted(fields: Fields, out: Fields)
    requires forall name :: LastFor(fields, name, TheTests()).Some? ==>
      Lookup(out, name) == LastFor(fields, name, TheTests())
    ensures FieldsRedact(fields, out)
    decreases fields, 0
  {
    if fields.Field? {
      var name := NameOf(fields.key);
      forall other | LastFor(fields.rest, other, TheTests()).Some?
        ensures Lookup(out, other) == LastFor(fields.rest, other, TheTests()) {
        assert LastFor(fields, other, TheTests()) == LastFor(fields.rest, other, TheTests());
      }
      FieldsAreRedacted(fields.rest, out);
      TextRedacts(fields.key);
      LastIsUnder(fields.rest, name);
      ChildIsRedacted(fields.key, fields.value);
      assert !GoesUnder(fields.rest, name) ==> LastFor(fields, name, TheTests()).Some?;
    }
  }

  lemma {:induction false} ChildIsRedacted(key: string, v: Json)
    ensures ChildRedacts(key, v, RedactChild(TheTests().classOf(key), v, TheTests()))
    decreases v, 1
  {
    ClassIs(key, TheTests());
    ClassesAre(key);
    PassRedacts(v, true);
    PassRedacts(v, false);
  }

  // ---------- events ----------

  /** One to 512 letters, digits and marks of the list, which show nothing sensitive. */
  ghost predicate IsPlain(s: string) {
    && 1 <= |s| <= 512 && !Shows(s)
    && forall i :: 0 <= i < |s| ==>
         || 'a' <= s[i] <= 'z' || 'A' <= s[i] <= 'Z' || '0' <= s[i] <= '9'
         || s[i] == '-' || s[i] == '_' || s[i] == '.' || s[i] == '/'
         || s[i] == ':' || s[i] == '@' || s[i] == '+' || s[i] == '#'
  }

  lemma PlainIs(s: string)
    ensures IsSafeIdentifier(s, TheTests()) <==> IsPlain(s)
  {
    TextRedacts(s);
    if IsPlain(s) {
      forall i | 0 <= i < |s| ensures IsIdentifierChar(s[i]) && !IsControl(s[i]) {}
      assert !HasControl(s);
    }
    assert REDACTED[0] == '[' && !IsIdentifierChar('[');
  }

  lemma StoredWhenValid(e: Event)
    ensures ToStateInput(WithMetadata(e, TheTests()), TheTests()).Success?
      <==> Validate(WithMetadata(e, TheTests()), TheTests()).None?
  {
  }

  lemma AcceptedExactlyIf(e: Event)
    ensures ToStateInput(WithMetadata(e, TheTests()), TheTests()).Success? <==> IsStorable(e)
  {
    StoredWhenValid(e);
    ValidIs(WithMetadata(e, TheTests()));
  }

  lemma ValidIs(e: Event)
    ensures Validate(e, TheTests()).None? <==> IsStorable(e) && e.metadata.Object?
  {
    PlainIs(e.repositoryId);
    PlainIs(e.eventId);
    PlainIs(e.objectType);
    PlainIs(e.objectId);
    PlainIs(e.transition);
    PlainIs(e.actorKind);
    PlainIs(e.outcome);
  }

  ghost predicate IsStorable(e: Event) {
    && IsPlain(e.repositoryId) && IsPlain(e.eventId) && IsPlain(e.objectType) && IsPlain(e.objectId)
    && IsPlain(e.transition) && IsPlain(e.actorKind) && IsPlain(e.outcome)
    && Timestamps.IsUtcTimestamp(e.occurredAt) && (e.metadata.Null? || e.metadata.Object?)
  }

  /** An event is stored exactly if its seven names are plain, its time is accepted, and its metadata is an object or
      none; and with the metadata that two passes leave. */
  lemma StoredExactlyIf(e: Event)
    ensures var r := ToStateInput(WithMetadata(e, TheTests()), TheTests());
      && (r.Success? <==> IsStorable(e))
      && (r.Success? ==>
          && r.value == e.(metadata := r.value.metadata)
          && if e.metadata.Null? then r.value.metadata == Object(NoField)
             else exists once :: Redacts(e.metadata, false, once) && Redacts(once, false, r.value.metadata))
  {
    AcceptedExactlyIf(e);
    if ToStateInput(WithMetadata(e, TheTests()), TheTests()).Success? {
      StoredIsRead(e, TheTests());
      StoredRedacts(e.metadata);
    }
  }

  lemma StoredRedacts(v: Json)
    ensures Redacts(v, false, RedactMetadata(v, TheTests()))
    ensures Redacts(RedactMetadata(v, TheTests()), false, RedactMetadata(RedactMetadata(v, TheTests()), TheTests()))
  {
    MetadataIsAValue(v, TheTests());
    MetadataIsAValue(RedactMetadata(v, TheTests()), TheTests());
    PassRedacts(v, false);
    PassRedacts(RedactMetadata(v, TheTests()), false);
  }
}
