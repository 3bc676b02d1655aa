/** Redaction of audit metadata, and the audit event on its way to the log and back. JSON text and JSON value are
    one. */
module Redaction {
  import opened Wrappers
  import opened Text
  import opened TokenScan
  import Timestamps

  const REDACTED := "[REDACTED]"
  const REDACTED_KEY := "[REDACTED_KEY]"

  datatype Json = Null | Bool(b: bool) | Number(n: int) | Str(s: string) | Array(items: Items) | Object(fields: Fields)
  datatype Items = NoItem | Item(head: Json, tail: Items)
  datatype Fields = NoField | Field(key: string, value: Json, rest: Fields)

  // ---------- sensitive text ----------

  function SecretTerms(): seq<string> {
    ["authorization", "authheader", "authtoken", "bearer", "token", "secret", "password", "passwd", "privatekey",
     "credential", "cookie", "apikey", "accesskey", "clientsecret", "webhook", "sessionid", "refreshtoken",
     "signingkey", "oauth", "passphrase", "certificate", "jwt", "session", "dsn", "connectionstring", "bot"]
  }

  function AssignmentTerms(): seq<string> {
    ["private_key", "private-key", "api_key", "api-key", "access_key", "access-key", "client_secret", "client-secret",
     "secret_key", "secret-key", "auth_token", "bot_token", "discord_token", "x-api-key"]
  }

  function ContentTerms(): seq<string> {
    ["message", "content", "body", "text", "prompt", "description", "payload", "raw", "html", "markdown"]
  }

  predicate IsSafeKey(key: string) {
    || key == "active" || key == "actor" || key == "actorkind" || key == "alias" || key == "attempt"
    || key == "attemptid" || key == "attemptnumber" || key == "category" || key == "channel" || key == "channelid"
    || key == "code" || key == "config" || key == "confighash" || key == "configurationhash" || key == "contenthash"
    || key == "count" || key == "deleted" || key == "destination" || key == "destinationalias" || key == "disabled"
    || key == "draftid" || key == "durationms" || key == "enabled" || key == "eventid" || key == "eventtype"
    || key == "exists" || key == "expired" || key == "httpstatus" || key == "inbounditemid" || key == "inbound"
    || key == "kind" || key == "level" || key == "localonly" || key == "metadata" || key == "noncehash"
    || key == "objectid" || key == "objecttype" || key == "operation" || key == "operationid" || key == "outcome"
    || key == "policyhash" || key == "provider" || key == "reason" || key == "read only" || key == "readonly"
    || key == "remote" || key == "remoteMessageId" || key == "repositoryid" || key == "result" || key == "revision"
    || key == "schema" || key == "schemaversion" || key == "source" || key == "state" || key == "status"
    || key == "transition" || key == "truncated" || key == "type" || key == "updatedat" || key == "version"
    || key == "workspaceid"
  }

  /** Phrases that make a text sensitive wherever they stand. */
  function Markers(): seq<string> {
    ["-----begin", "private key-----", "authorization:", "authorization=", "bearer ", "basic ", "ghp_", "gho_", "ghs_",
     "ghu_", "github_pat_", "xoxb-", "xoxp-", "akia", "bot "]
  }

  function Lowered(s: string): (r: string)
    ensures |r| == |s| && forall i :: 0 <= i < |s| ==> r[i] == Lower(s[i])
  {
    seq(|s|, i requires 0 <= i < |s| => Lower(s[i]))
  }

  predicate ContainsAny(text: string, needles: seq<string>) {
    exists i :: 0 <= i < |needles| && Contains(text, needles[i])
  }

  /** First occurrence of `term` at or after `from`. */
  function FindFrom(text: string, term: string, from: nat): (at: Option<nat>)
    ensures at.Some? ==> from <= at.value && OccursAt(text, term, at.value)
    ensures forall p :: from <= p && OccursAt(text, term, p) ==> at.Some? && at.value <= p
    decreases |text| - from
  {
    if from + |term| > |text| then None
    else if OccursAt(text, term, from) then Some(from)
    else FindFrom(text, term, from + 1)
  }

  function SkipQuotes(text: string, at: nat): nat
    decreases |text| - at
  {
    if at < |text| && (text[at] == '"' || text[at] == '\'') then SkipQuotes(text, at + 1) else at
  }

  /** After quotes, if any, a colon, an equals sign or a space. */
  predicate AssignsAt(text: string, at: nat) {
    var q := SkipQuotes(text, at);
    q < |text| && (text[q] == ':' || text[q] == '=' || text[q] == ' ')
  }

  /** Whether one of the occurrences of `term` that the search visits, from `from` on and without overlap, is followed
      by an assignment. */
  predicate AssignedFrom(text: string, term: string, from: nat)
    requires term != []
    decreases |text| - from
  {
    var at := FindFrom(text, term, from);
    at.Some? && (AssignsAt(text, at.value + |term|) || AssignedFrom(text, term, at.value + |term|))
  }

  method HasAssignmentAfter(text: string, term: string) returns (found: bool)
    requires term != []
    ensures found == AssignedFrom(text, term, 0)
  {
    var start := 0;
    while true
      invariant AssignedFrom(text, term, start) == AssignedFrom(text, term, 0)
      decreases |text| - start
    {
      var at := FindFrom(text, term, start);
      if at.None? { return false; }
      if AssignsAt(text, at.value + |term|) { return true; }
      start := at.value + |term|;
    }
  }

  /** No proper suffix of `term` begins it, so its occurrences never overlap. */
  predicate Borderless(term: string) { forall d :: 0 < d < |term| ==> term[d..] != term[..|term| - d] }

  lemma Overlap(text: string, term: string, p: nat, q: nat)
    requires p < q < p + |term| && OccursAt(text, term, p) && OccursAt(text, term, q)
    ensures !Borderless(term)
  {
    var d := q - p;
    assert term[d..] == text[p..p + |term|][d..] == text[q..p + |term|];
    assert term[..|term| - d] == text[q..q + |term|][..|term| - d] == text[q..p + |term|];
  }

  predicate AssignedAt(text: string, term: string, p: nat) { OccursAt(text, term, p) && AssignsAt(text, p + |term|) }

  lemma {:induction false} AssignedIsFound(text: string, term: string, from: nat, p: nat)
    requires term != [] && Borderless(term) && from <= p && AssignedAt(text, term, p)
    ensures AssignedFrom(text, term, from)
    decreases |text| - from
  {
    var at := FindFrom(text, term, from).value;
    if at < p {
      if p < at + |term| { Overlap(text, term, at, p); }
      AssignedIsFound(text, term, at + |term|, p);
    }
  }

  lemma {:induction false} FoundIsAssigned(text: string, term: string, from: nat) returns (p: nat)
    requires term != [] && AssignedFrom(text, term, from)
    ensures from <= p && AssignedAt(text, term, p)
    decreases |text| - from
  {
    p := FindFrom(text, term, from).value;
    if !AssignsAt(text, p + |term|) { p := FoundIsAssigned(text, term, p + |term|); }
  }

  /** For such a term, the search finds an assignment exactly when any occurrence is followed by one. */
  lemma AssignedIsAnywhere(text: string, term: string)
    requires term != [] && Borderless(term)
    ensures AssignedFrom(text, term, 0) <==> exists p: nat :: AssignedAt(text, term, p)
  {
    if AssignedFrom(text, term, 0) { var p := FoundIsAssigned(text, term, 0); }
    if p: nat :| AssignedAt(text, term, p) { AssignedIsFound(text, term, 0, p); }
  }

  predicate AssignedAny(text: string, terms: seq<string>) {
    exists i :: 0 <= i < |terms| && terms[i] != [] && AssignedFrom(text, terms[i], 0)
  }

  lemma EndIsUnique(term: string)
    requires term != [] && forall i :: 0 <= i < |term| - 1 ==> term[i] != term[|term| - 1]
    ensures Borderless(term)
  {
    forall d | 0 < d < |term| ensures term[d..] != term[..|term| - d] {
      assert term[d..][|term| - d - 1] == term[|term| - 1]
        && term[..|term| - d][|term| - d - 1] == term[|term| - d - 1];
    }
  }

  lemma StartIsUnique(term: string)
    requires term != [] && forall i :: 0 < i < |term| ==> term[i] != term[0]
    ensures Borderless(term)
  {
    forall d | 0 < d < |term| ensures term[d..] != term[..|term| - d] {
      assert term[d..][0] == term[d] && term[..|term| - d][0] == term[0];
    }
  }

  lemma StartGoesOn(term: string)
    requires |term| > 1 && forall i :: 0 < i < |term| && term[i] == term[0] ==> i + 1 < |term| && term[i + 1] != term[1]
    ensures Borderless(term)
  {
    forall d | 0 < d < |term| ensures term[d..] != term[..|term| - d] {
      assert term[d..][0] == term[d] && term[..|term| - d][0] == term[0];
      if d + 1 < |term| { assert term[d..][1] == term[d + 1] && term[..|term| - d][1] == term[1]; }
    }
  }

  lemma SecretTermsAre1(terms: seq<string>)
    requires terms == SecretTerms()
    ensures forall i :: 0 <= i < 7 ==> Borderless(terms[i]) && terms[i] != []
  {
    EndIsUnique("authorization");
    EndIsUnique("authheader");
    EndIsUnique("authtoken");
    StartIsUnique("bearer");
    EndIsUnique("token");
    EndIsUnique("secret");
    EndIsUnique("password");
  }

  lemma SecretTermsAre2(terms: seq<string>)
    requires terms == SecretTerms()
    ensures forall i :: 7 <= i < 14 ==> Borderless(terms[i]) && terms[i] != []
  {
    EndIsUnique("passwd");
    EndIsUnique("privatekey");
    EndIsUnique("credential");
    EndIsUnique("cookie");
    EndIsUnique("apikey");
    EndIsUnique("accesskey");
    StartGoesOn("clientsecret");
  }

  lemma SecretTermsAre3(terms: seq<string>)
    requires terms == SecretTerms()
    ensures forall i :: 14 <= i < 21 ==> Borderless(terms[i]) && terms[i] != []
  {
    EndIsUnique("webhook");
    EndIsUnique("sessionid");
    EndIsUnique("refreshtoken");
    EndIsUnique("signingkey");
    EndIsUnique("oauth");
    EndIsUnique("passphrase");
    StartGoesOn("certificate");
  }

  lemma SecretTermsAre4(terms: seq<string>)
    requires terms == SecretTerms()
    ensures forall i :: 21 <= i < 26 ==> Borderless(terms[i]) && terms[i] != []
  {
    EndIsUnique("jwt");
    EndIsUnique("session");
    EndIsUnique("dsn");
    EndIsUnique("connectionstring");
    EndIsUnique("bot");
  }

  lemma AssignmentTermsAre1(terms: seq<string>)
    requires terms == AssignmentTerms()
    ensures forall i :: 0 <= i < 7 ==> Borderless(terms[i]) && terms[i] != []
  {
    EndIsUnique("private_key");
    EndIsUnique("private-key");
    EndIsUnique("api_key");
    EndIsUnique("api-key");
    EndIsUnique("access_key");
    EndIsUnique("access-key");
    StartGoesOn("client_secret");
  }

  lemma AssignmentTermsAre2(terms: seq<string>)
    requires terms == AssignmentTerms()
    ensures forall i :: 7 <= i < 14 ==> Borderless(terms[i]) && terms[i] != []
  {
    StartGoesOn("client-secret");
    EndIsUnique("secret_key");
    EndIsUnique("secret-key");
    EndIsUnique("auth_token");
    EndIsUnique("bot_token");
    EndIsUnique("discord_token");
    EndIsUnique("x-api-key");
  }

  lemma AllBorderless(terms: seq<string>)
    requires terms == SecretTerms() || terms == AssignmentTerms()
    ensures forall i :: 0 <= i < |terms| ==> Borderless(terms[i]) && terms[i] != []
  {
    if terms == SecretTerms() {
      SecretTermsAre1(terms);
      SecretTermsAre2(terms);
      SecretTermsAre3(terms);
      SecretTermsAre4(terms);
    } else {
      AssignmentTermsAre1(terms);
      AssignmentTermsAre2(terms);
    }
  }

  /** An assignment follows a term, wherever the term stands. */
  ghost predicate AssignedSomewhere(text: string, terms: seq<string>) {
    exists i, p: nat :: 0 <= i < |terms| && AssignedAt(text, terms[i], p)
  }

  /** No term of the two lists can overlap itself, so the search misses no assignment. */
  lemma AnyAssignmentIsFound(text: string, terms: seq<string>)
    requires terms == SecretTerms() || terms == AssignmentTerms()
    ensures AssignedAny(text, terms) <==> AssignedSomewhere(text, terms)
  {
    AllBorderless(terms);
    SearchIsComplete(text, terms);
  }

  lemma SearchIsComplete(text: string, terms: seq<string>)
    requires forall i :: 0 <= i < |terms| ==> Borderless(terms[i]) && terms[i] != []
    ensures AssignedAny(text, terms) <==> AssignedSomewhere(text, terms)
  {
    forall i | 0 <= i < |terms|
      ensures AssignedFrom(text, terms[i], 0) <==> exists p: nat :: AssignedAt(text, terms[i], p) {
      AssignedIsAnywhere(text, terms[i]);
    }
  }

  /** Three parts between two dots, each of eight or more token characters, the first starting with `eyj`. */
  predicate HasJwtShape(text: string) {
    var a := NextDot(text, 0);
    a < |text| &&
    var b := NextDot(text, a + 1);
    && b < |text| && a >= 8 && b - (a + 1) >= 8 && |text| - (b + 1) >= 8
    && AllTokens(text, false, 0, a) && AllTokens(text, false, a + 1, b) && AllTokens(text, false, b + 1, |text|)
    && text[0] == 'e' && text[1] == 'y' && text[2] == 'j'
  }

  predicate ContainsSensitiveText(text: string) {
    var lower := Lowered(text);
    || ContainsAny(lower, Markers())
    || AssignedAny(lower, SecretTerms()) || AssignedAny(lower, AssignmentTerms())
    || HasDottedShape(lower) || HasJwtShape(lower)
  }

  predicate HasControl(text: string) { exists i :: 0 <= i < |text| && IsControl(text[i]) }

  function Neutralized(s: string): (r: string)
    ensures !HasControl(r) && |r| == |s| && forall i :: 0 <= i < |s| ==> r[i] == if IsControl(s[i]) then ' ' else s[i]
  {
    seq(|s|, i requires 0 <= i < |s| => if IsControl(s[i]) then ' ' else s[i])
  }

  // ---------- keys ----------

  datatype KeyClass = Secret | Content | Safe | Unknown

  /** ASCII letters and digits of a key, in lower case. */
  function NormalizeKey(key: string): string {
    if key == [] then []
    else (if IsAsciiAlphanumeric(key[0]) then [Lower(key[0])] else []) + NormalizeKey(key[1..])
  }

  function ClassifyKey(key: string): KeyClass {
    var k := NormalizeKey(key);
    if ContainsAny(k, SecretTerms()) then Secret
    else if EndsWith(k, "id") || EndsWith(k, "ids") || EndsWith(k, "hash") || IsSafeKey(k) then Safe
    else if ContainsAny(k, ContentTerms()) then Content
    else Unknown
  }

  // ---------- values ----------

  /** The two tests redaction turns on. */
  datatype Tests = Tests(sensitive: string -> bool, classOf: string -> KeyClass)

  function TheTests(): Tests { Tests(ContainsSensitiveText, ClassifyKey) }

  function RedactText(s: string, tests: Tests): string { if tests.sensitive(s) then REDACTED else Neutralized(s) }

  function SafeKey(key: string, tests: Tests): string {
    if HasControl(key) || tests.sensitive(key) then REDACTED_KEY else key
  }

  /** Insertion into a map in the order of keys; a later value replaces an earlier one. */
  function Insert(fields: Fields, key: string, value: Json): Fields {
    if fields.NoField? then Field(key, value, NoField)
    else if fields.key == key then Field(key, value, fields.rest)
    else if LexLess(key, fields.key) then Field(key, value, fields)
    else Field(fields.key, fields.value, Insert(fields.rest, key, value))
  }

  function RedactValue(v: Json, allowStrings: bool, tests: Tests): Json
    decreases v, 0
  {
    match v
    case Object(fields) => Object(RedactFields(fields, NoField, tests))
    case Array(items) => Array(RedactItems(items, allowStrings, tests))
    case Str(s) => Str(if allowStrings then RedactText(s, tests) else REDACTED)
    case _ => v
  }

  function RedactItems(items: Items, allowStrings: bool, tests: Tests): Items
    decreases items, 0
  {
    if items.NoItem? then NoItem
    else Item(RedactValue(items.head, allowStrings, tests), RedactItems(items.tail, allowStrings, tests))
  }

  /** The value of a field, by the class of its key. */
  function RedactChild(kind: KeyClass, value: Json, tests: Tests): Json
    decreases value, 1
  {
    match kind
    case Safe => RedactValue(value, true, tests)
    case Unknown => RedactValue(value, false, tests)
    case _ => Str(REDACTED)
  }

  function RedactFields(fields: Fields, redacted: Fields, tests: Tests): Fields
    decreases fields, 0
  {
    if fields.NoField? then redacted
    else
      var value := RedactChild(tests.classOf(fields.key), fields.value, tests);
      RedactFields(fields.rest, Insert(redacted, SafeKey(fields.key, tests), value), tests)
  }

  function RedactMetadata(v: Json, tests: Tests): Json {
    match v
    case Object(fields) => Object(RedactFields(fields, NoField, tests))
    case Array(items) => Array(RedactItems(items, false, tests))
    case Str(_) => Str(REDACTED)
    case _ => v
  }

  lemma MetadataIsAValue(v: Json, tests: Tests)
    ensures RedactMetadata(v, tests) == RedactValue(v, false, tests)
  {
  }

  // ---------- what one pass leaves ----------

  predicate SettledKey(key: string, tests: Tests) { SafeKey(key, tests) == key }

  predicate Settled(v: Json, tests: Tests)
    decreases v
  {
    match v
    case Object(fields) => SettledFields(fields, tests)
    case Array(items) => SettledItems(items, tests)
    case Str(s) => !HasControl(s)
    case _ => true
  }

  predicate SettledItems(items: Items, tests: Tests)
    decreases items
  {
    items.Item? ==> Settled(items.head, tests) && SettledItems(items.tail, tests)
  }

  /** Keys in order, none to be replaced. */
  predicate SettledFields(fields: Fields, tests: Tests)
    decreases fields
  {
    fields.Field? ==>
      && SettledKey(fields.key, tests) && Settled(fields.value, tests) && SettledFields(fields.rest, tests)
      && (fields.rest.Field? ==> LexLess(fields.key, fields.rest.key))
  }

  /** The replacements are not replaced in turn. */
  predicate Quiet(tests: Tests) { !tests.sensitive(REDACTED) && !tests.sensitive(REDACTED_KEY) }

  lemma ReplacementsHaveNoControl()
    ensures !HasControl(REDACTED) && !HasControl(REDACTED_KEY)
  {
  }

  lemma SafeKeySettles(key: string, tests: Tests)
    requires Quiet(tests)
    ensures SettledKey(SafeKey(key, tests), tests)
  {
  }

  lemma {:induction false} InsertSettles(fields: Fields, key: string, value: Json, tests: Tests)
    requires SettledFields(fields, tests) && SettledKey(key, tests) && Settled(value, tests)
    ensures SettledFields(Insert(fields, key, value), tests)
    decreases fields
  {
    if fields.Field? && fields.key != key && !LexLess(key, fields.key) {
      LexTotal(key, fields.key);
      InsertSettles(fields.rest, key, value, tests);
    }
  }

  lemma {:induction false} ValueSettles(v: Json, allowStrings: bool, tests: Tests)
    requires Quiet(tests)
    ensures Settled(RedactValue(v, allowStrings, tests), tests)
    decreases v, 0
  {
    match v
    case Object(fields) => FieldsSettle(fields, NoField, tests);
    case Array(items) => ItemsSettle(items, allowStrings, tests);
    case Str(_) => ReplacementsHaveNoControl();
    case _ =>
  }

  lemma {:induction false} ItemsSettle(items: Items, allowStrings: bool, tests: Tests)
    requires Quiet(tests)
    ensures SettledItems(RedactItems(items, allowStrings, tests), tests)
    decreases items, 0
  {
    if items.Item? {
      ValueSettles(items.head, allowStrings, tests);
      ItemsSettle(items.tail, allowStrings, tests);
    }
  }

  lemma {:induction false} ChildSettles(kind: KeyClass, v: Json, tests: Tests)
    requires Quiet(tests)
    ensures Settled(RedactChild(kind, v, tests), tests)
    decreases v, 1
  {
    ReplacementsHaveNoControl();
    ValueSettles(v, true, tests);
    ValueSettles(v, false, tests);
  }

  lemma {:induction false} FieldsSettle(fields: Fields, redacted: Fields, tests: Tests)
    requires Quiet(tests) && SettledFields(redacted, tests)
    ensures SettledFields(RedactFields(fields, redacted, tests), tests)
    decreases fields, 0
  {
    if fields.Field? {
      var kind := tests.classOf(fields.key);
      ChildSettles(kind, fields.value, tests);
      SafeKeySettles(fields.key, tests);
      InsertSettles(redacted, SafeKey(fields.key, tests), RedactChild(kind, fields.value, tests), tests);
      FieldsSettle(fields.rest, Insert(redacted, SafeKey(fields.key, tests), RedactChild(kind, fields.value, tests)),
                   tests);
    }
  }

  // ---------- a pass over what one pass leaves ----------

  /** Redaction field by field, each key kept. */
  function EachField(fields: Fields, tests: Tests): Fields {
    if fields.NoField? then NoField
    else Field(fields.key, RedactChild(tests.classOf(fields.key), fields.value, tests), EachField(fields.rest, tests))
  }

  function Append(a: Fields, b: Fields): Fields { if a.NoField? then b else Field(a.key, a.value, Append(a.rest, b)) }

  predicate AllBelow(fields: Fields, key: string) {
    fields.Field? ==> LexLess(fields.key, key) && AllBelow(fields.rest, key)
  }

  lemma {:induction false} InsertLast(fields: Fields, key: string, value: Json)
    requires AllBelow(fields, key)
    ensures Insert(fields, key, value) == Append(fields, Field(key, value, NoField))
    decreases fields
  {
    if fields.Field? {
      LexAsymmetric(fields.key, key);
      InsertLast(fields.rest, key, value);
    }
  }

  lemma {:induction false} AppendBelow(fields: Fields, key: string, value: Json, next: string)
    requires AllBelow(fields, key) && LexLess(key, next)
    ensures AllBelow(Append(fields, Field(key, value, NoField)), next)
    decreases fields
  {
    if fields.Field? {
      LexTransitive(fields.key, key, next);
      AppendBelow(fields.rest, key, value, next);
    }
  }

  lemma {:induction false} AppendAssociates(a: Fields, b: Fields, c: Fields)
    ensures Append(Append(a, b), c) == Append(a, Append(b, c))
  {
    if a.Field? { AppendAssociates(a.rest, b, c); }
  }

  /** Keys in order, none to be replaced; the values may be any. */
  predicate OrderedFields(fields: Fields, tests: Tests)
    decreases fields
  {
    fields.Field? ==>
      && SettledKey(fields.key, tests) && OrderedFields(fields.rest, tests)
      && (fields.rest.Field? ==> LexLess(fields.key, fields.rest.key))
  }

  lemma {:induction false} SettledIsOrdered(fields: Fields, tests: Tests)
    requires SettledFields(fields, tests)
    ensures OrderedFields(fields, tests)
    decreases fields
  {
    if fields.Field? { SettledIsOrdered(fields.rest, tests); }
  }

  /** Over such fields, the pass that builds a new map works field by field. */
  lemma {:induction false} OrderedFieldsStay(fields: Fields, redacted: Fields, tests: Tests)
    requires OrderedFields(fields, tests) && (fields.Field? ==> AllBelow(redacted, fields.key))
    ensures RedactFields(fields, redacted, tests) == Append(redacted, EachField(fields, tests))
    decreases fields
  {
    if fields.NoField? {
      AppendNothing(redacted);
    } else {
      var value := RedactChild(tests.classOf(fields.key), fields.value, tests);
      InsertLast(redacted, fields.key, value);
      if fields.rest.Field? { AppendBelow(redacted, fields.key, value, fields.rest.key); }
      OrderedFieldsStay(fields.rest, Insert(redacted, fields.key, value), tests);
      AppendAssociates(redacted, Field(fields.key, value, NoField), EachField(fields.rest, tests));
    }
  }

  lemma SettledFieldsStay(fields: Fields, redacted: Fields, tests: Tests)
    requires SettledFields(fields, tests) && (fields.Field? ==> AllBelow(redacted, fields.key))
    ensures RedactFields(fields, redacted, tests) == Append(redacted, EachField(fields, tests))
  {
    SettledIsOrdered(fields, tests);
    OrderedFieldsStay(fields, redacted, tests);
  }

  lemma {:induction false} AppendNothing(fields: Fields)
    ensures Append(fields, NoField) == fields
  {
    if fields.Field? { AppendNothing(fields.rest); }
  }

  lemma {:induction false} EachFieldSettles(fields: Fields, tests: Tests)
    requires Quiet(tests) && SettledFields(fields, tests)
    ensures SettledFields(EachField(fields, tests), tests)
    decreases fields
  {
    if fields.Field? {
      ChildSettles(tests.classOf(fields.key), fields.value, tests);
      EachFieldSettles(fields.rest, tests);
    }
  }

  lemma {:induction false} ValueStays(v: Json, allowStrings: bool, tests: Tests)
    requires Quiet(tests) && Settled(v, tests)
    ensures RedactValue(RedactValue(v, allowStrings, tests), allowStrings, tests) == RedactValue(v, allowStrings, tests)
    decreases v, 0
  {
    match v
    case Object(fields) =>
      SettledFieldsStay(fields, NoField, tests);
      EachFieldSettles(fields, tests);
      SettledFieldsStay(EachField(fields, tests), NoField, tests);
      FieldsStay(fields, tests);
    case Array(items) => ItemsStay(items, allowStrings, tests);
    case Str(s) => TextStays(s, tests);
    case _ =>
  }

  lemma TextStays(s: string, tests: Tests)
    requires Quiet(tests) && !HasControl(s)
    ensures RedactText(s, tests) == if tests.sensitive(s) then REDACTED else s
    ensures RedactText(RedactText(s, tests), tests) == RedactText(s, tests)
  {
  }

  lemma {:induction false} ItemsStay(items: Items, allowStrings: bool, tests: Tests)
    requires Quiet(tests) && SettledItems(items, tests)
    ensures RedactItems(RedactItems(items, allowStrings, tests), allowStrings, tests)
            == RedactItems(items, allowStrings, tests)
    decreases items, 0
  {
    if items.Item? {
      ValueStays(items.head, allowStrings, tests);
      ItemsStay(items.tail, allowStrings, tests);
    }
  }

  lemma {:induction false} ChildStays(kind: KeyClass, v: Json, tests: Tests)
    requires Quiet(tests) && Settled(v, tests)
    ensures RedactChild(kind, RedactChild(kind, v, tests), tests) == RedactChild(kind, v, tests)
    decreases v, 1
  {
    ValueStays(v, true, tests);
    ValueStays(v, false, tests);
  }

  lemma {:induction false} FieldsStay(fields: Fields, tests: Tests)
    requires Quiet(tests) && SettledFields(fields, tests)
    ensures EachField(EachField(fields, tests), tests) == EachField(fields, tests)
    decreases fields, 0
  {
    if fields.Field? {
      ChildStays(tests.classOf(fields.key), fields.value, tests);
      FieldsStay(fields.rest, tests);
    }
  }

  /** On every value, the third pass changes nothing that the second left. */
  lemma ThirdPassIsSecond(v: Json, allowStrings: bool, tests: Tests)
    requires Quiet(tests)
    ensures var once := RedactValue(v, allowStrings, tests);
      var twice := RedactValue(once, allowStrings, tests);
      RedactValue(twice, allowStrings, tests) == twice
  {
    ValueSettles(v, allowStrings, tests);
    ValueStays(RedactValue(v, allowStrings, tests), allowStrings, tests);
  }

  // ---------- what two passes leave ----------

  /** No string or key is sensitive or holds a control character; secret and content keys hold the replacement, and so
      does every key that is not safe, if it holds a string. */
  predicate Harmless(v: Json, tests: Tests)
    decreases v
  {
    match v
    case Object(fields) => HarmlessFields(fields, tests)
    case Array(items) => HarmlessItems(items, tests)
    case Str(s) => HarmlessText(s, tests)
    case _ => true
  }

  predicate HarmlessText(s: string, tests: Tests) { !HasControl(s) && !tests.sensitive(s) }

  predicate HarmlessItems(items: Items, tests: Tests)
    decreases items
  {
    items.Item? ==> Harmless(items.head, tests) && HarmlessItems(items.tail, tests)
  }

  predicate HarmlessFields(fields: Fields, tests: Tests)
    decreases fields
  {
    fields.Field? ==>
      && HarmlessText(fields.key, tests) && Harmless(fields.value, tests) && HarmlessFields(fields.rest, tests)
      && (tests.classOf(fields.key).Secret? || tests.classOf(fields.key).Content? ==> fields.value == Str(REDACTED))
      && (!tests.classOf(fields.key).Safe? && fields.value.Str? ==> fields.value == Str(REDACTED))
  }

  lemma {:induction false} SettledBecomesHarmless(v: Json, allowStrings: bool, tests: Tests)
    requires Quiet(tests) && Settled(v, tests)
    ensures Harmless(RedactValue(v, allowStrings, tests), tests)
    decreases v, 0
  {
    match v
    case Object(fields) =>
      SettledFieldsStay(fields, NoField, tests);
      FieldsBecomeHarmless(fields, tests);
    case Array(items) => ItemsBecomeHarmless(items, allowStrings, tests);
    case Str(s) =>
      TextStays(s, tests);
      ReplacementsHaveNoControl();
    case _ =>
  }

  lemma {:induction false} ItemsBecomeHarmless(items: Items, allowStrings: bool, tests: Tests)
    requires Quiet(tests) && SettledItems(items, tests)
    ensures HarmlessItems(RedactItems(items, allowStrings, tests), tests)
    decreases items, 0
  {
    if items.Item? {
      SettledBecomesHarmless(items.head, allowStrings, tests);
      ItemsBecomeHarmless(items.tail, allowStrings, tests);
    }
  }

  lemma {:induction false} FieldsBecomeHarmless(fields: Fields, tests: Tests)
    requires Quiet(tests) && SettledFields(fields, tests)
    ensures HarmlessFields(EachField(fields, tests), tests)
    decreases fields, 0
  {
    if fields.Field? {
      ReplacementsHaveNoControl();
      SettledBecomesHarmless(fields.value, true, tests);
      SettledBecomesHarmless(fields.value, false, tests);
      FieldsBecomeHarmless(fields.rest, tests);
    }
  }

  /** After two passes nothing sensitive is left, in strings or in keys. */
  lemma TwoPassesAreHarmless(v: Json, allowStrings: bool, tests: Tests)
    requires Quiet(tests)
    ensures Harmless(RedactValue(RedactValue(v, allowStrings, tests), allowStrings, tests), tests)
  {
    ValueSettles(v, allowStrings, tests);
    SettledBecomesHarmless(RedactValue(v, allowStrings, tests), allowStrings, tests);
  }

  // ---------- which fields remain ----------

  function Lookup(fields: Fields, key: string): Option<Json> {
    if fields.NoField? then None else if fields.key == key then Some(fields.value) else Lookup(fields.rest, key)
  }

  /** What the last of the fields that go under `key` becomes. */
  function LastFor(fields: Fields, key: string, tests: Tests): Option<Json> {
    if fields.NoField? then None
    else
      var later := LastFor(fields.rest, key, tests);
      if later.Some? then later
      else if SafeKey(fields.key, tests) == key then Some(RedactChild(tests.classOf(fields.key), fields.value, tests))
      else None
  }

  lemma {:induction false} LookupInserted(fields: Fields, key: string, value: Json, k: string)
    ensures Lookup(Insert(fields, key, value), k) == if k == key then Some(value) else Lookup(fields, k)
    decreases fields
  {
    if fields.Field? && fields.key != key && !LexLess(key, fields.key) { LookupInserted(fields.rest, key, value, k); }
  }

  /** A redacted object has a field under each key that some field goes under, and no other; of fields that go under one
      key, the last one stays. */
  lemma {:induction false} LookupRedacted(fields: Fields, redacted: Fields, k: string, tests: Tests)
    ensures Lookup(RedactFields(fields, redacted, tests), k)
      == if LastFor(fields, k, tests).Some? then LastFor(fields, k, tests) else Lookup(redacted, k)
    decreases fields
  {
    if fields.Field? {
      var key, value := SafeKey(fields.key, tests), RedactChild(tests.classOf(fields.key), fields.value, tests);
      LookupInserted(redacted, key, value, k);
      LookupRedacted(fields.rest, Insert(redacted, key, value), k, tests);
    }
  }

  // ---------- the tests themselves ----------

  predicate FewDots(text: string) { forall i, j :: 0 <= i < j < |text| ==> !(text[i] == '.' && text[j] == '.') }

  lemma FewDotsIsNoToken(text: string)
    requires FewDots(text)
    ensures !HasDottedShape(text) && !HasJwtShape(text)
  {
  }

  /** Each marker has a character that neither the replacements nor a timestamp have. */
  predicate RareChar(c: char) { c == ' ' || c == 'g' || c == 'x' || c == 'i' }

  lemma MarkerHasRareChar(i: int) returns (k: int)
    requires 0 <= i < |Markers()|
    ensures 0 <= k < |Markers()[i]| && RareChar(Markers()[i][k])
  {
    k := if i == 0 then 7 else if i == 1 then 2 else if i <= 3 then 6 else if i == 4 then 6 else if i == 5 then 3
         else if i == 13 then 2 else if i == 14 then 3 else 0;
  }

  /** Each term has a letter that no timestamp has. */
  predicate WordChar(c: char) { 'a' <= c <= 'y' && c != 't' }

  lemma SecretTermHasWordChar(i: int) returns (k: int)
    requires 0 <= i < |SecretTerms()|
    ensures 0 <= k < |SecretTerms()[i]| && WordChar(SecretTerms()[i][k])
  {
    k := if i == 4 then 1 else 0;
  }

  lemma AssignmentTermHasWordChar(i: int) returns (k: int)
    requires 0 <= i < |AssignmentTerms()|
    ensures 0 <= k < |AssignmentTerms()[i]| && WordChar(AssignmentTerms()[i][k])
  {
    k := 0;
  }

  lemma NoMarker(text: string)
    requires forall i :: 0 <= i < |text| ==> !RareChar(text[i])
    ensures !ContainsAny(text, Markers())
  {
    var markers := Markers();
    forall i | 0 <= i < |markers| ensures !Contains(text, markers[i]) {
      var k := MarkerHasRareChar(i);
      Lacks(text, markers[i], k);
    }
  }

  lemma NoOccurrenceNoAssignment(text: string, term: string)
    requires term != [] && !Contains(text, term)
    ensures !AssignedFrom(text, term, 0)
  {
  }

  lemma NoWordNoAssignment(text: string)
    requires forall i :: 0 <= i < |text| ==> !WordChar(text[i])
    ensures !AssignedAny(text, SecretTerms()) && !AssignedAny(text, AssignmentTerms())
  {
    var secrets, assignments := SecretTerms(), AssignmentTerms();
    forall i | 0 <= i < |secrets| ensures secrets[i] != [] && !AssignedFrom(text, secrets[i], 0) {
      var k := SecretTermHasWordChar(i);
      Lacks(text, secrets[i], k);
      NoOccurrenceNoAssignment(text, secrets[i]);
    }
    forall i | 0 <= i < |assignments| ensures assignments[i] != [] && !AssignedFrom(text, assignments[i], 0) {
      var k := AssignmentTermHasWordChar(i);
      Lacks(text, assignments[i], k);
      NoOccurrenceNoAssignment(text, assignments[i]);
    }
  }

  lemma {:induction false} NoSignNoAssignment(text: string, term: string, from: nat)
    requires term != [] && forall i :: 0 <= i < |text| ==> text[i] != ':' && text[i] != '=' && text[i] != ' '
    ensures !AssignedFrom(text, term, from)
    decreases |text| - from
  {
    var at := FindFrom(text, term, from);
    if at.Some? { NoSignNoAssignment(text, term, at.value + |term|); }
  }

  /** Text without rare characters, assignments and dots is not sensitive. */
  lemma PlainIsNotSensitive(text: string)
    requires var lower := Lowered(text);
      && FewDots(lower)
      && (forall i :: 0 <= i < |lower| ==> !RareChar(lower[i]))
      && ((forall i :: 0 <= i < |lower| ==> !WordChar(lower[i]))
          || (forall i :: 0 <= i < |lower| ==> lower[i] != ':' && lower[i] != '=' && lower[i] != ' '))
    ensures !ContainsSensitiveText(text)
  {
    var lower := Lowered(text);
    NoMarker(lower);
    FewDotsIsNoToken(lower);
    if forall i :: 0 <= i < |lower| ==> !WordChar(lower[i]) {
      NoWordNoAssignment(lower);
    } else {
      NoSignNoAssignments(lower, SecretTerms());
      NoSignNoAssignments(lower, AssignmentTerms());
    }
  }

  lemma NoSignNoAssignments(text: string, terms: seq<string>)
    requires forall i :: 0 <= i < |text| ==> text[i] != ':' && text[i] != '=' && text[i] != ' '
    ensures !AssignedAny(text, terms)
  {
    forall i | 0 <= i < |terms| && terms[i] != [] ensures !AssignedFrom(text, terms[i], 0) {
      NoSignNoAssignment(text, terms[i], 0);
    }
  }

  lemma ReplacementChars(s: string, i: int)
    requires (s == REDACTED || s == REDACTED_KEY) && 0 <= i < |s|
    ensures var c := Lower(s[i]); c != '.' && c != ':' && c != '=' && !RareChar(c)
  {
  }

  lemma ReplacementIsNotSensitive(s: string)
    requires s == REDACTED || s == REDACTED_KEY
    ensures !ContainsSensitiveText(s)
  {
    var lower := Lowered(s);
    forall i | 0 <= i < |lower| ensures var c := lower[i]; c != '.' && c != ':' && c != '=' && !RareChar(c) {
      ReplacementChars(s, i);
    }
    PlainIsNotSensitive(s);
  }

  lemma TestIsSensitivity(s: string, tests: Tests)
    requires tests == TheTests()
    ensures tests.sensitive(s) == ContainsSensitiveText(s)
  {
  }

  /** The replacements pass the tests, so that redaction settles. */
  lemma TestsAreQuiet(tests: Tests)
    requires tests == TheTests()
    ensures Quiet(tests)
  {
    TestIsSensitivity(REDACTED, tests);
    TestIsSensitivity(REDACTED_KEY, tests);
    ReplacementIsNotSensitive(REDACTED);
    ReplacementIsNotSensitive(REDACTED_KEY);
  }

  /** One pass over a text is enough exactly when neutralising its control characters makes no sensitive text of it. */
  lemma OnePassIsEnough(s: string, tests: Tests)
    requires Quiet(tests)
    ensures RedactText(RedactText(s, tests), tests) == RedactText(s, tests)
      <==> tests.sensitive(s) || !tests.sensitive(Neutralized(s))
  {
  }

  lemma OnePassIsNotAlwaysEnough(s: string, tests: Tests)
    requires s == "bearer\ty" && tests == TheTests()
    ensures RedactText(RedactText(s, tests), tests) != RedactText(s, tests)
  {
    TestsAreQuiet(tests);
    TabbedBearer(s);
    SpacedBearer(Neutralized(s));
    TestIsSensitivity(s, tests);
    TestIsSensitivity(Neutralized(s), tests);
    OnePassIsEnough(s, tests);
  }

  lemma TabbedBearer(s: string)
    requires s == "bearer\ty"
    ensures !ContainsSensitiveText(s) && Neutralized(s) == "bearer y"
  {
    forall i | 0 <= i < |s|
      ensures var c := Lower(s[i]); c != '.' && c != ':' && c != '=' && c != ' ' && !RareChar(c) {
    }
    PlainIsNotSensitive(s);
  }

  lemma SpacedBearer(n: string)
    requires n == "bearer y"
    ensures ContainsSensitiveText(n)
  {
    var lower := Lowered(n);
    assert lower == n;
    assert Markers()[4] == "bearer ";
    assert OccursAt(lower, "bearer ", 0);
  }

  // ---------- events ----------

  datatype Event = Event(
    repositoryId: string, eventId: string, objectType: string, objectId: string, transition: string,
    occurredAt: string, actorKind: string, outcome: string, metadata: Json)

  datatype EventError = InvalidEvent | InvalidTimestamp | InvalidMetadata | RedactionFailed

  predicate IsIdentifierChar(c: char) {
    IsAsciiAlphanumeric(c) || c == '-' || c == '_' || c == '.' || c == '/' || c == ':' || c == '@' || c == '+'
      || c == '#'
  }

  predicate IsSafeIdentifier(s: string, tests: Tests) {
    1 <= |s| <= 512 && (forall i :: 0 <= i < |s| ==> IsIdentifierChar(s[i])) && RedactText(s, tests) == s
  }

  function SafeEnvelopeValue(s: string, tests: Tests): string { if IsSafeIdentifier(s, tests) then s else REDACTED }

  /** An event is made with a redacted copy of its metadata; no metadata is an empty object. */
  function WithMetadata(e: Event, tests: Tests): Event {
    e.(metadata := if e.metadata.Null? then Object(NoField) else RedactMetadata(e.metadata, tests))
  }

  function Validate(e: Event, tests: Tests): Option<EventError> {
    if !(IsSafeIdentifier(e.repositoryId, tests) && IsSafeIdentifier(e.eventId, tests)
         && IsSafeIdentifier(e.objectType, tests)
         && IsSafeIdentifier(e.objectId, tests) && IsSafeIdentifier(e.transition, tests)
         && IsSafeIdentifier(e.actorKind, tests) && IsSafeIdentifier(e.outcome, tests))
    then Some(InvalidEvent)
    else if !Timestamps.IsUtcTimestamp(e.occurredAt) then Some(InvalidTimestamp)
    else if !e.metadata.Object? then Some(InvalidMetadata)
    else None
  }

  function RedactedEvent(e: Event, tests: Tests): Event {
    Event(SafeEnvelopeValue(e.repositoryId, tests), SafeEnvelopeValue(e.eventId, tests),
          SafeEnvelopeValue(e.objectType, tests), SafeEnvelopeValue(e.objectId, tests),
          SafeEnvelopeValue(e.transition, tests), SafeEnvelopeValue(e.occurredAt, tests),
          SafeEnvelopeValue(e.actorKind, tests), SafeEnvelopeValue(e.outcome, tests), RedactMetadata(e.metadata, tests))
  }

  /** The row written to the log. */
  function ToStateInput(e: Event, tests: Tests): Result<Event, EventError> {
    if Validate(e, tests).Some? then Failure(Validate(e, tests).value)
    else
      var safe := RedactedEvent(e, tests);
      var metadata := RedactMetadata(safe.metadata, tests);
      if metadata.Object? then Success(safe.(metadata := metadata)) else Failure(RedactionFailed)
  }

  function FromStateInput(row: Event, tests: Tests): Result<Event, EventError> {
    var e := WithMetadata(row, tests);
    if Validate(e, tests).Some? then Failure(Validate(e, tests).value) else Success(e)
  }

  /** What a query returns for a row. */
  function ReadBack(row: Event, tests: Tests): Result<Event, EventError> {
    match FromStateInput(row, tests)
    case Failure(error) => Failure(error)
    case Success(e) => Success(RedactedEvent(e, tests))
  }

  lemma TimestampChars(v: string, i: int)
    requires Timestamps.IsUtcTimestamp(v) && 0 <= i < |v|
    ensures IsDigit(v[i]) || v[i] == '-' || v[i] == ':' || v[i] == 'T' || v[i] == 'Z' || (i == 19 && v[i] == '.')
  {
  }

  /** A timestamp is never taken for something secret. */
  lemma TimestampIsSafe(v: string)
    requires Timestamps.IsUtcTimestamp(v)
    ensures !ContainsSensitiveText(v) && !HasControl(v) && |v| <= 64
            && forall i :: 0 <= i < |v| ==> IsIdentifierChar(v[i])
  {
    var lower := Lowered(v);
    forall i | 0 <= i < |v|
      ensures IsIdentifierChar(v[i]) && !IsControl(v[i]) && !RareChar(lower[i]) && !WordChar(lower[i])
              && (lower[i] == '.' ==> i == 19)
    {
      TimestampChars(v, i);
    }
    PlainIsNotSensitive(v);
  }

  lemma PlainIdentifier(s: string, tests: Tests)
    requires !tests.sensitive(s) && !HasControl(s) && 1 <= |s| <= 512
             && forall i :: 0 <= i < |s| ==> IsIdentifierChar(s[i])
    ensures IsSafeIdentifier(s, tests)
  {
  }

  /** What the log stores is the caller's envelope unchanged and the metadata after two passes; reading it back, which
      passes it twice more, changes nothing. */
  lemma StoredIsRead(e: Event, tests: Tests)
    requires tests == TheTests() && ToStateInput(WithMetadata(e, tests), tests).Success?
    ensures var row := ToStateInput(WithMetadata(e, tests), tests).value;
      ReadBack(row, tests) == Success(row) && IsStored(e, row, tests)
  {
    TestsAreQuiet(tests);
    TimestampIsSafe(e.occurredAt);
    TestIsSensitivity(e.occurredAt, tests);
    PlainIdentifier(e.occurredAt, tests);
    StoredByTests(e, tests);
    ReadByTests(ToStateInput(WithMetadata(e, tests), tests).value, tests);
  }

  predicate IsStored(e: Event, row: Event, tests: Tests) {
    && row == e.(metadata := row.metadata)
    && row.metadata == (if e.metadata.Null? then Object(NoField)
                        else RedactMetadata(RedactMetadata(e.metadata, tests), tests))
    && Harmless(row.metadata, tests)
  }

  predicate ValidRow(row: Event, tests: Tests) {
    Validate(row, tests) == None && IsSafeIdentifier(row.occurredAt, tests)
      && RedactMetadata(row.metadata, tests) == row.metadata
  }

  lemma StoredByTests(e: Event, tests: Tests)
    requires Quiet(tests) && IsSafeIdentifier(e.occurredAt, tests)
             && ToStateInput(WithMetadata(e, tests), tests).Success?
    ensures var row := ToStateInput(WithMetadata(e, tests), tests).value;
            IsStored(e, row, tests) && ValidRow(row, tests)
  {
    var m := WithMetadata(e, tests).metadata;
    ThirdPass(e.metadata, tests);
    if e.metadata.Null? {
      assert RedactMetadata(m, tests) == m;
    } else {
      TwoPassesAreHarmless(e.metadata, false, tests);
      MetadataIsAValue(e.metadata, tests);
      MetadataIsAValue(RedactMetadata(e.metadata, tests), tests);
    }
  }

  lemma ReadByTests(row: Event, tests: Tests)
    requires ValidRow(row, tests)
    ensures ReadBack(row, tests) == Success(row)
  {
  }

  lemma ThirdPass(v: Json, tests: Tests)
    requires Quiet(tests)
    ensures var twice := RedactMetadata(RedactMetadata(v, tests), tests); RedactMetadata(twice, tests) == twice
  {
    ThirdPassIsSecond(v, false, tests);
    MetadataIsAValue(v, tests);
    MetadataIsAValue(RedactMetadata(v, tests), tests);
    MetadataIsAValue(RedactMetadata(RedactMetadata(v, tests), tests), tests);
  }
}
