/** The metadata of claims and outcomes on its way through the audit log: what the delivery crate writes as an object
    with twenty-two named fields, what redaction leaves of it, and what is read back when the attempt is loaded. */
module AttemptLog {
  import opened Wrappers
  import opened Text
  import opened Delivery
  import opened MetadataFields
  import Redaction
  import Spelled = MetadataNames
  import Timestamps

  type Fields = Redaction.Fields
  type Json = Redaction.Json
  type Tests = Redaction.Tests

  /** Facts about a claim that are written but never read back. */
  datatype Facts = Facts(alias: string, metadataHash: string, exactTextHash: string, policyBasisHash: string,
                         previewHash: string)

  // ---------- what is written ----------

  function KindOf(a: Authority): string { if a.HumanApproval? then "human-approval" else "activated-policy" }

  function IdOf(a: Authority): string { if a.HumanApproval? then a.approvalId else a.activationId }

  function HashOf(a: Authority): string { if a.HumanApproval? then a.approvalHash else a.activationHash }

  function ExpiryOf(a: Authority): Json {
    if a.HumanApproval? then Redaction.Json.Number(a.expiresAt) else Redaction.Null
  }

  function ConfigOf(a: Authority): string { if a.HumanApproval? then "" else a.configHash }

  function TupleOf(a: Authority): string { if a.HumanApproval? then "" else a.tupleHash }

  function AttemptPairs(m: Metadata, facts: Facts): seq<(string, Json)> {
    [("attempt_number", Redaction.Json.Number(m.number)),
     ("nonce_hash", Redaction.Str(m.requestNonce)),
     ("content_nonce_hash", Redaction.Str(m.contentNonce)),
     ("updated_at", Optional(m.completedAt)),
     ("code", Optional(m.code)),
     ("remote_message_id", Optional(m.messageId)),
     ("revision_hash", Redaction.Str(m.binding.revisionHash)),
     ("config_hash", Redaction.Str(m.binding.configHash)),
     ("destination_hash", Redaction.Str(m.binding.destinationHash)),
     ("destination_alias", Redaction.Str(facts.alias)),
     ("resolved_destination_hash", Redaction.Str(m.binding.destinationHash)),
     ("metadata_hash", Redaction.Str(facts.metadataHash)),
     ("exact_text_hash", Redaction.Str(facts.exactTextHash)),
     ("scan_hash", Redaction.Str(m.binding.scanHash)),
     ("policy_basis_hash", Redaction.Str(facts.policyBasisHash)),
     ("approval_preview_hash", Redaction.Str(facts.previewHash)),
     ("kind", Redaction.Str(KindOf(m.binding.authority))),
     ("authority_id", Redaction.Str(IdOf(m.binding.authority))),
     ("authority_hash", Redaction.Str(HashOf(m.binding.authority))),
     ("authority_expiry", ExpiryOf(m.binding.authority)),
     ("authority_config_hash", Redaction.Str(ConfigOf(m.binding.authority))),
     ("authority_tuple_hash", Redaction.Str(TupleOf(m.binding.authority)))]
  }

  function Written(m: Metadata, facts: Facts): Json { Redaction.Object(ObjectOf(AttemptPairs(m, facts))) }

  /** What the log holds of it. */
  function InLog(v: Json, tests: Tests): Json { Redaction.RedactMetadata(Redaction.RedactMetadata(v, tests), tests) }

  // ---------- what is read ----------

  /** The authority of a claim; the activation time of a policy is looked up by the id that was read. */
  function ReadAuthority(f: Fields, activations: map<string, string>): Option<Authority> {
    var kind, id, hash := ReadText(f, "kind"), ReadText(f, "authority_id"), ReadText(f, "authority_hash");
    var config, tuple := ReadText(f, "authority_config_hash"), ReadText(f, "authority_tuple_hash");
    if kind.None? || id.None? || hash.None? then None
    else if kind.value == "human-approval" then
      var expiry := ReadNumber(f, "authority_expiry");
      if expiry.None? then None else Some(HumanApproval(id.value, hash.value, expiry.value))
    else if kind.value == "activated-policy" then
      if id.value !in activations || config.None? || tuple.None? then None
      else Some(ActivatedPolicy(id.value, hash.value, config.value, tuple.value, activations[id.value]))
    else None
  }

  /** An authority is read exactly from the fields that hold it, under its kind; an activation only if it is found. */
  lemma AuthorityExactlyIf(f: Fields, activations: map<string, string>, a: Authority)
    ensures ReadAuthority(f, activations) == Some(a)
      <==> match a
           case HumanApproval(id, hash, expiry) =>
             && ReadText(f, "kind") == Some("human-approval") && ReadText(f, "authority_id") == Some(id)
             && ReadText(f, "authority_hash") == Some(hash) && ReadNumber(f, "authority_expiry") == Some(expiry)
           case ActivatedPolicy(id, hash, config, tuple, at) =>
             && ReadText(f, "kind") == Some("activated-policy") && ReadText(f, "authority_id") == Some(id)
             && ReadText(f, "authority_hash") == Some(hash) && ReadText(f, "authority_config_hash") == Some(config)
             && ReadText(f, "authority_tuple_hash") == Some(tuple) && id in activations && activations[id] == at
  {
    assert "human-approval"[0] != "activated-policy"[0];
  }

  function ReadMetadata(v: Json, activations: map<string, string>): Option<Metadata> {
    if !v.Object? then None
    else
      var f := v.fields;
      var number, nonce, content :=
        ReadNumber(f, "attempt_number"), ReadText(f, "nonce_hash"), ReadText(f, "content_nonce_hash");
      var completed, code, message :=
        ReadOptional(f, "updated_at"), ReadOptional(f, "code"), ReadOptional(f, "remote_message_id");
      var revision, config := ReadText(f, "revision_hash"), ReadText(f, "config_hash");
      var destination, scan := ReadText(f, "destination_hash"), ReadText(f, "scan_hash");
      var authority := ReadAuthority(f, activations);
      if number.None? || nonce.None? || content.None? || completed.None? || code.None? || message.None? then None
      else if revision.None? || config.None? || destination.None? || scan.None? || authority.None? then None
      else
        Some(Metadata(number.value, nonce.value, content.value, completed.value, code.value, message.value,
                      Binding(revision.value, config.value, destination.value, scan.value, authority.value)))
  }

  // ---------- field by field ----------

  function LogOption(value: Option<string>, tests: Tests): Option<string> {
    if value.Some? then Some(LogText(value.value, tests)) else None
  }

  lemma NamesDiffer(m: Metadata, facts: Facts)
    ensures DistinctNames(AttemptPairs(m, facts))
  {
  }

  lemma AttemptNamed(m: Metadata, facts: Facts, names: Names)
    requires Complete(names)
    ensures forall i :: 0 <= i < 3 ==> WellNamed(AttemptPairs(m, facts)[i], names)
  {
    Spelled.AttemptNumber(names);
    Spelled.NonceHash(names);
    Spelled.ContentNonceHash(names);
  }

  predicate HasAttempt(f: Fields, m: Metadata, tests: Tests) {
    && ReadNumber(f, "attempt_number") == Some(m.number)
    && ReadText(f, "nonce_hash") == Some(LogText(m.requestNonce, tests))
    && ReadText(f, "content_nonce_hash") == Some(LogText(m.contentNonce, tests))
  }

  lemma AttemptRead(f: Fields, m: Metadata, facts: Facts, tests: Tests)
    requires HasFields(f, LogPairs(AttemptPairs(m, facts), tests))
    ensures HasAttempt(f, m, tests)
  {
    var pairs := LogPairs(AttemptPairs(m, facts), tests);
    FieldIs(f, pairs, 0, "attempt_number", LogValue(Redaction.Json.Number(m.number), tests));
    FieldIs(f, pairs, 1, "nonce_hash", LogValue(Redaction.Str(m.requestNonce), tests));
    FieldIs(f, pairs, 2, "content_nonce_hash", LogValue(Redaction.Str(m.contentNonce), tests));
  }

  lemma OutcomeNamed(m: Metadata, facts: Facts, names: Names)
    requires Complete(names)
    ensures forall i :: 3 <= i < 6 ==> WellNamed(AttemptPairs(m, facts)[i], names)
  {
    Spelled.UpdatedAt(names);
    Spelled.Code(names);
    Spelled.RemoteMessageId(names);
  }

  predicate HasOutcome(f: Fields, m: Metadata, tests: Tests) {
    && ReadOptional(f, "updated_at") == Some(LogOption(m.completedAt, tests))
    && ReadOptional(f, "code") == Some(LogOption(m.code, tests))
    && ReadOptional(f, "remote_message_id") == Some(LogOption(m.messageId, tests))
  }

  lemma OutcomeRead(f: Fields, m: Metadata, facts: Facts, tests: Tests)
    requires HasFields(f, LogPairs(AttemptPairs(m, facts), tests))
    ensures HasOutcome(f, m, tests)
  {
    var pairs := LogPairs(AttemptPairs(m, facts), tests);
    FieldIs(f, pairs, 3, "updated_at", LogValue(Optional(m.completedAt), tests));
    FieldIs(f, pairs, 4, "code", LogValue(Optional(m.code), tests));
    FieldIs(f, pairs, 5, "remote_message_id", LogValue(Optional(m.messageId), tests));
  }

  lemma RevisionNamed(m: Metadata, facts: Facts, names: Names)
    requires Complete(names)
    ensures forall i :: 6 <= i < 8 ==> WellNamed(AttemptPairs(m, facts)[i], names)
  {
    Spelled.RevisionHash(names);
    Spelled.ConfigHash(names);
  }

  predicate HasRevision(f: Fields, m: Metadata, tests: Tests) {
    && ReadText(f, "revision_hash") == Some(LogText(m.binding.revisionHash, tests))
    && ReadText(f, "config_hash") == Some(LogText(m.binding.configHash, tests))
  }

  lemma RevisionRead(f: Fields, m: Metadata, facts: Facts, tests: Tests)
    requires HasFields(f, LogPairs(AttemptPairs(m, facts), tests))
    ensures HasRevision(f, m, tests)
  {
    var pairs := LogPairs(AttemptPairs(m, facts), tests);
    FieldIs(f, pairs, 6, "revision_hash", LogValue(Redaction.Str(m.binding.revisionHash), tests));
    FieldIs(f, pairs, 7, "config_hash", LogValue(Redaction.Str(m.binding.configHash), tests));
  }

  lemma DestinationNamed(m: Metadata, facts: Facts, names: Names)
    requires Complete(names)
    ensures forall i :: 8 <= i < 12 ==> WellNamed(AttemptPairs(m, facts)[i], names)
  {
    Spelled.DestinationHash(names);
    Spelled.DestinationAlias(names);
    Spelled.ResolvedDestinationHash(names);
    Spelled.MetadataHash(names);
  }

  predicate HasDestination(f: Fields, m: Metadata, tests: Tests) {
    && ReadText(f, "destination_hash") == Some(LogText(m.binding.destinationHash, tests))
  }

  lemma DestinationRead(f: Fields, m: Metadata, facts: Facts, tests: Tests)
    requires HasFields(f, LogPairs(AttemptPairs(m, facts), tests))
    ensures HasDestination(f, m, tests)
  {
    var pairs := LogPairs(AttemptPairs(m, facts), tests);
    FieldIs(f, pairs, 8, "destination_hash", LogValue(Redaction.Str(m.binding.destinationHash), tests));
  }

  lemma ContentNamed(m: Metadata, facts: Facts, names: Names)
    requires Complete(names)
    ensures forall i :: 12 <= i < 16 ==> WellNamed(AttemptPairs(m, facts)[i], names)
  {
    Spelled.ExactTextHash(names);
    Spelled.ScanHash(names);
    Spelled.PolicyBasisHash(names);
    Spelled.ApprovalPreviewHash(names);
  }

  predicate HasContent(f: Fields, m: Metadata, tests: Tests) {
    && ReadText(f, "scan_hash") == Some(LogText(m.binding.scanHash, tests))
  }

  lemma ContentRead(f: Fields, m: Metadata, facts: Facts, tests: Tests)
    requires HasFields(f, LogPairs(AttemptPairs(m, facts), tests))
    ensures HasContent(f, m, tests)
  {
    var pairs := LogPairs(AttemptPairs(m, facts), tests);
    FieldIs(f, pairs, 13, "scan_hash", LogValue(Redaction.Str(m.binding.scanHash), tests));
  }

  lemma AuthorityNamed(m: Metadata, facts: Facts, names: Names)
    requires Complete(names)
    ensures forall i :: 16 <= i < 19 ==> WellNamed(AttemptPairs(m, facts)[i], names)
  {
    Spelled.Kind(names);
    Spelled.AuthorityId(names);
    Spelled.AuthorityHash(names);
  }

  predicate HasAuthority(f: Fields, m: Metadata, tests: Tests) {
    && ReadText(f, "kind") == Some(LogText(KindOf(m.binding.authority), tests))
    && ReadText(f, "authority_id") == Some(LogText(IdOf(m.binding.authority), tests))
    && ReadText(f, "authority_hash") == Some(LogText(HashOf(m.binding.authority), tests))
  }

  lemma AuthorityRead(f: Fields, m: Metadata, facts: Facts, tests: Tests)
    requires HasFields(f, LogPairs(AttemptPairs(m, facts), tests))
    ensures HasAuthority(f, m, tests)
  {
    var pairs := LogPairs(AttemptPairs(m, facts), tests);
    FieldIs(f, pairs, 16, "kind", LogValue(Redaction.Str(KindOf(m.binding.authority)), tests));
    FieldIs(f, pairs, 17, "authority_id", LogValue(Redaction.Str(IdOf(m.binding.authority)), tests));
    FieldIs(f, pairs, 18, "authority_hash", LogValue(Redaction.Str(HashOf(m.binding.authority)), tests));
  }

  lemma EvidenceNamed(m: Metadata, facts: Facts, names: Names)
    requires Complete(names)
    ensures forall i :: 19 <= i < 22 ==> WellNamed(AttemptPairs(m, facts)[i], names)
  {
    Spelled.AuthorityExpiry(names);
    Spelled.AuthorityConfigHash(names);
    Spelled.AuthorityTupleHash(names);
  }

  predicate HasEvidence(f: Fields, m: Metadata, tests: Tests) {
    && Redaction.Lookup(f, "authority_expiry") == Some(ExpiryOf(m.binding.authority))
    && ReadText(f, "authority_config_hash") == Some(LogText(ConfigOf(m.binding.authority), tests))
    && ReadText(f, "authority_tuple_hash") == Some(LogText(TupleOf(m.binding.authority), tests))
  }

  lemma EvidenceRead(f: Fields, m: Metadata, facts: Facts, tests: Tests)
    requires HasFields(f, LogPairs(AttemptPairs(m, facts), tests))
    ensures HasEvidence(f, m, tests)
  {
    var pairs := LogPairs(AttemptPairs(m, facts), tests);
    FieldIs(f, pairs, 19, "authority_expiry", LogValue(ExpiryOf(m.binding.authority), tests));
    FieldIs(f, pairs, 20, "authority_config_hash", LogValue(Redaction.Str(ConfigOf(m.binding.authority)), tests));
    FieldIs(f, pairs, 21, "authority_tuple_hash", LogValue(Redaction.Str(TupleOf(m.binding.authority)), tests));
  }

  lemma AllNamed(m: Metadata, facts: Facts, names: Names)
    requires Complete(names)
    ensures forall i :: 0 <= i < |AttemptPairs(m, facts)| ==>
              WellNamed(AttemptPairs(m, facts)[i], names) && Flat(AttemptPairs(m, facts)[i].1)
  {
    AttemptNamed(m, facts, names);
    OutcomeNamed(m, facts, names);
    RevisionNamed(m, facts, names);
    DestinationNamed(m, facts, names);
    ContentNamed(m, facts, names);
    AuthorityNamed(m, facts, names);
    EvidenceNamed(m, facts, names);
  }

  predicate HasAll(f: Fields, m: Metadata, tests: Tests) {
    && HasAttempt(f, m, tests) && HasOutcome(f, m, tests) && HasRevision(f, m, tests) && HasDestination(f, m, tests)
    && HasContent(f, m, tests) && HasAuthority(f, m, tests) && HasEvidence(f, m, tests)
  }

  /** Every field is in the log under its name, its text redacted twice. */
  lemma AllRead(m: Metadata, facts: Facts, tests: Tests) returns (f: Fields)
    requires tests == Redaction.TheTests()
    ensures InLog(Written(m, facts), tests) == Redaction.Object(f) && HasAll(f, m, tests)
  {
    TestsKeepNames(tests);
    var names, pairs := NamesKept(tests), AttemptPairs(m, facts);
    AllNamed(m, facts, names);
    TwoPasses(pairs, names, tests);
    var logged := LogPairs(pairs, tests);
    NamesDiffer(m, facts);
    assert DistinctNames(logged) by {
      forall i, j | 0 <= i < j < |logged| ensures logged[i].0 != logged[j].0 { assert pairs[i].0 != pairs[j].0; }
    }
    BuiltHasFields(logged);
    f := ObjectOf(logged);
    ReadParts(f, m, facts, tests);
  }

  lemma ReadParts(f: Fields, m: Metadata, facts: Facts, tests: Tests)
    requires HasFields(f, LogPairs(AttemptPairs(m, facts), tests))
    ensures HasAll(f, m, tests)
  {
    AttemptRead(f, m, facts, tests);
    OutcomeRead(f, m, facts, tests);
    RevisionRead(f, m, facts, tests);
    DestinationRead(f, m, facts, tests);
    ContentRead(f, m, facts, tests);
    AuthorityRead(f, m, facts, tests);
    EvidenceRead(f, m, facts, tests);
  }

  // ---------- what comes back ----------

  /** A claim as the coordinator makes it after its own checks: nonces and hashes of the right form, and an approval id
      derived from a hash. The id of a policy activation may be any. */
  predicate Regular(m: Metadata) {
    && m.number > 0 && IsHash(m.contentNonce)
    && m.requestNonce == (if m.number == 1 then m.contentNonce else RetryNonce(m.contentNonce, m.number))
    && IsHash(m.binding.revisionHash) && IsHash(m.binding.configHash) && IsHash(m.binding.destinationHash)
    && IsHash(m.binding.scanHash) && IsHash(HashOf(m.binding.authority))
    && match m.binding.authority
       case HumanApproval(approvalId, _, _) => "approval-" <= approvalId && IsHash(approvalId[9..])
       case ActivatedPolicy(_, _, config, tuple, _) => IsHash(config) && IsHash(tuple)
  }

  /** Texts that redaction leaves alone, twice over. */
  ghost predicate Stays(s: string, tests: Tests) { LogText(s, tests) == s }

  lemma CalmStays(s: string, tests: Tests)
    requires Calm(s) && KeepsCalm(tests)
    ensures Stays(s, tests)
  {
  }

  lemma {:induction false} DecimalIsCalm(n: nat)
    ensures Calm(Decimal(n))
  {
  }

  lemma NonceIsCalm(m: Metadata)
    requires Regular(m)
    ensures Calm(m.requestNonce)
  {
    HashIsCalm(m.contentNonce);
    if m.number != 1 {
      DecimalIsCalm(m.number);
      assert Calm("-attempt-");
      CalmConcat(m.contentNonce, "-attempt-");
      CalmConcat(m.contentNonce + "-attempt-", Decimal(m.number));
    }
  }

  lemma HashStays(s: string, tests: Tests)
    requires IsHash(s) && KeepsCalm(tests)
    ensures Stays(s, tests)
  {
    HashIsCalm(s);
    CalmStays(s, tests);
  }

  lemma ClaimTextsStay(m: Metadata, tests: Tests)
    requires Regular(m) && KeepsCalm(tests)
    ensures Stays(m.requestNonce, tests) && Stays(m.contentNonce, tests)
    ensures Stays(m.binding.revisionHash, tests) && Stays(m.binding.configHash, tests)
    ensures Stays(m.binding.destinationHash, tests) && Stays(m.binding.scanHash, tests)
  {
    NonceIsCalm(m);
    CalmStays(m.requestNonce, tests);
    HashStays(m.contentNonce, tests);
    HashStays(m.binding.revisionHash, tests);
    HashStays(m.binding.configHash, tests);
    HashStays(m.binding.destinationHash, tests);
    HashStays(m.binding.scanHash, tests);
  }

  lemma ApprovalIdStays(approvalId: string, tests: Tests)
    requires "approval-" <= approvalId && IsHash(approvalId[9..]) && KeepsCalm(tests)
    ensures Stays(approvalId, tests)
  {
    assert Calm("approval-");
    PrefixedIsCalm("approval-", approvalId[9..]);
    assert approvalId == "approval-" + approvalId[9..];
    CalmStays(approvalId, tests);
  }

  lemma KindStays(a: Authority, tests: Tests)
    requires KeepsCalm(tests)
    ensures Stays(KindOf(a), tests) && Stays("", tests)
  {
    assert Calm("human-approval") && Calm("activated-policy") && Calm("");
    CalmStays(KindOf(a), tests);
    CalmStays("", tests);
  }

  lemma AuthorityTextsStay(m: Metadata, tests: Tests)
    requires Regular(m) && KeepsCalm(tests)
    ensures var a := m.binding.authority;
      && Stays(KindOf(a), tests) && Stays(HashOf(a), tests) && Stays(ConfigOf(a), tests) && Stays(TupleOf(a), tests)
      && (a.HumanApproval? ==> Stays(a.approvalId, tests))
  {
    var a := m.binding.authority;
    KindStays(a, tests);
    HashStays(HashOf(a), tests);
    if a.HumanApproval? {
      ApprovalIdStays(a.approvalId, tests);
    } else {
      HashStays(a.configHash, tests);
      HashStays(a.tupleHash, tests);
    }
  }

  lemma TimeStays(s: string, tests: Tests)
    requires Timestamps.IsUtcTimestamp(s) && tests == Redaction.TheTests()
    ensures Stays(s, tests)
  {
    Redaction.TimestampIsSafe(s);
    Redaction.TestIsSensitivity(s, tests);
    assert Redaction.Neutralized(s) == s;
  }

  /** The authority that is read back: a policy under the id redaction leaves, if there is one of that id. */
  function AuthorityBack(a: Authority, activations: map<string, string>, tests: Tests): Option<Authority> {
    match a
    case HumanApproval(_, _, _) => Some(a)
    case ActivatedPolicy(id, hash, config, tuple, _) =>
      var read := LogText(id, tests);
      if read in activations then Some(ActivatedPolicy(read, hash, config, tuple, activations[read])) else None
  }

  /** The metadata that is read back: error code and message id redacted, everything else as written. */
  function MetadataBack(m: Metadata, activations: map<string, string>, tests: Tests): Option<Metadata> {
    var authority := AuthorityBack(m.binding.authority, activations, tests);
    if authority.None? then None
    else Some(m.(code := LogOption(m.code, tests), messageId := LogOption(m.messageId, tests),
                 binding := m.binding.(authority := authority.value)))
  }

  lemma AuthorityComesBack(f: Fields, m: Metadata, activations: map<string, string>, tests: Tests)
    requires Regular(m) && KeepsCalm(tests) && HasAuthority(f, m, tests) && HasEvidence(f, m, tests)
    ensures ReadAuthority(f, activations) == AuthorityBack(m.binding.authority, activations, tests)
  {
    AuthorityTextsStay(m, tests);
  }

  lemma FieldsComeBack(f: Fields, m: Metadata, activations: map<string, string>, tests: Tests)
    requires Regular(m) && KeepsCalm(tests) && HasAll(f, m, tests) && LogOption(m.completedAt, tests) == m.completedAt
    ensures ReadMetadata(Redaction.Object(f), activations) == MetadataBack(m, activations, tests)
  {
    ClaimTextsStay(m, tests);
    AuthorityComesBack(f, m, activations, tests);
  }

  /** Whatever the coordinator writes about a claim or an outcome, what is read back from the log is the same, but for
      an error code and a message id that redaction changes; and for a claim under a policy it can be read at all
      exactly if there is an activation under the id that redaction leaves. */
  lemma AttemptComesBack(m: Metadata, facts: Facts, activations: map<string, string>, tests: Tests)
    requires tests == Redaction.TheTests() && Regular(m)
    requires m.completedAt.Some? ==> Timestamps.IsUtcTimestamp(m.completedAt.value)
    ensures ReadMetadata(InLog(Written(m, facts), tests), activations) == MetadataBack(m, activations, tests)
  {
    var f := AllRead(m, facts, tests);
    TestsKeepCalm(tests);
    if m.completedAt.Some? { TimeStays(m.completedAt.value, tests); }
    FieldsComeBack(f, m, activations, tests);
  }

  // ---------- the delivery model on this log ----------

  /** The audit log as the delivery model sees it, for any hash that names events. */
  function LogBoundary(eventId: Material -> string): Boundary {
    Boundary(eventId, s => LogText(s, Redaction.TheTests()), s => Redaction.IsSafeIdentifier(s, Redaction.TheTests()),
             s => Timestamps.IsUtcTimestamp(s))
  }

  /** The activation a claim names is found again. */
  predicate Found(a: Authority, activations: map<string, string>, tests: Tests) {
    a.ActivatedPolicy? ==>
      LogText(a.activationId, tests) == a.activationId && a.activationId in activations
      && activations[a.activationId] == a.activatedAt
  }

  lemma BackIsSame(m: Metadata, activations: map<string, string>, tests: Tests)
    requires m.code.None? && m.messageId.None?
    ensures MetadataBack(m, activations, tests) == Some(m) <==> Found(m.binding.authority, activations, tests)
  {
  }

  /** The metadata of a claim is read back as the model has it, exactly if its activation is found again. */
  lemma ClaimComesBack(m: Metadata, facts: Facts, activations: map<string, string>, tests: Tests)
    requires tests == Redaction.TheTests() && Regular(m) && m.completedAt.None? && m.code.None? && m.messageId.None?
    ensures ReadMetadata(InLog(Written(m, facts), tests), activations) == Some(m)
      <==> Found(m.binding.authority, activations, tests)
  {
    AttemptComesBack(m, facts, activations, tests);
    BackIsSame(m, activations, tests);
  }

  lemma BoundaryRedacts(eventId: Material -> string, value: Option<string>, tests: Tests)
    requires tests == Redaction.TheTests()
    ensures RedactOption(LogBoundary(eventId), value) == LogOption(value, tests)
  {
  }

  lemma OutcomeIs(b: Boundary, q: TransitionRequest, claim: Metadata, activations: map<string, string>, tests: Tests)
    requires RedactOption(b, q.errorCode) == LogOption(q.errorCode, tests)
    requires RedactOption(b, q.messageId) == LogOption(q.messageId, tests)
    requires Found(claim.binding.authority, activations, tests)
    ensures var raw := claim.(completedAt := Some(q.completedAt), code := q.errorCode, messageId := q.messageId);
      MetadataBack(raw, activations, tests) == Some(OutcomeEvent(b, q, claim).metadata)
  {
  }

  /** The metadata of an outcome event of the model is what is read back of what `record_transition` writes. */
  lemma OutcomeComesBack(eventId: Material -> string, q: TransitionRequest, claim: Metadata, facts: Facts,
                         activations: map<string, string>, tests: Tests)
    requires tests == Redaction.TheTests() && Regular(claim) && Found(claim.binding.authority, activations, tests)
    requires Timestamps.IsUtcTimestamp(q.completedAt)
    ensures var raw := claim.(completedAt := Some(q.completedAt), code := q.errorCode, messageId := q.messageId);
      ReadMetadata(InLog(Written(raw, facts), tests), activations)
      == Some(OutcomeEvent(LogBoundary(eventId), q, claim).metadata)
  {
    var raw := claim.(completedAt := Some(q.completedAt), code := q.errorCode, messageId := q.messageId);
    AttemptComesBack(raw, facts, activations, tests);
    BoundaryRedacts(eventId, q.errorCode, tests);
    BoundaryRedacts(eventId, q.messageId, tests);
    OutcomeIs(LogBoundary(eventId), q, claim, activations, tests);
  }

  // ---------- texts that redaction changes ----------

  lemma TokenIsSensitive(s: string, tests: Tests)
    requires s == "token:1" && tests == Redaction.TheTests()
    ensures LogText(s, tests) == Redaction.REDACTED
  {
    var lower, term := Redaction.Lowered(s), "token";
    assert lower == s;
    assert OccursAt(lower, term, 0);
    assert Redaction.AssignsAt(lower, 5);
    assert Redaction.AssignedFrom(lower, term, 0);
    assert Redaction.SecretTerms()[4] == term;
    Redaction.TestIsSensitivity(s, tests);
    Redaction.TestsAreQuiet(tests);
    assert Redaction.RedactText(s, tests) == Redaction.REDACTED;
    Redaction.ReplacementsHaveNoControl();
    assert Redaction.Neutralized(Redaction.REDACTED) == Redaction.REDACTED;
  }

  lemma TokenIsACode(s: string)
    requires s == "token:1"
    ensures ValidErrorCode(s) && s != Redaction.REDACTED
  {
    BytesBounded(s);
    assert |s| == 7;
    forall i | 0 <= i < |s| ensures !IsControl(s[i]) && (IsAsciiAlphanumeric(s[i]) || s[i] in "._:-") {
      if i == 5 { assert s[i] == "._:-"[2]; }
    }
  }

  /** An error code that `record_transition` accepts and the log does not keep. */
  lemma CodeCanChange(code: string, tests: Tests)
    requires code == "token:1" && tests == Redaction.TheTests()
    ensures ValidErrorCode(code) && LogText(code, tests) != code
  {
    TokenIsSensitive(code, tests);
    TokenIsACode(code);
  }

  lemma LostWithoutActivation(m: Metadata, activations: map<string, string>, tests: Tests)
    requires m.binding.authority.ActivatedPolicy? && LogText(m.binding.authority.activationId, tests) !in activations
    ensures MetadataBack(m, activations, tests) == None
  {
  }

  /** An activation id that activation accepts and the log does not keep: unless an activation is called by the
      replacement, a claim under it can never be loaded. */
  lemma PolicyClaimCanBeLost(m: Metadata, facts: Facts, activations: map<string, string>, tests: Tests)
    requires tests == Redaction.TheTests() && Regular(m) && m.completedAt.None?
    requires m.binding.authority.ActivatedPolicy? && m.binding.authority.activationId == "token:1"
    requires Redaction.REDACTED !in activations
    ensures ValidIdentifier(m.binding.authority.activationId)
    ensures ReadMetadata(InLog(Written(m, facts), tests), activations) == None
  {
    TokenIsSensitive(m.binding.authority.activationId, tests);
    TokenIsACode(m.binding.authority.activationId);
    LostWithoutActivation(m, activations, tests);
    AttemptComesBack(m, facts, activations, tests);
  }
}
