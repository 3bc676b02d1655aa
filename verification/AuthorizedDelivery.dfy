/** Approvals, policy activations and deliveries together: what a permit proves. */
module AuthorizedDelivery {
  import opened Wrappers
  import Approval
  import ApprovalSafety
  import Delivery
  import DeliverySafety
  import DeliveryRuns
  import DeliveryProgress
  import PolicyAuthority

  /** The approval a claim names, and the preview and time it is claimed for. */
  datatype Evidence = Evidence(core: Approval.Core, now: nat, approvalId: string, approvalHash: string, expiresAt: nat)

  /** The activation a claim names, and the revision, tuple and hashes it is claimed for. */
  datatype Policy = Policy(key: Delivery.RevisionKey, revisionHash: string, destinationHash: string, scanHash: string,
                           blocked: bool, tuple: PolicyAuthority.Tuple, current: PolicyAuthority.Hashes,
                           configured: bool, named: PolicyAuthority.Named, activatedAt: string)

  /** What a claim relies on. */
  datatype Basis = OnApproval(evidence: Evidence) | OnPolicy(policy: Policy)

  /** Hashes, and the limits of the approval service. */
  datatype Env = Env(approvals: Approval.Env, snapshotHash: PolicyAuthority.Snapshot -> string)

  /** A permit, what it was claimed on, and, as they were then, the confirmations that had succeeded and the stored
      activations. */
  datatype Grant = Grant(permit: DeliverySafety.Permit, basis: Basis, confirmed: seq<ApprovalSafety.Confirmation>,
                         activations: seq<PolicyAuthority.Activation>)

  datatype World = World(approvals: ApprovalSafety.World, activations: seq<PolicyAuthority.Activation>,
                         delivery: DeliveryRuns.World, grants: seq<Grant>)

  function StartOf(s: Approval.Store): World { World(ApprovalSafety.World(s, []), [], DeliveryRuns.Start, []) }

  datatype Command =
    | OnApprovals(command: ApprovalSafety.Command)
    | OnActivations(rows: seq<PolicyAuthority.Activation>)     // activated or deactivated, in any way
    | Claim(request: Delivery.ClaimRequest, basis: Basis, retry: bool)
    | RecordOutcome(outcome: Delivery.TransitionRequest)
    | OtherAudit(repository: string, eventId: string)

  function KeyOf(core: Approval.Core): Delivery.RevisionKey {
    Delivery.RevisionKey(core.repositoryId, core.draftId, core.revision)
  }

  function BindingOf(e: Evidence): Delivery.Binding {
    Delivery.Binding(e.core.revisionHash, e.core.configHash, e.core.destinationHash, e.core.scanHash,
                     Delivery.HumanApproval(e.approvalId, e.approvalHash, e.expiresAt))
  }

  function BindingUnder(p: Policy): Delivery.Binding {
    Delivery.Binding(p.revisionHash, p.current.config, p.destinationHash, p.scanHash,
                     Delivery.ActivatedPolicy(p.named.activationId, p.named.activationHash, p.named.hashes.config,
                                              p.named.hashes.tuple, p.activatedAt))
  }

  predicate ApprovalHolds(w: World, env: Env, e: Evidence) {
    e.now < e.core.draftExpiresAt
    && Approval.HumanApprovalHolds(w.approvals.store, e.core, env.approvals, e.now, e.approvalId, e.approvalHash,
                                   e.expiresAt)
  }

  /** A blocked scan is never sent on a policy. */
  predicate PolicyHolds(w: World, env: Env, p: Policy) {
    !p.blocked
    && PolicyAuthority.Validate(
         PolicyAuthority.Decide(w.activations, p.key.repository, p.tuple, p.current, p.configured),
         p.key.repository, p.tuple, p.current, p.named, env.snapshotHash)
  }

  predicate Holds(w: World, env: Env, basis: Basis) {
    match basis
    case OnApproval(e) => ApprovalHolds(w, env, e)
    case OnPolicy(p) => PolicyHolds(w, env, p)
  }

  function KeyFor(basis: Basis): Delivery.RevisionKey {
    match basis
    case OnApproval(e) => KeyOf(e.core)
    case OnPolicy(p) => p.key
  }

  /** The claim with its authority validated against the approvals and activations as they are now. */
  function Validated(w: World, env: Env, q: Delivery.ClaimRequest, basis: Basis): Delivery.ClaimRequest {
    q.(key := KeyFor(basis),
       current := if !Holds(w, env, basis) then Failure(Delivery.StaleInput("authority"))
                  else match basis
                       case OnApproval(e) => Success(BindingOf(e))
                       case OnPolicy(p) => Success(BindingUnder(p)))
  }

  function Step(b: Delivery.Boundary, env: Env, w: World, c: Command): World {
    match c
    case OnApprovals(command) => w.(approvals := ApprovalSafety.Step(w.approvals, command, env.approvals))
    case OnActivations(rows) => w.(activations := rows)
    case RecordOutcome(outcome) => w.(delivery := DeliveryRuns.Step(b, w.delivery, DeliveryRuns.Transition(outcome)))
    case OtherAudit(repository, eventId) =>
      w.(delivery := DeliveryRuns.Step(b, w.delivery, DeliveryRuns.OtherAudit(repository, eventId)))
    case Claim(request, basis, retry) => AfterClaim(w, basis, Claimed(b, env, w, request, basis, retry))
  }

  function Claimed(b: Delivery.Boundary, env: Env, w: World, q: Delivery.ClaimRequest, basis: Basis,
                   retry: bool): DeliveryRuns.World {
    DeliveryRuns.Step(b, w.delivery, DeliveryRuns.Claim(Validated(w, env, q, basis), retry))
  }

  /** A claim on this basis left the delivery world `d`. */
  function AfterClaim(w: World, basis: Basis, d: DeliveryRuns.World): World {
    w.(delivery := d,
       grants := if |d.permits| > |w.delivery.permits|
                 then w.grants + [Grant(d.permits[|d.permits| - 1], basis, w.approvals.history, w.activations)]
                 else w.grants)
  }

  function Run(b: Delivery.Boundary, env: Env, w: World, cs: seq<Command>): World {
    if cs == [] then w else Step(b, env, Run(b, env, w, cs[..|cs| - 1]), cs[|cs| - 1])
  }

  /** A permit on an approval is of the preview's revision; the preview itself had been confirmed by then, no longer ago
      than an approval lasts, and overridden if its scan is blocked. */
  predicate Confirmed(g: Grant, a: ApprovalSafety.Confirmation, o: ApprovalSafety.Confirmation) {
    && g.basis.OnApproval?
    && var core := g.basis.evidence.core;
    && g.permit.key == KeyOf(core)
    && a.ConfirmedApproval? && a.core == core && ApprovalSafety.Remembered(g.confirmed, a)
    && g.basis.evidence.now < Approval.Min(Approval.SaturatingAdd(a.at.unixSeconds, Approval.APPROVAL_LIFETIME),
                                           core.draftExpiresAt)
    && (core.blocked ==> o.ConfirmedOverride? && o.core == core && ApprovalSafety.Remembered(g.confirmed, o))
  }

  /** A permit on a policy is of the revision claimed, whose scan is not blocked; by then activation `i` alone bound the
      tuple under the current hashes, and it is the one named, unchanged. */
  ghost predicate Activated(env: Env, g: Grant, i: int) {
    && g.basis.OnPolicy?
    && var p := g.basis.policy;
    && g.permit.key == p.key && !p.blocked
    && PolicyAuthority.BindsAlone(g.activations, i, p.key.repository, p.tuple, p.current)
    && g.activations[i].activationId == p.named.activationId && p.named.hashes == p.current
    && env.snapshotHash(PolicyAuthority.SnapshotFor(g.activations[i], p.current)) == p.named.activationHash
  }

  ghost predicate IsBacked(env: Env, g: Grant) {
    if g.basis.OnApproval? then exists a, o :: Confirmed(g, a, o) else exists i :: Activated(env, g, i)
  }

  /** One grant for each permit, backed by confirmations that are now in the history. */
  ghost predicate Granted(env: Env, grants: seq<Grant>, permits: seq<DeliverySafety.Permit>,
                          history: seq<ApprovalSafety.Confirmation>)
  {
    && |grants| == |permits|
    && forall i :: 0 <= i < |grants| ==>
         grants[i].permit == permits[i] && IsBacked(env, grants[i]) && grants[i].confirmed <= history
  }

  ghost predicate Inv(b: Delivery.Boundary, env: Env, w: World) {
    && ApprovalSafety.Inv(w.approvals, env.approvals) && DeliveryRuns.WorldInv(b, w.delivery)
    && Granted(env, w.grants, w.delivery.permits, w.approvals.history)
  }

  lemma OneMoreGrant(env: Env, grants: seq<Grant>, permits: seq<DeliverySafety.Permit>, g: Grant,
                     more: seq<DeliverySafety.Permit>, history: seq<ApprovalSafety.Confirmation>)
    requires Granted(env, grants, permits, history) && IsBacked(env, g) && g.confirmed <= history
    requires |more| == |permits| + 1 && more[..|permits|] == permits && g.permit == more[|permits|]
    ensures Granted(env, grants + [g], more, history)
  {
    forall i | 0 <= i < |grants| ensures more[i] == permits[i] { assert more[..|permits|][i] == more[i]; }
  }

  lemma HeldIsConfirmed(env: Env, w: World, e: Evidence, g: Grant)
    requires ApprovalSafety.Inv(w.approvals, env.approvals) && Approval.Injective(env.approvals)
    requires ApprovalHolds(w, env, e)
    requires g.basis == OnApproval(e) && g.permit.key == KeyOf(e.core) && g.confirmed == w.approvals.history
    ensures IsBacked(env, g)
  {
    var approvals := w.approvals;
    ApprovalSafety.HeldIsValid(approvals, e.core, env.approvals, e.now, e.approvalId, e.approvalHash, e.expiresAt);
    var check := Approval.CheckCurrent(approvals.store, Some(e.core), env.approvals, e.now);
    var a, o := ApprovalSafety.ValidIsAuthorised(approvals, env.approvals, e.core, e.now, check.record);
    assert Confirmed(g, a, o);
  }

  lemma HeldIsActivated(env: Env, w: World, p: Policy, g: Grant)
    requires PolicyHolds(w, env, p)
    requires g.basis == OnPolicy(p) && g.permit.key == p.key && g.activations == w.activations
    ensures IsBacked(env, g)
  {
    PolicyAuthority.ValidExactlyIf(w.activations, p.key.repository, p.tuple, p.current, p.configured, p.named,
                                   env.snapshotHash);
    var i :| PolicyAuthority.BindsAlone(w.activations, i, p.key.repository, p.tuple, p.current)
             && w.activations[i].activationId == p.named.activationId && p.named.hashes == p.current
             && env.snapshotHash(PolicyAuthority.SnapshotFor(w.activations[i], p.current)) == p.named.activationHash;
    assert Activated(env, g, i);
  }

  /** A claim adds at most one permit, and only if its basis holds. */
  ghost predicate AddsIfHeld(env: Env, w: World, basis: Basis, d: DeliveryRuns.World) {
    var permits := w.delivery.permits;
    || d == w.delivery
    || (&& Holds(w, env, basis) && |d.permits| == |permits| + 1
        && d.permits[..|permits|] == permits && d.permits[|permits|].key == KeyFor(basis))
  }

  lemma GrantedHolds(b: Delivery.Boundary, env: Env, w: World, q: Delivery.ClaimRequest, basis: Basis,
                     retry: bool)
    requires DeliveryRuns.WorldInv(b, w.delivery)
    ensures var d := Claimed(b, env, w, q, basis, retry); DeliveryRuns.WorldInv(b, d) && AddsIfHeld(env, w, basis, d)
  {
    var claim := Validated(w, env, q, basis);
    DeliveryRuns.StepKeeps(b, w.delivery, DeliveryRuns.Claim(claim, retry));
    DeliveryProgress.ClaimIs(b, w.delivery, claim, retry);
  }

  lemma HistoryOnlyGrows(w: ApprovalSafety.World, c: ApprovalSafety.Command, env: Approval.Env)
    ensures w.history <= ApprovalSafety.Step(w, c, env).history
  {
  }

  lemma AfterClaimKeeps(b: Delivery.Boundary, env: Env, w: World, basis: Basis, d: DeliveryRuns.World)
    requires Inv(b, env, w) && Approval.Injective(env.approvals)
    requires DeliveryRuns.WorldInv(b, d) && AddsIfHeld(env, w, basis, d)
    ensures Inv(b, env, AfterClaim(w, basis, d))
  {
    var permits, history := w.delivery.permits, w.approvals.history;
    if d != w.delivery {
      var g := Grant(d.permits[|permits|], basis, history, w.activations);
      match basis {
        case OnApproval(e) => HeldIsConfirmed(env, w, e, g);
        case OnPolicy(p) => HeldIsActivated(env, w, p, g);
      }
      OneMoreGrant(env, w.grants, permits, g, d.permits, history);
    }
  }

  lemma ClaimKeeps(b: Delivery.Boundary, env: Env, w: World, q: Delivery.ClaimRequest, basis: Basis,
                   retry: bool)
    requires Inv(b, env, w) && Approval.Injective(env.approvals)
    ensures Inv(b, env, AfterClaim(w, basis, Claimed(b, env, w, q, basis, retry)))
  {
    GrantedHolds(b, env, w, q, basis, retry);
    AfterClaimKeeps(b, env, w, basis, Claimed(b, env, w, q, basis, retry));
  }

  lemma OutcomeKeepsPermits(b: Delivery.Boundary, w: DeliveryRuns.World, c: DeliveryRuns.Command)
    requires DeliveryRuns.WorldInv(b, w) && !c.Claim?
    ensures DeliveryRuns.WorldInv(b, DeliveryRuns.Step(b, w, c)) && DeliveryRuns.Step(b, w, c).permits == w.permits
  {
    DeliveryRuns.StepKeeps(b, w, c);
  }

  lemma StepKeeps(b: Delivery.Boundary, env: Env, w: World, c: Command)
    requires Inv(b, env, w) && Approval.Injective(env.approvals)
    ensures Inv(b, env, Step(b, env, w, c))
  {
    match c
    case OnApprovals(command) =>
      ApprovalSafety.StepKeeps(w.approvals, command, env.approvals);
      HistoryOnlyGrows(w.approvals, command, env.approvals);
    case OnActivations(rows) =>
    case RecordOutcome(outcome) => OutcomeKeepsPermits(b, w.delivery, DeliveryRuns.Transition(outcome));
    case OtherAudit(repository, eventId) =>
      OutcomeKeepsPermits(b, w.delivery, DeliveryRuns.OtherAudit(repository, eventId));
    case Claim(request, basis, retry) => ClaimKeeps(b, env, w, request, basis, retry);
  }

  lemma {:induction false} Reachable(b: Delivery.Boundary, env: Env, s: Approval.Store, cs: seq<Command>)
    requires ApprovalSafety.Fresh(s) && Approval.Injective(env.approvals)
    ensures Inv(b, env, Run(b, env, StartOf(s), cs))
    decreases |cs|
  {
    if cs == [] {
      ApprovalSafety.Reachable(s, [], env.approvals);
      DeliveryRuns.Reachable(b, []);
    } else {
      Reachable(b, env, s, cs[..|cs| - 1]);
      StepKeeps(b, env, Run(b, env, StartOf(s), cs[..|cs| - 1]), cs[|cs| - 1]);
    }
  }

  /** The commands of the run that concern approvals. */
  function OnApprovalsOnly(cs: seq<Command>): seq<ApprovalSafety.Command> {
    if cs == [] then []
    else
      var n := |cs| - 1;
      OnApprovalsOnly(cs[..n]) + if cs[n].OnApprovals? then [cs[n].command] else []
  }

  lemma ApprovalsStep(b: Delivery.Boundary, env: Env, w: World, c: Command)
    ensures Step(b, env, w, c).approvals
      == if c.OnApprovals? then ApprovalSafety.Step(w.approvals, c.command, env.approvals) else w.approvals
  {
  }

  lemma ApprovalsNext(w: ApprovalSafety.World, cs: seq<ApprovalSafety.Command>, c: ApprovalSafety.Command,
                      env: Approval.Env)
    ensures ApprovalSafety.Run(w, cs + [c], env) == ApprovalSafety.Step(ApprovalSafety.Run(w, cs, env), c, env)
  {
    assert (cs + [c])[..|cs|] == cs;
  }

  /** Of the approvals, the run is one of the approval service alone. */
  lemma {:induction false} ApprovalsAlone(b: Delivery.Boundary, env: Env, s: Approval.Store, cs: seq<Command>)
    ensures Run(b, env, StartOf(s), cs).approvals
      == ApprovalSafety.Run(ApprovalSafety.World(s, []), OnApprovalsOnly(cs), env.approvals)
    decreases |cs|
  {
    if cs != [] {
      var n := |cs| - 1;
      ApprovalsAlone(b, env, s, cs[..n]);
      ApprovalsStep(b, env, Run(b, env, StartOf(s), cs[..n]), cs[n]);
      if cs[n].OnApprovals? {
        ApprovalsNext(ApprovalSafety.World(s, []), OnApprovalsOnly(cs[..n]), cs[n].command, env.approvals);
      } else {
        assert OnApprovalsOnly(cs[..n]) + [] == OnApprovalsOnly(cs[..n]);
      }
    }
  }

  /** Each of these confirmations was given by the operator, at a terminal and for the hash of its preview. */
  ghost predicate AllGiven(env: Env, cs: seq<Command>, confirmed: seq<ApprovalSafety.Confirmation>) {
    forall k :: 0 <= k < |confirmed| ==> ApprovalSafety.Given(OnApprovalsOnly(cs), env.approvals, confirmed[k])
  }

  lemma HistoryIsGiven(b: Delivery.Boundary, env: Env, s: Approval.Store, cs: seq<Command>,
                       confirmed: seq<ApprovalSafety.Confirmation>)
    requires confirmed <= Run(b, env, StartOf(s), cs).approvals.history
    ensures AllGiven(env, cs, confirmed)
  {
    ApprovalsAlone(b, env, s, cs);
    forall k | 0 <= k < |confirmed|
      ensures ApprovalSafety.Given(OnApprovalsOnly(cs), env.approvals, confirmed[k]) {
      ApprovalSafety.HistoryIsGiven(s, OnApprovalsOnly(cs), env.approvals, k);
    }
  }

  /** However approvals, overrides, activations, claims, retries and outcomes interleave: every permit issued on an
      approval was preceded by the operator's confirmation of that very preview, given at a terminal for its hash and
      still within its time, and by an override of it where the scan is blocked; every other one had a sole, current and
      unchanged activation. */
  lemma PermitIsBacked(b: Delivery.Boundary, env: Env, s: Approval.Store, cs: seq<Command>, i: nat)
    requires ApprovalSafety.Fresh(s) && Approval.Injective(env.approvals)
    requires i < |Run(b, env, StartOf(s), cs).delivery.permits|
    ensures var w := Run(b, env, StartOf(s), cs);
      && |w.grants| == |w.delivery.permits| && w.grants[i].permit == w.delivery.permits[i]
      && w.grants[i].confirmed <= w.approvals.history && IsBacked(env, w.grants[i])
      && AllGiven(env, cs, w.grants[i].confirmed)
  {
    Reachable(b, env, s, cs);
    HistoryIsGiven(b, env, s, cs, Run(b, env, StartOf(s), cs).grants[i].confirmed);
  }
}
