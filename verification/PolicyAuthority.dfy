/** The activation that a claim on a policy relies on: how the stored activations are classified, and what the claim
    compares with the one that is left. */
module PolicyAuthority {
  import opened Wrappers
  import MetadataFields

  datatype Tuple = Tuple(eventType: string, destinationAlias: string, severity: string)

  /** The hashes of the configuration and of the tuple. */
  datatype Hashes = Hashes(config: string, tuple: string) {
    predicate AreWellFormed() { MetadataFields.IsHash(config) && MetadataFields.IsHash(tuple) }
  }

  /** One `policy_activations` row. */
  datatype Activation = Activation(repositoryId: string, activationId: string, recorded: Hashes, tuple: Tuple,
                                   activatedAt: string, deactivatedAt: Option<string>, active: bool)

  datatype StaleReason = MalformedBinding | ConfigAndTupleHashChanged | ConfigHashChanged | TupleHashChanged

  datatype Snapshot = Snapshot(activationId: string, repositoryId: string, tuple: Tuple, recorded: Hashes,
                               current: Hashes, activatedAt: string, deactivatedAt: Option<string>, active: bool,
                               staleReason: Option<StaleReason>)
  {
    predicate IsCurrent() { active && staleReason.None? }
  }

  datatype Status =
    | NotConfigured
    | NotActivated
    | Active(snapshot: Snapshot)
    | Stale(snapshot: Snapshot)
    | Deactivated(snapshot: Snapshot)
    | Ambiguous(activations: seq<Snapshot>)

  /** The decision a status turns into; an active one is eligible. */
  datatype Decision = NoExactMatch | Decided(status: Status)

  // ---------- classification ----------

  function SnapshotFor(row: Activation, current: Hashes): Snapshot {
    var coherent := if row.active then row.deactivatedAt.None? else row.deactivatedAt.Some?;
    var wellFormed := current.AreWellFormed() && coherent && row.recorded.AreWellFormed();
    var configChanged, tupleChanged := row.recorded.config != current.config, row.recorded.tuple != current.tuple;
    var reason :=
      if !wellFormed then Some(MalformedBinding)
      else if configChanged && tupleChanged then Some(ConfigAndTupleHashChanged)
      else if configChanged then Some(ConfigHashChanged)
      else if tupleChanged then Some(TupleHashChanged)
      else None;
    Snapshot(row.activationId, row.repositoryId, row.tuple, row.recorded, current, row.activatedAt, row.deactivatedAt,
             row.active, reason)
  }

  predicate Matches(row: Activation, repositoryId: string, tuple: Tuple) {
    row.repositoryId == repositoryId && row.tuple == tuple
  }

  /** The snapshots of the matching rows, in their order. */
  function SnapshotsOf(rows: seq<Activation>, repositoryId: string, tuple: Tuple, current: Hashes): seq<Snapshot> {
    if rows == [] then []
    else
      var last := rows[|rows| - 1];
      SnapshotsOf(rows[..|rows| - 1], repositoryId, tuple, current)
      + if Matches(last, repositoryId, tuple) then [SnapshotFor(last, current)] else []
  }

  function Filter(snapshots: seq<Snapshot>, keep: Snapshot -> bool): seq<Snapshot> {
    if snapshots == [] then []
    else
      var last := snapshots[|snapshots| - 1];
      Filter(snapshots[..|snapshots| - 1], keep) + if keep(last) then [last] else []
  }

  function Classify(snapshots: seq<Snapshot>, configured: bool): Status {
    if snapshots == [] then if configured then NotActivated else NotConfigured
    else
      var currentActive := Filter(snapshots, (s: Snapshot) => s.IsCurrent());
      if |currentActive| == 1 then Active(currentActive[0])
      else if |currentActive| > 1 then Ambiguous(snapshots)
      else
        var active := Filter(snapshots, (s: Snapshot) => s.active);
        if |active| == 1 then Stale(active[0])
        else if |active| > 1 then Ambiguous(snapshots)
        else if |snapshots| == 1 then Deactivated(snapshots[0])
        else Ambiguous(snapshots)
  }

  function Decide(rows: seq<Activation>, repositoryId: string, tuple: Tuple, current: Hashes,
                  configured: bool): Decision
  {
    var status := Classify(SnapshotsOf(rows, repositoryId, tuple, current), configured);
    if !configured && status.NotConfigured? then NoExactMatch else Decided(status)
  }

  // ---------- the claim's comparison ----------

  /** The activation a claim names. */
  datatype Named = Named(activationId: string, activationHash: string, hashes: Hashes)

  predicate Validate(decision: Decision, repositoryId: string, tuple: Tuple, current: Hashes, named: Named,
                     digest: Snapshot -> string)
  {
    && decision.Decided? && decision.status.Active?
    && var s := decision.status.snapshot;
    && s.activationId == named.activationId && s.repositoryId == repositoryId
    && s.current == current && s.recorded == current && s.tuple == tuple && s.IsCurrent()
    && named.hashes == s.current && digest(s) == named.activationHash
  }

  // ---------- what it proves ----------

  /** The row activates the tuple in the repository under the current hashes, and has not been deactivated. */
  predicate Binds(row: Activation, repositoryId: string, tuple: Tuple, current: Hashes) {
    Matches(row, repositoryId, tuple) && row.active && row.deactivatedAt.None? && row.recorded == current
    && current.AreWellFormed()
  }

  /** Row `i` binds, and no other row does. */
  ghost predicate BindsAlone(rows: seq<Activation>, i: int, repositoryId: string, tuple: Tuple, current: Hashes) {
    && 0 <= i < |rows| && Binds(rows[i], repositoryId, tuple, current)
    && forall j :: 0 <= j < |rows| && Binds(rows[j], repositoryId, tuple, current) ==> j == i
  }

  lemma FilterNext(snapshots: seq<Snapshot>, last: Snapshot, keep: Snapshot -> bool)
    ensures Filter(snapshots + [last], keep) == Filter(snapshots, keep) + if keep(last) then [last] else []
  {
    assert (snapshots + [last])[..|snapshots|] == snapshots;
  }

  /** Row `i` alone is one of these. */
  ghost predicate Sole(rows: seq<Activation>, i: int, which: Activation -> bool) {
    0 <= i < |rows| && which(rows[i]) && forall j :: 0 <= j < |rows| && which(rows[j]) ==> j == i
  }

  ghost predicate NoRow(rows: seq<Activation>, which: Activation -> bool) {
    forall i :: 0 <= i < |rows| ==> !which(rows[i])
  }

  /** More than one row is one of these. */
  ghost predicate Several(rows: seq<Activation>, which: Activation -> bool) {
    exists i, j :: 0 <= i < j < |rows| && which(rows[i]) && which(rows[j])
  }

  /** The snapshots of the rows selected. */
  function Selected(rows: seq<Activation>, which: Activation -> bool, current: Hashes): seq<Snapshot> {
    if rows == [] then []
    else
      var last := rows[|rows| - 1];
      Selected(rows[..|rows| - 1], which, current) + if which(last) then [SnapshotFor(last, current)] else []
  }

  lemma {:induction false} SelectedCounts(rows: seq<Activation>, which: Activation -> bool, current: Hashes)
    ensures Selected(rows, which, current) == [] <==> NoRow(rows, which)
    ensures |Selected(rows, which, current)| > 1 <==> Several(rows, which)
    ensures forall i :: Sole(rows, i, which) ==> Selected(rows, which, current) == [SnapshotFor(rows[i], current)]
    ensures |Selected(rows, which, current)| == 1 ==> exists i :: Sole(rows, i, which)
    decreases |rows|
  {
    if rows != [] {
      var n := |rows| - 1;
      var front := rows[..n];
      SelectedCounts(front, which, current);
      SelectedNext(rows, which);
      if which(rows[n]) && NoRow(front, which) { assert Sole(rows, n, which); }
      if i :| Sole(front, i, which) && !which(rows[n]) { assert Sole(rows, i, which); }
    }
  }

  lemma SelectedNext(rows: seq<Activation>, which: Activation -> bool)
    requires rows != []
    ensures var n := |rows| - 1; var front := rows[..n];
            && (NoRow(rows, which) <==> NoRow(front, which) && !which(rows[n]))
            && (Several(rows, which) <==> Several(front, which) || (!NoRow(front, which) && which(rows[n])))
            && forall i :: Sole(rows, i, which)
                 <==> if which(rows[n]) then NoRow(front, which) && i == n else Sole(front, i, which)
  {
    var n := |rows| - 1;
    var front := rows[..n];
    forall i | 0 <= i < n ensures front[i] == rows[i] {}
    if !NoRow(front, which) && which(rows[n]) {
      var i :| 0 <= i < n && which(front[i]);
      assert which(rows[i]);
    }
    forall i | Sole(rows, i, which)
      ensures if which(rows[n]) then NoRow(front, which) && i == n else Sole(front, i, which) {
      forall j | 0 <= j < n ensures which(front[j]) ==> j == i { assert front[j] == rows[j]; }
    }
    forall i | if which(rows[n]) then NoRow(front, which) && i == n else Sole(front, i, which)
      ensures Sole(rows, i, which) {
      forall j | 0 <= j < n ensures which(rows[j]) ==> which(front[j]) { assert front[j] == rows[j]; }
    }
  }

  lemma {:induction false} FilterIsSelected(rows: seq<Activation>, repositoryId: string, tuple: Tuple, current: Hashes,
                                            keep: Snapshot -> bool, which: Activation -> bool)
    requires forall row :: which(row) <==> Matches(row, repositoryId, tuple) && keep(SnapshotFor(row, current))
    ensures Filter(SnapshotsOf(rows, repositoryId, tuple, current), keep) == Selected(rows, which, current)
    decreases |rows|
  {
    if rows != [] {
      var n := |rows| - 1;
      FilterIsSelected(rows[..n], repositoryId, tuple, current, keep, which);
      var before := SnapshotsOf(rows[..n], repositoryId, tuple, current);
      if Matches(rows[n], repositoryId, tuple) {
        FilterNext(before, SnapshotFor(rows[n], current), keep);
      } else {
        assert before + [] == before;
      }
    }
  }

  lemma {:induction false} SnapshotsAreSelected(rows: seq<Activation>, repositoryId: string, tuple: Tuple,
                                                current: Hashes, which: Activation -> bool)
    requires forall row :: which(row) <==> Matches(row, repositoryId, tuple)
    ensures SnapshotsOf(rows, repositoryId, tuple, current) == Selected(rows, which, current)
    decreases |rows|
  {
    if rows != [] { SnapshotsAreSelected(rows[..|rows| - 1], repositoryId, tuple, current, which); }
  }

  function IsFor(repositoryId: string, tuple: Tuple): Activation -> bool {
    (row: Activation) => row.repositoryId == repositoryId && row.tuple == tuple
  }

  function IsActiveFor(repositoryId: string, tuple: Tuple): Activation -> bool {
    (row: Activation) => row.repositoryId == repositoryId && row.tuple == tuple && row.active
  }

  /** A row for this tuple that is active, was never deactivated, and was recorded under these very hashes. */
  function IsCurrentFor(repositoryId: string, tuple: Tuple, current: Hashes): Activation -> bool {
    (row: Activation) => && row.repositoryId == repositoryId && row.tuple == tuple && row.active
                         && row.deactivatedAt == None && row.recorded == current && AreHashes(current)
  }

  predicate AreHashes(h: Hashes) { IsHex(h.config) && IsHex(h.tuple) }

  predicate IsHex(s: string) {
    |s| == 64 && forall i :: 0 <= i < |s| ==> '0' <= s[i] <= '9' || 'a' <= s[i] <= 'f'
  }

  /** Why an activation does not bind: its row contradicts itself or holds no hashes, or hashes have changed since. */
  lemma ReasonExactlyIf(row: Activation, current: Hashes)
    ensures SnapshotFor(row, current) == Snapshot(
              row.activationId, row.repositoryId, row.tuple, row.recorded, current, row.activatedAt, row.deactivatedAt,
              row.active, SnapshotFor(row, current).staleReason)
    ensures var reason := SnapshotFor(row, current).staleReason;
            && (reason == Some(MalformedBinding)
                <==> row.active == row.deactivatedAt.Some? || !AreHashes(current) || !AreHashes(row.recorded))
            && (reason != Some(MalformedBinding) ==>
                  var config, tuple := row.recorded.config == current.config, row.recorded.tuple == current.tuple;
                  && (reason == None <==> config && tuple) && (reason == Some(ConfigHashChanged) <==> !config && tuple)
                  && (reason == Some(TupleHashChanged) <==> config && !tuple)
                  && (reason == Some(ConfigAndTupleHashChanged) <==> !config && !tuple))
  {
  }

  /** The answer, from the rows: one current row makes the policy active; without any, one active row is stale, and one
      row at all deactivated; no row is no activation; and more are ambiguous. */
  ghost predicate Answers(rows: seq<Activation>, repositoryId: string, tuple: Tuple, current: Hashes, configured: bool,
                          d: Decision)
  {
    var all, active := IsFor(repositoryId, tuple), IsActiveFor(repositoryId, tuple);
    var binding := IsCurrentFor(repositoryId, tuple, current);
    match d
    case NoExactMatch => NoRow(rows, all) && configured == false
    case Decided(NotConfigured) => false
    case Decided(NotActivated) => NoRow(rows, all) && configured == true
    case Decided(Active(s)) => exists i :: Sole(rows, i, binding) && s == SnapshotFor(rows[i], current)
    case Decided(Stale(s)) =>
      NoRow(rows, binding) && exists i :: Sole(rows, i, active) && s == SnapshotFor(rows[i], current)
    case Decided(Deactivated(s)) =>
      NoRow(rows, active) && exists i :: Sole(rows, i, all) && s == SnapshotFor(rows[i], current)
    case Decided(Ambiguous(all')) =>
      && all' == Selected(rows, all, current)
      && (|| Several(rows, binding) || (NoRow(rows, binding) && Several(rows, active))
          || (NoRow(rows, active) && Several(rows, all)))
  }

  /** The same, from the snapshots of the three kinds of rows. */
  predicate AnswersBy(all: seq<Snapshot>, active: seq<Snapshot>, binding: seq<Snapshot>, configured: bool,
                      d: Decision) {
    match d
    case NoExactMatch => all == [] && !configured
    case Decided(NotConfigured) => false
    case Decided(NotActivated) => all == [] && configured
    case Decided(Active(s)) => binding == [s]
    case Decided(Stale(s)) => binding == [] && active == [s]
    case Decided(Deactivated(s)) => active == [] && all == [s]
    case Decided(Ambiguous(snapshots)) =>
      snapshots == all
      && (|binding| > 1 || (binding == [] && |active| > 1) || (active == [] && |all| > 1))
  }

  lemma SoleIsSelected(rows: seq<Activation>, which: Activation -> bool, current: Hashes, s: Snapshot)
    ensures (exists i :: Sole(rows, i, which) && s == SnapshotFor(rows[i], current))
      <==> Selected(rows, which, current) == [s]
  {
    SelectedCounts(rows, which, current);
  }

  lemma AnswersAreCounts(rows: seq<Activation>, repositoryId: string, tuple: Tuple, current: Hashes, configured: bool,
                         d: Decision)
    ensures Answers(rows, repositoryId, tuple, current, configured, d)
      <==> AnswersBy(Selected(rows, IsFor(repositoryId, tuple), current),
                     Selected(rows, IsActiveFor(repositoryId, tuple), current),
                     Selected(rows, IsCurrentFor(repositoryId, tuple, current), current), configured, d)
  {
    var all, active := IsFor(repositoryId, tuple), IsActiveFor(repositoryId, tuple);
    var binding := IsCurrentFor(repositoryId, tuple, current);
    SelectedCounts(rows, all, current);
    SelectedCounts(rows, active, current);
    SelectedCounts(rows, binding, current);
    if d.Decided? && (d.status.Active? || d.status.Stale? || d.status.Deactivated?) {
      SoleIsSelected(rows, all, current, d.status.snapshot);
      SoleIsSelected(rows, active, current, d.status.snapshot);
      SoleIsSelected(rows, binding, current, d.status.snapshot);
    }
  }

  lemma DecidesExactlyIf(rows: seq<Activation>, repositoryId: string, tuple: Tuple, current: Hashes, configured: bool,
                         d: Decision)
    ensures Decide(rows, repositoryId, tuple, current, configured) == d
      <==> Answers(rows, repositoryId, tuple, current, configured, d)
  {
    var all, active := IsFor(repositoryId, tuple), IsActiveFor(repositoryId, tuple);
    var binding := IsCurrentFor(repositoryId, tuple, current);
    SnapshotsAreSelected(rows, repositoryId, tuple, current, all);
    FilterIsSelected(rows, repositoryId, tuple, current, (s: Snapshot) => s.active, active);
    BindingIs(repositoryId, tuple, current);
    FilterIsSelected(rows, repositoryId, tuple, current, (s: Snapshot) => s.IsCurrent(), binding);
    AnswersAreCounts(rows, repositoryId, tuple, current, configured, d);
    ClassifyByCounts(SnapshotsOf(rows, repositoryId, tuple, current), Selected(rows, active, current),
                     Selected(rows, binding, current), configured);
  }

  lemma ClassifyByCounts(all: seq<Snapshot>, active: seq<Snapshot>, binding: seq<Snapshot>, configured: bool)
    requires active == Filter(all, (s: Snapshot) => s.active) && binding == Filter(all, (s: Snapshot) => s.IsCurrent())
    ensures var status := Classify(all, configured); forall d ::
              (AnswersBy(all, active, binding, configured, d)
               <==> d == if status.NotConfigured? && !configured then NoExactMatch else Decided(status))
  {
    FewerActive(all);
  }

  /** Whatever is current is active. */
  lemma {:induction false} FewerActive(all: seq<Snapshot>)
    ensures |Filter(all, (s: Snapshot) => s.IsCurrent())| <= |Filter(all, (s: Snapshot) => s.active)| <= |all|
  {
    if all != [] { FewerActive(all[..|all| - 1]); }
  }

  lemma BindingIs(repositoryId: string, tuple: Tuple, current: Hashes)
    ensures forall row :: (IsCurrentFor(repositoryId, tuple, current)(row)
              <==> Matches(row, repositoryId, tuple) && SnapshotFor(row, current).IsCurrent())
  {
    forall row: Activation
      ensures IsCurrentFor(repositoryId, tuple, current)(row)
        <==> Matches(row, repositoryId, tuple) && SnapshotFor(row, current).IsCurrent() {
      ReasonExactlyIf(row, current);
      assert row.recorded == Hashes(row.recorded.config, row.recorded.tuple);
    }
  }

  /** A policy is eligible exactly if one row alone binds it; other rows of the tuple, stale or deactivated, do not
      matter, nor does whether the tuple is configured. */
  lemma EligibleExactlyIf(rows: seq<Activation>, repositoryId: string, tuple: Tuple, current: Hashes, configured: bool,
                          s: Snapshot)
    ensures Decide(rows, repositoryId, tuple, current, configured) == Decided(Active(s))
      <==> exists i :: BindsAlone(rows, i, repositoryId, tuple, current) && s == SnapshotFor(rows[i], current)
  {
    DecidesExactlyIf(rows, repositoryId, tuple, current, configured, Decided(Active(s)));
    BindingIs(repositoryId, tuple, current);
    forall i ensures BindsAlone(rows, i, repositoryId, tuple, current)
                     <==> Sole(rows, i, IsCurrentFor(repositoryId, tuple, current)) {
    }
  }

  /** The claim's comparison passes exactly if one row alone binds the policy under the current hashes and the claim
      names it, with these hashes and the hash of its snapshot. */
  lemma ValidExactlyIf(rows: seq<Activation>, repositoryId: string, tuple: Tuple, current: Hashes, configured: bool,
                       named: Named, digest: Snapshot -> string)
    ensures Validate(Decide(rows, repositoryId, tuple, current, configured), repositoryId, tuple, current, named,
                     digest)
      <==> exists i :: BindsAlone(rows, i, repositoryId, tuple, current) && rows[i].activationId == named.activationId
                       && named.hashes == current && digest(SnapshotFor(rows[i], current)) == named.activationHash
  {
    var decision := Decide(rows, repositoryId, tuple, current, configured);
    if decision.Decided? && decision.status.Active? {
      EligibleExactlyIf(rows, repositoryId, tuple, current, configured, decision.status.snapshot);
    }
    forall i | BindsAlone(rows, i, repositoryId, tuple, current)
      ensures decision == Decided(Active(SnapshotFor(rows[i], current))) {
      EligibleExactlyIf(rows, repositoryId, tuple, current, configured, SnapshotFor(rows[i], current));
    }
  }
}
