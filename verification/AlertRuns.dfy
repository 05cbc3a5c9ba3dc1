/** Theorems about whole runs of the alert state machine.

    A run is any sequence of evaluations of one monitor: revisions may change
    between steps, slots may be replayed or arrive late, and clocks need not be
    monotone.  Nothing is assumed of the steps unless a lemma says so. */
module AlertRuns {
  import opened Wrappers
  import opened AlertState

  datatype Step = Step(monitor: Monitor, observation: Observation, slot: nat, now: nat)

  function Fold(prior: Option<State>, step: Step): State {
    Evaluate(step.monitor, prior, step.observation, step.slot, step.now).0
  }

  /** The state step `i` starts from. */
  function Prior(states: seq<State>, i: nat): Option<State>
    requires i <= |states|
  {
    if i == 0 then None else Some(states[i - 1])
  }

  predicate Follows(steps: seq<Step>, states: seq<State>, i: nat)
    requires i < |steps| == |states|
  {
    states[i] == Fold(Prior(states, i), steps[i])
  }

  /** `states[i]` is the durable state after step `i`, starting from none. */
  predicate IsRun(steps: seq<Step>, states: seq<State>) {
    && |steps| == |states|
    && forall i: nat :: i < |steps| ==> Follows(steps, states, i)
  }

  /** Step `i` is not already covered by the prior state, so it is folded in. */
  predicate Effective(steps: seq<Step>, states: seq<State>, i: nat)
    requires i < |steps| == |states|
  {
    Uncovered(Prior(states, i), steps[i])
  }

  predicate Uncovered(prior: Option<State>, step: Step) {
    prior.Some? ==> !prior.value.Covers(step.monitor.revision, step.slot)
  }

  predicate StateBefore(a: State, b: State) {
    Before(a.revision, a.lastSlot, b.revision, b.lastSlot)
  }

  /** Every sequence of steps has a run. */
  lemma {:induction false} RunExists(steps: seq<Step>) returns (states: seq<State>)
    ensures IsRun(steps, states)
  {
    if steps == [] {
      states := [];
    } else {
      var n := |steps| - 1;
      var before := RunExists(steps[..n]);
      states := before + [Fold(Prior(before, n), steps[n])];
      forall i: nat | i < |steps| ensures Follows(steps, states, i) {
        if i < n {
          assert Follows(steps[..n], before, i);
        }
      }
    }
  }

  // ---------------------------------------------------------------- order and count

  /** How many of the first `n` states differ in status from the one before. */
  function StatusChanges(states: seq<State>, n: nat): nat
    requires n <= |states|
  {
    if n == 0 then 0
    else
      var changed := n == 1 || states[n - 2].status != states[n - 1].status;
      StatusChanges(states, n - 1) + (if changed then 1 else 0)
  }

  lemma {:induction false} SequenceCountsStatusChanges(steps: seq<Step>, states: seq<State>, i: nat)
    requires IsRun(steps, states) && i < |steps|
    ensures states[i].sequence == StatusChanges(states, i + 1)
  {
    assert Follows(steps, states, i);
    if i > 0 {
      SequenceCountsStatusChanges(steps, states, i - 1);
    }
  }

  lemma OneStepIsOrdered(steps: seq<Step>, states: seq<State>, i: nat)
    requires IsRun(steps, states) && i < |steps|
    ensures Effective(steps, states, i) ==>
      && states[i].revision == steps[i].monitor.revision
      && states[i].lastSlot == steps[i].slot
      && (i > 0 ==> StateBefore(states[i - 1], states[i]))
    ensures !Effective(steps, states, i) ==> i > 0 && states[i] == states[i - 1]
  {
    assert Follows(steps, states, i);
  }

  /** A run never moves backwards in `(revision, slot)` order. */
  lemma {:induction false} RunIsMonotone(steps: seq<Step>, states: seq<State>, i: nat, j: nat)
    requires IsRun(steps, states) && i <= j < |steps|
    ensures states[i] == states[j] || StateBefore(states[i], states[j])
    decreases j
  {
    if i < j {
      RunIsMonotone(steps, states, i, j - 1);
      OneStepIsOrdered(steps, states, j);
    }
  }

  /** Every `(revision, slot)` is folded in at most once, in increasing order:
      of two effective steps the later one has the larger pair. */
  lemma EffectiveStepsIncrease(steps: seq<Step>, states: seq<State>, i: nat, j: nat)
    requires IsRun(steps, states) && i < j < |steps|
    requires Effective(steps, states, i) && Effective(steps, states, j)
    ensures Before(steps[i].monitor.revision, steps[i].slot, steps[j].monitor.revision, steps[j].slot)
  {
    RunIsMonotone(steps, states, i, j - 1);
    OneStepIsOrdered(steps, states, i);
    OneStepIsOrdered(steps, states, j);
  }

  // ---------------------------------------------------------------- episodes

  /** The alert is firing or recovering, or an outage interrupted it while it was. */
  predicate IsActive(s: State) {
    s.status.Firing? || s.status.Recovering? || (s.status.IsOutage() && s.interrupted.Some?)
  }

  /** `interrupted` is set only during an outage, and only to an active status. */
  predicate InterruptedWellFormed(s: State) {
    s.interrupted.Some? ==>
      && s.status.IsOutage()
      && (s.interrupted.value.status.Firing? || s.interrupted.value.status.Recovering?)
  }

  lemma {:induction false} InterruptedIsWellFormed(steps: seq<Step>, states: seq<State>, i: nat)
    requires IsRun(steps, states) && i < |steps|
    ensures InterruptedWellFormed(states[i])
  {
    assert Follows(steps, states, i);
    if i > 0 {
      InterruptedIsWellFormed(steps, states, i - 1);
    }
  }

  predicate Resolved(s: State) {
    s.status.Inactive? || s.status.Disabled?
  }

  /** An active alert ends only through Inactive or Disabled, and is never
      Pending before that. */
  lemma {:induction false} ActiveUntilResolved(steps: seq<Step>, states: seq<State>, i: nat, j: nat)
    requires IsRun(steps, states) && i <= j < |steps|
    requires IsActive(states[i])
    requires forall k :: i < k <= j ==> !Resolved(states[k])
    ensures forall k :: i <= k <= j ==> IsActive(states[k]) && !states[k].status.Pending?
    decreases j
  {
    if i < j {
      ActiveUntilResolved(steps, states, i, j - 1);
      assert Follows(steps, states, j);
    }
  }

  /** An alert is active exactly when it fired and has not been resolved since. */
  lemma {:induction false} ActiveExactly(steps: seq<Step>, states: seq<State>, i: nat)
    requires IsRun(steps, states) && i < |steps|
    ensures IsActive(states[i]) <==> exists j: nat :: j <= i && FiredSince(states, j, i)
  {
    assert Follows(steps, states, i);
    if i > 0 {
      var n := i - 1;
      ActiveExactly(steps, states, n);
      InterruptedIsWellFormed(steps, states, n);
      if j: nat :| j <= n && FiredSince(states, j, n) {
        assert FiredSince(states, j, i) <==> !Resolved(states[i]);
      }
      if j: nat :| j <= n && FiredSince(states, j, i) {
        assert FiredSince(states, j, n);
      }
    }
    assert FiredSince(states, i, i) <==> states[i].status.Firing?;
  }

  /** The alert fired at step `j` and is not resolved up to step `i`. */
  predicate FiredSince(states: seq<State>, j: nat, i: nat)
    requires j <= i < |states|
  {
    states[j].status.Firing? && forall k :: j < k <= i ==> !Resolved(states[k])
  }

  /** The state carries status `st` entered at `since`: as its own, or as the
      active status an outage interrupted. */
  predicate Carries(s: State, st: Status, since: nat) {
    (s.status == st && s.since == since) || (s.status.IsOutage() && s.interrupted == Some(ActiveStatus(st, since)))
  }

  predicate Interrupts(s: State, st: Status) {
    s.status.IsOutage() && s.interrupted.Some? && s.interrupted.value.status == st
  }

  /** Step `j` enters status `st`: the state before does not carry it, or `st` is
      a hold that an edit restarts. */
  predicate Enters(steps: seq<Step>, states: seq<State>, j: nat, st: Status)
    requires j < |steps| == |states|
  {
    && Effective(steps, states, j)
    && states[j].status == st
    && (j > 0 ==>
          || !(states[j - 1].status == st || Interrupts(states[j - 1], st))
          || ((st.Pending? || st.Recovering?) && states[j - 1].revision != states[j].revision))
  }

  /** `since` is when the status was entered: the clock of a step that entered
      it, after which every state carries it, through outages too. */
  lemma {:induction false} SinceIsEntryTime(steps: seq<Step>, states: seq<State>, i: nat, st: Status, since: nat)
    returns (j: nat)
    requires IsRun(steps, states) && i < |steps| && Carries(states[i], st, since)
    ensures j <= i && Enters(steps, states, j, st) && steps[j].now == since
    ensures forall k :: j <= k <= i ==> Carries(states[k], st, since)
  {
    assert Follows(steps, states, i);
    if i > 0 && Carries(states[i - 1], st, since)
       && !(Effective(steps, states, i) && st.IsHold() && states[i].status == st && states[i - 1].revision != states[i].revision)
    {
      j := SinceIsEntryTime(steps, states, i - 1, st, since);
    } else {
      j := i;
      if i > 0 { InterruptedIsWellFormed(steps, states, i - 1); }
    }
  }

  /** The status an outage interrupted is the one held just before the outage began. */
  lemma {:induction false} InterruptedIsHeldBefore(steps: seq<Step>, states: seq<State>, i: nat, a: ActiveStatus)
    requires IsRun(steps, states) && i < |steps| && states[i].status.IsOutage()
    ensures states[i].interrupted == Some(a)
       <==> exists j: nat :: j < i && HeldBeforeOutage(states, j, i + 1, a.status) && states[j].since == a.since
  {
    assert Follows(steps, states, i);
    if i > 0 {
      assert HeldBeforeOutage(states, i - 1, i + 1, a.status) <==> states[i - 1].status == a.status && a.status in {Firing, Recovering};
      if states[i - 1].status.IsOutage() {
        InterruptedIsHeldBefore(steps, states, i - 1, a);
        forall j: nat | j < i - 1
          ensures HeldBeforeOutage(states, j, i + 1, a.status) <==> HeldBeforeOutage(states, j, i, a.status) {
        }
      }
    }
  }

  /** State `j` has the active status `st` and every state after it before `i` is an outage. */
  predicate HeldBeforeOutage(states: seq<State>, j: nat, i: nat, st: Status)
    requires j < i <= |states|
  {
    && (st.Firing? || st.Recovering?) && states[j].status == st
    && forall k :: j < k < i ==> states[k].status.IsOutage()
  }

  function ChangeAt(steps: seq<Step>, states: seq<State>, i: nat): Change
    requires i < |steps| == |states|
  {
    var s := steps[i];
    Evaluate(s.monitor, Prior(states, i), s.observation, s.slot, s.now).1
  }

  /** What a step reports: the statuses on both sides, whether they differ, and
      whether an outage ends with the status it began from. */
  lemma ChangeIsReported(steps: seq<Step>, states: seq<State>, i: nat)
    requires IsRun(steps, states) && i < |steps|
    ensures var c := ChangeAt(steps, states, i);
      && c.previous == (if i == 0 then None else Some(states[i - 1].status))
      && c.current == states[i].status
      && (c.transitioned <==> c.previous != Some(c.current))
      && (c.resumed <==> exists j: nat :: j + 1 < i && HeldBeforeOutage(states, j, i, states[i].status))
  {
    assert Follows(steps, states, i);
    if i > 0 && states[i - 1].status.IsOutage() {
      InterruptedIsWellFormed(steps, states, i - 1);
      var st := states[i].status;
      if j: nat :| j + 1 < i && HeldBeforeOutage(states, j, i, st) {
        InterruptedIsHeldBefore(steps, states, i - 1, ActiveStatus(st, states[j].since));
      }
      if states[i - 1].interrupted.Some? {
        InterruptedIsHeldBefore(steps, states, i - 1, states[i - 1].interrupted.value);
      }
    }
  }

  /** Step `i` starts a new alert: it enters Firing from a state that is not active. */
  predicate StartsEpisode(states: seq<State>, i: nat)
    requires i < |states|
  {
    states[i].status.Firing? && (i > 0 ==> !IsActive(states[i - 1]))
  }

  /** Two new alerts are always separated by a resolution. */
  lemma EpisodesAreSeparated(steps: seq<Step>, states: seq<State>, i: nat, j: nat)
    requires IsRun(steps, states) && i < j < |steps|
    requires StartsEpisode(states, i) && StartsEpisode(states, j)
    ensures exists k :: i < k < j && Resolved(states[k])
  {
    if forall k :: i < k <= j - 1 ==> !Resolved(states[k]) {
      ActiveUntilResolved(steps, states, i, j - 1);
    }
  }

  // ---------------------------------------------------------------- the status of one step

  /** The comparison of a number with a threshold, on the extended real line;
      a threshold that is not a number is only ever unequal. */
  predicate Satisfies(comparator: Comparator, x: real, threshold: Float) {
    match threshold
    case Finite(t) =>
      (match comparator
       case Lt => x < t
       case Lte => x <= t
       case Gt => x > t
       case Gte => x >= t
       case Eq => x == t
       case Ne => x != t)
    case PositiveInfinity => comparator in {Lt, Lte, Ne}
    case NegativeInfinity => comparator in {Gt, Gte, Ne}
    case NaN => comparator == Ne
  }

  /** The observation is a number that meets the condition of the rule. */
  predicate BreachValue(step: Step) {
    && step.observation.Value? && step.observation.value.Finite?
    && Satisfies(step.monitor.comparator, step.observation.value.value, step.monitor.threshold)
  }

  /** The observation is a value that does not breach. */
  predicate ClearValue(step: Step) {
    step.observation.Value? && !BreachValue(step)
  }

  /** The observation breaches, or a policy treats it as breaching. */
  predicate CountsAsBreach(step: Step) {
    || BreachValue(step)
    || (step.observation.Absent? && step.monitor.noData.TreatNoDataAsFiring?)
    || (step.observation.Failed? && step.monitor.executionError.TreatErrorAsFiring?)
  }

  /** A monitor is Disabled exactly when its rule is; every other status is
      decided by the observation, the policies, the holds and whether the alert is active. */
  lemma StatusFollowsTheRule(steps: seq<Step>, states: seq<State>, i: nat)
    requires IsRun(steps, states) && i < |steps| && Effective(steps, states, i)
    ensures states[i].status.Disabled? <==> !steps[i].monitor.enabled
    ensures var m, o, s := steps[i].monitor, steps[i].observation, states[i].status;
      var active := i > 0 && IsActive(states[i - 1]);
      m.enabled ==>
        && (CountsAsBreach(steps[i]) ==>
              s.Firing? || (s.Pending? && !active && m.forSeconds > 0))
        && (ClearValue(steps[i]) ==>
              s.Inactive? || (s.Recovering? && active && m.recoverForSeconds > 0))
        && (o.Absent? && m.noData.ReportNoData? ==> s.NoData?)
        && (o.Failed? && m.executionError.ReportError? ==> s.Error?)
        && (o.Failed? && m.executionError.KeepLast? ==>
              s == if i > 0 && !states[i - 1].status.Disabled? then states[i - 1].status else Status.Error)
  {
    assert Follows(steps, states, i);
  }

  /** Without a hold, or on an alert that is active, a breach fires at once and
      nothing else starts an alert. */
  lemma FiresAtOnceExactly(steps: seq<Step>, states: seq<State>, i: nat)
    requires IsRun(steps, states) && i < |steps| && Effective(steps, states, i)
    requires steps[i].monitor.forSeconds == 0 || (i > 0 && IsActive(states[i - 1]))
    ensures states[i].status.Firing? <==>
      && steps[i].monitor.enabled
      && (CountsAsBreach(steps[i]) || (KeepsLast(steps[i]) && i > 0 && states[i - 1].status.Firing?))
  {
    StatusFollowsTheRule(steps, states, i);
  }

  /** The evaluation failed and the rule says to keep the status it had. */
  predicate KeepsLast(step: Step) {
    step.observation.Failed? && step.monitor.executionError.KeepLast?
  }

  /** Without a recovery hold an active alert resolves exactly on a clear value. */
  lemma ResolvesAtOnceExactly(steps: seq<Step>, states: seq<State>, i: nat)
    requires IsRun(steps, states) && 0 < i < |steps| && Effective(steps, states, i)
    requires IsActive(states[i - 1])
    requires steps[i].monitor.recoverForSeconds == 0
    ensures states[i].status.Inactive? <==> steps[i].monitor.enabled && ClearValue(steps[i])
  {
    StatusFollowsTheRule(steps, states, i);
  }

  // ---------------------------------------------------------------- what a state records

  /** Step `j` puts a value into the state. */
  predicate BringsValue(steps: seq<Step>, states: seq<State>, j: nat)
    requires j < |steps| == |states|
  {
    Effective(steps, states, j) && steps[j].monitor.enabled && steps[j].observation.Value?
  }

  /** Step `j` is the last one up to `i` that brought a value, and the rule was not edited since. */
  predicate LatestValue(steps: seq<Step>, states: seq<State>, j: nat, i: nat)
    requires j <= i < |steps| == |states|
  {
    && BringsValue(steps, states, j)
    && states[j].revision == states[i].revision
    && forall k: nat :: j < k <= i ==> !BringsValue(steps, states, k)
  }

  /** `last_value` is the latest value seen under the revision in force, if any. */
  lemma {:induction false} LastValueIsLatest(steps: seq<Step>, states: seq<State>, i: nat, v: Float)
    requires IsRun(steps, states) && i < |steps|
    ensures states[i].lastValue == Some(v)
       <==> exists j: nat :: j <= i && LatestValue(steps, states, j, i) && steps[j].observation.value == v
  {
    assert Follows(steps, states, i);
    if BringsValue(steps, states, i) {
      assert LatestValue(steps, states, i, i);
    } else if i > 0 {
      LastValueIsLatest(steps, states, i - 1, v);
      if states[i - 1].revision == states[i].revision {
        forall j: nat | j < i
          ensures LatestValue(steps, states, j, i) <==> LatestValue(steps, states, j, i - 1) {
        }
      } else {
        forall j: nat | j < i ensures states[j].revision != states[i].revision {
          RunIsMonotone(steps, states, j, i - 1);
          OneStepIsOrdered(steps, states, i);
        }
      }
    }
  }

  /** A state is stale exactly when the evaluation brought no value, and the
      error class it carries is that of the failure. */
  lemma OutageIsRecorded(steps: seq<Step>, states: seq<State>, i: nat)
    requires IsRun(steps, states) && i < |steps| && Effective(steps, states, i)
    ensures states[i].lastEvaluatedAt == steps[i].now
    ensures states[i].stale <==> steps[i].monitor.enabled && !steps[i].observation.Value?
    ensures states[i].lastErrorClass ==
      if steps[i].monitor.enabled && steps[i].observation.Failed? then Some(steps[i].observation.class_) else None
  {
    assert Follows(steps, states, i);
  }

  // ---------------------------------------------------------------- the `for` hold

  /** From one time to another is at least the hold; a hold that does not fit a
      64-bit count of nanoseconds lasts the whole range. */
  predicate Lasts(from: nat, to: nat, seconds: nat) {
    to - from >= seconds * 1_000_000_000 || to - from >= 0xFFFF_FFFF_FFFF_FFFF
  }

  /** Steps `j..i` keep the alert Pending under revision `rev`, timed from step `j`,
      without a clear value. */
  predicate PendingStretch(steps: seq<Step>, states: seq<State>, j: nat, i: nat, rev: nat)
    requires i <= |steps| == |states|
  {
    && j < i
    && Effective(steps, states, j)
    && (forall k :: j <= k < i ==>
          states[k].status.Pending? && states[k].revision == rev && states[k].since == steps[j].now)
    && (forall k: nat :: j <= k < i && Effective(steps, states, k) ==> !ClearValue(steps[k]))
  }

  /** A Pending state is always the end of such a stretch. */
  lemma {:induction false} PendingHasStretch(steps: seq<Step>, states: seq<State>, i: nat) returns (j: nat)
    requires IsRun(steps, states) && 0 < i <= |steps|
    requires states[i - 1].status.Pending?
    ensures PendingStretch(steps, states, j, i, states[i - 1].revision)
  {
    assert Follows(steps, states, i - 1);
    if Effective(steps, states, i - 1) && states[i - 1].since == steps[i - 1].now {
      j := i - 1;
    } else {
      j := PendingHasStretch(steps, states, i - 1);
    }
  }

  /** Hold soundness and completeness for firing: a monitor with a `for` hold
      starts firing exactly when it is enabled, the observation counts as a
      breach, and an unbroken Pending stretch of its own revision has lasted the hold. */
  lemma FiresExactlyAfterHold(steps: seq<Step>, states: seq<State>, i: nat)
    requires IsRun(steps, states) && i < |steps| && Effective(steps, states, i)
    requires i > 0 ==> !IsActive(states[i - 1])
    requires steps[i].monitor.forSeconds > 0
    ensures states[i].status.Firing? <==>
      && steps[i].monitor.enabled && CountsAsBreach(steps[i])
      && exists j: nat ::
           && PendingStretch(steps, states, j, i, steps[i].monitor.revision)
           && Lasts(steps[j].now, steps[i].now, steps[i].monitor.forSeconds)
  {
    assert Follows(steps, states, i);
    if i > 0 && states[i - 1].status.Pending? && states[i - 1].revision == steps[i].monitor.revision {
      var j := PendingHasStretch(steps, states, i);
      assert states[i - 1].since == steps[j].now;
    }
  }

  // ---------------------------------------------------------------- the `recover_for` hold

  /** Step `k` brings a new revision into effect with an evaluation that reports an outage. */
  predicate EditOnOutage(states: seq<State>, k: nat)
    requires 0 < k < |states|
  {
    states[k].revision != states[k - 1].revision && states[k].status.IsOutage()
  }

  /** Steps `j..i` carry a Recovering status timed from step `j`, possibly
      through outages, and no observation counted as a breach. */
  predicate RecoveryStretch(steps: seq<Step>, states: seq<State>, j: nat, i: nat)
    requires i <= |steps| == |states|
  {
    && j < i
    && Effective(steps, states, j)
    && (forall k :: j <= k < i ==> Carries(states[k], Recovering, steps[j].now))
    && (forall k: nat :: j <= k < i && Effective(steps, states, k) ==> !CountsAsBreach(steps[k]))
    && (forall k: nat :: j < k < i && states[k].revision != states[k - 1].revision ==> EditOnOutage(states, k))
  }

  /** One more step of a recovery that was not entered by it. */
  lemma RecoveryContinues(steps: seq<Step>, states: seq<State>, i: nat, since: nat)
    requires IsRun(steps, states) && i < |steps| && Carries(states[i], Recovering, since)
    requires !(Effective(steps, states, i) && steps[i].now == since)
    ensures i > 0 && Carries(states[i - 1], Recovering, since)
    ensures Effective(steps, states, i) ==> !CountsAsBreach(steps[i])
    ensures states[i].revision != states[i - 1].revision ==> EditOnOutage(states, i)
  {
    assert Follows(steps, states, i);
    if i > 0 {
      InterruptedIsWellFormed(steps, states, i - 1);
    }
  }

  lemma {:induction false} RecoveringHasStretch(steps: seq<Step>, states: seq<State>, i: nat, since: nat) returns (j: nat)
    requires IsRun(steps, states) && 0 < i <= |steps|
    requires Carries(states[i - 1], Recovering, since)
    ensures RecoveryStretch(steps, states, j, i) && steps[j].now == since
  {
    if Effective(steps, states, i - 1) && since == steps[i - 1].now {
      j := i - 1;
      assert Follows(steps, states, j);
    } else {
      RecoveryContinues(steps, states, i - 1, since);
      j := RecoveringHasStretch(steps, states, i - 1, since);
    }
  }

  /** Hold soundness and completeness for recovery: an active alert under a
      `recover_for` hold becomes Inactive exactly on a clear value that ends a
      recovery stretch lasting the hold, under the revision of the last state. */
  lemma ResolvesExactlyAfterHold(steps: seq<Step>, states: seq<State>, i: nat)
    requires IsRun(steps, states) && 0 < i < |steps| && Effective(steps, states, i)
    requires IsActive(states[i - 1])
    requires steps[i].monitor.recoverForSeconds > 0
    ensures states[i].status.Inactive? <==>
      && steps[i].monitor.enabled && ClearValue(steps[i])
      && states[i - 1].revision == steps[i].monitor.revision
      && exists j: nat ::
           && RecoveryStretch(steps, states, j, i)
           && Lasts(steps[j].now, steps[i].now, steps[i].monitor.recoverForSeconds)
  {
    var s := states[i - 1];
    assert Follows(steps, states, i);
    InterruptedIsWellFormed(steps, states, i - 1);
    if s.Active().value.status.Recovering? {
      var j := RecoveringHasStretch(steps, states, i, s.Active().value.since);
      assert Carries(s, Recovering, steps[j].now);
    }
  }

  /** The counted recovery time lies under one revision exactly when no edit took
      effect on an outage evaluation during the stretch. */
  lemma {:induction false} RecoveryStaysInOneRevisionExactly(steps: seq<Step>, states: seq<State>, j: nat, i: nat)
    requires IsRun(steps, states) && i <= |steps| && RecoveryStretch(steps, states, j, i)
    ensures (forall k :: j <= k < i ==> states[k].revision == states[i - 1].revision)
       <==> (forall k: nat :: j < k < i ==> !EditOnOutage(states, k))
    decreases i
  {
    if j + 1 < i {
      RecoveryStaysInOneRevisionExactly(steps, states, j, i - 1);
      RunIsMonotone(steps, states, j, i - 2);
      RunIsMonotone(steps, states, i - 2, i - 1);
      if states[i - 1].revision != states[i - 2].revision {
        assert EditOnOutage(states, i - 1);
        assert states[j].revision != states[i - 1].revision;
      }
    }
  }

  // ---------------------------------------------------------------- the hold that crosses an edit

  const CRITICAL: Monitor :=
    Monitor(7, 1, true, Gt, Finite(10.0), 0, 5, ReportNoData, ReportError, 1, "")

  /** Fires, recovers, is edited while a query returns no data, and then sees one clear value. */
  const EDITED_DURING_OUTAGE: seq<Step> :=
    [ Step(CRITICAL, Value(Finite(11.0)), 1, 1 * NANOS_PER_SECOND),
      Step(CRITICAL, Value(Finite(1.0)), 2, 2 * NANOS_PER_SECOND),
      Step(CRITICAL.(revision := 2), Absent, 3, 6 * NANOS_PER_SECOND),
      Step(CRITICAL.(revision := 2), Value(Finite(1.0)), 4, 7 * NANOS_PER_SECOND) ]

  /** Recovery time accumulated under revision 1 counts toward revision 2: the
      edited rule resolves one second after it took effect, on its first value. */
  lemma RecoveryHoldCanCrossAnEdit(states: seq<State>)
    requires IsRun(EDITED_DURING_OUTAGE, states)
    ensures var steps := EDITED_DURING_OUTAGE;
      && states[1].status.Recovering? && states[1].revision == 1
      && EditOnOutage(states, 2)
      && states[3].status.Inactive? && states[3].revision == 2
      && !Lasts(steps[2].now, steps[3].now, steps[3].monitor.recoverForSeconds)
  {
    var steps := EDITED_DURING_OUTAGE;
    assert Follows(steps, states, 0) && states[0].status.Firing?;
    assert Follows(steps, states, 1) && states[1].status.Recovering? && states[1].since == 2 * NANOS_PER_SECOND;
    assert Follows(steps, states, 2) && states[2].interrupted == Some(ActiveStatus(Recovering, 2 * NANOS_PER_SECOND));
    assert Follows(steps, states, 3);
  }
}
