/** The alert state machine of one monitor: folding one observation into the
    prior durable state (crates/alert/src/state.rs).

    Timestamps, slots and revisions are `u64` in the program and `nat` here; the
    only arithmetic on them that could leave the range is saturating and is
    written out in `HeldFor`.  A float is its IEEE class plus an exact value:
    `evaluate` only tests finiteness and compares. */
module AlertState {
  import opened Wrappers

  const U64_MAX: nat := 0xFFFF_FFFF_FFFF_FFFF
  const NANOS_PER_SECOND: nat := 1_000_000_000

  datatype Float = NaN | NegativeInfinity | PositiveInfinity | Finite(value: real)

  datatype Comparator = Lt | Lte | Gt | Gte | Eq | Ne

  datatype NoDataPolicy = ReportNoData | TreatNoDataAsFiring

  datatype ErrorPolicy = KeepLast | ReportError | TreatErrorAsFiring

  /** A rule revision.  `rest` stands for the fields no theorem looks into
      (name, query, labels, annotations, interval). */
  datatype Monitor = Monitor(
    id: nat,
    revision: nat,
    enabled: bool,
    comparator: Comparator,
    threshold: Float,
    forSeconds: nat,
    recoverForSeconds: nat,
    noData: NoDataPolicy,
    executionError: ErrorPolicy,
    updatedAt: nat,
    rest: string)

  datatype Status = Inactive | Pending | Firing | Recovering | NoData | Error | Disabled
  {
    /** Statuses whose `since` is a hold timer. */
    predicate IsHold() {
      Pending? || Recovering?
    }

    predicate IsOutage() {
      NoData? || Error?
    }
  }

  /** An active status together with the time it was entered. */
  datatype ActiveStatus = ActiveStatus(status: Status, since: nat)

  datatype State = State(
    revision: nat,
    status: Status,
    since: nat,
    lastEvaluatedAt: nat,
    lastSlot: nat,
    lastValue: Option<Float>,
    lastErrorClass: Option<string>,
    sequence: nat,
    stale: bool,
    interrupted: Option<ActiveStatus>)
  {
    /** The active status carried by this state: its own, or the one an outage interrupted. */
    function Active(): Option<ActiveStatus> {
      match status
      case Firing => Some(ActiveStatus(status, since))
      case Recovering => Some(ActiveStatus(status, since))
      case NoData => interrupted
      case Error => interrupted
      case _ => None
    }

    /** This state already reflects `slot` under `rev`, or something newer. */
    predicate Covers(rev: nat, slot: nat) {
      !Before(revision, lastSlot, rev, slot)
    }
  }

  /** Lexicographic order on `(revision, slot)`. */
  predicate Before(rev1: nat, slot1: nat, rev2: nat, slot2: nat) {
    rev1 < rev2 || (rev1 == rev2 && slot1 < slot2)
  }

  datatype Observation = Value(value: Float) | Absent | Failed(class_: string)

  datatype Change = Change(
    previous: Option<Status>,
    current: Status,
    transitioned: bool,
    resumed: bool)

  predicate Less(a: Float, b: Float) {
    match (a, b)
    case (Finite(x), Finite(y)) => x < y
    case (NegativeInfinity, Finite(_)) => true
    case (NegativeInfinity, PositiveInfinity) => true
    case (Finite(_), PositiveInfinity) => true
    case _ => false
  }

  predicate FloatEqual(a: Float, b: Float) {
    !a.NaN? && a == b
  }

  predicate Compare(comparator: Comparator, value: Float, threshold: Float) {
    match comparator
    case Lt => Less(value, threshold)
    case Lte => Less(value, threshold) || FloatEqual(value, threshold)
    case Gt => Less(threshold, value)
    case Gte => Less(threshold, value) || FloatEqual(value, threshold)
    case Eq => FloatEqual(value, threshold)
    case Ne => !FloatEqual(value, threshold)
  }

  function SaturatingSub(a: nat, b: nat): nat {
    if a < b then 0 else a - b
  }

  /** A hold of `seconds` in nanoseconds, saturated at the largest `u64`. */
  function HoldNanos(seconds: nat): nat {
    if seconds * NANOS_PER_SECOND > U64_MAX then U64_MAX else seconds * NANOS_PER_SECOND
  }

  predicate HeldFor(since: nat, now: nat, seconds: nat) {
    SaturatingSub(now, since) >= HoldNanos(seconds)
  }

  /** The condition is true, or a policy treats the observation as true. */
  function BreachingStatus(monitor: Monitor, prior: Option<State>, sameRevision: Option<State>, now: nat): Status {
    if (prior.Some? && prior.value.Active().Some?) || monitor.forSeconds == 0 then
      Firing
    else
      var pendingSince :=
        if sameRevision.Some? && sameRevision.value.status.Pending? then sameRevision.value.since else now;
      if HeldFor(pendingSince, now, monitor.forSeconds) then Firing else Pending
  }

  /** The condition is false. */
  function ClearStatus(monitor: Monitor, prior: Option<State>, sameRevision: Option<State>, now: nat): Status {
    if prior.None? || prior.value.Active().None? then
      Inactive
    else if monitor.recoverForSeconds == 0 then
      Inactive
    else
      var active := prior.value.Active().value;
      var recoveringSince :=
        if sameRevision.Some? && active.status.Recovering? then active.since else now;
      if HeldFor(recoveringSince, now, monitor.recoverForSeconds) then Inactive else Recovering
  }

  predicate Breaching(monitor: Monitor, value: Float) {
    value.Finite? && Compare(monitor.comparator, value, monitor.threshold)
  }

  datatype Verdict = Verdict(status: Status, value: Option<Float>, error: Option<string>, stale: bool)

  function NextStatus(
    monitor: Monitor, prior: Option<State>, sameRevision: Option<State>, observation: Observation, now: nat): Verdict
  {
    if !monitor.enabled then
      Verdict(Disabled, None, None, false)
    else
      match observation
      case Value(value) =>
        var status :=
          if Breaching(monitor, value)
          then BreachingStatus(monitor, prior, sameRevision, now)
          else ClearStatus(monitor, prior, sameRevision, now);
        Verdict(status, Some(value), None, false)
      case Absent =>
        var status :=
          match monitor.noData
          case ReportNoData => Status.NoData
          case TreatNoDataAsFiring => BreachingStatus(monitor, prior, sameRevision, now);
        Verdict(status, None, None, true)
      case Failed(c) =>
        var status :=
          match monitor.executionError
          case KeepLast =>
            if prior.None? || prior.value.status.Disabled? then Status.Error else prior.value.status
          case ReportError => Status.Error
          case TreatErrorAsFiring => BreachingStatus(monitor, prior, sameRevision, now);
        Verdict(status, None, Some(c), true)
  }

  /** `since` of the next state: kept when the status (or the one resumed from
      an outage) continues, restarted otherwise and for a hold under a new revision. */
  function NextSince(prior: Option<State>, sameRevision: Option<State>, resumed: Option<ActiveStatus>, status: Status, now: nat): nat {
    var continues := sameRevision.Some? || !status.IsHold();
    if resumed.Some? && continues then
      resumed.value.since
    else if prior.Some? && prior.value.status == status && continues then
      prior.value.since
    else
      now
  }

  /** Fold one observation for `slot` into the prior durable state. */
  function Evaluate(monitor: Monitor, prior: Option<State>, observation: Observation, slot: nat, now: nat): (State, Change)
  {
    if prior.Some? && prior.value.Covers(monitor.revision, slot) then
      (prior.value, Change(Some(prior.value.status), prior.value.status, false, false))
    else
      var sameRevision := if prior.Some? && prior.value.revision == monitor.revision then prior else None;
      var previous := if prior.Some? then Some(prior.value.status) else None;
      var verdict := NextStatus(monitor, prior, sameRevision, observation, now);
      var status := verdict.status;
      var suspended := if prior.Some? && prior.value.status.IsOutage() then prior.value.interrupted else None;
      var resumed := if suspended.Some? && suspended.value.status == status then suspended else None;
      var since := NextSince(prior, sameRevision, resumed, status, now);
      var interrupted := if status.IsOutage() && prior.Some? then prior.value.Active() else None;
      var transitioned := previous != Some(status);
      var sequence := (if prior.Some? then prior.value.sequence else 0) + (if transitioned then 1 else 0);
      var lastValue :=
        if verdict.value.Some? then verdict.value
        else if sameRevision.Some? then sameRevision.value.lastValue
        else None;
      (State(monitor.revision, status, since, now, slot, lastValue, verdict.error, sequence, verdict.stale, interrupted),
       Change(previous, status, transitioned, transitioned && resumed.Some?))
  }
}
