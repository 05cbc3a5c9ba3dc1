/** Choosing the slot to evaluate, in checked `u64` arithmetic
    (crates/alert/src/schedule.rs).

    `digest(id)` stands for the first eight bytes of the SHA-256 of the monitor
    and slot id; nothing is assumed of it. */
module Schedule {
  import opened Wrappers
  import opened AlertState

  datatype Slot = Slot(id: nat, start: nat, end: nat, executeAt: nat)

  function CheckedMul(a: nat, b: nat): Option<nat> {
    if a * b <= U64_MAX then Some(a * b) else None
  }

  function CheckedAdd(a: nat, b: nat): Option<nat> {
    if a + b <= U64_MAX then Some(a + b) else None
  }

  function CheckedSub(a: nat, b: nat): Option<nat> {
    if b <= a then Some(a - b) else None
  }

  /** Deterministic jitter of slot `id`, at most `cap`. */
  function Jitter(digest: nat -> nat, id: nat, cap: nat): (j: nat)
    ensures j <= cap
  {
    if cap == 0 then 0 else digest(id) % (cap + 1)
  }

  function Min(a: nat, b: nat): nat {
    if a < b then a else b
  }

  /** Slot `id` of a monitor evaluated every `everySeconds`, if it fits in `u64`. */
  function SlotOf(digest: nat -> nat, id: nat, everySeconds: nat, jitterSeconds: nat, delay: nat): Option<Slot> {
    match CheckedMul(everySeconds, NANOS_PER_SECOND)
    case None => None
    case Some(every) =>
      if every == 0 then None
      else
        match (CheckedMul(id, every), CheckedMul(jitterSeconds, NANOS_PER_SECOND))
        case (Some(start), Some(jitterNanos)) =>
          (match CheckedAdd(start, every)
           case None => None
           case Some(end) =>
             var jitter := Jitter(digest, id, Min(jitterNanos, every - 1));
             match CheckedAdd(end, delay)
             case None => None
             case Some(delayed) =>
               match CheckedAdd(delayed, jitter)
               case None => None
               case Some(at) => Some(Slot(id, start, end, at)))
        case _ => None
  }

  /** How many slots of length `every` end by `horizon`. */
  function EndedSlots(horizon: nat, every: nat): (n: nat)
    requires every > 0
    ensures n * every <= horizon < (n + 1) * every
  {
    assert horizon == (horizon / every) * every + horizon % every;
    horizon / every
  }

  /** The newest slot whose execution time is at or before `now`, if any. */
  function LatestDueSlot(digest: nat -> nat, now: nat, everySeconds: nat, jitterSeconds: nat, delay: nat): Option<Slot> {
    match (CheckedMul(everySeconds, NANOS_PER_SECOND), CheckedSub(now, delay))
    case (Some(every), Some(horizon)) =>
      if every == 0 then None
      else
        var ended := EndedSlots(horizon, every);
        if ended == 0 then None
        else
          (match SlotOf(digest, ended - 1, everySeconds, jitterSeconds, delay)
           case None => None
           case Some(candidate) =>
             if candidate.executeAt <= now then Some(candidate)
             else if ended == 1 then None
             else
               match SlotOf(digest, ended - 2, everySeconds, jitterSeconds, delay)
               case None => None
               case Some(previous) => if previous.executeAt <= now then Some(previous) else None)
    case _ => None
  }

  // ---------------------------------------------------------------- specification over unbounded numbers

  /** When slot `id` runs, if numbers never overflowed. */
  function ExecuteAt(digest: nat -> nat, id: nat, every: nat, jitterNanos: nat, delay: nat): nat
    requires every > 0
  {
    (id + 1) * every + delay + Jitter(digest, id, Min(jitterNanos, every - 1))
  }

  predicate Due(digest: nat -> nat, id: nat, now: nat, every: nat, jitterNanos: nat, delay: nat)
    requires every > 0
  {
    ExecuteAt(digest, id, every, jitterNanos, delay) <= now
  }

  /** `result` is the due slot with the highest id, or nothing if none is due. */
  ghost predicate IsNewestDue(digest: nat -> nat, now: nat, every: nat, jitterNanos: nat, delay: nat, result: Option<Slot>)
    requires every > 0
  {
    match result
    case Some(s) =>
      && Due(digest, s.id, now, every, jitterNanos, delay)
      && s == Slot(s.id, s.id * every, (s.id + 1) * every, ExecuteAt(digest, s.id, every, jitterNanos, delay))
      && forall id: nat :: id > s.id ==> !Due(digest, id, now, every, jitterNanos, delay)
    case None =>
      forall id: nat :: !Due(digest, id, now, every, jitterNanos, delay)
  }

  lemma MulMonotone(a: nat, b: nat, c: nat)
    requires a <= b
    ensures a * c <= b * c
  {
  }

  /** A slot still inside its jitter is followed back to one that is due: its
      jitter is shorter than the interval. */
  lemma PreviousIsDue(digest: nat -> nat, n: nat, now: nat, every: nat, jitterNanos: nat, delay: nat)
    requires every > 0 && (n + 2) * every + delay <= now
    ensures Due(digest, n, now, every, jitterNanos, delay)
  {
    assert (n + 2) * every == (n + 1) * every + every;
  }

  lemma LaterSlotsAreNotDue(digest: nat -> nat, n: nat, id: nat, now: nat, every: nat, jitterNanos: nat, delay: nat)
    requires every > 0 && now < (n + 1) * every + delay && n <= id
    ensures !Due(digest, id, now, every, jitterNanos, delay)
  {
    MulMonotone(n + 1, id + 1, every);
  }

  /** The arithmetic of `LatestDueSlot` does not cut a due slot off: either no
      slot has ended, or the newest ended slot can be represented, or it is the
      first one and still inside its jitter. */
  predicate InRange(digest: nat -> nat, now: nat, every: nat, jitterNanos: nat, delay: nat)
    requires every > 0
  {
    now < delay ||
    var ended := EndedSlots(now - delay, every);
    ended == 0 ||
    var at := ExecuteAt(digest, ended - 1, every, jitterNanos, delay);
    (jitterNanos <= U64_MAX && at <= U64_MAX) || (ended == 1 && at > now)
  }

  /** `SlotOf` computes the unbounded slot whenever that fits, and nothing otherwise. */
  lemma SlotIsExact(digest: nat -> nat, id: nat, everySeconds: nat, jitterSeconds: nat, delay: nat)
    requires 0 < everySeconds * NANOS_PER_SECOND <= U64_MAX
    ensures var every, jitterNanos := everySeconds * NANOS_PER_SECOND, jitterSeconds * NANOS_PER_SECOND;
      var at := ExecuteAt(digest, id, every, jitterNanos, delay);
      SlotOf(digest, id, everySeconds, jitterSeconds, delay) ==
        if jitterNanos <= U64_MAX && at <= U64_MAX then Some(Slot(id, id * every, (id + 1) * every, at)) else None
  {
    var every := everySeconds * NANOS_PER_SECOND;
    assert id * every + every == (id + 1) * every;
  }

  /** A slot that fits: whole intervals from the epoch, run after the delay plus an offset
      that is the digest's remainder below the shorter of jitter and interval. */
  lemma SlotIsJittered(digest: nat -> nat, id: nat, everySeconds: nat, jitterSeconds: nat, delay: nat)
    requires SlotOf(digest, id, everySeconds, jitterSeconds, delay).Some?
    ensures var s := SlotOf(digest, id, everySeconds, jitterSeconds, delay).value;
      var offset := s.executeAt - s.end - delay;
      && s.id == id && s.start == id * everySeconds * NANOS_PER_SECOND && s.end == s.start + everySeconds * NANOS_PER_SECOND
      && 0 <= offset <= jitterSeconds * NANOS_PER_SECOND && offset < everySeconds * NANOS_PER_SECOND
      && (jitterSeconds < everySeconds ==> offset == digest(id) % (jitterSeconds * NANOS_PER_SECOND + 1))
      && (jitterSeconds >= everySeconds ==> offset == digest(id) % (everySeconds * NANOS_PER_SECOND))
  {
    assert digest(id) % 1 == 0;
    Rescaled(id, everySeconds, NANOS_PER_SECOND);
  }

  lemma Rescaled(a: nat, b: nat, c: nat)
    ensures a * (b * c) == a * b * c
  {
  }

  /** The slot `id` over unbounded numbers. */
  function UnboundedSlot(digest: nat -> nat, id: nat, every: nat, jitterNanos: nat, delay: nat): Slot
    requires every > 0
  {
    Slot(id, id * every, (id + 1) * every, ExecuteAt(digest, id, every, jitterNanos, delay))
  }

  /** What `LatestDueSlot` makes of the newest ended slot and the one before it. */
  function Choose(now: nat, newest: Option<Slot>, previous: Option<Slot>): Option<Slot> {
    match newest
    case None => None
    case Some(s) =>
      if s.executeAt <= now then newest
      else if previous.Some? && previous.value.executeAt <= now then previous
      else None
  }

  /** `LatestDueSlot` when at least one slot has ended. */
  lemma LatestDueSlotChooses(digest: nat -> nat, now: nat, everySeconds: nat, jitterSeconds: nat, delay: nat)
    requires delay <= now <= U64_MAX && everySeconds > 0
    requires EndedSlots(now - delay, everySeconds * NANOS_PER_SECOND) > 0
    ensures var every := everySeconds * NANOS_PER_SECOND;
      var ended := EndedSlots(now - delay, every);
      && every <= U64_MAX
      && LatestDueSlot(digest, now, everySeconds, jitterSeconds, delay) ==
           Choose(now, SlotOf(digest, ended - 1, everySeconds, jitterSeconds, delay),
                  if ended == 1 then None else SlotOf(digest, ended - 2, everySeconds, jitterSeconds, delay))
  {
    var every := everySeconds * NANOS_PER_SECOND;
    IntervalFits(now - delay, every);
    LatestOfEnded(digest, now, everySeconds, jitterSeconds, delay, every);
  }

  lemma LatestOfEnded(digest: nat -> nat, now: nat, everySeconds: nat, jitterSeconds: nat, delay: nat, every: nat)
    requires CheckedMul(everySeconds, NANOS_PER_SECOND) == Some(every) && every > 0
    requires CheckedSub(now, delay).Some? && EndedSlots(CheckedSub(now, delay).value, every) > 0
    ensures var ended := EndedSlots(CheckedSub(now, delay).value, every);
      LatestDueSlot(digest, now, everySeconds, jitterSeconds, delay) ==
        Choose(now, SlotOf(digest, ended - 1, everySeconds, jitterSeconds, delay),
               if ended == 1 then None else SlotOf(digest, ended - 2, everySeconds, jitterSeconds, delay))
  {
  }

  lemma IntervalFits(horizon: nat, every: nat)
    requires every > 0 && EndedSlots(horizon, every) > 0
    ensures every <= horizon
  {
    MulMonotone(1, EndedSlots(horizon, every), every);
  }

  /** The choice is the newest due slot unless the newest ended one is cut off while a slot is due. */
  lemma ChoiceIsNewestExactly(digest: nat -> nat, now: nat, every: nat, jitterNanos: nat, delay: nat, n: nat)
    requires every > 0 && now <= U64_MAX
    requires forall id: nat :: id > n ==> !Due(digest, id, now, every, jitterNanos, delay)
    requires n > 0 ==> Due(digest, n - 1, now, every, jitterNanos, delay)
    ensures var at := ExecuteAt(digest, n, every, jitterNanos, delay);
      var fits := jitterNanos <= U64_MAX && at <= U64_MAX;
      var newest := if fits then Some(UnboundedSlot(digest, n, every, jitterNanos, delay)) else None;
      var previous := if n > 0 && jitterNanos <= U64_MAX then Some(UnboundedSlot(digest, n - 1, every, jitterNanos, delay)) else None;
      IsNewestDue(digest, now, every, jitterNanos, delay, Choose(now, newest, previous)) <==> fits || (n == 0 && at > now)
  {
    var at := ExecuteAt(digest, n, every, jitterNanos, delay);
    if at > now {
      assert !Due(digest, n, now, every, jitterNanos, delay);
    } else {
      assert Due(digest, n, now, every, jitterNanos, delay);
    }
  }

  /** `LatestDueSlot` returns exactly the newest due slot, or nothing when none is
      due, if and only if the arithmetic is in range. */
  lemma LatestDueSlotIsNewestExactly(digest: nat -> nat, now: nat, everySeconds: nat, jitterSeconds: nat, delay: nat)
    requires now <= U64_MAX && everySeconds > 0
    ensures var every, jitterNanos := everySeconds * NANOS_PER_SECOND, jitterSeconds * NANOS_PER_SECOND;
      IsNewestDue(digest, now, every, jitterNanos, delay, LatestDueSlot(digest, now, everySeconds, jitterSeconds, delay))
      <==> InRange(digest, now, every, jitterNanos, delay)
  {
    var every, jitterNanos := everySeconds * NANOS_PER_SECOND, jitterSeconds * NANOS_PER_SECOND;
    if now < delay {
      NoneDue(digest, 0, now, every, jitterNanos, delay);
    } else {
      var ended := EndedSlots(now - delay, every);
      NoneDue(digest, ended, now, every, jitterNanos, delay);
      if ended > 0 {
        LatestDueSlotChooses(digest, now, everySeconds, jitterSeconds, delay);
        ChoiceIsUnbounded(digest, now, everySeconds, jitterSeconds, delay, ended - 1);
        ChoiceIsNewestExactly(digest, now, every, jitterNanos, delay, ended - 1);
      }
    }
  }

  /** The two candidates of `LatestDueSlot` over unbounded numbers. */
  lemma ChoiceIsUnbounded(digest: nat -> nat, now: nat, everySeconds: nat, jitterSeconds: nat, delay: nat, n: nat)
    requires now <= U64_MAX && 0 < everySeconds * NANOS_PER_SECOND <= U64_MAX
    requires (n + 1) * (everySeconds * NANOS_PER_SECOND) + delay <= now
    ensures var every, jitterNanos := everySeconds * NANOS_PER_SECOND, jitterSeconds * NANOS_PER_SECOND;
      var fits := jitterNanos <= U64_MAX && ExecuteAt(digest, n, every, jitterNanos, delay) <= U64_MAX;
      && (n > 0 ==> Due(digest, n - 1, now, every, jitterNanos, delay))
      && SlotOf(digest, n, everySeconds, jitterSeconds, delay) ==
           (if fits then Some(UnboundedSlot(digest, n, every, jitterNanos, delay)) else None)
      && (n > 0 ==> (
            SlotOf(digest, n - 1, everySeconds, jitterSeconds, delay) ==
              if jitterNanos <= U64_MAX then Some(UnboundedSlot(digest, n - 1, every, jitterNanos, delay)) else None))
  {
    var every, jitterNanos := everySeconds * NANOS_PER_SECOND, jitterSeconds * NANOS_PER_SECOND;
    SlotIsExact(digest, n, everySeconds, jitterSeconds, delay);
    if n > 0 {
      SlotIsExact(digest, n - 1, everySeconds, jitterSeconds, delay);
      PreviousIsDue(digest, n - 1, now, every, jitterNanos, delay);
    }
  }

  lemma NoneDue(digest: nat -> nat, n: nat, now: nat, every: nat, jitterNanos: nat, delay: nat)
    requires every > 0 && now < (n + 1) * every + delay
    ensures forall id: nat :: id >= n ==> !Due(digest, id, now, every, jitterNanos, delay)
  {
    forall id: nat | id >= n ensures !Due(digest, id, now, every, jitterNanos, delay) {
      LaterSlotsAreNotDue(digest, n, id, now, every, jitterNanos, delay);
    }
  }

  /** Out of range, a due slot is missed: at the last representable instant the
      newest ended slot's jitter overflows, and the slot before it is not tried. */
  lemma DueSlotCanBeMissed()
    ensures var digest := (id: nat) => 999_999_999;
      && LatestDueSlot(digest, U64_MAX, 1, 1, 0) == None
      && Due(digest, 18_446_744_071, U64_MAX, NANOS_PER_SECOND, NANOS_PER_SECOND, 0)
  {
    var digest := (id: nat) => 999_999_999;
    var ended := EndedSlots(U64_MAX, NANOS_PER_SECOND);
    assert ended == 18_446_744_073;
    assert Jitter(digest, ended - 1, NANOS_PER_SECOND - 1) == 999_999_999;
    SlotIsExact(digest, ended - 1, 1, 1, 0);
  }

  /** A condition on the clock and the configuration alone that keeps it in range. */
  lemma RoomForJitterSuffices(digest: nat -> nat, now: nat, every: nat, jitterNanos: nat, delay: nat)
    requires every > 0 && jitterNanos <= U64_MAX && now + Min(jitterNanos, every - 1) <= U64_MAX
    ensures InRange(digest, now, every, jitterNanos, delay)
  {
  }

  /** The chosen slot id never decreases as the clock advances. */
  lemma LatestDueSlotIsMonotone(digest: nat -> nat, now: nat, later: nat, everySeconds: nat, jitterSeconds: nat, delay: nat)
    requires now <= later <= U64_MAX && everySeconds > 0
    requires InRange(digest, now, everySeconds * NANOS_PER_SECOND, jitterSeconds * NANOS_PER_SECOND, delay)
    requires InRange(digest, later, everySeconds * NANOS_PER_SECOND, jitterSeconds * NANOS_PER_SECOND, delay)
    ensures var a := LatestDueSlot(digest, now, everySeconds, jitterSeconds, delay);
      var b := LatestDueSlot(digest, later, everySeconds, jitterSeconds, delay);
      a.Some? ==> b.Some? && a.value.id <= b.value.id
  {
    LatestDueSlotIsNewestExactly(digest, now, everySeconds, jitterSeconds, delay);
    LatestDueSlotIsNewestExactly(digest, later, everySeconds, jitterSeconds, delay);
    var every, jitterNanos := everySeconds * NANOS_PER_SECOND, jitterSeconds * NANOS_PER_SECOND;
    var a := LatestDueSlot(digest, now, everySeconds, jitterSeconds, delay);
    if a.Some? {
      assert Due(digest, a.value.id, later, every, jitterNanos, delay);
    }
  }
}
