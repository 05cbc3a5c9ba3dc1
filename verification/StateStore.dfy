/** Committing one evaluation as the program runs it: read the state head, fold the
    observation, publish the transition, swap the head
    (crates/alert/src/store.rs:388-437, 473-538,
    crates/scry-alertd/src/evaluator.rs:211-333).

    As in `AlertStore`, each store call is a step of this evaluator in the protocol
    of `AlertStateHeads`; `others`, `answers` and `unread` are arbitrary. */
module StateStore {
  import opened Wrappers
  import opened ObjectStore
  import opened AlertStateHeads
  import opened AlertStore

  /** The job's transition object is not there. */
  ghost predicate TransitionLost(store: Store<Key, Record>, j: Job) {
    j.proposal.transition.Some? && TransitionAt(j).0 !in store.objects
  }

  class StateStore {
    const deployment: string
    const me: nat
    const others: nat -> seq<Action>
    const answers: nat -> Answer
    const unread: nat -> bool
    var clock: nat
    var world: World

    ghost predicate Valid()
      reads this
    {
      Inv(deployment, world)
    }

    constructor (deployment: string, me: nat, others: nat -> seq<Action>, answers: nat -> Answer, unread: nat -> bool)
      ensures Valid() && world == InitialWorld()
      ensures this.deployment == deployment && this.me == me
      ensures this.others == others && this.answers == answers && this.unread == unread
    {
      this.deployment, this.me, this.others, this.answers, this.unread := deployment, me, others, answers, unread;
      clock, world := 0, InitialWorld();
    }

    method Perform(a: Action)
      requires Valid() && Enabled(world, a)
      modifies `world
      ensures world == Next(deployment, old(world), a) && Valid() && Evolves(old(world).shared, world.shared)
    {
      StepKeepsInv(deployment, world, a);
      world := Next(deployment, world, a);
    }

    /** Everyone else takes some steps. */
    method Yield()
      requires Valid()
      modifies `world, `clock
      ensures Valid() && world.At(me) == old(world.At(me)) && Evolves(old(world).shared, world.shared)
      ensures clock == old(clock) + 1
    {
      var steps := others(clock);
      clock := clock + 1;
      for i := 0 to |steps|
        invariant Valid() && world.At(me) == old(world.At(me)) && Evolves(old(world).shared, world.shared)
        invariant clock == old(clock) + 1
      {
        if steps[i].p != me && Enabled(world, steps[i]) {
          ghost var before := world.shared;
          Perform(steps[i]);
          EvolvesIsTransitive(old(world).shared, before, world.shared);
        }
      }
    }

    /** Some PUT or GET after time `from` broke off. */
    ghost predicate Broke(from: nat)
      reads this
    {
      exists t :: from < t <= clock && (answers(t).report.Broken? || unread(t))
    }

    /** What a result says about the store at the end of the call, as in `AlertStore`. */
    ghost predicate Explains(j: Job, done: Process, r: Result<(), StoreError>, from: nat)
      reads this
    {
      var store, head := world.shared.store, StateKey(j.Monitor());
      match r
      case Ok(_) => world.At(me) == done
      case Err(ObjectError) => world.At(me).Idle? && Broke(from)
      case Err(Missing) => world.At(me).Refused? && (head !in store.objects || TransitionLost(store, j))
      case Err(Collision) => world.At(me).Refused? && TransitionTaken(store, j.proposal, j.Monitor())
      case Err(Conflict) => world.At(me).Refused? && !Has(store, head, HeadRecord(j.proposal.head))
    }

    method PutTransitionObject(j: Job) returns (report: Report)
      requires Valid() && world.At(me) == Publishing(j) && j.proposal.transition.Some?
      modifies `world, `clock
      ensures Valid() && Evolves(old(world).shared, world.shared)
      ensures old(clock) <= clock && (report.Broken? ==> Broke(old(clock)))
      ensures world.At(me) == AfterReport(report, Swapping(j), CheckingTransition(j))
    {
      Yield();
      var answer := answers(clock);
      var (k, record) := TransitionAt(j);
      var commits := answer.commits && MayCreate(world.shared.store, k, record, answer.tag);
      report := Honest(answer.report, commits);
      ghost var before := world.shared;
      Perform(PutTransition(me, commits, answer.tag, report));
      EvolvesIsTransitive(old(world).shared, before, world.shared);
    }

    /** `create_identical` on the transition object. */
    method CreateTransition(j: Job) returns (r: Result<(), StoreError>)
      requires Valid() && world.At(me) == Publishing(j) && j.proposal.transition.Some?
      modifies `world, `clock
      ensures Valid() && Evolves(old(world).shared, world.shared)
      ensures old(clock) <= clock && Explains(j, Swapping(j), r, old(clock))
    {
      var report := PutTransitionObject(j);
      match report
      case Acknowledged => r := Ok(());
      case Broken => r := Err(ObjectError);
      case Ambiguous =>
        ghost var before := world.shared;
        r := ReadBackTransition(j);
        EvolvesIsTransitive(old(world).shared, before, world.shared);
    }

    /** A GET that fails ends the evaluation. */
    method GiveUp() returns (r: Result<(), StoreError>)
      requires Valid()
      modifies `world
      ensures Valid() && Evolves(old(world).shared, world.shared) && world.At(me).Idle? && r == Err(ObjectError)
    {
      Perform(Stop(me));
      r := Err(ObjectError);
    }

    /** Read the transition object back after an ambiguous answer. */
    method ReadBackTransition(j: Job) returns (r: Result<(), StoreError>)
      requires Valid() && world.At(me) == CheckingTransition(j) && j.proposal.transition.Some?
      modifies `world, `clock
      ensures Valid() && Evolves(old(world).shared, world.shared)
      ensures old(clock) <= clock && Explains(j, Swapping(j), r, old(clock))
    {
      Yield();
      ghost var before := world.shared;
      if unread(clock) {
        r := GiveUp();
      } else {
        var (k, record) := TransitionAt(j);
        var missing := k !in world.shared.store.objects;
        var identical := Has(world.shared.store, k, record);
        Perform(CheckTransition(me));
        r := if identical then Ok(()) else if missing then Err(Missing) else Err(Collision);
      }
      EvolvesIsTransitive(old(world).shared, before, world.shared);
    }

    method PutHead(j: Job) returns (report: Report)
      requires Valid() && world.At(me) == Swapping(j)
      modifies `world, `clock
      ensures Valid() && Evolves(old(world).shared, world.shared)
      ensures old(clock) <= clock && (report.Broken? ==> Broke(old(clock)))
      ensures world.At(me) == AfterReport(report, Succeeded(j), Resolving(j))
    {
      Yield();
      var answer := answers(clock);
      var commits := answer.commits && MaySwap(world.shared, j, answer.tag);
      report := Honest(answer.report, commits);
      ghost var before := world.shared;
      Perform(Swap(me, commits, answer.tag, report));
      EvolvesIsTransitive(old(world).shared, before, world.shared);
    }

    /** Read the head back after an ambiguous answer. */
    method ReadBack(j: Job) returns (r: Result<(), StoreError>)
      requires Valid() && world.At(me) == Resolving(j)
      modifies `world, `clock
      ensures Valid() && Evolves(old(world).shared, world.shared)
      ensures old(clock) <= clock && Explains(j, Succeeded(j), r, old(clock))
    {
      Yield();
      ghost var before := world.shared;
      if unread(clock) {
        r := GiveUp();
      } else {
        var missing := StateKey(j.Monitor()) !in world.shared.store.objects;
        var identical := Has(world.shared.store, StateKey(j.Monitor()), HeadRecord(j.proposal.head));
        Perform(Resolve(me));
        r := if identical then Ok(()) else if missing && j.prior.None? then Err(Missing) else Err(Conflict);
      }
      EvolvesIsTransitive(old(world).shared, before, world.shared);
    }

    /** `update`, or `create_identical` when there was no head. */
    method SwapHead(j: Job) returns (r: Result<(), StoreError>)
      requires Valid() && world.At(me) == Swapping(j)
      modifies `world, `clock
      ensures Valid() && Evolves(old(world).shared, world.shared)
      ensures old(clock) <= clock && Explains(j, Succeeded(j), r, old(clock))
    {
      var report := PutHead(j);
      match report
      case Acknowledged => r := Ok(());
      case Broken => r := Err(ObjectError);
      case Ambiguous =>
        ghost var before := world.shared;
        r := ReadBack(j);
        EvolvesIsTransitive(old(world).shared, before, world.shared);
    }

    /** `commit_state` on a proposal that passed its checks: transition first, head last. */
    method CommitState(j: Job) returns (r: Result<(), StoreError>)
      requires Valid()
      requires world.At(me) == if j.proposal.transition.Some? then Publishing(j) else Swapping(j)
      modifies `world, `clock
      ensures Valid() && Evolves(old(world).shared, world.shared)
      ensures old(clock) <= clock && Explains(j, Succeeded(j), r, old(clock))
    {
      if j.proposal.transition.Some? {
        r := CreateTransition(j);
        if r.Err? {
          return;
        }
      }
      ghost var published := world.shared;
      r := SwapHead(j);
      EvolvesIsTransitive(old(world).shared, published, world.shared);
    }

    /** What the result of an evaluation says.  `None` means that the head read covers
        the slot.  Otherwise there is the job made from the head read and the result is
        explained by it; on success its head was durable at some moment since `before`. */
    ghost predicate Tells(step: Step, r: Option<Result<(), StoreError>>, before: Shared, from: nat)
      reads this
    {
      match r
      case None => !AlertRuns.Uncovered(StateOf(HeadOf(CurrentHead(world.shared, step.monitor.id))), step)
      case Some(Err(ObjectError)) => world.At(me).Idle? && Broke(from)
      case Some(result) => exists j: Job ::
        && j.step == step && Propose(deployment, HeadOf(j.prior), step) == Some(j.proposal)
        && Explains(j, Succeeded(j), result, from)
        && (result.Ok? ==> WasCommitted(before, world.shared, j))
    }

    /** One evaluation. */
    method EvaluateOnce(step: Step) returns (r: Option<Result<(), StoreError>>)
      requires Valid()
      modifies `world, `clock
      ensures Valid() && Evolves(old(world).shared, world.shared)
      ensures Tells(step, r, old(world).shared, old(clock))
    {
      Yield();
      ghost var before := world.shared;
      if unread(clock) {
        var failed := GiveUp();
        r := Some(failed);
      } else {
        r := EvaluateNow(step, old(clock));
        TellsSinceEarlier(step, r, old(world).shared, before, old(clock));
      }
      EvolvesIsTransitive(old(world).shared, before, world.shared);
    }

    lemma TellsSinceEarlier(step: Step, r: Option<Result<(), StoreError>>, before: Shared, after: Shared, from: nat)
      requires Tells(step, r, after, from) && Evolves(before, after)
      ensures Tells(step, r, before, from)
    {
      if r.Some? && r.value.Ok? {
        var j: Job :| j.step == step && Propose(deployment, HeadOf(j.prior), step) == Some(j.proposal)
          && Explains(j, Succeeded(j), r.value, from) && WasCommitted(after, world.shared, j);
        assert before.History(j.Monitor()) <= after.History(j.Monitor());
        assert WasCommitted(before, world.shared, j);
      }
    }

    /** The evaluation from the moment the head is read. */
    method EvaluateNow(step: Step, ghost from: nat) returns (r: Option<Result<(), StoreError>>)
      requires Valid() && from <= clock
      modifies `world, `clock
      ensures Valid() && Evolves(old(world).shared, world.shared)
      ensures Tells(step, r, old(world).shared, from)
    {
      var p := ReadAndPropose(step);
      ghost var read := world.shared;
      if !p.Publishing? && !p.Swapping? {
        UnreadyMeansCovered(deployment, world.shared, step);
        return None;
      }
      var committed := CommitState(p.job);
      EvolvesIsTransitive(old(world).shared, read, world.shared);
      if committed.Ok? {
        assert ProcessInv(deployment, world.shared, world.At(me));
        SucceededWasCommitted(deployment, old(world).shared, world.shared, p.job);
      }
      assert Explains(p.job, Succeeded(p.job), committed, from);
      r := Some(committed);
    }

    /** Compute what to commit from the head as it is. */
    method ReadAndPropose(step: Step) returns (p: Process)
      requires Valid()
      modifies `world
      ensures Valid() && Evolves(old(world).shared, world.shared)
      ensures world.At(me) == p == AfterRead(deployment, world.shared, step)
      ensures p.Publishing? || p.Swapping? ==> |old(world).shared.History(step.monitor.id)| == p.job.since
    {
      Perform(Read(me, step));
      p := world.At(me);
    }
  }

  lemma SucceededWasCommitted(deployment: string, before: Shared, after: Shared, j: Job)
    requires ProcessInv(deployment, after, Succeeded(j)) && |before.History(j.Monitor())| == j.since
    ensures WasCommitted(before, after, j)
  {
  }

  /** The job's head is one the monitor had between the start and the end of the call. */
  ghost predicate WasCommitted(before: Shared, after: Shared, j: Job) {
    exists i :: |before.History(j.Monitor())| - 1 <= i < |after.History(j.Monitor())| && 0 <= i
      && after.History(j.Monitor())[i].proposal.head == j.proposal.head
  }
}
