/** `AlertStore`: the publish and delete operations as the program runs them, one
    store call after another (crates/alert/src/store.rs:80-158, 193-310, 473-538).

    Each call is a step of this process in the protocol of `HeadProtocol`; between
    two calls the other processes take whatever steps `others` says, `answers` says
    what becomes of each conditional PUT, and `unread` which GETs fail.  All three are
    arbitrary. */
module AlertStore {
  import opened Wrappers
  import opened ObjectStore
  import opened HeadProtocol

  datatype StoreError = Conflict | Collision | Missing | ObjectError

  /** Whether a PUT takes effect if it may, under which tag, and what is reported. */
  datatype Answer = Answer(commits: bool, tag: Tag, report: Report)

  /** A write that did not happen is never acknowledged. */
  function Honest(report: Report, commits: bool): Report {
    if report.Acknowledged? && !commits then Ambiguous else report
  }

  class AlertStore {
    const me: nat
    const others: nat -> seq<Action>
    const answers: nat -> Answer
    const unread: nat -> bool
    var clock: nat
    var world: World

    ghost predicate Valid()
      reads this
    {
      Inv(world)
    }

    constructor (me: nat, others: nat -> seq<Action>, answers: nat -> Answer, unread: nat -> bool)
      ensures Valid() && world == InitialWorld()
      ensures this.me == me && this.others == others && this.answers == answers && this.unread == unread
    {
      this.me, this.others, this.answers, this.unread := me, others, answers, unread;
      clock, world := 0, InitialWorld();
    }

    /** Take one step. */
    method Perform(a: Action)
      requires Valid() && Enabled(world, a)
      modifies `world
      ensures world == Next(old(world), a) && Valid() && Evolves(old(world).shared, world.shared)
    {
      StepKeepsInv(world, a);
      world := Next(world, a);
    }

    /** Everyone else takes some steps. */
    method Yield()
      requires Valid()
      modifies `world, `clock
      ensures Valid() && world.At(me) == old(world.At(me)) && Evolves(old(world).shared, world.shared)
      ensures clock == old(clock) + 1
    {
      var steps := others(clock);
      clock := clock + 1;
      for i := 0 to |steps|
        invariant Valid() && world.At(me) == old(world.At(me)) && Evolves(old(world).shared, world.shared)
        invariant clock == old(clock) + 1
      {
        if steps[i].p != me && Enabled(world, steps[i]) {
          ghost var before := world.shared;
          Perform(steps[i]);
          EvolvesIsTransitive(old(world).shared, before, world.shared);
        }
      }
    }

    /** Some PUT or GET after time `from` broke off. */
    ghost predicate Broke(from: nat)
      reads this
    {
      exists t :: from < t <= clock && (answers(t).report.Broken? || unread(t))
    }

    /** What a result says about the store at the end of the call.  On success the
        process is `done`.  A conflict or collision means that what was read back last
        is not the command's own; an object error means that a PUT or GET broke off. */
    ghost predicate Explains(c: Command, done: Process, r: Result<(), StoreError>, from: nat)
      reads this
    {
      var store, stage, head := world.shared.store, c.StageKey(), HeadKey(c.Entity());
      match r
      case Ok(_) => world.At(me) == done
      case Err(ObjectError) => world.At(me).Idle? && Broke(from)
      case Err(Missing) => world.At(me) == Refused(c) && (stage !in store.objects || head !in store.objects)
      case Err(Collision) => world.At(me) == Refused(c) && stage in store.objects && !Has(store, stage, c.StageRecord())
      case Err(Conflict) => world.At(me) == Refused(c) && !Has(store, head, HeadRecord(c.NewHead()))
    }

    /** The conditional PUT of the immutable object. */
    method PutStageObject(c: Command, since: nat) returns (report: Report)
      requires Valid() && world.At(me) == Staging(c, since)
      modifies `world, `clock
      ensures Valid() && Evolves(old(world).shared, world.shared)
      ensures old(clock) <= clock && (report.Broken? ==> Broke(old(clock)))
      ensures world.At(me) == AfterReport(report, Staged(c, since), CheckingStage(c, since))
    {
      Yield();
      var answer := answers(clock);
      var commits := answer.commits && MayCreate(world.shared.store, c.StageKey(), c.StageRecord(), answer.tag);
      report := Honest(answer.report, commits);
      ghost var before := world.shared;
      Perform(PutStage(me, commits, answer.tag, report));
      EvolvesIsTransitive(old(world).shared, before, world.shared);
    }

    /** `create_identical` on the revision or tombstone object: our own bytes found
        there count as success. */
    method CreateStage(c: Command, since: nat) returns (r: Result<(), StoreError>)
      requires Valid() && world.At(me) == Staging(c, since)
      modifies `world, `clock
      ensures Valid() && Evolves(old(world).shared, world.shared)
      ensures old(clock) <= clock && Explains(c, Staged(c, since), r, old(clock))
    {
      var report := PutStageObject(c, since);
      match report
      case Acknowledged => r := Ok(());
      case Broken => r := Err(ObjectError);
      case Ambiguous =>
        ghost var before := world.shared;
        r := ReadBackStage(c, since);
        EvolvesIsTransitive(old(world).shared, before, world.shared);
    }

    /** A GET that fails ends the operation. */
    method GiveUp() returns (r: Result<(), StoreError>)
      requires Valid()
      modifies `world
      ensures Valid() && Evolves(old(world).shared, world.shared) && world.At(me).Idle? && r == Err(ObjectError)
    {
      Perform(Stop(me));
      r := Err(ObjectError);
    }

    /** Read the immutable object back after an ambiguous answer. */
    method ReadBackStage(c: Command, since: nat) returns (r: Result<(), StoreError>)
      requires Valid() && world.At(me) == CheckingStage(c, since)
      modifies `world, `clock
      ensures Valid() && Evolves(old(world).shared, world.shared)
      ensures old(clock) <= clock && Explains(c, Staged(c, since), r, old(clock))
    {
      Yield();
      ghost var before := world.shared;
      if unread(clock) {
        r := GiveUp();
      } else {
        var missing := c.StageKey() !in world.shared.store.objects;
        var identical := Has(world.shared.store, c.StageKey(), c.StageRecord());
        Perform(CheckStage(me));
        r := if identical then Ok(()) else if missing then Err(Missing) else Err(Collision);
      }
      EvolvesIsTransitive(old(world).shared, before, world.shared);
    }

    /** The conditional PUT of the head. */
    method PutHead(c: Command, since: nat, expected: Option<Tag>) returns (report: Report)
      requires Valid() && world.At(me) == Swapping(c, since, expected)
      modifies `world, `clock
      ensures Valid() && Evolves(old(world).shared, world.shared)
      ensures old(clock) <= clock && (report.Broken? ==> Broke(old(clock)))
      ensures world.At(me) == AfterReport(report, Succeeded(c, since), Resolving(c, since))
    {
      Yield();
      var answer := answers(clock);
      var commits := answer.commits && MaySwap(world.shared, c, expected, answer.tag);
      report := Honest(answer.report, commits);
      ghost var before := world.shared;
      Perform(Swap(me, commits, answer.tag, report));
      EvolvesIsTransitive(old(world).shared, before, world.shared);
    }

    /** Read the head back after an ambiguous answer: our own bytes mean the write committed. */
    method ReadBack(c: Command, since: nat, expected: Option<Tag>) returns (r: Result<(), StoreError>)
      requires Valid() && world.At(me) == Resolving(c, since)
      modifies `world, `clock
      ensures Valid() && Evolves(old(world).shared, world.shared)
      ensures old(clock) <= clock && Explains(c, Succeeded(c, since), r, old(clock))
    {
      Yield();
      ghost var before := world.shared;
      if unread(clock) {
        r := GiveUp();
      } else {
        var missing := HeadKey(c.Entity()) !in world.shared.store.objects;
        var identical := Has(world.shared.store, HeadKey(c.Entity()), HeadRecord(c.NewHead()));
        Perform(Resolve(me));
        r := if identical then Ok(()) else if missing && expected.None? then Err(Missing) else Err(Conflict);
      }
      EvolvesIsTransitive(old(world).shared, before, world.shared);
    }

    /** `update`, and `create_identical` on an absent head. */
    method SwapHead(c: Command, since: nat, expected: Option<Tag>) returns (r: Result<(), StoreError>)
      requires Valid() && world.At(me) == Swapping(c, since, expected)
      modifies `world, `clock
      ensures Valid() && Evolves(old(world).shared, world.shared)
      ensures old(clock) <= clock && Explains(c, Succeeded(c, since), r, old(clock))
    {
      var report := PutHead(c, since, expected);
      match report
      case Acknowledged => r := Ok(());
      case Broken => r := Err(ObjectError);
      case Ambiguous =>
        ghost var before := world.shared;
        r := ReadBack(c, since, expected);
        EvolvesIsTransitive(old(world).shared, before, world.shared);
    }

    /** Read the head once and decide: already ours, swap from the predecessor, create, or conflict. */
    method AdvanceHead(c: Command, since: nat) returns (r: Result<(), StoreError>)
      requires Valid() && world.At(me) == Staged(c, since) && c.Publish?
      modifies `world, `clock
      ensures Valid() && Evolves(old(world).shared, world.shared)
      ensures old(clock) <= clock && Explains(c, Succeeded(c, since), r, old(clock))
    {
      Yield();
      var k, b := HeadKey(c.Entity()), c.body;
      var objects := world.shared.store.objects;
      ghost var before := world.shared;
      if unread(clock) {
        r := GiveUp();
        EvolvesIsTransitive(old(world).shared, before, world.shared);
        return;
      }
      Perform(ReadHead(me));
      EvolvesIsTransitive(old(world).shared, before, world.shared);
      ghost var read := world.shared;
      var swap: Option<Option<Tag>> := None;
      if k !in objects {
        if b.revision == 1 && (b.entity.Target? ==> c.observed.None?) {
          swap := Some(None);
        }
      } else if objects[k].record == HeadRecord(c.NewHead()) {
        return Ok(());
      } else if objects[k].record.HeadRecord? && !objects[k].record.head.deleted && objects[k].record.head.revision + 1 == b.revision {
        if b.entity.Rule? {
          swap := Some(Some(objects[k].tag));
        } else if c.observed.Some? {
          swap := Some(c.observed);
        }
      }
      if swap.None? {
        return Err(Conflict);
      }
      r := SwapHead(c, since, swap.value);
      EvolvesIsTransitive(old(world).shared, read, world.shared);
    }

    /** Start a command and write its immutable object. */
    method Begin(c: Command) returns (r: Result<(), StoreError>)
      requires Valid() && MayStart(world.shared, c)
      modifies `world, `clock
      ensures Valid() && Evolves(old(world).shared, world.shared)
      ensures old(clock) <= clock && Explains(c, Staged(c, |old(world).shared.History(c.Entity())|), r, old(clock))
    {
      Perform(Start(me, c));
      ghost var started := world.shared;
      r := CreateStage(c, |world.shared.History(c.Entity())|);
      EvolvesIsTransitive(old(world).shared, started, world.shared);
    }

    /** The swap of a deletion, from the head its caller saw. */
    method DeleteHead(c: Command, since: nat) returns (r: Result<(), StoreError>)
      requires Valid() && world.At(me) == Staged(c, since) && c.Delete?
      modifies `world, `clock
      ensures Valid() && Evolves(old(world).shared, world.shared)
      ensures old(clock) <= clock && Explains(c, Succeeded(c, since), r, old(clock))
    {
      Perform(ReadHead(me));
      ghost var ready := world.shared;
      r := SwapHead(c, since, Some(c.seen));
      EvolvesIsTransitive(old(world).shared, ready, world.shared);
    }

    /** `create_rule_revision`, `create_target_revision`, `tombstone_rule` and
        `tombstone_target`: success means that the command's own head was durable at
        some moment of the call. */
    method Execute(c: Command) returns (r: Result<(), StoreError>)
      requires Valid() && MayStart(world.shared, c)
      modifies `world, `clock
      ensures Valid() && Evolves(old(world).shared, world.shared)
      ensures Explains(c, Succeeded(c, |old(world).shared.History(c.Entity())|), r, old(clock))
      ensures r.Ok? ==> WasHead(old(world).shared, world.shared, c)
    {
      var since := |world.shared.History(c.Entity())|;
      r := Begin(c);
      if r.Err? {
        return;
      }
      ghost var middle := world.shared;
      if c.Publish? {
        r := AdvanceHead(c, since);
      } else {
        r := DeleteHead(c, since);
      }
      EvolvesIsTransitive(old(world).shared, middle, world.shared);
      assert r.Ok? ==> ProcessInv(world.shared, world.At(me));
    }
  }

  /** The command's head is one the entity had between the start and the end of the call. */
  ghost predicate WasHead(before: Shared, after: Shared, c: Command) {
    exists i :: |before.History(c.Entity())| - 1 <= i < |after.History(c.Entity())| && 0 <= i
      && after.History(c.Entity())[i] == c.NewHead()
  }
}
